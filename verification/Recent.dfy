/** The recent-files store: its line-oriented text format, and eviction of the oldest entries. */
module Recent {
  import opened Wrappers
  import opened Arithmetic
  import opened Decimals
  import opened Ordering

  type u64 = n: nat | n <= U64_MAX
  type u32 = n: nat | n <= U32_MAX

  datatype RecentEntry = RecentEntry(uri: string, displayName: string, mimeType: string,
                                     lastAccessed: u64, accessCount: u32, appId: string)

  const TAB: char := '\t'
  const NEWLINE: char := '\n'
  const RETURN: char := '\r'

  // ---- Printing ------------------------------------------------------------

  function Columns(e: RecentEntry): seq<string> {
    [e.uri, e.displayName, e.mimeType, Print(e.lastAccessed), Print(e.accessCount), e.appId]
  }

  /** The parts with a tab between each two. */
  function Join(parts: seq<string>): string
    requires parts != []
  {
    if |parts| == 1 then parts[0] else parts[0] + [TAB] + Join(parts[1..])
  }

  function Line(e: RecentEntry): string {
    Join(Columns(e))
  }

  function Serialize(es: seq<RecentEntry>): string {
    if es == [] then "" else Serialize(es[..|es| - 1]) + (Line(es[|es| - 1]) + [NEWLINE])
  }

  // ---- Parsing -------------------------------------------------------------

  /** The first position of `c`, or the length. */
  function IndexOf(s: string, c: char): (k: nat)
    ensures k <= |s| && (forall j :: 0 <= j < k ==> s[j] != c) && (k < |s| ==> s[k] == c)
  {
    if s == [] || s[0] == c then 0 else IndexOf(s[1..], c) + 1
  }

  /** `strip_suffix('\r')` or the string itself. */
  function StripReturn(s: string): string {
    if s != [] && s[|s| - 1] == RETURN then s[..|s| - 1] else s
  }

  /** `str::lines`: a final line need not end in a newline, and only an ended line loses a carriage return. */
  function Lines(s: string): seq<string>
    decreases |s|
  {
    if s == [] then []
    else
      var k := IndexOf(s, NEWLINE);
      if k == |s| then [s] else [StripReturn(s[..k])] + Lines(s[k + 1..])
  }

  /** `split('\t')` */
  function Fields(s: string): (r: seq<string>)
    ensures 0 < |r|
    decreases |s|
  {
    var k := IndexOf(s, TAB);
    if k == |s| then [s] else [s[..k]] + Fields(s[k + 1..])
  }

  /** `parse` of an unsigned integer: an optional plus sign, then digits that stay within the type. */
  function ParseUnsigned(s: string, max: nat): (r: Option<nat>)
    ensures r.Some? ==> r.value <= max
  {
    var digits := if 1 < |s| && s[0] == '+' then s[1..] else s;
    if digits != [] && AllDigits(digits) && Decimal(digits) <= max then Some(Decimal(digits)) else None
  }

  function ParseLine(line: string): Option<RecentEntry> {
    var parts := Fields(line);
    if |parts| < 6 then None
    else
      var time, count := ParseUnsigned(parts[3], U64_MAX), ParseUnsigned(parts[4], U32_MAX);
      Some(RecentEntry(parts[0], parts[1], parts[2], if time.Some? then time.value else 0,
                       if count.Some? then count.value else 1, parts[5]))
  }

  function ParseLines(lines: seq<string>): seq<RecentEntry> {
    if lines == [] then []
    else
      var e := ParseLine(lines[|lines| - 1]);
      ParseLines(lines[..|lines| - 1]) + (if e.Some? then [e.value] else [])
  }

  // ---- Eviction ------------------------------------------------------------

  function TimeCmp(a: RecentEntry, b: RecentEntry): Order {
    IntCmp(a.lastAccessed, b.lastAccessed)
  }

  /** At most `max` entries: if there are more, the newest, oldest first. */
  function Limited(es: seq<RecentEntry>, max: nat): (r: seq<RecentEntry>)
    ensures |r| == if |es| <= max then |es| else max
  {
    if |es| <= max then es else StableSort(es, TimeCmp)[|es| - max..]
  }

  function Deserialize(data: string, max: nat): seq<RecentEntry> {
    Limited(ParseLines(Lines(data)), max)
  }

  lemma TimeCmpIsOrder()
    ensures TotalPreorder(TimeCmp)
  {
    forall a, b
      ensures ReversesAt(TimeCmp, a, b)
    {
    }
    forall a, b, c
      ensures TransitiveAt(TimeCmp, a, b, c)
    {
    }
  }

  /** Eviction splits the entries into the kept and the dropped, and none dropped is newer than one kept. */
  lemma EvictsTheOldest(es: seq<RecentEntry>, max: nat) returns (dropped: seq<RecentEntry>)
    ensures multiset(dropped) + multiset(Limited(es, max)) == multiset(es)
    ensures forall i, j :: 0 <= i < |dropped| && 0 <= j < |Limited(es, max)| ==>
              dropped[i].lastAccessed <= Limited(es, max)[j].lastAccessed
  {
    if |es| <= max {
      dropped := [];
    } else {
      TimeCmpIsOrder();
      StableSortSorts(es, TimeCmp);
      var sorted := StableSort(es, TimeCmp);
      dropped := sorted[..|es| - max];
      assert sorted == dropped + Limited(es, max);
      forall i, j | 0 <= i < |dropped| && 0 <= j < |Limited(es, max)|
        ensures dropped[i].lastAccessed <= Limited(es, max)[j].lastAccessed
      {
        assert TimeCmp(sorted[i], sorted[|dropped| + j]) != Greater;
      }
    }
  }

  // ---- Round trip ----------------------------------------------------------

  ghost predicate Separable(s: string) {
    TAB !in s && NEWLINE !in s
  }

  /** No field holds a separator of the format. */
  ghost predicate SeparableEntry(e: RecentEntry) {
    Separable(e.uri) && Separable(e.displayName) && Separable(e.mimeType) && Separable(e.appId)
  }

  /** What one entry comes back as. */
  function Reread(e: RecentEntry): RecentEntry {
    e.(appId := StripReturn(e.appId))
  }

  lemma IndexOfIs(s: string, c: char, k: nat)
    requires k <= |s| && (forall j :: 0 <= j < k ==> s[j] != c) && (k < |s| ==> s[k] == c)
    ensures IndexOf(s, c) == k
  {
  }

  lemma FirstField(a: string, rest: string)
    requires TAB !in a
    ensures Fields(a + [TAB] + rest) == [a] + Fields(rest)
  {
    var s := a + [TAB] + rest;
    assert s[..|a|] == a && s[|a| + 1..] == rest;
    IndexOfIs(s, TAB, |a|);
  }

  /** Splitting what was joined gives the parts back. */
  lemma {:induction false} JoinSplits(parts: seq<string>)
    requires parts != [] && forall k :: 0 <= k < |parts| ==> TAB !in parts[k]
    ensures Fields(Join(parts)) == parts
  {
    if |parts| == 1 {
      IndexOfIs(parts[0], TAB, |parts[0]|);
    } else {
      JoinSplits(parts[1..]);
      FirstField(parts[0], Join(parts[1..]));
    }
  }

  lemma PrintParses(n: nat, max: nat)
    requires n <= max
    ensures ParseUnsigned(Print(n), max) == Some(n) && Separable(Print(n))
  {
    PrintThenRead(n);
    assert Print(n)[0] != '+';
  }

  lemma LineParses(e: RecentEntry)
    requires SeparableEntry(e)
    ensures ParseLine(Line(e)) == Some(e)
  {
    PrintParses(e.lastAccessed, U64_MAX);
    PrintParses(e.accessCount, U32_MAX);
    JoinSplits(Columns(e));
  }

  /** Stripping a line strips its last part. */
  lemma {:induction false} StripJoined(parts: seq<string>)
    requires 1 < |parts|
    ensures StripReturn(Join(parts)) == Join(parts[|parts| - 1 := StripReturn(parts[|parts| - 1])])
  {
    var head, rest := parts[0] + [TAB], parts[1..];
    var stripped := parts[|parts| - 1 := StripReturn(parts[|parts| - 1])];
    assert Join(parts) == head + Join(rest);
    assert stripped[0] == parts[0];
    if |rest| == 1 {
      assert stripped[1..] == [StripReturn(rest[0])];
    } else {
      StripJoined(rest);
      assert stripped[1..] == rest[|rest| - 1 := StripReturn(rest[|rest| - 1])];
    }
    StripConcat(head, Join(rest));
  }

  lemma StripConcat(head: string, s: string)
    requires head != [] && head[|head| - 1] != RETURN
    ensures StripReturn(head + s) == head + StripReturn(s)
  {
    if s == [] {
      assert head + s == head;
    } else {
      assert (head + s)[..|head + s| - 1] == head + s[..|s| - 1];
    }
  }

  lemma StripLine(e: RecentEntry)
    ensures StripReturn(Line(e)) == Line(Reread(e))
  {
    StripJoined(Columns(e));
    assert Columns(e)[5 := StripReturn(e.appId)] == Columns(Reread(e));
  }

  lemma {:induction false} JoinHolds(parts: seq<string>, c: char)
    requires parts != [] && c != TAB && forall k :: 0 <= k < |parts| ==> c !in parts[k]
    ensures c !in Join(parts)
  {
    if |parts| > 1 {
      JoinHolds(parts[1..], c);
    }
  }

  lemma LineHasNoNewline(e: RecentEntry)
    requires SeparableEntry(e)
    ensures NEWLINE !in Line(e)
  {
    PrintParses(e.lastAccessed, U64_MAX);
    PrintParses(e.accessCount, U32_MAX);
    JoinHolds(Columns(e), NEWLINE);
  }

  lemma FirstLine(s: string, k: nat)
    requires k < |s| && (forall j :: 0 <= j < k ==> s[j] != NEWLINE) && s[k] == NEWLINE
    ensures Lines(s) == [StripReturn(s[..k])] + Lines(s[k + 1..])
  {
    IndexOfIs(s, NEWLINE, k);
  }

  lemma FirstLineConcat(a: string, b: string, k: nat)
    requires k < |a| && (forall j :: 0 <= j < k ==> a[j] != NEWLINE) && a[k] == NEWLINE
    ensures Lines(a + b) == [StripReturn(a[..k])] + Lines(a[k + 1..] + b)
  {
    FirstLine(a + b, k);
    assert (a + b)[..k] == a[..k] && (a + b)[k + 1..] == a[k + 1..] + b;
  }

  lemma {:induction false} LinesConcat(a: string, b: string)
    requires a == [] || a[|a| - 1] == NEWLINE
    ensures Lines(a + b) == Lines(a) + Lines(b)
    decreases |a|
  {
    if a == [] {
      assert a + b == b;
    } else {
      var k := IndexOf(a, NEWLINE);
      FirstLine(a, k);
      FirstLineConcat(a, b, k);
      LinesConcat(a[k + 1..], b);
      ConcatAssociates([StripReturn(a[..k])], Lines(a[k + 1..]), Lines(b));
    }
  }

  lemma ConcatAssociates<T>(x: seq<T>, y: seq<T>, z: seq<T>)
    ensures x + (y + z) == (x + y) + z
  {
  }

  lemma OneLine(s: string)
    requires NEWLINE !in s
    ensures Lines(s + [NEWLINE]) == [StripReturn(s)]
  {
    var t := s + [NEWLINE];
    assert t[..|s|] == s && t[|s| + 1..] == [];
    IndexOfIs(t, NEWLINE, |s|);
  }

  lemma {:induction false} SerializedEndsInNewline(es: seq<RecentEntry>)
    ensures es != [] ==> Serialize(es) != [] && Serialize(es)[|Serialize(es)| - 1] == NEWLINE
    ensures es == [] ==> Serialize(es) == []
  {
  }

  lemma LinesOfSerialized(es: seq<RecentEntry>)
    requires es != [] && SeparableEntry(es[|es| - 1])
    ensures Lines(Serialize(es)) == Lines(Serialize(es[..|es| - 1])) + [Line(Reread(es[|es| - 1]))]
  {
    var front, e := es[..|es| - 1], es[|es| - 1];
    SerializedEndsInNewline(front);
    LinesConcat(Serialize(front), Line(e) + [NEWLINE]);
    LineHasNoNewline(e);
    OneLine(Line(e));
    StripLine(e);
  }

  lemma ParseLinesAppend(lines: seq<string>, line: string, e: RecentEntry)
    requires ParseLine(line) == Some(e)
    ensures ParseLines(lines + [line]) == ParseLines(lines) + [e]
  {
    assert (lines + [line])[..|lines|] == lines;
  }

  lemma LastEntryParses(es: seq<RecentEntry>)
    requires es != [] && SeparableEntry(es[|es| - 1])
    ensures ParseLines(Lines(Serialize(es))) ==
            ParseLines(Lines(Serialize(es[..|es| - 1]))) + [Reread(es[|es| - 1])]
  {
    var e := Reread(es[|es| - 1]);
    LinesOfSerialized(es);
    RereadIsSeparable(es[|es| - 1]);
    LineParses(e);
    ParseLinesAppend(Lines(Serialize(es[..|es| - 1])), Line(e), e);
  }

  /** Reading back what was written gives each entry, its `app_id` without a final carriage return. */
  lemma {:induction false} SerializedParses(es: seq<RecentEntry>)
    requires forall k :: 0 <= k < |es| ==> SeparableEntry(es[k])
    ensures var read := ParseLines(Lines(Serialize(es)));
            |read| == |es| && forall k :: 0 <= k < |es| ==> read[k] == Reread(es[k])
  {
    if es != [] {
      var front := es[..|es| - 1];
      SerializedParses(front);
      LastEntryParses(es);
      RereadOneMore(es, ParseLines(Lines(Serialize(front))));
    }
  }

  lemma RereadOneMore(es: seq<RecentEntry>, before: seq<RecentEntry>)
    requires es != [] && |before| == |es| - 1
    requires forall k :: 0 <= k < |before| ==> before[k] == Reread(es[..|es| - 1][k])
    ensures var read := before + [Reread(es[|es| - 1])];
            |read| == |es| && forall k :: 0 <= k < |es| ==> read[k] == Reread(es[k])
  {
  }

  lemma RereadIsSeparable(e: RecentEntry)
    requires SeparableEntry(e)
    ensures SeparableEntry(Reread(e))
  {
  }

  lemma {:induction false} FieldsHoldNoTab(s: string, k: nat)
    requires k < |Fields(s)|
    ensures TAB !in Fields(s)[k]
    decreases |s|
  {
    var i := IndexOf(s, TAB);
    if k == 0 {
      FirstFieldIs(s);
    } else {
      FieldsHoldNoTab(s[i + 1..], k - 1);
    }
  }

  lemma FirstFieldIs(s: string)
    ensures Fields(s)[0] == s[..IndexOf(s, TAB)] && TAB !in s[..IndexOf(s, TAB)]
  {
    assert s[..|s|] == s;
  }

  lemma {:induction false} FieldsHoldNoNewline(s: string, k: nat)
    requires k < |Fields(s)| && NEWLINE !in s
    ensures NEWLINE !in Fields(s)[k]
    decreases |s|
  {
    var i := IndexOf(s, TAB);
    if k == 0 {
      FirstFieldIs(s);
    } else {
      FieldsHoldNoNewline(s[i + 1..], k - 1);
    }
  }

  lemma FieldsAreSeparable(s: string, k: nat)
    requires k < |Fields(s)| && NEWLINE !in s
    ensures Separable(Fields(s)[k])
  {
    FieldsHoldNoTab(s, k);
    FieldsHoldNoNewline(s, k);
  }

  lemma {:induction false} LinesHoldNoNewline(s: string, k: nat)
    requires k < |Lines(s)|
    ensures NEWLINE !in Lines(s)[k]
    decreases |s|
  {
    var i := IndexOf(s, NEWLINE);
    if i < |s| {
      FirstLine(s, i);
      assert NEWLINE !in StripReturn(s[..i]);
      if k > 0 {
        LinesHoldNoNewline(s[i + 1..], k - 1);
      }
    }
  }

  /** Whatever text is read, no entry read from it holds a separator. */
  lemma {:induction false} ParsedIsSeparable(lines: seq<string>, k: nat)
    requires (forall i :: 0 <= i < |lines| ==> NEWLINE !in lines[i]) && k < |ParseLines(lines)|
    ensures SeparableEntry(ParseLines(lines)[k])
  {
    var front, line := lines[..|lines| - 1], lines[|lines| - 1];
    if k < |ParseLines(front)| {
      ParsedIsSeparable(front, k);
    } else {
      FieldsAreSeparable(line, 0);
      FieldsAreSeparable(line, 1);
      FieldsAreSeparable(line, 2);
      FieldsAreSeparable(line, 5);
    }
  }

  lemma DeserializedIsSeparable(data: string, max: nat, k: nat)
    requires k < |Deserialize(data, max)|
    ensures SeparableEntry(Deserialize(data, max)[k])
  {
    var lines := Lines(data);
    forall i | 0 <= i < |lines|
      ensures NEWLINE !in lines[i]
    {
      LinesHoldNoNewline(data, i);
    }
    var es := ParseLines(lines);
    var dropped := EvictsTheOldest(es, max);
    var e := Deserialize(data, max)[k];
    assert e in multiset(Limited(es, max));
    assert e in multiset(es);
    var j :| 0 <= j < |es| && es[j] == e;
    ParsedIsSeparable(lines, j);
  }

  /** The entries that the format can carry. */
  ghost predicate Carried(e: RecentEntry) {
    SeparableEntry(e) && StripReturn(e.appId) == e.appId
  }

  /** A limit that gives back as many entries as there were has cut nothing off. */
  lemma UnchangedIsCarried(es: seq<RecentEntry>, read: seq<RecentEntry>, max: nat)
    requires |read| == |es| && Limited(read, max) == es
    requires forall k :: 0 <= k < |es| ==> SeparableEntry(es[k]) && read[k] == Reread(es[k])
    ensures forall k :: 0 <= k < |es| ==> Carried(es[k])
  {
    assert read == es;
    forall k | 0 <= k < |es|
      ensures Carried(es[k])
    {
      assert read[k] == Reread(es[k]);
    }
  }

  lemma CarriedIsReread(es: seq<RecentEntry>)
    requires forall k :: 0 <= k < |es| ==> Carried(es[k])
    ensures ParseLines(Lines(Serialize(es))) == es
  {
    forall k | 0 <= k < |es|
      ensures SeparableEntry(es[k]) && Reread(es[k]) == es[k]
    {
      assert Carried(es[k]);
    }
    SerializedParses(es);
  }

  /** The format restores a list of entries exactly when it fits and every entry can be carried. */
  lemma RoundTripIff(es: seq<RecentEntry>, max: nat)
    ensures Deserialize(Serialize(es), max) == es <==>
              |es| <= max && forall k :: 0 <= k < |es| ==> Carried(es[k])
  {
    var text := Serialize(es);
    var restored := Deserialize(text, max);
    if restored == es {
      forall k | 0 <= k < |restored|
        ensures SeparableEntry(restored[k])
      {
        DeserializedIsSeparable(text, max, k);
      }
      SerializedParses(es);
      UnchangedIsCarried(es, ParseLines(Lines(text)), max);
    }
    if |es| <= max && forall k :: 0 <= k < |es| ==> Carried(es[k]) {
      CarriedIsReread(es);
    }
  }

  // ---- The store -----------------------------------------------------------

  /** The first entry with this uri. */
  function PositionOf(es: seq<RecentEntry>, uri: string): (r: Option<nat>)
    ensures r == None <==> forall k :: 0 <= k < |es| ==> es[k].uri != uri
    ensures r.Some? ==> r.value < |es| && es[r.value].uri == uri
                        && forall k :: 0 <= k < r.value ==> es[k].uri != uri
  {
    if es == [] then None
    else if es[0].uri == uri then Some(0)
    else match PositionOf(es[1..], uri) case None => None case Some(k) => Some(k + 1)
  }

  /** Another access: the counter wraps around as an unchecked u32 does. */
  function Touched(e: RecentEntry, time: u64, appId: string): RecentEntry {
    e.(accessCount := if e.accessCount == U32_MAX then 0 else e.accessCount + 1, lastAccessed := time, appId := appId)
  }

  datatype Access = Access(uri: string, name: string, mime: string, time: u64, appId: string)

  /** The entries after an access, before the limit is enforced. */
  function Grown(es: seq<RecentEntry>, a: Access): seq<RecentEntry> {
    var pos := PositionOf(es, a.uri);
    if pos.Some? then es[pos.value := Touched(es[pos.value], a.time, a.appId)]
    else es + [RecentEntry(a.uri, a.name, a.mime, a.time, 1, a.appId)]
  }

  function Added(es: seq<RecentEntry>, max: nat, a: Access): seq<RecentEntry> {
    Limited(Grown(es, a), max)
  }

  ghost predicate DistinctUris(es: seq<RecentEntry>) {
    forall i, j :: 0 <= i < j < |es| ==> es[i].uri != es[j].uri
  }

  lemma LimitedKeepsDistinct(es: seq<RecentEntry>, max: nat)
    requires DistinctUris(es)
    ensures DistinctUris(Limited(es, max))
  {
    if |es| > max {
      TimeCmpIsOrder();
      StableSortSorts(es, TimeCmp);
      RearrangedDistinct(es, StableSort(es, TimeCmp));
    }
  }

  lemma RearrangedDistinct(s: seq<RecentEntry>, t: seq<RecentEntry>)
    requires DistinctUris(s) && multiset(s) == multiset(t)
    ensures DistinctUris(t)
  {
    forall i, j | 0 <= i < j < |t|
      ensures t[i].uri != t[j].uri
    {
      assert t[i] in multiset(t) && t[j] in multiset(t);
      assert t[i] in s && t[j] in s;
      TwiceInMultiset(t, i, j);
      OnceInMultiset(s, t[i]);
    }
  }

  lemma TwiceInMultiset(t: seq<RecentEntry>, i: nat, j: nat)
    requires i < j < |t|
    ensures t[i] == t[j] ==> multiset(t)[t[i]] >= 2
  {
    var a, b, c := t[..i], t[i + 1..j], t[j + 1..];
    assert t == a + [t[i]] + b + [t[j]] + c;
    assert multiset(t) == multiset(a) + multiset{t[i]} + multiset(b) + multiset{t[j]} + multiset(c);
  }

  lemma {:induction false} OnceInMultiset(s: seq<RecentEntry>, e: RecentEntry)
    requires DistinctUris(s)
    ensures multiset(s)[e] <= 1
  {
    if s != [] {
      assert s == [s[0]] + s[1..];
      OnceInMultiset(s[1..], e);
      if e == s[0] {
        assert e !in s[1..];
      }
    }
  }

  lemma GrownIsDistinct(es: seq<RecentEntry>, a: Access)
    requires DistinctUris(es)
    ensures DistinctUris(Grown(es, a))
  {
  }

  /** Adding keeps one entry a file, and the store within its limit. */
  lemma AddedKeepsStore(es: seq<RecentEntry>, max: nat, a: Access)
    requires DistinctUris(es)
    ensures DistinctUris(Added(es, max, a)) && |Added(es, max, a)| <= max
  {
    GrownIsDistinct(es, a);
    LimitedKeepsDistinct(Grown(es, a), max);
  }

  /** The entry of the accessed file. */
  lemma GrownAt(es: seq<RecentEntry>, a: Access) returns (at: nat)
    ensures at < |Grown(es, a)| && Grown(es, a)[at].uri == a.uri && Grown(es, a)[at].lastAccessed == a.time
    ensures forall k :: 0 <= k < |Grown(es, a)| && k != at ==> k < |es| && Grown(es, a)[k] == es[k]
  {
    var pos := PositionOf(es, a.uri);
    at := if pos.Some? then pos.value else |es|;
  }

  ghost function EntryUris(es: seq<RecentEntry>): set<string> {
    set k | 0 <= k < |es| :: es[k].uri
  }

  lemma GrownUris(es: seq<RecentEntry>, a: Access)
    ensures EntryUris(Grown(es, a)) == EntryUris(es) + {a.uri}
  {
    var grown := Grown(es, a);
    var at := GrownAt(es, a);
    assert grown[at].uri in EntryUris(grown);
    forall k | 0 <= k < |es|
      ensures es[k].uri in EntryUris(grown)
    {
      assert grown[k].uri == es[k].uri;
    }
  }

  // ---- Whether an access is kept -------------------------------------------

  /** Some entry of another file was not accessed later. */
  ghost predicate OtherNotLater(es: seq<RecentEntry>, a: Access) {
    exists k :: 0 <= k < |es| && es[k].uri != a.uri && es[k].lastAccessed <= a.time
  }

  /** The entries hold the accessed file, with the time of this access. */
  ghost predicate HoldsAccess(es: seq<RecentEntry>, a: Access) {
    exists e :: e in es && e.uri == a.uri && e.lastAccessed == a.time
  }

  /** An element put behind others of its class does not come first when they are sorted stably. */
  lemma LastOfClassIsNotFirst(es: seq<RecentEntry>, e: RecentEntry, y: RecentEntry)
    requires e !in es && y in es && y.lastAccessed == e.lastAccessed
    ensures StableSort(es + [e], TimeCmp)[0] != e
  {
    var grown, sorted := es + [e], StableSort(es + [e], TimeCmp);
    TimeCmpIsOrder();
    StableSortSorts(grown, TimeCmp);
    ClassConcat(es, [e], e, TimeCmp);
    assert TimeCmp(e, y) == Equal;
    ClassHead(es, e, TimeCmp);
    var first := Class(es, e, TimeCmp)[0];
    assert first in Class(es, e, TimeCmp);
    ClassMembers(es, e, first, TimeCmp);
    assert Class(grown, e, TimeCmp)[0] == first;
    assert Class(sorted, e, TimeCmp)[0] == first;
  }

  /** The new entry of a full store is sorted first, and dropped, exactly if every other is later. */
  lemma NewEntryFirstIff(es: seq<RecentEntry>, a: Access)
    requires DistinctUris(es) && PositionOf(es, a.uri) == None
    ensures var e := RecentEntry(a.uri, a.name, a.mime, a.time, 1, a.appId);
            StableSort(es + [e], TimeCmp)[0] == e <==> !OtherNotLater(es, a)
  {
    var e := RecentEntry(a.uri, a.name, a.mime, a.time, 1, a.appId);
    var grown, sorted := es + [e], StableSort(es + [e], TimeCmp);
    TimeCmpIsOrder();
    StableSortSorts(grown, TimeCmp);
    assert sorted[0] in multiset(sorted);
    assert sorted[0] in grown;
    if OtherNotLater(es, a) {
      var k :| 0 <= k < |es| && es[k].uri != a.uri && es[k].lastAccessed <= a.time;
      if es[k].lastAccessed == a.time {
        LastOfClassIsNotFirst(es, e, es[k]);
      } else {
        FirstIsOldest(grown, es[k]);
      }
    } else {
      assert e == grown[|es|];
      FirstIsOldest(grown, e);
    }
  }

  lemma FirstIsOldest(es: seq<RecentEntry>, e: RecentEntry)
    requires e in es
    ensures StableSort(es, TimeCmp)[0].lastAccessed <= e.lastAccessed
  {
    var sorted := StableSort(es, TimeCmp);
    TimeCmpIsOrder();
    StableSortSorts(es, TimeCmp);
    assert e in multiset(es);
    assert e in multiset(sorted);
    var j :| 0 <= j < |sorted| && sorted[j] == e;
    if j > 0 {
      assert TimeCmp(sorted[0], sorted[j]) != Greater;
    }
  }

  /** What one entry too many leaves: all but the first of the sorted entries. */
  lemma LimitedDropsFirst(es: seq<RecentEntry>, max: nat)
    requires |es| == max + 1 && DistinctUris(es)
    ensures var first := StableSort(es, TimeCmp)[0];
            first in es && forall e :: e in Limited(es, max) <==> e in es && e != first
  {
    var sorted := StableSort(es, TimeCmp);
    TimeCmpIsOrder();
    StableSortSorts(es, TimeCmp);
    RearrangedDistinct(es, sorted);
    assert Limited(es, max) == sorted[1..];
    forall e
      ensures e in es <==> e in sorted
    {
      assert e in es <==> e in multiset(es);
      assert e in sorted <==> e in multiset(sorted);
    }
    assert sorted == [sorted[0]] + sorted[1..];
    assert sorted[0] !in sorted[1..];
  }

  lemma HeldByUri(es: seq<RecentEntry>, grown: seq<RecentEntry>, a: Access)
    requires forall e :: e in es ==> e in grown
    requires forall e :: e in grown && e.uri == a.uri ==> e.lastAccessed == a.time
    ensures a.uri in EntryUris(es) <==> HoldsAccess(es, a)
  {
    if a.uri in EntryUris(es) {
      var k :| 0 <= k < |es| && es[k].uri == a.uri;
      assert es[k] in es && es[k] in grown;
    }
  }

  /** The access is kept exactly if there is room, or some other file was not accessed later. */
  lemma AccessIsKeptIff(es: seq<RecentEntry>, max: nat, a: Access)
    requires DistinctUris(es) && |es| <= max
    ensures HoldsAccess(Added(es, max, a), a) <==> |Grown(es, a)| <= max || OtherNotLater(es, a)
    ensures a.uri in EntryUris(Added(es, max, a)) <==> HoldsAccess(Added(es, max, a), a)
  {
    var grown := Grown(es, a);
    var at := GrownAt(es, a);
    GrownIsDistinct(es, a);
    assert grown[at] in grown;
    assert forall e :: e in grown && e.uri == a.uri ==> e == grown[at];
    if |grown| <= max {
      HeldByUri(grown, grown, a);
    } else {
      LimitedDropsFirst(grown, max);
      NewEntryFirstIff(es, a);
      HeldByUri(Added(es, max, a), grown, a);
    }
  }

  class RecentStore {
    var entries: seq<RecentEntry>
    var maxEntries: nat

    constructor (max: nat)
      ensures entries == [] && maxEntries == max
    {
      entries, maxEntries := [], max;
    }

    method Add(uri: string, name: string, mime: string, time: u64, appId: string)
      modifies this`entries
      ensures entries == Added(old(entries), maxEntries, Access(uri, name, mime, time, appId))
    {
      var existing := PositionOf(entries, uri);
      if existing.Some? {
        entries := entries[existing.value := Touched(entries[existing.value], time, appId)];
      } else {
        entries := entries + [RecentEntry(uri, name, mime, time, 1, appId)];
      }
      EnforceLimit();
    }

    method EnforceLimit()
      modifies this`entries
      ensures entries == Limited(old(entries), maxEntries)
    {
      if |entries| > maxEntries {
        var slice := new RecentEntry[|entries|](i requires 0 <= i < |entries| reads this => entries[i]);
        assert slice[..] == entries;
        TimeCmpIsOrder();
        SortBy(slice, TimeCmp);
        SortedStablyIsStableSort(entries, slice[..], TimeCmp);
        var excess := |entries| - maxEntries;
        entries := slice[excess..];
      }
    }

    method ToText() returns (out: string)
      ensures out == Serialize(entries)
    {
      out := "";
      for k := 0 to |entries|
        invariant out == Serialize(entries[..k])
      {
        assert entries[..k + 1][..k] == entries[..k];
        out := out + (Line(entries[k]) + [NEWLINE]);
      }
      assert entries[..|entries|] == entries;
    }

    method FromText(data: string)
      modifies this`entries
      ensures entries == Deserialize(data, maxEntries)
    {
      entries := [];
      var lines := Lines(data);
      for k := 0 to |lines|
        invariant entries == ParseLines(lines[..k])
      {
        assert lines[..k + 1][..k] == lines[..k];
        var e := ParseLine(lines[k]);
        if e.Some? {
          entries := entries + [e.value];
        }
      }
      assert lines[..|lines|] == lines;
      EnforceLimit();
    }
  }
}
