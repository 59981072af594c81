/** What the text format of the recent-files store is: its lines, their fields, and how a faulty line is read. */
module RecentFormat {
  import opened Wrappers
  import opened Arithmetic
  import opened Decimals
  import opened Ordering
  import opened Recent

  // ---- Writing -------------------------------------------------------------

  lemma JoinPrepend(first: string, rest: seq<string>)
    requires rest != []
    ensures Join([first] + rest) == first + "\t" + Join(rest)
  {
    assert ([first] + rest)[1..] == rest;
  }

  /** A line is the six fields in this order, with tabs between them. */
  lemma LineIs(e: RecentEntry)
    ensures Line(e) == e.uri + "\t" + (e.displayName + "\t" + (e.mimeType + "\t" + (Print(e.lastAccessed) + "\t" +
                       (Print(e.accessCount) + "\t" + e.appId))))
  {
    var id := [e.appId];
    var count := [Print(e.accessCount)] + id;
    var time := [Print(e.lastAccessed)] + count;
    var mime := [e.mimeType] + time;
    var name := [e.displayName] + mime;
    JoinPrepend(Print(e.accessCount), id);
    JoinPrepend(Print(e.lastAccessed), count);
    JoinPrepend(e.mimeType, time);
    JoinPrepend(e.displayName, mime);
    JoinPrepend(e.uri, name);
    assert Columns(e) == [e.uri] + name;
  }

  lemma SerializedEntry(e: RecentEntry)
    ensures Serialize([e]) == Line(e) + "\n"
  {
    assert [e][..0] == [];
  }

  /** With the line of a single entry this makes the text of a store its ended lines, in order. */
  lemma {:induction false} SerializeConcat(es: seq<RecentEntry>, fs: seq<RecentEntry>)
    ensures Serialize(es + fs) == Serialize(es) + Serialize(fs)
    decreases |fs|
  {
    if fs == [] {
      assert es + fs == es;
    } else {
      var front, last := fs[..|fs| - 1], Line(fs[|fs| - 1]) + [NEWLINE];
      SerializeConcat(es, front);
      assert (es + fs)[..|es + fs| - 1] == es + front;
      ConcatAssociates(Serialize(es), Serialize(front), last);
    }
  }

  // ---- Reading -------------------------------------------------------------

  /** Only the last line may lack its newline, and only an ended line loses one carriage return. */
  lemma LinesAre(s: string, rest: string)
    requires '\n' !in s
    ensures Lines(s + "\n" + rest) ==
            [if s != [] && s[|s| - 1] == '\r' then s[..|s| - 1] else s] + Lines(rest)
    ensures Lines(s) == if s == [] then [] else [s]
  {
    var t := s + "\n" + rest;
    assert t[..|s|] == s && t[|s| + 1..] == rest;
    FirstLine(t, |s|);
    IndexOfIs(s, NEWLINE, |s|);
  }

  /** A number is an optional plus sign and digits, and is read if it fits. */
  lemma ParseUnsignedIff(s: string, max: nat, n: nat)
    ensures ParseUnsigned(s, max) == Some(n) <==>
              n <= max && (IsNumeral(s, n) || (s != [] && s[0] == '+' && IsNumeral(s[1..], n)))
  {
  }

  ghost predicate IsNumeral(s: string, n: nat) {
    s != [] && AllDigits(s) && Decimal(s) == n
  }

  /** What a field counts for: its number, or the default if it does not read as a number that fits. */
  ghost predicate ReadsAs(field: string, max: nat, default: nat, n: nat) {
    ParseUnsigned(field, max) == Some(n) || (ParseUnsigned(field, max) == None && n == default)
  }

  /** A line of fewer than six fields is skipped; of any other the first six make the entry. */
  lemma ParsedLine(parts: seq<string>)
    requires parts != [] && forall k :: 0 <= k < |parts| ==> '\t' !in parts[k]
    ensures var r := ParseLine(Join(parts));
            if |parts| < 6 then r == None else
              && r.Some? && r.value.uri == parts[0] && r.value.displayName == parts[1] && r.value.mimeType == parts[2]
              && ReadsAs(parts[3], U64_MAX, 0, r.value.lastAccessed)
              && ReadsAs(parts[4], U32_MAX, 1, r.value.accessCount) && r.value.appId == parts[5]
  {
    JoinSplits(parts);
  }

  /** Every line is of this form. */
  lemma {:induction false} FieldsJoin(s: string)
    ensures Join(Fields(s)) == s && forall k :: 0 <= k < |Fields(s)| ==> '\t' !in Fields(s)[k]
    decreases |s|
  {
    var k := IndexOf(s, TAB);
    forall i | 0 <= i < |Fields(s)|
      ensures '\t' !in Fields(s)[i]
    {
      FieldsHoldNoTab(s, i);
    }
    if k < |s| {
      FieldsJoin(s[k + 1..]);
      assert Fields(s)[1..] == Fields(s[k + 1..]);
      assert s == s[..k] + [TAB] + s[k + 1..];
    }
  }

  lemma ParsedSingle(line: string)
    ensures ParseLines([line]) == match ParseLine(line) case None => [] case Some(e) => [e]
  {
    assert [line][..0] == [];
  }

  /** Lines are read one by one, in order. */
  lemma {:induction false} ParseLinesConcat(a: seq<string>, b: seq<string>)
    ensures ParseLines(a + b) == ParseLines(a) + ParseLines(b)
    decreases |b|
  {
    if b == [] {
      assert a + b == a;
    } else {
      var front, last := b[..|b| - 1], b[|b| - 1];
      ParseLinesConcat(a, front);
      assert (a + b)[..|a + b| - 1] == a + front;
      ConcatAssociates(ParseLines(a), ParseLines(front), if ParseLine(last).Some? then [ParseLine(last).value] else []);
    }
  }

  // ---- The limit -----------------------------------------------------------

  /** What is left of too many entries is in the order of access; otherwise nothing is moved. */
  lemma LimitedIsSorted(es: seq<RecentEntry>, max: nat)
    ensures |es| <= max ==> Limited(es, max) == es
    ensures |es| > max ==> forall i, j :: 0 <= i < j < |Limited(es, max)| ==>
              Limited(es, max)[i].lastAccessed <= Limited(es, max)[j].lastAccessed
  {
    if |es| > max {
      TimeCmpIsOrder();
      StableSortSorts(es, TimeCmp);
      var sorted, excess := StableSort(es, TimeCmp), |es| - max;
      forall i, j | 0 <= i < j < max
        ensures sorted[excess..][i].lastAccessed <= sorted[excess..][j].lastAccessed
      {
        assert TimeCmp(sorted[excess + i], sorted[excess + j]) != Greater;
      }
    }
  }
}
