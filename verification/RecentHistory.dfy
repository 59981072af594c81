/** What the recent-files store holds after a history of accesses. */
module RecentHistory {
  import opened Wrappers
  import opened Arithmetic
  import opened Ordering
  import opened Recent

  /** The store after a history of accesses, from empty. */
  function AfterAccesses(log: seq<Access>, max: nat): seq<RecentEntry> {
    if log == [] then [] else Added(AfterAccesses(log[..|log| - 1], max), max, log[|log| - 1])
  }

  function Times(log: seq<Access>, uri: string): nat {
    if log == [] then 0 else Times(log[..|log| - 1], uri) + (if log[|log| - 1].uri == uri then 1 else 0)
  }

  /** The files accessed. */
  ghost function Uris(log: seq<Access>): set<string> {
    set i | 0 <= i < |log| :: log[i].uri
  }

  lemma {:induction false} EntryUrisCount(es: seq<RecentEntry>)
    requires DistinctUris(es)
    ensures |EntryUris(es)| == |es|
  {
    if es != [] {
      var front, last := es[..|es| - 1], es[|es| - 1];
      EntryUrisCount(front);
      assert last.uri !in EntryUris(front);
      assert EntryUris(es) == EntryUris(front) + {last.uri};
    }
  }

  lemma SubsetCount<T>(a: set<T>, b: set<T>)
    requires a <= b
    ensures |a| <= |b|
  {
    assert b == a + (b - a);
  }

  /** The entry tells how its file was first named, how often it was accessed in 32 bits, and when and by what last. */
  ghost predicate Remembers(log: seq<Access>, e: RecentEntry) {
    && e.accessCount == Times(log, e.uri) % (U32_MAX + 1)
    && (exists i :: LastAccess(log, e.uri, i) && log[i].time == e.lastAccessed && log[i].appId == e.appId)
    && exists i :: FirstAccess(log, e.uri, i) && log[i].name == e.displayName && log[i].mime == e.mimeType
  }

  ghost predicate FirstAccess(log: seq<Access>, uri: string, i: int) {
    0 <= i < |log| && log[i].uri == uri && forall j :: 0 <= j < i ==> log[j].uri != uri
  }

  ghost predicate LastAccess(log: seq<Access>, uri: string, i: int) {
    0 <= i < |log| && log[i].uri == uri && forall j :: i < j < |log| ==> log[j].uri != uri
  }

  ghost predicate RemembersEach(log: seq<Access>, es: seq<RecentEntry>) {
    forall k :: 0 <= k < |es| ==> Remembers(log, es[k])
  }

  /** One entry for each accessed file, and it remembers the accesses of that file. */
  ghost predicate RemembersAll(log: seq<Access>, es: seq<RecentEntry>) {
    DistinctUris(es) && RemembersEach(log, es) && EntryUris(es) == Uris(log)
  }

  lemma RemembersOthers(front: seq<Access>, a: Access, e: RecentEntry)
    requires Remembers(front, e) && e.uri != a.uri
    ensures Remembers(front + [a], e)
  {
    var log := front + [a];
    assert log[..|log| - 1] == front;
    var i :| LastAccess(front, e.uri, i) && front[i].time == e.lastAccessed && front[i].appId == e.appId;
    assert LastAccess(log, e.uri, i);
    var j :| FirstAccess(front, e.uri, j) && front[j].name == e.displayName && front[j].mime == e.mimeType;
    assert FirstAccess(log, e.uri, j);
  }

  lemma RemembersThis(front: seq<Access>, a: Access, e: RecentEntry, count: nat, first: nat)
    requires FirstAccess(front + [a], a.uri, first)
    requires e.displayName == (front + [a])[first].name && e.mimeType == (front + [a])[first].mime
    requires e.uri == a.uri && e.lastAccessed == a.time && e.appId == a.appId
    requires count == Times(front, a.uri) && e.accessCount == (count + 1) % (U32_MAX + 1)
    ensures Remembers(front + [a], e)
  {
    var log := front + [a];
    assert log[..|log| - 1] == front;
    assert LastAccess(log, e.uri, |front|);
  }

  lemma {:induction false} NeverAccessed(log: seq<Access>, uri: string)
    requires uri !in Uris(log)
    ensures Times(log, uri) == 0
  {
    if log != [] {
      assert log[|log| - 1].uri in Uris(log);
      assert Uris(log[..|log| - 1]) <= Uris(log);
      NeverAccessed(log[..|log| - 1], uri);
    }
  }

  lemma CountWraps(count: nat)
    ensures (count + 1) % (U32_MAX + 1) ==
            if count % (U32_MAX + 1) == U32_MAX then 0 else count % (U32_MAX + 1) + 1
  {
  }

  lemma TouchedRemembers(front: seq<Access>, a: Access, e: RecentEntry)
    requires Remembers(front, e) && e.uri == a.uri
    ensures Remembers(front + [a], Touched(e, a.time, a.appId))
  {
    CountWraps(Times(front, a.uri));
    var i :| FirstAccess(front, a.uri, i) && front[i].name == e.displayName && front[i].mime == e.mimeType;
    assert FirstAccess(front + [a], a.uri, i);
    RemembersThis(front, a, Touched(e, a.time, a.appId), Times(front, a.uri), i);
  }

  lemma TouchRemembers(front: seq<Access>, es: seq<RecentEntry>, a: Access, at: nat)
    requires DistinctUris(es) && RemembersEach(front, es) && PositionOf(es, a.uri) == Some(at)
    ensures RemembersEach(front + [a], es[at := Touched(es[at], a.time, a.appId)])
  {
    var after := es[at := Touched(es[at], a.time, a.appId)];
    forall k | 0 <= k < |after|
      ensures Remembers(front + [a], after[k])
    {
      assert Remembers(front, es[k]);
      if k == at {
        TouchedRemembers(front, a, es[at]);
      } else {
        RemembersOthers(front, a, es[k]);
      }
    }
  }

  lemma NewRemembers(front: seq<Access>, a: Access)
    requires a.uri !in Uris(front)
    ensures Remembers(front + [a], RecentEntry(a.uri, a.name, a.mime, a.time, 1, a.appId))
  {
    NeverAccessed(front, a.uri);
    assert forall j :: 0 <= j < |front| ==> front[j].uri in Uris(front);
    RemembersThis(front, a, RecentEntry(a.uri, a.name, a.mime, a.time, 1, a.appId), 0, |front|);
  }

  lemma AppendRemembers(front: seq<Access>, es: seq<RecentEntry>, a: Access)
    requires RemembersEach(front, es) && EntryUris(es) == Uris(front) && PositionOf(es, a.uri) == None
    ensures RemembersEach(front + [a], es + [RecentEntry(a.uri, a.name, a.mime, a.time, 1, a.appId)])
  {
    assert a.uri !in EntryUris(es);
    NewRemembers(front, a);
    forall k | 0 <= k < |es|
      ensures Remembers(front + [a], es[k])
    {
      assert Remembers(front, es[k]);
      assert es[k].uri in EntryUris(es);
      RemembersOthers(front, a, es[k]);
    }
  }

  lemma UrisOneMore(front: seq<Access>, a: Access)
    ensures Uris(front + [a]) == Uris(front) + {a.uri}
  {
    var log := front + [a];
    assert log[|front|] == a;
    forall i | 0 <= i < |front|
      ensures front[i].uri in Uris(log)
    {
      assert log[i] == front[i];
    }
  }

  lemma GrownRemembers(front: seq<Access>, es: seq<RecentEntry>, a: Access)
    requires RemembersAll(front, es)
    ensures RemembersAll(front + [a], Grown(es, a))
  {
    GrownIsDistinct(es, a);
    GrownUris(es, a);
    UrisOneMore(front, a);
    var pos := PositionOf(es, a.uri);
    if pos.Some? {
      TouchRemembers(front, es, a, pos.value);
    } else {
      AppendRemembers(front, es, a);
    }
  }

  /** A store with room for `files` loses none of them. */
  lemma {:induction false} RoomForAll(log: seq<Access>, max: nat, files: set<string>)
    requires Uris(log) <= files && |files| <= max
    ensures RemembersAll(log, AfterAccesses(log, max))
  {
    if log != [] {
      var front, a := log[..|log| - 1], log[|log| - 1];
      assert front + [a] == log;
      UrisOneMore(front, a);
      RoomForAll(front, max, files);
      var es := AfterAccesses(front, max);
      GrownRemembers(front, es, a);
      EntryUrisCount(Grown(es, a));
      SubsetCount(EntryUris(Grown(es, a)), files);
    }
  }

  /** As long as nothing has to be evicted, the store holds each accessed file once and remembers its accesses. */
  lemma {:induction false} StoreRemembersAccesses(log: seq<Access>, max: nat)
    requires |Uris(log)| <= max
    ensures RemembersAll(log, AfterAccesses(log, max))
  {
    RoomForAll(log, max, Uris(log));
  }

  lemma {:induction false} AccessesKeepStore(log: seq<Access>, max: nat)
    ensures DistinctUris(AfterAccesses(log, max)) && |AfterAccesses(log, max)| <= max
  {
    if log != [] {
      AccessesKeepStore(log[..|log| - 1], max);
      AddedKeepsStore(AfterAccesses(log[..|log| - 1], max), max, log[|log| - 1]);
    }
  }

  /** The store holds every file accessed, and all that there is to remember, exactly if there were at most `max`. */
  lemma StoreHoldsAllIff(log: seq<Access>, max: nat)
    ensures Uris(log) <= EntryUris(AfterAccesses(log, max)) <==> |Uris(log)| <= max
    ensures RemembersAll(log, AfterAccesses(log, max)) <==> |Uris(log)| <= max
  {
    if |Uris(log)| <= max {
      StoreRemembersAccesses(log, max);
    }
    var es := AfterAccesses(log, max);
    AccessesKeepStore(log, max);
    EntryUrisCount(es);
    if Uris(log) <= EntryUris(es) {
      SubsetCount(Uris(log), EntryUris(es));
    }
  }

  // ---- Which files are held ------------------------------------------------

  /** The files accessed, the most recently accessed first. */
  function MoveToFront(log: seq<Access>): seq<string> {
    if log == [] then [] else [log[|log| - 1].uri] + Others(MoveToFront(log[..|log| - 1]), log[|log| - 1].uri)
  }

  function Others(s: seq<string>, x: string): (r: seq<string>)
    ensures forall y :: y in r <==> y in s && y != x
  {
    if s == [] then [] else (if s[0] == x then [] else [s[0]]) + Others(s[1..], x)
  }

  function Take(s: seq<string>, n: nat): seq<string> {
    if |s| <= n then s else s[..n]
  }

  ghost function Elements(s: seq<string>): set<string> {
    set x | x in s
  }

  ghost predicate Distinct(s: seq<string>) {
    forall i, j :: 0 <= i < j < |s| ==> s[i] != s[j]
  }

  lemma {:induction false} OthersDistinct(s: seq<string>, x: string)
    requires Distinct(s)
    ensures Distinct(Others(s, x))
  {
    if s != [] {
      OthersDistinct(s[1..], x);
      assert s[0] !in s[1..];
    }
  }

  lemma PrependDistinct(s: seq<string>, x: string)
    requires Distinct(s) && x !in s
    ensures Distinct([x] + s)
  {
  }

  lemma {:induction false} MoveToFrontIsDistinct(log: seq<Access>)
    ensures Distinct(MoveToFront(log))
  {
    if log != [] {
      var list, uri := MoveToFront(log[..|log| - 1]), log[|log| - 1].uri;
      MoveToFrontIsDistinct(log[..|log| - 1]);
      OthersDistinct(list, uri);
      PrependDistinct(Others(list, uri), uri);
    }
  }

  lemma ElementsConcat(s: seq<string>, t: seq<string>)
    ensures Elements(s + t) == Elements(s) + Elements(t)
  {
  }

  lemma {:induction false} OthersConcat(s: seq<string>, t: seq<string>, x: string)
    ensures Others(s + t, x) == Others(s, x) + Others(t, x)
  {
    if s == [] {
      assert s + t == t;
    } else {
      assert (s + t)[1..] == s[1..] + t;
      OthersConcat(s[1..], t, x);
    }
  }

  lemma {:induction false} OthersWithout(s: seq<string>, x: string)
    requires x !in s
    ensures Others(s, x) == s
  {
    if s != [] {
      OthersWithout(s[1..], x);
    }
  }

  lemma {:induction false} OthersLength(s: seq<string>, x: string)
    requires Distinct(s) && x in s
    ensures |Others(s, x)| == |s| - 1
  {
    if s[0] == x {
      assert x !in s[1..];
      OthersWithout(s[1..], x);
    } else {
      OthersLength(s[1..], x);
    }
  }

  lemma TakeSplits(s: seq<string>, n: nat, x: string)
    requires Distinct(s) && x in Take(s, n)
    ensures s == Take(s, n) + s[|Take(s, n)|..] && x !in s[|Take(s, n)|..] && Distinct(Take(s, n))
  {
    var front, back := Take(s, n), s[|Take(s, n)|..];
    assert s == front + back;
    var i :| 0 <= i < |front| && front[i] == x;
    assert forall j :: 0 <= j < |back| ==> back[j] == s[|front| + j];
  }

  lemma TakeFront(front: seq<string>, back: seq<string>, n: nat)
    requires |front| <= n && (back == [] || |front| == n)
    ensures Take(front + back, n) == front
  {
  }

  lemma FrontElements(front: seq<string>, x: string)
    requires Distinct(front) && x in front
    ensures |[x] + Others(front, x)| == |front| && Elements([x] + Others(front, x)) == Elements(front)
  {
    OthersLength(front, x);
  }

  lemma MovedSplits(front: seq<string>, back: seq<string>, x: string)
    requires x !in back
    ensures [x] + Others(front + back, x) == ([x] + Others(front, x)) + back
  {
    OthersConcat(front, back, x);
    OthersWithout(back, x);
    ConcatAssociates([x], Others(front, x), back);
  }

  /** Moving one of the first `n` to the front keeps the first `n`. */
  lemma FrontWithin(s: seq<string>, x: string, n: nat)
    requires Distinct(s) && x in Take(s, n)
    ensures Elements(Take([x] + Others(s, x), n)) == Elements(Take(s, n))
  {
    var front := Take(s, n);
    var back := s[|front|..];
    TakeSplits(s, n, x);
    MovedSplits(front, back, x);
    FrontElements(front, x);
    TakeFront([x] + Others(front, x), back, n);
  }

  /** A file from further back, or a new one, pushes the `n`-th out. */
  lemma FrontFromBeyond(s: seq<string>, x: string, n: nat)
    requires 0 < n <= |s| && x !in s[..n]
    ensures Take([x] + Others(s, x), n) == [x] + s[..n - 1]
  {
    var front, back := s[..n - 1], s[n - 1..];
    assert s == front + back;
    OthersConcat(front, back, x);
    assert front == s[..n][..n - 1];
    OthersWithout(front, x);
  }

  ghost predicate RisingTimes(log: seq<Access>) {
    forall i, j :: 0 <= i < j < |log| ==> log[i].time < log[j].time
  }

  /** The time of the last access of the file; 0 if there is none. */
  function LastTime(log: seq<Access>, uri: string): nat {
    if log == [] then 0
    else if log[|log| - 1].uri == uri then log[|log| - 1].time
    else LastTime(log[..|log| - 1], uri)
  }

  lemma {:induction false} LastTimeIsEarlier(log: seq<Access>, uri: string, bound: nat)
    requires uri in Uris(log) && forall i :: 0 <= i < |log| ==> log[i].time < bound
    ensures LastTime(log, uri) < bound
  {
    if log[|log| - 1].uri != uri {
      assert uri in Uris(log[..|log| - 1]) by {
        var i :| 0 <= i < |log| && log[i].uri == uri;
        assert log[..|log| - 1][i].uri == uri;
      }
      LastTimeIsEarlier(log[..|log| - 1], uri, bound);
    }
  }

  /** The times of the last accesses fall along the list. */
  ghost predicate Falls(log: seq<Access>, s: seq<string>) {
    forall i, j :: 0 <= i < j < |s| ==> LastTime(log, s[i]) > LastTime(log, s[j])
  }

  lemma {:induction false} OthersFall(log: seq<Access>, s: seq<string>, x: string)
    requires Falls(log, s)
    ensures Falls(log, Others(s, x))
  {
    if s != [] {
      OthersFall(log, s[1..], x);
      var rest := Others(s[1..], x);
      forall j | 0 <= j < |rest|
        ensures LastTime(log, s[0]) > LastTime(log, rest[j])
      {
        assert rest[j] in s[1..];
        var m :| 0 <= m < |s[1..]| && s[1..][m] == rest[j];
        assert s[m + 1] == rest[j];
      }
    }
  }

  lemma {:induction false} MoveToFrontIsUris(log: seq<Access>)
    ensures Elements(MoveToFront(log)) == Uris(log)
  {
    if log != [] {
      var front, a := log[..|log| - 1], log[|log| - 1];
      MoveToFrontIsUris(front);
      assert front + [a] == log;
      UrisOneMore(front, a);
    }
  }

  lemma {:induction false} MoveToFrontFalls(log: seq<Access>)
    requires RisingTimes(log)
    ensures Falls(log, MoveToFront(log))
  {
    if log != [] {
      var front, a := log[..|log| - 1], log[|log| - 1];
      MoveToFrontFalls(front);
      var rest := Others(MoveToFront(front), a.uri);
      OthersFall(front, MoveToFront(front), a.uri);
      MoveToFrontIsUris(front);
      forall j | 0 <= j < |rest|
        ensures rest[j] != a.uri && LastTime(log, rest[j]) == LastTime(front, rest[j]) < a.time
      {
        assert rest[j] in rest;
        assert rest[j] in Elements(MoveToFront(front));
        LastTimeIsEarlier(front, rest[j], a.time);
      }
    }
  }

  // ---- The store as a move-to-front list -----------------------------------

  /** The entries are those of the `max` most recently accessed files, each with the time of its last access. */
  ghost predicate HoldsNewest(log: seq<Access>, es: seq<RecentEntry>, max: nat) {
    && DistinctUris(es) && |es| <= max
    && EntryUris(es) == Elements(Take(MoveToFront(log), max))
    && TimesAreLast(log, es)
  }

  ghost predicate TimesAreLast(log: seq<Access>, es: seq<RecentEntry>) {
    forall e :: e in es ==> e.lastAccessed == LastTime(log, e.uri)
  }

  lemma {:induction false} DistinctCount(s: seq<string>)
    requires Distinct(s)
    ensures |Elements(s)| == |s|
  {
    if s != [] {
      var front, last := s[..|s| - 1], s[|s| - 1];
      DistinctCount(front);
      assert last !in front;
      assert Elements(s) == Elements(front) + {last};
    }
  }

  lemma StoreSize(log: seq<Access>, es: seq<RecentEntry>, max: nat)
    requires HoldsNewest(log, es, max)
    ensures |es| == |Take(MoveToFront(log), max)|
  {
    MoveToFrontIsDistinct(log);
    EntryUrisCount(es);
    DistinctCount(Take(MoveToFront(log), max));
  }

  lemma GrownTimes(front: seq<Access>, es: seq<RecentEntry>, a: Access)
    requires DistinctUris(es) && TimesAreLast(front, es)
    ensures TimesAreLast(front + [a], Grown(es, a))
  {
    var log, grown := front + [a], Grown(es, a);
    assert log[..|log| - 1] == front;
    var at := GrownAt(es, a);
    GrownIsDistinct(es, a);
    forall e | e in grown
      ensures e.lastAccessed == LastTime(log, e.uri)
    {
      var k :| 0 <= k < |grown| && grown[k] == e;
      if k != at {
        assert e in es && e.uri != a.uri;
      }
    }
  }

  /** With room for the access nothing is dropped. */
  lemma AddWithRoom(front: seq<Access>, es: seq<RecentEntry>, a: Access, max: nat)
    requires HoldsNewest(front, es, max) && |Grown(es, a)| <= max
    ensures HoldsNewest(front + [a], Grown(es, a), max)
  {
    var log, list := front + [a], MoveToFront(front);
    assert log[..|log| - 1] == front;
    GrownIsDistinct(es, a);
    GrownUris(es, a);
    GrownTimes(front, es, a);
    StoreSize(front, es, max);
    MoveToFrontIsDistinct(front);
    if PositionOf(es, a.uri).Some? {
      assert a.uri in EntryUris(es);
      FrontWithin(list, a.uri, max);
    } else {
      assert Take(list, max) == list;
      assert a.uri !in EntryUris(es);
      OthersWithout(list, a.uri);
      assert Take([a.uri] + list, max) == [a.uri] + list;
    }
  }

  /** The entry of a file. */
  lemma EntryOf(es: seq<RecentEntry>, uri: string) returns (e: RecentEntry)
    requires uri in EntryUris(es)
    ensures e in es && e.uri == uri
  {
    var k :| 0 <= k < |es| && es[k].uri == uri;
    e := es[k];
  }

  /** The least recently accessed of the files held is sorted first. */
  lemma OldestIsFirst(log: seq<Access>, grown: seq<RecentEntry>, list: seq<string>)
    requires DistinctUris(grown) && TimesAreLast(log, grown) && grown != [] && list != []
    requires EntryUris(grown) == Elements(list) && Falls(log, list)
    ensures StableSort(grown, TimeCmp)[0].uri == list[|list| - 1]
  {
    var last := list[|list| - 1];
    assert last in EntryUris(grown);
    var e := EntryOf(grown, last);
    FirstIsOldest(grown, e);
    var first := StableSort(grown, TimeCmp)[0];
    TimeCmpIsOrder();
    StableSortSorts(grown, TimeCmp);
    assert first in multiset(StableSort(grown, TimeCmp));
    assert first in grown;
    assert first.uri in EntryUris(grown);
    var i :| 0 <= i < |list| && list[i] == first.uri;
  }

  lemma DroppedUris(grown: seq<RecentEntry>, kept: seq<RecentEntry>, first: RecentEntry)
    requires DistinctUris(grown) && first in grown
    requires forall e :: e in kept <==> e in grown && e != first
    ensures EntryUris(kept) == EntryUris(grown) - {first.uri}
  {
    forall uri | uri in EntryUris(kept)
      ensures uri in EntryUris(grown) && uri != first.uri
    {
      var e := EntryOf(kept, uri);
      var k :| 0 <= k < |grown| && grown[k] == e;
      var f :| 0 <= f < |grown| && grown[f] == first;
    }
    forall uri | uri in EntryUris(grown) && uri != first.uri
      ensures uri in EntryUris(kept)
    {
      var e := EntryOf(grown, uri);
      assert e in kept;
      var k :| 0 <= k < |kept| && kept[k] == e;
    }
  }

  lemma FrontDiffers(list: seq<string>, x: string, n: nat)
    requires 0 < n <= |list| && Distinct(list) && x !in list[..n]
    ensures Elements([x] + list[..n - 1]) == Elements([x] + list[..n]) - {list[n - 1]}
  {
    assert list[..n] == list[..n - 1] + [list[n - 1]];
    assert list[n - 1] in list[..n];
    assert list[n - 1] !in list[..n - 1];
  }

  /** A new file in a full store drops the least recently accessed one. */
  lemma FullDropsOldest(front: seq<Access>, es: seq<RecentEntry>, a: Access, max: nat)
    requires HoldsNewest(front, es, max) && |Grown(es, a)| > max && 0 < max && RisingTimes(front + [a])
    ensures max <= |MoveToFront(front)| && a.uri !in MoveToFront(front)[..max]
    ensures StableSort(Grown(es, a), TimeCmp)[0].uri == MoveToFront(front)[max - 1]
  {
    var list, grown := MoveToFront(front), Grown(es, a);
    GrownIsDistinct(es, a);
    GrownUris(es, a);
    GrownTimes(front, es, a);
    StoreSize(front, es, max);
    assert a.uri !in EntryUris(es);
    HeldFalls(front, a, max);
    ElementsConcat([a.uri], list[..max]);
    OldestIsFirst(front + [a], grown, [a.uri] + list[..max]);
  }

  /** The files held after the drop. */
  lemma FullUris(front: seq<Access>, es: seq<RecentEntry>, a: Access, max: nat)
    requires HoldsNewest(front, es, max) && |Grown(es, a)| > max && 0 < max && RisingTimes(front + [a])
    ensures EntryUris(es) + {a.uri} - {StableSort(Grown(es, a), TimeCmp)[0].uri} ==
            Elements(Take(MoveToFront(front + [a]), max))
  {
    var list := MoveToFront(front);
    assert (front + [a])[..|front|] == front;
    FullDropsOldest(front, es, a, max);
    ElementsConcat([a.uri], list[..max]);
    MoveToFrontIsDistinct(front);
    FrontFromBeyond(list, a.uri, max);
    FrontDiffers(list, a.uri, max);
    assert Take(list, max) == list[..max];
  }

  lemma TimesOfSome(log: seq<Access>, es: seq<RecentEntry>, kept: seq<RecentEntry>)
    requires TimesAreLast(log, es) && forall e :: e in kept ==> e in es
    ensures TimesAreLast(log, kept)
  {
  }

  lemma AddToFull(front: seq<Access>, es: seq<RecentEntry>, a: Access, max: nat)
    requires HoldsNewest(front, es, max) && |Grown(es, a)| > max && 0 < max && RisingTimes(front + [a])
    ensures HoldsNewest(front + [a], Added(es, max, a), max)
  {
    AddedKeepsStore(es, max, a);
    GrownIsDistinct(es, a);
    GrownTimes(front, es, a);
    LimitedDropsFirst(Grown(es, a), max);
    TimesOfSome(front + [a], Grown(es, a), Added(es, max, a));
    DroppedUris(Grown(es, a), Added(es, max, a), StableSort(Grown(es, a), TimeCmp)[0]);
    GrownUris(es, a);
    FullUris(front, es, a, max);
  }

  lemma HeldFalls(front: seq<Access>, a: Access, n: nat)
    requires RisingTimes(front + [a]) && n <= |MoveToFront(front)| && a.uri !in MoveToFront(front)[..n]
    ensures Falls(front + [a], [a.uri] + MoveToFront(front)[..n])
  {
    var log, list := front + [a], MoveToFront(front);
    assert log[..|log| - 1] == front;
    assert RisingTimes(front) by {
      assert forall i :: 0 <= i < |front| ==> log[i] == front[i];
    }
    MoveToFrontFalls(front);
    MoveToFrontIsUris(front);
    forall j | 0 <= j < n
      ensures LastTime(log, list[j]) == LastTime(front, list[j]) < a.time
    {
      assert list[j] in list[..n] && list[j] in Elements(list);
      assert log[|front|] == a && forall i :: 0 <= i < |front| ==> log[i] == front[i];
      LastTimeIsEarlier(front, list[j], a.time);
    }
  }

  /** With rising times the store holds the `max` most recently accessed files. */
  lemma {:induction false} StoreHoldsNewest(log: seq<Access>, max: nat)
    requires RisingTimes(log)
    ensures HoldsNewest(log, AfterAccesses(log, max), max)
  {
    if log != [] {
      var front, a := log[..|log| - 1], log[|log| - 1];
      assert front + [a] == log;
      StoreHoldsNewest(front, max);
      var es := AfterAccesses(front, max);
      if |Grown(es, a)| <= max {
        AddWithRoom(front, es, a, max);
      } else if max > 0 {
        AddToFull(front, es, a, max);
      } else {
        assert Added(es, max, a) == [];
        assert Take(MoveToFront(log), max) == [];
      }
    }
  }

  // ---- The list by last accesses -------------------------------------------

  /** What stands before an element in the list without `x` is what stands before it in the list, without `x`. */
  lemma {:induction false} OthersPrefix(s: seq<string>, x: string, q: nat) returns (m: nat)
    requires q < |Others(s, x)|
    ensures m < |s| && s[m] == Others(s, x)[q]
    ensures Elements(Others(s, x)[..q]) == Elements(s[..m]) - {x}
  {
    var rest := Others(s[1..], x);
    if s[0] == x {
      assert Others(s, x) == rest;
      var n := OthersPrefix(s[1..], x, q);
      m := n + 1;
      assert s[..m] == [x] + s[1..][..n];
      ElementsConcat([x], s[1..][..n]);
    } else if q == 0 {
      m := 0;
      assert Others(s, x)[..0] == s[..0];
      assert x !in s[..0];
    } else {
      var n := OthersPrefix(s[1..], x, q - 1);
      m := n + 1;
      assert s[..m] == [s[0]] + s[1..][..n];
      assert Others(s, x)[..q] == [s[0]] + rest[..q - 1];
      ElementsConcat([s[0]], s[1..][..n]);
      ElementsConcat([s[0]], rest[..q - 1]);
    }
  }

  lemma LastAccessInFront(front: seq<Access>, a: Access, uri: string, i: nat)
    requires uri != a.uri && LastAccess(front + [a], uri, i)
    ensures i < |front| && LastAccess(front, uri, i) && (front + [a])[i + 1..] == front[i + 1..] + [a]
  {
    var log := front + [a];
    assert i < |front|;
    assert forall j :: 0 <= j < |front| ==> log[j] == front[j];
  }

  /** Before a file stand exactly those accessed since its last access. */
  lemma {:induction false} BeforeInList(log: seq<Access>, k: nat, i: nat)
    requires k < |MoveToFront(log)| && LastAccess(log, MoveToFront(log)[k], i)
    ensures Elements(MoveToFront(log)[..k]) == Uris(log[i + 1..])
  {
    var front, a := log[..|log| - 1], log[|log| - 1];
    assert log == front + [a];
    var rest := Others(MoveToFront(front), a.uri);
    if k == 0 {
      assert i == |log| - 1;
      assert log[i + 1..] == [];
    } else {
      assert rest[k - 1] in rest;
      var m := OthersPrefix(MoveToFront(front), a.uri, k - 1);
      LastAccessInFront(front, a, rest[k - 1], i);
      BeforeInList(front, m, i);
      UrisOneMore(front[i + 1..], a);
      assert MoveToFront(log)[..k] == [a.uri] + rest[..k - 1];
      ElementsConcat([a.uri], rest[..k - 1]);
    }
  }

  lemma {:induction false} LastAccessOf(log: seq<Access>, uri: string) returns (i: nat)
    requires uri in Uris(log)
    ensures LastAccess(log, uri, i)
  {
    if log[|log| - 1].uri == uri {
      i := |log| - 1;
    } else {
      var j :| 0 <= j < |log| && log[j].uri == uri;
      assert log[..|log| - 1][j].uri == uri;
      i := LastAccessOf(log[..|log| - 1], uri);
    }
  }

  lemma PlaceInList(log: seq<Access>, k: nat, i: nat)
    requires k < |MoveToFront(log)| && LastAccess(log, MoveToFront(log)[k], i)
    ensures |Uris(log[i + 1..])| == k
  {
    BeforeInList(log, k, i);
    MoveToFrontIsDistinct(log);
    DistinctCount(MoveToFront(log)[..k]);
  }

  lemma HeldIsRecent(log: seq<Access>, max: nat, uri: string) returns (i: nat)
    requires uri in Elements(Take(MoveToFront(log), max))
    ensures LastAccess(log, uri, i) && |Uris(log[i + 1..])| < max
  {
    var list := MoveToFront(log);
    var k :| 0 <= k < |Take(list, max)| && Take(list, max)[k] == uri;
    assert list[k] == uri;
    MoveToFrontIsUris(log);
    assert uri in Elements(list);
    i := LastAccessOf(log, uri);
    PlaceInList(log, k, i);
  }

  lemma RecentIsHeld(log: seq<Access>, max: nat, uri: string, i: nat)
    requires LastAccess(log, uri, i) && |Uris(log[i + 1..])| < max
    ensures uri in Elements(Take(MoveToFront(log), max))
  {
    var list := MoveToFront(log);
    assert log[i].uri in Uris(log);
    MoveToFrontIsUris(log);
    assert uri in Elements(list);
    var k :| 0 <= k < |list| && list[k] == uri;
    PlaceInList(log, k, i);
    assert Take(list, max)[k] == uri;
  }

  /** With rising times a file is held exactly if fewer than `max` other files were accessed since its last access. */
  lemma FileIsHeldIff(log: seq<Access>, max: nat, uri: string)
    requires RisingTimes(log)
    ensures uri in EntryUris(AfterAccesses(log, max)) <==>
              exists i: nat :: LastAccess(log, uri, i) && |Uris(log[i + 1..])| < max
  {
    StoreHoldsNewest(log, max);
    if uri in EntryUris(AfterAccesses(log, max)) {
      var i := HeldIsRecent(log, max, uri);
    }
    if i: nat :| LastAccess(log, uri, i) && |Uris(log[i + 1..])| < max {
      RecentIsHeld(log, max, uri, i);
    }
  }
}
