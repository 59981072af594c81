/** Three-way comparison, lexicographic order, and the stable in-place sort of a slice. */
module Ordering {

  datatype Order = Less | Equal | Greater {
    function Reverse(): Order {
      match this
      case Less => Greater
      case Equal => Equal
      case Greater => Less
    }
  }

  ghost predicate ReversesAt<T>(cmp: (T, T) -> Order, a: T, b: T) {
    cmp(b, a) == cmp(a, b).Reverse()
  }

  ghost predicate TransitiveAt<T>(cmp: (T, T) -> Order, a: T, b: T, c: T) {
    cmp(a, b) != Greater && cmp(b, c) != Greater ==> cmp(a, c) != Greater
  }

  // The triggers leave it to the proofs to name the elements they compare.
  ghost predicate TotalPreorder<T(!new)>(cmp: (T, T) -> Order) {
    && (forall a, b {:trigger ReversesAt(cmp, a, b)} :: ReversesAt(cmp, a, b))
    && (forall a, b, c {:trigger TransitiveAt(cmp, a, b, c)} :: TransitiveAt(cmp, a, b, c))
  }

  /** Comparing through a third element that is equal to one of the two changes nothing. */
  lemma EqualIsCongruent<T(!new)>(cmp: (T, T) -> Order, a: T, b: T, c: T)
    requires TotalPreorder(cmp) && cmp(a, b) == Equal
    ensures cmp(a, c) == cmp(b, c) && cmp(c, a) == cmp(c, b)
  {
    assert ReversesAt(cmp, a, b) && ReversesAt(cmp, a, c) && ReversesAt(cmp, b, c);
    assert TransitiveAt(cmp, a, b, c) && TransitiveAt(cmp, b, a, c);
    assert TransitiveAt(cmp, c, a, b) && TransitiveAt(cmp, c, b, a);
  }

  function IntCmp(a: int, b: int): Order {
    if a < b then Less else if a == b then Equal else Greater
  }

  function CharCmp(a: char, b: char): Order {
    if a < b then Less else if a == b then Equal else Greater
  }

  // ---- Lexicographic order -------------------------------------------------

  function Lex<T>(a: seq<T>, b: seq<T>, cmp: (T, T) -> Order): Order {
    if a == [] then (if b == [] then Equal else Less)
    else if b == [] then Greater
    else if cmp(a[0], b[0]) == Equal then Lex(a[1..], b[1..], cmp)
    else cmp(a[0], b[0])
  }

  lemma {:induction false} LexReverses<T(!new)>(a: seq<T>, b: seq<T>, cmp: (T, T) -> Order)
    requires TotalPreorder(cmp)
    ensures Lex(b, a, cmp) == Lex(a, b, cmp).Reverse()
  {
    if a != [] && b != [] {
      assert ReversesAt(cmp, a[0], b[0]);
      LexReverses(a[1..], b[1..], cmp);
    }
  }

  lemma {:induction false} LexTransitive<T(!new)>(a: seq<T>, b: seq<T>, c: seq<T>, cmp: (T, T) -> Order)
    requires TotalPreorder(cmp) && Lex(a, b, cmp) != Greater && Lex(b, c, cmp) != Greater
    ensures Lex(a, c, cmp) != Greater
  {
    if a != [] && b != [] && c != [] {
      assert TransitiveAt(cmp, a[0], b[0], c[0]) && TransitiveAt(cmp, c[0], a[0], b[0]);
      assert ReversesAt(cmp, a[0], b[0]) && ReversesAt(cmp, b[0], c[0]) && ReversesAt(cmp, a[0], c[0]);
      if cmp(a[0], b[0]) == Equal {
        EqualIsCongruent(cmp, a[0], b[0], c[0]);
        if cmp(b[0], c[0]) == Equal {
          LexTransitive(a[1..], b[1..], c[1..], cmp);
        }
      } else if cmp(b[0], c[0]) == Equal {
        EqualIsCongruent(cmp, b[0], c[0], a[0]);
      }
    }
  }

  // ---- Stable sorting ------------------------------------------------------

  ghost predicate Sorted<T>(s: seq<T>, cmp: (T, T) -> Order) {
    forall i, j :: 0 <= i < j < |s| ==> cmp(s[i], s[j]) != Greater
  }

  /** The elements of `s` that compare equal to `x`, in order. */
  function Class<T>(s: seq<T>, x: T, cmp: (T, T) -> Order): seq<T> {
    if s == [] then [] else (if cmp(x, s[0]) == Equal then [s[0]] else []) + Class(s[1..], x, cmp)
  }

  /** A rearrangement that keeps the order of equal elements. */
  ghost predicate StableRearrangement<T(!new)>(s: seq<T>, t: seq<T>, cmp: (T, T) -> Order) {
    multiset(s) == multiset(t) && forall x :: Class(s, x, cmp) == Class(t, x, cmp)
  }

  lemma {:induction false} ClassHead<T(!new)>(s: seq<T>, x: T, cmp: (T, T) -> Order)
    requires exists y :: y in s && cmp(x, y) == Equal
    ensures Class(s, x, cmp) != []
  {
    var y :| y in s && cmp(x, y) == Equal;
    if y != s[0] {
      assert y in s[1..];
      ClassHead(s[1..], x, cmp);
    }
  }

  lemma {:induction false} ClassMembers<T(!new)>(s: seq<T>, x: T, y: T, cmp: (T, T) -> Order)
    requires y in Class(s, x, cmp)
    ensures y in s && cmp(x, y) == Equal
  {
    if !(cmp(x, s[0]) == Equal && y == s[0]) {
      ClassMembers(s[1..], x, y, cmp);
    }
  }

  /** The least element of a sorted sequence heads every sorted stable rearrangement of it. */
  lemma SameHead<T(!new)>(s: seq<T>, t: seq<T>, cmp: (T, T) -> Order)
    requires TotalPreorder(cmp) && Sorted(s, cmp) && Sorted(t, cmp) && s != [] && |t| == |s|
    requires forall x :: Class(s, x, cmp) == Class(t, x, cmp)
    ensures s[0] == t[0]
  {
    var a, b := s[0], t[0];
    assert ReversesAt(cmp, a, a) && ReversesAt(cmp, b, b) && ReversesAt(cmp, a, b);
    ClassHead(t, b, cmp);
    var y := Class(s, b, cmp)[0];
    ClassMembers(s, b, y, cmp);
    ClassHead(s, a, cmp);
    var z := Class(t, a, cmp)[0];
    ClassMembers(t, a, z, cmp);
    assert cmp(a, y) != Greater;
    assert cmp(b, z) != Greater;
    EqualIsCongruent(cmp, b, y, a);
    EqualIsCongruent(cmp, a, z, b);
    assert cmp(a, b) == Equal;
    assert Class(s, a, cmp)[0] == a;
    assert Class(t, a, cmp)[0] == b;
  }

  /** A stable sort has one possible result, whatever algorithm computes it. */
  lemma {:induction false} StableSortIsUnique<T(!new)>(s: seq<T>, t: seq<T>, cmp: (T, T) -> Order)
    requires TotalPreorder(cmp) && Sorted(s, cmp) && Sorted(t, cmp) && |t| == |s|
    requires forall x :: Class(s, x, cmp) == Class(t, x, cmp)
    ensures s == t
  {
    if s != [] {
      SameHead(s, t, cmp);
      forall x
        ensures Class(s[1..], x, cmp) == Class(t[1..], x, cmp)
      {
        assert Class(s, x, cmp) == Class(t, x, cmp);
        var head := if cmp(x, s[0]) == Equal then [s[0]] else [];
        assert Class(s, x, cmp)[|head|..] == Class(s[1..], x, cmp);
        assert Class(t, x, cmp)[|head|..] == Class(t[1..], x, cmp);
      }
      StableSortIsUnique(s[1..], t[1..], cmp);
    }
  }

  lemma {:induction false} ClassConcat<T(!new)>(a: seq<T>, b: seq<T>, x: T, cmp: (T, T) -> Order)
    ensures Class(a + b, x, cmp) == Class(a, x, cmp) + Class(b, x, cmp)
  {
    if a == [] {
      assert a + b == b;
    } else {
      var head := if cmp(x, a[0]) == Equal then [a[0]] else [];
      ClassConcat(a[1..], b, x, cmp);
      assert (a + b)[0] == a[0] && (a + b)[1..] == a[1..] + b;
      assert Class(a + b, x, cmp) == head + Class(a[1..] + b, x, cmp);
    }
  }

  lemma SwapKeepsClass<T(!new)>(front: seq<T>, a: T, b: T, back: seq<T>, x: T, cmp: (T, T) -> Order)
    requires TotalPreorder(cmp) && cmp(a, b) == Greater
    ensures Class(front + [a, b] + back, x, cmp) == Class(front + [b, a] + back, x, cmp)
  {
    ClassConcat(front + [a, b], back, x, cmp);
    ClassConcat(front + [b, a], back, x, cmp);
    ClassConcat(front, [a, b], x, cmp);
    ClassConcat(front, [b, a], x, cmp);
    if cmp(x, a) == Equal {
      EqualIsCongruent(cmp, x, a, b);
    }
    assert [a, b][1..] == [b] && [b, a][1..] == [a];
  }

  /** Exchanging two neighbours that are not equal moves no element past an equal one. */
  lemma SwapIsStable<T(!new)>(front: seq<T>, a: T, b: T, back: seq<T>, cmp: (T, T) -> Order)
    requires TotalPreorder(cmp) && cmp(a, b) == Greater
    ensures StableRearrangement(front + [a, b] + back, front + [b, a] + back, cmp)
  {
    forall x
      ensures Class(front + [a, b] + back, x, cmp) == Class(front + [b, a] + back, x, cmp)
    {
      SwapKeepsClass(front, a, b, back, x, cmp);
    }
  }

  lemma SwapAt<T>(s: seq<T>, j: nat)
    requires 0 < j < |s|
    ensures s == s[..j - 1] + [s[j - 1], s[j]] + s[j + 1..]
    ensures s[j - 1 := s[j]][j := s[j - 1]] == s[..j - 1] + [s[j], s[j - 1]] + s[j + 1..]
  {
  }

  lemma RearrangementsCompose<T(!new)>(s: seq<T>, t: seq<T>, u: seq<T>, cmp: (T, T) -> Order)
    requires StableRearrangement(s, t, cmp) && StableRearrangement(t, u, cmp)
    ensures StableRearrangement(s, u, cmp)
  {
    forall x
      ensures Class(s, x, cmp) == Class(u, x, cmp)
    {
      assert Class(s, x, cmp) == Class(t, x, cmp);
    }
  }

  /** The stable sort as a function: each element goes in front of the later elements that are not less. */
  function StableSort<T>(s: seq<T>, cmp: (T, T) -> Order): (t: seq<T>)
    ensures |t| == |s|
  {
    if s == [] then [] else InsertFront(s[0], StableSort(s[1..], cmp), cmp)
  }

  function InsertFront<T>(x: T, s: seq<T>, cmp: (T, T) -> Order): (t: seq<T>)
    ensures |t| == |s| + 1
  {
    if s == [] || cmp(x, s[0]) != Greater then [x] + s else [s[0]] + InsertFront(x, s[1..], cmp)
  }

  lemma {:induction false} InsertFrontKeepsElements<T>(x: T, s: seq<T>, cmp: (T, T) -> Order)
    ensures multiset(InsertFront(x, s, cmp)) == multiset([x] + s)
  {
    if s != [] && cmp(x, s[0]) == Greater {
      InsertFrontKeepsElements(x, s[1..], cmp);
      assert s == [s[0]] + s[1..];
    }
  }

  lemma {:induction false} InsertFrontKeepsClasses<T(!new)>(x: T, s: seq<T>, cmp: (T, T) -> Order, y: T)
    requires TotalPreorder(cmp)
    ensures Class(InsertFront(x, s, cmp), y, cmp) == Class([x] + s, y, cmp)
  {
    if s != [] && cmp(x, s[0]) == Greater {
      var a, rest := s[0], s[1..];
      InsertFrontKeepsClasses(x, rest, cmp, y);
      SwapKeepsClass([], x, a, rest, y, cmp);
      assert [] + [x, a] + rest == [x] + s && [] + [a, x] + rest == [a] + ([x] + rest);
      ClassConcat([a], [x] + rest, y, cmp);
      ClassConcat([a], InsertFront(x, rest, cmp), y, cmp);
    }
  }

  lemma {:induction false} InsertFrontSorts<T(!new)>(x: T, s: seq<T>, cmp: (T, T) -> Order)
    requires TotalPreorder(cmp) && Sorted(s, cmp)
    ensures Sorted(InsertFront(x, s, cmp), cmp)
  {
    var t := InsertFront(x, s, cmp);
    if s == [] {
    } else if cmp(x, s[0]) != Greater {
      forall j | 0 < j < |t|
        ensures cmp(x, t[j]) != Greater
      {
        assert TransitiveAt(cmp, x, s[0], t[j]);
      }
    } else {
      var rest := InsertFront(x, s[1..], cmp);
      InsertFrontSorts(x, s[1..], cmp);
      InsertFrontKeepsElements(x, s[1..], cmp);
      forall j | 0 < j < |t|
        ensures cmp(t[0], t[j]) != Greater
      {
        assert t[j] in multiset([x] + s[1..]) by {
          assert t[j] == rest[j - 1] && rest[j - 1] in multiset(rest);
        }
        assert ReversesAt(cmp, x, s[0]);
        if t[j] != x {
          assert t[j] in s[1..];
        }
      }
    }
  }

  /** The function sorts, and keeps the order of equal elements. */
  lemma {:induction false} StableSortSorts<T(!new)>(s: seq<T>, cmp: (T, T) -> Order)
    requires TotalPreorder(cmp)
    ensures Sorted(StableSort(s, cmp), cmp) && StableRearrangement(s, StableSort(s, cmp), cmp)
  {
    if s != [] {
      var rest := StableSort(s[1..], cmp);
      StableSortSorts(s[1..], cmp);
      InsertFrontSorts(s[0], rest, cmp);
      assert s == [s[0]] + s[1..];
      InsertFrontKeepsElements(s[0], rest, cmp);
      forall y
        ensures Class(s, y, cmp) == Class(StableSort(s, cmp), y, cmp)
      {
        InsertFrontKeepsClasses(s[0], rest, cmp, y);
        assert ([s[0]] + rest)[1..] == rest;
        assert Class(s[1..], y, cmp) == Class(rest, y, cmp);
      }
    }
  }

  /** Whatever sorts stably computes this function. */
  lemma SortedStablyIsStableSort<T(!new)>(s: seq<T>, t: seq<T>, cmp: (T, T) -> Order)
    requires TotalPreorder(cmp) && Sorted(t, cmp) && StableRearrangement(s, t, cmp)
    ensures t == StableSort(s, cmp)
  {
    var u := StableSort(s, cmp);
    StableSortSorts(s, cmp);
    assert |t| == |multiset(t)| == |multiset(s)| == |u|;
    forall x
      ensures Class(t, x, cmp) == Class(u, x, cmp)
    {
      assert Class(s, x, cmp) == Class(t, x, cmp) && Class(s, x, cmp) == Class(u, x, cmp);
    }
    StableSortIsUnique(t, u, cmp);
  }

  ghost predicate NeighboursSorted<T>(s: seq<T>, low: int, high: int, cmp: (T, T) -> Order)
    requires 0 <= low && high <= |s|
  {
    forall i :: low < i < high ==> cmp(s[i - 1], s[i]) != Greater
  }

  lemma {:induction false} NeighboursSuffice<T(!new)>(s: seq<T>, cmp: (T, T) -> Order, i: nat, j: nat)
    requires TotalPreorder(cmp) && NeighboursSorted(s, 0, |s|, cmp) && i < j < |s|
    ensures cmp(s[i], s[j]) != Greater
    decreases j
  {
    if i < j - 1 {
      NeighboursSuffice(s, cmp, i, j - 1);
      assert TransitiveAt(cmp, s[i], s[j - 1], s[j]);
    }
  }

  /** The element at `j` is on its way down: the parts before it and from it on are sorted, and so is the seam. */
  ghost predicate Sinking<T>(s: seq<T>, j: int, i: int, cmp: (T, T) -> Order)
    requires 0 <= j <= i < |s|
  {
    && NeighboursSorted(s, 0, j, cmp) && NeighboursSorted(s, j, i + 1, cmp)
    && (0 < j < i ==> cmp(s[j - 1], s[j + 1]) != Greater)
  }

  lemma SinkStep<T(!new)>(s: seq<T>, j: int, i: int, t: seq<T>, cmp: (T, T) -> Order)
    requires TotalPreorder(cmp) && 0 < j <= i < |s| && Sinking(s, j, i, cmp) && cmp(s[j - 1], s[j]) == Greater
    requires t == s[j - 1 := s[j]][j := s[j - 1]]
    ensures Sinking(t, j - 1, i, cmp)
  {
    assert ReversesAt(cmp, s[j - 1], s[j]);
  }

  /**
   `sort_by` on a slice.  Its algorithm belongs to the standard library; by `StableSortIsUnique` every
   stable sort leaves in the slice what the insertion sort used here does.
   */
  method SortBy<T(!new)>(a: array<T>, cmp: (T, T) -> Order)
    requires TotalPreorder(cmp)
    modifies a
    ensures Sorted(a[..], cmp) && StableRearrangement(old(a[..]), a[..], cmp)
  {
    var i := 0;
    while i < a.Length
      invariant 0 <= i <= a.Length
      invariant NeighboursSorted(a[..], 0, i, cmp)
      invariant StableRearrangement(old(a[..]), a[..], cmp)
    {
      var j := i;
      while 0 < j && cmp(a[j - 1], a[j]) == Greater
        invariant 0 <= j <= i
        invariant Sinking(a[..], j, i, cmp)
        invariant StableRearrangement(old(a[..]), a[..], cmp)
      {
        ghost var s := a[..];
        a[j - 1], a[j] := a[j], a[j - 1];
        assert a[..] == s[j - 1 := s[j]][j := s[j - 1]];
        SwapAt(s, j);
        SwapIsStable(s[..j - 1], s[j - 1], s[j], s[j + 1..], cmp);
        RearrangementsCompose(old(a[..]), s, a[..], cmp);
        SinkStep(s, j, i, a[..], cmp);
        j := j - 1;
      }
      i := i + 1;
    }
    forall i, j | 0 <= i < j < a.Length
      ensures cmp(a[..][i], a[..][j]) != Greater
    {
      NeighboursSuffice(a[..], cmp, i, j);
    }
  }
}
