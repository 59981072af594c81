/** Sorting of directory listings: natural order of names, and directories before files. */
module NaturalSort {
  import opened Arithmetic
  import opened Ordering
  import opened Decimals

  /** The first character of the lower-case form of a character: digits are fixed, nothing else becomes one. */
  ghost predicate KeepsDigits(lower: char -> char) {
    forall c :: if IsDigit(c) then lower(c) == c else !IsDigit(lower(c))
  }

  function Saturated(n: nat): nat {
    if n > U64_MAX then U64_MAX else n
  }

  // ---- Numbers -------------------------------------------------------------

  ghost predicate DigitsUpTo(s: string, n: nat)
    requires n <= |s|
  {
    forall k :: 0 <= k < n ==> IsDigit(s[k])
  }

  /** The length of the run of digits that `s` starts with. */
  function DigitRun(s: string): (n: nat)
    ensures n <= |s| && DigitsUpTo(s, n) && (n < |s| ==> !IsDigit(s[n]))
  {
    if s == [] || !IsDigit(s[0]) then 0 else DigitRun(s[1..]) + 1
  }

  lemma DigitRunIs(s: string, n: nat)
    requires n <= |s| && DigitsUpTo(s, n) && (n < |s| ==> !IsDigit(s[n]))
    ensures DigitRun(s) == n
  {
  }

  /** The iterator at `i` is advanced past its run of digits, and their value saturates. */
  method CollectNumber(s: string, i: nat) returns (n: nat, next: nat)
    requires i <= |s|
    ensures next == i + DigitRun(s[i..]) <= |s|
    ensures AllDigits(s[i..next]) && n == Saturated(Decimal(s[i..next]))
  {
    n, next := 0, i;
    while next < |s| && IsDigit(s[next])
      invariant i <= next <= |s| && AllDigits(s[i..next])
      invariant n == Saturated(Decimal(s[i..next]))
    {
      assert s[i..next + 1] == s[i..next] + [s[next]];
      assert s[i..next + 1][..next - i] == s[i..next];
      n := Saturated(Saturated(n * 10) + DigitValue(s[next]));
      next := next + 1;
    }
    assert forall k :: 0 <= k < next - i ==> s[i..][k] == s[i..next][k];
    DigitRunIs(s[i..], next - i);
  }

  // ---- Tokens --------------------------------------------------------------

  datatype Token = Num(value: nat) | Chr(c: char)

  /** Maximal digit runs as (saturated) numbers, other characters lower-cased. */
  function Tokens(s: string, lower: char -> char): seq<Token>
    decreases |s|
  {
    if s == [] then []
    else if IsDigit(s[0]) then
      var n := DigitRun(s);
      [Num(Saturated(Decimal(s[..n])))] + Tokens(s[n..], lower)
    else [Chr(lower(s[0]))] + Tokens(s[1..], lower)
  }

  /** Numbers by value, characters by code point; a number stands where its digits stand among the characters. */
  function TokenCmp(a: Token, b: Token): Order {
    match (a, b)
    case (Num(m), Num(n)) => IntCmp(m, n)
    case (Chr(c), Chr(d)) => CharCmp(c, d)
    case (Num(_), Chr(d)) => if d < '0' then Greater else Less
    case (Chr(c), Num(_)) => if c < '0' then Less else Greater
  }

  lemma TokenCmpIsOrder()
    ensures TotalPreorder(TokenCmp)
  {
    forall a, b
      ensures ReversesAt(TokenCmp, a, b)
    {
    }
    forall a, b, c
      ensures TransitiveAt(TokenCmp, a, b, c)
    {
    }
  }

  function NaturalOrder(a: string, b: string, lower: char -> char): Order {
    Lex(Tokens(a, lower), Tokens(b, lower), TokenCmp)
  }

  /** The two iterators advanced in lockstep compute the order of the token sequences. */
  method NaturalCmp(a: string, b: string, lower: char -> char) returns (r: Order)
    requires KeepsDigits(lower)
    ensures r == NaturalOrder(a, b, lower)
  {
    var i, j := 0, 0;
    while true
      invariant 0 <= i <= |a| && 0 <= j <= |b|
      invariant NaturalOrder(a[i..], b[j..], lower) == NaturalOrder(a, b, lower)
      decreases |a| - i
    {
      if i == |a| {
        return if j == |b| then Equal else Less;
      }
      if j == |b| {
        return Greater;
      }
      var ac, bc := a[i], b[j];
      if IsDigit(ac) && IsDigit(bc) {
        var an, i' := CollectNumber(a, i);
        var bn, j' := CollectNumber(b, j);
        NumberToken(a, i, i', lower);
        NumberToken(b, j, j', lower);
        i, j := i', j';
        if IntCmp(an, bn) != Equal {
          return IntCmp(an, bn);
        }
        continue;
      }
      FirstToken(a[i..], lower);
      FirstToken(b[j..], lower);
      var lac, lbc := lower(ac), lower(bc);
      if CharCmp(lac, lbc) != Equal {
        return CharCmp(lac, lbc);
      }
      assert a[i..][1..] == a[i + 1..] && b[j..][1..] == b[j + 1..];
      i, j := i + 1, j + 1;
    }
  }

  lemma NumberToken(s: string, i: nat, next: nat, lower: char -> char)
    requires i < |s| && IsDigit(s[i]) && next == i + DigitRun(s[i..]) <= |s|
    ensures i < next && AllDigits(s[i..next])
    ensures Tokens(s[i..], lower) == [Num(Saturated(Decimal(s[i..next])))] + Tokens(s[next..], lower)
  {
    assert s[i..][..next - i] == s[i..next] && s[i..][next - i..] == s[next..];
  }

  /** A first token is a number, or the lower-cased first character, which is then no digit. */
  lemma FirstToken(s: string, lower: char -> char)
    requires s != [] && KeepsDigits(lower)
    ensures Tokens(s, lower) != []
    ensures IsDigit(s[0]) ==> Tokens(s, lower)[0].Num? && lower(s[0]) == s[0]
    ensures !IsDigit(s[0]) ==> Tokens(s, lower) == [Chr(lower(s[0]))] + Tokens(s[1..], lower) && !IsDigit(lower(s[0]))
  {
  }

  /** The natural order is a total preorder, so sorting by it means something. */
  lemma NaturalOrderIsTotalPreorder(lower: char -> char)
    ensures forall a :: NaturalOrder(a, a, lower) == Equal
    ensures forall a, b :: NaturalOrder(b, a, lower) == NaturalOrder(a, b, lower).Reverse()
    ensures forall a, b, c :: NaturalOrder(a, b, lower) != Greater && NaturalOrder(b, c, lower) != Greater ==>
                                NaturalOrder(a, c, lower) != Greater
  {
    TokenCmpIsOrder();
    forall a, b
      ensures NaturalOrder(b, a, lower) == NaturalOrder(a, b, lower).Reverse()
    {
      LexReverses(Tokens(a, lower), Tokens(b, lower), TokenCmp);
    }
    forall a, b, c | NaturalOrder(a, b, lower) != Greater && NaturalOrder(b, c, lower) != Greater
      ensures NaturalOrder(a, c, lower) != Greater
    {
      LexTransitive(Tokens(a, lower), Tokens(b, lower), Tokens(c, lower), TokenCmp);
    }
    forall a
      ensures NaturalOrder(a, a, lower) == Equal
    {
      LexReverses(Tokens(a, lower), Tokens(a, lower), TokenCmp);
    }
  }

  /** Two names are equal in natural order exactly when their tokens agree. */
  lemma EqualMeansSameTokens(a: string, b: string, lower: char -> char)
    ensures NaturalOrder(a, b, lower) == Equal <==> Tokens(a, lower) == Tokens(b, lower)
  {
    LexEqual(Tokens(a, lower), Tokens(b, lower));
  }

  lemma {:induction false} LexEqual(a: seq<Token>, b: seq<Token>)
    ensures Lex(a, b, TokenCmp) == Equal <==> a == b
  {
    if a != [] && b != [] {
      LexEqual(a[1..], b[1..]);
      assert a == [a[0]] + a[1..] && b == [b[0]] + b[1..];
    }
  }

  /** Beyond 64 bits numbers saturate: two different long numbers can be equal in natural order. */
  lemma SaturatedNumbersTie(a: string, b: string, lower: char -> char)
    requires AllDigits(a) && AllDigits(b) && a != [] && b != []
    ensures NaturalOrder(a, b, lower) == IntCmp(Saturated(Decimal(a)), Saturated(Decimal(b)))
  {
    NumberAlone(a, lower);
    NumberAlone(b, lower);
    LexSingletons(Num(Saturated(Decimal(a))), Num(Saturated(Decimal(b))));
  }

  lemma LexSingletons(x: Token, y: Token)
    ensures Lex([x], [y], TokenCmp) == TokenCmp(x, y)
  {
    assert [x][1..] == [] && [y][1..] == [];
  }

  lemma NumberAlone(s: string, lower: char -> char)
    requires AllDigits(s) && s != []
    ensures Tokens(s, lower) == [Num(Saturated(Decimal(s)))]
  {
    assert s[..|s|] == s;
    DigitRunIs(s, |s|);
    assert s[|s|..] == [];
  }

  // ---- Listings ------------------------------------------------------------

  datatype FileEntry = FileEntry(name: string, isDir: bool, size: nat, modified: nat, extension: string)

  datatype SortField = ByName | BySize | ByModified | ByType

  function DirCmp(a: FileEntry, b: FileEntry): Order {
    if a.isDir == b.isDir then Equal else if a.isDir then Less else Greater
  }

  /** Directories first, then by `key`, reversed for a descending listing. */
  function Compare(key: (FileEntry, FileEntry) -> Order, ascending: bool, a: FileEntry, b: FileEntry): Order {
    if DirCmp(a, b) != Equal then DirCmp(a, b)
    else if ascending then key(a, b) else key(a, b).Reverse()
  }

  function Comparator(key: (FileEntry, FileEntry) -> Order, ascending: bool): (FileEntry, FileEntry) -> Order {
    (a, b) => Compare(key, ascending, a, b)
  }

  function FieldOrder(field: SortField, fold: string -> string, a: FileEntry, b: FileEntry): Order {
    match field
    case ByName => Lex(fold(a.name), fold(b.name), CharCmp)
    case BySize => IntCmp(a.size, b.size)
    case ByModified => IntCmp(a.modified, b.modified)
    case ByType => Lex(fold(a.extension), fold(b.extension), CharCmp)
  }

  function FieldKey(field: SortField, fold: string -> string): (FileEntry, FileEntry) -> Order {
    (a, b) => FieldOrder(field, fold, a, b)
  }

  function NaturalKey(lower: char -> char): (FileEntry, FileEntry) -> Order {
    (a: FileEntry, b: FileEntry) => NaturalOrder(a.name, b.name, lower)
  }

  lemma CharCmpIsOrder()
    ensures TotalPreorder(CharCmp)
  {
    forall a, b
      ensures ReversesAt(CharCmp, a, b)
    {
    }
    forall a, b, c
      ensures TransitiveAt(CharCmp, a, b, c)
    {
    }
  }

  lemma FieldKeyIsOrder(field: SortField, fold: string -> string)
    ensures TotalPreorder(FieldKey(field, fold))
  {
    CharCmpIsOrder();
    var key := FieldKey(field, fold);
    forall a, b
      ensures ReversesAt(key, a, b)
    {
      LexReverses(fold(a.name), fold(b.name), CharCmp);
      LexReverses(fold(a.extension), fold(b.extension), CharCmp);
    }
    forall a, b, c
      ensures TransitiveAt(key, a, b, c)
    {
      assert key(a, c) == FieldOrder(field, fold, a, c);
      if FieldOrder(field, fold, a, b) != Greater && FieldOrder(field, fold, b, c) != Greater {
        match field
        case ByName => LexTransitive(fold(a.name), fold(b.name), fold(c.name), CharCmp);
        case ByType => LexTransitive(fold(a.extension), fold(b.extension), fold(c.extension), CharCmp);
        case _ =>
      }
    }
  }

  lemma NaturalKeyIsOrder(lower: char -> char)
    ensures TotalPreorder(NaturalKey(lower))
  {
    NaturalOrderIsTotalPreorder(lower);
    var key := NaturalKey(lower);
    forall a, b
      ensures ReversesAt(key, a, b)
    {
    }
    forall a, b, c
      ensures TransitiveAt(key, a, b, c)
    {
    }
  }

  lemma ComparatorIsOrder(key: (FileEntry, FileEntry) -> Order, ascending: bool)
    requires TotalPreorder(key)
    ensures TotalPreorder(Comparator(key, ascending))
  {
    var cmp := Comparator(key, ascending);
    forall a, b
      ensures ReversesAt(cmp, a, b)
    {
      assert ReversesAt(key, a, b);
    }
    forall a, b, c
      ensures TransitiveAt(cmp, a, b, c)
    {
      assert TransitiveAt(key, a, b, c) && TransitiveAt(key, c, b, a);
      assert ReversesAt(key, a, b) && ReversesAt(key, b, c) && ReversesAt(key, a, c);
    }
  }

  /** In a sorted listing no file stands before a directory, whichever way it is sorted. */
  lemma DirectoriesFirst(s: seq<FileEntry>, key: (FileEntry, FileEntry) -> Order, ascending: bool)
    requires Sorted(s, Comparator(key, ascending))
    ensures forall i, j :: 0 <= i < j < |s| && s[j].isDir ==> s[i].isDir
  {
    var cmp := Comparator(key, ascending);
    forall i, j | 0 <= i < j < |s| && s[j].isDir
      ensures s[i].isDir
    {
      assert cmp(s[i], s[j]) == Compare(key, ascending, s[i], s[j]) != Greater;
    }
  }

  // ---- Listings by their fields --------------------------------------------

  /** `a` comes no later than `b`: it is a prefix, or smaller in the first character in which they differ. */
  ghost predicate TextUpTo(a: string, b: string) {
    a <= b || exists k :: DiffersAt(a, b, k) && a[k] < b[k]
  }

  ghost predicate DiffersAt(a: string, b: string, k: int) {
    0 <= k < |a| && k < |b| && a[..k] == b[..k] && a[k] != b[k]
  }

  lemma DiffersFirst(a: string, b: string, k: nat)
    requires DiffersAt(a, b, k)
    ensures k > 0 ==> a[0] == b[0]
  {
    if k > 0 {
      assert a[..k][0] == a[0] && b[..k][0] == b[0];
    }
  }

  lemma {:induction false} LexIsTextOrder(a: string, b: string)
    ensures Lex(a, b, CharCmp) != Greater <==> TextUpTo(a, b)
  {
    if a != [] && b != [] {
      if a[0] == b[0] {
        LexIsTextOrder(a[1..], b[1..]);
        TextUpToTail(a, b);
      } else {
        assert a[0] < b[0] ==> DiffersAt(a, b, 0);
        forall k | DiffersAt(a, b, k)
          ensures k == 0
        {
          DiffersFirst(a, b, k);
        }
      }
    }
  }

  lemma TextUpToTail(a: string, b: string)
    requires a != [] && b != [] && a[0] == b[0]
    ensures TextUpTo(a, b) <==> TextUpTo(a[1..], b[1..])
  {
    assert a == [a[0]] + a[1..] && b == [b[0]] + b[1..];
    if k :| DiffersAt(a, b, k) && a[k] < b[k] {
      assert k > 0;
      assert a[1..][..k - 1] == a[..k][1..] && b[1..][..k - 1] == b[..k][1..];
      assert DiffersAt(a[1..], b[1..], k - 1);
    }
    if k :| DiffersAt(a[1..], b[1..], k) && a[1..][k] < b[1..][k] {
      assert a[..k + 1] == [a[0]] + a[1..][..k] && b[..k + 1] == [b[0]] + b[1..][..k];
      assert DiffersAt(a, b, k + 1);
    }
  }

  /** `a` comes no later than `b` by the field: the smaller number, or the text that is no later. */
  ghost predicate UpTo(field: SortField, fold: string -> string, a: FileEntry, b: FileEntry) {
    match field
    case ByName => TextUpTo(fold(a.name), fold(b.name))
    case BySize => a.size <= b.size
    case ByModified => a.modified <= b.modified
    case ByType => TextUpTo(fold(a.extension), fold(b.extension))
  }

  /** Among entries of one kind the field never falls, or for a descending listing never rises. */
  ghost predicate ListedBy(s: seq<FileEntry>, field: SortField, ascending: bool, fold: string -> string) {
    forall i, j :: 0 <= i < j < |s| && s[i].isDir == s[j].isDir ==>
      if ascending then UpTo(field, fold, s[i], s[j]) else UpTo(field, fold, s[j], s[i])
  }

  lemma FieldOrderIsUpTo(field: SortField, fold: string -> string, a: FileEntry, b: FileEntry)
    ensures FieldOrder(field, fold, a, b) != Greater <==> UpTo(field, fold, a, b)
  {
    LexIsTextOrder(fold(a.name), fold(b.name));
    LexIsTextOrder(fold(a.extension), fold(b.extension));
  }

  lemma SortedIsListed(s: seq<FileEntry>, field: SortField, ascending: bool, fold: string -> string)
    requires Sorted(s, Comparator(FieldKey(field, fold), ascending))
    ensures ListedBy(s, field, ascending, fold)
  {
    var key := FieldKey(field, fold);
    FieldKeyIsOrder(field, fold);
    forall i, j | 0 <= i < j < |s| && s[i].isDir == s[j].isDir
      ensures if ascending then UpTo(field, fold, s[i], s[j]) else UpTo(field, fold, s[j], s[i])
    {
      assert Comparator(key, ascending)(s[i], s[j]) == Compare(key, ascending, s[i], s[j]) != Greater;
      assert ReversesAt(key, s[i], s[j]);
      FieldOrderIsUpTo(field, fold, s[i], s[j]);
      FieldOrderIsUpTo(field, fold, s[j], s[i]);
    }
  }

  /** Among entries of one kind no name is followed by a naturally smaller one, or a greater one if descending. */
  ghost predicate ListedNaturally(s: seq<FileEntry>, ascending: bool, lower: char -> char) {
    forall i, j :: 0 <= i < j < |s| && s[i].isDir == s[j].isDir ==>
      NaturalOrder(s[i].name, s[j].name, lower) != if ascending then Greater else Less
  }

  lemma SortedIsListedNaturally(s: seq<FileEntry>, ascending: bool, lower: char -> char)
    requires Sorted(s, Comparator(NaturalKey(lower), ascending))
    ensures ListedNaturally(s, ascending, lower)
  {
    var key := NaturalKey(lower);
    forall i, j | 0 <= i < j < |s| && s[i].isDir == s[j].isDir
      ensures NaturalOrder(s[i].name, s[j].name, lower) != if ascending then Greater else Less
    {
      assert Comparator(key, ascending)(s[i], s[j]) == Compare(key, ascending, s[i], s[j]) != Greater;
      assert key(s[i], s[j]) == NaturalOrder(s[i].name, s[j].name, lower);
    }
  }

  method SortEntries(entries: array<FileEntry>, field: SortField, ascending: bool, fold: string -> string)
    modifies entries
    ensures Sorted(entries[..], Comparator(FieldKey(field, fold), ascending))
    ensures StableRearrangement(old(entries[..]), entries[..], Comparator(FieldKey(field, fold), ascending))
    ensures ListedBy(entries[..], field, ascending, fold)
    ensures forall i, j :: 0 <= i < j < entries.Length && entries[j].isDir ==> entries[i].isDir
  {
    FieldKeyIsOrder(field, fold);
    ComparatorIsOrder(FieldKey(field, fold), ascending);
    SortBy(entries, Comparator(FieldKey(field, fold), ascending));
    DirectoriesFirst(entries[..], FieldKey(field, fold), ascending);
    SortedIsListed(entries[..], field, ascending, fold);
  }

  method SortNatural(entries: array<FileEntry>, ascending: bool, lower: char -> char)
    modifies entries
    ensures Sorted(entries[..], Comparator(NaturalKey(lower), ascending))
    ensures StableRearrangement(old(entries[..]), entries[..], Comparator(NaturalKey(lower), ascending))
    ensures ListedNaturally(entries[..], ascending, lower)
    ensures forall i, j :: 0 <= i < j < entries.Length && entries[j].isDir ==> entries[i].isDir
  {
    NaturalKeyIsOrder(lower);
    ComparatorIsOrder(NaturalKey(lower), ascending);
    SortBy(entries, Comparator(NaturalKey(lower), ascending));
    DirectoriesFirst(entries[..], NaturalKey(lower), ascending);
    SortedIsListedNaturally(entries[..], ascending, lower);
  }
}
