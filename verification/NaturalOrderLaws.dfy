/** What the natural order of names is: the order of numbers, and of characters without regard to case. */
module NaturalOrderLaws {
  import opened Ordering
  import opened Decimals
  import opened NaturalSort

  /** No run of digits crosses the seam between the two texts. */
  predicate Apart(a: string, b: string) {
    a == [] || b == [] || !IsDigit(a[|a| - 1]) || !IsDigit(b[0])
  }

  lemma RunOfConcat(a: string, b: string)
    requires a != [] && IsDigit(a[0]) && Apart(a, b)
    ensures DigitRun(a + b) == DigitRun(a)
  {
    var n := DigitRun(a);
    assert DigitsUpTo(a + b, n) by {
      forall k | 0 <= k < n
        ensures IsDigit((a + b)[k])
      {
        assert (a + b)[k] == a[k];
      }
    }
    if n < |a + b| {
      assert n < |a| ==> (a + b)[n] == a[n];
      if n == |a| {
        assert IsDigit(a[n - 1]);
      }
    }
    DigitRunIs(a + b, n);
  }

  /** How much of the text its first token takes. */
  function FirstLength(s: string): (n: nat)
    requires s != []
    ensures 0 < n <= |s|
  {
    if IsDigit(s[0]) then DigitRun(s) else 1
  }

  function FirstOf(s: string, lower: char -> char): Token
    requires s != []
  {
    if IsDigit(s[0]) then Num(Saturated(Decimal(s[..DigitRun(s)]))) else Chr(lower(s[0]))
  }

  lemma TokensStep(s: string, lower: char -> char)
    requires s != []
    ensures Tokens(s, lower) == [FirstOf(s, lower)] + Tokens(s[FirstLength(s)..], lower)
  {
  }

  lemma FirstOfConcat(a: string, b: string, lower: char -> char)
    requires a != [] && Apart(a, b)
    ensures FirstLength(a + b) == FirstLength(a) && FirstOf(a + b, lower) == FirstOf(a, lower)
    ensures (a + b)[FirstLength(a)..] == a[FirstLength(a)..] + b && Apart(a[FirstLength(a)..], b)
  {
    assert (a + b)[0] == a[0];
    if IsDigit(a[0]) {
      RunOfConcat(a, b);
      assert (a + b)[..DigitRun(a)] == a[..DigitRun(a)];
    }
  }

  lemma Regroup(x: seq<Token>, y: seq<Token>, z: seq<Token>)
    ensures x + (y + z) == (x + y) + z
  {
  }

  /** Texts cut outside their numbers have their tokens cut there. */
  lemma {:induction false} TokensConcat(a: string, b: string, lower: char -> char)
    requires Apart(a, b)
    ensures Tokens(a + b, lower) == Tokens(a, lower) + Tokens(b, lower)
    decreases |a|
  {
    if a == [] {
      assert a + b == b;
    } else {
      var rest, first := a[FirstLength(a)..], [FirstOf(a, lower)];
      FirstOfConcat(a, b, lower);
      TokensStep(a, lower);
      TokensStep(a + b, lower);
      TokensConcat(rest, b, lower);
      Regroup(first, Tokens(rest, lower), Tokens(b, lower));
    }
  }

  lemma {:induction false} LexSkips(p: seq<Token>, a: seq<Token>, b: seq<Token>)
    ensures Lex(p + a, p + b, TokenCmp) == Lex(a, b, TokenCmp)
  {
    if p == [] {
      assert p + a == a && p + b == b;
    } else {
      assert (p + a)[1..] == p[1..] + a && (p + b)[1..] == p[1..] + b;
      LexSkips(p[1..], a, b);
    }
  }

  /** Behind a common beginning the first two numbers decide by value, unless they are equal: `foo2` before `foo10`. */
  lemma NumbersDecide(p: string, m: string, n: string, a: string, b: string, lower: char -> char)
    requires AllDigits(m) && AllDigits(n) && m != [] && n != []
    requires p == [] || !IsDigit(p[|p| - 1])
    requires a == [] || !IsDigit(a[0])
    requires b == [] || !IsDigit(b[0])
    requires Saturated(Decimal(m)) != Saturated(Decimal(n))
    ensures NaturalOrder(p + (m + a), p + (n + b), lower) ==
            if Saturated(Decimal(m)) < Saturated(Decimal(n)) then Less else Greater
  {
    TokensConcat(p, m + a, lower);
    TokensConcat(p, n + b, lower);
    TokensConcat(m, a, lower);
    TokensConcat(n, b, lower);
    NumberAlone(m, lower);
    NumberAlone(n, lower);
    LexSkips(Tokens(p, lower), Tokens(m + a, lower), Tokens(n + b, lower));
  }

  /** Behind a common beginning the first two characters decide by their lower case, unless they are equal or digits. */
  lemma CharactersDecide(p: string, a: string, b: string, lower: char -> char)
    requires KeepsDigits(lower) && a != [] && b != [] && Apart(p, a) && Apart(p, b)
    requires !(IsDigit(a[0]) && IsDigit(b[0])) && lower(a[0]) != lower(b[0])
    ensures NaturalOrder(p + a, p + b, lower) == if lower(a[0]) < lower(b[0]) then Less else Greater
  {
    TokensConcat(p, a, lower);
    TokensConcat(p, b, lower);
    FirstToken(a, lower);
    FirstToken(b, lower);
    LexSkips(Tokens(p, lower), Tokens(a, lower), Tokens(b, lower));
  }

  /** A name comes before every longer one that it begins. */
  lemma BeginningComesFirst(p: string, a: string, lower: char -> char)
    requires a != [] && Apart(p, a)
    ensures NaturalOrder(p, p + a, lower) == Less
  {
    TokensConcat(p, a, lower);
    LexSkips(Tokens(p, lower), [], Tokens(a, lower));
    assert Tokens(p, lower) + [] == Tokens(p, lower);
  }

  function Lowered(s: string, lower: char -> char): (r: string)
    ensures |r| == |s| && forall k :: 0 <= k < |s| ==> r[k] == lower(s[k])
  {
    if s == [] then [] else [lower(s[0])] + Lowered(s[1..], lower)
  }

  lemma {:induction false} LoweredFrom(s: string, lower: char -> char, n: nat)
    requires n <= |s|
    ensures Lowered(s, lower)[n..] == Lowered(s[n..], lower)
  {
  }

  lemma LoweredRun(s: string, lower: char -> char)
    requires KeepsDigits(lower)
    ensures DigitRun(Lowered(s, lower)) == DigitRun(s)
    ensures Lowered(s, lower)[..DigitRun(s)] == s[..DigitRun(s)]
  {
    var n := DigitRun(s);
    assert forall k :: 0 <= k < n ==> IsDigit(s[k]);
    DigitRunIs(Lowered(s, lower), n);
  }

  /** Case does not matter: a name and its lower case are equal in natural order. */
  lemma {:induction false} CaseIsIgnored(s: string, lower: char -> char)
    requires KeepsDigits(lower) && forall c :: lower(lower(c)) == lower(c)
    ensures Tokens(Lowered(s, lower), lower) == Tokens(s, lower)
    decreases |s|
  {
    if s != [] {
      var n := if IsDigit(s[0]) then DigitRun(s) else 1;
      LoweredRun(s, lower);
      LoweredFrom(s, lower, n);
      CaseIsIgnored(s[n..], lower);
    }
  }
}
