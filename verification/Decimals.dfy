/** Decimal numerals: their value, how numbers are printed, and padding to a fixed width. */
module Decimals {
  import opened Ordering

  predicate IsDigit(c: char) {
    '0' <= c <= '9'
  }

  function DigitValue(c: char): nat
    requires IsDigit(c)
  {
    c as nat - '0' as nat
  }

  function DigitChar(d: nat): (c: char)
    requires d < 10
    ensures IsDigit(c) && DigitValue(c) == d
  {
    ('0' as nat + d) as char
  }

  predicate AllDigits(s: string) {
    forall k :: 0 <= k < |s| ==> IsDigit(s[k])
  }

  /** The decimal value of a string of digits. */
  function Decimal(s: string): nat
    requires AllDigits(s)
  {
    if s == [] then 0 else Decimal(s[..|s| - 1]) * 10 + DigitValue(s[|s| - 1])
  }

  /** A number as it is printed: its digits, without leading zeros. */
  function Print(n: nat): (s: string)
    ensures AllDigits(s) && 0 < |s|
    ensures 1 < |s| ==> s[0] != '0'
  {
    if n < 10 then [DigitChar(n)] else Print(n / 10) + [DigitChar(n % 10)]
  }

  lemma {:induction false} PrintThenRead(n: nat)
    ensures Decimal(Print(n)) == n
  {
    if n < 10 {
      assert Print(n)[..0] == [];
    } else {
      PrintThenRead(n / 10);
      assert Print(n)[..|Print(n)| - 1] == Print(n / 10);
    }
  }

  // ---- Fixed width ---------------------------------------------------------

  function Pow10(w: nat): (p: nat)
    ensures p > 0
  {
    if w == 0 then 1 else 10 * Pow10(w - 1)
  }

  /** The last `w` digits of `n`. */
  function FixedWidth(n: nat, w: nat): (s: string)
    ensures |s| == w
  {
    if w == 0 then [] else FixedWidth(n / 10, w - 1) + [DigitChar(n % 10)]
  }

  /** The last `w` digits of a number that has no more are the number. */
  lemma {:induction false} FixedWidthReads(n: nat, w: nat)
    requires n < Pow10(w)
    ensures AllDigits(FixedWidth(n, w)) && Decimal(FixedWidth(n, w)) == n
    decreases w
  {
    if w > 0 {
      FixedWidthReads(n / 10, w - 1);
      assert FixedWidth(n, w)[..w - 1] == FixedWidth(n / 10, w - 1);
    }
  }

  function Zeros(k: nat): (s: string)
    ensures |s| == k
  {
    if k == 0 then "" else Zeros(k - 1) + "0"
  }

  /** `{n:0w}`: printed, with zeros in front up to the width. */
  function Padded(n: nat, w: nat): string {
    var s := Print(n);
    if |s| < w then Zeros(w - |s|) + s else s
  }

  lemma {:induction false} FixedZero(w: nat)
    ensures FixedWidth(0, w) == Zeros(w)
  {
    if w > 0 {
      FixedZero(w - 1);
      assert DigitChar(0) == '0';
    }
  }

  lemma {:induction false} PrintLength(n: nat, w: nat)
    requires 0 < w && n < Pow10(w)
    ensures |Print(n)| <= w
    decreases w
  {
    if n >= 10 {
      PrintLength(n / 10, w - 1);
    }
  }

  /** A number that fits is padded to exactly its width. */
  lemma {:induction false} PaddedIsFixedWidth(n: nat, w: nat)
    requires 0 < w && n < Pow10(w)
    ensures Padded(n, w) == FixedWidth(n, w)
    decreases w
  {
    PrintLength(n, w);
    if n < 10 {
      FixedZero(w - 1);
      assert n / 10 == 0 && n % 10 == n;
    } else {
      PaddedIsFixedWidth(n / 10, w - 1);
      var s, t := Print(n), Print(n / 10);
      assert |s| == |t| + 1;
      assert Zeros(w - |s|) + (t + [DigitChar(n % 10)]) == (Zeros(w - |s|) + t) + [DigitChar(n % 10)];
    }
  }

  lemma {:induction false} LexConcat(a: string, b: string, c: string, d: string)
    requires |a| == |c|
    ensures Lex(a + b, c + d, CharCmp) ==
            (if Lex(a, c, CharCmp) == Equal then Lex(b, d, CharCmp) else Lex(a, c, CharCmp))
  {
    if a == [] {
      assert a + b == b && c + d == d;
    } else {
      assert (a + b)[1..] == a[1..] + b && (c + d)[1..] == c[1..] + d;
      LexConcat(a[1..], b, c[1..], d);
    }
  }

  /** Numerals of one width compare as text the way their numbers compare. */
  lemma {:induction false} FixedWidthOrder(m: nat, n: nat, w: nat)
    requires m < Pow10(w) && n < Pow10(w)
    ensures Lex(FixedWidth(m, w), FixedWidth(n, w), CharCmp) == IntCmp(m, n)
    decreases w
  {
    if w > 0 {
      FixedWidthOrder(m / 10, n / 10, w - 1);
      var x, y := [DigitChar(m % 10)], [DigitChar(n % 10)];
      LexConcat(FixedWidth(m / 10, w - 1), x, FixedWidth(n / 10, w - 1), y);
      assert x[1..] == [] && y[1..] == [];
      assert Lex(x, y, CharCmp) == IntCmp(m % 10, n % 10);
    }
  }
}
