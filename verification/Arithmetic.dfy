/** The largest machine integers, quotients and remainders by a variable divisor, and the order of scaled reals. */
module Arithmetic {
  const U64_MAX: nat := 0xFFFF_FFFF_FFFF_FFFF
  const U32_MAX: nat := 0xFFFF_FFFF

  lemma DivModUnique(a: int, n: nat, q: int, r: nat)
    requires r < n && a == q * n + r
    ensures a / n == q && a % n == r
  {
    var d := q - a / n;
    assert d * n == a % n - r;
    MulOutgrows(d, n);
  }

  lemma {:induction false} MulOutgrows(d: int, n: nat)
    ensures 0 < d ==> n <= d * n
    ensures d < 0 ==> d * n + n <= 0
    decreases if d < 0 then -d else d
  {
    if 1 < d {
      MulOutgrows(d - 1, n);
    } else if d < -1 {
      MulOutgrows(d + 1, n);
    }
  }

  /** The quotient grows by one exactly at the multiples of the divisor. */
  lemma QuotientSteps(y: nat, d: nat)
    requires 0 < y && 1 < d
    ensures y / d == (y - 1) / d + (if y % d == 0 then 1 else 0)
  {
    var q, r := (y - 1) / d, (y - 1) % d;
    if r == d - 1 {
      assert y == (q + 1) * d + 0;
      DivModUnique(y, d, q + 1, 0);
    } else {
      DivModUnique(y, d, q, r + 1);
    }
  }

  lemma MultipleOfMultiple(y: nat, n: nat, d: nat, k: nat)
    requires 0 < d && 0 < n && n == k * d
    ensures y % n == 0 ==> y % d == 0
  {
    var q := y / n;
    if y % n == 0 {
      assert y == q * n == q * (k * d) == (q * k) * d;
      DivModUnique(y, d, q * k, 0);
    }
  }

  function Min(x: real, y: real): real {
    if y < x then y else x
  }

  function Max(x: real, y: real): real {
    if x < y then y else x
  }

  /** Scaling by a positive factor keeps the order of reals. */
  lemma ScaleOrder(a: real, b: real, n: real)
    requires 0.0 < n
    ensures a <= b <==> a * n <= b * n
    ensures a < b <==> a * n < b * n
    ensures a >= b <==> a * n >= b * n
  {
  }
}
