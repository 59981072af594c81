/** Easing functions over the reals: the cubic-bezier solver and the CSS timing functions. */
module Easing {
  import opened Arithmetic

  function Abs(x: real): real {
    if x < 0.0 then -x else x
  }

  function Clamp(x: real, lo: real, hi: real): real {
    if x < lo then lo else if x > hi then hi else x
  }

  ghost predicate Unit(x: real) {
    0.0 <= x <= 1.0
  }

  /** A curve from (0,0) to (1,1) with two inner control points. */
  datatype CubicBezier = CubicBezier(x1: real, y1: real, x2: real, y2: real) {
    function SampleX(t: real): real {
      Bernstein(x1, x2, t)
    }

    function SampleY(t: real): real {
      Bernstein(y1, y2, t)
    }

    /** The slope of `SampleX` that the Newton step divides by. */
    function SlopeX(t: real): real {
      3.0 * (1.0 - t) * (1.0 - t) * x1 + 6.0 * (1.0 - t) * t * (x2 - x1) + 3.0 * t * t * (1.0 - x2)
    }
  }

  function Bernstein(p1: real, p2: real, t: real): real {
    3.0 * (1.0 - t) * (1.0 - t) * t * p1 + 3.0 * (1.0 - t) * t * t * p2 + t * t * t
  }

  const NEWTON_ROUNDS: nat := 8
  const BISECTION_ROUNDS: nat := 20
  const SLOPE_FLOOR := 0.0000001
  const NEWTON_TOLERANCE := 0.0001
  const BISECTION_TOLERANCE := 0.000001

  // ---- The solver as a function --------------------------------------------

  /** At most `n` Newton steps from `t`, each clamped to the unit interval. */
  function Newton(c: CubicBezier, x: real, t: real, n: nat): real
    decreases n, x
  {
    if n == 0 || Abs(c.SlopeX(t)) < SLOPE_FLOOR then t
    else Newton(c, x, Clamp(t - (c.SampleX(t) - x) / c.SlopeX(t), 0.0, 1.0), n - 1)
  }

  /** At most `n` bisection rounds on the bracket `[lo, hi]`, probing `t` first. */
  function Bisect(c: CubicBezier, x: real, lo: real, hi: real, t: real, n: nat): real
    decreases n, x
  {
    if n == 0 || Abs(c.SampleX(t) - x) < BISECTION_TOLERANCE then t
    else if c.SampleX(t) < x then Bisect(c, x, t, hi, (t + hi) / 2.0, n - 1)
    else Bisect(c, x, lo, t, (lo + t) / 2.0, n - 1)
  }

  function SolveTForX(c: CubicBezier, x: real): real {
    var t := Newton(c, x, x, NEWTON_ROUNDS);
    if Abs(c.SampleX(t) - x) > NEWTON_TOLERANCE then Bisect(c, x, 0.0, 1.0, x, BISECTION_ROUNDS) else t
  }

  /** The first loop of the solver. */
  method NewtonLoop(c: CubicBezier, x: real) returns (t: real)
    ensures t == Newton(c, x, x, NEWTON_ROUNDS)
  {
    t := x;
    for k := 0 to NEWTON_ROUNDS
      invariant Newton(c, x, t, NEWTON_ROUNDS - k) == Newton(c, x, x, NEWTON_ROUNDS)
    {
      var xEst := c.SampleX(t) - x;
      var dx := c.SlopeX(t);
      if Abs(dx) < SLOPE_FLOOR {
        break;
      }
      t := t - xEst / dx;
      t := Clamp(t, 0.0, 1.0);
    }
  }

  /** The second. */
  method BisectionLoop(c: CubicBezier, x: real) returns (t: real)
    ensures t == Bisect(c, x, 0.0, 1.0, x, BISECTION_ROUNDS)
  {
    var lo, hi := 0.0, 1.0;
    t := x;
    for k := 0 to BISECTION_ROUNDS
      invariant Bisect(c, x, lo, hi, t, BISECTION_ROUNDS - k) == Bisect(c, x, 0.0, 1.0, x, BISECTION_ROUNDS)
    {
      var xEst := c.SampleX(t);
      if Abs(xEst - x) < BISECTION_TOLERANCE {
        break;
      }
      if xEst < x {
        lo := t;
      } else {
        hi := t;
      }
      t := (lo + hi) / 2.0;
    }
  }

  /** The solver of the source: bisection only where Newton has missed. */
  method Solve(c: CubicBezier, x: real) returns (t: real)
    ensures t == SolveTForX(c, x)
  {
    t := NewtonLoop(c, x);
    if Abs(c.SampleX(t) - x) > NEWTON_TOLERANCE {
      t := BisectionLoop(c, x);
    }
  }

  function EvaluateBezier(c: CubicBezier, x: real): real {
    if x <= 0.0 then 0.0 else if x >= 1.0 then 1.0 else c.SampleY(SolveTForX(c, x))
  }

  // ---- The curve -----------------------------------------------------------

  function Mix(a: real, b: real, v: real): real {
    (1.0 - v) * a + v * b
  }

  /** The quadratic with control values d0, d1, d2 polarised: affine in `u` and in `v`. */
  function Blossom(d0: real, d1: real, d2: real, u: real, v: real): real {
    Mix(Mix(d0, d1, v), Mix(d1, d2, v), u)
  }

  /** The cubic with control values 0, p1, p2, 1 polarised. */
  function CubicBlossom(p1: real, p2: real, u: real, v: real, w: real): real {
    Mix(Blossom(0.0, p1, p2, v, w), Blossom(p1, p2, 1.0, v, w), u)
  }

  /** Three times the mean slope of the cubic between two parameters. */
  function MeanSlope(p1: real, p2: real, a: real, b: real): real {
    var d0, d1, d2 := p1, p2 - p1, 1.0 - p2;
    Blossom(d0, d1, d2, a, a) + Blossom(d0, d1, d2, a, b) + Blossom(d0, d1, d2, b, b)
  }

  // The polynomial identities are cut so small that each needs one expansion.

  lemma MixSplit(a: real, b: real, s: real, v: real)
    requires s == 1.0 - v
    ensures Mix(a, b, v) == s * a + v * b
  {
  }

  lemma BernsteinSplit(p1: real, p2: real, s: real, t: real)
    requires s == 1.0 - t
    ensures Bernstein(p1, p2, t) == 3.0 * s * s * t * p1 + 3.0 * s * t * t * p2 + t * t * t
  {
  }

  lemma MonomialForm(p1: real, p2: real, s: real, t: real, q0: real, q1: real, q2: real, r0: real, r1: real)
    requires q0 == s * 0.0 + t * p1 && q1 == s * p1 + t * p2 && q2 == s * p2 + t * 1.0
    requires r0 == s * q0 + t * q1 && r1 == s * q1 + t * q2
    ensures s * r0 + t * r1 == 3.0 * s * s * t * p1 + 3.0 * s * t * t * p2 + t * t * t
  {
  }

  lemma CubicSplit(p1: real, p2: real, t: real, q0: real, q1: real, q2: real, r0: real, r1: real)
    requires q0 == Mix(0.0, p1, t) && q1 == Mix(p1, p2, t) && q2 == Mix(p2, 1.0, t)
    requires r0 == Mix(q0, q1, t) && r1 == Mix(q1, q2, t)
    ensures CubicBlossom(p1, p2, t, t, t) == Mix(r0, r1, t)
  {
  }

  /** The formula of the source is repeated mixing of the control values. */
  lemma DeCasteljau(p1: real, p2: real, t: real)
    ensures Bernstein(p1, p2, t) == CubicBlossom(p1, p2, t, t, t)
  {
    var q0, q1, q2 := Mix(0.0, p1, t), Mix(p1, p2, t), Mix(p2, 1.0, t);
    var r0, r1 := Mix(q0, q1, t), Mix(q1, q2, t);
    var s := 1.0 - t;
    CubicSplit(p1, p2, t, q0, q1, q2, r0, r1);
    MixSplit(0.0, p1, s, t);
    MixSplit(p1, p2, s, t);
    MixSplit(p2, 1.0, s, t);
    MixSplit(q0, q1, s, t);
    MixSplit(q1, q2, s, t);
    MixSplit(r0, r1, s, t);
    MonomialForm(p1, p2, s, t, q0, q1, q2, r0, r1);
    BernsteinSplit(p1, p2, s, t);
  }

  /** Mixing rows and then columns is mixing columns and then rows. */
  lemma MixExchange(a0: real, a1: real, b0: real, b1: real, v: real, p: real)
    ensures Mix(Mix(a0, a1, p), Mix(b0, b1, p), v) == Mix(Mix(a0, b0, v), Mix(a1, b1, v), p)
  {
  }

  lemma CubicSymmetric(p1: real, p2: real, u: real, v: real, w: real)
    ensures CubicBlossom(p1, p2, u, v, w) == CubicBlossom(p1, p2, v, u, w)
    ensures CubicBlossom(p1, p2, u, v, w) == CubicBlossom(p1, p2, u, w, v)
  {
    MixExchange(Mix(0.0, p1, w), Mix(p1, p2, w), Mix(p1, p2, w), Mix(p2, 1.0, w), u, v);
    MixExchange(0.0, p1, p1, p2, v, w);
    MixExchange(p1, p2, p2, 1.0, v, w);
  }

  lemma MixDifference(a: real, b: real, c: real, d: real, v: real)
    ensures Mix(c, d, v) - Mix(a, b, v) == Mix(c - a, d - b, v)
  {
  }

  lemma BlossomDifference(d0: real, d1: real, d2: real, e0: real, e1: real, e2: real, u: real, v: real)
    ensures Blossom(e0, e1, e2, u, v) - Blossom(d0, d1, d2, u, v) == Blossom(e0 - d0, e1 - d1, e2 - d2, u, v)
  {
    MixDifference(d0, d1, e0, e1, v);
    MixDifference(d1, d2, e1, e2, v);
    MixDifference(Mix(d0, d1, v), Mix(d1, d2, v), Mix(e0, e1, v), Mix(e1, e2, v), u);
  }

  // The width `d` of a parameter step is passed by name, so that no product with it is expanded.

  lemma MixSlope(x: real, y: real, a: real, b: real, d: real, q: real)
    requires d == b - a && q == y - x
    ensures Mix(x, y, b) - Mix(x, y, a) == d * q
  {
  }

  lemma CubicStep(p1: real, p2: real, a: real, b: real, d: real, v: real, w: real) returns (q: real)
    requires d == b - a
    ensures q == Blossom(p1, p2 - p1, 1.0 - p2, v, w)
    ensures CubicBlossom(p1, p2, b, v, w) - CubicBlossom(p1, p2, a, v, w) == d * q
  {
    q := Blossom(p1, p2, 1.0, v, w) - Blossom(0.0, p1, p2, v, w);
    MixSlope(Blossom(0.0, p1, p2, v, w), Blossom(p1, p2, 1.0, v, w), a, b, d, q);
    BlossomDifference(0.0, p1, p2, p1, p2, 1.0, v, w);
  }

  lemma ScaleWithin(d: real, x: real, y: real, z: real) returns (u: real)
    requires 0.0 <= d && 0.0 <= x + y + z <= 3.0
    ensures u == d * x + d * y + d * z && 0.0 <= u <= 3.0 * d
  {
    var m := x + y + z;
    u := d * m;
    assert u == d * x + d * y + d * z;
    ProductSign(d, m);
    ProductSign(d, 3.0 - m);
  }

  /** Moving one argument of the polar form at a time. */
  lemma CubicDifference(p1: real, p2: real, a: real, b: real, d: real) returns (x: real, y: real, z: real)
    requires d == b - a
    ensures CubicBlossom(p1, p2, b, b, b) - CubicBlossom(p1, p2, a, a, a) == d * x + d * y + d * z
    ensures x == Blossom(p1, p2 - p1, 1.0 - p2, a, a) && y == Blossom(p1, p2 - p1, 1.0 - p2, a, b)
    ensures z == Blossom(p1, p2 - p1, 1.0 - p2, b, b)
  {
    x := CubicStep(p1, p2, a, b, d, a, a);
    y := CubicStep(p1, p2, a, b, d, a, b);
    z := CubicStep(p1, p2, a, b, d, b, b);
    CubicSymmetric(p1, p2, a, b, b);
    CubicSymmetric(p1, p2, a, a, b);
    CubicSymmetric(p1, p2, a, b, a);
  }

  lemma SlopeFacts(p1: real, p2: real, a: real, b: real, x: real, y: real, z: real)
    requires Unit(p1) && Unit(p2) && Unit(a) && Unit(b)
    requires x == Blossom(p1, p2 - p1, 1.0 - p2, a, a) && y == Blossom(p1, p2 - p1, 1.0 - p2, a, b)
    requires z == Blossom(p1, p2 - p1, 1.0 - p2, b, b)
    ensures 0.0 <= x + y + z <= 3.0
  {
    BlossomWithin(p1, p2, a, a, 1.0);
    BlossomWithin(p1, p2, a, b, 1.0);
    BlossomWithin(p1, p2, b, b, 1.0);
    MeanSlopeSign(p1, p2, a, b);
  }

  lemma ProductSign(a: real, b: real)
    requires 0.0 <= a && 0.0 <= b
    ensures 0.0 <= a * b
  {
  }

  lemma MixWithin(a: real, b: real, v: real, lo: real, hi: real)
    requires Unit(v) && lo <= a <= hi && lo <= b <= hi
    ensures lo <= Mix(a, b, v) <= hi
  {
    ProductSign(1.0 - v, a - lo);
    ProductSign(1.0 - v, hi - a);
    ProductSign(v, b - lo);
    ProductSign(v, hi - b);
    assert Mix(a, b, v) - lo == (1.0 - v) * (a - lo) + v * (b - lo);
    assert hi - Mix(a, b, v) == (1.0 - v) * (hi - a) + v * (hi - b);
  }

  /** `m` bounds the three differences of neighbouring control values. */
  predicate StepsWithin(p1: real, p2: real, m: real) {
    -m <= p1 <= m && -m <= p2 - p1 <= m && -m <= 1.0 - p2 <= m
  }

  lemma BlossomWithin(p1: real, p2: real, u: real, v: real, m: real)
    requires StepsWithin(p1, p2, m) && Unit(u) && Unit(v)
    ensures -m <= Blossom(p1, p2 - p1, 1.0 - p2, u, v) <= m
  {
    var d0, d1, d2 := p1, p2 - p1, 1.0 - p2;
    MixWithin(d0, d1, v, -m, m);
    MixWithin(d1, d2, v, -m, m);
    MixWithin(Mix(d0, d1, v), Mix(d1, d2, v), u, -m, m);
  }

  lemma MeanSlopeWithin(p1: real, p2: real, a: real, b: real)
    requires Unit(p1) && Unit(p2) && Unit(a) && Unit(b)
    ensures -3.0 <= MeanSlope(p1, p2, a, b) <= 3.0
  {
    BlossomWithin(p1, p2, a, a, 1.0);
    BlossomWithin(p1, p2, a, b, 1.0);
    BlossomWithin(p1, p2, b, b, 1.0);
  }

  lemma SquareSumSign(a: real, b: real)
    ensures 0.0 <= a * a + a * b + b * b
  {
    var h := a + b / 2.0;
    assert a * a + a * b + b * b == h * h + 0.75 * (b * b);
    assert 0.0 <= h * h && 0.0 <= b * b;
  }

  lemma LowCornerSlope(a: real, b: real)
    ensures 0.0 <= MeanSlope(0.0, 0.0, a, b)
  {
    SquareSumSign(a, b);
    assert MeanSlope(0.0, 0.0, a, b) == a * a + a * b + b * b;
  }

  lemma HighCornerSlope(a: real, b: real, s: real, r: real)
    requires s == 1.0 - a && r == 1.0 - b
    ensures 0.0 <= MeanSlope(1.0, 1.0, a, b)
  {
    SquareSumSign(s, r);
    assert Blossom(1.0, 0.0, 0.0, a, a) == s * s;
    assert Blossom(1.0, 0.0, 0.0, a, b) == s * r;
    assert Blossom(1.0, 0.0, 0.0, b, b) == r * r;
  }

  lemma SteepBlossom(u: real, v: real, s: real, r: real)
    requires s == 1.0 - 2.0 * u && r == 1.0 - 2.0 * v
    ensures Blossom(1.0, -1.0, 1.0, u, v) == s * r
  {
    assert Mix(1.0, -1.0, v) == r && Mix(-1.0, 1.0, v) == -r;
  }

  lemma SteepCornerSlope(a: real, b: real, s: real, r: real)
    requires s == 1.0 - 2.0 * a && r == 1.0 - 2.0 * b
    ensures 0.0 <= MeanSlope(1.0, 0.0, a, b)
  {
    SteepBlossom(a, a, s, s);
    SteepBlossom(a, b, s, r);
    SteepBlossom(b, b, r, r);
    SquareSumSign(s, r);
  }

  lemma MiddleCornerSlope(a: real, b: real)
    requires Unit(a) && Unit(b)
    ensures 0.0 <= MeanSlope(0.0, 1.0, a, b)
  {
    MiddleBlossomSign(a, a);
    MiddleBlossomSign(a, b);
    MiddleBlossomSign(b, b);
  }

  /** At the four corners of the control square the mean slope is visibly non-negative. */
  lemma CornerSlopes(a: real, b: real)
    requires Unit(a) && Unit(b)
    ensures 0.0 <= MeanSlope(0.0, 0.0, a, b) && 0.0 <= MeanSlope(1.0, 0.0, a, b)
    ensures 0.0 <= MeanSlope(0.0, 1.0, a, b) && 0.0 <= MeanSlope(1.0, 1.0, a, b)
  {
    LowCornerSlope(a, b);
    SteepCornerSlope(a, b, 1.0 - 2.0 * a, 1.0 - 2.0 * b);
    MiddleCornerSlope(a, b);
    HighCornerSlope(a, b, 1.0 - a, 1.0 - b);
  }

  lemma MiddleBlossomSign(u: real, v: real)
    requires Unit(u) && Unit(v)
    ensures 0.0 <= Blossom(0.0, 1.0, 0.0, u, v)
  {
    ProductSign(1.0 - u, v);
    ProductSign(u, 1.0 - v);
    assert Blossom(0.0, 1.0, 0.0, u, v) == (1.0 - u) * v + u * (1.0 - v);
  }

  lemma BlossomOfMix(d: (real, real, real), e: (real, real, real), p: real, u: real, v: real)
    ensures Blossom(Mix(d.0, e.0, p), Mix(d.1, e.1, p), Mix(d.2, e.2, p), u, v) ==
            Mix(Blossom(d.0, d.1, d.2, u, v), Blossom(e.0, e.1, e.2, u, v), p)
  {
    MixExchange(d.0, e.0, d.1, e.1, v, p);
    MixExchange(d.1, e.1, d.2, e.2, v, p);
    MixExchange(Mix(d.0, d.1, v), Mix(e.0, e.1, v), Mix(d.1, d.2, v), Mix(e.1, e.2, v), u, p);
  }

  lemma MixSum(x0: real, x1: real, x2: real, y0: real, y1: real, y2: real, p: real)
    ensures Mix(x0, y0, p) + Mix(x1, y1, p) + Mix(x2, y2, p) == Mix(x0 + x1 + x2, y0 + y1 + y2, p)
  {
  }

  lemma MeanSlopeOfMix(p1: real, p2: real, q1: real, q2: real, p: real, a: real, b: real)
    ensures MeanSlope(Mix(p1, q1, p), Mix(p2, q2, p), a, b) ==
            Mix(MeanSlope(p1, p2, a, b), MeanSlope(q1, q2, a, b), p)
  {
    var d, e := (p1, p2 - p1, 1.0 - p2), (q1, q2 - q1, 1.0 - q2);
    assert Mix(d.1, e.1, p) == Mix(p2, q2, p) - Mix(p1, q1, p);
    assert Mix(d.2, e.2, p) == 1.0 - Mix(p2, q2, p);
    BlossomOfMix(d, e, p, a, a);
    BlossomOfMix(d, e, p, a, b);
    BlossomOfMix(d, e, p, b, b);
    MixSum(Blossom(d.0, d.1, d.2, a, a), Blossom(d.0, d.1, d.2, a, b), Blossom(d.0, d.1, d.2, b, b),
           Blossom(e.0, e.1, e.2, a, a), Blossom(e.0, e.1, e.2, a, b), Blossom(e.0, e.1, e.2, b, b), p);
  }

  /** The mean slope is affine in each control point, so its sign follows from the corners. */
  lemma MeanSlopeAffine(p1: real, p2: real, a: real, b: real)
    ensures MeanSlope(p1, p2, a, b) == Mix(MeanSlope(0.0, p2, a, b), MeanSlope(1.0, p2, a, b), p1)
    ensures MeanSlope(p1, p2, a, b) == Mix(MeanSlope(p1, 0.0, a, b), MeanSlope(p1, 1.0, a, b), p2)
  {
    assert Mix(0.0, 1.0, p1) == p1 && Mix(p2, p2, p1) == p2 && Mix(0.0, 1.0, p2) == p2 && Mix(p1, p1, p2) == p1;
    MeanSlopeOfMix(0.0, p2, 1.0, p2, p1, a, b);
    MeanSlopeOfMix(p1, 0.0, p1, 1.0, p2, a, b);
  }

  lemma MeanSlopeSign(p1: real, p2: real, a: real, b: real)
    requires Unit(p1) && Unit(p2) && Unit(a) && Unit(b)
    ensures 0.0 <= MeanSlope(p1, p2, a, b)
  {
    CornerSlopes(a, b);
    MeanSlopeWithin(0.0, 0.0, a, b);
    MeanSlopeWithin(0.0, 1.0, a, b);
    MeanSlopeWithin(1.0, 0.0, a, b);
    MeanSlopeWithin(1.0, 1.0, a, b);
    MeanSlopeAffine(0.0, p2, a, b);
    MeanSlopeAffine(1.0, p2, a, b);
    MixWithin(MeanSlope(0.0, 0.0, a, b), MeanSlope(0.0, 1.0, a, b), p2, 0.0, 3.0);
    MixWithin(MeanSlope(1.0, 0.0, a, b), MeanSlope(1.0, 1.0, a, b), p2, 0.0, 3.0);
    MeanSlopeAffine(p1, p2, a, b);
    MixWithin(MeanSlope(0.0, p2, a, b), MeanSlope(1.0, p2, a, b), p1, 0.0, 3.0);
  }

  lemma BernsteinStep(p1: real, p2: real, a: real, b: real, d: real) returns (u: real)
    requires d == b - a && 0.0 <= d && Unit(p1) && Unit(p2) && Unit(a) && Unit(b)
    ensures Bernstein(p1, p2, b) == Bernstein(p1, p2, a) + u
    ensures 0.0 <= u <= 3.0 * d
  {
    DeCasteljau(p1, p2, a);
    DeCasteljau(p1, p2, b);
    var x, y, z := CubicDifference(p1, p2, a, b, d);
    SlopeFacts(p1, p2, a, b, x, y, z);
    u := ScaleWithin(d, x, y, z);
  }

  lemma ScaleBounded(d: real, x: real, m: real, e: real)
    requires 0.0 <= d && -m <= x <= m && e == m * d
    ensures -e <= d * x <= e
  {
    ProductSign(d, m - x);
    ProductSign(d, m + x);
    assert d * (m - x) == e - d * x && d * (m + x) == e + d * x;
  }

  lemma SumBounded(d: real, x: real, y: real, z: real, m: real, e: real) returns (u: real)
    requires 0.0 <= d && e == m * d && -m <= x <= m && -m <= y <= m && -m <= z <= m
    ensures u == d * x + d * y + d * z && Abs(u) <= 3.0 * e
  {
    ScaleBounded(d, x, m, e);
    ScaleBounded(d, y, m, e);
    ScaleBounded(d, z, m, e);
    u := d * x + d * y + d * z;
  }

  /** However the curve runs, it never moves faster than three times the largest difference of its control values. */
  lemma CurveMoves(p1: real, p2: real, a: real, b: real, d: real, m: real, e: real)
    requires StepsWithin(p1, p2, m) && Unit(a) && Unit(b) && d == b - a && 0.0 <= d && e == m * d
    ensures Abs(Bernstein(p1, p2, b) - Bernstein(p1, p2, a)) <= 3.0 * e
  {
    var u := CubicMoves(p1, p2, a, b, d, m, e);
    DeCasteljau(p1, p2, a);
    DeCasteljau(p1, p2, b);
  }

  lemma CubicMoves(p1: real, p2: real, a: real, b: real, d: real, m: real, e: real) returns (u: real)
    requires StepsWithin(p1, p2, m) && Unit(a) && Unit(b) && d == b - a && 0.0 <= d && e == m * d
    ensures CubicBlossom(p1, p2, b, b, b) - CubicBlossom(p1, p2, a, a, a) == u && Abs(u) <= 3.0 * e
  {
    var x, y, z := CubicDifference(p1, p2, a, b, d);
    BlossomWithin(p1, p2, a, a, m);
    BlossomWithin(p1, p2, a, b, m);
    BlossomWithin(p1, p2, b, b, m);
    u := SumBounded(d, x, y, z, m, e);
  }

  /** With control points in the unit interval the curve never runs backwards and never faster than 3 to 1. */
  lemma CurveRises(p1: real, p2: real, a: real, b: real)
    requires Unit(p1) && Unit(p2) && Unit(a) && Unit(b) && a <= b
    ensures 0.0 <= Bernstein(p1, p2, b) - Bernstein(p1, p2, a) <= 3.0 * (b - a)
  {
    var u := BernsteinStep(p1, p2, a, b, b - a);
  }

  // ---- The residual --------------------------------------------------------

  lemma {:induction false} NewtonStaysInUnit(c: CubicBezier, x: real, t: real, n: nat)
    requires Unit(t)
    ensures Unit(Newton(c, x, t, n))
    decreases n
  {
    if n > 0 && Abs(c.SlopeX(t)) >= SLOPE_FLOOR {
      NewtonStaysInUnit(c, x, Clamp(t - (c.SampleX(t) - x) / c.SlopeX(t), 0.0, 1.0), n - 1);
    }
  }

  /** The bracket keeps the wanted value between the samples at its ends, and the probe inside. */
  ghost predicate Bracket(c: CubicBezier, x: real, lo: real, hi: real, t: real) {
    0.0 <= lo <= t <= hi <= 1.0 && c.SampleX(lo) < x <= c.SampleX(hi)
  }

  function Halved(w: real, n: nat): real
    decreases n
  {
    if n == 0 then w else Halved(w / 2.0, n - 1)
  }

  lemma HalvedNineteenTimes(w: real)
    ensures Halved(w, 19) == w / 524288.0
  {
    assert Halved(w, 19) == Halved(w / 16.0, 15);
    assert Halved(w / 16.0, 15) == Halved(w / 256.0, 11);
    assert Halved(w / 256.0, 11) == Halved(w / 4096.0, 7);
    assert Halved(w / 4096.0, 7) == Halved(w / 65536.0, 3);
  }

  /** The largest difference of neighbouring control values in x. */
  function Steepness(c: CubicBezier): (m: real)
    ensures StepsWithin(c.x1, c.x2, m) && 0.0 <= m
  {
    Max(Abs(c.x1), Max(Abs(c.x2 - c.x1), Abs(1.0 - c.x2)))
  }

  /** `reach` is at least the steepness `m` of the curve times the width of the bracket. */
  ghost predicate Reach(c: CubicBezier, m: real, width: real, reach: real) {
    StepsWithin(c.x1, c.x2, m) && 0.0 <= m && 0.0 <= width && m * width <= reach
  }

  lemma HalfReach(c: CubicBezier, m: real, width: real, reach: real)
    requires Reach(c, m, width, reach)
    ensures Reach(c, m, width / 2.0, reach / 2.0)
  {
    assert m * (width / 2.0) == (m * width) / 2.0;
  }

  lemma HalfMoves(c: CubicBezier, a: real, b: real, d: real, m: real, reach: real)
    requires Reach(c, m, d, reach) && Unit(a) && Unit(b) && d == b - a
    ensures Abs(c.SampleX(b) - c.SampleX(a)) <= 3.0 * reach
  {
    CurveMoves(c.x1, c.x2, a, b, d, m, m * d);
  }

  /** At the midpoint of a bracket the residual is at most 3/2 of its width times the steepness. */
  lemma MidpointResidual(c: CubicBezier, x: real, lo: real, hi: real, m: real, reach: real)
    requires Bracket(c, x, lo, hi, (lo + hi) / 2.0) && Reach(c, m, hi - lo, reach)
    ensures Abs(c.SampleX((lo + hi) / 2.0) - x) <= 1.5 * reach
  {
    var t, d := (lo + hi) / 2.0, (hi - lo) / 2.0;
    assert t - lo == d == hi - t;
    HalfReach(c, m, hi - lo, reach);
    HalfMoves(c, lo, t, d, m, reach / 2.0);
    HalfMoves(c, t, hi, d, m, reach / 2.0);
  }

  /** Once the probe is the midpoint, every round halves the bracket, so `n` rounds gain a factor 2^n. */
  lemma {:induction false} BisectResidual(c: CubicBezier, x: real, lo: real, hi: real, n: nat, m: real, reach: real)
    requires Bracket(c, x, lo, hi, (lo + hi) / 2.0) && Reach(c, m, hi - lo, reach)
    ensures var r := Bisect(c, x, lo, hi, (lo + hi) / 2.0, n);
            && Unit(r)
            && (Abs(c.SampleX(r) - x) < BISECTION_TOLERANCE || Abs(c.SampleX(r) - x) <= 1.5 * Halved(reach, n))
    decreases n
  {
    var t := (lo + hi) / 2.0;
    if n == 0 {
      MidpointResidual(c, x, lo, hi, m, reach);
    } else if Abs(c.SampleX(t) - x) >= BISECTION_TOLERANCE {
      HalfReach(c, m, hi - lo, reach);
      assert hi - t == (hi - lo) / 2.0 == t - lo;
      if c.SampleX(t) < x {
        BisectResidual(c, x, t, hi, n - 1, m, reach / 2.0);
      } else {
        BisectResidual(c, x, lo, t, n - 1, m, reach / 2.0);
      }
    }
  }

  lemma WithinUnitReach(c: CubicBezier, width: real)
    requires Unit(width)
    ensures Reach(c, Steepness(c), width, Steepness(c))
  {
    var m := Steepness(c);
    ProductSign(m, 1.0 - width);
    assert m * (1.0 - width) == m - m * width;
  }

  /** The first round probes `x` itself and only cuts the bracket there; the others halve it. */
  lemma BisectFromUnit(c: CubicBezier, x: real, n: nat)
    requires 0.0 < x < 1.0 && 0 < n
    ensures var r := Bisect(c, x, 0.0, 1.0, x, n);
            && Unit(r)
            && (|| Abs(c.SampleX(r) - x) < BISECTION_TOLERANCE
                || Abs(c.SampleX(r) - x) <= 1.5 * Halved(Steepness(c), n - 1))
  {
    CurveEnds(c);
    if Abs(c.SampleX(x) - x) >= BISECTION_TOLERANCE {
      if c.SampleX(x) < x {
        WithinUnitReach(c, 1.0 - x);
        BisectResidual(c, x, x, 1.0, n - 1, Steepness(c), Steepness(c));
      } else {
        WithinUnitReach(c, x);
        BisectResidual(c, x, 0.0, x, n - 1, Steepness(c), Steepness(c));
      }
    }
  }

  lemma CurveEnds(c: CubicBezier)
    ensures c.SampleX(0.0) == 0.0 && c.SampleX(1.0) == 1.0
  {
  }

  /** On every curve and path the sample at the solution misses `x` by the tolerance or by what 20 rounds leave. */
  lemma SolverResidual(c: CubicBezier, x: real)
    requires 0.0 < x < 1.0
    ensures Unit(SolveTForX(c, x))
    ensures Abs(c.SampleX(SolveTForX(c, x)) - x) <= Max(NEWTON_TOLERANCE, 1.5 * Steepness(c) / 524288.0)
  {
    NewtonStaysInUnit(c, x, x, NEWTON_ROUNDS);
    BisectFromUnit(c, x, BISECTION_ROUNDS);
    HalvedNineteenTimes(Steepness(c));
  }

  /** Up to this steepness 20 rounds reach the tolerance of the Newton steps; CSS allows curves up to 1. */
  const STEEPEST := 34.95

  lemma SolverTolerance(c: CubicBezier, x: real)
    requires 0.0 < x < 1.0 && Steepness(c) <= STEEPEST
    ensures Unit(SolveTForX(c, x)) && Abs(c.SampleX(SolveTForX(c, x)) - x) <= NEWTON_TOLERANCE
  {
    SolverResidual(c, x);
  }

  // ---- The range of the eased value ----------------------------------------

  lemma {:induction false} BisectStaysInUnit(c: CubicBezier, x: real, lo: real, hi: real, t: real, n: nat)
    requires Unit(lo) && Unit(hi) && Unit(t)
    ensures Unit(Bisect(c, x, lo, hi, t, n))
    decreases n
  {
    if n > 0 && !(Abs(c.SampleX(t) - x) < BISECTION_TOLERANCE) {
      if c.SampleX(t) < x {
        BisectStaysInUnit(c, x, t, hi, (t + hi) / 2.0, n - 1);
      } else {
        BisectStaysInUnit(c, x, lo, t, (lo + t) / 2.0, n - 1);
      }
    }
  }

  /** Whatever the curve, the solver stays in the unit interval. */
  lemma SolverStaysInUnit(c: CubicBezier, x: real)
    requires Unit(x)
    ensures Unit(SolveTForX(c, x))
  {
    NewtonStaysInUnit(c, x, x, NEWTON_ROUNDS);
    BisectStaysInUnit(c, x, 0.0, 1.0, x, BISECTION_ROUNDS);
  }

  /** The heights for which the curve does not dip below 0; `KeepsCeiling` mirrors it. */
  predicate KeepsFloor(p1: real, p2: real) {
    0.0 <= p1 && (0.0 <= p2 || 3.0 * p2 * p2 <= 4.0 * p1)
  }

  predicate KeepsCeiling(p1: real, p2: real) {
    KeepsFloor(1.0 - p2, 1.0 - p1)
  }

  lemma SquareSign(a: real)
    ensures 0.0 <= a * a
  {
  }

  lemma QuadraticFloor(p1: real, p2: real, s: real, t: real)
    requires 0.0 <= s && 0.0 <= t && KeepsFloor(p1, p2)
    ensures 0.0 <= 3.0 * (s * s) * p1 + 3.0 * (s * t) * p2 + t * t
  {
    SquareSign(s);
    SquareSign(t);
    if 0.0 <= p2 {
      ProductSign(s * s, p1);
      ProductSign(s, t);
      ProductSign(s * t, p2);
    } else {
      var r, e := t + 1.5 * (s * p2), 4.0 * p1 - 3.0 * p2 * p2;
      SquareSign(r);
      ProductSign(s * s, e);
      CompleteSquare(p1, p2, s, t, r, e);
    }
  }

  lemma CompleteSquare(p1: real, p2: real, s: real, t: real, r: real, e: real)
    requires r == t + 1.5 * (s * p2) && e == 4.0 * p1 - 3.0 * p2 * p2
    ensures 3.0 * (s * s) * p1 + 3.0 * (s * t) * p2 + t * t == r * r + 0.75 * ((s * s) * e)
  {
    var w := s * p2;
    assert r * r == t * t + 3.0 * (w * t) + 2.25 * (w * w);
    assert w * w == (s * s) * (p2 * p2);
    assert w * t == (s * t) * p2;
    assert (s * s) * e == 4.0 * ((s * s) * p1) - 3.0 * ((s * s) * (p2 * p2));
  }

  lemma BernsteinFactor(p1: real, p2: real, s: real, t: real)
    requires s == 1.0 - t
    ensures Bernstein(p1, p2, t) == t * (3.0 * (s * s) * p1 + 3.0 * (s * t) * p2 + t * t)
  {
    BernsteinSplit(p1, p2, s, t);
  }

  lemma BernsteinFloor(p1: real, p2: real, t: real)
    requires Unit(t) && KeepsFloor(p1, p2)
    ensures 0.0 <= Bernstein(p1, p2, t)
  {
    var s := 1.0 - t;
    QuadraticFloor(p1, p2, s, t);
    BernsteinFactor(p1, p2, s, t);
    ProductSign(t, 3.0 * (s * s) * p1 + 3.0 * (s * t) * p2 + t * t);
  }

  /** The curve of the mirrored heights, run backwards from the ceiling. */
  lemma BernsteinMirror(p1: real, p2: real, t: real, s: real)
    requires s == 1.0 - t
    ensures Bernstein(p1, p2, t) == 1.0 - Bernstein(1.0 - p2, 1.0 - p1, s)
  {
    BernsteinSplit(p1, p2, s, t);
    BernsteinSplit(1.0 - p2, 1.0 - p1, t, s);
    MirrorSum(p1, p2, s * s * t, s * t * t);
    CubeOfSum(s, t);
  }

  lemma MirrorSum(p1: real, p2: real, x: real, y: real)
    ensures 3.0 * x * p1 + 3.0 * y * p2 + 3.0 * y * (1.0 - p2) + 3.0 * x * (1.0 - p1) == 3.0 * x + 3.0 * y
  {
  }

  lemma CubeOfSum(s: real, t: real)
    requires s + t == 1.0
    ensures s * s * s + 3.0 * (s * s * t) + 3.0 * (s * t * t) + t * t * t == 1.0
  {
    assert (s + t) * (s + t) == s * s + 2.0 * (s * t) + t * t;
    assert (s + t) * (s * s + 2.0 * (s * t) + t * t) == s * s * s + 3.0 * (s * s * t) + 3.0 * (s * t * t) + t * t * t;
  }

  lemma BernsteinStaysWithin(p1: real, p2: real, t: real)
    requires Unit(t) && KeepsFloor(p1, p2) && KeepsCeiling(p1, p2)
    ensures Unit(Bernstein(p1, p2, t))
  {
    BernsteinFloor(p1, p2, t);
    BernsteinFloor(1.0 - p2, 1.0 - p1, 1.0 - t);
    BernsteinMirror(p1, p2, t, 1.0 - t);
  }

  lemma Quotient(a: real, w: real)
    requires 0.0 < a <= w
    ensures (a / w) * w == a && 0.0 < a / w <= 1.0
  {
    DivideBounds(a, 0.0, w);
    assert (a / w) * w == a;
  }

  lemma StartDips(p1: real, p2: real, m: real, u: real)
    requires p1 < 0.0 && p2 <= m && 0.0 < u <= 1.0 && u * (1.0 + 3.0 * m) <= -p1
    ensures 3.0 * p1 + 3.0 * (u * p2) + u * u < 0.0
  {
    ProductSign(u, 1.0 - u);
    ProductSign(u, m - p2);
    assert u * (1.0 - u) == u - u * u;
    assert u * (m - p2) == u * m - u * p2;
    assert u * (1.0 + 3.0 * m) == u + 3.0 * (u * m);
  }

  /** A ratio of `t` to `1 - t` at which the curve lies below 0. */
  lemma QuadraticDips(p1: real, p2: real) returns (u: real)
    requires !KeepsFloor(p1, p2)
    ensures 0.0 < u && 3.0 * p1 + 3.0 * (u * p2) + u * u < 0.0
  {
    if p1 < 0.0 {
      var w := 1.0 + 3.0 * Abs(p2);
      if -p1 <= w {
        Quotient(-p1, w);
        u := -p1 / w;
      } else {
        u := 1.0;
      }
      StartDips(p1, p2, Abs(p2), u);
    } else {
      u := -1.5 * p2;
      assert u * p2 == -1.5 * (p2 * p2) && u * u == 2.25 * (p2 * p2);
    }
  }

  lemma BernsteinDips(p1: real, p2: real) returns (t: real)
    requires !KeepsFloor(p1, p2)
    ensures 0.0 < t < 1.0 && Bernstein(p1, p2, t) < 0.0
  {
    var u := QuadraticDips(p1, p2);
    var s := 1.0 / (1.0 + u);
    assert s * (1.0 + u) == 1.0 && 0.0 < s;
    t := u * s;
    assert s == 1.0 - t && 0.0 < t;
    BernsteinFactor(p1, p2, s, t);
    var q := 3.0 * p1 + 3.0 * (u * p2) + u * u;
    ScaledQuadratic(p1, p2, u, s, t, q);
    assert 0.0 < s * s;
    assert (s * s) * q < 0.0;
    assert t * ((s * s) * q) < 0.0;
  }

  lemma ScaledQuadratic(p1: real, p2: real, u: real, s: real, t: real, q: real)
    requires t == u * s && q == 3.0 * p1 + 3.0 * (u * p2) + u * u
    ensures 3.0 * (s * s) * p1 + 3.0 * (s * t) * p2 + t * t == (s * s) * q
  {
    assert s * t == (s * s) * u;
    assert t * t == (s * s) * (u * u);
    assert (s * s) * q == 3.0 * ((s * s) * p1) + 3.0 * ((s * s) * (u * p2)) + (s * s) * (u * u);
    assert ((s * s) * u) * p2 == (s * s) * (u * p2);
  }

  /** On a curve whose x is its parameter the solver is exact. */
  lemma {:induction false} NewtonStays(c: CubicBezier, x: real, n: nat)
    requires c.x1 == 1.0 / 3.0 && c.x2 == 2.0 / 3.0 && Unit(x)
    ensures Newton(c, x, x, n) == x
  {
    if n > 0 {
      EvenCurve(c, x);
      NewtonStays(c, x, n - 1);
    }
  }

  lemma EvenCurve(c: CubicBezier, t: real)
    requires c.x1 == 1.0 / 3.0 && c.x2 == 2.0 / 3.0
    ensures c.SampleX(t) == t && c.SlopeX(t) == 1.0
  {
    var s := 1.0 - t;
    BernsteinFactor(c.x1, c.x2, s, t);
    assert (s + t) * (s + t) == s * s + 2.0 * (s * t) + t * t == 1.0;
  }

  /** The eased value leaves the unit interval for no widths and no input exactly for these heights. */
  lemma EvaluateStaysWithinIff(y1: real, y2: real)
    ensures (forall x1, x2, x :: Unit(EvaluateBezier(CubicBezier(x1, y1, x2, y2), x))) <==>
              KeepsFloor(y1, y2) && KeepsCeiling(y1, y2)
  {
    if KeepsFloor(y1, y2) && KeepsCeiling(y1, y2) {
      forall x1, x2, x
        ensures Unit(EvaluateBezier(CubicBezier(x1, y1, x2, y2), x))
      {
        EvaluateBezierWithinUnit(CubicBezier(x1, y1, x2, y2), x);
      }
    } else {
      var t := LeavesUnit(y1, y2);
      var c := CubicBezier(1.0 / 3.0, y1, 2.0 / 3.0, y2);
      NewtonStays(c, t, NEWTON_ROUNDS);
      EvenCurve(c, t);
      assert EvaluateBezier(c, t) == Bernstein(y1, y2, t);
    }
  }

  lemma LeavesUnit(y1: real, y2: real) returns (t: real)
    requires !KeepsFloor(y1, y2) || !KeepsCeiling(y1, y2)
    ensures 0.0 < t < 1.0 && !Unit(Bernstein(y1, y2, t))
  {
    if !KeepsFloor(y1, y2) {
      t := BernsteinDips(y1, y2);
    } else {
      var s := BernsteinDips(1.0 - y2, 1.0 - y1);
      t := 1.0 - s;
      BernsteinMirror(y1, y2, t, s);
    }
  }

  lemma EvaluateBezierWithinUnit(c: CubicBezier, x: real)
    requires KeepsFloor(c.y1, c.y2) && KeepsCeiling(c.y1, c.y2)
    ensures Unit(EvaluateBezier(c, x))
  {
    if 0.0 < x < 1.0 {
      SolverStaysInUnit(c, x);
      BernsteinStaysWithin(c.y1, c.y2, SolveTForX(c, x));
    }
  }

  // ---- Order ---------------------------------------------------------------

  /** Inputs further apart than twice the tolerance are eased in order. */
  lemma EvaluateMonotoneUpToTolerance(c: CubicBezier, x: real, x': real)
    requires Unit(c.x1) && Unit(c.x2) && Unit(c.y1) && Unit(c.y2)
    requires x + 2.0 * NEWTON_TOLERANCE < x'
    ensures EvaluateBezier(c, x) <= EvaluateBezier(c, x')
  {
    EvaluateBezierWithinUnit(c, x);
    EvaluateBezierWithinUnit(c, x');
    if 0.0 < x && x' < 1.0 {
      SolverTolerance(c, x);
      SolverTolerance(c, x');
      var t, t' := SolveTForX(c, x), SolveTForX(c, x');
      if t' < t {
        CurveRises(c.x1, c.x2, t', t);
      }
      CurveRises(c.y1, c.y2, t, t');
    }
  }

  /** A curve whose control points lie on the diagonal is the identity up to the tolerance. */
  lemma DiagonalIsIdentityUpToTolerance(c: CubicBezier, x: real)
    requires Steepness(c) <= STEEPEST && c.x1 == c.y1 && c.x2 == c.y2 && Unit(x)
    ensures Abs(EvaluateBezier(c, x) - x) <= NEWTON_TOLERANCE
  {
    if 0.0 < x < 1.0 {
      SolverTolerance(c, x);
    }
  }

  // ---- Timing functions ----------------------------------------------------

  type positive = n: nat | 0 < n witness 1

  datatype EasingFunction =
    | Linear
    | Ease
    | EaseIn
    | EaseOut
    | EaseInOut
    | Custom(curve: CubicBezier)
    | Steps(count: positive, jumpStart: bool)
  {
    /** The curve of the keywords and of `cubic-bezier(...)`. */
    function Curve(): CubicBezier
      requires !Linear? && !Steps?
    {
      match this
      case Ease => CubicBezier(0.25, 0.1, 0.25, 1.0)
      case EaseIn => CubicBezier(0.42, 0.0, 1.0, 1.0)
      case EaseOut => CubicBezier(0.0, 0.0, 0.58, 1.0)
      case EaseInOut => CubicBezier(0.42, 0.0, 0.58, 1.0)
      case Custom(c) => c
    }

    function Evaluate(t: real): real {
      match this
      case Linear => t
      case Steps(count, jumpStart) =>
        StepHeight(StepIndex(count, jumpStart, t), count)
      case _ => EvaluateBezier(Curve(), t)
    }

    /** A custom curve whose heights keep it between 0 and 1, and every other timing function. */
    predicate StaysWithin() {
      Custom? ==> KeepsFloor(curve.y1, curve.y2) && KeepsCeiling(curve.y1, curve.y2)
    }
  }

  function StepIndex(count: positive, jumpStart: bool, t: real): int {
    if jumpStart then Ceil(t * count as real) else (t * count as real).Floor
  }

  function StepHeight(k: int, count: positive): real {
    Clamp(k as real / count as real, 0.0, 1.0)
  }

  function Ceil(x: real): int {
    if x == x.Floor as real then x.Floor else x.Floor + 1
  }

  /** Whatever the control points, every timing function starts at 0 and ends at 1. */
  lemma EvaluateFixesEnds(e: EasingFunction)
    ensures e.Evaluate(0.0) == 0.0 && e.Evaluate(1.0) == 1.0
  {
    if e.Steps? {
      StepBounds(0, e.count, 0.0);
      StepBounds(e.count, e.count, 1.0);
    }
  }

  /** Every timing function maps the unit interval into itself. */
  lemma EvaluateWithinUnit(e: EasingFunction, t: real)
    requires e.StaysWithin() && Unit(t)
    ensures Unit(e.Evaluate(t))
  {
    if !e.Linear? && !e.Steps? {
      EvaluateBezierWithinUnit(e.Curve(), t);
    }
  }

  /** A step function takes only the values k/count, and stays within one step of its input. */
  lemma StepsQuantise(e: EasingFunction, t: real)
    requires e.Steps? && Unit(t)
    ensures exists k: nat :: IsStep(e.count, k, e.Evaluate(t))
    ensures if e.jumpStart then t <= e.Evaluate(t) < t + 1.0 / e.count as real
            else t - 1.0 / e.count as real < e.Evaluate(t) <= t
  {
    var n := e.count as real;
    var k := StepIndex(e.count, e.jumpStart, t);
    ProductSign(t, n);
    ProductSign(1.0 - t, n);
    assert 0.0 <= t * n <= n;
    StepBounds(k, e.count, t);
    assert IsStep(e.count, k, e.Evaluate(t));
  }

  lemma StepBounds(k: int, count: positive, t: real)
    requires 0 <= k <= count
    ensures StepHeight(k, count) == k as real / count as real
    ensures t * count as real <= k as real <==> t <= StepHeight(k, count)
    ensures k as real <= t * count as real <==> StepHeight(k, count) <= t
    ensures k as real < t * count as real + 1.0 <==> StepHeight(k, count) < t + 1.0 / count as real
    ensures t * count as real - 1.0 < k as real <==> t - 1.0 / count as real < StepHeight(k, count)
  {
    DivideBounds(k as real, t, count as real);
  }

  /** `v` is the height of the `k`-th of `count` equal steps. */
  ghost predicate IsStep(count: positive, k: nat, v: real) {
    k <= count && v == k as real / count as real
  }

  lemma DivideBounds(k: real, t: real, n: real)
    requires 0.0 < n
    ensures t * n <= k <==> t <= k / n
    ensures k <= t * n <==> k / n <= t
    ensures k < t * n + 1.0 <==> k / n < t + 1.0 / n
    ensures t * n - 1.0 < k <==> t - 1.0 / n < k / n
    ensures 0.0 <= k <==> 0.0 <= k / n
    ensures k <= n <==> k / n <= 1.0
  {
    var r, s := k / n, 1.0 / n;
    assert r * n == k && s * n == 1.0;
    ScaleOrder(t, r, n);
    ScaleOrder(r, t + s, n);
    ScaleOrder(t - s, r, n);
    ScaleOrder(0.0, r, n);
    ScaleOrder(r, 1.0, n);
  }
}
