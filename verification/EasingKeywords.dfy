/** What the timing keywords of CSS make of a progress, on the eased value and up to the tolerance of the solver. */
module EasingKeywords {
  import opened Easing

  // ---- Bounds of an eased value --------------------------------------------

  /** Parameters whose samples lie clearly on both sides of `x` enclose the eased value of `x`. */
  lemma EasedBetween(c: CubicBezier, x: real, a: real, b: real, low: real, high: real)
    requires Unit(c.x1) && Unit(c.x2) && Unit(c.y1) && Unit(c.y2) && 0.0 < x < 1.0 && Unit(a) && Unit(b)
    requires c.SampleX(a) < x - NEWTON_TOLERANCE && x + NEWTON_TOLERANCE < c.SampleX(b)
    requires low <= c.SampleY(a) && c.SampleY(b) <= high
    ensures low <= EvaluateBezier(c, x) <= high
  {
    SolverTolerance(c, x);
    var t := SolveTForX(c, x);
    if t < a {
      CurveRises(c.x1, c.x2, t, a);
    }
    if b < t {
      CurveRises(c.x1, c.x2, b, t);
    }
    CurveRises(c.y1, c.y2, a, t);
    CurveRises(c.y1, c.y2, t, b);
  }

  /** `ease` starts briskly: beyond 0.4 after a quarter, 0.8 midway, 0.96 after three quarters. */
  lemma EaseAtQuarters()
    ensures 0.408 <= Ease.Evaluate(0.25) <= 0.409
    ensures 0.802 <= Ease.Evaluate(0.5) <= 0.803
    ensures 0.960 <= Ease.Evaluate(0.75) <= 0.961
  {
    var c := Ease.Curve();
    EasedBetween(c, 0.25, 0.4093, 0.4097, 0.408, 0.409);
    EasedBetween(c, 0.5, 0.6994, 0.6997, 0.802, 0.803);
    EasedBetween(c, 0.75, 0.8738, 0.874, 0.960, 0.961);
  }

  /** `ease-in` starts slowly: below 0.1 after a quarter and below 0.32 midway. */
  lemma EaseInAtQuarters()
    ensures 0.093 <= EaseIn.Evaluate(0.25) <= 0.094
    ensures 0.315 <= EaseIn.Evaluate(0.5) <= 0.316
    ensures 0.621 <= EaseIn.Evaluate(0.75) <= 0.623
  {
    var c := EaseIn.Curve();
    EasedBetween(c, 0.25, 0.1887, 0.1889, 0.093, 0.094);
    EasedBetween(c, 0.5, 0.3741, 0.3744, 0.315, 0.316);
    EasedBetween(c, 0.75, 0.5818, 0.5821, 0.621, 0.623);
  }

  /** `ease-out` ends slowly: beyond 0.37 after a quarter and beyond 0.68 midway. */
  lemma EaseOutAtQuarters()
    ensures 0.377 <= EaseOut.Evaluate(0.25) <= 0.379
    ensures 0.684 <= EaseOut.Evaluate(0.5) <= 0.685
    ensures 0.906 <= EaseOut.Evaluate(0.75) <= 0.907
  {
    var c := EaseOut.Curve();
    EasedBetween(c, 0.25, 0.4179, 0.4182, 0.377, 0.379);
    EasedBetween(c, 0.5, 0.6256, 0.6259, 0.684, 0.685);
    EasedBetween(c, 0.75, 0.8111, 0.8113, 0.906, 0.907);
  }

  /** `ease-in-out` does both: below 0.13 after a quarter, one half midway, beyond 0.87 after three quarters. */
  lemma EaseInOutAtQuarters()
    ensures 0.128 <= EaseInOut.Evaluate(0.25) <= 0.130
    ensures 0.499 <= EaseInOut.Evaluate(0.5) <= 0.501
    ensures 0.870 <= EaseInOut.Evaluate(0.75) <= 0.872
  {
    var c := EaseInOut.Curve();
    EasedBetween(c, 0.25, 0.2249, 0.2252, 0.128, 0.130);
    EasedBetween(c, 0.5, 0.4998, 0.5002, 0.499, 0.501);
    EasedBetween(c, 0.75, 0.7748, 0.7751, 0.870, 0.872);
  }

  /** `linear` changes nothing, and a custom curve is evaluated as such. */
  lemma LinearAndCustom(x: real, c: CubicBezier)
    ensures Linear.Evaluate(x) == x && Custom(c).Evaluate(x) == EvaluateBezier(c, x)
  {
  }

  // ---- Below and above the diagonal ----------------------------------------

  lemma EaseInLag(t: real)
    requires Unit(t)
    ensures Bernstein(0.0, 1.0, t) <= Bernstein(0.42, 1.0, t)
  {
    var s := 1.0 - t;
    BernsteinSplit(0.0, 1.0, s, t);
    BernsteinSplit(0.42, 1.0, s, t);
    ProductSign(s, s);
    ProductSign(s * s, t);
  }

  /** `ease-in` never runs ahead of its input by more than the tolerance. */
  lemma EaseInLagsBehind(x: real)
    requires Unit(x)
    ensures EaseIn.Evaluate(x) <= x + NEWTON_TOLERANCE
  {
    if 0.0 < x < 1.0 {
      SolverTolerance(EaseIn.Curve(), x);
      EaseInLag(SolveTForX(EaseIn.Curve(), x));
    }
  }

  lemma EaseOutLead(t: real)
    requires Unit(t)
    ensures Bernstein(0.0, 0.58, t) <= Bernstein(0.0, 1.0, t)
  {
    var s := 1.0 - t;
    BernsteinSplit(0.0, 1.0, s, t);
    BernsteinSplit(0.0, 0.58, s, t);
    ProductSign(t, t);
    ProductSign(s, t * t);
    assert s * t * t == s * (t * t);
  }

  /** `ease-out` never falls behind its input by more than the tolerance. */
  lemma EaseOutRunsAhead(x: real)
    requires Unit(x)
    ensures x - NEWTON_TOLERANCE <= EaseOut.Evaluate(x)
  {
    if 0.0 < x < 1.0 {
      SolverTolerance(EaseOut.Curve(), x);
      EaseOutLead(SolveTForX(EaseOut.Curve(), x));
    }
  }

  // ---- Mirrored keywords ---------------------------------------------------

  /** Samples within `e` of one another in width are within `h` in height. */
  ghost predicate KeepsClose(c: CubicBezier, e: real, h: real) {
    forall a, b :: Unit(a) && Unit(b) && Abs(c.SampleX(a) - c.SampleX(b)) <= e ==> Abs(c.SampleY(a) - c.SampleY(b)) <= h
  }

  /** Seven quarters of the width of `ease-in` less its height is again a curve that rises. */
  lemma EaseInCombination(t: real)
    ensures 0.75 * Bernstein(0.98, 1.0, t) == 1.75 * Bernstein(0.42, 1.0, t) - Bernstein(0.0, 1.0, t)
  {
    var s := 1.0 - t;
    BernsteinSplit(0.98, 1.0, s, t);
    BernsteinSplit(0.42, 1.0, s, t);
    BernsteinSplit(0.0, 1.0, s, t);
  }

  lemma EaseInSlope(a: real, b: real)
    requires Unit(a) && Unit(b) && a <= b
    ensures 0.0 <= Bernstein(0.0, 1.0, b) - Bernstein(0.0, 1.0, a) <=
            1.75 * (Bernstein(0.42, 1.0, b) - Bernstein(0.42, 1.0, a))
  {
    EaseInCombination(a);
    EaseInCombination(b);
    CurveRises(0.98, 1.0, a, b);
    CurveRises(0.0, 1.0, a, b);
  }

  lemma EaseInKeepsClose()
    ensures KeepsClose(EaseIn.Curve(), 0.0002, 0.00035)
  {
    forall a, b | Unit(a) && Unit(b) && Abs(EaseIn.Curve().SampleX(a) - EaseIn.Curve().SampleX(b)) <= 0.0002
      ensures Abs(EaseIn.Curve().SampleY(a) - EaseIn.Curve().SampleY(b)) <= 0.00035
    {
      if a <= b { EaseInSlope(a, b); } else { EaseInSlope(b, a); }
    }
  }

  /** Likewise for `ease-in-out`, with twenty-five quarters of the width. */
  lemma EaseInOutCombination(t: real)
    ensures 5.25 * Bernstein(0.5, 0.5, t) == 6.25 * Bernstein(0.42, 0.58, t) - Bernstein(0.0, 1.0, t)
  {
    var s := 1.0 - t;
    BernsteinSplit(0.5, 0.5, s, t);
    BernsteinSplit(0.42, 0.58, s, t);
    BernsteinSplit(0.0, 1.0, s, t);
  }

  lemma EaseInOutSlope(a: real, b: real)
    requires Unit(a) && Unit(b) && a <= b
    ensures 0.0 <= Bernstein(0.0, 1.0, b) - Bernstein(0.0, 1.0, a) <=
            6.25 * (Bernstein(0.42, 0.58, b) - Bernstein(0.42, 0.58, a))
  {
    EaseInOutCombination(a);
    EaseInOutCombination(b);
    CurveRises(0.5, 0.5, a, b);
    CurveRises(0.0, 1.0, a, b);
  }

  lemma EaseInOutKeepsClose()
    ensures KeepsClose(EaseInOut.Curve(), 0.0002, 0.00125)
  {
    var c := EaseInOut.Curve();
    forall a, b | Unit(a) && Unit(b) && Abs(c.SampleX(a) - c.SampleX(b)) <= 0.0002
      ensures Abs(c.SampleY(a) - c.SampleY(b)) <= 0.00125
    {
      if a <= b { EaseInOutSlope(a, b); } else { EaseInOutSlope(b, a); }
    }
  }

  /** The curve turned round: its control points seen from the other end. */
  function Mirrored(c: CubicBezier): CubicBezier {
    CubicBezier(1.0 - c.x2, 1.0 - c.y2, 1.0 - c.x1, 1.0 - c.y1)
  }

  /** Solutions of mirrored inputs mirror one another, as closely as the solver can tell. */
  lemma MirroredSolutions(c: CubicBezier, x: real) returns (t: real, s: real)
    requires Unit(c.x1) && Unit(c.x2) && 0.0 < x < 1.0
    ensures t == SolveTForX(c, x) && s == SolveTForX(Mirrored(c), 1.0 - x) && Unit(t) && Unit(s)
    ensures Abs(c.SampleX(t) - c.SampleX(1.0 - s)) <= 0.0002
  {
    var m := Mirrored(c);
    SolverTolerance(c, x);
    SolverTolerance(m, 1.0 - x);
    t, s := SolveTForX(c, x), SolveTForX(m, 1.0 - x);
    BernsteinMirror(m.x1, m.x2, s, 1.0 - s);
  }

  lemma MirroredHeight(c: CubicBezier, s: real)
    ensures Mirrored(c).SampleY(s) == 1.0 - c.SampleY(1.0 - s)
  {
    BernsteinMirror(1.0 - c.y2, 1.0 - c.y1, s, 1.0 - s);
  }

  lemma HeightsAreClose(c: CubicBezier, h: real, a: real, b: real)
    requires KeepsClose(c, 0.0002, h) && Unit(a) && Unit(b) && Abs(c.SampleX(a) - c.SampleX(b)) <= 0.0002
    ensures Abs(c.SampleY(a) - c.SampleY(b)) <= h
  {
  }

  /** A curve and its mirror image at mirrored inputs add up to 1. */
  lemma MirrorsAddUp(c: CubicBezier, h: real, x: real)
    requires Unit(c.x1) && Unit(c.x2) && KeepsClose(c, 0.0002, h) && 0.0 <= h && Unit(x)
    ensures Abs(EvaluateBezier(c, x) + EvaluateBezier(Mirrored(c), 1.0 - x) - 1.0) <= h
  {
    if 0.0 < x < 1.0 {
      var t, s := MirroredSolutions(c, x);
      HeightsAreClose(c, h, t, 1.0 - s);
      MirroredHeight(c, s);
    }
  }

  /** `ease-in` and `ease-out` are mirror images. */
  lemma InMirrorsOut(x: real)
    requires Unit(x)
    ensures Abs(EaseIn.Evaluate(x) + EaseOut.Evaluate(1.0 - x) - 1.0) <= 0.00035
  {
    EaseInKeepsClose();
    assert Mirrored(EaseIn.Curve()) == EaseOut.Curve();
    MirrorsAddUp(EaseIn.Curve(), 0.00035, x);
  }

  /** `ease-in-out` is its own. */
  lemma InOutMirrorsItself(x: real)
    requires Unit(x)
    ensures Abs(EaseInOut.Evaluate(x) + EaseInOut.Evaluate(1.0 - x) - 1.0) <= 0.00125
  {
    EaseInOutKeepsClose();
    assert Mirrored(EaseInOut.Curve()) == EaseInOut.Curve();
    MirrorsAddUp(EaseInOut.Curve(), 0.00125, x);
  }
}
