/** Resolving an animated property from the keyframes around the current progress. */
module Keyframes {
  import opened Wrappers
  import opened Easing
  import Scheduler

  datatype LengthUnit = Px | Percent | Em | Rem | Vw | Vh | OtherUnit(name: string)

  datatype PropertyValue = Number(value: real) | Length(amount: real, unit: LengthUnit) | Unmixed(text: string)

  datatype Keyframe = Keyframe(selectors: seq<real>, declarations: seq<(string, PropertyValue)>)

  // ---- Interpolation -------------------------------------------------------

  function Lerp(a: real, b: real, t: real): real {
    a + (b - a) * t
  }

  /** Numbers and lengths in one of six units interpolate; everything else does not. */
  function Interpolate(a: PropertyValue, b: PropertyValue, t: real): Option<PropertyValue> {
    match (a, b)
    case (Number(va), Number(vb)) => Some(Number(Lerp(va, vb, t)))
    case (Length(va, ua), Length(vb, ub)) =>
      if ua == ub && !ua.OtherUnit? then Some(Length(Lerp(va, vb, t), ua)) else None
    case _ => None
  }

  /** The first declaration of `property`. */
  function Declared(declarations: seq<(string, PropertyValue)>, property: string): Option<PropertyValue> {
    if declarations == [] then None
    else if declarations[0].0 == property then Some(declarations[0].1)
    else Declared(declarations[1..], property)
  }

  /** The `k`-th declaration is the first of `property`. */
  ghost predicate FirstDeclaration(declarations: seq<(string, PropertyValue)>, property: string, k: int) {
    0 <= k < |declarations| && declarations[k].0 == property && forall j :: 0 <= j < k ==> declarations[j].0 != property
  }

  /** The lookup finds the value of the first declaration of the property, and nothing if there is none. */
  lemma {:induction false} DeclaredIff(declarations: seq<(string, PropertyValue)>, property: string, v: PropertyValue)
    ensures Declared(declarations, property) == Some(v) <==>
              exists k :: FirstDeclaration(declarations, property, k) && declarations[k].1 == v
    ensures Declared(declarations, property) == None <==>
              forall k :: 0 <= k < |declarations| ==> declarations[k].0 != property
  {
    if declarations != [] && declarations[0].0 != property {
      var rest := declarations[1..];
      DeclaredIff(rest, property, v);
      assert forall k :: FirstDeclaration(rest, property, k) ==> FirstDeclaration(declarations, property, k + 1);
      assert forall k :: FirstDeclaration(declarations, property, k) ==> FirstDeclaration(rest, property, k - 1);
    } else if declarations != [] {
      assert FirstDeclaration(declarations, property, 0);
    }
  }

  /** Numbers mix along the straight line from the first to the second, and lengths of one unit like their numbers. */
  lemma MixesLinearly(a: real, b: real, unit: LengthUnit, t: real)
    ensures Interpolate(Number(a), Number(b), 0.0) == Some(Number(a))
    ensures Interpolate(Number(a), Number(b), 1.0) == Some(Number(b))
    ensures var mixed := Interpolate(Number(a), Number(b), t);
            mixed.Some? && mixed.value.Number? && mixed.value.value - a == t * (b - a)
    ensures Interpolate(Length(a, unit), Length(b, unit), t) ==
            match unit
            case OtherUnit(_) => None
            case _ => Some(Length(Interpolate(Number(a), Number(b), t).value.value, unit))
  {
  }

  // ---- The search for the surrounding keyframes ----------------------------

  function FirstSelector(kf: Keyframe, default: real): real {
    if kf.selectors == [] then default else kf.selectors[0]
  }

  function TakeBefore(before: Option<Keyframe>, kf: Keyframe, sel: real, progress: real): Option<Keyframe> {
    if sel <= progress && (before == None || FirstSelector(before.value, 0.0) <= sel) then Some(kf) else before
  }

  function TakeAfter(after: Option<Keyframe>, kf: Keyframe, sel: real, progress: real): Option<Keyframe> {
    if sel >= progress && (after == None || FirstSelector(after.value, 1.0) >= sel) then Some(kf) else after
  }

  /** `before` after the first `n` selectors of `kf`. */
  function BeforeWithin(before: Option<Keyframe>, kf: Keyframe, n: nat, progress: real): Option<Keyframe>
    requires n <= |kf.selectors|
  {
    if n == 0 then before
    else TakeBefore(BeforeWithin(before, kf, n - 1, progress), kf, kf.selectors[n - 1], progress)
  }

  function AfterWithin(after: Option<Keyframe>, kf: Keyframe, n: nat, progress: real): Option<Keyframe>
    requires n <= |kf.selectors|
  {
    if n == 0 then after
    else TakeAfter(AfterWithin(after, kf, n - 1, progress), kf, kf.selectors[n - 1], progress)
  }

  /** `before` after the first `n` keyframes. */
  function Before(kfs: seq<Keyframe>, n: nat, progress: real): Option<Keyframe>
    requires n <= |kfs|
  {
    if n == 0 then None
    else BeforeWithin(Before(kfs, n - 1, progress), kfs[n - 1], |kfs[n - 1].selectors|, progress)
  }

  function After(kfs: seq<Keyframe>, n: nat, progress: real): Option<Keyframe>
    requires n <= |kfs|
  {
    if n == 0 then None
    else AfterWithin(After(kfs, n - 1, progress), kfs[n - 1], |kfs[n - 1].selectors|, progress)
  }

  function LocalProgress(fromOffset: real, toOffset: real, progress: real): real {
    if Abs(toOffset - fromOffset) > Scheduler.EPSILON
    then Clamp((progress - fromOffset) / (toOffset - fromOffset), 0.0, 1.0)
    else 1.0
  }

  /** The value between two surrounding keyframes, either of which may be missing. */
  function Between(before: Option<Keyframe>, after: Option<Keyframe>, property: string, progress: real)
      : Option<PropertyValue>
  {
    var a := if before.Some? then Declared(before.value.declarations, property) else None;
    var b := if after.Some? then Declared(after.value.declarations, property) else None;
    var from := if before.Some? then FirstSelector(before.value, 0.0) else 0.0;
    var to := if after.Some? then FirstSelector(after.value, 1.0) else 1.0;
    match (a, b)
    case (Some(va), Some(vb)) =>
      var mixed := Interpolate(va, vb, LocalProgress(from, to, progress));
      if mixed.Some? then mixed else if progress < 0.5 then a else b
    case (Some(_), None) => a
    case (None, _) => b
  }

  function Resolve(kfs: seq<Keyframe>, property: string, progress: real): Option<PropertyValue> {
    Between(Before(kfs, |kfs|, progress), After(kfs, |kfs|, progress), property, progress)
  }

  /** The search and the lookup with the nested loops of the source; `None` for an unregistered rule. */
  method ResolveProperty(rules: map<string, seq<Keyframe>>, anim: Scheduler.Animation, property: string)
      returns (r: Option<PropertyValue>)
    ensures r == if anim.timing.keyframes in rules
                 then Resolve(rules[anim.timing.keyframes], property, Scheduler.Progress(anim)) else None
  {
    if anim.timing.keyframes !in rules {
      return None;
    }
    var kfs := rules[anim.timing.keyframes];
    var progress := Scheduler.Progress(anim);
    var before, after: Option<Keyframe> := None, None;
    for k := 0 to |kfs|
      invariant before == Before(kfs, k, progress) && after == After(kfs, k, progress)
    {
      var kf := kfs[k];
      for i := 0 to |kf.selectors|
        invariant before == BeforeWithin(Before(kfs, k, progress), kf, i, progress)
        invariant after == AfterWithin(After(kfs, k, progress), kf, i, progress)
      {
        var sel := kf.selectors[i];
        if sel <= progress {
          if before == None || FirstSelector(before.value, 0.0) <= sel {
            before := Some(kf);
          }
        }
        if sel >= progress {
          if after == None || FirstSelector(after.value, 1.0) >= sel {
            after := Some(kf);
          }
        }
      }
    }
    var fromVal := if before.Some? then Declared(before.value.declarations, property) else None;
    var toVal := if after.Some? then Declared(after.value.declarations, property) else None;
    var fromOffset := if before.Some? then FirstSelector(before.value, 0.0) else 0.0;
    var toOffset := if after.Some? then FirstSelector(after.value, 1.0) else 1.0;
    var localT := LocalProgress(fromOffset, toOffset, progress);
    match (fromVal, toVal)
    case (Some(a), Some(b)) =>
      var mixed := Interpolate(a, b, localT);
      if mixed.Some? {
        return mixed;
      }
      return if progress < 0.5 then fromVal else toVal;
    case (Some(_), None) =>
      return fromVal;
    case (None, _) =>
      return toVal;
  }

  // ---- Nearest keyframes ---------------------------------------------------

  /** `s` is one of the selectors of the rule. */
  ghost predicate Listed(kfs: seq<Keyframe>, s: real) {
    exists k, i :: 0 <= k < |kfs| && 0 <= i < |kfs[k].selectors| && kfs[k].selectors[i] == s
  }

  /** Every keyframe repeats a single selector, or has none. */
  ghost predicate Uniform(kfs: seq<Keyframe>) {
    forall k, i :: 0 <= k < |kfs| && 0 <= i < |kfs[k].selectors| ==> kfs[k].selectors[i] == Offset(kfs, k)
  }

  function Offset(kfs: seq<Keyframe>, k: nat): real
    requires k < |kfs|
  {
    FirstSelector(kfs[k], 0.0)
  }

  predicate Placed(kfs: seq<Keyframe>, k: nat)
    requires k < |kfs|
  {
    kfs[k].selectors != []
  }

  /** Among the first `n` keyframes the `k`-th is the nearest at or below `progress`, the last listed on a tie. */
  ghost predicate NearestBelow(kfs: seq<Keyframe>, n: nat, progress: real, k: nat)
    requires k < n <= |kfs|
  {
    && Placed(kfs, k) && Offset(kfs, k) <= progress
    && (forall j :: 0 <= j < n && Placed(kfs, j) && Offset(kfs, j) <= progress ==> Offset(kfs, j) <= Offset(kfs, k))
    && (forall j :: k < j < n && Placed(kfs, j) && Offset(kfs, j) <= progress ==> Offset(kfs, j) < Offset(kfs, k))
  }

  ghost predicate NearestAbove(kfs: seq<Keyframe>, n: nat, progress: real, k: nat)
    requires k < n <= |kfs|
  {
    && Placed(kfs, k) && progress <= Offset(kfs, k)
    && (forall j :: 0 <= j < n && Placed(kfs, j) && progress <= Offset(kfs, j) ==> Offset(kfs, k) <= Offset(kfs, j))
    && (forall j :: k < j < n && Placed(kfs, j) && progress <= Offset(kfs, j) ==> Offset(kfs, k) < Offset(kfs, j))
  }

  /** Repeating a selector changes nothing. */
  lemma {:induction false} UniformStep(before: Option<Keyframe>, after: Option<Keyframe>, kf: Keyframe, n: nat,
                                       progress: real)
    requires 0 < n <= |kf.selectors| && forall i :: 0 <= i < |kf.selectors| ==> kf.selectors[i] == kf.selectors[0]
    ensures BeforeWithin(before, kf, n, progress) == TakeBefore(before, kf, kf.selectors[0], progress)
    ensures AfterWithin(after, kf, n, progress) == TakeAfter(after, kf, kf.selectors[0], progress)
  {
    if n > 1 {
      UniformStep(before, after, kf, n - 1, progress);
    } else {
      assert BeforeWithin(before, kf, 0, progress) == before && AfterWithin(after, kf, 0, progress) == after;
    }
  }

  lemma OneMoreKeyframe(kfs: seq<Keyframe>, n: nat, progress: real)
    requires Uniform(kfs) && 0 < n <= |kfs|
    ensures Before(kfs, n, progress) ==
            if Placed(kfs, n - 1)
            then TakeBefore(Before(kfs, n - 1, progress), kfs[n - 1], Offset(kfs, n - 1), progress)
            else Before(kfs, n - 1, progress)
    ensures After(kfs, n, progress) ==
            if Placed(kfs, n - 1)
            then TakeAfter(After(kfs, n - 1, progress), kfs[n - 1], Offset(kfs, n - 1), progress)
            else After(kfs, n - 1, progress)
  {
    var kf := kfs[n - 1];
    if kf.selectors != [] {
      assert forall i :: 0 <= i < |kf.selectors| ==> kf.selectors[i] == Offset(kfs, n - 1);
      UniformStep(Before(kfs, n - 1, progress), After(kfs, n - 1, progress), kf, |kf.selectors|, progress);
    }
  }

  /** The search below finds the nearest keyframe at or below the progress, or that there is none. */
  lemma {:induction false} BeforeIsNearest(kfs: seq<Keyframe>, n: nat, progress: real)
    requires Uniform(kfs) && n <= |kfs|
    ensures Before(kfs, n, progress) == None ==> forall j :: 0 <= j < n && Placed(kfs, j) ==> progress < Offset(kfs, j)
    ensures Before(kfs, n, progress).Some? ==>
              exists k :: 0 <= k < n && Before(kfs, n, progress) == Some(kfs[k]) && NearestBelow(kfs, n, progress, k)
  {
    if n > 0 {
      BeforeIsNearest(kfs, n - 1, progress);
      OneMoreKeyframe(kfs, n, progress);
      var prev := Before(kfs, n - 1, progress);
      if Before(kfs, n, progress).Some? {
        if Placed(kfs, n - 1) && Offset(kfs, n - 1) <= progress
           && (prev == None || FirstSelector(prev.value, 0.0) <= Offset(kfs, n - 1)) {
          assert NearestBelow(kfs, n, progress, n - 1);
        } else {
          var k :| 0 <= k < n - 1 && prev == Some(kfs[k]) && NearestBelow(kfs, n - 1, progress, k);
          assert NearestBelow(kfs, n, progress, k);
        }
      }
    }
  }

  lemma {:induction false} AfterIsNearest(kfs: seq<Keyframe>, n: nat, progress: real)
    requires Uniform(kfs) && n <= |kfs|
    ensures After(kfs, n, progress) == None ==> forall j :: 0 <= j < n && Placed(kfs, j) ==> Offset(kfs, j) < progress
    ensures After(kfs, n, progress).Some? ==>
              exists k :: 0 <= k < n && After(kfs, n, progress) == Some(kfs[k]) && NearestAbove(kfs, n, progress, k)
  {
    if n > 0 {
      AfterIsNearest(kfs, n - 1, progress);
      OneMoreKeyframe(kfs, n, progress);
      var prev := After(kfs, n - 1, progress);
      if After(kfs, n, progress).Some? {
        if Placed(kfs, n - 1) && Offset(kfs, n - 1) >= progress
           && (prev == None || FirstSelector(prev.value, 1.0) >= Offset(kfs, n - 1)) {
          assert NearestAbove(kfs, n, progress, n - 1);
        } else {
          var k :| 0 <= k < n - 1 && prev == Some(kfs[k]) && NearestAbove(kfs, n - 1, progress, k);
          assert NearestAbove(kfs, n, progress, k);
        }
      }
    }
  }

  // ---- When the offsets used are the nearest -------------------------------

  /** The offset used below is the greatest selector of the rule at or below the progress. */
  ghost predicate GreatestBelow(kfs: seq<Keyframe>, before: Option<Keyframe>, progress: real) {
    if before == None then forall s :: Listed(kfs, s) ==> progress < s
    else
      var offset := FirstSelector(before.value, 0.0);
      Listed(kfs, offset) && offset <= progress && forall s :: Listed(kfs, s) && s <= progress ==> s <= offset
  }

  ghost predicate LeastAbove(kfs: seq<Keyframe>, after: Option<Keyframe>, progress: real) {
    if after == None then forall s :: Listed(kfs, s) ==> s < progress
    else
      var offset := FirstSelector(after.value, 1.0);
      Listed(kfs, offset) && progress <= offset && forall s :: Listed(kfs, s) && progress <= s ==> offset <= s
  }

  /** The two offsets that the interpolation uses are the nearest selectors on both sides. */
  ghost predicate UsesNearest(kfs: seq<Keyframe>, progress: real) {
    && GreatestBelow(kfs, Before(kfs, |kfs|, progress), progress)
    && LeastAbove(kfs, After(kfs, |kfs|, progress), progress)
  }

  lemma UniformLists(kfs: seq<Keyframe>, s: real)
    requires Uniform(kfs)
    ensures Listed(kfs, s) <==> exists k :: 0 <= k < |kfs| && Placed(kfs, k) && Offset(kfs, k) == s
  {
    if Listed(kfs, s) {
      var k, i :| 0 <= k < |kfs| && 0 <= i < |kfs[k].selectors| && kfs[k].selectors[i] == s;
      assert Placed(kfs, k) && Offset(kfs, k) == s;
    }
    if k :| 0 <= k < |kfs| && Placed(kfs, k) && Offset(kfs, k) == s {
      assert kfs[k].selectors[0] == s;
    }
  }

  lemma UniformUsesNearest(kfs: seq<Keyframe>, progress: real)
    requires Uniform(kfs)
    ensures UsesNearest(kfs, progress)
  {
    BeforeIsNearest(kfs, |kfs|, progress);
    AfterIsNearest(kfs, |kfs|, progress);
    forall s
      ensures Listed(kfs, s) <==> exists k :: 0 <= k < |kfs| && Placed(kfs, k) && Offset(kfs, k) == s
    {
      UniformLists(kfs, s);
    }
  }

  /** Once the offset above has fallen below the progress nothing can replace its keyframe. */
  lemma {:induction false} StuckAfter(after: Option<Keyframe>, kf: Keyframe, n: nat, progress: real)
    requires n <= |kf.selectors| && after.Some? && FirstSelector(after.value, 1.0) < progress
    ensures AfterWithin(after, kf, n, progress) == after
  {
    if n > 0 {
      StuckAfter(after, kf, n - 1, progress);
    }
  }

  lemma {:induction false} StuckBefore(before: Option<Keyframe>, kf: Keyframe, n: nat, progress: real)
    requires n <= |kf.selectors| && before.Some? && FirstSelector(before.value, 0.0) > progress
    ensures BeforeWithin(before, kf, n, progress) == before
  {
    if n > 0 {
      StuckBefore(before, kf, n - 1, progress);
    }
  }

  /** A selector above the first of its keyframe: at that progress the offset above falls below it. */
  lemma {:induction false} LateSelectorWithin(after: Option<Keyframe>, kf: Keyframe, i: nat, n: nat)
    requires i < n <= |kf.selectors| && kf.selectors[0] < kf.selectors[i]
    ensures var r := AfterWithin(after, kf, n, kf.selectors[i]);
            r.Some? && FirstSelector(r.value, 1.0) < kf.selectors[i]
  {
    if n > i + 1 {
      LateSelectorWithin(after, kf, i, n - 1);
    }
  }

  lemma {:induction false} EarlySelectorWithin(before: Option<Keyframe>, kf: Keyframe, i: nat, n: nat)
    requires i < n <= |kf.selectors| && kf.selectors[0] > kf.selectors[i]
    ensures var r := BeforeWithin(before, kf, n, kf.selectors[i]);
            r.Some? && FirstSelector(r.value, 0.0) > kf.selectors[i]
  {
    if n > i + 1 {
      EarlySelectorWithin(before, kf, i, n - 1);
    }
  }

  lemma {:induction false} LateSelectorMisleads(kfs: seq<Keyframe>, k: nat, i: nat, n: nat)
    requires k < n <= |kfs| && i < |kfs[k].selectors| && kfs[k].selectors[0] < kfs[k].selectors[i]
    ensures var r := After(kfs, n, kfs[k].selectors[i]);
            r.Some? && FirstSelector(r.value, 1.0) < kfs[k].selectors[i]
  {
    var p := kfs[k].selectors[i];
    if n > k + 1 {
      LateSelectorMisleads(kfs, k, i, n - 1);
      StuckAfter(After(kfs, n - 1, p), kfs[n - 1], |kfs[n - 1].selectors|, p);
    } else {
      LateSelectorWithin(After(kfs, k, p), kfs[k], i, |kfs[k].selectors|);
    }
  }

  lemma {:induction false} EarlySelectorMisleads(kfs: seq<Keyframe>, k: nat, i: nat, n: nat)
    requires k < n <= |kfs| && i < |kfs[k].selectors| && kfs[k].selectors[0] > kfs[k].selectors[i]
    ensures var r := Before(kfs, n, kfs[k].selectors[i]);
            r.Some? && FirstSelector(r.value, 0.0) > kfs[k].selectors[i]
  {
    var p := kfs[k].selectors[i];
    if n > k + 1 {
      EarlySelectorMisleads(kfs, k, i, n - 1);
      StuckBefore(Before(kfs, n - 1, p), kfs[n - 1], |kfs[n - 1].selectors|, p);
    } else {
      EarlySelectorWithin(Before(kfs, k, p), kfs[k], i, |kfs[k].selectors|);
    }
  }

  /** A keyframe with two different selectors: one of its own selectors is a progress where the search goes wrong. */
  lemma MixedSelectorsMislead(kfs: seq<Keyframe>, k: nat, i: nat)
    requires k < |kfs| && i < |kfs[k].selectors| && kfs[k].selectors[i] != Offset(kfs, k)
    ensures Listed(kfs, kfs[k].selectors[i]) && !UsesNearest(kfs, kfs[k].selectors[i])
  {
    if Offset(kfs, k) < kfs[k].selectors[i] {
      LateSelectorMisleads(kfs, k, i, |kfs|);
    } else {
      EarlySelectorMisleads(kfs, k, i, |kfs|);
    }
  }

  /**
   The offsets used are the nearest at every progress exactly for the rules whose keyframes repeat a single
   selector; it is enough to look at the progress values that the rule itself lists.
   */
  lemma UsesNearestIff(kfs: seq<Keyframe>)
    ensures (forall progress :: UsesNearest(kfs, progress)) <==> Uniform(kfs)
    ensures (forall progress :: Listed(kfs, progress) ==> UsesNearest(kfs, progress)) <==> Uniform(kfs)
  {
    if Uniform(kfs) {
      forall progress
        ensures UsesNearest(kfs, progress)
      {
        UniformUsesNearest(kfs, progress);
      }
    } else {
      var k, i :| 0 <= k < |kfs| && 0 <= i < |kfs[k].selectors| && kfs[k].selectors[i] != Offset(kfs, k);
      MixedSelectorsMislead(kfs, k, i);
    }
  }

  // ---- The resolved value --------------------------------------------------

  /** The values that interpolate with one another. */
  datatype Scale = Plain | In(unit: LengthUnit)

  ghost predicate OnScale(v: Option<PropertyValue>, scale: Scale) {
    && v.Some?
    && match scale
       case Plain => v.value.Number?
       case In(unit) => v.value.Length? && v.value.unit == unit && !unit.OtherUnit?
  }

  function Amount(v: PropertyValue): real
    requires !v.Unmixed?
  {
    if v.Number? then v.value else v.amount
  }

  ghost predicate Covers(kfs: seq<Keyframe>, progress: real) {
    && (exists k :: 0 <= k < |kfs| && Placed(kfs, k) && Offset(kfs, k) <= progress)
    && (exists k :: 0 <= k < |kfs| && Placed(kfs, k) && progress <= Offset(kfs, k))
  }

  ghost predicate Within(x: real, a: real, b: real) {
    a <= x <= b || b <= x <= a
  }

  lemma LerpWithin(a: real, b: real, t: real)
    requires Unit(t)
    ensures Within(Lerp(a, b, t), a, b)
  {
    if a <= b {
      ProductSign(b - a, t);
      ProductSign(b - a, 1.0 - t);
    } else {
      ProductSign(a - b, t);
      ProductSign(a - b, 1.0 - t);
    }
    assert (b - a) * t + (b - a) * (1.0 - t) == b - a;
  }

  /** `v` is the value at `t` of the way from `a` to `b`, on their scale and between them. */
  ghost predicate Mixes(v: Option<PropertyValue>, a: PropertyValue, b: PropertyValue, scale: Scale, t: real)
    requires OnScale(Some(a), scale) && OnScale(Some(b), scale)
  {
    && OnScale(v, scale) && Amount(v.value) == Lerp(Amount(a), Amount(b), t)
    && Within(Amount(v.value), Amount(a), Amount(b))
  }

  /** What the values of the two surrounding keyframes make. */
  ghost predicate Combines(r: Option<PropertyValue>, a: Option<PropertyValue>, b: Option<PropertyValue>,
                           t: real, progress: real) {
    if a == None then r == b
    else if b == None then r == a
    else if OnOneScale(a, b) then
      forall scale :: OnScale(a, scale) && OnScale(b, scale) ==> Mixes(r, a.value, b.value, scale, t)
    else r == if progress < 0.5 then a else b
  }

  ghost predicate OnOneScale(a: Option<PropertyValue>, b: Option<PropertyValue>) {
    exists scale :: OnScale(a, scale) && OnScale(b, scale)
  }

  lemma InterpolatesIff(a: PropertyValue, b: PropertyValue, t: real)
    requires Unit(t)
    ensures Interpolate(a, b, t).Some? <==> OnOneScale(Some(a), Some(b))
    ensures forall scale :: OnScale(Some(a), scale) && OnScale(Some(b), scale) ==>
              Mixes(Interpolate(a, b, t), a, b, scale, t)
  {
    if a.Number? && b.Number? {
      assert OnScale(Some(a), Plain) && OnScale(Some(b), Plain);
      LerpWithin(a.value, b.value, t);
    } else if a.Length? && b.Length? && a.unit == b.unit && !a.unit.OtherUnit? {
      assert OnScale(Some(a), In(a.unit)) && OnScale(Some(b), In(a.unit));
      LerpWithin(a.amount, b.amount, t);
    }
  }

  /** The surrounding keyframes are the nearest on each side, and the result combines their values. */
  lemma ResolveBetweenNearest(kfs: seq<Keyframe>, property: string, progress: real) returns (k: nat, m: nat)
    requires Uniform(kfs) && Covers(kfs, progress)
    ensures k < |kfs| && m < |kfs|
    ensures NearestBelow(kfs, |kfs|, progress, k) && NearestAbove(kfs, |kfs|, progress, m)
    ensures Combines(Resolve(kfs, property, progress),
                     Declared(kfs[k].declarations, property), Declared(kfs[m].declarations, property),
                     LocalProgress(Offset(kfs, k), Offset(kfs, m), progress), progress)
  {
    BeforeIsNearest(kfs, |kfs|, progress);
    AfterIsNearest(kfs, |kfs|, progress);
    k :| 0 <= k < |kfs| && Before(kfs, |kfs|, progress) == Some(kfs[k]) && NearestBelow(kfs, |kfs|, progress, k);
    m :| 0 <= m < |kfs| && After(kfs, |kfs|, progress) == Some(kfs[m]) && NearestAbove(kfs, |kfs|, progress, m);
    var a, b := Declared(kfs[k].declarations, property), Declared(kfs[m].declarations, property);
    if a.Some? && b.Some? {
      InterpolatesIff(a.value, b.value, LocalProgress(Offset(kfs, k), Offset(kfs, m), progress));
    }
  }

  /** Before the first keyframe its value is returned, that of the last listed on a tie. */
  lemma ResolveBeforeFirst(kfs: seq<Keyframe>, property: string, progress: real, m: nat)
    requires Uniform(kfs) && m < |kfs| && NearestAbove(kfs, |kfs|, progress, m)
    requires forall j :: 0 <= j < |kfs| && Placed(kfs, j) ==> progress < Offset(kfs, j)
    ensures Resolve(kfs, property, progress) == Declared(kfs[m].declarations, property)
  {
    BeforeIsNearest(kfs, |kfs|, progress);
    AfterIsNearest(kfs, |kfs|, progress);
    var k :| 0 <= k < |kfs| && After(kfs, |kfs|, progress) == Some(kfs[k]) && NearestAbove(kfs, |kfs|, progress, k);
    assert k == m;
  }

  /** After the last keyframe its value is returned, likewise. */
  lemma ResolveAfterLast(kfs: seq<Keyframe>, property: string, progress: real, k: nat)
    requires Uniform(kfs) && k < |kfs| && NearestBelow(kfs, |kfs|, progress, k)
    requires forall j :: 0 <= j < |kfs| && Placed(kfs, j) ==> Offset(kfs, j) < progress
    ensures Resolve(kfs, property, progress) == Declared(kfs[k].declarations, property)
  {
    BeforeIsNearest(kfs, |kfs|, progress);
    AfterIsNearest(kfs, |kfs|, progress);
    var m :| 0 <= m < |kfs| && Before(kfs, |kfs|, progress) == Some(kfs[m]) && NearestBelow(kfs, |kfs|, progress, m);
    assert m == k;
  }

  /** Between two offsets the local progress is the plain fraction, unless they lie within the epsilon. */
  lemma LocalProgressIff(from: real, to: real, progress: real)
    requires from <= progress <= to && from < to
    ensures LocalProgress(from, to, progress) == (progress - from) / (to - from) <==>
              to - from > Scheduler.EPSILON || progress == to
  {
    var part, whole := progress - from, to - from;
    DivideBounds(part, 1.0, whole);
    assert (part / whole) * whole == part;
  }

  /** At a keyframe's own selector its value is returned: that of the last listed of equal selectors. */
  lemma ResolveAtKeyframe(kfs: seq<Keyframe>, property: string, k: nat)
    requires Uniform(kfs) && k < |kfs| && Placed(kfs, k)
    requires forall j :: k < j < |kfs| && Placed(kfs, j) ==> Offset(kfs, j) != Offset(kfs, k)
    ensures Resolve(kfs, property, Offset(kfs, k)) == Declared(kfs[k].declarations, property)
  {
    var p := Offset(kfs, k);
    BeforeIsNearest(kfs, |kfs|, p);
    AfterIsNearest(kfs, |kfs|, p);
    var below :| 0 <= below < |kfs| && Before(kfs, |kfs|, p) == Some(kfs[below]) && NearestBelow(kfs, |kfs|, p, below);
    var above :| 0 <= above < |kfs| && After(kfs, |kfs|, p) == Some(kfs[above]) && NearestAbove(kfs, |kfs|, p, above);
    assert below == k && above == k;
  }

  /**
   A keyframe with several selectors is compared by its first one only.  Under `0%, 100% { 1 }` and
   `50% { 0 }` the value at three quarters is 0, where the rule written out one selector at a time gives 1/2.
   */
  lemma SeveralSelectorsMisresolve()
    ensures var ends, mid := [("opacity", Number(1.0))], [("opacity", Number(0.0))];
            var rule := [Keyframe([0.0, 1.0], ends), Keyframe([0.5], mid)];
            var writtenOut := [Keyframe([0.0], ends), Keyframe([1.0], ends), Keyframe([0.5], mid)];
            && Resolve(rule, "opacity", 0.75) == Some(Number(0.0))
            && Resolve(writtenOut, "opacity", 0.75) == Some(Number(0.5))
  {
    var ends, mid := [("opacity", Number(1.0))], [("opacity", Number(0.0))];
    var rule := [Keyframe([0.0, 1.0], ends), Keyframe([0.5], mid)];
    var out := [Keyframe([0.0], ends), Keyframe([1.0], ends), Keyframe([0.5], mid)];
    var p := 0.75;
    assert BeforeWithin(None, rule[0], 1, p) == Some(rule[0]) == BeforeWithin(None, rule[0], 2, p);
    assert Before(rule, 1, p) == Some(rule[0]);
    assert BeforeWithin(Some(rule[0]), rule[1], 1, p) == Some(rule[1]);
    assert AfterWithin(None, rule[0], 1, p) == None && AfterWithin(None, rule[0], 2, p) == Some(rule[0]);
    assert After(rule, 1, p) == Some(rule[0]);
    assert AfterWithin(Some(rule[0]), rule[1], 1, p) == Some(rule[0]);
    assert Before(rule, 2, p) == Some(rule[1]) && After(rule, 2, p) == Some(rule[0]);
    assert Before(out, 1, p) == Some(out[0]) && After(out, 1, p) == None;
    assert Before(out, 2, p) == Some(out[0]) && After(out, 2, p) == Some(out[1]);
    assert Before(out, 3, p) == Some(out[2]) && After(out, 3, p) == Some(out[1]);
  }
}
