/** Keyframe animations over the reals: time accounting, iteration counting and lifecycle events. */
module Scheduler {
  import opened Wrappers
  import opened Arithmetic
  import opened Easing

  type NodeId = nat

  datatype AnimationState = Pending | Running | Paused | Finished

  datatype Direction = Normal | Reverse | Alternate | AlternateReverse

  datatype FillMode = NoFill | Forwards | Backwards | Both

  datatype IterationCount = Finite(max: real) | Infinite

  datatype AnimationEvent = Start | Iteration(index: nat) | End

  /** The fields that a tick does not change. */
  datatype Timing = Timing(node: NodeId, keyframes: string, duration: real, delay: real, easing: EasingFunction,
                           iterations: IterationCount, direction: Direction, fill: FillMode)

  datatype Animation = Animation(timing: Timing, state: AnimationState, elapsed: real, iterationsDone: real)

  /** `x as u32`: truncated, saturating at both ends. */
  function AsU32(x: real): nat {
    if x < 0.0 then 0 else if x.Floor > U32_MAX then U32_MAX else x.Floor
  }

  // ---- tick ----------------------------------------------------------------

  /** The time since the delay expired. */
  function ActiveTime(t: Timing, elapsed: real): real {
    Max(elapsed - t.delay, 0.0)
  }

  predicate Reached(count: IterationCount, done: real) {
    count.Finite? && done >= count.max
  }

  /** What a tick makes of an animation that is still pending or running once its clock shows `elapsed`. */
  function AtTime(a: Animation, elapsed: real): Animation {
    var t := a.timing;
    if a.state == Pending && elapsed < t.delay then a.(elapsed := elapsed)
    else if t.duration <= 0.0 then Animation(t, Running, elapsed, a.iterationsDone)
    else
      var done := ActiveTime(t, elapsed) / t.duration;
      if Reached(t.iterations, done) then Animation(t, Finished, elapsed, t.iterations.max)
      else Animation(t, Running, elapsed, done)
  }

  function Ticked(a: Animation, dt: real): Animation {
    if a.state == Finished || a.state == Paused then a else AtTime(a, a.elapsed + dt)
  }

  function TickEvent(a: Animation, dt: real): Option<AnimationEvent> {
    if a.state == Finished || a.state == Paused then None
    else
      var b := AtTime(a, a.elapsed + dt);
      if b.state == Finished then Some(End)
      else if a.state == Pending && b.state == Running then Some(Start)
      else if a.state == Running && a.timing.duration > 0.0
           && AsU32(b.iterationsDone) > AsU32(a.iterationsDone.Floor as real)
      then Some(Iteration(AsU32(b.iterationsDone)))
      else None
  }

  function Ticks(a: Animation, dts: seq<real>): Animation
    decreases |dts|
  {
    if dts == [] then a else Ticks(Ticked(a, dts[0]), dts[1..])
  }

  function Sum(dts: seq<real>): real {
    if dts == [] then 0.0 else dts[0] + Sum(dts[1..])
  }

  ghost predicate NonNegative(dts: seq<real>) {
    forall k :: 0 <= k < |dts| ==> 0.0 <= dts[k]
  }

  // ---- progress ------------------------------------------------------------

  const EPSILON := 1.0 / 8388608.0   // the machine epsilon of f32, 2^-23

  function Fract(x: real): real {
    x - x.Floor as real
  }

  function FinalValue(direction: Direction, iterationsDone: real): real {
    var whole := AsU32(iterationsDone.Floor as real);
    var finalIsEven := (if whole == 0 then 0 else whole - 1) % 2 == 0;
    match direction
    case Normal => 1.0
    case Reverse => 0.0
    case Alternate => if finalIsEven then 1.0 else 0.0
    case AlternateReverse => if finalIsEven then 0.0 else 1.0
  }

  function Directed(direction: Direction, iterationsDone: real, raw: real): real {
    var even := AsU32(iterationsDone) % 2 == 0;
    match direction
    case Normal => raw
    case Reverse => 1.0 - raw
    case Alternate => if even then raw else 1.0 - raw
    case AlternateReverse => if even then 1.0 - raw else raw
  }

  function Progress(a: Animation): real {
    var t := a.timing;
    if t.duration <= 0.0 then 0.0
    else if a.state == Pending then
      if t.fill in {Backwards, Both} && t.direction in {Reverse, AlternateReverse} then 1.0 else 0.0
    else if a.state == Finished then
      if t.fill in {Forwards, Both} then t.easing.Evaluate(FinalValue(t.direction, a.iterationsDone)) else 0.0
    else
      var iteration := ActiveTime(t, a.elapsed) / t.duration;
      var raw := if iteration > 0.0 && Fract(iteration) < EPSILON then 1.0 else Fract(iteration);
      t.easing.Evaluate(Directed(t.direction, a.iterationsDone, raw))
  }

  lemma ProgressWithinUnit(a: Animation)
    requires a.timing.easing.StaysWithin()
    ensures Unit(Progress(a))
  {
    var t := a.timing;
    if t.duration > 0.0 {
      if a.state == Finished {
        EvaluateWithinUnit(t.easing, FinalValue(t.direction, a.iterationsDone));
      } else if a.state != Pending {
        var iteration := ActiveTime(t, a.elapsed) / t.duration;
        var raw := if iteration > 0.0 && Fract(iteration) < EPSILON then 1.0 else Fract(iteration);
        EvaluateWithinUnit(t.easing, Directed(t.direction, a.iterationsDone, raw));
      }
    }
  }

  /** Whether the direction plays its `k`-th iteration (from 0) forwards. */
  predicate PlaysForward(direction: Direction, k: nat) {
    match direction
    case Normal => true
    case Reverse => false
    case Alternate => k % 2 == 0
    case AlternateReverse => k % 2 == 1
  }

  /** A running animation whose clock stands at the fraction `f` of its `k`-th iteration. */
  ghost predicate StandsAt(a: Animation, k: nat, f: real) {
    && a.state == Running && a.timing.duration > 0.0 && 0.0 <= f < 1.0
    && ActiveTime(a.timing, a.elapsed) / a.timing.duration == k as real + f
    && a.iterationsDone == k as real + f
  }

  /** The number that the saturating cast makes of the `k`-th iteration. */
  function Counter(k: nat): nat {
    if k > U32_MAX then U32_MAX else k
  }

  /** The cast keeps the parity of the iteration where the direction looks at it. */
  predicate CountIsKept(direction: Direction, k: nat) {
    k <= U32_MAX || k % 2 == 1 || direction in {Normal, Reverse}
  }

  lemma CountIsKeptIff(direction: Direction, k: nat)
    ensures PlaysForward(direction, Counter(k)) == PlaysForward(direction, k) <==> CountIsKept(direction, k)
  {
  }

  lemma WholePart(a: Animation, k: nat, f: real)
    requires StandsAt(a, k, f)
    ensures Fract(ActiveTime(a.timing, a.elapsed) / a.timing.duration) == f && AsU32(a.iterationsDone) == Counter(k)
  {
    var iteration := ActiveTime(a.timing, a.elapsed) / a.timing.duration;
    assert iteration.Floor == k;
  }

  /** Inside an iteration the progress is the eased fraction, run as the direction says for the iteration counted. */
  lemma ProgressInIteration(a: Animation, k: nat, f: real)
    requires StandsAt(a, k, f) && (EPSILON <= f || k as real + f == 0.0)
    ensures Progress(a) ==
            a.timing.easing.Evaluate(if PlaysForward(a.timing.direction, Counter(k)) then f else 1.0 - f)
  {
    WholePart(a, k, f);
  }

  /** Within the epsilon after the start of an iteration the progress is already what that iteration ends on. */
  lemma ProgressJustStarted(a: Animation, k: nat, f: real)
    requires StandsAt(a, k, f) && f < EPSILON && 0.0 < k as real + f
    ensures Progress(a) == a.timing.easing.Evaluate(if PlaysForward(a.timing.direction, Counter(k)) then 1.0 else 0.0)
  {
    WholePart(a, k, f);
  }

  /**
   Under linear easing the progress is the fraction of the `k`-th iteration exactly from the epsilon on and at the
   very start; where the cast loses the parity it runs the wrong way, and is right only midway and at the boundary.
   */
  lemma ProgressInIterationIff(a: Animation, k: nat, f: real)
    requires StandsAt(a, k, f) && a.timing.easing == Linear
    ensures Progress(a) == (if PlaysForward(a.timing.direction, k) then f else 1.0 - f) <==>
              if CountIsKept(a.timing.direction, k) then EPSILON <= f || k as real + f == 0.0
              else f == 0.5 || f == 0.0
  {
    CountIsKeptIff(a.timing.direction, k);
    if EPSILON <= f || k as real + f == 0.0 {
      ProgressInIteration(a, k, f);
    } else {
      ProgressJustStarted(a, k, f);
    }
  }

  /**
   At the end of an iteration the progress is that iteration's last value under `Normal` and `Reverse` only, unless
   the cast has lost the parity: the alternating directions combine the full fraction with the parity of the
   iteration that is about to start.
   */
  lemma BoundaryProgressIff(a: Animation, k: nat)
    requires StandsAt(a, k, 0.0) && 0 < k
    ensures Progress(a) == a.timing.easing.Evaluate(if PlaysForward(a.timing.direction, k - 1) then 1.0 else 0.0) <==>
              a.timing.direction in {Normal, Reverse} || !CountIsKept(a.timing.direction, k)
  {
    EvaluateFixesEnds(a.timing.easing);
    ProgressJustStarted(a, k, 0.0);
  }

  /** Where the directed timeline stands after `n` iterations and the fraction `f` of the next, ends included. */
  function TimelineEnd(direction: Direction, n: nat, f: real): real {
    if f == 0.0 && 0 < n then (if PlaysForward(direction, n - 1) then 1.0 else 0.0)
    else if PlaysForward(direction, n) then f else 1.0 - f
  }

  /** A finished animation whose clock stopped at `n` iterations and the fraction `f`, and that fills forwards. */
  ghost predicate HoldsAt(a: Animation, n: nat, f: real) {
    && a.state == Finished && a.timing.duration > 0.0 && a.timing.fill in {Forwards, Both}
    && 0.0 <= f < 1.0 && a.iterationsDone == n as real + f
  }

  /** After a whole number of iterations the value held is the last value of the last one. */
  lemma FinishedHoldsFinalFrame(a: Animation, n: nat)
    requires HoldsAt(a, n, 0.0) && 0 < n && CountIsKept(a.timing.direction, n)
    ensures Progress(a) == a.timing.easing.Evaluate(TimelineEnd(a.timing.direction, n, 0.0))
  {
    HeldValue(a, n, 0.0);
  }

  lemma HeldValue(a: Animation, n: nat, f: real)
    requires HoldsAt(a, n, f)
    ensures var whole := Counter(n);
            Progress(a) == a.timing.easing.Evaluate(
              if PlaysForward(a.timing.direction, if whole == 0 then 0 else whole - 1) then 1.0 else 0.0)
  {
    assert a.iterationsDone.Floor == n;
  }

  /** After a fractional count, or none, the value held is not where the timeline ended: under linear easing never. */
  lemma HoldsFinalFrameIff(a: Animation, n: nat, f: real)
    requires HoldsAt(a, n, f) && a.timing.easing == Linear
    ensures Progress(a) == TimelineEnd(a.timing.direction, n, f) <==>
              f == 0.0 && 0 < n && CountIsKept(a.timing.direction, n)
  {
    HeldValue(a, n, f);
  }

  /** Two and a half iterations: the progress comes up to one half and jumps to 1 when the animation finishes. */
  lemma HalfIterationJumps(a: Animation)
    requires a == Animation(Timing(1, "spin", 1000.0, 0.0, Linear, Finite(2.5), Normal, Forwards), Running, 0.0, 0.0)
    ensures Progress(Ticked(a, 2499.0)) == 0.499
    ensures Ticked(a, 2500.0).state == Finished && Progress(Ticked(a, 2500.0)) == 1.0
  {
    assert StandsAt(Ticked(a, 2499.0), 2, 0.499);
    ProgressInIteration(Ticked(a, 2499.0), 2, 0.499);
    HeldValue(Ticked(a, 2500.0), 2, 0.5);
  }

  // ---- Ticks add up --------------------------------------------------------

  /** Equal but for the clock of a finished animation, which has stopped. */
  ghost predicate Same(a: Animation, b: Animation) {
    && a.timing == b.timing && a.state == b.state && a.iterationsDone == b.iterationsDone
    && (a.state != Finished ==> a.elapsed == b.elapsed)
  }

  lemma DivisionMonotone(x: real, y: real, d: real)
    requires 0.0 < d && x <= y
    ensures x / d <= y / d
  {
    var q, r := x / d, y / d;
    assert q * d == x && r * d == y;
    ScaleOrder(q, r, d);
  }

  /** An iteration count that has been reached stays reached. */
  lemma ReachedStays(t: Timing, early: real, late: real)
    requires 0.0 < t.duration && early <= late
    ensures ActiveTime(t, early) / t.duration <= ActiveTime(t, late) / t.duration
    ensures Reached(t.iterations, ActiveTime(t, early) / t.duration) ==>
              Reached(t.iterations, ActiveTime(t, late) / t.duration)
  {
    DivisionMonotone(ActiveTime(t, early), ActiveTime(t, late), t.duration);
  }

  lemma TwoTicksAdd(a: Animation, d: real, e: real)
    requires 0.0 <= d && 0.0 <= e
    ensures Same(Ticked(Ticked(a, d), e), Ticked(a, d + e))
  {
    if a.timing.duration > 0.0 {
      ReachedStays(a.timing, a.elapsed + d, a.elapsed + d + e);
    }
    assert a.elapsed + d + e == a.elapsed + (d + e);
  }

  lemma TickKeepsSame(a: Animation, b: Animation, d: real)
    requires Same(a, b)
    ensures Same(Ticked(a, d), Ticked(b, d))
    ensures TickEvent(a, d) == TickEvent(b, d)
  {
  }

  /** Any non-empty run of ticks leaves what one tick of the summed time leaves. */
  lemma {:induction false} TicksAddUp(a: Animation, dts: seq<real>)
    requires dts != [] && NonNegative(dts)
    ensures Same(Ticks(a, dts), Ticked(a, Sum(dts)))
    ensures Progress(Ticks(a, dts)) == Progress(Ticked(a, Sum(dts)))
    decreases |dts|
  {
    assert NonNegative(dts[1..]);
    if |dts| == 1 {
      assert dts[1..] == [];
    } else {
      TicksAddUp(Ticked(a, dts[0]), dts[1..]);
      SumNonNegative(dts[1..]);
      TwoTicksAdd(a, dts[0], Sum(dts[1..]));
    }
  }

  lemma {:induction false} SumNonNegative(dts: seq<real>)
    requires NonNegative(dts)
    ensures 0.0 <= Sum(dts)
  {
    if dts != [] {
      assert NonNegative(dts[1..]);
      assert 0.0 <= dts[0];
      SumNonNegative(dts[1..]);
    }
  }

  /** A tick of no time has nothing to start, to recount or to end. */
  predicate Settled(a: Animation) {
    match a.state
    case Finished | Paused => true
    case Pending => a.elapsed < a.timing.delay
    case Running =>
      a.timing.duration > 0.0 ==>
        a.iterationsDone == ActiveTime(a.timing, a.elapsed) / a.timing.duration
        && !Reached(a.timing.iterations, a.iterationsDone)
  }

  /** The empty run adds up too exactly from a settled animation. */
  lemma EmptyRunAddsUpIff(a: Animation)
    ensures Same(Ticks(a, []), Ticked(a, Sum([]))) <==> Settled(a)
  {
    assert Ticks(a, []) == a && Sum([]) == 0.0;
  }

  // ---- Events --------------------------------------------------------------

  function Events(a: Animation, dts: seq<real>): seq<AnimationEvent>
    decreases |dts|
  {
    if dts == [] then []
    else
      var e := TickEvent(a, dts[0]);
      (if e.Some? then [e.value] else []) + Events(Ticked(a, dts[0]), dts[1..])
  }

  /** A lifecycle as it should read: an optional start, rising iterations, an optional end. */
  ghost predicate Lifecycle(events: seq<AnimationEvent>) {
    && (forall i :: 0 <= i < |events| - 1 ==> events[i] != End)
    && (forall j :: 0 < j < |events| ==> events[j] != Start)
    && (forall i, j :: 0 <= i < j < |events| && events[i].Iteration? && events[j].Iteration? ==>
          events[i].index < events[j].index)
  }

  ghost predicate IndicesAbove(events: seq<AnimationEvent>, bound: nat) {
    forall i :: 0 <= i < |events| && events[i].Iteration? ==> bound < events[i].index
  }

  ghost predicate NoStart(events: seq<AnimationEvent>) {
    forall i :: 0 <= i < |events| ==> events[i] != Start
  }

  /** The clock of a running animation has produced its iteration count. */
  ghost predicate Counted(a: Animation) {
    a.state == Running && a.timing.duration > 0.0 ==>
      a.iterationsDone == ActiveTime(a.timing, a.elapsed) / a.timing.duration
  }

  lemma AsU32Floor(x: real)
    ensures AsU32(x.Floor as real) == AsU32(x)
  {
  }

  lemma AsU32Monotone(x: real, y: real)
    requires x <= y
    ensures AsU32(x) <= AsU32(y)
  {
  }

  lemma {:induction false} FinishedEmitsNothing(a: Animation, dts: seq<real>)
    requires a.state == Finished || a.state == Paused
    ensures Events(a, dts) == []
    decreases |dts|
  {
    if dts != [] {
      FinishedEmitsNothing(a, dts[1..]);
    }
  }

  lemma ActiveNonNegative(t: Timing, elapsed: real)
    requires 0.0 < t.duration
    ensures 0.0 <= ActiveTime(t, elapsed) / t.duration
  {
    DivisionMonotone(0.0, ActiveTime(t, elapsed), t.duration);
  }

  /** From a running animation whose count is up to date: no start, and only later iterations. */
  lemma {:induction false} RunningEvents(a: Animation, dts: seq<real>)
    requires a.state == Running && Counted(a) && NonNegative(dts)
    ensures Lifecycle(Events(a, dts)) && NoStart(Events(a, dts))
    ensures IndicesAbove(Events(a, dts), AsU32(a.iterationsDone))
    decreases |dts|
  {
    if dts != [] {
      assert NonNegative(dts[1..]) && 0.0 <= dts[0];
      var b := Ticked(a, dts[0]);
      var rest := Events(b, dts[1..]);
      AsU32Floor(a.iterationsDone);
      if b.state == Finished {
        FinishedEmitsNothing(b, dts[1..]);
      } else {
        RunningEvents(b, dts[1..]);
        if a.timing.duration > 0.0 {
          ReachedStays(a.timing, a.elapsed, b.elapsed);
          AsU32Monotone(a.iterationsDone, b.iterationsDone);
        }
        var e := TickEvent(a, dts[0]);
        var events := Events(a, dts);
        assert events == (if e.Some? then [e.value] else []) + rest;
        PrependEvent(e, rest, AsU32(a.iterationsDone), AsU32(b.iterationsDone));
      }
    }
  }

  /** Putting an iteration event (or none) before the events of a running animation. */
  lemma PrependEvent(e: Option<AnimationEvent>, rest: seq<AnimationEvent>, before: nat, after: nat)
    requires Lifecycle(rest) && NoStart(rest) && IndicesAbove(rest, after) && before <= after
    requires e.Some? ==> e.value == Iteration(after) && before < after
    ensures var events := (if e.Some? then [e.value] else []) + rest;
            Lifecycle(events) && NoStart(events) && IndicesAbove(events, before)
  {
    var events := (if e.Some? then [e.value] else []) + rest;
    if e == None {
      assert events == rest;
    } else {
      assert events[0] == e.value && events[1..] == rest;
      assert forall i :: 0 < i < |events| ==> events[i] == rest[i - 1];
    }
  }

  /** Putting a start or an iteration event before the events of a running animation. */
  lemma LeadEvent(e: Option<AnimationEvent>, rest: seq<AnimationEvent>, after: nat)
    requires Lifecycle(rest) && NoStart(rest) && IndicesAbove(rest, after)
    requires e.Some? ==> e.value == Start || e.value == Iteration(after)
    ensures Lifecycle((if e.Some? then [e.value] else []) + rest)
  {
    var events := (if e.Some? then [e.value] else []) + rest;
    if e == None {
      assert events == rest;
    } else {
      assert events[0] == e.value && forall i :: 0 < i < |events| ==> events[i] == rest[i - 1];
    }
  }

  /** Every run of ticks emits at most one start, first, rising iterations, and at most one end, last. */
  lemma {:induction false} EventsAreALifecycle(a: Animation, dts: seq<real>)
    requires NonNegative(dts)
    ensures Lifecycle(Events(a, dts))
    decreases |dts|
  {
    if dts != [] {
      assert NonNegative(dts[1..]) && 0.0 <= dts[0];
      var b := Ticked(a, dts[0]);
      var e := TickEvent(a, dts[0]);
      var rest := Events(b, dts[1..]);
      assert Events(a, dts) == (if e.Some? then [e.value] else []) + rest;
      if b.state == Finished || b.state == Paused {
        FinishedEmitsNothing(b, dts[1..]);
      } else if b.state == Running {
        RunningEvents(b, dts[1..]);
        LeadEvent(e, rest, AsU32(b.iterationsDone));
      } else {
        EventsAreALifecycle(b, dts[1..]);
        assert [] + rest == rest;
      }
    }
  }

  /** From a pending animation the first event is the start, or the end when it is over at once. */
  lemma {:induction false} PendingStartsFirst(a: Animation, dts: seq<real>)
    requires a.state == Pending && NonNegative(dts)
    ensures Events(a, dts) != [] ==> Events(a, dts)[0] == Start || Events(a, dts) == [End]
    ensures forall j :: 0 <= j < |Events(a, dts)| && Events(a, dts)[j].Iteration? ==>
              0 < j && Events(a, dts)[0] == Start
    decreases |dts|
  {
    if dts != [] {
      assert NonNegative(dts[1..]);
      var b := Ticked(a, dts[0]);
      if b.state == Pending {
        PendingStartsFirst(b, dts[1..]);
        assert [] + Events(b, dts[1..]) == Events(b, dts[1..]);
      } else if b.state == Finished {
        FinishedEmitsNothing(b, dts[1..]);
      }
    }
  }

  /** The tick `k` is the first that the delay lets through, and the animation is over by then. */
  ghost predicate OverAtOnce(a: Animation, dts: seq<real>, k: nat) {
    && k < |dts|
    && (k == 0 || a.elapsed + Sum(dts[..k]) < a.timing.delay)
    && OverAt(a, a.elapsed + Sum(dts[..k + 1]))
  }

  lemma OverAtOnceLater(a: Animation, dts: seq<real>, k: nat)
    requires dts != [] && a.state == Pending && a.elapsed + dts[0] < a.timing.delay && k < |dts| - 1
    ensures OverAtOnce(Ticked(a, dts[0]), dts[1..], k) <==> OverAtOnce(a, dts, k + 1)
  {
    assert dts[..k + 1][1..] == dts[1..][..k] && dts[..k + 2][1..] == dts[1..][..k + 1];
    if k == 0 {
      assert dts[..1][1..] == [];
    }
  }

  lemma NotOverAtOnce(a: Animation, dts: seq<real>, k: nat)
    requires NonNegative(dts) && 0 < k < |dts| && a.elapsed + dts[0] >= a.timing.delay
    ensures !OverAtOnce(a, dts, k)
  {
    assert NonNegative(dts[..k][1..]);
    SumNonNegative(dts[..k][1..]);
  }

  /** The lone end replaces the start exactly when the tick that ends the delay also reaches the end. */
  lemma {:induction false} LoneEndIff(a: Animation, dts: seq<real>)
    requires a.state == Pending && NonNegative(dts)
    ensures Events(a, dts) == [End] <==> exists k: nat :: OverAtOnce(a, dts, k)
    decreases |dts|
  {
    if dts != [] {
      assert NonNegative(dts[1..]) && 0.0 <= dts[0];
      var b := Ticked(a, dts[0]);
      FirstTick(a, dts);
      if b.state == Pending {
        LoneEndIff(b, dts[1..]);
        forall k: nat | k < |dts| - 1
          ensures OverAtOnce(b, dts[1..], k) <==> OverAtOnce(a, dts, k + 1)
        {
          OverAtOnceLater(a, dts, k);
        }
        if k: nat :| OverAtOnce(a, dts, k) {
          assert OverAtOnce(b, dts[1..], k - 1);
        }
      } else {
        forall k: nat | 0 < k < |dts|
          ensures !OverAtOnce(a, dts, k)
        {
          NotOverAtOnce(a, dts, k);
        }
      }
    }
  }

  /** What the first tick of a pending animation does to the events. */
  lemma FirstTick(a: Animation, dts: seq<real>)
    requires a.state == Pending && dts != []
    ensures OverAtOnce(a, dts, 0) <==> Ticked(a, dts[0]).state == Finished
    ensures Ticked(a, dts[0]).state == Finished ==> Events(a, dts) == [End]
    ensures Ticked(a, dts[0]).state == Running ==> Events(a, dts) != [] && Events(a, dts)[0] == Start
    ensures Ticked(a, dts[0]).state == Pending ==>
              Events(a, dts) == Events(Ticked(a, dts[0]), dts[1..]) && a.elapsed + dts[0] < a.timing.delay
    ensures Ticked(a, dts[0]).state != Pending ==> a.elapsed + dts[0] >= a.timing.delay
    ensures Ticked(a, dts[0]).state != Paused
  {
    assert dts[..1][1..] == [];
    assert Sum(dts[..1]) == dts[0];
    FinishedAtTime(a, a.elapsed + dts[0]);
    if Ticked(a, dts[0]).state == Finished {
      FinishedEmitsNothing(Ticked(a, dts[0]), dts[1..]);
    }
    var rest := Events(Ticked(a, dts[0]), dts[1..]);
    assert [] + rest == rest;
  }

  /** The iteration that a listener believes current, after `events`. */
  function Told(known: nat, events: seq<AnimationEvent>): nat
    decreases |events|
  {
    if events == [] then known
    else Told(if events[0].Iteration? then events[0].index else known, events[1..])
  }

  /** A listener that knows the iteration of a running animation keeps knowing it for as long as it runs. */
  lemma {:induction false} ListenerKeepsIteration(a: Animation, dts: seq<real>)
    requires a.state == Running && Counted(a) && NonNegative(dts) && Ticks(a, dts).state == Running
    ensures Told(AsU32(a.iterationsDone), Events(a, dts)) == AsU32(Ticks(a, dts).iterationsDone)
    decreases |dts|
  {
    if dts != [] {
      assert NonNegative(dts[1..]) && 0.0 <= dts[0];
      var b := Ticked(a, dts[0]);
      AsU32Floor(a.iterationsDone);
      if b.state == Finished {
        FinishedStays(b, dts[1..]);
      }
      if a.timing.duration > 0.0 {
        ReachedStays(a.timing, a.elapsed, b.elapsed);
        AsU32Monotone(a.iterationsDone, b.iterationsDone);
      }
      ListenerKeepsIteration(b, dts[1..]);
      var e := TickEvent(a, dts[0]);
      var rest := Events(b, dts[1..]);
      assert Events(a, dts) == (if e.Some? then [e.value] else []) + rest;
      if e.Some? {
        assert ([e.value] + rest)[1..] == rest;
      } else {
        assert [] + rest == rest;
      }
    }
  }

  /** The starting tick tells of no iteration, so the listener knows it exactly if the tick stays in the first. */
  lemma StartTellsIterationIff(a: Animation, dt: real)
    requires a.state == Pending && a.timing.duration > 0.0 && Ticked(a, dt).state == Running
    ensures Told(0, Events(a, [dt])) == AsU32(Ticked(a, dt).iterationsDone) <==>
              a.elapsed + dt - a.timing.delay < a.timing.duration
  {
    StartEvent(a, dt);
    StartCount(a, dt);
    WithinFirst(a.timing, a.elapsed + dt);
  }

  lemma StartCount(a: Animation, dt: real)
    requires a.state == Pending && a.timing.duration > 0.0 && Ticked(a, dt).state == Running
    ensures Ticked(a, dt).iterationsDone == ActiveTime(a.timing, a.elapsed + dt) / a.timing.duration
  {
  }

  lemma WithinFirst(t: Timing, elapsed: real)
    requires t.duration > 0.0
    ensures AsU32(ActiveTime(t, elapsed) / t.duration) == 0 <==> elapsed - t.delay < t.duration
  {
    var active := ActiveTime(t, elapsed);
    ActiveNonNegative(t, elapsed);
    DivideAtLeast(active, t.duration, 1.0);
    FirstIteration(active / t.duration);
  }

  lemma StartEvent(a: Animation, dt: real)
    requires a.state == Pending && Ticked(a, dt).state == Running
    ensures Told(0, Events(a, [dt])) == 0
  {
    assert TickEvent(a, dt) == Some(Start);
    assert [dt][1..] == [];
    assert Events(Ticked(a, dt), []) == [];
    assert Events(a, [dt]) == [Start];
    assert [Start][1..] == [];
  }

  lemma FirstIteration(done: real)
    requires 0.0 <= done
    ensures AsU32(done) == 0 <==> done < 1.0
  {
  }

  /** With a finite count every emitted iteration index stays below it. */
  lemma {:induction false} IndicesBelowCount(a: Animation, dts: seq<real>, i: nat)
    requires a.timing.iterations.Finite? && i < |Events(a, dts)| && Events(a, dts)[i].Iteration?
    ensures Events(a, dts)[i].index as real < a.timing.iterations.max
    decreases |dts|
  {
    var b := Ticked(a, dts[0]);
    var e := TickEvent(a, dts[0]);
    if e.Some? && i == 0 {
      ActiveNonNegative(a.timing, b.elapsed);
    } else {
      IndicesBelowCount(b, dts[1..], if e.Some? then i - 1 else i);
    }
  }

  lemma DivideAtLeast(x: real, d: real, m: real)
    requires 0.0 < d
    ensures x / d >= m <==> x >= m * d
  {
    var q := x / d;
    assert q * d == x;
    ScaleOrder(m, q, d);
  }

  /** The time at which an animation is over, if it ever is: never without a positive duration or a finite count. */
  ghost predicate OverAt(a: Animation, elapsed: real) {
    && a.timing.duration > 0.0 && a.timing.iterations.Finite?
    && (a.state == Pending ==> elapsed >= a.timing.delay)
    && ActiveTime(a.timing, elapsed) >= a.timing.iterations.max * a.timing.duration
  }

  lemma FinishedAtTime(a: Animation, elapsed: real)
    requires a.state == Pending || a.state == Running
    ensures AtTime(a, elapsed).state == Finished <==> OverAt(a, elapsed)
  {
    if a.timing.duration > 0.0 && a.timing.iterations.Finite? {
      DivideAtLeast(ActiveTime(a.timing, elapsed), a.timing.duration, a.timing.iterations.max);
    }
  }

  /** The end comes, and is told, exactly when the ticks have summed up to it. */
  lemma EndIsReached(a: Animation, dts: seq<real>)
    requires (a.state == Pending || a.state == Running) && NonNegative(dts) && dts != []
    ensures Ticks(a, dts).state == Finished <==> OverAt(a, a.elapsed + Sum(dts))
    ensures Ticks(a, dts).state == Finished <==> End in Events(a, dts)
  {
    TicksAddUp(a, dts);
    FinishedAtTime(a, a.elapsed + Sum(dts));
    EndEvent(a, dts);
  }

  lemma {:induction false} EndEvent(a: Animation, dts: seq<real>)
    requires a.state != Finished
    ensures Ticks(a, dts).state == Finished <==> End in Events(a, dts)
    decreases |dts|
  {
    if dts != [] {
      var b := Ticked(a, dts[0]);
      if b.state == Finished {
        FinishedEmitsNothing(b, dts[1..]);
        FinishedStays(b, dts[1..]);
      } else {
        EndEvent(b, dts[1..]);
      }
    }
  }

  lemma {:induction false} FinishedStays(a: Animation, dts: seq<real>)
    requires a.state == Finished
    ensures Ticks(a, dts) == a
    decreases |dts|
  {
    if dts != [] {
      FinishedStays(a, dts[1..]);
    }
  }

  // ---- The scheduler -------------------------------------------------------

  predicate Kept(a: Animation, autoPrune: bool) {
    !autoPrune || a.state != Finished || a.timing.fill in {Forwards, Both}
  }

  /** All animations ticked; with `autoPrune` those dropped that finished without holding a value. */
  function AllTicked(s: seq<Animation>, dt: real, autoPrune: bool): seq<Animation> {
    if s == [] then []
    else
      var b := Ticked(s[0], dt);
      (if Kept(b, autoPrune) then [b] else []) + AllTicked(s[1..], dt, autoPrune)
  }

  function OwnEvents(a: Animation, dt: real): seq<(NodeId, AnimationEvent)> {
    var e := TickEvent(a, dt);
    if e.Some? then [(a.timing.node, e.value)] else []
  }

  function AllEvents(s: seq<Animation>, dt: real): seq<(NodeId, AnimationEvent)> {
    if s == [] then [] else OwnEvents(s[0], dt) + AllEvents(s[1..], dt)
  }

  function TickAllRun(s: seq<Animation>, dts: seq<real>, autoPrune: bool): seq<Animation>
    decreases |dts|
  {
    if dts == [] then s else TickAllRun(AllTicked(s, dts[0], autoPrune), dts[1..], autoPrune)
  }

  ghost predicate SameAll(s: seq<Animation>, t: seq<Animation>) {
    |s| == |t| && forall k :: 0 <= k < |s| ==> Same(s[k], t[k])
  }

  lemma SameAllConcat(x: seq<Animation>, y: seq<Animation>, s: seq<Animation>, t: seq<Animation>)
    requires SameAll(x, y) && SameAll(s, t)
    ensures SameAll(x + s, y + t)
  {
    forall k | 0 <= k < |x + s|
      ensures Same((x + s)[k], (y + t)[k])
    {
      if k < |x| {
        assert Same(x[k], y[k]);
      } else {
        assert Same(s[k - |x|], t[k - |x|]);
      }
    }
  }

  lemma OneTickAllsAdd(a: Animation, d: real, e: real, autoPrune: bool)
    requires 0.0 <= d && 0.0 <= e
    ensures SameAll(AllTicked(AllTicked([a], d, autoPrune), e, autoPrune), AllTicked([a], d + e, autoPrune))
  {
    TwoTicksAdd(a, d, e);
    OneTicked(a, d, autoPrune);
    OneTicked(a, d + e, autoPrune);
    OneTicked(Ticked(a, d), e, autoPrune);
  }

  lemma OneTicked(a: Animation, d: real, autoPrune: bool)
    ensures AllTicked([a], d, autoPrune) == if Kept(Ticked(a, d), autoPrune) then [Ticked(a, d)] else []
  {
    assert AllTicked([], d, autoPrune) == [];
    assert [a][1..] == [];
  }

  lemma {:induction false} AllTickedConcat(s: seq<Animation>, t: seq<Animation>, d: real, autoPrune: bool)
    ensures AllTicked(s + t, d, autoPrune) == AllTicked(s, d, autoPrune) + AllTicked(t, d, autoPrune)
  {
    if s == [] {
      assert s + t == t;
    } else {
      assert (s + t)[1..] == s[1..] + t;
      AllTickedConcat(s[1..], t, d, autoPrune);
    }
  }

  lemma {:induction false} TickAllKeepsSame(s: seq<Animation>, t: seq<Animation>, d: real, autoPrune: bool)
    requires SameAll(s, t)
    ensures SameAll(AllTicked(s, d, autoPrune), AllTicked(t, d, autoPrune))
  {
    if s != [] {
      assert Same(s[0], t[0]);
      TickKeepsSame(s[0], t[0], d);
      OneTicked(s[0], d, autoPrune);
      OneTicked(t[0], d, autoPrune);
      assert SameAll(s[1..], t[1..]);
      TickAllKeepsSame(s[1..], t[1..], d, autoPrune);
      assert s == [s[0]] + s[1..] && t == [t[0]] + t[1..];
      AllTickedConcat([s[0]], s[1..], d, autoPrune);
      AllTickedConcat([t[0]], t[1..], d, autoPrune);
      SameAllConcat(AllTicked([s[0]], d, autoPrune), AllTicked([t[0]], d, autoPrune),
                    AllTicked(s[1..], d, autoPrune), AllTicked(t[1..], d, autoPrune));
    }
  }

  lemma {:induction false} TwoTickAllsAdd(s: seq<Animation>, d: real, e: real, autoPrune: bool)
    requires 0.0 <= d && 0.0 <= e
    ensures SameAll(AllTicked(AllTicked(s, d, autoPrune), e, autoPrune), AllTicked(s, d + e, autoPrune))
  {
    if s != [] {
      OneTickAllsAdd(s[0], d, e, autoPrune);
      TwoTickAllsAdd(s[1..], d, e, autoPrune);
      assert s == [s[0]] + s[1..];
      TwoTickAllsConcat([s[0]], s[1..], d, e, autoPrune);
    }
  }

  lemma TwoTickAllsConcat(s: seq<Animation>, t: seq<Animation>, d: real, e: real, autoPrune: bool)
    requires SameAll(AllTicked(AllTicked(s, d, autoPrune), e, autoPrune), AllTicked(s, d + e, autoPrune))
    requires SameAll(AllTicked(AllTicked(t, d, autoPrune), e, autoPrune), AllTicked(t, d + e, autoPrune))
    ensures SameAll(AllTicked(AllTicked(s + t, d, autoPrune), e, autoPrune), AllTicked(s + t, d + e, autoPrune))
  {
    var s', t' := AllTicked(s, d, autoPrune), AllTicked(t, d, autoPrune);
    AllTickedConcat(s, t, d, autoPrune);
    AllTickedConcat(s, t, d + e, autoPrune);
    AllTickedConcat(s', t', e, autoPrune);
    SameAllConcat(AllTicked(s', e, autoPrune), AllTicked(s, d + e, autoPrune),
                  AllTicked(t', e, autoPrune), AllTicked(t, d + e, autoPrune));
  }

  lemma {:induction false} SameAllTransitive(s: seq<Animation>, t: seq<Animation>, u: seq<Animation>)
    requires SameAll(s, t) && SameAll(t, u)
    ensures SameAll(s, u)
  {
    forall k | 0 <= k < |s|
      ensures Same(s[k], u[k])
    {
      assert Same(s[k], t[k]) && Same(t[k], u[k]);
    }
  }

  /** A run of scheduler ticks keeps the animations that one tick of the summed time keeps, in the same states. */
  lemma {:induction false} TickAllsAddUp(s: seq<Animation>, dts: seq<real>, autoPrune: bool)
    requires dts != [] && NonNegative(dts)
    ensures SameAll(TickAllRun(s, dts, autoPrune), AllTicked(s, Sum(dts), autoPrune))
    decreases |dts|
  {
    assert NonNegative(dts[1..]) && 0.0 <= dts[0];
    if |dts| == 1 {
      assert dts[1..] == [];
    } else {
      var t := AllTicked(s, dts[0], autoPrune);
      TickAllsAddUp(t, dts[1..], autoPrune);
      SumNonNegative(dts[1..]);
      TwoTickAllsAdd(s, dts[0], Sum(dts[1..]), autoPrune);
      SameAllTransitive(TickAllRun(s, dts, autoPrune), AllTicked(t, Sum(dts[1..]), autoPrune),
                        AllTicked(s, Sum(dts), autoPrune));
    }
  }

  class AnimationScheduler {
    var animations: seq<Animation>
    var pendingEvents: seq<(NodeId, AnimationEvent)>
    var autoPrune: bool

    constructor ()
      ensures animations == [] && pendingEvents == [] && autoPrune
    {
      animations, pendingEvents, autoPrune := [], [], true;
    }

    method StartAnimation(a: Animation)
      modifies this`animations
      ensures animations == old(animations) + [a]
    {
      animations := animations + [a];
    }

    method TickAll(dtMs: real)
      modifies this`animations, this`pendingEvents
      ensures animations == AllTicked(old(animations), dtMs, autoPrune)
      ensures pendingEvents == AllEvents(old(animations), dtMs)
    {
      pendingEvents := [];
      ghost var before := animations;
      for k := 0 to |animations|
        invariant TickedUpTo(before, animations, k, dtMs) && pendingEvents == AllEvents(before[..k], dtMs)
      {
        TickOne(k, dtMs, before);
      }
      assert before[..|before|] == before;
      TickedThenPruned(before, animations, dtMs, autoPrune);
      animations := Retain(animations, autoPrune);
    }

    /** The body of the loop: one animation ticked in place, its event collected. */
    method TickOne(k: nat, dtMs: real, ghost before: seq<Animation>)
      requires k < |animations| && TickedUpTo(before, animations, k, dtMs)
      requires pendingEvents == AllEvents(before[..k], dtMs)
      modifies this`animations, this`pendingEvents
      ensures TickedUpTo(before, animations, k + 1, dtMs)
      ensures pendingEvents == AllEvents(before[..k + 1], dtMs)
    {
      EventsOfPrefix(before, k, dtMs);
      var event := TickEvent(animations[k], dtMs);
      animations := animations[k := Ticked(animations[k], dtMs)];
      if event.Some? {
        pendingEvents := pendingEvents + [(animations[k].timing.node, event.value)];
      }
    }

    /** Hands out the events of the last tick and forgets them. */
    method DrainEvents() returns (events: seq<(NodeId, AnimationEvent)>)
      modifies this`pendingEvents
      ensures events == old(pendingEvents) && pendingEvents == []
    {
      events := pendingEvents;
      pendingEvents := [];
    }
  }

  /** The first `k` animations have been ticked in place. */
  ghost predicate TickedUpTo(before: seq<Animation>, now: seq<Animation>, k: nat, dt: real) {
    && |now| == |before|
    && (forall j :: 0 <= j < k && j < |before| ==> now[j] == Ticked(before[j], dt))
    && (forall j :: k <= j < |before| ==> now[j] == before[j])
  }

  lemma {:induction false} EventsConcat(s: seq<Animation>, t: seq<Animation>, dt: real)
    ensures AllEvents(s + t, dt) == AllEvents(s, dt) + AllEvents(t, dt)
  {
    if s == [] {
      assert s + t == t;
    } else {
      assert (s + t)[1..] == s[1..] + t;
      EventsConcat(s[1..], t, dt);
    }
  }

  lemma EventsOfPrefix(s: seq<Animation>, k: nat, dt: real)
    requires k < |s|
    ensures AllEvents(s[..k + 1], dt) == AllEvents(s[..k], dt) + OwnEvents(s[k], dt)
  {
    assert s[..k + 1] == s[..k] + [s[k]];
    EventsConcat(s[..k], [s[k]], dt);
    assert [s[k]][1..] == [];
  }

  function Retain(s: seq<Animation>, autoPrune: bool): seq<Animation> {
    if s == [] then [] else (if Kept(s[0], autoPrune) then [s[0]] else []) + Retain(s[1..], autoPrune)
  }

  lemma {:induction false} TickedThenPruned(s: seq<Animation>, ticked: seq<Animation>, dt: real, autoPrune: bool)
    requires TickedUpTo(s, ticked, |s|, dt)
    ensures Retain(ticked, autoPrune) == AllTicked(s, dt, autoPrune)
  {
    if s != [] {
      TickedThenPruned(s[1..], ticked[1..], dt, autoPrune);
    }
  }

  // ---- The animation object ------------------------------------------------

  class RunningAnimation {
    const timing: Timing
    var state: AnimationState
    var elapsedMs: real
    var iterationsDone: real

    function Model(): Animation
      reads this
    {
      Animation(timing, state, elapsedMs, iterationsDone)
    }

    constructor (a: Animation)
      ensures Model() == a
    {
      timing, state, elapsedMs, iterationsDone := a.timing, a.state, a.elapsed, a.iterationsDone;
    }

    method Tick(dtMs: real) returns (event: Option<AnimationEvent>)
      modifies this
      ensures Model() == Ticked(old(Model()), dtMs)
      ensures event == TickEvent(old(Model()), dtMs)
    {
      if state == Finished || state == Paused {
        return None;
      }
      var wasPending := state == Pending;
      var prevIterations := AsU32(iterationsDone.Floor as real);
      elapsedMs := elapsedMs + dtMs;
      if wasPending && elapsedMs >= timing.delay {
        state := Running;
      }
      event := None;
      if wasPending && state == Running {
        event := Some(Start);
      }
      if state == Running && timing.duration > 0.0 {
        var active := Max(elapsedMs - timing.delay, 0.0);
        iterationsDone := active / timing.duration;
        if timing.iterations.Finite? && iterationsDone >= timing.iterations.max {
          iterationsDone := timing.iterations.max;
          state := Finished;
          event := Some(End);
        } else {
          AsU32Floor(iterationsDone);
          var newIter := AsU32(iterationsDone.Floor as real);
          if newIter > prevIterations && event == None {
            event := Some(Iteration(newIter));
          }
        }
      }
    }
  }
}
