/** What a run of ticks leaves of an animation, what is shown before and after it, and what the scheduler hands out. */
module AnimationLaws {
  import opened Wrappers
  import opened Easing
  import opened Scheduler

  // ---- State and count after a run -----------------------------------------

  /** How long the animation has been active. */
  function SinceDelay(t: Timing, elapsed: real): real {
    if elapsed < t.delay then 0.0 else elapsed - t.delay
  }

  lemma SinceDelayIsActive(t: Timing, elapsed: real)
    ensures SinceDelay(t, elapsed) == ActiveTime(t, elapsed)
  {
  }

  /** A run leaves the state and the iteration count that the summed time and the timing alone decide. */
  lemma RunLeaves(a: Animation, dts: seq<real>)
    requires (a.state == Pending || a.state == Running) && dts != [] && NonNegative(dts)
    ensures var b, t, elapsed := Ticks(a, dts), a.timing, a.elapsed + Sum(dts);
            && b.timing == t && b.state != Paused
            && (b.state == Pending <==> a.state == Pending && elapsed < t.delay)
            && (b.state == Finished ==> t.iterations == Finite(b.iterationsDone))
            && (b.state == Running && t.duration > 0.0 ==> b.iterationsDone == SinceDelay(t, elapsed) / t.duration)
            && (b.state == Pending || t.duration <= 0.0 ==> b.iterationsDone == a.iterationsDone)
            && (b.state != Finished ==> b.elapsed == elapsed)
  {
    TicksAddUp(a, dts);
    SinceDelayIsActive(a.timing, a.elapsed + Sum(dts));
  }

  /** The time since the delay fills the iterations that the timing asks for. */
  ghost predicate Fills(a: Animation, elapsed: real) {
    && a.timing.duration > 0.0 && a.timing.iterations.Finite?
    && (a.state == Pending ==> a.timing.delay <= elapsed)
    && SinceDelay(a.timing, elapsed) >= a.timing.iterations.max * a.timing.duration
  }

  lemma FillsIsOver(a: Animation, elapsed: real)
    ensures Fills(a, elapsed) <==> OverAt(a, elapsed)
  {
    SinceDelayIsActive(a.timing, elapsed);
  }

  /** And it finishes the animation exactly if that time is reached. */
  lemma FinishesIff(a: Animation, dts: seq<real>)
    requires (a.state == Pending || a.state == Running) && dts != [] && NonNegative(dts)
    ensures Ticks(a, dts).state == Finished <==> Fills(a, a.elapsed + Sum(dts))
  {
    EndIsReached(a, dts);
    FillsIsOver(a, a.elapsed + Sum(dts));
  }

  /** Whenever a run finishes an animation, its count is the maximum of its timing. */
  lemma FinishedCount(a: Animation, dts: seq<real>)
    requires (a.state == Pending || a.state == Running) && NonNegative(dts) && Ticks(a, dts).state == Finished
    ensures a.timing.duration > 0.0 && a.timing.iterations == Finite(Ticks(a, dts).iterationsDone)
  {
    RunLeaves(a, dts);
    FinishesIff(a, dts);
  }

  lemma FinishedHoldsAt(a: Animation, dts: seq<real>, n: nat, f: real)
    requires (a.state == Pending || a.state == Running) && NonNegative(dts) && Ticks(a, dts).state == Finished
    requires a.timing.iterations == Finite(n as real + f) && 0.0 <= f < 1.0 && a.timing.fill in {Forwards, Both}
    ensures HoldsAt(Ticks(a, dts), n, f) && Ticks(a, dts).timing == a.timing
  {
    FinishedCount(a, dts);
    RunLeaves(a, dts);
  }

  /** A run that finishes whole iterations leaves the last value of the last one, if the animation fills forwards. */
  lemma RunHoldsFinalFrame(a: Animation, dts: seq<real>, n: nat)
    requires (a.state == Pending || a.state == Running) && NonNegative(dts) && Ticks(a, dts).state == Finished
    requires a.timing.iterations == Finite(n as real) && 0 < n && CountIsKept(a.timing.direction, n)
    requires a.timing.fill in {Forwards, Both}
    ensures Progress(Ticks(a, dts)) == a.timing.easing.Evaluate(TimelineEnd(a.timing.direction, n, 0.0))
  {
    FinishedHoldsAt(a, dts, n, 0.0);
    FinishedHoldsFinalFrame(Ticks(a, dts), n);
  }

  /** Under linear easing the value held after any run is where the timing ends exactly for whole positive counts. */
  lemma RunHoldsFinalFrameIff(a: Animation, dts: seq<real>, n: nat, f: real)
    requires (a.state == Pending || a.state == Running) && NonNegative(dts) && Ticks(a, dts).state == Finished
    requires a.timing.iterations == Finite(n as real + f) && 0.0 <= f < 1.0
    requires a.timing.fill in {Forwards, Both} && a.timing.easing == Linear
    ensures Progress(Ticks(a, dts)) == TimelineEnd(a.timing.direction, n, f) <==>
              f == 0.0 && 0 < n && CountIsKept(a.timing.direction, n)
  {
    FinishedHoldsAt(a, dts, n, f);
    HoldsFinalFrameIff(Ticks(a, dts), n, f);
  }

  // ---- Before and after ----------------------------------------------------

  /** Before the delay a backwards fill shows the first value of the timeline, any other fill 0. */
  lemma ShownWhilePending(a: Animation)
    requires a.state == Pending && a.timing.duration > 0.0
    ensures Progress(a) == if a.timing.fill in {Backwards, Both}
                           then a.timing.easing.Evaluate(TimelineEnd(a.timing.direction, 0, 0.0)) else 0.0
  {
    EvaluateFixesEnds(a.timing.easing);
  }

  /** After the end only a forwards fill shows anything, and without a duration nothing is ever shown. */
  lemma ShownAfterwards(a: Animation)
    ensures a.state == Finished && a.timing.fill in {NoFill, Backwards} ==> Progress(a) == 0.0
    ensures a.timing.duration <= 0.0 ==> Progress(a) == 0.0
  {
  }

  // ---- The scheduler -------------------------------------------------------

  /** A finished animation survives pruning exactly if it still shows something when played forwards. */
  lemma KeptIffShown(a: Animation)
    requires a.state == Finished && a.timing.duration > 0.0
    ensures Kept(a, true) <==> Progress(a.(timing := a.timing.(direction := Normal))) == 1.0
  {
    EvaluateFixesEnds(a.timing.easing);
  }

  /** Nothing else is ever pruned. */
  lemma OnlyFinishedArePruned(a: Animation, autoPrune: bool)
    ensures a.state != Finished || !autoPrune ==> Kept(a, autoPrune)
  {
  }

  /** Without pruning each animation is ticked in its place. */
  lemma {:induction false} TickedInPlace(s: seq<Animation>, dt: real, k: nat)
    requires k < |s|
    ensures |AllTicked(s, dt, false)| == |s| && AllTicked(s, dt, false)[k] == Ticked(s[k], dt)
  {
    if k > 0 {
      TickedInPlace(s[1..], dt, k - 1);
    } else if |s| > 1 {
      TickedInPlace(s[1..], dt, 0);
    } else {
      assert AllTicked(s[1..], dt, false) == [];
    }
  }

  /** With pruning the same animations remain, in order, but for those dropped. */
  lemma {:induction false} TickedThenKept(s: seq<Animation>, dt: real)
    ensures AllTicked(s, dt, true) == Retain(AllTicked(s, dt, false), true)
  {
    if s != [] {
      TickedThenKept(s[1..], dt);
      var b, rest := Ticked(s[0], dt), AllTicked(s[1..], dt, false);
      assert AllTicked(s, dt, false) == [b] + rest && ([b] + rest)[1..] == rest;
    }
  }

  /** A node hears an event exactly if one of its animations emits it. */
  lemma {:induction false} NodeHearsIff(s: seq<Animation>, dt: real, node: Scheduler.NodeId, e: AnimationEvent)
    ensures (node, e) in AllEvents(s, dt) <==>
              exists k :: 0 <= k < |s| && s[k].timing.node == node && TickEvent(s[k], dt) == Some(e)
  {
    if s != [] {
      NodeHearsIff(s[1..], dt, node, e);
      assert AllEvents(s, dt) == OwnEvents(s[0], dt) + AllEvents(s[1..], dt);
      assert (node, e) in OwnEvents(s[0], dt) <==> s[0].timing.node == node && TickEvent(s[0], dt) == Some(e);
      assert forall k :: 0 <= k < |s[1..]| ==> s[1..][k] == s[k + 1];
      if k :| 0 <= k < |s| && s[k].timing.node == node && TickEvent(s[k], dt) == Some(e) && k > 0 {
        assert s[1..][k - 1] == s[k];
      }
    }
  }
}
