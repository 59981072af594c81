/** The settings runtime as a value: every run of edits, undos and redos walks a timeline of snapshots. */
module SettingsModel {
  import opened Wrappers
  import opened SettingEntries
  import opened ChangeTracking

  type Entries = map<string, SettingEntry>

  datatype PolicyConstraint = Locked | Hidden | ReadOnly

  datatype Runtime = Runtime(entries: Entries, changes: Tracker, policy: map<string, PolicyConstraint>,
                             notifications: seq<(string, SettingValue)>)

  function WithValue(entries: Entries, key: string, value: SettingValue): Entries {
    if key in entries then entries[key := entries[key].(value := value)] else entries
  }

  function SetValue(r: Runtime, key: string, value: SettingValue): (Runtime, Result<(), SettingsError>) {
    if key in r.policy then (r, Err(LockedByPolicy(key)))
    else if key !in r.entries then (r, Err(UnknownSetting(key)))
    else if Validate(r.entries[key], value).Err? then (r, Validate(r.entries[key], value))
    else
      var change := Change(key, r.entries[key].value, value);
      (Runtime(WithValue(r.entries, key, value), Applied(Recorded(r.changes, change)), r.policy,
               r.notifications + [(key, value)]), Ok(()))
  }

  function ResetToDefault(r: Runtime, key: string): (Runtime, Result<(), SettingsError>) {
    if key !in r.entries then (r, Err(UnknownSetting(key))) else SetValue(r, key, r.entries[key].default)
  }

  /** The value of a change handed back by the tracker is written and announced. */
  function Announce(r: Runtime, changes: Tracker, c: Result<Change, SettingsError>)
      : (Runtime, Result<(), SettingsError>)
  {
    match c
    case Err(e) => (r.(changes := changes), Err(e))
    case Ok(change) =>
      (Runtime(WithValue(r.entries, change.key, change.newValue), changes, r.policy,
               r.notifications + [(change.key, change.newValue)]), Ok(()))
  }

  function Undo(r: Runtime): (Runtime, Result<(), SettingsError>) {
    Announce(r, Undone(r.changes).0, Undone(r.changes).1)
  }

  function Redo(r: Runtime): (Runtime, Result<(), SettingsError>) {
    Announce(r, Redone(r.changes).0, Redone(r.changes).1)
  }

  /** Undo everything, without announcing it. */
  function Revert(r: Runtime): Runtime
    decreases |r.changes.undo|
  {
    if r.changes.undo == [] then r
    else
      var (changes, c) := Undone(r.changes);
      Revert(Runtime(WithValue(r.entries, c.value.key, c.value.newValue), changes, r.policy, r.notifications))
  }

  // ---- The timeline --------------------------------------------------------

  function Snapshot(entries: Entries): Values {
    map key | key in entries :: entries[key].value
  }

  datatype Timeline = Timeline(snaps: seq<Values>, cursor: nat)

  /** `c` leads from one snapshot to the next. */
  ghost predicate Leads(c: Change, before: Values, after: Values) {
    Replaces(before, c) && after == before[c.key := c.newValue]
  }

  /** The two stacks are the steps of the timeline on either side of the cursor. */
  ghost predicate Refines(r: Runtime, tl: Timeline) {
    && tl.cursor < |tl.snaps| && tl.snaps[tl.cursor] == Snapshot(r.entries)
    && r.changes.pending == []
    && |r.changes.undo| == tl.cursor && |r.changes.redo| == |tl.snaps| - 1 - tl.cursor
    && (forall i :: 0 <= i < tl.cursor ==> Leads(r.changes.undo[i], tl.snaps[i], tl.snaps[i + 1]))
    && (forall i :: tl.cursor <= i < |tl.snaps| - 1 ==> Leads(RedoAt(r, tl, i), tl.snaps[i], tl.snaps[i + 1]))
  }

  /** The redo stack's top is the step right after the cursor. */
  ghost function RedoAt(r: Runtime, tl: Timeline, i: nat): Change
    requires tl.cursor <= i < |tl.snaps| - 1 && |r.changes.redo| == |tl.snaps| - 1 - tl.cursor
  {
    r.changes.redo[|tl.snaps| - 2 - i]
  }

  /** A set value drops the future and adds a snapshot. */
  function Extended(tl: Timeline, key: string, value: SettingValue): Timeline
    requires tl.cursor < |tl.snaps|
  {
    Timeline(tl.snaps[..tl.cursor + 1] + [tl.snaps[tl.cursor][key := value]], tl.cursor + 1)
  }

  lemma SnapshotWithValue(entries: Entries, key: string, value: SettingValue)
    requires key in entries
    ensures Snapshot(WithValue(entries, key, value)) == Snapshot(entries)[key := value]
  {
  }

  /** What a successful set does to the stacks. */
  lemma SetPushes(r: Runtime, key: string, value: SettingValue)
    requires r.changes.pending == [] && SetValue(r, key, value).1 == Ok(())
    ensures key in r.entries
    ensures SetValue(r, key, value).0.changes ==
            Tracker([], r.changes.undo + [Change(key, r.entries[key].value, value)], [])
  {
    var change := Change(key, r.entries[key].value, value);
    assert Coalesced([], change) == [change];
  }

  lemma SetValueExtends(r: Runtime, tl: Timeline, key: string, value: SettingValue)
    requires Refines(r, tl)
    ensures var (after, result) := SetValue(r, key, value);
            if result == Ok(()) then Refines(after, Extended(tl, key, value)) else after == r
  {
    var (after, result) := SetValue(r, key, value);
    if result == Ok(()) {
      SetPushes(r, key, value);
      SnapshotWithValue(r.entries, key, value);
      var tl' := Extended(tl, key, value);
      assert tl'.snaps[tl'.cursor] == Snapshot(after.entries);
      forall i | 0 <= i < tl'.cursor
        ensures Leads(after.changes.undo[i], tl'.snaps[i], tl'.snaps[i + 1])
      {
        if i < tl.cursor {
          assert Leads(r.changes.undo[i], tl.snaps[i], tl.snaps[i + 1]);
        }
      }
    }
  }

  lemma UndoStepsBack(r: Runtime, tl: Timeline)
    requires Refines(r, tl)
    ensures var (after, result) := Undo(r);
            if tl.cursor > 0 then result == Ok(()) && Refines(after, tl.(cursor := tl.cursor - 1))
            else result == Err(NothingToUndo) && after == r
  {
    if tl.cursor > 0 {
      var (after, _) := Undo(r);
      var back := tl.(cursor := tl.cursor - 1);
      var c := r.changes.undo[tl.cursor - 1];
      assert Leads(c, tl.snaps[tl.cursor - 1], tl.snaps[tl.cursor]);
      assert c.key in tl.snaps[tl.cursor];
      SnapshotWithValue(r.entries, c.key, c.oldValue);
      assert Snapshot(after.entries) == back.snaps[back.cursor];
      forall i | back.cursor <= i < |tl.snaps| - 1
        ensures Leads(RedoAt(after, back, i), tl.snaps[i], tl.snaps[i + 1])
      {
        if i > back.cursor {
          assert Leads(RedoAt(r, tl, i), tl.snaps[i], tl.snaps[i + 1]);
        }
      }
    }
  }

  lemma RedoStepsForward(r: Runtime, tl: Timeline)
    requires Refines(r, tl)
    ensures var (after, result) := Redo(r);
            if tl.cursor < |tl.snaps| - 1 then result == Ok(()) && Refines(after, tl.(cursor := tl.cursor + 1))
            else result == Err(NothingToRedo) && after == r
  {
    if tl.cursor < |tl.snaps| - 1 {
      var (after, _) := Redo(r);
      var ahead := tl.(cursor := tl.cursor + 1);
      var c := RedoAt(r, tl, tl.cursor);
      assert Leads(c, tl.snaps[tl.cursor], tl.snaps[tl.cursor + 1]);
      SnapshotWithValue(r.entries, c.key, c.newValue);
      assert Snapshot(after.entries) == ahead.snaps[ahead.cursor];
      forall i | ahead.cursor <= i < |tl.snaps| - 1
        ensures Leads(RedoAt(after, ahead, i), tl.snaps[i], tl.snaps[i + 1])
      {
        assert Leads(RedoAt(r, tl, i), tl.snaps[i], tl.snaps[i + 1]);
      }
    }
  }

  // ---- Runs ----------------------------------------------------------------

  datatype Op =
    | OpSet(key: string, value: SettingValue)
    | OpReset(key: string)
    | OpUndo
    | OpRedo
    | OpRevert
    | OpConstrain(key: string, constraint: PolicyConstraint)
    | OpRelease(key: string)

  function Step(r: Runtime, op: Op): Runtime {
    match op
    case OpSet(key, value) => SetValue(r, key, value).0
    case OpReset(key) => ResetToDefault(r, key).0
    case OpUndo => Undo(r).0
    case OpRedo => Redo(r).0
    case OpRevert => Revert(r)
    case OpConstrain(key, constraint) => r.(policy := r.policy[key := constraint])
    case OpRelease(key) => r.(policy := r.policy - {key})
  }

  function Run(r: Runtime, ops: seq<Op>): Runtime
    decreases |ops|
  {
    if ops == [] then r else Run(Step(r, ops[0]), ops[1..])
  }

  /** The same step on the timeline; whether a value is accepted is for the runtime to say. */
  function TimelineStep(r: Runtime, tl: Timeline, op: Op): (tl': Timeline)
    requires tl.cursor < |tl.snaps|
    ensures tl'.cursor < |tl'.snaps| && tl'.snaps[0] == tl.snaps[0]
  {
    match op
    case OpSet(key, value) => if SetValue(r, key, value).1 == Ok(()) then Extended(tl, key, value) else tl
    case OpReset(key) =>
      if ResetToDefault(r, key).1 == Ok(()) then Extended(tl, key, r.entries[key].default) else tl
    case OpUndo => if tl.cursor > 0 then tl.(cursor := tl.cursor - 1) else tl
    case OpRedo => if tl.cursor < |tl.snaps| - 1 then tl.(cursor := tl.cursor + 1) else tl
    case OpRevert => tl.(cursor := 0)
    case _ => tl
  }

  function TimelineRun(r: Runtime, tl: Timeline, ops: seq<Op>): (tl': Timeline)
    requires tl.cursor < |tl.snaps|
    ensures tl'.cursor < |tl'.snaps| && tl'.snaps[0] == tl.snaps[0]
    decreases |ops|
  {
    if ops == [] then tl else TimelineRun(Step(r, ops[0]), TimelineStep(r, tl, ops[0]), ops[1..])
  }

  lemma {:induction false} RevertGoesToStart(r: Runtime, tl: Timeline)
    requires Refines(r, tl)
    ensures Snapshot(Revert(r).entries) == tl.snaps[0] && Refines(Revert(r), tl.(cursor := 0))
    decreases tl.cursor
  {
    if tl.cursor > 0 {
      UndoStepsBack(r, tl);
      var (changes, c) := Undone(r.changes);
      var silent := Runtime(WithValue(r.entries, c.value.key, c.value.newValue), changes, r.policy, r.notifications);
      var back := tl.(cursor := tl.cursor - 1);
      assert forall i :: back.cursor <= i < |tl.snaps| - 1 ==> RedoAt(silent, back, i) == RedoAt(Undo(r).0, back, i);
      assert Refines(silent, back);
      RevertGoesToStart(silent, back);
    }
  }

  lemma StepRefines(r: Runtime, tl: Timeline, op: Op)
    requires Refines(r, tl)
    ensures Refines(Step(r, op), TimelineStep(r, tl, op))
  {
    match op
    case OpSet(key, value) => SetValueExtends(r, tl, key, value);
    case OpReset(key) => if key in r.entries { SetValueExtends(r, tl, key, r.entries[key].default); }
    case OpUndo => UndoStepsBack(r, tl);
    case OpRedo => RedoStepsForward(r, tl);
    case OpRevert => RevertGoesToStart(r, tl);
    case _ =>
      var after := Step(r, op);
      assert forall i :: tl.cursor <= i < |tl.snaps| - 1 ==> RedoAt(after, tl, i) == RedoAt(r, tl, i);
  }

  lemma {:induction false} RunRefinesTimeline(r: Runtime, tl: Timeline, ops: seq<Op>)
    requires Refines(r, tl)
    ensures Refines(Run(r, ops), TimelineRun(r, tl, ops))
    decreases |ops|
  {
    if ops != [] {
      StepRefines(r, tl, ops[0]);
      RunRefinesTimeline(Step(r, ops[0]), TimelineStep(r, tl, ops[0]), ops[1..]);
    }
  }

  /** A runtime whose tracker is empty stands at the start of a timeline of one snapshot. */
  lemma FreshRefines(r: Runtime)
    requires r.changes == Tracker([], [], [])
    ensures Refines(r, Timeline([Snapshot(r.entries)], 0))
  {
  }

  /** After any run `revert_changes` restores the values that the run started from. */
  lemma RevertRestoresInitial(r: Runtime, ops: seq<Op>)
    requires r.changes == Tracker([], [], [])
    ensures Snapshot(Revert(Run(r, ops)).entries) == Snapshot(r.entries)
  {
    FreshRefines(r);
    var tl := Timeline([Snapshot(r.entries)], 0);
    RunRefinesTimeline(r, tl, ops);
    RevertGoesToStart(Run(r, ops), TimelineRun(r, tl, ops));
  }

  // ---- Validity ------------------------------------------------------------

  ghost predicate SameKinds(a: Entries, b: Entries) {
    a.Keys == b.Keys && forall key :: key in a ==> a[key].kind == b[key].kind && a[key].default == b[key].default
  }

  /** Every value of a snapshot passes validation for its entry. */
  ghost predicate ValidSnapshot(entries: Entries, snap: Values) {
    snap.Keys == entries.Keys && forall key :: key in snap ==> Accepts(entries[key].kind, snap[key])
  }

  ghost predicate ValidTimeline(entries: Entries, tl: Timeline) {
    forall i :: 0 <= i < |tl.snaps| ==> ValidSnapshot(entries, tl.snaps[i])
  }

  lemma WithValueKeepsKinds(entries: Entries, key: string, value: SettingValue)
    ensures SameKinds(entries, WithValue(entries, key, value))
  {
  }

  lemma StepKeepsKinds(r: Runtime, op: Op)
    ensures SameKinds(r.entries, Step(r, op).entries)
  {
    match op
    case OpSet(key, value) => WithValueKeepsKinds(r.entries, key, value);
    case OpReset(key) => if key in r.entries { WithValueKeepsKinds(r.entries, key, r.entries[key].default); }
    case OpUndo =>
      if r.changes.undo != [] {
        var c := Undone(r.changes).1.value;
        WithValueKeepsKinds(r.entries, c.key, c.newValue);
      }
    case OpRedo =>
      if r.changes.redo != [] {
        var c := Redone(r.changes).1.value;
        WithValueKeepsKinds(r.entries, c.key, c.newValue);
      }
    case OpRevert => RevertKeepsKinds(r);
    case _ =>
  }

  /** The value that reverting leaves at `key`: the one that the oldest change of it replaced. */
  function Oldest(undo: seq<Change>, key: string, value: SettingValue): SettingValue {
    var pos := PositionOf(undo, key);
    if pos.Some? then undo[pos.value].oldValue else value
  }

  /** `Revert` after its first step. */
  function Popped(r: Runtime): Runtime
    requires r.changes.undo != []
  {
    var c := r.changes.undo[|r.changes.undo| - 1];
    Runtime(WithValue(r.entries, c.key, c.oldValue), Undone(r.changes).0, r.policy, r.notifications)
  }

  lemma PopThenRevert(r: Runtime)
    requires r.changes.undo != []
    ensures Popped(r).changes.undo == r.changes.undo[..|r.changes.undo| - 1]
    ensures Revert(r) == Revert(Popped(r))
  {
  }

  lemma {:induction false} RevertKeepsKinds(r: Runtime)
    ensures SameKinds(r.entries, Revert(r).entries)
    decreases |r.changes.undo|
  {
    if r.changes.undo != [] {
      PopThenRevert(r);
      RevertKeepsKinds(Popped(r));
    }
  }

  lemma {:induction false} RevertWritesOldest(r: Runtime, key: string)
    requires key in r.entries
    ensures key in Revert(r).entries
    ensures Revert(r).entries[key] == r.entries[key].(value := Oldest(r.changes.undo, key, r.entries[key].value))
    decreases |r.changes.undo|
  {
    if r.changes.undo != [] {
      PopThenRevert(r);
      RevertWritesOldest(Popped(r), key);
      OldestOfFront(r.changes.undo, key, r.entries[key].value);
    }
  }

  lemma OldestOfFront(undo: seq<Change>, key: string, value: SettingValue)
    requires undo != []
    ensures var c := undo[|undo| - 1];
            Oldest(undo[..|undo| - 1], key, if c.key == key then c.oldValue else value) == Oldest(undo, key, value)
  {
    var front := undo[..|undo| - 1];
    var pos, whole := PositionOf(front, key), PositionOf(undo, key);
    assert forall j :: 0 <= j < |front| ==> front[j] == undo[j];
    if pos.Some? {
      assert undo[pos.value].key == key;
    } else if undo[|undo| - 1].key == key {
      assert whole == Some(|front|);
    }
  }

  lemma ExtendedIsValid(entries: Entries, tl: Timeline, key: string, value: SettingValue)
    requires tl.cursor < |tl.snaps| && ValidTimeline(entries, tl)
    requires key in entries && Accepts(entries[key].kind, value)
    ensures ValidTimeline(entries, Extended(tl, key, value))
  {
    var tl' := Extended(tl, key, value);
    assert ValidSnapshot(entries, tl.snaps[tl.cursor]);
    assert ValidSnapshot(entries, tl.snaps[tl.cursor][key := value]);
    forall i | 0 <= i < |tl'.snaps|
      ensures ValidSnapshot(entries, tl'.snaps[i])
    {
      if i <= tl.cursor {
        assert ValidSnapshot(entries, tl.snaps[i]);
      }
    }
  }

  lemma KindsDecideValidity(a: Entries, b: Entries, tl: Timeline)
    requires SameKinds(a, b) && ValidTimeline(a, tl)
    ensures ValidTimeline(b, tl)
  {
    forall i | 0 <= i < |tl.snaps|
      ensures ValidSnapshot(b, tl.snaps[i])
    {
      assert ValidSnapshot(a, tl.snaps[i]);
    }
  }

  lemma StepKeepsValid(r: Runtime, tl: Timeline, op: Op)
    requires tl.cursor < |tl.snaps| && ValidTimeline(r.entries, tl)
    ensures SameKinds(r.entries, Step(r, op).entries)
    ensures ValidTimeline(Step(r, op).entries, TimelineStep(r, tl, op))
  {
    StepKeepsKinds(r, op);
    if op.OpSet? && SetValue(r, op.key, op.value).1 == Ok(()) {
      ExtendedIsValid(r.entries, tl, op.key, op.value);
    } else if op.OpReset? && ResetToDefault(r, op.key).1 == Ok(()) {
      ExtendedIsValid(r.entries, tl, op.key, r.entries[op.key].default);
    }
    KindsDecideValidity(r.entries, Step(r, op).entries, TimelineStep(r, tl, op));
  }

  /** If the initial values pass validation, so does every value that any run stores or can undo or redo to. */
  lemma {:induction false} RunKeepsValid(r: Runtime, tl: Timeline, ops: seq<Op>)
    requires Refines(r, tl) && ValidTimeline(r.entries, tl)
    ensures SameKinds(r.entries, Run(r, ops).entries)
    ensures ValidTimeline(Run(r, ops).entries, TimelineRun(r, tl, ops))
    ensures ValidSnapshot(r.entries, Snapshot(Run(r, ops).entries))
    decreases |ops|
  {
    if ops == [] {
      assert ValidSnapshot(r.entries, tl.snaps[tl.cursor]);
    } else {
      var r', tl' := Step(r, ops[0]), TimelineStep(r, tl, ops[0]);
      StepRefines(r, tl, ops[0]);
      StepKeepsValid(r, tl, ops[0]);
      RunKeepsValid(r', tl', ops[1..]);
    }
  }

  // ---- Notifications -------------------------------------------------------

  function Heard(values: Values, notes: seq<(string, SettingValue)>): Values {
    if notes == [] then values
    else Heard(values, notes[..|notes| - 1])[notes[|notes| - 1].0 := notes[|notes| - 1].1]
  }

  /** A listener that has applied the notifications to `heard` holds the current values. */
  ghost predicate InStep(heard: Values, r: Runtime) {
    Heard(heard, r.notifications) == Snapshot(r.entries)
  }

  lemma {:induction false} RevertIsSilent(r: Runtime)
    ensures Revert(r).notifications == r.notifications
    decreases |r.changes.undo|
  {
    if r.changes.undo != [] {
      var (changes, c) := Undone(r.changes);
      RevertIsSilent(Runtime(WithValue(r.entries, c.value.key, c.value.newValue), changes, r.policy, r.notifications));
    }
  }

  /** `revert_changes` announces nothing: a listener stays in step exactly when there was nothing to take back. */
  lemma RevertKeepsInStepIff(heard: Values, r: Runtime, tl: Timeline)
    requires Refines(r, tl) && InStep(heard, r)
    ensures InStep(heard, Revert(r)) <==> tl.snaps[tl.cursor] == tl.snaps[0]
  {
    RevertIsSilent(r);
    RevertGoesToStart(r, tl);
  }

  /** One more announced value is heard. */
  lemma HeardNext(heard: Values, r: Runtime, key: string, value: SettingValue)
    requires InStep(heard, r) && key in r.entries
    ensures Heard(heard, r.notifications + [(key, value)]) == Snapshot(WithValue(r.entries, key, value))
  {
    SnapshotWithValue(r.entries, key, value);
    assert (r.notifications + [(key, value)])[..|r.notifications|] == r.notifications;
  }

  /** Of all steps only a revert that changes something leaves a listener behind. */
  lemma StepKeepsInStepIff(heard: Values, r: Runtime, tl: Timeline, op: Op)
    requires Refines(r, tl) && InStep(heard, r)
    ensures InStep(heard, Step(r, op)) <==> (op.OpRevert? ==> tl.snaps[tl.cursor] == tl.snaps[0])
  {
    match op
    case OpSet(key, value) =>
      if SetValue(r, key, value).1 == Ok(()) {
        HeardNext(heard, r, key, value);
      }
    case OpReset(key) =>
      if ResetToDefault(r, key).1 == Ok(()) {
        HeardNext(heard, r, key, r.entries[key].default);
      }
    case OpUndo =>
      if tl.cursor > 0 {
        var c := Undone(r.changes).1.value;
        assert Leads(r.changes.undo[tl.cursor - 1], tl.snaps[tl.cursor - 1], tl.snaps[tl.cursor]);
        assert c.key in tl.snaps[tl.cursor];
        HeardNext(heard, r, c.key, c.newValue);
      }
    case OpRedo =>
      if tl.cursor < |tl.snaps| - 1 {
        var c := Redone(r.changes).1.value;
        assert Leads(RedoAt(r, tl, tl.cursor), tl.snaps[tl.cursor], tl.snaps[tl.cursor + 1]);
        HeardNext(heard, r, c.key, c.newValue);
      }
    case OpRevert => RevertKeepsInStepIff(heard, r, tl);
    case _ =>
  }

  /** The listener is in step before, between and after the steps of a run. */
  ghost predicate InStepThroughout(heard: Values, r: Runtime, ops: seq<Op>)
    decreases |ops|
  {
    InStep(heard, r) && (ops != [] ==> InStepThroughout(heard, Step(r, ops[0]), ops[1..]))
  }

  /** Every revert of the run finds the initial values. */
  ghost predicate RevertsIdly(r: Runtime, tl: Timeline, ops: seq<Op>)
    requires tl.cursor < |tl.snaps|
    decreases |ops|
  {
    ops != [] ==>
      && (ops[0].OpRevert? ==> tl.snaps[tl.cursor] == tl.snaps[0])
      && RevertsIdly(Step(r, ops[0]), TimelineStep(r, tl, ops[0]), ops[1..])
  }

  /** Over any run a listener stays in step with the settings exactly when every revert had nothing to take back. */
  lemma {:induction false} RunKeepsInStepIff(heard: Values, r: Runtime, tl: Timeline, ops: seq<Op>)
    requires Refines(r, tl) && InStep(heard, r)
    ensures InStepThroughout(heard, r, ops) <==> RevertsIdly(r, tl, ops)
    ensures InStepThroughout(heard, r, ops) ==> InStep(heard, Run(r, ops))
    decreases |ops|
  {
    if ops != [] {
      StepRefines(r, tl, ops[0]);
      StepKeepsInStepIff(heard, r, tl, ops[0]);
      if InStep(heard, Step(r, ops[0])) {
        RunKeepsInStepIff(heard, Step(r, ops[0]), TimelineStep(r, tl, ops[0]), ops[1..]);
      }
    }
  }

  // ---- Reset ---------------------------------------------------------------

  /** Resetting a choice made by its constructor works exactly when the empty text is one of its options. */
  lemma ChoiceResetsIff(r: Runtime, key: string, options: seq<string>, initial: string)
    requires key !in r.policy && key in r.entries
    requires r.entries[key].kind == NewChoice(key, options, initial).kind
    requires r.entries[key].default == NewChoice(key, options, initial).default
    ensures ResetToDefault(r, key).1 == Ok(()) <==> "" in options
  {
  }

  // ---- Policy --------------------------------------------------------------

  /** The step has nothing to write to the entry of `key`, or writes what is there. */
  predicate Spares(r: Runtime, op: Op, key: string)
    requires key in r.entries
  {
    var value, undo, redo := r.entries[key].value, r.changes.undo, r.changes.redo;
    match op
    case OpUndo => undo == [] || undo[|undo| - 1].key != key || undo[|undo| - 1].oldValue == value
    case OpRedo => redo == [] || redo[|redo| - 1].key != key || redo[|redo| - 1].newValue == value
    case OpRevert => Oldest(undo, key, value) == value
    case _ => true
  }

  lemma WriteSpares(entries: Entries, written: string, value: SettingValue, key: string)
    requires key in entries
    ensures key in WithValue(entries, written, value)
    ensures WithValue(entries, written, value)[key] == entries[key] <==> written != key || entries[key].value == value
  {
  }

  /** Edits and resets respect a constraint; undo, redo and revert ask no policy and respect it only by chance. */
  lemma StepRespectsPolicyIff(r: Runtime, op: Op, key: string)
    requires key in r.policy && key in r.entries
    ensures key in Step(r, op).entries
    ensures Step(r, op).entries[key] == r.entries[key] <==> Spares(r, op, key)
  {
    match op
    case OpSet(k, value) =>
      if k != key && SetValue(r, k, value).1 == Ok(()) { WriteSpares(r.entries, k, value, key); }
    case OpReset(k) =>
      if k != key && k in r.entries { WriteSpares(r.entries, k, r.entries[k].default, key); }
    case OpUndo =>
      if r.changes.undo != [] {
        var c := Undone(r.changes).1.value;
        WriteSpares(r.entries, c.key, c.newValue, key);
      }
    case OpRedo =>
      if r.changes.redo != [] {
        var c := Redone(r.changes).1.value;
        WriteSpares(r.entries, c.key, c.newValue, key);
      }
    case OpRevert => RevertWritesOldest(r, key);
    case _ =>
  }

  /** Set, constrain, undo: the constrained entry goes back to the value before it was set. */
  lemma UndoIgnoresPolicy(r: Runtime, key: string, value: SettingValue, constraint: PolicyConstraint)
    requires r.changes.pending == [] && SetValue(r, key, value).1 == Ok(()) && r.entries[key].value != value
    ensures var constrained := Step(Step(r, OpSet(key, value)), OpConstrain(key, constraint));
            var undone := Step(constrained, OpUndo);
            && key in constrained.policy && key in constrained.entries && key in undone.entries
            && constrained.entries[key].value == value
            && undone.entries[key].value == r.entries[key].value != value
  {
    SetPushes(r, key, value);
    var constrained := Step(Step(r, OpSet(key, value)), OpConstrain(key, constraint));
    assert Undone(constrained.changes).1 == Ok(Change(key, value, r.entries[key].value));
  }
}

/** The runtime as the object that its methods update. */
module SettingsRuntimes {
  import opened Wrappers
  import opened SettingEntries
  import opened ChangeTracking
  import opened M = SettingsModel

  class SettingsRuntime {
    var entries: Entries
    const changes: ChangeTracker
    var policy: map<string, PolicyConstraint>
    var notifications: seq<(string, SettingValue)>

    function Model(): Runtime
      reads this, changes
    {
      Runtime(entries, changes.Model(), policy, notifications)
    }

    constructor (initial: Entries)
      ensures Model() == Runtime(initial, Tracker([], [], []), map[], []) && fresh(changes)
    {
      entries := initial;
      changes := new ChangeTracker();
      policy := map[];
      notifications := [];
    }

    method SetValue(key: string, value: SettingValue) returns (r: Result<(), SettingsError>)
      modifies this, changes
      ensures (Model(), r) == M.SetValue(old(Model()), key, value)
    {
      if key in policy {
        return Err(LockedByPolicy(key));
      }
      if key !in entries {
        return Err(UnknownSetting(key));
      }
      var entry := entries[key];
      var valid := Validate(entry, value);
      if valid.Err? {
        return valid;
      }
      changes.Record(Change(key, entry.value, value));
      var _ := changes.Apply();
      if key in entries {
        entries := entries[key := entries[key].(value := value)];
      }
      notifications := notifications + [(key, value)];
      return Ok(());
    }

    method ResetToDefault(key: string) returns (r: Result<(), SettingsError>)
      modifies this, changes
      ensures (Model(), r) == M.ResetToDefault(old(Model()), key)
    {
      if key !in entries {
        return Err(UnknownSetting(key));
      }
      r := SetValue(key, entries[key].default);
    }

    method Undo() returns (r: Result<(), SettingsError>)
      modifies this, changes
      ensures (Model(), r) == M.Undo(old(Model()))
    {
      var reversed := changes.Undo();
      if reversed.Err? {
        return Err(reversed.error);
      }
      var c := reversed.value;
      if c.key in entries {
        entries := entries[c.key := entries[c.key].(value := c.newValue)];
      }
      notifications := notifications + [(c.key, c.newValue)];
      return Ok(());
    }

    method Redo() returns (r: Result<(), SettingsError>)
      modifies this, changes
      ensures (Model(), r) == M.Redo(old(Model()))
    {
      var reapplied := changes.Redo();
      if reapplied.Err? {
        return Err(reapplied.error);
      }
      var c := reapplied.value;
      if c.key in entries {
        entries := entries[c.key := entries[c.key].(value := c.newValue)];
      }
      notifications := notifications + [(c.key, c.newValue)];
      return Ok(());
    }

    method RevertChanges()
      modifies this, changes
      ensures Model() == M.Revert(old(Model()))
    {
      while |changes.undoStack| > 0
        invariant M.Revert(Model()) == M.Revert(old(Model()))
        decreases |changes.undoStack|
      {
        var reversed := changes.Undo();
        if reversed.Ok? {
          var c := reversed.value;
          if c.key in entries {
            entries := entries[c.key := entries[c.key].(value := c.newValue)];
          }
        } else {
          break;
        }
      }
    }
  }
}
