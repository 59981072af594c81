/** Setting entries and the validation of their values. */
module SettingEntries {
  import opened Wrappers

  datatype SettingKind =
    | Toggle
    | Slider(min: real, max: real, step: real)
    | Choice(options: seq<string>)
    | FreeText(maxLength: nat)
    | Color
    | KeyBind
    | Percentage

  datatype SettingValue = Bool(b: bool) | Number(n: real) | Text(t: string)

  datatype SettingEntry = SettingEntry(key: string, kind: SettingKind, value: SettingValue, default: SettingValue)

  datatype SettingsError =
    | LockedByPolicy(key: string)
    | UnknownSetting(key: string)
    | InvalidValue(key: string)
    | NothingToUndo
    | NothingToRedo

  /** The number of bytes of a string in UTF-8, which is what its length counts. */
  function ByteLength(s: string): (n: nat)
    ensures |s| <= n
  {
    if s == [] then 0
    else
      var c := s[0] as int;
      (if c < 0x80 then 1 else if c < 0x800 then 2 else if c < 0x1_0000 then 3 else 4) + ByteLength(s[1..])
  }

  predicate IsHexDigit(c: char) {
    '0' <= c <= '9' || 'a' <= c <= 'f' || 'A' <= c <= 'F'
  }

  predicate Accepts(kind: SettingKind, value: SettingValue) {
    match (kind, value)
    case (Toggle, Bool(_)) => true
    case (Slider(min, max, _), Number(n)) => !(n < min || n > max)
    case (Choice(options), Text(t)) => t in options
    case (FreeText(maxLength), Text(t)) => !(ByteLength(t) > maxLength)
    case (Color, Text(t)) =>
      t != [] && t[0] == '#' && ByteLength(t) == 7 && forall k :: 1 <= k < |t| ==> IsHexDigit(t[k])
    case (Percentage, Number(n)) => !(n < 0.0 || n > 100.0)
    case (KeyBind, Text(_)) => true
    case _ => false
  }

  function Validate(entry: SettingEntry, value: SettingValue): Result<(), SettingsError> {
    if Accepts(entry.kind, value) then Ok(()) else Err(InvalidValue(entry.key))
  }

  /** A colour is `#` and six hex digits, although only its bytes are counted. */
  lemma ColorsHaveSixDigits(value: SettingValue)
    ensures Accepts(Color, value) <==>
              value.Text? && |value.t| == 7 && value.t[0] == '#' && forall k :: 1 <= k < 7 ==> IsHexDigit(value.t[k])
  {
    if value.Text? && value.t != [] && value.t[0] == '#' && forall k :: 1 <= k < |value.t| ==> IsHexDigit(value.t[k]) {
      AsciiLength(value.t);
    }
  }

  lemma {:induction false} AsciiLength(s: string)
    requires forall k :: 0 <= k < |s| ==> s[k] as int < 0x80
    ensures ByteLength(s) == |s|
  {
    if s != [] {
      AsciiLength(s[1..]);
    }
  }

  /** The constructor of a choice stores the empty text as its default. */
  function NewChoice(key: string, options: seq<string>, initial: string): SettingEntry {
    SettingEntry(key, Choice(options), Text(initial), Text(""))
  }
}

/** The change tracker: pending changes coalesced by key, and an undo and a redo stack. */
module ChangeTracking {
  import opened Wrappers
  import opened SettingEntries

  datatype Change = Change(key: string, oldValue: SettingValue, newValue: SettingValue)

  datatype Tracker = Tracker(pending: seq<Change>, undo: seq<Change>, redo: seq<Change>)

  type Values = map<string, SettingValue>

  /** The first pending change of `key`. */
  function PositionOf(pending: seq<Change>, key: string): (r: Option<nat>)
    ensures r == None <==> forall k :: 0 <= k < |pending| ==> pending[k].key != key
    ensures r.Some? ==> r.value < |pending| && pending[r.value].key == key
                        && forall k :: 0 <= k < r.value ==> pending[k].key != key
  {
    if pending == [] then None
    else if pending[0].key == key then Some(0)
    else match PositionOf(pending[1..], key) case None => None case Some(k) => Some(k + 1)
  }

  function Coalesced(pending: seq<Change>, change: Change): seq<Change> {
    var pos := PositionOf(pending, change.key);
    if pos.Some? then pending[pos.value := pending[pos.value].(newValue := change.newValue)] else pending + [change]
  }

  function Recorded(t: Tracker, change: Change): Tracker {
    Tracker(Coalesced(t.pending, change), t.undo, [])
  }

  function Applied(t: Tracker): Tracker {
    Tracker([], t.undo + t.pending, t.redo)
  }

  function Reversed(c: Change): Change {
    Change(c.key, c.newValue, c.oldValue)
  }

  function Undone(t: Tracker): (Tracker, Result<Change, SettingsError>) {
    if t.undo == [] then (t, Err(NothingToUndo))
    else
      var c := t.undo[|t.undo| - 1];
      (Tracker(t.pending, t.undo[..|t.undo| - 1], t.redo + [c]), Ok(Reversed(c)))
  }

  function Redone(t: Tracker): (Tracker, Result<Change, SettingsError>) {
    if t.redo == [] then (t, Err(NothingToRedo))
    else
      var c := t.redo[|t.redo| - 1];
      (Tracker(t.pending, t.undo + [c], t.redo[..|t.redo| - 1]), Ok(c))
  }

  // ---- Coalescing ----------------------------------------------------------

  /** The pending list after a whole log of records. */
  function Coalesce(log: seq<Change>): seq<Change> {
    if log == [] then [] else Coalesced(Coalesce(log[..|log| - 1]), log[|log| - 1])
  }

  function Replay(values: Values, log: seq<Change>): Values {
    if log == [] then values
    else Replay(values, log[..|log| - 1])[log[|log| - 1].key := log[|log| - 1].newValue]
  }

  ghost predicate DistinctKeys(pending: seq<Change>) {
    forall i, j :: 0 <= i < j < |pending| ==> pending[i].key != pending[j].key
  }

  /** `c` holds the first old value and the last new value that `log` records for its key. */
  ghost predicate Spans(log: seq<Change>, c: Change) {
    && (exists i :: FirstOf(log, c.key, i) && log[i].oldValue == c.oldValue)
    && (exists j :: LastOf(log, c.key, j) && log[j].newValue == c.newValue)
  }

  ghost predicate FirstOf(log: seq<Change>, key: string, i: int) {
    0 <= i < |log| && log[i].key == key && forall k :: 0 <= k < i ==> log[k].key != key
  }

  ghost predicate LastOf(log: seq<Change>, key: string, j: int) {
    0 <= j < |log| && log[j].key == key && forall k :: j < k < |log| ==> log[k].key != key
  }

  ghost predicate Mentions(log: seq<Change>, key: string) {
    exists k :: 0 <= k < |log| && log[k].key == key
  }

  lemma {:induction false} CoalesceMentions(log: seq<Change>, key: string)
    ensures DistinctKeys(Coalesce(log))
    ensures Mentions(Coalesce(log), key) <==> Mentions(log, key)
  {
    if log != [] {
      var front, c := log[..|log| - 1], log[|log| - 1];
      CoalesceMentions(front, key);
      var before, after := Coalesce(front), Coalesce(log);
      var pos := PositionOf(before, c.key);
      assert after[if pos.Some? then pos.value else |before|].key == c.key;
      assert forall k :: 0 <= k < |before| ==> after[k].key == before[k].key;
      assert forall k :: 0 <= k < |front| ==> log[k] == front[k];
      assert Mentions(log, key) <==> Mentions(front, key) || c.key == key;
    }
  }

  lemma {:induction false} CoalesceSpans(log: seq<Change>, k: nat)
    requires k < |Coalesce(log)|
    ensures Spans(log, Coalesce(log)[k])
  {
    var front, c := log[..|log| - 1], log[|log| - 1];
    var before, after := Coalesce(front), Coalesce(log);
    assert front + [c] == log;
    if k < |before| {
      CoalesceSpans(front, k);
    }
    if after[k].key != c.key {
      var d := after[k];
      var i :| FirstOf(front, d.key, i) && front[i].oldValue == d.oldValue;
      var j :| LastOf(front, d.key, j) && front[j].newValue == d.newValue;
      SpansExtends(front, c, d, i, j);
    } else if k < |before| {
      CoalesceMentions(front, c.key);
      var i :| FirstOf(front, c.key, i) && front[i].oldValue == before[k].oldValue;
      SpansOverwritten(front, c, before[k], i);
    } else {
      CoalesceMentions(front, c.key);
      assert !Mentions(front, c.key);
      assert FirstOf(log, c.key, |front|) && LastOf(log, c.key, |front|);
    }
  }

  lemma SpansOverwritten(front: seq<Change>, c: Change, d: Change, i: nat)
    requires FirstOf(front, d.key, i) && front[i].oldValue == d.oldValue && d.key == c.key
    ensures Spans(front + [c], d.(newValue := c.newValue))
  {
    assert FirstOf(front + [c], d.key, i) && LastOf(front + [c], d.key, |front|);
  }

  lemma SpansExtends(front: seq<Change>, c: Change, d: Change, i: nat, j: nat)
    requires FirstOf(front, d.key, i) && front[i].oldValue == d.oldValue
    requires LastOf(front, d.key, j) && front[j].newValue == d.newValue && d.key != c.key
    ensures Spans(front + [c], d)
  {
    assert FirstOf(front + [c], d.key, i) && LastOf(front + [c], d.key, j);
  }

  lemma {:induction false} ReplayOverwritten(values: Values, pending: seq<Change>, k: nat, v: SettingValue)
    requires DistinctKeys(pending) && k < |pending|
    ensures Replay(values, pending[k := pending[k].(newValue := v)]) == Replay(values, pending)[pending[k].key := v]
    decreases |pending|
  {
    var n := |pending| - 1;
    var updated := pending[k := pending[k].(newValue := v)];
    if k == n {
      assert updated[..n] == pending[..n];
    } else {
      ReplayOverwritten(values, pending[..n], k, v);
      assert updated[..n] == pending[..n][k := pending[..n][k].(newValue := v)];
      assert pending[k].key != pending[n].key;
    }
  }

  /** Replaying the coalesced list does what replaying every recorded change in order does. */
  lemma {:induction false} CoalesceKeepsMeaning(values: Values, log: seq<Change>)
    ensures Replay(values, Coalesce(log)) == Replay(values, log)
  {
    if log != [] {
      var front, c := log[..|log| - 1], log[|log| - 1];
      CoalesceKeepsMeaning(values, front);
      CoalesceMentions(front, c.key);
      var pos := PositionOf(Coalesce(front), c.key);
      if pos.Some? {
        ReplayOverwritten(values, Coalesce(front), pos.value, c.newValue);
      } else {
        assert (Coalesce(front) + [c])[..|Coalesce(front)|] == Coalesce(front);
      }
    }
  }

  // ---- Undoing a batch -----------------------------------------------------

  /** Each change records the value that it replaces. */
  ghost predicate Consistent(values: Values, log: seq<Change>) {
    forall k :: 0 <= k < |log| ==> Replaces(Replay(values, log[..k]), log[k])
  }

  ghost predicate Replaces(values: Values, c: Change) {
    c.key in values && values[c.key] == c.oldValue
  }

  /** `n` times undo, each reversal written to the values. */
  function UndoTimes(t: Tracker, values: Values, n: nat): (Tracker, Values)
    decreases n
  {
    if n == 0 then (t, values)
    else
      var (t', r) := Undone(t);
      if r.Err? then (t, values) else UndoTimes(t', values[r.value.key := r.value.newValue], n - 1)
  }

  lemma ReplayFront(values: Values, log: seq<Change>)
    requires log != [] && Replaces(Replay(values, log[..|log| - 1]), log[|log| - 1])
    ensures var c := log[|log| - 1];
            Replay(values, log)[c.key := c.oldValue] == Replay(values, log[..|log| - 1])
  {
  }

  /** Undoing as many changes as a batch has takes the values back to before the batch, whatever lay below it. */
  lemma {:induction false} UndoRestoresBatch(t: Tracker, base: seq<Change>, batch: seq<Change>, values: Values)
    requires t.undo == base + batch && Consistent(values, batch)
    ensures UndoTimes(t, Replay(values, batch), |batch|).1 == values
    ensures UndoTimes(t, Replay(values, batch), |batch|).0.undo == base
    decreases |batch|
  {
    if batch == [] {
      assert base + batch == base;
    } else {
      var front, c := batch[..|batch| - 1], batch[|batch| - 1];
      assert t.undo[..|t.undo| - 1] == base + front;
      assert Replaces(Replay(values, batch[..|batch| - 1]), c);
      ReplayFront(values, batch);
      assert Consistent(values, front) by {
        forall k | 0 <= k < |front|
          ensures Replaces(Replay(values, front[..k]), front[k])
        {
          assert front[..k] == batch[..k];
          assert Replaces(Replay(values, batch[..k]), batch[k]);
        }
      }
      UndoRestoresBatch(Undone(t).0, base, front, values);
    }
  }

  lemma {:induction false} ReplayAt(values: Values, log: seq<Change>, key: string)
    requires key in values
    ensures key in Replay(values, log)
    ensures (forall k :: 0 <= k < |log| ==> log[k].key != key) ==> Replay(values, log)[key] == values[key]
  {
    if log != [] {
      ReplayAt(values, log[..|log| - 1], key);
    }
  }

  /** A consistent log coalesces to a consistent batch: its first old values are those of the start. */
  lemma CoalesceIsConsistent(values: Values, log: seq<Change>)
    requires Consistent(values, log)
    ensures Consistent(values, Coalesce(log))
  {
    var batch := Coalesce(log);
    CoalesceMentions(log, "");
    forall k | 0 <= k < |batch|
      ensures Replaces(Replay(values, batch[..k]), batch[k])
    {
      CoalesceSpans(log, k);
      var i :| FirstOf(log, batch[k].key, i) && log[i].oldValue == batch[k].oldValue;
      FirstOldValue(values, log, batch[k], i);
      assert forall j :: 0 <= j < k ==> batch[..k][j].key != batch[k].key;
      ReplayAt(values, batch[..k], batch[k].key);
    }
  }

  lemma FirstOldValue(values: Values, log: seq<Change>, c: Change, i: nat)
    requires Consistent(values, log) && FirstOf(log, c.key, i) && log[i].oldValue == c.oldValue
    ensures Replaces(values, c)
  {
    assert Replaces(Replay(values, log[..i]), log[i]);
    KeyOfReplay(values, log[..i], c.key);
    ReplayAt(values, log[..i], c.key);
  }

  /** A key that no change of the log writes was there before. */
  lemma {:induction false} KeyOfReplay(values: Values, log: seq<Change>, key: string)
    requires key in Replay(values, log) && forall k :: 0 <= k < |log| ==> log[k].key != key
    ensures key in values
  {
    if log != [] {
      KeyOfReplay(values, log[..|log| - 1], key);
    }
  }

  /** Recording a log, applying it and undoing every applied change restores the values from before the log. */
  lemma ApplyThenUndoRestores(t: Tracker, log: seq<Change>, values: Values)
    requires t.pending == Coalesce(log) && Consistent(values, log)
    ensures var (after, restored) := UndoTimes(Applied(t), Replay(values, log), |t.pending|);
            restored == values && after.undo == t.undo
  {
    CoalesceIsConsistent(values, log);
    CoalesceKeepsMeaning(values, log);
    UndoRestoresBatch(Applied(t), t.undo, t.pending, values);
  }

  // ---- The object ----------------------------------------------------------

  class ChangeTracker {
    var pending: seq<Change>
    var undoStack: seq<Change>
    var redoStack: seq<Change>

    function Model(): Tracker
      reads this
    {
      Tracker(pending, undoStack, redoStack)
    }

    constructor ()
      ensures Model() == Tracker([], [], [])
    {
      pending, undoStack, redoStack := [], [], [];
    }

    method Record(change: Change)
      modifies this
      ensures Model() == Recorded(old(Model()), change)
    {
      var existing := PositionOf(pending, change.key);
      if existing.Some? {
        var k := existing.value;
        pending := pending[k := pending[k].(newValue := change.newValue)];
      } else {
        pending := pending + [change];
      }
      redoStack := [];
    }

    method Apply() returns (applied: seq<Change>)
      modifies this
      ensures Model() == Applied(old(Model())) && applied == old(pending)
    {
      applied := pending;
      pending := [];
      undoStack := undoStack + applied;
    }

    method Undo() returns (r: Result<Change, SettingsError>)
      modifies this
      ensures (Model(), r) == Undone(old(Model()))
    {
      if |undoStack| == 0 {
        return Err(NothingToUndo);
      }
      var change := undoStack[|undoStack| - 1];
      undoStack := undoStack[..|undoStack| - 1];
      redoStack := redoStack + [change];
      return Ok(Reversed(change));
    }

    method Redo() returns (r: Result<Change, SettingsError>)
      modifies this
      ensures (Model(), r) == Redone(old(Model()))
    {
      if |redoStack| == 0 {
        return Err(NothingToRedo);
      }
      var change := redoStack[|redoStack| - 1];
      redoStack := redoStack[..|redoStack| - 1];
      undoStack := undoStack + [change];
      return Ok(change);
    }
  }
}
