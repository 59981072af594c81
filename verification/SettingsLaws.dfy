/** Which values a setting takes, when an edit goes through, and what locks a setting. */
module SettingsLaws {
  import opened Wrappers
  import opened SettingEntries
  import opened ChangeTracking
  import opened SettingsModel
  import TextLaws

  // ---- Values --------------------------------------------------------------

  /** The code points of a string. */
  function CodePoints(s: string): (r: seq<nat>)
    ensures |r| == |s| && TextLaws.AreScalars(r)
  {
    if s == [] then [] else [s[0] as nat] + CodePoints(s[1..])
  }

  /** The length of a string is that of its UTF-8 encoding. */
  lemma {:induction false} LengthIsEncoded(s: string)
    ensures ByteLength(s) == |TextLaws.EncodeAll(CodePoints(s))|
  {
    if s != [] {
      LengthIsEncoded(s[1..]);
      assert CodePoints(s)[1..] == CodePoints(s[1..]);
    }
  }

  const HEX_DIGITS: string := "0123456789abcdefABCDEF"

  lemma HexDigits(c: char)
    ensures IsHexDigit(c) <==> c in HEX_DIGITS
  {
    if IsHexDigit(c) {
      var k := if c <= '9' then c as int - '0' as int
               else if c <= 'F' then c as int - 'A' as int + 16 else c as int - 'a' as int + 10;
      assert HEX_DIGITS[k] == c;
    }
  }

  /** The values that each kind of setting takes; lengths are of the UTF-8 encoding. */
  lemma AcceptsIff(kind: SettingKind, value: SettingValue)
    ensures Accepts(kind, value) <==>
              match kind
              case Toggle => value.Bool?
              case Slider(min, max, _) => value.Number? && min <= value.n <= max
              case Choice(options) => value.Text? && exists k :: 0 <= k < |options| && options[k] == value.t
              case FreeText(maxLength) =>
                value.Text? && |TextLaws.EncodeAll(CodePoints(value.t))| <= maxLength
              case Color =>
                && value.Text? && |value.t| == 7 && value.t[0] == '#'
                && forall k :: 1 <= k < 7 ==> value.t[k] in HEX_DIGITS
              case KeyBind => value.Text?
              case Percentage => value.Number? && 0.0 <= value.n <= 100.0
  {
    ColorsHaveSixDigits(value);
    if value.Text? {
      LengthIsEncoded(value.t);
      forall k | 0 <= k < |value.t|
        ensures IsHexDigit(value.t[k]) <==> value.t[k] in HEX_DIGITS
      {
        HexDigits(value.t[k]);
      }
    }
  }

  // ---- Edits ---------------------------------------------------------------

  /** An edit goes through exactly for a known, unconstrained setting and a value of its kind, or tells why not. */
  lemma SetSucceedsIff(r: Runtime, key: string, value: SettingValue)
    ensures SetValue(r, key, value).1 == Ok(()) <==>
              key !in r.policy && key in r.entries && Accepts(r.entries[key].kind, value)
    ensures SetValue(r, key, value).1 != Ok(()) ==> SetValue(r, key, value).0 == r
    ensures key in r.policy ==> SetValue(r, key, value).1 == Err(LockedByPolicy(key))
    ensures key !in r.policy && key !in r.entries ==> SetValue(r, key, value).1 == Err(UnknownSetting(key))
    ensures key !in r.policy && key in r.entries && !Accepts(r.entries[key].kind, value) ==>
              SetValue(r, key, value).1 == Err(InvalidValue(r.entries[key].key))
  {
  }

  /** An edit that goes through changes one value, can be undone, ends redoing, and is announced once. */
  lemma SetMeans(r: Runtime, key: string, value: SettingValue)
    requires r.changes.pending == [] && SetValue(r, key, value).1 == Ok(())
    ensures var after := SetValue(r, key, value).0;
            && key in r.entries && after.entries.Keys == r.entries.Keys && after.policy == r.policy
            && after.entries[key] == r.entries[key].(value := value)
            && (forall k :: k in r.entries && k != key ==> after.entries[k] == r.entries[k])
            && after.changes == Tracker([], r.changes.undo + [Change(key, r.entries[key].value, value)], [])
            && after.notifications == r.notifications + [(key, value)]
  {
    SetPushes(r, key, value);
  }

  /** A reset goes through exactly for a known, unconstrained setting whose default is of its kind. */
  lemma ResetMeans(r: Runtime, key: string)
    ensures var (after, result) := ResetToDefault(r, key);
            && (result == Ok(()) <==>
                 key !in r.policy && key in r.entries && Accepts(r.entries[key].kind, r.entries[key].default))
            && (result == Ok(()) ==> key in after.entries && after.entries[key].value == r.entries[key].default)
            && (result != Ok(()) ==> after == r)
            && (key !in r.entries ==> result == Err(UnknownSetting(key)))
  {
  }

  // ---- Constraints over runs -----------------------------------------------

  predicate Governs(op: Op, key: string) {
    (op.OpConstrain? || op.OpRelease?) && op.key == key
  }

  lemma {:induction false} RevertKeepsPolicy(r: Runtime)
    ensures Revert(r).policy == r.policy
    decreases |r.changes.undo|
  {
    if r.changes.undo != [] {
      PopThenRevert(r);
      RevertKeepsPolicy(Popped(r));
    }
  }

  /** Only constraining and releasing a setting changes whether it is constrained. */
  lemma StepConstrains(r: Runtime, op: Op, key: string)
    ensures key in Step(r, op).policy <==> if Governs(op, key) then op.OpConstrain? else key in r.policy
  {
    if op.OpRevert? {
      RevertKeepsPolicy(r);
    }
  }

  /** The last of its constraints and releases decides whether a setting is constrained after a run. */
  lemma {:induction false} ConstrainedAfterRun(r: Runtime, ops: seq<Op>, key: string)
    ensures (exists k :: 0 <= k < |ops| && Governs(ops[k], key)) || (key in Run(r, ops).policy <==> key in r.policy)
    ensures forall k :: 0 <= k < |ops| && LastGoverning(ops, key, k) ==>
              (key in Run(r, ops).policy <==> ops[k].OpConstrain?)
    decreases |ops|
  {
    if ops != [] {
      var rest := ops[1..];
      StepConstrains(r, ops[0], key);
      ConstrainedAfterRun(Step(r, ops[0]), rest, key);
      assert forall k :: 0 < k < |ops| && LastGoverning(ops, key, k) ==> LastGoverning(rest, key, k - 1);
      if k :| 0 <= k < |rest| && Governs(rest[k], key) {
        assert Governs(ops[k + 1], key);
      }
    }
  }

  ghost predicate LastGoverning(ops: seq<Op>, key: string, k: nat)
    requires k < |ops|
  {
    Governs(ops[k], key) && forall j :: k < j < |ops| ==> !Governs(ops[j], key)
  }
}
