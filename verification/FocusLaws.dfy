/** What each keyboard action answers, and how the answers of a run tell the focus. */
module FocusLaws {
  import opened Wrappers
  import opened Forest
  import opened A11yTree
  import opened Focus

  /** A node is focusable if it is one of ten controls and neither disabled nor invisible. */
  lemma FocusableIff(node: AccessibleNode)
    ensures IsFocusable(node) <==>
              && !(exists s :: s in node.data.states && (s.Disabled? || s.Invisible?))
              && match node.data.role
                 case Button | TextInput | Checkbox | RadioButton | Slider => true
                 case Link | Tab | MenuItem | ListItem | TreeItem => true
                 case _ => false
  {
  }

  /** Setting the focus finds the first place of a tab stop; for any other node the index stays. */
  lemma SetFocusMeans(f: FocusState, id: NodeId)
    ensures var g := SetFocus(f, id);
            && g.focused == Some(id) && g.ringVisible == f.ringVisible && g.tabOrder == f.tabOrder
            && (id in f.tabOrder ==>
                 g.tabIndex < |f.tabOrder| && f.tabOrder[g.tabIndex] == id && id !in f.tabOrder[..g.tabIndex])
            && (id !in f.tabOrder ==> g.tabIndex == f.tabIndex)
  {
  }

  /** The stop `d` steps along the cycle, if there are stops at all. */
  function Along(ids: seq<NodeId>, i: nat, d: int): Option<NodeId> {
    if ids == [] then None else Some(ids[(i + d) % |ids|])
  }

  lemma StepsAlong(f: FocusState)
    requires InRange(f)
    ensures FocusNext(f).1 == Along(f.tabOrder, f.tabIndex, 1)
    ensures FocusPrevious(f).1 == Along(f.tabOrder, f.tabIndex, -1)
  {
    if f.tabOrder != [] {
      SuccessorIsRemainder(f.tabIndex, |f.tabOrder|);
      StepIsRemainder(f.tabIndex, |f.tabOrder|);
    }
  }

  lemma RegionsAlong(r: Regions)
    requires RegionInRange(r)
    ensures NextRegion(r).1 == Along(r.ids, r.current, 1)
    ensures PreviousRegion(r).1 == Along(r.ids, r.current, -1)
  {
    if r.ids != [] {
      SuccessorIsRemainder(r.current, |r.ids|);
      StepIsRemainder(r.current, |r.ids|);
    }
  }

  /** Each action answers with the stop or region next to the current one, the activated node, or the escape. */
  lemma ActionAnswers(n: Nav, action: NavigationAction)
    requires NavInv(n)
    ensures var f, answer := n.focus, Handle(n, action).1;
            match action
            case TabForward | ArrowDown | ArrowRight => answer == Moved(Along(f.tabOrder, f.tabIndex, 1))
            case TabBackward | ArrowUp | ArrowLeft => answer == Moved(Along(f.tabOrder, f.tabIndex, -1))
            case RegionNext => answer == Moved(Along(n.regions.ids, n.regions.current, 1))
            case RegionPrevious => answer == Moved(Along(n.regions.ids, n.regions.current, -1))
            case Activate => if f.focused == None then answer == NoChange else answer == Activated(f.focused.value)
            case Escape => answer == Escaped
  {
    StepsAlong(n.focus);
    RegionsAlong(n.regions);
  }

  /** A reported move moves the focus there, an escape takes it away, and nothing else touches it. */
  lemma AnswerTellsFocus(n: Nav, action: NavigationAction)
    requires NavInv(n)
    ensures Handle(n, action).0.focus.focused ==
            match Handle(n, action).1
            case FocusMoved(id) => Some(id)
            case Escaped => None
            case _ => n.focus.focused
  {
  }

  /** The answers of a run, in order. */
  function Answers(n: Nav, actions: seq<NavigationAction>): (r: seq<NavigationResult>)
    requires NavInv(n)
    ensures |r| == |actions|
    decreases |actions|
  {
    if actions == [] then [] else [Handle(n, actions[0]).1] + Answers(AfterFirst(n, actions), actions[1..])
  }

  predicate TellsFocus(answer: NavigationResult) {
    answer.FocusMoved? || answer.Escaped?
  }

  /** After any run the focus is what the last move or escape reported, and the old one if there was none. */
  lemma {:induction false} FocusAfterRun(n: Nav, actions: seq<NavigationAction>, k: nat)
    requires NavInv(n) && k < |actions| && TellsFocus(Answers(n, actions)[k])
    requires forall j :: k < j < |actions| ==> !TellsFocus(Answers(n, actions)[j])
    ensures RunActions(n, actions).focus.focused ==
            if Answers(n, actions)[k].Escaped? then None else Some(Answers(n, actions)[k].id)
    decreases |actions|
  {
    var m, rest := AfterFirst(n, actions), actions[1..];
    assert forall j :: 0 <= j < |rest| ==> Answers(m, rest)[j] == Answers(n, actions)[j + 1];
    if k == 0 {
      AnswerTellsFocus(n, actions[0]);
      QuietRunKeepsFocus(m, rest);
    } else {
      FocusAfterRun(m, rest, k - 1);
    }
  }

  lemma {:induction false} QuietRunKeepsFocus(n: Nav, actions: seq<NavigationAction>)
    requires NavInv(n) && forall j :: 0 <= j < |actions| ==> !TellsFocus(Answers(n, actions)[j])
    ensures RunActions(n, actions).focus.focused == n.focus.focused
    decreases |actions|
  {
    if actions != [] {
      var m, rest := AfterFirst(n, actions), actions[1..];
      assert forall j :: 0 <= j < |rest| ==> Answers(m, rest)[j] == Answers(n, actions)[j + 1];
      assert !TellsFocus(Answers(n, actions)[0]);
      AnswerTellsFocus(n, actions[0]);
      QuietRunKeepsFocus(m, rest);
    }
  }
}
