/** The focus manager and the keyboard navigation engine as the objects that their methods update. */
module Navigation {
  import opened Wrappers
  import opened Forest
  import opened A11yTree
  import opened F = Focus

  class FocusManager {
    var focused: Option<NodeId>
    var focusRingVisible: bool
    var tabOrder: seq<NodeId>
    var tabIndex: nat

    function Model(): FocusState
      reads this
    {
      FocusState(focused, focusRingVisible, tabOrder, tabIndex)
    }

    constructor ()
      ensures Model() == FocusState(None, false, [], 0) && InRange(Model())
    {
      focused, focusRingVisible, tabOrder, tabIndex := None, false, [], 0;
    }

    method SetFocus(id: NodeId)
      modifies this
      ensures Model() == F.SetFocus(old(Model()), id)
    {
      focused := Some(id);
      var pos := Position(tabOrder, id);
      if pos.Some? {
        tabIndex := pos.value;
      }
    }

    method BuildTabOrder(tree: AccessibilityTree)
      requires WellFormed(tree.nodes)
      modifies this
      ensures tabOrder == FocusableOf(tree.nodes, Walked(tree.nodes, tree.root)) && tabIndex == 0
      ensures focused == old(focused) && focusRingVisible == old(focusRingVisible) && InRange(Model())
    {
      tabOrder := [];
      var visited := tree.Walk();
      for k := 0 to |visited|
        invariant tabOrder == FocusableOf(tree.nodes, visited[..k])
        invariant focused == old(focused) && focusRingVisible == old(focusRingVisible)
      {
        FocusableNext(tree.nodes, visited, k);
        if IsFocusable(tree.nodes[visited[k]]) {
          tabOrder := tabOrder + [visited[k]];
        }
      }
      assert visited[..|visited|] == visited;
      tabIndex := 0;
    }

    method FocusNext() returns (id: Option<NodeId>)
      requires InRange(Model())
      modifies this
      ensures InRange(Model()) && (Model(), id) == F.FocusNext(old(Model()))
    {
      if |tabOrder| == 0 {
        return None;
      }
      SuccessorIsRemainder(tabIndex, |tabOrder|);
      tabIndex := (tabIndex + 1) % |tabOrder|;
      focused := Some(tabOrder[tabIndex]);
      return focused;
    }

    method FocusPrevious() returns (id: Option<NodeId>)
      requires InRange(Model())
      modifies this
      ensures InRange(Model()) && (Model(), id) == F.FocusPrevious(old(Model()))
    {
      if |tabOrder| == 0 {
        return None;
      }
      if tabIndex == 0 {
        tabIndex := |tabOrder| - 1;
      } else {
        tabIndex := tabIndex - 1;
      }
      focused := Some(tabOrder[tabIndex]);
      return focused;
    }
  }

  class KeyboardNavigation {
    var regions: seq<NodeId>
    var currentRegion: nat

    function Model(): Regions
      reads this
    {
      Regions(regions, currentRegion)
    }

    constructor ()
      ensures Model() == Regions([], 0) && RegionInRange(Model())
    {
      regions, currentRegion := [], 0;
    }

    method SetRegions(ids: seq<NodeId>)
      modifies this
      ensures Model() == Regions(ids, 0) && RegionInRange(Model())
    {
      regions, currentRegion := ids, 0;
    }

    method NextRegion() returns (id: Option<NodeId>)
      requires RegionInRange(Model())
      modifies this
      ensures RegionInRange(Model()) && (Model(), id) == F.NextRegion(old(Model()))
    {
      if |regions| == 0 {
        return None;
      }
      SuccessorIsRemainder(currentRegion, |regions|);
      currentRegion := (currentRegion + 1) % |regions|;
      return Some(regions[currentRegion]);
    }

    method PreviousRegion() returns (id: Option<NodeId>)
      requires RegionInRange(Model())
      modifies this
      ensures RegionInRange(Model()) && (Model(), id) == F.PreviousRegion(old(Model()))
    {
      if |regions| == 0 {
        return None;
      }
      if currentRegion == 0 {
        currentRegion := |regions| - 1;
      } else {
        currentRegion := currentRegion - 1;
      }
      return Some(regions[currentRegion]);
    }

    method HandleAction(action: NavigationAction, focus: FocusManager) returns (result: NavigationResult)
      requires NavInv(Nav(Model(), focus.Model()))
      modifies this, focus
      ensures NavInv(Nav(Model(), focus.Model()))
      ensures (Nav(Model(), focus.Model()), result) == Handle(old(Nav(Model(), focus.Model())), action)
    {
      var id: Option<NodeId>;
      match action
      case TabForward =>
        id := focus.FocusNext();
        if id.Some? {
          focus.focusRingVisible := true;
        }
        result := Moved(id);
      case TabBackward =>
        id := focus.FocusPrevious();
        if id.Some? {
          focus.focusRingVisible := true;
        }
        result := Moved(id);
      case Activate =>
        result := if focus.focused.Some? then Activated(focus.focused.value) else NoChange;
      case Escape =>
        focus.focused := None;
        focus.focusRingVisible := false;
        result := Escaped;
      case RegionNext =>
        id := NextRegion();
        if id.Some? {
          focus.SetFocus(id.value);
        }
        result := Moved(id);
      case RegionPrevious =>
        id := PreviousRegion();
        if id.Some? {
          focus.SetFocus(id.value);
        }
        result := Moved(id);
      case ArrowDown | ArrowRight =>
        id := focus.FocusNext();
        result := Moved(id);
      case ArrowUp | ArrowLeft =>
        id := focus.FocusPrevious();
        result := Moved(id);
    }
  }
}
