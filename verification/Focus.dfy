/** Focus, tab order and the keyboard actions that move them. */
module Focus {
  import opened Wrappers
  import opened Forest
  import opened ForestUpdates
  import opened TreeWalks
  import opened A11yTree
  import opened Arithmetic

  // ---- The focus manager as a value ----------------------------------------

  datatype FocusState = FocusState(focused: Option<NodeId>, ringVisible: bool, tabOrder: seq<NodeId>, tabIndex: nat)

  ghost predicate InRange(f: FocusState) {
    if f.tabOrder == [] then f.tabIndex == 0 else f.tabIndex < |f.tabOrder|
  }

  /** The first position of `id` in `order`. */
  function Position(order: seq<NodeId>, id: NodeId): (r: Option<nat>)
    ensures r == None <==> id !in order
    ensures r.Some? ==> r.value < |order| && order[r.value] == id && id !in order[..r.value]
  {
    if order == [] then None
    else if order[0] == id then Some(0)
    else
      match Position(order[1..], id)
      case None => None
      case Some(k) => assert order[..k + 1] == [order[0]] + order[1..][..k]; Some(k + 1)
  }

  function SetFocus(f: FocusState, id: NodeId): FocusState {
    var pos := Position(f.tabOrder, id);
    f.(focused := Some(id), tabIndex := if pos.Some? then pos.value else f.tabIndex)
  }

  /** The cyclic successor that the code computes as a remainder. */
  function Successor(i: nat, n: nat): (r: nat)
    requires i < n
    ensures r < n
  {
    if i + 1 == n then 0 else i + 1
  }

  lemma SuccessorIsRemainder(i: nat, n: nat)
    requires i < n
    ensures Successor(i, n) == (i + 1) % n
  {
  }

  function FocusNext(f: FocusState): (FocusState, Option<NodeId>)
    requires InRange(f)
  {
    if f.tabOrder == [] then (f, None)
    else
      var i := Successor(f.tabIndex, |f.tabOrder|);
      (f.(focused := Some(f.tabOrder[i]), tabIndex := i), Some(f.tabOrder[i]))
  }

  function FocusPrevious(f: FocusState): (FocusState, Option<NodeId>)
    requires InRange(f)
  {
    if f.tabOrder == [] then (f, None)
    else
      var i := if f.tabIndex == 0 then |f.tabOrder| - 1 else f.tabIndex - 1;
      (f.(focused := Some(f.tabOrder[i]), tabIndex := i), Some(f.tabOrder[i]))
  }

  // ---- Tab order -----------------------------------------------------------

  /** The focusable nodes of a walk, in walk order. */
  function FocusableOf(nodes: Nodes<Info>, ids: seq<NodeId>): (r: seq<NodeId>)
    requires forall x :: x in ids ==> x in nodes
    ensures forall x :: x in r <==> x in ids && IsFocusable(nodes[x])
  {
    if ids == [] then []
    else
      var front := ids[..|ids| - 1];
      var last := ids[|ids| - 1];
      assert forall x :: x in ids <==> x in front || x == last;
      FocusableOf(nodes, front) + (if IsFocusable(nodes[last]) then [last] else [])
  }

  lemma FocusableNext(nodes: Nodes<Info>, ids: seq<NodeId>, k: nat)
    requires (forall x :: x in ids ==> x in nodes) && k < |ids|
    ensures FocusableOf(nodes, ids[..k + 1]) ==
            FocusableOf(nodes, ids[..k]) + if IsFocusable(nodes[ids[k]]) then [ids[k]] else []
  {
    assert ids[..k + 1][..k] == ids[..k];
  }

  lemma {:induction false} FocusableNoDuplicates(nodes: Nodes<Info>, ids: seq<NodeId>)
    requires (forall x :: x in ids ==> x in nodes) && NoDuplicates(ids)
    ensures NoDuplicates(FocusableOf(nodes, ids))
  {
    if ids != [] {
      var front := ids[..|ids| - 1];
      var last := ids[|ids| - 1];
      FocusableNoDuplicates(nodes, front);
      assert last !in front;
      ConcatNoDuplicates(FocusableOf(nodes, front), if IsFocusable(nodes[last]) then [last] else []);
    }
  }

  /** The tab order holds each focusable node of the root's tree exactly once, and nothing else. */
  lemma TabOrderIsFocusableNodes(nodes: Nodes<Info>, root: NodeId)
    requires WellFormed(nodes) && root in nodes
    ensures var order := FocusableOf(nodes, Walked(nodes, Some(root)));
            && NoDuplicates(order)
            && forall x :: x in order <==> Reaches(nodes, root, x) && IsFocusable(nodes[x])
  {
    PreorderIsSubtree(nodes, root);
    FocusableNoDuplicates(nodes, Preorder(nodes, root));
  }

  // ---- The tab order after a removal ---------------------------------------

  /** The nodes outside `gone` are still there, and as focusable as before. */
  ghost predicate KeepsFocusable(nodes: Nodes<Info>, after: Nodes<Info>, ids: seq<NodeId>, gone: set<NodeId>) {
    forall x :: x in ids ==> x in nodes && (x !in gone ==> x in after && after[x].data == nodes[x].data)
  }

  lemma KeepAppend(s: seq<NodeId>, x: NodeId, gone: set<NodeId>)
    ensures Keep(s + [x], gone) == Keep(s, gone) + if x in gone then [] else [x]
  {
    KeepConcat(s, [x], gone);
    assert [x][1..] == [];
  }

  lemma {:induction false} KeepMembers(ids: seq<NodeId>, gone: set<NodeId>)
    ensures forall x :: x in Keep(ids, gone) <==> x in ids && x !in gone
  {
    if ids != [] {
      KeepMembers(ids[1..], gone);
    }
  }

  lemma {:induction false} KeepTwice(s: seq<NodeId>, a: set<NodeId>, b: set<NodeId>)
    ensures Keep(Keep(s, a), b) == Keep(s, a + b)
  {
    if s != [] {
      KeepTwice(s[1..], a, b);
      var rest := Keep(s[1..], a);
      if s[0] in a {
        assert Keep(s, a) == [] + rest == rest;
      } else {
        assert Keep(s, a) == [s[0]] + rest && ([s[0]] + rest)[1..] == rest;
      }
    }
  }

  /** The focusable nodes of a list are those outside any set that separates them from the others. */
  lemma {:induction false} FocusableIsKeep(nodes: Nodes<Info>, ids: seq<NodeId>, others: set<NodeId>)
    requires forall x :: x in ids ==> x in nodes && (x in others <==> !IsFocusable(nodes[x]))
    ensures FocusableOf(nodes, ids) == Keep(ids, others)
  {
    if ids != [] {
      var front, last := ids[..|ids| - 1], ids[|ids| - 1];
      FocusableIsKeep(nodes, front, others);
      KeepAppend(front, last, others);
      assert ids == front + [last];
    }
  }

  lemma FocusableKeep(nodes: Nodes<Info>, after: Nodes<Info>, ids: seq<NodeId>, gone: set<NodeId>)
    requires KeepsFocusable(nodes, after, ids, gone)
    ensures forall x :: x in Keep(ids, gone) ==> x in after
    ensures FocusableOf(after, Keep(ids, gone)) == Keep(FocusableOf(nodes, ids), gone)
  {
    var others := set x | x in nodes && !IsFocusable(nodes[x]);
    KeepMembers(ids, gone);
    FocusableIsKeep(after, Keep(ids, gone), others);
    FocusableIsKeep(nodes, ids, others);
    KeepTwice(ids, gone, others);
    KeepTwice(ids, others, gone);
    assert gone + others == others + gone;
  }

  lemma ReachesThrough(nodes: Nodes<Info>, top: NodeId, mid: NodeId, x: NodeId)
    requires Reaches(nodes, top, mid) && Reaches(nodes, mid, x)
    ensures Reaches(nodes, top, x)
  {
    var p :| ChainBetween(nodes, top, mid, p);
    var q :| ChainBetween(nodes, mid, x, q);
    assert ChainBetween(nodes, top, x, p + q[1..]);
  }

  /** What `remove_node` leaves of the root. */
  function RootAfter(root: NodeId, id: NodeId): Option<NodeId> {
    if root == id then None else Some(root)
  }

  /** The tab order rebuilt after a removal is the old one without the removed nodes. */
  lemma TabOrderAfterRemoval(nodes: Nodes<Info>, root: NodeId, id: NodeId)
    requires WellFormed(nodes) && root in nodes && id in nodes
    ensures WellFormed(RemoveSubtree(nodes, id))
    ensures var after := RemoveSubtree(nodes, id);
            FocusableOf(after, Walked(after, RootAfter(root, id))) ==
            Keep(FocusableOf(nodes, Walked(nodes, Some(root))), Subtree(nodes, id))
  {
    var after, gone := RemoveSubtree(nodes, id), Subtree(nodes, id);
    RemoveSubtreeKeepsForest(nodes, id);
    PreorderIsSubtree(nodes, root);
    if root in gone {
      forall x | x in Preorder(nodes, root)
        ensures x in gone
      {
        ReachesThrough(nodes, id, root, x);
      }
      KeepNothing(FocusableOf(nodes, Preorder(nodes, root)), gone);
    } else {
      ReachesSelf(nodes, id);
      RemovalFiltersWalk(nodes, id, root);
      FocusableKeep(nodes, after, Preorder(nodes, root), gone);
    }
  }

  // ---- Keyboard navigation -------------------------------------------------

  datatype NavigationAction =
    | TabForward | TabBackward | ArrowUp | ArrowDown | ArrowLeft | ArrowRight
    | Activate | Escape | RegionNext | RegionPrevious

  datatype NavigationResult = FocusMoved(id: NodeId) | Activated(id: NodeId) | Escaped | NoChange

  datatype Regions = Regions(ids: seq<NodeId>, current: nat)

  ghost predicate RegionInRange(r: Regions) {
    if r.ids == [] then r.current == 0 else r.current < |r.ids|
  }

  function NextRegion(r: Regions): (Regions, Option<NodeId>)
    requires RegionInRange(r)
  {
    if r.ids == [] then (r, None)
    else
      var i := Successor(r.current, |r.ids|);
      (r.(current := i), Some(r.ids[i]))
  }

  function PreviousRegion(r: Regions): (Regions, Option<NodeId>)
    requires RegionInRange(r)
  {
    if r.ids == [] then (r, None)
    else
      var i := if r.current == 0 then |r.ids| - 1 else r.current - 1;
      (r.(current := i), Some(r.ids[i]))
  }

  function Moved(id: Option<NodeId>): NavigationResult {
    if id.Some? then FocusMoved(id.value) else NoChange
  }

  datatype Nav = Nav(regions: Regions, focus: FocusState)

  ghost predicate NavInv(n: Nav) {
    RegionInRange(n.regions) && InRange(n.focus)
  }

  function Handle(n: Nav, action: NavigationAction): (Nav, NavigationResult)
    requires NavInv(n)
  {
    match action
    case TabForward =>
      var (f, id) := FocusNext(n.focus);
      (n.(focus := if id.Some? then f.(ringVisible := true) else f), Moved(id))
    case TabBackward =>
      var (f, id) := FocusPrevious(n.focus);
      (n.(focus := if id.Some? then f.(ringVisible := true) else f), Moved(id))
    case Activate =>
      (n, if n.focus.focused.Some? then Activated(n.focus.focused.value) else NoChange)
    case Escape =>
      (n.(focus := n.focus.(focused := None, ringVisible := false)), Escaped)
    case RegionNext =>
      var (r, id) := NextRegion(n.regions);
      (Nav(r, if id.Some? then SetFocus(n.focus, id.value) else n.focus), Moved(id))
    case RegionPrevious =>
      var (r, id) := PreviousRegion(n.regions);
      (Nav(r, if id.Some? then SetFocus(n.focus, id.value) else n.focus), Moved(id))
    case ArrowDown | ArrowRight =>
      var (f, id) := FocusNext(n.focus);
      (n.(focus := f), Moved(id))
    case ArrowUp | ArrowLeft =>
      var (f, id) := FocusPrevious(n.focus);
      (n.(focus := f), Moved(id))
  }

  /** One action keeps both cursors in range and leaves the orders alone; a reported move is the focus. */
  lemma HandleKeepsRange(n: Nav, action: NavigationAction)
    requires NavInv(n)
    ensures var (m, r) := Handle(n, action);
            && NavInv(m) && m.focus.tabOrder == n.focus.tabOrder && m.regions.ids == n.regions.ids
            && (r.FocusMoved? ==> m.focus.focused == Some(r.id))
            && (r.Activated? ==> m == n && n.focus.focused == Some(r.id))
            && (r == NoChange ==> m == n)
  {
  }

  function RunActions(n: Nav, actions: seq<NavigationAction>): (m: Nav)
    requires NavInv(n)
    ensures NavInv(m) && m.focus.tabOrder == n.focus.tabOrder && m.regions.ids == n.regions.ids
    decreases |actions|
  {
    if actions == [] then n
    else
      HandleKeepsRange(n, actions[0]);
      RunActions(Handle(n, actions[0]).0, actions[1..])
  }

  /** How far one action moves the tab index. */
  function Offset(a: NavigationAction): int {
    match a
    case TabForward | ArrowDown | ArrowRight => 1
    case TabBackward | ArrowUp | ArrowLeft => -1
    case _ => 0
  }

  function NetOffset(actions: seq<NavigationAction>): int {
    if actions == [] then 0 else Offset(actions[0]) + NetOffset(actions[1..])
  }

  lemma ModShift(a: int, d: int, n: nat)
    requires 0 < n
    ensures ((a % n) + d) % n == (a + d) % n
  {
    var r := a % n + d;
    assert a + d == (a / n) * n + r == (a / n) * n + (r / n) * n + r % n == (a / n + r / n) * n + r % n;
    DivModUnique(a + d, n, a / n + r / n, r % n);
  }

  lemma ModCompose(i: int, d: int, e: int, n: nat, mid: int)
    requires 0 < n && mid == (i + d) % n
    ensures (mid + e) % n == (i + (d + e)) % n
  {
    ModShift(i + d, e, n);
    assert i + d + e == i + (d + e);
  }

  /** The region that a region action moves to. */
  function Target(n: Nav, action: NavigationAction): Option<NodeId>
    requires NavInv(n)
  {
    match action
    case RegionNext => NextRegion(n.regions).1
    case RegionPrevious => PreviousRegion(n.regions).1
    case _ => None
  }

  lemma StepIsRemainder(i: nat, n: nat)
    requires i < n
    ensures (if i == 0 then n - 1 else i - 1) == (i - 1) % n && i == (i + 0) % n
  {
    DivModUnique(i, n, 0, i);
    if i == 0 { DivModUnique(-1, n, -1, n - 1); } else { DivModUnique(i - 1, n, 0, i - 1); }
  }

  /** What an action does to the tab index: move it by some steps, or set it to the stop that a region is. */
  datatype Move = By(steps: int) | To(stop: nat)

  function MoveOf(n: Nav, action: NavigationAction): (m: Move)
    requires NavInv(n)
    ensures m.To? ==> m.stop < |n.focus.tabOrder|
  {
    var target := Target(n, action);
    if target.Some? && Position(n.focus.tabOrder, target.value).Some?
    then To(Position(n.focus.tabOrder, target.value).value)
    else By(Offset(action))
  }

  function Moves(n: Nav, actions: seq<NavigationAction>): (m: seq<Move>)
    requires NavInv(n)
    ensures |m| == |actions|
    decreases |actions|
  {
    if actions == [] then [] else [MoveOf(n, actions[0])] + Moves(AfterFirst(n, actions), actions[1..])
  }

  function AfterFirst(n: Nav, actions: seq<NavigationAction>): (m: Nav)
    requires NavInv(n) && actions != []
    ensures NavInv(m) && m.focus.tabOrder == n.focus.tabOrder && m.regions.ids == n.regions.ids
  {
    HandleKeepsRange(n, actions[0]);
    Handle(n, actions[0]).0
  }

  function StepTo(i: nat, len: nat, m: Move): nat
    requires 0 < len
  {
    if m.To? then m.stop else (i + m.steps) % len
  }

  function Follow(i: nat, len: nat, moves: seq<Move>): nat
    requires 0 < len
    decreases |moves|
  {
    if moves == [] then i else Follow(StepTo(i, len, moves[0]), len, moves[1..])
  }

  function Net(moves: seq<Move>): int {
    if moves == [] then 0 else (if moves[0].By? then moves[0].steps else 0) + Net(moves[1..])
  }

  lemma ActionIsMove(n: Nav, action: NavigationAction)
    requires NavInv(n) && n.focus.tabOrder != []
    ensures Handle(n, action).0.focus.tabIndex == StepTo(n.focus.tabIndex, |n.focus.tabOrder|, MoveOf(n, action))
  {
    SuccessorIsRemainder(n.focus.tabIndex, |n.focus.tabOrder|);
    StepIsRemainder(n.focus.tabIndex, |n.focus.tabOrder|);
  }

  lemma {:induction false} RunFollowsMoves(n: Nav, actions: seq<NavigationAction>)
    requires NavInv(n) && n.focus.tabOrder != []
    ensures RunActions(n, actions).focus.tabIndex == Follow(n.focus.tabIndex, |n.focus.tabOrder|, Moves(n, actions))
    decreases |actions|
  {
    if actions != [] {
      ActionIsMove(n, actions[0]);
      RunFollowsMoves(AfterFirst(n, actions), actions[1..]);
    }
  }

  /** Steps alone add up cyclically. */
  lemma {:induction false} FollowSteps(i: nat, len: nat, moves: seq<Move>)
    requires i < len && forall k :: 0 <= k < |moves| ==> moves[k].By?
    ensures Follow(i, len, moves) == (i + Net(moves)) % len
    decreases |moves|
  {
    if moves == [] {
      StepIsRemainder(i, len);
    } else {
      var mid := StepTo(i, len, moves[0]);
      FollowSteps(mid, len, moves[1..]);
      ModCompose(i, moves[0].steps, Net(moves[1..]), len, mid);
    }
  }

  /** Whatever came before the last jump is forgotten. */
  lemma {:induction false} FollowSinceJump(i: nat, len: nat, moves: seq<Move>, k: nat)
    requires 0 < len && k < |moves| && moves[k].To? && moves[k].stop < len
    requires forall j :: k < j < |moves| ==> moves[j].By?
    ensures Follow(i, len, moves) == (moves[k].stop + Net(moves[k + 1..])) % len
    decreases k
  {
    if k == 0 {
      FollowSteps(moves[0].stop, len, moves[1..]);
    } else {
      FollowSinceJump(StepTo(i, len, moves[0]), len, moves[1..], k - 1);
      assert moves[1..][k..] == moves[k + 1..];
    }
  }

  /** Each move is that of its action, where the run has come to by then. */
  lemma {:induction false} MovesAt(n: Nav, actions: seq<NavigationAction>, k: nat)
    requires NavInv(n) && k < |actions|
    ensures Moves(n, actions)[k] == MoveOf(RunActions(n, actions[..k]), actions[k])
    decreases k
  {
    if k > 0 {
      MovesAt(AfterFirst(n, actions), actions[1..], k - 1);
      assert actions[..k][0] == actions[0] && actions[..k][1..] == actions[1..][..k - 1];
    }
  }

  /** Where no action jumps onto a tab stop the net steps are the net offset. */
  lemma {:induction false} NetIsNetOffset(n: Nav, actions: seq<NavigationAction>, from: nat)
    requires NavInv(n) && from <= |actions| && forall j :: from <= j < |actions| ==> Moves(n, actions)[j].By?
    ensures Net(Moves(n, actions)[from..]) == NetOffset(actions[from..])
    decreases |actions| - from
  {
    if from < |actions| {
      MovesAt(n, actions, from);
      NetIsNetOffset(n, actions, from + 1);
      assert actions[from..][1..] == actions[from + 1..];
      assert Moves(n, actions)[from..][1..] == Moves(n, actions)[from + 1..];
    }
  }

  /** A jump goes to the first position of its region in the tab order. */
  lemma JumpWithinOrder(n: Nav, actions: seq<NavigationAction>, k: nat)
    requires NavInv(n) && k < |actions| && Moves(n, actions)[k].To?
    ensures var target := Target(RunActions(n, actions[..k]), actions[k]);
            target.Some? && Position(n.focus.tabOrder, target.value) == Some(Moves(n, actions)[k].stop)
  {
    MovesAt(n, actions, k);
  }

  /** From `from` on the run only steps. */
  ghost predicate OnlySteps(moves: seq<Move>, from: nat) {
    forall j :: from <= j < |moves| ==> moves[j].By?
  }

  lemma OnlyStepsFollow(n: Nav, actions: seq<NavigationAction>, i: nat, len: nat)
    requires NavInv(n) && i < len && OnlySteps(Moves(n, actions), 0)
    ensures Follow(i, len, Moves(n, actions)) == (i + NetOffset(actions)) % len
  {
    var moves := Moves(n, actions);
    FollowSteps(i, len, moves);
    NetIsNetOffset(n, actions, 0);
    assert moves[0..] == moves && actions[0..] == actions;
  }

  /** Without a jump onto a tab stop a run moves the tab index by its net number of forward steps, cyclically. */
  lemma TabIndexAfterRun(n: Nav, actions: seq<NavigationAction>)
    requires NavInv(n) && n.focus.tabOrder != [] && OnlySteps(Moves(n, actions), 0)
    ensures RunActions(n, actions).focus.tabIndex ==
            (n.focus.tabIndex + NetOffset(actions)) % |n.focus.tabOrder|
  {
    RunFollowsMoves(n, actions);
    OnlyStepsFollow(n, actions, n.focus.tabIndex, |n.focus.tabOrder|);
  }

  lemma JumpFollows(n: Nav, actions: seq<NavigationAction>, k: nat, i: nat, len: nat)
    requires NavInv(n) && k < |actions| && Moves(n, actions)[k].To? && OnlySteps(Moves(n, actions), k + 1)
    requires Moves(n, actions)[k].stop < len
    ensures Follow(i, len, Moves(n, actions)) == (Moves(n, actions)[k].stop + NetOffset(actions[k + 1..])) % len
  {
    FollowSinceJump(i, len, Moves(n, actions), k);
    NetIsNetOffset(n, actions, k + 1);
  }

  /** After its last jump onto a tab stop a run moves on from the position of that stop, whatever came before. */
  lemma TabIndexAfterJump(n: Nav, actions: seq<NavigationAction>, k: nat)
    requires NavInv(n) && k < |actions| && Moves(n, actions)[k].To? && OnlySteps(Moves(n, actions), k + 1)
    ensures n.focus.tabOrder != []
    ensures RunActions(n, actions).focus.tabIndex ==
            (Moves(n, actions)[k].stop + NetOffset(actions[k + 1..])) % |n.focus.tabOrder|
  {
    MovesAt(n, actions, k);
    RunFollowsMoves(n, actions);
    JumpFollows(n, actions, k, n.focus.tabIndex, |n.focus.tabOrder|);
  }

  /** How far one action moves the current region. */
  function RegionOffset(a: NavigationAction): int {
    match a
    case RegionNext => 1
    case RegionPrevious => -1
    case _ => 0
  }

  function NetRegionOffset(actions: seq<NavigationAction>): int {
    if actions == [] then 0 else RegionOffset(actions[0]) + NetRegionOffset(actions[1..])
  }

  /** The regions move on their own, whatever the focus does. */
  function MoveRegion(r: Regions, action: NavigationAction): (m: Regions)
    requires RegionInRange(r)
    ensures RegionInRange(m) && m.ids == r.ids
  {
    match action
    case RegionNext => NextRegion(r).0
    case RegionPrevious => PreviousRegion(r).0
    case _ => r
  }

  function MoveRegions(r: Regions, actions: seq<NavigationAction>): (m: Regions)
    requires RegionInRange(r)
    ensures RegionInRange(m) && m.ids == r.ids
    decreases |actions|
  {
    if actions == [] then r else MoveRegions(MoveRegion(r, actions[0]), actions[1..])
  }

  lemma {:induction false} RunMovesRegions(n: Nav, actions: seq<NavigationAction>)
    requires NavInv(n)
    ensures RunActions(n, actions).regions == MoveRegions(n.regions, actions)
    decreases |actions|
  {
    if actions != [] {
      HandleKeepsRange(n, actions[0]);
      RunMovesRegions(Handle(n, actions[0]).0, actions[1..]);
    }
  }

  lemma MoveIsOffset(r: Regions, action: NavigationAction)
    requires RegionInRange(r) && r.ids != []
    ensures MoveRegion(r, action).current == (r.current + RegionOffset(action)) % |r.ids|
  {
    SuccessorIsRemainder(r.current, |r.ids|);
    StepIsRemainder(r.current, |r.ids|);
  }

  lemma {:induction false} MovesAreNetOffset(r: Regions, actions: seq<NavigationAction>)
    requires RegionInRange(r) && r.ids != []
    ensures MoveRegions(r, actions).current == (r.current + NetRegionOffset(actions)) % |r.ids|
    decreases |actions|
  {
    if actions == [] {
      DivModUnique(r.current, |r.ids|, 0, r.current);
    } else {
      var m := MoveRegion(r, actions[0]);
      MoveIsOffset(r, actions[0]);
      MovesAreNetOffset(m, actions[1..]);
      ModCompose(r.current, RegionOffset(actions[0]), NetRegionOffset(actions[1..]), |r.ids|, m.current);
    }
  }

  /** Any run moves the current region by its net number of region steps, cyclically. */
  lemma RegionAfterRun(n: Nav, actions: seq<NavigationAction>)
    requires NavInv(n) && n.regions.ids != []
    ensures RunActions(n, actions).regions.current ==
            (n.regions.current + NetRegionOffset(actions)) % |n.regions.ids|
  {
    RunMovesRegions(n, actions);
    MovesAreNetOffset(n.regions, actions);
  }

  // ---- The focus ring and the focused tab stop -----------------------------

  lemma {:induction false} RunAppend(n: Nav, a: seq<NavigationAction>, last: NavigationAction)
    requires NavInv(n)
    ensures RunActions(n, a + [last]) == Handle(RunActions(n, a), last).0
    decreases |a|
  {
    if a == [] {
      assert (a + [last])[1..] == [];
    } else {
      assert (a + [last])[0] == a[0] && (a + [last])[1..] == a[1..] + [last];
      RunAppend(AfterFirst(n, a), a[1..], last);
    }
  }

  /** Tabbing, if there is a tab stop, shows the ring and escape hides it; everything else leaves it. */
  function RingShown(shown: bool, canTab: bool, actions: seq<NavigationAction>): bool {
    if actions == [] then shown
    else
      var last := actions[|actions| - 1];
      if last == Escape then false
      else if canTab && last in {TabForward, TabBackward} then true
      else RingShown(shown, canTab, actions[..|actions| - 1])
  }

  /** After any run the last tab or escape decides whether the ring is shown; without tab stops only escapes count. */
  lemma {:induction false} RingAfterRun(n: Nav, actions: seq<NavigationAction>)
    requires NavInv(n)
    ensures RunActions(n, actions).focus.ringVisible ==
            RingShown(n.focus.ringVisible, n.focus.tabOrder != [], actions)
  {
    if actions != [] {
      var front, last := actions[..|actions| - 1], actions[|actions| - 1];
      assert actions == front + [last];
      RunAppend(n, front, last);
      RingAfterRun(n, front);
    }
  }

  /** The focus, if any, is on the tab stop at the index. */
  ghost predicate OnStop(f: FocusState) {
    f.focused.Some? ==> f.tabOrder != [] && f.tabIndex < |f.tabOrder| && f.focused.value == f.tabOrder[f.tabIndex]
  }

  /** Focus and tab index stay together exactly when no action jumps to a region outside the tab order. */
  lemma ActionKeepsStopIff(n: Nav, action: NavigationAction)
    requires NavInv(n) && OnStop(n.focus)
    ensures NavInv(Handle(n, action).0)
    ensures OnStop(Handle(n, action).0.focus) <==>
              (Target(n, action).Some? ==> Target(n, action).value in n.focus.tabOrder)
  {
    HandleKeepsRange(n, action);
  }

  /** With regions that are tab stops, any run keeps focus and tab index together. */
  lemma {:induction false} RunKeepsStop(n: Nav, actions: seq<NavigationAction>)
    requires NavInv(n) && OnStop(n.focus) && forall id :: id in n.regions.ids ==> id in n.focus.tabOrder
    ensures OnStop(RunActions(n, actions).focus)
    decreases |actions|
  {
    if actions != [] {
      HandleKeepsRange(n, actions[0]);
      ActionKeepsStopIff(n, actions[0]);
      RunKeepsStop(Handle(n, actions[0]).0, actions[1..]);
    }
  }

  /** The ids focused by `k` consecutive forward steps. */
  function Visited(f: FocusState, k: nat): seq<NodeId>
    requires InRange(f) && f.tabOrder != []
    decreases k
  {
    if k == 0 then []
    else
      var (g, id) := FocusNext(f);
      [id.value] + Visited(g, k - 1)
  }

  /** Steps up to the end of the order visit what lies between. */
  lemma {:induction false} VisitedToEnd(f: FocusState, k: nat)
    requires InRange(f) && f.tabOrder != [] && f.tabIndex + k < |f.tabOrder|
    ensures Visited(f, k) == f.tabOrder[f.tabIndex + 1..f.tabIndex + 1 + k]
    decreases k
  {
    if k > 0 {
      VisitedToEnd(FocusNext(f).0, k - 1);
    }
  }

  lemma VisitedStep(f: FocusState, k: nat)
    requires InRange(f) && f.tabOrder != [] && 0 < k
    ensures var g := FocusNext(f).0;
            && InRange(g) && g.tabOrder == f.tabOrder && g.tabIndex == Successor(f.tabIndex, |f.tabOrder|)
            && Visited(f, k) == [f.tabOrder[g.tabIndex]] + Visited(g, k - 1)
  {
  }

  lemma HeadOfRotation(order: seq<NodeId>, i: nat, tail: seq<NodeId>)
    requires i < |order|
    ensures [order[i]] + (order[i + 1..] + tail) == order[i..] + tail
  {
    assert order[i..] == [order[i]] + order[i + 1..];
  }

  lemma {:induction false} VisitedRotates(f: FocusState, k: nat, home: nat)
    requires InRange(f) && f.tabOrder != [] && home <= f.tabIndex && k == |f.tabOrder| - f.tabIndex + home
    ensures Visited(f, k) == f.tabOrder[f.tabIndex + 1..] + f.tabOrder[..home + 1]
    decreases k
  {
    var g, order := FocusNext(f).0, f.tabOrder;
    VisitedStep(f, k);
    if f.tabIndex + 1 == |order| {
      VisitedToEnd(g, home);
      HeadOfRotation(order[..home + 1], 0, []);
    } else {
      VisitedRotates(g, k - 1, home);
      HeadOfRotation(order, f.tabIndex + 1, order[..home + 1]);
    }
  }

  /** As many forward steps as there are entries visit the order rotated: every entry exactly once, home last. */
  lemma FullCycleIsRotation(f: FocusState)
    requires InRange(f) && f.tabOrder != []
    ensures Visited(f, |f.tabOrder|) == f.tabOrder[f.tabIndex + 1..] + f.tabOrder[..f.tabIndex + 1]
    ensures multiset(Visited(f, |f.tabOrder|)) == multiset(f.tabOrder)
  {
    VisitedRotates(f, |f.tabOrder|, f.tabIndex);
    RotationKeepsEntries(f.tabOrder, f.tabIndex + 1);
  }

  lemma RotationKeepsEntries(s: seq<NodeId>, k: nat)
    requires k <= |s|
    ensures multiset(s[k..] + s[..k]) == multiset(s)
  {
    assert s[..k] + s[k..] == s;
  }

  /** Stepping back after stepping forward, and the reverse, returns to the same tab stop. */
  lemma PreviousUndoesNext(f: FocusState)
    requires InRange(f) && f.tabOrder != []
    ensures InRange(FocusNext(f).0) && InRange(FocusPrevious(f).0)
    ensures FocusPrevious(FocusNext(f).0).0 == f.(focused := Some(f.tabOrder[f.tabIndex]))
    ensures FocusNext(FocusPrevious(f).0).0 == f.(focused := Some(f.tabOrder[f.tabIndex]))
  {
  }

  /** Tabbing on from a focus set directly goes to its successor if it is a tab stop, else on from the old stop. */
  lemma NextAfterSetFocus(f: FocusState, id: NodeId, k: nat)
    requires InRange(f) && NoDuplicates(f.tabOrder) && k < |f.tabOrder|
    ensures InRange(SetFocus(f, id))
    ensures f.tabOrder[k] == id ==>
              FocusNext(SetFocus(f, id)).1 == Some(f.tabOrder[if k + 1 == |f.tabOrder| then 0 else k + 1])
    ensures id !in f.tabOrder ==> FocusNext(SetFocus(f, id)) == FocusNext(f)
  {
  }
}
