/** What each call does to the bridge tree, seen from outside, and what a run of calls leaves of focus and root. */
module BridgeEffects {
  import opened Wrappers
  import opened Forest
  import opened ForestUpdates
  import opened BridgeModel

  // ---- What a caller sees of a node ----------------------------------------

  /** The states but `Focused`, in order. */
  function OtherStates(states: seq<AccessibleState>): seq<AccessibleState> {
    if states == [] then []
    else (if states[0] == Focused then [] else [states[0]]) + OtherStates(states[1..])
  }

  /** Two nodes that differ at most in whether they carry `Focused`. */
  ghost predicate SameButFlag(a: AccessibleNode, b: AccessibleNode) {
    && a.id == b.id && a.children == b.children && a.parent == b.parent
    && a.data.(states := []) == b.data.(states := [])
    && OtherStates(a.data.states) == OtherStates(b.data.states)
  }

  /** Two node maps whose nodes differ at most in that. */
  ghost predicate SameButFlags(a: Nodes<Info>, b: Nodes<Info>) {
    a.Keys == b.Keys && forall id :: id in a ==> SameButFlag(a[id], b[id])
  }

  lemma {:induction false} OtherStatesConcat(s: seq<AccessibleState>, t: seq<AccessibleState>)
    ensures OtherStates(s + t) == OtherStates(s) + OtherStates(t)
  {
    if s == [] {
      assert s + t == t;
    } else {
      assert (s + t)[1..] == s[1..] + t;
      OtherStatesConcat(s[1..], t);
    }
  }

  lemma {:induction false} RemovedOthers(states: seq<AccessibleState>)
    ensures OtherStates(RemoveState(states, Focused)) == OtherStates(states)
  {
    if states != [] {
      RemovedOthers(states[1..]);
      var rest := RemoveState(states[1..], Focused);
      if states[0] == Focused {
        assert [] + rest == rest;
      } else {
        assert ([states[0]] + rest)[1..] == rest;
      }
    }
  }

  lemma AddedOthers(states: seq<AccessibleState>)
    ensures OtherStates(AddState(states, Focused)) == OtherStates(states)
  {
    OtherStatesConcat(states, [Focused]);
    assert [Focused][1..] == [];
  }

  lemma UnfocusedIsSame(t: Tree)
    ensures SameButFlags(Unfocused(t), t.nodes)
  {
    if t.focused.Some? && t.focused.value in t.nodes {
      RemovedOthers(t.nodes[t.focused.value].data.states);
    }
  }

  // ---- set_focused and clear_focused ---------------------------------------

  /** The focus goes to the node, it alone carries the flag, and nothing else changes. */
  lemma SetFocusedMeans(t: Tree, id: NodeId)
    requires FocusConsistent(t)
    ensures var r := SetFocused(t, id);
            && r.focused == Some(id) && r.root == t.root && SameButFlags(r.nodes, t.nodes)
            && forall x :: x in r.nodes ==> (HasFocus(r.nodes[x]) <==> x == id)
  {
    UnfocusedIsSame(t);
    var cleared := Unfocused(t);
    if id in cleared {
      AddedOthers(cleared[id].data.states);
    }
  }

  /** No node has the focus or carries the flag, and nothing else changes. */
  lemma ClearFocusedMeans(t: Tree)
    requires FocusConsistent(t)
    ensures var r := ClearFocused(t);
            && r.focused == None && r.root == t.root && SameButFlags(r.nodes, t.nodes)
            && forall x :: x in r.nodes ==> !HasFocus(r.nodes[x])
  {
    UnfocusedIsSame(t);
  }

  // ---- set_root, add_node and remove_node ----------------------------------

  /** The node is the root, stored as it was given, and every other node and the focus are as they were. */
  lemma SetRootMeans(t: Tree, node: AccessibleNode)
    ensures var r := SetRoot(t, node);
            && r.root == Some(node.id) && r.focused == t.focused && r.nodes.Keys == t.nodes.Keys + {node.id}
            && r.nodes[node.id] == node
            && forall x :: x in t.nodes && x != node.id ==> r.nodes[x] == t.nodes[x]
  {
  }

  /** A fresh node is stored under its parent, all else as it was given, and listed last there. */
  lemma AddNodeMeans(t: Tree, parent: NodeId, node: AccessibleNode)
    requires parent in t.nodes && node.id !in t.nodes
    ensures var r := AddNode(t, parent, node);
            && r.root == t.root && r.focused == t.focused && r.nodes.Keys == t.nodes.Keys + {node.id}
            && r.nodes[node.id] == node.(parent := Some(parent))
            && r.nodes[parent].children == t.nodes[parent].children + [node.id]
            && r.nodes[parent].(children := t.nodes[parent].children) == t.nodes[parent]
            && forall x :: x in t.nodes && x != parent ==> r.nodes[x] == t.nodes[x]
  {
  }

  /** A remaining node is what it was, but for the removed top in the list of its parent. */
  lemma RemoveNodeMeans(t: Tree, id: NodeId, x: NodeId)
    requires Inv(t) && id in t.nodes && x in t.nodes
    ensures var r := RemoveNode(t, id);
            && (x in r.nodes <==> !Reaches(t.nodes, id, x))
            && (x in r.nodes ==>
                  && r.nodes[x].(children := t.nodes[x].children) == t.nodes[x]
                  && (id !in t.nodes[x].children ==> r.nodes[x] == t.nodes[x])
                  && (forall c :: c in r.nodes[x].children <==> c in t.nodes[x].children && c != id))
            && r.root == (if t.root.Some? && Reaches(t.nodes, id, t.root.value) then None else t.root)
            && r.focused == (if t.focused.Some? && Reaches(t.nodes, id, t.focused.value) then None else t.focused)
  {
    if t.root.Some? {
      RootRemovedOnlyByItself(t, id);
    }
    if t.nodes[id].parent != Some(x) {
      assert id !in t.nodes[x].children;
    }
  }

  // ---- Focus over a run ----------------------------------------------------

  /** The call takes the focus from `id`: it clears it, or removes a subtree that holds the node. */
  ghost predicate LosesFocus(t: Tree, op: Op, id: NodeId) {
    op.OpClearFocused? || (op.OpRemoveNode? && op.id in t.nodes && id in t.nodes && Reaches(t.nodes, op.id, id))
  }

  /** The focus after a run, read off its calls: the target of the last focus call, unless it was lost since. */
  ghost function FocusOf(t: Tree, ops: seq<Op>): Option<NodeId> {
    if ops == [] then t.focused
    else
      var front, last := ops[..|ops| - 1], ops[|ops| - 1];
      if last.OpSetFocused? then Some(last.id)
      else if FocusOf(t, front).Some? && LosesFocus(Run(t, front), last, FocusOf(t, front).value) then None
      else FocusOf(t, front)
  }

  lemma {:induction false} FocusAfterRun(t: Tree, ops: seq<Op>)
    requires Inv(t) && AdmissibleThroughout(t, ops)
    ensures Run(t, ops).focused == FocusOf(t, ops)
  {
    if ops != [] {
      var front, last := ops[..|ops| - 1], ops[|ops| - 1];
      AdmissibleFront(t, ops);
      FocusAfterRun(t, front);
      AdmissibleRunUpTo(t, front, |front|);
      assert front[..|front|] == front;
      FocusAfterStep(Run(t, front), last);
    }
  }

  lemma AdmissibleFront(t: Tree, ops: seq<Op>)
    requires AdmissibleThroughout(t, ops) && ops != []
    ensures AdmissibleThroughout(t, ops[..|ops| - 1])
  {
    var front := ops[..|ops| - 1];
    forall k | 0 <= k < |front|
      ensures Admissible(Run(t, front[..k]), front[k])
    {
      assert front[..k] == ops[..k];
    }
  }

  lemma FocusAfterStep(t: Tree, op: Op)
    requires Inv(t)
    ensures Step(t, op).focused ==
            if op.OpSetFocused? then Some(op.id)
            else if t.focused.Some? && LosesFocus(t, op, t.focused.value) then None
            else t.focused
  {
  }

  /** So a focus call decides for as long as no other follows and nothing takes the focus away. */
  lemma FocusStaysSet(t: Tree, ops: seq<Op>, k: nat)
    requires Inv(t) && AdmissibleThroughout(t, ops) && k < |ops| && ops[k].OpSetFocused?
    requires forall j :: k < j < |ops| ==> !ops[j].OpSetFocused?
    ensures Run(t, ops).focused ==
            if exists j :: k < j < |ops| && LosesFocus(Run(t, ops[..j]), ops[j], ops[k].id)
            then None else Some(ops[k].id)
  {
    FocusAfterRun(t, ops);
    FocusOfSet(t, ops, k);
  }

  ghost predicate LostBetween(t: Tree, ops: seq<Op>, k: nat, id: NodeId) {
    exists j :: k < j < |ops| && LosesFocus(Run(t, ops[..j]), ops[j], id)
  }

  lemma {:induction false} FocusOfSet(t: Tree, ops: seq<Op>, k: nat)
    requires k < |ops| && ops[k].OpSetFocused? && forall j :: k < j < |ops| ==> !ops[j].OpSetFocused?
    ensures FocusOf(t, ops) == if LostBetween(t, ops, k, ops[k].id) then None else Some(ops[k].id)
  {
    var front, n, id := ops[..|ops| - 1], |ops| - 1, ops[k].id;
    if k < n {
      FocusOfSet(t, front, k);
      forall j | k < j < n
        ensures front[..j] == ops[..j] && front[j] == ops[j]
      {
      }
      assert LostBetween(t, ops, k, id) <==> LostBetween(t, front, k, id) || LosesFocus(Run(t, front), ops[n], id) by {
        assert ops[..n] == front;
        if LostBetween(t, front, k, id) {
          var j :| k < j < |front| && LosesFocus(Run(t, front[..j]), front[j], id);
          assert LosesFocus(Run(t, ops[..j]), ops[j], id);
        }
        if LostBetween(t, ops, k, id) {
          var j :| k < j < |ops| && LosesFocus(Run(t, ops[..j]), ops[j], id);
          if j < n {
            assert LosesFocus(Run(t, front[..j]), front[j], id);
          }
        }
      }
    }
  }

  // ---- The root over a run -------------------------------------------------

  /** The root after a run: the last one set, unless it was removed since. */
  ghost function RootOf(t: Tree, ops: seq<Op>): Option<NodeId> {
    if ops == [] then t.root
    else
      var front, last := ops[..|ops| - 1], ops[|ops| - 1];
      if last.OpSetRoot? then Some(last.node.id)
      else if last.OpRemoveNode? && RootOf(t, front) == Some(last.id) then None
      else RootOf(t, front)
  }

  lemma RootAfterStep(t: Tree, op: Op)
    requires Inv(t) && Admissible(t, op)
    ensures Step(t, op).root ==
            if op.OpSetRoot? then Some(op.node.id)
            else if op.OpRemoveNode? && t.root == Some(op.id) then None
            else t.root
  {
  }

  lemma {:induction false} RootAfterRun(t: Tree, ops: seq<Op>)
    requires Inv(t) && AdmissibleThroughout(t, ops)
    ensures Run(t, ops).root == RootOf(t, ops)
  {
    if ops != [] {
      var front, last := ops[..|ops| - 1], ops[|ops| - 1];
      AdmissibleFront(t, ops);
      RootAfterRun(t, front);
      AdmissibleRunUpTo(t, front, |front|);
      assert front[..|front|] == front;
      RootAfterStep(Run(t, front), last);
    }
  }

  // ---- Boxes ---------------------------------------------------------------

  /** A box holds its top left corner, unless it is empty, and no point of its right and bottom edges. */
  lemma BoxCorners(b: Bounds, d: real)
    requires 0.0 <= d
    ensures b.Contains(b.x, b.y) <==> 0.0 < b.width && 0.0 < b.height
    ensures !b.Contains(b.x + b.width + d, b.y) && !b.Contains(b.x, b.y + b.height + d)
    ensures 0.0 < d ==> !b.Contains(b.x - d, b.y) && !b.Contains(b.x, b.y - d)
  {
  }

  /** Boxes side by side, or one above the other, share no point and together make the box around them. */
  lemma BoxesTile(x: real, y: real, w: real, w': real, h: real, h': real, px: real, py: real)
    requires 0.0 <= w && 0.0 <= w' && 0.0 <= h && 0.0 <= h'
    ensures var a, b := Bounds(x, y, w, h), Bounds(x + w, y, w', h);
            && !(a.Contains(px, py) && b.Contains(px, py))
            && (a.Contains(px, py) || b.Contains(px, py) <==> Bounds(x, y, w + w', h).Contains(px, py))
    ensures var a, b := Bounds(x, y, w, h), Bounds(x, y + h, w, h');
            && !(a.Contains(px, py) && b.Contains(px, py))
            && (a.Contains(px, py) || b.Contains(px, py) <==> Bounds(x, y, w, h + h').Contains(px, py))
  {
  }

  /** Moving box and point together changes nothing, and neither coordinate decides alone. */
  lemma BoxMoves(b: Bounds, px: real, py: real, dx: real, dy: real)
    ensures b.Contains(px, py) <==> Bounds(b.x + dx, b.y + dy, b.width, b.height).Contains(px + dx, py + dy)
    ensures b.Contains(px, py) <==> b.Contains(px, b.y) && b.Contains(b.x, py)
  {
  }
}
