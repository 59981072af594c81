/**
 What the two accessibility trees do to their node maps, and exactly when each update leaves a forest.
 */
module ForestUpdates {
  import opened Wrappers
  import opened Forest

  /** The node inserted under its own id: the map part of `set_root`. */
  function Insert<D>(nodes: Nodes<D>, node: Node<D>): Nodes<D> {
    nodes[node.id := node]
  }

  /** The map part of `add_node`: insert the node naming its parent, then list it there. */
  function Attach<D>(nodes: Nodes<D>, parent: NodeId, node: Node<D>): Nodes<D>
    requires parent in nodes
  {
    var inserted := nodes[node.id := node.(parent := Some(parent))];
    inserted[parent := inserted[parent].(children := inserted[parent].children + [node.id])]
  }

  /** `retain(|c| c != x)` */
  function Without(s: seq<NodeId>, x: NodeId): (r: seq<NodeId>)
    ensures forall y :: y in r <==> y in s && y != x
    ensures x !in s ==> r == s
  {
    if s == [] then [] else (if s[0] == x then [] else [s[0]]) + Without(s[1..], x)
  }

  /** The map part of `remove_node`, stated by reachability instead of by a worklist. */
  ghost function RemoveSubtree<D>(nodes: Nodes<D>, id: NodeId): Nodes<D>
    requires id in nodes
  {
    var gone := Subtree(nodes, id);
    map x | x in nodes && x !in gone :: Unlisted(nodes, id, x)
  }

  function Unlisted<D>(nodes: Nodes<D>, id: NodeId, x: NodeId): Node<D>
    requires id in nodes && x in nodes
  {
    if nodes[id].parent == Some(x) then nodes[x].(children := Without(nodes[x].children, id)) else nodes[x]
  }

  /** The node dropped from the child list of its parent, and everything else as it was. */
  function Unlink<D>(nodes: Nodes<D>, id: NodeId): Nodes<D>
    requires id in nodes
  {
    var parent := nodes[id].parent;
    if parent.Some? && parent.value in nodes
    then nodes[parent.value := nodes[parent.value].(children := Without(nodes[parent.value].children, id))]
    else nodes
  }

  /** The deletion loop of both `remove_node` methods. */
  method DeleteAll<D>(nodes: Nodes<D>, ids: seq<NodeId>) returns (rest: Nodes<D>)
    ensures rest == nodes - (set x | x in ids)
  {
    rest := nodes;
    for k := 0 to |ids|
      invariant rest == nodes - (set x | x in ids[..k])
    {
      rest := rest - {ids[k]};
      assert ids[..k + 1] == ids[..k] + [ids[k]];
    }
    assert ids[..|ids|] == ids;
  }

  /** Unlinking a node and deleting what the worklist found removes its subtree. */
  lemma UnlinkThenDelete<D>(nodes: Nodes<D>, id: NodeId)
    requires WellFormed(nodes) && id in nodes
    ensures Unlink(nodes, id) - Subtree(nodes, id) == RemoveSubtree(nodes, id)
  {
    assert ListedByParent(nodes, id);
    var left, right := Unlink(nodes, id) - Subtree(nodes, id), RemoveSubtree(nodes, id);
    assert left.Keys == right.Keys;
    forall x | x in left
      ensures left[x] == right[x]
    {
      assert right[x] == Unlisted(nodes, id, x);
    }
  }

  /** The part that both `remove_node` methods share: collect the subtree, unlink it from its parent, delete it. */
  method Detach<D>(nodes: Nodes<D>, id: NodeId) returns (rest: Nodes<D>, removed: seq<NodeId>)
    requires WellFormed(nodes) && id in nodes
    ensures rest == RemoveSubtree(nodes, id)
    ensures NoDuplicates(removed) && (set x | x in removed) == Subtree(nodes, id)
  {
    removed := CollectSubtree(nodes, id);
    UnlinkThenDelete(nodes, id);
    rest := nodes;
    if nodes[id].parent.Some? {
      var pid := nodes[id].parent.value;
      if pid in nodes {
        rest := nodes[pid := nodes[pid].(children := Without(nodes[pid].children, id))];
      }
    }
    rest := DeleteAll(rest, removed);
  }

  lemma {:induction false} WithoutNoDuplicates(s: seq<NodeId>, x: NodeId)
    requires NoDuplicates(s)
    ensures NoDuplicates(Without(s, x))
  {
    if s != [] {
      WithoutNoDuplicates(s[1..], x);
      assert forall y :: y in s[1..] ==> y != s[0];
      ConcatNoDuplicates(if s[0] == x then [] else [s[0]], Without(s[1..], x));
    }
  }

  lemma AppendRepeats(s: seq<NodeId>, x: NodeId)
    ensures x in s ==> !NoDuplicates(s + [x])
  {
    if x in s {
      var j :| 0 <= j < |s| && s[j] == x;
      assert (s + [x])[j] == (s + [x])[|s|];
    }
  }

  lemma EmptyOrInhabited(s: seq<NodeId>)
    ensures s == [] || exists x :: x in s
  {
    if s != [] {
      assert s[0] in s;
    }
  }

  ghost predicate SameElements(a: seq<NodeId>, b: seq<NodeId>) {
    forall x :: x in a <==> x in b
  }

  // ---- remove_node ---------------------------------------------------------

  /** A remaining node is listed by its remaining parent and by no other. */
  lemma RemainingChild<D>(nodes: Nodes<D>, id: NodeId, x: NodeId, c: NodeId)
    requires WellFormed(nodes) && id in nodes
    requires x in RemoveSubtree(nodes, id) && c in RemoveSubtree(nodes, id)[x].children
    ensures c in nodes[x].children && c in RemoveSubtree(nodes, id)
    ensures RemoveSubtree(nodes, id)[c].parent == Some(x)
  {
    assert c in nodes[x].children && nodes[c].parent == Some(x);
    if Reaches(nodes, id, c) && c != id {
      ReachesParent(nodes, id, c);
    }
  }

  lemma RemainingParent<D>(nodes: Nodes<D>, id: NodeId, x: NodeId)
    requires WellFormed(nodes) && id in nodes && x in RemoveSubtree(nodes, id)
    ensures ListedByParent(RemoveSubtree(nodes, id), x)
  {
    ReachesSelf(nodes, id);
    assert ListedByParent(nodes, x);
    if nodes[x].parent.Some? && Reaches(nodes, id, nodes[x].parent.value) {
      ReachesChild(nodes, id, nodes[x].parent.value, x);
    }
  }

  lemma RemainingIsRanked<D>(nodes: Nodes<D>, id: NodeId)
    requires WellFormed(nodes) && id in nodes
    ensures Ranked(RemoveSubtree(nodes, id), RankOf(nodes))
  {
    var after := RemoveSubtree(nodes, id);
    forall x, c | x in after && c in after[x].children && c in after
      ensures RankOf(nodes)[c] < RankOf(nodes)[x]
    {
      RemainingChild(nodes, id, x, c);
    }
  }

  lemma RemainingIsLinked<D>(nodes: Nodes<D>, id: NodeId)
    requires WellFormed(nodes) && id in nodes
    ensures Linked(RemoveSubtree(nodes, id))
  {
    var after := RemoveSubtree(nodes, id);
    forall x | x in after
      ensures after[x].id == x && NoDuplicates(after[x].children) && ListedByParent(after, x)
    {
      WithoutNoDuplicates(nodes[x].children, id);
      RemainingParent(nodes, id, x);
    }
    forall x, c | x in after && c in after[x].children
      ensures c in after && after[c].parent == Some(x)
    {
      RemainingChild(nodes, id, x, c);
    }
  }

  lemma RemoveSubtreeKeepsForest<D>(nodes: Nodes<D>, id: NodeId)
    requires WellFormed(nodes) && id in nodes
    ensures WellFormed(RemoveSubtree(nodes, id))
  {
    RemainingIsLinked(nodes, id);
    RemainingIsRanked(nodes, id);
  }

  // ---- add_node ------------------------------------------------------------

  /**
   The calls of `add_node` that keep a forest: a fresh node without children, or a detached tree whose
   top is overwritten by a node with the same children, hung under a node outside that tree.
   */
  ghost predicate Attachable<D>(nodes: Nodes<D>, parent: NodeId, node: Node<D>) {
    if node.id in nodes then
      && nodes[node.id].parent == None
      && SameElements(node.children, nodes[node.id].children) && NoDuplicates(node.children)
      && !Reaches(nodes, node.id, parent)
    else
      node.children == []
  }

  lemma AttachIsLinked<D>(nodes: Nodes<D>, parent: NodeId, node: Node<D>)
    requires Linked(nodes) && parent in nodes && Attachable(nodes, parent, node)
    ensures Linked(Attach(nodes, parent, node))
  {
    var after := Attach(nodes, parent, node);
    assert node.id != parent by {
      if node.id == parent { ReachesSelf(nodes, parent); }
    }
    assert node.id !in nodes[parent].children;
    assert NoDuplicates(nodes[parent].children + [node.id]);
    assert after[parent].children == nodes[parent].children + [node.id];
    forall x | x in after
      ensures ListedByParent(after, x)
    {
      if x != node.id {
        assert ListedByParent(nodes, x);
        if nodes[x].parent == Some(node.id) {
          assert x in nodes[node.id].children;
        }
      }
    }
  }

  lemma AttachIsRanked<D>(nodes: Nodes<D>, parent: NodeId, node: Node<D>) returns (rank: map<NodeId, nat>)
    requires WellFormed(nodes) && parent in nodes && Attachable(nodes, parent, node)
    ensures Ranked(Attach(nodes, parent, node), rank)
  {
    var after := Attach(nodes, parent, node);
    var below := RankOf(nodes);
    // Everything outside the attached tree is lifted above its top.
    var lift := if node.id in nodes then below[node.id] + 1 else 1;
    rank := map x | x in after ::
      if x !in nodes then 0 else if Reaches(nodes, node.id, x) then below[x] else below[x] + lift;
    if node.id in nodes {
      ReachesSelf(nodes, node.id);
    }
    forall x, c | x in after && c in after[x].children && c in after
      ensures rank[c] < rank[x]
    {
      if x == parent && c == node.id {
        assert rank[x] >= lift;
      } else {
        assert x in nodes && c in nodes[x].children;
        assert below[c] < below[x];
        if Reaches(nodes, node.id, x) {
          ReachesChild(nodes, node.id, x, c);
        } else if Reaches(nodes, node.id, c) && c != node.id {
          ReachesParent(nodes, node.id, c);
        }
      }
    }
  }

  /** A chain of the map before the call is still a chain after it. */
  lemma AttachKeepsChains<D>(nodes: Nodes<D>, parent: NodeId, node: Node<D>, top: NodeId, x: NodeId)
    requires parent in nodes && Reaches(nodes, top, x)
    requires node.id in nodes && SameElements(node.children, nodes[node.id].children)
    ensures Reaches(Attach(nodes, parent, node), top, x)
  {
    var p :| ChainBetween(nodes, top, x, p);
    assert ChainBetween(Attach(nodes, parent, node), top, x, p);
  }

  lemma ForestNeedsAttachable<D>(nodes: Nodes<D>, parent: NodeId, node: Node<D>)
    requires WellFormed(nodes) && parent in nodes && WellFormed(Attach(nodes, parent, node))
    ensures Attachable(nodes, parent, node)
  {
    var after := Attach(nodes, parent, node);
    var rank := RankOf(after);
    var kids := after[parent].children;
    assert kids[|kids| - 1] == node.id && node.id in kids;
    assert node.id != parent;
    assert after[node.id] == node.(parent := Some(parent));
    forall c | c in node.children
      ensures node.id in nodes && c in nodes[node.id].children
    {
      assert after[c].parent == Some(node.id) && c != node.id;
      assert ListedByParent(nodes, c);
    }
    if node.id !in nodes {
      EmptyOrInhabited(node.children);
    } else {
      AppendRepeats(nodes[parent].children, node.id);
      assert ListedByParent(nodes, node.id);
      assert nodes[node.id].parent == None;
      forall c | c in nodes[node.id].children
        ensures c in node.children
      {
        assert nodes[c].parent == Some(node.id) && c != node.id;
        assert ListedByParent(after, c);
      }
      if Reaches(nodes, node.id, parent) {
        AttachKeepsChains(nodes, parent, node, node.id, parent);
        RankFalls(after, rank, node.id, parent);
        assert false;
      }
    }
  }

  /** `add_node` checks neither the id nor the children; this is exactly what a caller has to check. */
  lemma AttachKeepsForestIff<D>(nodes: Nodes<D>, parent: NodeId, node: Node<D>)
    requires WellFormed(nodes) && parent in nodes
    ensures WellFormed(Attach(nodes, parent, node)) <==> Attachable(nodes, parent, node)
  {
    if Attachable(nodes, parent, node) {
      AttachIsLinked(nodes, parent, node);
      var rank := AttachIsRanked(nodes, parent, node);
    }
    if WellFormed(Attach(nodes, parent, node)) {
      ForestNeedsAttachable(nodes, parent, node);
    }
  }

  // ---- set_root ------------------------------------------------------------

  /** The calls of `set_root` that keep a forest. */
  ghost predicate Insertable<D>(nodes: Nodes<D>, node: Node<D>) {
    if node.id in nodes then
      && node.parent == nodes[node.id].parent
      && SameElements(node.children, nodes[node.id].children) && NoDuplicates(node.children)
    else
      node.children == [] && node.parent == None
  }

  lemma InsertKeepsForest<D>(nodes: Nodes<D>, node: Node<D>)
    requires WellFormed(nodes) && Insertable(nodes, node)
    ensures WellFormed(Insert(nodes, node))
  {
    InsertIsLinked(nodes, node);
    InsertIsRanked(nodes, node);
  }

  lemma InsertIsLinked<D>(nodes: Nodes<D>, node: Node<D>)
    requires Linked(nodes) && Insertable(nodes, node)
    ensures Linked(Insert(nodes, node))
  {
    var after := Insert(nodes, node);
    forall x | x in after
      ensures ListedByParent(after, x)
    {
      if x in nodes { assert ListedByParent(nodes, x); }
    }
  }

  lemma InsertIsRanked<D>(nodes: Nodes<D>, node: Node<D>)
    requires WellFormed(nodes) && Insertable(nodes, node)
    ensures exists rank :: Ranked(Insert(nodes, node), rank)
  {
    var below := RankOf(nodes);
    var rank := below[node.id := if node.id in nodes then below[node.id] else 0];
    assert Ranked(Insert(nodes, node), rank);
  }

  lemma ForestNeedsInsertable<D>(nodes: Nodes<D>, node: Node<D>)
    requires WellFormed(nodes) && WellFormed(Insert(nodes, node))
    ensures Insertable(nodes, node)
  {
    var after := Insert(nodes, node);
    var rank := RankOf(after);
    forall c | c in node.children
      ensures node.id in nodes && c in nodes[node.id].children
    {
      assert after[node.id] == node;
      assert after[c].parent == Some(node.id) && c != node.id;
      assert ListedByParent(nodes, c);
    }
    assert ListedByParent(after, node.id);
    if node.parent.Some? {
      var q := node.parent.value;
      assert q != node.id && node.id in nodes[q].children;
    }
    if node.id !in nodes {
      EmptyOrInhabited(node.children);
    } else {
      forall c | c in nodes[node.id].children
        ensures c in node.children
      {
        assert nodes[c].parent == Some(node.id) && c != node.id;
        assert ListedByParent(after, c);
      }
      assert ListedByParent(nodes, node.id);
      if nodes[node.id].parent.Some? {
        var q := nodes[node.id].parent.value;
        assert q != node.id && node.id in after[q].children;
      }
    }
  }

  lemma InsertKeepsForestIff<D>(nodes: Nodes<D>, node: Node<D>)
    requires WellFormed(nodes)
    ensures WellFormed(Insert(nodes, node)) <==> Insertable(nodes, node)
  {
    if Insertable(nodes, node) {
      InsertKeepsForest(nodes, node);
    }
    if WellFormed(Insert(nodes, node)) {
      ForestNeedsInsertable(nodes, node);
    }
  }
}
