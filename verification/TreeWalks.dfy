/** What adding and removing nodes does to the walk of a tree. */
module TreeWalks {
  import opened Wrappers
  import opened Forest
  import opened ForestUpdates

  // ---- Walks that an update leaves alone -----------------------------------

  /** Everything below `id` has the same children in both maps. */
  ghost predicate SameBelow<D>(a: Nodes<D>, b: Nodes<D>, id: NodeId) {
    forall x {:trigger Reaches(a, id, x)} :: Reaches(a, id, x) ==> x in a && x in b && b[x].children == a[x].children
  }

  lemma SameBelowChild<D>(a: Nodes<D>, b: Nodes<D>, id: NodeId, c: NodeId)
    requires id in a && c in a[id].children && SameBelow(a, b, id)
    ensures SameBelow(a, b, c)
  {
    forall x | Reaches(a, c, x)
      ensures x in a && x in b && b[x].children == a[x].children
    {
      ReachesFromParent(a, id, c, x);
    }
  }

  lemma {:induction false} SameWalk<D>(a: Nodes<D>, b: Nodes<D>, id: NodeId)
    requires WellFormed(a) && WellFormed(b) && id in a && id in b && SameBelow(a, b, id)
    ensures Preorder(b, id) == Preorder(a, id)
    decreases RankOf(a)[id], |a[id].children| + 1
  {
    ReachesSelf(a, id);
    SameWalkFrom(a, b, id, 0);
  }

  lemma {:induction false} SameWalkFrom<D>(a: Nodes<D>, b: Nodes<D>, id: NodeId, k: nat)
    requires WellFormed(a) && WellFormed(b) && id in a && id in b && SameBelow(a, b, id)
    requires b[id].children == a[id].children && k <= |a[id].children|
    ensures PreorderFrom(b, id, k) == PreorderFrom(a, id, k)
    decreases RankOf(a)[id], |a[id].children| - k
  {
    if k < |a[id].children| {
      var c := a[id].children[k];
      assert c in a[id].children && c in b[id].children;
      SameBelowChild(a, b, id, c);
      SameWalk(a, b, c);
      SameWalkFrom(a, b, id, k + 1);
    }
  }

  // ---- add_node ------------------------------------------------------------

  /** A freshly added leaf is visited last in the subtree of its parent. */
  lemma AddedLeafIsWalkedLast<D>(nodes: Nodes<D>, parent: NodeId, node: Node<D>)
    requires WellFormed(nodes) && parent in nodes && node.id !in nodes && node.children == []
    ensures WellFormed(Attach(nodes, parent, node))
    ensures Preorder(Attach(nodes, parent, node), parent) == Preorder(nodes, parent) + [node.id]
  {
    AttachKeepsForestIff(nodes, parent, node);
    AddedLeafFrom(nodes, parent, node, 0);
  }

  lemma {:induction false} AddedLeafFrom<D>(nodes: Nodes<D>, parent: NodeId, node: Node<D>, k: nat)
    requires WellFormed(nodes) && parent in nodes && node.id !in nodes && node.children == []
    requires WellFormed(Attach(nodes, parent, node)) && k <= |nodes[parent].children|
    ensures PreorderFrom(Attach(nodes, parent, node), parent, k) == PreorderFrom(nodes, parent, k) + [node.id]
    decreases |nodes[parent].children| - k
  {
    var after := Attach(nodes, parent, node);
    assert after[parent].children == nodes[parent].children + [node.id];
    var c := after[parent].children[k];
    assert c in after[parent].children;
    if k == |nodes[parent].children| {
      assert after[node.id].children == [];
      assert PreorderFrom(after, node.id, 0) == [];
      assert PreorderFrom(after, parent, k + 1) == [];
    } else {
      assert c in nodes[parent].children;
      BesideParent(nodes, parent, node, c);
      SameWalk(nodes, after, c);
      AddedLeafFrom(nodes, parent, node, k + 1);
    }
  }

  lemma BesideParent<D>(nodes: Nodes<D>, parent: NodeId, node: Node<D>, c: NodeId)
    requires WellFormed(nodes) && parent in nodes && node.id !in nodes && c in nodes[parent].children
    ensures SameBelow(nodes, Attach(nodes, parent, node), c)
  {
    if Reaches(nodes, c, parent) {
      RankFalls(nodes, RankOf(nodes), c, parent);
    }
    NotAboveParent(nodes, parent, node, c);
  }

  lemma NotAboveParent<D>(nodes: Nodes<D>, parent: NodeId, node: Node<D>, c: NodeId)
    requires WellFormed(nodes) && parent in nodes && node.id !in nodes && !Reaches(nodes, c, parent)
    ensures SameBelow(nodes, Attach(nodes, parent, node), c)
  {
    forall x | Reaches(nodes, c, x)
      ensures x in nodes && x != parent
    {
      RankFalls(nodes, RankOf(nodes), c, x);
    }
  }

  /** The walk from any other node that is not above the parent is unchanged. */
  lemma AddedLeafElsewhere<D>(nodes: Nodes<D>, parent: NodeId, node: Node<D>, top: NodeId)
    requires WellFormed(nodes) && parent in nodes && node.id !in nodes && node.children == []
    requires top in nodes && !Reaches(nodes, top, parent)
    ensures WellFormed(Attach(nodes, parent, node))
    ensures Preorder(Attach(nodes, parent, node), top) == Preorder(nodes, top)
  {
    AttachKeepsForestIff(nodes, parent, node);
    NotAboveParent(nodes, parent, node, top);
    SameWalk(nodes, Attach(nodes, parent, node), top);
  }

  /** No child of `top` from the `k`-th on leads to `parent`. */
  ghost predicate NotBelowFrom<D>(nodes: Nodes<D>, top: NodeId, k: nat, parent: NodeId)
    requires top in nodes
  {
    forall j :: k <= j < |nodes[top].children| ==> !Reaches(nodes, nodes[top].children[j], parent)
  }

  lemma {:induction false} RestIsUnchanged<D>(nodes: Nodes<D>, parent: NodeId, node: Node<D>, top: NodeId, k: nat)
    requires WellFormed(nodes) && parent in nodes && node.id !in nodes && node.children == []
    requires WellFormed(Attach(nodes, parent, node))
    requires top in nodes && top != parent && k <= |nodes[top].children| && NotBelowFrom(nodes, top, k, parent)
    ensures PreorderFrom(Attach(nodes, parent, node), top, k) == PreorderFrom(nodes, top, k)
    decreases |nodes[top].children| - k
  {
    if k < |nodes[top].children| {
      var c := nodes[top].children[k];
      assert c in nodes[top].children;
      AddedLeafElsewhere(nodes, parent, node, c);
      RestIsUnchanged(nodes, parent, node, top, k + 1);
    }
  }

  /** `after` is `before` with one more element at the end of a block. */
  ghost predicate EndsBlock(before: seq<NodeId>, after: seq<NodeId>, block: seq<NodeId>, leaf: NodeId,
                            a: seq<NodeId>, b: seq<NodeId>) {
    before == a + block + b && after == a + block + [leaf] + b
  }

  lemma BlockBehind(before: seq<NodeId>, after: seq<NodeId>, block: seq<NodeId>, leaf: NodeId,
                    a: seq<NodeId>, b: seq<NodeId>, front: seq<NodeId>)
    requires EndsBlock(before, after, block, leaf, a, b)
    ensures EndsBlock(front + before, front + after, block, leaf, front + a, b)
  {
  }

  lemma BlockBefore(before: seq<NodeId>, after: seq<NodeId>, block: seq<NodeId>, leaf: NodeId,
                    a: seq<NodeId>, b: seq<NodeId>, tail: seq<NodeId>)
    requires EndsBlock(before, after, block, leaf, a, b)
    ensures EndsBlock(before + tail, after + tail, block, leaf, a, b + tail)
  {
  }

  lemma PreorderFromStep<D>(nodes: Nodes<D>, id: NodeId, k: nat)
    requires WellFormed(nodes) && id in nodes && k < |nodes[id].children|
    ensures nodes[id].children[k] in nodes
    ensures PreorderFrom(nodes, id, k) == Preorder(nodes, nodes[id].children[k]) + PreorderFrom(nodes, id, k + 1)
  {
    assert nodes[id].children[k] in nodes[id].children;
  }

  lemma LeadsBelow<D>(nodes: Nodes<D>, top: NodeId, x: NodeId)
    requires top in nodes && Reaches(nodes, top, x) && x != top
    ensures BelowFrom(nodes, top, 0, x)
  {
    FirstStep(nodes, top, x);
    var c :| c in nodes[top].children && Reaches(nodes, c, x);
    var j :| 0 <= j < |nodes[top].children| && nodes[top].children[j] == c;
    assert Reaches(nodes, nodes[top].children[j], x);
  }

  lemma ChildIsRanked<D>(nodes: Nodes<D>, id: NodeId, k: nat)
    requires WellFormed(nodes) && id in nodes && k < |nodes[id].children|
    ensures nodes[id].children[k] in nodes && RankOf(nodes)[nodes[id].children[k]] < RankOf(nodes)[id]
  {
    assert nodes[id].children[k] in nodes[id].children;
  }

  /** In the walk from any node above it the parent's block is the same but for the leaf at its end. */
  lemma {:induction false} AddedLeafEndsBlock<D>(nodes: Nodes<D>, parent: NodeId, node: Node<D>, top: NodeId)
      returns (a: seq<NodeId>, b: seq<NodeId>)
    requires WellFormed(nodes) && parent in nodes && node.id !in nodes && node.children == []
    requires top in nodes && Reaches(nodes, top, parent)
    ensures WellFormed(Attach(nodes, parent, node))
    ensures EndsBlock(Preorder(nodes, top), Preorder(Attach(nodes, parent, node), top),
                      Preorder(nodes, parent), node.id, a, b)
    decreases RankOf(nodes)[top], |nodes[top].children| + 1
  {
    AddedLeafIsWalkedLast(nodes, parent, node);
    if top == parent {
      a, b := [], [];
    } else {
      LeadsBelow(nodes, top, parent);
      a, b := AddedLeafEndsBlockFrom(nodes, parent, node, top, 0);
      var after := Attach(nodes, parent, node);
      BlockBehind(PreorderFrom(nodes, top, 0), PreorderFrom(after, top, 0), Preorder(nodes, parent), node.id,
                  a, b, [top]);
      a := [top] + a;
    }
  }

  lemma {:induction false} AddedLeafEndsBlockFrom<D>(nodes: Nodes<D>, parent: NodeId, node: Node<D>, top: NodeId,
                                                     k: nat)
      returns (a: seq<NodeId>, b: seq<NodeId>)
    requires WellFormed(nodes) && parent in nodes && node.id !in nodes && node.children == []
    requires WellFormed(Attach(nodes, parent, node))
    requires top in nodes && top != parent && k <= |nodes[top].children| && BelowFrom(nodes, top, k, parent)
    ensures EndsBlock(PreorderFrom(nodes, top, k), PreorderFrom(Attach(nodes, parent, node), top, k),
                      Preorder(nodes, parent), node.id, a, b)
    decreases RankOf(nodes)[top], |nodes[top].children| - k
  {
    var after, block := Attach(nodes, parent, node), Preorder(nodes, parent);
    var c := nodes[top].children[k];
    ChildIsRanked(nodes, top, k);
    PreorderFromStep(nodes, top, k);
    PreorderFromStep(after, top, k);
    if Reaches(nodes, c, parent) {
      a, b := AddedLeafEndsBlock(nodes, parent, node, c);
      OnlyOneLeadsThere(nodes, top, k, parent);
      RestIsUnchanged(nodes, parent, node, top, k + 1);
      var tail := PreorderFrom(nodes, top, k + 1);
      BlockBefore(Preorder(nodes, c), Preorder(after, c), block, node.id, a, b, tail);
      b := b + tail;
    } else {
      AddedLeafElsewhere(nodes, parent, node, c);
      a, b := AddedLeafEndsBlockFrom(nodes, parent, node, top, k + 1);
      var front := Preorder(nodes, c);
      BlockBehind(PreorderFrom(nodes, top, k + 1), PreorderFrom(after, top, k + 1), block, node.id, a, b, front);
      a := front + a;
    }
  }

  lemma OnlyOneLeadsThere<D>(nodes: Nodes<D>, top: NodeId, k: nat, parent: NodeId)
    requires WellFormed(nodes) && top in nodes && k < |nodes[top].children|
    requires Reaches(nodes, nodes[top].children[k], parent)
    ensures NotBelowFrom(nodes, top, k + 1, parent)
  {
    var kids := nodes[top].children;
    forall j | k < j < |kids|
      ensures !Reaches(nodes, kids[j], parent)
    {
      assert kids[j] in kids && kids[k] in kids;
      SiblingsDisjoint(nodes, top, kids[k], kids[j], parent);
    }
  }

  // ---- remove_node ---------------------------------------------------------

  /** The elements of `s` outside `gone`, in order. */
  ghost function Keep(s: seq<NodeId>, gone: set<NodeId>): seq<NodeId> {
    if s == [] then [] else (if s[0] in gone then [] else [s[0]]) + Keep(s[1..], gone)
  }

  lemma {:induction false} KeepConcat(a: seq<NodeId>, b: seq<NodeId>, gone: set<NodeId>)
    ensures Keep(a + b, gone) == Keep(a, gone) + Keep(b, gone)
  {
    if a == [] {
      assert a + b == b;
    } else {
      assert (a + b)[1..] == a[1..] + b;
      KeepConcat(a[1..], b, gone);
    }
  }

  lemma {:induction false} KeepNothing(s: seq<NodeId>, gone: set<NodeId>)
    requires forall x :: x in s ==> x in gone
    ensures Keep(s, gone) == []
  {
    if s != [] {
      KeepNothing(s[1..], gone);
    }
  }

  /** The walk of each subtree, by its root. */
  ghost function WalkOf<D>(nodes: Nodes<D>): NodeId -> seq<NodeId>
    requires WellFormed(nodes)
  {
    var walks := map x | x in nodes :: Preorder(nodes, x);
    x => if x in walks then walks[x] else []
  }

  /** The walks of several subtrees, one after the other. */
  ghost function Walks(walk: NodeId -> seq<NodeId>, ids: seq<NodeId>): seq<NodeId> {
    if ids == [] then [] else walk(ids[0]) + Walks(walk, ids[1..])
  }

  lemma {:induction false} PreorderFromIsWalks<D>(nodes: Nodes<D>, id: NodeId, k: nat)
    requires WellFormed(nodes) && id in nodes && k <= |nodes[id].children|
    ensures PreorderFrom(nodes, id, k) == Walks(WalkOf(nodes), nodes[id].children[k..])
    decreases |nodes[id].children| - k
  {
    var kids := nodes[id].children;
    if k < |kids| {
      PreorderFromIsWalks(nodes, id, k + 1);
      assert kids[k] in kids && kids[k..][1..] == kids[k + 1..];
    }
  }

  /** Dropping one child and filtering the walks of the others filters the whole. */
  lemma {:induction false} FiltersWalks(before: NodeId -> seq<NodeId>, after: NodeId -> seq<NodeId>, gone: set<NodeId>,
                                        id: NodeId, kids: seq<NodeId>)
    requires Keep(before(id), gone) == []
    requires forall c :: c in kids && c != id ==> after(c) == Keep(before(c), gone)
    ensures Walks(after, Without(kids, id)) == Keep(Walks(before, kids), gone)
  {
    if kids != [] {
      var c, rest := kids[0], kids[1..];
      assert c in kids && forall y :: y in rest ==> y in kids;
      FiltersWalks(before, after, gone, id, rest);
      var kept := Without(rest, id);
      assert Keep(Walks(before, kids), gone) == Keep(before(c), gone) + Walks(after, kept) by {
        KeepConcat(before(c), Walks(before, rest), gone);
      }
      if c == id {
        assert Without(kids, id) == [] + kept == kept;
      } else {
        assert Without(kids, id) == [c] + kept && ([c] + kept)[1..] == kept;
      }
    }
  }

  /** What the walk needs to know of a removal: each remaining node keeps its remaining children in order. */
  ghost predicate KeepsOthers<D>(nodes: Nodes<D>, after: Nodes<D>, id: NodeId) {
    && (forall x :: x in after ==> x in nodes && after[x].children == Without(nodes[x].children, id))
    && (forall x, c :: x in after && c in nodes[x].children && c != id ==> c in after)
  }

  lemma RemainingLists<D>(nodes: Nodes<D>, id: NodeId, x: NodeId)
    requires WellFormed(nodes) && id in nodes && x in RemoveSubtree(nodes, id)
    ensures RemoveSubtree(nodes, id)[x].children == Without(nodes[x].children, id)
  {
    if nodes[id].parent != Some(x) {
      assert id !in nodes[x].children;
    }
  }

  lemma RemainingHeld<D>(nodes: Nodes<D>, id: NodeId, x: NodeId, c: NodeId)
    requires WellFormed(nodes) && id in nodes && x in RemoveSubtree(nodes, id)
    requires c in nodes[x].children && c != id
    ensures c in RemoveSubtree(nodes, id)
  {
    if Reaches(nodes, id, c) {
      ReachesParent(nodes, id, c);
    }
  }

  lemma RemovalKeepsOthers<D>(nodes: Nodes<D>, id: NodeId)
    requires WellFormed(nodes) && id in nodes
    ensures KeepsOthers(nodes, RemoveSubtree(nodes, id), id)
  {
    var after := RemoveSubtree(nodes, id);
    forall x | x in after
      ensures after[x].children == Without(nodes[x].children, id)
    {
      RemainingLists(nodes, id, x);
    }
    forall x, c | x in after && c in nodes[x].children && c != id
      ensures c in after
    {
      RemainingHeld(nodes, id, x, c);
    }
  }

  /** Removing a subtree takes its nodes out of the walk and leaves the order of the others. */
  lemma RemovalFiltersWalk<D>(nodes: Nodes<D>, id: NodeId, x: NodeId)
    requires WellFormed(nodes) && id in nodes && x in RemoveSubtree(nodes, id)
    ensures WellFormed(RemoveSubtree(nodes, id))
    ensures Preorder(RemoveSubtree(nodes, id), x) == Keep(Preorder(nodes, x), Subtree(nodes, id))
  {
    RemoveSubtreeKeepsForest(nodes, id);
    RemovalKeepsOthers(nodes, id);
    SubtreeIsGone(nodes, id);
    FiltersWalk(nodes, RemoveSubtree(nodes, id), Subtree(nodes, id), id, x);
  }

  lemma {:induction false} FiltersWalk<D>(nodes: Nodes<D>, after: Nodes<D>, gone: set<NodeId>, id: NodeId, x: NodeId)
    requires WellFormed(nodes) && WellFormed(after) && KeepsOthers(nodes, after, id) && x in after
    requires id in nodes && Keep(Preorder(nodes, id), gone) == [] && after.Keys !! gone
    ensures Preorder(after, x) == Keep(Preorder(nodes, x), gone)
    decreases RankOf(nodes)[x]
  {
    var kids := nodes[x].children;
    forall c | c in kids && c != id
      ensures WalkOf(after)(c) == Keep(WalkOf(nodes)(c), gone)
    {
      FiltersWalk(nodes, after, gone, id, c);
    }
    FiltersWalks(WalkOf(nodes), WalkOf(after), gone, id, kids);
    PreorderFromIsWalks(nodes, x, 0);
    PreorderFromIsWalks(after, x, 0);
    assert kids[0..] == kids && after[x].children[0..] == after[x].children;
    KeepConcat([x], PreorderFrom(nodes, x, 0), gone);
  }

  lemma SubtreeIsGone<D>(nodes: Nodes<D>, id: NodeId)
    requires WellFormed(nodes) && id in nodes
    ensures Keep(Preorder(nodes, id), Subtree(nodes, id)) == []
  {
    PreorderIsSubtree(nodes, id);
    forall y | y in Preorder(nodes, id)
      ensures y in Subtree(nodes, id)
    {
      RankFalls(nodes, RankOf(nodes), id, y);
    }
    KeepNothing(Preorder(nodes, id), Subtree(nodes, id));
  }
}
