/**
 The theory of a forest stored as a map of nodes with parent links and child lists, shared by the
 two accessibility trees.  `data` stands for the fields of a node that the links do not depend on.
 */
module Forest {
  import opened Wrappers

  type NodeId = nat

  datatype Node<D> = Node(id: NodeId, data: D, children: seq<NodeId>, parent: Option<NodeId>)

  type Nodes<D> = map<NodeId, Node<D>>

  ghost predicate NoDuplicates<T>(s: seq<T>) {
    forall i, j :: 0 <= i < j < |s| ==> s[i] != s[j]
  }

  lemma ConcatNoDuplicates<T>(a: seq<T>, b: seq<T>)
    requires NoDuplicates(a) && NoDuplicates(b) && forall x :: x in b ==> x !in a
    ensures NoDuplicates(a + b)
  {
    forall i, j | 0 <= i < j < |a + b|
      ensures (a + b)[i] != (a + b)[j]
    {
      if i < |a| <= j {
        assert (a + b)[j] in b && (a + b)[i] in a;
      }
    }
  }

  // ---- Well-formedness -----------------------------------------------------

  /** A child stands under the parent that it names. */
  ghost predicate ChildrenNameParent<D>(nodes: Nodes<D>) {
    forall id, c :: id in nodes && c in nodes[id].children ==> c in nodes && nodes[c].parent == Some(id)
  }

  /** The parent that a node names exists and lists the node. */
  ghost predicate ListedByParent<D>(nodes: Nodes<D>, id: NodeId)
    requires id in nodes
  {
    nodes[id].parent.Some? ==>
      nodes[id].parent.value in nodes && id in nodes[nodes[id].parent.value].children
  }

  // The trigger keeps the solver from climbing from parent to parent by itself.
  ghost predicate ParentsListChild<D>(nodes: Nodes<D>) {
    forall id {:trigger ListedByParent(nodes, id)} :: id in nodes ==> ListedByParent(nodes, id)
  }

  ghost predicate Linked<D>(nodes: Nodes<D>) {
    && (forall id :: id in nodes ==> nodes[id].id == id)
    && (forall id :: id in nodes ==> NoDuplicates(nodes[id].children))
    && ChildrenNameParent(nodes)
    && ParentsListChild(nodes)
  }

  /** `rank` falls along every child link, so no chain of links is cyclic. */
  ghost predicate Ranked<D>(nodes: Nodes<D>, rank: map<NodeId, nat>) {
    && (forall id :: id in nodes ==> id in rank)
    && (forall id, c :: id in nodes && c in nodes[id].children && c in nodes ==> rank[c] < rank[id])
  }

  ghost predicate WellFormed<D>(nodes: Nodes<D>) {
    Linked(nodes) && exists rank :: Ranked(nodes, rank)
  }

  ghost function RankOf<D>(nodes: Nodes<D>): (rank: map<NodeId, nat>)
    requires WellFormed(nodes)
    ensures Ranked(nodes, rank)
  {
    var rank :| Ranked(nodes, rank); rank
  }

  // ---- Reachability --------------------------------------------------------

  /** A chain of child links, top node first. */
  ghost predicate Chain<D>(nodes: Nodes<D>, p: seq<NodeId>) {
    && p != []
    && (forall i :: 0 <= i < |p| ==> p[i] in nodes)
    && (forall i :: 0 < i < |p| ==> p[i] in nodes[p[i - 1]].children)
  }

  ghost predicate ChainBetween<D>(nodes: Nodes<D>, top: NodeId, bottom: NodeId, p: seq<NodeId>) {
    Chain(nodes, p) && p[0] == top && p[|p| - 1] == bottom
  }

  ghost predicate Reaches<D>(nodes: Nodes<D>, top: NodeId, bottom: NodeId) {
    exists p :: ChainBetween(nodes, top, bottom, p)
  }

  ghost function Subtree<D>(nodes: Nodes<D>, top: NodeId): set<NodeId> {
    set x | x in nodes && Reaches(nodes, top, x)
  }

  lemma ReachesSelf<D>(nodes: Nodes<D>, id: NodeId)
    requires id in nodes
    ensures Reaches(nodes, id, id)
  {
    assert ChainBetween(nodes, id, id, [id]);
  }

  lemma ReachesChild<D>(nodes: Nodes<D>, top: NodeId, x: NodeId, c: NodeId)
    requires Reaches(nodes, top, x) && c in nodes && c in nodes[x].children
    ensures Reaches(nodes, top, c)
  {
    var p :| ChainBetween(nodes, top, x, p);
    assert ChainBetween(nodes, top, c, p + [c]);
  }

  lemma ReachesFromParent<D>(nodes: Nodes<D>, top: NodeId, c: NodeId, x: NodeId)
    requires top in nodes && c in nodes[top].children && Reaches(nodes, c, x)
    ensures Reaches(nodes, top, x)
  {
    var p :| ChainBetween(nodes, c, x, p);
    assert ChainBetween(nodes, top, x, [top] + p);
  }

  /** Below its top a chain goes through one of the top's children. */
  lemma FirstStep<D>(nodes: Nodes<D>, top: NodeId, x: NodeId)
    requires Reaches(nodes, top, x)
    ensures top in nodes
    ensures x == top || exists c :: c in nodes[top].children && Reaches(nodes, c, x)
  {
    var p :| ChainBetween(nodes, top, x, p);
    if |p| > 1 {
      assert p[1] in nodes[p[0]].children;
      assert ChainBetween(nodes, p[1], x, p[1..]);
    }
  }

  /** The last step of a chain goes through the parent of its end. */
  lemma ReachesParent<D>(nodes: Nodes<D>, top: NodeId, x: NodeId)
    requires ChildrenNameParent(nodes) && Reaches(nodes, top, x) && x != top
    ensures x in nodes && nodes[x].parent.Some? && nodes[x].parent.value in nodes
    ensures x in nodes[nodes[x].parent.value].children
    ensures Reaches(nodes, top, nodes[x].parent.value)
  {
    var p :| ChainBetween(nodes, top, x, p);
    var q := p[..|p| - 1];
    assert p[|p| - 1] in nodes[p[|p| - 2]].children;
    assert ChainBetween(nodes, top, p[|p| - 2], q);
  }

  lemma {:induction false} RankFallsAlongChain<D>(nodes: Nodes<D>, rank: map<NodeId, nat>, p: seq<NodeId>)
    requires Ranked(nodes, rank) && Chain(nodes, p)
    ensures |p| > 1 ==> rank[p[|p| - 1]] < rank[p[0]]
    decreases |p|
  {
    if |p| > 1 {
      var q := p[..|p| - 1];
      RankFallsAlongChain(nodes, rank, q);
      assert p[|p| - 1] in nodes[p[|p| - 2]].children;
    }
  }

  lemma RankFalls<D>(nodes: Nodes<D>, rank: map<NodeId, nat>, top: NodeId, x: NodeId)
    requires Ranked(nodes, rank) && Reaches(nodes, top, x)
    ensures top in nodes && x in nodes
    ensures x == top || rank[x] < rank[top]
  {
    var p :| ChainBetween(nodes, top, x, p);
    RankFallsAlongChain(nodes, rank, p);
  }

  /** Two nodes above the same node are above one another: the ancestors of a node form a chain. */
  lemma {:induction false} AncestorsComparable<D>(nodes: Nodes<D>, a: NodeId, b: NodeId, x: NodeId, p: seq<NodeId>)
    requires Linked(nodes) && ChainBetween(nodes, a, x, p) && Reaches(nodes, b, x)
    ensures Reaches(nodes, a, b) || Reaches(nodes, b, a)
    decreases |p|
  {
    if x == b {
    } else if |p| == 1 {
    } else {
      ReachesParent(nodes, b, x);
      assert p[|p| - 1] in nodes[p[|p| - 2]].children;
      assert nodes[x].parent == Some(p[|p| - 2]);
      assert ChainBetween(nodes, a, p[|p| - 2], p[..|p| - 1]);
      AncestorsComparable(nodes, a, b, p[|p| - 2], p[..|p| - 1]);
    }
  }

  /** Subtrees of two different children of one node are disjoint. */
  lemma SiblingsDisjoint<D>(nodes: Nodes<D>, id: NodeId, c: NodeId, d: NodeId, x: NodeId)
    requires WellFormed(nodes) && id in nodes && c in nodes[id].children && d in nodes[id].children && c != d
    ensures !(Reaches(nodes, c, x) && Reaches(nodes, d, x))
  {
    if Reaches(nodes, c, x) && Reaches(nodes, d, x) {
      var p :| ChainBetween(nodes, c, x, p);
      AncestorsComparable(nodes, c, d, x, p);
      var rank := RankOf(nodes);
      if Reaches(nodes, c, d) {
        ReachesParent(nodes, c, d);
        RankFalls(nodes, rank, c, id);
      } else {
        ReachesParent(nodes, d, c);
        RankFalls(nodes, rank, d, id);
      }
      assert false;
    }
  }

  // ---- Worklist ------------------------------------------------------------

  /** A set of nodes that holds `top` and is closed under child links holds everything below `top`. */
  lemma {:induction false} ClosedHoldsChain<D>(nodes: Nodes<D>, found: seq<NodeId>, p: seq<NodeId>)
    requires Chain(nodes, p) && p[0] in found
    requires forall x, c :: x in found && x in nodes && c in nodes[x].children ==> c in found
    ensures p[|p| - 1] in found
    decreases |p|
  {
    if |p| > 1 {
      ClosedHoldsChain(nodes, found, p[..|p| - 1]);
      assert p[|p| - 1] in nodes[p[|p| - 2]].children;
    }
  }

  ghost predicate ParentExpanded<D>(nodes: Nodes<D>, found: seq<NodeId>, i: nat, k: nat)
    requires i <= |found| && k < |found|
  {
    found[k] in nodes && nodes[found[k]].parent.Some? && nodes[found[k]].parent.value in found[..i]
  }

  /** `found[..i]` has been expanded; everything else in `found` is the child of an expanded node. */
  ghost predicate WorklistInvariant<D>(nodes: Nodes<D>, id: NodeId, found: seq<NodeId>, i: nat) {
    && i <= |found| && 0 < |found| && found[0] == id
    && NoDuplicates(found)
    && (forall k :: 0 <= k < |found| ==> found[k] in nodes && Reaches(nodes, id, found[k]))
    && (forall k :: 0 < k < |found| ==> ParentExpanded(nodes, found, i, k))
    && (forall k, c :: 0 <= k < i && c in nodes[found[k]].children ==> c in found)
  }

  /** The children of the next node to expand are reached for the first time. */
  lemma ChildrenAreNew<D>(nodes: Nodes<D>, id: NodeId, found: seq<NodeId>, i: nat, c: NodeId)
    requires WellFormed(nodes) && WorklistInvariant(nodes, id, found, i) && i < |found|
    requires c in nodes[found[i]].children
    ensures c in nodes && nodes[c].parent == Some(found[i]) && Reaches(nodes, id, c) && c !in found
  {
    var x := found[i];
    ReachesChild(nodes, id, x, c);
    forall j | 0 <= j < |found|
      ensures found[j] != c
    {
      if j == 0 {
        RankFalls(nodes, RankOf(nodes), id, x);
      } else {
        assert ParentExpanded(nodes, found, i, j);
        assert x !in found[..i];
      }
    }
  }

  lemma WorklistStep<D>(nodes: Nodes<D>, id: NodeId, found: seq<NodeId>, i: nat)
    requires WellFormed(nodes) && WorklistInvariant(nodes, id, found, i) && i < |found|
    ensures WorklistInvariant(nodes, id, found + nodes[found[i]].children, i + 1)
  {
    var x := found[i];
    var kids := nodes[x].children;
    var found' := found + kids;
    forall c | c in kids
      ensures c in nodes && nodes[c].parent == Some(x) && Reaches(nodes, id, c) && c !in found
    {
      ChildrenAreNew(nodes, id, found, i, c);
    }
    ConcatNoDuplicates(found, kids);
    forall k | 0 <= k < |found'|
      ensures found'[k] in nodes && Reaches(nodes, id, found'[k])
      ensures k > 0 ==> ParentExpanded(nodes, found', i + 1, k)
    {
      assert found'[..i + 1] == found[..i] + [x];
      if k < |found| {
        assert found'[k] == found[k];
        assert k > 0 ==> ParentExpanded(nodes, found, i, k);
      } else {
        assert found'[k] in kids;
      }
    }
    forall k, c | 0 <= k < i + 1 && c in nodes[found'[k]].children
      ensures c in found'
    {
      assert found'[k] == found[k];
    }
  }

  lemma WorklistDone<D>(nodes: Nodes<D>, id: NodeId, found: seq<NodeId>)
    requires WorklistInvariant(nodes, id, found, |found|)
    ensures (set x | x in found) == Subtree(nodes, id)
  {
    forall x | x in Subtree(nodes, id)
      ensures x in found
    {
      var p :| ChainBetween(nodes, id, x, p);
      ClosedHoldsChain(nodes, found, p);
    }
  }

  /** The worklist loop of both `remove_node` methods. */
  method CollectSubtree<D>(nodes: Nodes<D>, id: NodeId) returns (found: seq<NodeId>)
    requires WellFormed(nodes) && id in nodes
    ensures NoDuplicates(found) && 0 < |found| && found[0] == id
    ensures (set x | x in found) == Subtree(nodes, id)
  {
    found := [id];
    ReachesSelf(nodes, id);
    var i := 0;
    while i < |found|
      invariant WorklistInvariant(nodes, id, found, i)
      decreases nodes.Keys - (set x | x in found[..i])
    {
      var x := found[i];
      WorklistStep(nodes, id, found, i);
      ghost var expanded := found[..i];
      ghost var todo := nodes.Keys - (set y | y in found[..i]);
      assert x in todo;
      if x in nodes {
        found := found + nodes[x].children;
      }
      i := i + 1;
      assert found[..i] == expanded + [x];
      assert x in found[..i];
      assert nodes.Keys - (set y | y in found[..i]) == todo - {x};
    }
    WorklistDone(nodes, id, found);
  }

  // ---- Preorder ------------------------------------------------------------

  /** The nodes of the subtree at `id`, each before its children, siblings in list order. */
  ghost function Preorder<D>(nodes: Nodes<D>, id: NodeId): seq<NodeId>
    requires WellFormed(nodes) && id in nodes
    decreases RankOf(nodes)[id], |nodes[id].children| + 1
  {
    [id] + PreorderFrom(nodes, id, 0)
  }

  /** The preorders of the children of `id` from the `k`-th on. */
  ghost function PreorderFrom<D>(nodes: Nodes<D>, id: NodeId, k: nat): seq<NodeId>
    requires WellFormed(nodes) && id in nodes && k <= |nodes[id].children|
    decreases RankOf(nodes)[id], |nodes[id].children| - k
  {
    if k == |nodes[id].children| then []
    else
      var c := nodes[id].children[k];
      assert c in nodes[id].children;
      Preorder(nodes, c) + PreorderFrom(nodes, id, k + 1)
  }

  /** `x` is listed below one of the children of `id` from the `k`-th on. */
  ghost predicate BelowFrom<D>(nodes: Nodes<D>, id: NodeId, k: nat, x: NodeId)
    requires id in nodes
  {
    exists j :: k <= j < |nodes[id].children| && Reaches(nodes, nodes[id].children[j], x)
  }

  lemma {:induction false} PreorderIsSubtree<D>(nodes: Nodes<D>, id: NodeId)
    requires WellFormed(nodes) && id in nodes
    ensures forall x :: x in Preorder(nodes, id) <==> Reaches(nodes, id, x)
    ensures NoDuplicates(Preorder(nodes, id))
    decreases RankOf(nodes)[id], |nodes[id].children| + 1
  {
    PreorderFromIsBelow(nodes, id, 0);
    var below := PreorderFrom(nodes, id, 0);
    ReachesSelf(nodes, id);
    forall x | Reaches(nodes, id, x) && x != id
      ensures x in below
    {
      FirstStep(nodes, id, x);
      var c :| c in nodes[id].children && Reaches(nodes, c, x);
      var j :| 0 <= j < |nodes[id].children| && nodes[id].children[j] == c;
    }
    forall x | x in below
      ensures Reaches(nodes, id, x) && x != id
    {
      var j :| 0 <= j < |nodes[id].children| && Reaches(nodes, nodes[id].children[j], x);
      ReachesFromParent(nodes, id, nodes[id].children[j], x);
      RankFalls(nodes, RankOf(nodes), nodes[id].children[j], x);
    }
  }

  lemma {:induction false} PreorderFromIsBelow<D>(nodes: Nodes<D>, id: NodeId, k: nat)
    requires WellFormed(nodes) && id in nodes && k <= |nodes[id].children|
    ensures forall x :: x in PreorderFrom(nodes, id, k) <==> BelowFrom(nodes, id, k, x)
    ensures NoDuplicates(PreorderFrom(nodes, id, k))
    decreases RankOf(nodes)[id], |nodes[id].children| - k
  {
    if k < |nodes[id].children| {
      var c := nodes[id].children[k];
      assert c in nodes[id].children;
      PreorderIsSubtree(nodes, c);
      PreorderFromIsBelow(nodes, id, k + 1);
      forall x | x in Preorder(nodes, c)
        ensures x !in PreorderFrom(nodes, id, k + 1)
      {
        if x in PreorderFrom(nodes, id, k + 1) {
          var j :| k + 1 <= j < |nodes[id].children| && Reaches(nodes, nodes[id].children[j], x);
          SiblingsDisjoint(nodes, id, c, nodes[id].children[j], x);
        }
      }
      ConcatNoDuplicates(Preorder(nodes, c), PreorderFrom(nodes, id, k + 1));
    }
  }
}
