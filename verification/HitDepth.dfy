/** When the node that a hit test returns is the deepest one hit. */
module HitDepth {
  import opened Wrappers
  import opened Forest
  import opened TreeWalks
  import opened BridgeModel
  import opened BridgeHits

  // ---- Depth ---------------------------------------------------------------

  /** `id` lies `d` levels below `top`. */
  ghost predicate AtDepth(nodes: Nodes<Info>, top: NodeId, id: NodeId, d: nat) {
    exists p :: ChainBetween(nodes, top, id, p) && |p| == d + 1
  }

  lemma {:induction false} ChainsHaveOneLength(nodes: Nodes<Info>, top: NodeId, id: NodeId,
                                               p: seq<NodeId>, q: seq<NodeId>)
    requires WellFormed(nodes) && ChainBetween(nodes, top, id, p) && ChainBetween(nodes, top, id, q)
    ensures |p| == |q|
    decreases |p|
  {
    RankFallsAlongChain(nodes, RankOf(nodes), p);
    RankFallsAlongChain(nodes, RankOf(nodes), q);
    if |p| > 1 && |q| > 1 {
      var m, n := |p| - 1, |q| - 1;
      assert p[m] in nodes[p[m - 1]].children && q[n] in nodes[q[n - 1]].children;
      assert p[m - 1] == q[n - 1];
      ChainsHaveOneLength(nodes, top, p[m - 1], p[..m], q[..n]);
    }
  }

  lemma OneDepth(nodes: Nodes<Info>, top: NodeId, id: NodeId, d: nat, e: nat)
    requires WellFormed(nodes) && AtDepth(nodes, top, id, d) && AtDepth(nodes, top, id, e)
    ensures d == e
  {
    var p :| ChainBetween(nodes, top, id, p) && |p| == d + 1;
    var q :| ChainBetween(nodes, top, id, q) && |q| == e + 1;
    ChainsHaveOneLength(nodes, top, id, p, q);
  }

  lemma ChildIsDeeper(nodes: Nodes<Info>, top: NodeId, id: NodeId, c: NodeId, d: nat)
    requires AtDepth(nodes, top, id, d) && id in nodes && c in nodes && c in nodes[id].children
    ensures AtDepth(nodes, top, c, d + 1)
  {
    var p :| ChainBetween(nodes, top, id, p) && |p| == d + 1;
    assert ChainBetween(nodes, top, c, p + [c]);
  }

  lemma DeeperFromParent(nodes: Nodes<Info>, top: NodeId, c: NodeId, id: NodeId, d: nat)
    requires top in nodes && c in nodes[top].children && AtDepth(nodes, c, id, d)
    ensures AtDepth(nodes, top, id, d + 1)
  {
    var p :| ChainBetween(nodes, c, id, p) && |p| == d + 1;
    assert ChainBetween(nodes, top, id, [top] + p);
  }

  lemma DepthOfTop(nodes: Nodes<Info>, top: NodeId)
    requires top in nodes
    ensures AtDepth(nodes, top, top, 0)
  {
    assert ChainBetween(nodes, top, top, [top]);
  }

  // ---- The depths along a walk ---------------------------------------------

  /** The depths of the nodes of the preorder of `id`, which itself lies at depth `d`. */
  ghost function Depths(nodes: Nodes<Info>, id: NodeId, d: nat): seq<nat>
    requires WellFormed(nodes) && id in nodes
    decreases RankOf(nodes)[id], |nodes[id].children| + 1
  {
    [d] + DepthsFrom(nodes, id, 0, d + 1)
  }

  ghost function DepthsFrom(nodes: Nodes<Info>, id: NodeId, k: nat, d: nat): seq<nat>
    requires WellFormed(nodes) && id in nodes && k <= |nodes[id].children|
    decreases RankOf(nodes)[id], |nodes[id].children| - k
  {
    if k == |nodes[id].children| then []
    else
      ChildIsRanked(nodes, id, k);
      Depths(nodes, nodes[id].children[k], d) + DepthsFrom(nodes, id, k + 1, d)
  }

  /** `depths` are the depths below `top` of the nodes of `walk`, counted from `d`. */
  ghost predicate DepthsOf(nodes: Nodes<Info>, top: NodeId, walk: seq<NodeId>, depths: seq<nat>, d: nat) {
    |walk| == |depths| && forall i :: 0 <= i < |walk| ==> d <= depths[i] && AtDepth(nodes, top, walk[i], depths[i] - d)
  }

  lemma DepthsConcat(nodes: Nodes<Info>, top: NodeId, a: seq<NodeId>, b: seq<NodeId>, m: seq<nat>, n: seq<nat>, d: nat)
    requires DepthsOf(nodes, top, a, m, d) && DepthsOf(nodes, top, b, n, d)
    ensures DepthsOf(nodes, top, a + b, m + n, d)
  {
    forall i | 0 <= i < |a + b|
      ensures d <= (m + n)[i] && AtDepth(nodes, top, (a + b)[i], (m + n)[i] - d)
    {
      if i < |a| {
        assert AtDepth(nodes, top, a[i], m[i] - d);
      } else {
        assert AtDepth(nodes, top, b[i - |a|], n[i - |a|] - d);
      }
    }
  }

  lemma DepthsFromChild(nodes: Nodes<Info>, top: NodeId, c: NodeId, walk: seq<NodeId>, depths: seq<nat>, d: nat)
    requires top in nodes && c in nodes[top].children && DepthsOf(nodes, c, walk, depths, d + 1)
    ensures DepthsOf(nodes, top, walk, depths, d)
  {
    forall i | 0 <= i < |walk|
      ensures d <= depths[i] && AtDepth(nodes, top, walk[i], depths[i] - d)
    {
      DeeperFromParent(nodes, top, c, walk[i], depths[i] - (d + 1));
    }
  }

  lemma {:induction false} DepthsAreDepths(nodes: Nodes<Info>, id: NodeId, d: nat)
    requires WellFormed(nodes) && id in nodes
    ensures DepthsOf(nodes, id, Preorder(nodes, id), Depths(nodes, id, d), d)
    decreases RankOf(nodes)[id], |nodes[id].children| + 1
  {
    DepthOfTop(nodes, id);
    DepthsFromAreDepths(nodes, id, 0, d);
    DepthsConcat(nodes, id, [id], PreorderFrom(nodes, id, 0), [d], DepthsFrom(nodes, id, 0, d + 1), d);
  }

  lemma {:induction false} DepthsFromAreDepths(nodes: Nodes<Info>, id: NodeId, k: nat, d: nat)
    requires WellFormed(nodes) && id in nodes && k <= |nodes[id].children|
    ensures DepthsOf(nodes, id, PreorderFrom(nodes, id, k), DepthsFrom(nodes, id, k, d + 1), d)
    decreases RankOf(nodes)[id], |nodes[id].children| - k
  {
    if k < |nodes[id].children| {
      var c := nodes[id].children[k];
      ChildIsRanked(nodes, id, k);
      PreorderFromStep(nodes, id, k);
      DepthsAreDepths(nodes, c, d + 1);
      DepthsFromChild(nodes, id, c, Preorder(nodes, c), Depths(nodes, c, d + 1), d);
      DepthsFromAreDepths(nodes, id, k + 1, d);
      DepthsConcat(nodes, id, Preorder(nodes, c), PreorderFrom(nodes, id, k + 1),
                   Depths(nodes, c, d + 1), DepthsFrom(nodes, id, k + 1, d + 1), d);
    }
  }

  // ---- Trees whose walk never rises ----------------------------------------

  predicate IsLeaf(nodes: Nodes<Info>, id: NodeId) {
    id in nodes && nodes[id].children == []
  }

  /** Every child but the last is a leaf. */
  ghost predicate LastBranches(nodes: Nodes<Info>, id: NodeId)
    requires id in nodes
  {
    forall i :: 0 <= i < |nodes[id].children| - 1 ==> IsLeaf(nodes, nodes[id].children[i])
  }

  /** In the tree of `root` only last children have children. */
  ghost predicate OnlyLastBranch(nodes: Nodes<Info>, root: NodeId) {
    forall id :: id in nodes && Reaches(nodes, root, id) ==> LastBranches(nodes, id)
  }

  /** The numbers never fall, and none is below `d`. */
  ghost predicate Rising(s: seq<nat>, d: nat) {
    && (forall i :: 0 <= i < |s| ==> d <= s[i])
    && (forall i, j :: 0 <= i < j < |s| ==> s[i] <= s[j])
  }

  lemma LeafDepths(nodes: Nodes<Info>, id: NodeId, d: nat)
    requires WellFormed(nodes) && IsLeaf(nodes, id)
    ensures Depths(nodes, id, d) == [d]
  {
    assert DepthsFrom(nodes, id, 0, d + 1) == [];
  }

  lemma RisingPrepend(s: seq<nat>, d: nat, e: nat)
    requires Rising(s, d) && e <= d
    ensures Rising([e] + s, e)
  {
  }

  lemma {:induction false} DepthsRise(nodes: Nodes<Info>, root: NodeId, id: NodeId, d: nat)
    requires WellFormed(nodes) && OnlyLastBranch(nodes, root) && id in nodes && Reaches(nodes, root, id)
    ensures Rising(Depths(nodes, id, d), d)
    decreases RankOf(nodes)[id], |nodes[id].children| + 1
  {
    DepthsFromRise(nodes, root, id, 0, d + 1);
    RisingPrepend(DepthsFrom(nodes, id, 0, d + 1), d + 1, d);
  }

  lemma {:induction false} DepthsFromRise(nodes: Nodes<Info>, root: NodeId, id: NodeId, k: nat, d: nat)
    requires WellFormed(nodes) && OnlyLastBranch(nodes, root) && id in nodes && Reaches(nodes, root, id)
    requires k <= |nodes[id].children|
    ensures Rising(DepthsFrom(nodes, id, k, d), d)
    decreases RankOf(nodes)[id], |nodes[id].children| - k
  {
    var n := |nodes[id].children|;
    if k < n {
      var c := nodes[id].children[k];
      ChildIsRanked(nodes, id, k);
      if k == n - 1 {
        ReachesChild(nodes, root, id, c);
        DepthsRise(nodes, root, c, d);
        assert DepthsFrom(nodes, id, n, d) == [];
      } else {
        assert LastBranches(nodes, id);
        LeafDepths(nodes, c, d);
        DepthsFromRise(nodes, root, id, k + 1, d);
        RisingPrepend(DepthsFrom(nodes, id, k + 1, d), d, d);
      }
    }
  }

  // ---- The documented rule -------------------------------------------------

  /** No node that contains the point lies deeper than the hit. */
  ghost predicate DeepestWins(nodes: Nodes<Info>, root: NodeId, x: real, y: real)
    requires WellFormed(nodes) && root in nodes
  {
    var hit := LastHit(nodes, Preorder(nodes, root), x, y);
    hit.Some? ==>
      forall id, d, e :: AtDepth(nodes, root, id, e) && Hit(nodes, id, x, y) && AtDepth(nodes, root, hit.value, d) ==>
        e <= d
  }

  lemma DepthReaches(nodes: Nodes<Info>, top: NodeId, id: NodeId, d: nat)
    requires AtDepth(nodes, top, id, d)
    ensures Reaches(nodes, top, id)
  {
  }

  /** The depth of a node of the walk is the one noted for its place. */
  lemma DepthInWalk(nodes: Nodes<Info>, root: NodeId, i: nat, e: nat)
    requires WellFormed(nodes) && root in nodes && i < |Preorder(nodes, root)|
    requires AtDepth(nodes, root, Preorder(nodes, root)[i], e)
    ensures i < |Depths(nodes, root, 0)| && Depths(nodes, root, 0)[i] == e
  {
    DepthsAreDepths(nodes, root, 0);
    OneDepth(nodes, root, Preorder(nodes, root)[i], e, Depths(nodes, root, 0)[i]);
  }

  /** Whatever is hit stands in the list before the last hit, or is it. */
  lemma HitsUpToLast(nodes: Nodes<Info>, walk: seq<NodeId>, x: real, y: real, id: NodeId) returns (i: nat, k: nat)
    requires id in walk && Hit(nodes, id, x, y)
    ensures i <= k < |walk| && walk[i] == id && LastHit(nodes, walk, x, y) == Some(walk[k])
  {
    LastHitIsLast(nodes, walk, x, y);
    i :| 0 <= i < |walk| && walk[i] == id;
    var h := LastHit(nodes, walk, x, y).value;
    k :| 0 <= k < |walk| && walk[k] == h && forall j :: k < j < |walk| ==> !Hit(nodes, walk[j], x, y);
  }

  lemma NoDeeperHit(nodes: Nodes<Info>, root: NodeId, x: real, y: real, id: NodeId, d: nat, e: nat)
    requires WellFormed(nodes) && root in nodes && OnlyLastBranch(nodes, root)
    requires LastHit(nodes, Preorder(nodes, root), x, y).Some?
    requires AtDepth(nodes, root, LastHit(nodes, Preorder(nodes, root), x, y).value, d)
    requires AtDepth(nodes, root, id, e) && Hit(nodes, id, x, y)
    ensures e <= d
  {
    DepthReaches(nodes, root, id, e);
    PreorderIsSubtree(nodes, root);
    var i, k := HitsUpToLast(nodes, Preorder(nodes, root), x, y, id);
    DepthInWalk(nodes, root, i, e);
    DepthInWalk(nodes, root, k, d);
    ReachesSelf(nodes, root);
    DepthsRise(nodes, root, root, 0);
  }

  lemma DeepestWinsInCombs(nodes: Nodes<Info>, root: NodeId, x: real, y: real)
    requires WellFormed(nodes) && root in nodes && OnlyLastBranch(nodes, root)
    ensures DeepestWins(nodes, root, x, y)
  {
    var hit := LastHit(nodes, Preorder(nodes, root), x, y);
    if hit.Some? {
      forall id, d, e | AtDepth(nodes, root, id, e) && Hit(nodes, id, x, y) && AtDepth(nodes, root, hit.value, d)
        ensures e <= d
      {
        NoDeeperHit(nodes, root, x, y, id, d, e);
      }
    }
  }

  lemma SameChain(a: Nodes<Info>, b: Nodes<Info>, top: NodeId, id: NodeId, p: seq<NodeId>)
    requires SameLinks(a, b) && ChainBetween(b, top, id, p)
    ensures ChainBetween(a, top, id, p)
  {
    forall i | 0 < i < |p|
      ensures p[i] in a[p[i - 1]].children
    {
      assert SameLink(a, b, p[i - 1]);
    }
  }

  lemma SameShape(a: Nodes<Info>, b: Nodes<Info>, root: NodeId)
    requires SameLinks(a, b) && OnlyLastBranch(a, root)
    ensures OnlyLastBranch(b, root)
  {
    forall id | id in b && Reaches(b, root, id)
      ensures LastBranches(b, id)
    {
      var p :| ChainBetween(b, root, id, p);
      SameChain(a, b, root, id, p);
      assert LastBranches(a, id) && SameLink(a, b, id);
      forall i | 0 <= i < |b[id].children| - 1
        ensures IsLeaf(b, b[id].children[i])
      {
        assert IsLeaf(a, a[id].children[i]) && SameLink(a, b, a[id].children[i]);
      }
    }
  }

  /** The same links with one box on two nodes, and none elsewhere. */
  function Boxed(nodes: Nodes<Info>, g: NodeId, s: NodeId): Nodes<Info> {
    map x | x in nodes ::
      nodes[x].(data := nodes[x].data.(bounds := if x == g || x == s then Some(Bounds(0.0, 0.0, 1.0, 1.0)) else None))
  }

  lemma BoxedKeepsLinks(nodes: Nodes<Info>, g: NodeId, s: NodeId)
    requires WellFormed(nodes)
    ensures SameLinks(nodes, Boxed(nodes, g, s)) && WellFormed(Boxed(nodes, g, s))
  {
    SameLinksKeepForest(nodes, Boxed(nodes, g, s));
  }

  /** A grandchild through a child that is not the last, and the next child: the deeper of the two loses. */
  lemma GrandchildLoses(nodes: Nodes<Info>, root: NodeId, id: NodeId, i: nat)
    requires WellFormed(nodes) && root in nodes && id in nodes && Reaches(nodes, root, id)
    requires i < |nodes[id].children| - 1 && !IsLeaf(nodes, nodes[id].children[i])
    ensures var c, s := nodes[id].children[i], nodes[id].children[i + 1];
            && c in nodes && nodes[c].children != []
            && var boxed := Boxed(nodes, nodes[c].children[0], s);
               SameLinks(nodes, boxed) && WellFormed(boxed) && !DeepestWins(boxed, root, 0.0, 0.0)
  {
    var c, s := nodes[id].children[i], nodes[id].children[i + 1];
    ChildIsRanked(nodes, id, i);
    ChildIsRanked(nodes, id, i + 1);
    ChildIsRanked(nodes, c, 0);
    var g := nodes[c].children[0];
    var boxed := Boxed(nodes, g, s);
    BoxedKeepsLinks(nodes, g, s);
    var p :| ChainBetween(nodes, root, id, p);
    SameChain(boxed, nodes, root, id, p);
    assert boxed[id].children == nodes[id].children && boxed[c].children == nodes[c].children;
    LoserIsDeeper(boxed, root, id, i, g, |p| - 1);
  }

  lemma OnlyTwoHit(nodes: Nodes<Info>, walk: seq<NodeId>, g: NodeId, s: NodeId, x: real, y: real)
    requires s in walk && Hit(nodes, s, x, y) && LastHit(nodes, walk, x, y) != Some(g)
    requires forall id :: Hit(nodes, id, x, y) ==> id == g || id == s
    ensures LastHit(nodes, walk, x, y) == Some(s)
  {
    LastHitIsLast(nodes, walk, x, y);
  }

  lemma LoserIsDeeper(nodes: Nodes<Info>, root: NodeId, id: NodeId, i: nat, g: NodeId, d: nat)
    requires WellFormed(nodes) && root in nodes && id in nodes && AtDepth(nodes, root, id, d)
    requires i < |nodes[id].children| - 1
    requires nodes[id].children[i] in nodes && g in nodes && g in nodes[nodes[id].children[i]].children
    requires Hit(nodes, g, 0.0, 0.0) && Hit(nodes, nodes[id].children[i + 1], 0.0, 0.0)
    requires forall x :: Hit(nodes, x, 0.0, 0.0) ==> x == g || x == nodes[id].children[i + 1]
    ensures !DeepestWins(nodes, root, 0.0, 0.0)
  {
    var c, s := nodes[id].children[i], nodes[id].children[i + 1];
    DepthReaches(nodes, root, id, d);
    ReachesSelf(nodes, c);
    ReachesSelf(nodes, s);
    ReachesChild(nodes, c, c, g);
    ReachesChild(nodes, root, id, s);
    LaterBranchWins(nodes, root, id, i, i + 1, g, s, 0.0, 0.0);
    PreorderIsSubtree(nodes, root);
    OnlyTwoHit(nodes, Preorder(nodes, root), g, s, 0.0, 0.0);
    ChildIsDeeper(nodes, root, id, c, d);
    ChildIsDeeper(nodes, root, id, s, d);
    ChildIsDeeper(nodes, root, c, g, d + 1);
  }

  /** The rule holds for every placing of the boxes and every point exactly if only last children have children. */
  lemma DeepestWinsIff(nodes: Nodes<Info>, root: NodeId)
    requires WellFormed(nodes) && root in nodes
    ensures (forall boxed, x, y :: SameLinks(nodes, boxed) && WellFormed(boxed) ==> DeepestWins(boxed, root, x, y)) <==>
              OnlyLastBranch(nodes, root)
  {
    if OnlyLastBranch(nodes, root) {
      forall boxed, x, y | SameLinks(nodes, boxed) && WellFormed(boxed)
        ensures DeepestWins(boxed, root, x, y)
      {
        SameShape(nodes, boxed, root);
        DeepestWinsInCombs(boxed, root, x, y);
      }
    } else {
      var id :| id in nodes && Reaches(nodes, root, id) && !LastBranches(nodes, id);
      var i :| 0 <= i < |nodes[id].children| - 1 && !IsLeaf(nodes, nodes[id].children[i]);
      GrandchildLoses(nodes, root, id, i);
    }
  }

  // ---- An example ----------------------------------------------------------

  function Box(id: NodeId, bounds: Option<Bounds>, children: seq<NodeId>, parent: Option<NodeId>): AccessibleNode {
    Node(id, Info(Button, "", "", [], None, bounds), children, parent)
  }

  /** A window with a panel that holds a button, and a button beside the panel over the first one. */
  function Overlapping(bounds: Bounds): Nodes<Info> {
    map[1 := Box(1, None, [2, 4], None), 2 := Box(2, None, [3], Some(1)),
        3 := Box(3, Some(bounds), [], Some(2)), 4 := Box(4, Some(bounds), [], Some(1))]
  }

  lemma OverlappingIsForest(bounds: Bounds)
    ensures WellFormed(Overlapping(bounds))
  {
    var nodes := Overlapping(bounds);
    OverlappingIsLinked(bounds);
    assert Ranked(nodes, map[1 := 2, 2 := 1, 3 := 0, 4 := 0]);
  }

  lemma OverlappingIsLinked(bounds: Bounds)
    ensures Linked(Overlapping(bounds))
  {
    var nodes := Overlapping(bounds);
    assert nodes.Keys == {1, 2, 3, 4};
    assert ListedByParent(nodes, 1) && ListedByParent(nodes, 2) && ListedByParent(nodes, 3) && ListedByParent(nodes, 4);
    assert NoDuplicates(nodes[1].children) && NoDuplicates(nodes[2].children);
  }

  /** Across branches the deepest hit can lose: node 3, two levels down, to node 4, one level down. */
  lemma DeepestHitCanLose(bounds: Bounds, x: real, y: real)
    requires bounds.Contains(x, y)
    ensures var nodes := Overlapping(bounds);
            && WellFormed(nodes) && Hit(nodes, 3, x, y) && nodes[3].parent == Some(2) && nodes[2].parent == Some(1)
            && nodes[4].parent == Some(1) && LastHit(nodes, Preorder(nodes, 1), x, y) == Some(4)
  {
    var nodes := Overlapping(bounds);
    OverlappingIsForest(bounds);
    ReachesSelf(nodes, 1);
    ReachesSelf(nodes, 2);
    ReachesSelf(nodes, 4);
    ReachesChild(nodes, 2, 2, 3);
    LaterBranchWins(nodes, 1, 1, 0, 1, 3, 4, x, y);
    ReachesChild(nodes, 1, 1, 4);
    PreorderIsSubtree(nodes, 1);
    LastHitIsLast(nodes, Preorder(nodes, 1), x, y);
  }
}
