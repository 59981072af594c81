/** Which node of the bridge tree a point hits: the last one visited whose bounds contain it. */
module BridgeHits {
  import opened Wrappers
  import opened Forest
  import opened TreeWalks
  import opened BridgeModel

  predicate Hit(nodes: Nodes<Info>, id: NodeId, x: real, y: real) {
    id in nodes && nodes[id].data.bounds.Some? && nodes[id].data.bounds.value.Contains(x, y)
  }

  /** The last node of `ids` whose bounds contain the point. */
  function LastHit(nodes: Nodes<Info>, ids: seq<NodeId>, x: real, y: real): Option<NodeId> {
    if ids == [] then None
    else if Hit(nodes, ids[|ids| - 1], x, y) then Some(ids[|ids| - 1])
    else LastHit(nodes, ids[..|ids| - 1], x, y)
  }

  lemma {:induction false} LastHitIsLast(nodes: Nodes<Info>, ids: seq<NodeId>, x: real, y: real)
    ensures var r := LastHit(nodes, ids, x, y);
            && (r == None <==> forall k :: 0 <= k < |ids| ==> !Hit(nodes, ids[k], x, y))
            && (r.Some? ==> exists k :: 0 <= k < |ids| && ids[k] == r.value && Hit(nodes, ids[k], x, y)
                                        && forall j :: k < j < |ids| ==> !Hit(nodes, ids[j], x, y))
  {
    if ids != [] && !Hit(nodes, ids[|ids| - 1], x, y) {
      var front := ids[..|ids| - 1];
      LastHitIsLast(nodes, front, x, y);
      assert forall k :: 0 <= k < |front| ==> ids[k] == front[k];
    }
  }

  lemma {:induction false} LastHitConcat(nodes: Nodes<Info>, a: seq<NodeId>, b: seq<NodeId>, x: real, y: real)
    ensures LastHit(nodes, a + b, x, y) ==
            (if LastHit(nodes, b, x, y).Some? then LastHit(nodes, b, x, y) else LastHit(nodes, a, x, y))
    decreases |b|
  {
    if b == [] {
      assert a + b == a;
    } else {
      assert (a + b)[..|a + b| - 1] == a + b[..|b| - 1];
      LastHitConcat(nodes, a, b[..|b| - 1], x, y);
    }
  }

  /** A subtree is one contiguous block of every preorder that contains its top. */
  lemma {:induction false} SubtreeIsBlock(nodes: Nodes<Info>, top: NodeId, id: NodeId)
      returns (a: seq<NodeId>, b: seq<NodeId>)
    requires WellFormed(nodes) && Reaches(nodes, top, id) && top in nodes && id in nodes
    ensures Preorder(nodes, top) == a + Preorder(nodes, id) + b
    decreases RankOf(nodes)[top], |nodes[top].children| + 1
  {
    if id == top {
      a, b := [], [];
    } else {
      PreorderIsSubtree(nodes, top);
      PreorderFromIsBelow(nodes, top, 0);
      assert id in PreorderFrom(nodes, top, 0);
      a, b := BlockFrom(nodes, top, 0, id);
      a := [top] + a;
    }
  }

  lemma {:induction false} BlockFrom(nodes: Nodes<Info>, top: NodeId, k: nat, id: NodeId)
      returns (a: seq<NodeId>, b: seq<NodeId>)
    requires WellFormed(nodes) && top in nodes && k <= |nodes[top].children| && id in nodes
    requires BelowFrom(nodes, top, k, id)
    ensures PreorderFrom(nodes, top, k) == a + Preorder(nodes, id) + b
    decreases RankOf(nodes)[top], |nodes[top].children| - k
  {
    var c := nodes[top].children[k];
    ChildIsRanked(nodes, top, k);
    PreorderFromStep(nodes, top, k);
    if Reaches(nodes, c, id) {
      var b';
      a, b' := SubtreeIsBlock(nodes, c, id);
      b := b' + PreorderFrom(nodes, top, k + 1);
    } else {
      var a';
      a', b := BlockFrom(nodes, top, k + 1, id);
      a := Preorder(nodes, c) + a';
    }
  }

  /** No node below the one that is hit contains the point: within its branch the deepest hit wins. */
  lemma HitIsDeepestInBranch(nodes: Nodes<Info>, root: NodeId, x: real, y: real, below: NodeId)
    requires WellFormed(nodes) && root in nodes
    requires var r := LastHit(nodes, Preorder(nodes, root), x, y);
             r.Some? && Reaches(nodes, r.value, below) && below != r.value
    ensures !Hit(nodes, below, x, y)
  {
    var walk := Preorder(nodes, root);
    var h := LastHit(nodes, walk, x, y).value;
    LastHitIsLast(nodes, walk, x, y);
    var k :| 0 <= k < |walk| && walk[k] == h && forall j :: k < j < |walk| ==> !Hit(nodes, walk[j], x, y);
    PreorderIsSubtree(nodes, root);
    var i := DescendantComesLater(nodes, root, k, below);
    assert walk[i] == below;
  }

  /** The block of one child, and those of the later children after it. */
  lemma {:induction false} ChildBlock(nodes: Nodes<Info>, id: NodeId, k: nat, i: nat) returns (front: seq<NodeId>)
    requires WellFormed(nodes) && id in nodes && k <= i < |nodes[id].children|
    ensures nodes[id].children[i] in nodes
    ensures PreorderFrom(nodes, id, k) ==
            front + Preorder(nodes, nodes[id].children[i]) + PreorderFrom(nodes, id, i + 1)
    decreases i - k
  {
    PreorderFromStep(nodes, id, k);
    if k == i {
      front := [];
    } else {
      var rest := ChildBlock(nodes, id, k + 1, i);
      front := Preorder(nodes, nodes[id].children[k]) + rest;
    }
  }

  /** The last hit of a list without repetition lies in its last part that has one. */
  lemma HitInLastPart(nodes: Nodes<Info>, front: seq<NodeId>, back: seq<NodeId>, x: real, y: real,
                      earlier: NodeId, later: NodeId)
    requires NoDuplicates(front + back) && earlier in front && later in back && Hit(nodes, later, x, y)
    ensures LastHit(nodes, front + back, x, y) != Some(earlier)
  {
    LastHitConcat(nodes, front, back, x, y);
    LastHitIsLast(nodes, back, x, y);
    var i :| 0 <= i < |front| && front[i] == earlier;
    assert (front + back)[i] == earlier;
    assert forall j :: 0 <= j < |back| ==> (front + back)[|front| + j] == back[j];
  }

  lemma BranchesInWalk(nodes: Nodes<Info>, root: NodeId, id: NodeId, i: nat)
      returns (before: seq<NodeId>, after: seq<NodeId>)
    requires WellFormed(nodes) && root in nodes && id in nodes && Reaches(nodes, root, id) && i < |nodes[id].children|
    ensures nodes[id].children[i] in nodes
    ensures Preorder(nodes, root) ==
            (before + Preorder(nodes, nodes[id].children[i])) + (PreorderFrom(nodes, id, i + 1) + after)
  {
    var a, b := SubtreeIsBlock(nodes, root, id);
    var front := ChildBlock(nodes, id, 0, i);
    before, after := a + [id] + front, b;
  }

  /** Between two branches the later one wins, however deep the hit in the earlier one. */
  lemma LaterBranchWins(nodes: Nodes<Info>, root: NodeId, id: NodeId, i: nat, j: nat, earlier: NodeId, later: NodeId,
                        x: real, y: real)
    requires WellFormed(nodes) && root in nodes && id in nodes && Reaches(nodes, root, id)
    requires i < j < |nodes[id].children|
    requires Reaches(nodes, nodes[id].children[i], earlier) && Reaches(nodes, nodes[id].children[j], later)
    requires Hit(nodes, later, x, y)
    ensures LastHit(nodes, Preorder(nodes, root), x, y) != Some(earlier)
  {
    var before, after := BranchesInWalk(nodes, root, id, i);
    PreorderIsSubtree(nodes, root);
    PreorderIsSubtree(nodes, nodes[id].children[i]);
    PreorderFromIsBelow(nodes, id, i + 1);
    assert BelowFrom(nodes, id, i + 1, later);
    HitInLastPart(nodes, before + Preorder(nodes, nodes[id].children[i]), PreorderFrom(nodes, id, i + 1) + after,
                  x, y, earlier, later);
  }

  /** In a preorder every other node of a subtree comes after its top. */
  lemma DescendantComesLater(nodes: Nodes<Info>, root: NodeId, k: nat, below: NodeId) returns (i: nat)
    requires WellFormed(nodes) && root in nodes && k < |Preorder(nodes, root)|
    requires var h := Preorder(nodes, root)[k]; Reaches(nodes, h, below) && below != h
    ensures k < i < |Preorder(nodes, root)| && Preorder(nodes, root)[i] == below
  {
    var walk := Preorder(nodes, root);
    var h := walk[k];
    PreorderIsSubtree(nodes, root);
    assert h in walk;
    ReachesEnds(nodes, root, h);
    var a, b := SubtreeIsBlock(nodes, root, h);
    var block := Preorder(nodes, h);
    PreorderIsSubtree(nodes, h);
    i := LaterInBlock(walk, a, block, b, k, below);
  }

  lemma LaterInBlock(walk: seq<NodeId>, a: seq<NodeId>, block: seq<NodeId>, b: seq<NodeId>, k: nat, x: NodeId)
      returns (i: nat)
    requires walk == a + block + b && NoDuplicates(walk) && k < |walk|
    requires x in block && block[0] == walk[k] && x != block[0]
    ensures k < i < |walk| && walk[i] == x
  {
    assert walk[|a|] == block[0];
    assert k == |a|;
    var m :| 0 <= m < |block| && block[m] == x;
    i := |a| + m;
    assert walk[i] == block[m];
  }

  lemma ReachesEnds(nodes: Nodes<Info>, top: NodeId, x: NodeId)
    requires Reaches(nodes, top, x)
    ensures top in nodes && x in nodes
  {
  }
}
