/** The tree as the object that its methods update in place. */
module BridgeTree {
  import opened Wrappers
  import opened Forest
  import opened ForestUpdates
  import opened BridgeHits
  import M = BridgeModel

  class AccessibleTree {
    var nodes: Nodes<M.Info>
    var root: Option<NodeId>
    var focused: Option<NodeId>
    var nextId: NodeId

    function Model(): M.Tree
      reads this
    {
      M.Tree(nodes, root, focused)
    }

    constructor ()
      ensures Model() == M.Tree(map[], None, None) && nextId == 1
    {
      nodes, root, focused, nextId := map[], None, None, 1;
    }

    method AllocateId() returns (id: NodeId)
      modifies this`nextId
      ensures id == old(nextId) && nextId == id + 1
    {
      id := nextId;
      nextId := nextId + 1;
    }

    method SetRoot(node: M.AccessibleNode)
      modifies this
      ensures Model() == M.SetRoot(old(Model()), node) && nextId == old(nextId)
    {
      nodes := nodes[node.id := node];
      root := Some(node.id);
    }

    method AddNode(parentId: NodeId, node: M.AccessibleNode) returns (added: bool)
      modifies this
      ensures added == (parentId in old(nodes)) && nextId == old(nextId)
      ensures Model() == M.AddNode(old(Model()), parentId, node)
    {
      if parentId !in nodes {
        return false;
      }
      var child := node.(parent := Some(parentId));
      nodes := nodes[child.id := child];
      if parentId in nodes {
        nodes := nodes[parentId := nodes[parentId].(children := nodes[parentId].children + [child.id])];
      }
      return true;
    }

    method RemoveNode(id: NodeId) returns (removed: bool)
      requires WellFormed(nodes)
      modifies this
      ensures removed == (id in old(nodes)) && nextId == old(nextId)
      ensures Model() == M.RemoveNode(old(Model()), id)
    {
      if id !in nodes {
        return false;
      }
      var rest, toRemove := Detach(nodes, id);
      ghost var gone := Subtree(nodes, id);
      nodes := rest;
      if root == Some(id) {
        root := None;
      }
      if focused.Some? {
        assert focused.value in toRemove <==> focused.value in gone;
        if focused.value in toRemove {
          focused := None;
        }
      }
      return true;
    }

    method SetFocused(id: NodeId)
      modifies this
      ensures Model() == M.SetFocused(old(Model()), id) && nextId == old(nextId)
    {
      if focused.Some? && focused.value in nodes {
        nodes := nodes[focused.value := M.WithoutFocus(nodes[focused.value])];
      }
      if id in nodes {
        nodes := nodes[id := M.WithFocus(nodes[id])];
      }
      focused := Some(id);
    }

    method ClearFocused()
      modifies this
      ensures Model() == M.ClearFocused(old(Model())) && nextId == old(nextId)
    {
      if focused.Some? {
        var before := focused.value;
        focused := None;
        if before in nodes {
          nodes := nodes[before := M.WithoutFocus(nodes[before])];
        }
      }
    }

    /** Climbs by parent links; on a forest it ends at a node without a parent and repeats none. */
    method PathToRoot(id: NodeId) returns (path: seq<NodeId>)
      requires WellFormed(nodes)
      ensures id !in nodes ==> path == []
      ensures id in nodes ==> M.IsPathToRoot(nodes, id, path) && NoDuplicates(path)
    {
      path := [];
      var current := Some(id);
      while current.Some?
        invariant path == [] ==> current == Some(id)
        invariant path != [] ==>
                    M.ClimbsFrom(nodes, id, path) && nodes[path[|path| - 1]].parent == current
        decreases nodes.Keys - (set x | x in path), current.Some?
      {
        var nid := current.value;
        if nid in nodes {
          ghost var climbed := path;
          path := path + [nid];
          assert M.ClimbsFrom(nodes, id, path);
          M.ClimbIsDistinct(nodes, id, path);
          assert nid !in climbed by {
            assert forall i :: 0 <= i < |climbed| ==> climbed[i] == path[i] != path[|climbed|];
          }
          assert nid in nodes.Keys - (set x | x in climbed) && nid in path;
          current := nodes[nid].parent;
        } else {
          assert path != [] ==> ListedByParent(nodes, path[|path| - 1]);
          break;
        }
      }
      if path != [] {
        M.ClimbIsDistinct(nodes, id, path);
      }
    }

    /** The ids that the callback is given, in order. */
    method Walk() returns (visited: seq<NodeId>)
      requires WellFormed(nodes)
      ensures visited == if root.Some? && root.value in nodes then Preorder(nodes, root.value) else []
    {
      visited := [];
      if root.Some? {
        visited := WalkImpl(root.value, visited);
      }
    }

    method WalkImpl(id: NodeId, visited: seq<NodeId>) returns (after: seq<NodeId>)
      requires WellFormed(nodes)
      ensures after == visited + if id in nodes then Preorder(nodes, id) else []
      decreases if WellFormed(nodes) && id in nodes then RankOf(nodes)[id] else 0
    {
      after := visited;
      if id in nodes {
        after := after + [id];
        var children := nodes[id].children;
        for k := 0 to |children|
          invariant after + PreorderFrom(nodes, id, k) == visited + Preorder(nodes, id)
        {
          assert children[k] in nodes[id].children;
          after := WalkImpl(children[k], after);
        }
      }
    }

    /** The last node of the walk whose bounds contain the point. */
    method HitTest(x: real, y: real) returns (hit: Option<NodeId>)
      requires WellFormed(nodes)
      ensures hit == if root.Some? && root.value in nodes
                     then LastHit(nodes, Preorder(nodes, root.value), x, y) else None
    {
      hit := None;
      if root.Some? {
        hit := HitTestImpl(root.value, x, y);
      }
    }

    method HitTestImpl(id: NodeId, x: real, y: real) returns (hit: Option<NodeId>)
      requires WellFormed(nodes)
      ensures hit == if id in nodes then LastHit(nodes, Preorder(nodes, id), x, y) else None
      decreases if WellFormed(nodes) && id in nodes then RankOf(nodes)[id] else 0
    {
      if id !in nodes {
        return None;
      }
      var children := nodes[id].children;
      LastHitConcat(nodes, [id], PreorderFrom(nodes, id, 0), x, y);
      for k := |children| downto 0
        invariant LastHit(nodes, PreorderFrom(nodes, id, k), x, y) == None
      {
        assert children[k] in nodes[id].children;
        LastHitConcat(nodes, Preorder(nodes, children[k]), PreorderFrom(nodes, id, k + 1), x, y);
        hit := HitTestImpl(children[k], x, y);
        if hit.Some? {
          HitAmongEarlierChildren(id, k, x, y);
          return hit;
        }
      }
      if nodes[id].data.bounds.Some? && nodes[id].data.bounds.value.Contains(x, y) {
        return Some(id);
      }
      return None;
    }

    /** A hit among the children from the `k`-th on is the hit of the whole subtree. */
    lemma HitAmongEarlierChildren(id: NodeId, k: nat, x: real, y: real)
      requires WellFormed(nodes) && id in nodes && k <= |nodes[id].children|
      requires LastHit(nodes, PreorderFrom(nodes, id, k), x, y).Some?
      ensures LastHit(nodes, Preorder(nodes, id), x, y) == LastHit(nodes, PreorderFrom(nodes, id, k), x, y)
    {
      if k == 0 {
        LastHitConcat(nodes, [id], PreorderFrom(nodes, id, 0), x, y);
      } else {
        var c := nodes[id].children[k - 1];
        assert c in nodes[id].children;
        LastHitConcat(nodes, Preorder(nodes, c), PreorderFrom(nodes, id, k), x, y);
        HitAmongEarlierChildren(id, k - 1, x, y);
      }
    }
  }
}
