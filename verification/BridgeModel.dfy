/**
 The bridge-level accessibility tree: its state as a value with one function per mutating call, and
 exactly when each call keeps the tree consistent.
 */
module BridgeModel {
  import opened Wrappers
  import opened Forest
  import opened ForestUpdates

  datatype AccessibleRole =
    | Window | Dialog | Button | Label | TextInput | Checkbox | RadioButton | Slider | List | ListItem
    | Menu | MenuItem | Toolbar | StatusBar | ScrollBar | Table | TableRow | TableCell | Image | Link
    | ProgressBar | Separator | Tab | TabPanel | TreeItem | Alert | Tooltip

  datatype AccessibleState =
    | Focusable | Focused | Selected | Expanded | Collapsed | Checked | Disabled | Editable | ReadOnly
    | Required | Modal

  datatype Bounds = Bounds(x: real, y: real, width: real, height: real) {
    predicate Contains(px: real, py: real) {
      x <= px < x + width && y <= py < y + height
    }
  }

  /** The fields of an accessible node beside its links. */
  datatype Info = Info(role: AccessibleRole, name: string, description: string,
                       states: seq<AccessibleState>, value: Option<string>, bounds: Option<Bounds>)

  type AccessibleNode = Node<Info>

  function AddState(states: seq<AccessibleState>, s: AccessibleState): (r: seq<AccessibleState>)
    ensures forall t :: t in r <==> t in states || t == s
  {
    if s in states then states else states + [s]
  }

  function RemoveState(states: seq<AccessibleState>, s: AccessibleState): (r: seq<AccessibleState>)
    ensures forall t :: t in r <==> t in states && t != s
  {
    if states == [] then []
    else (if states[0] == s then [] else [states[0]]) + RemoveState(states[1..], s)
  }

  predicate HasFocus(node: AccessibleNode) {
    Focused in node.data.states
  }

  function WithFocus(node: AccessibleNode): AccessibleNode {
    node.(data := node.data.(states := AddState(node.data.states, Focused)))
  }

  function WithoutFocus(node: AccessibleNode): AccessibleNode {
    node.(data := node.data.(states := RemoveState(node.data.states, Focused)))
  }

  // ---- State and operations ------------------------------------------------

  datatype Tree = Tree(nodes: Nodes<Info>, root: Option<NodeId>, focused: Option<NodeId>)

  datatype Op =
    | OpSetRoot(node: AccessibleNode)
    | OpAddNode(parent: NodeId, node: AccessibleNode)
    | OpRemoveNode(id: NodeId)
    | OpSetFocused(id: NodeId)
    | OpClearFocused

  function SetRoot(t: Tree, node: AccessibleNode): Tree {
    Tree(Insert(t.nodes, node), Some(node.id), t.focused)
  }

  function AddNode(t: Tree, parent: NodeId, node: AccessibleNode): Tree {
    if parent in t.nodes then t.(nodes := Attach(t.nodes, parent, node)) else t
  }

  ghost function RemoveNode(t: Tree, id: NodeId): Tree {
    if id !in t.nodes then t
    else Tree(RemoveSubtree(t.nodes, id),
              if t.root == Some(id) then None else t.root,
              if t.focused.Some? && t.focused.value in Subtree(t.nodes, id) then None else t.focused)
  }

  /** The node map with the `Focused` flag taken from the focused node, if it is there. */
  function Unfocused(t: Tree): Nodes<Info> {
    if t.focused.Some? && t.focused.value in t.nodes
    then t.nodes[t.focused.value := WithoutFocus(t.nodes[t.focused.value])]
    else t.nodes
  }

  function SetFocused(t: Tree, id: NodeId): Tree {
    var nodes := Unfocused(t);
    Tree(if id in nodes then nodes[id := WithFocus(nodes[id])] else nodes, t.root, Some(id))
  }

  function ClearFocused(t: Tree): Tree {
    Tree(Unfocused(t), t.root, None)
  }

  ghost function Step(t: Tree, op: Op): Tree {
    match op
    case OpSetRoot(node) => SetRoot(t, node)
    case OpAddNode(parent, node) => AddNode(t, parent, node)
    case OpRemoveNode(id) => RemoveNode(t, id)
    case OpSetFocused(id) => SetFocused(t, id)
    case OpClearFocused => ClearFocused(t)
  }

  // ---- Invariant -----------------------------------------------------------

  /** Exactly the focused node carries the `Focused` flag, and it exists. */
  ghost predicate FocusConsistent(t: Tree) {
    && (t.focused.Some? ==> t.focused.value in t.nodes)
    && (forall id :: id in t.nodes ==> (HasFocus(t.nodes[id]) <==> t.focused == Some(id)))
  }

  ghost predicate Inv(t: Tree) {
    && WellFormed(t.nodes)
    && (t.root.Some? ==> t.root.value in t.nodes && t.nodes[t.root.value].parent == None)
    && FocusConsistent(t)
  }

  /** What a caller has to check before a call for the call to keep `Inv`. */
  ghost predicate Admissible(t: Tree, op: Op) {
    match op
    case OpSetRoot(node) =>
      && Insertable(t.nodes, node) && node.parent == None
      && (HasFocus(node) <==> t.focused == Some(node.id))
    case OpAddNode(parent, node) =>
      parent in t.nodes ==>
        && Attachable(t.nodes, parent, node) && t.root != Some(node.id)
        && (HasFocus(node) <==> t.focused == Some(node.id))
    case OpRemoveNode(_) => true
    case OpSetFocused(id) => id in t.nodes
    case OpClearFocused => true
  }

  lemma SetRootKeepsInvIff(t: Tree, node: AccessibleNode)
    requires Inv(t)
    ensures Inv(SetRoot(t, node)) <==> Admissible(t, OpSetRoot(node))
  {
    InsertKeepsForestIff(t.nodes, node);
    var after := SetRoot(t, node);
    assert after.nodes[node.id] == node;
    if Admissible(t, OpSetRoot(node)) {
      assert FocusConsistent(after);
    }
  }

  /** What `add_node` does to the flags and the root, on any map that stays well linked. */
  lemma AttachKeepsOthers(t: Tree, parent: NodeId, node: AccessibleNode)
    requires parent in t.nodes && node.id != parent
    ensures var after := Attach(t.nodes, parent, node);
            && after.Keys == t.nodes.Keys + {node.id}
            && HasFocus(after[node.id]) == HasFocus(node)
            && after[node.id].parent == Some(parent)
            && forall id :: id in t.nodes && id != node.id ==>
                 HasFocus(after[id]) == HasFocus(t.nodes[id]) && after[id].parent == t.nodes[id].parent
  {
  }

  lemma AddNodeKeepsInvIff(t: Tree, parent: NodeId, node: AccessibleNode)
    requires Inv(t)
    ensures Inv(AddNode(t, parent, node)) <==> Admissible(t, OpAddNode(parent, node))
  {
    if parent in t.nodes {
      AttachKeepsForestIff(t.nodes, parent, node);
      var after := AddNode(t, parent, node);
      if Attachable(t.nodes, parent, node) {
        ReachesSelf(t.nodes, parent);
        AttachKeepsOthers(t, parent, node);
        assert FocusConsistent(after) <==> (HasFocus(node) <==> t.focused == Some(node.id));
      }
    }
  }

  lemma RemoveNodeKeepsInv(t: Tree, id: NodeId)
    requires Inv(t)
    ensures Inv(RemoveNode(t, id))
  {
    if id in t.nodes {
      RemoveSubtreeKeepsForest(t.nodes, id);
      if t.root.Some? {
        RootRemovedOnlyByItself(t, id);
      }
    }
  }

  /** The root lies in a removed subtree only as its top, so clearing it for `root == id` is enough. */
  lemma RootRemovedOnlyByItself(t: Tree, id: NodeId)
    requires Inv(t) && t.root.Some? && id in t.nodes
    ensures t.root.value in Subtree(t.nodes, id) <==> t.root.value == id
  {
    if t.root.value == id {
      ReachesSelf(t.nodes, id);
    } else if Reaches(t.nodes, id, t.root.value) {
      ReachesParent(t.nodes, id, t.root.value);
    }
  }

  ghost predicate SameLink(a: Nodes<Info>, b: Nodes<Info>, id: NodeId)
    requires id in a && id in b
  {
    a[id].id == b[id].id && a[id].children == b[id].children && a[id].parent == b[id].parent
  }

  ghost predicate SameLinks(a: Nodes<Info>, b: Nodes<Info>) {
    a.Keys == b.Keys && forall id {:trigger SameLink(a, b, id)} :: id in a ==> SameLink(a, b, id)
  }

  lemma SameLinksKeepForest(a: Nodes<Info>, b: Nodes<Info>)
    requires WellFormed(a) && SameLinks(a, b)
    ensures WellFormed(b)
  {
    forall id | id in b
      ensures b[id].id == id && NoDuplicates(b[id].children) && ListedByParent(b, id)
    {
      assert SameLink(a, b, id) && ListedByParent(a, id);
      StillListed(a, b, id);
    }
    forall id, c | id in b && c in b[id].children
      ensures c in b && b[c].parent == Some(id)
    {
      StillNamed(a, b, id, c);
    }
    StillRanked(a, b, RankOf(a));
  }

  lemma StillNamed(a: Nodes<Info>, b: Nodes<Info>, id: NodeId, c: NodeId)
    requires ChildrenNameParent(a) && SameLinks(a, b) && id in b && c in b[id].children
    ensures c in a[id].children && c in b && b[c].parent == Some(id)
  {
    assert SameLink(a, b, id);
    assert c in a[id].children;
    assert SameLink(a, b, c);
  }

  lemma StillRanked(a: Nodes<Info>, b: Nodes<Info>, rank: map<NodeId, nat>)
    requires ChildrenNameParent(a) && SameLinks(a, b) && Ranked(a, rank)
    ensures Ranked(b, rank)
  {
    forall id, c | id in b && c in b[id].children && c in b
      ensures rank[c] < rank[id]
    {
      StillNamed(a, b, id, c);
    }
  }

  lemma StillListed(a: Nodes<Info>, b: Nodes<Info>, id: NodeId)
    requires SameLinks(a, b) && id in b && ListedByParent(a, id)
    ensures ListedByParent(b, id)
  {
    assert SameLink(a, b, id);
    if b[id].parent.Some? {
      assert SameLink(a, b, b[id].parent.value);
    }
  }

  lemma SetFocusedMovesFlag(t: Tree, id: NodeId)
    requires FocusConsistent(t) && id in t.nodes
    ensures FocusConsistent(SetFocused(t, id))
  {
    var cleared := Unfocused(t);
    assert forall x :: x in cleared ==> !HasFocus(cleared[x]);
  }

  lemma SetFocusedKeepsLinks(t: Tree, id: NodeId)
    ensures SameLinks(t.nodes, SetFocused(t, id).nodes)
  {
  }

  lemma SetFocusedKeepsInvIff(t: Tree, id: NodeId)
    requires Inv(t)
    ensures Inv(SetFocused(t, id)) <==> Admissible(t, OpSetFocused(id))
  {
    SetFocusedKeepsLinks(t, id);
    SameLinksKeepForest(t.nodes, SetFocused(t, id).nodes);
    if id in t.nodes {
      SetFocusedMovesFlag(t, id);
      if t.root.Some? {
        assert SameLink(t.nodes, SetFocused(t, id).nodes, t.root.value);
      }
    }
  }

  lemma ClearFocusedClearsFlag(t: Tree)
    requires FocusConsistent(t)
    ensures FocusConsistent(ClearFocused(t))
  {
  }

  lemma ClearFocusedKeepsLinks(t: Tree)
    ensures SameLinks(t.nodes, ClearFocused(t).nodes)
  {
  }

  lemma ClearFocusedKeepsInv(t: Tree)
    requires Inv(t)
    ensures Inv(ClearFocused(t))
  {
    ClearFocusedKeepsLinks(t);
    SameLinksKeepForest(t.nodes, ClearFocused(t).nodes);
    ClearFocusedClearsFlag(t);
    if t.root.Some? {
      assert SameLink(t.nodes, ClearFocused(t).nodes, t.root.value);
    }
  }

  lemma StepKeepsInvIff(t: Tree, op: Op)
    requires Inv(t)
    ensures Inv(Step(t, op)) <==> Admissible(t, op)
  {
    match op
    case OpSetRoot(node) => SetRootKeepsInvIff(t, node);
    case OpAddNode(parent, node) => AddNodeKeepsInvIff(t, parent, node);
    case OpRemoveNode(id) => RemoveNodeKeepsInv(t, id);
    case OpSetFocused(id) => SetFocusedKeepsInvIff(t, id);
    case OpClearFocused => ClearFocusedKeepsInv(t);
  }

  // ---- Runs ----------------------------------------------------------------

  ghost function Run(t: Tree, ops: seq<Op>): Tree {
    if ops == [] then t else Step(Run(t, ops[..|ops| - 1]), ops[|ops| - 1])
  }

  ghost predicate InvThroughout(t: Tree, ops: seq<Op>) {
    forall k :: 0 <= k <= |ops| ==> Inv(Run(t, ops[..k]))
  }

  ghost predicate AdmissibleThroughout(t: Tree, ops: seq<Op>) {
    forall k :: 0 <= k < |ops| ==> Admissible(Run(t, ops[..k]), ops[k])
  }

  lemma RunStep(t: Tree, ops: seq<Op>, k: nat)
    requires k < |ops|
    ensures Run(t, ops[..k + 1]) == Step(Run(t, ops[..k]), ops[k])
  {
    assert ops[..k + 1][..k] == ops[..k];
  }

  lemma {:induction false} AdmissibleRunUpTo(t: Tree, ops: seq<Op>, k: nat)
    requires Inv(t) && AdmissibleThroughout(t, ops) && k <= |ops|
    ensures Inv(Run(t, ops[..k]))
  {
    if k > 0 {
      AdmissibleRunUpTo(t, ops, k - 1);
      RunStep(t, ops, k - 1);
      var s := Run(t, ops[..k - 1]);
      assert Admissible(s, ops[k - 1]);
      StepKeepsInvIff(s, ops[k - 1]);
    }
  }

  /** The tree is consistent throughout a run exactly when every call was admissible where it was made. */
  lemma RunKeepsInvIff(t: Tree, ops: seq<Op>)
    requires Inv(t)
    ensures InvThroughout(t, ops) <==> AdmissibleThroughout(t, ops)
  {
    if AdmissibleThroughout(t, ops) {
      forall k | 0 <= k <= |ops|
        ensures Inv(Run(t, ops[..k]))
      {
        AdmissibleRunUpTo(t, ops, k);
      }
    }
    if InvThroughout(t, ops) {
      forall k | 0 <= k < |ops|
        ensures Admissible(Run(t, ops[..k]), ops[k])
      {
        RunStep(t, ops, k);
        assert Inv(Run(t, ops[..k])) && Inv(Run(t, ops[..k + 1]));
        StepKeepsInvIff(Run(t, ops[..k]), ops[k]);
      }
    }
  }

  lemma UnlistedLeaf(nodes: Nodes<Info>, parent: NodeId, node: AccessibleNode, x: NodeId)
    requires WellFormed(nodes) && parent in nodes && node.id !in nodes && x in nodes
    ensures Unlisted(Attach(nodes, parent, node), node.id, x) == nodes[x]
  {
    assert node.id !in nodes[parent].children;
    WithoutAppended(nodes[parent].children, node.id);
  }

  lemma DetachUndoesAttach(nodes: Nodes<Info>, parent: NodeId, node: AccessibleNode)
    requires WellFormed(nodes) && parent in nodes && node.id !in nodes && node.children == []
    ensures Subtree(Attach(nodes, parent, node), node.id) == {node.id}
    ensures RemoveSubtree(Attach(nodes, parent, node), node.id) == nodes
  {
    var added := Attach(nodes, parent, node);
    LeafSubtree(added, node.id);
    var removed := RemoveSubtree(added, node.id);
    assert removed.Keys == nodes.Keys;
    forall x | x in removed
      ensures removed[x] == nodes[x]
    {
      UnlistedLeaf(nodes, parent, node, x);
    }
  }

  /** Removing a freshly added leaf gives back the tree before the addition, node for node. */
  lemma RemoveUndoesAdd(t: Tree, parent: NodeId, node: AccessibleNode)
    requires Inv(t) && parent in t.nodes && node.id !in t.nodes && node.children == []
    ensures RemoveNode(AddNode(t, parent, node), node.id) == t
  {
    DetachUndoesAttach(t.nodes, parent, node);
  }

  lemma LeafSubtree(nodes: Nodes<Info>, id: NodeId)
    requires id in nodes && nodes[id].children == []
    ensures Subtree(nodes, id) == {id}
  {
    ReachesSelf(nodes, id);
    forall x | Reaches(nodes, id, x)
      ensures x == id
    {
      FirstStep(nodes, id, x);
    }
  }

  lemma {:induction false} WithoutAppended(s: seq<NodeId>, x: NodeId)
    requires x !in s
    ensures Without(s + [x], x) == s
  {
    if s == [] {
      assert s + [x] == [x];
    } else {
      assert (s + [x])[1..] == s[1..] + [x];
      WithoutAppended(s[1..], x);
    }
  }

  lemma EmptyTreeInv()
    ensures Inv(Tree(map[], None, None))
  {
    var nodes: Nodes<Info> := map[];
    assert Ranked(nodes, map[]);
  }

  // ---- path_to_root --------------------------------------------------------

  /** `path` climbs from `id` by parent links to a node without a parent. */
  ghost predicate IsPathToRoot(nodes: Nodes<Info>, id: NodeId, path: seq<NodeId>) {
    && ClimbsFrom(nodes, id, path)
    && nodes[path[|path| - 1]].parent == None
  }

  ghost predicate ClimbsFrom(nodes: Nodes<Info>, id: NodeId, path: seq<NodeId>) {
    && path != [] && path[0] == id
    && (forall i :: 0 <= i < |path| ==> path[i] in nodes)
    && (forall i :: 0 < i < |path| ==> nodes[path[i - 1]].parent == Some(path[i]))
  }

  lemma {:induction false} ClimbRaisesRank(nodes: Nodes<Info>, id: NodeId, path: seq<NodeId>, i: nat, j: nat)
    requires WellFormed(nodes) && ClimbsFrom(nodes, id, path) && i < j < |path|
    ensures RankOf(nodes)[path[i]] < RankOf(nodes)[path[j]]
    decreases j
  {
    assert ListedByParent(nodes, path[j - 1]);
    if i < j - 1 {
      ClimbRaisesRank(nodes, id, path, i, j - 1);
    }
  }

  lemma ClimbIsDistinct(nodes: Nodes<Info>, id: NodeId, path: seq<NodeId>)
    requires WellFormed(nodes) && ClimbsFrom(nodes, id, path)
    ensures NoDuplicates(path)
  {
    forall i, j | 0 <= i < j < |path|
      ensures path[i] != path[j]
    {
      ClimbRaisesRank(nodes, id, path, i, j);
    }
  }

  /** The path holds exactly the node and its ancestors. */
  lemma PathIsAncestors(nodes: Nodes<Info>, id: NodeId, path: seq<NodeId>, x: NodeId)
    requires WellFormed(nodes) && IsPathToRoot(nodes, id, path)
    ensures x in path <==> Reaches(nodes, x, id)
  {
    if x in path {
      var i :| 0 <= i < |path| && path[i] == x;
      PathReachesDown(nodes, id, path, i);
    }
    if Reaches(nodes, x, id) {
      var p :| ChainBetween(nodes, x, id, p);
      ChainIsOnPath(nodes, id, path, x, p);
    }
  }

  lemma {:induction false} PathReachesDown(nodes: Nodes<Info>, id: NodeId, path: seq<NodeId>, i: nat)
    requires WellFormed(nodes) && ClimbsFrom(nodes, id, path) && i < |path|
    ensures Reaches(nodes, path[i], id)
    decreases i
  {
    if i == 0 {
      ReachesSelf(nodes, id);
    } else {
      PathReachesDown(nodes, id, path, i - 1);
      assert ListedByParent(nodes, path[i - 1]);
      ReachesFromParent(nodes, path[i], path[i - 1], id);
    }
  }

  lemma {:induction false} ChainIsOnPath(nodes: Nodes<Info>, id: NodeId, path: seq<NodeId>, x: NodeId, p: seq<NodeId>)
    requires WellFormed(nodes) && IsPathToRoot(nodes, id, path) && ChainBetween(nodes, x, id, p)
    ensures x in path
    decreases |p|
  {
    if |p| == 1 {
      assert path[0] == x;
    } else {
      assert p[|p| - 1] in nodes[p[|p| - 2]].children;
      assert nodes[id].parent == Some(p[|p| - 2]);
      assert ChainBetween(nodes, x, path[1], p[..|p| - 1]);
      assert IsPathToRoot(nodes, path[1], path[1..]);
      ChainIsOnPath(nodes, path[1], path[1..], x, p[..|p| - 1]);
    }
  }
}
