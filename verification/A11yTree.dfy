/** The in-process accessibility tree that the focus order is built from. */
module A11yTree {
  import opened Wrappers
  import opened Forest
  import opened ForestUpdates

  datatype Role =
    | Window | Dialog | Panel | Button | Label | TextInput | Checkbox | RadioButton | Slider | List | ListItem
    | Tree | TreeItem | Tab | TabPanel | Menu | MenuItem | MenuBar | Toolbar | StatusBar | ProgressBar | Separator
    | Image | Link | Table | TableRow | TableCell | ScrollBar | Tooltip | Alert | Application

  datatype State =
    | Focused | Selected | Checked | Expanded | Disabled | Invisible | ReadOnly | Required | Invalid

  /** The fields of a node that the tab order depends on; the links are the forest's. */
  datatype Info = Info(role: Role, name: string, states: set<State>)

  type AccessibleNode = Node<Info>

  datatype A11yError = NodeNotFound(id: NodeId)

  predicate IsFocusable(node: AccessibleNode) {
    && Disabled !in node.data.states && Invisible !in node.data.states
    && node.data.role in {Button, TextInput, Checkbox, RadioButton, Slider, Link, Tab, MenuItem, ListItem, TreeItem}
  }

  class AccessibilityTree {
    var nodes: Nodes<Info>
    var root: Option<NodeId>
    var nextId: NodeId

    constructor ()
      ensures nodes == map[] && root == None && nextId == 1
    {
      nodes, root, nextId := map[], None, 1;
    }

    method AllocateId() returns (id: NodeId)
      modifies this`nextId
      ensures id == old(nextId) && nextId == id + 1
    {
      id := nextId;
      nextId := nextId + 1;
    }

    method SetRoot(node: AccessibleNode)
      modifies this
      ensures nodes == Insert(old(nodes), node) && root == Some(node.id) && nextId == old(nextId)
    {
      nodes := nodes[node.id := node];
      root := Some(node.id);
    }

    method AddNode(parentId: NodeId, node: AccessibleNode) returns (r: Result<(), A11yError>)
      modifies this
      ensures root == old(root) && nextId == old(nextId)
      ensures parentId in old(nodes) ==> r == Ok(()) && nodes == Attach(old(nodes), parentId, node)
      ensures parentId !in old(nodes) ==> r == Err(NodeNotFound(parentId)) && nodes == old(nodes)
    {
      if parentId !in nodes {
        return Err(NodeNotFound(parentId));
      }
      var child := node.(parent := Some(parentId));
      nodes := nodes[child.id := child];
      if parentId in nodes {
        nodes := nodes[parentId := nodes[parentId].(children := nodes[parentId].children + [child.id])];
      }
      return Ok(());
    }

    method RemoveNode(id: NodeId) returns (r: Result<(), A11yError>)
      requires WellFormed(nodes)
      modifies this
      ensures nextId == old(nextId)
      ensures id in old(nodes) ==>
                && r == Ok(()) && nodes == RemoveSubtree(old(nodes), id)
                && root == (if old(root) == Some(id) then None else old(root))
      ensures id !in old(nodes) ==> r == Err(NodeNotFound(id)) && nodes == old(nodes) && root == old(root)
    {
      if id !in nodes {
        return Err(NodeNotFound(id));
      }
      var rest, _ := Detach(nodes, id);
      nodes := rest;
      if root == Some(id) {
        root := None;
      }
      return Ok(());
    }

    /** The ids of the nodes that the callback is given, in order. */
    method Walk() returns (visited: seq<NodeId>)
      requires WellFormed(nodes)
      ensures visited == Walked(nodes, root)
    {
      visited := [];
      if root.Some? {
        visited := WalkSubtree(root.value, visited);
      }
    }

    method WalkSubtree(id: NodeId, visited: seq<NodeId>) returns (after: seq<NodeId>)
      requires WellFormed(nodes)
      ensures after == visited + if id in nodes then Preorder(nodes, id) else []
      decreases if WellFormed(nodes) && id in nodes then RankOf(nodes)[id] else 0
    {
      after := visited;
      if id in nodes {
        after := after + [id];
        var children := nodes[id].children;
        for k := 0 to |children|
          invariant after + PreorderFrom(nodes, id, k) == visited + Preorder(nodes, id)
        {
          assert children[k] in nodes[id].children;
          after := WalkSubtree(children[k], after);
        }
      }
    }
  }

  /** The nodes that a walk from the root visits, in order. */
  ghost function Walked(nodes: Nodes<Info>, root: Option<NodeId>): (r: seq<NodeId>)
    requires WellFormed(nodes)
    ensures forall x :: x in r ==> x in nodes
  {
    if root.Some? && root.value in nodes then
      PreorderIsSubtree(nodes, root.value);
      Preorder(nodes, root.value)
    else []
  }
}
