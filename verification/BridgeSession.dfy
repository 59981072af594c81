/** Clients of the bridge tree that take their ids from `allocate_id` and insert newly constructed nodes. */
module BridgeSessions {
  import opened Wrappers
  import opened Forest
  import opened BridgeModel

  datatype Session = Session(tree: Tree, nextId: NodeId)

  datatype Call =
    | AddRoot(role: AccessibleRole, name: string)
    | AddChild(parent: NodeId, role: AccessibleRole, name: string)
    | Remove(id: NodeId)
    | Focus(id: NodeId)
    | Blur

  /** `AccessibleNode::new` */
  function NewNode(id: NodeId, role: AccessibleRole, name: string): AccessibleNode {
    Node(id, Info(role, name, "", [], None, None), [], None)
  }

  /** One call; a client asks for focus only on a node that it finds in the tree. */
  ghost function After(s: Session, call: Call): Session {
    match call
    case AddRoot(role, name) =>
      Session(Step(s.tree, OpSetRoot(NewNode(s.nextId, role, name))), s.nextId + 1)
    case AddChild(parent, role, name) =>
      Session(Step(s.tree, OpAddNode(parent, NewNode(s.nextId, role, name))), s.nextId + 1)
    case Remove(id) => s.(tree := Step(s.tree, OpRemoveNode(id)))
    case Focus(id) => if id in s.tree.nodes then s.(tree := Step(s.tree, OpSetFocused(id))) else s
    case Blur => s.(tree := Step(s.tree, OpClearFocused))
  }

  ghost function AfterAll(s: Session, calls: seq<Call>): Session {
    if calls == [] then s else After(AfterAll(s, calls[..|calls| - 1]), calls[|calls| - 1])
  }

  /** No id at or above the counter has been given out. */
  ghost predicate Allocated(s: Session) {
    forall id :: id in s.tree.nodes ==> id < s.nextId
  }

  lemma CallKeepsInv(s: Session, call: Call)
    requires Inv(s.tree) && Allocated(s)
    ensures Inv(After(s, call).tree) && Allocated(After(s, call))
  {
    match call
    case AddRoot(role, name) => StepKeepsInvIff(s.tree, OpSetRoot(NewNode(s.nextId, role, name)));
    case AddChild(parent, role, name) => StepKeepsInvIff(s.tree, OpAddNode(parent, NewNode(s.nextId, role, name)));
    case Remove(id) => StepKeepsInvIff(s.tree, OpRemoveNode(id));
    case Focus(id) => if id in s.tree.nodes { StepKeepsInvIff(s.tree, OpSetFocused(id)); }
    case Blur => StepKeepsInvIff(s.tree, OpClearFocused);
  }

  /** Such clients need no further checks: whatever they call, the tree stays consistent. */
  lemma {:induction false} SessionKeepsInv(calls: seq<Call>)
    ensures var s := AfterAll(Session(Tree(map[], None, None), 1), calls); Inv(s.tree) && Allocated(s)
  {
    if calls == [] {
      EmptyTreeInv();
    } else {
      SessionKeepsInv(calls[..|calls| - 1]);
      CallKeepsInv(AfterAll(Session(Tree(map[], None, None), 1), calls[..|calls| - 1]), calls[|calls| - 1]);
    }
  }
}
