/** Mode and selection state of the tech-tree view
    (src/providers/TechTreeLayoutContextProvider.tsx). The two React effects
    become explicit methods: OnEvents for a new ledger event list, and
    OnNodesChanged for a new node list. */
module Layout {
  import opened TreeTypes

  /** The two view modes the provider uses. */
  datatype Mode = Move | Edit

  /** What the editor is about to add. */
  datatype AddType = AddNode | AddEdge

  /** A ledger event as the event feed reports it. */
  datatype TxEvent = TxEvent(eventName: string, techTreeId: int)

  /** True when the list holds a `TechTreeUpdated` event for this tree
      (`events.find(...)` returned something). */
  predicate HasTreeUpdate(events: seq<TxEvent>, techTreeId: int)
  {
    exists i :: 0 <= i < |events| && events[i].eventName == "TechTreeUpdated" && events[i].techTreeId == techTreeId
  }

  /** `nodes.find((n) => n.id === nodeId)` with an optional id: an undefined
      id matches no node, since every node id is a string. */
  function FindActive(nodes: seq<Node>, nodeId: Option<string>): (r: Option<Node>)
    ensures r.None? <==> nodeId.None? || forall n :: n in nodes ==> n.id != nodeId.value
    ensures r.Some? ==> IndexOfId(nodes, nodeId.value).Some? && r.value == nodes[IndexOfId(nodes, nodeId.value).value]
  {
    if nodeId.Some? then FindNode(nodes, nodeId.value) else None
  }

  /** The node list is a single ultimate objective. */
  predicate IsLoneUltimateObjective(nodes: seq<Node>) {
    |nodes| == 1 && nodes[0].kind == Some(UltimateObjective)
  }

  class LayoutContext {
    const techTreeId: int
    var mode: Mode
    var activeNode: Option<Node>
    var activeEditType: Option<AddType>

    constructor (techTreeId: int)
      ensures this.techTreeId == techTreeId
      ensures mode == Move && activeNode == None && activeEditType == None
    {
      this.techTreeId := techTreeId;
      mode := Move;
      activeNode := None;
      activeEditType := None;
    }

    /** `handleSetMode`: entering edit mode drops the selection first. */
    method SetMode(m: Mode)
      modifies this
      ensures mode == m
      ensures activeNode == if m == Edit then None else old(activeNode)
      ensures activeEditType == old(activeEditType)
    {
      if m == Edit {
        activeNode := None;
      }
      mode := m;
    }

    /** `handleSetActiveNode`: select the first node with that id, or nothing. */
    method SetActiveNode(nodes: seq<Node>, nodeId: Option<string>)
      modifies this
      ensures activeNode == FindActive(nodes, nodeId)
      ensures activeNode.Some? ==> activeNode.value in nodes && activeNode.value.id == nodeId.value
      ensures activeNode.None? <==> nodeId.None? || forall n :: n in nodes ==> n.id != nodeId.value
      ensures mode == old(mode) && activeEditType == old(activeEditType)
    {
      activeNode := FindActive(nodes, nodeId);
    }

    /** `setActiveNodeRaw`: select a node record directly. */
    method SetActiveNodeRaw(node: Option<Node>)
      modifies this
      ensures activeNode == node
      ensures mode == old(mode) && activeEditType == old(activeEditType)
    {
      activeNode := node;
    }

    /** `setActiveEditType`: nothing else changes. */
    method SetActiveEditType(t: Option<AddType>)
      modifies this
      ensures activeEditType == t
      ensures mode == old(mode) && activeNode == old(activeNode)
    {
      activeEditType := t;
    }

    /** The event effect: an update of this tree on the ledger resets the view. */
    method OnEvents(events: seq<TxEvent>)
      modifies this
      ensures HasTreeUpdate(events, techTreeId) ==>
        mode == Move && activeNode == None && activeEditType == None
      ensures !HasTreeUpdate(events, techTreeId) ==>
        mode == old(mode) && activeNode == old(activeNode) && activeEditType == old(activeEditType)
    {
      if HasTreeUpdate(events, techTreeId) {
        activeNode := None;
        mode := Move;
        activeEditType := None;
      }
    }

    /** The node-list effect: a tree that consists of its ultimate objective
        alone opens in edit mode with that node selected. Otherwise nothing changes. */
    method OnNodesChanged(nodes: seq<Node>)
      modifies this
      ensures IsLoneUltimateObjective(nodes) ==> mode == Edit && activeNode == Some(nodes[0])
      ensures !IsLoneUltimateObjective(nodes) ==> mode == old(mode) && activeNode == old(activeNode)
      ensures activeEditType == old(activeEditType)
    {
      if |nodes| == 1 && nodes[0].kind == Some(UltimateObjective) {
        mode := Edit;
        activeNode := Some(nodes[0]);
      }
    }
  }
}
