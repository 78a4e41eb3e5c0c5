/** The graph the editor shows (src/providers/TechTreeDataProvider.tsx): the
    tree as read from the ledger, turned into records whose ids are decimal
    array indices, plus a local overlay of added and edited nodes and edges
    that is either published to the ledger or thrown away. The merged view is
    the remote list followed by the overlay: the overlay does not shadow
    remote records by id. */
module DataStore {
  import opened TreeTypes
  import opened Decimal
  import opened Seqs
  import opened Extract

  /** A node as `getNodesLite` reports it. */
  datatype LedgerNode = LedgerNode(title: string)

  /** An edge as `getEdges` reports it. */
  datatype LedgerEdge = LedgerEdge(source: string, target: string)

  /** A node of the `updateTechTree` transaction. */
  datatype NodeInput = NodeInput(title: Option<string>, ipfsHash: string)

  /** An edge of the `updateTechTree` transaction. */
  datatype EdgeInput = EdgeInput(source: string, target: string)

  /** The arguments of `updateTechTree`. */
  datatype Payload = Payload(nodes: seq<NodeInput>, edges: seq<EdgeInput>)

  datatype PublishMode = Reset | Publish

  /** A `Partial<NodeData>`: `None` is a key that is absent, `Some(v)` a key
      that is present with value `v` (which may itself be undefined). */
  datatype NodePatch = NodePatch(id: Option<string>, title: Option<Option<string>>,
                                 kind: Option<Option<NodeType>>, details: Option<Option<string>>)

  /** The hash every published node carries: the source sends this string
      literal, not a hash. */
  const PlaceholderHash: string := "node.ipfsHash,"

  /** Ledger nodes from index k on, each with its index as id. */
  function RemoteNodesFrom(ledger: seq<LedgerNode>, k: nat): (r: seq<Node>)
    ensures |r| == |ledger|
    ensures forall i :: 0 <= i < |ledger| ==>
      r[i] == Node(NatToDecimal(k + i), Some(ledger[i].title), None, None)
    decreases |ledger|
  {
    if ledger == [] then []
    else [Node(NatToDecimal(k), Some(ledger[0].title), None, None)] + RemoteNodesFrom(ledger[1..], k + 1)
  }

  /** Ledger edges from index k on, each with its index as id. */
  function RemoteEdgesFrom(ledger: seq<LedgerEdge>, k: nat): (r: seq<Edge>)
    ensures |r| == |ledger|
    ensures forall i :: 0 <= i < |ledger| ==>
      r[i] == Edge(NatToDecimal(k + i), ledger[i].source, ledger[i].target)
    decreases |ledger|
  {
    if ledger == [] then []
    else [Edge(NatToDecimal(k), ledger[0].source, ledger[0].target)] + RemoteEdgesFrom(ledger[1..], k + 1)
  }

  /** `onChainNodes?.map(...) || []`: nothing read yet is the empty list. */
  function RemoteNodes(ledger: Option<seq<LedgerNode>>): (r: seq<Node>)
    ensures ledger.None? ==> r == []
    ensures ledger.Some? ==> |r| == |ledger.value| && forall i :: 0 <= i < |r| ==>
      r[i] == Node(NatToDecimal(i), Some(ledger.value[i].title), None, None)
  {
    if ledger.None? then [] else RemoteNodesFrom(ledger.value, 0)
  }

  /** `onChainEdges?.map(...) || []`. */
  function RemoteEdges(ledger: Option<seq<LedgerEdge>>): (r: seq<Edge>)
    ensures ledger.None? ==> r == []
    ensures ledger.Some? ==> |r| == |ledger.value| && forall i :: 0 <= i < |r| ==>
      r[i] == Edge(NatToDecimal(i), ledger.value[i].source, ledger.value[i].target)
  {
    if ledger.None? then [] else RemoteEdgesFrom(ledger.value, 0)
  }

  /** Remote ids are pairwise distinct, and looking up the decimal form of an
      index finds the node read at that index. */
  lemma RemoteNodeIds(ledger: seq<LedgerNode>)
    ensures var r := RemoteNodes(Some(ledger));
      && (forall i, j :: 0 <= i < j < |r| ==> r[i].id != r[j].id)
      && (forall i :: 0 <= i < |r| ==> FindNode(r, NatToDecimal(i)) == Some(r[i]))
  {
    var r := RemoteNodes(Some(ledger));
    forall i, j | 0 <= i < j < |r| ensures r[i].id != r[j].id {
      NatToDecimalInjective(i, j);
    }
    forall i | 0 <= i < |r| ensures FindNode(r, NatToDecimal(i)) == Some(r[i]) {
      var k := IndexOfId(r, NatToDecimal(i)).value;
      NatToDecimalInjective(i, k);
    }
  }

  /** Remote edge ids are pairwise distinct. */
  lemma RemoteEdgeIds(ledger: seq<LedgerEdge>)
    ensures UniqueEdgeIds(RemoteEdges(Some(ledger)))
  {
    var r := RemoteEdges(Some(ledger));
    forall i, j | 0 <= i < j < |r| ensures r[i].id != r[j].id {
      NatToDecimalInjective(i, j);
    }
  }

  /** `updatedEdges.filter((edge) => edge.source === nodeId).length > 0`:
      some overlay edge depends on the node. */
  function HasDependants(edges: seq<Edge>, id: string): (r: bool)
    ensures r <==> exists e :: e in edges && e.source == id
  {
    var dependants := EdgesWithSource(edges, id);
    assert dependants != [] ==> dependants[0] in dependants;
    |dependants| > 0
  }

  /** `nodes.filter((node) => node.id !== nodeId)`. */
  function WithoutNode(nodes: seq<Node>, id: string): (r: seq<Node>)
    ensures forall n :: n in r <==> n in nodes && n.id != id
    ensures IsSubsequence(r, nodes)
    ensures forall n :: n in nodes ==> multiset(r)[n] == if n.id != id then multiset(nodes)[n] else 0
  {
    Filter(nodes, (n: Node) => n.id != id)
  }

  /** `edges.filter((edge) => edge.target !== nodeId)`. */
  function WithoutTarget(edges: seq<Edge>, id: string): (r: seq<Edge>)
    ensures forall e :: e in r <==> e in edges && e.target != id
    ensures IsSubsequence(r, edges)
    ensures forall e :: e in edges ==> multiset(r)[e] == if e.target != id then multiset(edges)[e] else 0
  {
    Filter(edges, (e: Edge) => e.target != id)
  }

  /** `{ ...node, ...data }`: every key present in the patch overwrites the node's. */
  function Patch(n: Node, p: NodePatch): (r: Node)
    ensures r.id == (if p.id.Some? then p.id.value else n.id)
    ensures r.title == (if p.title.Some? then p.title.value else n.title)
    ensures r.kind == (if p.kind.Some? then p.kind.value else n.kind)
    ensures r.details == (if p.details.Some? then p.details.value else n.details)
    ensures p == NodePatch(None, None, None, None) ==> r == n
  {
    Node(if p.id.Some? then p.id.value else n.id,
         if p.title.Some? then p.title.value else n.title,
         if p.kind.Some? then p.kind.value else n.kind,
         if p.details.Some? then p.details.value else n.details)
  }

  /** The patch is applied to every node with the id; the others are kept. */
  function PatchAll(nodes: seq<Node>, id: string, p: NodePatch): (r: seq<Node>)
    ensures |r| == |nodes|
    ensures forall i :: 0 <= i < |nodes| && nodes[i].id == id ==> r[i] == Patch(nodes[i], p)
    ensures forall i :: 0 <= i < |nodes| && nodes[i].id != id ==> r[i] == nodes[i]
  {
    Map(nodes, (n: Node) => if n.id == id then Patch(n, p) else n)
  }

  /** The `updateTechTree` arguments: one entry per overlay node and per
      overlay edge, in overlay order. */
  function PublishPayload(updatedNodes: seq<Node>, updatedEdges: seq<Edge>): (r: Payload)
    ensures |r.nodes| == |updatedNodes| && |r.edges| == |updatedEdges|
    ensures forall i :: 0 <= i < |updatedNodes| ==>
      r.nodes[i].title == updatedNodes[i].title && r.nodes[i].ipfsHash == PlaceholderHash
    ensures forall i :: 0 <= i < |updatedEdges| ==>
      r.edges[i].source == updatedEdges[i].source && r.edges[i].target == updatedEdges[i].target
  {
    Payload(Map(updatedNodes, (n: Node) => NodeInput(n.title, PlaceholderHash)),
            Map(updatedEdges, (e: Edge) => EdgeInput(e.source, e.target)))
  }

  /** Removing a node just added, whose id the overlay did not have, gives
      back the overlay nodes as they were. */
  lemma AddThenRemove(nodes: seq<Node>, n: Node)
    requires forall m :: m in nodes ==> m.id != n.id
    ensures WithoutNode(nodes + [n], n.id) == nodes
  {
    var p := (m: Node) => m.id != n.id;
    FilterConcat(nodes, [n], p);
    FilterAll(nodes, p);
    assert !p(n);
    FilterNone([n], p);
  }

  /** Patching keeps every node's position: the first node with the id is at
      the same index as before, as long as the patch does not move it to
      another id. */
  lemma {:induction false} PatchAllKeepsIndex(nodes: seq<Node>, id: string, p: NodePatch)
    requires p.id.None? || p.id == Some(id)
    ensures IndexOfId(PatchAll(nodes, id, p), id) == IndexOfId(nodes, id)
    decreases |nodes|
  {
    if nodes != [] {
      var r := PatchAll(nodes, id, p);
      assert r[1..] == PatchAll(nodes[1..], id, p);
      PatchAllKeepsIndex(nodes[1..], id, p);
    }
  }

  /** After a patch that keeps the id, looking the id up finds the patched
      form of the node found before. */
  lemma PatchedLookup(nodes: seq<Node>, id: string, p: NodePatch)
    requires FindNode(nodes, id).Some?
    requires p.id.None? || p.id == Some(id)
    ensures FindNode(PatchAll(nodes, id, p), id) == Some(Patch(FindNode(nodes, id).value, p))
  {
    PatchAllKeepsIndex(nodes, id, p);
  }

  /** A lookup in a concatenation that succeeds in the first part finds the
      same node there. */
  lemma {:induction false} FindInPrefix(a: seq<Node>, b: seq<Node>, id: string)
    requires FindNode(a, id).Some?
    ensures FindNode(a + b, id) == FindNode(a, id)
    decreases |a|
  {
    if a[0].id != id {
      assert (a + b)[1..] == a[1..] + b;
      FindInPrefix(a[1..], b, id);
    }
  }

  /** Editing a node that came from the ledger leaves the first match in the
      merged view unchanged: the remote record precedes its edited copy in
      the overlay, so a lookup by id still finds the unedited one. */
  lemma RemoteEditIsShadowed(remote: seq<Node>, overlay: seq<Node>, id: string, p: NodePatch)
    requires FindNode(remote, id).Some?
    ensures FindNode(remote + PatchAll(remote + overlay, id, p), id) == FindNode(remote, id)
  {
    FindInPrefix(remote, PatchAll(remote + overlay, id, p), id);
  }

  /** The provider's state: the remote records and the overlay. */
  class TechTreeStore {
    var nodes: seq<Node>
    var edges: seq<Edge>
    var updatedNodes: seq<Node>
    var updatedEdges: seq<Edge>

    /** The provider as mounted over a ledger read (None while loading),
        with an empty overlay. */
    constructor (ledgerNodes: Option<seq<LedgerNode>>, ledgerEdges: Option<seq<LedgerEdge>>)
      ensures nodes == RemoteNodes(ledgerNodes) && edges == RemoteEdges(ledgerEdges)
      ensures updatedNodes == [] && updatedEdges == []
    {
      nodes := RemoteNodes(ledgerNodes);
      edges := RemoteEdges(ledgerEdges);
      updatedNodes := [];
      updatedEdges := [];
    }

    /** A new ledger read replaces the remote records; the overlay stays. */
    method LoadLedger(ledgerNodes: Option<seq<LedgerNode>>, ledgerEdges: Option<seq<LedgerEdge>>)
      modifies this
      ensures nodes == RemoteNodes(ledgerNodes) && edges == RemoteEdges(ledgerEdges)
      ensures updatedNodes == old(updatedNodes) && updatedEdges == old(updatedEdges)
    {
      nodes := RemoteNodes(ledgerNodes);
      edges := RemoteEdges(ledgerEdges);
    }

    /** `nodesWithUpdates`: the remote nodes, then the overlay's. */
    function NodesWithUpdates(): (r: seq<Node>)
      reads this
      ensures |r| == |nodes| + |updatedNodes|
      ensures r[..|nodes|] == nodes && r[|nodes|..] == updatedNodes
    {
      nodes + updatedNodes
    }

    /** `edgesWithUpdates`: the remote edges, then the overlay's. */
    function EdgesWithUpdates(): (r: seq<Edge>)
      reads this
      ensures |r| == |edges| + |updatedEdges|
      ensures r[..|edges|] == edges && r[|edges|..] == updatedEdges
    {
      edges + updatedEdges
    }

    /** `hasUpdates`: the merged view differs from the remote lists exactly
        when the overlay is not empty. */
    function HasUpdates(): (r: bool)
      reads this
      ensures r <==> updatedNodes != [] || updatedEdges != []
    {
      assert updatedNodes == [] ==> NodesWithUpdates() == nodes;
      assert updatedEdges == [] ==> EdgesWithUpdates() == edges;
      nodes != NodesWithUpdates() || edges != EdgesWithUpdates()
    }

    /** `addNewNode`: append to the overlay, without checking the id. */
    method AddNewNode(n: Node)
      modifies this
      ensures updatedNodes == old(updatedNodes) + [n]
      ensures nodes == old(nodes) && edges == old(edges) && updatedEdges == old(updatedEdges)
      ensures HasUpdates()
    {
      updatedNodes := updatedNodes + [n];
    }

    /** `handleEdgeUpdate`, with `freshId` standing for `generateId()`. An
        absent or empty end is ignored; otherwise the whole merged edge list
        plus the new edge becomes the overlay, so the remote edges now appear
        twice in the merged view. */
    method HandleEdgeUpdate(source: Option<string>, target: Option<string>, freshId: string)
      modifies this
      ensures source.None? || source.value == "" || target.None? || target.value == "" ==>
        updatedEdges == old(updatedEdges)
      ensures source.Some? && source.value != "" && target.Some? && target.value != "" ==>
        && updatedEdges == old(EdgesWithUpdates()) + [Edge(freshId, source.value, target.value)]
        && EdgesWithUpdates() == old(edges) + old(edges) + old(updatedEdges) + [Edge(freshId, source.value, target.value)]
        && HasDependants(updatedEdges, source.value)
      ensures nodes == old(nodes) && edges == old(edges) && updatedNodes == old(updatedNodes)
    {
      if source.None? || source.value == "" || target.None? || target.value == "" {
        return;
      }
      var added := Edge(freshId, source.value, target.value);
      assert added in EdgesWithUpdates() + [added];
      updatedEdges := EdgesWithUpdates() + [added];
    }

    /** `removeNode`: refused, with nothing changed, when an overlay edge
        leaves the node (remote edges are not looked at); otherwise the
        overlay loses every node with the id and every edge into it. */
    method RemoveNode(nodeId: string) returns (removed: bool)
      modifies this
      ensures removed <==> !HasDependants(old(updatedEdges), nodeId)
      ensures !removed ==> updatedNodes == old(updatedNodes) && updatedEdges == old(updatedEdges)
      ensures removed ==>
        && updatedNodes == WithoutNode(old(updatedNodes), nodeId)
        && updatedEdges == WithoutTarget(old(updatedEdges), nodeId)
      ensures nodes == old(nodes) && edges == old(edges)
    {
      if HasDependants(updatedEdges, nodeId) {
        removed := false;
        return;
      }
      var newNodes := WithoutNode(updatedNodes, nodeId);
      var newEdges := WithoutTarget(updatedEdges, nodeId);
      updatedNodes := newNodes;
      updatedEdges := newEdges;
      removed := true;
    }

    /** `handleNodeUpdate`: nothing happens when no merged node has the id;
        otherwise the overlay becomes the whole merged node list with every
        node of that id patched. */
    method HandleNodeUpdate(nodeId: string, patch: NodePatch)
      modifies this
      ensures FindNode(old(NodesWithUpdates()), nodeId).None? ==> updatedNodes == old(updatedNodes)
      ensures FindNode(old(NodesWithUpdates()), nodeId).Some? ==>
        updatedNodes == PatchAll(old(NodesWithUpdates()), nodeId, patch)
      ensures nodes == old(nodes) && edges == old(edges) && updatedEdges == old(updatedEdges)
    {
      var merged := NodesWithUpdates();
      var updatedNode := FindNode(merged, nodeId);
      if updatedNode.None? {
        return;
      }
      updatedNodes := PatchAll(merged, nodeId, patch);
    }

    /** `handlePublish`: reset empties the overlay; publish returns the
        transaction's arguments and leaves the overlay as it is. */
    method HandlePublish(mode: PublishMode) returns (payload: Option<Payload>)
      modifies this
      ensures mode == Reset ==> payload.None? && updatedNodes == [] && updatedEdges == [] && !HasUpdates()
      ensures mode == Publish ==>
        && payload == Some(PublishPayload(old(updatedNodes), old(updatedEdges)))
        && updatedNodes == old(updatedNodes) && updatedEdges == old(updatedEdges)
      ensures nodes == old(nodes) && edges == old(edges)
    {
      if mode == Reset {
        updatedNodes := [];
        updatedEdges := [];
        return None;
      }
      payload := Some(PublishPayload(updatedNodes, updatedEdges));
    }
  }
}
