/** The records every part of the editor shares: tech-tree nodes and edges
    with string ids, and the first-match lookups (`Array.find`,
    `Array.findIndex`) the providers and the enhancement hook use on them. */
module TreeTypes {

  datatype Option<T> = None | Some(value: T)

  /** The node types the editor distinguishes. */
  datatype NodeType = Default | EndGoal | UltimateObjective

  /** A node. `title` and `kind` are optional fields of the record; `details`
      stands for the opaque payload (rich-text content, funding state, request
      for proposals), which the core only copies. */
  datatype Node = Node(id: string, title: Option<string>, kind: Option<NodeType>, details: Option<string>)

  /** An edge: `source` depends on `target`. */
  datatype Edge = Edge(id: string, source: string, target: string)

  /** A whole graph, as the enhancement service and the graph provider exchange it. */
  datatype TechTreeData = TechTreeData(nodes: seq<Node>, edges: seq<Edge>)

  /** `nodes.findIndex((n) => n.id === id)`, with -1 as None. */
  function IndexOfId(nodes: seq<Node>, id: string): (r: Option<nat>)
    ensures r.Some? ==> r.value < |nodes| && nodes[r.value].id == id
    ensures r.Some? ==> forall j :: 0 <= j < r.value ==> nodes[j].id != id
    ensures r.None? <==> forall j :: 0 <= j < |nodes| ==> nodes[j].id != id
  {
    if nodes == [] then None
    else if nodes[0].id == id then Some(0)
    else match IndexOfId(nodes[1..], id)
      case None => None
      case Some(i) => Some(i + 1)
  }

  /** `nodes.find((n) => n.id === id)`: the first node with that id. */
  function FindNode(nodes: seq<Node>, id: string): (r: Option<Node>)
    ensures r.Some? <==> exists j :: 0 <= j < |nodes| && nodes[j].id == id
    ensures r.Some? ==> r.value in nodes && r.value.id == id
    ensures r.Some? ==> IndexOfId(nodes, id).Some? && r.value == nodes[IndexOfId(nodes, id).value]
  {
    match IndexOfId(nodes, id)
    case None => None
    case Some(i) => Some(nodes[i])
  }

  /** The ids of a node list, in order. */
  function NodeIds(nodes: seq<Node>): (r: seq<string>)
    ensures |r| == |nodes|
    ensures forall i :: 0 <= i < |nodes| ==> r[i] == nodes[i].id
  {
    if nodes == [] then [] else [nodes[0].id] + NodeIds(nodes[1..])
  }

  /** `edges.some((e) => e.id === id)`. */
  predicate HasEdgeId(edges: seq<Edge>, id: string) {
    exists e :: e in edges && e.id == id
  }

  /** No two edges share an id. */
  predicate UniqueEdgeIds(edges: seq<Edge>) {
    forall i, j :: 0 <= i < j < |edges| ==> edges[i].id != edges[j].id
  }
}
