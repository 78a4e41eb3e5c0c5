/** The one-hop neighbourhood of a node that the enhancement hook sends to
    the expansion service (`getRelatedNodesAndEdges` in src/hooks/useEnhance.ts).
    An edge's source depends on its target: the targets of a node's outgoing
    edges are its parents, the sources of its incoming edges its children. */
module Extract {
  import opened TreeTypes
  import opened Seqs

  /** The request body of the expansion call. */
  datatype Subtree = Subtree(parents: seq<Node>, edges: seq<Edge>, subject: Option<Node>,
                             children: seq<Node>, objective: string)

  /** The edges leaving id (`edges.filter((e) => e.source === id)`). */
  function EdgesWithSource(edges: seq<Edge>, id: string): (r: seq<Edge>)
    ensures forall e :: e in r <==> e in edges && e.source == id
    ensures IsSubsequence(r, edges)
    ensures forall e :: e in edges ==> multiset(r)[e] == if e.source == id then multiset(edges)[e] else 0
  {
    Filter(edges, (e: Edge) => e.source == id)
  }

  /** The edges entering id (`edges.filter((e) => e.target === id)`). */
  function EdgesWithTarget(edges: seq<Edge>, id: string): (r: seq<Edge>)
    ensures forall e :: e in r <==> e in edges && e.target == id
    ensures IsSubsequence(r, edges)
    ensures forall e :: e in edges ==> multiset(r)[e] == if e.target == id then multiset(edges)[e] else 0
  {
    Filter(edges, (e: Edge) => e.target == id)
  }

  /** `edges.map((e) => e.target)`. */
  function Targets(edges: seq<Edge>): (r: seq<string>)
    ensures |r| == |edges| && forall i :: 0 <= i < |edges| ==> r[i] == edges[i].target
    ensures forall t :: t in r <==> exists e :: e in edges && e.target == t
  {
    var r := Map(edges, (e: Edge) => e.target);
    assert forall e :: e in edges ==> e.target in r by {
      forall e | e in edges ensures e.target in r {
        var i :| 0 <= i < |edges| && edges[i] == e;
        assert r[i] == e.target;
      }
    }
    r
  }

  /** `edges.map((e) => e.source)`. */
  function Sources(edges: seq<Edge>): (r: seq<string>)
    ensures |r| == |edges| && forall i :: 0 <= i < |edges| ==> r[i] == edges[i].source
    ensures forall t :: t in r <==> exists e :: e in edges && e.source == t
  {
    var r := Map(edges, (e: Edge) => e.source);
    assert forall e :: e in edges ==> e.source in r by {
      forall e | e in edges ensures e.source in r {
        var i :| 0 <= i < |edges| && edges[i] == e;
        assert r[i] == e.source;
      }
    }
    r
  }

  /** `nodes.filter((n) => ids.includes(n.id))`. */
  function NodesWithIdIn(nodes: seq<Node>, ids: seq<string>): (r: seq<Node>)
    ensures forall n :: n in r <==> n in nodes && n.id in ids
    ensures IsSubsequence(r, nodes)
    ensures forall n :: n in nodes ==> multiset(r)[n] == if n.id in ids then multiset(nodes)[n] else 0
  {
    Filter(nodes, (n: Node) => n.id in ids)
  }

  /** `objective?.title || "-"`: an absent objective, an absent title and an
      empty title all read as "-". */
  function ObjectiveTitle(objective: Option<Node>): (r: string)
    ensures r != ""
    ensures objective.Some? && objective.value.title.Some? && objective.value.title.value != ""
            ==> r == objective.value.title.value
    ensures (objective.None? || objective.value.title.None? || objective.value.title.value == "")
            ==> r == "-"
  {
    if objective.Some? && objective.value.title.Some? && objective.value.title.value != ""
    then objective.value.title.value
    else "-"
  }

  /** Some edge runs from source to target. */
  predicate Links(edges: seq<Edge>, source: string, target: string) {
    exists e :: e in edges && e.source == source && e.target == target
  }

  /** The subtree of id in the graph (nodes, edges). Parents and children
      keep the node list's order and its repetitions: a node is listed as
      often as it occurs in the node list, or not at all. */
  function RelatedNodesAndEdges(nodes: seq<Node>, edges: seq<Edge>, id: string,
                                objective: Option<Node>): (r: Subtree)
    ensures r.subject == FindNode(nodes, id)
    ensures r.subject.None? ==> r == Subtree([], [], None, [], "-")
    ensures r.subject.Some? ==>
      && (forall n :: n in r.parents <==> n in nodes && Links(edges, id, n.id))
      && (forall n :: n in r.children <==> n in nodes && Links(edges, n.id, id))
      && IsSubsequence(r.parents, nodes)
      && IsSubsequence(r.children, nodes)
      && (forall n :: n in nodes ==>
            multiset(r.parents)[n] == if Links(edges, id, n.id) then multiset(nodes)[n] else 0)
      && (forall n :: n in nodes ==>
            multiset(r.children)[n] == if Links(edges, n.id, id) then multiset(nodes)[n] else 0)
      && r.edges == EdgesWithTarget(edges, id) + EdgesWithSource(edges, id)
      && r.objective == ObjectiveTitle(objective)
  {
    var subject := FindNode(nodes, id);
    if subject.None? then
      Subtree([], [], None, [], "-")
    else
      var childEdges := EdgesWithTarget(edges, id);
      var parentEdges := EdgesWithSource(edges, id);
      var parentIds := Targets(parentEdges);
      var childIds := Sources(childEdges);
      Subtree(NodesWithIdIn(nodes, parentIds), childEdges + parentEdges, subject,
              NodesWithIdIn(nodes, childIds), ObjectiveTitle(objective))
  }

  /** A node with no edges at all has no parents, no children and no edges. */
  lemma IsolatedNode(nodes: seq<Node>, edges: seq<Edge>, id: string, objective: Option<Node>)
    requires forall e :: e in edges ==> e.source != id && e.target != id
    ensures var r := RelatedNodesAndEdges(nodes, edges, id, objective);
      r.parents == [] && r.children == [] && r.edges == []
  {
    var r := RelatedNodesAndEdges(nodes, edges, id, objective);
    if r.subject.Some? {
      NoMembers(r.parents);
      NoMembers(r.children);
      NoMembers(EdgesWithTarget(edges, id));
      NoMembers(EdgesWithSource(edges, id));
    }
  }
}
