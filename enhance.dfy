/** The enhancement walk of src/hooks/useEnhance.ts: a FIFO queue of node ids,
    each sent with its subtree to the expansion service, whose expanded
    answers are merged into the graph, bounded by an iteration counter.
    The pure functions Step, StartWalk and Run specify the walk; the class
    Enhancer holds the hook's state and performs it. The service is an
    oracle: each step is handed the reply the call would produce. */
module Enhance {
  import opened TreeTypes
  import opened Seqs
  import opened Extract
  import opened Merge
  import opened Layout

  /** The default bound on expanded steps per walk (`MAX_ITERATIONS`). */
  const MaxIterations: nat := 1

  /** What the `/enhance-subtree` call does: it throws, or it answers. */
  datatype Reply = Failure | Response(nodes: seq<Node>, edges: seq<Edge>, expanded: bool)

  /** How a step ended. `Completed` carries the count reported in the success
      notice, when one is shown. */
  datatype Outcome = Completed(notice: Option<nat>) | DroppedStale | Merged | NotExpanded | Failed

  /** Everything a step reads or writes: the hook's graph and its four state
      fields, and the layout's selected node. */
  datatype Engine = Engine(tree: TechTreeData, queue: seq<string>, iterationCount: nat,
                           isEnhancing: bool, hasError: bool, activeNode: Option<Node>)

  datatype StepResult = StepResult(engine: Engine, outcome: Outcome)

  datatype RunResult = RunResult(engine: Engine, merges: nat)

  /** The state right after mounting: enhancing, with an empty queue, a zero
      counter and no error, over the provider's graph and selection. */
  function Initial(tree: TechTreeData, activeNode: Option<Node>): (r: Engine)
    ensures r.isEnhancing && r.queue == [] && r.iterationCount == 0 && !r.hasError
    ensures r.tree == tree && r.activeNode == activeNode
  {
    Engine(tree, [], 0, true, false, activeNode)
  }

  /** Targets of the edges leaving id, in edge order and with repetitions:
      the ids enqueued after every answered call. */
  function ChildTargets(edges: seq<Edge>, id: string): (r: seq<string>)
    ensures |r| == |EdgesWithSource(edges, id)|
    ensures forall i :: 0 <= i < |r| ==> r[i] == EdgesWithSource(edges, id)[i].target
    ensures forall t :: t in r <==> Links(edges, id, t)
  {
    Targets(EdgesWithSource(edges, id))
  }

  /** Ids of the answered nodes that the pre-step node list does not have, in
      answer order and with repetitions: the answer's ids with the known ones
      deleted, each unknown id as often as the answer carries it. */
  function NewNodeIds(incoming: seq<Node>, known: seq<Node>): (r: seq<string>)
    ensures forall id :: id in r <==> (exists n :: n in incoming && n.id == id) && FindNode(known, id).None?
    ensures IsSubsequence(r, NodeIds(incoming))
    ensures forall id :: id in NodeIds(incoming) ==>
      multiset(r)[id] == if FindNode(known, id).None? then multiset(NodeIds(incoming))[id] else 0
  {
    var knownIds := NodeIds(known);
    var unseen := Filter(incoming, (n: Node) => n.id !in knownIds);
    KnownIds(known);
    IdsOf(unseen);
    IdsOfFilter(incoming, knownIds);
    NodeIds(unseen)
  }

  /** Taking the ids after filtering is filtering the ids. */
  lemma {:induction false} IdsOfFilter(nodes: seq<Node>, ks: seq<string>)
    ensures NodeIds(Filter(nodes, (n: Node) => n.id !in ks)) == Filter(NodeIds(nodes), (id: string) => id !in ks)
  {
    if nodes != [] {
      IdsOfFilter(nodes[1..], ks);
      assert NodeIds(nodes)[1..] == NodeIds(nodes[1..]);
    }
  }

  /** An id is among a list's ids exactly when the list has a node with it. */
  lemma KnownIds(known: seq<Node>)
    ensures forall id :: FindNode(known, id).None? <==> id !in NodeIds(known)
  {
    var knownIds := NodeIds(known);
    forall id ensures FindNode(known, id).None? <==> id !in knownIds {
      if id in knownIds {
        var j :| 0 <= j < |knownIds| && knownIds[j] == id;
        assert known[j].id == id;
      }
    }
  }

  /** An id is among the ids of a list exactly when some node of it has that id. */
  lemma IdsOf(nodes: seq<Node>)
    ensures forall id :: id in NodeIds(nodes) <==> exists n :: n in nodes && n.id == id
  {
    var r := NodeIds(nodes);
    forall id ensures id in r <==> exists n :: n in nodes && n.id == id {
      if id in r {
        var j :| 0 <= j < |r| && r[j] == id;
        assert nodes[j] in nodes;
      }
      if exists n :: n in nodes && n.id == id {
        var n :| n in nodes && n.id == id;
        var j :| 0 <= j < |nodes| && nodes[j] == n;
        assert r[j] == id;
      }
    }
  }

  /** The index of the first node that is not the ultimate objective. */
  function FirstNonUltimateIndex(nodes: seq<Node>): (r: Option<nat>)
    ensures r.Some? ==> r.value < |nodes| && nodes[r.value].kind != Some(UltimateObjective)
    ensures r.Some? ==> forall j :: 0 <= j < r.value ==> nodes[j].kind == Some(UltimateObjective)
    ensures r.None? <==> forall j :: 0 <= j < |nodes| ==> nodes[j].kind == Some(UltimateObjective)
  {
    if nodes == [] then None
    else if nodes[0].kind != Some(UltimateObjective) then Some(0)
    else match FirstNonUltimateIndex(nodes[1..])
      case None => None
      case Some(i) => Some(i + 1)
  }

  /** `nodes.find((n) => n.type !== "ultimate-objective")`; a node without a
      type qualifies. */
  function FirstNonUltimate(nodes: seq<Node>): (r: Option<Node>)
    ensures r.Some? ==> r.value in nodes && r.value.kind != Some(UltimateObjective)
    ensures r.None? <==> forall n :: n in nodes ==> n.kind == Some(UltimateObjective)
    ensures r.Some? ==> FirstNonUltimateIndex(nodes).Some? && r.value == nodes[FirstNonUltimateIndex(nodes).value]
  {
    match FirstNonUltimateIndex(nodes)
    case None => None
    case Some(i) => Some(nodes[i])
  }

  /** The answered-call part of `enhanceNextInQueue`: the graph, the new
      node ids and the child targets are all read from the graph as it was
      before the call. */
  function Answer(e: Engine, reply: Reply): (r: StepResult)
    requires |e.queue| > 0
    ensures r.outcome == Failed <==> reply.Failure?
    ensures r.outcome == Merged <==> reply.Response? && reply.expanded
    ensures r.outcome == Failed ==> r.engine.queue == e.queue && !r.engine.isEnhancing && r.engine.hasError
    ensures r.outcome != Failed ==>
      |e.queue| - 1 <= |r.engine.queue| && r.engine.queue[..|e.queue| - 1] == e.queue[1..]
    ensures r.outcome != Merged ==>
      r.engine.tree == e.tree && r.engine.iterationCount == e.iterationCount && r.engine.activeNode == e.activeNode
  {
    match reply
    case Failure =>
      StepResult(e.(hasError := true, isEnhancing := false), Failed)
    case Response(nodes, edges, expanded) =>
      if expanded then StepResult(Expand(e, nodes, edges), Merged)
      else StepResult(e.(queue := e.queue[1..] + ChildTargets(e.tree.edges, e.queue[0])), NotExpanded)
  }

  /** The state after merging an expanded answer for the queue's head: the
      counter goes up by one, the rest of the queue stays in front, and every
      id added is a new node of the answer or a target of the head. */
  function Expand(e: Engine, nodes: seq<Node>, edges: seq<Edge>): (r: Engine)
    requires |e.queue| > 0
    ensures r.iterationCount == e.iterationCount + 1
    ensures |e.queue| - 1 <= |r.queue| && r.queue[..|e.queue| - 1] == e.queue[1..]
    ensures forall t :: t in r.queue[|e.queue| - 1..] ==>
      ((exists n :: n in nodes && n.id == t) && FindNode(e.tree.nodes, t).None?) || Links(e.tree.edges, e.queue[0], t)
    ensures r.activeNode.Some? ==> r.activeNode == e.activeNode && r.activeNode.value.id != e.queue[0]
    ensures r.isEnhancing == e.isEnhancing && r.hasError == e.hasError
  {
    var nodeId := e.queue[0];
    var newIds := NewNodeIds(nodes, e.tree.nodes);
    var targets := ChildTargets(e.tree.edges, nodeId);
    ConcatParts(e.queue[1..], newIds, targets);
    e.(tree := MergeTree(e.tree, TechTreeData(nodes, edges)),
       iterationCount := e.iterationCount + 1,
       queue := e.queue[1..] + newIds + targets,
       activeNode := if e.activeNode.Some? && e.activeNode.value.id == nodeId then None else e.activeNode)
  }

  /** Expand field by field. */
  lemma ExpandFields(e: Engine, nodes: seq<Node>, edges: seq<Edge>)
    requires |e.queue| > 0
    ensures var r := Expand(e, nodes, edges);
      && r.tree == MergeTree(e.tree, TechTreeData(nodes, edges))
      && r.queue == e.queue[1..] + NewNodeIds(nodes, e.tree.nodes) + ChildTargets(e.tree.edges, e.queue[0])
      && r.activeNode == (if e.activeNode.Some? && e.activeNode.value.id == e.queue[0] then None else e.activeNode)
  {
  }

  /** One run of `enhanceNextInQueue`: the walk ends, drops a head that names
      no node without calling the service, or handles the service's reply. */
  function Step(e: Engine, iterations: nat, objective: Option<Node>, reply: Reply): (r: StepResult)
    ensures r.outcome.Completed? <==> |e.queue| == 0 || e.iterationCount >= iterations
    ensures r.engine.iterationCount == e.iterationCount + (if r.outcome == Merged then 1 else 0)
    ensures e.iterationCount <= iterations ==> r.engine.iterationCount <= iterations
    ensures r.outcome != Merged ==> r.engine.tree == e.tree
    ensures r.engine.hasError <==> e.hasError || r.outcome == Failed
    ensures r.engine.isEnhancing <==> e.isEnhancing && !r.outcome.Completed? && r.outcome != Failed
  {
    if |e.queue| == 0 || e.iterationCount >= iterations then
      StepResult(e.(isEnhancing := false),
                 Completed(if e.iterationCount != 0 then Some(e.iterationCount) else None))
    else if RelatedNodesAndEdges(e.tree.nodes, e.tree.edges, e.queue[0], objective).subject.None? then
      StepResult(e.(queue := e.queue[1..]), DroppedStale)
    else
      Answer(e, reply)
  }

  /** `start`: always enhancing again with the counter at 0; the queue is
      re-seeded with the selected node, else with the first node that is not
      the ultimate objective, else left as it was. */
  function StartWalk(e: Engine): (r: Engine)
    ensures r.isEnhancing && r.iterationCount == 0
    ensures r.tree == e.tree && r.hasError == e.hasError && r.activeNode == e.activeNode
    ensures e.activeNode.Some? ==> r.queue == [e.activeNode.value.id]
    ensures e.activeNode.None? ==>
      if forall n :: n in e.tree.nodes ==> n.kind == Some(UltimateObjective) then r.queue == e.queue
      else (|r.queue| == 1 &&
            exists i :: 0 <= i < |e.tree.nodes| && r.queue[0] == e.tree.nodes[i].id &&
              e.tree.nodes[i].kind != Some(UltimateObjective) &&
              forall j :: 0 <= j < i ==> e.tree.nodes[j].kind == Some(UltimateObjective))
  {
    var seeded := e.(isEnhancing := true, iterationCount := 0);
    if e.activeNode.Some? then seeded.(queue := [e.activeNode.value.id])
    else match FirstNonUltimate(e.tree.nodes)
      case None => seeded
      case Some(n) => seeded.(queue := [n.id])
  }

  /** The walk as the effect drives it: step while enhancing, one reply per
      step, for as many replies as are given. `merges` counts merged answers. */
  function Run(e: Engine, iterations: nat, objective: Option<Node>, replies: seq<Reply>): (r: RunResult)
    ensures e.iterationCount <= iterations ==>
      r.engine.iterationCount == e.iterationCount + r.merges && r.merges <= iterations - e.iterationCount
    ensures r.merges <= |replies|
    ensures !e.isEnhancing ==> r == RunResult(e, 0)
    decreases |replies|
  {
    if !e.isEnhancing || replies == [] then RunResult(e, 0)
    else
      var st := Step(e, iterations, objective, replies[0]);
      var rest := Run(st.engine, iterations, objective, replies[1..]);
      RunResult(rest.engine, rest.merges + if st.outcome == Merged then 1 else 0)
  }

  /** An empty queue or a spent counter ends the walk and changes nothing else;
      the notice is shown only when some step was merged. */
  lemma StepCompletes(e: Engine, iterations: nat, objective: Option<Node>, reply: Reply)
    requires |e.queue| == 0 || e.iterationCount >= iterations
    ensures var r := Step(e, iterations, objective, reply);
      && r.engine == e.(isEnhancing := false)
      && r.outcome == Completed(if e.iterationCount == 0 then None else Some(e.iterationCount))
  {
  }

  /** A head id that names no node is dropped, and only the head: the service
      is not called (the result is the same whatever it would reply). */
  lemma StepDropsStale(e: Engine, iterations: nat, objective: Option<Node>, reply: Reply)
    requires |e.queue| > 0 && e.iterationCount < iterations
    requires forall n :: n in e.tree.nodes ==> n.id != e.queue[0]
    ensures Step(e, iterations, objective, reply) == StepResult(e.(queue := e.queue[1..]), DroppedStale)
    ensures forall other :: Step(e, iterations, objective, other) == Step(e, iterations, objective, reply)
  {
  }

  /** An expanded answer: the graph becomes the merge of the old graph with
      the answer, the counter goes up by one, a selection of the processed node
      is dropped, and the queue loses its head and gains the new node ids and
      then the processed node's targets. */
  lemma StepMerges(e: Engine, iterations: nat, objective: Option<Node>,
                   nodes: seq<Node>, edges: seq<Edge>)
    requires |e.queue| > 0 && e.iterationCount < iterations
    requires exists n :: n in e.tree.nodes && n.id == e.queue[0]
    ensures Step(e, iterations, objective, Response(nodes, edges, true)) ==
      StepResult(e.(tree := MergeTree(e.tree, TechTreeData(nodes, edges)),
                    iterationCount := e.iterationCount + 1,
                    queue := e.queue[1..] + NewNodeIds(nodes, e.tree.nodes) + ChildTargets(e.tree.edges, e.queue[0]),
                    activeNode := if e.activeNode.Some? && e.activeNode.value.id == e.queue[0] then None else e.activeNode),
                 Merged)
  {
  }

  /** An answer that expands nothing only moves the queue along. */
  lemma StepNotExpanded(e: Engine, iterations: nat, objective: Option<Node>,
                        nodes: seq<Node>, edges: seq<Edge>)
    requires |e.queue| > 0 && e.iterationCount < iterations
    requires exists n :: n in e.tree.nodes && n.id == e.queue[0]
    ensures Step(e, iterations, objective, Response(nodes, edges, false)) ==
      StepResult(e.(queue := e.queue[1..] + ChildTargets(e.tree.edges, e.queue[0])), NotExpanded)
  {
  }

  /** A failed call flags the error and stops; the queue, the counter and the
      graph stay as they were. */
  lemma StepFails(e: Engine, iterations: nat, objective: Option<Node>)
    requires |e.queue| > 0 && e.iterationCount < iterations
    requires exists n :: n in e.tree.nodes && n.id == e.queue[0]
    ensures Step(e, iterations, objective, Failure) ==
      StepResult(e.(hasError := true, isEnhancing := false), Failed)
  {
  }

  /** After `start`, a walk merges at most `iterations` answers. */
  lemma StartedRunBound(e: Engine, iterations: nat, objective: Option<Node>, replies: seq<Reply>)
    ensures Run(StartWalk(e), iterations, objective, replies).merges <= iterations
  {
  }

  /** The first step after mounting ends the walk without a notice. */
  lemma InitialStepIsSilent(tree: TechTreeData, activeNode: Option<Node>, iterations: nat,
                            objective: Option<Node>, reply: Reply)
    ensures Step(Initial(tree, activeNode), iterations, objective, reply) ==
      StepResult(Initial(tree, activeNode).(isEnhancing := false), Completed(None))
  {
  }

  /** A node whose edge points to itself, answered with "not expanded", comes
      back to the queue unchanged, and the counter does not move. */
  lemma SelfLoopStep(x: Node, iterations: nat, objective: Option<Node>, nodes: seq<Node>, edges: seq<Edge>)
    requires iterations > 0
    ensures var e := Engine(TechTreeData([x], [Edge("0", x.id, x.id)]), [x.id], 0, true, false, None);
      Step(e, iterations, objective, Response(nodes, edges, false)) == StepResult(e, NotExpanded)
  {
    var e := Engine(TechTreeData([x], [Edge("0", x.id, x.id)]), [x.id], 0, true, false, None);
    var t := ChildTargets(e.tree.edges, x.id);
    assert EdgesWithSource(e.tree.edges, x.id) == e.tree.edges;
    assert t == [x.id];
  }

  /** So a walk over that node, however many "not expanded" replies it is
      given, ends where it began: still enhancing, the same queue, no merge.
      It calls the service for as long as it is kept running. */
  lemma {:induction false} SelfLoopNeverCompletes(x: Node, iterations: nat, objective: Option<Node>, replies: seq<Reply>)
    requires iterations > 0
    requires forall i :: 0 <= i < |replies| ==> replies[i].Response? && !replies[i].expanded
    ensures var e := Engine(TechTreeData([x], [Edge("0", x.id, x.id)]), [x.id], 0, true, false, None);
      Run(e, iterations, objective, replies) == RunResult(e, 0)
    decreases |replies|
  {
    if replies != [] {
      SelfLoopStep(x, iterations, objective, replies[0].nodes, replies[0].edges);
      SelfLoopNeverCompletes(x, iterations, objective, replies[1..]);
    }
  }

  /** The edges leaving X, in edge order. */
  lemma EdgesLeavingX()
    ensures EdgesWithSource([Edge("0", "X", "Y"), Edge("1", "W", "X"), Edge("2", "X", "Z")], "X") ==
      [Edge("0", "X", "Y"), Edge("2", "X", "Z")]
  {
    var edges := [Edge("0", "X", "Y"), Edge("1", "W", "X"), Edge("2", "X", "Z")];
    var p := (d: Edge) => d.source == "X";
    assert Filter(edges[3..], p) == [];
    assert Filter(edges[2..], p) == [edges[2]];
    assert Filter(edges[1..], p) == [edges[2]];
  }

  /** The ids a step enqueues for X are the targets of the edges leaving X,
      in edge order; an edge that enters X contributes nothing. */
  lemma ChildTargetsExample()
    ensures ChildTargets([Edge("0", "X", "Y"), Edge("1", "W", "X"), Edge("2", "X", "Z")], "X") == ["Y", "Z"]
  {
    EdgesLeavingX();
    var t := ChildTargets([Edge("0", "X", "Y"), Edge("1", "W", "X"), Edge("2", "X", "Z")], "X");
    assert t[0] == "Y" && t[1] == "Z";
  }

  /** The hook's state. `nodes` and `edges` are the graph of the graph
      provider, which `updateAll` replaces; the selection lives in the layout. */
  class Enhancer {
    const iterations: nat
    const objective: Option<Node>
    const layout: LayoutContext
    var nodes: seq<Node>
    var edges: seq<Edge>
    var queue: seq<string>
    var iterationCount: nat
    var isEnhancing: bool
    var hasError: bool

    function State(): Engine
      reads this, layout
    {
      Engine(TechTreeData(nodes, edges), queue, iterationCount, isEnhancing, hasError, layout.activeNode)
    }

    /** The counter never exceeds the bound. */
    ghost predicate Valid()
      reads this
    {
      iterationCount <= iterations
    }

    /** `useEnhance({ iterations })`, with MaxIterations when none is given. */
    constructor (layout: LayoutContext, tree: TechTreeData, iterations: Option<nat>, objective: Option<Node>)
      ensures this.layout == layout && this.objective == objective
      ensures this.iterations == if iterations.Some? then iterations.value else MaxIterations
      ensures State() == Initial(tree, layout.activeNode)
      ensures Valid()
    {
      this.layout := layout;
      this.objective := objective;
      this.iterations := if iterations.Some? then iterations.value else MaxIterations;
      nodes := tree.nodes;
      edges := tree.edges;
      queue := [];
      iterationCount := 0;
      isEnhancing := true;
      hasError := false;
    }

    /** `enhanceNextInQueue`, with `reply` standing for the service's answer. */
    method EnhanceNextInQueue(reply: Reply) returns (outcome: Outcome)
      requires Valid()
      modifies this, layout
      ensures Valid()
      ensures StepResult(State(), outcome) == Step(old(State()), iterations, objective, reply)
      ensures layout.mode == old(layout.mode) && layout.activeEditType == old(layout.activeEditType)
    {
      if |queue| == 0 || iterationCount >= iterations {
        isEnhancing := false;
        outcome := Completed(if iterationCount != 0 then Some(iterationCount) else None);
        return;
      }
      var subtree := RelatedNodesAndEdges(nodes, edges, queue[0], objective);
      if subtree.subject.None? {
        queue := queue[1..];
        outcome := DroppedStale;
        return;
      }
      outcome := HandleReply(reply);
    }

    /** The service part of `enhanceNextInQueue`. */
    method HandleReply(reply: Reply) returns (outcome: Outcome)
      requires Valid() && |queue| > 0 && iterationCount < iterations
      modifies this, layout
      ensures Valid()
      ensures StepResult(State(), outcome) == Answer(old(State()), reply)
      ensures layout.mode == old(layout.mode) && layout.activeEditType == old(layout.activeEditType)
    {
      match reply
      case Failure =>
        hasError := true;
        isEnhancing := false;
        outcome := Failed;
      case Response(replyNodes, replyEdges, expanded) =>
        if expanded {
          MergeReply(replyNodes, replyEdges);
          outcome := Merged;
        } else {
          queue := queue[1..] + ChildTargets(edges, queue[0]);
          outcome := NotExpanded;
        }
    }

    /** Merging an expanded answer. */
    method MergeReply(replyNodes: seq<Node>, replyEdges: seq<Edge>)
      requires Valid() && |queue| > 0 && iterationCount < iterations
      modifies this, layout
      ensures Valid()
      ensures State() == Expand(old(State()), replyNodes, replyEdges)
      ensures layout.mode == old(layout.mode) && layout.activeEditType == old(layout.activeEditType)
    {
      ghost var next := Expand(State(), replyNodes, replyEdges);
      ExpandFields(State(), replyNodes, replyEdges);
      var nodeId := queue[0];
      var nextQueue := queue[1..] + NewNodeIds(replyNodes, nodes) + ChildTargets(edges, nodeId);
      UpdateAll(TechTreeData(replyNodes, replyEdges));
      ClearSelectionOf(nodeId);
      iterationCount := iterationCount + 1;
      queue := nextQueue;
      assert TechTreeData(nodes, edges) == next.tree && queue == next.queue;
      assert iterationCount == next.iterationCount && layout.activeNode == next.activeNode;
    }

    /** `updateAll(mergeEnhancedData(enhanced), ...)`: the graph becomes the
        merge of the graph with the answer. */
    method UpdateAll(enhanced: TechTreeData)
      modifies this
      ensures TechTreeData(nodes, edges) == MergeTree(old(TechTreeData(nodes, edges)), enhanced)
      ensures queue == old(queue) && iterationCount == old(iterationCount)
      ensures isEnhancing == old(isEnhancing) && hasError == old(hasError)
    {
      var updatedTree := MergeEnhancedData(TechTreeData(nodes, edges), enhanced);
      nodes, edges := updatedTree.nodes, updatedTree.edges;
    }

    /** Drops the layout's selection when it is the given node. */
    method ClearSelectionOf(nodeId: string)
      modifies layout
      ensures layout.activeNode == if old(layout.activeNode).Some? && old(layout.activeNode).value.id == nodeId
                                   then None else old(layout.activeNode)
      ensures layout.mode == old(layout.mode) && layout.activeEditType == old(layout.activeEditType)
    {
      if layout.activeNode.Some? && layout.activeNode.value.id == nodeId {
        layout.SetActiveNode(nodes, None);
      }
    }

    /** `start`. */
    method Start()
      requires Valid()
      modifies this
      ensures Valid()
      ensures State() == StartWalk(old(State()))
    {
      isEnhancing := true;
      iterationCount := 0;
      if layout.activeNode.Some? {
        queue := [layout.activeNode.value.id];
      } else {
        var node := FirstNonUltimate(nodes);
        if node.None? {
          return;
        }
        queue := [node.value.id];
      }
    }

    /** The effect loop: step while enhancing, consuming one reply per step. */
    method Drive(replies: seq<Reply>) returns (merges: nat)
      requires Valid()
      modifies this, layout
      ensures Valid()
      ensures RunResult(State(), merges) == Run(old(State()), iterations, objective, replies)
      ensures old(iterationCount) + merges <= iterations
      ensures layout.mode == old(layout.mode) && layout.activeEditType == old(layout.activeEditType)
    {
      ghost var whole := Run(State(), iterations, objective, replies);
      merges := 0;
      var i := 0;
      while i < |replies| && isEnhancing
        invariant 0 <= i <= |replies|
        invariant Valid()
        invariant Run(State(), iterations, objective, replies[i..]).engine == whole.engine
        invariant Run(State(), iterations, objective, replies[i..]).merges + merges == whole.merges
        invariant layout.mode == old(layout.mode) && layout.activeEditType == old(layout.activeEditType)
      {
        assert replies[i..][1..] == replies[i + 1..];
        var outcome := EnhanceNextInQueue(replies[i]);
        if outcome == Merged {
          merges := merges + 1;
        }
        i := i + 1;
      }
    }
  }
}
