# techtree editor core, in Dafny

A model of the graph-editing logic of the techtree editor, a web front end
for research "tech trees": directed graphs of nodes (goals, technologies)
and edges (an edge's source depends on its target), stored on a ledger and
edited locally before being published. Three pieces are modelled:

- **The enhancement walk** (`src/hooks/useEnhance.ts`). A FIFO queue of node
  ids. Each step sends the head node's one-hop neighbourhood to an expansion
  service. An expanded answer is merged into the graph: nodes are upserted by
  id, and edges are appended under fresh decimal ids. A counter bounds the
  number of merged answers per walk. Modules `Extract` (the neighbourhood),
  `Merge` (the merge, as functions and as the source's two loops) and
  `Enhance` (the walk). In `Enhance`, the pure functions `Step`, `StartWalk`
  and `Run` specify the walk; the class `Enhancer` holds the hook's state and
  its methods are proved against those functions.
- **The local overlay** (`src/providers/TechTreeDataProvider.tsx`).
  Records read from the ledger get their array index as id. A list of added
  or edited nodes and edges sits on top of them until it is reset or
  published. Module `DataStore`, class `TechTreeStore`.
- **The mode and selection state** (`src/providers/TechTreeLayoutContextProvider.tsx`).
  Move/edit mode, the selected node and the kind of thing being added, plus
  the two reactive rules. Module `Layout`, class `LayoutContext`.

Shared modules: `TreeTypes` (nodes, edges, first-match lookup), `Decimal`
(the `${n}` ids and their inverse) and `Seqs` (`filter`/`map` with their
order and membership facts).

The service call, the ledger reads and the transaction are oracles. A step
is handed the service's reply as a value. The ledger read is handed to the
store's constructor and to `LoadLedger`. Publishing returns the transaction's
arguments instead of sending them.

Behaviour as the code has it, which the model follows and proves:

- Edge ids in a merge are checked against the growing list, and that list
  already holds the renumbered edges. So an incoming edge can be dropped
  although no current edge had its id (`Merge.RenumberedIdCollision`).
  Every incoming edge is appended exactly when every incoming id is fresh:
  neither a current id nor an id handed out earlier in the same merge
  (`Merge.MergeEdgesAppendsAll`).
- Ids stay unique within one merge whenever the current ids are unique and
  none of them is a decimal at or above the edge count
  (`Merge.MergeEdgesUnique`). The condition is sufficient, not necessary. A
  merge that drops an incoming edge before a later appended one can leave a
  graph that no longer meets it. The next merge can then hand out an id
  already in use (`Merge.DuplicateIdAcrossMerges`).
- The appended edges come in the order of the incoming list
  (`Merge.MergedEdgesInOrder`). The incoming edge at position i is appended
  exactly when nothing merged before it has its id (`Merge.MergedEdgeKept`).
- Merged nodes replace the first node with their id. A later old node with
  the same id is never touched (`Merge.UpsertAllKeepsLaterDuplicates`). New
  ids are pushed once each, in the order of their first incoming
  occurrence, and carry the last incoming node with that id
  (`Merge.UpsertAllAppends`, `Merge.UpsertAllAppendsNewId`).
- The queue grows by the targets of the head's outgoing edges (its parents,
  in the dependency reading), not by the sources of its incoming edges
  (`Enhance.ChildTargetsExample`).
- A node whose only edge points to itself, answered "not expanded", is
  put back on the queue unchanged, and the counter does not move
  (`Enhance.SelfLoopStep`). Such a walk never completes, however many
  replies it is given (`Enhance.SelfLoopNeverCompletes`).
- The merged view is plain concatenation: an overlay record does not hide a
  remote record with the same id. `handleEdgeUpdate` and `handleNodeUpdate`
  copy the whole merged list, remote records included, into the overlay. So
  after an edge is added the remote edges appear twice
  (`DataStore.TechTreeStore.HandleEdgeUpdate`). After a remote node is
  edited, a lookup by id still finds the unedited remote record
  (`DataStore.RemoteEditIsShadowed`).

## Model

| member | source | states |
|---|---|---|
| Seqs.Filter | src/hooks/useEnhance.ts:55-56 | `Array.filter`: the kept elements are exactly those of the input that pass, in input order, each as often as in the input |
| Seqs.Map | src/hooks/useEnhance.ts:58-59 | `Array.map`: same length, and the function applied at every index |
| TreeTypes.IndexOfId | src/hooks/useEnhance.ts:81 | the result is the first index holding the id, and none exactly when no node has it |
| TreeTypes.FindNode | src/hooks/useEnhance.ts:45 | a node is found exactly when some node has the id; the one found is the node at the first index holding it |
| Decimal.NatToDecimal | src/hooks/useEnhance.ts:92 | `${n}` is a non-empty digit string with no leading zero; one digit exactly for n < 10 |
| Decimal.DecimalRoundTrip | src/hooks/useEnhance.ts:92 | reading the numeral back gives n |
| Decimal.NatToDecimalInjective | src/hooks/useEnhance.ts:92 | two numbers get the same id exactly when they are equal |
| Extract.EdgesWithSource | src/hooks/useEnhance.ts:56 | exactly the edges leaving id, in edge order, each as often as in the input |
| Extract.EdgesWithTarget | src/hooks/useEnhance.ts:55 | exactly the edges entering id, in edge order, each as often as in the input |
| Extract.Targets | src/hooks/useEnhance.ts:58 | one entry per edge, position by position: the edge's target |
| Extract.Sources | src/hooks/useEnhance.ts:59 | one entry per edge, position by position: the edge's source |
| Extract.NodesWithIdIn | src/hooks/useEnhance.ts:61-62 | exactly the nodes whose id is listed, in node-list order, each as often as in the node list |
| Extract.ObjectiveTitle | src/hooks/useEnhance.ts:69 | the objective's title when present and non-empty, otherwise "-" |
| Extract.RelatedNodesAndEdges | src/hooks/useEnhance.ts:43-73 | the subject is the first node with the id; without one, everything is empty and the objective is "-"; with one, parents are exactly the nodes some edge leads to from the id, children exactly the nodes some edge leads from to the id, both in node order and each as often as in the node list, edges are the incoming then the outgoing edges, and the objective title is as above |
| Extract.IsolatedNode | src/hooks/useEnhance.ts:55-67 | a node no edge touches has no parents, no children and no edges |
| Merge.Upsert | src/hooks/useEnhance.ts:80-86 | an incoming node replaces the first node with its id, or is appended when there is none; every old index keeps its id; looking the id up afterwards finds the incoming node |
| Merge.UpsertAll | src/hooks/useEnhance.ts:80-87 | the node loop only grows the list, by at most the incoming count, keeps the id at every old index, and changes nothing when no node came in |
| Merge.UpsertFind | src/hooks/useEnhance.ts:80-86 | after an upsert, the lookup of any other id is unchanged |
| Merge.UpsertAllFind | src/hooks/useEnhance.ts:77-87 | after the node loop, an id finds the last incoming node with it, or the old node when none came in |
| Merge.UpsertAllStable | src/hooks/useEnhance.ts:80-87 | every old node whose id did not come in stays at its index, unchanged |
| Merge.UpsertAllKeepsLaterDuplicates | src/hooks/useEnhance.ts:80-87 | `findIndex` only finds the first node with an id, so an old node repeating an earlier node's id is never overwritten |
| Merge.UpsertAllAppends | src/hooks/useEnhance.ts:80-87 | each pushed node has an id no old node has and is the last incoming node with that id; pushed ids are distinct and follow their first incoming occurrence |
| Merge.UpsertAllAppendsNewId | src/hooks/useEnhance.ts:80-87 | every incoming node whose id no old node has is pushed |
| Merge.MergeEdgesUpTo | src/hooks/useEnhance.ts:89-94 | the current edges are a prefix of the result, which grows by at most the number of edges processed |
| Merge.MergedEdgesAreRenumbered | src/hooks/useEnhance.ts:89-94 | every appended edge is some incoming edge i with its source and target and the id `${edgeCount + i}` |
| Merge.MergedEdgeKept | src/hooks/useEnhance.ts:89-94 | incoming edge i is appended, renumbered to `${edgeCount + i}`, exactly when no edge merged before it has its id |
| Merge.MergedEdgesInOrder | src/hooks/useEnhance.ts:89-94 | appended edges come in the order of their incoming positions |
| Merge.MergeEdges | src/hooks/useEnhance.ts:89-94 | the current edges stay in front, at most one edge is appended per incoming edge, and no incoming edge means no change |
| Merge.MergeTree | src/hooks/useEnhance.ts:75-99 | old nodes keep their positions and ids, old edges stay in front, and an empty answer leaves the graph unchanged |
| Merge.MergeEdgesAllFresh | src/hooks/useEnhance.ts:89-94 | when no incoming id is taken, every incoming edge is appended, renumbered, in incoming order |
| Merge.AppendedAllMeansFresh | src/hooks/useEnhance.ts:89-94 | when no incoming edge was dropped, no incoming id was a current id or an id handed out before it |
| Merge.MergeEdgesAppendsAll | src/hooks/useEnhance.ts:89-94 | every incoming edge is appended exactly when every incoming id is fresh |
| Merge.MergeEdgesUnique | src/hooks/useEnhance.ts:89-94 | the merge keeps edge ids unique when the current ids are unique and none is a decimal at or above the edge count |
| Merge.PositionalIdsAreSafe | src/providers/TechTreeDataProvider.tsx:76-84 | edges numbered by position meet the condition of MergeEdgesUnique |
| Merge.RenumberedIdCollision | src/hooks/useEnhance.ts:90-93 | an incoming edge with id "0" is dropped after an earlier incoming edge was renumbered "0", although the graph had no edges |
| Merge.DuplicateIdAcrossMerges | src/hooks/useEnhance.ts:89-94 | three edges merged into an empty graph get ids "0" and "2" (the middle one is dropped); merging one more edge gives it "2" again, so ids are no longer unique |
| Merge.ReplaceByIdExample | src/hooks/useEnhance.ts:81-83 | a node sent back under an existing id replaces the old one whole, dropping its type |
| Merge.MergeEnhancedData | src/hooks/useEnhance.ts:75-99 | the result is the upsert of all incoming nodes and the edge merge of all incoming edges |
| Merge.MergeNodes | src/hooks/useEnhance.ts:80-87 | the node loop computes the upsert of the incoming nodes in order |
| Merge.UpsertNode | src/hooks/useEnhance.ts:81-86 | one pass of the node loop is one upsert |
| Merge.MergeEdgeList | src/hooks/useEnhance.ts:89-94 | the edge loop computes the edge merge |
| Enhance.ChildTargets | src/hooks/useEnhance.ts:148-150 | one id per edge leaving id, its target, in edge order; an id is listed exactly when some edge leads from id to it |
| Enhance.NewNodeIds | src/hooks/useEnhance.ts:136-140 | an id is listed exactly when an answered node has it and the pre-step node list has none with it; the list keeps answer order, and each such id occurs as often as the answer carries it and no known id occurs at all |
| Enhance.FirstNonUltimateIndex | src/hooks/useEnhance.ts:181 | the index of the first node that is not the ultimate objective; none exactly when every node is |
| Enhance.FirstNonUltimate | src/hooks/useEnhance.ts:181 | the node found is the first one that is not the ultimate objective, and none is found exactly when every node is |
| Enhance.Initial | src/hooks/useEnhance.ts:36-41 | after mounting the walk is enhancing, with an empty queue, a zero counter and no error, over the provider's graph and selection |
| Enhance.Answer | src/hooks/useEnhance.ts:118-156 | the step fails exactly when the call fails and merges exactly when the answer is expanded; a failure keeps the queue, sets the error and stops the walk; otherwise the queue's tail stays in front; without a merge, graph, counter and selection are kept |
| Enhance.Expand | src/hooks/useEnhance.ts:127-152 | a merge adds one to the counter, keeps the queue's tail in front, enqueues only ids the answer brings as new nodes or targets of edges leaving the head, never keeps a selection of the head, and keeps the flags |
| Enhance.Step | src/hooks/useEnhance.ts:101-156 | the walk completes exactly when the queue is empty or the counter is spent; the counter moves by one exactly on a merge and never passes the bound; only a merge changes the graph; the error is set exactly by a failure; the walk goes on enhancing exactly when it neither completed nor failed |
| Enhance.StartWalk | src/hooks/useEnhance.ts:173-188 | start re-arms the walk with a zero counter, keeps graph, error and selection, and seeds the queue with the selected node, else with the first node that is not the ultimate objective, else leaves it |
| Enhance.Run | src/hooks/useEnhance.ts:167-171 | over any replies, the counter grows by exactly the number of merges, which is at most what the bound leaves and at most one per reply; a walk that is not enhancing does not move |
| Enhance.StepCompletes | src/hooks/useEnhance.ts:101-108 | an empty queue or a spent counter only clears `isEnhancing`; the notice count is shown only when the counter is not zero |
| Enhance.StepDropsStale | src/hooks/useEnhance.ts:110-115 | a head naming no node is removed, alone, and the result does not depend on the reply |
| Enhance.StepMerges | src/hooks/useEnhance.ts:126-150 | an expanded answer merges into the graph, adds one to the counter, clears a selection of the head, and sets the queue to tail, new node ids, then the head's targets |
| Enhance.StepNotExpanded | src/hooks/useEnhance.ts:141-150 | an answer that expands nothing sets the queue to tail then the head's targets, and changes nothing else |
| Enhance.StepFails | src/hooks/useEnhance.ts:151-154 | a failed call sets `hasError`, clears `isEnhancing`, and leaves queue, counter and graph alone |
| Enhance.StartedRunBound | src/hooks/useEnhance.ts:173-188 | after start, a walk merges at most `iterations` answers |
| Enhance.InitialStepIsSilent | src/hooks/useEnhance.ts:38-40 | the first step after mounting ends the walk and shows no notice |
| Enhance.SelfLoopStep | src/hooks/useEnhance.ts:141-152 | a node with an edge to itself, answered "not expanded", gives back exactly the state before the step |
| Enhance.SelfLoopNeverCompletes | src/hooks/useEnhance.ts:141-171 | a walk over a node with an edge to itself, given any number of "not expanded" replies, ends where it began: still enhancing, the same queue, no merge |
| Enhance.ChildTargetsExample | src/hooks/useEnhance.ts:146-148 | for X with edges X→Y, W→X, X→Z, the ids enqueued are Y then Z |
| Enhance.Enhancer.constructor | src/hooks/useEnhance.ts:33-41 | the bound defaults to MAX_ITERATIONS (1); the state is enhancing, empty queue, zero counter, no error |
| Enhance.Enhancer.EnhanceNextInQueue | src/hooks/useEnhance.ts:100-156 | the new state and outcome are those of Step on the old state; the counter stays within the bound; mode and edit type are untouched |
| Enhance.Enhancer.HandleReply | src/hooks/useEnhance.ts:117-155 | the new state and outcome are those of the answered-call part of Step |
| Enhance.Enhancer.MergeReply | src/hooks/useEnhance.ts:126-139 | the new state is the merged state of an expanded answer |
| Enhance.Enhancer.UpdateAll | src/hooks/useEnhance.ts:128-133 | the graph becomes the merge of the graph and the answer; the walk's own state is untouched |
| Enhance.Enhancer.ClearSelectionOf | src/hooks/useEnhance.ts:128-130 | the selection is dropped exactly when it is the given node |
| Enhance.Enhancer.Start | src/hooks/useEnhance.ts:173-188 | the new state is StartWalk of the old one |
| Enhance.Enhancer.Drive | src/hooks/useEnhance.ts:167-171 | stepping while enhancing, one reply per step, reaches the state and merge count of Run, within the bound |
| Layout.FindActive | src/providers/TechTreeLayoutContextProvider.tsx:80 | nothing is found exactly when there is no id or no node has it; otherwise the node at the first index holding the id |
| Layout.LayoutContext.constructor | src/providers/TechTreeLayoutContextProvider.tsx:45-50 | the view starts in move mode with no selection and no edit type |
| Layout.LayoutContext.SetMode | src/providers/TechTreeLayoutContextProvider.tsx:72-77 | the mode is set; edit mode also drops the selection; the edit type stays |
| Layout.LayoutContext.SetActiveNode | src/providers/TechTreeLayoutContextProvider.tsx:79-82 | the selection becomes the first node with the id, and nothing exactly when no node has it |
| Layout.LayoutContext.SetActiveNodeRaw | src/providers/TechTreeLayoutContextProvider.tsx:92 | the selection becomes the given record; nothing else changes |
| Layout.LayoutContext.SetActiveEditType | src/providers/TechTreeLayoutContextProvider.tsx:46-48 | only the edit type changes |
| Layout.LayoutContext.OnEvents | src/providers/TechTreeLayoutContextProvider.tsx:52-63 | a `TechTreeUpdated` event for this tree resets mode, selection and edit type; otherwise nothing changes |
| Layout.LayoutContext.OnNodesChanged | src/providers/TechTreeLayoutContextProvider.tsx:65-70 | a graph that is one ultimate objective opens in edit mode with it selected; otherwise nothing changes |
| DataStore.RemoteNodesFrom | src/providers/TechTreeDataProvider.tsx:67-74 | one record per ledger node, in order, with its position as decimal id and its title |
| DataStore.RemoteEdgesFrom | src/providers/TechTreeDataProvider.tsx:76-84 | one record per ledger edge, in order, with its position as decimal id, source and target |
| DataStore.RemoteNodes | src/providers/TechTreeDataProvider.tsx:67-74 | no read yet gives no nodes; otherwise node i has id `${i}` and the ledger title |
| DataStore.RemoteEdges | src/providers/TechTreeDataProvider.tsx:76-84 | no read yet gives no edges; otherwise edge i has id `${i}` and the ledger ends |
| DataStore.RemoteNodeIds | src/providers/TechTreeDataProvider.tsx:67-74 | remote node ids are pairwise distinct, and looking up `${i}` finds node i |
| DataStore.RemoteEdgeIds | src/providers/TechTreeDataProvider.tsx:76-84 | remote edge ids are pairwise distinct |
| DataStore.HasDependants | src/providers/TechTreeDataProvider.tsx:114-115 | true exactly when some overlay edge leaves the node |
| DataStore.WithoutNode | src/providers/TechTreeDataProvider.tsx:122 | exactly the nodes without the id, in order, each as often as before |
| DataStore.WithoutTarget | src/providers/TechTreeDataProvider.tsx:123 | exactly the edges not entering the node, in order, each as often as before |
| DataStore.Patch | src/providers/TechTreeDataProvider.tsx:133 | each key present in the patch overwrites the node's; an empty patch changes nothing |
| DataStore.PatchAll | src/providers/TechTreeDataProvider.tsx:132-134 | every node with the id is patched, every other node kept, positions unchanged |
| DataStore.PublishPayload | src/providers/TechTreeDataProvider.tsx:151-158 | one entry per overlay node with its title and the literal hash "node.ipfsHash,", one per overlay edge with its ends, in overlay order |
| DataStore.AddThenRemove | src/providers/TechTreeDataProvider.tsx:172 | removing a just-added node whose id was new gives back the overlay nodes as they were |
| DataStore.PatchAllKeepsIndex | src/providers/TechTreeDataProvider.tsx:132-134 | a patch that keeps the id leaves the first index of that id where it was |
| DataStore.PatchedLookup | src/providers/TechTreeDataProvider.tsx:128-135 | after such a patch, a lookup finds the patched form of the node found before |
| DataStore.RemoteEditIsShadowed | src/providers/TechTreeDataProvider.tsx:128-135 | after editing a remote node, a lookup in the merged view still finds the unedited remote record |
| DataStore.TechTreeStore.constructor | src/providers/TechTreeDataProvider.tsx:63-84 | the remote records are the mapped ledger read and the overlay is empty |
| DataStore.TechTreeStore.LoadLedger | src/providers/TechTreeDataProvider.tsx:67-84 | a new read replaces the remote records and keeps the overlay |
| DataStore.TechTreeStore.NodesWithUpdates | src/providers/TechTreeDataProvider.tsx:92-94 | the remote nodes followed by the overlay nodes |
| DataStore.TechTreeStore.EdgesWithUpdates | src/providers/TechTreeDataProvider.tsx:96-98 | the remote edges followed by the overlay edges |
| DataStore.TechTreeStore.HasUpdates | src/providers/TechTreeDataProvider.tsx:176-178 | true exactly when either overlay list is non-empty |
| DataStore.TechTreeStore.AddNewNode | src/providers/TechTreeDataProvider.tsx:172 | the node is appended to the overlay without an id check; nothing else changes |
| DataStore.TechTreeStore.HandleEdgeUpdate | src/providers/TechTreeDataProvider.tsx:100-110 | an absent or empty end changes nothing; otherwise the overlay edges become remote edges, old overlay edges, then the new edge, which blocks removal of its source |
| DataStore.TechTreeStore.RemoveNode | src/providers/TechTreeDataProvider.tsx:112-126 | removal succeeds exactly when no overlay edge leaves the node; a refusal changes nothing; a removal drops every overlay node with the id and every overlay edge into it; remote records stay |
| DataStore.TechTreeStore.HandleNodeUpdate | src/providers/TechTreeDataProvider.tsx:128-136 | nothing changes when no merged node has the id; otherwise the overlay nodes become the merged list with every node of the id patched |
| DataStore.TechTreeStore.HandlePublish | src/providers/TechTreeDataProvider.tsx:138-166 | reset empties the overlay so there are no updates; publish returns the payload of the overlay and changes nothing |

## Left out

- The `/enhance-subtree` call, the ledger reads, the `updateTechTree` transaction and its error logging are I/O. Each step takes the service's reply as a value. The store takes the ledger read as a value. Publishing returns the payload.
- Enhance.Enhancer.EnhanceNextInQueue: computes the subtree it would send, but the reply does not depend on it. What the service does with the request is outside the model.
- React scheduling (effects re-running the step, memoisation, batched updates) is left out. Each step is one atomic method, and `Drive` is the effect's loop over a finite list of replies.
- `updateAll` and its provider are not part of this model. The engine's graph is replaced by the merged graph, and the `removedNodeIds` argument has no modelled effect.
- `generateId` is not part of this model: `HandleEdgeUpdate` takes the fresh id as a parameter. The UI's `${nodes.length}` node ids are simply the argument of `AddNewNode`.
- `deepEqual` is structural equality of the record lists.
- Toast notifications are left out. `Completed` carries the counter value the success notice would show, or nothing when no notice is shown.
- The `objective` read from the layout context is a parameter of the engine, because the layout context shown never provides one.
- The node record has four fields: id, title, type and one opaque payload standing for content, funding state and proposal request. The type definitions are not part of this model. Modes are limited to move and edit.
- `isPublishing`/`isPending` is left out: the transaction's progress belongs to the ledger client.
- The `iterations` bound and all counters are unbounded naturals. JavaScript numbers never overflow at these sizes.
