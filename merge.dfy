/** Merging an expansion response into the graph (`mergeEnhancedData` in
    src/hooks/useEnhance.ts): nodes are upserted by id, edges are appended
    under fresh decimal ids unless their id is already taken. The functions
    are the specification; MergeEnhancedData runs the source's two loops. */
module Merge {
  import opened TreeTypes
  import opened Decimal
  import Seqs

  /** One incoming node: it replaces the first node with its id, or is
      appended when there is none. */
  function Upsert(nodes: seq<Node>, n: Node): (r: seq<Node>)
    ensures |nodes| <= |r| <= |nodes| + 1
    ensures |r| == |nodes| + 1 <==> IndexOfId(nodes, n.id).None?
    ensures |r| == |nodes| + 1 ==> r[|nodes|] == n
    ensures forall j :: 0 <= j < |nodes| ==> r[j].id == nodes[j].id
    ensures forall j :: 0 <= j < |nodes| && r[j] != nodes[j] ==>
              r[j] == n && IndexOfId(nodes, n.id) == Some(j)
    ensures FindNode(r, n.id) == Some(n)
  {
    match IndexOfId(nodes, n.id)
    case Some(i) => nodes[i := n]
    case None => nodes + [n]
  }

  /** Looking an id up after an upsert finds the upserted node for its own id
      and what was there before for every other id. */
  lemma UpsertFind(nodes: seq<Node>, n: Node, id: string)
    ensures FindNode(Upsert(nodes, n), id) == if id == n.id then Some(n) else FindNode(nodes, id)
  {
    if id != n.id {
      var r := Upsert(nodes, n);
      match IndexOfId(nodes, id)
      case None =>
        assert forall j :: 0 <= j < |r| ==> r[j].id != id;
      case Some(k) =>
        assert IndexOfId(r, id) == Some(k) by {
          assert r[k].id == id;
          assert forall j :: 0 <= j < k ==> r[j].id != id;
          IndexOfIdIsFirst(r, id, k);
        }
        assert r[k] == nodes[k];
    }
  }

  /** The first index found is the only index with that id and no smaller one. */
  lemma {:induction false} IndexOfIdIsFirst(nodes: seq<Node>, id: string, k: nat)
    requires k < |nodes| && nodes[k].id == id
    requires forall j :: 0 <= j < k ==> nodes[j].id != id
    ensures IndexOfId(nodes, id) == Some(k)
  {
    if k > 0 {
      IndexOfIdIsFirst(nodes[1..], id, k - 1);
    }
  }

  /** All incoming nodes, upserted in order (the source's first `forEach`):
      the list grows by at most one per incoming node and keeps the id at
      every old index. */
  function UpsertAll(nodes: seq<Node>, incoming: seq<Node>): (r: seq<Node>)
    ensures |nodes| <= |r| <= |nodes| + |incoming|
    ensures forall j :: 0 <= j < |nodes| ==> r[j].id == nodes[j].id
    ensures incoming == [] ==> r == nodes
  {
    if incoming == [] then nodes
    else Upsert(UpsertAll(nodes, incoming[..|incoming| - 1]), incoming[|incoming| - 1])
  }

  /** The last node of a list with the given id. */
  function FindLastNode(nodes: seq<Node>, id: string): (r: Option<Node>)
    ensures r.Some? <==> exists j :: 0 <= j < |nodes| && nodes[j].id == id
    ensures r.Some? ==> r.value in nodes && r.value.id == id
  {
    if nodes == [] then None
    else if nodes[|nodes| - 1].id == id then Some(nodes[|nodes| - 1])
    else FindLastNode(nodes[..|nodes| - 1], id)
  }

  /** After merging, the node found under an id is the last incoming node
      with that id (a full replacement: no field of the old node survives), or,
      when no incoming node carries the id, the node found there before. In
      particular the merged ids are exactly the old ids plus the incoming ones. */
  lemma {:induction false} UpsertAllFind(nodes: seq<Node>, incoming: seq<Node>, id: string)
    ensures FindNode(UpsertAll(nodes, incoming), id) ==
      match FindLastNode(incoming, id)
      case Some(n) => Some(n)
      case None => FindNode(nodes, id)
  {
    if incoming != [] {
      var init := incoming[..|incoming| - 1];
      UpsertAllFind(nodes, init, id);
      UpsertFind(UpsertAll(nodes, init), incoming[|incoming| - 1], id);
    }
  }

  /** An old node whose id is not incoming is untouched by the merge. */
  lemma {:induction false} UpsertAllStable(nodes: seq<Node>, incoming: seq<Node>)
    ensures var r := UpsertAll(nodes, incoming);
      forall j :: 0 <= j < |nodes| && FindLastNode(incoming, nodes[j].id).None? ==> r[j] == nodes[j]
  {
    if incoming != [] {
      var init := incoming[..|incoming| - 1];
      var last := incoming[|incoming| - 1];
      UpsertAllStable(nodes, init);
      assert forall id :: FindLastNode(incoming, id).None? ==> FindLastNode(init, id).None? && last.id != id;
    }
  }

  /** `findIndex` only ever finds the first node with an id, so an old node
      that repeats an earlier node's id is never overwritten. */
  lemma {:induction false} UpsertAllKeepsLaterDuplicates(nodes: seq<Node>, incoming: seq<Node>)
    ensures var r := UpsertAll(nodes, incoming);
      forall j :: 0 <= j < |nodes| && IndexOfId(nodes, nodes[j].id) != Some(j) ==> r[j] == nodes[j]
  {
    if incoming != [] {
      var init := incoming[..|incoming| - 1];
      var last := incoming[|incoming| - 1];
      UpsertAllKeepsLaterDuplicates(nodes, init);
      var acc := UpsertAll(nodes, init);
      var r := Upsert(acc, last);
      if IndexOfId(acc, last.id).Some? {
        forall j | 0 <= j < |nodes| && IndexOfId(nodes, nodes[j].id) != Some(j) ensures r[j] == nodes[j] {
          var k := IndexOfId(nodes, nodes[j].id).value;
          assert acc[k].id == nodes[j].id;
        }
      } else {
        assert forall j :: 0 <= j < |acc| ==> r[j] == acc[j];
      }
    }
  }

  /** The appended nodes are the incoming nodes whose id no old node has: each
      one as the last incoming node with its id, each id once, in the order of
      the ids' first occurrence among the incoming nodes. */
  predicate AppendedFromLast(nodes: seq<Node>, incoming: seq<Node>, r: seq<Node>) {
    forall j :: |nodes| <= j < |r| ==>
      IndexOfId(nodes, r[j].id).None? && FindLastNode(incoming, r[j].id) == Some(r[j])
  }

  predicate AppendedInFirstOrder(nodes: seq<Node>, incoming: seq<Node>, r: seq<Node>) {
    forall j1, j2 :: |nodes| <= j1 < j2 < |r| ==> FirstSeenBefore(incoming, r[j1].id, r[j2].id)
  }

  /** Both ids occur among the nodes, and a first occurs before b does. */
  predicate FirstSeenBefore(nodes: seq<Node>, a: string, b: string) {
    IndexOfId(nodes, a).Some? && IndexOfId(nodes, b).Some? && IndexOfId(nodes, a).value < IndexOfId(nodes, b).value
  }

  /** One more incoming node moves a first index only for an id that was new. */
  lemma IndexOfIdStep(incoming: seq<Node>, id: string)
    requires |incoming| > 0
    ensures IndexOfId(incoming[..|incoming| - 1], id).Some? ==>
      IndexOfId(incoming, id) == IndexOfId(incoming[..|incoming| - 1], id)
    ensures IndexOfId(incoming[..|incoming| - 1], id).None? && incoming[|incoming| - 1].id == id ==>
      IndexOfId(incoming, id) == Some(|incoming| - 1)
  {
    var init := incoming[..|incoming| - 1];
    assert forall j :: 0 <= j < |init| ==> incoming[j] == init[j];
    match IndexOfId(init, id)
    case Some(k) =>
      IndexOfIdIsFirst(incoming, id, k);
    case None =>
      if incoming[|incoming| - 1].id == id {
        IndexOfIdIsFirst(incoming, id, |incoming| - 1);
      }
  }

  lemma {:induction false} UpsertAllAppends(nodes: seq<Node>, incoming: seq<Node>)
    ensures AppendedFromLast(nodes, incoming, UpsertAll(nodes, incoming))
    ensures AppendedInFirstOrder(nodes, incoming, UpsertAll(nodes, incoming))
  {
    if incoming != [] {
      var init := incoming[..|incoming| - 1];
      var last := incoming[|incoming| - 1];
      UpsertAllAppends(nodes, init);
      var acc := UpsertAll(nodes, init);
      UpsertAllFind(nodes, init, last.id);
      OrderOverLonger(nodes, incoming, acc);
      match IndexOfId(acc, last.id)
      case Some(k) =>
        AppendsAfterReplace(nodes, incoming, acc, k);
        OrderAfterReplace(nodes, incoming, acc, k, last);
      case None =>
        assert FindLastNode(init, last.id).None?;
        IndexOfIdStep(incoming, last.id);
        AppendedIdsOccur(nodes, incoming, acc);
        PushFromLast(nodes, incoming, acc);
        AppendedBeforeLast(nodes, incoming, acc);
        PushInOrder(nodes, incoming, acc);
    }
  }

  /** The inductive step of UpsertAllAppends when the last incoming node
      overwrites an existing entry: the appended ids are unchanged. */
  lemma AppendsAfterReplace(nodes: seq<Node>, incoming: seq<Node>, acc: seq<Node>, k: nat)
    requires |incoming| > 0 && |nodes| <= |acc| && k < |acc|
    requires forall j :: 0 <= j < |nodes| ==> acc[j].id == nodes[j].id
    requires AppendedFromLast(nodes, incoming[..|incoming| - 1], acc)
    requires AppendedInFirstOrder(nodes, incoming, acc)
    requires acc[k].id == incoming[|incoming| - 1].id
    ensures AppendedFromLast(nodes, incoming, acc[k := incoming[|incoming| - 1]])
  {
    var last := incoming[|incoming| - 1];
    var r := acc[k := last];
    forall j | |nodes| <= j < |r|
      ensures IndexOfId(nodes, r[j].id).None? && FindLastNode(incoming, r[j].id) == Some(r[j])
    {
      if j != k {
        assert acc[j].id != last.id by {
          if k < |nodes| {
            assert nodes[k].id == last.id;
          } else if k < j {
            assert FirstSeenBefore(incoming, acc[k].id, acc[j].id);
          } else {
            assert FirstSeenBefore(incoming, acc[j].id, acc[k].id);
          }
        }
      }
    }
  }

  /** The order of the appended ids, carried from the incoming nodes without
      the last one to all of them: a first index found in the shorter list is
      the same in the longer one. */
  lemma OrderOverLonger(nodes: seq<Node>, incoming: seq<Node>, acc: seq<Node>)
    requires |incoming| > 0 && |nodes| <= |acc|
    requires AppendedInFirstOrder(nodes, incoming[..|incoming| - 1], acc)
    ensures AppendedInFirstOrder(nodes, incoming, acc)
  {
    forall j1, j2 | |nodes| <= j1 < j2 < |acc|
      ensures FirstSeenBefore(incoming, acc[j1].id, acc[j2].id)
    {
      IndexOfIdStep(incoming, acc[j1].id);
      IndexOfIdStep(incoming, acc[j2].id);
    }
  }

  /** Every appended id occurs among the incoming nodes. */
  lemma AppendedIdsOccur(nodes: seq<Node>, incoming: seq<Node>, acc: seq<Node>)
    requires |incoming| > 0 && |nodes| <= |acc|
    requires AppendedFromLast(nodes, incoming[..|incoming| - 1], acc)
    ensures forall j :: |nodes| <= j < |acc| ==> IndexOfId(incoming, acc[j].id).Some?
  {
    var init := incoming[..|incoming| - 1];
    forall j | |nodes| <= j < |acc| ensures IndexOfId(incoming, acc[j].id).Some? {
      assert FindLastNode(init, acc[j].id).Some?;
      var i :| 0 <= i < |init| && init[i].id == acc[j].id;
      assert incoming[i].id == acc[j].id;
    }
  }

  /** Overwriting an entry keeps every id, and so the order of the appended ones. */
  lemma OrderAfterReplace(nodes: seq<Node>, incoming: seq<Node>, acc: seq<Node>, k: nat, n: Node)
    requires |nodes| <= |acc| && k < |acc| && acc[k].id == n.id
    requires AppendedInFirstOrder(nodes, incoming, acc)
    ensures AppendedInFirstOrder(nodes, incoming, acc[k := n])
  {
    var r := acc[k := n];
    forall j1, j2 | |nodes| <= j1 < j2 < |r|
      ensures FirstSeenBefore(incoming, r[j1].id, r[j2].id)
    {
      assert r[j1].id == acc[j1].id && r[j2].id == acc[j2].id;
    }
  }

  /** The inductive step of UpsertAllAppends when the last incoming node
      carries an id the list does not have, so it is pushed: the pushed node is
      the last with its id, and the earlier appended ids are still last where
      they were. */
  lemma PushFromLast(nodes: seq<Node>, incoming: seq<Node>, acc: seq<Node>)
    requires |incoming| > 0 && |nodes| <= |acc|
    requires forall j :: 0 <= j < |nodes| ==> acc[j].id == nodes[j].id
    requires AppendedFromLast(nodes, incoming[..|incoming| - 1], acc)
    requires forall j :: 0 <= j < |acc| ==> acc[j].id != incoming[|incoming| - 1].id
    ensures AppendedFromLast(nodes, incoming, acc + [incoming[|incoming| - 1]])
  {
    var last := incoming[|incoming| - 1];
    var r := acc + [last];
    forall j | |nodes| <= j < |r|
      ensures IndexOfId(nodes, r[j].id).None? && FindLastNode(incoming, r[j].id) == Some(r[j])
    {
      if j == |acc| {
        assert forall i :: 0 <= i < |nodes| ==> nodes[i].id == acc[i].id;
      } else {
        assert r[j] == acc[j];
      }
    }
  }

  /** The pushed node's id comes first at the last index, after every earlier
      appended id. */
  lemma PushInOrder(nodes: seq<Node>, incoming: seq<Node>, acc: seq<Node>)
    requires |incoming| > 0 && |nodes| <= |acc|
    requires AppendedInFirstOrder(nodes, incoming, acc)
    requires forall j :: |nodes| <= j < |acc| ==>
      IndexOfId(incoming, acc[j].id).Some? && IndexOfId(incoming, acc[j].id).value < |incoming| - 1
    requires IndexOfId(incoming, incoming[|incoming| - 1].id) == Some(|incoming| - 1)
    ensures AppendedInFirstOrder(nodes, incoming, acc + [incoming[|incoming| - 1]])
  {
    var r := acc + [incoming[|incoming| - 1]];
    forall j1, j2 | |nodes| <= j1 < j2 < |r|
      ensures FirstSeenBefore(incoming, r[j1].id, r[j2].id)
    {
      PushedPairInOrder(nodes, incoming, acc, r, j1, j2);
    }
  }

  /** PushInOrder for one pair of positions. */
  lemma PushedPairInOrder(nodes: seq<Node>, incoming: seq<Node>, acc: seq<Node>, r: seq<Node>, j1: nat, j2: nat)
    requires |incoming| > 0 && r == acc + [incoming[|incoming| - 1]] && |nodes| <= j1 < j2 < |r|
    requires AppendedInFirstOrder(nodes, incoming, acc)
    requires IndexOfId(incoming, acc[j1].id).Some? && IndexOfId(incoming, acc[j1].id).value < |incoming| - 1
    requires IndexOfId(incoming, incoming[|incoming| - 1].id) == Some(|incoming| - 1)
    ensures FirstSeenBefore(incoming, r[j1].id, r[j2].id)
  {
    assert r[j1] == acc[j1];
    if j2 < |acc| {
      assert r[j2] == acc[j2];
    } else {
      assert r[j2] == incoming[|incoming| - 1];
    }
  }

  /** Ids already appended are first found before the last incoming node when
      that node carries an id the list does not have. */
  lemma AppendedBeforeLast(nodes: seq<Node>, incoming: seq<Node>, acc: seq<Node>)
    requires |incoming| > 0 && |nodes| <= |acc|
    requires forall j :: |nodes| <= j < |acc| ==> IndexOfId(incoming, acc[j].id).Some?
    requires forall j :: 0 <= j < |acc| ==> acc[j].id != incoming[|incoming| - 1].id
    ensures forall j :: |nodes| <= j < |acc| ==>
      IndexOfId(incoming, acc[j].id).Some? && IndexOfId(incoming, acc[j].id).value < |incoming| - 1
  {
    forall j | |nodes| <= j < |acc|
      ensures IndexOfId(incoming, acc[j].id).Some? && IndexOfId(incoming, acc[j].id).value < |incoming| - 1
    {
      FirstIndexBeforeLast(incoming, acc[j].id);
    }
  }

  /** An id found among a list but not carried by its last element is first
      found before the last index. */
  lemma FirstIndexBeforeLast(incoming: seq<Node>, id: string)
    requires |incoming| > 0 && IndexOfId(incoming, id).Some? && incoming[|incoming| - 1].id != id
    ensures IndexOfId(incoming, id).value < |incoming| - 1
  {
  }

  /** Every incoming node whose id no old node has is appended. */
  lemma UpsertAllAppendsNewId(nodes: seq<Node>, incoming: seq<Node>, n: Node)
    requires n in incoming && IndexOfId(nodes, n.id).None?
    ensures exists j :: |nodes| <= j < |UpsertAll(nodes, incoming)| && UpsertAll(nodes, incoming)[j].id == n.id
  {
    var r := UpsertAll(nodes, incoming);
    UpsertAllFind(nodes, incoming, n.id);
    var i :| 0 <= i < |incoming| && incoming[i] == n;
    assert FindLastNode(incoming, n.id).Some?;
    assert FindNode(r, n.id).Some?;
    var j := IndexOfId(r, n.id).value;
    assert r[j].id == n.id;
  }

  /** An incoming edge under the id it gets when appended at position idx of
      the incoming list: `${edgeCount + idx}`. */
  function Renumbered(e: Edge, edgeCount: nat, idx: nat): Edge {
    e.(id := MergedEdgeId(edgeCount, idx))
  }

  function MergedEdgeId(edgeCount: nat, idx: nat): string {
    NatToDecimal(edgeCount + idx)
  }

  /** The first k incoming edges processed (the source's second `forEach`): an
      edge whose id already occurs in the growing list is dropped, any other is
      appended, renumbered. */
  function MergeEdgesUpTo(current: seq<Edge>, incoming: seq<Edge>, k: nat): (r: seq<Edge>)
    requires k <= |incoming|
    ensures current <= r
    ensures |r| <= |current| + k
  {
    if k == 0 then current
    else
      var acc := MergeEdgesUpTo(current, incoming, k - 1);
      var e := incoming[k - 1];
      if HasEdgeId(acc, e.id) then acc else acc + [Renumbered(e, |current|, k - 1)]
  }

  /** Everything appended after the current edges is an incoming edge, with its
      source and target kept and its id replaced by its renumbered one. */
  lemma {:induction false} MergedEdgesAreRenumbered(current: seq<Edge>, incoming: seq<Edge>, k: nat)
    requires k <= |incoming|
    ensures var r := MergeEdgesUpTo(current, incoming, k);
      forall j :: |current| <= j < |r| ==>
        exists i :: 0 <= i < k && r[j] == Renumbered(incoming[i], |current|, i)
  {
    if k > 0 {
      MergedEdgesAreRenumbered(current, incoming, k - 1);
      var acc := MergeEdgesUpTo(current, incoming, k - 1);
      assert var r := MergeEdgesUpTo(current, incoming, k - 1);
      forall j :: |current| <= j < |r| ==>
        exists i :: 0 <= i < k - 1 && r[j] == Renumbered(incoming[i], |current|, i);
      assert forall j :: |current| <= j < |acc| ==>
        exists i :: 0 <= i < k - 1 && acc[j] == Renumbered(incoming[i], |current|, i);
      var r := MergeEdgesUpTo(current, incoming, k);
      forall j | |current| <= j < |r|
        ensures exists i :: 0 <= i < k && r[j] == Renumbered(incoming[i], |current|, i)
      {
        if j < |acc| {
          var i :| 0 <= i < k - 1 && acc[j] == Renumbered(incoming[i], |current|, i);
          assert r[j] == acc[j];
        } else {
          assert r[j] == Renumbered(incoming[k - 1], |current|, k - 1);
        }
      }
    }
  }

  /** The incoming position an appended edge was renumbered from. */
  lemma SourcePosition(current: seq<Edge>, incoming: seq<Edge>, k: nat, j: nat) returns (i: nat)
    requires k <= |incoming| && |current| <= j < |MergeEdgesUpTo(current, incoming, k)|
    ensures i < k && MergeEdgesUpTo(current, incoming, k)[j] == Renumbered(incoming[i], |current|, i)
  {
    MergedEdgesAreRenumbered(current, incoming, k);
    var r := MergeEdgesUpTo(current, incoming, k);
    i :| 0 <= i < k && r[j] == Renumbered(incoming[i], |current|, i);
  }

  /** No edge carrying the id of a position at or after k has been appended
      by the first k incoming edges. */
  lemma NotYetAppended(current: seq<Edge>, incoming: seq<Edge>, k: nat, x: Edge, m: nat)
    requires k <= m && k <= |incoming| && x.id == MergedEdgeId(|current|, m)
    ensures x !in MergeEdgesUpTo(current, incoming, k)[|current|..]
  {
    var r := MergeEdgesUpTo(current, incoming, k);
    if x in r[|current|..] {
      var t :| 0 <= t < |r| - |current| && r[|current|..][t] == x;
      var i := SourcePosition(current, incoming, k, |current| + t);
      NatToDecimalInjective(|current| + i, |current| + m);
    }
  }

  /** The appended part after one more incoming edge. */
  lemma AppendedStep(current: seq<Edge>, incoming: seq<Edge>, k: nat)
    requires 0 < k <= |incoming|
    ensures var acc := MergeEdgesUpTo(current, incoming, k - 1);
      MergeEdgesUpTo(current, incoming, k)[|current|..] ==
        if HasEdgeId(acc, incoming[k - 1].id) then acc[|current|..]
        else acc[|current|..] + [Renumbered(incoming[k - 1], |current|, k - 1)]
  {
    var acc := MergeEdgesUpTo(current, incoming, k - 1);
    if !HasEdgeId(acc, incoming[k - 1].id) {
      assert (acc + [Renumbered(incoming[k - 1], |current|, k - 1)])[|current|..] ==
        acc[|current|..] + [Renumbered(incoming[k - 1], |current|, k - 1)];
    }
  }

  /** The incoming edge at position i is appended, under its renumbered id,
      exactly when no edge merged before it carries its id (the `some` check
      of the source); a skipped edge is not appended later either. */
  lemma MergedEdgeKept(current: seq<Edge>, incoming: seq<Edge>, k: nat)
    requires k <= |incoming|
    ensures forall i :: 0 <= i < k ==>
      (Renumbered(incoming[i], |current|, i) in MergeEdgesUpTo(current, incoming, k)[|current|..]
       <==> !HasEdgeId(MergeEdgesUpTo(current, incoming, i), incoming[i].id))
  {
    forall i | 0 <= i < k
      ensures Renumbered(incoming[i], |current|, i) in MergeEdgesUpTo(current, incoming, k)[|current|..]
        <==> !HasEdgeId(MergeEdgesUpTo(current, incoming, i), incoming[i].id)
    {
      EdgeKeptAt(current, incoming, k, i);
    }
  }

  /** Incoming edge i, renumbered, is among the edges appended by the first
      k incoming edges. */
  predicate AppendedAt(current: seq<Edge>, incoming: seq<Edge>, k: nat, i: nat)
    requires i < |incoming| && k <= |incoming|
  {
    Renumbered(incoming[i], |current|, i) in MergeEdgesUpTo(current, incoming, k)[|current|..]
  }

  /** MergedEdgeKept for one position i, by induction on the number k of
      incoming edges merged. */
  lemma {:induction false} EdgeKeptAt(current: seq<Edge>, incoming: seq<Edge>, k: nat, i: nat)
    requires i < k <= |incoming|
    ensures AppendedAt(current, incoming, k, i) <==> !HasEdgeId(MergeEdgesUpTo(current, incoming, i), incoming[i].id)
  {
    if k == i + 1 {
      KeptWhenMerged(current, incoming, i);
    } else {
      EdgeKeptAt(current, incoming, k - 1, i);
      LaterEdgeKeepsMembership(current, incoming, k, i);
    }
  }

  /** Incoming edge i is in the appended part right after it is merged
      exactly when its id was not there yet. */
  lemma KeptWhenMerged(current: seq<Edge>, incoming: seq<Edge>, i: nat)
    requires i < |incoming|
    ensures AppendedAt(current, incoming, i + 1, i) <==> !HasEdgeId(MergeEdgesUpTo(current, incoming, i), incoming[i].id)
  {
    AppendedStep(current, incoming, i + 1);
    NotYetAppended(current, incoming, i, Renumbered(incoming[i], |current|, i), i);
  }

  /** Merging a later incoming edge neither adds nor removes edge i. */
  lemma LaterEdgeKeepsMembership(current: seq<Edge>, incoming: seq<Edge>, k: nat, i: nat)
    requires i + 1 < k <= |incoming|
    ensures AppendedAt(current, incoming, k, i) <==> AppendedAt(current, incoming, k - 1, i)
  {
    var acc := MergeEdgesUpTo(current, incoming, k - 1);
    AppendedStep(current, incoming, k);
    if !HasEdgeId(acc, incoming[k - 1].id) {
      var y := Renumbered(incoming[i], |current|, i);
      var x := Renumbered(incoming[k - 1], |current|, k - 1);
      NatToDecimalInjective(|current| + i, |current| + k - 1);
      assert y.id != x.id;
      Seqs.InSnoc(acc[|current|..], x, y);
    }
  }

  /** The appended edges follow the order of the incoming list: an edge
      renumbered from position i1 comes before one renumbered from i2 only
      when i1 < i2. */
  lemma {:induction false} MergedEdgesInOrder(current: seq<Edge>, incoming: seq<Edge>, k: nat)
    requires k <= |incoming|
    ensures var r := MergeEdgesUpTo(current, incoming, k);
      forall j1, j2, i1: nat, i2: nat ::
        (|current| <= j1 < j2 < |r| &&
         r[j1].id == MergedEdgeId(|current|, i1) && r[j2].id == MergedEdgeId(|current|, i2)) ==> i1 < i2
  {
    var r := MergeEdgesUpTo(current, incoming, k);
    forall j1, j2, i1: nat, i2: nat |
      |current| <= j1 < j2 < |r| &&
      r[j1].id == MergedEdgeId(|current|, i1) && r[j2].id == MergedEdgeId(|current|, i2)
      ensures i1 < i2
    {
      InOrderAt(current, incoming, k, j1, j2, i1, i2);
    }
  }

  /** MergedEdgesInOrder for one pair of appended positions, by induction on
      the number k of incoming edges merged. */
  lemma {:induction false} InOrderAt(current: seq<Edge>, incoming: seq<Edge>, k: nat,
                                     j1: nat, j2: nat, i1: nat, i2: nat)
    requires k <= |incoming|
    requires |current| <= j1 < j2 < |MergeEdgesUpTo(current, incoming, k)|
    requires MergeEdgesUpTo(current, incoming, k)[j1].id == MergedEdgeId(|current|, i1)
    requires MergeEdgesUpTo(current, incoming, k)[j2].id == MergedEdgeId(|current|, i2)
    ensures i1 < i2
  {
    var acc := MergeEdgesUpTo(current, incoming, k - 1);
    var r := MergeEdgesUpTo(current, incoming, k);
    assert r[j1] == acc[j1];
    if j2 < |acc| {
      assert r[j2] == acc[j2];
      InOrderAt(current, incoming, k - 1, j1, j2, i1, i2);
    } else {
      assert r[j2] == Renumbered(incoming[k - 1], |current|, k - 1);
      var i := SourcePosition(current, incoming, k - 1, j1);
      assert MergedEdgeId(|current|, i) == MergedEdgeId(|current|, i1);
      assert MergedEdgeId(|current|, k - 1) == MergedEdgeId(|current|, i2);
      NatToDecimalInjective(|current| + i, |current| + i1);
      NatToDecimalInjective(|current| + k - 1, |current| + i2);
    }
  }

  /** All incoming edges processed: the current edges stay in front, and at
      most one edge is appended per incoming edge. */
  function MergeEdges(current: seq<Edge>, incoming: seq<Edge>): (r: seq<Edge>)
    ensures current <= r && |r| <= |current| + |incoming|
    ensures incoming == [] ==> r == current
  {
    MergeEdgesUpTo(current, incoming, |incoming|)
  }

  /** The merged graph. Old nodes keep their positions and ids, old edges
      stay in front, and an empty response changes nothing. */
  function MergeTree(current: TechTreeData, enhanced: TechTreeData): (r: TechTreeData)
    ensures |current.nodes| <= |r.nodes| && forall j :: 0 <= j < |current.nodes| ==> r.nodes[j].id == current.nodes[j].id
    ensures current.edges <= r.edges
    ensures enhanced == TechTreeData([], []) ==> r == current
  {
    TechTreeData(UpsertAll(current.nodes, enhanced.nodes), MergeEdges(current.edges, enhanced.edges))
  }

  /** Incoming edge i is "fresh" when its id occurs neither among the current
      edges nor among the ids given to the incoming edges before it; here for
      the first k incoming edges. */
  predicate FreshUpTo(current: seq<Edge>, incoming: seq<Edge>, k: nat)
    requires k <= |incoming|
  {
    forall i :: 0 <= i < k ==>
      && !HasEdgeId(current, incoming[i].id)
      && forall j :: 0 <= j < i ==> incoming[i].id != MergedEdgeId(|current|, j)
  }

  /** Every incoming edge is fresh. */
  predicate FreshIncoming(current: seq<Edge>, incoming: seq<Edge>) {
    FreshUpTo(current, incoming, |incoming|)
  }

  /** With fresh incoming ids every incoming edge is appended, renumbered, in
      incoming order. */
  lemma {:induction false} MergeEdgesAllFresh(current: seq<Edge>, incoming: seq<Edge>, k: nat)
    requires k <= |incoming|
    requires FreshUpTo(current, incoming, k)
    ensures var r := MergeEdgesUpTo(current, incoming, k);
      && |r| == |current| + k
      && forall i :: 0 <= i < k ==> r[|current| + i] == Renumbered(incoming[i], |current|, i)
  {
    if k > 0 {
      MergeEdgesAllFresh(current, incoming, k - 1);
      var acc := MergeEdgesUpTo(current, incoming, k - 1);
      var e := incoming[k - 1];
      forall j | 0 <= j < |acc| ensures acc[j].id != e.id {
        if j < |current| {
          assert acc[j] == current[j];
          assert current[j] in current;
        } else {
          assert acc[j] == Renumbered(incoming[j - |current|], |current|, j - |current|);
        }
      }
      assert !HasEdgeId(acc, e.id);
    }
  }

  /** Conversely, when no incoming edge was dropped, every one was fresh. */
  lemma {:induction false} AppendedAllMeansFresh(current: seq<Edge>, incoming: seq<Edge>, k: nat)
    requires k <= |incoming|
    requires |MergeEdgesUpTo(current, incoming, k)| == |current| + k
    ensures FreshUpTo(current, incoming, k)
  {
    if k > 0 {
      var acc := MergeEdgesUpTo(current, incoming, k - 1);
      var e := incoming[k - 1];
      assert |acc| <= |current| + (k - 1);
      assert !HasEdgeId(acc, e.id);
      AppendedAllMeansFresh(current, incoming, k - 1);
      MergeEdgesAllFresh(current, incoming, k - 1);
      AbsentFromAppended(current, incoming, acc, k - 1, e.id);
    }
  }

  /** An id absent from a list that is the current edges followed by the first
      k incoming edges renumbered is neither a current id nor one of the
      first k new ids. */
  lemma AbsentFromAppended(current: seq<Edge>, incoming: seq<Edge>, acc: seq<Edge>, k: nat, id: string)
    requires k <= |incoming| && current <= acc && |acc| == |current| + k
    requires forall i :: 0 <= i < k ==> acc[|current| + i] == Renumbered(incoming[i], |current|, i)
    requires !HasEdgeId(acc, id)
    ensures !HasEdgeId(current, id)
    ensures forall j :: 0 <= j < k ==> id != MergedEdgeId(|current|, j)
  {
    forall d | d in current ensures d.id != id {
      var j :| 0 <= j < |current| && current[j] == d;
      assert acc[j] == d;
    }
    forall j | 0 <= j < k ensures id != MergedEdgeId(|current|, j) {
      assert acc[|current| + j] == Renumbered(incoming[j], |current|, j);
    }
  }

  /** A merge appends every incoming edge exactly when all of them are fresh. */
  lemma MergeEdgesAppendsAll(current: seq<Edge>, incoming: seq<Edge>)
    ensures |MergeEdges(current, incoming)| == |current| + |incoming| <==> FreshIncoming(current, incoming)
  {
    if |MergeEdges(current, incoming)| == |current| + |incoming| {
      AppendedAllMeansFresh(current, incoming, |incoming|);
    }
    if FreshIncoming(current, incoming) {
      MergeEdgesAllFresh(current, incoming, |incoming|);
    }
  }

  /** No current edge carries a decimal id from base on. */
  ghost predicate NoDecimalIdFrom(edges: seq<Edge>, base: nat) {
    forall i, n: nat ::
      0 <= i < |edges| && base <= n ==> edges[i].id != NatToDecimal(n)
  }

  /** id is the id given to one of the first k incoming edges. */
  predicate IsNewId(id: string, edgeCount: nat, k: nat) {
    exists i :: 0 <= i < k && id == MergedEdgeId(edgeCount, i)
  }

  /** Merging keeps edge ids unique, provided the current ids are unique and
      none of them is a decimal at or above the current edge count. */
  lemma {:induction false} MergeEdgesUnique(current: seq<Edge>, incoming: seq<Edge>, k: nat)
    requires k <= |incoming|
    requires UniqueEdgeIds(current) && NoDecimalIdFrom(current, |current|)
    ensures UniqueEdgeIds(MergeEdgesUpTo(current, incoming, k))
    ensures forall j :: |current| <= j < |MergeEdgesUpTo(current, incoming, k)| ==>
              IsNewId(MergeEdgesUpTo(current, incoming, k)[j].id, |current|, k)
  {
    if k > 0 {
      MergeEdgesUnique(current, incoming, k - 1);
      var acc := MergeEdgesUpTo(current, incoming, k - 1);
      var e := incoming[k - 1];
      if !HasEdgeId(acc, e.id) {
        AppendNewId(current, acc, k - 1, Renumbered(e, |current|, k - 1));
      }
    }
  }

  /** Appending the edge renumbered from incoming index k to a list that holds
      the current edges and then only edges with new ids for earlier indices
      keeps ids unique and adds one more such edge. */
  lemma AppendNewId(current: seq<Edge>, acc: seq<Edge>, k: nat, x: Edge)
    requires current <= acc && NoDecimalIdFrom(current, |current|) && UniqueEdgeIds(acc)
    requires forall j :: |current| <= j < |acc| ==>
               IsNewId(acc[j].id, |current|, k)
    requires x.id == MergedEdgeId(|current|, k)
    ensures UniqueEdgeIds(acc + [x])
    ensures forall j :: |current| <= j < |acc + [x]| ==>
              IsNewId((acc + [x])[j].id, |current|, k + 1)
  {
    NewIdAbsent(current, acc, k);
    var r := acc + [x];
    forall j | |current| <= j < |r| ensures IsNewId(r[j].id, |current|, k + 1) {
      if j < |acc| {
        assert r[j] == acc[j];
      } else {
        assert r[j].id == MergedEdgeId(|current|, k);
      }
    }
  }

  /** The id given to incoming edge k is carried by no edge before it: not by
      a current edge, and not by an edge renumbered from an earlier index. */
  lemma NewIdAbsent(current: seq<Edge>, acc: seq<Edge>, k: nat)
    requires current <= acc && NoDecimalIdFrom(current, |current|)
    requires forall j :: |current| <= j < |acc| ==>
               IsNewId(acc[j].id, |current|, k)
    ensures forall j :: 0 <= j < |acc| ==> acc[j].id != MergedEdgeId(|current|, k)
  {
    forall j | 0 <= j < |acc| ensures acc[j].id != MergedEdgeId(|current|, k) {
      if j < |current| {
        assert acc[j] == current[j];
      } else {
        var i :| 0 <= i < k && acc[j].id == MergedEdgeId(|current|, i);
        NatToDecimalInjective(|current| + i, |current| + k);
      }
    }
  }

  /** Edges read from the ledger are numbered by position, so they meet the
      condition of MergeEdgesUnique. */
  lemma PositionalIdsAreSafe(edges: seq<Edge>)
    requires forall i :: 0 <= i < |edges| ==> edges[i].id == NatToDecimal(i)
    ensures UniqueEdgeIds(edges) && NoDecimalIdFrom(edges, |edges|)
  {
    forall i, j | 0 <= i < j < |edges| ensures edges[i].id != edges[j].id {
      NatToDecimalInjective(i, j);
    }
    forall i, n: nat | 0 <= i < |edges| && |edges| <= n ensures edges[i].id != NatToDecimal(n) {
      NatToDecimalInjective(i, n);
    }
  }

  /** Ids are compared against the growing list, which already holds the
      renumbered edges: an incoming edge whose own id equals an earlier edge's
      new id is dropped although no current edge had it. */
  lemma RenumberedIdCollision()
    ensures MergeEdges([], [Edge("x", "a", "b"), Edge("0", "c", "d")]) == [Edge("0", "a", "b")]
  {
    var inc := [Edge("x", "a", "b"), Edge("0", "c", "d")];
    assert NatToDecimal(0) == "0";
    assert MergeEdgesUpTo([], inc, 1) == [Edge("0", "a", "b")];
    assert HasEdgeId([Edge("0", "a", "b")], "0");
  }

  /** Ids stay unique within one merge only under MergeEdgesUnique's
      condition, and a merge result need not meet it again: merging three
      edges into an empty graph drops the middle one and numbers the others
      "0" and "2"; merging one more edge then numbers it "2" as well. */
  lemma DuplicateIdAcrossMerges()
    ensures var first := MergeEdges([], [Edge("a", "p", "q"), Edge("0", "q", "r"), Edge("b", "r", "s")]);
      && first == [Edge("0", "p", "q"), Edge("2", "r", "s")]
      && MergeEdges(first, [Edge("c", "s", "t")]) == first + [Edge("2", "s", "t")]
      && !UniqueEdgeIds(MergeEdges(first, [Edge("c", "s", "t")]))
  {
    var inc := [Edge("a", "p", "q"), Edge("0", "q", "r"), Edge("b", "r", "s")];
    assert NatToDecimal(0) == "0" && NatToDecimal(2) == "2";
    assert MergeEdgesUpTo([], inc, 1) == [Edge("0", "p", "q")];
    assert HasEdgeId([Edge("0", "p", "q")], "0");
    assert MergeEdgesUpTo([], inc, 2) == [Edge("0", "p", "q")];
    assert !HasEdgeId([Edge("0", "p", "q")], "b");
    var first := [Edge("0", "p", "q"), Edge("2", "r", "s")];
    assert !HasEdgeId(first, "c");
    var second := MergeEdges(first, [Edge("c", "s", "t")]);
    assert second[1].id == second[2].id;
  }

  /** A node sent back under an existing id is replaced as a whole. */
  lemma ReplaceByIdExample()
    ensures UpsertAll([Node("1", Some("A"), Some(EndGoal), None)], [Node("1", Some("B"), None, None)])
         == [Node("1", Some("B"), None, None)]
  {
  }

  /** The source's merge: copy both lists, upsert each incoming node, then
      append each incoming edge whose id no edge of the growing list has. */
  method MergeEnhancedData(current: TechTreeData, enhanced: TechTreeData) returns (merged: TechTreeData)
    ensures merged == MergeTree(current, enhanced)
  {
    var mergedNodes := MergeNodes(current.nodes, enhanced.nodes);
    var mergedEdges := MergeEdgeList(current.edges, enhanced.edges);
    merged := TechTreeData(mergedNodes, mergedEdges);
  }

  /** The node loop: `findIndex`, then index assignment or `push`. */
  method MergeNodes(current: seq<Node>, incoming: seq<Node>) returns (mergedNodes: seq<Node>)
    ensures mergedNodes == UpsertAll(current, incoming)
  {
    mergedNodes := current;
    var i := 0;
    while i < |incoming|
      invariant 0 <= i <= |incoming|
      invariant mergedNodes == UpsertAll(current, incoming[..i])
    {
      UpsertAllNext(current, incoming, i);
      mergedNodes := UpsertNode(mergedNodes, incoming[i]);
      i := i + 1;
    }
    assert incoming[..i] == incoming;
  }

  /** Upserting one more node of the answer extends the fold by one step. */
  lemma UpsertAllNext(current: seq<Node>, incoming: seq<Node>, i: nat)
    requires i < |incoming|
    ensures UpsertAll(current, incoming[..i + 1]) == Upsert(UpsertAll(current, incoming[..i]), incoming[i])
  {
    assert incoming[..i + 1][..i] == incoming[..i];
  }

  /** One pass of the node loop: `findIndex` by id, then overwrite in place
      or `push`. */
  method UpsertNode(mergedNodes: seq<Node>, enhancedNode: Node) returns (r: seq<Node>)
    ensures r == Upsert(mergedNodes, enhancedNode)
  {
    var index := IndexOfId(mergedNodes, enhancedNode.id);
    if index.Some? {
      r := mergedNodes[index.value := enhancedNode];
    } else {
      r := mergedNodes + [enhancedNode];
    }
  }

  /** The edge loop: `some` over the growing list, then `push` with the id
      `${edgeCount + idx}`. */
  method MergeEdgeList(current: seq<Edge>, incoming: seq<Edge>) returns (mergedEdges: seq<Edge>)
    ensures mergedEdges == MergeEdges(current, incoming)
  {
    mergedEdges := current;
    var edgeCount := |current|;
    var idx := 0;
    while idx < |incoming|
      invariant 0 <= idx <= |incoming|
      invariant mergedEdges == MergeEdgesUpTo(current, incoming, idx)
    {
      var enhancedEdge := incoming[idx];
      if !HasEdgeId(mergedEdges, enhancedEdge.id) {
        mergedEdges := mergedEdges + [enhancedEdge.(id := NatToDecimal(edgeCount + idx))];
      }
      idx := idx + 1;
    }
  }
}
