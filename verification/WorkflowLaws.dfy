/** A workflow run can always move: it is never left waiting for nothing. */
module WorkflowLaws {
  import opened Wrappers
  import opened Digraph
  import opened Sequences
  import opened Tasks
  import opened Delivery
  import opened WorkflowRuns
  import opened MergeTransactions
  import MergeProtocol
  import MergeLaws
  import W = WorkflowPolicy

  /** Someone is at work on the node: an agent, a reviewer or its merge. */
  predicate NodeActive(rows: Rows, id: Id) {
    && id in rows
    && match rows[id].status
       case Claimed | Running | AwaitingReview => true
       case Succeeded => DeliveryOf(rows, id).Pending?
       case _ => false
  }

  /** Following pending dependencies from a pending node ends at one whose dependencies are settled. */
  lemma {:induction false} LowestPending(nodes: W.Graph, limit: nat, pending: set<NodeId>, p: seq<NodeId>) returns (n: NodeId)
    requires forall q :: W.IsChain(nodes, q) ==> |q| <= limit
    requires W.IsChain(nodes, p) && p[|p| - 1] in pending
    ensures n in pending && forall d :: W.DependsOn(nodes, n, d) ==> d !in pending
    decreases limit - |p|
  {
    n := p[|p| - 1];
    if d :| W.DependsOn(nodes, n, d) && d in pending {
      assert W.IsChain(nodes, p + [d]);
      n := LowestPending(nodes, limit, pending, p + [d]);
    }
  }

  /** A queued node whose dependencies are all settled is released or reported as blocked. */
  lemma SettledNodeMoves(node: W.Node, ids: map<NodeId, Id>, rows: Rows, edges: Edges)
    requires node.id in ids && EdgesMirror(node, ids, edges)
    requires forall n :: n in ids ==> IsNodeTask(rows, ids[n])
    requires IsNodeTask(rows, ids[node.id]) && rows[ids[node.id]].status.Queued?
    requires forall d :: d in node.dependsOn ==> d in ids && !NodePending(rows, ids[d])
    ensures NodeReady(rows, edges, ids[node.id]) || NodeBlocked(rows, edges, ids[node.id])
  {
    var e := EdgesOf(edges, ids[node.id]);
    assert IsNodeTask(rows, ids[node.id]);
    if e != map[] {
      forall x | x in e ensures x in rows && !DeliveryOf(rows, x).Pending? {
        var d :| d in node.dependsOn && d in ids && ids[d] == x;
        assert IsNodeTask(rows, ids[d]);
      }
      WorkflowCheckMeans(rows, e, AscendingIds(e.Keys), false);
    }
  }

  lemma NodeOf(nodes: seq<W.Node>, n: NodeId) returns (i: nat)
    requires W.DistinctIds(nodes) && n in W.NodesById(nodes)
    ensures i < |nodes| && nodes[i].id == n && W.NodesById(nodes)[n] == nodes[i]
  {
    i :| 0 <= i < |nodes| && nodes[i].id == n;
    var j :| 0 <= j < |nodes| && nodes[j] == W.NodesById(nodes)[n];
  }

  ghost function PendingNames(rows: Rows, ids: map<NodeId, Id>): set<NodeId> {
    set n | n in ids && NodePending(rows, ids[n])
  }

  lemma LowestNodeMoves(spec: W.Spec, ids: map<NodeId, Id>, rows: Rows, edges: Edges, n: NodeId)
    requires Writable(spec.nodes) && Mirrors(spec.nodes, ids, rows, edges)
    requires n in PendingNames(rows, ids) && !NodeActive(rows, ids[n])
    requires forall d :: W.DependsOn(W.NodesById(spec.nodes), n, d) ==> d !in PendingNames(rows, ids)
    ensures NodeReady(rows, edges, ids[n]) || NodeBlocked(rows, edges, ids[n])
  {
    var nodes := W.NodesById(spec.nodes);
    NodeIdsAreKnown(spec.nodes);
    var i := NodeOf(spec.nodes, n);
    var node := spec.nodes[i];
    assert IsNodeTask(rows, ids[n]);
    assert W.DependenciesAllowed(nodes, node);
    forall d | d in node.dependsOn ensures d in ids && !NodePending(rows, ids[d]) {
      assert W.DependsOn(nodes, n, d);
    }
    SettledNodeMoves(node, ids, rows, edges);
  }

  lemma SomeNodeMoves(policy: W.Policy, spec: W.Spec, ids: map<NodeId, Id>, rows: Rows, edges: Edges, start: NodeId)
    requires W.Acceptable(policy, spec) && Mirrors(spec.nodes, ids, rows, edges)
    requires start in PendingNames(rows, ids)
    requires forall n :: n in ids ==> !NodeActive(rows, ids[n])
    ensures exists n :: n in ids && (NodeReady(rows, edges, ids[n]) || NodeBlocked(rows, edges, ids[n]))
  {
    var nodes := W.NodesById(spec.nodes);
    NodeIdsAreKnown(spec.nodes);
    assert W.IsChain(nodes, [start]);
    var lowest := LowestPending(nodes, spec.limits.maxDepth, PendingNames(rows, ids), [start]);
    LowestNodeMoves(spec, ids, rows, edges, lowest);
  }

  /**
    While the monitor calls a run undecided, some node is being worked on or some
    queued node is released for dispatch.
   */
  lemma UndecidedRunMoves(policy: W.Policy, spec: W.Spec, ids: map<NodeId, Id>, rows: Rows, edges: Edges)
    requires W.Acceptable(policy, spec) && Mirrors(spec.nodes, ids, rows, edges)
    requires Verdict(rows, edges, ids.Values).None?
    ensures exists n :: n in ids && (NodeActive(rows, ids[n]) || NodeReady(rows, edges, ids[n]))
  {
    if forall n :: n in ids ==> !NodeActive(rows, ids[n]) {
      var id :| id in PendingNodes(rows, ids.Values);
      var start :| start in ids && ids[start] == id;
      SomeNodeMoves(policy, spec, ids, rows, edges, start);
      var n :| n in ids && (NodeReady(rows, edges, ids[n]) || NodeBlocked(rows, edges, ids[n]));
      assert ids[n] !in BlockedNodes(rows, edges, ids.Values);
    }
  }

  // ---- Over whole runs ----

  lemma {:induction false} MirrorSurvives(s: MergeProtocol.State, steps: seq<MergeProtocol.Step>,
                                          nodes: seq<W.Node>, ids: map<NodeId, Id>, edges: Edges)
    requires MergeProtocol.Inv(s) && Mirrors(nodes, ids, s.table.rows, edges)
    ensures Mirrors(nodes, ids, MergeProtocol.Run(s, steps).table.rows, edges)
    decreases |steps|
  {
    if steps != [] {
      var next := MergeProtocol.Next(s, steps[0]);
      forall n | n in ids ensures IsNodeTask(next.table.rows, ids[n]) {
        assert IsNodeTask(s.table.rows, ids[n]);
        MergeLaws.StepRespects(s, steps[0], ids[n]);
      }
      MergeProtocol.StepKeepsInv(s, steps[0]);
      MirrorSurvives(next, steps[1..], nodes, ids, edges);
    }
  }

  /**
    A run written from an accepted definition is never stuck: after every
    interleaving of claims, settlements, reviews, merges and user requests it is
    decided, or someone is at work on it, or one of its tasks can be dispatched.
   */
  lemma RunIsNeverStuck(policy: W.Policy, spec: W.Spec, ids: map<NodeId, Id>, edges: Edges,
                        s: MergeProtocol.State, steps: seq<MergeProtocol.Step>)
    requires W.Acceptable(policy, spec) && Mirrors(spec.nodes, ids, s.table.rows, edges) && MergeProtocol.Inv(s)
    ensures var rows := MergeProtocol.Run(s, steps).table.rows;
            Verdict(rows, edges, ids.Values).None? ==>
              exists n :: n in ids && (NodeActive(rows, ids[n]) || NodeReady(rows, edges, ids[n]))
  {
    MirrorSurvives(s, steps, spec.nodes, ids, edges);
    var rows := MergeProtocol.Run(s, steps).table.rows;
    if Verdict(rows, edges, ids.Values).None? {
      UndecidedRunMoves(policy, spec, ids, rows, edges);
    }
  }

  /** Writing a run inserts no merge task and changes no row, so the delivery protocol goes on undisturbed. */
  lemma WrittenRunKeepsInv(
      spec: W.Spec, project: Id, run: Id, now: int, s: MergeProtocol.State, edges: Edges,
      after: Rows, last: Id, afterEdges: Edges, ids: map<NodeId, Id>)
    requires MergeProtocol.Inv(s)
    requires RunWritten(spec, project, run, now, s.table.rows, s.table.lastId, edges, after, last, afterEdges, ids)
    ensures MergeProtocol.Inv(MergeProtocol.State(Table(after, last), s.intents))
  {
    var rows := s.table.rows;
    forall x | x in after && x !in rows ensures after[x].mergeOf.None? && after[x].revision == 1 {
      var n :| n in ids && ids[n] == x;
      NewRowIsNodeTask(spec, project, run, now, ids, after, n);
    }
    forall id: Id ensures MergeTasks(after, id) == MergeTasks(rows, id) {
    }
    forall m | m in after ensures MergeProtocol.MergeTaskIsSound(after, m) {
      if m in rows { assert MergeProtocol.MergeTaskIsSound(rows, m); }
    }
    forall i | i in s.intents ensures MergeProtocol.IntentIsSound(after, i) {
      assert MergeProtocol.IntentIsSound(rows, i);
      assert HasMerge(after, i.id) == HasMerge(rows, i.id);
    }
  }

  lemma NewRowIsNodeTask(
      spec: W.Spec, project: Id, run: Id, now: int, ids: map<NodeId, Id>, after: Rows, n: NodeId)
    requires n in ids && ids.Keys == NodeIds(spec.nodes)
    requires NodesWritten(spec.nodes, |spec.nodes|, ids, after, project, run, spec.limits.maxConcurrency > 1, now)
    ensures ids[n] in after && after[ids[n]].mergeOf.None? && after[ids[n]].revision == 1
  {
    assert n in NodeIds(spec.nodes);
    var i :| 0 <= i < |spec.nodes| && spec.nodes[i].id == n;
  }

  /** From an accepted definition to a run that is never stuck, whatever was going on when it was written. */
  lemma InstantiatedRunIsNeverStuck(
      policy: W.Policy, spec: W.Spec, project: Id, run: Id, now: int, s: MergeProtocol.State, edges: Edges,
      after: Rows, last: Id, afterEdges: Edges, ids: map<NodeId, Id>, steps: seq<MergeProtocol.Step>)
    requires W.Acceptable(policy, spec) && MergeProtocol.Inv(s)
    requires RunWritten(spec, project, run, now, s.table.rows, s.table.lastId, edges, after, last, afterEdges, ids)
    ensures var rows := MergeProtocol.Run(MergeProtocol.State(Table(after, last), s.intents), steps).table.rows;
            Verdict(rows, afterEdges, ids.Values).None? ==>
              exists n :: n in ids && (NodeActive(rows, ids[n]) || NodeReady(rows, afterEdges, ids[n]))
  {
    WrittenRunKeepsInv(spec, project, run, now, s, edges, after, last, afterEdges, ids);
    RunIsNeverStuck(policy, spec, ids, afterEdges, MergeProtocol.State(Table(after, last), s.intents), steps);
  }
}
