/**
  A workflow run: the transaction that turns a definition into tasks and edges,
  the monitor that settles it, and the proof that a run is never stuck.
 */
module WorkflowRuns {
  import opened Wrappers
  import opened Digraph
  import opened Sequences
  import opened Tasks
  import opened Delivery
  import opened DependencyGraph
  import TaskCreation
  import W = WorkflowPolicy

  // ---- How a run mirrors its definition ----

  function OnFailureOf(node: W.Node): OnFailure {
    if node.failurePolicy == "continue" then Continue else Block
  }

  function NodeIds(nodes: seq<W.Node>): (ids: set<NodeId>) {
    set i | 0 <= i < |nodes| :: nodes[i].id
  }

  ghost predicate Injective(ids: map<NodeId, Id>) {
    forall a, b :: a in ids && b in ids && ids[a] == ids[b] ==> a == b
  }

  /** A node's task waits through workflow edges only. */
  ghost predicate IsNodeTask(rows: Rows, id: Id) {
    && id in rows
    && rows[id].mergeOf.None? && rows[id].dependsOn.None? && rows[id].mode.Independent?
    && !rows[id].status.OtherStatus?
  }

  /** The edges of the node's task are its dependencies, each with the node's failure policy. */
  ghost predicate EdgesMirror(node: W.Node, ids: map<NodeId, Id>, edges: Edges)
    requires node.id in ids
  {
    var e := EdgesOf(edges, ids[node.id]);
    && (forall d :: d in node.dependsOn ==> d in ids && ids[d] in e)
    && (forall x :: x in e ==> (e[x].Continue? <==> node.failurePolicy == "continue"))
    && forall x :: x in e ==> exists d :: d in node.dependsOn && d in ids && ids[d] == x
  }

  ghost predicate Mirrors(nodes: seq<W.Node>, ids: map<NodeId, Id>, rows: Rows, edges: Edges) {
    && ids.Keys == NodeIds(nodes)
    && Injective(ids)
    && (forall n :: n in ids ==> IsNodeTask(rows, ids[n]))
    && forall i :: 0 <= i < |nodes| ==> nodes[i].id in ids && EdgesMirror(nodes[i], ids, edges)
  }

  // ---- Instantiation ----

  datatype RunError = DefinitionChanged | ProjectUnavailable | MissingNode(id: NodeId) | EdgeRejected(id: NodeId)

  function NodeTask(node: W.Node, project: Id, run: Id, concurrent: bool, order: int, now: int): Task {
    Task(OrdinaryTask, Queued, if node.permission == "review" then Review else Full, concurrent, Some(node.role),
         Some(project), None, None, Independent, node.failurePolicy == "stop", None, false, None, Some(run), "", "",
         order, now, 1)
  }

  lemma NodeIdsStep(nodes: seq<W.Node>, i: nat)
    requires i < |nodes|
    ensures NodeIds(nodes[..i + 1]) == NodeIds(nodes[..i]) + {nodes[i].id}
  {
    assert nodes[..i + 1] == nodes[..i] + [nodes[i]];
  }

  lemma NewNodeIsUnknown(nodes: seq<W.Node>, i: nat)
    requires W.DistinctIds(nodes) && i < |nodes|
    ensures nodes[i].id !in NodeIds(nodes[..i])
  {
    forall j | 0 <= j < i ensures nodes[..i][j].id != nodes[i].id {
      assert nodes[j].id != nodes[i].id;
    }
  }

  /** The tasks inserted so far, beside the rows that were there. */
  ghost predicate NodesStand(
      rows: Rows, lastId: Id, after: Rows, last: Id, ids: map<NodeId, Id>, known: set<NodeId>)
  {
    && KeysIssued(after, last) && lastId <= last
    && (forall x :: x in rows ==> x in after && after[x] == rows[x])
    && ids.Keys == known && Injective(ids)
    && forall n :: n in ids ==> lastId < ids[n] <= last && IsNodeTask(after, ids[n])
  }

  lemma OneMoreNodeTask(
      rows: Rows, lastId: Id, after: Rows, last: Id, ids: map<NodeId, Id>, known: set<NodeId>,
      node: W.Node, project: Id, run: Id, concurrent: bool, order: int, now: int)
    requires KeysIssued(rows, lastId) && NodesStand(rows, lastId, after, last, ids, known)
    ensures NodesStand(rows, lastId,
      after[last + 1 := NodeTask(node, project, run, concurrent, order, now)], last + 1,
      ids[node.id := last + 1], known + {node.id})
  {
    var row := NodeTask(node, project, run, concurrent, order, now);
    forall n | n in ids ensures IsNodeTask(after[last + 1 := row], ids[n]) {
      assert ids[n] != last + 1;
    }
  }

  lemma OneMoreValue(ids: map<NodeId, Id>, node: NodeId, id: Id)
    requires node !in ids
    ensures ids[node := id].Values == ids.Values + {id}
  {
    var after := ids[node := id];
    forall x | x in ids.Values + {id} ensures x in after.Values {
      if x == id {
        assert after[node] == x;
      } else {
        var n :| n in ids && ids[n] == x;
        assert after[n] == x;
      }
    }
  }

  /** The new rows are exactly the named ones. */
  ghost predicate AddsExactly(rows: Rows, after: Rows, ids: map<NodeId, Id>) {
    after.Keys == rows.Keys + ids.Values
  }

  lemma AddsOneMore(rows: Rows, after: Rows, ids: map<NodeId, Id>, node: NodeId, id: Id, row: Task)
    requires AddsExactly(rows, after, ids) && node !in ids
    ensures AddsExactly(rows, after[id := row], ids[node := id])
  {
    OneMoreValue(ids, node, id);
  }

  /** The row is what the node's definition asks for: queued, serial or not as the run says, waiting through edges only. */
  ghost predicate IsTaskOf(row: Task, node: W.Node, project: Id, run: Id, concurrent: bool, now: int) {
    && row.kind.OrdinaryTask? && row.status.Queued? && row.concurrent == concurrent
    && (row.perm.Review? <==> node.permission == "review")
    && row.role == Some(node.role) && row.project == Some(project) && row.run == Some(run)
    && (row.blockOnFailure <==> node.failurePolicy == "stop")
    && row.mode.Independent? && row.dependsOn.None? && row.mergeOf.None? && !row.mergeSkipped
    && row.parent.None? && row.session.None? && row.resumeOf.None? && row.parentSession.None? && row.parentTask.None?
    && row.worktreeBranch == "" && row.cron == "" && row.createdAt == now && row.revision == 1
  }

  /** The rows of the first `k` nodes are as their definition asks. */
  ghost predicate NodesWritten(
      nodes: seq<W.Node>, k: nat, ids: map<NodeId, Id>, rows: Rows, project: Id, run: Id, concurrent: bool, now: int)
    requires k <= |nodes|
  {
    forall i :: 0 <= i < k ==>
      && nodes[i].id in ids && ids[nodes[i].id] in rows
      && IsTaskOf(rows[ids[nodes[i].id]], nodes[i], project, run, concurrent, now)
  }

  /** The tasks of the first `k` nodes queue up one behind the other, from slot `base` on. */
  ghost predicate SlotsInOrder(nodes: seq<W.Node>, k: nat, ids: map<NodeId, Id>, rows: Rows, base: int)
    requires k <= |nodes|
  {
    forall i :: 0 <= i < k ==>
      nodes[i].id in ids && ids[nodes[i].id] in rows && rows[ids[nodes[i].id]].sortOrder == base + i
  }

  lemma OneMoreSlot(nodes: seq<W.Node>, k: nat, ids: map<NodeId, Id>, rows: Rows, last: Id, base: int, row: Task)
    requires k < |nodes| && W.DistinctIds(nodes) && KeysIssued(rows, last)
    requires SlotsInOrder(nodes, k, ids, rows, base) && row.sortOrder == base + k
    ensures SlotsInOrder(nodes, k + 1, ids[nodes[k].id := last + 1], rows[last + 1 := row], base)
  {
    forall i | 0 <= i < k ensures nodes[i].id != nodes[k].id && ids[nodes[i].id] != last + 1 {
    }
  }

  lemma NextSlotIsUnique(rows: Rows, project: Id, a: int, b: int)
    requires TaskCreation.IsNextSlot(rows, project, a) && TaskCreation.IsNextSlot(rows, project, b)
    ensures a == b
  {
  }

  lemma OneMoreNodeWritten(
      nodes: seq<W.Node>, k: nat, ids: map<NodeId, Id>, rows: Rows, last: Id,
      project: Id, run: Id, concurrent: bool, order: int, now: int)
    requires k < |nodes| && W.DistinctIds(nodes) && KeysIssued(rows, last)
    requires NodesWritten(nodes, k, ids, rows, project, run, concurrent, now)
    ensures NodesWritten(nodes, k + 1, ids[nodes[k].id := last + 1],
      rows[last + 1 := NodeTask(nodes[k], project, run, concurrent, order, now)], project, run, concurrent, now)
  {
    forall i | 0 <= i < k ensures nodes[i].id != nodes[k].id && ids[nodes[i].id] != last + 1 {
    }
  }

  ghost predicate KeysInOrder(nodes: seq<W.Node>, k: nat, ids: map<NodeId, Id>, first: Id)
    requires k <= |nodes|
  {
    forall i :: 0 <= i < k ==> nodes[i].id in ids && ids[nodes[i].id] == first + i
  }

  lemma OneMoreKey(nodes: seq<W.Node>, k: nat, ids: map<NodeId, Id>, first: Id)
    requires k < |nodes| && W.DistinctIds(nodes) && KeysInOrder(nodes, k, ids, first)
    ensures KeysInOrder(nodes, k + 1, ids[nodes[k].id := first + k], first)
  {
  }

  /** The tasks of the first `k` nodes stand in the table under fresh, ascending keys; nothing else is new. */
  ghost predicate TasksInserted(
      nodes: seq<W.Node>, k: nat, rows: Rows, lastId: Id, project: Id, run: Id, concurrent: bool, now: int,
      after: Rows, last: Id, ids: map<NodeId, Id>, base: int)
    requires k <= |nodes|
  {
    && SlotsInOrder(nodes, k, ids, after, base)
    && NodesStand(rows, lastId, after, last, ids, NodeIds(nodes[..k]))
    && NodesWritten(nodes, k, ids, after, project, run, concurrent, now)
    && AddsExactly(rows, after, ids)
    && last == lastId + k && KeysInOrder(nodes, k, ids, lastId + 1)
  }

  lemma OneMoreTaskInserted(
      nodes: seq<W.Node>, k: nat, rows: Rows, lastId: Id, project: Id, run: Id, concurrent: bool, now: int,
      after: Rows, last: Id, ids: map<NodeId, Id>, base: int, order: int)
    requires KeysIssued(rows, lastId) && W.DistinctIds(nodes) && k < |nodes|
    requires TasksInserted(nodes, k, rows, lastId, project, run, concurrent, now, after, last, ids, base)
    requires order == base + k
    ensures TasksInserted(nodes, k + 1, rows, lastId, project, run, concurrent, now,
      after[last + 1 := NodeTask(nodes[k], project, run, concurrent, order, now)], last + 1,
      ids[nodes[k].id := last + 1], base)
  {
    OneMoreSlot(nodes, k, ids, after, last, base, NodeTask(nodes[k], project, run, concurrent, order, now));
    NodeIdsStep(nodes, k);
    NewNodeIsUnknown(nodes, k);
    OneMoreNodeTask(rows, lastId, after, last, ids, NodeIds(nodes[..k]),
      nodes[k], project, run, concurrent, order, now);
    OneMoreNodeWritten(nodes, k, ids, after, last, project, run, concurrent, order, now);
    AddsOneMore(rows, after, ids, nodes[k].id, last + 1, NodeTask(nodes[k], project, run, concurrent, order, now));
    OneMoreKey(nodes, k, ids, lastId + 1);
  }

  lemma NoTaskInserted(nodes: seq<W.Node>, rows: Rows, lastId: Id, project: Id, run: Id, concurrent: bool, now: int, base: int)
    requires KeysIssued(rows, lastId)
    ensures TasksInserted(nodes, 0, rows, lastId, project, run, concurrent, now, rows, lastId, map[], base)
  {
  }

  /** The next free slot lies behind the tasks inserted so far. */
  lemma SlotsGoOn(
      nodes: seq<W.Node>, k: nat, rows: Rows, lastId: Id, project: Id, run: Id, concurrent: bool, now: int,
      after: Rows, last: Id, ids: map<NodeId, Id>, base: int)
    requires k <= |nodes| && TaskCreation.IsNextSlot(rows, project, base)
    requires TasksInserted(nodes, k, rows, lastId, project, run, concurrent, now, after, last, ids, base)
    ensures TaskCreation.IsNextSlot(after, project, base + k)
  {
    forall id | id in after && InProject(after, project, id) ensures after[id].sortOrder < base + k {
      if id in rows {
        assert InProject(rows, project, id);
      } else {
        var n :| n in ids && ids[n] == id;
        assert n in NodeIds(nodes[..k]);
        var i :| 0 <= i < k && nodes[..k][i].id == n;
      }
    }
    if k > 0 {
      var id := ids[nodes[k - 1].id];
      assert InProject(after, project, id) && after[id].sortOrder == base + k - 1;
    } else if base > 1 {
      var id :| id in rows && InProject(rows, project, id) && rows[id].sortOrder == base - 1;
      assert InProject(after, project, id);
    }
  }

  /** One node's task, in the next free slot. */
  method InsertNodeTask(
      nodes: seq<W.Node>, k: nat, ghost rows: Rows, ghost lastId: Id, project: Id, run: Id, concurrent: bool, now: int,
      before: Rows, last: Id, ids: map<NodeId, Id>, ghost base: int)
    returns (after: Rows, more: map<NodeId, Id>)
    requires KeysIssued(rows, lastId) && W.DistinctIds(nodes) && k < |nodes|
    requires TaskCreation.IsNextSlot(rows, project, base)
    requires TasksInserted(nodes, k, rows, lastId, project, run, concurrent, now, before, last, ids, base)
    ensures TasksInserted(nodes, k + 1, rows, lastId, project, run, concurrent, now, after, last + 1, more, base)
  {
    var order := TaskCreation.NextSlot(before, project);
    SlotsGoOn(nodes, k, rows, lastId, project, run, concurrent, now, before, last, ids, base);
    NextSlotIsUnique(before, project, order, base + k);
    OneMoreTaskInserted(nodes, k, rows, lastId, project, run, concurrent, now, before, last, ids, base, order);
    after := before[last + 1 := NodeTask(nodes[k], project, run, concurrent, order, now)];
    more := ids[nodes[k].id := last + 1];
  }

  /** `base` is the slot the first task gets. */
  method InsertNodeTasks(nodes: seq<W.Node>, rows: Rows, lastId: Id, project: Id, run: Id, concurrent: bool, now: int)
    returns (after: Rows, last: Id, ids: map<NodeId, Id>, ghost base: int)
    requires KeysIssued(rows, lastId) && W.DistinctIds(nodes)
    ensures TasksInserted(nodes, |nodes|, rows, lastId, project, run, concurrent, now, after, last, ids, base)
    ensures TaskCreation.IsNextSlot(rows, project, base)
  {
    after, last, ids := rows, lastId, map[];
    base := TaskCreation.NextSlot(rows, project);
    NoTaskInserted(nodes, rows, lastId, project, run, concurrent, now, base);
    for i := 0 to |nodes|
      invariant TasksInserted(nodes, i, rows, lastId, project, run, concurrent, now, after, last, ids, base)
    {
      after, ids := InsertNodeTask(nodes, i, rows, lastId, project, run, concurrent, now, after, last, ids, base);
      last := last + 1;
    }
  }

  /** The table refuses a second row for one pair, and an edge from a task to itself. */
  method InsertNodeEdges(node: W.Node, ids: map<NodeId, Id>) returns (r: Result<map<Id, OnFailure>, RunError>)
    requires node.id in ids && Injective(ids)
    ensures r.Success? ==>
              && (forall d :: d in node.dependsOn ==> d in ids && ids[d] in r.value)
              && (forall x :: x in r.value ==> (r.value[x].Continue? <==> node.failurePolicy == "continue"))
              && (forall x :: x in r.value ==> exists d :: d in node.dependsOn && d in ids && ids[d] == x)
    ensures (forall i :: 0 <= i < |node.dependsOn| ==> node.dependsOn[i] in ids && node.dependsOn[i] != node.id)
            && (forall i, j :: 0 <= i < j < |node.dependsOn| ==> node.dependsOn[i] != node.dependsOn[j])
            ==> r.Success?
  {
    var out: map<Id, OnFailure> := map[];
    var deps := node.dependsOn;
    for i := 0 to |deps|
      invariant forall k :: 0 <= k < i ==> deps[k] in ids && ids[deps[k]] in out
      invariant forall x :: x in out ==> (out[x].Continue? <==> node.failurePolicy == "continue")
      invariant forall x :: x in out ==> exists k :: 0 <= k < i && deps[k] in ids && ids[deps[k]] == x
    {
      if deps[i] !in ids { return Failure(MissingNode(deps[i])); }
      var source := ids[deps[i]];
      if source == ids[node.id] || source in out { return Failure(EdgeRejected(deps[i])); }
      out := out[source := OnFailureOf(node)];
    }
    return Success(out);
  }

  /** What a definition must satisfy for its run to be written without an error. */
  ghost predicate Writable(nodes: seq<W.Node>) {
    W.DistinctIds(nodes) && forall i :: 0 <= i < |nodes| ==> W.DependenciesAllowed(W.NodesById(nodes), nodes[i])
  }

  lemma NodeIdsAreKnown(nodes: seq<W.Node>)
    ensures W.NodesById(nodes).Keys == NodeIds(nodes)
  {
  }

  lemma OtherNodesKeepMirror(node: W.Node, ids: map<NodeId, Id>, edges: Edges, other: Id, e: map<Id, OnFailure>)
    requires node.id in ids && ids[node.id] != other && EdgesMirror(node, ids, edges)
    ensures EdgesMirror(node, ids, edges[other := e])
  {
    assert EdgesOf(edges[other := e], ids[node.id]) == EdgesOf(edges, ids[node.id]);
  }

  lemma WritableNode(nodes: seq<W.Node>, ids: map<NodeId, Id>, i: nat)
    requires Writable(nodes) && ids.Keys == NodeIds(nodes) && i < |nodes|
    ensures forall k :: 0 <= k < |nodes[i].dependsOn| ==> nodes[i].dependsOn[k] in ids && nodes[i].dependsOn[k] != nodes[i].id
    ensures forall j, k :: 0 <= j < k < |nodes[i].dependsOn| ==> nodes[i].dependsOn[j] != nodes[i].dependsOn[k]
  {
    NodeIdsAreKnown(nodes);
    assert W.DependenciesAllowed(W.NodesById(nodes), nodes[i]);
  }

  /** New edges belong to the tasks in `added`; the others stay. */
  ghost predicate EdgesGrow(before: Edges, edges: Edges, added: set<Id>) {
    && (forall x :: x in before ==> x in edges && edges[x] == before[x])
    && edges.Keys <= before.Keys + added
  }

  /** The edges of the first `k` nodes stand, beside those that were there. */
  ghost predicate EdgesStand(nodes: seq<W.Node>, ids: map<NodeId, Id>, before: Edges, edges: Edges, k: nat)
    requires k <= |nodes| && forall i :: 0 <= i < |nodes| ==> nodes[i].id in ids
  {
    && (forall i :: 0 <= i < k ==> EdgesMirror(nodes[i], ids, edges))
    && EdgesGrow(before, edges, ids.Values)
  }

  lemma OneMoreNodeStands(
      nodes: seq<W.Node>, ids: map<NodeId, Id>, before: Edges, edges: Edges, k: nat, e: map<Id, OnFailure>)
    requires k < |nodes| && W.DistinctIds(nodes) && Injective(ids)
    requires forall i :: 0 <= i < |nodes| ==> nodes[i].id in ids
    requires ids[nodes[k].id] !in before && EdgesStand(nodes, ids, before, edges, k)
    requires EdgesMirror(nodes[k], ids, edges[ids[nodes[k].id] := e])
    ensures EdgesStand(nodes, ids, before, edges[ids[nodes[k].id] := e], k + 1)
  {
    forall i | 0 <= i < k ensures EdgesMirror(nodes[i], ids, edges[ids[nodes[k].id] := e]) {
      assert nodes[i].id != nodes[k].id;
      OtherNodesKeepMirror(nodes[i], ids, edges, ids[nodes[k].id], e);
    }
  }

  lemma AllNodesAreKnown(nodes: seq<W.Node>, ids: map<NodeId, Id>)
    requires ids.Keys == NodeIds(nodes)
    ensures forall i :: 0 <= i < |nodes| ==> nodes[i].id in ids
  {
    forall i | 0 <= i < |nodes| ensures nodes[i].id in ids {
      assert nodes[i].id in NodeIds(nodes);
    }
  }

  method InsertRunEdges(nodes: seq<W.Node>, ids: map<NodeId, Id>, edges: Edges) returns (r: Result<Edges, RunError>)
    requires ids.Keys == NodeIds(nodes) && Injective(ids) && W.DistinctIds(nodes)
    requires forall n :: n in ids ==> ids[n] !in edges
    ensures r.Success? ==> forall i :: 0 <= i < |nodes| ==> nodes[i].id in ids && EdgesMirror(nodes[i], ids, r.value)
    ensures r.Success? ==> EdgesGrow(edges, r.value, ids.Values)
    ensures Writable(nodes) ==> r.Success?
  {
    AllNodesAreKnown(nodes, ids);
    var out: Edges := edges;
    for i := 0 to |nodes|
      invariant EdgesStand(nodes, ids, edges, out, i)
    {
      if Writable(nodes) { WritableNode(nodes, ids, i); }
      var e := InsertNodeEdges(nodes[i], ids);
      if e.Failure? { return Failure(e.error); }
      assert EdgesOf(out[ids[nodes[i].id] := e.value], ids[nodes[i].id]) == e.value;
      OneMoreNodeStands(nodes, ids, edges, out, i, e.value);
      out := out[ids[nodes[i].id] := e.value];
    }
    return Success(out);
  }

  // ---- Nodes in the order of their ids ----

  predicate Before(a: NodeId, b: NodeId) {
    b != "" && (a == "" || a[0] < b[0] || (a[0] == b[0] && Before(a[1..], b[1..])))
  }

  /** Ids go by the first character in which they differ, a prefix before what it begins. */
  lemma {:induction false} BeforeExactly(a: NodeId, b: NodeId)
    ensures Before(a, b) <==>
            exists k: nat :: k <= |a| && k < |b| && a[..k] == b[..k] && (k == |a| || a[k] < b[k])
  {
    if a != "" && b != "" {
      BeforeExactly(a[1..], b[1..]);
      if k: nat :| k <= |a[1..]| && k < |b[1..]| && a[1..][..k] == b[1..][..k] && (k == |a[1..]| || a[1..][k] < b[1..][k]) {
        if a[0] == b[0] {
          assert a[..k + 1] == [a[0]] + a[1..][..k] && b[..k + 1] == [b[0]] + b[1..][..k];
          assert k + 1 <= |a|;
        }
      }
      if k: nat :| k <= |a| && k < |b| && a[..k] == b[..k] && (k == |a| || a[k] < b[k]) {
        if k > 0 {
          assert a[0] == a[..k][0] == b[..k][0] == b[0];
          assert a[1..][..k - 1] == a[..k][1..] && b[1..][..k - 1] == b[..k][1..];
        }
      }
      if a[0] < b[0] { assert a[..0] == b[..0]; }
    } else if b != "" {
      assert a[..0] == b[..0];
    }
  }

  lemma {:induction false} BeforeIsTotal(a: NodeId, b: NodeId)
    ensures Before(a, b) || a == b || Before(b, a)
    decreases |a|
  {
    if a != "" && b != "" && a[0] == b[0] {
      BeforeIsTotal(a[1..], b[1..]);
      assert a == [a[0]] + a[1..] && b == [b[0]] + b[1..];
    }
  }

  lemma {:induction false} BeforeIsTransitive(a: NodeId, b: NodeId, c: NodeId)
    requires Before(a, b) && Before(b, c)
    ensures Before(a, c)
    decreases |a|
  {
    if a != "" && a[0] == b[0] && b[0] == c[0] {
      BeforeIsTransitive(a[1..], b[1..], c[1..]);
    }
  }

  ghost predicate InIdOrder(nodes: seq<W.Node>) {
    forall i, j :: 0 <= i < j < |nodes| ==> Before(nodes[i].id, nodes[j].id)
  }

  ghost predicate SameNodes(a: seq<W.Node>, b: seq<W.Node>) {
    forall n :: n in a <==> n in b
  }

  lemma SplitsIdOrder(nodes: seq<W.Node>, node: W.Node, k: nat)
    requires InIdOrder(nodes) && k <= |nodes|
    requires k > 0 ==> Before(nodes[k - 1].id, node.id)
    requires k < |nodes| ==> Before(node.id, nodes[k].id)
    ensures InIdOrder(nodes[..k] + [node] + nodes[k..])
  {
    forall i | 0 <= i < k ensures Before(nodes[i].id, node.id) {
      if i < k - 1 { BeforeIsTransitive(nodes[i].id, nodes[k - 1].id, node.id); }
    }
    forall j | k <= j < |nodes| ensures Before(node.id, nodes[j].id) {
      if k < j { BeforeIsTransitive(node.id, nodes[k].id, nodes[j].id); }
    }
  }

  method InsertById(nodes: seq<W.Node>, node: W.Node) returns (longer: seq<W.Node>)
    requires InIdOrder(nodes) && forall n :: n in nodes ==> n.id != node.id
    ensures InIdOrder(longer) && |longer| == |nodes| + 1
    ensures forall n :: n in longer <==> n in nodes || n == node
  {
    var k := |nodes|;
    while k > 0 && Before(node.id, nodes[k - 1].id)
      invariant 0 <= k <= |nodes| && (k < |nodes| ==> Before(node.id, nodes[k].id))
    {
      k := k - 1;
    }
    if k > 0 {
      assert nodes[k - 1] in nodes;
      BeforeIsTotal(node.id, nodes[k - 1].id);
    }
    SplitsIdOrder(nodes, node, k);
    assert nodes == nodes[..k] + nodes[k..];
    longer := nodes[..k] + [node] + nodes[k..];
  }

  method SortNodes(nodes: seq<W.Node>) returns (sorted: seq<W.Node>)
    requires W.DistinctIds(nodes)
    ensures InIdOrder(sorted) && |sorted| == |nodes| && SameNodes(sorted, nodes)
  {
    sorted := [];
    for i := 0 to |nodes|
      invariant InIdOrder(sorted) && |sorted| == i && SameNodes(sorted, nodes[..i])
    {
      assert nodes[..i + 1] == nodes[..i] + [nodes[i]];
      forall n | n in sorted ensures n.id != nodes[i].id {
        assert n in nodes[..i];
      }
      sorted := InsertById(sorted, nodes[i]);
    }
    assert nodes[..|nodes|] == nodes;
  }

  lemma {:induction false} NeverBeforeItself(a: NodeId)
    ensures !Before(a, a)
    decreases |a|
  {
    if a != "" { NeverBeforeItself(a[1..]); }
  }

  lemma IdOrderIsDistinct(nodes: seq<W.Node>)
    requires InIdOrder(nodes)
    ensures W.DistinctIds(nodes)
  {
    forall i, j | 0 <= i < j < |nodes| ensures nodes[i].id != nodes[j].id {
      NeverBeforeItself(nodes[i].id);
    }
  }

  lemma SameNodesSameIds(a: seq<W.Node>, b: seq<W.Node>)
    requires SameNodes(a, b)
    ensures NodeIds(a) == NodeIds(b)
  {
    forall id ensures id in NodeIds(a) <==> id in NodeIds(b) {
      if id in NodeIds(a) {
        var i :| 0 <= i < |a| && a[i].id == id;
        assert a[i] in b;
      }
      if id in NodeIds(b) {
        var i :| 0 <= i < |b| && b[i].id == id;
        assert b[i] in a;
      }
    }
  }

  lemma SortedIsWritable(a: seq<W.Node>, b: seq<W.Node>)
    requires SameNodes(a, b) && W.DistinctIds(b) && Writable(a)
    ensures Writable(b)
  {
    SameNodesSameIds(a, b);
    NodeIdsAreKnown(a);
    NodeIdsAreKnown(b);
    forall i | 0 <= i < |b| ensures W.DependenciesAllowed(W.NodesById(b), b[i]) {
      assert b[i] in a;
      var j :| 0 <= j < |a| && a[j] == b[i];
      assert W.DependenciesAllowed(W.NodesById(a), a[j]);
    }
  }

  lemma SameNodesWritten(a: seq<W.Node>, b: seq<W.Node>, ids: map<NodeId, Id>, rows: Rows, project: Id, run: Id,
                         concurrent: bool, now: int)
    requires SameNodes(a, b) && NodesWritten(a, |a|, ids, rows, project, run, concurrent, now)
    ensures NodesWritten(b, |b|, ids, rows, project, run, concurrent, now)
  {
    forall i | 0 <= i < |b| ensures exists j :: 0 <= j < |a| && a[j] == b[i] {
      assert b[i] in a;
    }
  }

  lemma SameNodesMirror(a: seq<W.Node>, b: seq<W.Node>, ids: map<NodeId, Id>, rows: Rows, edges: Edges)
    requires SameNodes(a, b) && Mirrors(a, ids, rows, edges)
    ensures Mirrors(b, ids, rows, edges)
  {
    SameNodesSameIds(a, b);
    forall i | 0 <= i < |b| ensures b[i].id in ids && EdgesMirror(b[i], ids, edges) {
      assert b[i] in a;
      var j :| 0 <= j < |a| && a[j] == b[i];
    }
  }

  /** Task keys follow the node ids. */
  ghost predicate KeysFollowIds(ids: map<NodeId, Id>) {
    forall m, n :: m in ids && n in ids && Before(m, n) ==> ids[m] < ids[n]
  }

  lemma AscendingKeysFollowIds(nodes: seq<W.Node>, ids: map<NodeId, Id>, first: Id)
    requires InIdOrder(nodes) && ids.Keys == NodeIds(nodes)
    requires KeysInOrder(nodes, |nodes|, ids, first)
    ensures KeysFollowIds(ids)
  {
    forall m, n | m in ids && n in ids && Before(m, n) ensures ids[m] < ids[n] {
      assert m in NodeIds(nodes) && n in NodeIds(nodes);
      var i :| 0 <= i < |nodes| && nodes[i].id == m;
      var j :| 0 <= j < |nodes| && nodes[j].id == n;
      NeverBeforeItself(m);
      if j < i {
        BeforeIsTransitive(m, n, m);
      }
    }
  }

  /** Slots follow the node ids too, behind the slots the project had in use. */
  ghost predicate SlotsFollowIds(ids: map<NodeId, Id>, rows: Rows, after: Rows, project: Id) {
    && (forall n :: n in ids ==> ids[n] in after)
    && (forall m, n :: m in ids && n in ids && Before(m, n) ==> after[ids[m]].sortOrder < after[ids[n]].sortOrder)
    && forall n, x :: n in ids && x in rows && InProject(rows, project, x) ==> rows[x].sortOrder < after[ids[n]].sortOrder
  }

  lemma AscendingSlotsFollowIds(nodes: seq<W.Node>, ids: map<NodeId, Id>, rows: Rows, after: Rows, project: Id, base: int)
    requires InIdOrder(nodes) && ids.Keys == NodeIds(nodes)
    requires TaskCreation.IsNextSlot(rows, project, base) && SlotsInOrder(nodes, |nodes|, ids, after, base)
    ensures SlotsFollowIds(ids, rows, after, project)
  {
    forall n | n in ids ensures ids[n] in after && base <= after[ids[n]].sortOrder {
      assert n in NodeIds(nodes);
      var i :| 0 <= i < |nodes| && nodes[i].id == n;
    }
    forall m, n | m in ids && n in ids && Before(m, n) ensures after[ids[m]].sortOrder < after[ids[n]].sortOrder {
      assert m in NodeIds(nodes) && n in NodeIds(nodes);
      var i :| 0 <= i < |nodes| && nodes[i].id == m;
      var j :| 0 <= j < |nodes| && nodes[j].id == n;
      NeverBeforeItself(m);
      if j < i { BeforeIsTransitive(m, n, m); }
    }
  }

  /** The tables after a run was written: the new rows and edges are those of its nodes, and mirror them. */
  ghost predicate RunWritten(
      spec: W.Spec, project: Id, run: Id, now: int, rows: Rows, lastId: Id, edges: Edges,
      after: Rows, last: Id, afterEdges: Edges, ids: map<NodeId, Id>)
  {
    && KeysIssued(after, last) && lastId <= last
    && AddsExactly(rows, after, ids)
    && (forall x :: x in rows ==> after[x] == rows[x])
    && (forall n :: n in ids ==> lastId < ids[n] <= last)
    && EdgesGrow(edges, afterEdges, ids.Values)
    && Mirrors(spec.nodes, ids, after, afterEdges)
    && NodesWritten(spec.nodes, |spec.nodes|, ids, after, project, run, spec.limits.maxConcurrency > 1, now)
    && KeysFollowIds(ids) && SlotsFollowIds(ids, rows, after, project)
  }

  /** The rows and edges of a run: tasks in the order of the node ids, then the edges between them. */
  method WriteRun(spec: W.Spec, rows: Rows, lastId: Id, edges: Edges, project: Id, run: Id, now: int)
    returns (after: Rows, last: Id, ids: map<NodeId, Id>, r: Result<Edges, RunError>)
    requires KeysIssued(rows, lastId) && W.DistinctIds(spec.nodes)
    requires forall x :: x in edges ==> x <= lastId
    ensures r.Success? ==> RunWritten(spec, project, run, now, rows, lastId, edges, after, last, r.value, ids)
    ensures Writable(spec.nodes) ==> r.Success?
  {
    var nodes := SortNodes(spec.nodes);
    IdOrderIsDistinct(nodes);
    if Writable(spec.nodes) { SortedIsWritable(spec.nodes, nodes); }
    ghost var base;
    after, last, ids, base := InsertNodeTasks(nodes, rows, lastId, project, run, spec.limits.maxConcurrency > 1, now);
    assert nodes[..|nodes|] == nodes;
    AscendingKeysFollowIds(nodes, ids, lastId + 1);
    AscendingSlotsFollowIds(nodes, ids, rows, after, project, base);
    SameNodesWritten(nodes, spec.nodes, ids, after, project, run, spec.limits.maxConcurrency > 1, now);
    r := InsertRunEdges(nodes, ids, edges);
    if r.Success? { SameNodesMirror(nodes, spec.nodes, ids, after, r.value); }
  }

  lemma WrittenKeysAreIssued(
      spec: W.Spec, project: Id, run: Id, now: int, rows: Rows, lastId: Id, edges: Edges,
      after: Rows, last: Id, afterEdges: Edges, ids: map<NodeId, Id>)
    requires RunWritten(spec, project, run, now, rows, lastId, edges, after, last, afterEdges, ids)
    requires forall x :: x in edges ==> x <= lastId
    ensures KeysIssued(after, last) && forall x :: x in afterEdges ==> x <= last
  {
  }

  /** The state of a workflow definition that passed validation. */
  const ADOPTED := OtherStatus("adopted")

  /** The definition is as the caller read it, and the project is there and not archived. */
  predicate MayInstantiate(rows: Rows, projects: set<Id>, archived: set<Id>, workflow: Id, expected: nat, project: Id) {
    && workflow in rows && rows[workflow].status == ADOPTED && rows[workflow].revision == expected
    && project in projects - archived
  }

  /** One transaction from a definition to its run; any error leaves the store untouched. */
  method InstantiateWorkflow(st: Store, workflow: Id, expected: nat, spec: W.Spec, project: Id, now: int)
    returns (r: Result<Id, RunError>)
    requires st.Valid() && W.DistinctIds(spec.nodes)
    modifies st`tasks, st`lastId, st`edges, st`runs, st`lastRunId
    ensures st.Valid()
    ensures r.Failure? ==> st.tasks == old(st.tasks) && st.edges == old(st.edges) && st.runs == old(st.runs)
    ensures r.Success? ==>
              && workflow in old(st.tasks) && old(st.tasks)[workflow].status == OtherStatus("adopted")
              && old(st.tasks)[workflow].revision == expected && project in st.projects && project !in st.archived
              && r.value !in old(st.runs) && r.value in st.runs
              && st.runs == old(st.runs)[r.value := st.runs[r.value]]
              && st.runs[r.value].status.RunRunning?
              && st.runs[r.value].workflow == workflow && st.runs[r.value].project == project
              && RunWritten(spec, project, r.value, now, old(st.tasks), old(st.lastId), old(st.edges),
                            st.tasks, st.lastId, st.edges, st.runs[r.value].taskIds)
    ensures MayInstantiate(old(st.tasks), st.projects, st.archived, workflow, expected, project) && Writable(spec.nodes)
            ==> r.Success?
  {
    if workflow !in st.tasks || st.tasks[workflow].status != ADOPTED || st.tasks[workflow].revision != expected {
      return Failure(DefinitionChanged);
    }
    if project !in st.projects || project in st.archived { return Failure(ProjectUnavailable); }
    var run := st.lastRunId + 1;
    var rows, last, ids, edges := WriteRun(spec, st.tasks, st.lastId, st.edges, project, run, now);
    if edges.Failure? { return Failure(edges.error); }
    WrittenKeysAreIssued(spec, project, run, now, st.tasks, st.lastId, st.edges, rows, last, edges.value, ids);
    st.tasks, st.lastId, st.edges, st.lastRunId := rows, last, edges.value, run;
    st.runs := st.runs[run := WorkflowRun(workflow, project, RunRunning, ids, 1)];
    return Success(run);
  }

  // ---- The monitor ----

  predicate NodePending(rows: Rows, id: Id) {
    id in rows && DeliveryOf(rows, id).Pending?
  }

  predicate NodeFailed(rows: Rows, id: Id) {
    id !in rows || DeliveryOf(rows, id).Undelivered?
  }

  predicate NodeBlocked(rows: Rows, edges: Edges, id: Id) {
    && NodePending(rows, id) && rows[id].status.Queued?
    && var check := CheckTaskDependency(rows, edges, id);
       check.Success? && check.value.blocked
  }

  predicate NodeReady(rows: Rows, edges: Edges, id: Id) {
    && NodePending(rows, id) && rows[id].status.Queued?
    && var check := CheckTaskDependency(rows, edges, id);
       check.Success? && check.value.ready
  }

  function PendingNodes(rows: Rows, nodes: set<Id>): set<Id> { set id | id in nodes && NodePending(rows, id) }

  function FailedNodes(rows: Rows, nodes: set<Id>): set<Id> { set id | id in nodes && NodeFailed(rows, id) }

  function BlockedNodes(rows: Rows, edges: Edges, nodes: set<Id>): set<Id> {
    set id | id in nodes && NodeBlocked(rows, edges, id)
  }

  /** The run's verdict over all its nodes; `None` while it is still under way. */
  function Verdict(rows: Rows, edges: Edges, nodes: set<Id>): (v: Option<RunStatus>) {
    if BlockedNodes(rows, edges, nodes) != {} then Some(RunFailed)
    else if PendingNodes(rows, nodes) != {} then None
    else if FailedNodes(rows, nodes) != {} then Some(RunFailed)
    else Some(RunSucceeded)
  }

  /** A node of the run is held up for good: it is queued and its dependencies block it. */
  ghost predicate HeldUp(rows: Rows, edges: Edges, id: Id) {
    && id in rows && rows[id].status.Queued?
    && CheckTaskDependency(rows, edges, id).Success? && CheckTaskDependency(rows, edges, id).value.blocked
  }

  /**
    A run succeeds exactly when all its nodes are delivered; it fails exactly when some
    node is held up, or none is pending and some node is gone or was not delivered.
   */
  ghost predicate Judges(rows: Rows, edges: Edges, nodes: set<Id>, verdict: Option<RunStatus>) {
    && (verdict == Some(RunSucceeded) <==> forall id :: id in nodes ==> id in rows && DeliveryOf(rows, id).Delivered?)
    && (verdict == Some(RunFailed) <==>
          || (exists id :: id in nodes && HeldUp(rows, edges, id))
          || ((forall id :: id in nodes && id in rows ==> !DeliveryOf(rows, id).Pending?)
              && exists id :: id in nodes && (id !in rows || DeliveryOf(rows, id).Undelivered?)))
    && (verdict.Some? ==> verdict.value.RunSucceeded? || verdict.value.RunFailed?)
  }

  lemma BlockedMeans(rows: Rows, edges: Edges, nodes: set<Id>)
    ensures BlockedNodes(rows, edges, nodes) != {} <==> exists id :: id in nodes && HeldUp(rows, edges, id)
  {
    forall id | id in nodes && HeldUp(rows, edges, id) ensures id in BlockedNodes(rows, edges, nodes) {
      assert rows[id].mergeOf.None?;
    }
    assert forall id :: id in BlockedNodes(rows, edges, nodes) ==> id in nodes && HeldUp(rows, edges, id);
  }

  lemma VerdictJudges(rows: Rows, edges: Edges, nodes: set<Id>)
    ensures Judges(rows, edges, nodes, Verdict(rows, edges, nodes))
  {
    BlockedMeans(rows, edges, nodes);
    assert forall id :: id in BlockedNodes(rows, edges, nodes) ==> NodePending(rows, id);
    assert forall id :: id in nodes && id in rows && DeliveryOf(rows, id).Pending? ==> id in PendingNodes(rows, nodes);
    assert forall id :: id in nodes && (id !in rows || DeliveryOf(rows, id).Undelivered?) ==> id in FailedNodes(rows, nodes);
  }

  lemma OneMoreNode(rows: Rows, edges: Edges, done: set<Id>, id: Id)
    ensures PendingNodes(rows, done + {id}) == PendingNodes(rows, done) + if NodePending(rows, id) then {id} else {}
    ensures FailedNodes(rows, done + {id}) == FailedNodes(rows, done) + if NodeFailed(rows, id) then {id} else {}
    ensures BlockedNodes(rows, edges, done + {id}) ==
            BlockedNodes(rows, edges, done) + if NodeBlocked(rows, edges, id) then {id} else {}
  {
  }

  method ExamineNode(rows: Rows, edges: Edges, id: Id) returns (pending: bool, failed: bool, blocked: bool)
    ensures pending == NodePending(rows, id)
    ensures failed == NodeFailed(rows, id)
    ensures blocked == NodeBlocked(rows, edges, id)
  {
    if id !in rows { return false, true, false; }
    var state := DeliveryOf(rows, id);
    if state.Pending? && rows[id].status.Queued? {
      var check := CheckTaskDependency(rows, edges, id);
      return true, false, check.Success? && check.value.blocked;
    }
    return state.Pending?, state.Undelivered?, false;
  }

  method ComputeRunStatus(rows: Rows, edges: Edges, nodes: set<Id>) returns (status: Option<RunStatus>, blocked: bool)
    ensures status == Verdict(rows, edges, nodes) && Judges(rows, edges, nodes, status)
    ensures blocked <==> BlockedNodes(rows, edges, nodes) != {}
  {
    var allTerminal, failed := true, false;
    blocked := false;
    var todo := nodes;
    ghost var done: set<Id> := {};
    while todo != {}
      invariant done + todo == nodes
      invariant blocked <==> BlockedNodes(rows, edges, done) != {}
      invariant allTerminal <==> PendingNodes(rows, done) == {}
      invariant failed <==> FailedNodes(rows, done) != {}
      decreases todo
    {
      var id := Least(todo);
      var isPending, isFailed, isBlocked := ExamineNode(rows, edges, id);
      OneMoreNode(rows, edges, done, id);
      allTerminal := allTerminal && !isPending;
      failed := failed || isFailed;
      blocked := blocked || isBlocked;
      todo, done := todo - {id}, done + {id};
    }
    assert done == nodes;
    VerdictJudges(rows, edges, nodes);
    if blocked { return Some(RunFailed), true; }
    if !allTerminal { return None, false; }
    if failed { return Some(RunFailed), false; }
    return Some(RunSucceeded), false;
  }

  /** Settles a run at most once: the guard asks for the revision and for a running run. */
  method FinishWorkflowRun(st: Store, run: Id, expected: nat, status: RunStatus) returns (ok: bool)
    requires st.Valid()
    modifies st`runs
    ensures st.Valid()
    ensures ok <==> !status.RunRunning? && run in old(st.runs)
                    && old(st.runs)[run].revision == expected && old(st.runs)[run].status.RunRunning?
    ensures st.runs == if ok then old(st.runs)[run := old(st.runs)[run].(status := status, revision := expected + 1)]
                       else old(st.runs)
  {
    if status.RunRunning? || run !in st.runs { return false; }
    var row := st.runs[run];
    if row.revision != expected || !row.status.RunRunning? { return false; }
    st.runs := st.runs[run := row.(status := status, revision := expected + 1)];
    return true;
  }

  method CancelQueued(rows: Rows, nodes: set<Id>) returns (after: Rows)
    ensures after.Keys == rows.Keys
    ensures forall id :: id in rows && id in nodes && rows[id].status.Queued? ==>
              after[id] == rows[id].(status := Cancelled, revision := rows[id].revision + 1)
    ensures forall id :: id in rows && !(id in nodes && rows[id].status.Queued?) ==> after[id] == rows[id]
  {
    after := rows;
    var todo := nodes;
    while todo != {}
      invariant todo <= nodes
      invariant after == map id | id in rows ::
                  if id in nodes && id !in todo && rows[id].status.Queued?
                  then rows[id].(status := Cancelled, revision := rows[id].revision + 1) else rows[id]
      decreases todo
    {
      var id :| id in todo;
      if id in after && after[id].status.Queued? {
        after := after[id := after[id].(status := Cancelled, revision := after[id].revision + 1)];
      }
      todo := todo - {id};
    }
  }

  /** One look of the monitor at one run. */
  method ReconcileRun(st: Store, run: Id)
    requires st.Valid() && run in st.runs && st.runs[run].status.RunRunning?
    modifies st`runs, st`tasks
    ensures st.Valid()
    ensures run in st.runs
    ensures var settled := if st.runs[run].status.RunRunning? then None else Some(st.runs[run].status);
            Judges(old(st.tasks), st.edges, old(st.runs)[run].taskIds.Values, settled)
    ensures var nodes := old(st.runs)[run].taskIds.Values;
            var verdict := Verdict(old(st.tasks), st.edges, nodes);
            && st.runs == (if verdict.None? then old(st.runs)
                           else old(st.runs)[run := old(st.runs)[run].(status := verdict.value,
                                                                       revision := old(st.runs)[run].revision + 1)])
    ensures st.tasks.Keys == old(st.tasks).Keys
    ensures var nodes := old(st.runs)[run].taskIds.Values;
            var blocked := exists id :: id in nodes && HeldUp(old(st.tasks), st.edges, id);
            forall id :: id in st.tasks ==>
              var row := old(st.tasks)[id];
              st.tasks[id] == if blocked && id in nodes && row.status.Queued?
                              then row.(status := Cancelled, revision := row.revision + 1) else row
  {
    var row := st.runs[run];
    var nodes := row.taskIds.Values;
    var status, blocked := ComputeRunStatus(st.tasks, st.edges, nodes);
    BlockedMeans(st.tasks, st.edges, nodes);
    if blocked {
      var rows := CancelQueued(st.tasks, nodes);
      st.tasks := rows;
    }
    if status.Some? {
      var ok := FinishWorkflowRun(st, run, row.revision, status.value);
    }
  }
}
