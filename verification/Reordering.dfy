/**
  Dragging the waiting tasks of a project into a new order.  The request must
  name every queued implementation task once; the queued tasks share out the
  slots they already held, and the automatic dependencies are chained again.
 */
module Reordering {
  import opened Wrappers
  import opened Digraph
  import opened Tasks
  import opened ProjectOrder
  import opened DependencyGraph

  datatype ReorderError = BadProject | NoSuchProject | Incomplete | NotTheQueuedTasks | ProjectWouldCycle

  // ---- The queued tasks of an order, and the slots they hold ----

  /** The queued tasks, in order. */
  function QueuedIn(rows: Rows, order: seq<Id>): (q: seq<Id>)
    requires forall id :: id in order ==> id in rows
    ensures forall id :: id in q <==> id in order && rows[id].status.Queued?
  {
    if order == [] then []
    else
      var last := order[|order| - 1];
      var rest := QueuedIn(rows, order[..|order| - 1]);
      if rows[last].status.Queued? then rest + [last] else rest
  }

  /** Their slots; a task that never got one uses its one-based place in the order. */
  function QueuedSlots(rows: Rows, order: seq<Id>): (s: seq<nat>)
    requires forall id :: id in order ==> id in rows
    ensures |s| == |QueuedIn(rows, order)|
    ensures forall i :: 0 <= i < |s| ==> s[i] > 0
  {
    if order == [] then []
    else
      var t := rows[order[|order| - 1]];
      var rest := QueuedSlots(rows, order[..|order| - 1]);
      if t.status.Queued? then rest + [if t.sortOrder > 0 then t.sortOrder else |order|] else rest
  }

  /** Each queued task holds the slot it was given, or its place in the order, counted from one, if it has none. */
  lemma {:induction false} SlotsAsHeld(rows: Rows, order: seq<Id>, k: nat) returns (i: nat)
    requires (forall id :: id in order ==> id in rows) && k < |QueuedIn(rows, order)|
    ensures i < |order| && order[i] == QueuedIn(rows, order)[k] && rows[order[i]].status.Queued?
    ensures k == |QueuedIn(rows, order[..i])|
    ensures QueuedSlots(rows, order)[k] == if rows[order[i]].sortOrder > 0 then rows[order[i]].sortOrder else i + 1
    decreases |order|
  {
    var n := |order| - 1;
    if k < |QueuedIn(rows, order[..n])| {
      i := SlotsAsHeld(rows, order[..n], k);
      assert order[..n][..i] == order[..i];
    } else {
      i := n;
    }
  }

  ghost predicate IsRequest(rows: Rows, order: seq<Id>, request: seq<Id>)
    requires forall id :: id in order ==> id in rows
  {
    && |request| == |QueuedIn(rows, order)|
    && (forall id :: id in request ==> id in QueuedIn(rows, order))
    && forall i, j :: 0 <= i < j < |request| ==> request[i] != request[j]
  }

  // ---- The two passes of a transaction ----

  function AssignSlots(rows: Rows, request: seq<Id>, slots: seq<nat>): (after: Rows)
    requires |request| <= |slots| && forall id :: id in request ==> id in rows
    ensures after.Keys == rows.Keys
  {
    if request == [] then rows
    else
      var n := |request| - 1;
      var before := AssignSlots(rows, request[..n], slots);
      var id := request[n];
      before[id := before[id].(sortOrder := slots[n], revision := before[id].revision + 1)]
  }

  predicate FollowsOrder(t: Task) { t.status.Queued? && t.mode.Weak? }

  /** The first `upTo` tasks of the order, chained again where they follow it. */
  function Rechained(rows: Rows, order: seq<Id>, upTo: nat): (after: Rows)
    requires upTo <= |order|
    ensures after.Keys == rows.Keys
  {
    map id | id in rows ::
      if id in order[..upTo] && FollowsOrder(rows[id]) then Relinked(rows[id], Predecessor(order, id)) else rows[id]
  }

  function Slotted(rows: Rows, project: Id, request: seq<Id>): (after: Rows)
    requires IsRequest(rows, Ordered(rows, project), request)
    ensures after.Keys == rows.Keys
  {
    AssignSlots(rows, request, QueuedSlots(rows, Ordered(rows, project)))
  }

  function Reordered(rows: Rows, project: Id, request: seq<Id>): (after: Rows)
    requires IsRequest(rows, Ordered(rows, project), request)
    ensures after.Keys == rows.Keys
  {
    var slotted := Slotted(rows, project, request);
    var order := Ordered(slotted, project);
    Rechained(slotted, order, |order|)
  }

  ghost function ReorderOutcome(rows: Rows, projects: set<Id>, project: Id, request: seq<Id>): Result<Rows, ReorderError> {
    if project == 0 then Failure(BadProject)
    else if project !in projects then Failure(NoSuchProject)
    else if |request| != |QueuedIn(rows, Ordered(rows, project))| then Failure(Incomplete)
    else if !IsRequest(rows, Ordered(rows, project), request) then Failure(NotTheQueuedTasks)
    else if !Acyclic(ProjectDependencies(Reordered(rows, project, request), project)) then Failure(ProjectWouldCycle)
    else Success(Reordered(rows, project, request))
  }

  lemma RechainStep(rows: Rows, order: seq<Id>, i: nat)
    requires i < |order| && Sorted(rows, order)
    ensures Rechained(rows, order, i)[order[i]] == rows[order[i]]
    ensures Rechained(rows, order, i + 1) ==
            if FollowsOrder(rows[order[i]])
            then Rechained(rows, order, i)
                 [order[i] := Relinked(rows[order[i]], if i == 0 then None else Some(order[i - 1]))]
            else Rechained(rows, order, i)
  {
    SortedHasNoDuplicates(rows, order);
    PredecessorOfListed(order, i);
    forall id ensures id in order[..i + 1] <==> id in order[..i] || id == order[i] {
      assert order[..i + 1] == order[..i] + [order[i]];
    }
  }

  method RebuildQueuedWeakDependencies(rows: Rows, project: Id) returns (after: Rows)
    ensures var order := Ordered(rows, project); after == Rechained(rows, order, |order|)
  {
    var order := Ordered(rows, project);
    after := rows;
    var predecessor: Option<Id> := None;
    for i := 0 to |order|
      invariant after == Rechained(rows, order, i)
      invariant predecessor == if i == 0 then None else Some(order[i - 1])
    {
      var id := order[i];
      RechainStep(rows, order, i);
      if FollowsOrder(after[id]) {
        after := after[id := Relinked(after[id], predecessor)];
      }
      predecessor := Some(id);
    }
  }

  lemma OneMoreQueued(rows: Rows, order: seq<Id>, i: nat)
    requires Sorted(rows, order) && i < |order|
    ensures order[i] in rows && order[i] !in QueuedIn(rows, order[..i])
    ensures QueuedIn(rows, order[..i + 1]) ==
            QueuedIn(rows, order[..i]) + if rows[order[i]].status.Queued? then [order[i]] else []
    ensures QueuedSlots(rows, order[..i + 1]) ==
            QueuedSlots(rows, order[..i]) +
            if rows[order[i]].status.Queued?
            then [if rows[order[i]].sortOrder > 0 then rows[order[i]].sortOrder else i + 1] else []
  {
    SortedHasNoDuplicates(rows, order);
    assert order[..i + 1][..i] == order[..i];
  }

  method CollectQueued(rows: Rows, order: seq<Id>) returns (eligible: set<Id>, slots: seq<nat>)
    requires Sorted(rows, order)
    ensures slots == QueuedSlots(rows, order)
    ensures forall id :: id in eligible <==> id in QueuedIn(rows, order)
    ensures |eligible| == |QueuedIn(rows, order)|
  {
    eligible, slots := {}, [];
    for i := 0 to |order|
      invariant slots == QueuedSlots(rows, order[..i])
      invariant forall id :: id in eligible <==> id in QueuedIn(rows, order[..i])
      invariant |eligible| == |QueuedIn(rows, order[..i])|
    {
      var id := order[i];
      OneMoreQueued(rows, order, i);
      if rows[id].status.Queued? {
        eligible := eligible + {id};
        slots := slots + [if rows[id].sortOrder > 0 then rows[id].sortOrder else i + 1];
      }
    }
    assert order[..|order|] == order;
  }

  method NamesEachOnce(request: seq<Id>, eligible: set<Id>) returns (ok: bool)
    ensures ok <==> (forall id :: id in request ==> id in eligible)
                    && forall i, j :: 0 <= i < j < |request| ==> request[i] != request[j]
  {
    var seen: set<Id> := {};
    for i := 0 to |request|
      invariant forall id :: id in seen <==> id in request[..i]
      invariant forall id :: id in request[..i] ==> id in eligible
      invariant forall j, k :: 0 <= j < k < i ==> request[j] != request[k]
    {
      var id := request[i];
      if id !in eligible || id in seen { return false; }
      seen := seen + {id};
    }
    return true;
  }

  method WriteSlots(rows: Rows, request: seq<Id>, slots: seq<nat>) returns (after: Rows)
    requires |request| <= |slots| && forall id :: id in request ==> id in rows
    ensures after == AssignSlots(rows, request, slots)
  {
    after := rows;
    for i := 0 to |request|
      invariant after == AssignSlots(rows, request[..i], slots)
    {
      var id := request[i];
      assert request[..i + 1][..i] == request[..i];
      after := after[id := after[id].(sortOrder := slots[i], revision := after[id].revision + 1)];
    }
    assert request[..|request|] == request;
  }

  method ReorderProjectTasks(st: Store, project: Id, request: seq<Id>) returns (error: Option<ReorderError>)
    requires st.Valid()
    modifies st`tasks
    ensures st.Valid()
    ensures match ReorderOutcome(old(st.tasks), st.projects, project, request)
            case Success(after) => error.None? && st.tasks == after
            case Failure(e) => error == Some(e) && st.tasks == old(st.tasks)
  {
    if project == 0 { return Some(BadProject); }
    if project !in st.projects { return Some(NoSuchProject); }
    var order := Ordered(st.tasks, project);
    var eligible, slots := CollectQueued(st.tasks, order);
    if |request| != |eligible| { return Some(Incomplete); }
    var ok := NamesEachOnce(request, eligible);
    assert ok <==> IsRequest(st.tasks, order, request);
    if !ok { return Some(NotTheQueuedTasks); }
    var rows := WriteSlots(st.tasks, request, slots);
    rows := RebuildQueuedWeakDependencies(rows, project);
    assert rows == Reordered(st.tasks, project, request);
    ok := ValidateProjectDependencies(rows, project);
    if !ok { return Some(ProjectWouldCycle); }
    st.tasks := rows;
    return None;
  }
}
