/**
  When a task counts as delivered, and what that means for the tasks that wait
  for it.  A Git task is delivered only once its merge task has succeeded.
 */
module Delivery {
  import opened Wrappers
  import opened Digraph
  import opened Sequences
  import opened Tasks

  // ---- Merge tasks ----

  function MergeTasks(rows: Rows, source: Id): (ids: set<Id>) {
    set m | m in rows && rows[m].mergeOf == Some(source)
  }

  predicate HasMerge(rows: Rows, source: Id) {
    MergeTasks(rows, source) != {}
  }

  function MergeFor(rows: Rows, source: Id): (m: Option<Id>)
    ensures m.Some? <==> HasMerge(rows, source)
    ensures m.Some? ==> m.value in rows && rows[m.value].mergeOf == Some(source)
  {
    if HasMerge(rows, source) then Some(Least(MergeTasks(rows, source))) else None
  }

  /** The unique index on `merge_of`. */
  ghost predicate OneMergePerSource(rows: Rows) {
    forall a, b :: a in rows && b in rows && rows[a].mergeOf.Some? && rows[a].mergeOf == rows[b].mergeOf ==> a == b
  }

  lemma MergeIsTheOnlyOne(rows: Rows, source: Id, m: Id)
    requires OneMergePerSource(rows) && m in rows && rows[m].mergeOf == Some(source)
    ensures MergeFor(rows, source) == Some(m)
  {
    assert m in MergeTasks(rows, source);
  }

  // ---- Delivery ----

  datatype DeliveryState = Pending | Delivered | Undelivered

  function DeliveryOf(rows: Rows, id: Id): DeliveryState
    requires id in rows
  {
    var source := rows[id];
    if source.mergeOf.Some? then Undelivered
    else match source.status
      case Queued | Claimed | Running | AwaitingReview => Pending
      case Failed | Cancelled => Undelivered
      case Succeeded =>
        if source.mergeSkipped then Delivered
        else (match MergeFor(rows, id)
              case None => if source.worktreeBranch != "" then Pending else Delivered
              case Some(m) =>
                match rows[m].status
                case Succeeded => Delivered
                case Failed | Cancelled => Undelivered
                case _ => Pending)
      case OtherStatus(_) => Pending
  }

  /** Delivered and failed, said of the source's row and its merge task's. */
  lemma DeliveredExactly(rows: Rows, id: Id)
    requires id in rows && OneMergePerSource(rows)
    ensures DeliveryOf(rows, id).Delivered? <==>
            && rows[id].mergeOf.None? && rows[id].status.Succeeded?
            && (|| rows[id].mergeSkipped
                || (exists m :: m in rows && rows[m].mergeOf == Some(id) && rows[m].status.Succeeded?)
                || (rows[id].worktreeBranch == "" && forall m :: m in rows ==> rows[m].mergeOf != Some(id)))
    ensures DeliveryOf(rows, id).Undelivered? <==>
            || rows[id].mergeOf.Some? || rows[id].status.Failed? || rows[id].status.Cancelled?
            || (rows[id].status.Succeeded? && !rows[id].mergeSkipped
                && exists m :: m in rows && rows[m].mergeOf == Some(id) && (rows[m].status.Failed? || rows[m].status.Cancelled?))
  {
    forall m | m in rows && rows[m].mergeOf == Some(id) ensures MergeFor(rows, id) == Some(m) {
      MergeIsTheOnlyOne(rows, id, m);
    }
  }

  // ---- The dispatcher's question ----

  function EdgesOf(edges: Edges, id: Id): map<Id, OnFailure> {
    if id in edges then edges[id] else map[]
  }

  datatype Check = Check(ready: bool, skipped: bool, blocked: bool)

  const READY := Check(true, false, false)
  const SKIPPED := Check(true, true, false)
  const BLOCKED := Check(false, false, true)
  const WAITING := Check(false, false, false)

  /** The workflow dependencies in order; the first one not settled decides. */
  function CheckWorkflow(rows: Rows, deps: map<Id, OnFailure>, ids: seq<Id>, skipped: bool): Result<Check, Id>
    requires forall d :: d in ids ==> d in deps
  {
    if ids == [] then Success(Check(true, skipped, false))
    else if ids[0] !in rows then Failure(ids[0])
    else match DeliveryOf(rows, ids[0])
      case Delivered => CheckWorkflow(rows, deps, ids[1..], skipped)
      case Undelivered =>
        if deps[ids[0]].Continue? then CheckWorkflow(rows, deps, ids[1..], true) else Success(BLOCKED)
      case Pending => Success(WAITING)
  }

  function CheckTaskDependency(rows: Rows, edges: Edges, id: Id): Result<Check, Id>
    requires id in rows
  {
    var t := rows[id];
    var deps := EdgesOf(edges, id);
    if t.mergeOf.Some? then Success(READY)
    else if deps != map[] then CheckWorkflow(rows, deps, AscendingIds(deps.Keys), false)
    else if t.dependsOn.None? || t.mode.Independent? || t.mode.Unset? then Success(READY)
    else if t.mode.UnknownMode? then Success(WAITING)
    else if t.dependsOn.value !in rows then Success(if t.mode.Weak? then SKIPPED else WAITING)
    else
      var state := DeliveryOf(rows, t.dependsOn.value);
      match t.mode
      case Strong => Success(Check(state.Delivered?, false, state.Undelivered?))
      case _ =>
        match state
        case Delivered => Success(READY)
        case Undelivered => Success(if rows[t.dependsOn.value].blockOnFailure then BLOCKED else SKIPPED)
        case Pending => Success(WAITING)
  }

  /**
    A task outside any workflow starts once its target is delivered; an automatic one also
    when the target is gone, or failed without being marked as blocking.  A failed target
    blocks for good whoever asked for it explicitly, and everyone if it is marked so.
   */
  lemma DependencyDecides(rows: Rows, edges: Edges, id: Id)
    requires id in rows && rows[id].mergeOf.None? && EdgesOf(edges, id) == map[] && rows[id].dependsOn.Some?
    requires rows[id].mode.Weak? || rows[id].mode.Strong?
    ensures var d, c := rows[id].dependsOn.value, CheckTaskDependency(rows, edges, id);
            && c.Success?
            && (c.value.ready <==>
                  || (d in rows && DeliveryOf(rows, d).Delivered?)
                  || (rows[id].mode.Weak? && (d in rows ==> DeliveryOf(rows, d).Undelivered? && !rows[d].blockOnFailure)))
            && (c.value.blocked <==>
                  d in rows && DeliveryOf(rows, d).Undelivered? && (rows[id].mode.Strong? || rows[d].blockOnFailure))
            && (c.value.skipped <==> c.value.ready && !(d in rows && DeliveryOf(rows, d).Delivered?))
  {
  }

  /** A source whose merge task failed holds up its explicit dependents, and its automatic ones if it is marked so. */
  lemma FailedMergeHoldsUp(rows: Rows, edges: Edges, id: Id, source: Id, m: Id)
    requires OneMergePerSource(rows) && id in rows && rows[id].mergeOf.None? && EdgesOf(edges, id) == map[]
    requires rows[id].dependsOn == Some(source) && (rows[id].mode.Weak? || rows[id].mode.Strong?)
    requires source in rows && rows[source].mergeOf.None? && rows[source].status.Succeeded? && !rows[source].mergeSkipped
    requires m in rows && rows[m].mergeOf == Some(source) && (rows[m].status.Failed? || rows[m].status.Cancelled?)
    ensures CheckTaskDependency(rows, edges, id) ==
            Success(if rows[id].mode.Strong? || rows[source].blockOnFailure
                    then Check(false, false, true) else Check(true, true, false))
  {
    DeliveredExactly(rows, source);
  }

  /** Merge tasks and tasks without a target wait for nothing; neither does a task in an unknown mode ever start. */
  lemma NoTargetNoWait(rows: Rows, edges: Edges, id: Id)
    requires id in rows && (rows[id].mergeOf.Some? || EdgesOf(edges, id) == map[])
    ensures rows[id].mergeOf.Some? || rows[id].dependsOn.None? || rows[id].mode.Independent? || rows[id].mode.Unset? ==>
              CheckTaskDependency(rows, edges, id) == Success(Check(true, false, false))
    ensures rows[id].mergeOf.None? && rows[id].dependsOn.Some? && rows[id].mode.UnknownMode? ==>
              CheckTaskDependency(rows, edges, id) == Success(Check(false, false, false))
  {
  }

  ghost predicate Settled(rows: Rows, d: Id) {
    d in rows && !DeliveryOf(rows, d).Pending?
  }

  ghost predicate Passes(rows: Rows, deps: map<Id, OnFailure>, d: Id) {
    d in rows && d in deps && (DeliveryOf(rows, d).Delivered? || (DeliveryOf(rows, d).Undelivered? && deps[d].Continue?))
  }

  /**
    A workflow task is released exactly when every dependency passes, and it is
    neither released nor blocked only while some dependency is still pending.
   */
  lemma {:induction false} WorkflowCheckMeans(rows: Rows, deps: map<Id, OnFailure>, ids: seq<Id>, skipped: bool)
    requires forall d :: d in ids ==> d in deps && d in rows
    ensures var c := CheckWorkflow(rows, deps, ids, skipped);
            && c.Success?
            && (c.value.ready <==> forall d :: d in ids ==> Passes(rows, deps, d))
            && (c.value.blocked ==> exists d :: d in ids && DeliveryOf(rows, d).Undelivered? && deps[d].Block?)
            && (!c.value.ready && !c.value.blocked ==> exists d :: d in ids && DeliveryOf(rows, d).Pending?)
  {
    if ids != [] {
      var d := ids[0];
      assert d in ids;
      assert ids == [d] + ids[1..];
      WorkflowCheckMeans(rows, deps, ids[1..], skipped || !DeliveryOf(rows, d).Delivered?);
    }
  }

  /**
    The first dependency that does not pass decides: one that is gone is an error, a
    pending one holds the task back, a failed one blocks it.  If all pass the task is
    released, marked as skipping when one of them had failed.
   */
  lemma {:induction false} FirstUnpassedDecides(
      rows: Rows, deps: map<Id, OnFailure>, ids: seq<Id>, skipped: bool) returns (k: nat)
    requires forall d :: d in ids ==> d in deps
    ensures k <= |ids| && forall i :: 0 <= i < k ==> Passes(rows, deps, ids[i])
    ensures
      var r := CheckWorkflow(rows, deps, ids, skipped);
      if k == |ids| then
        r == Success(if skipped || exists i :: 0 <= i < k && ids[i] in rows && DeliveryOf(rows, ids[i]).Undelivered? then SKIPPED else READY)
      else
        && !Passes(rows, deps, ids[k])
        && r == if ids[k] !in rows then Failure(ids[k])
                else Success(if DeliveryOf(rows, ids[k]).Pending? then WAITING else BLOCKED)
  {
    if ids == [] || !Passes(rows, deps, ids[0]) {
      k := 0;
      assert ids != [] ==> ids[0] in ids;
    } else {
      var skips := skipped || DeliveryOf(rows, ids[0]).Undelivered?;
      var rest := ids[1..];
      assert forall d :: d in rest ==> d in ids;
      var j := FirstUnpassedDecides(rows, deps, rest, skips);
      k := j + 1;
      assert forall i :: 0 <= i < j ==> rest[i] == ids[i + 1];
      if k == |ids| {
        if exists i :: 0 <= i < j && DeliveryOf(rows, rest[i]).Undelivered? {
          var i :| 0 <= i < j && DeliveryOf(rows, rest[i]).Undelivered?;
          assert DeliveryOf(rows, ids[i + 1]).Undelivered?;
        }
      }
    }
  }
}
