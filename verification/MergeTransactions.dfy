/**
  The guarded updates that finish a task and create its merge task.  Each
  transaction is a function of the table it reads; the methods run it in place.
 */
module MergeTransactions {
  import opened Wrappers
  import opened Digraph
  import opened Tasks
  import opened Delivery

  datatype Table = Table(rows: Rows, lastId: Id)

  datatype StoreError = GuardFailed | UniqueIndexViolated | NotEligible

  /** Every update of a row advances its revision. */
  function Put(t: Table, id: Id, row: Task): Table
    requires id in t.rows
  {
    t.(rows := t.rows[id := row.(revision := t.rows[id].revision + 1)])
  }

  function SetStatus(t: Table, id: Id, status: Status): Table
    requires id in t.rows
  {
    Put(t, id, t.rows[id].(status := status))
  }

  predicate InStatus(t: Table, id: Id, statuses: set<Status>) {
    id in t.rows && t.rows[id].status in statuses
  }

  /** A merge task is a system task: full permission, serial, no dependency of its own. */
  function MergeTask(source: Task, sourceId: Id, now: int): Task {
    Task(OrdinaryTask, Queued, Full, false, source.role, source.project, Some(sourceId), None, Independent,
         source.blockOnFailure, Some(sourceId), false, None, source.run, "", "", 0, now, 1)
  }

  function InsertMerge(t: Table, source: Id, now: int): Result<Table, StoreError>
    requires source in t.rows
  {
    if HasMerge(t.rows, source) then Failure(UniqueIndexViolated)
    else Success(Table(t.rows[t.lastId + 1 := MergeTask(t.rows[source], source, now)], t.lastId + 1))
  }

  // ---- What a merge insert leaves ----

  /**
    Row `m` is new and queued to merge `id`: a system task of its own, with the source's
    role, project, run and failure policy.  Nothing else but the source has changed.
   */
  ghost predicate QueuesMerge(before: Rows, after: Rows, id: Id, m: Id) {
    && id in before && m !in before && after.Keys == before.Keys + {m}
    && (forall x :: x in before && x != id ==> after[x] == before[x])
    && var row := after[m];
       && row.mergeOf == Some(id) && row.parent == Some(id)
       && row.kind.OrdinaryTask? && row.status.Queued? && row.perm.Full? && !row.concurrent
       && row.mode.Independent? && row.dependsOn.None? && row.cron == "" && row.worktreeBranch == "" && !row.mergeSkipped
       && row.role == before[id].role && row.project == before[id].project && row.run == before[id].run
       && row.blockOnFailure == before[id].blockOnFailure
       && row.session.None? && row.resumeOf.None? && row.parentSession.None? && row.parentTask.None?
  }

  /** The source has succeeded, and whoever waits for it waits for the merge. */
  ghost predicate AwaitsMerge(before: Rows, after: Rows, id: Id) {
    && id in before && id in after && after[id].status.Succeeded?
    && after[id] == before[id].(status := Succeeded, revision := after[id].revision)
    && (before[id].mergeOf.None? && !before[id].mergeSkipped ==> DeliveryOf(after, id).Pending?)
  }

  lemma InsertedMergeIsQueued(t: Table, id: Id, now: int)
    requires KeysIssued(t.rows, t.lastId) && id in t.rows && InsertMerge(t, id, now).Success?
    ensures var after := InsertMerge(t, id, now).value;
            && after.lastId == t.lastId + 1 && QueuesMerge(t.rows, after.rows, id, after.lastId)
            && after.rows[id] == t.rows[id]
            && (t.rows[id].status.Succeeded? ==> AwaitsMerge(t.rows, after.rows, id))
  {
    var after := InsertMerge(t, id, now).value.rows;
    assert MergeTasks(after, id) == {t.lastId + 1} by {
      forall m | m in MergeTasks(after, id) ensures m == t.lastId + 1 {
        assert m in MergeTasks(t.rows, id) || m == t.lastId + 1;
      }
      assert t.lastId + 1 in MergeTasks(after, id);
    }
  }

  /** The source is finished and its merge inserted in one transaction. */
  lemma FinishedThenQueued(before: Rows, rows: Rows, after: Rows, id: Id, m: Id)
    requires id in before && rows == before[id := before[id].(status := Succeeded, revision := before[id].revision + 1)]
    requires QueuesMerge(rows, after, id, m) && after[id] == rows[id] && AwaitsMerge(rows, after, id)
    ensures QueuesMerge(before, after, id, m) && AwaitsMerge(before, after, id)
  {
    assert rows.Keys == before.Keys;
  }

  // ---- The transactions ----

  function AfterClaim(t: Table, id: Id): Option<Table> {
    if InStatus(t, id, {Queued}) then Some(SetStatus(t, id, Status.Claimed)) else None
  }

  function AfterStart(t: Table, id: Id): Option<Table> {
    if InStatus(t, id, {Status.Claimed}) then Some(SetStatus(t, id, Running)) else None
  }

  function AfterComplete(t: Table, id: Id, now: int): Result<Table, StoreError> {
    if InStatus(t, id, {Status.Claimed, Running}) && t.rows[id].perm.Full? && t.rows[id].mergeOf.None?
    then InsertMerge(SetStatus(t, id, Succeeded), id, now)
    else Failure(GuardFailed)
  }

  function AfterSessionDelivery(t: Table, id: Id, now: int): Result<Table, StoreError> {
    if InStatus(t, id, {Queued}) && t.rows[id].perm.Full? && t.rows[id].mergeOf.None? && t.rows[id].session.Some?
    then InsertMerge(SetStatus(t, id, Succeeded), id, now)
    else Failure(GuardFailed)
  }

  /** The guard does not ask whether the approved task is itself a merge task. */
  function AfterApproval(t: Table, id: Id, expected: nat, now: int): Result<Table, StoreError> {
    if InStatus(t, id, {AwaitingReview}) && t.rows[id].revision == expected && t.rows[id].perm.Review?
    then InsertMerge(SetStatus(t, id, Succeeded), id, now)
    else Failure(GuardFailed)
  }

  function AfterUnchangedApproval(t: Table, id: Id, expected: nat): Result<Table, StoreError> {
    if InStatus(t, id, {AwaitingReview}) && t.rows[id].revision == expected
    then Success(Put(t, id, t.rows[id].(status := Succeeded, mergeSkipped := true)))
    else Failure(GuardFailed)
  }

  predicate EligibleForMerge(t: Table, id: Id) {
    InStatus(t, id, {Succeeded}) && t.rows[id].mergeOf.None? && t.rows[id].worktreeBranch != ""
  }

  /** The existing merge task, or a new one for a finished Git source. */
  function AfterEnsure(t: Table, id: Id, now: int): Result<(Table, Id, bool), StoreError> {
    if HasMerge(t.rows, id) then Success((t, MergeFor(t.rows, id).value, false))
    else if !EligibleForMerge(t, id) then Failure(NotEligible)
    else
      var inserted := InsertMerge(t, id, now).value;
      Success((inserted, inserted.lastId, true))
  }

  function AfterMarking(t: Table, id: Id): Option<Table> {
    if InStatus(t, id, {Status.Claimed, Running}) && t.rows[id].perm.Full? && t.rows[id].mergeOf.None?
       && t.rows[id].worktreeBranch != ""
    then Some(SetStatus(t, id, Succeeded))
    else None
  }

  /** A user's status change, guarded by the revision that was read. */
  function AfterStatusUpdate(t: Table, id: Id, expected: nat, status: Status): Option<Table> {
    if expected >= 1 && id in t.rows && t.rows[id].revision == expected then Some(SetStatus(t, id, status)) else None
  }

  function AfterResume(t: Table, id: Id, expected: nat): Option<Table> {
    if InStatus(t, id, {Succeeded, Failed, Cancelled}) && t.rows[id].revision == expected
    then Some(SetStatus(t, id, Queued)) else None
  }

  // ---- In place ----

  function TableOf(st: Store): Table
    reads st
  {
    Table(st.tasks, st.lastId)
  }

  method CompleteTaskAndCreateMerge(st: Store, id: Id, now: int) returns (r: Result<Id, StoreError>)
    modifies st`tasks, st`lastId
    ensures match AfterComplete(old(TableOf(st)), id, now)
            case Success(after) => r == Success(after.lastId) && TableOf(st) == after
            case Failure(e) => r == Failure(e) && TableOf(st) == old(TableOf(st))
    ensures r.Success? && KeysIssued(old(st.tasks), old(st.lastId)) ==>
              QueuesMerge(old(st.tasks), st.tasks, id, r.value) && AwaitsMerge(old(st.tasks), st.tasks, id)
  {
    var rows := st.tasks;
    ghost var before, lastId := st.tasks, st.lastId;
    if id !in rows { return Failure(GuardFailed); }
    var row := rows[id];
    if !(row.status in {Status.Claimed, Running}) || !row.perm.Full? || row.mergeOf.Some? { return Failure(GuardFailed); }
    rows := rows[id := row.(status := Succeeded, revision := row.revision + 1)];
    r := InsertMergeTask(st, rows, id, now);
    if r.Success? && KeysIssued(before, lastId) { FinishedThenQueued(before, rows, st.tasks, id, r.value); }
  }

  /** Inserts into the transaction's rows and commits, unless the unique index objects. */
  method InsertMergeTask(st: Store, rows: Rows, source: Id, now: int) returns (r: Result<Id, StoreError>)
    requires source in rows
    modifies st`tasks, st`lastId
    ensures match InsertMerge(Table(rows, old(st.lastId)), source, now)
            case Success(after) => r == Success(after.lastId) && TableOf(st) == after
            case Failure(e) => r == Failure(e) && TableOf(st) == old(TableOf(st))
    ensures r.Success? && KeysIssued(rows, old(st.lastId)) ==>
              && QueuesMerge(rows, st.tasks, source, r.value) && st.tasks[source] == rows[source]
              && (rows[source].status.Succeeded? ==> AwaitsMerge(rows, st.tasks, source))
  {
    if HasMerge(rows, source) { return Failure(UniqueIndexViolated); }
    if KeysIssued(rows, st.lastId) { InsertedMergeIsQueued(Table(rows, st.lastId), source, now); }
    st.lastId := st.lastId + 1;
    st.tasks := rows[st.lastId := MergeTask(rows[source], source, now)];
    return Success(st.lastId);
  }

  method DeliverTaskAndCreateMerge(st: Store, id: Id, now: int) returns (r: Result<Id, StoreError>)
    modifies st`tasks, st`lastId
    ensures match AfterSessionDelivery(old(TableOf(st)), id, now)
            case Success(after) => r == Success(after.lastId) && TableOf(st) == after
            case Failure(e) => r == Failure(e) && TableOf(st) == old(TableOf(st))
    ensures r.Success? && KeysIssued(old(st.tasks), old(st.lastId)) ==>
              QueuesMerge(old(st.tasks), st.tasks, id, r.value) && AwaitsMerge(old(st.tasks), st.tasks, id)
  {
    var rows := st.tasks;
    ghost var before, lastId := st.tasks, st.lastId;
    if id !in rows { return Failure(GuardFailed); }
    var row := rows[id];
    if !row.status.Queued? || !row.perm.Full? || row.mergeOf.Some? || row.session.None? { return Failure(GuardFailed); }
    rows := rows[id := row.(status := Succeeded, revision := row.revision + 1)];
    r := InsertMergeTask(st, rows, id, now);
    if r.Success? && KeysIssued(before, lastId) { FinishedThenQueued(before, rows, st.tasks, id, r.value); }
  }

  method ApproveTaskAndCreateMerge(st: Store, id: Id, expected: nat, now: int) returns (r: Result<Id, StoreError>)
    modifies st`tasks, st`lastId
    ensures match AfterApproval(old(TableOf(st)), id, expected, now)
            case Success(after) => r == Success(after.lastId) && TableOf(st) == after
            case Failure(e) => r == Failure(e) && TableOf(st) == old(TableOf(st))
    ensures r.Success? && KeysIssued(old(st.tasks), old(st.lastId)) ==>
              QueuesMerge(old(st.tasks), st.tasks, id, r.value) && AwaitsMerge(old(st.tasks), st.tasks, id)
  {
    var rows := st.tasks;
    ghost var before, lastId := st.tasks, st.lastId;
    if id !in rows { return Failure(GuardFailed); }
    var row := rows[id];
    if row.revision != expected || !row.status.AwaitingReview? || !row.perm.Review? { return Failure(GuardFailed); }
    rows := rows[id := row.(status := Succeeded, revision := row.revision + 1)];
    r := InsertMergeTask(st, rows, id, now);
    if r.Success? && KeysIssued(before, lastId) { FinishedThenQueued(before, rows, st.tasks, id, r.value); }
  }

  method EnsureMergeTask(st: Store, id: Id, now: int) returns (r: Result<(Id, bool), StoreError>)
    modifies st`tasks, st`lastId
    ensures match AfterEnsure(old(TableOf(st)), id, now)
            case Success(after) => r == Success((after.1, after.2)) && TableOf(st) == after.0
            case Failure(e) => r == Failure(e) && TableOf(st) == old(TableOf(st))
    ensures r.Success? && KeysIssued(old(st.tasks), old(st.lastId)) ==>
              if r.value.1
              then QueuesMerge(old(st.tasks), st.tasks, id, r.value.0) && AwaitsMerge(old(st.tasks), st.tasks, id)
              else r.value.0 in st.tasks && st.tasks[r.value.0].mergeOf == Some(id) && st.tasks == old(st.tasks)
  {
    var existing := MergeFor(st.tasks, id);
    if existing.Some? { return Success((existing.value, false)); }
    if id !in st.tasks { return Failure(NotEligible); }
    var row := st.tasks[id];
    if !row.status.Succeeded? || row.mergeOf.Some? || row.worktreeBranch == "" { return Failure(NotEligible); }
    var inserted := InsertMergeTask(st, st.tasks, id, now);
    return Success((inserted.value, true));
  }

  // ---- Reconciliation ----

  /** Finished Git sources that still owe their merge task. */
  function OwingSources(rows: Rows): (ids: set<Id>) {
    set id | id in rows && rows[id].status.Succeeded? && rows[id].mergeOf.None? && rows[id].worktreeBranch != ""
             && !rows[id].mergeSkipped && !HasMerge(rows, id)
  }

  /**
    The list the reconciler works through is exactly the sources that succeeded
    but are not yet delivered for want of a merge task.
   */
  lemma OwingMeansUndeliveredSuccess(rows: Rows, id: Id)
    requires id in rows
    ensures id in OwingSources(rows) <==>
            rows[id].status.Succeeded? && !HasMerge(rows, id) && DeliveryOf(rows, id).Pending?
  {
  }

  lemma InsertionSettlesOne(t: Table, id: Id, now: int)
    requires KeysIssued(t.rows, t.lastId) && id in OwingSources(t.rows)
    ensures var after := AfterEnsure(t, id, now);
            && after.Success? && after.value.2
            && KeysIssued(after.value.0.rows, after.value.0.lastId)
            && OwingSources(after.value.0.rows) == OwingSources(t.rows) - {id}
            && (forall x :: x in t.rows ==> x in after.value.0.rows && after.value.0.rows[x] == t.rows[x])
  {
    var rows := AfterEnsure(t, id, now).value.0.rows;
    var m := t.lastId + 1;
    assert m in MergeTasks(rows, id);
    forall x | x in t.rows && x != id ensures MergeTasks(rows, x) == MergeTasks(t.rows, x) {}
  }

  /**
    One pass over the owing sources.  Those whose worktree could be saved end with
    their merge task; no other row changes.
   */
  method ReconcileMergeTasks(st: Store, saved: set<Id>, now: int)
    requires st.Valid()
    modifies st`tasks, st`lastId
    ensures st.Valid()
    ensures OwingSources(st.tasks) == OwingSources(old(st.tasks)) - saved
    ensures forall id :: id in old(st.tasks) ==> id in st.tasks && st.tasks[id] == old(st.tasks)[id]
  {
    var todo := OwingSources(st.tasks);
    while todo != {}
      invariant st.Valid()
      invariant todo <= OwingSources(old(st.tasks))
      invariant OwingSources(st.tasks) == OwingSources(old(st.tasks)) - (saved - todo)
      invariant forall id :: id in old(st.tasks) ==> id in st.tasks && st.tasks[id] == old(st.tasks)[id]
      decreases todo
    {
      var id :| id in todo;
      if id in saved {
        InsertionSettlesOne(TableOf(st), id, now);
        var r := EnsureMergeTask(st, id, now);
      }
      todo := todo - {id};
    }
  }
}
