/**
  The delivery protocol as a state machine: every interleaving of the store's
  guarded updates, of the executor's settlements, and of user requests that read
  a task first and write it later.
 */
module MergeProtocol {
  import opened Wrappers
  import opened Digraph
  import opened Tasks
  import opened Delivery
  import opened MergeTransactions

  /** A user request between its read, at `revision`, and its guarded write. */
  datatype Intent =
    | Requeue(id: Id, revision: nat)
    | Resume(id: Id, revision: nat)
    | Cancel(id: Id, revision: nat)
    | Approve(id: Id, revision: nat)

  datatype State = State(table: Table, intents: set<Intent>)

  datatype Step =
    | Create(task: Task)
    | Claim(id: Id)
    | Start(id: Id)
    | AttachWorktree(id: Id, branch: string)
    | Complete(id: Id, now: int)
    | DeliverSession(id: Id, now: int)
    | Ensure(id: Id, now: int)
    | MarkAwaitingMerge(id: Id)
    | FinishFailed(id: Id, cancelled: bool)
    | FinishForReview(id: Id)
    | FinishUnchanged(id: Id)
    | FinishPlain(id: Id)
    | EditPermission(id: Id, revision: nat, perm: Permission)
    | Begin(intent: Intent)
    | Write(intent: Intent, changed: bool, now: int)

  // ---- What a request checks when it reads ----

  /** The source already owes or has a merge task, so its code is out of the task's hands. */
  predicate HasOrNeedsMerge(rows: Rows, id: Id)
    requires id in rows
  {
    rows[id].mergeOf.None? && (rows[id].worktreeBranch != "" || HasMerge(rows, id))
  }

  /** A succeeded task goes back to the queue only if nothing of it was or will be merged. */
  predicate MayRestart(rows: Rows, id: Id)
    requires id in rows
  {
    rows[id].status.Succeeded? ==> rows[id].mergeOf.None? && !HasOrNeedsMerge(rows, id)
  }

  predicate Allowed(rows: Rows, intent: Intent) {
    && intent.id in rows && rows[intent.id].revision == intent.revision
    && var t := rows[intent.id];
       match intent
       case Requeue(_, _) => t.status in {AwaitingReview, Succeeded, Failed, Cancelled} && MayRestart(rows, intent.id)
       case Resume(_, _) => t.role.Some? && t.status in {Succeeded, Failed, Cancelled} && MayRestart(rows, intent.id)
       case Cancel(_, _) => t.status in {Queued, Status.Claimed, Running, AwaitingReview}
       case Approve(_, _) => t.role.Some? && t.status.AwaitingReview?
  }

  // ---- One step ----

  function OrSame(t: Table, r: Option<Table>): Table {
    if r.Some? then r.value else t
  }

  function OrRollback(t: Table, r: Result<Table, StoreError>): Table {
    if r.Success? then r.value else t
  }

  /** The write half of a request: the store's guard decides. */
  function Written(t: Table, intent: Intent, changed: bool, now: int): Result<Table, StoreError> {
    match intent
    case Requeue(id, revision) =>
      var r := AfterStatusUpdate(t, id, revision, Queued);
      if r.Some? then Success(r.value) else Failure(GuardFailed)
    case Resume(id, revision) =>
      var r := AfterResume(t, id, revision);
      if r.Some? then Success(r.value) else Failure(GuardFailed)
    case Cancel(id, revision) =>
      var r := AfterStatusUpdate(t, id, revision, Cancelled);
      if r.Some? then Success(r.value) else Failure(GuardFailed)
    case Approve(id, revision) =>
      if changed then AfterApproval(t, id, revision, now) else AfterUnchangedApproval(t, id, revision)
  }

  /** Settlements are written by the executor that runs the task. */
  function Settled(t: Table, id: Id, applies: bool, row: Task): Table {
    if InStatus(t, id, {Status.Claimed, Running}) && applies then Put(t, id, row) else t
  }

  function TableAfter(s: State, step: Step): Table {
    var t := s.table;
    match step
    case Create(task) =>
      if task.mergeOf.None? then Table(t.rows[t.lastId + 1 := task.(revision := 1)], t.lastId + 1) else t
    case Claim(id) => OrSame(t, AfterClaim(t, id))
    case Start(id) => OrSame(t, AfterStart(t, id))
    case AttachWorktree(id, branch) =>
      if id in t.rows then Settled(t, id, branch != "", t.rows[id].(worktreeBranch := branch)) else t
    case Complete(id, now) => OrRollback(t, AfterComplete(t, id, now))
    case DeliverSession(id, now) => OrRollback(t, AfterSessionDelivery(t, id, now))
    case Ensure(id, now) => var r := AfterEnsure(t, id, now); if r.Success? then r.value.0 else t
    case MarkAwaitingMerge(id) => OrSame(t, AfterMarking(t, id))
    case FinishFailed(id, cancelled) =>
      if id in t.rows then Settled(t, id, true, t.rows[id].(status := if cancelled then Cancelled else Failed)) else t
    case FinishForReview(id) =>
      if id in t.rows then Settled(t, id, t.rows[id].mergeOf.None?, t.rows[id].(status := AwaitingReview)) else t
    case FinishUnchanged(id) =>
      if id in t.rows
      then Settled(t, id, t.rows[id].mergeOf.None? && t.rows[id].worktreeBranch != "",
                   t.rows[id].(status := Succeeded, mergeSkipped := true))
      else t
    case FinishPlain(id) =>
      if id in t.rows
      then Settled(t, id, t.rows[id].mergeOf.Some? || t.rows[id].worktreeBranch == "", t.rows[id].(status := Succeeded))
      else t
    case EditPermission(id, revision, perm) =>
      if id in t.rows && t.rows[id].revision == revision && t.rows[id].mergeOf.None?
      then Put(t, id, t.rows[id].(perm := perm)) else t
    case Begin(intent) => t
    case Write(intent, changed, now) =>
      if intent in s.intents then OrRollback(t, Written(t, intent, changed, now)) else t
  }

  function Next(s: State, step: Step): State {
    var intents :=
      match step
      case Begin(intent) => if Allowed(s.table.rows, intent) then s.intents + {intent} else s.intents
      case Write(intent, _, _) => s.intents - {intent}
      case _ => s.intents;
    State(TableAfter(s, step), intents)
  }

  function Run(s: State, steps: seq<Step>): State
    decreases |steps|
  {
    if steps == [] then s else Run(Next(s, steps[0]), steps[1..])
  }

  // ---- The invariant ----

  /** A merge task belongs to a finished source, runs unreviewed, and is no source itself. */
  ghost predicate MergeTaskIsSound(rows: Rows, m: Id)
    requires m in rows
  {
    rows[m].mergeOf.Some? ==>
      && rows[m].perm.Full? && !rows[m].status.AwaitingReview?
      && rows[m].mergeOf.value in rows
      && rows[rows[m].mergeOf.value].mergeOf.None?
      && rows[rows[m].mergeOf.value].status.Succeeded?
  }

  /** A pending request read its task no later than now; if the task is unchanged, so is the verdict. */
  ghost predicate IntentIsSound(rows: Rows, intent: Intent) {
    && intent.id in rows
    && intent.revision <= rows[intent.id].revision
    && (intent.revision == rows[intent.id].revision ==> Allowed(rows, intent))
  }

  ghost predicate Inv(s: State) {
    && KeysIssued(s.table.rows, s.table.lastId)
    && OneMergePerSource(s.table.rows)
    && (forall id :: id in s.table.rows ==> s.table.rows[id].revision >= 1)
    && (forall m :: m in s.table.rows ==> MergeTaskIsSound(s.table.rows, m))
    && forall i :: i in s.intents ==> IntentIsSound(s.table.rows, i)
  }

  // ---- Preservation ----

  lemma UnfinishedHasNoMerge(rows: Rows, id: Id)
    requires id in rows && forall m :: m in rows ==> MergeTaskIsSound(rows, m)
    ensures HasMerge(rows, id) ==> rows[id].status.Succeeded? && rows[id].mergeOf.None?
  {
    if m :| m in MergeTasks(rows, id) { assert MergeTaskIsSound(rows, m); }
  }

  /** An update that leaves `mergeOf` alone and does not un-finish a merged source. */
  ghost predicate HarmlessUpdate(rows: Rows, id: Id, row: Task)
    requires id in rows
  {
    && row.mergeOf == rows[id].mergeOf
    && (row.mergeOf.Some? ==> row.perm.Full? && !row.status.AwaitingReview?)
    && (HasMerge(rows, id) ==> row.status.Succeeded?)
  }

  lemma PutKeepsMergeTasks(t: Table, id: Id, row: Task, source: Id)
    requires id in t.rows && row.mergeOf == t.rows[id].mergeOf
    ensures MergeTasks(Put(t, id, row).rows, source) == MergeTasks(t.rows, source)
  {
  }

  lemma PutKeepsInv(s: State, id: Id, row: Task)
    requires Inv(s) && id in s.table.rows && HarmlessUpdate(s.table.rows, id, row)
    ensures Inv(State(Put(s.table, id, row), s.intents))
  {
    var before, after := s.table.rows, Put(s.table, id, row).rows;
    forall m | m in after ensures MergeTaskIsSound(after, m) {
      assert MergeTaskIsSound(before, m);
      if before[m].mergeOf == Some(id) { assert m in MergeTasks(before, id); }
    }
    forall i | i in s.intents ensures IntentIsSound(after, i) {
      assert IntentIsSound(before, i);
      PutKeepsMergeTasks(s.table, id, row, i.id);
    }
  }

  lemma FreshRowKeepsMergeTasks(t: Table, row: Task, source: Id)
    requires KeysIssued(t.rows, t.lastId) && row.mergeOf != Some(source)
    ensures MergeTasks(t.rows[t.lastId + 1 := row], source) == MergeTasks(t.rows, source)
  {
  }

  lemma CreateKeepsInv(s: State, task: Task)
    requires Inv(s) && task.mergeOf.None?
    ensures Inv(State(Table(s.table.rows[s.table.lastId + 1 := task.(revision := 1)], s.table.lastId + 1), s.intents))
  {
    var before, after := s.table.rows, s.table.rows[s.table.lastId + 1 := task.(revision := 1)];
    forall m | m in after ensures MergeTaskIsSound(after, m) {
      if m in before { assert MergeTaskIsSound(before, m); }
    }
    forall i | i in s.intents ensures IntentIsSound(after, i) {
      assert IntentIsSound(before, i);
      FreshRowKeepsMergeTasks(s.table, task.(revision := 1), i.id);
    }
  }

  /** A merge task may be inserted for a finished source that no pending request could restart. */
  lemma InsertKeepsInv(s: State, source: Id, now: int)
    requires Inv(s) && source in s.table.rows && !HasMerge(s.table.rows, source)
    requires s.table.rows[source].status.Succeeded? && s.table.rows[source].mergeOf.None?
    requires forall i :: i in s.intents && i.id == source ==> i.revision < s.table.rows[source].revision
    ensures InsertMerge(s.table, source, now).Success?
    ensures Inv(State(InsertMerge(s.table, source, now).value, s.intents))
  {
    var before, after := s.table.rows, InsertMerge(s.table, source, now).value.rows;
    forall m | m in after ensures MergeTaskIsSound(after, m) {
      if m in before { assert MergeTaskIsSound(before, m); }
    }
    assert forall x :: x in MergeTasks(before, source) <==> x in before && before[x].mergeOf == Some(source);
    forall i | i in s.intents ensures IntentIsSound(after, i) {
      assert IntentIsSound(before, i);
      if i.id != source { FreshRowKeepsMergeTasks(s.table, MergeTask(before[source], source, now), i.id); }
    }
  }

  /** Finishing a task and inserting its merge task in one transaction cannot violate the index. */
  lemma FinishWithMergeKeepsInv(s: State, id: Id, now: int)
    requires Inv(s) && id in s.table.rows
    requires !s.table.rows[id].status.Succeeded? && s.table.rows[id].mergeOf.None?
    ensures InsertMerge(SetStatus(s.table, id, Succeeded), id, now).Success?
    ensures Inv(State(InsertMerge(SetStatus(s.table, id, Succeeded), id, now).value, s.intents))
  {
    var row := s.table.rows[id].(status := Succeeded);
    UnfinishedHasNoMerge(s.table.rows, id);
    PutKeepsInv(s, id, row);
    PutKeepsMergeTasks(s.table, id, row, id);
    forall i | i in s.intents && i.id == id ensures i.revision < s.table.rows[id].revision + 1 {
      assert IntentIsSound(s.table.rows, i);
    }
    InsertKeepsInv(State(Put(s.table, id, row), s.intents), id, now);
  }

  lemma EnsureKeepsInv(s: State, id: Id, now: int)
    requires Inv(s) && EligibleForMerge(s.table, id) && !HasMerge(s.table.rows, id)
    ensures InsertMerge(s.table, id, now).Success?
    ensures Inv(State(InsertMerge(s.table, id, now).value, s.intents))
  {
    forall i | i in s.intents && i.id == id ensures i.revision < s.table.rows[id].revision {
      assert IntentIsSound(s.table.rows, i);
      assert !Allowed(s.table.rows, i);
    }
    InsertKeepsInv(s, id, now);
  }

  lemma IntentStillHolds(s: State, intent: Intent)
    requires Inv(s) && intent in s.intents && s.table.rows[intent.id].revision == intent.revision
    ensures Allowed(s.table.rows, intent)
  {
    assert IntentIsSound(s.table.rows, intent);
  }

  lemma WriteKeepsInv(s: State, intent: Intent, changed: bool, now: int)
    requires Inv(s) && intent in s.intents
    ensures Inv(State(OrRollback(s.table, Written(s.table, intent, changed, now)), s.intents))
  {
    var rows, id := s.table.rows, intent.id;
    assert IntentIsSound(rows, intent);
    if rows[id].revision == intent.revision {
      IntentStillHolds(s, intent);
      UnfinishedHasNoMerge(rows, id);
      assert MergeTaskIsSound(rows, id);
      match intent
      case Requeue(_, _) => PutKeepsInv(s, id, rows[id].(status := Queued));
      case Resume(_, _) => PutKeepsInv(s, id, rows[id].(status := Queued));
      case Cancel(_, _) => PutKeepsInv(s, id, rows[id].(status := Cancelled));
      case Approve(_, _) =>
        if changed {
          FinishWithMergeKeepsInv(s, id, now);
        } else {
          PutKeepsInv(s, id, rows[id].(status := Succeeded, mergeSkipped := true));
        }
    }
  }

  lemma SettleKeepsInv(s: State, id: Id, applies: bool, row: Task)
    requires Inv(s) && id in s.table.rows
    requires row.mergeOf == s.table.rows[id].mergeOf && row.perm == s.table.rows[id].perm
    requires applies && row.mergeOf.Some? ==> !row.status.AwaitingReview?
    ensures Inv(State(Settled(s.table, id, applies, row), s.intents))
  {
    if InStatus(s.table, id, {Status.Claimed, Running}) && applies {
      UnfinishedHasNoMerge(s.table.rows, id);
      assert MergeTaskIsSound(s.table.rows, id);
      PutKeepsInv(s, id, row);
    }
  }

  /** A guarded change of an unfinished task's status, other than to a review. */
  lemma StatusKeepsInv(s: State, id: Id, status: Status)
    requires Inv(s) && id in s.table.rows && !s.table.rows[id].status.Succeeded? && !status.AwaitingReview?
    ensures Inv(State(SetStatus(s.table, id, status), s.intents))
  {
    UnfinishedHasNoMerge(s.table.rows, id);
    assert MergeTaskIsSound(s.table.rows, id);
    PutKeepsInv(s, id, s.table.rows[id].(status := status));
  }

  lemma TableStepKeepsInv(s: State, step: Step)
    requires Inv(s)
    ensures Inv(State(TableAfter(s, step), s.intents))
  {
    var t := s.table;
    match step
    case Create(task) => if task.mergeOf.None? { CreateKeepsInv(s, task); }
    case Claim(id) => if InStatus(t, id, {Queued}) { StatusKeepsInv(s, id, Status.Claimed); }
    case Start(id) => if InStatus(t, id, {Status.Claimed}) { StatusKeepsInv(s, id, Running); }
    case AttachWorktree(id, branch) =>
      if id in t.rows { SettleKeepsInv(s, id, branch != "", t.rows[id].(worktreeBranch := branch)); assert MergeTaskIsSound(t.rows, id); }
    case Complete(id, now) => if AfterComplete(t, id, now) != Failure(GuardFailed) { FinishWithMergeKeepsInv(s, id, now); }
    case DeliverSession(id, now) => if AfterSessionDelivery(t, id, now) != Failure(GuardFailed) { FinishWithMergeKeepsInv(s, id, now); }
    case Ensure(id, now) => if !HasMerge(t.rows, id) && EligibleForMerge(t, id) { EnsureKeepsInv(s, id, now); }
    case MarkAwaitingMerge(id) => if AfterMarking(t, id).Some? { StatusKeepsInv(s, id, Succeeded); }
    case FinishFailed(id, cancelled) =>
      if id in t.rows { SettleKeepsInv(s, id, true, t.rows[id].(status := if cancelled then Cancelled else Failed)); }
    case FinishForReview(id) =>
      if id in t.rows { SettleKeepsInv(s, id, t.rows[id].mergeOf.None?, t.rows[id].(status := AwaitingReview)); }
    case FinishUnchanged(id) =>
      if id in t.rows {
        SettleKeepsInv(s, id, t.rows[id].mergeOf.None? && t.rows[id].worktreeBranch != "",
                       t.rows[id].(status := Succeeded, mergeSkipped := true));
      }
    case FinishPlain(id) =>
      if id in t.rows {
        SettleKeepsInv(s, id, t.rows[id].mergeOf.Some? || t.rows[id].worktreeBranch == "", t.rows[id].(status := Succeeded));
      }
    case EditPermission(id, revision, perm) =>
      if id in t.rows && t.rows[id].mergeOf.None? {
        UnfinishedHasNoMerge(t.rows, id);
        PutKeepsInv(s, id, t.rows[id].(perm := perm));
      }
    case Begin(intent) =>
    case Write(intent, changed, now) => if intent in s.intents { WriteKeepsInv(s, intent, changed, now); }
  }

  lemma StepKeepsInv(s: State, step: Step)
    requires Inv(s)
    ensures Inv(Next(s, step))
  {
    TableStepKeepsInv(s, step);
  }

  /** In every reachable state each source has at most one merge task, and it is finished. */
  lemma {:induction false} RunKeepsInv(s: State, steps: seq<Step>)
    requires Inv(s)
    ensures Inv(Run(s, steps))
    decreases |steps|
  {
    if steps != [] {
      StepKeepsInv(s, steps[0]);
      RunKeepsInv(Next(s, steps[0]), steps[1..]);
    }
  }
}
