/** What the delivery protocol guarantees in every reachable state. */
module MergeLaws {
  import opened Wrappers
  import opened Digraph
  import opened Tasks
  import opened Delivery
  import opened MergeTransactions
  import opened MergeProtocol

  const INITIAL := State(Table(map[], 0), {})

  /**
    In every reachable state a source has at most one merge task, a merge task is
    no source, and a source with a merge task has succeeded.
   */
  lemma ReachableStatesAreSound(steps: seq<Step>, a: Id, b: Id)
    requires var rows := Run(INITIAL, steps).table.rows;
             a in rows && b in rows && rows[a].mergeOf.Some?
    ensures var rows := Run(INITIAL, steps).table.rows;
            && (rows[b].mergeOf == rows[a].mergeOf ==> a == b)
            && rows[b].mergeOf != Some(a)
            && rows[a].mergeOf.value in rows && rows[rows[a].mergeOf.value].status.Succeeded?
  {
    RunKeepsInv(INITIAL, steps);
    var rows := Run(INITIAL, steps).table.rows;
    assert MergeTaskIsSound(rows, a) && MergeTaskIsSound(rows, b);
  }

  /** No transaction that inserts a merge task can meet the unique index. */
  lemma IndexIsNeverViolated(s: State, id: Id, expected: nat, now: int)
    requires Inv(s)
    ensures AfterComplete(s.table, id, now) != Failure(UniqueIndexViolated)
    ensures AfterSessionDelivery(s.table, id, now) != Failure(UniqueIndexViolated)
    ensures AfterApproval(s.table, id, expected, now) != Failure(UniqueIndexViolated)
    ensures AfterEnsure(s.table, id, now) != Failure(UniqueIndexViolated)
  {
    if id in s.table.rows && !s.table.rows[id].status.Succeeded? {
      assert MergeTaskIsSound(s.table.rows, id);
      if s.table.rows[id].mergeOf.None? { FinishWithMergeKeepsInv(s, id, now); }
    }
  }

  /** Repeating `EnsureMergeTask` finds the task it made and changes nothing. */
  lemma EnsureIsIdempotent(t: Table, id: Id, now: int, later: int)
    requires KeysIssued(t.rows, t.lastId) && OneMergePerSource(t.rows)
    requires AfterEnsure(t, id, now).Success?
    ensures var first := AfterEnsure(t, id, now).value;
            AfterEnsure(first.0, id, later) == Success((first.0, first.1, false))
  {
    var first := AfterEnsure(t, id, now).value;
    if first.2 {
      assert first.1 in MergeTasks(first.0.rows, id);
      assert MergeTasks(first.0.rows, id) == {first.1} by {
        forall m | m in MergeTasks(first.0.rows, id) ensures m == first.1 {
          assert m in MergeTasks(t.rows, id) || m == first.1;
        }
      }
    }
  }

  /**
    The approval's guard does not exclude merge tasks.  Only their permission keeps
    a merge task from becoming the source of another one.
   */
  lemma ApprovalReliesOnPermission(t: Table, m: Id, now: int)
    requires KeysIssued(t.rows, t.lastId)
    requires m in t.rows && t.rows[m].mergeOf.Some? && t.rows[m].status.AwaitingReview? && !HasMerge(t.rows, m)
    ensures AfterApproval(t, m, t.rows[m].revision, now).Success? <==> t.rows[m].perm.Review?
    ensures t.rows[m].perm.Review? ==>
              var after := AfterApproval(t, m, t.rows[m].revision, now).value.rows;
              HasMerge(after, m) && after[m].mergeOf.Some?
  {
    PutKeepsMergeTasks(t, m, t.rows[m].(status := Succeeded), m);
    if t.rows[m].perm.Review? {
      var after := AfterApproval(t, m, t.rows[m].revision, now).value.rows;
      assert t.lastId + 1 in MergeTasks(after, m);
    }
  }

  // ---- Delivery is permanent ----

  /** A finished row whose code is merged, being merged or owed to a merge. */
  ghost predicate Frozen(rows: Rows, x: Id) {
    x in rows && rows[x].status.Succeeded? && (rows[x].mergeOf.Some? || HasOrNeedsMerge(rows, x))
  }

  ghost predicate SameOutcome(a: Task, b: Task) {
    && a.status == b.status && a.mergeOf == b.mergeOf
    && a.mergeSkipped == b.mergeSkipped && a.worktreeBranch == b.worktreeBranch
  }

  lemma FrozenRefusesRequests(s: State, intent: Intent, changed: bool, now: int)
    requires Inv(s) && intent in s.intents && Frozen(s.table.rows, intent.id)
    ensures Written(s.table, intent, changed, now) == Failure(GuardFailed)
  {
    assert IntentIsSound(s.table.rows, intent);
  }

  predicate Settles(step: Step) {
    step.AttachWorktree? || step.FinishFailed? || step.FinishForReview? || step.FinishUnchanged? || step.FinishPlain?
  }

  /** What one step does to a row that was there before: it stays, and a frozen one keeps its outcome. */
  ghost predicate Respects(s: State, step: Step, x: Id)
    requires x in s.table.rows
  {
    var before, after := s.table.rows, TableAfter(s, step).rows;
    && x in after
    && after[x].mergeOf == before[x].mergeOf
    && after[x].dependsOn == before[x].dependsOn
    && after[x].mode == before[x].mode
    && (after[x].status.OtherStatus? ==> before[x].status.OtherStatus?)
    && (Frozen(before, x) ==> SameOutcome(after[x], before[x]))
  }

  lemma SettlementRespects(s: State, step: Step, x: Id)
    requires Settles(step) && x in s.table.rows
    ensures Respects(s, step, x)
  {
  }

  lemma WriteRespects(s: State, step: Step, x: Id)
    requires Inv(s) && step.Write? && x in s.table.rows
    ensures Respects(s, step, x)
  {
    if step.intent in s.intents && Frozen(s.table.rows, step.intent.id) {
      FrozenRefusesRequests(s, step.intent, step.changed, step.now);
    }
  }

  predicate Delivers(step: Step) { step.Complete? || step.DeliverSession? || step.Ensure? }

  lemma DeliveryStepRespects(s: State, step: Step, x: Id)
    requires Inv(s) && Delivers(step) && x in s.table.rows
    ensures Respects(s, step, x)
  {
  }

  lemma StoreStepRespects(s: State, step: Step, x: Id)
    requires Inv(s) && !Settles(step) && !Delivers(step) && !step.Write? && x in s.table.rows
    ensures Respects(s, step, x)
  {
  }

  lemma StepRespects(s: State, step: Step, x: Id)
    requires Inv(s) && x in s.table.rows
    ensures Respects(s, step, x)
  {
    if Settles(step) { SettlementRespects(s, step, x); }
    else if step.Write? { WriteRespects(s, step, x); }
    else if Delivers(step) { DeliveryStepRespects(s, step, x); }
    else { StoreStepRespects(s, step, x); }
  }

  ghost predicate DeliveredForGood(rows: Rows, x: Id) {
    x in rows && rows[x].mergeOf.None? && DeliveryOf(rows, x).Delivered? && HasOrNeedsMerge(rows, x)
  }

  lemma DeliveredSurvivesStep(s: State, step: Step, x: Id)
    requires Inv(s) && DeliveredForGood(s.table.rows, x)
    ensures DeliveredForGood(Next(s, step).table.rows, x)
  {
    var before, after := s.table.rows, Next(s, step).table.rows;
    StepKeepsInv(s, step);
    StepRespects(s, step, x);
    if HasMerge(before, x) {
      var m := MergeFor(before, x).value;
      StepRespects(s, step, m);
      MergeIsTheOnlyOne(after, x, m);
    }
  }

  /** Once a Git source is delivered, every interleaving keeps it delivered. */
  lemma {:induction false} DeliveredSurvivesRun(s: State, steps: seq<Step>, x: Id)
    requires Inv(s) && DeliveredForGood(s.table.rows, x)
    ensures DeliveredForGood(Run(s, steps).table.rows, x)
    decreases |steps|
  {
    if steps != [] {
      DeliveredSurvivesStep(s, steps[0], x);
      StepKeepsInv(s, steps[0]);
      DeliveredSurvivesRun(Next(s, steps[0]), steps[1..], x);
    }
  }

  ghost predicate StaysDelivered(s: State, x: Id) {
    forall steps: seq<Step> :: x in Run(s, steps).table.rows && DeliveryOf(Run(s, steps).table.rows, x).Delivered?
  }

  /**
    Delivery is permanent exactly for sources that have a worktree branch or a
    merge task: any other finished task can be sent back to the queue.
   */
  lemma DeliveryIsPermanentExactly(s: State, x: Id)
    requires Inv(s) && x in s.table.rows && DeliveryOf(s.table.rows, x).Delivered?
    ensures StaysDelivered(s, x) <==> HasOrNeedsMerge(s.table.rows, x)
  {
    if HasOrNeedsMerge(s.table.rows, x) {
      forall steps: seq<Step>
        ensures x in Run(s, steps).table.rows && DeliveryOf(Run(s, steps).table.rows, x).Delivered?
      {
        DeliveredSurvivesRun(s, steps, x);
      }
    } else {
      RequeueUndelivers(s, x);
    }
  }

  lemma RunTwo(s: State, a: Step, b: Step)
    ensures Run(s, [a, b]) == Next(Next(s, a), b)
  {
    assert [a, b][1..] == [b] && [b][1..] == [];
    assert Run(Next(s, a), [b]) == Run(Next(Next(s, a), b), []);
  }

  lemma RequeueUndelivers(s: State, x: Id)
    requires Inv(s) && x in s.table.rows && DeliveryOf(s.table.rows, x).Delivered?
    requires !HasOrNeedsMerge(s.table.rows, x)
    ensures !StaysDelivered(s, x)
  {
    var intent := Requeue(x, s.table.rows[x].revision);
    var steps := [Begin(intent), Write(intent, false, 0)];
    assert Allowed(s.table.rows, intent);
    var s1 := Next(s, steps[0]);
    assert intent in s1.intents && s1.table == s.table;
    var s2 := Next(s1, steps[1]);
    assert s2.table.rows[x].status.Queued?;
    RunTwo(s, steps[0], steps[1]);
    assert DeliveryOf(Run(s, steps).table.rows, x).Pending?;
  }

  /**
    The dispatcher checks a dependency and claims the task later.  If the check
    passed because a Git source was delivered, it still passes at the claim.
   */
  lemma {:induction false} CheckSurvivesUntilClaim(s: State, steps: seq<Step>, edges: Edges, id: Id, source: Id)
    requires Inv(s) && id in s.table.rows && EdgesOf(edges, id) == map[]
    requires s.table.rows[id].dependsOn == Some(source)
    requires s.table.rows[id].mode.Strong? || s.table.rows[id].mode.Weak?
    requires DeliveredForGood(s.table.rows, source)
    ensures CheckTaskDependency(s.table.rows, edges, id) == Success(READY)
    ensures id in Run(s, steps).table.rows
    ensures CheckTaskDependency(Run(s, steps).table.rows, edges, id) == Success(READY)
    decreases |steps|
  {
    if steps != [] {
      StepRespects(s, steps[0], id);
      DeliveredSurvivesStep(s, steps[0], source);
      StepKeepsInv(s, steps[0]);
      CheckSurvivesUntilClaim(Next(s, steps[0]), steps[1..], edges, id, source);
    }
  }

  // ---- Delivery comes from a merge ----

  /** A source whose code goes through Git, and was not found to be unchanged, counts as delivered. */
  ghost predicate DeliveredByGit(rows: Rows, x: Id) {
    && x in rows && rows[x].mergeOf.None? && !rows[x].mergeSkipped && HasOrNeedsMerge(rows, x)
    && DeliveryOf(rows, x).Delivered?
  }

  /** The executor finishes the merge task of `x`, which it had claimed or started. */
  ghost predicate FinishesMergeOf(rows: Rows, step: Step, x: Id) {
    && step.FinishPlain? && step.id in rows && rows[step.id].mergeOf == Some(x)
    && rows[step.id].status in {Status.Claimed, Running}
  }

  lemma DeliveredByMergeTask(rows: Rows, x: Id) returns (m: Id)
    requires DeliveredByGit(rows, x)
    ensures m in rows && rows[m].mergeOf == Some(x) && rows[m].status.Succeeded? && rows[x].status.Succeeded?
  {
    m := MergeFor(rows, x).value;
  }

  lemma MergeIsBornQueued(s: State, step: Step, m: Id)
    requires m in Next(s, step).table.rows && m !in s.table.rows && Next(s, step).table.rows[m].mergeOf.Some?
    ensures Next(s, step).table.rows[m].status.Queued?
  {
  }

  /** No step makes a merge task succeed but its own finish, and none is born finished. */
  lemma MergeSucceedsByFinishing(s: State, step: Step, m: Id, x: Id)
    requires Inv(s) && m in Next(s, step).table.rows
    requires Next(s, step).table.rows[m].mergeOf == Some(x) && Next(s, step).table.rows[m].status.Succeeded?
    requires m in s.table.rows ==> !s.table.rows[m].status.Succeeded?
    ensures FinishesMergeOf(s.table.rows, step, x) && step.id == m
  {
    if m in s.table.rows {
      StepRespects(s, step, m);
      assert MergeTaskIsSound(s.table.rows, m);
    } else {
      MergeIsBornQueued(s, step, m);
      assert false;
    }
  }

  lemma NewlyDelivered(s: State, step: Step, x: Id)
    requires Inv(s) && !DeliveredByGit(s.table.rows, x) && DeliveredByGit(Next(s, step).table.rows, x)
    ensures FinishesMergeOf(s.table.rows, step, x)
  {
    var before, after := s.table.rows, Next(s, step).table.rows;
    var m := DeliveredByMergeTask(after, x);
    StepKeepsInv(s, step);
    if m in before && before[m].status.Succeeded? {
      StepRespects(s, step, m);
      assert MergeTaskIsSound(before, m);
      MergeIsTheOnlyOne(before, x, m);
      assert m in MergeTasks(before, x);
      StepRespects(s, step, x);
      assert false;
    }
    MergeSucceedsByFinishing(s, step, m, x);
  }

  /** A Git source becomes delivered in exactly the step that finishes its merge task. */
  lemma DeliveredByFinishingExactly(s: State, step: Step, x: Id)
    requires Inv(s) && !DeliveredByGit(s.table.rows, x)
    requires x in s.table.rows && !s.table.rows[x].mergeSkipped
    ensures DeliveredByGit(Next(s, step).table.rows, x) <==> FinishesMergeOf(s.table.rows, step, x)
  {
    if DeliveredByGit(Next(s, step).table.rows, x) { NewlyDelivered(s, step, x); }
    if FinishesMergeOf(s.table.rows, step, x) { FinishedMergeDelivers(s, step, x); }
  }

  lemma FinishedMergeDelivers(s: State, step: Step, x: Id)
    requires Inv(s) && x in s.table.rows && !s.table.rows[x].mergeSkipped && FinishesMergeOf(s.table.rows, step, x)
    ensures DeliveredByGit(Next(s, step).table.rows, x)
  {
    var m, after := step.id, Next(s, step).table.rows;
    assert MergeTaskIsSound(s.table.rows, m);
    StepKeepsInv(s, step);
    MergeIsTheOnlyOne(after, x, m);
    assert m in MergeTasks(after, x);
  }

  /** However a run goes, a Git source that is delivered in the end had its merge task finished on the way. */
  lemma {:induction false} DeliveryTakesAMerge(s: State, steps: seq<Step>, x: Id) returns (k: nat)
    requires Inv(s) && !DeliveredByGit(s.table.rows, x) && DeliveredByGit(Run(s, steps).table.rows, x)
    ensures k < |steps| && FinishesMergeOf(Run(s, steps[..k]).table.rows, steps[k], x)
    decreases |steps|
  {
    var next := Next(s, steps[0]);
    StepKeepsInv(s, steps[0]);
    if DeliveredByGit(next.table.rows, x) {
      NewlyDelivered(s, steps[0], x);
      k := 0;
    } else {
      var j := DeliveryTakesAMerge(next, steps[1..], x);
      k := j + 1;
      assert steps[..k][1..] == steps[1..][..j] && steps[..k][0] == steps[0];
    }
  }

  /** A task under review gets a merge task only by the approval of what awaits review, or once it has succeeded. */
  lemma MergeNeedsApproval(s: State, step: Step, x: Id)
    requires Inv(s) && x in s.table.rows && s.table.rows[x].perm.Review?
    requires !HasMerge(s.table.rows, x) && HasMerge(Next(s, step).table.rows, x)
    ensures || (step.Write? && step.intent == Approve(x, s.table.rows[x].revision) && step.changed
                && s.table.rows[x].status.AwaitingReview?)
            || (step == Ensure(x, step.now) && s.table.rows[x].status.Succeeded? && s.table.rows[x].worktreeBranch != "")
  {
    var before, after := s.table.rows, Next(s, step).table.rows;
    var m :| m in MergeTasks(after, x);
    assert forall y :: y in before ==> y !in MergeTasks(before, x);
    if m in before { StepRespects(s, step, m); }
  }

  // ---- What finishes a Git source ----

  /** A Git source under review succeeds, its code not found unchanged, only by the approval of what awaits review. */
  lemma ReviewNeedsApproval(s: State, step: Step, x: Id)
    requires x in s.table.rows && s.table.rows[x].perm.Review? && s.table.rows[x].mergeOf.None?
    requires s.table.rows[x].worktreeBranch != "" && !s.table.rows[x].status.Succeeded?
    requires var after := Next(s, step).table.rows;
             KeysIssued(s.table.rows, s.table.lastId) && x in after && after[x].status.Succeeded? && !after[x].mergeSkipped
    ensures step.Write? && step.intent == Approve(x, s.table.rows[x].revision) && step.changed
            && s.table.rows[x].status.AwaitingReview?
  {
  }

  lemma InsertLeavesMerge(t: Table, x: Id, now: int)
    requires x in t.rows && InsertMerge(t, x, now).Success?
    ensures HasMerge(InsertMerge(t, x, now).value.rows, x)
  {
    assert t.lastId + 1 in MergeTasks(InsertMerge(t, x, now).value.rows, x);
  }

  lemma TransactionLeavesMerge(t: Table, x: Id, expected: nat, now: int)
    ensures AfterComplete(t, x, now).Success? ==> HasMerge(AfterComplete(t, x, now).value.rows, x)
    ensures AfterSessionDelivery(t, x, now).Success? ==> HasMerge(AfterSessionDelivery(t, x, now).value.rows, x)
    ensures AfterApproval(t, x, expected, now).Success? ==> HasMerge(AfterApproval(t, x, expected, now).value.rows, x)
  {
    if x in t.rows && InsertMerge(SetStatus(t, x, Succeeded), x, now).Success? {
      InsertLeavesMerge(SetStatus(t, x, Succeeded), x, now);
    }
  }

  /** A source succeeds without a merge task only when it has no branch, or by the fallback that the reconciler repairs. */
  lemma SucceedsWithoutMerge(s: State, step: Step, x: Id)
    requires KeysIssued(s.table.rows, s.table.lastId)
    requires x in s.table.rows && s.table.rows[x].mergeOf.None? && !s.table.rows[x].status.Succeeded?
    requires var after := Next(s, step).table.rows;
             x in after && after[x].status.Succeeded? && !after[x].mergeSkipped && !HasMerge(after, x)
    ensures (step == FinishPlain(x) && s.table.rows[x].worktreeBranch == "") || step == MarkAwaitingMerge(x)
  {
    match step
    case Complete(id, now) => TransactionLeavesMerge(s.table, x, 0, now);
    case DeliverSession(id, now) => TransactionLeavesMerge(s.table, x, 0, now);
    case Write(intent, changed, now) => TransactionLeavesMerge(s.table, x, intent.revision, now);
    case _ =>
  }

  /** A running task without a branch or a merge is delivered when it finishes. */
  lemma PlainFinishDelivers(s: State, x: Id)
    requires Inv(s) && x in s.table.rows && s.table.rows[x].status in {Status.Claimed, Running}
    requires s.table.rows[x].mergeOf.None? && s.table.rows[x].worktreeBranch == ""
    ensures DeliveryOf(Next(s, FinishPlain(x)).table.rows, x).Delivered?
  {
    var before, after := s.table.rows, Next(s, FinishPlain(x)).table.rows;
    assert MergeTasks(after, x) == MergeTasks(before, x);
  }

  /** A merge is skipped only for a task that ends without changes, or by the approval of what awaits review. */
  lemma SkippingNeedsReason(s: State, step: Step, x: Id)
    requires KeysIssued(s.table.rows, s.table.lastId) && x in s.table.rows && !s.table.rows[x].mergeSkipped
    requires x in Next(s, step).table.rows && Next(s, step).table.rows[x].mergeSkipped
    ensures s.table.rows[x].status in {Status.Claimed, Running, AwaitingReview}
    ensures if s.table.rows[x].status.AwaitingReview?
            then step.Write? && step.intent == Approve(x, s.table.rows[x].revision) && !step.changed
            else step == FinishUnchanged(x) && s.table.rows[x].worktreeBranch != "" && s.table.rows[x].mergeOf.None?
  {
  }

  /** The fallback that marks a finished source leaves it, and no other, to the reconciler. */
  lemma MarkedSourceIsOwing(s: State, x: Id)
    requires Inv(s) && x in s.table.rows && !s.table.rows[x].mergeSkipped
    ensures var before, after := s.table.rows, Next(s, MarkAwaitingMerge(x)).table.rows;
            && ((before[x].status in {Status.Claimed, Running} && before[x].perm.Full? && before[x].mergeOf.None?
                 && before[x].worktreeBranch != "") ==> x in OwingSources(after))
            && (x in OwingSources(after) || after == before)
            && OwingSources(after) <= OwingSources(before) + {x}
  {
    var before, after := s.table.rows, Next(s, MarkAwaitingMerge(x)).table.rows;
    StepKeepsInv(s, MarkAwaitingMerge(x));
    forall y | y in before ensures MergeTasks(after, y) == MergeTasks(before, y) {
    }
    if HasMerge(before, x) {
      var m :| m in MergeTasks(before, x);
      assert MergeTaskIsSound(before, m);
    }
  }
}
