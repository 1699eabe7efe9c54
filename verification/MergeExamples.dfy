/** Concrete states in which a delivery promise fails, for want of what the code relies on. */
module MergeExamples {
  import opened Wrappers
  import opened Digraph
  import opened Tasks
  import opened Delivery
  import opened MergeTransactions
  import opened MergeProtocol
  import opened MergeLaws

  function ExampleTask(status: Status, perm: Permission, mergeOf: Option<Id>, branch: string, revision: nat): Task {
    Task(OrdinaryTask, status, perm, false, Some(1), Some(7), None, None, Independent, false, mergeOf, false, None,
         None, branch, "", 1, 0, revision)
  }

  // ---- Delivery without a branch is not permanent ----

  const NEW_TASK := ExampleTask(Queued, Full, None, "", 1)

  const DONE_TASK := ExampleTask(Succeeded, Full, None, "", 4)

  lemma PlainTaskIsDelivered()
    ensures Run(INITIAL, [Create(NEW_TASK), Step.Claim(1), Start(1), FinishPlain(1)]) ==
            State(Table(map[1 := DONE_TASK], 1), {})
  {
    var s1 := State(Table(map[1 := NEW_TASK], 1), {});
    var s2 := State(Table(map[1 := NEW_TASK.(status := Status.Claimed, revision := 2)], 1), {});
    var s3 := State(Table(map[1 := NEW_TASK.(status := Running, revision := 3)], 1), {});
    assert Next(INITIAL, Create(NEW_TASK)) == s1;
    assert Next(s1, Step.Claim(1)) == s2;
    assert Next(s2, Start(1)) == s3;
    RunTwo(s2, Start(1), FinishPlain(1));
    var steps := [Create(NEW_TASK), Step.Claim(1), Start(1), FinishPlain(1)];
    assert steps[1..][1..] == [Start(1), FinishPlain(1)];
    assert Run(INITIAL, steps) == Run(s1, steps[1..]) == Run(s2, steps[1..][1..]);
  }

  /** A task without a branch is created, runs and counts as delivered, and a requeue takes that back. */
  lemma PlainDeliveryIsTakenBack()
    ensures var s := Run(INITIAL, [Create(NEW_TASK), Step.Claim(1), Start(1), FinishPlain(1)]);
            && 1 in s.table.rows && DeliveryOf(s.table.rows, 1).Delivered? && !StaysDelivered(s, 1)
  {
    var steps := [Create(NEW_TASK), Step.Claim(1), Start(1), FinishPlain(1)];
    PlainTaskIsDelivered();
    RunKeepsInv(INITIAL, steps);
    var s := Run(INITIAL, steps);
    assert MergeTasks(s.table.rows, 1) == {};
    DeliveryIsPermanentExactly(s, 1);
  }

  // ---- Approving a merge task ----

  /** Were a merge task under review permission, its approval would give it a merge task of its own. */
  lemma ReviewedMergeTaskIsMerged()
    ensures var source, merge := ExampleTask(Succeeded, Full, None, "b", 1), ExampleTask(AwaitingReview, Review, Some(1), "", 1);
            var t := Table(map[1 := source, 2 := merge], 2);
            var r := AfterApproval(t, 2, 1, 0);
            r.Success? && 3 in r.value.rows && r.value.rows[3].mergeOf == Some(2)
  {
    var source, merge := ExampleTask(Succeeded, Full, None, "b", 1), ExampleTask(AwaitingReview, Review, Some(1), "", 1);
    var t := Table(map[1 := source, 2 := merge], 2);
    assert MergeTasks(t.rows, 2) == {};
    ApprovalReliesOnPermission(t, 2, 0);
  }

  // ---- A deletion that stops half-way ----

  /**
    Deleting a task first cancels it. If the deletion then stops, a source that has a
    merge task may be requeued, and can no longer finish: the index refuses a second merge.
   */
  lemma CancelledSourceCannotFinishAgain(t: Table, id: Id, now: int)
    requires id in t.rows && t.rows[id].status.Cancelled? && t.rows[id].perm.Full? && t.rows[id].mergeOf.None?
    requires HasMerge(t.rows, id)
    ensures Allowed(t.rows, Requeue(id, t.rows[id].revision))
    ensures var queued := SetStatus(t, id, Queued);
            var running := SetStatus(SetStatus(queued, id, Status.Claimed), id, Running);
            && AfterClaim(queued, id) == Some(SetStatus(queued, id, Status.Claimed))
            && AfterComplete(running, id, now) == Failure(UniqueIndexViolated)
  {
    var queued := SetStatus(t, id, Queued);
    var claimed := SetStatus(queued, id, Status.Claimed);
    var running := SetStatus(claimed, id, Running);
    PutKeepsMergeTasks(t, id, t.rows[id].(status := Queued), id);
    PutKeepsMergeTasks(queued, id, queued.rows[id].(status := Status.Claimed), id);
    PutKeepsMergeTasks(claimed, id, claimed.rows[id].(status := Running), id);
    PutKeepsMergeTasks(running, id, running.rows[id].(status := Succeeded), id);
  }
}
