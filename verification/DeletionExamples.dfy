/**
  Tables that ordinary requests produce and whose tasks cannot be deleted.
 */
module DeletionExamples {
  import opened Wrappers
  import opened Digraph
  import opened Tasks
  import opened DependencyGraph
  import opened DependencyEditing
  import opened DependencyRuns
  import opened DependencyExamples
  import opened TaskRemoval
  import opened TaskDeletion
  import TaskCreation

  lemma AutomaticIsReachable(rows: Rows, lastId: Id, parent: Option<Id>, target: Option<Id>, n: nat)
    requires Reachable(At(rows, lastId, {}))
    requires TaskCreation.IsNextSlot(rows, 7, n) && TaskCreation.IsLatest(rows, 7, target)
    requires parent.Some? ==> parent.value in rows
    ensures Reachable(At(rows[lastId + 1 := Automatic(parent, target, n)], lastId + 1, {}))
  {
    var draft := Automatic(parent, None, 0);
    StepIsReachable(At(rows, lastId, {}), Create(draft),
      At(rows[lastId + 1 := Automatic(parent, target, n)], lastId + 1, {}));
  }

  function Automatic(parent: Option<Id>, target: Option<Id>, n: nat): Task {
    ExampleTask(7, target, n).(mode := Weak, parent := parent)
  }

  /** A task and two subtasks, created one after the other in one project. */
  function Family(): Rows {
    map[1 := Automatic(None, None, 1), 2 := Automatic(Some(1), Some(1), 2), 3 := Automatic(Some(1), Some(2), 3)]
  }

  function Elder(): Rows { map[1 := Automatic(None, None, 1)] }

  function Couple(): Rows { map[1 := Automatic(None, None, 1), 2 := Automatic(Some(1), Some(1), 2)] }

  lemma FamilySlots()
    ensures TaskCreation.IsNextSlot(Elder(), 7, 2) && TaskCreation.IsLatest(Elder(), 7, Some(1))
    ensures TaskCreation.IsNextSlot(Couple(), 7, 3) && TaskCreation.IsLatest(Couple(), 7, Some(2))
  {
    assert InProject(Elder(), 7, 1) && Elder()[1].sortOrder == 1;
    assert InProject(Couple(), 7, 2) && Couple()[2].sortOrder == 2;
  }

  lemma FamilyIsReachable()
    ensures Reachable(At(Family(), 3, {}))
  {
    FamilySlots();
    StartIsReachable();
    AutomaticIsReachable(map[], 0, None, None, 1);
    assert map[][0 + 1 := Automatic(None, None, 1)] == Elder();
    AutomaticIsReachable(Elder(), 1, Some(1), Some(1), 2);
    assert Elder()[2 := Automatic(Some(1), Some(1), 2)] == Couple();
    AutomaticIsReachable(Couple(), 2, Some(1), Some(2), 3);
    assert Couple()[3 := Automatic(Some(1), Some(2), 3)] == Family();
  }

  function FamilyRank(id: Id): nat { if id == 1 then 1 else 0 }

  lemma FamilyTree()
    ensures Ranked(Family(), FamilyRank) && IsTaskTree(Family(), 1, {1, 2, 3})
    ensures 2 in Children(Family(), 1) && 3 in Children(Family(), 1) && Family()[3].dependsOn == Some(2)
    ensures forall x :: !Blocks(Family(), {1, 2, 3}, x)
  {
  }

  /** Nobody outside waits for the tree of task 1, and still its deletion cannot commit. */
  lemma SubtasksPreventDeletion(edges: Edges, runs: Runs)
    ensures Reachable(At(Family(), 3, {})) && IsTaskTree(Family(), 1, {1, 2, 3})
    ensures forall x :: !Blocks(Family(), {1, 2, 3}, x)
    ensures Ranked(Family(), FamilyRank) && !MayDelete(Family(), edges, runs, FamilyRank, 1, {1, 2, 3})
  {
    FamilyIsReachable();
    FamilyTree();
    WaitingSiblingPreventsDeletion(Family(), edges, runs, FamilyRank, 1, {1, 2, 3}, 2, 3);
  }

  /** Two tasks spawned by a third, one of them moved below the other. */
  function Spawned(): Rows {
    map[1 := ExampleTask(7, None, 1), 2 := ExampleTask(7, None, 2).(parentSession := Some(1)),
        3 := ExampleTask(7, None, 3).(parentSession := Some(1), parent := Some(2), revision := 2)]
  }

  const MOVE_BELOW_2 := TaskEdit(Keep, Keep, Keep, Keep, Keep, Keep, Keep, Set(Some(2)))

  lemma SpawnIsReachable(rows: Rows, lastId: Id, n: nat)
    requires Reachable(At(rows, lastId, {})) && TaskCreation.IsNextSlot(rows, 7, n) && 1 in rows
    ensures Reachable(At(rows[lastId + 1 := ExampleTask(7, None, n).(parentSession := Some(1))], lastId + 1, {}))
  {
    var draft := ExampleTask(7, None, 0).(parentSession := Some(1));
    StepIsReachable(At(rows, lastId, {}), Create(draft),
      At(rows[lastId + 1 := ExampleTask(7, None, n).(parentSession := Some(1))], lastId + 1, {}));
  }

  lemma SpawnedIsReachable()
    ensures Reachable(At(Spawned(), 3, {}))
  {
    StartIsReachable();
    CreateIsReachable(map[], 0, {}, 7, None, 1);
    SpawnIsReachable(OneTask(), 1, 2);
    var two := OneTask()[2 := ExampleTask(7, None, 2).(parentSession := Some(1))];
    SpawnIsReachable(two, 2, 3);
    var three := two[3 := ExampleTask(7, None, 3).(parentSession := Some(1))];
    StepIsReachable(At(three, 3, {}), Update(3, MOVE_BELOW_2), At(three[3 := Updated(three[3], MOVE_BELOW_2)], 3, {}));
    assert three[3 := Updated(three[3], MOVE_BELOW_2)] == Spawned();
  }

  function SpawnedRank(id: Id): nat { if id == 1 then 2 else if id == 2 then 1 else 0 }

  lemma SpawnedOwners()
    ensures Ranked(Spawned(), SpawnedRank)
    ensures 2 in Owned(Spawned(), 1) && 3 in Owned(Spawned(), 1) && 3 in Owned(Spawned(), 2)
  {
  }

  lemma MovedSpawnPreventsDeletion(edges: Edges, runs: Runs, tree: set<Id>)
    ensures Reachable(At(Spawned(), 3, {}))
    ensures Ranked(Spawned(), SpawnedRank) && !MayDelete(Spawned(), edges, runs, SpawnedRank, 1, tree)
  {
    SpawnedIsReachable();
    SpawnedOwners();
    ChildOwnedTwicePreventsDeletion(Spawned(), edges, runs, SpawnedRank, 1, tree, 2, 3);
  }

  // ---- A removal that never ends ----

  const MOVE_BELOW_1 := TaskEdit(Keep, Keep, Keep, Keep, Keep, Keep, Keep, Set(Some(1)))

  function OwnParent(): Rows { map[1 := Updated(ExampleTask(7, None, 1), MOVE_BELOW_1)] }

  /** A task may be made its own parent; then no rank bounds the descent of its removal. */
  lemma OwnParentHasNoRank(rank: Id -> nat)
    ensures Reachable(At(OwnParent(), 1, {})) && !Ranked(OwnParent(), rank)
  {
    StartIsReachable();
    CreateIsReachable(map[], 0, {}, 7, None, 1);
    StepIsReachable(At(OneTask(), 1, {}), Update(1, MOVE_BELOW_1), At(OwnParent(), 1, {}));
    assert 1 in Owned(OwnParent(), 1);
    OwnOwnerHasNoRank(OwnParent(), rank, 1);
  }

  lemma OwnOwnerHasNoRank(rows: Rows, rank: Id -> nat, id: Id)
    requires id in Owned(rows, id)
    ensures !Ranked(rows, rank)
  {
    var depth := rank(id);
  }
}
