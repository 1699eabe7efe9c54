/**
  Concrete runs of the dependency transactions that end where a promise fails: each
  starts from an empty table and takes committed operations only.
 */
module DependencyExamples {
  import opened Wrappers
  import opened Digraph
  import opened Sequences
  import opened Tasks
  import opened ProjectOrder
  import opened DependencyGraph
  import opened DependencyEditing
  import opened DependencyRuns
  import TaskCreation
  import Reordering
  import ReorderingLaws

  // ---- Reachable tables ----

  ghost predicate Reachable(t: Table) {
    exists tables, ops :: IsRun(tables, ops) && tables[|tables| - 1] == t
  }

  lemma StepIsReachable(a: Table, op: Operation, b: Table)
    requires Reachable(a) && Committed(a, op, b)
    ensures Reachable(b)
  {
    var tables, ops :| IsRun(tables, ops) && tables[|tables| - 1] == a;
    LinkedFurther(Committed, tables, ops, op, b);
    assert IsRun(tables + [b], ops + [op]);
  }

  /** Two projects exist. */
  function At(rows: Rows, lastId: Id, moves: set<Move>): Table {
    Table(rows, lastId, {7, 8}, moves)
  }

  lemma StartIsReachable()
    ensures Reachable(At(map[], 0, {}))
  {
    assert IsRun([At(map[], 0, {})], []);
  }

  lemma CreateIsReachable(rows: Rows, lastId: Id, moves: set<Move>, project: Id, target: Option<Id>, n: nat)
    requires Reachable(At(rows, lastId, moves)) && project in {7, 8}
    requires TaskCreation.IsNextSlot(rows, project, n)
    requires target.Some? ==> EligibleTarget(rows, project, target.value)
    ensures Reachable(At(rows[lastId + 1 := ExampleTask(project, target, n)], lastId + 1, moves))
  {
    StepIsReachable(At(rows, lastId, moves), Create(ExampleTask(project, target, 0)),
      At(rows[lastId + 1 := ExampleTask(project, target, n)], lastId + 1, moves));
  }

  function MoveInto(project: Id): TaskEdit {
    TaskEdit(Keep, Keep, Set(Some(project)), Keep, Keep, Keep, Keep)
  }

  lemma BeginIsReachable(rows: Rows, lastId: Id, id: Id, project: Id)
    requires Reachable(At(rows, lastId, {})) && MayMove(At(rows, lastId, {}), id, MoveInto(project))
    ensures Reachable(At(rows, lastId, {Move(id, rows[id].revision, MoveInto(project))}))
  {
    StepIsReachable(At(rows, lastId, {}), BeginMove(id, MoveInto(project)),
      At(rows, lastId, {Move(id, rows[id].revision, MoveInto(project))}));
  }

  lemma WriteIsReachable(rows: Rows, lastId: Id, id: Id, project: Id)
    requires project in {7, 8}
    requires id in rows && Reachable(At(rows, lastId, {Move(id, rows[id].revision, MoveInto(project))}))
    ensures Reachable(At(rows[id := Updated(rows[id], MoveInto(project))], lastId, {}))
  {
    var move := Move(id, rows[id].revision, MoveInto(project));
    StepIsReachable(At(rows, lastId, {move}), WriteMove(move),
      At(rows[id := Updated(rows[id], MoveInto(project))], lastId, {}));
  }

  lemma EditIsReachable(rows: Rows, lastId: Id, moves: set<Move>, id: Id, edit: TaskEdit, after: Rows)
    requires id in rows && Reachable(At(rows, lastId, moves)) && edit.project.Keep?
    requires Commits(rows, {7, 8}, id, rows[id].revision, edit, after)
    ensures Reachable(At(after, lastId, moves))
  {
    StepIsReachable(At(rows, lastId, moves), Edit(id, rows[id].revision, edit), At(after, lastId, moves));
  }

  // ---- A move overtaken by a new dependent ----

  function OneTask(): Rows { map[1 := ExampleTask(7, None, 1)] }

  function WithDependent(): Rows { map[1 := ExampleTask(7, None, 1), 2 := ExampleTask(7, Some(1), 2)] }

  /** Task 1 now belongs to project 8, and task 2 of project 7 waits for it. */
  function Crossed(): Rows { WithDependent()[1 := Updated(WithDependent()[1], MoveInto(8))] }

  /**
    The guard of a move finds no dependents; then a task that depends on the moved one
    is created; then the move is written, and an edge crosses projects.
   */
  lemma OvertakenMoveCrossesProjects()
    ensures Reachable(At(Crossed(), 2, {})) && !EdgesStayInProject(Crossed())
  {
    StartIsReachable();
    CreateIsReachable(map[], 0, {}, 7, None, 1);
    BeginIsReachable(OneTask(), 1, 1, 8);
    var move := Move(1, 1, MoveInto(8));
    CreateIsReachable(OneTask(), 1, {move}, 7, Some(1), 2);
    assert OneTask()[2 := ExampleTask(7, Some(1), 2)] == WithDependent();
    WriteIsReachable(WithDependent(), 2, 1, 8);
    assert !EdgeStaysInProject(Crossed(), 2, 1);
  }

  // ---- Two such moves let a cycle through ----

  const WAIT_FOR_3 := TaskEdit(Set(Strong), Set(Some(3)), Keep, Keep, Keep, Keep, Keep)

  function WithThird(): Rows { Crossed()[3 := ExampleTask(8, None, 2)] }

  function Waiting(): Rows { WithThird()[1 := Edited(WithThird()[1], WAIT_FOR_3, Strong, Some(3))] }

  function CrossedTwice(): Rows { Waiting()[3 := Updated(Waiting()[3], MoveInto(7))] }

  function Cyclic(): Rows { CrossedTwice()[3 := Edited(CrossedTwice()[3], MAKE_AUTOMATIC, Weak, Some(2))] }

  lemma WaitForThirdCommits()
    ensures Commits(WithThird(), {7, 8}, 1, 2, WAIT_FOR_3, Waiting())
  {
    var g := Dependencies(WithThird());
    assert g == map[2 := 1];
    ReachesUnfold(g, 3, 1);
    var p := ProjectDependencies(Waiting(), 8);
    assert p == map[1 := 3];
    RankedIsAcyclic(p, x => if x == 1 then 1 else 0);
  }

  lemma ThirdFollowsSecond()
    ensures Predecessor(Ordered(CrossedTwice(), 7), 3) == Some(2)
  {
    var rows := CrossedTwice();
    assert Sorted(rows, [2, 3]);
    SortedListingIsUnique(rows, Ordered(rows, 7), [2, 3]);
    PredecessorOfListed([2, 3], 1);
  }

  lemma AutomaticEditClosesCycle()
    ensures Commits(CrossedTwice(), {7, 8}, 3, 2, MAKE_AUTOMATIC, Cyclic())
  {
    ThirdFollowsSecond();
    CyclicProjectPasses();
    AutomaticEditCommits(CrossedTwice(), {7, 8}, 3, 7);
  }

  /** The check of project 7 does not see the edge from task 1, which left it. */
  lemma CyclicProjectPasses()
    ensures Acyclic(ProjectDependencies(Cyclic(), 7))
  {
    var p := ProjectDependencies(Cyclic(), 7);
    assert p == map[2 := 1, 3 := 2];
    RankedIsAcyclic(p, x => if x == 3 then 2 else if x == 2 then 1 else 0);
  }

  lemma WaitingIsReachable()
    ensures Reachable(At(Waiting(), 3, {Move(3, 1, MoveInto(7))}))
  {
    OvertakenMoveCrossesProjects();
    CreateIsReachable(Crossed(), 2, {}, 8, None, 2);
    BeginIsReachable(WithThird(), 3, 3, 7);
    WaitForThirdCommits();
    EditIsReachable(WithThird(), 3, {Move(3, 1, MoveInto(7))}, 1, WAIT_FOR_3, Waiting());
  }

  /** From an empty table, two overtaken moves and two edits commit a dependency cycle. */
  lemma OvertakenMovesCommitCycle()
    ensures Reachable(At(Cyclic(), 3, {})) && !Acyclic(Dependencies(Cyclic()))
  {
    WaitingIsReachable();
    WriteIsReachable(Waiting(), 3, 3, 7);
    AutomaticEditClosesCycle();
    EditIsReachable(CrossedTwice(), 3, {}, 3, MAKE_AUTOMATIC, Cyclic());
    CyclicHasCycle();
  }

  lemma CyclicHasCycle()
    ensures !Acyclic(Dependencies(Cyclic()))
  {
    var g := Dependencies(Cyclic());
    assert g == map[1 := 3, 2 := 1, 3 := 2];
    assert Walk(g, 2, 1) == Some(1) && Walk(g, 3, 2) == Some(1) && Walk(g, 1, 3) == Some(1);
    assert OnCycle(g, 1);
  }

  /** On a sound table, an edit that moves a task with a dependent commits and breaks soundness. */
  lemma MovingEditBreaksSoundness()
    ensures var edit := MoveInto(8).(mode := Set(Independent));
            var after := WithDependent()[1 := Edited(WithDependent()[1], edit, Independent, None)];
            Sound(WithDependent()) && Commits(WithDependent(), {7, 8}, 1, 1, edit, after) && !Sound(after)
  {
    var rows := WithDependent();
    var edit := MoveInto(8).(mode := Set(Independent));
    var after := rows[1 := Edited(rows[1], edit, Independent, None)];
    assert Dependencies(rows) == map[2 := 1];
    RankedIsAcyclic(Dependencies(rows), x => if x == 2 then 1 else 0);
    assert ProjectDependencies(after, 8) == map[];
    RankedIsAcyclic(ProjectDependencies(after, 8), x => 0);
    assert rows[2].dependsOn == Some(1);
  }

  // ---- A definition that moves ----

  const DEFINITION := ExampleTask(7, None, 1).(kind := WorkflowDefinition, status := OtherStatus("adopted"))

  /** A workflow definition of project 7, and an automatic task that came after it. */
  function AfterDefinition(): Rows { map[1 := DEFINITION, 2 := ExampleTask(7, Some(1), 2).(mode := Weak)] }

  function Redirected(): Rows { AfterDefinition()[1 := Redefined(DEFINITION, "", Some(8))] }

  lemma AfterDefinitionIsReachable()
    ensures Reachable(At(AfterDefinition(), 2, {}))
  {
    StartIsReachable();
    var rows: Rows := map[1 := DEFINITION];
    StepIsReachable(At(map[], 0, {}), Create(DEFINITION.(sortOrder := 0)), At(rows, 1, {}));
    DefinitionIsLatest();
    StepIsReachable(At(rows, 1, {}), Create(ExampleTask(7, None, 0).(mode := Weak)), At(AfterDefinition(), 2, {}));
  }

  lemma DefinitionIsLatest()
    ensures var rows: Rows := map[1 := DEFINITION];
            TaskCreation.IsLatest(rows, 7, Some(1)) && TaskCreation.IsNextSlot(rows, 7, 2)
  {
    var rows: Rows := map[1 := DEFINITION];
    assert InProject(rows, 7, 1) && rows[1].sortOrder == 1;
  }

  /** A new version of a definition names another project: the edge of the task after it crosses projects. */
  lemma RedefinitionCrossesProjects()
    ensures Reachable(At(Redirected(), 2, {})) && !EdgesStayInProject(Redirected())
  {
    AfterDefinitionIsReachable();
    StepIsReachable(At(AfterDefinition(), 2, {}), Redefine(1, 1, "", Some(8)), At(Redirected(), 2, {}));
    assert !EdgeStaysInProject(Redirected(), 2, 1);
  }

  // ---- Slots after a move ----

  /** The first tasks of two projects, one of them moved to the other: both hold slot 1. */
  function Tied(): Rows {
    map[1 := ExampleTask(7, None, 1), 2 := Updated(ExampleTask(8, None, 1), MoveInto(7))]
  }

  lemma TiedIsReachable()
    ensures Reachable(At(Tied(), 2, {}))
  {
    StartIsReachable();
    CreateIsReachable(map[], 0, {}, 7, None, 1);
    CreateIsReachable(OneTask(), 1, {}, 8, None, 1);
    var rows := OneTask()[2 := ExampleTask(8, None, 1)];
    BeginIsReachable(rows, 2, 2, 7);
    WriteIsReachable(rows, 2, 2, 7);
    assert rows[2 := Updated(rows[2], MoveInto(7))] == Tied();
  }

  lemma TiedOrder()
    ensures Ordered(Tied(), 7) == [1, 2]
  {
    assert Sorted(Tied(), [1, 2]);
    SortedListingIsUnique(Tied(), Ordered(Tied(), 7), [1, 2]);
  }

  lemma {:induction false} AllQueued(rows: Rows, order: seq<Id>)
    requires forall id :: id in order ==> id in rows && rows[id].status.Queued? && 0 < rows[id].sortOrder
    ensures Reordering.QueuedIn(rows, order) == order
    ensures forall i :: 0 <= i < |order| ==> Reordering.QueuedSlots(rows, order)[i] == rows[order[i]].sortOrder
    decreases |order|
  {
    if order != [] {
      var front, last := order[..|order| - 1], order[|order| - 1];
      assert order == front + [last];
      AllQueued(rows, front);
    }
  }

  lemma TiedRequest()
    ensures Reordering.IsRequest(Tied(), Ordered(Tied(), 7), [2, 1])
    ensures var slots := Reordering.QueuedSlots(Tied(), Ordered(Tied(), 7)); slots[0] == slots[1]
  {
    var order := Ordered(Tied(), 7);
    TiedOrder();
    AllQueued(Tied(), order);
    ReorderingLaws.SwapIsRequest(Tied(), order, order, 0);
    assert ReorderingLaws.Swapped(order, 0) == [2, 1];
  }

  /** A full request to put task 2 before task 1 commits nothing of what it asks. */
  lemma TiedSlotsIgnoreRequest()
    ensures Reachable(At(Tied(), 2, {}))
    ensures var request := [2, 1];
            && Reordering.IsRequest(Tied(), Ordered(Tied(), 7), request)
            && !ReorderingLaws.Honoured(Tied(), 7, request)
  {
    TiedIsReachable();
    TiedRequest();
    ReorderingLaws.TieDefiesRequest(Tied(), 7, [2, 1], 0);
  }

  /** A task created outside any project has no slot, and gets none when it is moved into one. */
  function Unslotted(): Rows { map[1 := Updated(ExampleTask(7, None, 0).(project := None), MoveInto(7))] }

  function Overtaken(): Rows { Unslotted()[2 := ExampleTask(7, Some(1), 1).(mode := Weak)] }

  lemma UnslottedIsReachable()
    ensures Reachable(At(Unslotted(), 1, {}))
  {
    StartIsReachable();
    var loose := ExampleTask(7, None, 0).(project := None);
    var rows: Rows := map[1 := loose];
    StepIsReachable(At(map[], 0, {}), Create(loose), At(rows, 1, {}));
    BeginIsReachable(rows, 1, 1, 7);
    WriteIsReachable(rows, 1, 1, 7);
    assert rows[1 := Updated(rows[1], MoveInto(7))] == Unslotted();
  }

  /** A new automatic task waits for a task without a slot, yet stands before it. */
  lemma UnslottedTaskIsOvertaken()
    ensures Reachable(At(Overtaken(), 2, {}))
    ensures Overtaken()[2].dependsOn == Some(1) && Ordered(Overtaken(), 7) == [2, 1]
  {
    UnslottedIsReachable();
    StepIsReachable(At(Unslotted(), 1, {}), Create(ExampleTask(7, None, 0).(mode := Weak)), At(Overtaken(), 2, {}));
    assert Sorted(Overtaken(), [2, 1]);
    SortedListingIsUnique(Overtaken(), Ordered(Overtaken(), 7), [2, 1]);
  }
}
