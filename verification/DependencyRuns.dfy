/**
  Whole runs of the dependency-editing transactions.  Moving a task to another
  project takes two steps, as the HTTP layer takes them: a guard reads the task and
  its dependents, and a later write checks only that the task itself is unchanged.
 */
module DependencyRuns {
  import opened Wrappers
  import opened Digraph
  import opened Sequences
  import opened Tasks
  import opened DependencyGraph
  import opened DependencyEditing
  import TaskCreation
  import Reordering
  import ReorderingLaws
  import TaskDeletion
  import TaskRemoval

  /** A project move between its guard, which read the task at `revision`, and its write. */
  datatype Move = Move(id: Id, revision: nat, edit: TaskEdit)

  datatype Table = Table(rows: Rows, lastId: Id, projects: set<Id>, moves: set<Move>)

  datatype Operation =
    | Create(draft: Task)
    | Edit(id: Id, expected: nat, edit: TaskEdit)
    | Update(id: Id, edit: TaskEdit)
    | BeginMove(id: Id, edit: TaskEdit)
    | WriteMove(move: Move)
    | Reorder(project: Id, request: seq<Id>)
    | Delete(root: Id)
    | Redefine(id: Id, expected: nat, cron: string, into: Option<Id>)
    | Purge(ids: set<Id>)
    | AddProject(project: Id)
    | EmptyProject(project: Id)
    | DropProject(project: Id)

  predicate NamesDependency(edit: TaskEdit) { edit.mode.Set? || edit.target.Set? }

  /** The guard of a PATCH that names a project. */
  ghost predicate MayMove(a: Table, id: Id, edit: TaskEdit) {
    && edit.project.Set? && (edit.project.value.Some? ==> edit.project.value.value in a.projects)
    && id in a.rows && a.rows[id].mode.Independent? && a.rows[id].dependsOn.None? && NoDependents(a.rows, id)
  }

  /** A row after an update that does not name its dependency. */
  function Updated(t: Task, edit: TaskEdit): Task {
    Edited(t, edit, t.mode, t.dependsOn)
  }

  ghost predicate MoveCommits(rows: Rows, projects: set<Id>, move: Move, after: Rows) {
    && move.id in rows && rows[move.id].revision == move.revision
    && if NamesDependency(move.edit) then Commits(rows, projects, move.id, move.revision, move.edit, after)
       else KeysExist(rows, projects, move.edit) && after == rows[move.id := Updated(rows[move.id], move.edit)]
  }

  /** The tasks of a project become tasks without one. */
  function Emptied(rows: Rows, project: Id): (after: Rows)
    ensures after.Keys == rows.Keys
  {
    map id | id in rows ::
      if rows[id].project == Some(project) then rows[id].(project := None, revision := rows[id].revision + 1) else rows[id]
  }

  ghost predicate Creates(a: Table, draft: Task, b: Table) {
    && TaskCreation.Rejection(a.rows, a.projects, draft).None?
    && TaskCreation.ReferencesExist(a.rows, a.lastId + 1, draft)
    && b.lastId == a.lastId + 1 && b.lastId in b.rows && TaskCreation.Fits(a.rows, draft, b.rows[b.lastId])
    && b == a.(lastId := b.lastId, rows := a.rows[b.lastId := b.rows[b.lastId]])
  }

  ghost predicate Edits(a: Table, id: Id, expected: nat, edit: TaskEdit, b: Table) {
    edit.project.Keep? && Commits(a.rows, a.projects, id, expected, edit, b.rows) && b == a.(rows := b.rows)
  }

  ghost predicate Updates(a: Table, id: Id, edit: TaskEdit, b: Table) {
    && edit.project.Keep? && !NamesDependency(edit) && id in a.rows && KeysExist(a.rows, a.projects, edit)
    && b == a.(rows := a.rows[id := Updated(a.rows[id], edit)])
  }

  ghost predicate BeginsMove(a: Table, id: Id, edit: TaskEdit, b: Table) {
    MayMove(a, id, edit) && b == a.(moves := a.moves + {Move(id, a.rows[id].revision, edit)})
  }

  ghost predicate WritesMove(a: Table, move: Move, b: Table) {
    && move in a.moves && MoveCommits(a.rows, a.projects, move, b.rows)
    && b == a.(rows := b.rows, moves := a.moves - {move})
  }

  ghost predicate Reorders(a: Table, project: Id, request: seq<Id>, b: Table) {
    Reordering.ReorderOutcome(a.rows, a.projects, project, request) == Success(b.rows) && b == a.(rows := b.rows)
  }

  ghost predicate DeletesTree(a: Table, root: Id, b: Table) {
    && b == a.(rows := b.rows)
    && exists tree, removed :: TaskDeletion.Deletes(a.rows, root, tree, removed, b.rows)
  }

  function Redefined(t: Task, cron: string, project: Option<Id>): Task {
    t.(cron := cron, project := project, revision := t.revision + 1)
  }

  /** A new version of a workflow definition; its project is rewritten whatever depends on the row. */
  ghost predicate Redefines(a: Table, id: Id, expected: nat, cron: string, project: Option<Id>, b: Table) {
    && id in a.rows && a.rows[id].kind.WorkflowDefinition? && a.rows[id].revision == expected
    && (project.Some? ==> project.value in a.projects)
    && b == a.(rows := a.rows[id := Redefined(a.rows[id], cron, project)])
  }

  /** Cleaning up the history, and deleting a role's schedules or a definition: rows go that no other row names. */
  ghost predicate Purges(a: Table, ids: set<Id>, b: Table) {
    && b == a.(rows := a.rows - ids)
    && forall x, y :: x in b.rows && y in ids ==> !TaskRemoval.RefersTo(b.rows[x], y)
  }

  /** Deleting a project takes two statements: its tasks are emptied out, then its row goes if no task names it. */
  ghost predicate DropsProject(a: Table, project: Id, b: Table) {
    && (forall id :: id in a.rows ==> a.rows[id].project != Some(project))
    && b == a.(projects := a.projects - {project})
  }

  /** A committed operation; rejected ones leave the table as it is. */
  ghost predicate Committed(a: Table, op: Operation, b: Table) {
    match op
    case Create(draft) => Creates(a, draft, b)
    case Edit(id, expected, edit) => Edits(a, id, expected, edit, b)
    case Update(id, edit) => Updates(a, id, edit, b)
    case BeginMove(id, edit) => BeginsMove(a, id, edit, b)
    case WriteMove(move) => WritesMove(a, move, b)
    case Reorder(project, request) => Reorders(a, project, request, b)
    case Delete(root) => DeletesTree(a, root, b)
    case Redefine(id, expected, cron, project) => Redefines(a, id, expected, cron, project, b)
    case Purge(ids) => Purges(a, ids, b)
    case AddProject(project) => project !in a.projects && b == a.(projects := a.projects + {project})
    case EmptyProject(project) => b == a.(rows := Emptied(a.rows, project))
    case DropProject(project) => DropsProject(a, project, b)
  }

  /** While the task is as the guard read it, it has no target of its own. */
  ghost predicate MoveIsSound(rows: Rows, lastId: Id, move: Move) {
    && move.id <= lastId && move.edit.project.Set?
    && (move.id in rows ==>
          && move.revision <= rows[move.id].revision
          && (move.revision == rows[move.id].revision ==>
                rows[move.id].mode.Independent? && rows[move.id].dependsOn.None?))
  }

  /** What every run keeps, whatever its moves do. */
  ghost predicate Tidy(t: Table) {
    KeysIssued(t.rows, t.lastId) && forall m :: m in t.moves ==> MoveIsSound(t.rows, t.lastId, m)
  }

  ghost predicate Inv(t: Table) { Sound(t.rows) && Tidy(t) }

  /** A row that leaves its project has no target and no dependents by then. */
  ghost predicate Detachable(rows: Rows, id: Id, project: Option<Id>)
    requires id in rows
  {
    project == rows[id].project || (rows[id].dependsOn.None? && NoDependents(rows, id))
  }

  /** A write moves no task, and a new version no definition, that is tied to others by then. */
  ghost predicate Harmless(a: Table, op: Operation) {
    && (op.WriteMove? && op.move.id in a.rows && op.move.edit.project.Set? ==>
          || op.move.edit.project.value == a.rows[op.move.id].project
          || NoDependents(a.rows, op.move.id))
    && (op.Redefine? && op.id in a.rows ==> Detachable(a.rows, op.id, op.into))
  }

  // ---- Edges of unchanged targets ----

  lemma SameEdgesStayInProject(a: Rows, b: Rows, id: Id, t: Task, x: Id)
    requires Sound(a) && id in a && b == a[id := t]
    requires t.dependsOn == a[id].dependsOn && t.mode == a[id].mode && t.mergeOf == a[id].mergeOf
    requires t.project == a[id].project || (a[id].dependsOn.None? && NoDependents(a, id))
    requires x in b && b[x].dependsOn.Some?
    ensures EdgeStaysInProject(b, x, b[x].dependsOn.value)
  {
    assert EdgeStaysInProject(a, x, a[x].dependsOn.value);
    assert t.project != a[id].project ==> b[x].dependsOn.value != id && x != id;
  }

  lemma SameEdgesKeepSound(a: Rows, b: Rows, id: Id, t: Task)
    requires Sound(a) && id in a && b == a[id := t]
    requires t.dependsOn == a[id].dependsOn && t.mode == a[id].mode && t.mergeOf == a[id].mergeOf
    requires t.project == a[id].project || (a[id].dependsOn.None? && NoDependents(a, id))
    ensures Sound(b)
  {
    assert Dependencies(b) == Dependencies(a);
    forall x | x in b && b[x].dependsOn.Some? ensures EdgeStaysInProject(b, x, b[x].dependsOn.value) {
      SameEdgesStayInProject(a, b, id, t, x);
    }
  }

  /** A row that keeps its target may change its project exactly when nothing ties it to the old one. */
  lemma ProjectChangeKeepsSoundExactly(rows: Rows, id: Id, t: Task)
    requires Sound(rows) && id in rows
    requires t.dependsOn == rows[id].dependsOn && t.mode == rows[id].mode && t.mergeOf == rows[id].mergeOf
    ensures Sound(rows[id := t]) <==> Detachable(rows, id, t.project)
  {
    var after := rows[id := t];
    if Detachable(rows, id, t.project) {
      SameEdgesKeepSound(rows, after, id, t);
    } else if rows[id].dependsOn.Some? {
      TiedEdgeBreaks(rows, id, t, id, rows[id].dependsOn.value);
    } else {
      var x :| x in rows && rows[x].dependsOn == Some(id);
      TiedEdgeBreaks(rows, id, t, x, id);
    }
  }

  lemma TiedEdgeBreaks(rows: Rows, id: Id, t: Task, x: Id, y: Id)
    requires Sound(rows) && id in rows && t.dependsOn == rows[id].dependsOn && t.project != rows[id].project
    requires x in rows && rows[x].dependsOn == Some(y) && (x == id || y == id)
    ensures !Sound(rows[id := t])
  {
    assert EdgeStaysInProject(rows, x, y);
    ReachesSelf(Dependencies(rows), y);
    assert x == y ==> OnCycle(Dependencies(rows), x);
    assert !EdgeStaysInProject(rows[id := t], x, y);
  }

  /** A plain move of a task without a target is sound exactly when nothing depends on it. */
  lemma PlainMoveKeepsSoundExactly(rows: Rows, id: Id, edit: TaskEdit)
    requires Sound(rows) && id in rows && rows[id].dependsOn.None? && edit.project.Set?
    ensures Sound(rows[id := Updated(rows[id], edit)]) <==>
            edit.project.value == rows[id].project || NoDependents(rows, id)
  {
    ProjectChangeKeepsSoundExactly(rows, id, Updated(rows[id], edit));
  }

  /** The write of a move keeps the table sound exactly when the task has no dependents at that moment. */
  lemma WriteKeepsSoundExactly(a: Table, move: Move, b: Table)
    requires Inv(a) && Committed(a, WriteMove(move), b)
    ensures Sound(b.rows) <==>
            move.edit.project.value == a.rows[move.id].project || NoDependents(a.rows, move.id)
  {
    assert MoveIsSound(a.rows, a.lastId, move);
    if NamesDependency(move.edit) {
      EditKeepsSoundExactly(a.rows, a.projects, move.id, move.revision, move.edit, b.rows);
    } else {
      PlainMoveKeepsSoundExactly(a.rows, move.id, move.edit);
    }
  }

  // ---- One step ----

  lemma StepKeepsSound(a: Table, op: Operation, b: Table)
    requires Inv(a) && Committed(a, op, b) && Harmless(a, op)
    ensures Sound(b.rows)
  {
    match op
    case Create(draft) => CreateKeepsSound(a, draft, b);
    case Edit(id, expected, edit) => EditKeepsSoundExactly(a.rows, a.projects, id, expected, edit, b.rows);
    case Update(id, edit) => SameEdgesKeepSound(a.rows, b.rows, id, b.rows[id]);
    case BeginMove(id, edit) =>
    case WriteMove(move) => WriteKeepsSoundExactly(a, move, b);
    case Reorder(project, request) =>
      ReorderingLaws.ReorderKeepsSound(a.rows, a.projects, project, request, b.rows);
    case Delete(root) => DeleteKeepsSound(a, root, b);
    case Redefine(id, _, cron, project) => ProjectChangeKeepsSoundExactly(a.rows, id, Redefined(a.rows[id], cron, project));
    case Purge(ids) => PurgingKeepsSound(a.rows, ids, b.rows);
    case AddProject(project) =>
    case EmptyProject(project) => EmptyingKeepsSound(a.rows, project);
    case DropProject(project) =>
  }

  lemma PurgingKeepsSound(rows: Rows, ids: set<Id>, after: Rows)
    requires Sound(rows) && after == rows - ids
    requires forall x, y :: x in after && y in ids ==> !TaskRemoval.RefersTo(after[x], y)
    ensures Sound(after)
  {
    forall id | id in after ensures !TaskDeletion.PointsInto(after[id], ids) {
      assert after[id].dependsOn.Some? ==> TaskRemoval.RefersTo(after[id], after[id].dependsOn.value);
    }
    TaskDeletion.RemainderIsSound(rows, ids, after);
  }

  /** An edge's two ends leave their project together. */
  lemma EmptyingKeepsSound(rows: Rows, project: Id)
    requires Sound(rows)
    ensures Sound(Emptied(rows, project))
    ensures forall id :: id in rows ==> Emptied(rows, project)[id].project != Some(project)
    ensures forall id :: id in rows && rows[id].project != Some(project) ==> Emptied(rows, project)[id] == rows[id]
    ensures forall id :: id in rows && rows[id].project == Some(project) ==>
              Emptied(rows, project)[id] == rows[id].(project := None, revision := rows[id].revision + 1)
  {
    var after := Emptied(rows, project);
    assert Dependencies(after) == Dependencies(rows);
    forall id | id in after && after[id].dependsOn.Some?
      ensures EdgeStaysInProject(after, id, after[id].dependsOn.value)
    {
      assert EdgeStaysInProject(rows, id, rows[id].dependsOn.value);
    }
  }

  lemma DeleteKeepsSound(a: Table, root: Id, b: Table)
    requires Sound(a.rows) && Committed(a, Delete(root), b)
    ensures Sound(b.rows)
  {
    var tree, removed :| TaskDeletion.Deletes(a.rows, root, tree, removed, b.rows);
    TaskDeletion.DeletionKeepsSound(a.rows, root, tree, removed, b.rows);
  }

  lemma CreateKeepsSound(a: Table, draft: Task, b: Table)
    requires Inv(a) && Committed(a, Create(draft), b)
    ensures Sound(b.rows)
  {
    TaskCreation.CreateKeepsSound(a.rows, a.lastId, a.projects, draft, b.rows[b.lastId], b.rows);
  }

  /** A row that changed at all has a newer revision. */
  ghost predicate Advances(before: Task, after: Task) {
    && before.revision <= after.revision
    && (before.revision == after.revision ==> after == before)
  }

  lemma DeletionAdvances(rows: Rows, tree: set<Id>, id: Id)
    requires id in rows
    ensures Advances(rows[id], TaskDeletion.Cleared(rows, tree)[id])
  {
  }

  lemma EditAdvances(rows: Rows, projects: set<Id>, edited: Id, expected: nat, edit: TaskEdit, after: Rows, id: Id)
    requires Commits(rows, projects, edited, expected, edit, after) && id in rows
    ensures id in after && Advances(rows[id], after[id])
  {
  }

  lemma MoveAdvances(a: Table, op: Operation, b: Table, id: Id)
    requires Committed(a, op, b) && id in a.rows && id in b.rows && (op.Update? || op.BeginMove? || op.WriteMove?)
    ensures Advances(a.rows[id], b.rows[id])
  {
    if op.WriteMove? && NamesDependency(op.move.edit) {
      EditAdvances(a.rows, a.projects, op.move.id, op.move.revision, op.move.edit, b.rows, id);
    }
  }

  lemma StepAdvances(a: Table, op: Operation, b: Table, id: Id)
    requires Committed(a, op, b) && id in a.rows && id in b.rows && KeysIssued(a.rows, a.lastId)
    ensures Advances(a.rows[id], b.rows[id])
  {
    match op
    case Create(draft) =>
    case Edit(edited, expected, edit) => EditAdvances(a.rows, a.projects, edited, expected, edit, b.rows, id);
    case Update(_, _) => MoveAdvances(a, op, b, id);
    case BeginMove(_, _) => MoveAdvances(a, op, b, id);
    case WriteMove(_) => MoveAdvances(a, op, b, id);
    case Reorder(project, request) => ReorderingLaws.ReorderAdvances(a.rows, project, request, id);
    case Delete(root) =>
      var tree, removed :| TaskDeletion.Deletes(a.rows, root, tree, removed, b.rows);
      DeletionAdvances(a.rows, tree, id);
    case Redefine(_, _, _, _) =>
    case Purge(_) =>
    case AddProject(_) =>
    case EmptyProject(_) =>
    case DropProject(_) =>
  }

  lemma StepIssuesKeys(a: Table, op: Operation, b: Table)
    requires KeysIssued(a.rows, a.lastId) && Committed(a, op, b)
    ensures KeysIssued(b.rows, b.lastId) && a.lastId <= b.lastId
    ensures forall id :: id in b.rows && id <= a.lastId ==> id in a.rows
  {
    assert b.rows.Keys <= a.rows.Keys || (op.Create? && b.rows.Keys == a.rows.Keys + {b.lastId});
  }

  lemma StepKeepsTidy(a: Table, op: Operation, b: Table)
    requires Tidy(a) && Committed(a, op, b)
    ensures Tidy(b)
  {
    StepIssuesKeys(a, op, b);
    forall m | m in b.moves ensures MoveIsSound(b.rows, b.lastId, m) {
      if m in a.moves {
        assert MoveIsSound(a.rows, a.lastId, m);
        if m.id in b.rows { StepAdvances(a, op, b, m.id); }
      }
    }
  }

  lemma StepKeepsInv(a: Table, op: Operation, b: Table)
    requires Inv(a) && Committed(a, op, b) && Harmless(a, op)
    ensures Inv(b)
  {
    StepKeepsSound(a, op, b);
    StepKeepsTidy(a, op, b);
  }

  // ---- Whole runs ----

  ghost predicate IsRun(tables: seq<Table>, ops: seq<Operation>) {
    Linked(Committed, tables, ops) && tables[0].rows == map[] && tables[0].moves == {}
  }

  lemma EmptyIsSound(t: Table)
    requires t.rows == map[] && t.moves == {}
    ensures Inv(t)
  {
    RankedIsAcyclic(Dependencies(t.rows), x => 0);
  }

  /**
    From an empty table, operations whose moves are all harmless keep every edge
    inside one project and the whole dependency graph free of cycles.
   */
  lemma {:induction false} RunsStayAcyclic(tables: seq<Table>, ops: seq<Operation>, k: nat)
    requires IsRun(tables, ops) && k < |tables|
    requires forall i :: 0 <= i < k ==> Harmless(tables[i], ops[i])
    ensures Inv(tables[k]) && Acyclic(Dependencies(tables[k].rows))
  {
    if k == 0 {
      EmptyIsSound(tables[0]);
    } else {
      RunsStayAcyclic(tables, ops, k - 1);
      StepKeepsInv(tables[k - 1], ops[k - 1], tables[k]);
    }
  }

  lemma {:induction false} SoundRunsAreHarmless(tables: seq<Table>, ops: seq<Operation>, k: nat)
    requires IsRun(tables, ops) && k < |tables|
    requires forall j :: 0 <= j <= k ==> Sound(tables[j].rows)
    ensures Inv(tables[k]) && forall i :: 0 <= i < k ==> Harmless(tables[i], ops[i])
  {
    if k == 0 {
      EmptyIsSound(tables[0]);
    } else {
      SoundRunsAreHarmless(tables, ops, k - 1);
      StepKeepsTidy(tables[k - 1], ops[k - 1], tables[k]);
      if ops[k - 1].WriteMove? {
        WriteKeepsSoundExactly(tables[k - 1], ops[k - 1].move, tables[k]);
      }
      if ops[k - 1].Redefine? {
        var rows, op := tables[k - 1].rows, ops[k - 1];
        ProjectChangeKeepsSoundExactly(rows, op.id, Redefined(rows[op.id], op.cron, op.into));
      }
    }
  }

  /** A run stays sound throughout exactly when no move is written, and no definition moved, while others depend on it. */
  lemma RunsStaySoundExactly(tables: seq<Table>, ops: seq<Operation>)
    requires IsRun(tables, ops)
    ensures (forall k :: 0 <= k < |tables| ==> Sound(tables[k].rows)) <==>
            (forall i :: 0 <= i < |ops| ==> Harmless(tables[i], ops[i]))
  {
    if forall k :: 0 <= k < |tables| ==> Sound(tables[k].rows) {
      SoundRunsAreHarmless(tables, ops, |ops|);
    }
    if forall i :: 0 <= i < |ops| ==> Harmless(tables[i], ops[i]) {
      forall k | 0 <= k < |tables| ensures Sound(tables[k].rows) {
        RunsStayAcyclic(tables, ops, k);
      }
    }
  }
}
