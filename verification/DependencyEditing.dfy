/**
  Edits of one task's dependency.  `EditOutcome` says what a transaction decides,
  in terms of reachability and acyclicity; the method below decides it with the
  searches of `DependencyGraph`.
 */
module DependencyEditing {
  import opened Wrappers
  import opened Digraph
  import opened Tasks
  import opened ProjectOrder
  import opened DependencyGraph

  /** A column that an edit leaves alone or sets. */
  datatype Change<+T> = Keep | Set(value: T)

  datatype TaskEdit = TaskEdit(
    mode: Change<DependencyMode>,
    target: Change<Option<nat>>,
    project: Change<Option<nat>>,
    status: Change<Status>,
    perm: Change<Permission>,
    blockOnFailure: Change<bool>,
    cron: Change<string>,
    parent: Change<Option<nat>> := Keep
  )

  datatype EditError =
    | RevisionConflict
    | MergeTaskIsFixed | NotOrdinary | ScheduleHasNoDependency
    | BadProject | BadMode | BadTarget
    | WeakNeedsProject | WeakTargetIsAutomatic
    | StrongNeedsProject | StrongNeedsTarget | TargetNotEligible | TargetIsItself
    | TargetLeadsBack
    | UnknownKey
    | ProjectWouldCycle

  function Apply<T>(c: Change<T>, current: T): T {
    if c.Set? then c.value else current
  }

  /** Modes of legacy rows are read from whether a target is stored. */
  function CurrentMode(t: Task): DependencyMode {
    if !t.mode.Unset? then t.mode
    else if t.dependsOn.Some? then Strong
    else Independent
  }

  predicate EligibleTarget(rows: Rows, project: Id, target: Id) {
    && target > 0
    && target in rows
    && rows[target].kind.OrdinaryTask?
    && rows[target].cron == ""
    && rows[target].mergeOf.None?
    && rows[target].project == Some(project)
  }

  function Edited(t: Task, edit: TaskEdit, mode: DependencyMode, target: Option<Id>): Task {
    t.(mode := mode, dependsOn := target, project := Apply(edit.project, t.project),
       status := Apply(edit.status, t.status), perm := Apply(edit.perm, t.perm),
       blockOnFailure := Apply(edit.blockOnFailure, t.blockOnFailure),
       cron := Apply(edit.cron, t.cron), parent := Apply(edit.parent, t.parent), revision := t.revision + 1)
  }

  /** The foreign keys an edit writes name existing rows. */
  predicate KeysExist(rows: Rows, projects: set<Id>, edit: TaskEdit) {
    && (edit.project.Set? && edit.project.value.Some? ==> edit.project.value.value in projects)
    && (edit.parent.Set? && edit.parent.value.Some? ==> edit.parent.value.value in rows)
  }

  /** The target an edit asks for, given the mode and project it leaves the task with. */
  ghost function ChosenTarget(rows: Rows, id: Id, edit: TaskEdit, mode: DependencyMode): Result<Option<Id>, EditError>
    requires id in rows
  {
    var project := Apply(edit.project, rows[id].project);
    var asked := Apply(edit.target, rows[id].dependsOn);
    match mode
    case Independent => Success(None)
    case Weak =>
      if project.None? then Failure(WeakNeedsProject)
      else if edit.target.Set? && asked.Some? then Failure(WeakTargetIsAutomatic)
      else Success(Predecessor(Ordered(rows, project.value), id))
    case Strong =>
      if project.None? then Failure(StrongNeedsProject)
      else if asked.None? then Failure(StrongNeedsTarget)
      else if !EligibleTarget(rows, project.value, asked.value) then Failure(TargetNotEligible)
      else if asked.value == id then Failure(TargetIsItself)
      else if Reaches(Dependencies(rows), asked.value, id) then Failure(TargetLeadsBack)
      else Success(asked)
    case _ => Success(asked)
  }

  ghost function EditOutcome(rows: Rows, projects: set<Id>, id: Id, expected: nat, edit: TaskEdit): Result<Rows, EditError> {
    if expected < 1 || id !in rows || rows[id].revision != expected then Failure(RevisionConflict)
    else if rows[id].mergeOf.Some? then Failure(MergeTaskIsFixed)
    else if !rows[id].kind.OrdinaryTask? then Failure(NotOrdinary)
    else if rows[id].cron != "" then Failure(ScheduleHasNoDependency)
    else if edit.project == Set(Some(0)) then Failure(BadProject)
    else if edit.mode.Set? && (edit.mode.value.Unset? || edit.mode.value.UnknownMode?) then Failure(BadMode)
    else if edit.target == Set(Some(0)) then Failure(BadTarget)
    else
      var mode := Apply(edit.mode, CurrentMode(rows[id]));
      var target := ChosenTarget(rows, id, edit, mode);
      if target.Failure? then Failure(target.error)
      else if !KeysExist(rows, projects, edit) then Failure(UnknownKey)
      else
        var after := rows[id := Edited(rows[id], edit, mode, target.value)];
        var project := after[id].project;
        if project.Some? && !Acyclic(ProjectDependencies(after, project.value)) then Failure(ProjectWouldCycle)
        else Success(after)
  }

  method ChooseTarget(rows: Rows, id: Id, edit: TaskEdit, mode: DependencyMode) returns (r: Result<Option<Id>, EditError>)
    requires id in rows && id > 0 && 0 !in rows
    ensures r == ChosenTarget(rows, id, edit, mode)
  {
    var project := Apply(edit.project, rows[id].project);
    var target := Apply(edit.target, rows[id].dependsOn);
    match mode {
      case Independent =>
        target := None;
      case Weak =>
        if project.None? { return Failure(WeakNeedsProject); }
        if edit.target.Set? && target.Some? { return Failure(WeakTargetIsAutomatic); }
        target := Predecessor(Ordered(rows, project.value), id);
      case Strong =>
        if project.None? { return Failure(StrongNeedsProject); }
        if target.None? { return Failure(StrongNeedsTarget); }
        if !EligibleTarget(rows, project.value, target.value) { return Failure(TargetNotEligible); }
        if target.value == id { return Failure(TargetIsItself); }
        var leadsBack := DependencyReaches(rows, target.value, id);
        if leadsBack { return Failure(TargetLeadsBack); }
      case _ =>
    }
    return Success(target);
  }

  /** An edit that names the mode or the target; other edits go through a plain update. */
  method UpdateTaskAtRevision(st: Store, id: Id, expected: nat, edit: TaskEdit) returns (error: Option<EditError>)
    requires st.Valid() && (edit.mode.Set? || edit.target.Set?)
    modifies st`tasks
    ensures st.Valid()
    ensures match EditOutcome(old(st.tasks), st.projects, id, expected, edit)
            case Success(after) => error.None? && st.tasks == after
            case Failure(e) => error == Some(e) && st.tasks == old(st.tasks)
  {
    var rows := st.tasks;
    if expected < 1 || id !in rows || rows[id].revision != expected { return Some(RevisionConflict); }
    var row := rows[id];
    if row.mergeOf.Some? { return Some(MergeTaskIsFixed); }
    if !row.kind.OrdinaryTask? { return Some(NotOrdinary); }
    if row.cron != "" { return Some(ScheduleHasNoDependency); }
    if edit.project == Set(Some(0)) { return Some(BadProject); }
    var mode := CurrentMode(row);
    if edit.mode.Set? {
      mode := edit.mode.value;
      if mode.Unset? || mode.UnknownMode? { return Some(BadMode); }
    }
    if edit.target == Set(Some(0)) { return Some(BadTarget); }
    var target := ChooseTarget(rows, id, edit, mode);
    if target.Failure? { return Some(target.error); }
    if !KeysExist(rows, st.projects, edit) { return Some(UnknownKey); }

    rows := rows[id := Edited(row, edit, mode, target.value)];
    if rows[id].project.Some? {
      var ok := ValidateProjectDependencies(rows, rows[id].project.value);
      if !ok { return Some(ProjectWouldCycle); }
    }
    st.tasks := rows;
    return None;
  }

  // ---- What a committed edit keeps ----

  ghost predicate NoDependents(rows: Rows, id: Id) {
    forall x :: x in rows ==> rows[x].dependsOn != Some(id)
  }

  ghost predicate Commits(rows: Rows, projects: set<Id>, id: Id, expected: nat, edit: TaskEdit, after: Rows) {
    EditOutcome(rows, projects, id, expected, edit) == Success(after)
  }

  /** The fields of an edited row: what the edit sets is set, and the rest is as it was. */
  ghost predicate CarriesOut(before: Task, edit: TaskEdit, after: Task) {
    && after.project == (if edit.project.Set? then edit.project.value else before.project)
    && after.status == (if edit.status.Set? then edit.status.value else before.status)
    && after.perm == (if edit.perm.Set? then edit.perm.value else before.perm)
    && after.blockOnFailure == (if edit.blockOnFailure.Set? then edit.blockOnFailure.value else before.blockOnFailure)
    && after.cron == (if edit.cron.Set? then edit.cron.value else before.cron)
    && after.parent == (if edit.parent.Set? then edit.parent.value else before.parent)
    && after.revision == before.revision + 1
    && after == before.(mode := after.mode, dependsOn := after.dependsOn, project := after.project, status := after.status,
                        perm := after.perm, blockOnFailure := after.blockOnFailure, cron := after.cron,
                        parent := after.parent, revision := after.revision)
  }

  /** The mode an edited row has; an old row without one is read by its target. */
  ghost predicate HasModeAsked(before: Task, edit: TaskEdit, after: Task) {
    if edit.mode.Set? then
      after.mode == edit.mode.value && (after.mode.Independent? || after.mode.Weak? || after.mode.Strong?)
    else if before.mode.Unset? then
      (after.mode.Strong? <==> before.dependsOn.Some?) && (after.mode.Strong? || after.mode.Independent?)
    else after.mode == before.mode
  }

  /** The target an edited row waits for, and why that is allowed. */
  ghost predicate HasTargetAsked(rows: Rows, id: Id, edit: TaskEdit, after: Task)
    requires id in rows
  {
    && (after.mode.Independent? ==> after.dependsOn.None?)
    && (after.mode.Weak? ==>
          && after.project.Some? && (edit.target.Set? ==> edit.target.value.None?)
          && after.dependsOn == Predecessor(Ordered(rows, after.project.value), id))
    && (after.mode.Strong? ==>
          && after.dependsOn.Some? && after.dependsOn == (if edit.target.Set? then edit.target.value else rows[id].dependsOn)
          && var target := after.dependsOn.value;
             && target != id && target in rows && after.project.Some? && rows[target].project == after.project
             && rows[target].kind.OrdinaryTask? && rows[target].cron == "" && rows[target].mergeOf.None?
             && !Reaches(Dependencies(rows), target, id))
    && (after.mode.UnknownMode? ==>
          after.dependsOn == (if edit.target.Set? then edit.target.value else rows[id].dependsOn))
  }

  /** The edit was asked of the row as it is, of a task that may wait, and names existing rows. */
  ghost predicate MayEdit(rows: Rows, projects: set<Id>, id: Id, expected: nat, edit: TaskEdit) {
    && id in rows && rows[id].revision == expected >= 1
    && rows[id].kind.OrdinaryTask? && rows[id].mergeOf.None? && rows[id].cron == ""
    && edit.target != Set(Some(0)) && edit.project != Set(Some(0))
    && (edit.project.Set? && edit.project.value.Some? ==> edit.project.value.value in projects)
    && (edit.parent.Set? && edit.parent.value.Some? ==> edit.parent.value.value in rows)
  }

  /** An edit commits exactly when it is allowed, carried out field by field, and closes no cycle in its project. */
  lemma EditCommitsExactly(rows: Rows, projects: set<Id>, id: Id, expected: nat, edit: TaskEdit, t: Task)
    requires id in rows && 0 !in rows
    ensures Commits(rows, projects, id, expected, edit, rows[id := t]) <==>
            && MayEdit(rows, projects, id, expected, edit)
            && CarriesOut(rows[id], edit, t) && HasModeAsked(rows[id], edit, t) && HasTargetAsked(rows, id, edit, t)
            && (t.project.Some? ==> Acyclic(ProjectDependencies(rows[id := t], t.project.value)))
  {
    if Commits(rows, projects, id, expected, edit, rows[id := t]) {
      assert rows[id := t][id] == t;
    }
    if MayEdit(rows, projects, id, expected, edit) && CarriesOut(rows[id], edit, t) && HasModeAsked(rows[id], edit, t)
       && HasTargetAsked(rows, id, edit, t) {
      assert ChosenTarget(rows, id, edit, t.mode) == Success(t.dependsOn);
      assert t == Edited(rows[id], edit, t.mode, t.dependsOn);
    }
  }

  /** Nothing but the edited row changes. */
  lemma EditTouchesOneRow(rows: Rows, projects: set<Id>, id: Id, expected: nat, edit: TaskEdit, after: Rows)
    requires Commits(rows, projects, id, expected, edit, after)
    ensures id in rows && id in after && after == rows[id := after[id]]
  {
  }

  lemma EditChangesOneEdge(rows: Rows, projects: set<Id>, id: Id, expected: nat, edit: TaskEdit, after: Rows)
    requires Commits(rows, projects, id, expected, edit, after)
    ensures Dependencies(after) == if after[id].dependsOn.Some?
                                   then Dependencies(rows)[id := after[id].dependsOn.value]
                                   else Dependencies(rows) - {id}
  {
  }

  /** On any acyclic table, an edit is harmless exactly when the new target does not lead back. */
  lemma EditAcyclicExactly(rows: Rows, projects: set<Id>, id: Id, expected: nat, edit: TaskEdit, after: Rows)
    requires Acyclic(Dependencies(rows)) && Commits(rows, projects, id, expected, edit, after)
    ensures Acyclic(Dependencies(after)) <==>
            after[id].dependsOn.None? || !Reaches(Dependencies(rows), after[id].dependsOn.value, id)
  {
    EditChangesOneEdge(rows, projects, id, expected, edit, after);
    if after[id].dependsOn.Some? {
      SetEdgeAcyclic(Dependencies(rows), id, after[id].dependsOn.value);
    } else {
      DropEdgeAcyclic(Dependencies(rows), id);
    }
  }

  lemma EditTargetStaysInProject(rows: Rows, projects: set<Id>, id: Id, expected: nat, edit: TaskEdit, after: Rows)
    requires Sound(rows) && Commits(rows, projects, id, expected, edit, after)
    requires after[id].dependsOn.Some?
    ensures after[id].dependsOn.value != id
    ensures EdgeStaysInProject(after, id, after[id].dependsOn.value)
    ensures after[id].mode.Weak? || after[id].mode.Strong?
  {
    var project := after[id].project.value;
    PredecessorIsListed(Ordered(rows, project), id);
  }

  lemma EditKeepsEdgesInside(rows: Rows, projects: set<Id>, id: Id, expected: nat, edit: TaskEdit, after: Rows)
    requires Sound(rows) && Commits(rows, projects, id, expected, edit, after)
    requires after[id].project == rows[id].project || NoDependents(rows, id)
    ensures EdgesStayInProject(after) && ModesMatchTargets(after)
  {
    forall x | x in after && after[x].dependsOn.Some?
      ensures EdgeStaysInProject(after, x, after[x].dependsOn.value)
    {
      if x == id { EditTargetStaysInProject(rows, projects, id, expected, edit, after); }
      else { assert EdgeStaysInProject(rows, x, rows[x].dependsOn.value); }
    }
    if after[id].dependsOn.Some? { EditTargetStaysInProject(rows, projects, id, expected, edit, after); }
  }

  /**
    A committed edit keeps the table sound exactly when it does not move a task
    that others depend on into another project.
   */
  lemma EditKeepsSoundExactly(rows: Rows, projects: set<Id>, id: Id, expected: nat, edit: TaskEdit, after: Rows)
    requires Sound(rows) && Commits(rows, projects, id, expected, edit, after)
    ensures Sound(after) <==> after[id].project == rows[id].project || NoDependents(rows, id)
  {
    if after[id].project == rows[id].project || NoDependents(rows, id) {
      EditKeepsEdgesInside(rows, projects, id, expected, edit, after);
      if after[id].project.Some? {
        ProjectCheckSuffices(rows, after, after[id].project.value);
      } else {
        EditAcyclicExactly(rows, projects, id, expected, edit, after);
      }
    } else {
      var x :| x in rows && rows[x].dependsOn == Some(id);
      assert EdgeStaysInProject(rows, x, id);
      var target := after[id].dependsOn;
      if target == Some(id) { EditTargetStaysInProject(rows, projects, id, expected, edit, after); }
      ReachesSelf(Dependencies(rows), id);
      assert x == id ==> OnCycle(Dependencies(rows), id);
      assert !EdgeStaysInProject(after, x, id);
    }
  }

  // ---- Why edges must stay inside a project ----

  function ExampleTask(project: Id, target: Option<Id>, order: nat): Task {
    Task(OrdinaryTask, Queued, Full, false, None, Some(project), None, target,
         if target.Some? then Strong else Independent, false, None, false, None, None, "", "", order, 0, 1)
  }

  /** Tasks 1 and 2 of project 1, tasks 3 and 4 of project 2: 1 waits for 3, 3 for 4, 4 for 2. */
  function ExampleRows(): Rows {
    map[1 := ExampleTask(1, Some(3), 1), 2 := ExampleTask(1, None, 2),
        3 := ExampleTask(2, Some(4), 2), 4 := ExampleTask(2, Some(2), 1)]
  }

  const MAKE_AUTOMATIC := TaskEdit(Set(Weak), Keep, Keep, Keep, Keep, Keep, Keep)

  lemma ExampleGraph()
    ensures Dependencies(ExampleRows()) == map[1 := 3, 3 := 4, 4 := 2]
    ensures Acyclic(map[1 := 3, 3 := 4, 4 := 2])
    ensures Reaches(map[1 := 3, 3 := 4, 4 := 2], 1, 2)
  {
    var g: Graph := map[1 := 3, 3 := 4, 4 := 2];
    RankedIsAcyclic(g, x => if x == 1 then 3 else if x == 3 then 2 else if x == 4 then 1 else 0);
    assert Walk(g, 4, 1) == Some(2);
    assert Walk(g, 3, 2) == Some(2);
    assert Walk(g, 1, 3) == Some(2);
  }

  lemma ExampleOrder()
    ensures Predecessor(Ordered(ExampleRows(), 1), 2) == Some(1)
  {
    var rows := ExampleRows();
    assert Sorted(rows, [1, 2]);
    SortedListingIsUnique(rows, Ordered(rows, 1), [1, 2]);
    PredecessorOfListed([1, 2], 1);
  }

  function ExampleEdited(): Rows {
    ExampleRows()[2 := Edited(ExampleRows()[2], MAKE_AUTOMATIC, Weak, Some(1))]
  }

  lemma ExampleProjectPasses()
    ensures Acyclic(ProjectDependencies(ExampleEdited(), 1))
  {
    var p := ProjectDependencies(ExampleEdited(), 1);
    assert p == map[1 := 3, 2 := 1];
    RankedIsAcyclic(p, x => if x == 2 then 2 else if x == 1 then 1 else 0);
  }

  lemma AutomaticEditCommits(rows: Rows, projects: set<Id>, id: Id, project: Id)
    requires id in rows && rows[id].revision >= 1 && rows[id].project == Some(project)
    requires rows[id].kind.OrdinaryTask? && rows[id].mergeOf.None? && rows[id].cron == ""
    requires Acyclic(ProjectDependencies(
                       rows[id := Edited(rows[id], MAKE_AUTOMATIC, Weak, Predecessor(Ordered(rows, project), id))], project))
    ensures Commits(rows, projects, id, rows[id].revision, MAKE_AUTOMATIC,
                    rows[id := Edited(rows[id], MAKE_AUTOMATIC, Weak, Predecessor(Ordered(rows, project), id))])
  {
  }

  /**
    The check after an edit reads one project only.  On an acyclic table whose
    edges already cross projects, an edit can therefore commit a cycle.
   */
  lemma CrossProjectCycleCommits()
    ensures Acyclic(Dependencies(ExampleRows()))
    ensures exists after :: Commits(ExampleRows(), {1, 2}, 2, 1, MAKE_AUTOMATIC, after) && !Acyclic(Dependencies(after))
  {
    ExampleGraph();
    ExampleOrder();
    ExampleProjectPasses();
    AutomaticEditCommits(ExampleRows(), {1, 2}, 2, 1);
    EditAcyclicExactly(ExampleRows(), {1, 2}, 2, 1, MAKE_AUTOMATIC, ExampleEdited());
  }
}
