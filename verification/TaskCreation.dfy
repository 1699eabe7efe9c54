/**
  Inserting a task into its project: the next free slot, and the dependency its
  mode asks for.  An automatic dependency waits for the task last in the order.
 */
module TaskCreation {
  import opened Wrappers
  import opened Digraph
  import opened Tasks
  import opened ProjectOrder
  import opened DependencyGraph
  import opened DependencyEditing

  datatype CreateError =
    | NoSuchProject | InvalidMode | OnlyProjectTasksDepend | MissingTarget | IneligibleTarget | UnknownReference

  /** Defaults of a new row: project tasks queue up automatically, schedules never depend. */
  function Prepared(draft: Task): Task {
    var mode :=
      if draft.cron != "" || draft.mergeOf.Some? then Independent
      else if draft.mode.Unset? && draft.dependsOn.Some? then Strong
      else if draft.mode.Unset? then (if draft.project.Some? then Weak else Independent)
      else draft.mode;
    var asks := mode.Strong? || (draft.project.None? && draft.cron == "" && draft.mergeOf.None?);
    draft.(mode := mode, dependsOn := if asks then draft.dependsOn else None, revision := 1)
  }

  // ---- The next slot ----

  ghost predicate IsNextSlot(rows: Rows, project: Id, n: int) {
    && n >= 1
    && (forall id :: id in rows && InProject(rows, project, id) ==> rows[id].sortOrder < n)
    && (n == 1 || exists id :: id in rows && InProject(rows, project, id) && rows[id].sortOrder == n - 1)
  }

  method NextSlot(rows: Rows, project: Id) returns (n: int)
    ensures IsNextSlot(rows, project, n)
  {
    n := 1;
    var todo := rows.Keys;
    while todo != {}
      invariant todo <= rows.Keys && n >= 1
      invariant forall id :: id in rows && id !in todo && InProject(rows, project, id) ==> rows[id].sortOrder < n
      invariant n == 1 || exists id :: id in rows && InProject(rows, project, id) && rows[id].sortOrder == n - 1
      decreases todo
    {
      var id :| id in todo;
      if InProject(rows, project, id) && rows[id].sortOrder >= n { n := rows[id].sortOrder + 1; }
      todo := todo - {id};
    }
  }

  // ---- The last task of the order ----

  /** The order a new task reads: unassigned slots come first here, not last. */
  predicate After(rows: Rows, a: Id, b: Id)
    requires a in rows && b in rows
  {
    var x, y := rows[a], rows[b];
    if x.sortOrder != y.sortOrder then x.sortOrder > y.sortOrder
    else if x.createdAt != y.createdAt then x.createdAt > y.createdAt
    else a > b
  }

  ghost predicate IsLatest(rows: Rows, project: Id, latest: Option<Id>) {
    match latest
    case None => forall id :: !IsOrdered(rows, project, id)
    case Some(x) =>
      IsOrdered(rows, project, x) && forall id :: IsOrdered(rows, project, id) && id != x ==> After(rows, x, id)
  }

  method LatestTask(rows: Rows, project: Id) returns (latest: Option<Id>)
    ensures IsLatest(rows, project, latest)
  {
    latest := None;
    var todo := OrderedTasks(rows, project);
    while todo != {}
      invariant forall id :: id in todo ==> IsOrdered(rows, project, id)
      invariant latest.Some? ==> IsOrdered(rows, project, latest.value)
      invariant forall id :: IsOrdered(rows, project, id) && id !in todo ==>
                               latest.Some? && (id == latest.value || After(rows, latest.value, id))
      decreases todo
    {
      var id :| id in todo;
      if latest.None? || After(rows, id, latest.value) { latest := Some(id); }
      todo := todo - {id};
    }
  }

  // ---- Insertion ----

  ghost function Rejection(rows: Rows, projects: set<Id>, draft: Task): Option<CreateError> {
    var t := Prepared(draft);
    if draft.mergeOf.Some? then
      if t.project.Some? && t.project.value !in projects then Some(NoSuchProject) else None
    else if t.mode.UnknownMode? then Some(InvalidMode)
    else if t.project.None? then
      if t.dependsOn.Some? || !t.mode.Independent? then Some(OnlyProjectTasksDepend) else None
    else if t.mode.Strong? && t.dependsOn.None? then Some(MissingTarget)
    else if t.mode.Strong? && !EligibleTarget(rows, t.project.value, t.dependsOn.value) then Some(IneligibleTarget)
    else if t.project.value !in projects then Some(NoSuchProject)
    else None
  }

  /** The task keys a new row carries name existing rows, or the row itself. */
  predicate ReferencesExist(rows: Rows, id: Id, draft: Task) {
    forall key :: key in [draft.parent, draft.resumeOf, draft.session, draft.parentSession, draft.parentTask]
                  ==> key.None? || key.value == id || key.value in rows
  }

  /** What the inserted row looks like, given the rows that were there. */
  ghost predicate Fits(rows: Rows, draft: Task, t: Task) {
    var p := Prepared(draft);
    && t == p.(sortOrder := t.sortOrder, dependsOn := t.dependsOn)
    && (if p.project.None? || p.mergeOf.Some? || p.sortOrder > 0
        then t.sortOrder == p.sortOrder else IsNextSlot(rows, p.project.value, t.sortOrder))
    && (match p.mode
        case Weak => p.project.Some? && IsLatest(rows, p.project.value, t.dependsOn)
        case Strong => t.dependsOn == p.dependsOn
        case _ => t.dependsOn.None?)
  }

  /** The target of a prepared row: explicit ones are checked, automatic ones looked up. */
  method ResolveNewTaskDependency(rows: Rows, draft: Task) returns (r: Result<Option<Id>, CreateError>)
    requires draft.mergeOf.None?
    ensures var t := Prepared(draft);
            match r
            case Success(target) =>
              && !t.mode.UnknownMode? && (t.project.None? ==> t.mode.Independent? && t.dependsOn.None?)
              && (match t.mode
                  case Weak => IsLatest(rows, t.project.value, target)
                  case Strong => target == t.dependsOn && target.Some? && EligibleTarget(rows, t.project.value, target.value)
                  case _ => target.None?)
            case Failure(e) => forall projects :: Rejection(rows, projects, draft) == Some(e)
  {
    var t := Prepared(draft);
    if t.mode.UnknownMode? { return Failure(InvalidMode); }
    if t.project.None? {
      if t.dependsOn.Some? || !t.mode.Independent? { return Failure(OnlyProjectTasksDepend); }
      return Success(None);
    }
    match t.mode {
      case Strong =>
        if t.dependsOn.None? { return Failure(MissingTarget); }
        if !EligibleTarget(rows, t.project.value, t.dependsOn.value) { return Failure(IneligibleTarget); }
        return Success(t.dependsOn);
      case Weak =>
        var latest := LatestTask(rows, t.project.value);
        return Success(latest);
      case _ =>
        return Success(None);
    }
  }

  method AssignNextSortOrder(rows: Rows, p: Task) returns (t: Task)
    ensures t == p.(sortOrder := t.sortOrder)
    ensures if p.project.None? || p.mergeOf.Some? || p.sortOrder > 0
            then t.sortOrder == p.sortOrder else IsNextSlot(rows, p.project.value, t.sortOrder)
  {
    t := p;
    if t.project.Some? && t.mergeOf.None? && t.sortOrder <= 0 {
      var n := NextSlot(rows, t.project.value);
      t := t.(sortOrder := n);
    }
  }

  method CreateTaskWithProjectDependency(st: Store, draft: Task) returns (r: Result<Id, CreateError>)
    requires st.Valid()
    modifies st`tasks, st`lastId
    ensures st.Valid()
    ensures match Rejection(old(st.tasks), st.projects, draft)
            case Some(e) => r == Failure(e) && st.tasks == old(st.tasks) && st.lastId == old(st.lastId)
            case None =>
              if ReferencesExist(old(st.tasks), old(st.lastId) + 1, draft) then
                && r == Success(old(st.lastId) + 1) && st.lastId == r.value
                && r.value in st.tasks && Fits(old(st.tasks), draft, st.tasks[r.value])
                && st.tasks == old(st.tasks)[r.value := st.tasks[r.value]]
              else
                r == Failure(UnknownReference) && st.tasks == old(st.tasks) && st.lastId == old(st.lastId)
  {
    var rows := st.tasks;
    var t := AssignNextSortOrder(rows, Prepared(draft));
    if t.mergeOf.None? {
      var target := ResolveNewTaskDependency(rows, draft);
      if target.Failure? { return Failure(target.error); }
      t := t.(dependsOn := target.value);
    }
    if t.project.Some? && t.project.value !in st.projects { return Failure(NoSuchProject); }
    if !ReferencesExist(rows, st.lastId + 1, draft) { return Failure(UnknownReference); }
    st.lastId := st.lastId + 1;
    st.tasks := rows[st.lastId := t];
    return Success(st.lastId);
  }

  // ---- What a new row looks like ----

  /** A draft that names its target itself, saying so or not. */
  predicate NamesTarget(draft: Task) {
    draft.mode.Strong? || (draft.mode.Unset? && draft.dependsOn.Some?)
  }

  /** The target a draft names is an ordinary, unscheduled task of its project, and no merge task. */
  predicate NamesEligibleTarget(rows: Rows, draft: Task) {
    && draft.dependsOn.Some? && draft.dependsOn.value > 0 && draft.dependsOn.value in rows
    && var target := rows[draft.dependsOn.value];
       && target.kind.OrdinaryTask? && target.cron == "" && target.mergeOf.None?
       && draft.project.Some? && target.project == draft.project
  }

  /** Which drafts are accepted: those of known projects, unless they ask for a dependency they cannot have. */
  lemma AcceptedExactly(rows: Rows, projects: set<Id>, draft: Task)
    ensures Rejection(rows, projects, draft).None? <==>
            && (draft.project.Some? ==> draft.project.value in projects)
            && (draft.cron == "" && draft.mergeOf.None? ==>
                  && !draft.mode.UnknownMode?
                  && (draft.project.None? ==> draft.dependsOn.None? && !draft.mode.Weak? && !draft.mode.Strong?)
                  && (draft.project.Some? && NamesTarget(draft) ==> NamesEligibleTarget(rows, draft)))
  {
  }

  /** Two modes a draft leaves open are filled in: project tasks queue up, a named target is explicit. */
  lemma DraftIsCompleted(rows: Rows, projects: set<Id>, draft: Task, t: Task)
    requires Rejection(rows, projects, draft).None? && Fits(rows, draft, t)
    ensures t == draft.(mode := t.mode, dependsOn := t.dependsOn, sortOrder := t.sortOrder, revision := 1)
    ensures draft.cron != "" || draft.mergeOf.Some? ==> t.mode.Independent? && t.dependsOn.None?
    ensures draft.cron == "" && draft.mergeOf.None? ==>
              && (draft.mode.Unset? && draft.dependsOn.Some? ==> t.mode.Strong? && t.dependsOn == draft.dependsOn)
              && (draft.mode.Unset? && draft.dependsOn.None? && draft.project.Some? ==>
                    t.mode.Weak? && IsLatest(rows, draft.project.value, t.dependsOn))
              && (draft.mode.Unset? && draft.dependsOn.None? && draft.project.None? ==>
                    t.mode.Independent? && t.dependsOn.None?)
              && (!draft.mode.Unset? ==> t.mode == draft.mode)
    ensures draft.sortOrder > 0 || draft.project.None? || draft.mergeOf.Some? ==> t.sortOrder == draft.sortOrder
    ensures draft.sortOrder <= 0 && draft.project.Some? && draft.mergeOf.None? ==>
              && t.sortOrder >= 1
              && (forall id :: id in rows && rows[id].project == draft.project && rows[id].mergeOf.None? ==>
                    rows[id].sortOrder < t.sortOrder)
              && (t.sortOrder == 1 || exists id ::
                    id in rows && rows[id].project == draft.project && rows[id].mergeOf.None?
                    && rows[id].sortOrder == t.sortOrder - 1)
  {
  }

  // ---- What an insertion keeps ----

  lemma NewTaskTarget(rows: Rows, projects: set<Id>, draft: Task, t: Task)
    requires Rejection(rows, projects, draft).None? && Fits(rows, draft, t)
    ensures !t.mode.UnknownMode?
    ensures t.dependsOn.Some? ==>
              && (t.mode.Weak? || t.mode.Strong?) && t.mergeOf.None? && t.project.Some?
              && InProject(rows, t.project.value, t.dependsOn.value)
  {
  }

  lemma FreshTaskKeepsAcyclic(rows: Rows, id: Id, t: Task)
    requires Sound(rows) && id !in rows
    requires t.dependsOn.Some? ==> t.dependsOn.value in rows
    ensures Acyclic(Dependencies(rows[id := t]))
  {
    var g, after := Dependencies(rows), rows[id := t];
    if t.dependsOn.Some? {
      var target := t.dependsOn.value;
      if Reaches(g, target, id) {
        forall x | x in g ensures g[x] in rows { assert EdgeStaysInProject(rows, x, g[x]); }
        ClosedKeepsReach(g, (iset x: Id | x in rows), target, id);
      }
      SetEdgeAcyclic(g, id, target);
      assert Dependencies(after) == g[id := target];
    } else {
      assert Dependencies(after) == g;
    }
  }

  /** A new row has no dependents yet, so it can point anywhere in its project. */
  lemma CreateKeepsSound(rows: Rows, lastId: Id, projects: set<Id>, draft: Task, t: Task, after: Rows)
    requires Sound(rows) && KeysIssued(rows, lastId) && after == rows[lastId + 1 := t]
    requires Rejection(rows, projects, draft).None? && Fits(rows, draft, t)
    ensures Sound(after)
  {
    NewTaskTarget(rows, projects, draft, t);
    forall x | x in after && after[x].dependsOn.Some?
      ensures EdgeStaysInProject(after, x, after[x].dependsOn.value)
    {
      if x in rows { assert EdgeStaysInProject(rows, x, rows[x].dependsOn.value); }
    }
    FreshTaskKeepsAcyclic(rows, lastId + 1, t);
  }

  // ---- Where a new task stands ----

  /** No ordered task still waits for its slot. */
  ghost predicate SlotsAssigned(rows: Rows, project: Id) {
    forall id :: IsOrdered(rows, project, id) ==> 0 < rows[id].sortOrder
  }

  /** The first `k` tasks of the order have a slot, the others stand behind them without one. */
  ghost predicate SlotsEndAt(rows: Rows, order: seq<Id>, k: nat)
    requires k <= |order| && forall id :: id in order ==> id in rows
  {
    && (forall i :: 0 <= i < k ==> 0 < rows[order[i]].sortOrder)
    && forall i :: k <= i < |order| ==> rows[order[i]].sortOrder <= 0
  }

  lemma SlotsEnd(rows: Rows, order: seq<Id>) returns (k: nat)
    requires Sorted(rows, order) && forall id :: id in order ==> rows[id].sortOrder < MAX_INT64
    ensures k <= |order| && SlotsEndAt(rows, order, k)
  {
    k := 0;
    while k < |order| && 0 < rows[order[k]].sortOrder
      invariant k <= |order| && forall i :: 0 <= i < k ==> 0 < rows[order[i]].sortOrder
    {
      k := k + 1;
    }
    forall i | k <= i < |order| ensures rows[order[i]].sortOrder <= 0 {
      assert order[i] in order;
      if k < i { assert Precedes(rows, order[k], order[i]); }
    }
  }

  function Inserted(order: seq<Id>, id: Id, k: nat): (longer: seq<Id>)
    requires k <= |order|
  {
    order[..k] + [id] + order[k..]
  }

  /** A row with the next slot enters the order behind the tasks that have one. */
  lemma NextSlotPlace(rows: Rows, project: Id, id: Id, t: Task) returns (k: nat)
    requires id !in rows && t.project == Some(project) && t.mergeOf.None? && t.cron == ""
    requires IsNextSlot(rows, project, t.sortOrder) && t.sortOrder < MAX_INT64
    ensures k <= |Ordered(rows, project)| && SlotsEndAt(rows, Ordered(rows, project), k)
    ensures Ordered(rows[id := t], project) == Inserted(Ordered(rows, project), id, k)
  {
    var order := Ordered(rows, project);
    SlotsAreBelow(rows, project, t.sortOrder);
    k := SlotsEnd(rows, order);
    PlacedBySlot(rows, order, id, t, k);
    InsertionLists(order, id, k);
    InsertedIsOrdered(rows, project, id, t, Inserted(order, id, k));
  }

  lemma SlotsAreBelow(rows: Rows, project: Id, n: int)
    requires IsNextSlot(rows, project, n)
    ensures forall x :: x in Ordered(rows, project) ==> x in rows && rows[x].sortOrder < n
  {
    forall x | x in Ordered(rows, project) ensures x in rows && rows[x].sortOrder < n {
      assert IsOrdered(rows, project, x);
      assert InProject(rows, project, x);
    }
  }

  lemma InsertedIsOrdered(rows: Rows, project: Id, id: Id, t: Task, longer: seq<Id>)
    requires id !in rows && t.project == Some(project) && t.mergeOf.None? && t.cron == ""
    requires Sorted(rows[id := t], longer)
    requires forall x :: x in longer <==> x in Ordered(rows, project) || x == id
    ensures Ordered(rows[id := t], project) == longer
  {
    forall x ensures x in longer <==> x in Ordered(rows[id := t], project) {
      assert x in Ordered(rows, project) <==> IsOrdered(rows, project, x);
      assert x in Ordered(rows[id := t], project) <==> IsOrdered(rows[id := t], project, x);
    }
    SortedListingIsUnique(rows[id := t], Ordered(rows[id := t], project), longer);
  }

  lemma InsertionLists(order: seq<Id>, id: Id, k: nat)
    requires k <= |order| && id !in order
    ensures var longer := Inserted(order, id, k);
            && (forall x :: x in longer <==> x in order || x == id)
            && Predecessor(longer, id) == (if k == 0 then None else Some(order[k - 1]))
            && (longer == order + [id] <==> k == |order|)
  {
    var longer := order[..k] + [id] + order[k..];
    assert order == order[..k] + order[k..];
    assert longer[k] == id && forall i :: 0 <= i < k ==> longer[i] == order[i];
    PredecessorOfListed(longer, k);
    if k < |order| {
      assert (order + [id])[k] == order[k];
    } else {
      assert order[..k] == order;
    }
  }

  lemma PlacedBySlot(rows: Rows, order: seq<Id>, id: Id, t: Task, k: nat)
    requires Sorted(rows, order) && id !in rows && k <= |order| && SlotsEndAt(rows, order, k)
    requires 0 < t.sortOrder < MAX_INT64 && forall x :: x in order ==> rows[x].sortOrder < t.sortOrder
    ensures Sorted(rows[id := t], Inserted(order, id, k))
  {
    var after, longer := rows[id := t], order[..k] + [id] + order[k..];
    forall i, j | 0 <= i < j < |order| ensures Precedes(after, order[i], order[j]) {
      assert Precedes(rows, order[i], order[j]);
    }
    forall i | 0 <= i < k ensures Precedes(after, order[i], id) {
      assert order[i] in order;
    }
    forall i | k <= i < |order| ensures Precedes(after, id, order[i]) {
      assert order[i] in order;
    }
  }

  /** The automatic target is the last task that has a slot, if there is one. */
  lemma LatestHasSlot(rows: Rows, project: Id, latest: Option<Id>, k: nat)
    requires IsLatest(rows, project, latest)
    requires k <= |Ordered(rows, project)| && SlotsEndAt(rows, Ordered(rows, project), k)
    ensures k > 0 ==> latest == Some(Ordered(rows, project)[k - 1])
    ensures Ordered(rows, project) == [] <==> latest.None?
  {
    var order := Ordered(rows, project);
    assert forall i :: 0 <= i < |order| ==> IsOrdered(rows, project, order[i]);
    assert forall i :: 0 <= i < k - 1 ==> Precedes(rows, order[i], order[k - 1]);
    if latest.Some? {
      var i :| 0 <= i < |order| && order[i] == latest.value;
    }
  }

  /** A new row of a project with the next slot, waiting for the latest task of the order. */
  ghost predicate IsAutomatic(rows: Rows, id: Id, project: Id, t: Task) {
    && id !in rows && t.project == Some(project) && t.mergeOf.None? && t.cron == ""
    && IsNextSlot(rows, project, t.sortOrder) && t.sortOrder < MAX_INT64
    && IsLatest(rows, project, t.dependsOn)
  }

  lemma FittingIsAutomatic(rows: Rows, lastId: Id, projects: set<Id>, draft: Task, t: Task)
    requires KeysIssued(rows, lastId)
    requires Rejection(rows, projects, draft).None? && Fits(rows, draft, t)
    requires t.project.Some? && t.mode.Weak? && draft.sortOrder <= 0 && t.sortOrder < MAX_INT64
    ensures IsAutomatic(rows, lastId + 1, t.project.value, t)
  {
  }

  lemma SlotsTaken(rows: Rows, project: Id, k: nat)
    requires k <= |Ordered(rows, project)| && SlotsEndAt(rows, Ordered(rows, project), k)
    ensures Ordered(rows, project) == [] <==> forall id :: !IsOrdered(rows, project, id)
    ensures 0 < k <==> exists id :: IsOrdered(rows, project, id) && 0 < rows[id].sortOrder
  {
    var order := Ordered(rows, project);
    if k > 0 { assert IsOrdered(rows, project, order[k - 1]); }
    forall id | IsOrdered(rows, project, id) && 0 < rows[id].sortOrder ensures k > 0 {
      var i :| 0 <= i < |order| && order[i] == id;
    }
    if order != [] { assert IsOrdered(rows, project, order[0]); }
  }

  lemma AutomaticFollowsExactly(rows: Rows, id: Id, project: Id, t: Task)
    requires IsAutomatic(rows, id, project, t)
    ensures t.dependsOn == Predecessor(Ordered(rows[id := t], project), id) <==>
            || (forall x :: !IsOrdered(rows, project, x))
            || exists x :: IsOrdered(rows, project, x) && 0 < rows[x].sortOrder
  {
    var order := Ordered(rows, project);
    var k := NextSlotPlace(rows, project, id, t);
    InsertionLists(order, id, k);
    LatestHasSlot(rows, project, t.dependsOn, k);
    SlotsTaken(rows, project, k);
  }

  /**
    A new automatic task waits for its predecessor in the new project order exactly
    when the project is empty or some task of it has a slot.
   */
  lemma NewTaskFollowsExactly(rows: Rows, lastId: Id, projects: set<Id>, draft: Task, t: Task)
    requires KeysIssued(rows, lastId)
    requires Rejection(rows, projects, draft).None? && Fits(rows, draft, t)
    requires t.project.Some? && t.mode.Weak? && draft.sortOrder <= 0 && t.sortOrder < MAX_INT64
    ensures t.dependsOn == Predecessor(Ordered(rows[lastId + 1 := t], t.project.value), lastId + 1) <==>
            || (forall id :: !IsOrdered(rows, t.project.value, id))
            || exists id :: IsOrdered(rows, t.project.value, id) && 0 < rows[id].sortOrder
  {
    FittingIsAutomatic(rows, lastId, projects, draft, t);
    AutomaticFollowsExactly(rows, lastId + 1, t.project.value, t);
  }

  lemma AutomaticAppendsExactly(rows: Rows, id: Id, project: Id, t: Task)
    requires IsAutomatic(rows, id, project, t)
    ensures Ordered(rows[id := t], project) == Ordered(rows, project) + [id] <==> SlotsAssigned(rows, project)
    ensures SlotsAssigned(rows, project) ==>
              var order := Ordered(rows, project); t.dependsOn == if order == [] then None else Some(order[|order| - 1])
  {
    var order := Ordered(rows, project);
    var k := NextSlotPlace(rows, project, id, t);
    InsertionLists(order, id, k);
    LatestHasSlot(rows, project, t.dependsOn, k);
    SlotsAssignedEndLast(rows, project, k);
  }

  /** It joins the end of the order exactly when no task there lacks a slot. */
  lemma CreateAppendsExactly(rows: Rows, lastId: Id, projects: set<Id>, draft: Task, t: Task)
    requires KeysIssued(rows, lastId)
    requires Rejection(rows, projects, draft).None? && Fits(rows, draft, t)
    requires t.project.Some? && t.mode.Weak? && draft.sortOrder <= 0 && t.sortOrder < MAX_INT64
    ensures Ordered(rows[lastId + 1 := t], t.project.value) == Ordered(rows, t.project.value) + [lastId + 1] <==>
            SlotsAssigned(rows, t.project.value)
    ensures SlotsAssigned(rows, t.project.value) ==>
              var order := Ordered(rows, t.project.value);
              t.dependsOn == if order == [] then None else Some(order[|order| - 1])
  {
    FittingIsAutomatic(rows, lastId, projects, draft, t);
    AutomaticAppendsExactly(rows, lastId + 1, t.project.value, t);
  }

  lemma SlotsAssignedEndLast(rows: Rows, project: Id, k: nat)
    requires k <= |Ordered(rows, project)| && SlotsEndAt(rows, Ordered(rows, project), k)
    ensures SlotsAssigned(rows, project) <==> k == |Ordered(rows, project)|
  {
    var order := Ordered(rows, project);
    if k == |order| {
      forall id | IsOrdered(rows, project, id) ensures 0 < rows[id].sortOrder {
        var i :| 0 <= i < |order| && order[i] == id;
      }
    } else {
      assert order[k] in order;
      assert IsOrdered(rows, project, order[k]) && rows[order[k]].sortOrder <= 0;
    }
  }
}
