/**
  Deleting a task tree: which rows go with it, and how the dependency chains that
  ran through them are closed again.
 */
module TaskDeletion {
  import opened Wrappers
  import opened Digraph
  import opened Sequences
  import opened Tasks
  import opened DependencyGraph
  import opened TaskRemoval
  import opened TaskRemovalLaws

  // ---- The tree ----

  function Children(rows: Rows, id: Id): (c: set<Id>)
    ensures c <= rows.Keys
  {
    set c | c in rows && (rows[c].parent == Some(id) || rows[c].mergeOf == Some(id))
  }

  ghost predicate ChildClosed(rows: Rows, s: set<Id>) {
    forall x :: x in s ==> Children(rows, x) <= s
  }

  /** The smallest set of rows that holds `root` and every child of its members. */
  ghost predicate IsTaskTree(rows: Rows, root: Id, tree: set<Id>) {
    && tree <= rows.Keys
    && (root in rows <==> root in tree)
    && (root !in rows ==> tree == {})
    && ChildClosed(rows, tree)
    && forall s: set<Id> :: ChildClosed(rows, s) && root in s ==> tree <= s
  }

  method CollectTaskTree(rows: Rows, id: Id, seen: set<Id>) returns (all: set<Id>)
    requires seen <= rows.Keys
    ensures seen <= all <= rows.Keys
    ensures id in rows ==> id in all
    ensures id !in rows ==> all == seen
    ensures forall x :: x in all && x !in seen ==> Children(rows, x) <= all
    ensures forall s: set<Id> :: ChildClosed(rows, s) && seen <= s && id in s ==> all <= s
    decreases rows.Keys - seen
  {
    if id in seen || id !in rows { return seen; }
    all := seen + {id};
    var todo := Children(rows, id);
    while todo != {}
      invariant seen + {id} <= all <= rows.Keys && todo <= Children(rows, id)
      invariant Children(rows, id) <= all + todo
      invariant forall x :: x in all && x !in seen && x != id ==> Children(rows, x) <= all
      invariant forall s: set<Id> :: ChildClosed(rows, s) && seen <= s && id in s ==> all <= s
      decreases todo
    {
      var child :| child in todo;
      ghost var before := all;
      all := CollectTaskTree(rows, child, all);
      todo := todo - {child};
      forall s: set<Id> | ChildClosed(rows, s) && seen <= s && id in s ensures all <= s {
        assert before <= s && Children(rows, id) <= s;
      }
    }
  }

  // ---- Contracting the chains ----

  /** The part of the graph whose edges leave deleted rows. */
  function Inside(g: Graph, deleting: set<Id>): (h: Graph) {
    map x | x in g && x in deleting :: g[x]
  }

  /** `v` is the first survivor on the chain through the deleted rows from `u`. */
  ghost predicate LeavesAt(g: Graph, deleting: set<Id>, u: Id, v: Id) {
    v !in deleting && Reaches(Inside(g, deleting), u, v)
  }

  ghost function Exit(g: Graph, deleting: set<Id>, u: Id): Option<Id> {
    if exists v :: LeavesAt(g, deleting, u, v) then
      var v :| LeavesAt(g, deleting, u, v); Some(v)
    else None
  }

  lemma {:induction false} WalksEndAlike(h: Graph, u: Id, v: Id, w: Id, m: nat, n: nat)
    requires Walk(h, u, m) == Some(v) && v !in h
    requires Walk(h, u, n) == Some(w) && w !in h
    ensures v == w
    decreases m
  {
    if m > 0 { WalksEndAlike(h, h[u], v, w, m - 1, n - 1); }
  }

  lemma ExitIsUnique(g: Graph, deleting: set<Id>, u: Id, v: Id)
    requires LeavesAt(g, deleting, u, v)
    ensures Exit(g, deleting, u) == Some(v)
  {
    var h := Inside(g, deleting);
    var w := Exit(g, deleting, u).value;
    var m: nat :| Walk(h, u, m) == Some(v);
    var n: nat :| Walk(h, u, n) == Some(w);
    WalksEndAlike(h, u, v, w, m, n);
  }

  method DependencyReplacement(rows: Rows, source: Id, deleting: set<Id>) returns (r: Option<Id>)
    requires ModesMatchTargets(rows) && source in deleting
    ensures r == Exit(Dependencies(rows), deleting, source)
  {
    ghost var g := Dependencies(rows);
    ghost var h := Inside(g, deleting);
    var seen: set<Id> := {};
    var current := source;
    ReachesSelf(h, source);
    while true
      invariant current in deleting && seen <= deleting && seen <= rows.Keys
      invariant Reaches(h, source, current)
      invariant forall v :: LeavesAt(g, deleting, source, v) ==> LeavesAt(g, deleting, current, v)
      invariant forall x :: x in seen ==> x in h && (h[x] in seen || h[x] == current)
      decreases rows.Keys - seen
    {
      if current in seen {
        forall v ensures !LeavesAt(g, deleting, current, v) {
          if LeavesAt(g, deleting, current, v) { ClosedKeepsReach(h, (iset x: Id | x in seen), current, v); }
        }
        return None;
      }
      forall v ensures LeavesAt(g, deleting, current, v) ==> current in h && Reaches(h, h[current], v) {
        ReachesUnfold(h, current, v);
      }
      seen := seen + {current};
      if current !in rows { return None; }
      var row := rows[current];
      if row.dependsOn.None? || row.mode.Independent? || row.mode.Unset? { return None; }
      var candidate := row.dependsOn.value;
      ReachesSelf(h, candidate);
      ReachesUnfold(h, current, candidate);
      ReachesTransitive(h, source, current, candidate);
      if candidate !in deleting {
        ExitIsUnique(g, deleting, source, candidate);
        return Some(candidate);
      }
      current := candidate;
    }
  }

  predicate PointsInto(t: Task, ids: set<Id>) {
    t.dependsOn.Some? && t.dependsOn.value in ids
  }

  /** A survivor that asked for a deleted row explicitly blocks the deletion. */
  ghost predicate Blocks(rows: Rows, deleting: set<Id>, id: Id) {
    id in rows && id !in deleting && PointsInto(rows[id], deleting) && rows[id].mode.Strong?
  }

  /** Survivors that point at one of `sources`. */
  function Dependents(rows: Rows, deleting: set<Id>, sources: set<Id>): (ids: set<Id>)
    ensures ids <= rows.Keys
  {
    set id | id in rows && id !in deleting && PointsInto(rows[id], sources)
  }

  /** The rows after `ids`, all dependents of deleted rows, point past the deleted tree. */
  ghost function Unlinked(rows: Rows, deleting: set<Id>, ids: set<Id>): (after: Rows)
    requires forall id :: id in ids ==> id in rows && rows[id].dependsOn.Some?
    ensures after.Keys == rows.Keys
  {
    map id | id in rows ::
      if id in ids then Relinked(rows[id], Exit(Dependencies(rows), deleting, rows[id].dependsOn.value)) else rows[id]
  }

  lemma ExitSeesDeletedRowsOnly(g: Graph, h: Graph, deleting: set<Id>, u: Id)
    requires Inside(g, deleting) == Inside(h, deleting)
    ensures Exit(g, deleting, u) == Exit(h, deleting, u)
  {
    if v :| LeavesAt(g, deleting, u, v) {
      assert LeavesAt(h, deleting, u, v);
      ExitIsUnique(g, deleting, u, v);
      ExitIsUnique(h, deleting, u, v);
    } else {
      assert forall v :: LeavesAt(h, deleting, u, v) ==> LeavesAt(g, deleting, u, v);
    }
  }

  lemma UnlinkingKeepsDeletedRows(rows: Rows, deleting: set<Id>, ids: set<Id>, source: Id)
    requires ModesMatchTargets(rows)
    requires ids <= Dependents(rows, deleting, deleting)
    ensures ModesMatchTargets(Unlinked(rows, deleting, ids))
    ensures Exit(Dependencies(Unlinked(rows, deleting, ids)), deleting, source) ==
            Exit(Dependencies(rows), deleting, source)
  {
    var after := Unlinked(rows, deleting, ids);
    assert Inside(Dependencies(after), deleting) == Inside(Dependencies(rows), deleting);
    ExitSeesDeletedRowsOnly(Dependencies(after), Dependencies(rows), deleting, source);
  }

  /** Rows already moved past the tree no longer point at any deleted row. */
  lemma MovedRowsPointOutside(rows: Rows, deleting: set<Id>, ids: set<Id>, id: Id)
    requires ids <= Dependents(rows, deleting, deleting) && id in rows
    ensures var after := Unlinked(rows, deleting, ids);
            if id in ids then !PointsInto(after[id], deleting) else after[id] == rows[id]
  {
    if id in ids && Exit(Dependencies(rows), deleting, rows[id].dependsOn.value).Some? {
      assert LeavesAt(Dependencies(rows), deleting, rows[id].dependsOn.value,
                      Exit(Dependencies(rows), deleting, rows[id].dependsOn.value).value);
    }
  }

  function WaitingFor(rows: Rows, source: Id): (ids: set<Id>) {
    set id | id in rows && rows[id].dependsOn == Some(source)
  }

  lemma SameWaiting(rows: Rows, deleting: set<Id>, ids: set<Id>, source: Id)
    requires ids <= Dependents(rows, deleting, deleting - {source}) && source in deleting
    ensures WaitingFor(Unlinked(rows, deleting, ids), source) == WaitingFor(rows, source)
    ensures Dependents(rows, deleting, {source}) == WaitingFor(rows, source) - deleting
    ensures ids !! WaitingFor(rows, source)
  {
    forall id ensures id in WaitingFor(Unlinked(rows, deleting, ids), source) <==> id in WaitingFor(rows, source) {
      if id in rows { MovedRowsPointOutside(rows, deleting, ids, id); }
    }
  }

  lemma UnlinkOne(rows: Rows, deleting: set<Id>, ids: set<Id>, id: Id, source: Id)
    requires ids <= Dependents(rows, deleting, deleting)
    requires id in Dependents(rows, deleting, {source}) && id !in ids
    ensures Unlinked(rows, deleting, ids + {id}) ==
            Unlinked(rows, deleting, ids)
            [id := Relinked(Unlinked(rows, deleting, ids)[id], Exit(Dependencies(rows), deleting, source))]
  {
  }

  datatype Blocked = Blocked(dependent: Id, source: Id)

  /** One survivor waiting for one deleted row: moved past the tree, or blocking. */
  method MovePast(ghost rows: Rows, current: Rows, deleting: set<Id>, source: Id, id: Id, ghost moved: set<Id>)
    returns (r: Result<Rows, Blocked>)
    requires ModesMatchTargets(rows) && source in deleting
    requires moved <= Dependents(rows, deleting, deleting) && current == Unlinked(rows, deleting, moved)
    requires id in Dependents(rows, deleting, {source}) && id !in moved
    ensures r == if rows[id].mode.Strong? then Failure(Blocked(id, source))
                 else Success(Unlinked(rows, deleting, moved + {id}))
  {
    if current[id].mode.Strong? { return Failure(Blocked(id, source)); }
    UnlinkingKeepsDeletedRows(rows, deleting, moved, source);
    var target := DependencyReplacement(current, source, deleting);
    UnlinkOne(rows, deleting, moved, id, source);
    return Success(current[id := Relinked(current[id], target)]);
  }

  /** One deleted row: every survivor waiting for it is moved past the tree, or blocks. */
  method UnlinkFrom(ghost rows: Rows, current: Rows, deleting: set<Id>, source: Id, ghost ids: set<Id>)
    returns (r: Result<Rows, Blocked>)
    requires ModesMatchTargets(rows) && source in deleting
    requires ids <= Dependents(rows, deleting, deleting - {source})
    requires current == Unlinked(rows, deleting, ids)
    ensures match r
            case Success(after) =>
              && after == Unlinked(rows, deleting, ids + Dependents(rows, deleting, {source}))
              && forall id :: id in Dependents(rows, deleting, {source}) ==> !rows[id].mode.Strong?
            case Failure(b) => b.source == source && b.dependent in Dependents(rows, deleting, {source})
                               && rows[b.dependent].mode.Strong?
  {
    ghost var dependents := Dependents(rows, deleting, {source});
    SameWaiting(rows, deleting, ids, source);
    var after := current;
    var todo := WaitingFor(current, source);
    assert ids + (dependents - todo) == ids;
    while todo != {}
      invariant todo <= WaitingFor(rows, source)
      invariant after == Unlinked(rows, deleting, ids + (dependents - todo))
      invariant forall id :: id in dependents - todo ==> !rows[id].mode.Strong?
      decreases todo
    {
      var id :| id in todo;
      ghost var moved := ids + (dependents - todo);
      if id !in deleting {
        var step := MovePast(rows, after, deleting, source, id, moved);
        if step.Failure? { return step; }
        after := step.value;
        assert ids + (dependents - (todo - {id})) == moved + {id};
      } else {
        assert dependents - (todo - {id}) == dependents - todo;
      }
      todo := todo - {id};
    }
    assert ids + (dependents - {}) == ids + dependents;
    return Success(after);
  }

  method UnlinkTaskDependencies(rows: Rows, deleting: set<Id>) returns (r: Result<Rows, Blocked>)
    requires ModesMatchTargets(rows)
    ensures match r
            case Success(after) =>
              && after == Unlinked(rows, deleting, Dependents(rows, deleting, deleting))
              && forall id :: !Blocks(rows, deleting, id)
            case Failure(b) => Blocks(rows, deleting, b.dependent) && rows[b.dependent].dependsOn == Some(b.source)
  {
    var after := rows;
    var todo := deleting;
    ghost var done: set<Id> := {};
    assert Unlinked(rows, deleting, Dependents(rows, deleting, {})) == rows;
    while todo != {}
      invariant done + todo == deleting && done !! todo
      invariant after == Unlinked(rows, deleting, Dependents(rows, deleting, done))
      invariant forall id :: id in Dependents(rows, deleting, done) ==> !rows[id].mode.Strong?
      decreases todo
    {
      var source :| source in todo;
      todo := todo - {source};
      var step := UnlinkFrom(rows, after, deleting, source, Dependents(rows, deleting, done));
      if step.Failure? { return Failure(step.error); }
      after := step.value;
      assert Dependents(rows, deleting, done) + Dependents(rows, deleting, {source}) ==
             Dependents(rows, deleting, done + {source});
      done := done + {source};
    }
    assert done == deleting;
    assert forall id :: Blocks(rows, deleting, id) ==> id in Dependents(rows, deleting, deleting);
    return Success(after);
  }

  /** Sessions delivered as a deleted task lose their link to it. */
  function SessionsCleared(rows: Rows, deleting: set<Id>): (after: Rows) {
    map id | id in rows ::
      if rows[id].session.Some? && rows[id].session.value in deleting
      then rows[id].(session := None, revision := rows[id].revision + 1) else rows[id]
  }

  /** The table before its rows go: nobody outside the tree waits for it or was delivered as part of it. */
  ghost function Cleared(rows: Rows, tree: set<Id>): (after: Rows)
    ensures after.Keys == rows.Keys
  {
    SessionsCleared(Unlinked(rows, tree, Dependents(rows, tree, tree)), tree)
  }

  lemma ClearingKeepsOwners(rows: Rows, tree: set<Id>, rank: Id -> nat, id: Id)
    requires Ranked(rows, rank)
    ensures Ranked(Cleared(rows, tree), rank)
    ensures Order(Cleared(rows, tree), rank, id) == Order(rows, rank, id)
  {
    forall o ensures Owned(Cleared(rows, tree), o) == Owned(rows, o) {
    }
    SameOwnersSameOrder(rows, Cleared(rows, tree), rank, rank, id);
  }

  /**
    `removed` is what the removal took with the collected tree, which it may exceed:
    it also descends along the session and spawn columns.
   */
  ghost predicate Deletes(rows: Rows, root: Id, tree: set<Id>, removed: set<Id>, after: Rows) {
    && IsTaskTree(rows, root, tree) && root in tree && tree <= removed <= rows.Keys
    && after == Cleared(rows, tree) - removed
    && forall x, y :: x in after && y in removed ==> !RefersTo(after[x], y)
  }

  lemma RemovalListsTree(rows: Rows, rank: Id -> nat, id: Id, tree: set<Id>)
    requires Ranked(rows, rank) && IsTaskTree(rows, id, tree) && id in rows
    ensures OwnedGoFirst(rows, Order(rows, rank, id))
    ensures var removed := set x | x in Order(rows, rank, id); tree <= removed <= rows.Keys
  {
    OwnersGoLast(rows, rank, id);
    OrderTakesOwnedTree(rows, rank, id);
    var removed := set x | x in Order(rows, rank, id);
    forall x | x in removed ensures Children(rows, x) <= removed {
      assert Children(rows, x) <= Owned(rows, x);
    }
    assert ChildClosed(rows, removed);
  }

  lemma RemovalDeletes(
      rows: Rows, id: Id, tree: set<Id>, cleared: Rows, edges: Edges, runs: Runs, order: seq<Id>, after: Rows)
    requires IsTaskTree(rows, id, tree) && id in rows && cleared == Cleared(rows, tree)
    requires tree <= (set x | x in order) <= rows.Keys
    requires GoesThrough(cleared, edges, runs, order) && after == Without(cleared, order)
    ensures Deletes(rows, id, tree, (set x | x in order), after)
  {
    forall x, y | x in after && y in order ensures !RefersTo(after[x], y) {
      SurvivorsNameNoneRemoved(cleared, edges, runs, order, x, y);
    }
  }

  /** The rows of the tree, and those below them along the other columns, go one by one. */
  method RemoveRows(
      ghost rows: Rows, cleared: Rows, edges: Edges, runs: Runs, id: Id, ghost tree: set<Id>, ghost rank: Id -> nat)
    returns (r: Result<(Rows, Edges), RemovalError>)
    requires Ranked(rows, rank) && IsTaskTree(rows, id, tree) && id in rows && cleared == Cleared(rows, tree)
    ensures var order := Order(rows, rank, id);
            && (r.Success? <==> GoesThrough(cleared, edges, runs, order))
            && (r.Failure? ==> Outcome(cleared, edges, runs, order) == Failure(r.error))
            && (r.Success? ==> Deletes(rows, id, tree, (set x | x in order), r.value.0) && r.value.1 == Without(edges, order))
  {
    ghost var order := Order(rows, rank, id);
    ClearingKeepsOwners(rows, tree, rank, id);
    r := DeleteTaskTree(cleared, edges, runs, id, rank);
    RemovalSucceedsExactly(cleared, edges, runs, order);
    if r.Success? {
      OutcomeRemoves(cleared, edges, runs, order);
      RemovalListsTree(rows, rank, id, tree);
      RemovalDeletes(rows, id, tree, cleared, edges, runs, order, r.value.0);
    }
  }

  ghost function Removed(rows: Rows, rank: Id -> nat, id: Id): set<Id>
    requires Ranked(rows, rank)
  {
    set x | x in Order(rows, rank, id)
  }

  ghost predicate MayDelete(rows: Rows, edges: Edges, runs: Runs, rank: Id -> nat, id: Id, tree: set<Id>)
    requires Ranked(rows, rank)
  {
    && id in rows && (forall x :: !Blocks(rows, tree, x))
    && GoesThrough(Cleared(rows, tree), edges, runs, Order(rows, rank, id))
  }

  datatype DeleteError = NoSuchTask | StillNeeded(blocked: Blocked) | NotRemovable(cause: RemovalError)

  /** The answer of a deletion: which of the three refusals applies, or none exactly when it may commit. */
  ghost predicate Explains(rows: Rows, edges: Edges, runs: Runs, rank: Id -> nat, id: Id, tree: set<Id>,
                           error: Option<DeleteError>)
    requires Ranked(rows, rank)
  {
    && (error.None? <==> MayDelete(rows, edges, runs, rank, id, tree))
    && (error == Some(NoSuchTask) <==> id !in rows)
    && (error.Some? && error.value.StillNeeded? <==> exists x :: Blocks(rows, tree, x))
    && (error.Some? && error.value.NotRemovable? ==>
          Outcome(Cleared(rows, tree), edges, runs, Order(rows, rank, id)) == Failure(error.value.cause))
  }

  method Deletion(rows: Rows, edges: Edges, runs: Runs, id: Id, ghost rank: Id -> nat)
    returns (r: Result<(Rows, Edges), DeleteError>, ghost tree: set<Id>)
    requires ModesMatchTargets(rows) && Ranked(rows, rank)
    ensures IsTaskTree(rows, id, tree)
    ensures Explains(rows, edges, runs, rank, id, tree, if r.Success? then None else Some(r.error))
    ensures r.Success? ==> Deletes(rows, id, tree, Removed(rows, rank, id), r.value.0)
                           && r.value.1 == edges - Removed(rows, rank, id)
  {
    var deleting := CollectTaskTree(rows, id, {});
    tree := deleting;
    if deleting == {} { return Failure(NoSuchTask), tree; }
    var unlinked := UnlinkTaskDependencies(rows, deleting);
    if unlinked.Failure? { return Failure(StillNeeded(unlinked.error)), tree; }
    var left := RemoveRows(rows, SessionsCleared(unlinked.value, deleting), edges, runs, id, tree, rank);
    if left.Failure? { return Failure(NotRemovable(left.error)), tree; }
    return Success(left.value), tree;
  }

  method DeleteTask(st: Store, id: Id, ghost rank: Id -> nat) returns (error: Option<DeleteError>, ghost tree: set<Id>)
    requires st.Valid() && ModesMatchTargets(st.tasks) && Ranked(st.tasks, rank)
    modifies st`tasks, st`edges
    ensures st.Valid() && IsTaskTree(old(st.tasks), id, tree)
    ensures Explains(old(st.tasks), old(st.edges), st.runs, rank, id, tree, error)
    ensures error.None? ==> Deletes(old(st.tasks), id, tree, Removed(old(st.tasks), rank, id), st.tasks)
                            && st.edges == old(st.edges) - Removed(old(st.tasks), rank, id)
    ensures error.Some? ==> st.tasks == old(st.tasks) && st.edges == old(st.edges)
  {
    var r, found := Deletion(st.tasks, st.edges, st.runs, id, rank);
    tree := found;
    if r.Failure? { return Some(r.error), tree; }
    st.tasks, st.edges := r.value.0, r.value.1;
    return None, tree;
  }

  // ---- Which deletions commit ----

  /** The keys that the deletion does not clear itself: a row waiting inside the tree, a resumed task, workflow edges. */
  ghost predicate OtherKeysGoFirst(rows: Rows, edges: Edges, tree: set<Id>, order: seq<Id>, x: Id) {
    && (forall y :: y in tree && y in rows && y != x && rows[y].dependsOn == Some(x) ==> Before(order, y, x))
    && (forall y :: y in rows && y != x && rows[y].resumeOf == Some(x) ==> Before(order, y, x))
    && forall y :: y in edges && y != x && x in edges[y] ==> Before(order, y, x)
  }

  lemma ClearedReferrer(rows: Rows, edges: Edges, tree: set<Id>, x: Id, y: Id)
    requires x in tree
    ensures y in Referrers(Cleared(rows, tree), edges, x) <==>
            || (y in edges && y != x && x in edges[y])
            || (y in rows && y != x && (rows[y].parent == Some(x) || rows[y].parentSession == Some(x)
                                        || rows[y].parentTask == Some(x) || rows[y].resumeOf == Some(x)
                                        || (y in tree && rows[y].dependsOn == Some(x))))
  {
    if y in rows { MovedRowsPointOutside(rows, tree, Dependents(rows, tree, tree), y); }
  }

  /**
    When only the collected tree is removed, a deletion that nobody outside blocks goes
    through exactly when no row is listed twice, no run names a removed definition, and
    whatever waits inside the tree, resumes or follows a removed row goes before it.
   */
  lemma RemovalGoesThroughExactly(rows: Rows, rank: Id -> nat, id: Id, tree: set<Id>, edges: Edges, runs: Runs)
    requires Ranked(rows, rank) && IsTaskTree(rows, id, tree) && id in rows
    requires forall x :: x in Order(rows, rank, id) ==> x in tree
    ensures var order := Order(rows, rank, id);
            GoesThrough(Cleared(rows, tree), edges, runs, order) <==>
            && Distinct(order) && (forall r :: r in runs ==> runs[r].workflow !in tree)
            && forall x :: x in tree ==> OtherKeysGoFirst(rows, edges, tree, order, x)
  {
    var order := Order(rows, rank, id);
    RemovalListsTree(rows, rank, id, tree);
    forall x | x in tree
      ensures ReferrersGoFirst(Cleared(rows, tree), edges, order, x) <==> OtherKeysGoFirst(rows, edges, tree, order, x)
    {
      ReferrersAreOtherKeys(rows, edges, tree, order, x);
    }
    GoesThroughAlike(Cleared(rows, tree), rows, edges, runs, tree, order);
  }

  lemma GoesThroughAlike(cleared: Rows, rows: Rows, edges: Edges, runs: Runs, tree: set<Id>, order: seq<Id>)
    requires tree <= cleared.Keys && forall x :: x in order <==> x in tree
    requires forall x :: x in tree ==>
                           (ReferrersGoFirst(cleared, edges, order, x) <==> OtherKeysGoFirst(rows, edges, tree, order, x))
    ensures GoesThrough(cleared, edges, runs, order) <==>
            && Distinct(order) && (forall r :: r in runs ==> runs[r].workflow !in tree)
            && forall x :: x in tree ==> OtherKeysGoFirst(rows, edges, tree, order, x)
  {
  }

  lemma ReferrersAreOtherKeys(rows: Rows, edges: Edges, tree: set<Id>, order: seq<Id>, x: Id)
    requires x in tree && x in order && OwnedGoFirst(rows, order)
    ensures ReferrersGoFirst(Cleared(rows, tree), edges, order, x) <==> OtherKeysGoFirst(rows, edges, tree, order, x)
  {
    forall y ensures y in Referrers(Cleared(rows, tree), edges, x) && !Before(order, y, x) <==>
                     && y != x && !Before(order, y, x)
                     && (|| (y in edges && x in edges[y])
                         || (y in rows && (rows[y].resumeOf == Some(x) || (y in tree && rows[y].dependsOn == Some(x)))))
    {
      ClearedReferrer(rows, edges, tree, x, y);
      if y in Owned(rows, x) { assert Before(order, y, x); }
    }
  }

  /**
    Two children of one task, the later of which waits for the earlier, keep that task from
    ever being deleted: the earlier is removed first, while the later still names it.
   */
  lemma WaitingSiblingPreventsDeletion(
      rows: Rows, edges: Edges, runs: Runs, rank: Id -> nat, id: Id, tree: set<Id>, c: Id, d: Id)
    requires Ranked(rows, rank) && IsTaskTree(rows, id, tree) && id in rows
    requires c in Children(rows, id) && d in Children(rows, id) && c < d && rows[d].dependsOn == Some(c)
    ensures !MayDelete(rows, edges, runs, rank, id, tree)
  {
    var cleared := Cleared(rows, tree);
    ClearingKeepsOwners(rows, tree, rank, id);
    assert c in Owned(cleared, id) && d in Owned(cleared, id);
    assert d in tree && cleared[d].dependsOn == Some(c);
    SiblingInTheWay(cleared, edges, runs, rank, id, c, d);
  }

  /** So does a child that an earlier child owns as well: its row is gone when its own turn comes. */
  lemma ChildOwnedTwicePreventsDeletion(
      rows: Rows, edges: Edges, runs: Runs, rank: Id -> nat, id: Id, tree: set<Id>, c: Id, d: Id)
    requires Ranked(rows, rank)
    requires c in Owned(rows, id) && d in Owned(rows, id) && c < d && d in Owned(rows, c)
    ensures !MayDelete(rows, edges, runs, rank, id, tree)
  {
    ChildOwnedTwiceIsListedTwice(rows, rank, id, c, d);
  }

  // ---- What the survivors keep ----

  /** A walk from a deleted row to a survivor leaves the deleted rows on the way. */
  lemma {:induction false} WalkLeaves(g: Graph, deleting: set<Id>, u: Id, v: Id, n: nat) returns (x: Id, rest: nat)
    requires u in deleting && v !in deleting && Walk(g, u, n) == Some(v)
    ensures LeavesAt(g, deleting, u, x) && rest < n && Walk(g, x, rest) == Some(v)
    decreases n
  {
    var h := Inside(g, deleting);
    if g[u] in deleting {
      x, rest := WalkLeaves(g, deleting, g[u], v, n - 1);
    } else {
      x, rest := g[u], n - 1;
      ReachesSelf(h, x);
    }
    ReachesUnfold(h, u, x);
  }

  lemma {:induction false} InsideWalk(g: Graph, deleting: set<Id>, u: Id, n: nat)
    requires Walk(Inside(g, deleting), u, n).Some?
    ensures Walk(g, u, n) == Walk(Inside(g, deleting), u, n)
    decreases n
  {
    if n > 0 { InsideWalk(g, deleting, g[u], n - 1); }
  }

  /** The graph of the survivors: edges into the deleted tree lead to where it is left. */
  ghost predicate Contracts(g: Graph, deleting: set<Id>, h: Graph) {
    && (forall x :: x in deleting ==> x !in h)
    && forall x :: x !in deleting ==>
                     (x in h <==> x in g && (g[x] in deleting ==> Exit(g, deleting, g[x]).Some?))
                     && (x in h ==> h[x] == if g[x] in deleting then Exit(g, deleting, g[x]).value else g[x])
  }

  lemma ContractedStep(g: Graph, deleting: set<Id>, h: Graph, u: Id)
    requires Contracts(g, deleting, h) && u in h
    ensures u in g && h[u] !in deleting && Reaches(g, g[u], h[u])
  {
    if g[u] in deleting {
      var v := h[u];
      assert LeavesAt(g, deleting, g[u], v);
      var n: nat :| Walk(Inside(g, deleting), g[u], n) == Some(v);
      InsideWalk(g, deleting, g[u], n);
    } else {
      ReachesSelf(g, g[u]);
    }
  }

  lemma {:induction false} ContractedWalkIsReal(g: Graph, deleting: set<Id>, h: Graph, u: Id, v: Id, n: nat)
    requires Contracts(g, deleting, h) && Walk(h, u, n) == Some(v)
    ensures Reaches(g, u, v)
    decreases n
  {
    if n == 0 {
      ReachesSelf(g, u);
    } else {
      ContractedStep(g, deleting, h, u);
      ContractedWalkIsReal(g, deleting, h, h[u], v, n - 1);
      ReachesTransitive(g, g[u], h[u], v);
      ReachesUnfold(g, u, v);
    }
  }

  lemma {:induction false} RealWalkSurvives(g: Graph, deleting: set<Id>, h: Graph, u: Id, v: Id, n: nat)
    requires Contracts(g, deleting, h) && u !in deleting && v !in deleting && Walk(g, u, n) == Some(v)
    ensures Reaches(h, u, v)
    decreases n
  {
    if n == 0 {
      ReachesSelf(h, u);
    } else {
      if g[u] in deleting {
        var x, rest := WalkLeaves(g, deleting, g[u], v, n - 1);
        ExitIsUnique(g, deleting, g[u], x);
        RealWalkSurvives(g, deleting, h, x, v, rest);
      } else {
        RealWalkSurvives(g, deleting, h, g[u], v, n - 1);
      }
      ReachesUnfold(h, u, v);
    }
  }

  /** Contraction keeps "u waits, directly or not, for v" for all survivors. */
  lemma ContractionKeepsReach(g: Graph, deleting: set<Id>, h: Graph, u: Id, v: Id)
    requires Contracts(g, deleting, h) && u !in deleting && v !in deleting
    ensures Reaches(g, u, v) <==> Reaches(h, u, v)
  {
    if n: nat :| Walk(g, u, n) == Some(v) { RealWalkSurvives(g, deleting, h, u, v, n); }
    if n: nat :| Walk(h, u, n) == Some(v) { ContractedWalkIsReal(g, deleting, h, u, v, n); }
  }

  lemma ContractionKeepsAcyclic(g: Graph, deleting: set<Id>, h: Graph)
    requires Contracts(g, deleting, h) && Acyclic(g)
    ensures Acyclic(h)
  {
    forall u ensures !OnCycle(h, u) {
      if OnCycle(h, u) {
        ContractedStep(g, deleting, h, u);
        ContractionKeepsReach(g, deleting, h, h[u], u);
        ReachesTransitive(g, g[u], h[u], u);
        assert OnCycle(g, u);
      }
    }
  }

  /** What a deletion does to one row, as far as dependencies are concerned. */
  ghost predicate Detaches(rows: Rows, deleting: set<Id>, after: Rows) {
    && (forall id :: id in after <==> id in rows && id !in deleting)
    && forall id :: id in after ==>
                      && after[id].mergeOf == rows[id].mergeOf
                      && after[id].project == rows[id].project
                      && after[id].mode == rows[id].mode
                      && after[id].dependsOn ==
                         if PointsInto(rows[id], deleting)
                         then Exit(Dependencies(rows), deleting, rows[id].dependsOn.value)
                         else rows[id].dependsOn
  }

  lemma ClearingDetaches(rows: Rows, deleting: set<Id>)
    ensures Detaches(rows, deleting, Cleared(rows, deleting) - deleting)
  {
  }

  lemma DetachingContracts(rows: Rows, deleting: set<Id>, after: Rows)
    requires Detaches(rows, deleting, after)
    ensures Contracts(Dependencies(rows), deleting, Dependencies(after))
    ensures forall id :: id in after ==> !PointsInto(after[id], deleting)
  {
    var g := Dependencies(rows);
    forall id | id in after ensures !PointsInto(after[id], deleting) {
      if after[id].dependsOn.Some? && PointsInto(rows[id], deleting) {
        assert LeavesAt(g, deleting, rows[id].dependsOn.value, after[id].dependsOn.value);
      }
    }
  }

  /** The rows that went beyond the collected tree had no dependents left either. */
  lemma RemovedPartIsClosed(middle: Rows, removed: set<Id>, after: Rows)
    requires after == middle - removed && forall id :: id in after ==> !PointsInto(after[id], removed)
    ensures var kept := iset x: Id | x !in removed;
            Closed(Dependencies(after), kept) && AgreeOn(Dependencies(after), Dependencies(middle), kept)
  {
  }

  lemma SurvivorsPointElsewhere(rows: Rows, root: Id, tree: set<Id>, removed: set<Id>, after: Rows)
    requires Deletes(rows, root, tree, removed, after)
    ensures after == (Cleared(rows, tree) - tree) - removed
    ensures forall id :: id in after ==> !PointsInto(after[id], removed)
  {
    forall id | id in after ensures !PointsInto(after[id], removed) {
      if PointsInto(after[id], removed) { assert RefersTo(after[id], after[id].dependsOn.value); }
    }
  }

  /**
    After a deletion no survivor points at a deleted row, and "u waits, directly or
    not, for v" is unchanged for all survivors.
   */
  lemma DeletionKeepsWaiting(rows: Rows, root: Id, tree: set<Id>, removed: set<Id>, after: Rows, u: Id, v: Id)
    requires Deletes(rows, root, tree, removed, after) && u !in removed && v !in removed
    ensures Reaches(Dependencies(rows), u, v) <==> Reaches(Dependencies(after), u, v)
    ensures forall id :: id in after ==> !PointsInto(after[id], removed)
  {
    var middle := Cleared(rows, tree) - tree;
    ClearingDetaches(rows, tree);
    DetachingContracts(rows, tree, middle);
    ContractionKeepsReach(Dependencies(rows), tree, Dependencies(middle), u, v);
    SurvivorsPointElsewhere(rows, root, tree, removed, after);
    RemovedPartIsClosed(middle, removed, after);
    AgreeingReach(Dependencies(after), Dependencies(middle), (iset x: Id | x !in removed), u, v);
  }

  /** A survivor loses its links into the tree, and nothing else of it changes. */
  lemma DeletionTouchesOnlyLinks(rows: Rows, root: Id, tree: set<Id>, removed: set<Id>, after: Rows, id: Id)
    requires Deletes(rows, root, tree, removed, after) && id in rows && id !in removed
    ensures id in after
    ensures after[id] == rows[id].(dependsOn := after[id].dependsOn, session := after[id].session,
                                   revision := after[id].revision)
    ensures after[id].session == if rows[id].session.Some? && rows[id].session.value in tree then None else rows[id].session
    ensures !PointsInto(rows[id], tree) ==> after[id].dependsOn == rows[id].dependsOn
    ensures !PointsInto(rows[id], tree) && after[id].session == rows[id].session ==> after[id] == rows[id]
    ensures after[id] != rows[id] ==> after[id].revision > rows[id].revision
  {
  }

  lemma {:induction false} WalkStaysInProject(rows: Rows, u: Id, v: Id, n: nat)
    requires EdgesStayInProject(rows) && u in rows && rows[u].mergeOf.None?
    requires Walk(Dependencies(rows), u, n) == Some(v)
    ensures v in rows && rows[v].mergeOf.None? && rows[v].project == rows[u].project
    decreases n
  {
    if n > 0 {
      var w := rows[u].dependsOn.value;
      assert EdgeStaysInProject(rows, u, w);
      WalkStaysInProject(rows, w, v, n - 1);
    }
  }

  lemma DetachingKeepsSound(rows: Rows, deleting: set<Id>, after: Rows)
    requires Sound(rows) && Detaches(rows, deleting, after)
    ensures Sound(after)
  {
    var g, h := Dependencies(rows), Dependencies(after);
    DetachingContracts(rows, deleting, after);
    ContractionKeepsAcyclic(g, deleting, h);
    forall id | id in after && after[id].dependsOn.Some?
      ensures EdgeStaysInProject(after, id, after[id].dependsOn.value)
    {
      var target := after[id].dependsOn.value;
      ContractedStep(g, deleting, h, id);
      assert EdgeStaysInProject(rows, id, g[id]);
      var n: nat :| Walk(g, g[id], n) == Some(target);
      WalkStaysInProject(rows, g[id], target, n);
    }
  }

  lemma RemainderIsSound(middle: Rows, removed: set<Id>, after: Rows)
    requires Sound(middle)
    requires after == middle - removed && forall id :: id in after ==> !PointsInto(after[id], removed)
    ensures Sound(after)
  {
    RemovedPartIsClosed(middle, removed, after);
    var g := Dependencies(after);
    forall u ensures !OnCycle(g, u) {
      if u in g { AgreeingCycles(g, Dependencies(middle), (iset x: Id | x !in removed), u); }
    }
    forall id | id in after && after[id].dependsOn.Some?
      ensures EdgeStaysInProject(after, id, after[id].dependsOn.value)
    {
      assert EdgeStaysInProject(middle, id, middle[id].dependsOn.value);
    }
  }

  lemma DeletionKeepsSound(rows: Rows, root: Id, tree: set<Id>, removed: set<Id>, after: Rows)
    requires Sound(rows) && Deletes(rows, root, tree, removed, after)
    ensures Sound(after)
  {
    ClearingDetaches(rows, tree);
    DetachingKeepsSound(rows, tree, Cleared(rows, tree) - tree);
    SurvivorsPointElsewhere(rows, root, tree, removed, after);
    RemainderIsSound(Cleared(rows, tree) - tree, removed, after);
  }
}
