/**
  Removing the rows of a task tree, one DELETE at a time: children before their
  owners, siblings by key.  Every foreign key is checked after each statement, so
  the order decides whether the removal goes through.
 */
module TaskRemoval {
  import opened Wrappers
  import opened Digraph
  import opened Sequences
  import opened Tasks

  // ---- Owners ----

  /** The four columns along which a removal descends. */
  predicate Owns(t: Task, owner: Id) {
    t.parent == Some(owner) || t.mergeOf == Some(owner) || t.parentSession == Some(owner) || t.parentTask == Some(owner)
  }

  function Owned(rows: Rows, owner: Id): (c: set<Id>)
    ensures c <= rows.Keys
  {
    set c | c in rows && Owns(rows[c], owner)
  }

  /** Every row ranks below its owners; such a rank exists unless owners form a cycle. */
  ghost predicate Ranked(rows: Rows, rank: Id -> nat) {
    forall c, owner :: c in Owned(rows, owner) ==> rank(c) < rank(owner)
  }

  lemma SubsetIsRanked(rows: Rows, ids: seq<Id>, rank: Id -> nat)
    requires Ranked(rows, rank)
    ensures Ranked(Without(rows, ids), rank)
  {
    forall c, owner | c in Owned(Without(rows, ids), owner) ensures rank(c) < rank(owner) {
      assert c in Owned(rows, owner);
    }
  }

  ghost predicate OwnedClosed(rows: Rows, s: set<Id>) {
    forall x :: x in s ==> Owned(rows, x) <= s
  }

  // ---- The order of removal ----

  function Without<V>(m: map<Id, V>, ids: seq<Id>): (rest: map<Id, V>) {
    m - set x | x in ids
  }

  /** The keys in the order in which their DELETE is issued, while all of them succeed. */
  ghost function Order(rows: Rows, rank: Id -> nat, id: Id): seq<Id>
    requires Ranked(rows, rank)
    decreases rank(id), 1, 0
  {
    Orders(rows, rank, AscendingIds(Owned(rows, id)), rank(id)) + [id]
  }

  ghost function Orders(rows: Rows, rank: Id -> nat, ids: seq<Id>, bound: nat): seq<Id>
    requires Ranked(rows, rank) && forall x :: x in ids ==> rank(x) < bound
    decreases bound, 0, |ids|
  {
    if ids == [] then []
    else
      var first := Order(rows, rank, ids[0]);
      SubsetIsRanked(rows, first, rank);
      first + Orders(Without(rows, first), rank, ids[1..], bound)
  }

  /** Only the owner columns decide the order, not the rank that bounds the descent. */
  lemma {:induction false} SameOwnersSameOrder(a: Rows, b: Rows, rank: Id -> nat, other: Id -> nat, id: Id)
    requires Ranked(a, rank) && Ranked(b, other) && forall o :: Owned(a, o) == Owned(b, o)
    ensures Order(a, rank, id) == Order(b, other, id)
    decreases rank(id), 1, 0
  {
    SameOwnersSameOrders(a, b, rank, other, AscendingIds(Owned(a, id)), rank(id), other(id));
  }

  lemma {:induction false} SameOwnersSameOrders(a: Rows, b: Rows, rank: Id -> nat, other: Id -> nat, ids: seq<Id>,
                                                bound: nat, otherBound: nat)
    requires Ranked(a, rank) && Ranked(b, other) && forall o :: Owned(a, o) == Owned(b, o)
    requires forall x :: x in ids ==> rank(x) < bound && other(x) < otherBound
    ensures Orders(a, rank, ids, bound) == Orders(b, other, ids, otherBound)
    decreases bound, 0, |ids|
  {
    if ids != [] {
      SameOwnersSameOrder(a, b, rank, other, ids[0]);
      var first := Order(a, rank, ids[0]);
      SubsetIsRanked(a, first, rank);
      SubsetIsRanked(b, first, other);
      var gone := set x | x in first;
      forall o ensures Owned(Without(a, first), o) == Owned(Without(b, first), o) {
        assert Owned(Without(a, first), o) == Owned(a, o) - gone;
        assert Owned(Without(b, first), o) == Owned(b, o) - gone;
      }
      SameOwnersSameOrders(Without(a, first), Without(b, first), rank, other, ids[1..], bound, otherBound);
    }
  }

  // ---- What a DELETE checks ----

  /** The foreign keys of the task table; `merge_of` is none. */
  predicate RefersTo(t: Task, id: Id) {
    || t.parent == Some(id) || t.dependsOn == Some(id) || t.resumeOf == Some(id)
    || t.session == Some(id) || t.parentSession == Some(id) || t.parentTask == Some(id)
  }

  /** The tasks whose row, or whose workflow edges, name `id`. */
  function Referrers(rows: Rows, edges: Edges, id: Id): (ids: set<Id>) {
    (set y | y in rows && y != id && RefersTo(rows[y], id)) + (set y | y in edges && y != id && id in edges[y])
  }

  predicate HasRuns(runs: Runs, id: Id) {
    exists r :: r in runs && runs[r].workflow == id
  }

  datatype RemovalError = RowGone(id: Id) | ForeignKey(id: Id)

  /** One DELETE; it takes the row's workflow edges with it. */
  function RemoveRow(rows: Rows, edges: Edges, runs: Runs, id: Id): Result<(Rows, Edges), RemovalError> {
    if id !in rows then Failure(RowGone(id))
    else if Referrers(rows, edges, id) != {} || HasRuns(runs, id) then Failure(ForeignKey(id))
    else Success((rows - {id}, edges - {id}))
  }

  function Outcome(rows: Rows, edges: Edges, runs: Runs, order: seq<Id>): Result<(Rows, Edges), RemovalError> {
    if order == [] then Success((rows, edges))
    else
      var left := RemoveRow(rows, edges, runs, order[0]);
      if left.Failure? then left else Outcome(left.value.0, left.value.1, runs, order[1..])
  }

  lemma WithoutNone<V>(m: map<Id, V>)
    ensures Without(m, []) == m
  {
  }

  lemma WithoutFirst<V>(m: map<Id, V>, order: seq<Id>)
    requires order != []
    ensures Without(m - {order[0]}, order[1..]) == Without(m, order)
  {
    assert forall x :: x in order <==> x == order[0] || x in order[1..];
  }

  lemma {:induction false} OutcomeRemoves(rows: Rows, edges: Edges, runs: Runs, order: seq<Id>)
    requires Outcome(rows, edges, runs, order).Success?
    ensures Outcome(rows, edges, runs, order).value == (Without(rows, order), Without(edges, order))
    decreases |order|
  {
    if order == [] {
      WithoutNone(rows);
      WithoutNone(edges);
    } else {
      var left := RemoveRow(rows, edges, runs, order[0]);
      OutcomeRemoves(left.value.0, left.value.1, runs, order[1..]);
      WithoutFirst(rows, order);
      WithoutFirst(edges, order);
    }
  }

  lemma {:induction false} OutcomeInParts(rows: Rows, edges: Edges, runs: Runs, a: seq<Id>, b: seq<Id>)
    ensures Outcome(rows, edges, runs, a + b) ==
            match Outcome(rows, edges, runs, a)
            case Success(left) => Outcome(left.0, left.1, runs, b)
            case Failure(e) => Failure(e)
    decreases |a|
  {
    if a == [] {
      assert a + b == b;
    } else {
      assert (a + b)[1..] == a[1..] + b;
      var left := RemoveRow(rows, edges, runs, a[0]);
      if left.Success? { OutcomeInParts(left.value.0, left.value.1, runs, a[1..], b); }
    }
  }

  /** One child's removal, between the rows `done` and the rows `later`. */
  lemma OneChild(rows: Rows, edges: Edges, runs: Runs, done: seq<Id>, next: seq<Id>, later: seq<Id>,
                 current: Rows, links: Edges)
    requires Outcome(rows, edges, runs, done) == Success((current, links))
    ensures match Outcome(current, links, runs, next)
            case Success(left) => Outcome(rows, edges, runs, done + next) == Success(left)
                                  && left.0 == Without(current, next)
            case Failure(e) => Outcome(rows, edges, runs, done + (next + later)) == Failure(e)
  {
    OutcomeInParts(rows, edges, runs, done, next);
    OutcomeInParts(rows, edges, runs, done, next + later);
    OutcomeInParts(current, links, runs, next, later);
    if Outcome(current, links, runs, next).Success? { OutcomeRemoves(current, links, runs, next); }
  }

  /** The first `k` children of `id` and their descendants are gone. */
  ghost predicate ChildrenGone(rows: Rows, edges: Edges, runs: Runs, rank: Id -> nat, id: Id, k: nat,
                               done: seq<Id>, current: Rows, links: Edges)
    requires Ranked(rows, rank)
  {
    var children := AscendingIds(Owned(rows, id));
    && k <= |children|
    && Ranked(current, rank) && Outcome(rows, edges, runs, done) == Success((current, links))
    && Order(rows, rank, id) == done + (Orders(current, rank, children[k..], rank(id)) + [id])
  }

  lemma NextChildGone(rows: Rows, edges: Edges, runs: Runs, rank: Id -> nat, id: Id, k: nat,
                      done: seq<Id>, current: Rows, links: Edges)
    requires Ranked(rows, rank) && k < |AscendingIds(Owned(rows, id))|
    requires ChildrenGone(rows, edges, runs, rank, id, k, done, current, links)
    ensures var next := Order(current, rank, AscendingIds(Owned(rows, id))[k]);
            match Outcome(current, links, runs, next)
            case Success(left) => ChildrenGone(rows, edges, runs, rank, id, k + 1, done + next, left.0, left.1)
            case Failure(e) => Outcome(rows, edges, runs, Order(rows, rank, id)) == Failure(e)
  {
    var children := AscendingIds(Owned(rows, id));
    var next := Order(current, rank, children[k]);
    assert children[k..][1..] == children[k + 1..];
    var after := Orders(Without(current, next), rank, children[k + 1..], rank(id));
    assert Orders(current, rank, children[k..], rank(id)) == next + after;
    assert next + after + [id] == next + (after + [id]);
    Associates(done, next, after + [id]);
    OneChild(rows, edges, runs, done, next, after + [id], current, links);
  }

  lemma NoChildGone(rows: Rows, edges: Edges, runs: Runs, rank: Id -> nat, id: Id)
    requires Ranked(rows, rank)
    ensures ChildrenGone(rows, edges, runs, rank, id, 0, [], rows, edges)
  {
    assert AscendingIds(Owned(rows, id))[0..] == AscendingIds(Owned(rows, id));
  }

  lemma AllChildrenGone(rows: Rows, edges: Edges, runs: Runs, rank: Id -> nat, id: Id,
                        done: seq<Id>, current: Rows, links: Edges)
    requires Ranked(rows, rank)
    requires ChildrenGone(rows, edges, runs, rank, id, |AscendingIds(Owned(rows, id))|, done, current, links)
    ensures Outcome(rows, edges, runs, Order(rows, rank, id)) == RemoveRow(current, links, runs, id)
  {
    assert Order(rows, rank, id) == done + [id];
    OutcomeInParts(rows, edges, runs, done, [id]);
  }

  method DeleteTaskTree(rows: Rows, edges: Edges, runs: Runs, id: Id, ghost rank: Id -> nat)
    returns (r: Result<(Rows, Edges), RemovalError>)
    requires Ranked(rows, rank)
    ensures r == Outcome(rows, edges, runs, Order(rows, rank, id))
    decreases rank(id)
  {
    var children := AscendingIds(Owned(rows, id));
    var current, links := rows, edges;
    ghost var done: seq<Id> := [];
    NoChildGone(rows, edges, runs, rank, id);
    for k := 0 to |children|
      invariant ChildrenGone(rows, edges, runs, rank, id, k, done, current, links)
    {
      NextChildGone(rows, edges, runs, rank, id, k, done, current, links);
      var step := DeleteTaskTree(current, links, runs, children[k], rank);
      if step.Failure? { return step; }
      done := done + Order(current, rank, children[k]);
      current, links := step.value.0, step.value.1;
    }
    AllChildrenGone(rows, edges, runs, rank, id, done, current, links);
    return RemoveRow(current, links, runs, id);
  }
}
