/**
  When the removal of a task tree goes through, which rows it takes and in which
  order, and two shapes of tree whose removal always fails.
 */
module TaskRemovalLaws {
  import opened Wrappers
  import opened Digraph
  import opened Sequences
  import opened Tasks
  import opened TaskRemoval

  // ---- When a removal goes through ----

  ghost predicate Before(order: seq<Id>, x: Id, y: Id) {
    exists i, j :: 0 <= i < j < |order| && order[i] == x && order[j] == y
  }

  /** No row is listed twice, and whatever names a row goes before it. */
  ghost predicate GoesThrough(rows: Rows, edges: Edges, runs: Runs, order: seq<Id>) {
    && Distinct(order)
    && forall x :: x in order ==>
         x in rows && (forall r :: r in runs ==> runs[r].workflow != x) && ReferrersGoFirst(rows, edges, order, x)
  }

  ghost predicate ReferrersGoFirst(rows: Rows, edges: Edges, order: seq<Id>, x: Id) {
    forall y :: y in Referrers(rows, edges, x) ==> Before(order, y, x)
  }

  lemma BeforeInTail(order: seq<Id>, x: Id, y: Id)
    requires order != []
    ensures Before(order, x, y) <==> (x == order[0] && y in order[1..]) || Before(order[1..], x, y)
  {
    var rest := order[1..];
    if i, j :| 0 <= i < j < |order| && order[i] == x && order[j] == y {
      assert order[j] == rest[j - 1];
      if i > 0 { assert rest[i - 1] == x && rest[j - 1] == y; }
    }
    if i, j :| 0 <= i < j < |rest| && rest[i] == x && rest[j] == y {
      assert order[i + 1] == x && order[j + 1] == y;
    }
    if x == order[0] && y in rest {
      var j :| 0 <= j < |rest| && rest[j] == y;
      assert order[0] == x && order[j + 1] == y;
    }
  }

  /** After one row is gone, the others have the same referrers but that one. */
  lemma OthersGoThrough(rows: Rows, edges: Edges, order: seq<Id>, x: Id)
    requires order != [] && x in order[1..] && x != order[0]
    ensures ReferrersGoFirst(rows, edges, order, x) <==>
            ReferrersGoFirst(rows - {order[0]}, edges - {order[0]}, order[1..], x)
  {
    var id := order[0];
    assert Referrers(rows - {id}, edges - {id}, x) == Referrers(rows, edges, x) - {id};
    forall y ensures Before(order, y, x) <==> y == id || Before(order[1..], y, x) { BeforeInTail(order, y, x); }
    forall y | Before(order[1..], y, x) && y == id ensures id in order[1..] {
      var i, j :| 0 <= i < j < |order[1..]| && order[1..][i] == y && order[1..][j] == x;
    }
  }

  lemma FirstGoesFirst(rows: Rows, edges: Edges, order: seq<Id>)
    requires Distinct(order) && order != []
    ensures ReferrersGoFirst(rows, edges, order, order[0]) <==> Referrers(rows, edges, order[0]) == {}
  {
    forall y ensures !Before(order, y, order[0]) {
    }
  }

  lemma DistinctTail(order: seq<Id>)
    requires order != []
    ensures Distinct(order) <==> order[0] !in order[1..] && Distinct(order[1..])
  {
    assert forall i :: 0 <= i < |order| - 1 ==> order[1..][i] == order[i + 1];
    if order[0] !in order[1..] && Distinct(order[1..]) {
      forall i, j | 0 <= i < j < |order| ensures order[i] != order[j] {
        assert order[j] == order[1..][j - 1];
        if i > 0 { assert order[i] == order[1..][i - 1]; }
      }
    }
  }

  lemma {:induction false} RemovalSucceedsExactly(rows: Rows, edges: Edges, runs: Runs, order: seq<Id>)
    ensures Outcome(rows, edges, runs, order).Success? <==> GoesThrough(rows, edges, runs, order)
    decreases |order|
  {
    if order != [] {
      var id, rest := order[0], order[1..];
      DistinctTail(order);
      RemovalSucceedsExactly(rows - {id}, edges - {id}, runs, rest);
      if Distinct(order) {
        FirstGoesFirst(rows, edges, order);
        forall x | x in rest
          ensures ReferrersGoFirst(rows, edges, order, x) <==> ReferrersGoFirst(rows - {id}, edges - {id}, rest, x)
        {
          OthersGoThrough(rows, edges, order, x);
        }
        assert forall x :: x in order <==> x == id || x in rest;
      }
    }
  }

  lemma SurvivorsNameNoneRemoved(rows: Rows, edges: Edges, runs: Runs, order: seq<Id>, x: Id, y: Id)
    requires GoesThrough(rows, edges, runs, order) && x in rows && x !in order && y in order
    ensures !RefersTo(rows[x], y)
  {
    assert ReferrersGoFirst(rows, edges, order, y);
    assert !Before(order, x, y);
    assert x !in Referrers(rows, edges, y);
  }

  // ---- What the order is like ----

  lemma BeforeInParts(a: seq<Id>, b: seq<Id>, x: Id, y: Id)
    requires Before(a, x, y) || Before(b, x, y) || (x in a && y in b)
    ensures Before(a + b, x, y)
  {
    var s := a + b;
    if i, j :| 0 <= i < j < |a| && a[i] == x && a[j] == y {
      assert s[i] == x && s[j] == y;
    } else if i, j :| 0 <= i < j < |b| && b[i] == x && b[j] == y {
      assert s[|a| + i] == x && s[|a| + j] == y;
    } else {
      var i :| 0 <= i < |a| && a[i] == x;
      var j :| 0 <= j < |b| && b[j] == y;
      assert s[i] == x && s[|a| + j] == y;
    }
  }

  /** Everything a row owns goes before it. */
  ghost predicate OwnedGoFirst(rows: Rows, order: seq<Id>) {
    forall x, c :: x in order && c in Owned(rows, x) ==> Before(order, c, x)
  }

  lemma {:induction false} OwnersGoLast(rows: Rows, rank: Id -> nat, id: Id)
    requires Ranked(rows, rank)
    ensures var order := Order(rows, rank, id);
            && id in order && OwnedGoFirst(rows, order) && forall x :: x in order ==> x == id || x in rows
    decreases rank(id), 1, 0
  {
    var children := AscendingIds(Owned(rows, id));
    var below := Orders(rows, rank, children, rank(id));
    OwnersOfListGoLast(rows, rank, children, rank(id));
    forall x, c | x in below + [id] && c in Owned(rows, x) ensures Before(below + [id], c, x) {
      BeforeInParts(below, [id], c, x);
    }
  }

  lemma {:induction false} OwnersOfListGoLast(rows: Rows, rank: Id -> nat, ids: seq<Id>, bound: nat)
    requires Ranked(rows, rank) && forall x :: x in ids ==> rank(x) < bound
    ensures var order := Orders(rows, rank, ids, bound);
            && (forall x :: x in ids ==> x in order) && OwnedGoFirst(rows, order)
            && forall x :: x in order ==> x in ids || x in rows
    decreases bound, 0, |ids|
  {
    if ids != [] {
      var first := Order(rows, rank, ids[0]);
      OwnersGoLast(rows, rank, ids[0]);
      SubsetIsRanked(rows, first, rank);
      var left := Without(rows, first);
      var rest := Orders(left, rank, ids[1..], bound);
      OwnersOfListGoLast(left, rank, ids[1..], bound);
      forall x, c | x in first + rest && c in Owned(rows, x) ensures Before(first + rest, c, x) {
        assert c in first || c in Owned(left, x);
        BeforeInParts(first, rest, c, x);
      }
    }
  }

  lemma {:induction false} OrderIsLeast(rows: Rows, rank: Id -> nat, id: Id, s: set<Id>)
    requires Ranked(rows, rank) && OwnedClosed(rows, s) && id in s
    ensures forall x :: x in Order(rows, rank, id) ==> x in s
    decreases rank(id), 1, 0
  {
    OrdersAreLeast(rows, rank, AscendingIds(Owned(rows, id)), rank(id), s);
  }

  lemma {:induction false} OrdersAreLeast(rows: Rows, rank: Id -> nat, ids: seq<Id>, bound: nat, s: set<Id>)
    requires Ranked(rows, rank) && forall x :: x in ids ==> rank(x) < bound
    requires OwnedClosed(rows, s) && forall x :: x in ids ==> x in s
    ensures forall x :: x in Orders(rows, rank, ids, bound) ==> x in s
    decreases bound, 0, |ids|
  {
    if ids != [] {
      var first := Order(rows, rank, ids[0]);
      OrderIsLeast(rows, rank, ids[0], s);
      SubsetIsRanked(rows, first, rank);
      forall x | x in s ensures Owned(Without(rows, first), x) <= s {
        assert Owned(Without(rows, first), x) <= Owned(rows, x);
      }
      OrdersAreLeast(Without(rows, first), rank, ids[1..], bound, s);
    }
  }

  /** The rows a removal takes are the row and everything below it along the four columns. */
  lemma OrderTakesOwnedTree(rows: Rows, rank: Id -> nat, id: Id)
    requires Ranked(rows, rank) && id in rows
    ensures var removed := set x | x in Order(rows, rank, id);
            && id in removed && removed <= rows.Keys && OwnedClosed(rows, removed)
            && forall s: set<Id> :: OwnedClosed(rows, s) && id in s ==> removed <= s
  {
    var order := Order(rows, rank, id);
    var removed := set x | x in order;
    OwnersGoLast(rows, rank, id);
    forall x, c | x in removed && c in Owned(rows, x) ensures c in removed {
      assert Before(order, c, x);
    }
    forall s: set<Id> | OwnedClosed(rows, s) && id in s ensures removed <= s {
      OrderIsLeast(rows, rank, id, s);
    }
  }

  lemma LowerSiblingGoesFirst(rows: Rows, rank: Id -> nat, id: Id, c: Id, d: Id)
    requires Ranked(rows, rank) && c in Owned(rows, id) && d in Owned(rows, id) && c < d
    ensures Before(Order(rows, rank, id), c, d)
  {
    var children := AscendingIds(Owned(rows, id));
    var i :| 0 <= i < |children| && children[i] == c;
    var j :| 0 <= j < |children| && children[j] == d;
    ListGoesInOrder(rows, rank, children, rank(id), i, j);
    BeforeInParts(Orders(rows, rank, children, rank(id)), [id], c, d);
  }

  lemma {:induction false} ListGoesInOrder(rows: Rows, rank: Id -> nat, ids: seq<Id>, bound: nat, i: nat, j: nat)
    requires Ranked(rows, rank) && i < j < |ids| && forall x :: x in ids ==> rank(x) < bound
    ensures Before(Orders(rows, rank, ids, bound), ids[i], ids[j])
    decreases |ids|
  {
    var first := Order(rows, rank, ids[0]);
    SubsetIsRanked(rows, first, rank);
    var left := Without(rows, first);
    OwnersGoLast(rows, rank, ids[0]);
    OwnersOfListGoLast(left, rank, ids[1..], bound);
    assert ids[j] == ids[1..][j - 1];
    if i > 0 { ListGoesInOrder(left, rank, ids[1..], bound, i - 1, j - 1); }
    BeforeInParts(first, Orders(left, rank, ids[1..], bound), ids[i], ids[j]);
  }

  // ---- One owner, one removal ----

  ghost predicate OwnedOnce(rows: Rows) {
    forall c, o, p :: c in Owned(rows, o) && c in Owned(rows, p) ==> o == p
  }

  /** Everything listed but `id` has its owner in the list. */
  ghost predicate BelowIn(rows: Rows, rank: Id -> nat, order: seq<Id>, id: Id) {
    forall x :: x in order && x != id ==> rank(x) < rank(id) && HasOwnerIn(rows, order, id, x)
  }

  ghost predicate HasOwnerIn(rows: Rows, order: seq<Id>, id: Id, x: Id) {
    exists o :: (o in order || o == id) && x in Owned(rows, o)
  }

  /** The siblings after the first are not below it. */
  lemma OtherSiblingsStay(rows: Rows, rank: Id -> nat, ids: seq<Id>, owner: Id, first: seq<Id>)
    requires Ranked(rows, rank) && OwnedOnce(rows) && ids != []
    requires Distinct(ids) && forall x :: x in ids ==> x in Owned(rows, owner)
    requires BelowIn(rows, rank, first, ids[0])
    ensures forall x :: x in ids[1..] ==> x in Owned(Without(rows, first), owner)
  {
    forall x | x in ids[1..] ensures x in Owned(Without(rows, first), owner) {
      assert x in ids && x != ids[0];
      if x in first { assert HasOwnerIn(rows, first, ids[0], x); }
    }
  }

  /** Neither list repeats a row, and the second names none of the first. */
  lemma JoinedListedOnce(rows: Rows, rank: Id -> nat, first: seq<Id>, rest: seq<Id>, ids: seq<Id>, owner: Id)
    requires Ranked(rows, rank) && ids != [] && ids[0] in Owned(rows, owner) && ids[0] in first
    requires Distinct(first) && BelowIn(rows, rank, first, ids[0])
    requires forall x :: x in ids[1..] ==> x in Owned(Without(rows, first), owner)
    requires forall x :: x in rest ==> x in ids[1..] || x in Without(rows, first)
    requires Distinct(rest) && BelowIn(Without(rows, first), rank, rest, owner) && owner !in rest
    ensures Distinct(first + rest) && BelowIn(rows, rank, first + rest, owner) && owner !in first + rest
  {
    var c := ids[0];
    forall x | x in rest ensures x !in first {
      assert x in ids[1..] ==> x in Without(rows, first);
    }
    JoinIsDistinct(first, rest);
    forall x | x in first + rest && x != owner
      ensures rank(x) < rank(owner) && HasOwnerIn(rows, first + rest, owner, x)
    {
      if x == c {
        assert x in Owned(rows, owner);
      } else if x in first {
        var o :| (o in first || o == c) && x in Owned(rows, o);
        assert o in first + rest;
      } else {
        var o :| (o in rest || o == owner) && x in Owned(Without(rows, first), o);
        assert x in Owned(rows, o) && (o in first + rest || o == owner);
      }
    }
  }

  lemma SubsetIsOwnedOnce(rows: Rows, ids: seq<Id>)
    requires OwnedOnce(rows)
    ensures OwnedOnce(Without(rows, ids))
  {
    forall c, o, p | c in Owned(Without(rows, ids), o) && c in Owned(Without(rows, ids), p) ensures o == p {
      assert c in Owned(rows, o) && c in Owned(rows, p);
    }
  }

  lemma {:induction false} OwnedOnceIsListedOnce(rows: Rows, rank: Id -> nat, id: Id)
    requires Ranked(rows, rank) && OwnedOnce(rows)
    ensures Distinct(Order(rows, rank, id)) && BelowIn(rows, rank, Order(rows, rank, id), id)
    decreases rank(id), 1, 0
  {
    SiblingsAreListedOnce(rows, rank, AscendingIds(Owned(rows, id)), id);
  }

  lemma {:induction false} SiblingsAreListedOnce(rows: Rows, rank: Id -> nat, ids: seq<Id>, owner: Id)
    requires Ranked(rows, rank) && OwnedOnce(rows)
    requires Distinct(ids) && forall x :: x in ids ==> x in Owned(rows, owner)
    ensures var order := Orders(rows, rank, ids, rank(owner));
            Distinct(order) && BelowIn(rows, rank, order, owner) && owner !in order
    decreases rank(owner), 0, |ids|
  {
    if ids != [] {
      var first := Order(rows, rank, ids[0]);
      OwnedOnceIsListedOnce(rows, rank, ids[0]);
      OwnersGoLast(rows, rank, ids[0]);
      SubsetIsRanked(rows, first, rank);
      SubsetIsOwnedOnce(rows, first);
      OtherSiblingsStay(rows, rank, ids, owner, first);
      SiblingsAreListedOnce(Without(rows, first), rank, ids[1..], owner);
      OwnersOfListGoLast(Without(rows, first), rank, ids[1..], rank(owner));
      JoinedListedOnce(rows, rank, first, Orders(Without(rows, first), rank, ids[1..], rank(owner)), ids, owner);
    }
  }

  // ---- Removals that fail ----

  lemma {:induction false} ListedAgain(rows: Rows, rank: Id -> nat, ids: seq<Id>, bound: nat, i: nat, j: nat)
    requires Ranked(rows, rank) && i < j < |ids| && forall x :: x in ids ==> rank(x) < bound
    requires ids[j] in Owned(rows, ids[i])
    ensures !Distinct(Orders(rows, rank, ids, bound))
    decreases |ids|
  {
    var first := Order(rows, rank, ids[0]);
    SubsetIsRanked(rows, first, rank);
    var left := Without(rows, first);
    var rest := Orders(left, rank, ids[1..], bound);
    assert ids[j] == ids[1..][j - 1];
    if i == 0 { FirstTakesItsOwn(rows, rank, ids[0], ids[j]); }
    if ids[j] in first {
      OwnersOfListGoLast(left, rank, ids[1..], bound);
      SharedIsNotDistinct(first, rest, ids[j]);
    } else {
      StillOwned(rows, first, ids[i], ids[j]);
      ListedAgain(left, rank, ids[1..], bound, i - 1, j - 1);
      PartsAreDistinct(first, rest);
    }
  }

  lemma FirstTakesItsOwn(rows: Rows, rank: Id -> nat, c: Id, d: Id)
    requires Ranked(rows, rank) && d in Owned(rows, c)
    ensures d in Order(rows, rank, c)
  {
    OwnersGoLast(rows, rank, c);
    assert Before(Order(rows, rank, c), d, c);
  }

  lemma StillOwned(rows: Rows, ids: seq<Id>, c: Id, d: Id)
    requires d in Owned(rows, c) && d !in ids
    ensures d in Owned(Without(rows, ids), c)
  {
  }

  lemma SharedIsNotDistinct(a: seq<Id>, b: seq<Id>, x: Id)
    requires x in a && x in b
    ensures !Distinct(a + b)
  {
    var i :| 0 <= i < |a| && a[i] == x;
    var j :| 0 <= j < |b| && b[j] == x;
    assert (a + b)[i] == (a + b)[|a| + j];
  }

  lemma PartsAreDistinct(a: seq<Id>, b: seq<Id>)
    ensures Distinct(a + b) ==> Distinct(a) && Distinct(b)
  {
    forall i, j | 0 <= i < j < |b| && Distinct(a + b) ensures b[i] != b[j] {
      assert (a + b)[|a| + i] == b[i] && (a + b)[|a| + j] == b[j];
    }
    forall i, j | 0 <= i < j < |a| && Distinct(a + b) ensures a[i] != a[j] {
      assert (a + b)[i] == a[i] && (a + b)[j] == a[j];
    }
  }

  /** A child that an earlier child owns as well is removed with that one, and missing at its own turn. */
  lemma ChildOwnedTwiceIsListedTwice(rows: Rows, rank: Id -> nat, id: Id, c: Id, d: Id)
    requires Ranked(rows, rank) && c in Owned(rows, id) && d in Owned(rows, id) && c < d && d in Owned(rows, c)
    ensures !Distinct(Order(rows, rank, id))
  {
    var children := AscendingIds(Owned(rows, id));
    var i :| 0 <= i < |children| && children[i] == c;
    var j :| 0 <= j < |children| && children[j] == d;
    ListedAgain(rows, rank, children, rank(id), i, j);
    PartsAreDistinct(Orders(rows, rank, children, rank(id)), [id]);
  }

  lemma NotBothWays(order: seq<Id>, x: Id, y: Id)
    requires Distinct(order) && Before(order, x, y)
    ensures !Before(order, y, x)
  {
    var i, j :| 0 <= i < j < |order| && order[i] == x && order[j] == y;
    forall k, n | 0 <= k < n < |order| && order[k] == y ensures order[n] != x {
      assert k == j;
    }
  }

  /** A child that waits for a lower one keeps that one from going first. */
  lemma SiblingInTheWay(rows: Rows, edges: Edges, runs: Runs, rank: Id -> nat, id: Id, c: Id, d: Id)
    requires Ranked(rows, rank) && c in Owned(rows, id) && d in Owned(rows, id) && c < d
    requires rows[d].dependsOn == Some(c)
    ensures !GoesThrough(rows, edges, runs, Order(rows, rank, id))
  {
    var order := Order(rows, rank, id);
    LowerSiblingGoesFirst(rows, rank, id, c, d);
    assert d in Referrers(rows, edges, c);
    if Distinct(order) { NotBothWays(order, c, d); }
    assert c in order;
  }
}
