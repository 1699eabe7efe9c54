/**
  The execution order of one project's implementation tasks: the ORDER BY that
  every dependency-editing transaction repeats.
 */
module ProjectOrder {
  import opened Wrappers
  import opened Digraph
  import opened Tasks

  const MAX_INT64 := 9223372036854775807

  function Slot(t: Task): int {
    if t.sortOrder > 0 then t.sortOrder else MAX_INT64
  }

  predicate Precedes(rows: Rows, a: Id, b: Id)
    requires a in rows && b in rows
  {
    var x, y := rows[a], rows[b];
    if Slot(x) != Slot(y) then Slot(x) < Slot(y)
    else if x.createdAt != y.createdAt then x.createdAt < y.createdAt
    else a < b
  }

  /** Implementation tasks of a project: neither merge tasks nor schedules. */
  predicate IsOrdered(rows: Rows, project: Id, id: Id) {
    && id in rows
    && rows[id].project == Some(project)
    && rows[id].mergeOf.None?
    && rows[id].cron == ""
  }

  function OrderedTasks(rows: Rows, project: Id): (s: set<Id>)
    ensures forall id :: id in s <==> IsOrdered(rows, project, id)
  {
    set id | id in rows && IsOrdered(rows, project, id)
  }

  ghost predicate Sorted(rows: Rows, s: seq<Id>) {
    && (forall i :: 0 <= i < |s| ==> s[i] in rows)
    && forall i, j :: 0 <= i < j < |s| ==> Precedes(rows, s[i], s[j])
  }

  ghost predicate Lists(s: seq<Id>, ids: set<Id>) {
    forall id :: id in s <==> id in ids
  }

  ghost predicate IsEarliest(rows: Rows, ids: set<Id>, first: Id)
    requires ids <= rows.Keys
  {
    first in ids && forall x :: x in ids && x != first ==> Precedes(rows, first, x)
  }

  lemma {:induction false} EarliestExists(rows: Rows, ids: set<Id>)
    requires ids != {} && ids <= rows.Keys
    ensures exists first :: IsEarliest(rows, ids, first)
    decreases ids
  {
    var a :| a in ids;
    if ids == {a} {
      assert IsEarliest(rows, ids, a);
    } else {
      EarliestExists(rows, ids - {a});
      var b :| IsEarliest(rows, ids - {a}, b);
      var first := if Precedes(rows, a, b) then a else b;
      forall x | x in ids && x != first ensures Precedes(rows, first, x) {
        if x != a && x != b { assert x in ids - {a}; }
      }
      assert IsEarliest(rows, ids, first);
    }
  }

  function Earliest(rows: Rows, ids: set<Id>): (first: Id)
    requires ids != {} && ids <= rows.Keys
    ensures IsEarliest(rows, ids, first)
  {
    EarliestExists(rows, ids);
    assert exists first :: first in ids && forall x :: x in ids && x != first ==> Precedes(rows, first, x) by {
      var b :| IsEarliest(rows, ids, b);
    }
    var first :| first in ids && forall x :: x in ids && x != first ==> Precedes(rows, first, x);
    first
  }

  function SortIds(rows: Rows, ids: set<Id>): (s: seq<Id>)
    requires ids <= rows.Keys
    ensures Lists(s, ids) && Sorted(rows, s)
    decreases ids
  {
    if ids == {} then []
    else
      var first := Earliest(rows, ids);
      [first] + SortIds(rows, ids - {first})
  }

  function Ordered(rows: Rows, project: Id): (s: seq<Id>)
    ensures Lists(s, OrderedTasks(rows, project)) && Sorted(rows, s)
  {
    SortIds(rows, OrderedTasks(rows, project))
  }

  lemma SortedHasNoDuplicates(rows: Rows, s: seq<Id>)
    requires Sorted(rows, s)
    ensures forall i, j :: 0 <= i < j < |s| ==> s[i] != s[j]
  {
    forall i, j | 0 <= i < j < |s| ensures s[i] != s[j] {
      assert Precedes(rows, s[i], s[j]);
    }
  }

  lemma FirstIsFirst(rows: Rows, s: seq<Id>, id: Id)
    requires Sorted(rows, s) && id in s
    ensures id == s[0] || Precedes(rows, s[0], id)
  {
    var i :| 0 <= i < |s| && s[i] == id;
  }

  /** The order is determined by the rows: any sorted listing is the listing. */
  lemma {:induction false} SortedListingIsUnique(rows: Rows, s: seq<Id>, t: seq<Id>)
    requires Sorted(rows, s) && Sorted(rows, t)
    requires forall id :: id in s <==> id in t
    ensures s == t
  {
    var head := if t == [] then 0 else t[0];
    assert t != [] ==> head in t;
    if s != [] {
      assert s[0] in t;
      FirstIsFirst(rows, s, t[0]);
      FirstIsFirst(rows, t, s[0]);
      SortedHasNoDuplicates(rows, s);
      SortedHasNoDuplicates(rows, t);
      forall id ensures id in s[1..] <==> id in t[1..] {
        if id in s[1..] { assert id in s && id != s[0]; assert id in t; }
        if id in t[1..] { assert id in t && id != t[0]; assert id in s; }
      }
      SortedListingIsUnique(rows, s[1..], t[1..]);
      assert s == [s[0]] + s[1..] && t == [t[0]] + t[1..];
    }
  }

  /** The task just before `id` in a listing, or its last task if `id` is absent. */
  function Predecessor(order: seq<Id>, id: Id): (p: Option<Id>) {
    if order == [] || order[0] == id then None
    else
      var rest := Predecessor(order[1..], id);
      if rest.None? then Some(order[0]) else rest
  }

  lemma {:induction false} PredecessorOfListed(order: seq<Id>, k: nat)
    requires k < |order|
    requires forall i :: 0 <= i < k ==> order[i] != order[k]
    ensures Predecessor(order, order[k]) == if k == 0 then None else Some(order[k - 1])
  {
    if k > 0 {
      PredecessorOfListed(order[1..], k - 1);
    }
  }

  lemma {:induction false} PredecessorIsListed(order: seq<Id>, id: Id)
    ensures Predecessor(order, id).Some? ==>
              Predecessor(order, id).value in order && Predecessor(order, id).value != id
  {
    if order != [] && order[0] != id { PredecessorIsListed(order[1..], id); }
  }

  lemma {:induction false} PredecessorOfUnlisted(order: seq<Id>, id: Id)
    requires id !in order
    ensures Predecessor(order, id) == if order == [] then None else Some(order[|order| - 1])
  {
    if order != [] { PredecessorOfUnlisted(order[1..], id); }
  }
}
