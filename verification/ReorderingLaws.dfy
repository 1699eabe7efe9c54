/** What a committed reorder means for the project order and its dependencies. */
module ReorderingLaws {
  import opened Wrappers
  import opened Sequences
  import opened Digraph
  import opened Tasks
  import opened ProjectOrder
  import opened DependencyGraph
  import opened Reordering

  ghost predicate Ascending(s: seq<nat>) {
    forall i, j :: 0 <= i < j < |s| ==> s[i] < s[j]
  }

  // ---- A request is a permutation of the queued tasks ----

  ghost function Elements(s: seq<Id>): set<Id> { set id | id in s }

  lemma {:induction false} DistinctCount(s: seq<Id>)
    requires Distinct(s)
    ensures |Elements(s)| == |s|
  {
    if s != [] {
      DistinctCount(s[1..]);
      assert s == [s[0]] + s[1..];
      assert Elements(s) == Elements(s[1..]) + {s[0]};
    }
  }

  lemma SubsetOfSameSize(a: set<Id>, b: set<Id>)
    requires a <= b && |a| == |b|
    ensures a == b
  {
    assert b == a + (b - a);
  }

  lemma {:induction false} QueuedStaysSorted(rows: Rows, order: seq<Id>)
    requires Sorted(rows, order)
    ensures Sorted(rows, QueuedIn(rows, order))
  {
    if order != [] {
      var front, last := order[..|order| - 1], order[|order| - 1];
      QueuedStaysSorted(rows, front);
      forall id | id in QueuedIn(rows, front) ensures Precedes(rows, id, last) {
        var i :| 0 <= i < |front| && front[i] == id;
        assert Precedes(rows, order[i], last);
      }
    }
  }

  lemma RequestListsQueued(rows: Rows, order: seq<Id>, request: seq<Id>)
    requires Sorted(rows, order) && IsRequest(rows, order, request)
    ensures forall id :: id in request <==> id in QueuedIn(rows, order)
    ensures forall id :: id in request ==> rows[id].status.Queued?
  {
    var q := QueuedIn(rows, order);
    QueuedStaysSorted(rows, order);
    SortedHasNoDuplicates(rows, q);
    DistinctCount(q);
    DistinctCount(request);
    SubsetOfSameSize(Elements(request), Elements(q));
    forall id ensures id in request <==> id in q {
      assert id in Elements(request) <==> id in Elements(q);
    }
  }

  /** A request names each waiting task of the project once, and nothing else. */
  ghost predicate NamesTheWaiting(rows: Rows, project: Id, request: seq<Id>) {
    && Distinct(request)
    && forall id :: id in request <==>
         && id in rows && rows[id].status.Queued?
         && rows[id].project == Some(project) && rows[id].mergeOf.None? && rows[id].cron == ""
  }

  lemma RequestNamesTheWaiting(rows: Rows, project: Id, request: seq<Id>)
    ensures IsRequest(rows, Ordered(rows, project), request) <==> NamesTheWaiting(rows, project, request)
  {
    var order := Ordered(rows, project);
    var q := QueuedIn(rows, order);
    if IsRequest(rows, order, request) {
      RequestListsQueued(rows, order, request);
    }
    if NamesTheWaiting(rows, project, request) {
      QueuedStaysSorted(rows, order);
      SortedHasNoDuplicates(rows, q);
      DistinctCount(q);
      DistinctCount(request);
      forall id ensures id in request <==> id in q {
      }
      assert Elements(request) == Elements(q);
    }
  }

  /** A reorder commits exactly when it names each waiting task of an existing project once and leaves no cycle there. */
  lemma ReorderCommitsExactly(rows: Rows, projects: set<Id>, project: Id, request: seq<Id>)
    ensures ReorderOutcome(rows, projects, project, request).Success? <==>
            && project != 0 && project in projects && NamesTheWaiting(rows, project, request)
            && (IsRequest(rows, Ordered(rows, project), request) ==>
                  Acyclic(ProjectDependencies(Reordered(rows, project, request), project)))
  {
    RequestNamesTheWaiting(rows, project, request);
  }

  // ---- The slots after the first pass ----

  lemma {:induction false} UnassignedTask(rows: Rows, request: seq<Id>, slots: seq<nat>, id: Id)
    requires |request| <= |slots| && forall x :: x in request ==> x in rows
    requires id in rows && id !in request
    ensures AssignSlots(rows, request, slots)[id] == rows[id]
  {
    if request != [] { UnassignedTask(rows, request[..|request| - 1], slots, id); }
  }

  lemma {:induction false} AssignedTask(rows: Rows, request: seq<Id>, slots: seq<nat>, i: nat)
    requires |request| <= |slots| && forall x :: x in request ==> x in rows
    requires i < |request| && Distinct(request)
    ensures AssignSlots(rows, request, slots)[request[i]] ==
            rows[request[i]].(sortOrder := slots[i], revision := rows[request[i]].revision + 1)
  {
    var n := |request| - 1;
    if i < n {
      AssignedTask(rows, request[..n], slots, i);
    } else {
      UnassignedTask(rows, request[..n], slots, request[n]);
    }
  }

  ghost predicate SameExceptSlot(a: Task, b: Task) {
    a == b.(sortOrder := a.sortOrder, revision := a.revision)
  }

  lemma SlottedRows(rows: Rows, project: Id, request: seq<Id>)
    requires IsRequest(rows, Ordered(rows, project), request)
    ensures var after, slots := Slotted(rows, project, request), QueuedSlots(rows, Ordered(rows, project));
            && (forall id :: id in rows ==> SameExceptSlot(after[id], rows[id]))
            && (forall id :: id in rows && id !in request ==> after[id] == rows[id])
            && (forall i :: 0 <= i < |request| ==> after[request[i]].sortOrder == slots[i])
            && OrderedTasks(after, project) == OrderedTasks(rows, project)
  {
    var after, slots := Slotted(rows, project, request), QueuedSlots(rows, Ordered(rows, project));
    forall i | 0 <= i < |request|
      ensures SameExceptSlot(after[request[i]], rows[request[i]]) && after[request[i]].sortOrder == slots[i]
    {
      AssignedTask(rows, request, slots, i);
    }
    forall id | id in rows ensures SameExceptSlot(after[id], rows[id]) && (id !in request ==> after[id] == rows[id]) {
      if id !in request { UnassignedTask(rows, request, slots, id); }
    }
    forall id ensures IsOrdered(after, project, id) <==> IsOrdered(rows, project, id) {
      if id in rows { assert SameExceptSlot(after[id], rows[id]); }
    }
  }

  // ---- The queued tasks end in the requested order ----

  lemma QueuedAfterSlotting(rows: Rows, project: Id, request: seq<Id>)
    requires IsRequest(rows, Ordered(rows, project), request)
    ensures var after := Slotted(rows, project, request);
            forall id :: id in QueuedIn(after, Ordered(after, project)) <==> id in request
  {
    var order, after := Ordered(rows, project), Slotted(rows, project, request);
    SlottedRows(rows, project, request);
    RequestListsQueued(rows, order, request);
    forall id ensures id in QueuedIn(after, Ordered(after, project)) <==> id in request {
      if id in rows { assert SameExceptSlot(after[id], rows[id]); }
    }
  }

  ghost predicate Honoured(rows: Rows, project: Id, request: seq<Id>)
    requires IsRequest(rows, Ordered(rows, project), request)
  {
    var after := Slotted(rows, project, request);
    QueuedIn(after, Ordered(after, project)) == request
  }

  lemma AscendingRequestIsSorted(rows: Rows, project: Id, request: seq<Id>)
    requires IsRequest(rows, Ordered(rows, project), request)
    requires Ascending(QueuedSlots(rows, Ordered(rows, project)))
    ensures Sorted(Slotted(rows, project, request), request)
  {
    var after, slots := Slotted(rows, project, request), QueuedSlots(rows, Ordered(rows, project));
    SlottedRows(rows, project, request);
    forall i, j | 0 <= i < j < |request| ensures Precedes(after, request[i], request[j]) {
      assert after[request[i]].sortOrder == slots[i] < slots[j] == after[request[j]].sortOrder;
    }
  }

  lemma AscendingSlotsHonour(rows: Rows, project: Id, request: seq<Id>)
    requires IsRequest(rows, Ordered(rows, project), request)
    requires Ascending(QueuedSlots(rows, Ordered(rows, project)))
    ensures Honoured(rows, project, request)
  {
    var after := Slotted(rows, project, request);
    AscendingRequestIsSorted(rows, project, request);
    QueuedStaysSorted(after, Ordered(after, project));
    QueuedAfterSlotting(rows, project, request);
    SortedListingIsUnique(after, QueuedIn(after, Ordered(after, project)), request);
  }

  /** A request that is honoured finds its slots in weakly ascending order. */
  lemma HonouredPair(rows: Rows, project: Id, request: seq<Id>, i: nat)
    requires IsRequest(rows, Ordered(rows, project), request) && Honoured(rows, project, request)
    requires i + 1 < |request|
    ensures var s := QueuedSlots(rows, Ordered(rows, project));
            var a, b := request[i], request[i + 1];
            s[i] < s[i + 1] ||
            (s[i] == s[i + 1] && (rows[a].createdAt < rows[b].createdAt
                                  || (rows[a].createdAt == rows[b].createdAt && a < b)))
  {
    var after := Slotted(rows, project, request);
    SlottedRows(rows, project, request);
    QueuedStaysSorted(after, Ordered(after, project));
    assert Precedes(after, request[i], request[i + 1]);
    assert SameExceptSlot(after[request[i]], rows[request[i]]);
    assert SameExceptSlot(after[request[i + 1]], rows[request[i + 1]]);
  }

  /** Two tasks that share a slot cannot be put against their age. */
  lemma TieDefiesRequest(rows: Rows, project: Id, request: seq<Id>, i: nat)
    requires IsRequest(rows, Ordered(rows, project), request) && i + 1 < |request|
    requires var s := QueuedSlots(rows, Ordered(rows, project)); s[i] == s[i + 1]
    requires var a, b := rows[request[i]], rows[request[i + 1]];
             b.createdAt < a.createdAt || (a.createdAt == b.createdAt && request[i + 1] < request[i])
    ensures !Honoured(rows, project, request)
  {
    if Honoured(rows, project, request) { HonouredPair(rows, project, request, i); }
  }

  function Swapped(q: seq<Id>, i: nat): (r: seq<Id>)
    requires i + 1 < |q|
    ensures |r| == |q| && r[i] == q[i + 1] && r[i + 1] == q[i]
  {
    q[i := q[i + 1]][i + 1 := q[i]]
  }

  lemma SwapIsRequest(rows: Rows, order: seq<Id>, q: seq<Id>, i: nat)
    requires Sorted(rows, order) && q == QueuedIn(rows, order) && i + 1 < |q|
    ensures IsRequest(rows, order, q)
    ensures IsRequest(rows, order, Swapped(q, i))
  {
    QueuedStaysSorted(rows, order);
    SortedHasNoDuplicates(rows, q);
  }

  lemma {:induction false} AdjacentAscending(s: seq<nat>)
    requires forall i :: 0 <= i < |s| - 1 ==> s[i] < s[i + 1]
    ensures Ascending(s)
  {
    if |s| > 1 {
      AdjacentAscending(s[..|s| - 1]);
      assert s[|s| - 2] < s[|s| - 2 + 1];
    }
  }

  /** If both orders of two neighbours are honoured, their slots differ. */
  lemma SwapNeedsAscending(rows: Rows, project: Id, q: seq<Id>, i: nat)
    requires i + 1 < |q|
    requires IsRequest(rows, Ordered(rows, project), q) && Honoured(rows, project, q)
    requires IsRequest(rows, Ordered(rows, project), Swapped(q, i)) && Honoured(rows, project, Swapped(q, i))
    ensures var s := QueuedSlots(rows, Ordered(rows, project)); s[i] < s[i + 1]
  {
    HonouredPair(rows, project, q, i);
    HonouredPair(rows, project, Swapped(q, i), i);
  }

  lemma HonouringNeedsAscending(rows: Rows, project: Id)
    requires forall request :: IsRequest(rows, Ordered(rows, project), request) ==> Honoured(rows, project, request)
    ensures Ascending(QueuedSlots(rows, Ordered(rows, project)))
  {
    var order := Ordered(rows, project);
    var q, s := QueuedIn(rows, order), QueuedSlots(rows, order);
    forall i | 0 <= i < |s| - 1 ensures s[i] < s[i + 1] {
      SwapIsRequest(rows, order, q, i);
      SwapNeedsAscending(rows, project, q, i);
    }
    AdjacentAscending(s);
  }

  /**
    Every request that lists the queued tasks is honoured exactly when their slots
    are strictly ascending.  Two tasks that share a slot can be ordered in one way only.
   */
  lemma RequestsHonouredExactly(rows: Rows, project: Id)
    ensures (forall request :: IsRequest(rows, Ordered(rows, project), request) ==> Honoured(rows, project, request))
            <==> Ascending(QueuedSlots(rows, Ordered(rows, project)))
  {
    var order := Ordered(rows, project);
    if Ascending(QueuedSlots(rows, order)) {
      forall request | IsRequest(rows, order, request) ensures Honoured(rows, project, request) {
        AscendingSlotsHonour(rows, project, request);
      }
    } else if forall request :: IsRequest(rows, order, request) ==> Honoured(rows, project, request) {
      HonouringNeedsAscending(rows, project);
    }
  }

  // ---- The committed table ----

  lemma KeysDecideOrder(before: Rows, after: Rows, project: Id)
    requires before.Keys == after.Keys
    requires forall id :: id in before ==>
                            && IsOrdered(before, project, id) == IsOrdered(after, project, id)
                            && before[id].sortOrder == after[id].sortOrder
                            && before[id].createdAt == after[id].createdAt
    ensures Ordered(after, project) == Ordered(before, project)
  {
    var s := Ordered(before, project);
    forall i, j | 0 <= i < j < |s| ensures Precedes(after, s[i], s[j]) {
      assert Precedes(before, s[i], s[j]);
    }
    SortedListingIsUnique(after, Ordered(after, project), s);
  }

  lemma ReorderedOrder(rows: Rows, project: Id, request: seq<Id>)
    requires IsRequest(rows, Ordered(rows, project), request)
    ensures Ordered(Reordered(rows, project, request), project) == Ordered(Slotted(rows, project, request), project)
  {
    KeysDecideOrder(Slotted(rows, project, request), Reordered(rows, project, request), project);
  }

  /**
    A committed reorder touches the queued tasks only, and of those only the slot
    and the automatic target.
   */
  lemma ReorderTouchesOnlyQueued(rows: Rows, project: Id, request: seq<Id>, id: Id)
    requires IsRequest(rows, Ordered(rows, project), request) && id in rows
    ensures var after := Reordered(rows, project, request);
            && (!(id in Ordered(rows, project) && rows[id].status.Queued?) ==> after[id] == rows[id])
            && after[id] == rows[id].(sortOrder := after[id].sortOrder, dependsOn := after[id].dependsOn,
                                      revision := after[id].revision)
            && after[id].sortOrder == Slotted(rows, project, request)[id].sortOrder
  {
    var slotted := Slotted(rows, project, request);
    SlottedRows(rows, project, request);
    assert SameExceptSlot(slotted[id], rows[id]);
    RequestListsQueued(rows, Ordered(rows, project), request);
  }

  /** The i-th task of the request takes over the i-th slot of the queued tasks. */
  lemma ReorderHandsOutSlots(rows: Rows, project: Id, request: seq<Id>, i: nat)
    requires IsRequest(rows, Ordered(rows, project), request) && i < |request|
    ensures Reordered(rows, project, request)[request[i]].sortOrder == QueuedSlots(rows, Ordered(rows, project))[i]
  {
    assert request[i] in request;
    ReorderTouchesOnlyQueued(rows, project, request, request[i]);
    SlottedRows(rows, project, request);
  }

  /** After a commit every queued automatic task waits for its neighbour in the project order. */
  lemma ReorderChainsNeighbours(rows: Rows, project: Id, request: seq<Id>, k: nat)
    requires IsRequest(rows, Ordered(rows, project), request)
    requires var after := Reordered(rows, project, request);
             k < |Ordered(after, project)| && FollowsOrder(after[Ordered(after, project)[k]])
    ensures var after := Reordered(rows, project, request);
            var order := Ordered(after, project);
            after[order[k]].dependsOn == if k == 0 then None else Some(order[k - 1])
  {
    ReorderedOrder(rows, project, request);
    var slotted := Slotted(rows, project, request);
    var order := Ordered(slotted, project);
    SortedHasNoDuplicates(slotted, order);
    PredecessorOfListed(order, k);
    assert order[k] in order[..|order|];
  }

  /** With strictly ascending slots, the queued tasks end in the order asked for. */
  lemma ReorderHonoursRequest(rows: Rows, project: Id, request: seq<Id>)
    requires IsRequest(rows, Ordered(rows, project), request)
    requires Ascending(QueuedSlots(rows, Ordered(rows, project)))
    ensures var after := Reordered(rows, project, request); QueuedIn(after, Ordered(after, project)) == request
  {
    ReorderedOrder(rows, project, request);
    AscendingSlotsHonour(rows, project, request);
    var slotted := Slotted(rows, project, request);
    SameStatusSameQueue(slotted, Reordered(rows, project, request), Ordered(slotted, project));
  }

  lemma {:induction false} SameStatusSameQueue(a: Rows, b: Rows, order: seq<Id>)
    requires forall id :: id in order ==> id in a && id in b && a[id].status == b[id].status
    ensures QueuedIn(a, order) == QueuedIn(b, order)
  {
    if order != [] { SameStatusSameQueue(a, b, order[..|order| - 1]); }
  }

  lemma ReorderedEdge(rows: Rows, project: Id, request: seq<Id>, id: Id)
    requires Sound(rows) && IsRequest(rows, Ordered(rows, project), request)
    requires id in rows && Reordered(rows, project, request)[id].dependsOn.Some?
    ensures var after := Reordered(rows, project, request);
            && EdgeStaysInProject(after, id, after[id].dependsOn.value)
            && (after[id].dependsOn != rows[id].dependsOn ==> InProject(after, project, id) && after[id].mode.Weak?)
  {
    var slotted, after := Slotted(rows, project, request), Reordered(rows, project, request);
    var order := Ordered(slotted, project);
    var target := after[id].dependsOn.value;
    ReorderTouchesOnlyQueued(rows, project, request, id);
    SlottedRows(rows, project, request);
    assert SameExceptSlot(slotted[id], rows[id]);
    if id in order && FollowsOrder(slotted[id]) {
      PredecessorIsListed(order, id);
      assert IsOrdered(slotted, project, target) && IsOrdered(slotted, project, id);
    } else {
      assert EdgeStaysInProject(rows, id, target);
    }
    assert SameExceptSlot(slotted[target], rows[target]);
    ReorderTouchesOnlyQueued(rows, project, request, target);
  }

  lemma ReorderKeepsSound(rows: Rows, projects: set<Id>, project: Id, request: seq<Id>, after: Rows)
    requires Sound(rows) && ReorderOutcome(rows, projects, project, request) == Success(after)
    ensures Sound(after)
  {
    forall id | id in rows
      ensures after[id].mode == rows[id].mode && after[id].project == rows[id].project
      ensures after[id].dependsOn.Some? ==>
                && EdgeStaysInProject(after, id, after[id].dependsOn.value)
                && (after[id].dependsOn != rows[id].dependsOn ==> InProject(after, project, id) && after[id].mode.Weak?)
    {
      ReorderTouchesOnlyQueued(rows, project, request, id);
      if after[id].dependsOn.Some? { ReorderedEdge(rows, project, request, id); }
    }
    ProjectCheckSuffices(rows, after, project);
  }

  // ---- Places in the whole order ----

  /** The order with its queued places filled from the request. */
  function Placed(rows: Rows, order: seq<Id>, request: seq<Id>): (s: seq<Id>)
    requires forall id :: id in order ==> id in rows
    requires |QueuedIn(rows, order)| <= |request|
    ensures |s| == |order|
  {
    if order == [] then []
    else
      var front, last := order[..|order| - 1], order[|order| - 1];
      Placed(rows, front, request) +
      [if rows[last].status.Queued? then request[|QueuedIn(rows, front)|] else last]
  }

  lemma {:induction false} PlacedTakesSlots(rows: Rows, after: Rows, order: seq<Id>, request: seq<Id>, slots: seq<nat>)
    requires forall id :: id in order ==> id in rows
    requires |QueuedIn(rows, order)| <= |request| == |slots|
    requires forall id :: id in order ==> rows[id].sortOrder > 0
    requires forall id :: id in order && !rows[id].status.Queued? ==> id in after && after[id] == rows[id]
    requires QueuedSlots(rows, order) <= slots
    requires forall i :: 0 <= i < |request| ==> request[i] in after && after[request[i]].sortOrder == slots[i]
    ensures var s := Placed(rows, order, request);
            forall k :: 0 <= k < |s| ==> s[k] in after && after[s[k]].sortOrder == rows[order[k]].sortOrder
  {
    if order != [] {
      var front, last := order[..|order| - 1], order[|order| - 1];
      PlacedTakesSlots(rows, after, front, request, slots);
      var n := |QueuedIn(rows, front)|;
      if rows[last].status.Queued? {
        assert QueuedSlots(rows, order)[n] == rows[last].sortOrder;
      }
    }
  }

  lemma {:induction false} PlacedLists(rows: Rows, order: seq<Id>, request: seq<Id>, id: Id)
    requires forall id :: id in order ==> id in rows
    requires |QueuedIn(rows, order)| <= |request|
    ensures id in Placed(rows, order, request) <==>
            (id in order && !rows[id].status.Queued?) || id in request[..|QueuedIn(rows, order)|]
  {
    if order != [] {
      var front, last := order[..|order| - 1], order[|order| - 1];
      PlacedLists(rows, front, request, id);
      assert order == front + [last];
      var n := |QueuedIn(rows, front)|;
      if rows[last].status.Queued? {
        assert request[..n + 1] == request[..n] + [request[n]];
      }
    }
  }

  /** Every task of the order holds a slot of its own. */
  ghost predicate OwnSlots(rows: Rows, order: seq<Id>)
    requires forall id :: id in order ==> id in rows
  {
    && (forall k :: 0 <= k < |order| ==> rows[order[k]].sortOrder > 0)
    && forall j, k :: 0 <= j < k < |order| ==> rows[order[j]].sortOrder != rows[order[k]].sortOrder
  }

  lemma OwnSlotsPositive(rows: Rows, order: seq<Id>)
    requires forall id :: id in order ==> id in rows
    requires OwnSlots(rows, order)
    ensures forall id :: id in order ==> rows[id].sortOrder > 0
  {
    forall id | id in order ensures rows[id].sortOrder > 0 {
      var k :| 0 <= k < |order| && order[k] == id;
    }
  }

  lemma PlacedIsSorted(rows: Rows, after: Rows, order: seq<Id>, s: seq<Id>)
    requires Sorted(rows, order) && OwnSlots(rows, order) && |s| == |order|
    requires forall k :: 0 <= k < |s| ==> s[k] in after && after[s[k]].sortOrder == rows[order[k]].sortOrder
    ensures Sorted(after, s)
  {
    forall i, j | 0 <= i < j < |s| ensures Precedes(after, s[i], s[j]) {
      assert Precedes(rows, order[i], order[j]);
      assert rows[order[i]].sortOrder != rows[order[j]].sortOrder;
    }
  }

  lemma {:induction false} OwnSlotsAscend(rows: Rows, order: seq<Id>)
    requires Sorted(rows, order) && OwnSlots(rows, order)
    ensures var s := QueuedSlots(rows, order);
            && Ascending(s)
            && forall i :: 0 <= i < |s| ==> s[i] <= rows[order[|order| - 1]].sortOrder
  {
    if |order| > 1 {
      var n := |order| - 1;
      OwnSlotsAscend(rows, order[..n]);
      assert Precedes(rows, order[n - 1], order[n]);
      assert rows[order[n - 1]].sortOrder != rows[order[n]].sortOrder;
    }
  }

  lemma PlacedListsTheProject(rows: Rows, project: Id, request: seq<Id>)
    requires IsRequest(rows, Ordered(rows, project), request)
    ensures forall id :: id in Placed(rows, Ordered(rows, project), request) <==> IsOrdered(rows, project, id)
  {
    var order := Ordered(rows, project);
    RequestListsQueued(rows, order, request);
    forall id ensures id in Placed(rows, order, request) <==> IsOrdered(rows, project, id) {
      PlacedLists(rows, order, request, id);
      assert request[..|request|] == request;
    }
  }

  lemma PlacedSlots(rows: Rows, project: Id, request: seq<Id>)
    requires IsRequest(rows, Ordered(rows, project), request)
    requires OwnSlots(rows, Ordered(rows, project))
    ensures Sorted(Slotted(rows, project, request), Placed(rows, Ordered(rows, project), request))
  {
    var order := Ordered(rows, project);
    var slotted := Slotted(rows, project, request);
    SlottedRows(rows, project, request);
    RequestListsQueued(rows, order, request);
    OwnSlotsPositive(rows, order);
    PlacedTakesSlots(rows, slotted, order, request, QueuedSlots(rows, order));
    PlacedIsSorted(rows, slotted, order, Placed(rows, order, request));
  }

  lemma PlacedIsTheNewOrder(rows: Rows, project: Id, request: seq<Id>)
    requires IsRequest(rows, Ordered(rows, project), request)
    requires OwnSlots(rows, Ordered(rows, project))
    ensures Ordered(Slotted(rows, project, request), project) == Placed(rows, Ordered(rows, project), request)
  {
    var slotted := Slotted(rows, project, request);
    PlacedSlots(rows, project, request);
    PlacedListsTheProject(rows, project, request);
    SlottedRows(rows, project, request);
    SortedListingIsUnique(slotted, Ordered(slotted, project), Placed(rows, Ordered(rows, project), request));
  }

  /**
    When all slots are assigned and distinct, the new project order is the old one
    with only the queued places exchanged: nobody else moves.
   */
  lemma ReorderKeepsOtherPlaces(rows: Rows, project: Id, request: seq<Id>)
    requires IsRequest(rows, Ordered(rows, project), request)
    requires OwnSlots(rows, Ordered(rows, project))
    ensures var after := Reordered(rows, project, request);
            && Ordered(after, project) == Placed(rows, Ordered(rows, project), request)
            && QueuedIn(after, Ordered(after, project)) == request
  {
    ReorderedOrder(rows, project, request);
    PlacedIsTheNewOrder(rows, project, request);
    OwnSlotsAscend(rows, Ordered(rows, project));
    ReorderHonoursRequest(rows, project, request);
  }

  lemma {:induction false} PlacedAt(rows: Rows, order: seq<Id>, request: seq<Id>, k: nat)
    requires (forall id :: id in order ==> id in rows) && |QueuedIn(rows, order)| <= |request| && k < |order|
    ensures !rows[order[k]].status.Queued? ==> Placed(rows, order, request)[k] == order[k]
    ensures rows[order[k]].status.Queued? ==>
              var i := |QueuedIn(rows, order[..k])|;
              i < |request| && Placed(rows, order, request)[k] == request[i]
    decreases |order|
  {
    var front := order[..|order| - 1];
    if k < |front| {
      PlacedAt(rows, front, request, k);
      assert front[..k] == order[..k];
    } else {
      assert order[..k] == front;
    }
  }

  /** Place by place: a task that is not queued stays where it was, and the i-th queued place takes the i-th of the request. */
  lemma OthersKeepTheirPlace(rows: Rows, project: Id, request: seq<Id>, k: nat)
    requires IsRequest(rows, Ordered(rows, project), request) && OwnSlots(rows, Ordered(rows, project))
    requires k < |Ordered(rows, project)|
    ensures var before, after := Ordered(rows, project), Ordered(Reordered(rows, project, request), project);
            && |after| == |before|
            && (!rows[before[k]].status.Queued? ==> after[k] == before[k])
            && (rows[before[k]].status.Queued? ==>
                  var i := |QueuedIn(rows, before[..k])|; i < |request| && after[k] == request[i])
  {
    ReorderKeepsOtherPlaces(rows, project, request);
    PlacedAt(rows, Ordered(rows, project), request, k);
  }

  /** A row that a reorder changed has a newer revision. */
  lemma ReorderAdvances(rows: Rows, project: Id, request: seq<Id>, id: Id)
    requires IsRequest(rows, Ordered(rows, project), request) && id in rows
    ensures var after := Reordered(rows, project, request)[id];
            && rows[id].revision <= after.revision && after.mode == rows[id].mode
            && (rows[id].revision == after.revision ==> after == rows[id])
  {
    SlottedAdvances(rows, project, request, id);
  }

  lemma SlottedAdvances(rows: Rows, project: Id, request: seq<Id>, id: Id)
    requires IsRequest(rows, Ordered(rows, project), request) && id in rows
    ensures SameExceptSlot(Slotted(rows, project, request)[id], rows[id])
    ensures rows[id].revision <= Slotted(rows, project, request)[id].revision
    ensures id !in request ==> Slotted(rows, project, request)[id] == rows[id]
    ensures id in request ==> rows[id].revision < Slotted(rows, project, request)[id].revision
  {
    var slots := QueuedSlots(rows, Ordered(rows, project));
    if id in request {
      var i :| 0 <= i < |request| && request[i] == id;
      AssignedTask(rows, request, slots, i);
    } else {
      UnassignedTask(rows, request, slots, id);
    }
  }
}
