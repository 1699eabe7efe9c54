/**
  The order in which queued tasks compete for dispatch: projects by the time their
  oldest queued task was created, merge tasks first within a project.
 */
module QueueOrder {
  import opened Wrappers
  import opened Sequences

  type ProjectId = nat

  datatype Queued = Queued(
    id: nat, created: int, project: Option<ProjectId>, sortOrder: int, mergeOf: Option<nat>)

  type Earliest = map<ProjectId, int>

  function QueueKey(t: Queued, earliest: Earliest): int {
    if t.project.Some? && t.project.value in earliest then earliest[t.project.value] else t.created
  }

  predicate SameProject(a: Queued, b: Queued) { a.project.Some? && a.project == b.project }

  /** Creation order, ties broken by id. */
  predicate Older(a: Queued, b: Queued) {
    if a.created != b.created then a.created < b.created else a.id < b.id
  }

  predicate Less(a: Queued, b: Queued, earliest: Earliest) {
    if QueueKey(a, earliest) != QueueKey(b, earliest) then QueueKey(a, earliest) < QueueKey(b, earliest)
    else if a.mergeOf.Some? != b.mergeOf.Some? then a.mergeOf.Some?
    else if SameProject(a, b) && a.sortOrder != b.sortOrder then a.sortOrder < b.sortOrder
    else Older(a, b)
  }

  ghost predicate DistinctIds(queue: seq<Queued>) {
    forall i, j :: 0 <= i < j < |queue| ==> queue[i].id != queue[j].id
  }

  lemma OneWayOnly(a: Queued, b: Queued, earliest: Earliest)
    requires a.id != b.id
    ensures Less(a, b, earliest) <==> !Less(b, a, earliest)
  {
  }

  ghost predicate Transitive(queue: seq<Queued>, earliest: Earliest) {
    forall a, b, c ::
      (a in queue && b in queue && c in queue && Less(a, b, earliest) && Less(b, c, earliest)) ==>
      Less(a, c, earliest)
  }

  /** The two compete as equals up to project order and age. */
  predicate Level(a: Queued, b: Queued, earliest: Earliest) {
    QueueKey(a, earliest) == QueueKey(b, earliest) && a.mergeOf.Some? == b.mergeOf.Some?
  }

  /**
    In one project `a` is placed before the older `b`, and a level task from
    outside that project lies between them in age.
   */
  predicate Straddles(a: Queued, b: Queued, c: Queued, earliest: Earliest) {
    && SameProject(a, b) && !SameProject(a, c)
    && Level(a, b, earliest) && Level(b, c, earliest)
    && a.sortOrder < b.sortOrder && Older(b, c) && Older(c, a)
  }

  ghost predicate NoStraddling(queue: seq<Queued>, earliest: Earliest) {
    forall a, b, c :: a in queue && b in queue && c in queue ==> !Straddles(a, b, c, earliest)
  }

  lemma StraddlingIsCycle(a: Queued, b: Queued, c: Queued, earliest: Earliest)
    requires Straddles(a, b, c, earliest)
    ensures Less(a, b, earliest) && Less(b, c, earliest) && Less(c, a, earliest) && !Less(a, c, earliest)
  {
  }

  lemma CycleIsStraddling(a: Queued, b: Queued, c: Queued, earliest: Earliest)
    requires Less(a, b, earliest) && Less(b, c, earliest) && Less(c, a, earliest)
    ensures Straddles(a, b, c, earliest) || Straddles(b, c, a, earliest) || Straddles(c, a, b, earliest)
  {
    assert Level(a, b, earliest) && Level(b, c, earliest);
  }

  lemma SameIdSameTask(queue: seq<Queued>, a: Queued, b: Queued)
    requires DistinctIds(queue) && a in queue && b in queue && a.id == b.id
    ensures a == b
  {
    var i :| 0 <= i < |queue| && queue[i] == a;
    var j :| 0 <= j < |queue| && queue[j] == b;
    assert i == j;
  }

  /** The comparison is transitive on a queue exactly when no level task straddles a reordered pair. */
  lemma TransitiveExactly(queue: seq<Queued>, earliest: Earliest)
    requires DistinctIds(queue)
    ensures Transitive(queue, earliest) <==> NoStraddling(queue, earliest)
  {
    if Transitive(queue, earliest) {
      forall a, b, c | a in queue && b in queue && c in queue ensures !Straddles(a, b, c, earliest) {
        if Straddles(a, b, c, earliest) {
          StraddlingIsCycle(a, b, c, earliest);
        }
      }
    }
    if NoStraddling(queue, earliest) {
      forall a, b, c | a in queue && b in queue && c in queue && Less(a, b, earliest) && Less(b, c, earliest)
        ensures Less(a, c, earliest)
      {
        if a.id == c.id {
          SameIdSameTask(queue, a, c);
          OneWayOnly(a, b, earliest);
        } else if !Less(a, c, earliest) {
          OneWayOnly(a, c, earliest);
          CycleIsStraddling(a, b, c, earliest);
        }
      }
    }
  }

  /** No project shares its key with another project or with the age of a task that has none. */
  ghost predicate KeysApart(queue: seq<Queued>, earliest: Earliest) {
    forall a, c :: a in queue && c in queue && a.project.Some? && !SameProject(a, c) ==>
      QueueKey(a, earliest) != QueueKey(c, earliest)
  }

  lemma KeysApartIsTransitive(queue: seq<Queued>, earliest: Earliest)
    requires DistinctIds(queue) && KeysApart(queue, earliest)
    ensures Transitive(queue, earliest)
  {
    TransitiveExactly(queue, earliest);
  }

  // ---- Sorting ----

  ghost predicate Sorted(queue: seq<Queued>, earliest: Earliest) {
    forall i, j :: 0 <= i < j < |queue| ==> Less(queue[i], queue[j], earliest)
  }

  /** No two neighbours are in the wrong order. */
  ghost predicate NeighboursInOrder(queue: seq<Queued>, earliest: Earliest) {
    forall i :: 0 < i < |queue| ==> Less(queue[i - 1], queue[i], earliest)
  }

  lemma {:induction false} ChainIsLess(queue: seq<Queued>, earliest: Earliest, i: nat, j: nat)
    requires Transitive(queue, earliest) && NeighboursInOrder(queue, earliest) && i < j < |queue|
    ensures Less(queue[i], queue[j], earliest)
    decreases j - i
  {
    if i + 1 < j {
      ChainIsLess(queue, earliest, i, j - 1);
      assert queue[i] in queue && queue[j - 1] in queue && queue[j] in queue;
      assert Less(queue[j - 1], queue[j], earliest);
    }
  }

  lemma NeighboursSuffice(queue: seq<Queued>, earliest: Earliest)
    requires Transitive(queue, earliest) && NeighboursInOrder(queue, earliest)
    ensures Sorted(queue, earliest)
  {
    forall i, j | 0 <= i < j < |queue| ensures Less(queue[i], queue[j], earliest) {
      ChainIsLess(queue, earliest, i, j);
    }
  }

  lemma HeadIsLeast(p: seq<Queued>, q: seq<Queued>, earliest: Earliest)
    requires Sorted(p, earliest) && Sorted(q, earliest) && p != [] && q != []
    requires DistinctIds(p) && (forall t :: t in p <==> t in q)
    ensures p[0] == q[0]
  {
    assert p[0] in q && q[0] in p;
    FirstIsLeast(p, earliest, q[0]);
    FirstIsLeast(q, earliest, p[0]);
    if p[0].id == q[0].id {
      SameIdSameTask(p, p[0], q[0]);
    } else {
      OneWayOnly(p[0], q[0], earliest);
    }
  }

  lemma FirstIsLeast(queue: seq<Queued>, earliest: Earliest, t: Queued)
    requires Sorted(queue, earliest) && t in queue
    ensures t == queue[0] || Less(queue[0], t, earliest)
  {
    var i :| 0 <= i < |queue| && queue[i] == t;
  }

  /** A sorted queue is determined by its tasks: how it was sorted does not matter. */
  lemma {:induction false} SortedQueueIsUnique(p: seq<Queued>, q: seq<Queued>, earliest: Earliest)
    requires Sorted(p, earliest) && Sorted(q, earliest) && DistinctIds(p) && DistinctIds(q)
    requires forall t :: t in p <==> t in q
    ensures p == q
    decreases |p|
  {
    if p == [] {
      if q != [] {
        HasFirst(q);
      }
    } else {
      assert p[0] in q;
      HeadIsLeast(p, q, earliest);
      var a, b := p[1..], q[1..];
      forall t ensures t in a <==> t in b {
        TailHolds(p, t);
        TailHolds(q, t);
      }
      SortedQueueIsUnique(a, b, earliest);
      assert p == [p[0]] + a && q == [q[0]] + b;
    }
  }

  lemma TailHolds(queue: seq<Queued>, t: Queued)
    requires queue != [] && DistinctIds(queue)
    ensures t in queue[1..] <==> t in queue && t != queue[0]
  {
    if t in queue && t != queue[0] {
      var k :| 0 <= k < |queue| && queue[k] == t;
      assert queue[1..][k - 1] == t;
    }
  }

  /** A sorted queue keeps each project together when keys are apart. */
  lemma ProjectsStayTogether(queue: seq<Queued>, earliest: Earliest, i: nat, j: nat, k: nat)
    requires Sorted(queue, earliest) && KeysApart(queue, earliest)
    requires IsEarliest(earliest, queue)
    requires i < j < k < |queue| && SameProject(queue[i], queue[k])
    ensures SameProject(queue[i], queue[j])
  {
    assert Less(queue[i], queue[j], earliest) && Less(queue[j], queue[k], earliest);
    assert QueueKey(queue[i], earliest) == QueueKey(queue[k], earliest);
    assert queue[i] in queue && queue[j] in queue;
  }

  /** Within a project merge tasks come first, and each kind follows the project order. */
  lemma MergesGoFirst(queue: seq<Queued>, earliest: Earliest, i: nat, j: nat)
    requires Sorted(queue, earliest) && IsEarliest(earliest, queue)
    requires i < j < |queue| && SameProject(queue[i], queue[j])
    ensures queue[j].mergeOf.Some? ==> queue[i].mergeOf.Some?
    ensures queue[i].mergeOf.Some? == queue[j].mergeOf.Some? ==>
      || queue[i].sortOrder < queue[j].sortOrder
      || (queue[i].sortOrder == queue[j].sortOrder
          && (queue[i].created < queue[j].created || (queue[i].created == queue[j].created && queue[i].id < queue[j].id)))
  {
    assert Less(queue[i], queue[j], earliest);
    assert queue[i] in queue;
  }

  // ---- Which project goes first ----

  /** `t` competes for the group that queued up at `time`: its project's queued tasks, or itself without one. */
  ghost predicate QueuesSince(queue: seq<Queued>, t: Queued, time: int) {
    && (exists u :: u in queue && (u == t || SameProject(t, u)) && u.created == time)
    && forall u :: u in queue && (u == t || SameProject(t, u)) ==> time <= u.created
  }

  lemma KeyIsWhenItQueued(queue: seq<Queued>, earliest: Earliest, t: Queued, time: int)
    requires IsEarliest(earliest, queue) && t in queue
    ensures QueuesSince(queue, t, time) <==> QueueKey(t, earliest) == time
  {
    var key := QueueKey(t, earliest);
    if t.project.Some? {
      var u :| u in queue && u.project == t.project && u.created == key;
      assert SameProject(t, u);
    }
    assert QueuesSince(queue, t, key);
    if QueuesSince(queue, t, time) {
      var u :| u in queue && (u == t || SameProject(t, u)) && u.created == time;
      var v :| v in queue && (v == t || SameProject(t, v)) && v.created == key;
    }
  }

  lemma {:induction false} KeysAscend(queue: seq<Queued>, earliest: Earliest, i: nat, j: nat)
    requires NeighboursInOrder(queue, earliest) && i <= j < |queue|
    ensures QueueKey(queue[i], earliest) <= QueueKey(queue[j], earliest)
    decreases j - i
  {
    if i < j { KeysAscend(queue, earliest, i, j - 1); }
  }

  /** Whoever stands in front began to queue no later: groups compete by their oldest queued task. */
  lemma OldestQueuedFirst(queue: seq<Queued>, earliest: Earliest, i: nat, j: nat, since: int, later: int)
    requires NeighboursInOrder(queue, earliest) && IsEarliest(earliest, queue) && i < j < |queue|
    requires QueuesSince(queue, queue[i], since) && QueuesSince(queue, queue[j], later)
    ensures since <= later
  {
    KeyIsWhenItQueued(queue, earliest, queue[i], since);
    KeyIsWhenItQueued(queue, earliest, queue[j], later);
    KeysAscend(queue, earliest, i, j);
  }

  /** Of two groups that began together, merge tasks go first and then age decides. */
  lemma LevelGroupsGoByAge(queue: seq<Queued>, earliest: Earliest, i: nat, j: nat, since: int)
    requires Sorted(queue, earliest) && IsEarliest(earliest, queue)
    requires i < j < |queue| && !SameProject(queue[i], queue[j])
    requires QueuesSince(queue, queue[i], since) && QueuesSince(queue, queue[j], since)
    ensures queue[j].mergeOf.Some? ==> queue[i].mergeOf.Some?
    ensures queue[i].mergeOf.Some? == queue[j].mergeOf.Some? ==>
      queue[i].created < queue[j].created || (queue[i].created == queue[j].created && queue[i].id < queue[j].id)
  {
    KeyIsWhenItQueued(queue, earliest, queue[i], since);
    KeyIsWhenItQueued(queue, earliest, queue[j], since);
    assert Less(queue[i], queue[j], earliest);
  }

  // ---- Listing the queue ----

  /** For each project in the queue, when its oldest queued task was created. */
  ghost predicate IsEarliest(earliest: Earliest, queue: seq<Queued>) {
    && (forall p :: p in earliest ==> exists t :: t in queue && t.project == Some(p) && t.created == earliest[p])
    && (forall t :: t in queue && t.project.Some? ==>
      t.project.value in earliest && earliest[t.project.value] <= t.created)
  }

  method CollectEarliest(queue: seq<Queued>) returns (earliest: Earliest)
    ensures IsEarliest(earliest, queue)
  {
    earliest := map[];
    for i := 0 to |queue|
      invariant IsEarliest(earliest, queue[..i])
    {
      var t := queue[i];
      ghost var before := earliest;
      if t.project.Some? {
        var p := t.project.value;
        if p !in earliest || t.created < earliest[p] {
          earliest := earliest[p := t.created];
        }
      }
      EarliestGrows(before, earliest, queue[..i], t);
      assert queue[..i] + [t] == queue[..i + 1];
    }
    assert queue[..|queue|] == queue;
  }

  lemma EarliestGrows(before: Earliest, after: Earliest, queue: seq<Queued>, t: Queued)
    requires IsEarliest(before, queue)
    requires after ==
      if t.project.Some? && (t.project.value !in before || t.created < before[t.project.value])
      then before[t.project.value := t.created] else before
    ensures IsEarliest(after, queue + [t])
  {
    forall p | p in after
      ensures exists u :: u in queue + [t] && u.project == Some(p) && u.created == after[p]
    {
      if p in before && after[p] == before[p] {
        var u :| u in queue && u.project == Some(p) && u.created == before[p];
        assert u in queue + [t];
      } else {
        assert t in queue + [t];
      }
    }
  }

  /** Go's stable sort insertion-sorts blocks of this many before it merges them. */
  const INSERTION_BLOCK := 20

  /**
    The queue is sorted whenever the comparison is transitive on it. Otherwise a queue
    of at most one insertion block still ends with every two neighbours in order.
   */
  method ListQueued(tasks: seq<Queued>) returns (queue: seq<Queued>, earliest: Earliest)
    requires DistinctIds(tasks)
    ensures IsEarliest(earliest, tasks) && IsEarliest(earliest, queue)
    ensures |queue| == |tasks| && DistinctIds(queue) && forall t :: t in queue <==> t in tasks
    ensures |tasks| <= INSERTION_BLOCK ==> NeighboursInOrder(queue, earliest)
    ensures NoStraddling(tasks, earliest) ==> Sorted(queue, earliest)
  {
    earliest := CollectEarliest(tasks);
    queue := [];
    for i := 0 to |tasks|
      invariant |queue| == i && DistinctIds(queue)
      invariant forall t :: t in queue <==> t in tasks[..i]
      invariant NeighboursInOrder(queue, earliest)
    {
      assert tasks[..i + 1] == tasks[..i] + [tasks[i]];
      forall t | t in queue ensures t.id != tasks[i].id {
        assert t in tasks[..i];
      }
      queue := Insert(queue, tasks[i], earliest);
    }
    assert tasks[..|tasks|] == tasks;
    if NoStraddling(tasks, earliest) {
      TransitiveExactly(queue, earliest);
      NeighboursSuffice(queue, earliest);
    }
  }

  method Insert(queue: seq<Queued>, t: Queued, earliest: Earliest) returns (longer: seq<Queued>)
    requires DistinctIds(queue) && NeighboursInOrder(queue, earliest)
    requires forall u :: u in queue ==> u.id != t.id
    ensures |longer| == |queue| + 1 && DistinctIds(longer) && NeighboursInOrder(longer, earliest)
    ensures forall u :: u in longer <==> u in queue || u == t
  {
    var k := |queue|;
    while k > 0 && Less(t, queue[k - 1], earliest)
      invariant 0 <= k <= |queue| && (k < |queue| ==> Less(t, queue[k], earliest))
    {
      k := k - 1;
    }
    if k > 0 {
      assert queue[k - 1] in queue;
      OneWayOnly(t, queue[k - 1], earliest);
    }
    Inserted(queue, t, k);
    longer := queue[..k] + [t] + queue[k..];
  }

  lemma Inserted(queue: seq<Queued>, t: Queued, k: nat)
    requires k <= |queue| && DistinctIds(queue) && forall u :: u in queue ==> u.id != t.id
    ensures
      var longer := queue[..k] + [t] + queue[k..];
      DistinctIds(longer) && forall u :: u in longer <==> u in queue || u == t
  {
    assert queue == queue[..k] + queue[k..];
  }

  /** With tied keys three tasks can each go before the next, so that every rotation looks sorted. */
  lemma TiedKeysCanCycle()
    ensures
      var a := Queued(3, 6, Some(1), 1, None);
      var b := Queued(1, 5, Some(1), 2, None);
      var c := Queued(2, 5, None, 0, None);
      var earliest: Earliest := map[1 := 5];
      && IsEarliest(earliest, [a, b, c]) && !Transitive([a, b, c], earliest)
      && NeighboursInOrder([a, b, c], earliest) && NeighboursInOrder([b, c, a], earliest)
      && NeighboursInOrder([c, a, b], earliest)
  {
    var a := Queued(3, 6, Some(1), 1, None);
    var b := Queued(1, 5, Some(1), 2, None);
    var c := Queued(2, 5, None, 0, None);
    var earliest: Earliest := map[1 := 5];
    var queue := [a, b, c];
    assert queue[0] in queue && queue[1] in queue && queue[2] in queue;
    assert Straddles(a, b, c, earliest);
    StraddlingIsCycle(a, b, c, earliest);
  }
}
