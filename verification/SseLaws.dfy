/** What a client of the live event stream sees, whatever publishers do meanwhile. */
module SseLaws {
  import opened EventLog
  import opened Sequences
  import opened SseDelivery

  // ---- What the client sees ----

  /** Under any interleaving a client sees strictly increasing numbers beyond its cursor, all of them logged. */
  lemma ClientSeesIncreasingNumbers(s: Stream, steps: seq<Step>)
    requires Initial(s) && Legal(s, steps)
    ensures
      var t := Run(s, steps);
      Ascending(t.sent) && forall e :: e in t.sent ==> e in t.log && e.number > t.after
  {
    RunKeepsInv(s, steps);
    SentAscends(Run(s, steps));
  }

  lemma SentAscends(t: Stream)
    requires Inv(t)
    ensures Ascending(t.sent)
    ensures forall e :: e in t.sent ==> e in t.log && e.number > t.after
  {
    var records := Records(t.delivered[..t.taken], Mark(t));
    RecordsAscend(t.delivered[..t.taken], Mark(t));
    TopBounds(t.page, t.after);
    forall i, j | 0 <= i < j < |t.sent| ensures t.sent[i].number < t.sent[j].number {
      if i < |t.page| <= j {
        assert t.page[i] in t.page && records[j - |t.page|] in records;
      }
    }
    forall e | e in records ensures e in t.log && e.number > t.after {
      assert e in t.delivered[..t.taken];
    }
  }

  lemma LastOfAscending(a: seq<Event>, x: Event)
    requires Ascending(a) && x in a
    ensures x.number <= a[|a| - 1].number
  {
  }

  lemma FrontOfAscending(a: seq<Event>, e: Event)
    requires Ascending(a) && a != []
    ensures e in a[..|a| - 1] <==> e in a && e != a[|a| - 1]
  {
    if e in a && e != a[|a| - 1] {
      var k :| 0 <= k < |a| && a[k] == e;
      assert a[..|a| - 1][k] == e;
    }
  }

  lemma AscendingIsDetermined(a: seq<Event>, b: seq<Event>)
    requires Ascending(a) && Ascending(b) && forall e :: e in a <==> e in b
    ensures a == b
    decreases |a|
  {
    if a == [] {
      if b != [] {
        HasFirst(b);
      }
    } else {
      assert a[|a| - 1] in b;
      var x, y := a[|a| - 1], b[|b| - 1];
      var p, q := a[..|a| - 1], b[..|b| - 1];
      LastOfAscending(a, y);
      LastOfAscending(b, x);
      SameNumberSameEvent(a, x, y);
      forall e ensures e in p <==> e in q {
        FrontOfAscending(a, e);
        FrontOfAscending(b, e);
      }
      AscendingIsDetermined(p, q);
      assert a == p + [x] && b == q + [y];
    }
  }

  /** Every event beyond the page has reached the client's channel. */
  ghost predicate Covered(s: Stream) {
    forall e :: e in s.log && e.number > Mark(s) ==> e in s.delivered
  }

  ghost predicate Drained(s: Stream) {
    s.phase == Streaming && s.taken == |s.delivered| && s.inFlight == {}
  }

  /**
    Once its channel is empty, a client has seen every event after its cursor exactly
    once precisely when all later ones reached its channel and none was overtaken there.
   */
  lemma ClientMissesNothingExactly(s: Stream)
    requires Inv(s) && s.phase == Streaming && s.taken == |s.delivered|
    ensures s.sent == After(s.log, s.after) <==> Covered(s) && InOrder(s.delivered, Mark(s))
  {
    assert s.delivered[..s.taken] == s.delivered;
    if s.sent == After(s.log, s.after) {
      CompleteMeansCovered(s);
      CompleteMeansInOrder(s);
    }
    if Covered(s) && InOrder(s.delivered, Mark(s)) {
      InOrderMeansComplete(s);
    }
  }

  lemma LaterEventIsRecord(s: Stream, e: Event)
    requires Inv(s) && s.phase == Streaming && s.sent == After(s.log, s.after)
    requires s.delivered[..s.taken] == s.delivered
    requires e in s.log && e.number > Mark(s)
    ensures e in Records(s.delivered, Mark(s))
  {
    AfterSelects(s.log, s.after);
    TopBounds(s.page, s.after);
    assert e in s.sent;
  }

  lemma CompleteMeansCovered(s: Stream)
    requires Inv(s) && s.phase == Streaming && s.sent == After(s.log, s.after)
    requires s.delivered[..s.taken] == s.delivered
    ensures Covered(s)
  {
    RecordsAscend(s.delivered, Mark(s));
    forall e | e in s.log && e.number > Mark(s) ensures e in s.delivered {
      LaterEventIsRecord(s, e);
    }
  }

  lemma CompleteMeansInOrder(s: Stream)
    requires Inv(s) && s.phase == Streaming && s.sent == After(s.log, s.after)
    requires s.delivered[..s.taken] == s.delivered
    ensures InOrder(s.delivered, Mark(s))
  {
    forall i, j | 0 <= i < j < |s.delivered| && s.delivered[j].number > Mark(s)
      ensures s.delivered[i].number <= s.delivered[j].number
    {
      LaterEventIsRecord(s, s.delivered[j]);
      var k := RecordBeatsEarlier(s.delivered, Mark(s), s.delivered[j]);
      assert k == j;
    }
  }

  lemma InOrderMeansComplete(s: Stream)
    requires Inv(s) && s.phase == Streaming && Covered(s) && InOrder(s.delivered, Mark(s))
    requires s.delivered[..s.taken] == s.delivered
    ensures s.sent == After(s.log, s.after)
  {
    AfterSelects(s.log, s.after);
    SentAscends(s);
    forall e | e in s.log && e.number > s.after ensures e in s.sent {
      if e.number > Mark(s) {
        var k :| 0 <= k < |s.delivered| && s.delivered[k] == e;
        InOrderMeansAllRecords(s.delivered, Mark(s), k);
        var r :| r in Records(s.delivered, Mark(s)) && r.number == e.number;
        RecordsAscend(s.delivered, Mark(s));
        SameNumberSameEvent(s.log, r, e);
      }
    }
    AscendingIsDetermined(s.sent, After(s.log, s.after));
  }

  lemma SameNumberSameEvent(log: seq<Event>, x: Event, y: Event)
    requires Ascending(log) && x in log && y in log && x.number == y.number
    ensures x == y
  {
    var i :| 0 <= i < |log| && log[i] == x;
    var j :| 0 <= j < |log| && log[j] == y;
    assert i == j;
  }

  // ---- Serial publishers ----

  /** No event is persisted while another is still to be broadcast. */
  ghost predicate Serial(s: Stream, steps: seq<Step>)
    requires Legal(s, steps)
    decreases |steps|
  {
    steps == [] ||
    ((steps[0].Persist? ==> s.inFlight == {}) && Serial(Apply(s, steps[0]), steps[1..]))
  }

  /** The channel took events in log order, and what is in flight is newer than all of them. */
  ghost predicate InSequence(s: Stream) {
    && Ascending(s.delivered)
    && (forall e, i :: e in s.inFlight && 0 <= i < |s.delivered| ==> s.delivered[i].number < e.number)
    && (forall e, f :: e in s.inFlight && f in s.inFlight ==> e == f)
  }

  lemma SerialPersistKeepsSequence(s: Stream, e: Event)
    requires Logged(s) && InSequence(s) && s.inFlight == {} && Enabled(s, Persist(e))
    ensures InSequence(Apply(s, Persist(e)))
  {
    forall i | 0 <= i < |s.delivered| ensures s.delivered[i].number < e.number {
      assert s.delivered[i] in s.log;
    }
  }

  lemma BroadcastKeepsSequence(s: Stream, e: Event)
    requires InSequence(s) && Enabled(s, Broadcast(e))
    ensures InSequence(Apply(s, Broadcast(e)))
  {
    assert forall f :: f in s.inFlight ==> f == e;
    assert s.inFlight - {e} == {};
  }

  lemma SerialStepKeepsSequence(s: Stream, step: Step)
    requires Inv(s) && InSequence(s) && Enabled(s, step) && (step.Persist? ==> s.inFlight == {})
    ensures InSequence(Apply(s, step))
  {
    match step
    case Persist(e) => SerialPersistKeepsSequence(s, e);
    case Broadcast(e) => BroadcastKeepsSequence(s, e);
    case Subscribe =>
    case ReadHistory =>
    case Receive =>
  }

  lemma {:induction false} SerialRunKeepsSequence(s: Stream, steps: seq<Step>)
    requires Inv(s) && InSequence(s) && Legal(s, steps) && Serial(s, steps)
    ensures InSequence(Run(s, steps))
    decreases |steps|
  {
    if steps != [] {
      StepKeepsInv(s, steps[0]);
      SerialStepKeepsSequence(s, steps[0]);
      SerialRunKeepsSequence(Apply(s, steps[0]), steps[1..]);
    }
  }

  /**
    With serial publishers, a backlog that fits one page and a channel that never
    overflowed, a drained client has seen exactly the events after its cursor.
   */
  lemma SerialRunsMissNothing(s: Stream, steps: seq<Step>)
    requires Initial(s) && InSequence(s) && Legal(s, steps) && Serial(s, steps)
    requires
      var t := Run(s, steps);
      Drained(t) && !t.overflowed && !t.truncated
    ensures Run(s, steps).sent == After(Run(s, steps).log, s.after)
  {
    RunKeepsInv(s, steps);
    SerialRunKeepsSequence(s, steps);
    RunKeepsCursor(s, steps);
    ClientMissesNothingExactly(Run(s, steps));
  }

  // ---- What can keep a client from its events ----

  /** Some event is broadcast while 256 others wait in the client's channel. */
  ghost predicate MeetsFullChannel(s: Stream, steps: seq<Step>)
    requires Legal(s, steps)
    decreases |steps|
  {
    steps != [] &&
      ((steps[0].Broadcast? && s.phase != Connecting && |s.delivered| == s.taken + 256)
       || MeetsFullChannel(Apply(s, steps[0]), steps[1..]))
  }

  /** The history is read while more than 1000 events come after the cursor. */
  ghost predicate ReadsLongHistory(s: Stream, steps: seq<Step>)
    requires Legal(s, steps)
    decreases |steps|
  {
    steps != [] &&
      ((steps[0].ReadHistory? && |After(s.log, s.after)| > 1000)
       || ReadsLongHistory(Apply(s, steps[0]), steps[1..]))
  }

  /** The channel never holds more than 256 events, and an event is dropped exactly when it meets a full one. */
  lemma {:induction false} OverflowsExactly(s: Stream, steps: seq<Step>)
    requires s.taken <= |s.delivered| <= s.taken + 256 && Legal(s, steps)
    ensures |Run(s, steps).delivered| <= Run(s, steps).taken + 256
    ensures Run(s, steps).overflowed <==> s.overflowed || MeetsFullChannel(s, steps)
    decreases |steps|
  {
    if steps != [] { OverflowsExactly(Apply(s, steps[0]), steps[1..]); }
  }

  /** The backlog is cut off exactly when it does not fit the largest page. */
  lemma {:induction false} TruncatedExactly(s: Stream, steps: seq<Step>)
    requires (s.phase != Streaming ==> !s.truncated) && Legal(s, steps)
    ensures Run(s, steps).truncated <==> s.truncated || ReadsLongHistory(s, steps)
    decreases |steps|
  {
    if steps != [] { TruncatedExactly(Apply(s, steps[0]), steps[1..]); }
  }

  lemma {:induction false} RunKeepsCursor(s: Stream, steps: seq<Step>)
    requires Legal(s, steps)
    ensures Run(s, steps).after == s.after
    decreases |steps|
  {
    if steps != [] {
      RunKeepsCursor(Apply(s, steps[0]), steps[1..]);
    }
  }

  // ---- An event that is overtaken ----

  lemma TwoSteps(s: Stream, a: Step, b: Step, rest: seq<Step>)
    requires Enabled(s, a) && Enabled(Apply(s, a), b) && Legal(Apply(Apply(s, a), b), rest)
    ensures Legal(s, [a, b] + rest) && Run(s, [a, b] + rest) == Run(Apply(Apply(s, a), b), rest)
  {
    var steps := [a, b] + rest;
    assert steps[1..] == [b] + rest && steps[1..][1..] == rest;
  }

  lemma ConnectOnEmptyLog(rest: seq<Step>)
    requires Legal(Stream([], {}, Streaming, 0, [], 0, [], [], 0, false, false), rest)
    ensures var s, steps := Stream([], {}, Connecting, 0, [], 0, [], [], 0, false, false), [Subscribe, ReadHistory] + rest;
            Legal(s, steps) && Run(s, steps) == Run(Stream([], {}, Streaming, 0, [], 0, [], [], 0, false, false), rest)
  {
    TwoSteps(Stream([], {}, Connecting, 0, [], 0, [], [], 0, false, false), Subscribe, ReadHistory, rest);
  }

  lemma PersistBoth(e: Event, f: Event, rest: seq<Step>)
    requires e.number < f.number
    requires Legal(Stream([e, f], {e, f}, Streaming, 0, [], 0, [], [], 0, false, false), rest)
    ensures var s, steps := Stream([], {}, Streaming, 0, [], 0, [], [], 0, false, false), [Persist(e), Persist(f)] + rest;
            && Legal(s, steps)
            && Run(s, steps) == Run(Stream([e, f], {e, f}, Streaming, 0, [], 0, [], [], 0, false, false), rest)
  {
    var s := Stream([], {}, Streaming, 0, [], 0, [], [], 0, false, false);
    assert Apply(Apply(s, Persist(e)), Persist(f)) == s.(log := [e, f], inFlight := {e, f});
    TwoSteps(s, Persist(e), Persist(f), rest);
  }

  lemma BroadcastLaterFirst(e: Event, f: Event, rest: seq<Step>)
    requires e != f && Legal(Stream([e, f], {}, Streaming, 0, [f, e], 0, [], [], 0, false, false), rest)
    ensures var s, steps := Stream([e, f], {e, f}, Streaming, 0, [], 0, [], [], 0, false, false),
                            [Broadcast(f), Broadcast(e)] + rest;
            && Legal(s, steps)
            && Run(s, steps) == Run(Stream([e, f], {}, Streaming, 0, [f, e], 0, [], [], 0, false, false), rest)
  {
    var s := Stream([e, f], {e, f}, Streaming, 0, [], 0, [], [], 0, false, false);
    assert {e, f} - {f} == {e} && {e} - {e} == {};
    assert Apply(Apply(s, Broadcast(f)), Broadcast(e)) == s.(inFlight := {}, delivered := [f, e]);
    TwoSteps(s, Broadcast(f), Broadcast(e), rest);
  }

  lemma ReceiveBoth(e: Event, f: Event)
    requires 0 < e.number < f.number
    ensures var s := Stream([e, f], {}, Streaming, 0, [f, e], 0, [], [], 0, false, false);
            && Legal(s, [Receive, Receive])
            && Run(s, [Receive, Receive]) ==
               Stream([e, f], {}, Streaming, 0, [f, e], 2, [], [f], f.number, false, false)
  {
    TwoSteps(Stream([e, f], {}, Streaming, 0, [f, e], 0, [], [], 0, false, false), Receive, Receive, []);
    assert [Receive, Receive] + [] == [Receive, Receive];
  }

  /** Two publishers can overtake each other between persisting and broadcasting: the client then misses one. */
  lemma OvertakenEventIsLost(e: Event, f: Event)
    requires 0 < e.number < f.number
    ensures
      var s := Stream([], {}, Connecting, 0, [], 0, [], [], 0, false, false);
      var steps := [Subscribe, ReadHistory] +
                   ([Persist(e), Persist(f)] + ([Broadcast(f), Broadcast(e)] + [Receive, Receive]));
      && Initial(s) && Legal(s, steps)
      && var t := Run(s, steps); Drained(t) && !t.overflowed && !t.truncated && t.log == [e, f] && t.sent == [f]
  {
    ReceiveBoth(e, f);
    BroadcastLaterFirst(e, f, [Receive, Receive]);
    PersistBoth(e, f, [Broadcast(f), Broadcast(e)] + [Receive, Receive]);
    ConnectOnEmptyLog([Persist(e), Persist(f)] + ([Broadcast(f), Broadcast(e)] + [Receive, Receive]));
  }
}
