/**
  One client of the live event stream. Publishers first persist an event and then
  broadcast it; the client subscribes, then reads the persisted backlog, then relays
  what its channel brings, skipping numbers it has passed. All steps interleave.
 */
module SseDelivery {
  import opened EventLog

  // ---- The relay loop ----

  /** The largest number among `mark` and the events. */
  function Top(events: seq<Event>, mark: int): (top: int)
    ensures top >= mark
  {
    if events == [] then mark
    else
      var before := Top(events[..|events| - 1], mark);
      if events[|events| - 1].number > before then events[|events| - 1].number else before
  }

  /** The events that exceed `mark` and everything before them. */
  function Records(events: seq<Event>, mark: int): seq<Event> {
    if events == [] then []
    else
      var front, last := events[..|events| - 1], events[|events| - 1];
      Records(front, mark) + if last.number > Top(front, mark) then [last] else []
  }

  /** What a connection writes when its channel brings `received` after the backlog. */
  method Relay(after: int, backlog: seq<Event>, received: seq<Event>) returns (sent: seq<Event>, last: int)
    requires Ascending(backlog) && forall e :: e in backlog ==> e.number > after
    ensures sent == backlog + Records(received, Top(backlog, after))
    ensures last == Top(received, Top(backlog, after))
  {
    sent, last := [], after;
    for i := 0 to |backlog|
      invariant sent == backlog[..i] && last == Top(backlog[..i], after)
      invariant last == if i == 0 then after else backlog[i - 1].number
    {
      assert backlog[..i + 1][..i] == backlog[..i];
      assert backlog[i] in backlog;
      sent := sent + [backlog[i]];
      last := backlog[i].number;
    }
    assert backlog[..|backlog|] == backlog;
    for i := 0 to |received|
      invariant sent == backlog + Records(received[..i], Top(backlog, after))
      invariant last == Top(received[..i], Top(backlog, after))
    {
      assert received[..i + 1][..i] == received[..i];
      if received[i].number > last {
        sent := sent + [received[i]];
        last := received[i].number;
      }
    }
    assert received[..|received|] == received;
  }

  lemma {:induction false} TopBounds(events: seq<Event>, mark: int)
    ensures forall e :: e in events ==> e.number <= Top(events, mark)
    ensures Top(events, mark) == mark || exists e :: e in events && e.number == Top(events, mark)
    decreases |events|
  {
    if events != [] {
      var front, last := events[..|events| - 1], events[|events| - 1];
      TopBounds(front, mark);
      assert events == front + [last];
    }
  }

  lemma {:induction false} RecordsAscend(events: seq<Event>, mark: int)
    ensures Ascending(Records(events, mark))
    ensures forall e :: e in Records(events, mark) ==> e in events && mark < e.number <= Top(events, mark)
    decreases |events|
  {
    if events != [] {
      RecordsAscend(events[..|events| - 1], mark);
    }
  }

  /** A record exceeds everything that came before it. */
  lemma {:induction false} RecordBeatsEarlier(events: seq<Event>, mark: int, e: Event) returns (k: nat)
    requires e in Records(events, mark)
    ensures k < |events| && events[k] == e
    ensures forall i :: 0 <= i < k ==> events[i].number < e.number
    decreases |events|
  {
    var front, last := events[..|events| - 1], events[|events| - 1];
    if e in Records(front, mark) {
      k := RecordBeatsEarlier(front, mark, e);
    } else {
      k := |events| - 1;
      TopBounds(front, mark);
      forall i | 0 <= i < k ensures events[i].number < e.number {
        assert front[i] in front;
      }
    }
  }

  /** No event beyond `mark` comes after one with a larger number. */
  ghost predicate InOrder(events: seq<Event>, mark: int) {
    forall i, j :: 0 <= i < j < |events| && events[j].number > mark ==> events[i].number <= events[j].number
  }

  lemma {:induction false} InOrderMeansAllRecords(events: seq<Event>, mark: int, k: nat)
    requires InOrder(events, mark) && k < |events| && events[k].number > mark
    ensures exists e :: e in Records(events, mark) && e.number == events[k].number
    decreases |events|
  {
    var front, last := events[..|events| - 1], events[|events| - 1];
    if k < |front| {
      InOrderMeansAllRecords(front, mark, k);
    } else {
      TopBounds(front, mark);
      if last.number <= Top(front, mark) {
        var e :| e in front && e.number == Top(front, mark);
        var j :| 0 <= j < |front| && front[j] == e;
        assert events[j].number <= last.number;
        InOrderMeansAllRecords(front, mark, j);
      } else {
        assert last in Records(events, mark);
      }
    }
  }

  // ---- The protocol ----

  datatype Phase = Connecting | Subscribed | Streaming

  /**
    The store's log, the events persisted but not yet broadcast, and one client.
    `delivered` is all its channel ever took; it has taken out the first `taken`.
   */
  datatype Stream = Stream(
    log: seq<Event>,
    inFlight: set<Event>,
    phase: Phase,
    after: int,
    delivered: seq<Event>,
    taken: nat,
    page: seq<Event>,
    sent: seq<Event>,
    last: int,
    overflowed: bool,
    truncated: bool)

  datatype Step = Persist(event: Event) | Broadcast(event: Event) | Subscribe | ReadHistory | Receive

  ghost predicate Initial(s: Stream) {
    && Ascending(s.log) && (forall e :: e in s.inFlight ==> e in s.log)
    && s.phase == Connecting && s.delivered == [] && s.taken == 0
    && s.page == [] && s.sent == [] && s.last == s.after && !s.overflowed && !s.truncated
  }

  predicate Enabled(s: Stream, step: Step) {
    match step
    case Persist(e) => forall i :: 0 <= i < |s.log| ==> s.log[i].number < e.number
    case Broadcast(e) => e in s.inFlight
    case Subscribe => s.phase == Connecting
    case ReadHistory => s.phase == Subscribed
    case Receive => s.phase == Streaming && s.taken < |s.delivered|
  }

  function Apply(s: Stream, step: Step): Stream
    requires Enabled(s, step)
  {
    match step
    case Persist(e) => s.(log := s.log + [e], inFlight := s.inFlight + {e})
    case Broadcast(e) =>
      if s.phase == Connecting then s.(inFlight := s.inFlight - {e})
      else if |s.delivered| - s.taken < CHANNEL_CAPACITY then
        s.(inFlight := s.inFlight - {e}, delivered := s.delivered + [e])
      else s.(inFlight := s.inFlight - {e}, overflowed := true)
    case Subscribe => s.(phase := Subscribed)
    case ReadHistory =>
      var page := Page(s.log, s.after, MAX_PAGE);
      s.(phase := Streaming, page := page, sent := page, last := Top(page, s.after),
         truncated := |After(s.log, s.after)| > MAX_PAGE)
    case Receive =>
      var e := s.delivered[s.taken];
      if e.number <= s.last then s.(taken := s.taken + 1)
      else s.(taken := s.taken + 1, sent := s.sent + [e], last := e.number)
  }

  ghost predicate Legal(s: Stream, steps: seq<Step>)
    decreases |steps|
  {
    steps == [] || (Enabled(s, steps[0]) && Legal(Apply(s, steps[0]), steps[1..]))
  }

  ghost function Run(s: Stream, steps: seq<Step>): Stream
    requires Legal(s, steps)
    decreases |steps|
  {
    if steps == [] then s else Run(Apply(s, steps[0]), steps[1..])
  }

  ghost function Mark(s: Stream): int { Top(s.page, s.after) }

  // ---- What every step keeps ----

  ghost predicate Logged(s: Stream) {
    && Ascending(s.log)
    && (forall e :: e in s.inFlight ==> e in s.log && e !in s.delivered)
    && (forall i :: 0 <= i < |s.delivered| ==> s.delivered[i] in s.log)
    && (forall i, j :: 0 <= i < j < |s.delivered| ==> s.delivered[i] != s.delivered[j])
  }

  ghost predicate Relaying(s: Stream) {
    && s.taken <= |s.delivered|
    && (s.phase == Connecting ==> s.delivered == [])
    && (s.phase != Streaming ==> s.taken == 0 && s.page == [] && s.sent == [] && s.last == s.after)
    && s.sent == s.page + Records(s.delivered[..s.taken], Mark(s))
    && s.last == Top(s.delivered[..s.taken], Mark(s))
  }

  /** The page holds every event up to the mark. */
  ghost predicate Paged(s: Stream) {
    && Ascending(s.page)
    && (forall e :: e in s.page ==> e in s.log && e.number > s.after)
    && (s.phase == Streaming ==>
      forall e :: e in s.log && s.after < e.number <= Mark(s) ==> e in s.page)
  }

  /** Nothing beyond the mark has bypassed the client. */
  ghost predicate Tracked(s: Stream) {
    s.phase == Streaming && !s.overflowed && !s.truncated ==>
      forall e :: e in s.log && e.number > Mark(s) ==> e in s.delivered || e in s.inFlight
  }

  ghost predicate Inv(s: Stream) { Logged(s) && Relaying(s) && Paged(s) && Tracked(s) }

  lemma TopOfPage(page: seq<Event>, after: int)
    requires Ascending(page) && forall e :: e in page ==> e.number > after
    ensures Top(page, after) == if page == [] then after else page[|page| - 1].number
  {
    if page != [] {
      TopBounds(page[..|page| - 1], after);
      assert page[|page| - 1] in page;
    }
  }

  lemma PageReachesItsTop(newer: seq<Event>, page: seq<Event>, after: int)
    requires Ascending(newer) && (forall e :: e in newer ==> e.number > after)
    requires page == FirstPage(newer, MAX_PAGE)
    ensures Ascending(page) && (forall e :: e in page ==> e in newer)
    ensures forall e :: e in newer && e.number <= Top(page, after) ==> e in page
  {
    forall e | e in page ensures e in newer {
      var k :| 0 <= k < |page| && page[k] == e;
      assert newer[k] == e;
    }
    TopOfPage(page, after);
    forall k | |page| <= k < |newer| ensures newer[k].number > Top(page, after) {
      assert newer[k] in newer;
    }
  }

  lemma PageMeans(log: seq<Event>, after: int)
    requires Ascending(log)
    ensures
      var page := Page(log, after, MAX_PAGE);
      && Ascending(page)
      && (forall e :: e in page ==> e in log && e.number > after)
      && (forall e :: e in log && after < e.number <= Top(page, after) ==> e in page)
      && (|After(log, after)| <= MAX_PAGE ==> forall e :: e in log ==> e.number <= Top(page, after))
  {
    AfterSelects(log, after);
    PageReachesItsTop(After(log, after), Page(log, after, MAX_PAGE), after);
    TopBounds(Page(log, after, MAX_PAGE), after);
  }

  lemma PersistKeepsLogged(s: Stream, e: Event)
    requires Logged(s) && Enabled(s, Persist(e))
    ensures Logged(Apply(s, Persist(e)))
  {
    assert e !in s.log;
  }

  lemma PersistKeepsPaged(s: Stream, e: Event)
    requires Paged(s) && Enabled(s, Persist(e))
    ensures Paged(Apply(s, Persist(e)))
  {
    TopBounds(s.page, s.after);
    if Mark(s) != s.after {
      var x :| x in s.page && x.number == Mark(s);
      var i :| 0 <= i < |s.log| && s.log[i] == x;
    }
    assert Mark(s) == s.after || Mark(s) < e.number;
  }

  lemma PersistKeeps(s: Stream, e: Event)
    requires Inv(s) && Enabled(s, Persist(e))
    ensures Inv(Apply(s, Persist(e)))
  {
    PersistKeepsLogged(s, e);
    PersistKeepsPaged(s, e);
  }

  lemma BroadcastKeepsLogged(s: Stream, e: Event)
    requires Logged(s) && Enabled(s, Broadcast(e))
    ensures Logged(Apply(s, Broadcast(e)))
  {
  }

  lemma BroadcastKeepsTracked(s: Stream, e: Event)
    requires Tracked(s) && Enabled(s, Broadcast(e))
    ensures Tracked(Apply(s, Broadcast(e)))
  {
  }

  lemma BroadcastKeeps(s: Stream, e: Event)
    requires Inv(s) && Enabled(s, Broadcast(e))
    ensures Inv(Apply(s, Broadcast(e)))
  {
    BroadcastKeepsLogged(s, e);
    BroadcastKeepsTracked(s, e);
    var t := Apply(s, Broadcast(e));
    assert t.delivered[..t.taken] == s.delivered[..s.taken];
    assert t == s.(delivered := t.delivered, inFlight := t.inFlight, overflowed := t.overflowed);
  }

  lemma ReadHistoryKeeps(s: Stream)
    requires Inv(s) && Enabled(s, ReadHistory)
    ensures Inv(Apply(s, ReadHistory))
  {
    PageMeans(s.log, s.after);
  }

  lemma OneMoreReceived(events: seq<Event>, k: nat, mark: int)
    requires k < |events|
    ensures
      var newer := events[k].number > Top(events[..k], mark);
      && Records(events[..k + 1], mark) == Records(events[..k], mark) + (if newer then [events[k]] else [])
      && Top(events[..k + 1], mark) == if newer then events[k].number else Top(events[..k], mark)
  {
    assert events[..k + 1][..k] == events[..k];
  }

  lemma ReceiveKeepsRelaying(s: Stream)
    requires Relaying(s) && Enabled(s, Receive)
    ensures Relaying(Apply(s, Receive))
  {
    OneMoreReceived(s.delivered, s.taken, Mark(s));
    var records := Records(s.delivered[..s.taken], Mark(s));
    assert s.page + (records + [s.delivered[s.taken]]) == s.page + records + [s.delivered[s.taken]];
    assert records + [] == records;
  }

  lemma ReceiveKeeps(s: Stream)
    requires Inv(s) && Enabled(s, Receive)
    ensures Inv(Apply(s, Receive))
  {
    ReceiveKeepsRelaying(s);
    SameOutside(s, Apply(s, Receive));
  }

  lemma SameOutside(s: Stream, t: Stream)
    requires Logged(s) && Paged(s) && Tracked(s)
    requires t == s.(taken := t.taken, sent := t.sent, last := t.last)
    ensures Logged(t) && Paged(t) && Tracked(t)
  {
  }

  lemma StepKeepsInv(s: Stream, step: Step)
    requires Inv(s) && Enabled(s, step)
    ensures Inv(Apply(s, step))
  {
    match step
    case Persist(e) => PersistKeeps(s, e);
    case Broadcast(e) => BroadcastKeeps(s, e);
    case Subscribe =>
    case ReadHistory => ReadHistoryKeeps(s);
    case Receive => ReceiveKeeps(s);
  }

  lemma {:induction false} RunKeepsInv(s: Stream, steps: seq<Step>)
    requires Inv(s) && Legal(s, steps)
    ensures Inv(Run(s, steps))
    decreases |steps|
  {
    if steps != [] {
      StepKeepsInv(s, steps[0]);
      RunKeepsInv(Apply(s, steps[0]), steps[1..]);
    }
  }
}
