/**
  The event log behind the live stream: pages of events after a cursor, and the
  bounded in-memory log used when there is no store.
 */
module EventLog {
  datatype Event = Event(number: int, kind: string, payload: string)

  const MAX_PAGE := 1000
  const DEFAULT_PAGE := 500
  const MEMORY_HIGH := 2000
  const MEMORY_LOW := 1000
  const CHANNEL_CAPACITY := 256

  ghost predicate Ascending(events: seq<Event>) {
    forall i, j :: 0 <= i < j < |events| ==> events[i].number < events[j].number
  }

  /** Events numbered 1, 2, 3, ... */
  ghost predicate Numbered(events: seq<Event>) {
    forall i :: 0 <= i < |events| ==> events[i].number == i + 1
  }

  /** The events of `log` after `cursor`, in log order. */
  function After(log: seq<Event>, cursor: int): seq<Event> {
    if log == [] then []
    else
      var last := log[|log| - 1];
      After(log[..|log| - 1], cursor) + if last.number > cursor then [last] else []
  }

  function PageSize(limit: int): (n: nat)
    ensures 1 <= n <= MAX_PAGE
  {
    if limit <= 0 || limit > MAX_PAGE then DEFAULT_PAGE else limit
  }

  function FirstPage(newer: seq<Event>, limit: int): seq<Event> {
    if |newer| <= PageSize(limit) then newer else newer[..PageSize(limit)]
  }

  function Page(log: seq<Event>, cursor: int, limit: int): seq<Event> {
    FirstPage(After(log, cursor), limit)
  }

  lemma {:induction false} AfterSelects(log: seq<Event>, cursor: int)
    requires Ascending(log)
    ensures Ascending(After(log, cursor))
    ensures forall e :: e in After(log, cursor) <==> e in log && e.number > cursor
    decreases |log|
  {
    if log != [] {
      var front, last := log[..|log| - 1], log[|log| - 1];
      AfterSelects(front, cursor);
      assert log == front + [last];
      forall e | e in After(front, cursor) ensures e.number < last.number {
        assert e in front;
      }
    }
  }

  lemma {:induction false} AfterJoins(a: seq<Event>, b: seq<Event>, cursor: int)
    ensures After(a + b, cursor) == After(a, cursor) + After(b, cursor)
    decreases |b|
  {
    if b == [] {
      assert a + b == a;
    } else {
      AfterJoins(a, b[..|b| - 1], cursor);
      assert (a + b)[..|a + b| - 1] == a + b[..|b| - 1];
    }
  }

  /** How many of `length` events numbered from `base + 1` on are not after `cursor`. */
  function Position(base: nat, length: nat, cursor: int): (p: nat)
    ensures p <= length
  {
    if cursor < base then 0 else if cursor > base + length then length else cursor - base
  }

  lemma {:induction false} AfterConsecutive(events: seq<Event>, base: nat, cursor: int)
    requires forall i :: 0 <= i < |events| ==> events[i].number == base + i + 1
    ensures After(events, cursor) == events[Position(base, |events|, cursor)..]
    decreases |events|
  {
    if events != [] {
      var front, last := events[..|events| - 1], events[|events| - 1];
      AfterConsecutive(front, base, cursor);
      var p := Position(base, |front|, cursor);
      assert front[p..] + [last] == events[p..];
    }
  }

  /** A page of the retained events is the page of all events exactly when nothing after the cursor was trimmed. */
  lemma TrimmingIsInvisibleExactly(published: seq<Event>, trimmed: nat, cursor: int, limit: int)
    requires Numbered(published) && trimmed <= |published|
    ensures Page(published[trimmed..], cursor, limit) == Page(published, cursor, limit) <==>
      trimmed == 0 || trimmed <= cursor
  {
    AfterConsecutive(published, 0, cursor);
    AfterKept(published, trimmed, cursor);
    FirstPagesDiffer(published, Position(0, |published|, cursor),
      trimmed + Position(trimmed, |published| - trimmed, cursor), limit);
  }

  lemma FirstPagesDiffer(published: seq<Event>, i: nat, j: nat, limit: int)
    requires Numbered(published) && i <= j <= |published|
    ensures FirstPage(published[i..], limit) == FirstPage(published[j..], limit) <==> i == j
  {
    var a, b := FirstPage(published[i..], limit), FirstPage(published[j..], limit);
    if i < j {
      assert a[0] == published[i];
      assert j < |published| ==> b[0] == published[j];
    }
  }

  lemma AfterKept(published: seq<Event>, trimmed: nat, cursor: int)
    requires Numbered(published) && trimmed <= |published|
    ensures After(published[trimmed..], cursor) ==
      published[trimmed + Position(trimmed, |published| - trimmed, cursor)..]
  {
    var kept := published[trimmed..];
    AfterConsecutive(kept, trimmed, cursor);
    SliceOfSlice(published, trimmed, Position(trimmed, |kept|, cursor));
  }

  lemma SliceOfSlice<T>(s: seq<T>, i: nat, j: nat)
    requires i + j <= |s|
    ensures s[i..][j..] == s[i + j..]
  {
  }

  lemma FullPage(log: seq<Event>, k: nat, cursor: int, limit: int)
    requires k <= |log| && |After(log[..k], cursor)| == PageSize(limit)
    ensures Page(log, cursor, limit) == After(log[..k], cursor)
  {
    assert log == log[..k] + log[k..];
    AfterJoins(log[..k], log[k..], cursor);
  }

  ghost predicate EndsWith(kept: seq<Event>, published: seq<Event>) {
    |kept| <= |published| && forall i :: 0 <= i < |kept| ==> kept[i] == published[|published| - |kept| + i]
  }

  lemma EndIsSlice(kept: seq<Event>, published: seq<Event>)
    requires EndsWith(kept, published)
    ensures kept == published[|published| - |kept|..]
  {
  }

  lemma EndsWithMore(kept: seq<Event>, published: seq<Event>, e: Event)
    requires EndsWith(kept, published)
    ensures EndsWith(kept + [e], published + [e])
  {
  }

  /** Events are numbered in order, and their contiguous end is kept. */
  ghost predicate Keeps(nextSeq: nat, memory: seq<Event>, published: seq<Event>) {
    && Numbered(published) && nextSeq == |published|
    && EndsWith(memory, published) && |memory| <= MEMORY_HIGH
    && (|memory| < |published| ==> |memory| >= MEMORY_LOW)
  }

  lemma KeepsOneMore(nextSeq: nat, memory: seq<Event>, published: seq<Event>, e: Event)
    requires Keeps(nextSeq, memory, published) && e.number == nextSeq + 1
    ensures
      var longer := memory + [e];
      Keeps(nextSeq + 1, if |longer| > MEMORY_HIGH then longer[|longer| - MEMORY_LOW..] else longer, published + [e])
  {
    EndsWithMore(memory, published, e);
    if |memory + [e]| > MEMORY_HIGH {
      EndsWithLess(memory + [e], published + [e], MEMORY_LOW);
    }
  }

  lemma EndsWithLess(kept: seq<Event>, published: seq<Event>, n: nat)
    requires EndsWith(kept, published) && n <= |kept|
    ensures EndsWith(kept[|kept| - n..], published)
  {
  }

  type Subscriber = nat

  /** The stream without a store: it numbers events itself and keeps a bounded number of them. */
  class MemoryLog {
    var nextSeq: nat
    var memory: seq<Event>
    var subs: map<Subscriber, seq<Event>>
    ghost var published: seq<Event>

    ghost predicate Valid()
      reads this
    {
      Keeps(nextSeq, memory, published)
    }

    constructor ()
      ensures Valid() && published == [] && subs == map[]
    {
      nextSeq, memory, subs, published := 0, [], map[], [];
    }

    method Subscribe(id: Subscriber)
      requires Valid() && id !in subs
      modifies this`subs
      ensures Valid() && subs == old(subs)[id := []]
    {
      subs := subs[id := []];
    }

    method Unsubscribe(id: Subscriber)
      requires Valid()
      modifies this`subs
      ensures Valid() && subs == old(subs) - {id}
    {
      subs := subs - {id};
    }

    method Publish(event: Event)
      requires Valid()
      modifies this
      ensures Valid()
      ensures event.number == 0 ==> published == old(published) + [event.(number := |old(published)| + 1)]
      ensures event.number == 0 ==> |memory| == if |old(memory)| < 2000 then |old(memory)| + 1 else 1000
      ensures event.number != 0 ==> published == old(published) && memory == old(memory)
      ensures subs.Keys == old(subs).Keys
      ensures forall id :: id in subs ==>
        var e := if event.number == 0 then event.(number := |old(published)| + 1) else event;
        subs[id] == old(subs)[id] + if |old(subs)[id]| < 256 then [e] else []
    {
      var e := event;
      if event.number == 0 {
        e := Remember(event);
      }
      FanOut(e);
    }

    method Remember(event: Event) returns (e: Event)
      requires Valid()
      modifies this`nextSeq, this`memory, this`published
      ensures Valid() && e == event.(number := |old(published)| + 1)
      ensures published == old(published) + [e]
      ensures |old(memory)| < 2000 ==> memory == old(memory) + [e]
      ensures |old(memory)| == 2000 ==> |memory| == 1000
    {
      nextSeq := nextSeq + 1;
      e := event.(number := nextSeq);
      KeepsOneMore(|published|, memory, published, e);
      memory := memory + [e];
      published := published + [e];
      if |memory| > MEMORY_HIGH {
        memory := memory[|memory| - MEMORY_LOW..];
      }
    }

    method FanOut(e: Event)
      modifies this`subs
      ensures subs.Keys == old(subs).Keys
      ensures forall id :: id in subs ==>
        subs[id] == old(subs)[id] + if |old(subs)[id]| < 256 then [e] else []
    {
      var waiting := subs.Keys;
      while waiting != {}
        invariant waiting <= subs.Keys == old(subs).Keys
        invariant forall id :: id in subs ==>
          subs[id] == old(subs)[id] +
            if id !in waiting && |old(subs)[id]| < CHANNEL_CAPACITY then [e] else []
        decreases |waiting|
      {
        var id :| id in waiting;
        if |subs[id]| < CHANNEL_CAPACITY {
          subs := subs[id := subs[id] + [e]];
        }
        waiting := waiting - {id};
      }
    }

    method History(cursor: int, limit: int) returns (page: seq<Event>)
      requires Valid()
      ensures page == Page(memory, cursor, limit)
      ensures page == Page(published, cursor, limit) <==>
        |published| == |memory| || |published| - |memory| <= cursor
      ensures page <= After(memory, cursor)
      ensures 1 <= limit <= 1000 ==> |page| == limit || (page == After(memory, cursor) && |page| < limit)
      ensures !(1 <= limit <= 1000) ==> |page| == 500 || (page == After(memory, cursor) && |page| < 500)
    {
      EndIsSlice(memory, published);
      TrimmingIsInvisibleExactly(published, |published| - |memory|, cursor, limit);
      page := PageOfMemory(cursor, limit);
    }

    method PageOfMemory(cursor: int, limit: int) returns (page: seq<Event>)
      ensures page == Page(memory, cursor, limit)
    {
      var n := PageSize(limit);
      page := [];
      for i := 0 to |memory|
        invariant page == After(memory[..i], cursor) && |page| < n
      {
        assert memory[..i + 1][..i] == memory[..i];
        if memory[i].number > cursor {
          page := page + [memory[i]];
          if |page| == n {
            FullPage(memory, i + 1, cursor, limit);
            return;
          }
        }
      }
      assert memory[..|memory|] == memory;
    }
  }
}
