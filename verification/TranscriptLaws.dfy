/** What a transcript shows of the event history it was built from. */
module TranscriptLaws {
  import opened Transcript
  import opened Wrappers

  // ---- Whole histories ----

  function Run(events: seq<Event>): (s: State)
    ensures Valid(s)
  {
    if events == [] then EMPTY
    else
      var before := Run(events[..|events| - 1]);
      StepKeepsValid(before, events[|events| - 1]);
      Step(before, events[|events| - 1])
  }

  lemma StepKeepsValid(s: State, e: Event)
    requires Valid(s)
    ensures Valid(Step(s, e))
  {
    match e
    case UserMessage(at, content) => FlushingAll(s);
    case AssistantMessage(at, blocks) => AddingBlocks(s, at, blocks);
    case ToolCall(call) => AddingCall(s, call);
    case ToolResult(callId, output) => AddingResult(s, callId, output);
    case TurnEnd => FlushingAll(s);
    case CompactionSummary(at, summary) => FlushingAll(s);
    case Unrecognised =>
  }

  lemma StepAddsWhatWasSaid(s: State, e: Event)
    requires Valid(s)
    ensures ItemsOf(Step(s, e)) == ItemsOf(s) + ItemsOfEvent(e)
  {
    match e
    case UserMessage(at, content) =>
      EndingTurn(s, UserEntry(NextId(AllFlushed(s), at), content));
    case AssistantMessage(at, blocks) => AddingBlocks(s, at, blocks);
    case ToolCall(call) => AddingCall(s, call);
    case ToolResult(callId, output) => AddingResult(s, callId, output);
    case TurnEnd => FlushingAll(s);
    case CompactionSummary(at, summary) =>
      EndingTurn(s, CompactionEntry(NextId(AllFlushed(s), at), summary));
    case Unrecognised =>
  }

  /** Text, questions, thoughts and compactions surface exactly once each, in the order they came. */
  lemma {:induction false} EverythingSaidSurfacesInOrder(events: seq<Event>)
    ensures ItemsOf(Run(events)) == ItemsOfEvents(events)
    ensures ItemsOfEntries(AllFlushed(Run(events)).out) == ItemsOfEvents(events)
    decreases |events|
  {
    if events != [] {
      EverythingSaidSurfacesInOrder(events[..|events| - 1]);
      StepAddsWhatWasSaid(Run(events[..|events| - 1]), events[|events| - 1]);
    }
    FlushingAll(Run(events));
    var done := AllFlushed(Run(events));
    assert ItemsOfEntries(done.out) + Saying([]) == ItemsOfEntries(done.out);
  }

  /** The open calls after one more event. */
  function OpenAfter(open: map<CallId, Call>, e: Event): map<CallId, Call> {
    if EndsTurn(e) then map[]
    else if IsCall(e) then open[e.call.callId := e.call]
    else if Answers(e, open) then open - {e.callId}
    else open
  }

  lemma TurnEndAnswersNothing(s: State, e: Event)
    requires Valid(s) && EndsTurn(e)
    ensures Step(s, e).pendingTools == map[] && AnswersOfEntries(Step(s, e).out) == AnswersOfEntries(s.out)
  {
    match e
    case UserMessage(at, content) =>
      EndingTurn(s, UserEntry(NextId(AllFlushed(s), at), content));
    case TurnEnd => FlushingAll(s);
    case CompactionSummary(at, summary) =>
      EndingTurn(s, CompactionEntry(NextId(AllFlushed(s), at), summary));
  }

  lemma StepAnswers(s: State, e: Event)
    requires Valid(s)
    ensures Step(s, e).pendingTools == OpenAfter(s.pendingTools, e)
    ensures AnswersOfEntries(Step(s, e).out) == AnswersOfEntries(s.out) +
      if Answers(e, s.pendingTools) then [Answer(s.pendingTools[e.callId], e.output)] else []
  {
    match e
    case AssistantMessage(at, blocks) => AddingBlocks(s, at, blocks);
    case ToolCall(call) => AddingCall(s, call);
    case ToolResult(callId, output) => AddingResult(s, callId, output);
    case Unrecognised =>
    case _ => TurnEndAnswersNothing(s, e);
  }

  /** The waiting calls are the open ones, and each result lands on the call open under its id. */
  lemma {:induction false} ResultsLandOnTheirCalls(events: seq<Event>)
    ensures Run(events).pendingTools == OpenCalls(events)
    ensures AnswersOfEntries(Run(events).out) == AnswersOf(events)
    decreases |events|
  {
    if events != [] {
      ResultsLandOnTheirCalls(events[..|events| - 1]);
      StepAnswers(Run(events[..|events| - 1]), events[|events| - 1]);
    }
  }

  lemma StepKeepsTools(s: State, e: Event)
    requires Valid(s)
    ensures Valid(Step(s, e))
    ensures !IsCall(e) ==> ToolsOf(Step(s, e)) == ToolsOf(s)
    ensures IsCall(e) && e.call.callId !in s.pendingTools ==>
      ToolsOf(Step(s, e)) == ToolsOf(s) + multiset{e.call}
    ensures IsCall(e) && e.call.callId in s.pendingTools ==>
      ToolsOf(Step(s, e)) + multiset{s.pendingTools[e.call.callId]} == ToolsOf(s) + multiset{e.call}
  {
    match e
    case UserMessage(at, content) =>
      EndingTurn(s, UserEntry(NextId(AllFlushed(s), at), content));
    case AssistantMessage(at, blocks) => AddingBlocks(s, at, blocks);
    case ToolCall(call) =>
      AddingCall(s, call);
      if call.callId == "" {
        FlushingText(s);
      } else if call.callId in s.pendingTools {
        AddingReusedCall(s, call);
      } else {
        AddingNewCall(s, call);
      }
    case ToolResult(callId, output) => AddingResult(s, callId, output);
    case TurnEnd => FlushingAll(s);
    case CompactionSummary(at, summary) =>
      EndingTurn(s, CompactionEntry(NextId(AllFlushed(s), at), summary));
    case Unrecognised =>
  }

  lemma SumsAgree<T>(tools: multiset<T>, more: multiset<T>, lost: multiset<T>, calls: multiset<T>, x: multiset<T>, y: multiset<T>)
    requires tools + lost == calls && more + x == tools + y
    ensures more + (lost + x) == calls + y
  {
    assert more + (lost + x) == more + x + lost;
    assert tools + y + lost == tools + lost + y;
  }

  /** The calls a history loses: displaced by a later call with their id, or without an id from the start. */
  function Lost(events: seq<Event>): multiset<Call> { multiset(Displaced(events)) + multiset(Nameless(events)) }

  lemma LostByOneMore(events: seq<Event>)
    requires events != []
    ensures
      var front, last := events[..|events| - 1], events[|events| - 1];
      && multiset(CallsOf(events)) == multiset(CallsOf(front)) + (if last.ToolCall? then multiset{last.call} else multiset{})
      && Lost(events) == Lost(front) +
         (if last.ToolCall? && !IsCall(last) then multiset{last.call}
          else if IsCall(last) && last.call.callId in OpenCalls(front) then multiset{OpenCalls(front)[last.call.callId]}
          else multiset{})
  {
  }

  /** Every call surfaces exactly once, unless it was displaced or nameless: none else is lost. */
  lemma {:induction false} CallsAreConserved(events: seq<Event>)
    ensures ToolsOf(Run(events)) + multiset(Displaced(events)) + multiset(Nameless(events)) == multiset(CallsOf(events))
    decreases |events|
  {
    if events != [] {
      var front, last := events[..|events| - 1], events[|events| - 1];
      CallsAreConserved(front);
      ResultsLandOnTheirCalls(front);
      StepKeepsTools(Run(front), last);
      LostByOneMore(events);
      var open := OpenCalls(front);
      var came := if last.ToolCall? then multiset{last.call} else multiset{};
      var went :=
        if last.ToolCall? && !IsCall(last) then multiset{last.call}
        else if IsCall(last) && last.call.callId in open then multiset{open[last.call.callId]}
        else multiset{};
      SumsAgree(ToolsOf(Run(front)), ToolsOf(Run(events)), Lost(front), multiset(CallsOf(front)), went, came);
    }
  }

  lemma FinishedCallsAreConserved(events: seq<Event>)
    ensures multiset(ToolsOfEntries(AllFlushed(Run(events)).out)) + multiset(Displaced(events)) + multiset(Nameless(events)) ==
      multiset(CallsOf(events))
  {
    CallsAreConserved(events);
    FlushingAll(Run(events));
    assert multiset(ToolsOfEntries(AllFlushed(Run(events)).out)) == ToolsOf(AllFlushed(Run(events)));
  }

  lemma {:induction false} AllNamedExactly(events: seq<Event>)
    ensures Nameless(events) == [] <==> forall e :: e in events && e.ToolCall? ==> e.call.callId != ""
    decreases |events|
  {
    if events != [] {
      var front, last := events[..|events| - 1], events[|events| - 1];
      AllNamedExactly(front);
      assert events == front + [last];
    }
  }

  /**
    The finished transcript shows each call exactly once precisely when no waiting call's
    id was reused and every call has an id.
   */
  lemma EveryCallSurfacesExactly(events: seq<Event>)
    ensures multiset(ToolsOfEntries(AllFlushed(Run(events)).out)) == multiset(CallsOf(events)) <==>
      Displaced(events) == [] && forall e :: e in events && e.ToolCall? ==> e.call.callId != ""
  {
    FinishedCallsAreConserved(events);
    AllNamedExactly(events);
    var shown := multiset(ToolsOfEntries(AllFlushed(Run(events)).out));
    if Displaced(events) != [] || Nameless(events) != [] {
      assert |multiset(Displaced(events))| + |multiset(Nameless(events))| > 0;
      assert |shown| < |multiset(CallsOf(events))|;
    }
  }

  lemma OneCall(call: Call)
    ensures
      var events := [ToolCall(call)];
      && Displaced(events) == [] && CallsOf(events) == [call]
      && Nameless(events) == (if call.callId == "" then [call] else [])
  {
    assert [ToolCall(call)][..0] == [];
  }

  lemma ReusedIdDisplaces(first: Call, second: Call)
    requires first.callId == second.callId != ""
    ensures var events := [ToolCall(first), ToolCall(second)];
            Displaced(events) == [first] && Nameless(events) == [] && CallsOf(events) == [first, second]
  {
    var events := [ToolCall(first), ToolCall(second)];
    assert events[..1] == [ToolCall(first)];
    OneCall(first);
    assert OpenCalls(events[..1]) == map[first.callId := first];
  }

  lemma OneOfTwoIsLeft(shown: multiset<Call>, first: Call, second: Call)
    requires shown + multiset([first]) + multiset([]) == multiset([first, second])
    ensures shown == multiset{second}
  {
    assert multiset([first, second]) == multiset{second} + multiset([first]);
    assert shown == shown + multiset([first]) - multiset([first]);
  }

  /** Of two calls under one id, the first is lost when it still waits for its result. */
  lemma ReusedIdLosesCall(first: Call, second: Call)
    requires first.callId == second.callId != ""
    ensures var events := [ToolCall(first), ToolCall(second)];
            multiset(ToolsOfEntries(AllFlushed(Run(events)).out)) == multiset{second}
  {
    var events := [ToolCall(first), ToolCall(second)];
    ReusedIdDisplaces(first, second);
    FinishedCallsAreConserved(events);
    OneOfTwoIsLeft(multiset(ToolsOfEntries(AllFlushed(Run(events)).out)), first, second);
  }

  /** A call without an id is shown nowhere, though nothing displaced it. */
  lemma NamelessCallIsLost(call: Call)
    requires call.callId == ""
    ensures Displaced([ToolCall(call)]) == [] && CallsOf([ToolCall(call)]) == [call]
    ensures ToolsOfEntries(AllFlushed(Run([ToolCall(call)])).out) == []
  {
    var events := [ToolCall(call)];
    OneCall(call);
    FinishedCallsAreConserved(events);
    assert |multiset(ToolsOfEntries(AllFlushed(Run(events)).out))| == 0;
  }

  lemma EntryIdsAreDistinct(events: seq<Event>, i: nat, j: nat)
    requires i < j < |AllFlushed(Run(events)).out|
    ensures AllFlushed(Run(events)).out[i].id != AllFlushed(Run(events)).out[j].id
  {
    FlushingAll(Run(events));
  }

  // ---- When things were said ----

  function TimesOfBlocks(at: int, blocks: seq<Block>): seq<int> {
    if blocks == [] then []
    else
      var last := blocks[|blocks| - 1];
      TimesOfBlocks(at, blocks[..|blocks| - 1]) + if last.Text? then [at] else []
  }

  /** For each text of the history, the sequence number of its message. */
  function TextTimes(events: seq<Event>): seq<int> {
    if events == [] then []
    else
      var last := events[|events| - 1];
      TextTimes(events[..|events| - 1]) + if last.AssistantMessage? then TimesOfBlocks(last.at, last.blocks) else []
  }

  function TextsIn(out: seq<Entry>): nat {
    if out == [] then 0
    else
      var last := out[|out| - 1];
      TextsIn(out[..|out| - 1]) + if last.AssistantEntry? then |last.texts| else 0
  }

  /** An assistant entry is dated by its first text, a tool entry by its call. */
  ghost predicate Dated(out: seq<Entry>, times: seq<int>) {
    && TextsIn(out) <= |times|
    && forall k :: 0 <= k < |out| ==>
         && (out[k].ToolEntry? ==> out[k].id.at == out[k].call.at)
         && (out[k].AssistantEntry? ==>
               out[k].texts != [] && TextsIn(out[..k]) < |times| && out[k].id.at == times[TextsIn(out[..k])])
  }

  ghost predicate KeepsTimes(s: State, times: seq<int>) {
    && Dated(s.out, times) && |times| == TextsIn(s.out) + |s.pendingText|
    && (s.pendingText != [] ==> s.textAt == times[TextsIn(s.out)])
  }

  lemma OneMoreDated(out: seq<Entry>, times: seq<int>, e: Entry)
    requires Dated(out, times)
    requires e.ToolEntry? ==> e.id.at == e.call.at
    requires e.AssistantEntry? ==>
      e.texts != [] && TextsIn(out) + |e.texts| <= |times| && e.id.at == times[TextsIn(out)]
    ensures Dated(out + [e], times)
    ensures TextsIn(out + [e]) == TextsIn(out) + if e.AssistantEntry? then |e.texts| else 0
  {
    var all := out + [e];
    assert all[..|out|] == out;
    forall k | 0 <= k < |out| ensures all[..k] == out[..k] && all[k] == out[k] {
    }
  }

  lemma FlushingTextKeepsTimes(s: State, times: seq<int>)
    requires KeepsTimes(s, times)
    ensures KeepsTimes(TextFlushed(s), times)
  {
    if s.pendingText != [] { OneMoreDated(s.out, times, AssistantEntry(NextId(s, s.textAt), s.pendingText)); }
  }

  lemma AddingKeepsTimes(s: State, times: seq<int>, e: Entry)
    requires KeepsTimes(s, times) && !e.AssistantEntry? && (e.ToolEntry? ==> e.id.at == e.call.at)
    ensures KeepsTimes(WithEntry(s, e), times)
  {
    OneMoreDated(s.out, times, e);
  }

  lemma {:induction false} UnansweredAreDated(
      out: seq<Entry>, times: seq<int>, order: seq<CallId>, tools: map<CallId, Call>, entryNo: nat)
    requires Dated(out, times) && forall id :: id in order ==> id in tools
    ensures Dated(out + Unanswered(order, tools, entryNo), times)
    ensures TextsIn(out + Unanswered(order, tools, entryNo)) == TextsIn(out)
    decreases |order|
  {
    if order == [] {
      assert out + Unanswered(order, tools, entryNo) == out;
    } else {
      var front, last := order[..|order| - 1], tools[order[|order| - 1]];
      var e := ToolEntry(EntryId(last.at, entryNo + |order|), last, None);
      UnansweredAreDated(out, times, front, tools, entryNo);
      UnansweredSplits(order, tools, entryNo);
      OneMoreDated(out + Unanswered(front, tools, entryNo), times, e);
      assert out + Unanswered(order, tools, entryNo) == out + Unanswered(front, tools, entryNo) + [e];
    }
  }

  lemma FlushingKeepsTimes(s: State, times: seq<int>)
    requires Valid(s) && KeepsTimes(s, times)
    ensures KeepsTimes(AllFlushed(s), times)
  {
    FlushingText(s);
    FlushingTextKeepsTimes(s, times);
    var t := TextFlushed(s);
    UnansweredAreDated(t.out, times, t.toolOrder, t.pendingTools, t.entryNo);
  }

  lemma {:induction false} BlocksKeepTimes(s: State, times: seq<int>, at: int, blocks: seq<Block>)
    requires KeepsTimes(s, times)
    ensures KeepsTimes(BlocksAdded(s, at, blocks), times + TimesOfBlocks(at, blocks))
    decreases |blocks|
  {
    if blocks == [] {
      assert times + [] == times;
    } else {
      var front, last := blocks[..|blocks| - 1], blocks[|blocks| - 1];
      BlocksKeepTimes(s, times, at, front);
      var t, before := BlocksAdded(s, at, front), times + TimesOfBlocks(at, front);
      BlockKeepsTimes(t, before, at, last);
      assert times + TimesOfBlocks(at, blocks) == before + if last.Text? then [at] else [];
    }
  }

  lemma BlockKeepsTimes(s: State, times: seq<int>, at: int, block: Block)
    requires KeepsTimes(s, times)
    ensures KeepsTimes(BlockAdded(s, at, block), times + if block.Text? then [at] else [])
  {
    match block
    case Text(text) =>
    case Reasoning(text) =>
      FlushingTextKeepsTimes(s, times);
      AddingKeepsTimes(TextFlushed(s), times, ThinkingEntry(NextId(TextFlushed(s), at), text));
      assert times + [] == times;
    case OtherBlock =>
      assert times + [] == times;
  }

  lemma StepKeepsTimes(s: State, times: seq<int>, e: Event)
    requires Valid(s) && KeepsTimes(s, times)
    ensures KeepsTimes(Step(s, e), times + if e.AssistantMessage? then TimesOfBlocks(e.at, e.blocks) else [])
  {
    assert times + [] == times;
    match e
    case UserMessage(at, content) =>
      FlushingKeepsTimes(s, times);
      AddingKeepsTimes(AllFlushed(s), times, UserEntry(NextId(AllFlushed(s), at), content));
    case AssistantMessage(at, blocks) => BlocksKeepTimes(s, times, at, blocks);
    case ToolCall(call) => FlushingTextKeepsTimes(s, times);
    case ToolResult(callId, output) =>
      if Answers(e, s.pendingTools) {
        var call := s.pendingTools[callId];
        AddingKeepsTimes(s, times, ToolEntry(NextId(s, call.at), call, Some(output)));
      }
    case TurnEnd => FlushingKeepsTimes(s, times);
    case CompactionSummary(at, summary) =>
      FlushingKeepsTimes(s, times);
      AddingKeepsTimes(AllFlushed(s), times, CompactionEntry(NextId(AllFlushed(s), at), summary));
    case Unrecognised =>
  }

  lemma {:induction false} RunKeepsTimes(events: seq<Event>)
    ensures KeepsTimes(Run(events), TextTimes(events))
    decreases |events|
  {
    if events != [] {
      RunKeepsTimes(events[..|events| - 1]);
      StepKeepsTimes(Run(events[..|events| - 1]), TextTimes(events[..|events| - 1]), events[|events| - 1]);
    }
  }

  /** Every entry carries the sequence number of what it shows: of its first text, or of its call. */
  lemma EntriesAreDated(events: seq<Event>)
    ensures Dated(AllFlushed(Run(events)).out, TextTimes(events))
  {
    RunKeepsTimes(events);
    FlushingKeepsTimes(Run(events), TextTimes(events));
  }
}
