/** The builder that works in place, proved to compute the value of `TranscriptLaws.Run`. */
module TranscriptBuilder {
  import opened Wrappers
  import opened Transcript
  import opened TranscriptLaws

  // ---- The builder that works in place ----

  class Builder {
    var out: seq<Entry>
    var pendingText: seq<string>
    var textAt: int
    var pendingTools: map<CallId, Call>
    var toolOrder: seq<CallId>
    var entryNo: nat

    ghost function Value(): State
      reads this
    {
      State(out, pendingText, textAt, pendingTools, toolOrder, entryNo)
    }

    constructor ()
      ensures Value() == EMPTY
    {
      out, pendingText, textAt := [], [], 0;
      pendingTools, toolOrder, entryNo := map[], [], 0;
    }

    method EntryFor(at: int) returns (id: EntryId)
      modifies this`entryNo
      ensures id == EntryId(at, old(entryNo) + 1) && entryNo == old(entryNo) + 1
    {
      entryNo := entryNo + 1;
      id := EntryId(at, entryNo);
    }

    method FlushText()
      modifies this
      ensures Value() == TextFlushed(old(Value()))
    {
      if pendingText == [] { return; }
      var id := EntryFor(textAt);
      out := out + [AssistantEntry(id, pendingText)];
      pendingText := [];
    }

    method FlushTools()
      requires forall id :: id in toolOrder ==> id in pendingTools
      modifies this
      ensures Value() == ToolsFlushed(old(Value()))
    {
      ghost var before := Value();
      for i := 0 to |toolOrder|
        invariant Value() == before.(
          out := before.out + Unanswered(before.toolOrder, before.pendingTools, before.entryNo)[..i],
          entryNo := before.entryNo + i)
      {
        var call := pendingTools[toolOrder[i]];
        var id := EntryFor(call.at);
        out := out + [ToolEntry(id, call, None)];
      }
      pendingTools, toolOrder := map[], [];
    }

    method FlushAll()
      requires forall id :: id in toolOrder ==> id in pendingTools
      modifies this
      ensures Value() == AllFlushed(old(Value()))
    {
      FlushText();
      FlushTools();
    }

    method AddBlocks(at: int, blocks: seq<Block>)
      modifies this
      ensures Value() == BlocksAdded(old(Value()), at, blocks)
    {
      for i := 0 to |blocks|
        invariant Value() == BlocksAdded(old(Value()), at, blocks[..i])
      {
        assert blocks[..i + 1][..i] == blocks[..i];
        match blocks[i]
        case Text(text) =>
          if pendingText == [] { textAt := at; }
          pendingText := pendingText + [text];
        case Reasoning(text) =>
          FlushText();
          var id := EntryFor(at);
          out := out + [ThinkingEntry(id, text)];
        case OtherBlock =>
      }
      assert blocks[..|blocks|] == blocks;
    }

    method AddCall(call: Call)
      modifies this
      ensures Value() == CallAdded(old(Value()), call)
    {
      FlushText();
      if call.callId == "" { return; }
      if call.callId !in pendingTools {
        toolOrder := toolOrder + [call.callId];
      }
      pendingTools := pendingTools[call.callId := call];
    }

    method Forget(callId: CallId)
      modifies this`toolOrder
      ensures toolOrder == Without(old(toolOrder), callId)
    {
      for i := 0 to |toolOrder|
        invariant toolOrder == old(toolOrder)
        invariant Without(toolOrder, callId) == toolOrder[..i] + Without(toolOrder[i..], callId)
      {
        assert toolOrder[i..][1..] == toolOrder[i + 1..];
        if toolOrder[i] == callId {
          toolOrder := toolOrder[..i] + toolOrder[i + 1..];
          return;
        }
        assert toolOrder[..i] + [toolOrder[i]] == toolOrder[..i + 1];
      }
    }

    method AddResult(callId: CallId, output: ToolOutput)
      modifies this
      ensures Value() == ResultAdded(old(Value()), callId, output)
    {
      if callId == "" || callId !in pendingTools { return; }
      var call := pendingTools[callId];
      var id := EntryFor(call.at);
      out := out + [ToolEntry(id, call, Some(output))];
      pendingTools := pendingTools - {callId};
      Forget(callId);
    }

    method Add(e: Event)
      requires Valid(Value())
      modifies this
      ensures Value() == Step(old(Value()), e) && Valid(Value())
    {
      StepKeepsValid(Value(), e);
      match e
      case UserMessage(at, content) =>
        FlushAll();
        var id := EntryFor(at);
        out := out + [UserEntry(id, content)];
      case AssistantMessage(at, blocks) => AddBlocks(at, blocks);
      case ToolCall(call) => AddCall(call);
      case ToolResult(callId, output) => AddResult(callId, output);
      case TurnEnd => FlushAll();
      case CompactionSummary(at, summary) =>
        FlushAll();
        var id := EntryFor(at);
        out := out + [CompactionEntry(id, summary)];
      case Unrecognised =>
    }
  }

  /** The whole translation of a history. */
  method BuildTranscript(events: seq<Event>) returns (out: seq<Entry>)
    ensures out == AllFlushed(Run(events)).out
    ensures ItemsOfEntries(out) == ItemsOfEvents(events)
    ensures AnswersOfEntries(out) == AnswersOf(events)
    ensures multiset(ToolsOfEntries(out)) + multiset(Displaced(events)) + multiset(Nameless(events)) == multiset(CallsOf(events))
    ensures Numbered(out)
  {
    var builder := new Builder();
    for i := 0 to |events|
      invariant fresh(builder)
      invariant builder.Value() == Run(events[..i])
    {
      assert events[..i + 1][..i] == events[..i];
      builder.Add(events[i]);
    }
    assert events[..|events|] == events;
    builder.FlushAll();
    out := builder.out;
    EverythingSaidSurfacesInOrder(events);
    ResultsLandOnTheirCalls(events);
    FinishedCallsAreConserved(events);
    FlushingAll(Run(events));
  }
}
