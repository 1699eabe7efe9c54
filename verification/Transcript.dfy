/**
  Turning the event history of an agent session into transcript entries: text is
  gathered, tool calls wait for their results, and a turn's end releases what waits.
  One event moves the state as `Step` says; the lemmas say what each step keeps.
 */
module Transcript {
  import opened Wrappers
  import opened Sequences

  type CallId = string

  datatype Block = Text(text: string) | Reasoning(text: string) | OtherBlock

  datatype Call = Call(at: int, callId: CallId, name: string, arguments: string)

  datatype ToolOutput = ToolOutput(text: string, isError: bool)

  datatype Event =
    | UserMessage(at: int, content: string)
    | AssistantMessage(at: int, blocks: seq<Block>)
    | ToolCall(call: Call)
    | ToolResult(callId: CallId, output: ToolOutput)
    | TurnEnd
    | CompactionSummary(at: int, summary: string)
    | Unrecognised

  /** The event's sequence number, and a counter that makes derived entries distinct. */
  datatype EntryId = EntryId(at: int, number: nat)

  datatype Entry =
    | UserEntry(id: EntryId, content: string)
    | AssistantEntry(id: EntryId, texts: seq<string>)
    | ThinkingEntry(id: EntryId, text: string)
    | ToolEntry(id: EntryId, call: Call, output: Option<ToolOutput>)
    | CompactionEntry(id: EntryId, summary: string)

  datatype State = State(
    out: seq<Entry>,
    pendingText: seq<string>,
    textAt: int,
    pendingTools: map<CallId, Call>,
    toolOrder: seq<CallId>,
    entryNo: nat)

  const EMPTY := State([], [], 0, map[], [], 0)

  // ---- What an event history contains ----

  /** Something said that is not a tool call. */
  datatype Item =
    | Said(text: string)
    | Asked(at: int, content: string)
    | Thought(at: int, thought: string)
    | Compacted(at: int, summary: string)

  datatype Answer = Answer(call: Call, output: ToolOutput)

  function ItemsOfBlock(at: int, block: Block): seq<Item> {
    match block
    case Text(text) => [Said(text)]
    case Reasoning(text) => [Thought(at, text)]
    case OtherBlock => []
  }

  function ItemsOfBlocks(at: int, blocks: seq<Block>): seq<Item> {
    if blocks == [] then []
    else
      var last := blocks[|blocks| - 1];
      ItemsOfBlocks(at, blocks[..|blocks| - 1]) + ItemsOfBlock(at, last)
  }

  function ItemsOfEvent(e: Event): seq<Item> {
    match e
    case UserMessage(at, content) => [Asked(at, content)]
    case AssistantMessage(at, blocks) => ItemsOfBlocks(at, blocks)
    case CompactionSummary(at, summary) => [Compacted(at, summary)]
    case _ => []
  }

  function ItemsOfEvents(events: seq<Event>): seq<Item> {
    if events == [] then []
    else ItemsOfEvents(events[..|events| - 1]) + ItemsOfEvent(events[|events| - 1])
  }

  /** A call whose result can find it. */
  predicate IsCall(e: Event) { e.ToolCall? && e.call.callId != "" }

  predicate EndsTurn(e: Event) { e.UserMessage? || e.TurnEnd? || e.CompactionSummary? }

  predicate Answers(e: Event, open: map<CallId, Call>) { e.ToolResult? && e.callId != "" && e.callId in open }

  /** The calls that wait for their result after these events. */
  function OpenCalls(events: seq<Event>): map<CallId, Call> {
    if events == [] then map[]
    else
      var last := events[|events| - 1];
      var open := OpenCalls(events[..|events| - 1]);
      if EndsTurn(last) then map[]
      else if IsCall(last) then open[last.call.callId := last.call]
      else if Answers(last, open) then open - {last.callId}
      else open
  }

  /** The results that found a waiting call, with the call each one answers. */
  function AnswersOf(events: seq<Event>): seq<Answer> {
    if events == [] then []
    else
      var last := events[|events| - 1];
      var open := OpenCalls(events[..|events| - 1]);
      AnswersOf(events[..|events| - 1]) +
      if Answers(last, open) then [Answer(open[last.callId], last.output)] else []
  }

  function CallsOf(events: seq<Event>): seq<Call> {
    if events == [] then []
    else
      var last := events[|events| - 1];
      CallsOf(events[..|events| - 1]) + if last.ToolCall? then [last.call] else []
  }

  /** The calls that name no id for a result to come back to. */
  function Nameless(events: seq<Event>): seq<Call> {
    if events == [] then []
    else
      var last := events[|events| - 1];
      Nameless(events[..|events| - 1]) + if last.ToolCall? && !IsCall(last) then [last.call] else []
  }

  /** The calls that were still waiting when another call took over their id. */
  function Displaced(events: seq<Event>): seq<Call> {
    if events == [] then []
    else
      var last := events[|events| - 1];
      var open := OpenCalls(events[..|events| - 1]);
      Displaced(events[..|events| - 1]) +
      if IsCall(last) && last.call.callId in open then [open[last.call.callId]] else []
  }

  // ---- What a transcript contains ----

  function Saying(texts: seq<string>): (items: seq<Item>) {
    seq(|texts|, i requires 0 <= i < |texts| => Said(texts[i]))
  }

  function ItemsOfEntry(e: Entry): seq<Item> {
    match e
    case UserEntry(id, content) => [Asked(id.at, content)]
    case AssistantEntry(_, texts) => Saying(texts)
    case ThinkingEntry(id, text) => [Thought(id.at, text)]
    case CompactionEntry(id, summary) => [Compacted(id.at, summary)]
    case ToolEntry(_, _, _) => []
  }

  function ItemsOfEntries(out: seq<Entry>): seq<Item> {
    if out == [] then []
    else ItemsOfEntries(out[..|out| - 1]) + ItemsOfEntry(out[|out| - 1])
  }

  function ToolsOfEntries(out: seq<Entry>): seq<Call> {
    if out == [] then []
    else
      var last := out[|out| - 1];
      ToolsOfEntries(out[..|out| - 1]) + if last.ToolEntry? then [last.call] else []
  }

  function AnswersOfEntries(out: seq<Entry>): seq<Answer> {
    if out == [] then []
    else
      var last := out[|out| - 1];
      AnswersOfEntries(out[..|out| - 1]) +
      if last.ToolEntry? && last.output.Some? then [Answer(last.call, last.output.value)] else []
  }

  ghost predicate Numbered(out: seq<Entry>) {
    forall i :: 0 <= i < |out| ==> out[i].id.number == i + 1
  }

  /** `order` lists the keys of `tools`, each once, and every call waits under its own id. */
  ghost predicate Lists(order: seq<CallId>, tools: map<CallId, Call>) {
    && Distinct(order)
    && (forall id :: id in order <==> id in tools)
    && (forall id :: id in tools ==> tools[id].callId == id && id != "")
  }

  ghost predicate Valid(s: State) {
    Lists(s.toolOrder, s.pendingTools) && Numbered(s.out) && s.entryNo == |s.out|
  }

  function Waiting(order: seq<CallId>, tools: map<CallId, Call>): (calls: seq<Call>)
    requires forall id :: id in order ==> id in tools
  {
    seq(|order|, i requires 0 <= i < |order| => tools[order[i]])
  }

  // ---- The transcript as a value ----

  function WithEntry(s: State, e: Entry): State {
    s.(out := s.out + [e], entryNo := s.entryNo + 1)
  }

  function NextId(s: State, at: int): EntryId { EntryId(at, s.entryNo + 1) }

  function TextFlushed(s: State): State {
    if s.pendingText == [] then s
    else WithEntry(s, AssistantEntry(NextId(s, s.textAt), s.pendingText)).(pendingText := [])
  }

  /** One entry without output for each waiting call, in the order the calls arrived. */
  function Unanswered(order: seq<CallId>, tools: map<CallId, Call>, entryNo: nat): (entries: seq<Entry>)
    requires forall id :: id in order ==> id in tools
    ensures |entries| == |order|
  {
    seq(|order|, i requires 0 <= i < |order| =>
      ToolEntry(EntryId(tools[order[i]].at, entryNo + i + 1), tools[order[i]], None))
  }

  function ToolsFlushed(s: State): State
    requires forall id :: id in s.toolOrder ==> id in s.pendingTools
  {
    s.(out := s.out + Unanswered(s.toolOrder, s.pendingTools, s.entryNo),
       entryNo := s.entryNo + |s.toolOrder|, pendingTools := map[], toolOrder := [])
  }

  function AllFlushed(s: State): State
    requires forall id :: id in s.toolOrder ==> id in s.pendingTools
  {
    ToolsFlushed(TextFlushed(s))
  }

  function BlockAdded(s: State, at: int, block: Block): State {
    match block
    case Text(text) =>
      s.(pendingText := s.pendingText + [text], textAt := if s.pendingText == [] then at else s.textAt)
    case Reasoning(text) =>
      var flushed := TextFlushed(s);
      WithEntry(flushed, ThinkingEntry(NextId(flushed, at), text))
    case OtherBlock => s
  }

  function BlocksAdded(s: State, at: int, blocks: seq<Block>): State {
    if blocks == [] then s
    else BlockAdded(BlocksAdded(s, at, blocks[..|blocks| - 1]), at, blocks[|blocks| - 1])
  }

  function CallAdded(s: State, call: Call): State {
    var flushed := TextFlushed(s);
    if call.callId == "" then flushed
    else flushed.(
      toolOrder := if call.callId in s.pendingTools then s.toolOrder else s.toolOrder + [call.callId],
      pendingTools := s.pendingTools[call.callId := call])
  }

  /** `order` without its first occurrence of `id`. */
  function Without(order: seq<CallId>, id: CallId): seq<CallId> {
    if order == [] then []
    else if order[0] == id then order[1..]
    else [order[0]] + Without(order[1..], id)
  }

  function ResultAdded(s: State, callId: CallId, output: ToolOutput): State {
    if callId == "" || callId !in s.pendingTools then s
    else
      var call := s.pendingTools[callId];
      WithEntry(s, ToolEntry(NextId(s, call.at), call, Some(output))).(
        pendingTools := s.pendingTools - {callId}, toolOrder := Without(s.toolOrder, callId))
  }

  function Step(s: State, e: Event): State
    requires forall id :: id in s.toolOrder ==> id in s.pendingTools
  {
    match e
    case UserMessage(at, content) =>
      var flushed := AllFlushed(s);
      WithEntry(flushed, UserEntry(NextId(flushed, at), content))
    case AssistantMessage(at, blocks) => BlocksAdded(s, at, blocks)
    case ToolCall(call) => CallAdded(s, call)
    case ToolResult(callId, output) => ResultAdded(s, callId, output)
    case TurnEnd => AllFlushed(s)
    case CompactionSummary(at, summary) =>
      var flushed := AllFlushed(s);
      WithEntry(flushed, CompactionEntry(NextId(flushed, at), summary))
    case Unrecognised => s
  }

  // ---- What every step keeps ----

  /** All that has been said, whether it is in an entry already or still gathered. */
  function ItemsOf(s: State): seq<Item> { ItemsOfEntries(s.out) + Saying(s.pendingText) }

  /** All calls, whether they have an entry already or still wait. */
  function ToolsOf(s: State): multiset<Call>
    requires forall id :: id in s.toolOrder ==> id in s.pendingTools
  {
    multiset(ToolsOfEntries(s.out)) + multiset(Waiting(s.toolOrder, s.pendingTools))
  }

  lemma OneMoreEntry(out: seq<Entry>, e: Entry)
    ensures ItemsOfEntries(out + [e]) == ItemsOfEntries(out) + ItemsOfEntry(e)
    ensures ToolsOfEntries(out + [e]) == ToolsOfEntries(out) + if e.ToolEntry? then [e.call] else []
    ensures AnswersOfEntries(out + [e]) ==
      AnswersOfEntries(out) + if e.ToolEntry? && e.output.Some? then [Answer(e.call, e.output.value)] else []
  {
    assert (out + [e])[..|out|] == out;
  }

  lemma FlushingText(s: State)
    requires Valid(s)
    ensures
      var t := TextFlushed(s);
      && Valid(t) && t.pendingText == [] && t.pendingTools == s.pendingTools && t.toolOrder == s.toolOrder
      && ItemsOf(t) == ItemsOf(s)
      && ToolsOfEntries(t.out) == ToolsOfEntries(s.out) && AnswersOfEntries(t.out) == AnswersOfEntries(s.out)
  {
    var e := AssistantEntry(NextId(s, s.textAt), s.pendingText);
    OneMoreEntry(s.out, e);
    assert ItemsOfEntries(s.out + [e]) + [] == ItemsOfEntries(s.out) + Saying(s.pendingText);
  }

  lemma UnansweredSplits(order: seq<CallId>, tools: map<CallId, Call>, entryNo: nat)
    requires order != [] && forall id :: id in order ==> id in tools
    ensures
      var front, last := order[..|order| - 1], tools[order[|order| - 1]];
      && Unanswered(order, tools, entryNo) ==
         Unanswered(front, tools, entryNo) + [ToolEntry(EntryId(last.at, entryNo + |order|), last, None)]
      && Waiting(order, tools) == Waiting(front, tools) + [last]
  {
  }

  lemma {:induction false} UnansweredEntries(
      out: seq<Entry>, order: seq<CallId>, tools: map<CallId, Call>, entryNo: nat)
    requires forall id :: id in order ==> id in tools
    ensures
      var all := out + Unanswered(order, tools, entryNo);
      && ItemsOfEntries(all) == ItemsOfEntries(out)
      && ToolsOfEntries(all) == ToolsOfEntries(out) + Waiting(order, tools)
      && AnswersOfEntries(all) == AnswersOfEntries(out)
    decreases |order|
  {
    if order == [] {
      assert out + Unanswered(order, tools, entryNo) == out;
      assert ToolsOfEntries(out) + Waiting(order, tools) == ToolsOfEntries(out);
    } else {
      var front, last := order[..|order| - 1], tools[order[|order| - 1]];
      UnansweredEntries(out, front, tools, entryNo);
      UnansweredSplits(order, tools, entryNo);
      UnansweredEntry(out + Unanswered(front, tools, entryNo), EntryId(last.at, entryNo + |order|), last);
      Associates(out, Unanswered(front, tools, entryNo), [ToolEntry(EntryId(last.at, entryNo + |order|), last, None)]);
      Associates(ToolsOfEntries(out), Waiting(front, tools), [last]);
    }
  }

  lemma UnansweredEntry(out: seq<Entry>, id: EntryId, call: Call)
    ensures
      var all := out + [ToolEntry(id, call, None)];
      && ItemsOfEntries(all) == ItemsOfEntries(out)
      && ToolsOfEntries(all) == ToolsOfEntries(out) + [call]
      && AnswersOfEntries(all) == AnswersOfEntries(out)
  {
    OneMoreEntry(out, ToolEntry(id, call, None));
  }

  lemma FlushingTools(s: State)
    requires Valid(s) && s.pendingText == []
    ensures
      var t := ToolsFlushed(s);
      && Valid(t) && t.pendingText == [] && t.pendingTools == map[]
      && ItemsOf(t) == ItemsOf(s) && ToolsOf(t) == ToolsOf(s)
      && AnswersOfEntries(t.out) == AnswersOfEntries(s.out)
  {
    UnansweredEntries(s.out, s.toolOrder, s.pendingTools, s.entryNo);
  }

  lemma FlushingAll(s: State)
    requires Valid(s)
    ensures
      var t := AllFlushed(s);
      && Valid(t) && t.pendingText == [] && t.pendingTools == map[]
      && ItemsOf(t) == ItemsOf(s) && ToolsOf(t) == ToolsOf(s)
      && AnswersOfEntries(t.out) == AnswersOfEntries(s.out)
  {
    FlushingText(s);
    FlushingTools(TextFlushed(s));
  }

  /** Adding an entry when nothing is gathered appends what the entry says. */
  lemma AddingEntry(s: State, e: Entry)
    requires Valid(s) && s.pendingText == [] && e.id.number == s.entryNo + 1 && !e.ToolEntry?
    ensures
      var t := WithEntry(s, e);
      && Valid(t) && ItemsOf(t) == ItemsOf(s) + ItemsOfEntry(e)
      && ToolsOf(t) == ToolsOf(s) && AnswersOfEntries(t.out) == AnswersOfEntries(s.out)
  {
    OneMoreEntry(s.out, e);
    assert Saying([]) == [];
    assert ToolsOfEntries(s.out + [e]) == ToolsOfEntries(s.out);
    assert AnswersOfEntries(s.out + [e]) == AnswersOfEntries(s.out);
  }

  /** An event that ends a turn releases everything and then adds its own entry. */
  lemma EndingTurn(s: State, e: Entry)
    requires Valid(s) && e.id.number == AllFlushed(s).entryNo + 1 && !e.ToolEntry?
    ensures
      var t := WithEntry(AllFlushed(s), e);
      && Valid(t) && t.pendingTools == map[] && ItemsOf(t) == ItemsOf(s) + ItemsOfEntry(e)
      && ToolsOf(t) == ToolsOf(s) && AnswersOfEntries(t.out) == AnswersOfEntries(s.out)
  {
    FlushingAll(s);
    AddingEntry(AllFlushed(s), e);
  }

  lemma AddingText(s: State, at: int, text: string)
    requires Valid(s)
    ensures
      var t := BlockAdded(s, at, Text(text));
      Valid(t) && ItemsOf(t) == ItemsOf(s) + [Said(text)]
  {
    assert Saying(s.pendingText + [text]) == Saying(s.pendingText) + [Said(text)];
    Associates(ItemsOfEntries(s.out), Saying(s.pendingText), [Said(text)]);
  }

  lemma AddingThought(s: State, at: int, text: string)
    requires Valid(s)
    ensures
      var t := BlockAdded(s, at, Reasoning(text));
      && Valid(t) && t.pendingTools == s.pendingTools && t.toolOrder == s.toolOrder
      && ItemsOf(t) == ItemsOf(s) + [Thought(at, text)]
      && ToolsOf(t) == ToolsOf(s) && AnswersOfEntries(t.out) == AnswersOfEntries(s.out)
  {
    FlushingText(s);
    var flushed := TextFlushed(s);
    AddingEntry(flushed, ThinkingEntry(NextId(flushed, at), text));
  }

  lemma AddingBlock(s: State, at: int, block: Block)
    requires Valid(s)
    ensures
      var t := BlockAdded(s, at, block);
      && Valid(t) && t.pendingTools == s.pendingTools && t.toolOrder == s.toolOrder
      && ItemsOf(t) == ItemsOf(s) + ItemsOfBlock(at, block)
      && ToolsOf(t) == ToolsOf(s) && AnswersOfEntries(t.out) == AnswersOfEntries(s.out)
  {
    match block
    case Text(text) => AddingText(s, at, text);
    case Reasoning(text) => AddingThought(s, at, text);
    case OtherBlock =>
  }

  lemma {:induction false} AddingBlocks(s: State, at: int, blocks: seq<Block>)
    requires Valid(s)
    ensures
      var t := BlocksAdded(s, at, blocks);
      && Valid(t) && t.pendingTools == s.pendingTools && t.toolOrder == s.toolOrder
      && ItemsOf(t) == ItemsOf(s) + ItemsOfBlocks(at, blocks)
      && ToolsOf(t) == ToolsOf(s) && AnswersOfEntries(t.out) == AnswersOfEntries(s.out)
    decreases |blocks|
  {
    if blocks != [] {
      var front, last := blocks[..|blocks| - 1], blocks[|blocks| - 1];
      AddingBlocks(s, at, front);
      AddingBlock(BlocksAdded(s, at, front), at, last);
      Associates(ItemsOf(s), ItemsOfBlocks(at, front), ItemsOfBlock(at, last));
    }
  }

  lemma ReplacedAt<T>(s: seq<T>, k: nat, x: T)
    requires k < |s|
    ensures multiset(s[k := x]) + multiset{s[k]} == multiset(s) + multiset{x}
  {
    assert s[k := x] == s[..k] + [x] + s[k + 1..];
    assert s == s[..k] + [s[k]] + s[k + 1..];
  }

  lemma RemovedAt<T>(s: seq<T>, k: nat)
    requires k < |s|
    ensures multiset(s[..k] + s[k + 1..]) + multiset{s[k]} == multiset(s)
  {
    assert s == s[..k] + [s[k]] + s[k + 1..];
  }

  lemma ReplacingWaiting(order: seq<CallId>, tools: map<CallId, Call>, call: Call)
    requires Lists(order, tools) && call.callId in tools && call.callId != ""
    ensures Lists(order, tools[call.callId := call])
    ensures multiset(Waiting(order, tools[call.callId := call])) + multiset{tools[call.callId]} ==
      multiset(Waiting(order, tools)) + multiset{call}
  {
    var k :| 0 <= k < |order| && order[k] == call.callId;
    var before := Waiting(order, tools);
    ReplacedAt(before, k, call);
    assert Waiting(order, tools[call.callId := call]) == before[k := call];
  }

  lemma AppendingWaiting(order: seq<CallId>, tools: map<CallId, Call>, call: Call)
    requires Lists(order, tools) && call.callId !in tools && call.callId != ""
    ensures Lists(order + [call.callId], tools[call.callId := call])
    ensures multiset(Waiting(order + [call.callId], tools[call.callId := call])) ==
      multiset(Waiting(order, tools)) + multiset{call}
  {
    assert call.callId !in order;
    forall i | 0 <= i < |order|
      ensures tools[call.callId := call][order[i]] == tools[order[i]]
    {
      assert order[i] in order;
    }
    assert Waiting(order + [call.callId], tools[call.callId := call]) == Waiting(order, tools) + [call];
  }

  lemma AddingCall(s: State, call: Call)
    requires Valid(s)
    ensures
      var t := CallAdded(s, call);
      && Valid(t)
      && t.pendingTools == (if call.callId == "" then s.pendingTools else s.pendingTools[call.callId := call])
      && ItemsOf(t) == ItemsOf(s) && AnswersOfEntries(t.out) == AnswersOfEntries(s.out)
  {
    FlushingText(s);
    if call.callId == "" {
    } else if call.callId in s.pendingTools {
      ReplacingWaiting(s.toolOrder, s.pendingTools, call);
    } else {
      AppendingWaiting(s.toolOrder, s.pendingTools, call);
    }
  }

  lemma SharesAdd<T>(a: multiset<T>, b: multiset<T>, c: multiset<T>, x: multiset<T>, y: multiset<T>)
    requires b + x == c + y
    ensures a + b + x == a + c + y
  {
    assert a + b + x == a + (b + x);
    assert a + c + y == a + (c + y);
  }

  lemma AddingNewCall(s: State, call: Call)
    requires Valid(s) && Valid(CallAdded(s, call)) && call.callId != "" && call.callId !in s.pendingTools
    ensures ToolsOf(CallAdded(s, call)) == ToolsOf(s) + multiset{call}
  {
    FlushingText(s);
    AppendingWaiting(s.toolOrder, s.pendingTools, call);
    SharesAdd(multiset(ToolsOfEntries(s.out)),
      multiset(Waiting(s.toolOrder + [call.callId], s.pendingTools[call.callId := call])),
      multiset(Waiting(s.toolOrder, s.pendingTools)), multiset{}, multiset{call});
  }

  lemma AddingReusedCall(s: State, call: Call)
    requires Valid(s) && Valid(CallAdded(s, call)) && call.callId != "" && call.callId in s.pendingTools
    ensures ToolsOf(CallAdded(s, call)) + multiset{s.pendingTools[call.callId]} == ToolsOf(s) + multiset{call}
  {
    FlushingText(s);
    ReplacingWaiting(s.toolOrder, s.pendingTools, call);
    SharesAdd(multiset(ToolsOfEntries(s.out)),
      multiset(Waiting(s.toolOrder, s.pendingTools[call.callId := call])),
      multiset(Waiting(s.toolOrder, s.pendingTools)), multiset{s.pendingTools[call.callId]}, multiset{call});
  }

  lemma {:induction false} WithoutIsRemoval(order: seq<CallId>, id: CallId) returns (k: nat)
    requires id in order
    ensures k < |order| && order[k] == id
    ensures Without(order, id) == order[..k] + order[k + 1..]
    decreases |order|
  {
    if order[0] == id {
      k := 0;
    } else {
      var j := WithoutIsRemoval(order[1..], id);
      k := j + 1;
    }
  }

  lemma RemovalKeepsLists(order: seq<CallId>, tools: map<CallId, Call>, k: nat)
    requires Lists(order, tools) && k < |order|
    ensures Lists(order[..k] + order[k + 1..], tools - {order[k]})
  {
    var rest := order[..k] + order[k + 1..];
    forall id ensures id in rest <==> id in order && id != order[k] {
      if id in order && id != order[k] {
        var j :| 0 <= j < |order| && order[j] == id;
        assert rest[if j < k then j else j - 1] == id;
      }
    }
  }

  lemma WaitingWithout(order: seq<CallId>, tools: map<CallId, Call>, k: nat)
    requires Lists(order, tools) && k < |order|
    requires Lists(order[..k] + order[k + 1..], tools - {order[k]})
    ensures
      var before := Waiting(order, tools);
      Waiting(order[..k] + order[k + 1..], tools - {order[k]}) == before[..k] + before[k + 1..]
  {
  }

  lemma RemovingWaiting(order: seq<CallId>, tools: map<CallId, Call>, id: CallId)
    requires Lists(order, tools) && id in tools
    ensures Lists(Without(order, id), tools - {id})
    ensures multiset(Waiting(Without(order, id), tools - {id})) + multiset{tools[id]} ==
      multiset(Waiting(order, tools))
  {
    var k := WithoutIsRemoval(order, id);
    RemovalKeepsLists(order, tools, k);
    WaitingWithout(order, tools, k);
    RemovedAt(Waiting(order, tools), k);
  }

  lemma AddingResult(s: State, callId: CallId, output: ToolOutput)
    requires Valid(s)
    ensures
      var t := ResultAdded(s, callId, output);
      && Valid(t)
      && ItemsOf(t) == ItemsOf(s) && ToolsOf(t) == ToolsOf(s)
      && (callId !in s.pendingTools ==> t == s)
      && (callId in s.pendingTools ==>
        && t.pendingTools == s.pendingTools - {callId}
        && AnswersOfEntries(t.out) == AnswersOfEntries(s.out) + [Answer(s.pendingTools[callId], output)])
  {
    if callId in s.pendingTools {
      var call := s.pendingTools[callId];
      var e := ToolEntry(NextId(s, call.at), call, Some(output));
      OneMoreEntry(s.out, e);
      assert ItemsOfEntries(s.out + [e]) == ItemsOfEntries(s.out);
      RemovingWaiting(s.toolOrder, s.pendingTools, callId);
    }
  }
}
