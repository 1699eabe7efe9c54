/**
  Following a terminal log that only grows.  Batch tasks are read line by line,
  interactive ones in windows of bytes that never end inside a character.
 */
module LogPolling {
  import opened Utf8

  const NEWLINE: Byte := 10
  const CARRIAGE_RETURN: Byte := 13

  // ---- Lines ----

  /** One trailing newline, then one trailing carriage return. */
  function Trimmed(line: Bytes): Bytes {
    var body := if line != [] && line[|line| - 1] == NEWLINE then line[..|line| - 1] else line;
    if body != [] && body[|body| - 1] == CARRIAGE_RETURN then body[..|body| - 1] else body
  }

  /** Where the line that starts at `i` ends: after its newline, or at `j`. */
  function LineEnd(s: Bytes, i: nat, j: nat): (e: nat)
    requires i < j <= |s|
    ensures i < e <= j
    ensures forall k :: i <= k < e - 1 ==> s[k] != NEWLINE
    ensures e < j ==> s[e - 1] == NEWLINE
    decreases j - i
  {
    if s[i] == NEWLINE || i + 1 == j then i + 1 else LineEnd(s, i + 1, j)
  }

  /** The lines of `s` between `i` and `j`; text after the last newline is a line of its own. */
  function LinesIn(s: Bytes, i: nat, j: nat): (lines: seq<Bytes>)
    requires i <= j <= |s|
    decreases j - i
  {
    if i == j then []
    else
      var e := LineEnd(s, i, j);
      [Trimmed(s[i..e])] + LinesIn(s, e, j)
  }

  // ---- What the lines are ----

  /** The lines with their ends put back. */
  function Woven(lines: seq<Bytes>, ends: seq<Bytes>): Bytes
    requires |lines| == |ends|
  {
    if lines == [] then [] else lines[0] + ends[0] + Woven(lines[1..], ends[1..])
  }

  /** A line has no newline in it, and a carriage return at its end belongs to the end. */
  ghost predicate EndsWith(line: Bytes, end: Bytes) {
    && NEWLINE !in line
    && (end == [] || end == [NEWLINE] || end == [CARRIAGE_RETURN] || end == [CARRIAGE_RETURN, NEWLINE])
    && (CARRIAGE_RETURN !in end && line != [] ==> line[|line| - 1] != CARRIAGE_RETURN)
  }

  /** `text` is these lines with their ends; every line but the last is ended by a newline. */
  ghost predicate AreLinesOf(lines: seq<Bytes>, ends: seq<Bytes>, text: Bytes) {
    && |lines| == |ends| && Woven(lines, ends) == text
    && (forall k :: 0 <= k < |lines| ==> EndsWith(lines[k], ends[k]))
    && (forall k :: 0 <= k < |lines| ==> lines[k] + ends[k] != [])
    && forall k :: 0 <= k < |lines| - 1 ==> NEWLINE in ends[k]
  }

  ghost predicate AreLines(lines: seq<Bytes>, text: Bytes) {
    exists ends :: AreLinesOf(lines, ends, text)
  }

  lemma TrimmedEnd(piece: Bytes) returns (end: Bytes)
    requires piece != [] && forall k :: 0 <= k < |piece| - 1 ==> piece[k] != NEWLINE
    ensures piece == Trimmed(piece) + end && EndsWith(Trimmed(piece), end)
    ensures piece[|piece| - 1] == NEWLINE ==> NEWLINE in end
  {
    var body := if piece[|piece| - 1] == NEWLINE then piece[..|piece| - 1] else piece;
    var newline := if piece[|piece| - 1] == NEWLINE then [NEWLINE] else [];
    assert piece == body + newline;
    if body != [] && body[|body| - 1] == CARRIAGE_RETURN {
      end := [CARRIAGE_RETURN] + newline;
      assert body == Trimmed(piece) + [CARRIAGE_RETURN];
    } else {
      end := newline;
    }
  }

  lemma OneMoreLine(line: Bytes, end: Bytes, lines: seq<Bytes>, text: Bytes)
    requires EndsWith(line, end) && line + end != [] && AreLines(lines, text)
    requires lines != [] ==> NEWLINE in end
    ensures AreLines([line] + lines, line + end + text)
  {
    var ends :| AreLinesOf(lines, ends, text);
    assert ([line] + lines)[1..] == lines && ([end] + ends)[1..] == ends;
    assert AreLinesOf([line] + lines, [end] + ends, line + end + text);
  }

  lemma FirstPiece(s: Bytes, i: nat, j: nat) returns (e: nat, piece: Bytes)
    requires i < j <= |s|
    ensures i < e <= j && piece != [] && s[i..j] == piece + s[e..j]
    ensures LinesIn(s, i, j) == [Trimmed(piece)] + LinesIn(s, e, j)
    ensures forall k :: 0 <= k < |piece| - 1 ==> piece[k] != NEWLINE
    ensures e < j ==> piece[|piece| - 1] == NEWLINE
  {
    e := LineEnd(s, i, j);
    piece := s[i..e];
  }

  /** What the polls call the lines of a text are its lines. */
  lemma {:induction false} LinesAreLines(s: Bytes, i: nat, j: nat)
    requires i <= j <= |s|
    ensures AreLines(LinesIn(s, i, j), s[i..j])
    decreases j - i
  {
    if i == j {
      assert AreLinesOf([], [], s[i..j]);
    } else {
      var e, piece := FirstPiece(s, i, j);
      var end := TrimmedEnd(piece);
      LinesAreLines(s, e, j);
      OneMoreLine(Trimmed(piece), end, LinesIn(s, e, j), s[e..j]);
    }
  }

  predicate AtLineStart(s: Bytes, i: nat)
    requires i <= |s|
  {
    i == 0 || s[i - 1] == NEWLINE
  }

  /** Cutting after a newline cuts the lines there too. */
  lemma {:induction false} LinesConcat(s: Bytes, i: nat, j: nat, k: nat)
    requires i <= j <= k <= |s| && (i < j ==> s[j - 1] == NEWLINE)
    ensures LinesIn(s, i, k) == LinesIn(s, i, j) + LinesIn(s, j, k)
    decreases j - i
  {
    if i < j {
      var e := LineEnd(s, i, j);
      assert e == LineEnd(s, i, k);
      LinesConcat(s, e, j, k);
    }
  }

  /** One more piece of the file is one more line. */
  lemma NextLine(s: Bytes, from: nat, next: nat)
    requires from <= next < |s| && (from < next ==> s[next - 1] == NEWLINE)
    ensures var end := LineEnd(s, next, |s|);
            LinesIn(s, from, end) == LinesIn(s, from, next) + [Trimmed(s[next..end])]
  {
    var end := LineEnd(s, next, |s|);
    LinesConcat(s, from, next, end);
    assert LineEnd(s, next, end) == end && LinesIn(s, end, end) == [];
  }

  /** Lines already written do not change when the file grows. */
  lemma {:induction false} LinesOfPrefix(a: Bytes, b: Bytes, i: nat, j: nat)
    requires i <= j <= |a| <= |b| && a == b[..|a|]
    ensures LinesIn(a, i, j) == LinesIn(b, i, j)
    decreases j - i
  {
    if i < j {
      var e := LineEnd(a, i, j);
      assert e == LineEnd(b, i, j);
      assert a[i..e] == b[i..e];
      LinesOfPrefix(a, b, e, j);
    }
  }

  // ---- Batch polling ----

  ghost predicate NoNewlineFrom(s: Bytes, i: nat) {
    forall k :: i <= k < |s| ==> s[k] != NEWLINE
  }

  lemma LastPiece(s: Bytes, i: nat)
    requires i < |s| && s[LineEnd(s, i, |s|) - 1] != NEWLINE
    ensures LineEnd(s, i, |s|) == |s| && NoNewlineFrom(s, i)
  {
  }

  /** An offset beyond the file means the log was truncated for a new round. */
  function StartOf(file: Bytes, offset: nat): nat {
    if offset > |file| then 0 else offset
  }

  ghost predicate BatchRead(file: Bytes, offset: nat, flushTail: bool, lines: seq<Bytes>, next: nat) {
    var from := StartOf(file, offset);
    && from <= next <= |file|
    && lines == LinesIn(file, from, next)
    && (if flushTail then next == |file| else (next > from ==> AtLineStart(file, next)) && NoNewlineFrom(file, next))
  }

  /** All complete lines from the offset on, and with `flushTail` the unfinished one too. */
  method ReadBatch(file: Bytes, offset: nat, flushTail: bool) returns (lines: seq<Bytes>, next: nat)
    ensures BatchRead(file, offset, flushTail, lines, next)
    ensures AreLines(lines, file[StartOf(file, offset)..next])
  {
    var from := StartOf(file, offset);
    lines, next := [], from;
    while next < |file|
      invariant from <= next <= |file| && lines == LinesIn(file, from, next)
      invariant next > from ==> AtLineStart(file, next)
    {
      var end := LineEnd(file, next, |file|);
      if file[end - 1] != NEWLINE { LastPiece(file, next); }
      if file[end - 1] != NEWLINE && !flushTail { break; }
      NextLine(file, from, next);
      lines := lines + [Trimmed(file[next..end])];
      next := end;
      if file[end - 1] != NEWLINE { break; }
    }
    assert AreLines(lines, file[from..next]) by { LinesAreLines(file, from, next); }
  }

  datatype BatchLog = BatchLog(file: Bytes, offset: nat, emitted: seq<Bytes>)

  ghost predicate BatchStep(a: BatchLog, b: BatchLog) {
    || (a.file <= b.file && b.offset == a.offset && b.emitted == a.emitted)
    || (b.file == a.file && exists lines ::
          BatchRead(a.file, a.offset, false, lines, b.offset) && b.emitted == a.emitted + lines)
  }

  ghost predicate BatchInv(log: BatchLog) {
    && log.offset <= |log.file| && AtLineStart(log.file, log.offset)
    && log.emitted == LinesIn(log.file, 0, log.offset)
  }

  lemma BatchStepKeepsInv(a: BatchLog, b: BatchLog)
    requires BatchInv(a) && BatchStep(a, b)
    ensures BatchInv(b)
  {
    if a.file <= b.file && b.offset == a.offset && b.emitted == a.emitted {
      LinesOfPrefix(a.file, b.file, 0, a.offset);
    } else {
      LinesConcat(a.file, 0, a.offset, b.offset);
    }
  }

  /**
    Any sequence of appends and polls that ends in one flushing poll emits exactly
    the lines of the final file, each once, and leaves the offset at its end.
   */
  lemma {:induction false} BatchPollingEmitsEveryLine(run: seq<BatchLog>, lines: seq<Bytes>, next: nat)
    requires run != [] && run[0].offset == 0 && run[0].emitted == []
    requires forall i :: 0 <= i < |run| - 1 ==> BatchStep(run[i], run[i + 1])
    requires var last := run[|run| - 1]; BatchRead(last.file, last.offset, true, lines, next)
    ensures var last := run[|run| - 1];
            && next == |last.file| && last.emitted + lines == LinesIn(last.file, 0, |last.file|)
            && AreLines(last.emitted + lines, last.file)
  {
    var last := run[|run| - 1];
    BatchRunKeepsInv(run, |run| - 1);
    LinesConcat(last.file, 0, last.offset, |last.file|);
    LinesAreLines(last.file, 0, |last.file|);
    assert last.file[0..|last.file|] == last.file;
  }

  lemma {:induction false} BatchRunKeepsInv(run: seq<BatchLog>, k: nat)
    requires k < |run| && run[0].offset == 0 && run[0].emitted == []
    requires forall i :: 0 <= i < |run| - 1 ==> BatchStep(run[i], run[i + 1])
    ensures BatchInv(run[k])
  {
    if k > 0 {
      BatchRunKeepsInv(run, k - 1);
      assert BatchStep(run[k - 1], run[k - 1 + 1]);
      BatchStepKeepsInv(run[k - 1], run[k]);
    }
  }

  // ---- Interactive polling ----

  const WINDOW: nat := 262144

  function WindowOf(file: Bytes, from: nat): Bytes
    requires from <= |file|
  {
    if from + WINDOW < |file| then file[from..from + WINDOW] else file[from..]
  }

  /** The longest valid prefix that holds back `trim` to three bytes. */
  function ValidPrefix(data: Bytes, trim: nat): (n: int)
    ensures n >= 0 ==> n <= |data| && |data| - n <= 3 && Valid(data[..n])
    decreases 4 - trim
  {
    if trim >= 4 || trim > |data| then -1
    else if Valid(data[..|data| - trim]) then |data| - trim
    else ValidPrefix(data, trim + 1)
  }

  datatype Chunk = Chunk(content: Bytes, consumed: nat)

  function ChunkOf(data: Bytes, flushTail: bool): (c: Chunk)
    ensures c.consumed <= |data|
  {
    if Valid(data) then Chunk(data, |data|)
    else
      var n := ValidPrefix(data, 1);
      if n >= 0 && !flushTail then Chunk(data[..n], n) else Chunk(ToValid(data, false), |data|)
  }

  method ReadInteractive(file: Bytes, offset: nat, flushTail: bool) returns (chunks: seq<Bytes>, next: nat)
    ensures var from := StartOf(file, offset);
            var c := ChunkOf(WindowOf(file, from), flushTail);
            next == from + c.consumed && chunks == if c.consumed == 0 then [] else [c.content]
  {
    var from := StartOf(file, offset);
    var data := WindowOf(file, from);
    if |data| == 0 { return [], from; }
    var consumed, content := |data|, data;
    if !Valid(data) {
      var validPrefix := -1;
      var trim := 1;
      while trim < 4 && trim <= |data| && validPrefix < 0
        invariant trim >= 1
        invariant ValidPrefix(data, 1) == if validPrefix >= 0 then validPrefix else ValidPrefix(data, trim)
      {
        if Valid(data[..|data| - trim]) { validPrefix := |data| - trim; }
        trim := trim + 1;
      }
      if validPrefix >= 0 && !flushTail {
        consumed, content := validPrefix, data[..validPrefix];
      } else {
        content := ToValid(data, false);
      }
    }
    if consumed == 0 { return [], from; }
    return [content], from + consumed;
  }

  /** Whatever the bytes are, a chunk handed to the database is well-formed text. */
  lemma ChunkIsText(data: Bytes, flushTail: bool)
    ensures Valid(ChunkOf(data, flushTail).content)
  {
    ToValidIsValid(data, false);
  }

  lemma {:induction false} ValidPrefixFinds(data: Bytes, trim: nat, k: nat)
    requires trim <= k <= 3 && k <= |data| && Valid(data[..|data| - k])
    ensures ValidPrefix(data, trim) >= 0
    decreases 4 - trim
  {
    if !Valid(data[..|data| - trim]) { ValidPrefixFinds(data, trim + 1, k); }
  }

  /** On text that may still grow, a poll passes on what it reads and holds back at most three bytes. */
  lemma TextWindow(data: Bytes)
    requires IsTextPrefix(data)
    ensures var c := ChunkOf(data, false);
            && c.content == data[..c.consumed]
            && |data| - c.consumed <= 3
            && (|data| > 3 ==> c.consumed > 0)
  {
    var rest :| Valid(data + rest);
    var k := CutLeavesAtMostThree(data, rest);
    assert data[..|data|] == data;
    if !Valid(data) { ValidPrefixFinds(data, 1, k); }
  }

  datatype InteractiveLog = InteractiveLog(file: Bytes, offset: nat, chunks: seq<Bytes>)

  datatype Event = Append(more: Bytes) | Poll

  function Step(log: InteractiveLog, event: Event): InteractiveLog {
    match event
    case Append(more) => log.(file := log.file + more)
    case Poll =>
      var from := StartOf(log.file, log.offset);
      var c := ChunkOf(WindowOf(log.file, from), false);
      InteractiveLog(log.file, from + c.consumed, if c.consumed == 0 then log.chunks else log.chunks + [c.content])
  }

  function Run(log: InteractiveLog, events: seq<Event>): InteractiveLog
    decreases |events|
  {
    if events == [] then log else Run(Step(log, events[0]), events[1..])
  }

  function Joined(chunks: seq<Bytes>): Bytes {
    if chunks == [] then [] else Joined(chunks[..|chunks| - 1]) + chunks[|chunks| - 1]
  }

  ghost predicate InteractiveInv(log: InteractiveLog) {
    && log.offset <= |log.file|
    && Joined(log.chunks) == log.file[..log.offset]
    && Valid(log.file[..log.offset])
    && forall c :: c in log.chunks ==> Valid(c)
  }

  lemma TextPrefixOfPrefix(a: Bytes, b: Bytes)
    requires a <= b && IsTextPrefix(b)
    ensures IsTextPrefix(a)
  {
    var rest :| Valid(b + rest);
    assert a + (b[|a|..] + rest) == b + rest;
  }

  /** What is left of growing text after a valid part is growing text. */
  lemma TextAfterValid(file: Bytes, from: nat, to: nat)
    requires from <= to <= |file| && Valid(file[..from]) && IsTextPrefix(file)
    ensures IsTextPrefix(file[from..to])
  {
    var rest :| Valid(file + rest);
    assert file + rest == file[..from] + (file[from..] + rest);
    ValidCancel(file[..from], file[from..] + rest);
    TextPrefixOfPrefix(file[from..to], file[from..]);
  }

  lemma NextChunk(file: Bytes, offset: nat) returns (c: Chunk)
    requires offset <= |file| && Valid(file[..offset]) && IsTextPrefix(file)
    ensures c == ChunkOf(WindowOf(file, offset), false)
    ensures offset + c.consumed <= |file| && |c.content| == c.consumed
    ensures file[..offset + c.consumed] == file[..offset] + c.content
    ensures Valid(c.content)
  {
    var data := WindowOf(file, offset);
    assert data == file[offset..offset + |data|];
    TextAfterValid(file, offset, offset + |data|);
    TextWindow(data);
    ChunkIsText(data, false);
    c := ChunkOf(data, false);
  }

  lemma PollKeepsInv(log: InteractiveLog)
    requires InteractiveInv(log) && IsTextPrefix(log.file)
    ensures InteractiveInv(Step(log, Poll))
  {
    var c := NextChunk(log.file, log.offset);
    ValidConcat(log.file[..log.offset], c.content);
    if c.consumed > 0 {
      assert (log.chunks + [c.content])[..|log.chunks|] == log.chunks;
    }
  }

  lemma AppendKeepsInv(log: InteractiveLog, more: Bytes)
    requires InteractiveInv(log)
    ensures InteractiveInv(Step(log, Append(more)))
  {
    assert (log.file + more)[..log.offset] == log.file[..log.offset];
  }

  lemma {:induction false} RunGrowsFile(log: InteractiveLog, events: seq<Event>)
    ensures log.file <= Run(log, events).file
    decreases |events|
  {
    if events != [] { RunGrowsFile(Step(log, events[0]), events[1..]); }
  }

  /**
    For a log of text and any interleaving of appends and polls: every chunk is
    valid UTF-8, and the chunks put together are exactly the bytes before the offset.
   */
  lemma {:induction false} InteractivePollingLosesNothing(log: InteractiveLog, events: seq<Event>)
    requires InteractiveInv(log) && IsTextPrefix(Run(log, events).file)
    ensures InteractiveInv(Run(log, events))
    decreases |events|
  {
    if events != [] {
      var next := Step(log, events[0]);
      RunGrowsFile(log, events);
      TextPrefixOfPrefix(log.file, Run(log, events).file);
      match events[0] {
        case Append(more) => AppendKeepsInv(log, more);
        case Poll => PollKeepsInv(log);
      }
      InteractivePollingLosesNothing(next, events[1..]);
    }
  }

  /** Polling makes progress: only a last unfinished character of at most three bytes can wait. */
  lemma PollAdvances(log: InteractiveLog)
    requires InteractiveInv(log) && IsTextPrefix(log.file)
    ensures var after := Step(log, Poll);
            && (|log.file| - log.offset > 3 ==> after.offset > log.offset)
            && (|log.file| - log.offset <= WINDOW ==> |log.file| - after.offset <= 3)
  {
    var data := WindowOf(log.file, log.offset);
    assert data == log.file[log.offset..log.offset + |data|];
    TextAfterValid(log.file, log.offset, log.offset + |data|);
    TextWindow(data);
  }
}
