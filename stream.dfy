/** The body of `claude_chat_stream` that turns Anthropic's server-sent
    events into NDJSON frames for the frontend.

    The converter keeps a text buffer and a running token count. Every chunk
    of text is appended to the buffer; every complete line (up to a `'\n'`)
    is then cut off the front, trimmed and dispatched; text after the last
    newline waits for the next chunk. A failed chunk yields one terminal
    error frame and ends the stream.

    The JSON parser is a parameter `parse` that maps the payload of a
    `data: ` line to the few fields the converter reads (`SseEvent`). Chunks
    are already-decoded text; the lossy UTF-8 decoding is not modelled. The
    frames are values; their serialisation to JSON text is not modelled. */
module NdjsonStream {
  import opened Common
  import AgentState

  /** `usage` of a `message_delta` event: `output_tokens` when it is present
      and a `u64` (`as_u64`), otherwise `None`. */
  datatype Usage = Usage(outputTokens: Option<u64>)

  /** What the converter reads from one parsed SSE payload. */
  datatype SseEvent =
    | ContentBlockDelta(text: Option<string>)   // "type": "content_block_delta"; `delta.text` if it is a string
    | MessageDelta(usage: Option<Usage>)        // "type": "message_delta"; `usage` if present
    | MessageStop                               // "type": "message_stop"
    | OtherEvent                                // any other or missing "type"
    | Unparsable                                // the payload is not JSON

  /** One item of the upstream byte stream. */
  datatype Chunk = Bytes(text: string) | ChunkError(reason: string)

  /** One NDJSON object sent to the frontend: `{token, done, model?, total_tokens?}`. */
  datatype Frame = Frame(token: string, done: bool, model: Option<string>, totalTokens: Option<u32>)

  function TokenFrame(text: string): Frame {
    Frame(text, false, None, None)
  }

  function DoneFrame(model: string, total: u32): Frame {
    Frame("", true, Some(model), Some(total))
  }

  /** The frame for a failed chunk; `reason` is the error's display text.
      It is final, names the model and the count so far, and its token is the
      reason between `"\n[Stream error: "` and `"]"`. */
  function ErrorFrame(reason: string, model: string, total: u32): (f: Frame)
    ensures f.done && f.model == Some(model) && f.totalTokens == Some(total)
    ensures |f.token| == |reason| + 17
    ensures f.token[..16] == "\n[Stream error: " && f.token[16..|f.token| - 1] == reason && f.token[|f.token| - 1] == ']'
  {
    var token := "\n[Stream error: " + reason + "]";
    assert token[16..|token| - 1] == reason;
    Frame(token, true, Some(model), Some(total))
  }

  /** The model named in the done frames: the request's, or the default. */
  function ResponseModel(requested: Option<string>): (r: string)
    ensures requested.Some? ==> r == requested.value
    ensures requested.None? ==> r == "claude-sonnet-4-5-20250929"
  {
    requested.GetOr(AgentState.DefaultModel)
  }

  // ---------------------------------------------------------------------
  // One line
  // ---------------------------------------------------------------------

  /** The JSON payload of a trimmed line, or `None` for the lines that are
      skipped before parsing: blank lines, `:` comments, lines without the
      `data: ` prefix and the `data: [DONE]` sentinel. */
  function DataPayload(line: string): (r: Option<string>)
    ensures r.Some? <==> line != [] && line[0] != ':' && HasPrefix("data: ", line) && line != "data: [DONE]"
    ensures r.Some? ==> line == "data: " + r.value
  {
    if line == [] || line[0] == ':' then None
    else
      match StripPrefix(line, "data: ")
      case None => None
      case Some(data) => if data == "[DONE]" then None else Some(data)
  }

  /** The event a trimmed line carries, if it gets as far as the parser. */
  function EventOf(line: string, parse: string -> SseEvent): Option<SseEvent> {
    match DataPayload(line)
    case None => None
    case Some(data) => Some(parse(data))
  }

  /** A line that changes nothing: skipped before parsing, not JSON, or an
      event type the converter ignores. */
  predicate Ignored(line: string, parse: string -> SseEvent) {
    EventOf(line, parse).None? || EventOf(line, parse).value.Unparsable? || EventOf(line, parse).value.OtherEvent?
  }

  datatype LineOutcome = LineOutcome(total: u32, frames: seq<Frame>)

  /** The dispatch of one trimmed line, given the running token count. */
  function ProcessLine(line: string, total: u32, model: string, parse: string -> SseEvent): (r: LineOutcome)
    ensures |r.frames| <= 1
    ensures Ignored(line, parse) ==> r == LineOutcome(total, [])
    ensures EventOf(line, parse).Some? && EventOf(line, parse).value.ContentBlockDelta? ==>
              var text := EventOf(line, parse).value.text.GetOr("");
              r.total == total && r.frames == (if text == [] then [] else [TokenFrame(text)])
    ensures EventOf(line, parse).Some? && EventOf(line, parse).value.MessageDelta? ==>
              var usage := EventOf(line, parse).value.usage;
              r.frames == [] &&
              r.total == (if usage.Some? then TruncateToU32(usage.value.outputTokens.GetOr(0)) else total)
    ensures EventOf(line, parse) == Some(MessageStop) ==> r == LineOutcome(total, [DoneFrame(model, total)])
  {
    if line == [] || line[0] == ':' then LineOutcome(total, [])
    else
      match StripPrefix(line, "data: ")
      case None => LineOutcome(total, [])
      case Some(data) =>
        if data == "[DONE]" then LineOutcome(total, [])
        else
          match parse(data)
          case Unparsable => LineOutcome(total, [])
          case ContentBlockDelta(text) =>
            var t := text.GetOr("");
            if t != [] then LineOutcome(total, [TokenFrame(t)]) else LineOutcome(total, [])
          case MessageDelta(usage) =>
            if usage.Some? then LineOutcome(TruncateToU32(usage.value.outputTokens.GetOr(0)), [])
            else LineOutcome(total, [])
          case MessageStop => LineOutcome(total, [DoneFrame(model, total)])
          case OtherEvent => LineOutcome(total, [])
  }

  // ---------------------------------------------------------------------
  // The inner loop: all complete lines of the buffer
  // ---------------------------------------------------------------------

  /** The complete lines cut off the front of a buffer, in order, and the
      unterminated text after the last newline. */
  datatype Lines = Lines(complete: seq<string>, rest: string)

  predicate NoNewline(s: string) {
    Lacks(s, '\n')
  }

  /** No line contains a newline. */
  predicate NewlineFree(lines: seq<string>) {
    forall i :: 0 <= i < |lines| ==> NoNewline(lines[i])
  }

  /** Each line followed by its newline: the inverse of `SplitLines`. */
  function JoinLines(lines: seq<string>): string
    decreases |lines|
  {
    if lines == [] then [] else lines[0] + "\n" + JoinLines(lines[1..])
  }

  /** The cutting done by the inner `while let Some(newline_pos) =
      sse_buffer.find('\n')` loop: the text before the first newline is a
      line, the buffer continues after that newline. */
  function SplitLines(buffer: string): (r: Lines)
    ensures NoNewline(r.rest)
    ensures NewlineFree(r.complete)
    decreases |buffer|
  {
    match FirstIndexOf(buffer, '\n')
    case None => Lines([], buffer)
    case Some(p) =>
      var line := buffer[..p];
      var tail := SplitLines(buffer[p + 1..]);
      assert NoNewline(line) by {
        assert forall j :: 0 <= j < |line| ==> line[j] == buffer[j];
      }
      var lines := [line] + tail.complete;
      assert NewlineFree(lines) by {
        assert forall i :: 1 <= i < |lines| ==> lines[i] == tail.complete[i - 1];
      }
      Lines(lines, tail.rest)
  }

  /** Nothing is lost or reordered by cutting: the lines, each followed by
      its newline, and then the rest give back the buffer. */
  lemma {:induction false} SplitLinesJoin(buffer: string)
    ensures JoinLines(SplitLines(buffer).complete) + SplitLines(buffer).rest == buffer
    decreases |buffer|
  {
    var found := FirstIndexOf(buffer, '\n');
    if found.Some? {
      var p := found.value;
      var after := buffer[p + 1..];
      SplitLinesJoin(after);
      SplitLinesAt(buffer, p);
      CutAt(buffer, p);
      var tail := SplitLines(after);
      JoinLinesStep(buffer, buffer[..p], after, tail.complete, tail.rest);
    }
  }

  /** One unfolding of `SplitLines` at its first newline. */
  lemma SplitLinesAt(buffer: string, p: nat)
    requires FirstIndexOf(buffer, '\n') == Some(p)
    ensures SplitLines(buffer) == Lines([buffer[..p]] + SplitLines(buffer[p + 1..]).complete, SplitLines(buffer[p + 1..]).rest)
  {
  }

  lemma CutAt(s: string, p: nat)
    requires p < |s| && s[p] == '\n'
    ensures s == s[..p] + "\n" + s[p + 1..]
  {
  }

  lemma JoinLinesStep(buffer: string, line: string, after: string, lines: seq<string>, rest: string)
    requires buffer == line + "\n" + after
    requires JoinLines(lines) + rest == after
    ensures JoinLines([line] + lines) + rest == buffer
  {
    JoinLinesCons(line, lines);
    assert (line + "\n" + JoinLines(lines)) + rest == line + "\n" + (JoinLines(lines) + rest);
  }

  lemma JoinLinesCons(line: string, lines: seq<string>)
    ensures JoinLines([line] + lines) == line + "\n" + JoinLines(lines)
  {
    assert ([line] + lines)[1..] == lines;
  }

  lemma {:induction false} JoinLinesAppend(a: seq<string>, b: seq<string>)
    ensures JoinLines(a + b) == JoinLines(a) + JoinLines(b)
    decreases |a|
  {
    if a != [] {
      assert (a + b)[0] == a[0];
      assert (a + b)[1..] == a[1..] + b;
      JoinLinesAppend(a[1..], b);
      assert JoinLines(a + b) == a[0] + "\n" + (JoinLines(a[1..]) + JoinLines(b));
    } else {
      assert a + b == b;
    }
  }

  lemma {:induction false} JoinLinesEndsWithNewline(lines: seq<string>)
    ensures lines != [] ==> |JoinLines(lines)| > 0 && JoinLines(lines)[|JoinLines(lines)| - 1] == '\n'
    decreases |lines|
  {
    if |lines| > 1 {
      JoinLinesEndsWithNewline(lines[1..]);
    }
  }

  /** Cutting is the exact inverse of joining: a text made of newline-free
      lines, each followed by a newline, and a newline-free rest is cut back
      into exactly those lines and that rest. */
  lemma {:induction false} SplitJoinLines(lines: seq<string>, rest: string)
    requires NewlineFree(lines)
    requires NoNewline(rest)
    ensures SplitLines(JoinLines(lines) + rest) == Lines(lines, rest)
    decreases |lines|
  {
    if lines == [] {
      assert JoinLines(lines) + rest == rest;
    } else {
      var after := JoinLines(lines[1..]) + rest;
      assert lines == [lines[0]] + lines[1..];
      JoinLinesCons(lines[0], lines[1..]);
      assert (lines[0] + "\n" + JoinLines(lines[1..])) + rest == lines[0] + "\n" + (JoinLines(lines[1..]) + rest);
      SplitLinesCons(lines[0], after);
      assert NewlineFree(lines[1..]) by {
        assert forall i :: 0 <= i < |lines| - 1 ==> lines[1..][i] == lines[i + 1];
      }
      SplitJoinLines(lines[1..], rest);
    }
  }

  /** Cutting does not depend on where the text was divided: cutting a
      buffer, appending more text to its rest and cutting again yields the
      same lines and rest as cutting everything at once. */
  lemma SplitLinesAppend(buffer: string, x: string)
    ensures var s1 := SplitLines(buffer);
            var s2 := SplitLines(s1.rest + x);
            SplitLines(buffer + x) == Lines(s1.complete + s2.complete, s2.rest)
  {
    var s1 := SplitLines(buffer);
    var s2 := SplitLines(s1.rest + x);
    SplitLinesJoin(buffer);
    SplitLinesJoin(s1.rest + x);
    JoinLinesAppend(s1.complete, s2.complete);
    ConcatAssoc(JoinLines(s1.complete), s1.rest, x);
    ConcatAssoc(JoinLines(s1.complete), JoinLines(s2.complete), s2.rest);
    assert NewlineFree(s1.complete + s2.complete) by {
      var c := s1.complete + s2.complete;
      assert forall i :: |s1.complete| <= i < |c| ==> c[i] == s2.complete[i - |s1.complete|];
    }
    SplitJoinLines(s1.complete + s2.complete, s2.rest);
  }

  /** The dispatch of the inner loop: each line, trimmed, in order, threading
      the token count through. */
  function ProcessLines(lines: seq<string>, total: u32, model: string, parse: string -> SseEvent): (r: LineOutcome)
    ensures |r.frames| <= |lines|
    decreases |lines|
  {
    if lines == [] then LineOutcome(total, [])
    else
      var first := ProcessLine(Trim(lines[0]), total, model, parse);
      var tail := ProcessLines(lines[1..], first.total, model, parse);
      LineOutcome(tail.total, first.frames + tail.frames)
  }

  lemma {:induction false} ProcessLinesAppend(a: seq<string>, b: seq<string>, total: u32, model: string, parse: string -> SseEvent)
    ensures var o1 := ProcessLines(a, total, model, parse);
            var o2 := ProcessLines(b, o1.total, model, parse);
            ProcessLines(a + b, total, model, parse) == LineOutcome(o2.total, o1.frames + o2.frames)
    decreases |a|
  {
    if a != [] {
      assert (a + b)[0] == a[0];
      assert (a + b)[1..] == a[1..] + b;
      var first := ProcessLine(Trim(a[0]), total, model, parse);
      ProcessLinesAppend(a[1..], b, first.total, model, parse);
      var o1 := ProcessLines(a[1..], first.total, model, parse);
      var o2 := ProcessLines(b, o1.total, model, parse);
      assert first.frames + (o1.frames + o2.frames) == (first.frames + o1.frames) + o2.frames;
    } else {
      assert a + b == b;
    }
  }

  datatype Drained = Drained(rest: string, total: u32, frames: seq<Frame>)

  /** The whole inner loop on one buffer: every complete line is processed in
      order, and what is left is exactly the text after the last newline. */
  function Drain(buffer: string, total: u32, model: string, parse: string -> SseEvent): (r: Drained)
    ensures NoNewline(r.rest)
    ensures |r.rest| <= |buffer| && r.rest == buffer[|buffer| - |r.rest|..]
    ensures !NoNewline(buffer) ==> |r.rest| < |buffer| && buffer[|buffer| - |r.rest| - 1] == '\n'
    ensures NoNewline(buffer) ==> r == Drained(buffer, total, [])
  {
    var lines := SplitLines(buffer);
    var out := ProcessLines(lines.complete, total, model, parse);
    SplitLinesJoin(buffer);
    JoinLinesEndsWithNewline(lines.complete);
    assert buffer[|JoinLines(lines.complete)|..] == lines.rest;
    assert lines.complete != [] ==> buffer[|JoinLines(lines.complete)| - 1] == '\n';
    Drained(lines.rest, out.total, out.frames)
  }

  /** One line at a time: a buffer that starts with a complete line
      processes that line, trimmed, and then the rest of the buffer. */
  lemma {:induction false} DrainFirstLine(line: string, rest: string, total: u32, model: string, parse: string -> SseEvent)
    requires NoNewline(line)
    ensures var step := ProcessLine(Trim(line), total, model, parse);
            var tail := Drain(rest, step.total, model, parse);
            Drain(line + "\n" + rest, total, model, parse) == Drained(tail.rest, tail.total, step.frames + tail.frames)
  {
    var tail := SplitLines(rest);
    SplitLinesCons(line, rest);
    ProcessLinesCons(line, tail.complete, total, model, parse);
  }

  lemma SplitLinesCons(line: string, rest: string)
    requires NoNewline(line)
    ensures SplitLines(line + "\n" + rest) == Lines([line] + SplitLines(rest).complete, SplitLines(rest).rest)
  {
    var buffer := line + "\n" + rest;
    FirstIndexOfSplit(line, '\n', rest);
    assert buffer[..|line|] == line;
    assert buffer[|line| + 1..] == rest;
  }

  lemma ProcessLinesCons(line: string, lines: seq<string>, total: u32, model: string, parse: string -> SseEvent)
    ensures var first := ProcessLine(Trim(line), total, model, parse);
            var tail := ProcessLines(lines, first.total, model, parse);
            ProcessLines([line] + lines, total, model, parse) == LineOutcome(tail.total, first.frames + tail.frames)
  {
    assert ([line] + lines)[0] == line && ([line] + lines)[1..] == lines;
  }

  /** One iteration of the inner loop, at the first newline of the buffer. */
  lemma DrainAt(buffer: string, p: nat, total: u32, model: string, parse: string -> SseEvent)
    requires FirstIndexOf(buffer, '\n') == Some(p)
    ensures var step := ProcessLine(Trim(buffer[..p]), total, model, parse);
            var tail := Drain(buffer[p + 1..], step.total, model, parse);
            Drain(buffer, total, model, parse) == Drained(tail.rest, tail.total, step.frames + tail.frames)
  {
    assert NoNewline(buffer[..p]) by {
      assert forall j :: 0 <= j < p ==> buffer[..p][j] == buffer[j];
    }
    CutAt(buffer, p);
    DrainFirstLine(buffer[..p], buffer[p + 1..], total, model, parse);
  }

  /** An ignored line emits nothing, keeps the token count and does not stop
      the processing of the lines after it. */
  lemma IgnoredLineSkipped(line: string, rest: string, total: u32, model: string, parse: string -> SseEvent)
    requires NoNewline(line) && Ignored(Trim(line), parse)
    ensures Drain(line + "\n" + rest, total, model, parse) == Drain(rest, total, model, parse)
  {
    DrainFirstLine(line, rest, total, model, parse);
  }

  /** A `message_stop` line yields a done frame with the current count and
      does not end the processing: the lines after it are handled as usual,
      so a second stop event yields a second done frame. */
  lemma StopDoesNotEndStream(line: string, rest: string, total: u32, model: string, parse: string -> SseEvent)
    requires NoNewline(line) && EventOf(Trim(line), parse) == Some(MessageStop)
    ensures var tail := Drain(rest, total, model, parse);
            Drain(line + "\n" + rest, total, model, parse) == Drained(tail.rest, tail.total, [DoneFrame(model, total)] + tail.frames)
  {
    DrainFirstLine(line, rest, total, model, parse);
  }

  /** Draining is insensitive to where the text was cut: draining a buffer,
      appending more text to what is left and draining again gives the same
      frames, count and remainder as draining everything at once. */
  lemma DrainAppend(buffer: string, x: string, total: u32, model: string, parse: string -> SseEvent)
    ensures var d1 := Drain(buffer, total, model, parse);
            var d2 := Drain(d1.rest + x, d1.total, model, parse);
            Drain(buffer + x, total, model, parse) == Drained(d2.rest, d2.total, d1.frames + d2.frames)
  {
    var s1 := SplitLines(buffer);
    var s2 := SplitLines(s1.rest + x);
    SplitLinesAppend(buffer, x);
    ProcessLinesAppend(s1.complete, s2.complete, total, model, parse);
  }

  // ---------------------------------------------------------------------
  // The outer loop: the chunks of the upstream stream
  // ---------------------------------------------------------------------

  /** The generator's state: the SSE buffer, the running token count, the
      frames yielded so far and whether chunks are still being read. */
  datatype StreamState = StreamState(buffer: string, total: u32, frames: seq<Frame>, open: bool)

  const Start: StreamState := StreamState("", 0, [], true)

  /** One iteration of the outer `while let Some(chunk_result)` loop. Frames
      are only ever appended. A failed chunk appends the error frame and
      leaves the loop; a text chunk is drained, which leaves a newline-free
      tail of the buffer, and text without a newline only waits in it. */
  function Step(s: StreamState, chunk: Chunk, model: string, parse: string -> SseEvent): (r: StreamState)
    ensures |s.frames| <= |r.frames| && r.frames[..|s.frames|] == s.frames
    ensures !s.open ==> r == s
    ensures s.open && chunk.ChunkError? ==>
              && !r.open && r.buffer == s.buffer && r.total == s.total
              && r.frames == s.frames + [ErrorFrame(chunk.reason, model, s.total)]
    ensures s.open && chunk.Bytes? ==>
              var text := s.buffer + chunk.text;
              && r.open && NoNewline(r.buffer)
              && |r.buffer| <= |text| && r.buffer == text[|text| - |r.buffer|..]
    ensures s.open && chunk.Bytes? && NoNewline(s.buffer + chunk.text) ==>
              r == StreamState(s.buffer + chunk.text, s.total, s.frames, true)
  {
    if !s.open then s
    else
      match chunk
      case ChunkError(reason) =>
        StreamState(s.buffer, s.total, s.frames + [ErrorFrame(reason, model, s.total)], false)
      case Bytes(text) =>
        var d := Drain(s.buffer + text, s.total, model, parse);
        assert (s.frames + d.frames)[..|s.frames|] == s.frames;
        StreamState(d.rest, d.total, s.frames + d.frames, true)
  }

  /** The outer loop over the remaining chunks. Frames are only appended, and
      once the loop has been left later chunks are never read. */
  function Run(s: StreamState, chunks: seq<Chunk>, model: string, parse: string -> SseEvent): (r: StreamState)
    ensures |s.frames| <= |r.frames| && r.frames[..|s.frames|] == s.frames
    ensures !s.open ==> r == s
    decreases |chunks|
  {
    if chunks == [] then s
    else
      var next := Step(s, chunks[0], model, parse);
      var r := Run(next, chunks[1..], model, parse);
      assert r.frames[..|s.frames|] == r.frames[..|next.frames|][..|s.frames|];
      r
  }

  /** The frames the handler streams back for the given upstream chunks.
      Every one is well formed: a non-empty token that is not final, or a
      final frame naming the response model and a token count. */
  function StreamFrames(chunks: seq<Chunk>, requested: Option<string>, parse: string -> SseEvent): (r: seq<Frame>)
    ensures forall i :: 0 <= i < |r| ==> WellFormed(r[i], ResponseModel(requested))
  {
    RunWellFormed(Start, chunks, ResponseModel(requested), parse);
    Run(Start, chunks, ResponseModel(requested), parse).frames
  }

  lemma {:induction false} RunAppend(s: StreamState, a: seq<Chunk>, b: seq<Chunk>, model: string, parse: string -> SseEvent)
    ensures Run(s, a + b, model, parse) == Run(Run(s, a, model, parse), b, model, parse)
    decreases |a|
  {
    if a != [] {
      assert (a + b)[0] == a[0];
      assert (a + b)[1..] == a[1..] + b;
      RunAppend(Step(s, a[0], model, parse), a[1..], b, model, parse);
    } else {
      assert a + b == b;
    }
  }

  predicate NoErrors(chunks: seq<Chunk>) {
    forall i :: 0 <= i < |chunks| ==> chunks[i].Bytes?
  }

  /** Chunks are read until one fails, and between chunks the buffer never
      holds a newline. */
  lemma {:induction false} RunExtends(s: StreamState, chunks: seq<Chunk>, model: string, parse: string -> SseEvent)
    ensures s.open && NoErrors(chunks) ==> Run(s, chunks, model, parse).open
    ensures NoNewline(s.buffer) ==> NoNewline(Run(s, chunks, model, parse).buffer)
    decreases |chunks|
  {
    if chunks != [] {
      var s' := Step(s, chunks[0], model, parse);
      RunExtends(s', chunks[1..], model, parse);
      assert NoErrors(chunks) ==> NoErrors(chunks[1..]);
    }
  }

  /** A failed chunk yields exactly one terminal frame carrying the current
      token count, after the frames of the chunks before it, and nothing
      after it is read. */
  lemma ErrorEndsStream(s: StreamState, before: seq<Chunk>, reason: string, after: seq<Chunk>, model: string, parse: string -> SseEvent)
    requires s.open && NoErrors(before)
    ensures var m := Run(s, before, model, parse);
            Run(s, before + [ChunkError(reason)] + after, model, parse) ==
            StreamState(m.buffer, m.total, m.frames + [ErrorFrame(reason, model, m.total)], false)
  {
    var rest := [ChunkError(reason)] + after;
    assert before + [ChunkError(reason)] + after == before + rest;
    RunAppend(s, before, rest, model, parse);
    RunExtends(s, before, model, parse);
    var m := Run(s, before, model, parse);
    assert rest[0] == ChunkError(reason) && rest[1..] == after;
  }

  /** Boundary insensitivity: cutting one chunk of text in two anywhere in
      the stream changes nothing about the frames, the count or the buffer. */
  lemma ChunkSplitInvisible(s: StreamState, before: seq<Chunk>, a: string, b: string, after: seq<Chunk>, model: string, parse: string -> SseEvent)
    ensures Run(s, before + [Bytes(a), Bytes(b)] + after, model, parse) ==
            Run(s, before + [Bytes(a + b)] + after, model, parse)
  {
    var split := [Bytes(a), Bytes(b)];
    var joined := [Bytes(a + b)];
    assert before + [Bytes(a), Bytes(b)] + after == before + (split + after);
    assert before + [Bytes(a + b)] + after == before + (joined + after);
    RunAppend(s, before, split + after, model, parse);
    RunAppend(s, before, joined + after, model, parse);
    var m := Run(s, before, model, parse);
    RunAppend(m, split, after, model, parse);
    RunAppend(m, joined, after, model, parse);
    assert split[1..] == [Bytes(b)] && joined[1..] == [];
    if m.open {
      ConcatAssoc(m.buffer, a, b);
      DrainAppend(m.buffer + a, b, m.total, model, parse);
      var d1 := Drain(m.buffer + a, m.total, model, parse);
      var d2 := Drain(d1.rest + b, d1.total, model, parse);
      ConcatAssoc(m.frames, d1.frames, d2.frames);
    }
  }

  /** A trailing partial line is never processed: a last chunk without a
      newline adds no frame when the stream then ends. */
  lemma TrailingPartialLineDropped(chunks: seq<Chunk>, x: string, requested: Option<string>, parse: string -> SseEvent)
    requires NoNewline(x)
    ensures StreamFrames(chunks + [Bytes(x)], requested, parse) == StreamFrames(chunks, requested, parse)
  {
    var model := ResponseModel(requested);
    RunAppend(Start, chunks, [Bytes(x)], model, parse);
    RunExtends(Start, chunks, model, parse);
  }

  /** Every frame is either a non-empty token that is not final, or a
      final frame naming the response model and a token count. */
  predicate WellFormed(f: Frame, model: string) {
    if f.done then f.model == Some(model) && f.totalTokens.Some?
    else f.token != [] && f.model.None? && f.totalTokens.None?
  }

  lemma {:induction false} ProcessLinesWellFormed(lines: seq<string>, total: u32, model: string, parse: string -> SseEvent)
    ensures forall f :: f in ProcessLines(lines, total, model, parse).frames ==> WellFormed(f, model)
    decreases |lines|
  {
    if lines != [] {
      var first := ProcessLine(Trim(lines[0]), total, model, parse);
      ProcessLinesWellFormed(lines[1..], first.total, model, parse);
    }
  }

  lemma {:induction false} RunWellFormed(s: StreamState, chunks: seq<Chunk>, model: string, parse: string -> SseEvent)
    requires forall f :: f in s.frames ==> WellFormed(f, model)
    ensures forall f :: f in Run(s, chunks, model, parse).frames ==> WellFormed(f, model)
    decreases |chunks|
  {
    if chunks != [] {
      if s.open && chunks[0].Bytes? {
        ProcessLinesWellFormed(SplitLines(s.buffer + chunks[0].text).complete, s.total, model, parse);
      }
      RunWellFormed(Step(s, chunks[0], model, parse), chunks[1..], model, parse);
    }
  }

  // ---------------------------------------------------------------------
  // The generator body itself
  // ---------------------------------------------------------------------

  /** The inner loop of the generator: while the buffer holds a newline,
      cut off the line before it, trim it and dispatch it. Returns what is
      left of the buffer, the new token count and the frames yielded. */
  method DrainLines(input: string, startTotal: u32, model: string, parse: string -> SseEvent)
    returns (buffer: string, total: u32, frames: seq<Frame>)
    ensures Drained(buffer, total, frames) == Drain(input, startTotal, model, parse)
  {
    ghost var target := Drain(input, startTotal, model, parse);
    buffer, total, frames := input, startTotal, [];
    var newlinePos := FirstIndexOf(buffer, '\n');
    while newlinePos.Some?
      invariant newlinePos == FirstIndexOf(buffer, '\n')
      invariant Drain(buffer, total, model, parse).rest == target.rest
      invariant Drain(buffer, total, model, parse).total == target.total
      invariant frames + Drain(buffer, total, model, parse).frames == target.frames
      decreases |buffer|
    {
      var p := newlinePos.value;
      DrainAt(buffer, p, total, model, parse);
      var line := Trim(buffer[..p]);
      var outcome := ProcessLine(line, total, model, parse);
      ConcatAssoc(frames, outcome.frames, Drain(buffer[p + 1..], outcome.total, model, parse).frames);
      buffer := buffer[p + 1..];
      total := outcome.total;
      frames := frames + outcome.frames;
      newlinePos := FirstIndexOf(buffer, '\n');
    }
  }

  /** The `async_stream::stream!` body: reads the chunks in order, buffers
      text, cuts and dispatches complete lines, and stops at the first failed
      chunk. Returns the frames it yields, in order. */
  method Convert(chunks: seq<Chunk>, requested: Option<string>, parse: string -> SseEvent) returns (frames: seq<Frame>)
    ensures frames == StreamFrames(chunks, requested, parse)
  {
    var model := ResponseModel(requested);
    var buffer := "";
    var total: u32 := 0;
    frames := [];
    var i := 0;
    while i < |chunks|
      invariant 0 <= i <= |chunks|
      invariant Run(StreamState(buffer, total, frames, true), chunks[i..], model, parse) == Run(Start, chunks, model, parse)
    {
      ghost var s0 := StreamState(buffer, total, frames, true);
      assert chunks[i..][0] == chunks[i] && chunks[i..][1..] == chunks[i + 1..];
      assert Run(s0, chunks[i..], model, parse) == Run(Step(s0, chunks[i], model, parse), chunks[i + 1..], model, parse);
      if chunks[i].ChunkError? {
        frames := frames + [ErrorFrame(chunks[i].reason, model, total)];
        break;
      }
      var yielded;
      buffer, total, yielded := DrainLines(buffer + chunks[i].text, total, model, parse);
      frames := frames + yielded;
      i := i + 1;
    }
  }
}
