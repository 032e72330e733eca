/** What an event stream decodes to: the batch decoder, which splits the whole byte string into lines
    at once, and what is emitted of it when the bytes come in chunks under a bound.
    Line syntax is the LF/CRLF part of sections 9.2.5 and 9.2.6 of the WHATWG HTML Standard. */
module Sse {
  import opened Texts
  import opened Utf8
  import opened Frames

  const LF: Byte := 10
  const RETURN: Byte := 13
  const MAX_FRAME_BYTES := 0x10_0000

  const DATA: Text := Ascii("data:")
  const SPACE: Text := [32]
  const DONE: Text := Ascii("[DONE]")

  type Loads = Text -> Option<Json>

  // ---- the batch decoder -----------------------------------------------------------------

  /** `line.rstrip(b"\r")` */
  function StripReturns(line: Bytes): (r: Bytes)
    ensures r <= line && (r != [] ==> r[|r| - 1] != RETURN)
  {
    if line != [] && line[|line| - 1] == RETURN then StripReturns(line[..|line| - 1]) else line
  }

  function LineText(line: Bytes): Text {
    DecodeReplace(StripReturns(line))
  }

  /** What the lines so far leave behind: the pending data block, whether the terminator was
      dispatched, and every event emitted. */
  datatype Progress = Progress(pending: seq<Text>, done: bool, events: seq<Event>)

  function Payload(pending: seq<Text>): Text {
    Join(pending, NL)
  }

  function LineStep(p: Progress, line: Text, loads: Loads): Progress {
    if p.done then p
    else if line != [] then
      if IsPrefix(DATA, line) then p.(pending := p.pending + [RemovePrefix(line[|DATA|..], SPACE)])
      else p
    else if p.pending == [] then p
    else if Payload(p.pending) == DONE then Progress([], true, p.events)
    else Progress([], false, p.events + FrameEvents(loads, Payload(p.pending)))
  }

  function AfterLines(lines: seq<Bytes>, loads: Loads): Progress {
    if lines == [] then Progress([], false, [])
    else LineStep(AfterLines(lines[..|lines| - 1], loads), LineText(lines[|lines| - 1]), loads)
  }

  function After(bytes: Bytes, loads: Loads): Progress {
    AfterLines(Lines(bytes, LF), loads)
  }

  /** The events of a whole stream; a line the stream does not terminate is not read. */
  function Batch(bytes: Bytes, loads: Loads): seq<Event> {
    After(bytes, loads).events
  }

  /** Characters the pending data block holds: what `data_bytes` counts. */
  function Chars(pending: seq<Text>): nat {
    if pending == [] then 0 else Chars(pending[..|pending| - 1]) + |pending[|pending| - 1]|
  }

  /** The retained incomplete line plus the pending block. */
  function Excess(bytes: Bytes, loads: Loads): nat {
    |Tail(bytes, LF)| + Chars(After(bytes, loads).pending)
  }

  predicate Overflows(bytes: Bytes, loads: Loads) {
    !After(bytes, loads).done && Excess(bytes, loads) > MAX_FRAME_BYTES
  }

  lemma {:induction false} LaterLinesExtend(a: seq<Bytes>, b: seq<Bytes>, loads: Loads)
    ensures var p, q := AfterLines(a, loads), AfterLines(a + b, loads);
            p.events <= q.events && (p.done ==> q == p)
  {
    if b == [] {
      assert a + b == a;
    } else {
      var front := b[..|b| - 1];
      assert (a + b)[..|a + b| - 1] == a + front;
      LaterLinesExtend(a, front, loads);
    }
  }

  /** Decoding more bytes only adds events, and nothing follows the terminator. */
  lemma {:induction false} BatchGrows(a: Bytes, b: Bytes, loads: Loads)
    ensures Batch(a, loads) <= Batch(a + b, loads)
    ensures After(a, loads).done ==> After(a + b, loads) == After(a, loads)
  {
    LinesAppend(a, b, LF);
    LaterLinesExtend(Lines(a, LF), Lines(Tail(a, LF) + b, LF), loads);
  }

  // ---- the chunked stream ----------------------------------------------------------------

  /** The first chunk end at which the stream stops: `[DONE]` was dispatched, or the bound is
      exceeded; else all chunks are read. */
  function StopAt(chunks: seq<Bytes>, loads: Loads, k: nat): (n: nat)
    requires k <= |chunks|
    ensures k <= n <= |chunks|
    decreases |chunks| - k
  {
    if k == |chunks| || Stopped(Concat(chunks[..k]), loads) then k
    else StopAt(chunks, loads, k + 1)
  }

  predicate Stopped(bytes: Bytes, loads: Loads) {
    After(bytes, loads).done || Excess(bytes, loads) > MAX_FRAME_BYTES
  }

  /** The batch decode of the bytes read, and the overflow error if they exceed the bound. */
  function Emitted(bytes: Bytes, loads: Loads): seq<Event> {
    Batch(bytes, loads) + if Overflows(bytes, loads) then [Error(TooLong)] else []
  }

  /** Everything the decoder emits for a chunked stream. */
  function Decoded(chunks: seq<Bytes>, loads: Loads): seq<Event> {
    Emitted(Concat(chunks[..StopAt(chunks, loads, 0)]), loads)
  }

  lemma {:induction false} StopAtUnstopped(chunks: seq<Bytes>, loads: Loads, k: nat)
    requires k <= |chunks|
    ensures var n := StopAt(chunks, loads, k);
            && (forall j :: k <= j < n ==> !Stopped(Concat(chunks[..j]), loads))
            && (n < |chunks| ==> Stopped(Concat(chunks[..n]), loads))
    decreases |chunks| - k
  {
    if k < |chunks| && !Stopped(Concat(chunks[..k]), loads) {
      StopAtUnstopped(chunks, loads, k + 1);
    }
  }

  /** `out` is a prefix of `all`, followed by at most one overflow error. */
  predicate PrefixThenOverflow(out: seq<Event>, all: seq<Event>) {
    || out <= all
    || (out != [] && out[|out| - 1] == Error(TooLong) && out[..|out| - 1] <= all)
  }

  lemma {:induction false} EmittedIsBatchPrefix(read: Bytes, more: Bytes, loads: Loads)
    ensures PrefixThenOverflow(Emitted(read, loads), Batch(read + more, loads))
  {
    BatchGrows(read, more, loads);
    var b := Batch(read, loads);
    assert (b + [Error(TooLong)])[..|b|] == b;
    assert b + [] == b;
  }

  lemma {:induction false} ReadWhole(read: Bytes, more: Bytes, loads: Loads)
    requires !Overflows(read, loads) && (Stopped(read, loads) || more == [])
    ensures Emitted(read, loads) == Batch(read + more, loads)
  {
    BatchGrows(read, more, loads);
    assert read + [] == read;
  }

  lemma {:induction false} ReadAndRest(chunks: seq<Bytes>, n: nat)
    requires n <= |chunks|
    ensures Concat(chunks) == Concat(chunks[..n]) + Concat(chunks[n..])
  {
    assert chunks == chunks[..n] + chunks[n..];
    ConcatAppend(chunks[..n], chunks[n..]);
  }

  /** For every chunking: a prefix of the batch decode, then at most one overflow error. */
  lemma {:induction false} DecodedIsBatchPrefix(chunks: seq<Bytes>, loads: Loads)
    ensures PrefixThenOverflow(Decoded(chunks, loads), Batch(Concat(chunks), loads))
  {
    var n := StopAt(chunks, loads, 0);
    ReadAndRest(chunks, n);
    EmittedIsBatchPrefix(Concat(chunks[..n]), Concat(chunks[n..]), loads);
  }

  ghost predicate StaysWithin(chunks: seq<Bytes>, loads: Loads) {
    forall k :: 0 <= k <= |chunks| ==> !Overflows(Concat(chunks[..k]), loads)
  }

  lemma {:induction false} NoBatchOverflow(lines: seq<Bytes>, loads: Loads)
    ensures Error(TooLong) !in AfterLines(lines, loads).events
  {
    if lines != [] {
      var front := lines[..|lines| - 1];
      NoBatchOverflow(front, loads);
      NoFrameOverflows(loads, Payload(AfterLines(front, loads).pending));
    }
  }

  /** The whole batch decode exactly when the chunk end the stream stops at does not exceed the
      bound, be it the end of the stream, the terminator's chunk, or an overflow. */
  lemma {:induction false} DecodedIsBatchIff(chunks: seq<Bytes>, loads: Loads)
    ensures Decoded(chunks, loads) == Batch(Concat(chunks), loads)
        <==> !Overflows(Concat(chunks[..StopAt(chunks, loads, 0)]), loads)
  {
    var n := StopAt(chunks, loads, 0);
    var read, more := Concat(chunks[..n]), Concat(chunks[n..]);
    StopAtUnstopped(chunks, loads, 0);
    ReadAndRest(chunks, n);
    if Overflows(read, loads) {
      var out := Decoded(chunks, loads);
      assert out[|out| - 1] == Error(TooLong);
      NoBatchOverflow(Lines(read + more, LF), loads);
    } else {
      ReadWhole(read, more, loads);
    }
  }

  /** When no chunk end exceeds the bound before the terminator, the whole batch decode. */
  lemma {:induction false} DecodedIsBatch(chunks: seq<Bytes>, loads: Loads)
    requires StaysWithin(chunks, loads)
    ensures Decoded(chunks, loads) == Batch(Concat(chunks), loads)
  {
    DecodedIsBatchIff(chunks, loads);
  }

  /** Two chunkings of one byte stream that stay within the bound decode alike. */
  lemma {:induction false} ChunkingInvariant(a: seq<Bytes>, b: seq<Bytes>, loads: Loads)
    requires Concat(a) == Concat(b)
    requires StaysWithin(a, loads) && StaysWithin(b, loads)
    ensures Decoded(a, loads) == Decoded(b, loads)
  {
    DecodedIsBatch(a, loads);
    DecodedIsBatch(b, loads);
  }

  lemma {:induction false} AfterLinesSnoc(lines: seq<Bytes>, line: Bytes, loads: Loads)
    ensures AfterLines(lines + [line], loads) == LineStep(AfterLines(lines, loads), LineText(line), loads)
  {
    assert (lines + [line])[..|lines|] == lines;
  }

  lemma {:induction false} ReadOneMore(chunks: seq<Bytes>, k: nat, loads: Loads)
    requires k < |chunks| && !Stopped(Concat(chunks[..k]), loads)
    ensures Concat(chunks[..k + 1]) == Concat(chunks[..k]) + chunks[k]
    ensures StopAt(chunks, loads, k) == StopAt(chunks, loads, k + 1)
    ensures Emitted(Concat(chunks[..k]), loads) == Batch(Concat(chunks[..k]), loads)
  {
    assert chunks[..k + 1] == chunks[..k] + [chunks[k]];
    ConcatSnoc(chunks[..k], chunks[k]);
  }

  lemma {:induction false} EmptyStream(loads: Loads)
    ensures !Stopped([], loads) && Emitted([], loads) == []
  {
  }
}
