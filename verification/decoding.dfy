/** The incremental event-stream decoder: a buffer with a resume offset, compacted once per chunk,
    proved to emit exactly what the chunked stream decodes to. */
module Decoding {
  import opened Texts
  import opened Utf8
  import opened Frames
  import opened Sse

  lemma {:induction false} CharsSnoc(pending: seq<Text>, t: Text)
    ensures Chars(pending + [t]) == Chars(pending) + |t|
  {
    assert (pending + [t])[..|pending|] == pending;
  }

  /** Midway through a chunk: `lines` are dispatched, `rest` is still to be read. */
  ghost predicate Midway(all: Bytes, lines: seq<Bytes>, rest: Bytes, p: Progress, loads: Loads) {
    && Lines(all, LF) == lines + Lines(rest, LF)
    && Tail(all, LF) == Tail(rest, LF)
    && AfterLines(lines, loads) == p
  }

  /** One more newline found in `rest`: dispatch the line it ends. */
  lemma {:induction false} NextLine(all: Bytes, lines: seq<Bytes>, rest: Bytes, p: Progress, n: nat, loads: Loads)
    requires Midway(all, lines, rest, p, loads)
    requires FirstIndex(rest, LF, 0, Some(n))
    ensures Midway(all, lines + [rest[..n]], rest[n + 1..],
                   LineStep(p, LineText(rest[..n]), loads), loads)
  {
    assert rest[0..n] == rest[..n];
    assert rest == rest[..n] + [LF] + rest[n + 1..];
    SplitAt(rest[..n], rest[n + 1..], LF);
    AfterLinesSnoc(lines, rest[..n], loads);
    assert lines + ([rest[..n]] + Lines(rest[n + 1..], LF))
        == lines + [rest[..n]] + Lines(rest[n + 1..], LF);
  }

  lemma {:induction false} NoLineLeft(all: Bytes, lines: seq<Bytes>, rest: Bytes, p: Progress, loads: Loads)
    requires Midway(all, lines, rest, p, loads) && FirstIndex(rest, LF, 0, None)
    ensures After(all, loads) == p && Tail(all, LF) == rest
  {
    assert rest[0..] == rest;
    SplitFree(rest, LF);
    assert lines + [] == lines;
  }

  /** Once the terminator is dispatched the remaining lines change nothing. */
  lemma {:induction false} RestIgnored(all: Bytes, lines: seq<Bytes>, rest: Bytes, p: Progress, loads: Loads)
    requires Midway(all, lines, rest, p, loads) && p.done
    ensures After(all, loads) == p
  {
    LaterLinesExtend(lines, Lines(rest, LF), loads);
  }

  lemma {:induction false} NewChunk(received: Bytes, chunk: Bytes, loads: Loads)
    ensures Midway(received + chunk, Lines(received, LF), Tail(received, LF) + chunk,
                   After(received, loads), loads)
    ensures LF !in Tail(received, LF)
  {
    LinesAppend(received, chunk, LF);
    TailFree(received, LF);
  }

  /** Midway through the buffer: `start` opens the first unread line, of which the bytes before
      `from` are already known to hold no newline. */
  ghost predicate Reading(all: Bytes, lines: seq<Bytes>, buffer: Bytes, start: nat, from: nat,
                          p: Progress, loads: Loads) {
    && start <= from <= |buffer| && LF !in buffer[start..from]
    && Midway(all, lines, buffer[start..], p, loads)
  }

  /** The search resumes at `from`, yet finds the first newline of the whole unread part. */
  lemma {:induction false} Resumed(buffer: Bytes, start: nat, from: nat, r: Option<nat>)
    requires start <= from <= |buffer| && LF !in buffer[start..from]
    requires FirstIndex(buffer, LF, from, r)
    ensures FirstIndex(buffer[start..], LF, 0, if r.None? then None else Some(r.value - start))
  {
    if r.None? {
      assert buffer[start..] == buffer[start..from] + buffer[from..];
      assert buffer[start..][0..] == buffer[start..];
    } else {
      assert buffer[start..][0..r.value - start] == buffer[start..from] + buffer[from..r.value];
    }
  }

  lemma {:induction false} LineRead(all: Bytes, lines: seq<Bytes>, buffer: Bytes, start: nat, from: nat, p: Progress,
                 newline: nat, loads: Loads)
    requires Reading(all, lines, buffer, start, from, p, loads)
    requires FirstIndex(buffer, LF, from, Some(newline))
    ensures var line := buffer[start..newline];
            Reading(all, lines + [line], buffer, newline + 1, newline + 1,
                    LineStep(p, LineText(line), loads), loads)
  {
    Resumed(buffer, start, from, Some(newline));
    var rest, n := buffer[start..], newline - start;
    NextLine(all, lines, rest, p, n, loads);
    assert rest[n + 1..] == buffer[newline + 1..];
    assert rest[..n] == buffer[start..newline];
  }

  lemma {:induction false} AllRead(all: Bytes, lines: seq<Bytes>, buffer: Bytes, start: nat, from: nat, p: Progress,
                loads: Loads)
    requires Reading(all, lines, buffer, start, from, p, loads)
    requires p.done || FirstIndex(buffer, LF, from, None)
    ensures After(all, loads) == p
    ensures !p.done ==> Tail(all, LF) == buffer[start..]
  {
    if p.done {
      RestIgnored(all, lines, buffer[start..], p, loads);
    } else {
      Resumed(buffer, start, from, None);
      NoLineLeft(all, lines, buffer[start..], p, loads);
    }
  }

  class Decoder {
    const loads: Loads
    var buffer: Bytes
    var dataLines: seq<Text>
    var dataBytes: nat
    var searchFrom: nat
    var finished: bool

    ghost var received: Bytes  // every byte pushed so far
    ghost var scanned: nat     // bytes the newline search has compared
    ghost var shifted: nat     // bytes moved by compaction

    /** Between chunks the buffer is exactly the unterminated tail, already scanned. */
    ghost predicate Valid()
      reads this
    {
      && scanned <= |received| && shifted <= |received|
      && (!finished ==>
            var p := After(received, loads);
            && !p.done
            && buffer == Tail(received, LF) && searchFrom == |buffer|
            && dataLines == p.pending && dataBytes == Chars(dataLines))
    }

    constructor (loads: Loads)
      ensures Valid() && this.loads == loads && received == [] && !finished
    {
      this.loads := loads;
      buffer, dataLines, dataBytes, searchFrom, finished := [], [], 0, 0, false;
      received, scanned, shifted := [], 0, 0;
    }

    /** One complete line: a data line joins the pending block, a blank one dispatches it. */
    method TakeLine(line: Text, ghost p: Progress) returns (events: seq<Event>)
      requires !finished && !p.done && p.pending == dataLines && dataBytes == Chars(dataLines)
      modifies this`dataLines, this`dataBytes, this`finished
      ensures LineStep(p, line, loads) == Progress(dataLines, finished, p.events + events)
      ensures dataBytes == Chars(dataLines)
    {
      events := [];
      if line != [] {
        if IsPrefix(DATA, line) {
          var payloadLine := RemovePrefix(line[|DATA|..], SPACE);
          CharsSnoc(dataLines, payloadLine);
          dataLines := dataLines + [payloadLine];
          dataBytes := dataBytes + |payloadLine|;
        }
        return;
      }
      if dataLines == [] {
        return;
      }
      var payload := Payload(dataLines);
      dataLines := [];
      dataBytes := 0;
      if payload == DONE {
        finished := true;
        return;
      }
      events := FrameEvents(loads, payload);
    }

    /** Nothing read yet, or all that was read lies past where the search resumed. */
    ghost predicate Ahead(start: nat, from: nat)
      reads this`searchFrom
    {
      searchFrom <= from && (start == 0 || start == from > searchFrom)
    }

    /** How far into the buffer the search has come. */
    ghost function Reached(newline: Option<nat>, done: bool, from: nat): nat
      reads this`buffer
    {
      if done then from else if newline.None? then |buffer| else newline.value + 1
    }

    /** The next newline at or after `from`, the comparisons counted. */
    method Search(from: nat) returns (newline: Option<nat>)
      requires from <= |buffer|
      modifies this`scanned
      ensures FirstIndex(buffer, LF, from, newline)
      ensures scanned == old(scanned) + Reached(newline, false, from) - from
    {
      ghost var compared: nat;
      newline, compared := IndexFrom(buffer, LF, from);
      scanned := scanned + compared;
    }

    /** The line that `newline` ends, cut out of the buffer and taken. */
    method ReadLine(start: nat, from: nat, newline: nat, ghost lines: seq<Bytes>, ghost p: Progress)
      returns (events: seq<Event>, ghost lines': seq<Bytes>, ghost p': Progress)
      requires !finished && Reading(received, lines, buffer, start, from, p, loads)
      requires FirstIndex(buffer, LF, from, Some(newline))
      requires !p.done && p.pending == dataLines && dataBytes == Chars(dataLines)
      modifies this`dataLines, this`dataBytes, this`finished
      ensures Reading(received, lines', buffer, newline + 1, newline + 1, p', loads)
      ensures p' == Progress(dataLines, finished, p.events + events) && dataBytes == Chars(dataLines)
    {
      LineRead(received, lines, buffer, start, from, p, newline, loads);
      ghost var line := buffer[start..newline];
      lines', p' := lines + [line], LineStep(p, LineText(line), loads);
      events := TakeLine(LineText(buffer[start..newline]), p);
    }

    /** A line read, and the search resumed past it unless the line was the terminator. */
    method ReadOn(start: nat, from: nat, newline: nat, ghost lines: seq<Bytes>, ghost p: Progress)
      returns (events: seq<Event>, next: Option<nat>, ghost lines': seq<Bytes>, ghost p': Progress)
      requires !finished && Reading(received, lines, buffer, start, from, p, loads)
      requires FirstIndex(buffer, LF, from, Some(newline))
      requires !p.done && p.pending == dataLines && dataBytes == Chars(dataLines)
      modifies this`dataLines, this`dataBytes, this`finished, this`scanned
      ensures Reading(received, lines', buffer, newline + 1, newline + 1, p', loads)
      ensures p' == Progress(dataLines, finished, p.events + events) && dataBytes == Chars(dataLines)
      ensures !finished ==> FirstIndex(buffer, LF, newline + 1, next)
      ensures scanned == old(scanned) + Reached(next, finished, newline + 1) - (newline + 1)
    {
      events, lines', p' := ReadLine(start, from, newline, lines, p);
      next := None;
      if !finished {
        next := Search(newline + 1);
      }
    }

    /** The lines the buffer completes, each taken in turn; returns where the first unread line
        starts and where the newline search would resume. */
    method Drain(ghost lines0: seq<Bytes>, ghost p0: Progress)
      returns (events: seq<Event>, start: nat, from: nat)
      requires !finished && Reading(received, lines0, buffer, 0, searchFrom, p0, loads)
      requires !p0.done && p0.pending == dataLines && dataBytes == Chars(dataLines)
      modifies this`dataLines, this`dataBytes, this`finished, this`scanned
      ensures After(received, loads) == Progress(dataLines, finished, p0.events + events)
      ensures dataBytes == Chars(dataLines)
      ensures start <= from <= |buffer| && searchFrom <= from && (start == 0 || start > searchFrom)
      ensures !finished ==> buffer[start..] == Tail(received, LF)
      ensures scanned == old(scanned) + (if finished then from else |buffer|) - searchFrom
    {
      ghost var lines, p := lines0, p0;
      ghost var all, whole := received, buffer;
      events, start, from := [], 0, searchFrom;
      var newline := Search(from);
      while newline.Some? && !finished
        invariant received == all && buffer == whole && Reading(all, lines, whole, start, from, p, loads)
        invariant Ahead(start, from)
        invariant !finished ==> FirstIndex(whole, LF, from, newline)
        invariant p.pending == dataLines && p.done == finished && p.events == p0.events + events
        invariant dataBytes == Chars(dataLines)
        invariant scanned == old(scanned) + Reached(newline, finished, from) - searchFrom
        decreases |buffer| - from, !finished
      {
        var more, next;
        more, next, lines, p := ReadOn(start, from, newline.value, lines, p);
        assert p.events == p0.events + (events + more) by {
          Associative(p0.events, events, more);
        }
        events := events + more;
        start, from, newline := newline.value + 1, newline.value + 1, next;
      }
      AllRead(received, lines, buffer, start, from, p, loads);
    }

    /** One chunk: the events its newly completed lines dispatch, an overflow error when the
        retained bytes and the pending block together exceed the bound. */
    method Push(chunk: Bytes) returns (events: seq<Event>)
      requires Valid() && !finished
      modifies this
      ensures Valid() && received == old(received) + chunk
      ensures finished == Stopped(received, loads)
      ensures Emitted(received, loads) == Batch(old(received), loads) + events
    {
      NewChunk(received, chunk, loads);
      ghost var lines0, p0 := Lines(received, LF), After(received, loads);
      received := received + chunk;
      buffer := buffer + chunk;
      assert buffer[0..searchFrom] == old(buffer) && buffer[0..] == buffer;
      var start, from;
      events, start, from := Drain(lines0, p0);
      if finished {
        return;
      }
      shifted := shifted + if start == 0 then 0 else |buffer| - start;
      buffer := buffer[start..];
      searchFrom := |buffer|;
      if |buffer| + dataBytes > MAX_FRAME_BYTES {
        finished := true;
        events := events + [Error(TooLong)];
      }
    }
  }

  /** The whole stream, chunk by chunk. Scanning and compaction each touch at most as many bytes
      as were received. */
  method DecodeSse(chunks: seq<Bytes>, loads: Loads)
    returns (events: seq<Event>, ghost scanned: nat, ghost shifted: nat)
    ensures events == Decoded(chunks, loads)
    ensures scanned <= |Concat(chunks)| && shifted <= |Concat(chunks)|
  {
    var decoder := new Decoder(loads);
    events := [];
    var k := 0;
    assert Concat(chunks[..0]) == [];
    EmptyStream(loads);
    while k < |chunks| && !decoder.finished
      invariant k <= |chunks| && decoder.Valid() && fresh(decoder) && decoder.loads == loads
      invariant decoder.received == Concat(chunks[..k])
      invariant decoder.finished == Stopped(decoder.received, loads)
      invariant StopAt(chunks, loads, 0) == StopAt(chunks, loads, k)
      invariant events == Emitted(decoder.received, loads)
      decreases |chunks| - k
    {
      ReadOneMore(chunks, k, loads);
      var more := decoder.Push(chunks[k]);
      events := events + more;
      k := k + 1;
    }
    scanned, shifted := decoder.scanned, decoder.shifted;
    ReadAndRest(chunks, k);
  }
}
