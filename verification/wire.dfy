/** The stream as a sender sees it: what each line means, told without the decoder's steps, and
    payloads of any number of lines sent as blocks. */
module Wire {
  import opened Texts
  import opened Utf8
  import opened Frames
  import opened Meanings
  import opened Sse

  /** A line that carries `payload`: after the field name, at most one space is not part of it. */
  predicate Carries(line: Text, payload: Text) {
    || line == Ascii("data: ") + payload
    || (line == Ascii("data:") + payload && (payload == [] || payload[0] != 32))
  }

  /** Any other line but the blank one: a comment, another field, anything. */
  predicate Ignored(line: Text) {
    line != [] && !IsPrefix(Ascii("data:"), line)
  }

  lemma {:induction false} DataAsNamed(payload: Text)
    ensures DATA == Ascii("data:") && Ascii("data: ") == DATA + SPACE && DONE == Ascii("[DONE]")
    ensures Ascii("data: ") + payload == DATA + (SPACE + payload)
  {
  }

  /** Until the terminator: a payload joins the block, a line of no use changes nothing, and a
      blank line dispatches what the block joined by newlines means, or ends the stream. */
  lemma {:induction false} LineMeans(p: Progress, line: Text, payload: Text, loads: Loads)
    requires !p.done
    ensures Carries(line, payload) ==> LineStep(p, line, loads) == p.(pending := p.pending + [payload])
    ensures Ignored(line) ==> LineStep(p, line, loads) == p
    ensures line == [] ==>
              LineStep(p, line, loads)
              == if p.pending == [] then p
                 else if Join(p.pending, 10) == Ascii("[DONE]") then Progress([], true, p.events)
                 else Progress([], false, p.events + Meaning(loads(Join(p.pending, 10)), Join(p.pending, 10)))
  {
    DataAsNamed(payload);
    FrameMeans(loads, Join(p.pending, NL));
    if Carries(line, payload) {
      if line == Ascii("data: ") + payload {
        assert line[|DATA|..] == SPACE + payload && (SPACE + payload)[1..] == payload;
      } else {
        assert line[|DATA|..] == payload;
      }
      assert line[..|DATA|] == DATA;
    }
  }

  /** Encoding keeps line ends apart: a text without one has none in its bytes. */
  lemma {:induction false} EncodedLine(line: Text)
    requires Encodable(line) && NL !in line
    ensures LF !in Encode(line)
    ensures line != [] && line[|line| - 1] != CR ==> Encode(line)[|Encode(line)| - 1] != RETURN
  {
    if line != [] {
      var rest := line[1..];
      EncodedLine(rest);
      var e := EncodeCode(line[0]);
      assert line[0] != NL;
      assert forall b <- e :: b != LF;
      assert rest == [] ==> Encode(rest) == [] && Encode(line) == e;
      assert rest != [] ==> Encode(line)[|Encode(line)| - 1] == Encode(rest)[|Encode(rest)| - 1];
      assert e[|e| - 1] == RETURN ==> line[0] == CR;
    }
  }

  /** One line more, on a stream whose last line has ended. */
  lemma {:induction false} LineAdds(before: Bytes, line: Text, loads: Loads)
    requires Tail(before, LF) == [] && Encodable(line) && NL !in line
    requires line == [] || line[|line| - 1] != CR
    ensures var after := before + (Encode(line) + [LF]);
            Tail(after, LF) == [] && After(after, loads) == LineStep(After(before, loads), line, loads)
  {
    var e := Encode(line);
    EncodedLine(line);
    var none: Bytes := [];
    LinesAppend(before, e + [LF], LF);
    assert none + (e + [LF]) == e + [LF] + none;
    SplitAt(e, none, LF);
    assert Split(none, LF) == [none];
    assert Lines(e + [LF] + none, LF) == [e];
    AfterLinesSnoc(Lines(before, LF), e, loads);
    RoundTrip(line, REPLACEMENT);
    assert StripReturns(e) == e;
  }

  /** A line sent under the field name. */
  function DataBytes(line: Text): Bytes
    requires Encodable(line)
  {
    DataEncodable(line);
    Encode(DATA + SPACE + line) + [LF]
  }

  function DataBlock(lines: seq<Text>): Bytes
    requires forall i :: 0 <= i < |lines| ==> Encodable(lines[i])
  {
    if lines == [] then []
    else DataBlock(lines[..|lines| - 1]) + DataBytes(lines[|lines| - 1])
  }

  /** The lines of a payload sent as one block, then a blank line. */
  function Sent(lines: seq<Text>): Bytes
    requires forall i :: 0 <= i < |lines| ==> Encodable(lines[i])
  {
    DataBlock(lines) + [LF]
  }

  lemma {:induction false} DataEncodable(line: Text)
    requires Encodable(line)
    ensures Encodable(DATA + SPACE + line)
    ensures NL !in line ==> NL !in DATA + SPACE + line
    ensures (line == [] || line[|line| - 1] != CR) ==>
              (DATA + SPACE + line)[|DATA + SPACE + line| - 1] != CR
  {
    EncodeAscii(DATA + SPACE);
    EncodeAppend(DATA + SPACE, line);
  }

  predicate Sendable(lines: seq<Text>) {
    forall i :: 0 <= i < |lines| ==>
      Encodable(lines[i]) && NL !in lines[i] && (lines[i] == [] || lines[i][|lines[i]| - 1] != CR)
  }

  lemma {:induction false} DataLineAdds(before: Bytes, line: Text, pending: seq<Text>, events: seq<Event>,
                                        loads: Loads)
    requires Tail(before, LF) == [] && After(before, loads) == Progress(pending, false, events)
    requires Sendable([line])
    ensures [line][0] == line
    ensures var after := before + DataBytes(line);
            Tail(after, LF) == [] && After(after, loads) == Progress(pending + [line], false, events)
  {
    assert [line][0] == line;
    DataEncodable(line);
    LineAdds(before, DATA + SPACE + line, loads);
    DataAsNamed(line);
    LineMeans(Progress(pending, false, events), DATA + SPACE + line, line, loads);
  }

  lemma {:induction false} DataAdds(before: Bytes, lines: seq<Text>, pending: seq<Text>, events: seq<Event>,
                                    loads: Loads)
    requires Tail(before, LF) == [] && After(before, loads) == Progress(pending, false, events)
    requires Sendable(lines)
    ensures var after := before + DataBlock(lines);
            Tail(after, LF) == [] && After(after, loads) == Progress(pending + lines, false, events)
  {
    if lines == [] {
      assert before + [] == before && pending + [] == pending;
    } else {
      var front, last := lines[..|lines| - 1], lines[|lines| - 1];
      SendableParts(lines);
      DataAdds(before, front, pending, events, loads);
      DataLineAdds(before + DataBlock(front), last, pending + front, events, loads);
      BlockSnoc(before, lines);
      Associative(pending, front, [last]);
    }
  }

  lemma {:induction false} SendableParts(lines: seq<Text>)
    requires lines != [] && Sendable(lines)
    ensures Sendable(lines[..|lines| - 1]) && Sendable([lines[|lines| - 1]])
    ensures lines == lines[..|lines| - 1] + [lines[|lines| - 1]]
  {
  }

  lemma {:induction false} BlockSnoc(before: Bytes, lines: seq<Text>)
    requires lines != [] && forall i :: 0 <= i < |lines| ==> Encodable(lines[i])
    ensures before + DataBlock(lines)
         == before + DataBlock(lines[..|lines| - 1]) + DataBytes(lines[|lines| - 1])
  {
    Associative(before, DataBlock(lines[..|lines| - 1]), DataBytes(lines[|lines| - 1]));
  }

  lemma {:induction false} BlankAdds(before: Bytes, loads: Loads)
    requires Tail(before, LF) == []
    ensures var after := before + [LF];
            Tail(after, LF) == [] && After(after, loads) == LineStep(After(before, loads), [], loads)
  {
    LineAdds(before, [], loads);
    assert Encode([]) + [LF] == [LF];
  }

  lemma {:induction false} BlockAdds(before: Bytes, lines: seq<Text>, pending: seq<Text>, events: seq<Event>,
                                     loads: Loads)
    requires Tail(before, LF) == [] && After(before, loads) == Progress(pending, false, events)
    requires Sendable(lines)
    ensures var after := before + Sent(lines);
            && Tail(after, LF) == []
            && After(after, loads) == LineStep(Progress(pending + lines, false, events), [], loads)
  {
    DataAdds(before, lines, pending, events, loads);
    BlankAdds(before + DataBlock(lines), loads);
    Associative(before, DataBlock(lines), [LF]);
  }

  /** A payload of any number of lines, sent as one block, arrives whole and adds exactly the
      events it means, or ends the stream if it is the terminator. */
  lemma {:induction false} PayloadArrives(before: Bytes, payload: Text, events: seq<Event>, loads: Loads)
    requires Tail(before, LF) == [] && After(before, loads) == Progress([], false, events)
    requires Sendable(Split(payload, 10))
    ensures After(before + Sent(Split(payload, 10)), loads)
         == if payload == Ascii("[DONE]") then Progress([], true, events)
            else Progress([], false, events + Meaning(loads(payload), payload))
  {
    var lines := Split(payload, NL);
    SplitJoin(payload, NL);
    BlockAdds(before, lines, [], events, loads);
    assert [] + lines == lines;
    LineMeans(Progress(lines, false, events), [], [], loads);
  }

  /** So an upstream error sent as a block adds exactly that one error to the stream's events. */
  lemma {:induction false} ErrorArrives(before: Bytes, payload: Text, loads: Loads)
    requires Tail(before, LF) == [] && !After(before, loads).done && After(before, loads).pending == []
    requires Sendable(Split(payload, 10)) && payload != Ascii("[DONE]")
    requires loads(payload).Some? && loads(payload).value.Object?
    requires Ascii("error") in loads(payload).value.fields
    ensures Batch(before + Sent(Split(payload, 10)), loads)
         == Batch(before, loads) + [Error(Complaint(loads(payload).value.fields[Ascii("error")]))]
  {
    PayloadArrives(before, payload, Batch(before, loads), loads);
  }

  /** The pending block is counted by its characters, line ends apart. */
  lemma {:induction false} CharsAreLength(pending: seq<Text>)
    ensures Chars(pending) == |Concat(pending)|
  {
    if pending != [] {
      CharsAreLength(pending[..|pending| - 1]);
    }
  }

  /** The bound: a mebibyte, on the bytes not yet ended by a line feed and the block's characters. */
  lemma {:induction false} OverflowMeans(bytes: Bytes, loads: Loads)
    ensures Overflows(bytes, loads) <==>
              && !After(bytes, loads).done
              && |Tail(bytes, 10)| + |Concat(After(bytes, loads).pending)| > 1_048_576
  {
    CharsAreLength(After(bytes, loads).pending);
  }

  // ---- line endings ----------------------------------------------------------------------

  function WithReturn(line: Bytes): Bytes {
    line + [RETURN]
  }

  lemma {:induction false} ReturnsIgnored(lines: seq<Bytes>, loads: Loads)
    ensures AfterLines(WithReturns(lines), loads) == AfterLines(lines, loads)
  {
    if lines != [] {
      var n := |lines| - 1;
      assert WithReturns(lines)[..n] == WithReturns(lines[..n]);
      ReturnsIgnored(lines[..n], loads);
      assert WithReturn(lines[n])[..|lines[n]|] == lines[n];
    }
  }

  function WithReturns(lines: seq<Bytes>): seq<Bytes> {
    seq(|lines|, i requires 0 <= i < |lines| => WithReturn(lines[i]))
  }

  /** The byte stream with every line feed sent as a carriage return and a line feed. */
  function Crlf(bytes: Bytes): Bytes {
    if bytes == [] then []
    else (if bytes[0] == LF then [RETURN, LF] else [bytes[0]]) + Crlf(bytes[1..])
  }

  lemma {:induction false} CrlfLines(bytes: Bytes)
    ensures Lines(Crlf(bytes), LF) == WithReturns(Lines(bytes, LF))
    ensures Tail(Crlf(bytes), LF) == Tail(bytes, LF)
  {
    if bytes != [] {
      var x, rest := bytes[0], bytes[1..];
      assert bytes == [x] + rest;
      CrlfLines(rest);
      SplitCons(x, rest, LF);
      if x == LF {
        assert Crlf(bytes) == [RETURN] + ([LF] + Crlf(rest));
        SplitCons(LF, Crlf(rest), LF);
        SplitCons(RETURN, [LF] + Crlf(rest), LF);
        CrlfBreak(Split(rest, LF), Split(Crlf(rest), LF));
      } else {
        SplitCons(x, Crlf(rest), LF);
        CrlfJoin(x, Split(rest, LF), Split(Crlf(rest), LF));
      }
    }
  }

  /** `b` is `a` with a return at the end of every piece but the last. */
  predicate Returned(a: seq<Bytes>, b: seq<Bytes>) {
    && |a| == |b| >= 1 && b[|b| - 1] == a[|a| - 1]
    && b[..|b| - 1] == WithReturns(a[..|a| - 1])
  }

  lemma {:induction false} CrlfBreak(a: seq<Bytes>, b: seq<Bytes>)
    requires |a| >= 1 && |b| >= 1 && Returned(a, b)
    ensures Returned(Onto(LF, a, LF), Onto(RETURN, Onto(LF, b, LF), LF))
  {
    var none: Bytes := [];
    assert [RETURN] + none == WithReturn(none);
    assert Onto(RETURN, Onto(LF, b, LF), LF) == [WithReturn(none)] + b;
    assert ([none] + a)[..|a|] == [none] + a[..|a| - 1];
    assert ([WithReturn(none)] + b)[..|b|] == [WithReturn(none)] + b[..|b| - 1];
  }

  lemma {:induction false} CrlfJoin(x: Byte, a: seq<Bytes>, b: seq<Bytes>)
    requires x != LF && |a| >= 1 && |b| >= 1 && Returned(a, b)
    ensures Returned(Onto(x, a, LF), Onto(x, b, LF))
  {
    var p, q := Onto(x, a, LF), Onto(x, b, LF);
    if |a| > 1 {
      assert b[0] == b[..|b| - 1][0] == WithReturn(a[0]);
      assert [x] + WithReturn(a[0]) == WithReturn([x] + a[0]);
      assert forall i :: 1 <= i < |b| - 1 ==> b[i] == b[..|b| - 1][i] == WithReturn(a[i]);
    }
  }

  /** CRLF line ends decode exactly as LF ones: the same events, the same block pending, the same
      tail still to be read. */
  lemma {:induction false} CrlfInvariant(bytes: Bytes, loads: Loads)
    ensures After(Crlf(bytes), loads) == After(bytes, loads)
    ensures Excess(Crlf(bytes), loads) == Excess(bytes, loads)
  {
    CrlfLines(bytes);
    ReturnsIgnored(Lines(bytes, LF), loads);
  }
}
