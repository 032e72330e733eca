/** The stream a benchmark replay serves for one file, followed through every layer that reads it:
    chunking, lines, frames, channels, the file frame. */
module Replay {
  import opened Texts
  import opened Utf8
  import opened Frames
  import opened Sse
  import opened Wire
  import E = Edits
  import H = Harmony
  import C = Client

  /** The JSON printer, and what is assumed of it on the values a replay prints: one line of ASCII
      that opens with a brace and reads back as the value. */
  type Dumps = Json -> Text

  predicate PrintsBack(dumps: Dumps, loads: Loads, j: Json) {
    var t := dumps(j);
    && t != [] && t[0] == 123 && (forall i :: 0 <= i < |t| ==> t[i] < 0x80)
    && NL !in t && CR !in t && loads(t) == Some(j)
  }

  // ---- the encoder -----------------------------------------------------------------------

  const INDEX := Ascii("index")
  const ROLE := Ascii("role")
  const ASSISTANT := Ascii("assistant")
  const STOP := Ascii("stop")
  const PROMPT_TOKENS := Ascii("prompt_tokens")
  const TOTAL_TOKENS := Ascii("total_tokens")

  /** The fields every chunk shares, none of which the decoder reads. */
  predicate IsBase(base: map<Text, Json>) {
    ERROR !in base && CHOICES !in base && USAGE !in base
  }

  function Chunk(base: map<Text, Json>, choices: seq<Json>): Json {
    Object(base[CHOICES := Array(choices)])
  }

  function Choice(delta: map<Text, Json>, reason: Json): Json {
    Object(map[INDEX := Int(0), DELTA := Object(delta), FINISH_REASON := reason])
  }

  function RoleChunk(base: map<Text, Json>): Json {
    Chunk(base, [Choice(map[ROLE := Str(ASSISTANT), CONTENT := Str([])], Null)])
  }

  function ContentChunk(base: map<Text, Json>, reply: Text): Json {
    Chunk(base, [Choice(map[CONTENT := Str(reply)], Null)])
  }

  function FinishChunk(base: map<Text, Json>): Json {
    Chunk(base, [Choice(map[], Str(STOP))])
  }

  function UsageChunk(base: map<Text, Json>): Json {
    Object(base[CHOICES := Array([])][USAGE := Object(
      map[PROMPT_TOKENS := Int(0), COMPLETION_TOKENS := Int(1), TOTAL_TOKENS := Int(1)])])
  }

  function FrameText(payload: Text): Text {
    DATA + SPACE + payload + [NL, NL]
  }

  function FrameBytes(dumps: Dumps, loads: Loads, j: Json): Bytes
    requires PrintsBack(dumps, loads, j)
  {
    AsciiFrame(dumps(j));
    Encode(FrameText(dumps(j)))
  }

  predicate AllPrintBack(dumps: Dumps, loads: Loads, base: map<Text, Json>, reply: Text) {
    && PrintsBack(dumps, loads, RoleChunk(base)) && PrintsBack(dumps, loads, ContentChunk(base, reply))
    && PrintsBack(dumps, loads, FinishChunk(base)) && PrintsBack(dumps, loads, UsageChunk(base))
  }

  /** `_completion_stream`: role, content, finish, usage, terminator. */
  function Stream(dumps: Dumps, loads: Loads, base: map<Text, Json>, reply: Text): Bytes
    requires AllPrintBack(dumps, loads, base, reply)
  {
    AsciiFrame(DONE);
    FrameBytes(dumps, loads, RoleChunk(base)) + FrameBytes(dumps, loads, ContentChunk(base, reply))
    + FrameBytes(dumps, loads, FinishChunk(base)) + FrameBytes(dumps, loads, UsageChunk(base))
    + Encode(FrameText(DONE))
  }

  // ---- one frame through the decoder -----------------------------------------------------

  predicate OneLine(t: Text) {
    (forall i :: 0 <= i < |t| ==> t[i] < 0x80) && NL !in t && CR !in t
  }

  lemma {:induction false} AsciiFrame(payload: Text)
    requires forall i :: 0 <= i < |payload| ==> payload[i] < 0x80
    ensures Encodable(FrameText(payload)) && Encodable(DATA + SPACE + payload)
    ensures NL !in payload && CR !in payload ==> OneLine(DATA + SPACE + payload)
  {
    var line := DATA + SPACE + payload;
    EncodeAscii(line);
    EncodeAscii(FrameText(payload));
  }

  /** Between frames: everything terminated, nothing pending, the terminator not yet seen. */
  predicate Between(bytes: Bytes, events: seq<Event>, loads: Loads) {
    Tail(bytes, LF) == [] && After(bytes, loads) == Progress([], false, events)
  }

  /** A frame's bytes are those of its payload sent as one line. */
  lemma {:induction false} FrameSent(payload: Text)
    requires OneLine(payload)
    ensures Encodable(payload) && Sendable([payload]) && Encodable(FrameText(payload))
    ensures Encode(FrameText(payload)) == Sent([payload])
  {
    var line := DATA + SPACE + payload;
    AsciiFrame(payload);
    EncodeAscii(payload);
    assert payload == [] || payload[|payload| - 1] in payload;
    EncodeAppend(line, [NL, NL]);
    assert [NL][1..] == [] && [NL, NL][1..] == [NL];
    assert Encode([NL]) == [LF];
    assert Encode([NL, NL]) == [LF, LF];
    assert [payload][..0] == [];
    assert DataBlock([payload]) == [] + DataBytes(payload) == Encode(line) + [LF];
    assert Encode(line) + [LF, LF] == Encode(line) + [LF] + [LF];
  }

  lemma {:induction false} FrameDecodes(before: Bytes, payload: Text, events: seq<Event>, loads: Loads)
    requires Between(before, events, loads) && OneLine(payload)
    ensures Encodable(FrameText(payload))
    ensures var after := before + Encode(FrameText(payload));
            && Tail(after, LF) == []
            && After(after, loads) == if payload == DONE then Progress([], true, events)
                                      else Progress([], false, events + FrameEvents(loads, payload))
  {
    FrameSent(payload);
    BlockAdds(before, [payload], [], events, loads);
    assert [] + [payload] == [payload] && Join([payload], NL) == payload;
  }

  lemma {:induction false} ChunkDecodes(before: Bytes, dumps: Dumps, j: Json, events: seq<Event>, loads: Loads)
    requires Between(before, events, loads) && PrintsBack(dumps, loads, j)
    ensures Between(before + FrameBytes(dumps, loads, j), events + FrameEvents(loads, dumps(j)), loads)
  {
    FrameDecodes(before, dumps(j), events, loads);
    assert dumps(j)[0] != DONE[0];
  }

  // ---- the four chunks -------------------------------------------------------------------

  lemma {:induction false} OneChoice(choice: Json)
    ensures ChoiceEvents([choice]) == ChoiceEvent(choice)
  {
    assert [choice][..0] == [];
  }

  lemma {:induction false} ChunkEvents(dumps: Dumps, loads: Loads, base: map<Text, Json>, choice: Json)
    requires IsBase(base) && PrintsBack(dumps, loads, Chunk(base, [choice])) && ChoiceEvent(choice).Events?
    ensures FrameEvents(loads, dumps(Chunk(base, [choice]))) == ChoiceEvent(choice).events
  {
    KeysDiffer();
    OneChoice(choice);
    var es := ChoiceEvent(choice).events;
    assert es + [] == es;
  }

  lemma {:induction false} KeysDiffer()
    ensures CHOICES != ERROR && CHOICES != USAGE && USAGE != ERROR
    ensures INDEX != DELTA && INDEX != FINISH_REASON && DELTA != FINISH_REASON
    ensures ROLE != CONTENT && ROLE != REASONING_CONTENT && CONTENT != REASONING_CONTENT
    ensures PROMPT_TOKENS != COMPLETION_TOKENS && TOTAL_TOKENS != COMPLETION_TOKENS
  {
    assert |CHOICES| == 7 && |ERROR| == 5 && |USAGE| == 5 && USAGE[0] != ERROR[0];
    assert |INDEX| == 5 && |DELTA| == 5 && |FINISH_REASON| == 13 && INDEX[0] != DELTA[0];
    assert |ROLE| == 4 && |CONTENT| == 7 && |REASONING_CONTENT| == 17;
    assert |PROMPT_TOKENS| == 13 && |COMPLETION_TOKENS| == 17 && |TOTAL_TOKENS| == 12;
  }

  lemma {:induction false} ChoiceMeans(reply: Text)
    requires reply != []
    ensures ChoiceEvent(Choice(map[ROLE := Str(ASSISTANT), CONTENT := Str([])], Null)) == Events([])
    ensures ChoiceEvent(Choice(map[CONTENT := Str(reply)], Null)) == Events([Delta(reply)])
    ensures ChoiceEvent(Choice(map[], Str(STOP))) == Events([Finish(STOP)])
  {
    KeysDiffer();
  }

  lemma {:induction false} UsageMeans(dumps: Dumps, loads: Loads, base: map<Text, Json>)
    requires IsBase(base) && PrintsBack(dumps, loads, UsageChunk(base))
    ensures FrameEvents(loads, dumps(UsageChunk(base))) == [Usage(1)]
  {
    KeysDiffer();
  }

  // ---- the whole stream ------------------------------------------------------------------

  function Served(reply: Text): seq<Event> {
    [Delta(reply), Finish(STOP), Usage(1)]
  }

  lemma {:induction false} ChoiceDecodes(
      before: Bytes, dumps: Dumps, base: map<Text, Json>, choice: Json, events: seq<Event>,
      more: seq<Event>, loads: Loads)
    requires Between(before, events, loads) && IsBase(base)
    requires PrintsBack(dumps, loads, Chunk(base, [choice])) && ChoiceEvent(choice) == Events(more)
    ensures Between(before + FrameBytes(dumps, loads, Chunk(base, [choice])), events + more, loads)
  {
    ChunkDecodes(before, dumps, Chunk(base, [choice]), events, loads);
    ChunkEvents(dumps, loads, base, choice);
  }

  /** Role, content and finish. */
  lemma {:induction false} ChoicesDecode(dumps: Dumps, loads: Loads, base: map<Text, Json>, reply: Text)
    requires IsBase(base) && reply != [] && AllPrintBack(dumps, loads, base, reply)
    ensures Between(FrameBytes(dumps, loads, RoleChunk(base)) + FrameBytes(dumps, loads, ContentChunk(base, reply))
                    + FrameBytes(dumps, loads, FinishChunk(base)), [Delta(reply), Finish(STOP)], loads)
  {
    ChoiceMeans(reply);
    var none: Bytes := [];
    var quiet: seq<Event> := [];
    var a := FrameBytes(dumps, loads, RoleChunk(base));
    assert none + a == a;
    ChoiceDecodes(none, dumps, base, Choice(map[ROLE := Str(ASSISTANT), CONTENT := Str([])], Null),
                  quiet, quiet, loads);
    assert quiet + quiet == quiet && quiet + [Delta(reply)] == [Delta(reply)];
    ChoiceDecodes(a, dumps, base, Choice(map[CONTENT := Str(reply)], Null), quiet, [Delta(reply)], loads);
    ChoiceDecodes(a + FrameBytes(dumps, loads, ContentChunk(base, reply)), dumps, base,
                  Choice(map[], Str(STOP)), [Delta(reply)], [Finish(STOP)], loads);
  }

  lemma {:induction false} UsageDecodes(
      before: Bytes, dumps: Dumps, loads: Loads, base: map<Text, Json>, events: seq<Event>)
    requires Between(before, events, loads) && IsBase(base) && PrintsBack(dumps, loads, UsageChunk(base))
    ensures Between(before + FrameBytes(dumps, loads, UsageChunk(base)), events + [Usage(1)], loads)
  {
    ChunkDecodes(before, dumps, UsageChunk(base), events, loads);
    UsageMeans(dumps, loads, base);
  }

  lemma {:induction false} TerminatorEnds(before: Bytes, events: seq<Event>, loads: Loads)
    requires Between(before, events, loads)
    ensures Encodable(FrameText(DONE))
    ensures After(before + Encode(FrameText(DONE)), loads) == Progress([], true, events)
  {
    FrameDecodes(before, DONE, events, loads);
  }

  /** The stream decodes to the reply, the stop and the usage, and then ends. */
  lemma {:induction false} StreamDecodes(dumps: Dumps, loads: Loads, base: map<Text, Json>, reply: Text)
    requires IsBase(base) && reply != [] && AllPrintBack(dumps, loads, base, reply)
    ensures After(Stream(dumps, loads, base, reply), loads) == Progress([], true, Served(reply))
  {
    ChoicesDecode(dumps, loads, base, reply);
    var choices := FrameBytes(dumps, loads, RoleChunk(base)) + FrameBytes(dumps, loads, ContentChunk(base, reply))
                   + FrameBytes(dumps, loads, FinishChunk(base));
    UsageDecodes(choices, dumps, loads, base, [Delta(reply), Finish(STOP)]);
    TerminatorEnds(choices + FrameBytes(dumps, loads, UsageChunk(base)),
                   [Delta(reply), Finish(STOP)] + [Usage(1)], loads);
  }

  lemma {:induction false} ServedBooks(reply: Text)
    ensures var es := Served(reply);
            && DeltaText(es) == reply && C.LastUsage(es) == Some(1)
            && C.LastFinish(es) == Some(STOP) && C.FinalFault(es) == None
  {
    var one, two: seq<Event> := [Delta(reply)], [Delta(reply), Finish(STOP)];
    OneEvent(Delta(reply));
    C.EventsSnoc(one, Finish(STOP));
    assert one + [Finish(STOP)] == two;
    C.EventsSnoc(two, Usage(1));
    assert two + [Usage(1)] == Served(reply);
    assert reply + [] == reply;
  }

  lemma {:induction false} ServedMeters(r: C.GenerationResult, reply: Text)
    requires C.Meters(r, Served(reply))
    ensures r.text == H.AssistantContent(reply) && r.completionTokens == 1 && !r.tokensEstimated
    ensures r.finishReason == Some(STOP) && r.fault.None?
  {
    ServedBooks(reply);
  }

  /** A file frame is no channel transcript. */
  lemma {:induction false} FramePassesThrough(path: Text, source: Text)
    ensures H.AssistantContent(E.ReplayFrame(path, source)) == E.ReplayFrame(path, source)
  {
    var t := E.ReplayFrame(path, source);
    assert t[0] == E.PREFIX[0] == 70;
    assert H.CHANNEL[0] == H.START[0] == 60;
  }

  /** `chunks` is some split of the stream that serves `reply`, none of it over the bound. */
  ghost predicate Replays(
      dumps: Dumps, loads: Loads, base: map<Text, Json>, reply: Text, chunks: seq<Bytes>) {
    && IsBase(base) && AllPrintBack(dumps, loads, base, reply)
    && Concat(chunks) == Stream(dumps, loads, base, reply)
    && StaysWithin(chunks, loads)
  }

  /** End to end: however the transport splits the replayed stream, as long as no split overflows
      the decoder, whatever a call that runs to the end meters is the reply, the server's own
      count and its stop; and the file read out of it is exactly the path and the source, for
      exactly the sources that are not wrapped in a fence. */
  lemma {:induction false} ReplayDelivers(
      dumps: Dumps, loads: Loads, base: map<Text, Json>, path: Text, source: Text,
      chunks: seq<Bytes>, r: C.GenerationResult)
    requires NL !in path && CR !in path && !IsBlank(path) && Encodable(path) && Encodable(source)
    requires Replays(dumps, loads, base, E.ReplayFrame(path, source), chunks)
    ensures C.Meters(r, Decoded(chunks, loads)) ==>
              && r.fault.None? && r.finishReason == Some(STOP)
              && r.completionTokens == 1 && !r.tokensEstimated
              && (E.ExtractFile(r.text) == Some(E.WholeFileReply(path, Encode(source)))
                  <==> !E.Wrapped(source))
  {
    var reply := E.ReplayFrame(path, source);
    assert reply[0] == E.PREFIX[0];
    StreamDecodes(dumps, loads, base, reply);
    DecodedIsBatch(chunks, loads);
    if C.Meters(r, Decoded(chunks, loads)) {
      ServedMeters(r, reply);
    }
    FramePassesThrough(path, source);
    E.FrameRoundTrip(path, source);
  }
}
