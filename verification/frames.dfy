/** One complete SSE data frame, mapped to typed events. JSON text is read by a given function;
    the wording of error messages is represented by what the message is about. */
module Frames {
  import opened Texts

  datatype Json =
    | Null
    | Bool(b: bool)
    | Int(n: int)
    | Float
    | Str(t: Text)
    | Array(items: seq<Json>)
    | Object(fields: map<Text, Json>)

  datatype Cause =
    | Malformed(shown: Text)
    | FrameShape
    | Shape(field: Text)
    | Upstream(message: Text)
    | Rendered(value: Json)
    | TooLong

  datatype Event =
    | Delta(text: Text)
    | Reasoning(text: Text)
    | Finish(reason: Text)
    | Usage(completionTokens: nat)
    | Error(cause: Cause)

  /** Either the events of a sound frame part, or the one error that replaces them. */
  datatype Translated = Events(events: seq<Event>) | Refused(cause: Cause)

  const ERROR := Ascii("error")
  const MESSAGE := Ascii("message")
  const CHOICES := Ascii("choices")
  const CHOICE := Ascii("choice")
  const FINISH_REASON := Ascii("finish_reason")
  const DELTA := Ascii("delta")
  const REASONING_CONTENT := Ascii("reasoning_content")
  const CONTENT := Ascii("content")
  const USAGE := Ascii("usage")
  const COMPLETION_TOKENS := Ascii("completion_tokens")

  function Get(fields: map<Text, Json>, key: Text, default: Json): Json {
    if key in fields then fields[key] else default
  }

  function ErrorCause(error: Json): Cause {
    if error.Object? && Get(error.fields, MESSAGE, Null).Str?
    then Upstream(error.fields[MESSAGE].t)
    else Rendered(error)
  }

  function DeltaTextEvents(delta: map<Text, Json>): Translated {
    var reasoning := Get(delta, REASONING_CONTENT, Null);
    var content := Get(delta, CONTENT, Null);
    if !reasoning.Null? && !reasoning.Str? then Refused(Shape(REASONING_CONTENT))
    else if !content.Null? && !content.Str? then Refused(Shape(CONTENT))
    else Events((if reasoning.Str? && reasoning.t != [] then [Reasoning(reasoning.t)] else [])
                + (if content.Str? && content.t != [] then [Delta(content.t)] else []))
  }

  function ChoiceEvent(choice: Json): Translated {
    if !choice.Object? then Refused(Shape(CHOICE))
    else
      var reason := Get(choice.fields, FINISH_REASON, Null);
      var delta := Get(choice.fields, DELTA, Object(map[]));
      if !reason.Null? && !reason.Str? then Refused(Shape(FINISH_REASON))
      else if !delta.Object? then Refused(Shape(DELTA))
      else
        match DeltaTextEvents(delta.fields)
        case Refused(c) => Refused(c)
        case Events(es) => Events(es + if reason.Str? then [Finish(reason.t)] else [])
  }

  /** The choices' events in order, or the first refusal among them. */
  function ChoiceEvents(items: seq<Json>): Translated {
    if items == [] then Events([])
    else
      match ChoiceEvents(items[..|items| - 1])
      case Refused(c) => Refused(c)
      case Events(es) =>
        match ChoiceEvent(items[|items| - 1])
        case Refused(c) => Refused(c)
        case Events(more) => Events(es + more)
  }

  /** `_choice_events`: stops at the first refusal, emitting nothing of the choices before it. */
  method CollectChoices(choices: Json) returns (r: Translated)
    ensures r == if choices.Array? then ChoiceEvents(choices.items) else Refused(Shape(CHOICES))
  {
    if !choices.Array? {
      return Refused(Shape(CHOICES));
    }
    var events: seq<Event> := [];
    for i := 0 to |choices.items|
      invariant ChoiceEvents(choices.items[..i]) == Events(events)
    {
      var one := ChoiceEvent(choices.items[i]);
      assert choices.items[..i + 1][..i] == choices.items[..i];
      if one.Refused? {
        RefusalSticks(choices.items, i + 1, one.cause);
        return one;
      }
      events := events + one.events;
    }
    assert choices.items[..|choices.items|] == choices.items;
    return Events(events);
  }

  lemma {:induction false} RefusalSticks(items: seq<Json>, k: nat, c: Cause)
    requires k <= |items| && ChoiceEvents(items[..k]) == Refused(c)
    ensures ChoiceEvents(items) == Refused(c)
    decreases |items|
  {
    if k < |items| {
      var front := items[..|items| - 1];
      assert front[..k] == items[..k];
      RefusalSticks(front, k, c);
    } else {
      assert items[..k] == items;
    }
  }

  function UsageEvents(usage: Json): Translated {
    if usage.Null? then Events([])
    else if !usage.Object? then Refused(Shape(USAGE))
    else
      var completion := Get(usage.fields, COMPLETION_TOKENS, Null);
      if completion.Null? then Events([])
      else if !completion.Int? || completion.n < 0 then Refused(Shape(COMPLETION_TOKENS))
      else Events([Usage(completion.n)])
  }

  function FrameEvents(loads: Text -> Option<Json>, payload: Text): seq<Event> {
    match loads(payload)
    case None => [Error(Malformed(if |payload| <= 120 then payload else payload[..120]))]
    case Some(frame) =>
      if !frame.Object? then [Error(FrameShape)]
      else if ERROR in frame.fields then [Error(ErrorCause(frame.fields[ERROR]))]
      else
        var choices := Get(frame.fields, CHOICES, Array([]));
        var chosen := if choices.Array? then ChoiceEvents(choices.items) else Refused(Shape(CHOICES));
        if chosen.Refused? then [Error(chosen.cause)]
        else
          var usage := UsageEvents(Get(frame.fields, USAGE, Null));
          if usage.Refused? then [Error(usage.cause)] else chosen.events + usage.events
  }

  // ---- what a frame can emit -------------------------------------------------------------

  predicate Sound(e: Event) {
    !e.Error? && (e.Delta? || e.Reasoning? ==> e.text != [])
  }

  function DeltaText(events: seq<Event>): Text {
    if events == [] then []
    else DeltaText(events[..|events| - 1]) +
         var e := events[|events| - 1]; if e.Delta? then e.text else []
  }

  lemma {:induction false} DeltaTextAppend(a: seq<Event>, b: seq<Event>)
    ensures DeltaText(a + b) == DeltaText(a) + DeltaText(b)
  {
    if b == [] {
      assert a + b == a;
    } else {
      assert (a + b)[..|a + b| - 1] == a + b[..|b| - 1];
      DeltaTextAppend(a, b[..|b| - 1]);
    }
  }

  /** The `delta.content` of one choice, empty when absent. */
  function ChoiceContent(choice: Json): Text {
    if !choice.Object? then []
    else
      var delta := Get(choice.fields, DELTA, Null);
      if !delta.Object? then []
      else
        var content := Get(delta.fields, CONTENT, Null);
        if content.Str? then content.t else []
  }

  lemma {:induction false} ConcatSound(a: seq<Event>, b: seq<Event>)
    requires forall e <- a :: Sound(e)
    requires forall e <- b :: Sound(e)
    ensures DeltaText(a + b) == DeltaText(a) + DeltaText(b) && forall e <- a + b :: Sound(e)
  {
    DeltaTextAppend(a, b);
  }

  lemma {:induction false} OneEvent(e: Event)
    ensures DeltaText([e]) == if e.Delta? then e.text else []
  {
    assert [e][..0] == [];
  }

  lemma {:induction false} DeltaFaithful(delta: map<Text, Json>)
    ensures var r, content := DeltaTextEvents(delta), Get(delta, CONTENT, Null);
            r.Events? ==> && DeltaText(r.events) == (if content.Str? then content.t else [])
                          && forall e <- r.events :: Sound(e)
  {
    var reasoning, content := Get(delta, REASONING_CONTENT, Null), Get(delta, CONTENT, Null);
    var a := if reasoning.Str? && reasoning.t != [] then [Reasoning(reasoning.t)] else [];
    var b := if content.Str? && content.t != [] then [Delta(content.t)] else [];
    if a != [] {
      OneEvent(a[0]);
    }
    if b != [] {
      OneEvent(b[0]);
    }
    ConcatSound(a, b);
  }

  lemma {:induction false} ChoiceEventFaithful(choice: Json)
    ensures var r := ChoiceEvent(choice);
            r.Events? ==> DeltaText(r.events) == ChoiceContent(choice) && forall e <- r.events :: Sound(e)
  {
    if ChoiceEvent(choice).Events? {
      var delta := Get(choice.fields, DELTA, Object(map[])).fields;
      var reason := Get(choice.fields, FINISH_REASON, Null);
      DeltaFaithful(delta);
      if reason.Str? {
        OneEvent(Finish(reason.t));
        ConcatSound(DeltaTextEvents(delta).events, [Finish(reason.t)]);
      }
    }
  }

  lemma {:induction false} ChoicesFaithful(items: seq<Json>)
    ensures var r := ChoiceEvents(items);
            r.Events? ==>
              && DeltaText(r.events) == Concat(seq(|items|, i requires 0 <= i < |items| => ChoiceContent(items[i])))
              && forall e <- r.events :: Sound(e)
  {
    var r := ChoiceEvents(items);
    if items != [] && r.Events? {
      var n := |items| - 1;
      var front := items[..n];
      ChoicesFaithful(front);
      ChoiceEventFaithful(items[n]);
      DeltaTextAppend(ChoiceEvents(front).events, ChoiceEvent(items[n]).events);
      var whole := seq(|items|, i requires 0 <= i < |items| => ChoiceContent(items[i]));
      assert whole[..n] == seq(n, i requires 0 <= i < n => ChoiceContent(front[i]));
    }
  }

  /** All or nothing: a frame emits one error alone, or events without any error and without empty
      text, whose content is the content of its choices in order. */
  lemma {:induction false} FrameAllOrNothing(loads: Text -> Option<Json>, payload: Text)
    ensures var es := FrameEvents(loads, payload);
            || (|es| == 1 && es[0].Error?)
            || (&& (forall e <- es :: Sound(e))
                && loads(payload).Some? && loads(payload).value.Object?
                && var choices := Get(loads(payload).value.fields, CHOICES, Array([]));
                   && choices.Array?
                   && DeltaText(es) == Concat(seq(|choices.items|,
                        i requires 0 <= i < |choices.items| => ChoiceContent(choices.items[i]))))
  {
    var es := FrameEvents(loads, payload);
    if !(|es| == 1 && es[0].Error?) {
      var fields := loads(payload).value.fields;
      var choices := Get(fields, CHOICES, Array([]));
      ChoicesFaithful(choices.items);
      var usage := UsageEvents(Get(fields, USAGE, Null)).events;
      if usage != [] {
        OneEvent(usage[0]);
      }
      ConcatSound(ChoiceEvents(choices.items).events, usage);
    }
  }

  lemma {:induction false} ChoicesRefuseShape(items: seq<Json>)
    ensures ChoiceEvents(items).Refused? ==> ChoiceEvents(items).cause.Shape?
  {
    if items != [] {
      ChoicesRefuseShape(items[..|items| - 1]);
    }
  }

  lemma {:induction false} UsageSound(usage: Json)
    ensures var r := UsageEvents(usage);
            if r.Refused? then r.cause.Shape? else forall e <- r.events :: Sound(e)
  {
  }

  /** The overflow error is the decoder's own: no frame emits it. */
  lemma {:induction false} NoFrameOverflows(loads: Text -> Option<Json>, payload: Text)
    ensures Error(TooLong) !in FrameEvents(loads, payload)
  {
    if loads(payload).Some? && loads(payload).value.Object? && ERROR !in loads(payload).value.fields {
      var fields := loads(payload).value.fields;
      var choices := Get(fields, CHOICES, Array([]));
      var usage := UsageEvents(Get(fields, USAGE, Null));
      UsageSound(Get(fields, USAGE, Null));
      if choices.Array? {
        ChoicesRefuseShape(choices.items);
        ChoicesFaithful(choices.items);
        if ChoiceEvents(choices.items).Events? && usage.Events? {
          ConcatSound(ChoiceEvents(choices.items).events, usage.events);
        }
      }
    }
  }
}
