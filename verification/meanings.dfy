/** What a frame means, told without the translation's steps: which field is wrong first, and what
    a sound frame says. */
module Meanings {
  import opened Texts
  import opened Frames

  /** The text under a key, empty when absent, null or not a text. */
  function TextAt(fields: map<Text, Json>, key: Text): Text {
    if key in fields && fields[key].Str? then fields[key].t else []
  }

  predicate TextOrNull(fields: map<Text, Json>, key: Text) {
    key in fields ==> fields[key].Null? || fields[key].Str?
  }

  /** The delta of a choice, empty when absent. */
  function DeltaAt(choice: map<Text, Json>): map<Text, Json> {
    if Ascii("delta") in choice && choice[Ascii("delta")].Object? then choice[Ascii("delta")].fields else map[]
  }

  /** The first field of a choice that has the wrong shape. */
  function WrongInChoice(choice: Json): Option<Text> {
    if !choice.Object? then Some(Ascii("choice"))
    else
      var c := choice.fields;
      if !TextOrNull(c, Ascii("finish_reason")) then Some(Ascii("finish_reason"))
      else if Ascii("delta") in c && !c[Ascii("delta")].Object? then Some(Ascii("delta"))
      else if !TextOrNull(DeltaAt(c), Ascii("reasoning_content")) then Some(Ascii("reasoning_content"))
      else if !TextOrNull(DeltaAt(c), Ascii("content")) then Some(Ascii("content"))
      else None
  }

  /** The first such field of the choices, in order. */
  function WrongInChoices(items: seq<Json>): Option<Text> {
    if items == [] then None
    else if WrongInChoice(items[0]).Some? then WrongInChoice(items[0])
    else WrongInChoices(items[1..])
  }

  /** What a sound choice says: its reasoning, its content, its reason to finish, each if given. */
  function Says(choice: Json): seq<Event> {
    if !choice.Object? then []
    else
      var c := choice.fields;
      var reasoning := TextAt(DeltaAt(c), Ascii("reasoning_content"));
      var content := TextAt(DeltaAt(c), Ascii("content"));
      (if reasoning != [] then [Reasoning(reasoning)] else [])
      + (if content != [] then [Delta(content)] else [])
      + if Ascii("finish_reason") in c && c[Ascii("finish_reason")].Str?
        then [Finish(c[Ascii("finish_reason")].t)] else []
  }

  function SaysAll(items: seq<Json>): seq<Event> {
    if items == [] then [] else Says(items[0]) + SaysAll(items[1..])
  }

  /** The first field of the usage that has the wrong shape: a bool is no count. */
  function WrongInUsage(usage: Json): Option<Text> {
    match usage
    case Null => None
    case Object(u) =>
      if Ascii("completion_tokens") !in u then None
      else (match u[Ascii("completion_tokens")]
            case Null => None
            case Int(n) => if n >= 0 then None else Some(Ascii("completion_tokens"))
            case _ => Some(Ascii("completion_tokens")))
    case _ => Some(Ascii("usage"))
  }

  /** The count a sound usage gives, if it gives one. */
  function Counts(usage: Json): seq<Event> {
    if usage.Object? && Ascii("completion_tokens") in usage.fields
       && usage.fields[Ascii("completion_tokens")].Int? && usage.fields[Ascii("completion_tokens")].n >= 0
    then [Usage(usage.fields[Ascii("completion_tokens")].n)] else []
  }

  lemma {:induction false} KeysAsNamed()
    ensures ERROR == Ascii("error") && MESSAGE == Ascii("message") && CHOICES == Ascii("choices")
    ensures CHOICE == Ascii("choice") && FINISH_REASON == Ascii("finish_reason") && DELTA == Ascii("delta")
    ensures REASONING_CONTENT == Ascii("reasoning_content") && CONTENT == Ascii("content")
    ensures USAGE == Ascii("usage") && COMPLETION_TOKENS == Ascii("completion_tokens")
  {
  }

  lemma {:induction false} ChoiceMeans(choice: Json)
    ensures ChoiceEvent(choice)
         == match WrongInChoice(choice) case Some(f) => Refused(Shape(f)) case None => Events(Says(choice))
  {
    KeysAsNamed();
  }

  lemma {:induction false} ChoicesMean(items: seq<Json>)
    ensures ChoiceEvents(items)
         == match WrongInChoices(items) case Some(f) => Refused(Shape(f)) case None => Events(SaysAll(items))
  {
    if items != [] {
      ChoicesMean(items[..|items| - 1]);
      ChoiceMeans(items[|items| - 1]);
      ChoicesSnoc(items[..|items| - 1], items[|items| - 1]);
      assert items == items[..|items| - 1] + [items[|items| - 1]];
    }
  }

  lemma {:induction false} ChoicesSnoc(items: seq<Json>, last: Json)
    ensures WrongInChoices(items + [last])
         == if WrongInChoices(items).Some? then WrongInChoices(items) else WrongInChoice(last)
    ensures SaysAll(items + [last]) == SaysAll(items) + Says(last)
  {
    WrongSnoc(items, last);
    SaysSnoc(items, last);
  }

  lemma {:induction false} WrongSnoc(items: seq<Json>, last: Json)
    ensures WrongInChoices(items + [last])
         == if WrongInChoices(items).Some? then WrongInChoices(items) else WrongInChoice(last)
  {
    var all, wrong := items + [last], WrongInChoice(last);
    if items == [] {
      assert all == [last] && all[1..] == [];
    } else {
      assert all[1..] == items[1..] + [last] && all[0] == items[0];
      WrongSnoc(items[1..], last);
    }
  }

  lemma {:induction false} SaysSnoc(items: seq<Json>, last: Json)
    ensures SaysAll(items + [last]) == SaysAll(items) + Says(last)
  {
    var all, more := items + [last], Says(last);
    if items == [] {
      assert all == [last] && all[1..] == [];
      assert SaysAll(all) == more + [];
    } else {
      assert all[1..] == items[1..] + [last] && all[0] == items[0];
      SaysSnoc(items[1..], last);
      Associative(Says(items[0]), SaysAll(items[1..]), more);
    }
  }

  lemma {:induction false} UsageMeans(usage: Json)
    ensures UsageEvents(usage)
         == match WrongInUsage(usage) case Some(f) => Refused(Shape(f)) case None => Events(Counts(usage))
  {
    KeysAsNamed();
  }

  /** The cause an upstream error carries: its message, or all of it rendered. */
  function Complaint(error: Json): Cause {
    match error
    case Object(e) =>
      if Ascii("message") in e && e[Ascii("message")].Str? then Upstream(e[Ascii("message")].t)
      else Rendered(error)
    case _ => Rendered(error)
  }

  /** What a frame means. Without a reading, its first 120 characters as malformed; not an object,
      its shape; an upstream error, that error alone whatever else it holds; else the first wrong
      field of its choices, then of its usage; else all it says, and its count. */
  function Meaning(reading: Option<Json>, payload: Text): seq<Event> {
    match reading
    case None => [Error(Malformed(if |payload| > 120 then payload[..120] else payload))]
    case Some(Object(f)) =>
      if Ascii("error") in f then [Error(Complaint(f[Ascii("error")]))]
      else
        var choices := if Ascii("choices") in f then f[Ascii("choices")] else Array([]);
        var usage := if Ascii("usage") in f then f[Ascii("usage")] else Null;
        if !choices.Array? then [Error(Shape(Ascii("choices")))]
        else if WrongInChoices(choices.items).Some? then [Error(Shape(WrongInChoices(choices.items).value))]
        else if WrongInUsage(usage).Some? then [Error(Shape(WrongInUsage(usage).value))]
        else SaysAll(choices.items) + Counts(usage)
    case Some(_) => [Error(FrameShape)]
  }

  /** Every payload's events are exactly what its frame means. */
  lemma {:induction false} FrameMeans(loads: Text -> Option<Json>, payload: Text)
    ensures FrameEvents(loads, payload) == Meaning(loads(payload), payload)
  {
    KeysAsNamed();
    if loads(payload).Some? && loads(payload).value.Object? {
      var f := loads(payload).value.fields;
      var choices := Get(f, CHOICES, Array([]));
      if choices.Array? {
        ChoicesMean(choices.items);
      }
      UsageMeans(Get(f, USAGE, Null));
    }
  }

  /** A frame that holds an upstream error emits that error and nothing else. */
  lemma {:induction false} UpstreamError(loads: Text -> Option<Json>, payload: Text)
    requires loads(payload).Some? && loads(payload).value.Object?
    requires Ascii("error") in loads(payload).value.fields
    ensures var e := loads(payload).value.fields[Ascii("error")];
            && (e.Object? && Ascii("message") in e.fields && e.fields[Ascii("message")].Str? ==>
                  FrameEvents(loads, payload) == [Error(Upstream(e.fields[Ascii("message")].t))])
            && (!e.Object? || Ascii("message") !in e.fields || !e.fields[Ascii("message")].Str? ==>
                  FrameEvents(loads, payload) == [Error(Rendered(e))])
  {
    FrameMeans(loads, payload);
  }
}
