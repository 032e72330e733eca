/** One generation: stream, decode, watch, meter. The clock is the function giving its n-th
    reading; the transport is the chunks it yields, and whether it then reports silence. */
module Client {
  import opened Texts
  import opened Utf8
  import opened Frames
  import opened Derail
  import S = Sse
  import I = Decoding
  import H = Harmony

  type Clock = nat -> real

  datatype Budget = Budget(maxTokens: nat, generationTimeout: real)

  datatype GenerationResult =
    GenerationResult(text: Text, completionTokens: nat, tokensEstimated: bool, seconds: real,
                     derail: Option<Reason>, fault: Option<Cause>, finishReason: Option<Text>)

  // ---- what a stream of events amounts to ------------------------------------------------

  predicate IsFed(e: Event) {
    e.Delta? || e.Reasoning?
  }

  /** The deltas the guard and the observer are given: content and reasoning alike. */
  function Fed(events: seq<Event>): seq<Text> {
    if events == [] then []
    else
      var front, last := Fed(events[..|events| - 1]), events[|events| - 1];
      if IsFed(last) then front + [last.text] else front
  }

  function LastUsage(events: seq<Event>): Option<nat> {
    if events == [] then None
    else
      var last := events[|events| - 1];
      if last.Usage? then Some(last.completionTokens) else LastUsage(events[..|events| - 1])
  }

  function LastFinish(events: seq<Event>): Option<Text> {
    if events == [] then None
    else
      var last := events[|events| - 1];
      if last.Finish? then Some(last.reason) else LastFinish(events[..|events| - 1])
  }

  /** The error that ended the stream, the one place an error can stand. */
  function FinalFault(events: seq<Event>): Option<Cause> {
    if events != [] && events[|events| - 1].Error? then Some(events[|events| - 1].cause) else None
  }

  predicate NoErrorBeforeLast(events: seq<Event>) {
    forall i :: 0 <= i < |events| - 1 ==> !events[i].Error?
  }

  function TokensOf(chars: nat): nat {
    (chars + CHARS_PER_TOKEN - 1) / CHARS_PER_TOKEN
  }

  /** The result a stream of consumed events amounts to: the reply is exactly its content, reasoning
      never part of it; the tokens are the server's own count, or else a proxy over every delta
      the guard was fed; the reasons are the stream's own. */
  predicate Meters(r: GenerationResult, consumed: seq<Event>) {
    && r.text == H.AssistantContent(DeltaText(consumed))
    && r.tokensEstimated == LastUsage(consumed).None?
    && r.completionTokens == (if r.tokensEstimated then TokensOf(|Concat(Fed(consumed))|)
                              else LastUsage(consumed).value)
    && r.finishReason == LastFinish(consumed) && r.fault == FinalFault(consumed)
  }

  lemma {:induction false} EventsSnoc(events: seq<Event>, e: Event)
    ensures Fed(events + [e]) == Fed(events) + if IsFed(e) then [e.text] else []
    ensures DeltaText(events + [e]) == DeltaText(events) + if e.Delta? then e.text else []
    ensures LastUsage(events + [e]) == if e.Usage? then Some(e.completionTokens) else LastUsage(events)
    ensures LastFinish(events + [e]) == if e.Finish? then Some(e.reason) else LastFinish(events)
    ensures FinalFault(events + [e]) == if e.Error? then Some(e.cause) else None
  {
    assert (events + [e])[..|events|] == events;
    assert Fed(events) + [] == Fed(events);
  }

  /** All but the last delta fit the cap. */
  predicate OverrunsByOne(deltas: seq<Text>, cap: nat) {
    deltas != [] ==> |Concat(deltas[..|deltas| - 1])| <= cap
  }

  // ---- the clock -------------------------------------------------------------------------

  /** How many clock readings the guard's inputs carry. */
  function Readings(inputs: seq<Input>): nat {
    if inputs == [] then 0
    else Readings(inputs[..|inputs| - 1]) + if inputs[|inputs| - 1].Tick? then 1 else 2
  }

  /** They are the clock's own, one after another, from the third reading on: the call's start
      and the guard's deadline took the first two. */
  predicate Timed(inputs: seq<Input>, clock: Clock) {
    inputs == []
    || var front, last := inputs[..|inputs| - 1], inputs[|inputs| - 1];
       && Timed(front, clock) && last.now == clock(2 + Readings(front))
       && (last.Feed? ==> last.later == clock(3 + Readings(front)))
  }

  /** The bounds the guard takes from the budget: the clock's second reading starts the deadline. */
  function LimitsOf(budget: Budget, clock: Clock): Limits {
    Limits(clock(1) + budget.generationTimeout, budget.maxTokens * CHARS_PER_TOKEN)
  }

  /** How many readings the guard made: a delta the clock refuses is judged on one alone. */
  function Made(inputs: seq<Input>, tripped: Option<Reason>): nat {
    var n := Readings(inputs);
    if inputs != [] && inputs[|inputs| - 1].Feed? && ByClock(tripped) && n > 0 then n - 1 else n
  }

  lemma {:induction false} TimedSnoc(inputs: seq<Input>, x: Input, clock: Clock)
    requires Timed(inputs, clock) && x.now == clock(2 + Readings(inputs))
    requires x.Feed? ==> x.later == clock(3 + Readings(inputs))
    ensures Timed(inputs + [x], clock)
    ensures Readings(inputs + [x]) == Readings(inputs) + if x.Tick? then 1 else 2
  {
    assert (inputs + [x])[..|inputs|] == inputs;
  }

  // ---- one call's frame ------------------------------------------------------------------

  class Frame {
    const guard: DerailGuard
    const clock: Clock
    const limits: Limits
    var readings: nat
    var parts: seq<Text>
    var chars: nat
    var observed: seq<Text>
    var serverTokens: Option<nat>
    var fault: Option<Cause>
    var finishReason: Option<Text>

    ghost var consumed: seq<Event>
    ghost var inputs: seq<Input>

    /** The books agree with the events consumed. */
    ghost predicate Books()
      reads this`parts, this`chars, this`observed, this`serverTokens, this`fault, this`finishReason
      reads this`consumed
    {
      && Concat(parts) == DeltaText(consumed)
      && observed == Fed(consumed) && chars == |Concat(observed)|
      && serverTokens == LastUsage(consumed) && finishReason == LastFinish(consumed)
      && fault == FinalFault(consumed) && NoErrorBeforeLast(consumed)
    }

    /** The guard has seen exactly the deltas observed, and all but the last fit its cap. */
    ghost predicate Watched()
      reads this, guard
    {
      && guard.Valid() && guard.Abstract() == Run(guard.Bounds(), inputs)
      && guard.Bounds() == limits && Concat(observed) == TextOf(inputs)
      && OverrunsByOne(observed, guard.tokenCapChars)
    }

    /** The inputs carry the clock's readings, and the next reading is the one after them. */
    ghost predicate Clocked()
      reads this`readings, this`inputs, guard
    {
      Timed(inputs, clock) && readings == 2 + Made(inputs, guard.tripped)
    }

    ghost predicate Valid()
      reads this, guard
    {
      Books() && Watched() && Clocked()
    }

    /** The guard is one delta behind: `text` is observed and not yet fed. */
    ghost predicate Behind(prior: seq<Text>, text: Text)
      reads this`observed, this`inputs, guard
    {
      && guard.Valid() && guard.Abstract() == Run(guard.Bounds(), inputs) && guard.tripped.None?
      && guard.Bounds() == limits
      && observed == prior + [text] && Concat(prior) == TextOf(inputs)
    }

    ghost predicate Going()
      reads this, guard
    {
      guard.tripped.None? && fault.None?
    }

    constructor (budget: Budget, clock: Clock)
      ensures Valid() && Going() && fresh(guard) && this.clock == clock
      ensures limits == LimitsOf(budget, clock) && consumed == [] && inputs == []
    {
      guard := new DerailGuard(budget.maxTokens, budget.generationTimeout, clock(1));
      this.clock, limits, readings := clock, LimitsOf(budget, clock), 2;
      parts, chars, observed, serverTokens, fault, finishReason := [], 0, [], None, None, None;
      consumed, inputs := [], [];
    }

    /** The next reading of the clock. */
    method Now() returns (t: real)
      modifies this`readings
      ensures t == clock(old(readings)) && readings == old(readings) + 1
    {
      t := clock(readings);
      readings := readings + 1;
    }

    /** The metered result, from the books as they stand. */
    method Result(derail: Option<Reason>) returns (r: GenerationResult)
      requires Books()
      modifies this`readings
      ensures Meters(r, consumed) && r.derail == derail
      ensures r.seconds == clock(old(readings)) - clock(0)
    {
      var end := Now();
      return GenerationResult(
        H.AssistantContent(Concat(parts)),
        if serverTokens.None? then TokensOf(chars) else serverTokens.value,
        serverTokens.None?, end - clock(0), derail, fault, finishReason);
    }

    /** A chunk arrived: the guard's clock is judged before it is decoded. */
    method Tick() returns (stop: bool)
      requires Valid() && Going()
      modifies this, guard
      ensures Valid() && stop == !Going() && fault.None? && consumed == old(consumed)
    {
      var now := Now();
      ghost var t := Input.Tick(now);
      TimedSnoc(inputs, t, clock);
      RunSnoc(guard.Bounds(), inputs, t);
      NoText(inputs, t);
      var verdict := guard.Tick(now);
      inputs := inputs + [t];
      return verdict.Some?;
    }

    /** One event: recorded, and for a delta observed, then judged. */
    method Take(e: Event) returns (stop: bool)
      requires Valid() && Going()
      modifies this, guard
      ensures Valid() && stop == !Going() && consumed == old(consumed) + [e]
      ensures !(guard.tripped.Some? && fault.Some?)
    {
      if IsFed(e) {
        stop := TakeDelta(e);
      } else {
        Record(e);
        stop := e.Error?;
      }
    }

    /** What the server says beside its deltas. */
    method Record(e: Event)
      requires Books() && fault.None? && !IsFed(e)
      modifies this`serverTokens, this`finishReason, this`fault, this`consumed
      ensures Books() && consumed == old(consumed) + [e] && fault.Some? == e.Error?
    {
      EventsSnoc(consumed, e);
      NoErrorSnoc(consumed, e);
      consumed := consumed + [e];
      match e {
        case Usage(n) => serverTokens := Some(n);
        case Finish(reason) => finishReason := Some(reason);
        case Error(cause) => fault := Some(cause);
        case _ =>
      }
    }

    method TakeDelta(e: Event) returns (stop: bool)
      requires Valid() && Going() && IsFed(e)
      modifies this, guard
      ensures Valid() && stop == !Going() && consumed == old(consumed) + [e]
      ensures !(guard.tripped.Some? && fault.Some?)
    {
      ghost var prior := observed;
      Note(e);
      stop := Judge(prior, e.text);
    }

    /** The delta is kept, counted and shown to the observer. */
    method Note(e: Event)
      requires Books() && Watched() && Going() && IsFed(e)
      modifies this`parts, this`chars, this`observed, this`consumed
      ensures Books() && Behind(old(observed), e.text) && consumed == old(consumed) + [e]
    {
      EventsSnoc(consumed, e);
      NoErrorSnoc(consumed, e);
      if e.Delta? {
        ConcatSnoc(parts, e.text);
        parts := parts + [e.text];
      }
      ConcatSnoc(observed, e.text);
      chars := chars + |e.text|;
      observed := observed + [e.text];
      consumed := consumed + [e];
    }

    /** The delta just observed is fed to the guard. */
    method Judge(ghost prior: seq<Text>, text: Text) returns (stop: bool)
      requires Behind(prior, text) && Clocked()
      modifies this`readings, this`inputs, guard
      ensures Watched() && Clocked() && stop == guard.tripped.Some?
    {
      ghost var f := Feed(text, clock(readings), clock(readings + 1));
      FedOnce(prior, text, limits, inputs, f);
      stop := Hear(text);
    }

    /** The guard fed one delta: it reads the clock twice, or once if the clock trips it. */
    method Hear(text: Text) returns (stop: bool)
      requires Clocked() && guard.Valid() && guard.tripped.None?
      modifies this`readings, this`inputs, guard
      ensures Clocked() && guard.Valid() && stop == guard.tripped.Some?
      ensures var f := Feed(text, clock(old(readings)), clock(old(readings) + 1));
              inputs == old(inputs) + [f]
              && guard.Abstract() == StepOn(old(guard.Abstract()), guard.Bounds(), f)
    {
      var now, later := clock(readings), clock(readings + 1);
      ghost var f := Feed(text, now, later);
      TimedSnoc(inputs, f, clock);
      var verdict := guard.Feed(text, now, later);
      readings := readings + if ByClock(verdict) then 1 else 2;
      inputs := inputs + [f];
      return verdict.Some?;
    }

    /** The events of one chunk, up to the first that stops the call. */
    method TakeAll(events: seq<Event>) returns (stop: bool)
      requires Valid() && Going()
      modifies this, guard
      ensures Valid() && stop == !Going()
      ensures consumed <= old(consumed) + events
      ensures !stop ==> consumed == old(consumed) + events
      ensures !(guard.tripped.Some? && fault.Some?)
    {
      stop := false;
      var i := 0;
      assert consumed + events[..0] == consumed;
      while i < |events| && !stop
        invariant i <= |events| && Valid() && stop == !Going()
        invariant !(guard.tripped.Some? && fault.Some?)
        invariant consumed == old(consumed) + events[..i]
      {
        TakeSnoc(events, i);
        Associative(old(consumed), events[..i], [events[i]]);
        stop := Take(events[i]);
        i := i + 1;
      }
      TakeDrop(events, i);
      Associative(old(consumed), events[..i], events[i..]);
    }
  }

  lemma {:induction false} NoErrorSnoc(events: seq<Event>, e: Event)
    requires NoErrorBeforeLast(events) && FinalFault(events).None?
    ensures NoErrorBeforeLast(events + [e])
  {
  }

  lemma {:induction false} OverrunSnoc(deltas: seq<Text>, x: Text, cap: nat)
    requires |Concat(deltas)| <= cap
    ensures OverrunsByOne(deltas + [x], cap)
  {
    assert (deltas + [x])[..|deltas|] == deltas;
  }

  lemma {:induction false} NoText(inputs: seq<Input>, t: Input)
    requires t.Tick?
    ensures TextOf(inputs + [t]) == TextOf(inputs)
  {
    assert (inputs + [t])[..|inputs|] == inputs;
  }

  lemma {:induction false} MoreText(inputs: seq<Input>, f: Input)
    requires f.Feed?
    ensures TextOf(inputs + [f]) == TextOf(inputs) + f.text
  {
    assert (inputs + [f])[..|inputs|] == inputs;
  }

  /** One more delta observed and fed, the run before it untripped. */
  lemma {:induction false} FedOnce(prior: seq<Text>, text: Text, lim: Limits, inputs: seq<Input>, f: Input)
    requires f.Feed? && f.text == text && Concat(prior) == TextOf(inputs) && Run(lim, inputs).tripped.None?
    ensures OverrunsByOne(prior + [text], lim.cap)
    ensures Concat(prior + [text]) == TextOf(inputs + [f])
    ensures Run(lim, inputs + [f]) == StepOn(Run(lim, inputs), lim, f)
  {
    UntrippedIff(lim, inputs);
    OverrunSnoc(prior, text, lim.cap);
    ConcatSnoc(prior, text);
    RunSnoc(lim, inputs, f);
    MoreText(inputs, f);
  }

  /** What the decoder has emitted after `k` chunks is a prefix of all it will. */
  lemma {:induction false} EmittedSoFar(chunks: seq<Bytes>, k: nat, loads: S.Loads)
    requires k <= S.StopAt(chunks, loads, 0)
    ensures S.Batch(Concat(chunks[..k]), loads) <= S.Decoded(chunks, loads)
    ensures k < S.StopAt(chunks, loads, 0) ==> !S.Stopped(Concat(chunks[..k]), loads)
    ensures k == S.StopAt(chunks, loads, 0) ==>
              S.Emitted(Concat(chunks[..k]), loads) == S.Decoded(chunks, loads)
  {
    var n := S.StopAt(chunks, loads, 0);
    S.StopAtUnstopped(chunks, loads, 0);
    ReadOn(chunks[..k], chunks[k..n]);
    assert chunks[..k] + chunks[k..n] == chunks[..n];
    S.BatchGrows(Concat(chunks[..k]), Concat(chunks[k..n]), loads);
  }

  lemma {:induction false} ReadOn(a: seq<Bytes>, b: seq<Bytes>)
    ensures Concat(a + b) == Concat(a) + Concat(b)
  {
    ConcatAppend(a, b);
  }

  // ---- what a call amounts to, told from the events alone ----------------------------------

  /** The text of every delta, content and reasoning alike, in stream order. */
  function Spoken(events: seq<Event>): Text {
    if events == [] then []
    else
      Spoken(events[..|events| - 1])
      + match events[|events| - 1]
        case Delta(text) => text
        case Reasoning(text) => text
        case _ => []
  }

  lemma {:induction false} FedIsSpoken(events: seq<Event>)
    ensures Concat(Fed(events)) == Spoken(events)
  {
    if events != [] {
      var front, last := events[..|events| - 1], events[|events| - 1];
      FedIsSpoken(front);
      ConcatSnoc(Fed(front), if IsFed(last) then last.text else []);
    }
  }

  /** The first error of a stream. */
  function FirstError(events: seq<Event>): Option<Cause> {
    if events == [] then None
    else if events[0].Error? then Some(events[0].cause)
    else FirstError(events[1..])
  }

  lemma {:induction false} ErrorAt(events: seq<Event>, k: nat)
    requires k <= |events| && forall i :: 0 <= i < k ==> !events[i].Error?
    ensures k == |events| ==> FirstError(events) == None
    ensures k < |events| && events[k].Error? ==> FirstError(events) == Some(events[k].cause)
  {
    if k > 0 {
      ErrorAt(events[1..], k - 1);
    }
  }

  /** `x` is the last event of its kind, or there is none. */
  ghost predicate LastOfKind(events: seq<Event>, kind: Event -> bool, x: Option<Event>) {
    match x
    case None => forall i :: 0 <= i < |events| ==> !kind(events[i])
    case Some(e) => exists i :: 0 <= i < |events| && events[i] == e && kind(e)
                                && forall j :: i < j < |events| ==> !kind(events[j])
  }

  lemma {:induction false} LastUsageIs(events: seq<Event>)
    ensures LastOfKind(events, (e: Event) => e.Usage?,
                       if LastUsage(events).Some? then Some(Usage(LastUsage(events).value)) else None)
  {
    if events != [] && !events[|events| - 1].Usage? {
      LastUsageIs(events[..|events| - 1]);
    }
  }

  lemma {:induction false} LastFinishIs(events: seq<Event>)
    ensures LastOfKind(events, (e: Event) => e.Finish?,
                       if LastFinish(events).Some? then Some(Finish(LastFinish(events).value)) else None)
  {
    if events != [] && !events[|events| - 1].Finish? {
      LastFinishIs(events[..|events| - 1]);
    }
  }

  /** What the caller can hold a result to. `all` is what the whole stream decodes to. */
  ghost predicate Accounts(r: GenerationResult, observed: seq<Text>, consumed: seq<Event>, inputs: seq<Input>,
                           budget: Budget, all: seq<Event>) {
    // every delta observed and judged, content and reasoning, each character once
    && Concat(observed) == Spoken(consumed) == TextOf(inputs)
    // the proxy is over all of them, rounded up, and only where the server gave no count
    && (r.tokensEstimated ==> r.completionTokens == (|Spoken(consumed)| + 3) / 4)
    && LastOfKind(consumed, (e: Event) => e.Usage?,
                  if r.tokensEstimated then None else Some(Usage(r.completionTokens)))
    && LastOfKind(consumed, (e: Event) => e.Finish?,
                  if r.finishReason.None? then None else Some(Finish(r.finishReason.value)))
    // without a derail they fit the budget and do not loop, and the fault is the stream's first error
    && (r.derail.None? ==>
          && |Spoken(consumed)| <= 4 * budget.maxTokens && !Repeats(Spoken(consumed))
          && r.fault == FirstError(all))
  }

  lemma {:induction false} FaultIsFirst(consumed: seq<Event>, all: seq<Event>)
    requires NoErrorBeforeLast(consumed) && consumed <= all
    requires FinalFault(consumed).None? ==> consumed == all
    ensures FinalFault(consumed) == FirstError(all)
  {
    var n := |consumed|;
    if FinalFault(consumed).Some? {
      assert all[n - 1] == consumed[n - 1];
      ErrorAt(all, n - 1);
    } else {
      ErrorAt(all, n);
    }
  }

  lemma {:induction false} CallAccounts(
      r: GenerationResult, observed: seq<Text>, consumed: seq<Event>, inputs: seq<Input>,
      budget: Budget, clock: Clock, all: seq<Event>)
    requires Meters(r, consumed) && consumed <= all && observed == Fed(consumed)
    requires NoErrorBeforeLast(consumed) && TextOf(inputs) == Concat(observed)
    requires r.fault.None? && r.derail.None? ==> consumed == all
    requires r.derail.None? ==> Run(LimitsOf(budget, clock), inputs).tripped.None?
    ensures Accounts(r, observed, consumed, inputs, budget, all)
  {
    FedIsSpoken(consumed);
    LastUsageIs(consumed);
    LastFinishIs(consumed);
    UntrippedIff(LimitsOf(budget, clock), inputs);
    if r.derail.None? {
      FaultIsFirst(consumed, all);
    }
  }

  // ---- the client ------------------------------------------------------------------------

  class ModelClient {
    var totalCalls: nat

    constructor ()
      ensures totalCalls == 0
    {
      totalCalls := 0;
    }

    /** Stream one generation. `silent` is the transport reporting silence once its chunks are
        exhausted. The ghost results are the events consumed, the guard's inputs, and the number
        of the reading that closes the call. */
    method Generate(chunks: seq<Bytes>, silent: bool, budget: Budget, clock: Clock, loads: S.Loads)
      returns (r: GenerationResult, observed: seq<Text>, ghost consumed: seq<Event>,
               ghost inputs: seq<Input>, ghost next: nat)
      modifies this
      ensures totalCalls == old(totalCalls) + 1
      // metered on exactly the events consumed, a prefix of what the stream decodes to
      ensures Meters(r, consumed) && consumed <= S.Decoded(chunks, loads)
      ensures observed == Fed(consumed) && OverrunsByOne(observed, budget.maxTokens * CHARS_PER_TOKEN)
      // an error ends the call, never beside a derail; with neither, the whole stream was consumed
      ensures NoErrorBeforeLast(consumed) && !(r.fault.Some? && r.derail.Some?)
      ensures r.fault.None? && r.derail.None? ==> consumed == S.Decoded(chunks, loads)
      // the verdict is the guard's, on exactly the text fed to it, or the transport's silence
      ensures TextOf(inputs) == Concat(observed) && Timed(inputs, clock)
      ensures r.derail == Run(LimitsOf(budget, clock), inputs).tripped
              || (silent && r.derail == Some(Silent) && consumed == S.Decoded(chunks, loads))
      // the time is from the first reading to the one after the guard's last
      // and so, of the events alone
      ensures Accounts(r, observed, consumed, inputs, budget, S.Decoded(chunks, loads))
      ensures next == 2 + Made(inputs, Run(LimitsOf(budget, clock), inputs).tripped)
      ensures r.seconds == clock(next) - clock(0)
    {
      totalCalls := totalCalls + 1;
      var frame := new Frame(budget, clock);
      var exhausted := Drive(frame, chunks, loads);
      inputs, consumed, observed, next := frame.inputs, frame.consumed, frame.observed, frame.readings;
      r := frame.Result(if exhausted && silent then Some(Silent) else frame.guard.tripped);
      CallAccounts(r, observed, consumed, inputs, budget, clock, S.Decoded(chunks, loads));
    }

    /** Chunk by chunk: tick, decode, take the events, until something stops the call, the decoder
        is done, or the chunks are exhausted with more wanted. */
    method Drive(frame: Frame, chunks: seq<Bytes>, loads: S.Loads) returns (exhausted: bool)
      requires frame.Valid() && frame.Going() && frame.consumed == []
      modifies frame, frame.guard
      ensures frame.Valid() && frame.consumed <= S.Decoded(chunks, loads)
      ensures frame.Going() ==> frame.consumed == S.Decoded(chunks, loads)
      ensures !frame.Going() ==> !exhausted
      ensures !(frame.guard.tripped.Some? && frame.fault.Some?)
    {
      var decoder := new I.Decoder(loads);
      var stop, k := false, 0;
      S.EmptyStream(loads);
      assert Concat(chunks[..0]) == [];
      while k < |chunks| && !stop && !decoder.finished
        invariant k <= |chunks| && frame.Valid() && stop == !frame.Going() && fresh(decoder)
        invariant !(frame.guard.tripped.Some? && frame.fault.Some?)
        invariant frame.consumed <= S.Decoded(chunks, loads)
        invariant !stop ==> InStep(frame, decoder, chunks, k, loads)
        decreases |chunks| - k
      {
        stop := OneChunk(frame, decoder, chunks, k, loads);
        k := k + 1;
      }
      if !stop {
        EmittedSoFar(chunks, k, loads);
      }
      exhausted := !stop && !decoder.finished;
    }

    /** The decoder has read `k` chunks, and every event they gave is consumed. */
    ghost predicate InStep(frame: Frame, decoder: I.Decoder, chunks: seq<Bytes>, k: nat, loads: S.Loads)
      requires k <= |chunks|
      reads frame`consumed, decoder
    {
      && decoder.Valid() && decoder.loads == loads && k <= S.StopAt(chunks, loads, 0)
      && decoder.received == Concat(chunks[..k])
      && decoder.finished == S.Stopped(decoder.received, loads)
      && frame.consumed == S.Emitted(decoder.received, loads)
    }

    /** One more chunk arrives: judged by the clock, then read. */
    method OneChunk(frame: Frame, decoder: I.Decoder, chunks: seq<Bytes>, k: nat, loads: S.Loads)
      returns (stop: bool)
      requires k < |chunks| && InStep(frame, decoder, chunks, k, loads) && !decoder.finished
      requires frame.Valid() && frame.Going()
      modifies frame, frame.guard, decoder
      ensures frame.Valid() && stop == !frame.Going()
      ensures !(frame.guard.tripped.Some? && frame.fault.Some?)
      ensures frame.consumed <= S.Decoded(chunks, loads)
      ensures !stop ==> InStep(frame, decoder, chunks, k + 1, loads)
    {
      EmittedPrefix(chunks, k, loads);
      stop := frame.Tick();
      if !stop {
        stop := ReadChunk(frame, decoder, chunks, k, loads);
      }
    }

    /** One more chunk decoded, its events taken until one stops the call. */
    method ReadChunk(frame: Frame, decoder: I.Decoder, chunks: seq<Bytes>, k: nat, loads: S.Loads)
      returns (stop: bool)
      requires k < |chunks| && InStep(frame, decoder, chunks, k, loads) && !decoder.finished
      requires frame.Valid() && frame.Going()
      modifies frame, frame.guard, decoder
      ensures frame.Valid() && stop == !frame.Going()
      ensures !(frame.guard.tripped.Some? && frame.fault.Some?)
      ensures frame.consumed <= S.Decoded(chunks, loads)
      ensures !stop ==> InStep(frame, decoder, chunks, k + 1, loads)
    {
      StopsLater(chunks, k, loads);
      S.ReadOneMore(chunks, k, loads);
      EmittedPrefix(chunks, k + 1, loads);
      var events := decoder.Push(chunks[k]);
      stop := frame.TakeAll(events);
    }
  }

  lemma {:induction false} StopsLater(chunks: seq<Bytes>, k: nat, loads: S.Loads)
    requires k < |chunks| && k <= S.StopAt(chunks, loads, 0) && !S.Stopped(Concat(chunks[..k]), loads)
    ensures k < S.StopAt(chunks, loads, 0)
  {
    S.StopAtUnstopped(chunks, loads, 0);
  }

  lemma {:induction false} EmittedPrefix(chunks: seq<Bytes>, k: nat, loads: S.Loads)
    requires k <= S.StopAt(chunks, loads, 0)
    ensures S.Emitted(Concat(chunks[..k]), loads) <= S.Decoded(chunks, loads)
  {
    EmittedSoFar(chunks, k, loads);
  }

  /** An estimated count exceeds the budget by at most the tokens of the delta that ended it. */
  lemma {:induction false} EstimateBounded(observed: seq<Text>, maxTokens: nat)
    requires OverrunsByOne(observed, maxTokens * CHARS_PER_TOKEN)
    ensures TokensOf(|Concat(observed)|)
         <= maxTokens + if observed == [] then 0 else TokensOf(|observed[|observed| - 1]|)
  {
    if observed != [] {
      var front, last := observed[..|observed| - 1], observed[|observed| - 1];
      assert Concat(observed) == Concat(front) + last;
    }
  }

  /** Any content at all is at least one token; only an empty decode counts none. */
  lemma {:induction false} NothingForFree(chars: nat)
    ensures TokensOf(chars) == 0 <==> chars == 0
    ensures CHARS_PER_TOKEN * TokensOf(chars) >= chars > CHARS_PER_TOKEN * (TokensOf(chars) - 1)
            || chars == 0
  {
  }
}
