/** The derail guard. Its specification judges the concatenated text and the clock readings alone;
    the class rebuilds lines across deltas and keeps a six-slot window, and refines it. */
module Derail {
  import opened Texts

  const REPETITION_NGRAM := 24
  const REPETITION_THRESHOLD := 6
  const WARMUP_CHARS := 200
  const CHARS_PER_TOKEN := 4
  const SILENCE_TIMEOUT := 180.0

  datatype Reason = Repetition | TokenCap | Timeout | Silent

  // ---- the content verdict, on the whole text --------------------------------------------

  function Width(lines: seq<Text>): nat {
    if lines == [] then 0 else |lines[0]| + 1 + Width(lines[1..])
  }

  /** The lines that count toward repetition: completed past the warmup, and not short. */
  function EligibleFrom(lines: seq<Text>, base: nat): seq<Text> {
    if lines == [] then []
    else
      var pos := base + |lines[0]| + 1;
      (if pos > WARMUP_CHARS && |lines[0]| >= REPETITION_NGRAM then [lines[0]] else [])
      + EligibleFrom(lines[1..], pos)
  }

  function Eligible(text: Text): seq<Text> {
    EligibleFrom(Lines(text, NL), 0)
  }

  predicate AllEqual(q: seq<Text>) {
    forall i :: 0 <= i < |q| ==> q[i] == q[0]
  }

  predicate RunAt(q: seq<Text>, i: int) {
    0 <= i <= |q| - REPETITION_THRESHOLD && AllEqual(q[i..i + REPETITION_THRESHOLD])
  }

  /** Six consecutive equal lines. */
  predicate HasRun(q: seq<Text>) {
    exists i :: 0 <= i <= |q| && RunAt(q, i)
  }

  predicate Repeats(text: Text) {
    HasRun(Eligible(text))
  }

  function ContentVerdict(text: Text, cap: nat): Option<Reason> {
    if |text| > cap then Some(TokenCap)
    else if Repeats(text) then Some(Repetition)
    else None
  }

  lemma {:induction false} EligibleCons(x: Text, rest: seq<Text>, base: nat)
    ensures var pos := base + |x| + 1;
            EligibleFrom([x] + rest, base)
            == (if pos > WARMUP_CHARS && |x| >= REPETITION_NGRAM then [x] else []) + EligibleFrom(rest, pos)
    ensures Width([x] + rest) == |x| + 1 + Width(rest)
  {
    assert ([x] + rest)[1..] == rest;
  }

  lemma {:induction false} EligibleAppend(a: seq<Text>, b: seq<Text>, base: nat)
    ensures EligibleFrom(a + b, base) == EligibleFrom(a, base) + EligibleFrom(b, base + Width(a))
    ensures Width(a + b) == Width(a) + Width(b)
  {
    if a == [] {
      assert a + b == b;
    } else {
      var x, a' := a[0], a[1..];
      assert a == [x] + a' && a + b == [x] + (a' + b);
      EligibleAppend(a', b, base + |x| + 1);
      EligiblePrepend(x, a', b, base);
    }
  }

  lemma {:induction false} EligiblePrepend(x: Text, a: seq<Text>, b: seq<Text>, base: nat)
    requires var pos := base + |x| + 1;
             EligibleFrom(a + b, pos) == EligibleFrom(a, pos) + EligibleFrom(b, pos + Width(a))
    requires Width(a + b) == Width(a) + Width(b)
    ensures EligibleFrom([x] + (a + b), base)
         == EligibleFrom([x] + a, base) + EligibleFrom(b, base + Width([x] + a))
    ensures Width([x] + (a + b)) == Width([x] + a) + Width(b)
  {
    EligibleCons(x, a, base);
    EligibleCons(x, a + b, base);
  }

  lemma {:induction false} WidthOfLines(text: Text)
    ensures Width(Lines(text, NL)) + |Tail(text, NL)| == |text|
  {
    if text != [] {
      WidthOfLines(text[1..]);
      SplitCons(text[0], text[1..], NL);
      assert [text[0]] + text[1..] == text;
      var rest := Split(text[1..], NL);
      if text[0] == NL {
        assert Lines(text, NL) == [[]] + Lines(text[1..], NL);
        assert ([[]] + Lines(text[1..], NL))[1..] == Lines(text[1..], NL);
      } else if |rest| > 1 {
        assert Lines(text, NL)[1..] == Lines(text[1..], NL)[1..];
      }
    }
  }

  /** More text only adds eligible lines, counted from where the unterminated line began. */
  lemma {:induction false} EligibleGrows(a: Text, b: Text)
    ensures Eligible(a + b)
         == Eligible(a) + EligibleFrom(Lines(Tail(a, NL) + b, NL), Width(Lines(a, NL)))
  {
    LinesAppend(a, b, NL);
    EligibleAppend(Lines(a, NL), Lines(Tail(a, NL) + b, NL), 0);
  }

  lemma {:induction false} RunExtends(q: seq<Text>, more: seq<Text>)
    requires HasRun(q)
    ensures HasRun(q + more)
  {
    var i :| 0 <= i <= |q| && RunAt(q, i);
    assert (q + more)[i..i + REPETITION_THRESHOLD] == q[i..i + REPETITION_THRESHOLD];
    assert RunAt(q + more, i);
  }

  lemma {:induction false} RepeatsExtends(a: Text, b: Text)
    requires Repeats(a)
    ensures Repeats(a + b)
  {
    EligibleGrows(a, b);
    RunExtends(Eligible(a), EligibleFrom(Lines(Tail(a, NL) + b, NL), Width(Lines(a, NL))));
  }

  // ---- which lines count, told from the text -----------------------------------------------

  /** One more line on a text whose last line has ended: it counts exactly when it ends past the
      first 200 characters and is at least 24 long; a line not yet ended never counts. */
  lemma {:induction false} LineCounts(text: Text, line: Text)
    requires Tail(text, NL) == [] && NL !in line
    ensures Eligible(text + (line + [NL]))
         == Eligible(text) + if |text| + |line| + 1 > 200 && |line| >= 24 then [line] else []
    ensures Tail(text + (line + [NL]), NL) == [] && Eligible(text + line) == Eligible(text)
  {
    var none: Text := [];
    EligibleGrows(text, line + [NL]);
    EligibleGrows(text, line);
    WidthOfLines(text);
    assert none + (line + [NL]) == line + [NL] + none && none + line == line;
    SplitAt(line, none, NL);
    SplitFree(line, NL);
    SplitFree(none, NL);
    LinesAppend(text, line + [NL], NL);
    assert Lines(line + [NL] + none, NL) == [line];
    EligibleCons(line, [], |text|);
    assert [line] + [] == [line];
    var q := Eligible(text);
    assert q + [] == q;
  }

  predicate SixSame(q: seq<Text>, i: int) {
    && 0 <= i <= |q| - 6
    && q[i] == q[i + 1] == q[i + 2] == q[i + 3] == q[i + 4] == q[i + 5]
  }

  /** A text repeats when six counted lines in a row are the same. */
  lemma {:induction false} RepeatsMeans(text: Text)
    ensures Repeats(text) <==> exists i :: SixSame(Eligible(text), i)
  {
    var q := Eligible(text);
    forall i ensures RunAt(q, i) <==> SixSame(q, i) {
      if 0 <= i <= |q| - 6 {
        var six := q[i..i + 6];
        assert forall k :: 0 <= k < 6 ==> six[k] == q[i + k];
        assert AllEqual(six) ==> six[1] == six[0] && six[2] == six[0] && six[3] == six[0]
                                 && six[4] == six[0] && six[5] == six[0];
      }
    }
    if Repeats(text) {
      var i :| 0 <= i <= |q| && RunAt(q, i);
      assert SixSame(q, i);
    }
  }

  // ---- the guard as a state machine over what it has consumed ----------------------------

  datatype Limits = Limits(deadline: real, cap: nat)

  /** Everything a verdict depends on: the content consumed, and when content last arrived. */
  datatype State = State(fed: Text, silenceSince: Option<real>, tripped: Option<Reason>)

  datatype Input = Tick(now: real) | Feed(text: Text, now: real, later: real)

  const START := State([], None, None)

  function ClockBounds(s: State, lim: Limits, now: real): State {
    if now > lim.deadline then s.(tripped := Some(Timeout))
    else
      var since := if s.silenceSince.None? then now else s.silenceSince.value;
      State(s.fed, Some(since), if now - since > SILENCE_TIMEOUT then Some(Silent) else None)
  }

  function StepOn(s: State, lim: Limits, input: Input): State {
    if s.tripped.Some? then s
    else
      var checked := ClockBounds(s, lim, input.now);
      if input.Tick? || checked.tripped.Some? then checked
      else
        var fed := s.fed + input.text;
        State(fed, Some(input.later), ContentVerdict(fed, lim.cap))
  }

  function Run(lim: Limits, inputs: seq<Input>): State {
    if inputs == [] then START
    else StepOn(Run(lim, inputs[..|inputs| - 1]), lim, inputs[|inputs| - 1])
  }

  lemma {:induction false} RunSnoc(lim: Limits, a: seq<Input>, x: Input)
    ensures Run(lim, a + [x]) == StepOn(Run(lim, a), lim, x)
  {
    assert (a + [x])[..|a|] == a;
  }

  function TextOf(inputs: seq<Input>): Text {
    if inputs == [] then []
    else
      var text, last := TextOf(inputs[..|inputs| - 1]), inputs[|inputs| - 1];
      if last.Feed? then text + last.text else text
  }

  /** When content last arrived, or when anything first did. */
  function LastSign(inputs: seq<Input>): (t: real)
    requires inputs != []
  {
    var last := inputs[|inputs| - 1];
    if last.Feed? then last.later
    else if |inputs| == 1 then last.now
    else LastSign(inputs[..|inputs| - 1])
  }

  /** Input `i` came before the deadline, and within the silence bound of the last content. */
  predicate OnTime(lim: Limits, inputs: seq<Input>, i: nat)
    requires i < |inputs|
  {
    && inputs[i].now <= lim.deadline
    && (i > 0 ==> inputs[i].now - LastSign(inputs[..i]) <= SILENCE_TIMEOUT)
  }

  ghost predicate AllOnTime(lim: Limits, inputs: seq<Input>) {
    forall i :: 0 <= i < |inputs| ==> OnTime(lim, inputs, i)
  }

  lemma {:induction false} OnTimeFront(lim: Limits, inputs: seq<Input>, more: seq<Input>, i: nat)
    requires i < |inputs|
    ensures OnTime(lim, inputs + more, i) == OnTime(lim, inputs, i)
  {
    assert (inputs + more)[..i] == inputs[..i];
  }

  lemma {:induction false} AllOnTimeSnoc(lim: Limits, front: seq<Input>, last: Input)
    ensures AllOnTime(lim, front + [last])
        <==> AllOnTime(lim, front) && OnTime(lim, front + [last], |front|)
  {
    forall i | 0 <= i < |front| ensures OnTime(lim, front + [last], i) == OnTime(lim, front, i) {
      OnTimeFront(lim, front, [last], i);
    }
  }

  /** Every input on time, the text within the cap, no six consecutive eligible lines equal. */
  ghost predicate Clean(lim: Limits, inputs: seq<Input>) {
    AllOnTime(lim, inputs) && ContentVerdict(TextOf(inputs), lim.cap).None?
  }

  lemma {:induction false} CleanSnoc(lim: Limits, front: seq<Input>, last: Input)
    ensures TextOf(front + [last]) == TextOf(front) + if last.Feed? then last.text else []
    ensures Clean(lim, front + [last])
        <==> && Clean(lim, front) && OnTime(lim, front + [last], |front|)
             && ContentVerdict(TextOf(front + [last]), lim.cap).None?
  {
    AllOnTimeSnoc(lim, front, last);
    assert (front + [last])[..|front|] == front;
    if last.Feed? && Repeats(TextOf(front)) {
      RepeatsExtends(TextOf(front), last.text);
    }
    assert TextOf(front) + [] == TextOf(front);
  }

  /** The guard stays untripped exactly when every input is on time, the text fits the cap and no
      six consecutive eligible lines are equal: whatever the interleaving and the chunking. */
  lemma {:induction false} UntrippedIff(lim: Limits, inputs: seq<Input>)
    ensures var s := Run(lim, inputs);
            && (s.tripped.None? <==>
                  && AllOnTime(lim, inputs)
                  && |TextOf(inputs)| <= lim.cap && !Repeats(TextOf(inputs)))
            && (s.tripped.None? ==> s.fed == TextOf(inputs)
                                    && (inputs != [] ==> s.silenceSince == Some(LastSign(inputs)))
                                    && (inputs == [] ==> s == START))
  {
    if inputs == [] {
      NothingRepeats();
    } else {
      var front, last := inputs[..|inputs| - 1], inputs[|inputs| - 1];
      assert inputs == front + [last];
      UntrippedIff(lim, front);
      CleanSnoc(lim, front, last);
      StepKeepsClean(lim, front, last);
      RunSnoc(lim, front, last);
    }
  }

  /** One step from a clean run: untripped exactly when the longer run is clean. */
  lemma {:induction false} StepKeepsClean(lim: Limits, front: seq<Input>, last: Input)
    requires var s := Run(lim, front);
             && (s.tripped.None? <==> Clean(lim, front))
             && (s.tripped.None? ==> s.fed == TextOf(front))
             && (s.tripped.None? && front != [] ==> s.silenceSince == Some(LastSign(front)))
             && (front == [] ==> s == START)
    ensures var s, all := StepOn(Run(lim, front), lim, last), front + [last];
            && (s.tripped.None? <==> Clean(lim, all))
            && (s.tripped.None? ==> s.fed == TextOf(all) && s.silenceSince == Some(LastSign(all)))
  {
    CleanSnoc(lim, front, last);
    assert (front + [last])[..|front|] == front;
  }

  lemma {:induction false} NothingRepeats()
    ensures !Repeats([])
  {
    assert Eligible([]) == [];
  }

  /** Why an untripped guard trips on its next input, told from the history alone: past the
      deadline, timeout; else more than 180 seconds from the last content or first arrival,
      silence; else the text it makes is too long, or it repeats. */
  lemma {:induction false} TripReason(lim: Limits, inputs: seq<Input>, x: Input)
    requires Run(lim, inputs).tripped.None?
    ensures var r, text := Run(lim, inputs + [x]).tripped, TextOf(inputs + [x]);
            var late := x.now > lim.deadline;
            var quiet := !late && inputs != [] && x.now - LastSign(inputs) > 180.0;
            && (r == Some(Timeout) <==> late)
            && (r == Some(Silent) <==> quiet)
            && (r == Some(TokenCap) <==> !late && !quiet && |text| > lim.cap)
            && (r == Some(Repetition) <==> !late && !quiet && |text| <= lim.cap && Repeats(text))
  {
    UntrippedIff(lim, inputs);
    RunSnoc(lim, inputs, x);
    CleanSnoc(lim, inputs, x);
  }

  predicate ByClock(r: Option<Reason>) {
    r == Some(Timeout) || r == Some(Silent)
  }

  /** Without a clock trip the guard depends on the concatenated text only: whether it trips, and
      within the cap the verdict too. Past the cap the reason is the verdict on the text fed up to
      the delta that tripped. */
  lemma {:induction false} VerdictOnText(lim: Limits, inputs: seq<Input>)
    requires !ByClock(Run(lim, inputs).tripped)
    ensures var s, text := Run(lim, inputs), TextOf(inputs);
            && s.fed <= text && s.tripped == ContentVerdict(s.fed, lim.cap)
            && s.tripped.None? == ContentVerdict(text, lim.cap).None?
            && (|text| <= lim.cap ==> s.tripped == ContentVerdict(text, lim.cap))
  {
    NothingRepeats();
    if inputs != [] {
      var front, last := inputs[..|inputs| - 1], inputs[|inputs| - 1];
      VerdictOnText(lim, front);
      UntrippedIff(lim, front);
      var s, text := Run(lim, inputs), TextOf(inputs);
      assert TextOf(front) <= text;
      var rest := text[|s.fed|..];
      assert text == s.fed + rest;
      if Repeats(s.fed) {
        RepeatsExtends(s.fed, rest);
      }
    }
  }

  /** Two chunkings of one text trip alike; within the cap they reach the same verdict. */
  lemma {:induction false} ChunkingInvariant(lim: Limits, a: seq<Input>, b: seq<Input>)
    requires TextOf(a) == TextOf(b)
    requires !ByClock(Run(lim, a).tripped) && !ByClock(Run(lim, b).tripped)
    ensures Run(lim, a).tripped.Some? <==> Run(lim, b).tripped.Some?
    ensures |TextOf(a)| <= lim.cap ==> Run(lim, a).tripped == Run(lim, b).tripped
  {
    VerdictOnText(lim, a);
    VerdictOnText(lim, b);
  }

  function LoopedLine(): (t: Text)
    ensures |t| == 24 && NL !in t
  {
    seq(24, _ => 97)
  }

  function Copies(n: nat): (q: seq<Text>)
    ensures |q| == n && forall i :: 0 <= i < n ==> q[i] == LoopedLine()
  {
    seq(n, _ => LoopedLine())
  }

  function Stutter(n: nat): (t: Text)
    ensures |t| == 25 * n
  {
    if n == 0 then [] else LoopedLine() + [NL] + Stutter(n - 1)
  }

  lemma {:induction false} StutterLines(n: nat)
    ensures Lines(Stutter(n), NL) == Copies(n)
  {
    if n > 0 {
      StutterLines(n - 1);
      SplitAt(LoopedLine(), Stutter(n - 1), NL);
    }
  }

  lemma {:induction false} CopiesEligible(n: nat, base: nat)
    ensures Width(Copies(n)) == 25 * n
    ensures base >= WARMUP_CHARS ==> EligibleFrom(Copies(n), base) == Copies(n)
    ensures base + 25 * n <= WARMUP_CHARS ==> EligibleFrom(Copies(n), base) == []
  {
    if n > 0 {
      assert Copies(n)[1..] == Copies(n - 1);
      CopiesEligible(n - 1, base + 25);
    }
  }

  lemma {:induction false} StutterRepeats(k: nat)
    requires 25 * k == WARMUP_CHARS
    ensures Repeats(Stutter(k + 6))
  {
    StutterLines(k + 6);
    CopiesEligible(k, 0);
    CopiesEligible(6, WARMUP_CHARS);
    assert Copies(k + 6) == Copies(k) + Copies(6);
    EligibleAppend(Copies(k), Copies(6), 0);
    assert [] + Copies(6) == Copies(6);
    assert RunAt(Copies(6), 0);
  }

  /** A delta that arrives in time, and takes none. */
  function At(t: Text, lim: Limits): Input {
    Feed(t, lim.deadline, lim.deadline)
  }

  lemma {:induction false} OneFeed(lim: Limits, t: Text)
    ensures var s := Run(lim, [At(t, lim)]);
            s.tripped == ContentVerdict(t, lim.cap) && TextOf([At(t, lim)]) == t
  {
    var none: seq<Input> := [];
    RunSnoc(lim, none, At(t, lim));
    assert none + [At(t, lim)] == [At(t, lim)];
    assert [At(t, lim)][..0] == none;
    assert [] + t == t;
  }

  /** Past the cap the reason does depend on the chunking: a text that repeats within the cap and
      goes on past it trips for repetition when the two parts arrive apart, for the cap when they
      arrive together. */
  lemma {:induction false} ReasonDependsOnChunking(lim: Limits, t: Text, x: Text)
    requires Repeats(t) && |t| <= lim.cap < |t + x|
    ensures var apart, together := [At(t, lim), At(x, lim)], [At(t + x, lim)];
            && TextOf(apart) == TextOf(together)
            && Run(lim, apart).tripped == Some(Repetition)
            && Run(lim, together).tripped == Some(TokenCap)
  {
    OneFeed(lim, t);
    OneFeed(lim, t + x);
    var one, two := [At(t, lim)], [At(x, lim)];
    Latched(lim, one, two);
    assert one + two == [At(t, lim), At(x, lim)];
    assert (one + two)[..1] == one;
  }

  /** `inputs` is a chunking of `text`, ticks included, on which no clock bound trips. */
  ghost predicate Chunks(lim: Limits, text: Text, inputs: seq<Input>) {
    TextOf(inputs) == text && !ByClock(Run(lim, inputs).tripped)
  }

  ghost predicate OneVerdict(lim: Limits, text: Text) {
    forall a, b :: Chunks(lim, text, a) && Chunks(lim, text, b) ==>
      Run(lim, a).tripped == Run(lim, b).tripped
  }

  /** Past the cap, a text with no run within it trips for its length, however it is cut. */
  lemma {:induction false} CapAlone(lim: Limits, text: Text, inputs: seq<Input>)
    requires Chunks(lim, text, inputs) && |text| > lim.cap && !Repeats(text[..lim.cap])
    ensures Run(lim, inputs).tripped == Some(TokenCap)
  {
    VerdictOnText(lim, inputs);
    var fed := Run(lim, inputs).fed;
    if |fed| <= lim.cap {
      assert text[..lim.cap] == fed + text[|fed|..lim.cap];
      if Repeats(fed) {
        RepeatsExtends(fed, text[|fed|..lim.cap]);
      }
    }
  }

  /** Exactly when the guard's verdict is one of the concatenated text: every chunking of `text`
      reaches the same one, reason included, if and only if the text fits the cap or does not
      repeat within it. */
  lemma {:induction false} OneVerdictIff(lim: Limits, text: Text)
    ensures OneVerdict(lim, text) <==> |text| <= lim.cap || !Repeats(text[..lim.cap])
  {
    if |text| <= lim.cap {
      forall a, b | Chunks(lim, text, a) && Chunks(lim, text, b)
        ensures Run(lim, a).tripped == Run(lim, b).tripped
      {
        ChunkingInvariant(lim, a, b);
      }
    } else if !Repeats(text[..lim.cap]) {
      forall a, b | Chunks(lim, text, a) && Chunks(lim, text, b)
        ensures Run(lim, a).tripped == Run(lim, b).tripped
      {
        CapAlone(lim, text, a);
        CapAlone(lim, text, b);
      }
    } else {
      var t, x := text[..lim.cap], text[lim.cap..];
      assert text == t + x;
      ReasonDependsOnChunking(lim, t, x);
      assert Chunks(lim, text, [At(t, lim), At(x, lim)]) && Chunks(lim, text, [At(text, lim)]) by {
        OneFeed(lim, text);
      }
    }
  }

  /** Such texts exist: fourteen copies of one line, under a cap they just fit. */
  lemma {:induction false} SomeTextRepeatsWithinCap() returns (t: Text, maxTokens: nat)
    ensures Repeats(t) && |t| <= maxTokens * CHARS_PER_TOKEN <= |t| + 2
  {
    var k: nat :| k == 8;
    StutterRepeats(k);
    t, maxTokens := Stutter(k + 6), 88;
  }

  /** A verdict, once reached, never changes. */
  lemma {:induction false} Latched(lim: Limits, inputs: seq<Input>, more: seq<Input>)
    requires Run(lim, inputs).tripped.Some?
    ensures Run(lim, inputs + more) == Run(lim, inputs)
  {
    if more == [] {
      assert inputs + more == inputs;
    } else {
      var front := more[..|more| - 1];
      assert (inputs + more)[..|inputs + more| - 1] == inputs + front;
      Latched(lim, inputs, front);
    }
  }

  lemma {:induction false} RunAgrees(lim: Limits, a: seq<Input>, b: seq<Input>, rest: seq<Input>)
    requires Run(lim, a) == Run(lim, b)
    ensures Run(lim, a + rest) == Run(lim, b + rest)
  {
    if rest == [] {
      assert a + rest == a && b + rest == b;
    } else {
      var front := rest[..|rest| - 1];
      assert (a + rest)[..|a + rest| - 1] == a + front && (b + rest)[..|b + rest| - 1] == b + front;
      RunAgrees(lim, a, b, front);
    }
  }

  /** A tick inserted once the clock is armed changes nothing when it does not trip, and when it
      trips the next input, read no earlier, would have: no trip is gained or missed. Reasons
      differ only when both clock bounds had passed by that input, and are then the clock's two. */
  lemma {:induction false} ExtraTickHarmless(lim: Limits, a: seq<Input>, t: real, x: Input, rest: seq<Input>)
    requires a != [] && t <= x.now
    ensures var with, without := Run(lim, a + [Tick(t)] + [x] + rest), Run(lim, a + [x] + rest);
            && (with.tripped.Some? <==> without.tripped.Some?)
            && (without.tripped.None? ==> with == without)
            && with.fed == without.fed
            && (with.tripped != without.tripped ==>
                  && with.tripped == Some(Silent) && without.tripped == Some(Timeout)
                  && x.now > lim.deadline && x.now - LastSign(a) > SILENCE_TIMEOUT)
  {
    var s := Run(lim, a);
    UntrippedIff(lim, a);
    RunSnoc(lim, a, Tick(t));
    RunSnoc(lim, a, x);
    RunSnoc(lim, a + [Tick(t)], x);
    TickThenInput(s, lim, t, x);
    if StepOn(StepOn(s, lim, Tick(t)), lim, x) == StepOn(s, lim, x) {
      RunAgrees(lim, a + [Tick(t)] + [x], a + [x], rest);
    } else {
      Latched(lim, a + [Tick(t)] + [x], rest);
      Latched(lim, a + [x], rest);
    }
  }

  /** An armed guard that sees a tick and then an input, against one that sees the input alone. */
  lemma {:induction false} TickThenInput(s: State, lim: Limits, t: real, x: Input)
    requires t <= x.now && (s.tripped.None? ==> s.silenceSince.Some?)
    ensures var with, without := StepOn(StepOn(s, lim, Tick(t)), lim, x), StepOn(s, lim, x);
            || with == without
            || (&& with.tripped == Some(Silent) && without.tripped == Some(Timeout)
                && with.fed == without.fed && s.tripped.None?
                && x.now > lim.deadline && x.now - s.silenceSince.value > SILENCE_TIMEOUT)
  {
  }

  // ---- the guard itself ------------------------------------------------------------------

  /** `deque(maxlen=6)` after appending every element of `q`. */
  function LastSix(q: seq<Text>): (r: seq<Text>) {
    if |q| <= REPETITION_THRESHOLD then q else q[|q| - REPETITION_THRESHOLD..]
  }

  function Appended(window: seq<Text>, line: Text): seq<Text> {
    LastSix(window + [line])
  }

  lemma {:induction false} WindowSlides(q: seq<Text>, line: Text)
    ensures Appended(LastSix(q), line) == LastSix(q + [line])
  {
  }

  lemma {:induction false} RunAtEnd(q: seq<Text>, line: Text)
    ensures HasRun(q + [line]) <==>
              HasRun(q) || RunAt(q + [line], |q| + 1 - REPETITION_THRESHOLD)
  {
    var r := q + [line];
    if HasRun(q) {
      RunExtends(q, [line]);
    }
    if HasRun(r) {
      var i :| 0 <= i <= |r| && RunAt(r, i);
      if i < |r| - REPETITION_THRESHOLD {
        assert q[i..i + REPETITION_THRESHOLD] == r[i..i + REPETITION_THRESHOLD];
        assert RunAt(q, i);
      }
    }
  }

  /** A full window of equal lines is a run at the end, and no other run can begin there. */
  lemma {:induction false} WindowDecides(q: seq<Text>)
    ensures RunAt(q, |q| - REPETITION_THRESHOLD)
        <==> |LastSix(q)| == REPETITION_THRESHOLD && AllEqual(LastSix(q))
  {
    if |q| >= REPETITION_THRESHOLD {
      var i := |q| - REPETITION_THRESHOLD;
      assert q[i..i + REPETITION_THRESHOLD] == q[i..];
      assert LastSix(q) == q[i..];
    }
  }

  lemma {:induction false} EligibleSnoc(lines: seq<Text>, i: nat, base: nat)
    requires i < |lines|
    ensures Width(lines[..i + 1]) == Width(lines[..i]) + |lines[i]| + 1
    ensures EligibleFrom(lines[..i + 1], base) == EligibleFrom(lines[..i], base)
            + if base + Width(lines[..i + 1]) > WARMUP_CHARS && |lines[i]| >= REPETITION_NGRAM
              then [lines[i]] else []
  {
    assert lines[..i + 1] == lines[..i] + [lines[i]];
    EligibleAppend(lines[..i], [lines[i]], base);
    var one: seq<Text> := [lines[i]];
    assert one[1..] == [];
  }

  class DerailGuard {
    const deadline: real
    const tokenCapChars: nat
    var silenceSince: Option<real>
    var chars: nat
    var pending: seq<Text>
    var lineBase: nat
    var recent: seq<Text>
    var tripped: Option<Reason>

    ghost var fed: Text  // all content consumed

    /** An untripped guard holds the unterminated line, its position, and the last six eligible
        lines of everything consumed, among which there is no run. */
    ghost predicate Valid()
      reads this
    {
      tripped.None? ==>
        && chars == |fed| <= tokenCapChars
        && Concat(pending) == Tail(fed, NL) && lineBase + |Concat(pending)| == chars
        && lineBase == Width(Lines(fed, NL))
        && recent == LastSix(Eligible(fed)) && !Repeats(fed)
    }

    ghost function Abstract(): State
      reads this
    {
      State(fed, silenceSince, tripped)
    }

    ghost function Bounds(): Limits {
      Limits(deadline, tokenCapChars)
    }

    constructor (maxTokens: nat, generationTimeout: real, now: real)
      ensures Valid() && Abstract() == START
      ensures deadline == now + generationTimeout && tokenCapChars == maxTokens * CHARS_PER_TOKEN
    {
      deadline := now + generationTimeout;
      tokenCapChars := maxTokens * CHARS_PER_TOKEN;
      silenceSince, tripped := None, None;
      chars, pending, lineBase, recent := 0, [], 0, [];
      fed := [];
      new;
      NothingRepeats();
    }

    method Trip(reason: Reason) returns (r: Option<Reason>)
      modifies this`tripped
      ensures r == tripped == Some(reason)
    {
      tripped := Some(reason);
      return tripped;
    }

    method CheckClock(now: real) returns (r: Option<Reason>)
      requires Valid() && tripped.None?
      modifies this`tripped, this`silenceSince
      ensures Valid() && r == tripped
      ensures Abstract() == ClockBounds(old(Abstract()), Bounds(), now)
    {
      if now > deadline {
        r := Trip(Timeout);
        return;
      }
      if silenceSince.None? {
        silenceSince := Some(now);
      }
      if now - silenceSince.value > SILENCE_TIMEOUT {
        r := Trip(Silent);
        return;
      }
      return None;
    }

    method Tick(now: real) returns (r: Option<Reason>)
      requires Valid()
      modifies this
      ensures Valid() && r == tripped
      ensures Abstract() == StepOn(old(Abstract()), Bounds(), Input.Tick(now))
    {
      if tripped.Some? {
        return tripped;
      }
      r := CheckClock(now);
    }

    /** `now` and `later` are the two readings one call takes. */
    method Feed(delta: Text, now: real, later: real) returns (r: Option<Reason>)
      requires Valid()
      modifies this
      ensures Valid() && r == tripped
      ensures Abstract() == StepOn(old(Abstract()), Bounds(), Input.Feed(delta, now, later))
    {
      if tripped.Some? {
        return tripped;
      }
      r := CheckClock(now);
      if r.Some? {
        return;
      }
      silenceSince := Some(later);
      chars := chars + |delta|;
      if chars > tokenCapChars {
        fed := fed + delta;
        r := Trip(TokenCap);
        return;
      }
      r := ScanForRepetition(delta);
    }

    method ScanForRepetition(delta: Text) returns (r: Option<Reason>)
      requires tripped.None? && chars == |fed| + |delta| <= tokenCapChars
      requires Concat(pending) == Tail(fed, NL) && lineBase == Width(Lines(fed, NL))
      requires recent == LastSix(Eligible(fed)) && !Repeats(fed)
      modifies this`pending, this`lineBase, this`recent, this`tripped, this`fed
      ensures Valid() && r == tripped && fed == old(fed) + delta
      ensures tripped == if Repeats(fed) then Some(Repetition) else None
    {
      ghost var before := Eligible(fed);
      Rebuilt(fed, delta);
      ConcatSnoc(pending, delta);
      fed := fed + delta;
      pending := pending + [delta];
      if NL !in delta {
        return None;
      }
      var parts := Split(Concat(pending), NL);
      var lines, remainder := parts[..|parts| - 1], parts[|parts| - 1];
      pending := [remainder];
      ConcatOne(remainder);
      r := ScanLines(lines, before);
      if r.None? {
        lineBase := lineBase + Width(lines);
      }
    }

    /** Slides the window over completed lines, the first of which starts at `lineBase`. */
    method ScanLines(lines: seq<Text>, ghost before: seq<Text>) returns (r: Option<Reason>)
      requires tripped.None? && recent == LastSix(before) && !HasRun(before)
      modifies this`recent, this`tripped
      ensures r == tripped
      ensures var all := before + EligibleFrom(lines, lineBase);
              if HasRun(all) then r == Some(Repetition) else r == None && recent == LastSix(all)
    {
      var pos := lineBase;
      assert before + EligibleFrom(lines[..0], lineBase) == before;
      for i := 0 to |lines|
        invariant pos == lineBase + Width(lines[..i])
        invariant recent == LastSix(before + EligibleFrom(lines[..i], lineBase))
        invariant !HasRun(before + EligibleFrom(lines[..i], lineBase)) && tripped.None?
      {
        var line := lines[i];
        ScanLine(before, lines, i, lineBase);
        pos := pos + |line| + 1;
        if pos <= WARMUP_CHARS {
          continue;
        }
        if |line| < REPETITION_NGRAM {
          continue;
        }
        recent := Appended(recent, line);
        if |recent| == REPETITION_THRESHOLD && AllEqual(recent) {
          RunInLines(before, lines, i + 1, lineBase);
          r := Trip(Repetition);
          return;
        }
      }
      assert lines[..|lines|] == lines;
      return None;
    }
  }

  lemma {:induction false} ConcatOne(t: Text)
    ensures Concat([t]) == t
  {
    var none: seq<Text> := [];
    ConcatSnoc(none, t);
    assert none + [t] == [t];
  }

  /** The lines a delta completes, rebuilt from the retained tail. */
  lemma {:induction false} Rebuilt(fed: Text, delta: Text)
    ensures var joined, all := Tail(fed, NL) + delta, fed + delta;
            && Eligible(all) == Eligible(fed) + EligibleFrom(Lines(joined, NL), Width(Lines(fed, NL)))
            && Tail(all, NL) == Tail(joined, NL)
            && Width(Lines(all, NL)) == Width(Lines(fed, NL)) + Width(Lines(joined, NL))
            && Width(Lines(all, NL)) + |Tail(all, NL)| == |all|
            && (NL !in delta ==> Lines(joined, NL) == [] && Tail(joined, NL) == joined
                                 && Eligible(all) == Eligible(fed))
  {
    var joined := Tail(fed, NL) + delta;
    EligibleGrows(fed, delta);
    LinesAppend(fed, delta, NL);
    EligibleAppend(Lines(fed, NL), Lines(joined, NL), 0);
    WidthOfLines(fed + delta);
    if NL !in delta {
      TailFree(fed, NL);
      SplitFree(joined, NL);
      assert Eligible(fed) + [] == Eligible(fed);
    }
  }

  /** What one completed line does to the window, and when it completes a run. */
  lemma {:induction false} ScanLine(before: seq<Text>, lines: seq<Text>, i: nat, base: nat)
    requires i < |lines|
    ensures var a, b := before + EligibleFrom(lines[..i], base), before + EligibleFrom(lines[..i + 1], base);
            var pos := base + Width(lines[..i]) + |lines[i]| + 1;
            && base + Width(lines[..i + 1]) == pos
            && (pos <= WARMUP_CHARS || |lines[i]| < REPETITION_NGRAM ==> b == a)
            && (pos > WARMUP_CHARS && |lines[i]| >= REPETITION_NGRAM ==>
                  && LastSix(b) == Appended(LastSix(a), lines[i])
                  && (HasRun(b) <==> HasRun(a) || (|LastSix(b)| == REPETITION_THRESHOLD && AllEqual(LastSix(b)))))
  {
    var e, line := EligibleFrom(lines[..i], base), lines[i];
    EligibleSnoc(lines, i, base);
    Associative(before, e, [line]);
    assert e + [] == e;
    WindowSlides(before + e, line);
    RunAtEnd(before + e, line);
    WindowDecides(before + e + [line]);
  }

  lemma {:induction false} RunInLines(before: seq<Text>, lines: seq<Text>, i: nat, base: nat)
    requires i <= |lines| && HasRun(before + EligibleFrom(lines[..i], base))
    ensures HasRun(before + EligibleFrom(lines, base))
  {
    assert lines == lines[..i] + lines[i..];
    EligibleAppend(lines[..i], lines[i..], base);
    var more := EligibleFrom(lines[i..], base + Width(lines[..i]));
    RunExtends(before + EligibleFrom(lines[..i], base), more);
    assert before + EligibleFrom(lines[..i], base) + more == before + EligibleFrom(lines, base);
  }
}
