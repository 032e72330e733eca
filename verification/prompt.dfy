/** The tails an attempt can be sent, as sections and as bytes, and one bound on them all. The
    wording is a parameter; what is modelled is which sections appear, in which order, and how
    many bytes they take. */
module Prompt {
  import opened Texts
  import opened Utf8
  import opened Scores

  const FEEDBACK_BYTE_CAP: nat := 4096
  const FEEDBACK_TAIL_LINES: nat := 40
  const PREVIOUS_SOURCE_BYTE_CAP: nat := 8192
  const UNSCORABLE_REPLY_BYTE_CAP: nat := 512
  const STALL_EVIDENCE_BYTE_CAP: nat := 512
  const MARKER: Text := Ascii("\n[...truncated]")
  const GAP: Text := [NL, NL]

  // ---- the byte cap ----------------------------------------------------------------------

  function Size(t: Text): nat
    requires Encodable(t)
  {
    |Encode(t)|
  }

  /** Python's `e[:keep]`, which counts a negative bound from the end. */
  function Sliced(e: Bytes, keep: int): Bytes {
    if keep < 0 then e[..if |e| + keep < 0 then 0 else |e| + keep]
    else if keep <= |e| then e[..keep]
    else e
  }

  function CapBytes(t: Text, cap: nat): Text
    requires Encodable(t)
  {
    if Size(t) <= cap then t
    else DecodeIgnore(Sliced(Encode(t), cap - |MARKER|)) + MARKER
  }

  /** How many leading code points encode into `keep` bytes. */
  function Fitting(t: Text, keep: nat): (k: nat)
    requires Encodable(t)
    ensures k <= |t|
  {
    if t == [] || |EncodeCode(t[0])| > keep then 0
    else 1 + Fitting(t[1..], keep - |EncodeCode(t[0])|)
  }

  lemma {:induction false} FittingIsLongest(t: Text, keep: nat)
    requires Encodable(t)
    ensures var k := Fitting(t, keep);
            Size(t[..k]) <= keep && (k < |t| ==> Size(t[..k + 1]) > keep)
  {
    var k := Fitting(t, keep);
    if t != [] && |EncodeCode(t[0])| <= keep {
      var rest := t[1..];
      FittingIsLongest(rest, keep - |EncodeCode(t[0])|);
      assert t[..k][1..] == rest[..k - 1];
      if k < |t| {
        assert t[..k + 1][1..] == rest[..k];
      }
    } else if t != [] {
      assert t[..1][1..] == [];
    }
  }

  lemma {:induction false} CutShort(c: Code, keep: nat)
    requires Scalar(c) && keep < |EncodeCode(c)|
    ensures DecodeIgnore(EncodeCode(c)[..keep]) == []
  {
    if keep > 0 {
      var s := EncodeCode(c)[..keep];
      StepCut(c, keep);
      assert s[keep..] == [];
      assert Decode(s, []) == [] + Decode(s[keep..], []);
    }
  }

  lemma {:induction false} CutAfter(c: Code, more: Bytes, keep: nat)
    requires Scalar(c) && |EncodeCode(c)| <= keep <= |EncodeCode(c)| + |more|
    ensures DecodeIgnore((EncodeCode(c) + more)[..keep])
         == [c] + DecodeIgnore(more[..keep - |EncodeCode(c)|])
  {
    var e := EncodeCode(c);
    DecodeFirst(c, more[..keep - |e|], []);
    assert (e + more)[..keep] == e + more[..keep - |e|];
  }

  /** A cut anywhere inside an encoding decodes to whole characters: the ones that fit. */
  lemma {:induction false} CutDecodes(t: Text, keep: nat)
    requires Encodable(t) && keep <= Size(t)
    ensures DecodeIgnore(Encode(t)[..keep]) == t[..Fitting(t, keep)]
  {
    if t != [] {
      var e, more := EncodeCode(t[0]), Encode(t[1..]);
      if |e| <= keep {
        CutDecodes(t[1..], keep - |e|);
        CutAfter(t[0], more, keep);
        TakeCons(t, Fitting(t[1..], keep - |e|));
      } else {
        assert (e + more)[..keep] == e[..keep];
        CutShort(t[0], keep);
      }
    }
  }

  lemma {:induction false} TakeCons(t: Text, k: nat)
    requires k < |t|
    ensures t[..1 + k] == [t[0]] + t[1..][..k]
  {
  }

  lemma {:induction false} MarkerSize()
    ensures |MARKER| == 15 && Encodable(MARKER) && Size(MARKER) == 15
  {
    EncodeAscii(MARKER);
  }

  /** Text within the cap passes; longer text becomes its longest whole-character prefix that
      leaves room for the marker, then the marker. */
  lemma {:induction false} CapBytesExactly(t: Text, cap: nat)
    requires Encodable(t) && cap >= 15
    ensures Size(t) <= cap ==> CapBytes(t, cap) == t
    ensures Size(t) > cap ==>
              var k := Fitting(t, cap - 15);
              && CapBytes(t, cap) == t[..k] + MARKER
              && Size(t[..k]) + 15 <= cap && k < |t| && Size(t[..k + 1]) + 15 > cap
    ensures Encodable(CapBytes(t, cap)) && Size(CapBytes(t, cap)) <= cap
  {
    if Size(t) > cap {
      Trimmed(t, cap);
      CutDecodes(t, cap - 15);
      PrefixWithMarker(t, cap - 15);
    }
  }

  lemma {:induction false} CapAtMost(t: Text, cap: nat)
    requires Encodable(t) && cap >= 15
    ensures Encodable(CapBytes(t, cap)) && Size(CapBytes(t, cap)) <= cap
  {
    CapBytesExactly(t, cap);
  }

  lemma {:induction false} Trimmed(t: Text, cap: nat)
    requires Encodable(t) && Size(t) > cap >= 15
    ensures CapBytes(t, cap) == DecodeIgnore(Encode(t)[..cap - 15]) + MARKER
  {
    MarkerSize();
  }

  lemma {:induction false} PrefixWithMarker(t: Text, keep: nat)
    requires Encodable(t) && keep < Size(t)
    ensures var k := Fitting(t, keep);
            && k < |t| && Size(t[..k]) <= keep < Size(t[..k + 1])
            && Encodable(t[..k] + MARKER) && Size(t[..k] + MARKER) == Size(t[..k]) + 15
  {
    var k := Fitting(t, keep);
    MarkerSize();
    FittingIsLongest(t, keep);
    assert t[..|t|] == t;
    EncodeAppend(t[..k], MARKER);
  }

  /** The cap holds exactly when there was nothing to trim or the marker fits under it. */
  lemma {:induction false} CapHoldsIff(t: Text, cap: nat)
    requires Encodable(t)
    ensures Encodable(CapBytes(t, cap))
    ensures Size(CapBytes(t, cap)) <= cap <==> Size(t) <= cap || cap >= 15
  {
    MarkerSize();
    if Size(t) > cap {
      var cut := Sliced(Encode(t), cap - 15);
      DecodeEncodable(cut, []);
      EncodeAppend(DecodeIgnore(cut), MARKER);
      if cap >= 15 {
        CapBytesExactly(t, cap);
      }
    }
  }

  // ---- lines of a run's output -----------------------------------------------------------

  predicate IsLineBoundary(c: Code) {
    10 <= c <= 13 || 28 <= c <= 30 || c in {0x85, 0x2028, 0x2029}
  }

  /** `text.splitlines()` with `line` as the part of the current line already read. */
  function LinesFrom(t: Text, line: Text): seq<Text>
    decreases |t|
  {
    if t == [] then if line == [] then [] else [line]
    else if !IsLineBoundary(t[0]) then LinesFrom(t[1..], line + [t[0]])
    else if IsPrefix([CR, NL], t) then [line] + LinesFrom(t[2..], [])
    else [line] + LinesFrom(t[1..], [])
  }

  function SplitLines(t: Text): seq<Text> {
    LinesFrom(t, [])
  }

  predicate OneLine(t: Text) {
    forall i :: 0 <= i < |t| ==> !IsLineBoundary(t[i])
  }

  lemma {:induction false} LineThenRest(l: Text, rest: Text, line: Text)
    requires OneLine(l)
    ensures LinesFrom(l + ([NL] + rest), line) == [line + l] + LinesFrom(rest, [])
    decreases |l|
  {
    var t := l + ([NL] + rest);
    if l == [] {
      assert t == [NL] + rest && t[1..] == rest && line + l == line;
    } else {
      assert t[1..] == l[1..] + ([NL] + rest);
      LineThenRest(l[1..], rest, line + [l[0]]);
      assert line + [l[0]] + l[1..] == line + l;
    }
  }

  /** Ten code points end a line; a carriage return and a line feed together end one. */
  lemma {:induction false} LineBreaks(l: Text, c: Code, rest: Text)
    requires OneLine(l) && !(c == 13 && rest != [] && rest[0] == 10)
    requires c in {10, 11, 12, 13, 28, 29, 30, 0x85, 0x2028, 0x2029}
    ensures SplitLines(l + ([c] + rest)) == [l] + SplitLines(rest)
    ensures SplitLines(l + ([13, 10] + rest)) == [l] + SplitLines(rest)
  {
    EndsLine(l, [c], rest, []);
    EndsLine(l, [13, 10], rest, []);
    assert [] + l == l;
  }

  lemma {:induction false} EndsLine(l: Text, end: Text, rest: Text, line: Text)
    requires OneLine(l)
    requires end == [13, 10]
             || (|end| == 1 && IsLineBoundary(end[0]) && !(end[0] == 13 && rest != [] && rest[0] == 10))
    ensures LinesFrom(l + (end + rest), line) == [line + l] + LinesFrom(rest, [])
    decreases |l|
  {
    var t := l + (end + rest);
    if l == [] {
      assert t == end + rest && line + l == line;
      assert t[|end|..] == rest;
      assert end == [13, 10] ==> t[..2] == [CR, NL];
      assert |end| == 1 ==> !IsPrefix([CR, NL], t) by {
        if IsPrefix([CR, NL], t) {
          assert t[0] == t[..2][0] && t[1] == t[..2][1];
        }
      }
    } else {
      assert t[1..] == l[1..] + (end + rest);
      EndsLine(l[1..], end, rest, line + [l[0]]);
      assert line + [l[0]] + l[1..] == line + l;
    }
  }

  /** No other code point does. */
  lemma {:induction false} NoOtherBreak(c: Code)
    ensures IsLineBoundary(c) <==> c in {10, 11, 12, 13, 28, 29, 30, 0x85, 0x2028, 0x2029}
  {
  }

  lemma {:induction false} OneLineText(t: Text, line: Text)
    requires OneLine(t)
    ensures LinesFrom(t, line) == if line + t == [] then [] else [line + t]
    decreases |t|
  {
    if t == [] {
      assert line + t == line;
    } else {
      OneLineText(t[1..], line + [t[0]]);
      assert line + [t[0]] + t[1..] == line + t;
    }
  }

  /** Joined lines split back into those lines; only an empty last line is lost. */
  lemma {:induction false} SplitLinesOfJoin(lines: seq<Text>)
    requires forall i :: 0 <= i < |lines| ==> OneLine(lines[i])
    requires lines != [] ==> lines[|lines| - 1] != []
    ensures SplitLines(Join(lines, NL)) == lines
  {
    if |lines| == 1 {
      OneLineText(lines[0], []);
      assert [] + lines[0] == lines[0];
    } else if |lines| > 1 {
      var rest := Join(lines[1..], NL);
      SplitLinesOfJoin(lines[1..]);
      assert lines[0] + [NL] + rest == lines[0] + ([NL] + rest);
      LineThenRest(lines[0], rest, []);
      assert [] + lines[0] == lines[0] && [lines[0]] + lines[1..] == lines;
    }
  }

  const STATEMENT: Text := Ascii("> ")
  const DETAIL: Text := Ascii("E ")
  const FAILED: Text := Ascii("FAILED")
  const ERRORED: Text := Ascii("ERROR")

  function FirstDetail(lines: seq<Text>, i: nat): (k: nat)
    requires i <= |lines|
    ensures i <= k <= |lines| && (k < |lines| ==> IsPrefix(DETAIL, lines[k]))
    ensures forall j :: i <= j < k ==> !IsPrefix(DETAIL, lines[j])
    decreases |lines| - i
  {
    if i == |lines| || IsPrefix(DETAIL, lines[i]) then i else FirstDetail(lines, i + 1)
  }

  function DetailEnd(lines: seq<Text>, i: nat): (k: nat)
    requires i <= |lines|
    ensures i <= k <= |lines| && (k < |lines| ==> !IsPrefix(DETAIL, lines[k]))
    ensures forall j :: i <= j < k ==> IsPrefix(DETAIL, lines[j])
    decreases |lines| - i
  {
    if i == |lines| || !IsPrefix(DETAIL, lines[i]) then i else DetailEnd(lines, i + 1)
  }

  function StatementBefore(lines: seq<Text>, i: nat): (r: seq<Text>)
    requires i <= |lines|
    ensures r == [] ==> forall j :: 0 <= j < i ==> !IsPrefix(STATEMENT, lines[j])
    ensures r != [] ==> exists k :: 0 <= k < i && r == [lines[k]] && IsPrefix(STATEMENT, lines[k])
                                    && forall j :: k < j < i ==> !IsPrefix(STATEMENT, lines[j])
  {
    if i == 0 then []
    else if IsPrefix(STATEMENT, lines[i - 1]) then [lines[i - 1]]
    else StatementBefore(lines, i - 1)
  }

  /** The first failure's result lines, led by the nearest failing statement above them. */
  function FirstFailureEvidence(t: Text): Text {
    var lines := SplitLines(t);
    var start := FirstDetail(lines, 0);
    if start == |lines| then []
    else Join(StatementBefore(lines, start) + lines[start..DetailEnd(lines, start)], NL)
  }

  lemma {:induction false} EvidenceIffDetail(t: Text)
    ensures FirstFailureEvidence(t) != [] <==> exists l <- SplitLines(t) :: IsPrefix(DETAIL, l)
  {
    var lines := SplitLines(t);
    var start := FirstDetail(lines, 0);
    if start < |lines| {
      assert lines[start] in lines;
      var parts := StatementBefore(lines, start) + lines[start..DetailEnd(lines, start)];
      assert DetailEnd(lines, start) > start;
      assert |parts[0]| >= 2;
    }
  }

  predicate NoneMarked(lines: seq<Text>, mark: Text) {
    forall i :: 0 <= i < |lines| ==> !IsPrefix(mark, lines[i])
  }

  predicate AllMarked(lines: seq<Text>, mark: Text) {
    forall i :: 0 <= i < |lines| ==> IsPrefix(mark, lines[i])
  }

  lemma {:induction false} NearestStatement(
      above: seq<Text>, statement: seq<Text>, between: seq<Text>, lines: seq<Text>)
    requires |statement| <= 1 && AllMarked(statement, STATEMENT) && NoneMarked(between, STATEMENT)
    requires statement == [] ==> above == []
    requires above + statement + between <= lines
    ensures StatementBefore(lines, |above + statement + between|) == statement
  {
    var upto := |above + statement + between|;
    assert forall j :: 0 <= j < upto ==> lines[j] == (above + statement + between)[j];
    var k := |above| + |statement|;
    assert forall j :: k <= j < upto ==> lines[j] == between[j - k];
    assert statement != [] ==> lines[|above|] == statement[0] && statement == [lines[|above|]];
  }

  /** Wherever the first failure stands: its result lines are quoted, all of them and no later
      failure's, led by the nearest failing statement above them when there is one. */
  lemma {:induction false} FirstFailureQuoted(
      t: Text, above: seq<Text>, statement: seq<Text>, between: seq<Text>, detail: seq<Text>, after: seq<Text>)
    requires SplitLines(t) == above + statement + between + detail + after
    requires |statement| <= 1 && AllMarked(statement, STATEMENT) && (statement == [] ==> above == [])
    requires NoneMarked(between, STATEMENT) && NoneMarked(above + statement + between, DETAIL)
    requires detail != [] && AllMarked(detail, DETAIL) && (after != [] ==> !IsPrefix(DETAIL, after[0]))
    ensures FirstFailureEvidence(t) == Join(statement + detail, NL)
  {
    var lines, before := SplitLines(t), above + statement + between;
    var n := |before|;
    assert forall j :: 0 <= j < n ==> lines[j] == before[j];
    assert forall j :: n <= j < n + |detail| ==> lines[j] == detail[j - n];
    assert after != [] ==> lines[n + |detail|] == after[0];
    assert lines[n] == detail[0];
    assert FirstDetail(lines, 0) == n;
    assert DetailEnd(lines, n) == n + |detail|;
    NearestStatement(above, statement, between, lines);
    assert lines[n..n + |detail|] == detail;
  }

  predicate IsNodeId(line: Text) {
    IsPrefix(FAILED, line) || IsPrefix(ERRORED, line)
  }

  function Filter(lines: seq<Text>, keep: Text -> bool): seq<Text> {
    if lines == [] then []
    else Filter(lines[..|lines| - 1], keep) +
         if keep(lines[|lines| - 1]) then [lines[|lines| - 1]] else []
  }

  lemma {:induction false} FilterKeeps(lines: seq<Text>, keep: Text -> bool, x: Text)
    ensures x in Filter(lines, keep) <==> x in lines && keep(x)
  {
    if lines != [] {
      FilterKeeps(lines[..|lines| - 1], keep, x);
      assert lines == lines[..|lines| - 1] + [lines[|lines| - 1]];
    }
  }

  lemma {:induction false} FilterAppend(a: seq<Text>, b: seq<Text>, keep: Text -> bool)
    ensures Filter(a + b, keep) == Filter(a, keep) + Filter(b, keep)
  {
    if b == [] {
      assert a + b == a;
    } else {
      FrontLast(a, b);
      FilterAppend(a, b[..|b| - 1], keep);
    }
  }

  function LastLines(t: Text, count: nat): Text {
    var lines := SplitLines(t);
    Join(if |lines| <= count then lines else lines[|lines| - count..], NL)
  }

  // ---- the tail --------------------------------------------------------------------------

  /** The fixed texts of the builder. */
  datatype Wording = Wording(sourceHeader: Text, evidenceHeader: Text, replyHeader: Text,
                             reframe: Text, rungs: seq<Text>)
  {
    predicate Sound() {
      && Encodable(sourceHeader) && Encodable(evidenceHeader) && Encodable(replyHeader)
      && Encodable(reframe) && replyHeader != []
      && |rungs| == 2 && forall i :: 0 <= i < |rungs| ==> rungs[i] != [] && Encodable(rungs[i])
    }
  }

  /** A run of the oracle as the brief reads it: the score, the score line rendered from it, and
      the output with the facts of the run already stripped. */
  datatype Failure = Failure(score: TestScore, header: Text, output: Text) {
    predicate Encodes() {
      Encodable(header) && Encodable(output)
    }
  }

  /** What the next attempt is told: nothing, that its reply was no file, or how its file failed,
      with a rung of the ladder (1 or 2) when it stalled. */
  datatype Tail =
    | Opening
    | Reframed(reply: Text)
    | Repair(source: Text, failure: Failure, rung: nat)

  /** `nudge_for`: the rung of the n-th stall, `None` past the last. */
  function NudgeFor(stalls: int): (r: Option<nat>)
    ensures r.Some? <==> 1 <= stalls <= 2
    ensures r.Some? ==> r.value == stalls
  {
    if stalls < 1 || stalls > 2 then None else Some(stalls)
  }

  function Spaced(parts: seq<Text>): Text {
    if parts == [] then []
    else if |parts| == 1 then parts[0]
    else parts[0] + GAP + Spaced(parts[1..])
  }

  function BriefSections(f: Failure): seq<Text> {
    var ids := Filter(SplitLines(f.output), IsNodeId);
    var lines := SplitLines(LastLines(f.output, FEEDBACK_TAIL_LINES));
    var tail := if ids == [] then LastLines(f.output, FEEDBACK_TAIL_LINES)
                else Join(Filter(lines, l => l !in ids), NL);
    [f.header] + (if ids == [] then [] else [Join(ids, NL)]) + (if IsBlank(tail) then [] else [tail])
  }

  /** The sections ahead of the run's last lines: the score and the failing tests. */
  function BriefHead(f: Failure): seq<Text> {
    var ids := Filter(SplitLines(f.output), IsNodeId);
    [f.header] + if ids == [] then [] else [Join(ids, NL)]
  }

  function FailureBrief(f: Failure): Text
    requires Encodable(Spaced(BriefSections(f)))
  {
    CapBytes(Spaced(BriefSections(f)), FEEDBACK_BYTE_CAP)
  }

  function StallEscalation(w: Wording, f: Failure, rung: nat): Text
    requires w.Sound() && 1 <= rung <= 2 && Encodable(FirstFailureEvidence(f.output))
  {
    var evidence := FirstFailureEvidence(f.output);
    if evidence == [] then w.rungs[rung - 1]
    else Spaced([w.evidenceHeader, CapBytes(evidence, STALL_EVIDENCE_BYTE_CAP), w.rungs[rung - 1]])
  }

  /** A tail whose every text has an encoding. */
  predicate Encodes(t: Tail) {
    match t
    case Opening => true
    case Reframed(reply) => Encodable(reply)
    case Repair(source, f, _) =>
      && Encodable(source) && Encodable(Spaced(BriefSections(f)))
      && Encodable(FirstFailureEvidence(f.output))
  }

  function Render(w: Wording, t: Tail): Text
    requires w.Sound() && Encodes(t) && (t.Repair? ==> t.rung <= 2)
  {
    match t
    case Opening => []
    case Reframed(reply) => Spaced([w.replyHeader, CapBytes(reply, UNSCORABLE_REPLY_BYTE_CAP), w.reframe])
    case Repair(source, f, rung) =>
      Spaced((if source == [] then []
              else [Spaced([w.sourceHeader, CapBytes(source, PREVIOUS_SOURCE_BYTE_CAP)])])
             + [FailureBrief(f)]
             + (if rung == 0 then [] else [StallEscalation(w, f, rung)]))
  }

  /** A brief names, after the score, every failing test of the output; of the last forty lines
      it then shows every other one, and none of those again. */
  lemma {:induction false} BriefNames(f: Failure, line: Text)
    ensures var ids := Filter(SplitLines(f.output), IsNodeId);
            var last := SplitLines(LastLines(f.output, 40));
            && (line in ids <==>
                  line in SplitLines(f.output) && (IsPrefix(Ascii("FAILED"), line) || IsPrefix(Ascii("ERROR"), line)))
            && (line in Filter(last, l => l !in ids) <==> line in last && line !in ids)
            && BriefSections(f)
               == [f.header]
                  + (if ids == [] then [] else [Join(ids, NL)])
                  + (var shown := if ids == [] then LastLines(f.output, 40)
                                  else Join(Filter(last, l => l !in ids), NL);
                     if IsBlank(shown) then [] else [shown])
  {
    var ids := Filter(SplitLines(f.output), IsNodeId);
    FilterKeeps(SplitLines(f.output), IsNodeId, line);
    FilterKeeps(SplitLines(LastLines(f.output, 40)), l => l !in ids, line);
  }

  // ---- what the brief's cap trims --------------------------------------------------------

  lemma {:induction false} SpacedPrefix(a: seq<Text>, b: seq<Text>)
    requires a != []
    ensures Spaced(a) <= Spaced(a + b)
  {
    if b == [] {
      assert a + b == a;
    } else if |a| == 1 {
      assert (a + b)[0] == a[0];
    } else {
      assert (a + b)[1..] == a[1..] + b;
      SpacedPrefix(a[1..], b);
    }
  }

  /** The prefixes that fit are exactly those up to the longest. */
  lemma {:induction false} FittingDecides(t: Text, keep: nat, n: nat)
    requires Encodable(t) && n <= |t|
    ensures Size(t[..n]) <= keep <==> n <= Fitting(t, keep)
  {
    if n > 0 {
      assert t[..n][1..] == t[1..][..n - 1] && t[..n][0] == t[0];
      if |EncodeCode(t[0])| <= keep {
        FittingDecides(t[1..], keep - |EncodeCode(t[0])|, n - 1);
      }
    }
  }

  /** A brief over the cap keeps its whole head, the score and the failing tests, exactly when the
      head itself leaves room for the marker: only then is it the last lines alone that are cut. */
  lemma {:induction false} BriefKeepsHead(f: Failure)
    requires Encodable(Spaced(BriefSections(f)))
    ensures var head, whole := Spaced(BriefHead(f)), Spaced(BriefSections(f));
            var k := Fitting(whole, FEEDBACK_BYTE_CAP - 15);
            && head <= whole && Encodable(head)
            && FailureBrief(f) == (if Size(whole) <= FEEDBACK_BYTE_CAP then whole else whole[..k] + MARKER)
            && (|head| <= k <==> Size(head) + 15 <= FEEDBACK_BYTE_CAP)
  {
    var head, whole := Spaced(BriefHead(f)), Spaced(BriefSections(f));
    assert BriefSections(f) == BriefHead(f) + BriefSections(f)[|BriefHead(f)|..];
    SpacedPrefix(BriefHead(f), BriefSections(f)[|BriefHead(f)|..]);
    assert whole[..|head|] == head;
    CapBytesExactly(whole, FEEDBACK_BYTE_CAP);
    FittingDecides(whole, FEEDBACK_BYTE_CAP - 15, |head|);
  }

  /** An output of one long identifier: the brief is its head, and nothing else. */
  lemma {:induction false} LongIdentifier(score: TestScore, header: Text, id: Text)
    requires Encodable(header) && IsNodeId(id) && OneLine(id)
    requires forall i :: 0 <= i < |id| ==> id[i] < 0x80
    ensures var f := Failure(score, header, id);
            && BriefSections(f) == BriefHead(f) && Encodable(Spaced(BriefHead(f)))
            && Size(Spaced(BriefHead(f))) == Size(header) + |id| + 2
  {
    var f := Failure(score, header, id);
    OneLineText(id, []);
    assert [] + id == id;
    assert SplitLines(id) == [id];
    OneIdentifier(id);
    EncodeAscii(id);
    var head := BriefHead(f);
    assert head == [header, id];
    PairSize(header, id);
    assert BriefSections(f) == head;
  }

  lemma {:induction false} OneIdentifier(id: Text)
    requires IsNodeId(id) && SplitLines(id) == [id]
    ensures Filter([id], IsNodeId) == [id] && Join([id], NL) == id
    ensures LastLines(id, FEEDBACK_TAIL_LINES) == id
    ensures Filter([id], l => l !in [id]) == []
  {
    assert [id][..0] == [];
  }

  lemma {:induction false} SmallerPrefix(a: Text, b: Text)
    requires a <= b && Encodable(b)
    ensures Encodable(a) && Size(a) <= Size(b)
  {
    assert b == a + b[|a|..];
    assert Encodable(a) && Encodable(b[|a|..]);
    EncodeAppend(a, b[|a|..]);
  }

  /** Against the layout's promise, under any header: an output whose brief loses part of the
      failing test it names. */
  lemma {:induction false} HeadCanBeCut(score: TestScore, header: Text) returns (f: Failure)
    requires Encodable(header)
    ensures f.score == score && f.header == header
    ensures Encodable(Spaced(BriefSections(f))) && Size(Spaced(BriefSections(f))) > FEEDBACK_BYTE_CAP
    ensures !(Spaced(BriefHead(f)) <= FailureBrief(f))
  {
    var id := FAILED + seq(FEEDBACK_BYTE_CAP, _ => 97);
    assert id[..|FAILED|] == FAILED;
    f := Failure(score, header, id);
    LongIdentifier(score, header, id);
    CapBytesExactly(Spaced(BriefSections(f)), FEEDBACK_BYTE_CAP);
    if Spaced(BriefHead(f)) <= FailureBrief(f) {
      SmallerPrefix(Spaced(BriefHead(f)), FailureBrief(f));
    }
  }

  // ---- every tail is bounded by a constant of the wording --------------------------------

  function Sizes(parts: seq<Text>): nat
    requires forall i :: 0 <= i < |parts| ==> Encodable(parts[i])
  {
    if parts == [] then 0 else Size(parts[0]) + Sizes(parts[1..])
  }

  lemma {:induction false} SpacedSize(parts: seq<Text>)
    requires forall i :: 0 <= i < |parts| ==> Encodable(parts[i])
    ensures Encodable(Spaced(parts))
    ensures Size(Spaced(parts)) == Sizes(parts) + if parts == [] then 0 else 2 * (|parts| - 1)
  {
    if |parts| > 1 {
      SpacedSize(parts[1..]);
      EncodeAscii(GAP);
      EncodeAppend(parts[0], GAP);
      EncodeAppend(parts[0] + GAP, Spaced(parts[1..]));
    }
  }

  function Largest(a: nat, b: nat): nat {
    if a < b then b else a
  }

  /** The bound every rendered tail keeps: the wording, the four caps and the gaps between. */
  function TailBound(w: Wording): nat
    requires w.Sound()
  {
    Largest(Size(w.replyHeader) + Size(w.reframe) + UNSCORABLE_REPLY_BYTE_CAP + 4,
            Size(w.sourceHeader) + PREVIOUS_SOURCE_BYTE_CAP + FEEDBACK_BYTE_CAP
            + Size(w.evidenceHeader) + STALL_EVIDENCE_BYTE_CAP
            + Largest(Size(w.rungs[0]), Size(w.rungs[1])) + 10)
  }

  lemma {:induction false} SizesCons(x: Text, parts: seq<Text>)
    requires Encodable(x) && forall i :: 0 <= i < |parts| ==> Encodable(parts[i])
    ensures forall i :: 0 <= i < |[x] + parts| ==> Encodable(([x] + parts)[i])
    ensures Sizes([x] + parts) == Size(x) + Sizes(parts)
  {
    assert ([x] + parts)[1..] == parts;
  }

  lemma {:induction false} PairSize(a: Text, b: Text)
    requires Encodable(a) && Encodable(b)
    ensures Encodable(Spaced([a, b])) && Size(Spaced([a, b])) == Size(a) + Size(b) + 2
  {
    SpacedSize([a, b]);
    SizesCons(a, [b]);
    SizesCons(b, []);
    assert [a] + [b] == [a, b] && [b] + [] == [b];
  }

  lemma {:induction false} TripleSize(a: Text, b: Text, c: Text)
    requires Encodable(a) && Encodable(b) && Encodable(c)
    ensures Encodable(Spaced([a, b, c])) && Size(Spaced([a, b, c])) == Size(a) + Size(b) + Size(c) + 4
  {
    SpacedSize([a, b, c]);
    SizesCons(a, [b, c]);
    SizesCons(b, [c]);
    SizesCons(c, []);
    assert [a] + [b, c] == [a, b, c] && [b] + [c] == [b, c] && [c] + [] == [c];
  }

  lemma {:induction false} EscalationSize(w: Wording, f: Failure, rung: nat)
    requires w.Sound() && 1 <= rung <= 2 && Encodable(FirstFailureEvidence(f.output))
    ensures Encodable(StallEscalation(w, f, rung))
    ensures Size(StallEscalation(w, f, rung)) <= Size(w.evidenceHeader) + STALL_EVIDENCE_BYTE_CAP + 4
            + Largest(Size(w.rungs[0]), Size(w.rungs[1]))
  {
    var evidence := FirstFailureEvidence(f.output);
    CapAtMost(evidence, STALL_EVIDENCE_BYTE_CAP);
    TripleSize(w.evidenceHeader, CapBytes(evidence, STALL_EVIDENCE_BYTE_CAP), w.rungs[rung - 1]);
  }

  /** Leaving a section out only shortens the brief. */
  lemma {:induction false} SectionsBounded(a: seq<Text>, brief: Text, c: seq<Text>)
    requires |a| <= 1 && |c| <= 1 && Encodable(brief)
    requires (a != [] ==> Encodable(a[0])) && (c != [] ==> Encodable(c[0]))
    ensures Encodable(Spaced(a + [brief] + c))
    ensures Size(Spaced(a + [brief] + c)) <= Size(brief)
            + (if a == [] then 0 else Size(a[0]) + 2) + (if c == [] then 0 else Size(c[0]) + 2)
  {
    if a == [] && c == [] {
      assert a + [brief] + c == [brief];
    } else if a == [] {
      PairSize(brief, c[0]);
      assert a + [brief] + c == [brief, c[0]];
    } else if c == [] {
      PairSize(a[0], brief);
      assert a + [brief] + c == [a[0], brief];
    } else {
      TripleSize(a[0], brief, c[0]);
      assert a + [brief] + c == [a[0], brief, c[0]];
    }
  }

  lemma {:induction false} RepairBounded(w: Wording, source: Text, f: Failure, rung: nat)
    requires w.Sound() && Encodes(Repair(source, f, rung)) && rung <= 2
    ensures var r := Render(w, Repair(source, f, rung)); Encodable(r) && Size(r) <= TailBound(w)
  {
    CapAtMost(source, PREVIOUS_SOURCE_BYTE_CAP);
    CapAtMost(Spaced(BriefSections(f)), FEEDBACK_BYTE_CAP);
    PairSize(w.sourceHeader, CapBytes(source, PREVIOUS_SOURCE_BYTE_CAP));
    if rung != 0 {
      EscalationSize(w, f, rung);
    }
    var shown := Spaced([w.sourceHeader, CapBytes(source, PREVIOUS_SOURCE_BYTE_CAP)]);
    SectionsBounded(if source == [] then [] else [shown], FailureBrief(f),
                    if rung == 0 then [] else [StallEscalation(w, f, rung)]);
  }

  // ---- the repair tail, read front to back -----------------------------------------------

  /** The last file, under its header, as far as its cap shows it. */
  function SourceShown(w: Wording, source: Text): Text
    requires Encodable(source)
  {
    if source == [] then [] else w.sourceHeader + GAP + CapBytes(source, 8192) + GAP
  }

  /** The rung, led by the first failure's evidence under its header when the run marks one. */
  function RungShown(w: Wording, f: Failure, rung: nat): Text
    requires w.Sound() && rung <= 2 && Encodable(FirstFailureEvidence(f.output))
  {
    var evidence := FirstFailureEvidence(f.output);
    if rung == 0 then []
    else if evidence == [] then GAP + w.rungs[rung - 1]
    else GAP + w.evidenceHeader + GAP + CapBytes(evidence, 512) + GAP + w.rungs[rung - 1]
  }

  /** The file comes first, if there is one, then how it failed; then, if a rung is asked for, what
      the first failure showed; the rung comes last and is never cut. */
  predicate ReadsAs(r: Text, w: Wording, source: Text, f: Failure, rung: nat)
    requires w.Sound() && rung <= 2 && Encodes(Repair(source, f, rung))
  {
    r == SourceShown(w, source) + CapBytes(Spaced(BriefSections(f)), 4096) + RungShown(w, f, rung)
  }

  /** A reply that is no file is quoted under its header, and what to send instead follows. */
  lemma {:induction false} ReframeReads(w: Wording, reply: Text)
    requires w.Sound() && Encodable(reply)
    ensures Render(w, Reframed(reply)) == w.replyHeader + GAP + CapBytes(reply, 512) + GAP + w.reframe
    ensures Render(w, Opening) == []
  {
    var shown := CapBytes(reply, 512);
    SpacedThree(w.replyHeader, shown, w.reframe);
    assert w.replyHeader + GAP + (shown + GAP + w.reframe) == w.replyHeader + GAP + shown + GAP + w.reframe;
  }

  lemma {:induction false} SpacedTwo(a: Text, b: Text)
    ensures Spaced([a, b]) == a + GAP + b
  {
    assert [a, b][1..] == [b];
  }

  lemma {:induction false} SpacedThree(a: Text, b: Text, c: Text)
    ensures Spaced([a, b, c]) == a + GAP + (b + GAP + c)
  {
    assert [a, b, c][1..] == [b, c];
    SpacedTwo(b, c);
  }

  lemma {:induction false} EscalationReads(w: Wording, f: Failure, rung: nat)
    requires w.Sound() && 1 <= rung <= 2 && Encodable(FirstFailureEvidence(f.output))
    ensures GAP + StallEscalation(w, f, rung) == RungShown(w, f, rung)
  {
    var evidence, r := FirstFailureEvidence(f.output), w.rungs[rung - 1];
    if evidence != [] {
      var shown := CapBytes(evidence, STALL_EVIDENCE_BYTE_CAP);
      SpacedThree(w.evidenceHeader, shown, r);
      Regroup(GAP, w.evidenceHeader, shown, r);
    }
  }

  lemma {:induction false} Regroup(gap: Text, a: Text, b: Text, c: Text)
    ensures gap + (a + gap + (b + gap + c)) == gap + a + gap + b + gap + c
  {
  }

  lemma {:induction false} FrontToBack(a: seq<Text>, brief: Text, c: seq<Text>)
    requires |a| <= 1 && |c| <= 1
    ensures Spaced(a + [brief] + c)
         == (if a == [] then [] else a[0] + GAP) + brief + (if c == [] then [] else GAP + c[0])
  {
    if a == [] && c == [] {
      assert a + [brief] + c == [brief];
      assert [] + brief + [] == brief;
    } else if a == [] {
      SpacedTwo(brief, c[0]);
      assert a + [brief] + c == [brief, c[0]];
      assert brief + GAP + c[0] == [] + brief + (GAP + c[0]);
    } else if c == [] {
      SpacedTwo(a[0], brief);
      assert a + [brief] + c == [a[0], brief];
      assert a[0] + GAP + brief + [] == a[0] + GAP + brief;
    } else {
      SpacedThree(a[0], brief, c[0]);
      assert a + [brief] + c == [a[0], brief, c[0]];
      assert a[0] + GAP + (brief + GAP + c[0]) == a[0] + GAP + brief + (GAP + c[0]);
    }
  }

  lemma {:induction false} RepairReads(w: Wording, source: Text, f: Failure, rung: nat)
    requires w.Sound() && Encodes(Repair(source, f, rung)) && rung <= 2
    ensures ReadsAs(Render(w, Repair(source, f, rung)), w, source, f, rung)
  {
    var file := CapBytes(source, PREVIOUS_SOURCE_BYTE_CAP);
    SpacedTwo(w.sourceHeader, file);
    var a := if source == [] then [] else [Spaced([w.sourceHeader, file])];
    if rung == 0 {
      FrontToBack(a, FailureBrief(f), []);
    } else {
      EscalationReads(w, f, rung);
      FrontToBack(a, FailureBrief(f), [StallEscalation(w, f, rung)]);
    }
  }

  /** `distill_feedback`, which appends its sections to a list one by one. */
  method DistillFeedback(w: Wording, source: Text, f: Failure, rung: nat) returns (brief: Text)
    requires w.Sound() && rung <= 2 && Encodes(Repair(source, f, rung))
    ensures brief == Render(w, Repair(source, f, rung))
    ensures ReadsAs(brief, w, source, f, rung)
    ensures Encodable(brief) && Size(brief) <= TailBound(w)
  {
    var sections: seq<Text> := [];
    if source != [] {
      sections := sections + [Spaced([w.sourceHeader, CapBytes(source, PREVIOUS_SOURCE_BYTE_CAP)])];
    }
    sections := sections + [FailureBrief(f)];
    if rung != 0 {
      sections := sections + [StallEscalation(w, f, rung)];
    }
    assert sections == (if source == [] then []
                        else [Spaced([w.sourceHeader, CapBytes(source, PREVIOUS_SOURCE_BYTE_CAP)])])
                       + [FailureBrief(f)]
                       + (if rung == 0 then [] else [StallEscalation(w, f, rung)]);
    brief := Spaced(sections);
    RepairReads(w, source, f, rung);
    RepairBounded(w, source, f, rung);
  }

  // ---- what has an encoding --------------------------------------------------------------

  predicate AllEncode(lines: seq<Text>) {
    forall i :: 0 <= i < |lines| ==> Encodable(lines[i])
  }

  lemma {:induction false} LinesEncode(t: Text, line: Text)
    requires Encodable(t) && Encodable(line)
    ensures AllEncode(LinesFrom(t, line))
    decreases |t|
  {
    if t != [] {
      if !IsLineBoundary(t[0]) {
        LinesEncode(t[1..], line + [t[0]]);
      } else if IsPrefix([CR, NL], t) {
        LinesEncode(t[2..], []);
      } else {
        LinesEncode(t[1..], []);
      }
    }
  }

  lemma {:induction false} JoinEncodes(lines: seq<Text>)
    requires AllEncode(lines)
    ensures Encodable(Join(lines, NL))
  {
    if |lines| > 1 {
      JoinEncodes(lines[1..]);
    }
  }

  lemma {:induction false} FilterEncodes(lines: seq<Text>, keep: Text -> bool)
    requires AllEncode(lines)
    ensures AllEncode(Filter(lines, keep))
  {
    if lines != [] {
      FilterEncodes(lines[..|lines| - 1], keep);
    }
  }

  /** Cutting, filtering and joining lines of an encodable output never lose its encoding. */
  lemma {:induction false} BriefEncodes(f: Failure)
    requires f.Encodes()
    ensures Encodable(Spaced(BriefSections(f)))
  {
    LinesEncode(f.output, []);
    var all := SplitLines(f.output);
    FilterEncodes(all, IsNodeId);
    var ids := Filter(all, IsNodeId);
    JoinEncodes(ids);
    JoinEncodes(if |all| <= FEEDBACK_TAIL_LINES then all else all[|all| - FEEDBACK_TAIL_LINES..]);
    var tail := LastLines(f.output, FEEDBACK_TAIL_LINES);
    LinesEncode(tail, []);
    FilterEncodes(SplitLines(tail), l => l !in ids);
    JoinEncodes(Filter(SplitLines(tail), l => l !in ids));
    SpacedSize(BriefSections(f));
  }

  lemma {:induction false} EvidenceEncodes(f: Failure)
    requires f.Encodes()
    ensures Encodable(FirstFailureEvidence(f.output))
  {
    LinesEncode(f.output, []);
    var lines := SplitLines(f.output);
    var start := FirstDetail(lines, 0);
    if start < |lines| {
      JoinEncodes(StatementBefore(lines, start) + lines[start..DetailEnd(lines, start)]);
    }
  }

  /** Whatever the reply, the source and the oracle's output: one constant bounds every tail. */
  lemma {:induction false} TailBounded(w: Wording, t: Tail)
    requires w.Sound() && Encodes(t) && (t.Repair? ==> t.rung <= 2)
    ensures Encodable(Render(w, t)) && Size(Render(w, t)) <= TailBound(w)
  {
    match t
    case Opening =>
    case Reframed(reply) =>
      CapAtMost(reply, UNSCORABLE_REPLY_BYTE_CAP);
      TripleSize(w.replyHeader, CapBytes(reply, UNSCORABLE_REPLY_BYTE_CAP), w.reframe);
    case Repair(source, f, rung) =>
      RepairBounded(w, source, f, rung);
  }
}
