/** `AssistantContent` and what it recovers: the text between the last final marker and the first
    terminator, whatever else a transcript holds. */
module Harmony {
  import opened Texts

  const LESS: Code := 60

  const CHANNEL: Text := Ascii("<|channel|>")
  const START: Text := Ascii("<|start|>")
  const FINAL: Text := Ascii("<|channel|>final<|message|>")
  const RETURN: Text := Ascii("<|return|>")
  const END: Text := Ascii("<|end|>")

  predicate OpensTranscript(text: Text) {
    var t := StripLeft(text);
    IsPrefix(CHANNEL, t) || IsPrefix(START, t)
  }

  /** `content.partition(mark)[0]` */
  function Before(content: Text, mark: Text): Text {
    match Find(content, mark, 0)
    case None => content
    case Some(i) => content[..i]
  }

  function AssistantContent(text: Text): Text {
    if !OpensTranscript(text) then text
    else
      match FindLast(text, FINAL, |text|)
      case None => []
      case Some(i) => Before(Before(text[i + |FINAL|..], RETURN), END)
  }

  lemma {:induction false} StripsTo(text: Text, n: nat)
    requires n < |text| && IsBlank(text[..n]) && !IsSpace(text[n])
    ensures StripLeft(text) == text[n..]
  {
    if n > 0 {
      assert text[0] == text[..n][0];
      assert text[1..][..n - 1] == text[..n][1..];
      StripsTo(text[1..], n - 1);
    }
  }

  lemma {:induction false} MarksOpen()
    ensures |CHANNEL| > 0 && CHANNEL[0] == LESS && |START| > 0 && START[0] == LESS
  {
  }

  predicate OpensAt(text: Text, n: int) {
    && 0 <= n <= |text| && IsBlank(text[..n])
    && (IsPrefix(CHANNEL, text[n..]) || IsPrefix(START, text[n..]))
  }

  /** A text is a transcript exactly when, leading blanks aside, it opens with either mark. */
  lemma {:induction false} OpensIff(text: Text)
    ensures OpensTranscript(text) <==> exists n :: OpensAt(text, n)
  {
    MarksOpen();
    var k := |text| - |StripLeft(text)|;
    assert text[k..] == StripLeft(text);
    assert OpensTranscript(text) ==> OpensAt(text, k);
    if n :| OpensAt(text, n) {
      assert text[n] == text[n..][0];
      assert text[n..][0] == (if IsPrefix(CHANNEL, text[n..]) then text[n..][..|CHANNEL|] else text[n..][..|START|])[0];
      StripsTo(text, n);
    }
  }

  // ---- what is recovered -----------------------------------------------------------------

  /** A mark whose first code point occurs in it nowhere else. */
  predicate Unbordered(mark: Text) {
    mark != [] && forall k :: 0 < k < |mark| ==> mark[k] != mark[0]
  }

  lemma {:induction false} TerminatorsUnbordered()
    ensures Unbordered(RETURN) && Unbordered(END)
    ensures RETURN[0] == END[0] == LESS && RETURN[2] != END[2]
  {
  }

  lemma {:induction false} OccursChar(p: Text, t: Text, i: int, j: nat)
    requires OccursAt(p, t, i) && j < |p|
    ensures i + j < |t| && t[i + j] == p[j]
  {
    assert t[i..i + |p|][j] == t[i + j];
  }

  /** An occurrence that starts before a mark with the same first code point also ends before it. */
  lemma {:induction false} NoStraddle(p: Text, x: Text, q: Text, rest: Text, k: int)
    requires Unbordered(p) && q != [] && q[0] == p[0]
    requires OccursAt(p, x + q + rest, k) && k < |x|
    ensures OccursAt(p, x, k)
  {
    var t := x + q + rest;
    if k + |p| > |x| {
      OccursChar(p, t, k, |x| - k);
    }
    assert x[k..k + |p|] == t[k..k + |p|];
  }

  /** What stands before the first occurrence of a mark. */
  lemma {:induction false} BeforeMark(x: Text, mark: Text, rest: Text)
    requires Unbordered(mark) && !Contains(x, mark)
    ensures Before(x + mark + rest, mark) == x
  {
    var t := x + mark + rest;
    assert t[|x|..|x| + |mark|] == mark;
    assert OccursAt(mark, t, |x|);
    forall k | 0 <= k < |x| ensures !OccursAt(mark, t, k) {
      if OccursAt(mark, t, k) {
        NoStraddle(mark, x, mark, rest, k);
      }
    }
    assert t[..|x|] == x;
  }

  /** A first `return` after an `end` lies wholly after it. */
  lemma {:induction false} ReturnAfterEnd(x: Text, rest: Text, k: int)
    requires !Contains(x, RETURN) && OccursAt(RETURN, x + END + rest, k)
    ensures k >= |x| + |END|
  {
    TerminatorsUnbordered();
    if k < |x| {
      NoStraddle(RETURN, x, END, rest, k);
    } else {
      NotInsideEnd(x, rest, k);
    }
  }

  lemma {:induction false} NotInsideEnd(x: Text, rest: Text, k: int)
    requires k >= |x| && OccursAt(RETURN, x + END + rest, k)
    ensures k >= |x| + |END|
  {
    var t := x + END + rest;
    assert k == |x| ==> t[k + 2] == END[2];
    assert k < |x| + |END| ==> t[k] == END[k - |x|];
    OccursChar(RETURN, t, k, 0);
    OccursChar(RETURN, t, k, 2);
    TerminatorsUnbordered();
  }

  /** A message closed by a terminator, or by nothing, is cut exactly at its end. */
  lemma {:induction false} MessageEnds(x: Text, suffix: Text)
    requires !Contains(x, RETURN) && !Contains(x, END)
    requires suffix == [] || IsPrefix(RETURN, suffix) || IsPrefix(END, suffix)
    ensures Before(Before(x + suffix, RETURN), END) == x
  {
    TerminatorsUnbordered();
    if suffix == [] {
      assert x + suffix == x;
    } else if IsPrefix(RETURN, suffix) {
      assert x + suffix == x + RETURN + suffix[|RETURN|..];
      BeforeMark(x, RETURN, suffix[|RETURN|..]);
    } else {
      var rest := suffix[|END|..];
      assert x + suffix == x + END + rest;
      match Find(x + suffix, RETURN, 0) {
        case None =>
          BeforeMark(x, END, rest);
        case Some(k) =>
          ReturnAfterEnd(x, rest, k);
          assert (x + suffix)[..k] == x + END + rest[..k - |x| - |END|];
          BeforeMark(x, END, rest[..k - |x| - |END|]);
      }
    }
  }

  lemma {:induction false} FinalLessSigns(k: nat)
    requires 0 < k < |FINAL| && FINAL[k] == LESS
    ensures k + 2 < |FINAL| && FINAL[k + 2] != FINAL[2]
  {
    assert k == 16;
  }

  /** No second final marker starts inside the first. */
  lemma {:induction false} FinalNotInside(pre: Text, x: Text, i: int)
    requires |pre| < i < |pre| + |FINAL|
    ensures !OccursAt(FINAL, pre + FINAL + x, i)
  {
    var t := pre + FINAL + x;
    if OccursAt(FINAL, t, i) {
      OccursChar(FINAL, t, i, 0);
      FinalLessSigns(i - |pre|);
      OccursChar(FINAL, t, i, 2);
    }
  }

  lemma {:induction false} OccursInRest(p: Text, a: Text, x: Text, i: int)
    requires OccursAt(p, a + x, i) && i >= |a|
    ensures OccursAt(p, x, i - |a|)
  {
    assert x[i - |a|..i - |a| + |p|] == (a + x)[i..i + |p|];
  }

  /** The final marker followed by a text without one is the last one. */
  lemma {:induction false} LastFinal(pre: Text, x: Text)
    requires !Contains(x, FINAL)
    ensures var t := pre + FINAL + x; FindLast(t, FINAL, |t|) == Some(|pre|)
  {
    var t := pre + FINAL + x;
    assert t[|pre|..|pre| + |FINAL|] == FINAL;
    assert OccursAt(FINAL, t, |pre|);
    forall i | |pre| < i <= |t| ensures !OccursAt(FINAL, t, i) {
      if i < |pre| + |FINAL| {
        FinalNotInside(pre, x, i);
      } else if OccursAt(FINAL, t, i) {
        OccursInRest(FINAL, pre + FINAL, x, i);
      }
    }
  }

  /** The last final channel of a transcript is what comes back, whole: for every opening, every
      earlier channel, and any terminator and anything after it. */
  lemma {:induction false} TranscriptRecovered(pre: Text, message: Text, suffix: Text)
    requires OpensTranscript(pre + FINAL + (message + suffix))
    requires !Contains(message + suffix, FINAL)
    requires !Contains(message, RETURN) && !Contains(message, END)
    requires suffix == [] || IsPrefix(RETURN, suffix) || IsPrefix(END, suffix)
    ensures AssistantContent(pre + FINAL + (message + suffix)) == message
  {
    var t := pre + FINAL + (message + suffix);
    LastFinal(pre, message + suffix);
    assert t[|pre| + |FINAL|..] == message + suffix;
    MessageEnds(message, suffix);
  }

  /** A transcript without a final channel yields nothing; any other text passes unchanged. */
  lemma {:induction false} OtherReplies(text: Text)
    ensures !OpensTranscript(text) ==> AssistantContent(text) == text
    ensures OpensTranscript(text) && !Contains(text, FINAL) ==> AssistantContent(text) == []
  {
  }
}
