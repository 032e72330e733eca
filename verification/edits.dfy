/** `ExtractFile`, its fence rule `Unwrapped`, and the encoder `ReplayFrame` that is their partner:
    which texts come back, and which do not. */
module Edits {
  import opened Texts
  import opened Utf8
  import H = Harmony

  const PREFIX: Text := Ascii("FILE: ")
  const FENCE: Text := Ascii("```")

  datatype WholeFileReply = WholeFileReply(path: Text, payload: Bytes)

  // ---- the fence -------------------------------------------------------------------------

  /** The line starts with the fence mark and, trailing blanks aside, holds it nowhere else. */
  predicate IsFenceOpener(line: Text) {
    var t := StripRight(line);
    IsPrefix(FENCE, t) && !Contains(t[|FENCE|..], FENCE)
  }

  /** How many lines remain after dropping trailing blank ones. */
  function ContentEnd(lines: seq<Text>): (n: nat)
    ensures n <= |lines|
  {
    if lines == [] || !IsBlank(lines[|lines| - 1]) then |lines| else ContentEnd(lines[..|lines| - 1])
  }

  /** The first line opens a fence and the last line that is not blank closes it. */
  predicate Wrapped(payload: Text) {
    var lines := Split(payload, NL);
    Enclosed(lines, ContentEnd(lines))
  }

  predicate Enclosed(lines: seq<Text>, end: nat) {
    2 <= end <= |lines| && IsFenceOpener(lines[0]) && Strip(lines[end - 1]) == FENCE
  }

  function Unwrapped(payload: Text): Text {
    if !Wrapped(payload) then payload
    else
      var lines := Split(payload, NL);
      var body := Join(lines[1..ContentEnd(lines) - 1], NL);
      if body == [] then [] else body + [NL]
  }

  /** `_unwrap_fence` */
  method UnwrapFence(payload: Text) returns (r: Text)
    ensures r == Unwrapped(payload)
  {
    var lines := Split(payload, NL);
    var end := |lines|;
    TakeDrop(lines, end);
    while end > 0 && IsBlank(lines[end - 1])
      invariant 0 <= end <= |lines| && ContentEnd(lines[..end]) == ContentEnd(lines)
    {
      DropBlank(lines, end - 1);
      end := end - 1;
    }
    assert end > 0 ==> lines[..end][end - 1] == lines[end - 1];
    if end < 2 || !IsFenceOpener(lines[0]) || Strip(lines[end - 1]) != FENCE {
      return payload;
    }
    var body := Join(lines[1..end - 1], NL);
    return if body == [] then [] else body + [NL];
  }

  lemma {:induction false} DropBlank(lines: seq<Text>, k: nat)
    requires k < |lines| && IsBlank(lines[k])
    ensures ContentEnd(lines[..k + 1]) == ContentEnd(lines[..k])
  {
    assert lines[..k + 1][..k] == lines[..k];
  }

  lemma {:induction false} JoinPrefix(a: seq<Text>, b: seq<Text>)
    ensures |Join(a + b, NL)| >= |Join(a, NL)|
  {
    if a == [] {
    } else if b == [] {
      assert a + b == a;
    } else if |a| > 1 {
      assert (a + b)[1..] == a[1..] + b;
      JoinPrefix(a[1..], b);
    }
  }

  /** Unwrapping is the identity exactly on the payloads that lack either end of the fence. */
  lemma {:induction false} UnwrappedIffNotWrapped(payload: Text)
    ensures Unwrapped(payload) == payload <==> !Wrapped(payload)
  {
    if Wrapped(payload) {
      var lines := Split(payload, NL);
      var end := ContentEnd(lines);
      SplitJoin(payload, NL);
      assert |lines[0]| >= |FENCE|;
      assert lines[1..] == lines[1..end - 1] + lines[end - 1..];
      JoinPrefix(lines[1..end - 1], lines[end - 1..]);
    }
  }

  lemma {:induction false} StripRightBlank(x: Text, blank: Text)
    requires IsBlank(blank) && (x == [] || !IsSpace(x[|x| - 1]))
    ensures StripRight(x + blank) == x
  {
    if blank == [] {
      assert x + blank == x;
    } else {
      assert (x + blank)[..|x + blank| - 1] == x + blank[..|blank| - 1];
      StripRightBlank(x, blank[..|blank| - 1]);
    }
  }

  predicate AllBlank(lines: seq<Text>) {
    forall i :: 0 <= i < |lines| ==> IsBlank(lines[i])
  }

  lemma {:induction false} SplitBlank(t: Text)
    requires IsBlank(t)
    ensures AllBlank(Split(t, NL))
  {
    if t != [] {
      SplitBlank(t[1..]);
      SplitCons(t[0], t[1..], NL);
      assert t == [t[0]] + t[1..];
      assert t[0] in t;
    }
  }

  lemma {:induction false} EndAt(a: seq<Text>, x: Text, blanks: seq<Text>)
    requires !IsBlank(x) && AllBlank(blanks)
    ensures ContentEnd(a + [x] + blanks) == |a| + 1
  {
    var all := a + [x] + blanks;
    if blanks == [] {
      assert all[|all| - 1] == x;
    } else {
      assert all[|all| - 1] == blanks[|blanks| - 1];
      assert all[..|all| - 1] == a + [x] + blanks[..|blanks| - 1];
      EndAt(a, x, blanks[..|blanks| - 1]);
    }
  }

  /** A fence in front of a text extends its first line. */
  lemma {:induction false} FenceFirst(t: Text)
    ensures Split(FENCE + t, NL) == [FENCE + Split(t, NL)[0]] + Split(t, NL)[1..]
  {
    var ts := Split(t, NL);
    SplitCons(96, t, NL);
    SplitCons(96, [96] + t, NL);
    SplitCons(96, [96] + ([96] + t), NL);
    FenceChars(t);
    FenceChars(ts[0]);
  }

  lemma {:induction false} FenceChars(t: Text)
    ensures FENCE + t == [96] + ([96] + ([96] + t))
    ensures FENCE[0] == FENCE[2] == 96 && |FENCE| == 3
    ensures NL !in FENCE && CR !in PREFIX
  {
  }

  /** The closing line, blanks before and after its fence, and the blank lines after it. */
  lemma {:induction false} CloserLines(lead: Text, blank: Text)
    requires IsBlank(blank) && IsBlank(lead) && NL !in lead
    ensures var ts := Split(lead + (FENCE + blank), NL);
            && Strip(ts[0]) == FENCE && !IsBlank(ts[0])
            && AllBlank(ts[1..])
  {
    var ts := Split(blank, NL);
    SplitBlank(blank);
    FenceFirst(blank);
    LeadFirst(lead, FENCE + blank);
    FenceLine(lead, ts[0]);
  }

  /** A text without a line end in front of another extends its first line. */
  lemma {:induction false} LeadFirst(lead: Text, t: Text)
    requires NL !in lead
    ensures Split(lead + t, NL) == [lead + Split(t, NL)[0]] + Split(t, NL)[1..]
  {
    SplitAppend(lead, t, NL);
    SplitFree(lead, NL);
    var ts := Split(t, NL);
    if lead == [] {
      assert lead + t == t && [] + ts[0] == ts[0];
    } else {
      assert lead + t == [lead[0]] + (lead[1..] + t);
      LeadFirst(lead[1..], t);
      SplitCons(lead[0], lead[1..] + t, NL);
      assert [lead[0]] + (lead[1..] + ts[0]) == lead + ts[0];
    }
  }

  lemma {:induction false} FenceLine(lead: Text, blank: Text)
    requires IsBlank(blank) && IsBlank(lead)
    ensures Strip(lead + (FENCE + blank)) == FENCE && !IsBlank(lead + (FENCE + blank))
  {
    FenceChars(blank);
    StripLeftBlank(lead, FENCE + blank);
    StripRightBlank(FENCE, blank);
    HoldsFence(lead, FENCE + blank);
  }

  lemma {:induction false} HoldsFence(lead: Text, line: Text)
    requires line != [] && line[0] == 96
    ensures !IsBlank(lead + line)
  {
    assert (lead + line)[|lead|] == 96;
    assert 96 in lead + line;
  }

  lemma {:induction false} StripLeftBlank(lead: Text, line: Text)
    requires IsBlank(lead) && line != [] && !IsSpace(line[0])
    ensures StripLeft(lead + line) == line
  {
    if lead == [] {
      assert lead + line == line;
    } else {
      assert (lead + line)[1..] == lead[1..] + line;
      StripLeftBlank(lead[1..], line);
    }
  }

  lemma {:induction false} BodyLines(body: Text, rest: Text)
    requires body == [] || body[|body| - 1] == NL
    ensures Split(body + rest, NL) == Lines(body, NL) + Split(rest, NL)
    ensures body != [] ==> Join(Lines(body, NL), NL) + [NL] == body
    ensures body == [] ==> Lines(body, NL) == []
  {
    SplitAppend(body, rest, NL);
    if body == [] {
      assert body + rest == rest;
    } else {
      var front := body[..|body| - 1];
      assert body == front + [NL];
      SplitAppend(front, [NL], NL);
      TailFree(front, NL);
      SplitAt(Tail(front, NL), [], NL);
      assert Tail(front, NL) + [NL] + [] == Tail(front, NL) + [NL];
      assert Split(body, NL) == Split(front, NL) + [[]];
      assert Lines(body, NL) == Split(front, NL) && Tail(body, NL) == [];
      assert [] + rest == rest;
      SplitJoin(front, NL);
    }
  }

  lemma {:induction false} OpenerLine(info: Text)
    requires !Contains(info, FENCE)
    ensures IsFenceOpener(FENCE + info)
  {
    var core := StripRight(info);
    assert FENCE + info == (FENCE + core) + info[|core|..];
    assert FENCE[2] == 96;
    StripRightBlank(FENCE + core, info[|core|..]);
    assert (FENCE + core)[|FENCE|..] == core;
    forall i | 0 <= i <= |core| && OccursAt(FENCE, core, i) ensures OccursAt(FENCE, info, i) {
      assert core[i..i + |FENCE|] == info[i..i + |FENCE|];
    }
  }

  lemma {:induction false} FencedLines(info: Text, body: Text, rest: Text)
    requires NL !in info && (body == [] || body[|body| - 1] == NL)
    ensures Split(FENCE + info + [NL] + (body + rest), NL) == [FENCE + info] + Lines(body, NL) + Split(rest, NL)
  {
    FenceChars(info);
    SplitAt(FENCE + info, body + rest, NL);
    BodyLines(body, rest);
    Associative([FENCE + info], Lines(body, NL), Split(rest, NL));
  }

  /** Unwrapping, from the shape of the lines. */
  lemma {:induction false} WrappedBody(payload: Text, opener: Text, body: seq<Text>, closer: Text, blanks: seq<Text>)
    requires Split(payload, NL) == [opener] + body + ([closer] + blanks)
    requires IsFenceOpener(opener) && Strip(closer) == FENCE && !IsBlank(closer) && AllBlank(blanks)
    ensures Unwrapped(payload) == if Join(body, NL) == [] then [] else Join(body, NL) + [NL]
  {
    var lines := Split(payload, NL);
    assert lines == ([opener] + body) + [closer] + blanks;
    EndAt([opener] + body, closer, blanks);
    assert lines[1 + |body|] == closer && lines[0] == opener;
    assert lines[1..1 + |body|] == body;
  }

  /** `payload` is a fence around `body`: a first line of the mark and an info string without one,
      whole lines, then a line of the mark alone but for blanks, and blanks to the end. */
  predicate Fences(payload: Text, info: Text, body: Text, lead: Text, blank: Text) {
    && payload == FENCE + info + [NL] + (body + (lead + (FENCE + blank)))
    && NL !in info && !Contains(info, FENCE)
    && (body == [] || body[|body| - 1] == NL)
    && IsBlank(lead) && NL !in lead && IsBlank(blank)
  }

  /** Fencing undone: for every newline-terminated or empty body, any info string without a fence
      marker and any blanks around the closer, the body comes back; a lone newline comes back
      empty. */
  lemma {:induction false} FencedUnwraps(payload: Text, info: Text, body: Text, lead: Text, blank: Text)
    requires Fences(payload, info, body, lead, blank)
    ensures Wrapped(payload) && Unwrapped(payload) == if body == [NL] then [] else body
  {
    var rest := lead + (FENCE + blank);
    var ts := Split(rest, NL);
    FencedLines(info, body, rest);
    CloserLines(lead, blank);
    OpenerLine(info);
    BodyLines(body, []);
    assert ts == [ts[0]] + ts[1..];
    WrappedBody(payload, FENCE + info, Lines(body, NL), ts[0], ts[1..]);
    var joined := Join(Lines(body, NL), NL);
    assert joined == [] ==> body == [] || body == [NL];
  }

  lemma {:induction false} JoinAppend(a: seq<Text>, b: seq<Text>)
    requires a != [] && b != []
    ensures Join(a + b, NL) == Join(a, NL) + [NL] + Join(b, NL)
  {
    if |a| == 1 {
      assert a + b == [a[0]] + b && (a + b)[1..] == b;
    } else {
      assert (a + b)[1..] == a[1..] + b;
      JoinAppend(a[1..], b);
      assert a[0] + [NL] + (Join(a[1..], NL) + [NL] + Join(b, NL))
          == a[0] + [NL] + Join(a[1..], NL) + [NL] + Join(b, NL);
    }
  }

  lemma {:induction false} JoinBlank(lines: seq<Text>)
    requires AllBlank(lines)
    ensures IsBlank(Join(lines, NL))
  {
    if |lines| > 1 {
      JoinBlank(lines[1..]);
    }
  }

  lemma {:induction false} BlankAfterEnd(lines: seq<Text>)
    ensures AllBlank(lines[ContentEnd(lines)..])
  {
    if lines != [] && IsBlank(lines[|lines| - 1]) {
      var front, n := lines[..|lines| - 1], ContentEnd(lines);
      BlankAfterEnd(front);
      assert forall i :: n <= i < |lines| - 1 ==> lines[i] == front[n..][i - n];
    }
  }

  /** The opener is the mark and an info string. */
  lemma {:induction false} OpenerIs(line: Text) returns (info: Text)
    requires IsFenceOpener(line)
    ensures line == FENCE + info && !Contains(info, FENCE)
  {
    var t := StripRight(line);
    info := line[|FENCE|..];
    assert line[..|FENCE|] == t[..|FENCE|];
    FenceChars(info);
    forall i | 0 <= i <= |info| && OccursAt(FENCE, info, i) ensures OccursAt(FENCE, t[|FENCE|..], i) {
      assert info[i..i + 3][2] == info[i + 2] == line[i + 5];
      if i + 5 >= |t| {
        BlankTail(line, i + 5);
      }
      SameWindow(line, |t|, i);
    }
  }

  lemma {:induction false} SameWindow(line: Text, cut: nat, i: nat)
    requires i + 6 <= cut <= |line|
    ensures line[..cut][3..][i..i + 3] == line[3..][i..i + 3]
  {
    assert line[..cut][3..] == line[3..][..cut - 3];
    assert line[3..][..cut - 3][i..i + 3] == line[3..][i..i + 3];
  }

  lemma {:induction false} BlankTail(line: Text, k: nat)
    requires |StripRight(line)| <= k < |line|
    ensures IsSpace(line[k])
  {
    var t := StripRight(line);
    assert line[k] == line[|t|..][k - |t|];
    assert line[|t|..][k - |t|] in line[|t|..];
  }

  /** The closer is the mark between blanks. */
  lemma {:induction false} CloserIs(line: Text) returns (lead: Text, trail: Text)
    requires Strip(line) == FENCE && NL !in line
    ensures line == lead + (FENCE + trail) && IsBlank(lead) && IsBlank(trail) && NL !in lead
  {
    var t := StripLeft(line);
    var k := |line| - |t|;
    lead, trail := line[..k], t[|FENCE|..];
    TakeDrop(line, k);
    TakeDrop(t, |FENCE|);
    NotInParts(lead, t);
  }

  lemma {:induction false} NotInParts(a: Text, b: Text)
    requires NL !in a + b
    ensures NL !in a && NL !in b
  {
    assert forall c <- a :: c in a + b;
    assert forall c <- b :: c in a + b;
  }

  /** The first line and the closer's, with the lines of the body between. */
  lemma {:induction false} ThreeParts(lines: seq<Text>, end: nat) returns (body: Text)
    requires 2 <= end <= |lines|
    ensures Join(lines, NL) == lines[0] + [NL] + (body + Join(lines[end - 1..], NL))
    ensures body == [] || body[|body| - 1] == NL
  {
    var middle, last := lines[1..end - 1], lines[end - 1..];
    assert lines == [lines[0]] + (middle + last);
    JoinAppend([lines[0]], middle + last);
    if middle == [] {
      body := [];
      assert middle + last == last && body + Join(last, NL) == Join(last, NL);
    } else {
      JoinAppend(middle, last);
      body := Join(middle, NL) + [NL];
    }
  }

  /** The closer and what follows it, as one text. */
  lemma {:induction false} Closing(closer: Text, after: seq<Text>) returns (lead: Text, blank: Text)
    requires Strip(closer) == FENCE && NL !in closer && AllBlank(after)
    ensures Join([closer] + after, NL) == lead + (FENCE + blank)
    ensures IsBlank(lead) && NL !in lead && IsBlank(blank)
  {
    var trail;
    lead, trail := CloserIs(closer);
    if after == [] {
      blank := trail;
      assert [closer] + after == [closer];
    } else {
      JoinBlank(after);
      blank := trail + [NL] + Join(after, NL);
      JoinAppend([closer], after);
      Regroup(lead, FENCE, trail, [NL], Join(after, NL));
    }
  }

  lemma {:induction false} Regroup(a: Text, b: Text, c: Text, d: Text, e: Text)
    ensures a + (b + c) + d + e == a + (b + (c + d + e))
  {
  }

  lemma {:induction false} LineFree(payload: Text, k: nat)
    requires k < |Split(payload, NL)|
    ensures NL !in Split(payload, NL)[k]
  {
    SplitJoin(payload, NL);
    assert Split(payload, NL)[k] in Split(payload, NL);
  }

  /** The lines of a wrapped payload, joined part by part. */
  lemma {:induction false} FencedParts(payload: Text, lines: seq<Text>, end: nat)
    returns (info: Text, body: Text, lead: Text, blank: Text)
    requires Enclosed(lines, end)
    requires NL !in lines[0] && NL !in lines[end - 1] && AllBlank(lines[end..])
    requires Join(lines, NL) == payload
    ensures Fences(payload, info, body, lead, blank)
  {
    info := OpenerIs(lines[0]);
    NotInParts(FENCE, info);
    body := ThreeParts(lines, end);
    assert lines[end - 1..] == [lines[end - 1]] + lines[end..];
    lead, blank := Closing(lines[end - 1], lines[end..]);
  }

  /** Nothing else is unwrapped: a wrapped payload is a fence around something. */
  lemma {:induction false} WrappedIsFenced(payload: Text)
    returns (info: Text, body: Text, lead: Text, blank: Text)
    requires Wrapped(payload)
    ensures Fences(payload, info, body, lead, blank)
  {
    var lines := Split(payload, NL);
    var end := ContentEnd(lines);
    WrappedShape(payload, lines, end);
    SplitShape(payload, lines, end);
    info, body, lead, blank := FencedParts(payload, lines, end);
  }

  lemma {:induction false} WrappedShape(payload: Text, lines: seq<Text>, end: nat)
    requires lines == Split(payload, NL) && end == ContentEnd(lines) && Wrapped(payload)
    ensures Enclosed(lines, end)
  {
  }

  lemma {:induction false} SplitShape(payload: Text, lines: seq<Text>, end: nat)
    requires lines == Split(payload, NL) && 2 <= end <= |lines| && end == ContentEnd(lines)
    ensures NL !in lines[0] && NL !in lines[end - 1] && AllBlank(lines[end..]) && Join(lines, NL) == payload
  {
    LineFree(payload, 0);
    LineFree(payload, end - 1);
    BlankAfterEnd(lines);
    JoinOnly(payload);
  }

  lemma {:induction false} JoinOnly(payload: Text)
    ensures Join(Split(payload, NL), NL) == payload
  {
    SplitJoin(payload, NL);
  }

  // ---- the frame -------------------------------------------------------------------------

  /** `text.lstrip("\n")` */
  function StripNewlines(text: Text): Text {
    if text != [] && text[0] == NL then StripNewlines(text[1..]) else text
  }

  function ExtractFile(text: Text): Option<WholeFileReply> {
    var t := StripNewlines(text);
    var header := Split(t, NL)[0];
    if NL !in t || CR in header || !IsPrefix(PREFIX, header) then None
    else
      HeaderFits(t);
      var path := header[|PREFIX|..];
      var payload := Unwrapped(RemovePrefix(t[|header| + 1..], [NL]));
      if IsBlank(path) || !Encodable(path) || !Encodable(payload) then None
      else Some(WholeFileReply(path, Encode(payload)))
  }

  lemma {:induction false} HeaderFits(t: Text)
    requires NL in t
    ensures |Split(t, NL)[0]| < |t|
  {
    if t[0] != NL {
      HeaderFits(t[1..]);
    }
  }

  /** The reply the benchmark replay streams for one file. */
  function ReplayFrame(path: Text, source: Text): Text {
    PREFIX + path + [NL] + ([NL] + source)
  }

  function Newlines(n: nat): Text {
    seq(n, _ => NL)
  }

  /** `text` is a frame: any newlines, the header naming `path`, and `rest`. */
  predicate Frames(text: Text, n: nat, path: Text, rest: Text) {
    && text == Newlines(n) + (PREFIX + path + [NL] + rest)
    && NL !in path && CR !in path && !IsBlank(path)
  }

  /** Every frame yields its path and what follows, one blank line and a wrapping fence removed;
      or nothing, where either has no encoding. */
  lemma {:induction false} FrameYields(text: Text, n: nat, path: Text, rest: Text)
    requires Frames(text, n, path, rest)
    ensures var payload := Unwrapped(if rest != [] && rest[0] == NL then rest[1..] else rest);
            ExtractFile(text) == if Encodable(path) && Encodable(payload)
                                 then Some(WholeFileReply(path, Encode(payload))) else None
  {
    var frame := PREFIX + path + [NL] + rest;
    LeadingNewlines(n, frame);
    SplitAt(PREFIX + path, rest, NL);
    assert frame[|PREFIX + path|] == NL;
    assert (PREFIX + path)[|PREFIX|..] == path;
    assert frame[|PREFIX + path| + 1..] == rest;
    assert rest != [] && rest[0] == NL ==> rest[..1] == [NL];
    FenceChars(path);
  }

  /** Nothing else yields a file: what is extracted comes from a frame. */
  lemma {:induction false} YieldsFrame(text: Text) returns (n: nat, rest: Text)
    requires ExtractFile(text).Some?
    ensures Frames(text, n, ExtractFile(text).value.path, rest)
  {
    HeaderNames(text);
    n := NewlinesStripped(text);
    rest := HeaderParts(StripNewlines(text));
  }

  lemma {:induction false} HeaderNames(text: Text)
    requires ExtractFile(text).Some?
    ensures NL in StripNewlines(text)
    ensures var header, path := Split(StripNewlines(text), NL)[0], ExtractFile(text).value.path;
            && header == PREFIX + path && NL !in path && CR !in path && !IsBlank(path)
  {
    var header := Split(StripNewlines(text), NL)[0];
    LineFree(StripNewlines(text), 0);
    assert header == PREFIX + header[|PREFIX|..];
    assert forall c <- header[|PREFIX|..] :: c in header;
  }

  /** A text with a line end is its first line, the end, and the rest. */
  lemma {:induction false} HeaderParts(t: Text) returns (rest: Text)
    requires NL in t
    ensures var header := Split(t, NL)[0]; t == header + [NL] + rest && NL !in header
  {
    var header := Split(t, NL)[0];
    HeaderEnds(t);
    SplitJoin(t, NL);
    assert header in Split(t, NL);
    rest := t[|header| + 1..];
    assert t == t[..|header|] + [t[|header|]] + rest;
  }

  lemma {:induction false} NewlinesStripped(text: Text) returns (n: nat)
    ensures text == Newlines(n) + StripNewlines(text)
  {
    n := 0;
    if text != [] && text[0] == NL {
      var k := NewlinesStripped(text[1..]);
      n := k + 1;
      assert Newlines(n) == [NL] + Newlines(k);
      assert text == [NL] + text[1..];
    } else {
      assert Newlines(0) == [];
    }
  }

  lemma {:induction false} HeaderEnds(t: Text)
    requires NL in t
    ensures var header := Split(t, NL)[0];
            |header| < |t| && t[..|header|] == header && t[|header|] == NL
  {
    HeaderFits(t);
    if t[0] != NL {
      HeaderFits(t[1..]);
      HeaderEnds(t[1..]);
    }
  }

  /** With the blank line the format asks for: the path and the source come back, with a wrapping
      fence removed and text that has no encoding refused. */
  lemma {:induction false} FrameExtracts(path: Text, source: Text, newlines: nat)
    requires NL !in path && CR !in path && !IsBlank(path)
    ensures ExtractFile(Newlines(newlines) + ReplayFrame(path, source))
         == if Encodable(path) && Encodable(Unwrapped(source))
            then Some(WholeFileReply(path, Encode(Unwrapped(source)))) else None
  {
    assert ([NL] + source)[1..] == source;
    FrameYields(Newlines(newlines) + ReplayFrame(path, source), newlines, path, [NL] + source);
  }

  lemma {:induction false} LeadingNewlines(n: nat, t: Text)
    requires t != [] && t[0] != NL
    ensures StripNewlines(Newlines(n) + t) == t
  {
    if n == 0 {
      assert Newlines(0) + t == t;
    } else {
      assert (Newlines(n) + t)[1..] == Newlines(n - 1) + t;
      LeadingNewlines(n - 1, t);
    }
  }

  /** Round trip: exactly the path and the bytes of the source, for exactly the sources that are
      not wrapped end to end in a fence. */
  lemma {:induction false} FrameRoundTrip(path: Text, source: Text)
    requires NL !in path && CR !in path && !IsBlank(path)
    requires Encodable(path) && Encodable(source)
    ensures ExtractFile(ReplayFrame(path, source)) == Some(WholeFileReply(path, Encode(source)))
        <==> !Wrapped(source)
  {
    FrameExtracts(path, source, 0);
    assert Newlines(0) + ReplayFrame(path, source) == ReplayFrame(path, source);
    UnwrappedIffNotWrapped(source);
    var u := Unwrapped(source);
    RoundTrip(source, []);
    if Encodable(u) {
      RoundTrip(u, []);
    }
  }

  /** The same through a leaked transcript, the frame being its last final message. */
  lemma {:induction false} TranscriptRoundTrip(pre: Text, path: Text, source: Text, suffix: Text)
    requires NL !in path && CR !in path && !IsBlank(path)
    requires Encodable(path) && Encodable(source) && !Wrapped(source)
    requires H.OpensTranscript(pre + H.FINAL + (ReplayFrame(path, source) + suffix))
    requires !Contains(ReplayFrame(path, source) + suffix, H.FINAL)
    requires !Contains(ReplayFrame(path, source), H.RETURN)
    requires !Contains(ReplayFrame(path, source), H.END)
    requires suffix == [] || IsPrefix(H.RETURN, suffix) || IsPrefix(H.END, suffix)
    ensures ExtractFile(H.AssistantContent(pre + H.FINAL + (ReplayFrame(path, source) + suffix)))
         == Some(WholeFileReply(path, Encode(source)))
  {
    H.TranscriptRecovered(pre, ReplayFrame(path, source), suffix);
    FrameRoundTrip(path, source);
  }

  /** The text whose encoding an extracted payload is. */
  function PayloadText(text: Text): Text
    requires ExtractFile(text).Some?
  {
    var t := StripNewlines(text);
    HeaderFits(t);
    Unwrapped(RemovePrefix(t[|Split(t, NL)[0]| + 1..], [NL]))
  }

  /** Whatever is extracted decodes back to text, strictly: the payload is valid UTF-8. */
  lemma {:induction false} PayloadDecodes(text: Text)
    requires ExtractFile(text).Some?
    ensures var payload := ExtractFile(text).value.payload;
            && Encodable(PayloadText(text)) && payload == Encode(PayloadText(text))
            && DecodeIgnore(payload) == PayloadText(text)
  {
    RoundTrip(PayloadText(text), []);
  }
}
