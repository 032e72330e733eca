/** `RunTask`: a whole run over a file tree, its control refining the `Ladder` machine. The
    generations and the oracle's verdicts are arbitrary inputs. */
module Loop {
  import opened Texts
  import opened Utf8
  import opened Worktree
  import opened Paths
  import opened Scores
  import opened Snapshot
  import opened Prompt
  import C = Client
  import E = Edits
  import L = Ladder

  const ORACLE_TEST_FILENAME: Text := Ascii("test_loop_oracle.py")

  // ---- status ----------------------------------------------------------------------------

  datatype Status = Done | Faulted | Derailed | Blocked | Exhausted

  function ClassifyTerminal(best: Option<TestScore>, faulted: bool, derailed: bool, blocked: bool): Status {
    if best.Some? && best.value.IsGreen() then Done
    else if faulted then Faulted
    else if derailed then Derailed
    else if blocked then Blocked
    else Exhausted
  }

  function TerminalStatus(final: Option<C.GenerationResult>, scored: bool, best: Option<TestScore>): Status {
    var derailed := final.Some? && final.value.derail.Some?;
    var faulted := final.Some? && final.value.fault.Some?;
    var blocked := final.Some? && !scored && !derailed && !faulted;
    ClassifyTerminal(best, faulted, derailed, blocked)
  }

  /** `best` is the first minimum of scored attempts of which only the last can be green. The run
      is done exactly when that last one is green and no attempt passed more tests than pinned;
      the green attempt is then the one restored. */
  lemma {:induction false} DoneIff(entries: seq<Entry>, expected: int)
    requires entries != []
    requires forall i :: 0 <= i < |entries| ==>
               entries[i].score.Counted() && entries[i].score.expected == expected
    requires forall i :: 0 <= i < |entries| - 1 ==> !entries[i].score.IsGreen()
    ensures var last := entries[|entries| - 1];
            && (BestOf(entries).score.IsGreen() <==>
                  && last.score.IsGreen()
                  && forall i :: 0 <= i < |entries| ==> entries[i].score.passed <= expected)
            && (BestOf(entries).score.IsGreen() ==> BestOf(entries) == last)
  {
    var n := |entries| - 1;
    var i := BestIsMinimal(entries);
    if entries[n].score.IsGreen() && entries[i].score.passed <= expected && i < n {
      GreenPrecedes(entries[n], entries[i], expected);
    }
  }

  lemma {:induction false} GreenPrecedes(green: Entry, e: Entry, expected: int)
    requires green.score.Counted() && green.score.expected == expected && green.score.IsGreen()
    requires e.score.Counted() && e.score.expected == expected && !e.score.IsGreen()
    requires e.score.passed <= expected
    ensures Precedes(green, e)
  {
  }

  // ---- the values of a run ---------------------------------------------------------------

  datatype BlockedReason = NoFrame | Refused(path: Text)

  datatype ScoredAttempt = ScoredAttempt(source: Text, failure: Failure)

  datatype AttemptResult = AttemptResult(scored: Option<ScoredAttempt>, blocked: Option<BlockedReason>) {
    function Score(): Option<TestScore> {
      if scored.None? then None else Some(scored.value.failure.score)
    }

    function Kind(): L.Kind {
      if scored.Some? then L.Scored(scored.value.failure.score)
      else if blocked.Some? then L.Blocked
      else L.Stopped
    }
  }

  datatype AttemptProgress =
    AttemptProgress(attempt: nat, generation: C.GenerationResult, score: Option<TestScore>,
                    repeatsPrevious: bool, plateaued: bool, nudged: bool,
                    blockedReason: Option<BlockedReason>)
  {
    predicate Blocked() {
      score.None? && generation.fault.None? && generation.derail.None?
    }
  }

  datatype LoopResult =
    LoopResult(status: Status, bestScore: Option<TestScore>, final: Option<C.GenerationResult>)

  class Plateau {
    var bestPassed: int
    var misses: nat

    constructor ()
      ensures bestPassed == -1 && misses == 0
    {
      bestPassed, misses := -1, 0;
    }

    method Record(score: Option<TestScore>)
      modifies this
      ensures score.None? ==> bestPassed == old(bestPassed) && misses == old(misses)
      ensures score.Some? ==>
                var passed := score.value.passed;
                && bestPassed == (if passed > old(bestPassed) then passed else old(bestPassed))
                && misses == (if passed > old(bestPassed) then 0 else old(misses) + 1)
    {
      if score.None? {
        return;
      }
      misses := if score.value.passed > bestPassed then 0 else misses + 1;
      bestPassed := if score.value.passed > bestPassed then score.value.passed else bestPassed;
    }

    predicate Reached()
      reads this
    {
      misses >= L.PLATEAU_ATTEMPTS
    }
  }

  // ---- where a run works -----------------------------------------------------------------

  datatype Site = Site(root: Path, parts: seq<Text>) {
    function Impl(): Path { root + parts }

    function Oracle(): Path { root + [ORACLE_TEST_FILENAME] }

    function Subtree(): Path
      requires parts != []
    {
      root + [parts[0]]
    }

    function Permitted(): Text { Join(parts, SLASH) }
  }

  /** The permitted path is nested and plain, its directory exists, and it is none itself. */
  ghost predicate Prepared(t: Tree, site: Site) {
    && Worktree.Sound(t) && site.root in t.dirs
    && |site.parts| >= 2 && Plain(site.parts)
    && site.root + site.parts[..|site.parts| - 1] in t.dirs
    && site.Impl() !in t.dirs
  }

  /** Nor is the oracle's path a directory. */
  ghost predicate Ready(t: Tree, site: Site) {
    Prepared(t, site) && site.Oracle() !in t.dirs
  }

  /** Looking up the permitted path, or the one the reply names, fails on an overlong name. */
  predicate Unopenable(t: Tree, site: Site, path: Text, nameMax: nat) {
    ResolveWithin(t, site.root, site.Permitted(), nameMax).Failed?
    || ResolveWithin(t, site.root, path, nameMax).Failed?
  }

  /** A generation that reaches the lookup, and fails there. */
  predicate Crashes(g: C.GenerationResult, t: Tree, site: Site, nameMax: nat) {
    && g.fault.None? && g.derail.None? && E.ExtractFile(g.text).Some?
    && Unopenable(t, site, E.ExtractFile(g.text).value.path, nameMax)
  }

  /** The tree after the attempts that were applied: `base` but for the permitted file. */
  ghost function Working(base: Tree, site: Site, applied: seq<Bytes>): Tree {
    if applied == [] then base else base.(files := base.files[site.Impl() := applied[|applied| - 1]])
  }

  /** The captures of those attempts, in order. */
  ghost predicate Captured(base: Tree, site: Site, applied: seq<Bytes>, entries: seq<Entry>)
    requires site.parts != []
  {
    && |entries| == |applied|
    && forall j :: 0 <= j < |entries| ==>
         entries[j].files == Capture(base.files[site.Impl() := applied[j]], site.Subtree())
  }

  lemma {:induction false} SiteFacts(t: Tree, site: Site)
    requires Ready(t, site)
    ensures Under(site.Subtree(), site.Impl()) && site.Oracle() != site.Impl()
    ensures !Under(site.Subtree(), site.Oracle())
    ensures Parent(site.Oracle()) == site.root
    ensures Parent(site.Impl()) == site.root + site.parts[..|site.parts| - 1]
    ensures forall n: nat :: var r := ResolveWithin(t, site.root, site.Permitted(), n);
              r == Failed || r == Resolved(site.Impl())
  {
    forall n: nat ensures var r := ResolveWithin(t, site.root, site.Permitted(), n);
                          r == Failed || r == Resolved(site.Impl())
    {
      PlainResolves(t, site.root, site.parts, n);
    }
    assert site.Impl()[..|site.Subtree()|] == site.Subtree();
  }

  // ---- what the loop decides after an attempt --------------------------------------------

  datatype Correction = Stop | Reframe(reply: Text) | Unencodable

  /** `_correction`: at most one reframe per run, and none for a fault or a derail. Quoting a reply
      that has no encoding raises. */
  function Correct(g: C.GenerationResult, corrected: bool): Correction {
    if g.fault.Some? || g.derail.Some? || corrected then Stop
    else if !Encodable(g.text) then Unencodable
    else Reframe(g.text)
  }

  function Escalate(stalled: bool, stalls: nat): Option<nat> {
    if !stalled then Some(0) else NudgeFor(stalls)
  }

  function NextTail(last: Option<ScoredAttempt>, nudge: nat, reframe: Option<Text>): (Tail, bool) {
    if last.None? then (if reframe.None? then Opening else Reframed(reframe.value), false)
    else (Repair(last.value.source, last.value.failure, nudge), nudge != 0)
  }

  /** The tail's shape is the one the control state calls for. */
  predicate TailFits(t: Tail, c: L.Control) {
    if c.lastScored then t.Repair? && t.rung == c.nudge && Encodable(t.source)
    else if c.reframed then t.Reframed? && Encodable(t.reply)
    else t == Opening
  }

  /** `s` pairs the text that `reply` frames with `verdict`. */
  predicate Own(s: ScoredAttempt, reply: Text, verdict: Failure) {
    && Encodable(s.source) && s.failure == verdict
    && E.ExtractFile(reply).Some? && E.ExtractFile(reply).value.payload == Encode(s.source)
  }

  /** What a tail quotes is the attempt right before it, never an older one. */
  ghost predicate TailQuotes(t: Tail, run: seq<L.Attempt>, verdicts: seq<Failure>)
    requires |run| <= |verdicts|
  {
    && (t.Repair? ==>
          run != [] && Own(ScoredAttempt(t.source, t.failure), run[|run| - 1].reply, verdicts[|run| - 1]))
    && (t.Reframed? ==> run != [] && t.reply == run[|run| - 1].reply)
  }

  /** The variables hold the last attempt's own file, or its own reply. */
  ghost predicate Latest(run: seq<L.Attempt>, verdicts: seq<Failure>, last: Option<ScoredAttempt>,
                         reframe: Option<Text>)
    requires |run| <= |verdicts|
  {
    && (last.Some? ==> run != [] && Own(last.value, run[|run| - 1].reply, verdicts[|run| - 1]))
    && (last.None? && reframe.Some? ==> run != [] && reframe.value == run[|run| - 1].reply)
  }

  /** One attempt as reported, against the run it belongs to. */
  ghost predicate ReportFits(p: AttemptProgress, run: seq<L.Attempt>, i: nat, g: C.GenerationResult)
    requires i < |run|
  {
    var before, after := L.After(run[..i]), L.After(run[..i + 1]);
    && p.attempt == i + 1 && p.generation == g && run[i].reply == g.text
    && (p.score == if run[i].kind.Scored? then Some(run[i].kind.score) else None)
    && (run[i].kind == L.Stopped <==> p.generation.fault.Some? || p.generation.derail.Some?)
    && (p.blockedReason.Some? <==> p.Blocked())
    && p.repeatsPrevious == L.Repeats(before, run[i])
    && p.plateaued == (after.misses >= L.PLATEAU_ATTEMPTS)
    && p.nudged == L.Nudged(before)
  }

  // ---- one attempt -----------------------------------------------------------------------

  /** A run ends by returning its result, or by an exception: writing the oracle where a directory
      stands, looking up an overlong name, quoting a reply that has no encoding. */
  datatype Ending = Returned(result: LoopResult) | NoOracle | Overlong | Unquotable

  datatype Applied = Wrote | Declined | Crashed

  lemma {:induction false} ApplyKeepsReady(base: Tree, site: Site, applied: seq<Bytes>, payload: Bytes)
    requires Ready(base, site)
    ensures Ready(Working(base, site, applied), site)
    ensures Working(base, site, applied + [payload])
         == Working(base, site, applied).(files := Working(base, site, applied).files[site.Impl() := payload])
    ensures Working(base, site, applied + [payload]).files == base.files[site.Impl() := payload]
  {
    SiteFacts(base, site);
  }

  lemma {:induction false} CapturedSnoc(
      base: Tree, site: Site, applied: seq<Bytes>, entries: seq<Entry>,
      payload: Bytes, e: Entry)
    requires site.parts != [] && Captured(base, site, applied, entries)
    requires e.files == Capture(base.files[site.Impl() := payload], site.Subtree())
    ensures Captured(base, site, applied + [payload], entries + [e])
  {
  }

  /** Why a reply was blocked on a tree: it frames no file, or it names a path that is not the
      permitted file's. */
  ghost predicate Explains(b: BlockedReason, reply: Text, t: Tree, site: Site, nameMax: nat) {
    match E.ExtractFile(reply)
    case None => b == NoFrame
    case Some(f) =>
      && b == BlockedReason.Refused(f.path)
      && ResolveWithin(t, site.root, f.path, nameMax) != Resolved(site.Impl())
  }

  /** The reply frames a file at the permitted path, however it spells it. */
  ghost predicate Targets(reply: Text, t: Tree, site: Site, nameMax: nat) {
    && E.ExtractFile(reply).Some?
    && ResolveWithin(t, site.root, E.ExtractFile(reply).value.path, nameMax) == Resolved(site.Impl())
  }

  /** The tree after a run's attempts: each scored one has written the payload its reply frames. */
  ghost function TreeAfter(base: Tree, site: Site, run: seq<L.Attempt>): Tree {
    if run == [] then base
    else
      var t, last := TreeAfter(base, site, run[..|run| - 1]), run[|run| - 1];
      if last.kind.Scored? && E.ExtractFile(last.reply).Some?
      then t.(files := t.files[site.Impl() := E.ExtractFile(last.reply).value.payload])
      else t
  }

  lemma {:induction false} TreeSnoc(base: Tree, site: Site, run: seq<L.Attempt>, a: L.Attempt)
    ensures TreeAfter(base, site, run + [a])
         == if a.kind.Scored? && E.ExtractFile(a.reply).Some?
            then TreeAfter(base, site, run).(files := TreeAfter(base, site, run).files[
                   site.Impl() := E.ExtractFile(a.reply).value.payload])
            else TreeAfter(base, site, run)
  {
    assert (run + [a])[..|run|] == run;
  }

  /** Every scored attempt aimed at the permitted file, and every report that gives a blocked reason
      gives the right one, on the tree of its attempt. */
  ghost predicate Explained(run: seq<L.Attempt>, reports: seq<AttemptProgress>, base: Tree, site: Site,
                            nameMax: nat) {
    && |reports| == |run|
    && (forall i :: 0 <= i < |run| && run[i].kind.Scored? ==>
          Targets(run[i].reply, TreeAfter(base, site, run[..i]), site, nameMax))
    && forall i :: 0 <= i < |run| && reports[i].blockedReason.Some? ==>
         Explains(reports[i].blockedReason.value, run[i].reply, TreeAfter(base, site, run[..i]), site, nameMax)
  }

  lemma {:induction false} ExplainedSnoc(
      run: seq<L.Attempt>, reports: seq<AttemptProgress>, base: Tree, site: Site, nameMax: nat,
      a: L.Attempt, p: AttemptProgress)
    requires Explained(run, reports, base, site, nameMax)
    requires p.blockedReason.Some? ==>
               Explains(p.blockedReason.value, a.reply, TreeAfter(base, site, run), site, nameMax)
    requires a.kind.Scored? ==> Targets(a.reply, TreeAfter(base, site, run), site, nameMax)
    ensures Explained(run + [a], reports + [p], base, site, nameMax)
  {
    var more := run + [a];
    assert more[..|run|] == run;
    forall i | 0 <= i < |more| && more[i].kind.Scored?
      ensures Targets(more[i].reply, TreeAfter(base, site, more[..i]), site, nameMax)
    {
      assert i < |run| ==> more[..i] == run[..i];
    }
    forall i | 0 <= i < |more| && (reports + [p])[i].blockedReason.Some?
      ensures Explains((reports + [p])[i].blockedReason.value, more[i].reply,
                       TreeAfter(base, site, more[..i]), site, nameMax)
    {
      assert i < |run| ==> more[..i] == run[..i];
    }
  }

  class Loop {
    const fs: FileSystem
    const snapshots: SnapshotStore

    constructor (fs: FileSystem, snapshots: SnapshotStore)
      ensures this.fs == fs && this.snapshots == snapshots
    {
      this.fs, this.snapshots := fs, snapshots;
    }

    /** The worktree and the captures are those of the attempts applied so far. */
    ghost predicate At(site: Site, base: Tree, applied: seq<Bytes>)
      requires site.parts != []
      reads fs, snapshots
    {
      && snapshots.fs == fs && snapshots.Valid() && snapshots.subtree == site.Subtree()
      && fs.Abstract() == Working(base, site, applied)
      && Captured(base, site, applied, snapshots.entries)
    }

    /** Write one reply, refusing every target but the permitted one before any write. */
    method ApplyFile(reply: E.WholeFileReply, site: Site) returns (r: Applied)
      requires Ready(fs.Abstract(), site)
      modifies fs
      ensures r.Crashed? <==> Unopenable(old(fs.Abstract()), site, reply.path, fs.nameMax)
      ensures !r.Crashed? ==>
                (r.Wrote? <==> ResolveWithin(old(fs.Abstract()), site.root, reply.path, fs.nameMax)
                               == Resolved(site.Impl()))
      ensures fs.dirs == old(fs.dirs)
      ensures fs.files == if r.Wrote? then old(fs.files)[site.Impl() := reply.payload] else old(fs.files)
    {
      SiteFacts(fs.Abstract(), site);
      var tree := Tree(fs.files, fs.dirs);
      var permittedTarget := ResolveWithin(tree, site.root, site.Permitted(), fs.nameMax);
      if permittedTarget.Failed? {
        return Crashed;
      }
      var target := ResolveWithin(tree, site.root, reply.path, fs.nameMax);
      if target.Failed? {
        return Crashed;
      }
      if !target.Resolved? || target != permittedTarget {
        return Declined;
      }
      var written := fs.WriteBytes(target.path, reply.payload);
      r := Wrote;
    }

    /** Scored, blocked or stopped; only a scored attempt leaves a trace in the tree and the
        captures. `verdict` is what the oracle answers if it runs. */
    method ScoreAttempt(g: C.GenerationResult, index: nat, verdict: Failure, site: Site,
                        ghost base: Tree, ghost applied: seq<Bytes>)
      returns (r: AttemptResult, crashed: bool, ghost applied': seq<Bytes>)
      requires Ready(base, site) && At(site, base, applied)
      modifies fs, snapshots
      ensures At(site, base, applied')
      ensures crashed <==> Crashes(g, Working(base, site, applied), site, fs.nameMax)
      ensures crashed ==> r.scored.None?
      ensures r.Kind() == L.Stopped <==> g.fault.Some? || g.derail.Some?
      ensures !crashed ==> (r.blocked.Some? <==> r.Kind() == L.Blocked)
      ensures !crashed && r.blocked.Some? ==>
                Explains(r.blocked.value, g.text, Working(base, site, applied), site, fs.nameMax)
      ensures r.scored.Some? ==> Targets(g.text, Working(base, site, applied), site, fs.nameMax)
      ensures r.scored.Some? ==>
                && Own(r.scored.value, g.text, verdict)
                && applied' == applied + [E.ExtractFile(g.text).value.payload]
                && |snapshots.entries| == |old(snapshots.entries)| + 1
                && snapshots.entries[..|applied|] == old(snapshots.entries)
                && snapshots.entries[|applied|].score == verdict.score
                && snapshots.entries[|applied|].index == index
      ensures r.scored.None? ==> applied' == applied && snapshots.entries == old(snapshots.entries)
    {
      crashed, applied' := false, applied;
      if g.fault.Some? || g.derail.Some? {
        return AttemptResult(None, None), false, applied;
      }
      var reply := E.ExtractFile(g.text);
      if reply.None? {
        return AttemptResult(None, Some(NoFrame)), false, applied;
      }
      E.PayloadDecodes(g.text);
      ApplyKeepsReady(base, site, applied, reply.value.payload);
      var written := ApplyFile(reply.value, site);
      if !written.Wrote? {
        return AttemptResult(None, Some(BlockedReason.Refused(reply.value.path))), written.Crashed?, applied;
      }
      applied' := applied + [reply.value.payload];
      SiteFacts(base, site);
      CapturedSnoc(base, site, applied, snapshots.entries, reply.value.payload,
                   Entry(index, verdict.score, Capture(fs.files, site.Subtree())));
      snapshots.Record(index, verdict.score);
      r := AttemptResult(Some(ScoredAttempt(DecodeIgnore(reply.value.payload), verdict)), None);
    }
  }

  // ---- the cycle -------------------------------------------------------------------------

  /** Every report and every tail fits the run so far. */
  ghost predicate Reported(run: seq<L.Attempt>, gens: seq<C.GenerationResult>, verdicts: seq<Failure>,
                           reports: seq<AttemptProgress>, tails: seq<Tail>) {
    && |reports| == |tails| == |run| <= |gens| == |verdicts|
    && (forall i :: 0 <= i < |run| ==> ReportFits(reports[i], run, i, gens[i]))
    && forall i :: 0 <= i < |run| ==> Told(tails[i], run[..i], verdicts)
  }

  /** The tail sent after the attempts of `run`. */
  ghost predicate Told(t: Tail, run: seq<L.Attempt>, verdicts: seq<Failure>)
    requires |run| <= |verdicts|
  {
    TailFits(t, L.After(run)) && TailQuotes(t, run, verdicts)
  }

  lemma {:induction false} ReportsSnoc(
      run: seq<L.Attempt>, gens: seq<C.GenerationResult>, verdicts: seq<Failure>,
      reports: seq<AttemptProgress>, tails: seq<Tail>, a: L.Attempt, p: AttemptProgress, t: Tail)
    requires Reported(run, gens, verdicts, reports, tails) && |run| < |gens|
    requires ReportFits(p, run + [a], |run|, gens[|run|]) && Told(t, run, verdicts)
    ensures Reported(run + [a], gens, verdicts, reports + [p], tails + [t])
  {
    var more := run + [a];
    assert more[..|run|] == run;
    forall i | 0 <= i < |run|
      ensures ReportFits((reports + [p])[i], more, i, gens[i]) && Told((tails + [t])[i], more[..i], verdicts)
    {
      assert more[..i] == run[..i] && more[..i + 1] == run[..i + 1] && more[i] == run[i];
      assert ReportFits(reports[i], run, i, gens[i]) && Told(tails[i], run[..i], verdicts);
    }
  }

  /** The report of one attempt, from what was known before it. */
  lemma {:induction false} OneReport(run: seq<L.Attempt>, g: C.GenerationResult, r: AttemptResult, nudged: bool,
                                     repeats: bool, plateaued: bool)
    requires r.Kind() == L.Stopped <==> g.fault.Some? || g.derail.Some?
    requires r.blocked.Some? <==> r.Kind() == L.Blocked
    requires repeats == L.Repeats(L.After(run), L.Attempt(g.text, r.Kind()))
    requires nudged == L.Nudged(L.After(run))
    requires plateaued == (L.Step(L.After(run), L.Attempt(g.text, r.Kind())).misses >= L.PLATEAU_ATTEMPTS)
    ensures ReportFits(AttemptProgress(|run| + 1, g, r.Score(), repeats, plateaued, nudged, r.blocked),
                       run + [L.Attempt(g.text, r.Kind())], |run|, g)
  {
    var a := L.Attempt(g.text, r.Kind());
    L.AfterSnoc(run, a);
    assert (run + [a])[..|run|] == run && (run + [a])[..|run| + 1] == run + [a];
  }

  lemma {:induction false} OneTail(run: seq<L.Attempt>, verdicts: seq<Failure>, last: Option<ScoredAttempt>,
                                   nudge: nat, reframe: Option<Text>, stalls: nat)
    requires |run| <= |verdicts| && Steered(L.After(run), last, nudge, reframe, stalls, false)
    requires Latest(run, verdicts, last, reframe)
    ensures var (tail, nudged) := NextTail(last, nudge, reframe);
            Told(tail, run, verdicts) && nudged == L.Nudged(L.After(run))
  {
  }

  /** The captures are those of the scored attempts, in order, each holding the payload its reply
      framed. */
  ghost predicate Journaled(run: seq<L.Attempt>, entries: seq<Entry>, applied: seq<Bytes>) {
    && |entries| == |applied|
    && (forall j :: 0 <= j < |entries| ==> EntryFits(run, entries[j], applied[j]))
    && (forall j, k :: 0 <= j < k < |entries| ==> entries[j].index < entries[k].index)
    && forall i :: 0 <= i < |run| && run[i].kind.Scored? ==> HasEntry(entries, i)
  }

  ghost predicate EntryFits(run: seq<L.Attempt>, e: Entry, payload: Bytes) {
    && 0 <= e.index < |run| && run[e.index].kind == L.Scored(e.score)
    && E.ExtractFile(run[e.index].reply).Some?
    && payload == E.ExtractFile(run[e.index].reply).value.payload
  }

  ghost predicate HasEntry(entries: seq<Entry>, i: int) {
    exists j :: 0 <= j < |entries| && entries[j].index == i
  }

  lemma {:induction false} JournalKept(run: seq<L.Attempt>, entries: seq<Entry>, applied: seq<Bytes>, a: L.Attempt)
    requires Journaled(run, entries, applied) && !a.kind.Scored?
    ensures Journaled(run + [a], entries, applied)
  {
    forall j | 0 <= j < |entries| ensures EntryFits(run + [a], entries[j], applied[j]) {
      assert EntryFits(run, entries[j], applied[j]);
    }
  }

  lemma {:induction false} JournalSnoc(
      run: seq<L.Attempt>, entries: seq<Entry>, applied: seq<Bytes>, a: L.Attempt,
      e: Entry, payload: Bytes)
    requires Journaled(run, entries, applied) && e.index == |run|
    requires EntryFits(run + [a], e, payload)
    ensures Journaled(run + [a], entries + [e], applied + [payload])
  {
    var more := entries + [e];
    forall j | 0 <= j < |more| ensures EntryFits(run + [a], more[j], (applied + [payload])[j]) {
      assert j < |entries| ==> EntryFits(run, entries[j], applied[j]);
    }
    forall j | 0 <= j < |entries| ensures more[j].index < e.index {
      assert EntryFits(run, entries[j], applied[j]);
    }
    forall i | 0 <= i <= |run| && (run + [a])[i].kind.Scored? ensures HasEntry(more, i) {
      if i < |run| {
        assert HasEntry(entries, i);
        var j :| 0 <= j < |entries| && entries[j].index == i;
        assert more[j].index == i;
      } else {
        assert more[|entries|].index == i;
      }
    }
  }

  /** The run goes on with these variables. */
  ghost predicate Steered(c: L.Control, last: Option<ScoredAttempt>, nudge: nat, reframe: Option<Text>,
                          stalls: nat, ended: bool) {
    && c.lastScored == last.Some? && c.nudge == nudge && c.reframed == reframe.Some?
    && c.stalls == stalls && c.ended == ended
    && (last.Some? ==> Encodable(last.value.source)) && (reframe.Some? ==> Encodable(reframe.value))
  }

  /** The end of one loop iteration: the correction owed to an unscored attempt, the stop on green,
      the escalation of a stall. */
  method Advance(r: AttemptResult, g: C.GenerationResult, stalled: bool, last: Option<ScoredAttempt>,
                 nudge: nat, reframe: Option<Text>, stalls: nat, ghost c: L.Control)
    returns (nudge': nat, reframe': Option<Text>, stalls': nat, ended: bool, raised: bool)
    requires !c.ended && Steered(c, last, nudge, reframe, stalls, false)
    requires r.Kind() == L.Stopped <==> g.fault.Some? || g.derail.Some?
    requires r.scored.Some? ==> Encodable(r.scored.value.source)
    requires r.scored.Some? ==>
               stalled == (L.Repeats(c, L.Attempt(g.text, r.Kind()))
                           || L.Missed(c, r.scored.value.failure.score.passed) >= L.PLATEAU_ATTEMPTS)
    ensures raised <==> r.Kind() == L.Blocked && !c.reframed && !Encodable(g.text)
    ensures !raised ==>
              Steered(L.Step(c, L.Attempt(g.text, r.Kind())), r.scored, nudge', reframe', stalls', ended)
    ensures !raised && !ended && r.scored.None? ==> reframe' == Some(g.text)
  {
    nudge', reframe', stalls', ended, raised := nudge, reframe, stalls, false, false;
    if r.scored.None? {
      match Correct(g, reframe.Some?) {
        case Stop => ended := true;
        case Unencodable => raised := true;
        case Reframe(reply) => reframe' := Some(reply);
      }
      return;
    }
    if r.scored.value.failure.score.IsGreen() {
      ended := true;
      return;
    }
    stalls' := stalls + if stalled then 1 else 0;
    var escalation := Escalate(stalled, stalls');
    if escalation.None? {
      ended := true;
    } else {
      nudge' := escalation.value;
    }
  }

  /** The variables are what the run so far makes them; a raise leaves them behind by one. */
  ghost predicate Course(run: seq<L.Attempt>, gens: seq<C.GenerationResult>, verdicts: seq<Failure>,
                         results: seq<C.GenerationResult>, raised: bool, last: Option<ScoredAttempt>,
                         nudge: nat, reframe: Option<Text>, stalls: nat, ended: bool)
  {
    && L.IsRun(run) && |run| <= |gens| == |verdicts| && results == gens[..|run|]
    && L.After(run).previous == (if results == [] then None else Some(results[|results| - 1].text))
    && raised == RaisedBy(run)
    && (!raised ==> Steered(L.After(run), last, nudge, reframe, stalls, ended))
    && (!raised && !ended ==> Latest(run, verdicts, last, reframe))
  }

  /** The last attempt is the first blocked one, and its reply has no encoding to quote. */
  ghost predicate RaisedBy(run: seq<L.Attempt>) {
    && run != [] && run[|run| - 1].kind == L.Blocked && !L.After(run[..|run| - 1]).reframed
    && !Encodable(run[|run| - 1].reply)
  }

  lemma {:induction false} CourseSnoc(
      run: seq<L.Attempt>, gens: seq<C.GenerationResult>, verdicts: seq<Failure>,
      results: seq<C.GenerationResult>, g: C.GenerationResult, a: L.Attempt, raised: bool,
      last: Option<ScoredAttempt>, nudge: nat, reframe: Option<Text>, stalls: nat, ended: bool)
    requires |gens| == |verdicts|
    requires L.IsRun(run) && !L.After(run).ended && |run| < |gens| && results == gens[..|run|]
    requires g == gens[|run|] && a.reply == g.text
    requires raised <==> a.kind == L.Blocked && !L.After(run).reframed && !Encodable(a.reply)
    requires !raised ==> Steered(L.Step(L.After(run), a), last, nudge, reframe, stalls, ended)
    requires !raised && !ended ==> Latest(run + [a], verdicts, last, reframe)
    ensures Course(run + [a], gens, verdicts, results + [g], raised, last, nudge, reframe, stalls, ended)
    ensures L.After(run + [a]) == L.Step(L.After(run), a)
  {
    TakeSnoc(gens, |run|);
    L.AfterSnoc(run, a);
    assert (run + [a])[..|run|] == run;
  }

  /** The run goes on, and its next generation names what cannot be looked up. */
  ghost predicate Stuck(run: seq<L.Attempt>, gens: seq<C.GenerationResult>, base: Tree, site: Site,
                        applied: seq<Bytes>, nameMax: nat) {
    && |run| < |gens| && !L.After(run).ended && !RaisedBy(run)
    && Crashes(gens[|run|], Working(base, site, applied), site, nameMax)
  }

  /** One report more, giving the attempt's blocked reason. */
  ghost predicate OneMore(before: seq<AttemptProgress>, after: seq<AttemptProgress>, r: AttemptResult) {
    && |after| == |before| + 1 && after == before + [after[|before|]]
    && after[|before|].blockedReason == r.blocked
  }

  class Cycle {
    const loop: Loop
    const site: Site
    const gens: seq<C.GenerationResult>
    const verdicts: seq<Failure>
    const plateau: Plateau
    var lastAttempt: Option<ScoredAttempt>
    var nudge: nat
    var reframe: Option<Text>
    var stalls: nat
    var results: seq<C.GenerationResult>
    var reports: seq<AttemptProgress>
    var tails: seq<Tail>
    var ended: bool
    var raised: bool
    var crashed: bool

    ghost const base: Tree
    ghost var run: seq<L.Attempt>
    ghost var applied: seq<Bytes>

    constructor (loop: Loop, site: Site, gens: seq<C.GenerationResult>, verdicts: seq<Failure>, ghost base: Tree)
      requires Ready(base, site) && loop.At(site, base, []) && |gens| == |verdicts|
      ensures Valid() && !ended && !raised && !crashed && run == [] && fresh(plateau)
      ensures this.loop == loop && this.site == site && this.base == base
      ensures this.gens == gens && this.verdicts == verdicts
    {
      this.loop, this.site, this.gens, this.verdicts, this.base := loop, site, gens, verdicts, base;
      plateau := new Plateau();
      lastAttempt, nudge, reframe, stalls := None, 0, None, 0;
      results, reports, tails, ended, raised, crashed := [], [], [], false, false, false;
      run, applied := [], [];
    }

    ghost predicate OnCourse()
      reads this`run, this`results, this`raised, this`ended
      reads this`lastAttempt, this`nudge, this`reframe, this`stalls
    {
      Course(run, gens, verdicts, results, raised, lastAttempt, nudge, reframe, stalls, ended)
    }

    ghost predicate Control()
      reads this`run, this`results, this`raised, this`ended
      reads this`lastAttempt, this`nudge, this`reframe, this`stalls, plateau
    {
      && OnCourse()
      && L.After(run).best == plateau.bestPassed && L.After(run).misses == plateau.misses
    }

    ghost predicate Valid()
      reads this, plateau, loop.fs, loop.snapshots
    {
      && |run| <= |gens| == |verdicts|
      && Control()
      && Reported(run, gens, verdicts, reports, tails)
      && Ready(base, site) && loop.At(site, base, applied)
      && Journaled(run, loop.snapshots.entries, applied)
      && Working(base, site, applied) == TreeAfter(base, site, run)
      && Explained(run, reports, base, site, loop.fs.nameMax)
      && (crashed ==> Stuck(run, gens, base, site, applied, loop.fs.nameMax))
    }

    /** The generation applied and scored, and its capture journaled. */
    method Resolve(g: C.GenerationResult, index: nat)
      returns (r: AttemptResult, failed: bool, ghost more: seq<Bytes>)
      requires index == |run| < |verdicts|
      requires Ready(base, site) && loop.At(site, base, applied)
      requires Journaled(run, loop.snapshots.entries, applied)
      modifies loop.fs, loop.snapshots
      ensures loop.At(site, base, more)
      ensures failed <==> Crashes(g, Working(base, site, applied), site, loop.fs.nameMax)
      ensures if failed then more == applied && Journaled(run, loop.snapshots.entries, more)
              else Journaled(run + [L.Attempt(g.text, r.Kind())], loop.snapshots.entries, more)
      ensures r.Kind() == L.Stopped <==> g.fault.Some? || g.derail.Some?
      ensures !failed ==> (r.blocked.Some? <==> r.Kind() == L.Blocked)
      ensures !failed && r.blocked.Some? ==>
                Explains(r.blocked.value, g.text, Working(base, site, applied), site, loop.fs.nameMax)
      ensures r.scored.Some? ==> Targets(g.text, Working(base, site, applied), site, loop.fs.nameMax)
      ensures r.scored.Some? ==> Own(r.scored.value, g.text, verdicts[index])
      ensures !failed ==>
                Working(base, site, more)
                == if r.scored.Some? && E.ExtractFile(g.text).Some?
                   then Working(base, site, applied).(files := Working(base, site, applied).files[
                          site.Impl() := E.ExtractFile(g.text).value.payload])
                   else Working(base, site, applied)
    {
      r, failed, more := loop.ScoreAttempt(g, index, verdicts[index], site, base, applied);
      ghost var a := L.Attempt(g.text, r.Kind());
      ghost var entries := loop.snapshots.entries;
      if r.scored.Some? {
        ApplyKeepsReady(base, site, applied, more[|applied|]);
        JournalSnoc(run, old(loop.snapshots.entries), applied, a, entries[|applied|], more[|applied|]);
        TakeDrop(entries, |applied|);
        assert entries[|applied|..] == [entries[|applied|]];
      } else {
        JournalKept(run, entries, applied, a);
      }
    }

    /** The verdict folded into the plateau. */
    method Fold(r: AttemptResult, ghost c: L.Control, ghost reply: Text) returns (plateaued: bool)
      requires c.best == plateau.bestPassed && c.misses == plateau.misses
      modifies plateau
      ensures var after := L.Step(c, L.Attempt(reply, r.Kind()));
              && plateau.bestPassed == after.best && plateau.misses == after.misses
              && plateaued == (after.misses >= L.PLATEAU_ATTEMPTS)
    {
      plateau.Record(r.Score());
      plateaued := plateau.Reached();
    }

    /** The progress event of this attempt, and the tail it was sent. */
    method Report(g: C.GenerationResult, r: AttemptResult, tail: Tail, nudged: bool, repeats: bool, plateaued: bool)
      requires OnCourse() && !raised && !ended && |run| < |gens| && gens[|run|] == g
      requires Reported(run, gens, verdicts, reports, tails)
      requires (tail, nudged) == NextTail(lastAttempt, nudge, reframe)
      requires r.Kind() == L.Stopped <==> g.fault.Some? || g.derail.Some?
      requires r.blocked.Some? <==> r.Kind() == L.Blocked
      requires repeats == (results != [] && g.text == results[|results| - 1].text)
      requires plateaued == (L.Step(L.After(run), L.Attempt(g.text, r.Kind())).misses >= L.PLATEAU_ATTEMPTS)
      modifies this`reports, this`tails
      ensures var a := L.Attempt(g.text, r.Kind());
              Reported(run + [a], gens, verdicts, reports, tails) && repeats == L.Repeats(L.After(run), a)
      ensures OneMore(old(reports), reports, r)
    {
      ghost var a := L.Attempt(g.text, r.Kind());
      ghost var p := AttemptProgress(|results| + 1, g, r.Score(), repeats, plateaued, nudged, r.blocked);
      OneTail(run, verdicts, lastAttempt, nudge, reframe, stalls);
      OneReport(run, g, r, nudged, repeats, plateaued);
      ReportsSnoc(run, gens, verdicts, reports, tails, a, p, tail);
      reports := reports + [AttemptProgress(|results| + 1, g, r.Score(), repeats, plateaued, nudged, r.blocked)];
      tails := tails + [tail];
    }

    /** The verdict folded in and the attempt reported; whether it stalled. */
    method Tell(g: C.GenerationResult, r: AttemptResult, tail: Tail, nudged: bool) returns (stalled: bool)
      requires Control() && Reported(run, gens, verdicts, reports, tails) && !ended && !raised
      requires |run| < |gens| && gens[|run|] == g && (tail, nudged) == NextTail(lastAttempt, nudge, reframe)
      requires r.Kind() == L.Stopped <==> g.fault.Some? || g.derail.Some?
      requires r.blocked.Some? <==> r.Kind() == L.Blocked
      modifies this`reports, this`tails, plateau
      ensures var c, a := L.After(run), L.Attempt(g.text, r.Kind());
              && OnCourse() && Reported(run + [a], gens, verdicts, reports, tails)
              && plateau.bestPassed == L.Step(c, a).best && plateau.misses == L.Step(c, a).misses
              && stalled == (L.Repeats(c, a) || L.Step(c, a).misses >= L.PLATEAU_ATTEMPTS)
      ensures OneMore(old(reports), reports, r)
    {
      var repeatsPrevious := results != [] && g.text == results[|results| - 1].text;
      var plateaued := Fold(r, L.After(run), g.text);
      Report(g, r, tail, nudged, repeatsPrevious, plateaued);
      stalled := repeatsPrevious || plateaued;
    }

    /** The next attempt decided, and this one made part of the run. */
    method Settle(g: C.GenerationResult, r: AttemptResult, stalled: bool)
      requires OnCourse() && !ended && !raised && |run| < |gens| && gens[|run|] == g
      requires r.Kind() == L.Stopped <==> g.fault.Some? || g.derail.Some?
      requires r.scored.Some? ==> Own(r.scored.value, g.text, verdicts[|run|])
      requires var c, a := L.After(run), L.Attempt(g.text, r.Kind());
               stalled == (L.Repeats(c, a) || L.Step(c, a).misses >= L.PLATEAU_ATTEMPTS)
      modifies this`lastAttempt, this`nudge, this`reframe, this`stalls, this`ended, this`raised, this`run, this`results
      ensures OnCourse() && run == old(run) + [L.Attempt(g.text, r.Kind())]
      ensures L.After(run) == L.Step(L.After(old(run)), L.Attempt(g.text, r.Kind()))
    {
      ghost var a, c := L.Attempt(g.text, r.Kind()), L.After(run);
      Decide(g, r, stalled, c);
      CourseSnoc(run, gens, verdicts, results, g, a, raised, lastAttempt, nudge, reframe, stalls, ended);
      Extend(g, a);
    }

    method Extend(g: C.GenerationResult, ghost a: L.Attempt)
      requires Course(run + [a], gens, verdicts, results + [g], raised, lastAttempt, nudge, reframe, stalls, ended)
      modifies this`results, this`run
      ensures OnCourse() && run == old(run) + [a]
    {
      results := results + [g];
      run := run + [a];
    }

    /** The variables of the next attempt. */
    method Decide(g: C.GenerationResult, r: AttemptResult, stalled: bool, ghost c: L.Control)
      requires !c.ended && Steered(c, lastAttempt, nudge, reframe, stalls, false)
      requires r.Kind() == L.Stopped <==> g.fault.Some? || g.derail.Some?
      requires r.scored.Some? ==> Encodable(r.scored.value.source)
      requires r.scored.Some? ==>
                 stalled == (L.Repeats(c, L.Attempt(g.text, r.Kind()))
                             || L.Missed(c, r.scored.value.failure.score.passed) >= L.PLATEAU_ATTEMPTS)
      modifies this`lastAttempt, this`nudge, this`reframe, this`stalls, this`ended, this`raised
      ensures raised <==> r.Kind() == L.Blocked && !c.reframed && !Encodable(g.text)
      ensures !raised ==>
                Steered(L.Step(c, L.Attempt(g.text, r.Kind())), lastAttempt, nudge, reframe, stalls, ended)
      ensures lastAttempt == r.scored
      ensures !raised && !ended && r.scored.None? ==> reframe == Some(g.text)
    {
      var nudge', reframe', stalls', ended', raised' :=
        Advance(r, g, stalled, lastAttempt, nudge, reframe, stalls, c);
      lastAttempt, nudge, reframe, stalls, ended, raised := r.scored, nudge', reframe', stalls', ended', raised';
    }

    /** The attempt told and settled. */
    method Conclude(g: C.GenerationResult, r: AttemptResult)
      requires Control() && Reported(run, gens, verdicts, reports, tails) && !ended && !raised && !crashed
      requires |run| < |gens| && gens[|run|] == g
      requires r.Kind() == L.Stopped <==> g.fault.Some? || g.derail.Some?
      requires r.blocked.Some? <==> r.Kind() == L.Blocked
      requires r.scored.Some? ==> Own(r.scored.value, g.text, verdicts[|run|])
      modifies this, plateau
      ensures Control() && Reported(run, gens, verdicts, reports, tails) && !crashed
      ensures OneMore(old(reports), reports, r)
      ensures run == old(run) + [L.Attempt(g.text, r.Kind())] && applied == old(applied)
    {
      var (tail, nudged) := NextTail(lastAttempt, nudge, reframe);
      var stalled := Tell(g, r, tail, nudged);
      Settle(g, r, stalled);
    }

    /** One iteration of the loop. */
    method Turn()
      requires Valid() && !ended && !raised && !crashed && |run| < |gens|
      modifies this, plateau, loop.fs, loop.snapshots
      ensures Valid() && if crashed then run == old(run) && !ended && !raised else |run| == |old(run)| + 1
    {
      var index := |results|;
      var r, failed, more := Resolve(gens[index], index);
      if failed {
        Fail();
      } else {
        TreeSnoc(base, site, run, L.Attempt(gens[index].text, r.Kind()));
        Proceed(gens[index], r, more);
      }
    }

    /** The lookup failed: nothing is told, applied or made part of the run. */
    method Fail()
      requires Valid() && Stuck(run, gens, base, site, applied, loop.fs.nameMax)
      modifies this`crashed
      ensures Valid() && crashed
    {
      crashed := true;
    }

    /** The attempt resolved, and the run with it. */
    method Proceed(g: C.GenerationResult, r: AttemptResult, ghost more: seq<Bytes>)
      requires Control() && Reported(run, gens, verdicts, reports, tails) && !ended && !raised && !crashed
      requires |run| < |gens| == |verdicts| && gens[|run|] == g
      requires r.Kind() == L.Stopped <==> g.fault.Some? || g.derail.Some?
      requires r.blocked.Some? <==> r.Kind() == L.Blocked
      requires r.scored.Some? ==> Own(r.scored.value, g.text, verdicts[|run|])
      requires Ready(base, site) && loop.At(site, base, more)
      requires Journaled(run + [L.Attempt(g.text, r.Kind())], loop.snapshots.entries, more)
      requires Working(base, site, more) == TreeAfter(base, site, run + [L.Attempt(g.text, r.Kind())])
      requires Explained(run, reports, base, site, loop.fs.nameMax)
      requires r.blocked.Some? ==>
                 Explains(r.blocked.value, g.text, TreeAfter(base, site, run), site, loop.fs.nameMax)
      requires r.scored.Some? ==> Targets(g.text, TreeAfter(base, site, run), site, loop.fs.nameMax)
      modifies this, plateau
      ensures Valid() && !crashed && |run| == |old(run)| + 1
    {
      ghost var a, was := L.Attempt(g.text, r.Kind()), run;
      ghost var told := reports;
      Conclude(g, r);
      applied := more;
      ExplainedSnoc(was, told, base, site, loop.fs.nameMax, a, reports[|told|]);
    }
  }

  // ---- the whole run ---------------------------------------------------------------------

  /** What the loop reads of a task: `implPath` is refused by the entry point unless it is nested,
      relative and plain. */
  datatype TaskSpec = TaskSpec(implPath: Text, testText: Text, maxAttempts: nat)

  /** The worktree as the oracle sees it: the test written, nothing else touched. */
  ghost function WithOracle(t: Tree, site: Site, test: Bytes): Tree {
    t.(files := t.files[site.Oracle() := test])
  }

  /** Whichever capture is restored, nothing stands in its way, and the files become those that
      attempt left. */
  lemma {:induction false} RestoreBringsBack(base: Tree, site: Site, applied: seq<Bytes>, entries: seq<Entry>, j: nat)
    requires Ready(base, site) && Captured(base, site, applied, entries) && j < |entries|
    ensures var t := Working(base, site, applied);
            && NoClash(entries[j].files, t)
            && Restored(t, site.Subtree(), entries[j].files).files == base.files[site.Impl() := applied[j]]
  {
    var t := Working(base, site, applied);
    var back := base.(files := base.files[site.Impl() := applied[j]]);
    SiteFacts(base, site);
    ReadyThen(base, site, applied[j]);
    CaptureCoherent(back, site.Subtree());
    assert forall q :: q in t.files <==> q in back.files;
    forall p | p in entries[j].files ensures Fits(p, t) {
      assert Fits(p, back);
    }
    assert Restored(t, site.Subtree(), entries[j].files).files == back.files;
  }

  /** Whichever capture is restored, the directories outside the subtree stay, and within it those
      that hold one of the files stay. */
  lemma {:induction false} RestoreKeepsDirs(base: Tree, site: Site, applied: seq<Bytes>, entries: seq<Entry>, j: nat)
    requires Ready(base, site) && Captured(base, site, applied, entries) && j < |entries|
    ensures var files := base.files[site.Impl() := applied[j]];
            Restored(Working(base, site, applied), site.Subtree(), entries[j].files).dirs
            == KeptDirs(base.dirs, site, files, entries)
  {
    var back := base.(files := base.files[site.Impl() := applied[j]]);
    var wanted := entries[j].files;
    SiteFacts(base, site);
    ReadyThen(base, site, applied[j]);
    forall d | d in Ancestors(wanted) ensures d in base.dirs {
      var p, k :| p in wanted && 0 <= k < |p| && d == p[..k];
      AncestorsAreDirs(back, p, k);
    }
    forall d | Under(site.Subtree(), d) ensures Holds(wanted, d) <==> Holds(back.files, d) {
      forall f | f in back.files && Under(d, f) ensures f in wanted {
        assert f[..|site.Subtree()|] == d[..|site.Subtree()|];
      }
    }
  }

  lemma {:induction false} ReadyThen(base: Tree, site: Site, payload: Bytes)
    requires Ready(base, site)
    ensures Ready(base.(files := base.files[site.Impl() := payload]), site)
  {
    SiteFacts(base, site);
  }

  /** No file but the permitted one differs from `before`. */
  ghost predicate Framed(before: map<Path, Bytes>, now: map<Path, Bytes>, site: Site) {
    forall p :: p != site.Impl() ==>
      (p in now <==> p in before) && (p in now ==> now[p] == before[p])
  }

  /** What the permitted file holds once the run returns: as before without a score, else the
      payload of the best attempt. */
  ghost function Kept(before: map<Path, Bytes>, site: Site, run: seq<L.Attempt>, entries: seq<Entry>): map<Path, Bytes>
    requires entries != [] ==> exists payload :: EntryFits(run, BestOf(entries), payload)
  {
    if entries == [] then before
    else before[site.Impl() := E.ExtractFile(run[BestOf(entries).index].reply).value.payload]
  }

  /** The directories left: all of them without a score, else below the subtree those that hold
      a file, the empty ones pruned whether the run made them or found them. */
  ghost function KeptDirs(dirs: set<Path>, site: Site, files: map<Path, Bytes>, entries: seq<Entry>): set<Path>
    requires site.parts != []
  {
    if entries == [] then dirs
    else set d | d in dirs && (Under(site.Subtree(), d) ==> Holds(files, d))
  }

  function BestScore(entries: seq<Entry>): Option<TestScore> {
    if entries == [] then None else Some(BestOf(entries).score)
  }

  /** `_finish`: the tree brought back to the best capture, the result built from the run. */
  method Finish(loop: Loop, site: Site, results: seq<C.GenerationResult>, scored: bool,
                ghost base: Tree, ghost run: seq<L.Attempt>, ghost applied: seq<Bytes>)
    returns (result: LoopResult)
    requires Ready(base, site) && loop.At(site, base, applied)
    requires Journaled(run, loop.snapshots.entries, applied)
    modifies loop.fs
    ensures loop.snapshots.entries != [] ==> exists payload :: EntryFits(run, BestOf(loop.snapshots.entries), payload)
    ensures loop.fs.files == Kept(base.files, site, run, loop.snapshots.entries)
    ensures loop.fs.dirs == KeptDirs(base.dirs, site, loop.fs.files, loop.snapshots.entries)
    ensures var final := if results == [] then None else Some(results[|results| - 1]);
            var best := BestScore(loop.snapshots.entries);
            result == LoopResult(TerminalStatus(final, scored, best), best, final)
  {
    if loop.snapshots.entries != [] {
      ghost var j := BestIsMinimal(loop.snapshots.entries);
      assert EntryFits(run, loop.snapshots.entries[j], applied[j]);
      RestoreBringsBack(base, site, applied, loop.snapshots.entries, j);
      RestoreKeepsDirs(base, site, applied, loop.snapshots.entries, j);
    }
    ApplyKeepsReady(base, site, applied, []);
    var restored := loop.snapshots.RestoreBest();
    var best := loop.snapshots.Best();
    var bestScore := if best.None? then None else Some(best.value.score);
    var final := if results == [] then None else Some(results[|results| - 1]);
    result := LoopResult(TerminalStatus(final, scored, bestScore), bestScore, final);
  }

  /** The attempts, until the budget is spent, the run ends, or an exception ends it. */
  method Attempts(cycle: Cycle, maxAttempts: nat)
    requires cycle.Valid() && |cycle.gens| == maxAttempts
    requires !cycle.ended && !cycle.raised && !cycle.crashed
    modifies cycle, cycle.plateau, cycle.loop.fs, cycle.loop.snapshots
    ensures cycle.Valid()
    ensures |cycle.run| == maxAttempts || cycle.ended || cycle.raised || cycle.crashed
    ensures cycle.crashed ==> !cycle.ended && !cycle.raised
  {
    while |cycle.results| < maxAttempts && !cycle.ended && !cycle.raised && !cycle.crashed
      invariant cycle.Valid() && (cycle.crashed ==> !cycle.ended && !cycle.raised)
      decreases maxAttempts - |cycle.run|, !cycle.crashed
    {
      cycle.Turn();
    }
  }

  lemma {:induction false} BestFits(run: seq<L.Attempt>, entries: seq<Entry>, applied: seq<Bytes>)
    requires Journaled(run, entries, applied)
    ensures entries != [] ==> exists payload :: EntryFits(run, BestOf(entries), payload)
  {
    if entries != [] {
      var j := BestIsMinimal(entries);
      assert EntryFits(run, entries[j], applied[j]);
    }
  }

  lemma {:induction false} WorkingFramed(base: Tree, site: Site, applied: seq<Bytes>)
    ensures Framed(base.files, Working(base, site, applied).files, site)
  {
  }

  lemma {:induction false} KeptFramed(before: map<Path, Bytes>, site: Site, run: seq<L.Attempt>, entries: seq<Entry>)
    requires entries != [] ==> exists payload :: EntryFits(run, BestOf(entries), payload)
    ensures Framed(before, Kept(before, site, run, entries), site)
  {
  }

  /** The run proper, from the worktree that holds the oracle. */
  method RunFrom(loop: Loop, site: Site, gens: seq<C.GenerationResult>, verdicts: seq<Failure>, ghost base: Tree)
    returns (ending: Ending, reports: seq<AttemptProgress>, tails: seq<Tail>,
             ghost run: seq<L.Attempt>, ghost applied: seq<Bytes>)
    requires |gens| == |verdicts| && Ready(base, site) && loop.At(site, base, [])
    modifies loop.fs, loop.snapshots
    ensures L.IsRun(run) && |run| <= |gens| && Reported(run, gens, verdicts, reports, tails)
    ensures Explained(run, reports, base, site, loop.fs.nameMax)
    ensures !ending.NoOracle?
    ensures ending.Unquotable? <==> RaisedBy(run)
    ensures ending.Overlong? <==> Stuck(run, gens, base, site, applied, loop.fs.nameMax)
    ensures ending.Returned? ==> |run| == |gens| || L.After(run).ended
    ensures Journaled(run, loop.snapshots.entries, applied)
    ensures Framed(base.files, loop.fs.files, site)
    ensures loop.snapshots.entries != [] ==> exists payload :: EntryFits(run, BestOf(loop.snapshots.entries), payload)
    ensures ending.Returned? ==> loop.fs.files == Kept(base.files, site, run, loop.snapshots.entries)
    ensures ending.Returned? ==> loop.fs.dirs == KeptDirs(base.dirs, site, loop.fs.files, loop.snapshots.entries)
    ensures !ending.Returned? ==> loop.fs.Abstract() == Working(base, site, applied)
    ensures ending.Returned? ==>
              var final := if run == [] then None else Some(gens[|run| - 1]);
              var best := BestScore(loop.snapshots.entries);
              ending.result == LoopResult(TerminalStatus(final, L.After(run).lastScored, best), best, final)
  {
    var cycle := new Cycle(loop, site, gens, verdicts, base);
    Attempts(cycle, |gens|);
    reports, tails, run, applied := cycle.reports, cycle.tails, cycle.run, cycle.applied;
    BestFits(run, loop.snapshots.entries, applied);
    if cycle.raised || cycle.crashed {
      WorkingFramed(base, site, applied);
      ending := if cycle.raised then Unquotable else Overlong;
    } else {
      var result := Finish(loop, site, cycle.results, cycle.lastAttempt.Some?, base, run, applied);
      KeptFramed(base.files, site, run, loop.snapshots.entries);
      ending := Returned(result);
    }
  }

  /** One run, for every model and every oracle. The oracle file keeps the test text and no file
      but the permitted one changes, whatever paths the replies name; unless an exception ends the
      run, the permitted file ends as the rank-minimal scored attempt left it. */
  method RunTask(loop: Loop, spec: TaskSpec, site: Site, gens: seq<C.GenerationResult>, verdicts: seq<Failure>)
    returns (ending: Ending, reports: seq<AttemptProgress>, tails: seq<Tail>,
             ghost run: seq<L.Attempt>, ghost applied: seq<Bytes>)
    requires RequireNestedRelativeFile(spec.implPath) == Some(site.parts)
    requires Encodable(spec.testText)
    requires |gens| == |verdicts| == spec.maxAttempts
    requires Prepared(loop.fs.Abstract(), site) && loop.snapshots.fs == loop.fs && loop.snapshots.Valid()
    requires loop.snapshots.subtree == site.Subtree() && loop.snapshots.entries == []
    modifies loop.fs, loop.snapshots
    // control: a run of at most the budget, every attempt told and reported as the run calls for
    ensures L.IsRun(run) && |run| <= spec.maxAttempts && Reported(run, gens, verdicts, reports, tails)
    ensures Explained(run, reports, WithOracle(old(loop.fs.Abstract()), site, Encode(spec.testText)), site,
                      loop.fs.nameMax)
    ensures ending.NoOracle? <==> site.Oracle() in old(loop.fs.dirs)
    ensures ending.NoOracle? ==> run == [] && loop.fs.Abstract() == old(loop.fs.Abstract())
    ensures ending.Unquotable? <==> RaisedBy(run)
    ensures ending.Overlong? <==>
              && !ending.NoOracle?
              && Stuck(run, gens, WithOracle(old(loop.fs.Abstract()), site, Encode(spec.testText)), site,
                       applied, loop.fs.nameMax)
    ensures ending.Returned? ==> |run| == spec.maxAttempts || L.After(run).ended
    // the captures are the scored attempts, with the payload each reply framed
    ensures Journaled(run, loop.snapshots.entries, applied)
    // frame: the oracle file holds the test, and no file but the permitted one changes
    ensures !ending.NoOracle? ==>
              Framed(WithOracle(old(loop.fs.Abstract()), site, Encode(spec.testText)).files, loop.fs.files, site)
    // the permitted file: untouched without a score, else the best attempt's payload; below the
    // subtree, the directories that hold no file are gone with it
    ensures loop.snapshots.entries != [] ==> exists payload :: EntryFits(run, BestOf(loop.snapshots.entries), payload)
    ensures ending.Returned? ==>
              loop.fs.files == Kept(WithOracle(old(loop.fs.Abstract()), site, Encode(spec.testText)).files,
                                    site, run, loop.snapshots.entries)
    ensures ending.Returned? ==>
              loop.fs.dirs == KeptDirs(old(loop.fs.dirs), site, loop.fs.files, loop.snapshots.entries)
    // an exception leaves what the last attempt applied
    ensures ending.Overlong? || ending.Unquotable? ==>
              loop.fs.Abstract() == Working(WithOracle(old(loop.fs.Abstract()), site, Encode(spec.testText)),
                                            site, applied)
    ensures ending.Returned? ==>
              var final := if run == [] then None else Some(gens[|run| - 1]);
              var best := BestScore(loop.snapshots.entries);
              ending.result == LoopResult(TerminalStatus(final, L.After(run).lastScored, best), best, final)
  {
    NestedIffPlain(spec.implPath, site.parts);
    assert Parent(site.Oracle()) == site.root;
    var written := loop.fs.WriteBytes(site.Oracle(), Encode(spec.testText));
    if !written {
      ending, reports, tails, run, applied := NoOracle, [], [], [], [];
    } else {
      ending, reports, tails, run, applied := RunFrom(loop, site, gens, verdicts, loop.fs.Abstract());
    }
  }

  // ---- what the model is sent ------------------------------------------------------------

  lemma {:induction false} HeldRung(run: seq<L.Attempt>, k: nat)
    requires L.IsRun(run) && k < |run| && L.After(run[..k]).lastScored
    ensures L.After(run[..k]).nudge <= 2
  {
    if L.Nudged(L.After(run[..k])) {
      assert run[..0] == [];
      L.RungWithinLadder(run, k);
    }
  }

  /** Every tail of every run has an encoding, and one constant of the wording bounds them all,
      whatever the model replies and however much the oracle prints. */
  lemma {:induction false} TailsBounded(
      w: Wording, run: seq<L.Attempt>, gens: seq<C.GenerationResult>, verdicts: seq<Failure>,
      reports: seq<AttemptProgress>, tails: seq<Tail>, i: nat)
    requires w.Sound() && L.IsRun(run) && Reported(run, gens, verdicts, reports, tails) && i < |run|
    requires forall k :: 0 <= k < |verdicts| ==> verdicts[k].Encodes()
    ensures Encodes(tails[i]) && (tails[i].Repair? ==> tails[i].rung <= 2)
    ensures Encodable(Render(w, tails[i])) && Size(Render(w, tails[i])) <= TailBound(w)
  {
    assert Told(tails[i], run[..i], verdicts);
    if tails[i].Repair? {
      HeldRung(run, i);
      BriefEncodes(tails[i].failure);
      EvidenceEncodes(tails[i].failure);
    }
    TailBounded(w, tails[i]);
  }

  /** Along every run the rungs its tails carry strictly increase: each in at most one tail, the
      first before the second. */
  lemma {:induction false} RungsTold(
      run: seq<L.Attempt>, gens: seq<C.GenerationResult>, verdicts: seq<Failure>,
      reports: seq<AttemptProgress>, tails: seq<Tail>, j: nat, k: nat)
    requires L.IsRun(run) && Reported(run, gens, verdicts, reports, tails) && j < k < |run|
    requires tails[j].Repair? && tails[j].rung != 0 && tails[k].Repair? && tails[k].rung != 0
    ensures 1 <= tails[j].rung < tails[k].rung <= 2
  {
    assert Told(tails[j], run[..j], verdicts) && Told(tails[k], run[..k], verdicts);
    L.RungsIncrease(run, j, k);
  }

  /** The reframe is in at most one tail. */
  lemma {:induction false} ReframeTold(
      run: seq<L.Attempt>, gens: seq<C.GenerationResult>, verdicts: seq<Failure>,
      reports: seq<AttemptProgress>, tails: seq<Tail>, j: nat, k: nat)
    requires L.IsRun(run) && Reported(run, gens, verdicts, reports, tails)
    requires j < |run| && k < |run| && tails[j].Reframed? && tails[k].Reframed?
    ensures j == k
  {
    assert Told(tails[j], run[..j], verdicts) && Told(tails[k], run[..k], verdicts);
    L.ReframeOnce(run, j);
  }

  /** Every report tells the truth about its attempt: nudged exactly when the tail sent carries a
      rung; when blocked, and only then, that the reply frames no file, or which path it frames,
      which was not the permitted file's; a repeat exactly when the reply is the one before it; a
      plateau exactly when two scores in a row have not cleared the most passed before. */
  lemma {:induction false} ReportsTrue(
      run: seq<L.Attempt>, gens: seq<C.GenerationResult>, verdicts: seq<Failure>,
      reports: seq<AttemptProgress>, tails: seq<Tail>, base: Tree, site: Site, nameMax: nat, i: nat)
    requires L.IsRun(run) && Reported(run, gens, verdicts, reports, tails) && i < |run|
    requires Explained(run, reports, base, site, nameMax)
    ensures reports[i].nudged <==> tails[i].Repair? && tails[i].rung != 0
    ensures reports[i].attempt == i + 1 && reports[i].generation == gens[i]
    ensures reports[i].score == if run[i].kind.Scored? then Some(run[i].kind.score) else None
    ensures reports[i].blockedReason
         == if run[i].kind != L.Blocked then None
            else match E.ExtractFile(gens[i].text)
                 case None => Some(NoFrame)
                 case Some(file) => Some(BlockedReason.Refused(file.path))
    ensures run[i].kind == L.Blocked && E.ExtractFile(gens[i].text).Some? ==>
              ResolveWithin(TreeAfter(base, site, run[..i]), site.root,
                            E.ExtractFile(gens[i].text).value.path, nameMax) != Resolved(site.Impl())
    ensures run[i].kind.Scored? ==> Targets(gens[i].text, TreeAfter(base, site, run[..i]), site, nameMax)
    ensures reports[i].repeatsPrevious <==> i > 0 && gens[i].text == gens[i - 1].text
    ensures reports[i].plateaued <==> L.Streak(run[..i + 1]) >= 2
  {
    assert Told(tails[i], run[..i], verdicts) && ReportFits(reports[i], run, i, gens[i]);
    L.PreviousReply(run, i);
    L.StreakKept(run[..i + 1]);
    if i > 0 {
      assert ReportFits(reports[i - 1], run, i - 1, gens[i - 1]);
    }
  }

  // ---- what the status means -------------------------------------------------------------

  ghost predicate GreenAt(run: seq<L.Attempt>, i: int) {
    0 <= i < |run| && run[i].kind.Scored? && run[i].kind.score.IsGreen()
  }

  lemma {:induction false} EntriesPinned(run: seq<L.Attempt>, entries: seq<Entry>, applied: seq<Bytes>, expected: int)
    requires L.IsRun(run) && Journaled(run, entries, applied) && L.Pinned(run, expected)
    ensures forall j :: 0 <= j < |entries| ==>
              entries[j].score.Counted() && entries[j].score.expected == expected
    ensures forall j :: 0 <= j < |entries| - 1 ==> !entries[j].score.IsGreen()
  {
    forall j | 0 <= j < |entries|
      ensures entries[j].score.Counted() && entries[j].score.expected == expected
      ensures j < |entries| - 1 ==> !entries[j].score.IsGreen()
    {
      assert EntryFits(run, entries[j], applied[j]);
      if j < |entries| - 1 {
        var last := |entries| - 1;
        assert EntryFits(run, entries[last], applied[last]);
        L.OnlyLastEnds(run, entries[j].index);
      }
    }
  }

  /** A green attempt is the last one, and its capture the last capture. */
  lemma {:induction false} GreenIsLast(run: seq<L.Attempt>, entries: seq<Entry>, applied: seq<Bytes>, i: int)
    requires L.IsRun(run) && Journaled(run, entries, applied) && GreenAt(run, i)
    ensures i == |run| - 1 && entries != []
    ensures entries[|entries| - 1].index == i && entries[|entries| - 1].score.IsGreen()
  {
    if i + 1 < |run| {
      L.OnlyLastEnds(run, i);
    }
    assert HasEntry(entries, i);
    var j :| 0 <= j < |entries| && entries[j].index == i;
    var last := |entries| - 1;
    assert EntryFits(run, entries[last], applied[last]);
    assert j < last ==> entries[j].index < entries[last].index;
    assert EntryFits(run, entries[j], applied[j]);
  }

  lemma {:induction false} BestIsGreen(run: seq<L.Attempt>, entries: seq<Entry>, applied: seq<Bytes>, expected: int)
    requires L.IsRun(run) && Journaled(run, entries, applied) && L.Pinned(run, expected)
    ensures entries != [] && BestOf(entries).score.IsGreen()
        <==> (exists i :: GreenAt(run, i)) && L.PassedAtMost(run, expected)
    ensures entries != [] && BestOf(entries).score.IsGreen() ==> GreenAt(run, BestOf(entries).index)
  {
    EntriesPinned(run, entries, applied, expected);
    forall i | GreenAt(run, i) ensures entries != [] && entries[|entries| - 1].score.IsGreen() {
      GreenIsLast(run, entries, applied, i);
    }
    if entries != [] {
      var last := |entries| - 1;
      assert EntryFits(run, entries[last], applied[last]);
      assert entries[last].score.IsGreen() ==> GreenAt(run, entries[last].index);
      SamePassed(run, entries, applied, expected);
      DoneIff(entries, expected);
    }
  }

  /** A run is done exactly when some attempt was green and none passed more tests than pinned; the
      attempt restored is then the green one. */
  lemma {:induction false} DoneExactly(run: seq<L.Attempt>, entries: seq<Entry>, applied: seq<Bytes>, expected: int,
                                       final: Option<C.GenerationResult>, scored: bool)
    requires L.IsRun(run) && Journaled(run, entries, applied) && L.Pinned(run, expected)
    ensures TerminalStatus(final, scored, BestScore(entries)) == Done
        <==> (exists i :: GreenAt(run, i)) && L.PassedAtMost(run, expected)
    ensures TerminalStatus(final, scored, BestScore(entries)) == Done ==>
              entries != [] && GreenAt(run, BestOf(entries).index)
  {
    BestIsGreen(run, entries, applied, expected);
  }

  lemma {:induction false} TwoAttempts(a: L.Attempt, b: L.Attempt)
    requires !L.Step(L.START, a).ended
    ensures L.IsRun([a, b])
  {
    var none: seq<L.Attempt> := [];
    L.AfterSnoc(none, a);
    L.AfterSnoc([a], b);
    assert none + [a] == [a] && [a] + [b] == [a, b];
  }

  lemma {:induction false} BestOfTwo(a: Entry, b: Entry)
    requires !Precedes(b, a)
    ensures BestOf([a, b]) == a
  {
    assert [a, b][..1] == [a];
    assert BestOf([a]) == a;
  }

  /** A reply that frames an empty file at the permitted path. */
  lemma {:induction false} EmptyFile(site: Site) returns (reply: Text)
    requires |site.parts| >= 2 && Encodable(site.Permitted())
    requires NL !in site.Permitted() && CR !in site.Permitted()
    ensures E.ExtractFile(reply) == Some(E.WholeFileReply(site.Permitted(), []))
  {
    var source: Text := [];
    reply := E.ReplayFrame(site.Permitted(), source);
    SlashInJoin(site.parts);
    E.FrameRoundTrip(site.Permitted(), source);
    assert !E.Wrapped(source);
  }

  lemma {:induction false} TwoJournaled(a: L.Attempt, b: L.Attempt, one: Entry, two: Entry, payload: Bytes)
    requires one.index == 0 && two.index == 1
    requires EntryFits([a, b], one, payload) && EntryFits([a, b], two, payload)
    ensures Journaled([a, b], [one, two], [payload, payload])
  {
    var entries := [one, two];
    forall i | 0 <= i < 2 ensures HasEntry(entries, i) {
      assert entries[i].index == i;
    }
  }

  /** A run that scores green and is not done: its first attempt passes two tests where one is
      pinned, so the capture of that one is restored. The replies, the captures and the payloads
      are those of a run at `site`. */
  lemma {:induction false} OvercountHidesGreen(base: Tree, site: Site, final: Option<C.GenerationResult>)
    returns (run: seq<L.Attempt>, entries: seq<Entry>, applied: seq<Bytes>)
    requires Ready(base, site) && Encodable(site.Permitted())
    requires NL !in site.Permitted() && CR !in site.Permitted()
    ensures L.IsRun(run) && L.Pinned(run, 1) && GreenAt(run, 1)
    ensures Journaled(run, entries, applied) && Captured(base, site, applied, entries)
    ensures BestOf(entries).index == 0 && TerminalStatus(final, true, BestScore(entries)) != Done
  {
    var over, green := TestScore(2, 0, 0, 2, 0, 1), TestScore(1, 0, 0, 1, 0, 1);
    var reply := EmptyFile(site);
    var a, b := L.Attempt(reply, L.Scored(over)), L.Attempt(reply, L.Scored(green));
    var files := Capture(base.files[site.Impl() := []], site.Subtree());
    var one, two := Entry(0, over, files), Entry(1, green, files);
    run, entries, applied := [a, b], [one, two], [[], []];
    TwoAttempts(a, b);
    TwoJournaled(a, b, one, two, []);
    BestOfTwo(one, two);
  }

  lemma {:induction false} SamePassed(run: seq<L.Attempt>, entries: seq<Entry>, applied: seq<Bytes>, most: int)
    requires Journaled(run, entries, applied)
    ensures L.PassedAtMost(run, most) <==> forall j :: 0 <= j < |entries| ==> entries[j].score.passed <= most
  {
    forall j | 0 <= j < |entries| ensures L.PassedAtMost(run, most) ==> entries[j].score.passed <= most {
      assert EntryFits(run, entries[j], applied[j]);
    }
    if forall j :: 0 <= j < |entries| ==> entries[j].score.passed <= most {
      forall i | 0 <= i < |run| && run[i].kind.Scored? ensures run[i].kind.score.passed <= most {
        assert HasEntry(entries, i);
        var j :| 0 <= j < |entries| && entries[j].index == i;
        assert EntryFits(run, entries[j], applied[j]);
      }
    }
  }

  /** Below green the cause of the last attempt ranks: fault, then derail, then block. */
  lemma {:induction false} StatusPrecedence(final: Option<C.GenerationResult>, scored: bool, best: Option<TestScore>)
    requires final.Some? && scored ==> final.value.fault.None? && final.value.derail.None?
    requires best.Some? ==> !best.value.IsGreen()
    ensures var s := TerminalStatus(final, scored, best);
            && (s == Faulted <==> final.Some? && final.value.fault.Some?)
            && (s == Derailed <==> final.Some? && final.value.fault.None? && final.value.derail.Some?)
            && (s == Exhausted <==> final.None? || scored)
  {
  }
}
