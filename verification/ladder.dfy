/** The loop's control: what one resolved attempt does to the run, and the facts every run keeps
    whatever the model answers and the oracle scores. */
module Ladder {
  import opened Texts
  import opened Scores
  import opened Prompt

  const PLATEAU_ATTEMPTS: nat := 2

  /** How an attempt resolved: stopped by a server fault or the guard, blocked without a usable
      edit, or scored by the oracle. */
  datatype Kind = Stopped | Blocked | Scored(score: TestScore)

  datatype Attempt = Attempt(reply: Text, kind: Kind)

  /** The loop's variables between attempts. `nudge` is the rung held, 0 for none. */
  datatype Control = Control(lastScored: bool, nudge: nat, reframed: bool, stalls: nat,
                             best: int, misses: nat, previous: Option<Text>, ended: bool)

  const START := Control(false, 0, false, 0, -1, 0, None, false)

  function Repeats(c: Control, a: Attempt): bool {
    c.previous == Some(a.reply)
  }

  /** The plateau's watermark and miss streak after one verdict. */
  function Missed(c: Control, passed: int): nat {
    if passed > c.best then 0 else c.misses + 1
  }

  function Watermark(c: Control, passed: int): int {
    if passed > c.best then passed else c.best
  }

  function Step(c: Control, a: Attempt): Control {
    var seen := c.(previous := Some(a.reply));
    match a.kind
    case Stopped => seen.(lastScored := false, ended := true)
    case Blocked =>
      if c.reframed then seen.(lastScored := false, ended := true)
      else seen.(lastScored := false, reframed := true)
    case Scored(score) =>
      var s := seen.(lastScored := true, best := Watermark(c, score.passed),
                     misses := Missed(c, score.passed));
      if score.IsGreen() then s.(ended := true)
      else if !(Repeats(c, a) || s.misses >= PLATEAU_ATTEMPTS) then s.(nudge := 0)
      else
        var stalled := s.(stalls := c.stalls + 1);
        match NudgeFor(stalled.stalls)
        case None => stalled.(ended := true)
        case Some(rung) => stalled.(nudge := rung)
  }

  function After(run: seq<Attempt>): Control {
    if run == [] then START else Step(After(run[..|run| - 1]), run[|run| - 1])
  }

  /** A run continues only while it has not ended. */
  ghost predicate IsRun(run: seq<Attempt>) {
    forall k :: 0 <= k < |run| ==> !After(run[..k]).ended
  }

  lemma {:induction false} AfterSnoc(run: seq<Attempt>, a: Attempt)
    ensures After(run + [a]) == Step(After(run), a)
    ensures IsRun(run + [a]) <==> IsRun(run) && !After(run).ended
  {
    assert (run + [a])[..|run|] == run;
    assert forall k :: 0 <= k <= |run| ==> (run + [a])[..k] == run[..k];
    assert run[..|run|] == run;
  }

  lemma {:induction false} AfterAt(run: seq<Attempt>, k: nat)
    requires k < |run|
    ensures After(run[..k + 1]) == Step(After(run[..k]), run[k])
  {
    assert run[..k + 1][..k] == run[..k];
  }

  // ---- how long a run can be -------------------------------------------------------------

  ghost predicate PassedAtMost(run: seq<Attempt>, most: int) {
    forall i :: 0 <= i < |run| && run[i].kind.Scored? ==> run[i].kind.score.passed <= most
  }

  ghost predicate PassedAtLeastZero(run: seq<Attempt>) {
    forall i :: 0 <= i < |run| && run[i].kind.Scored? ==> run[i].kind.score.passed >= 0
  }

  function Count(b: bool): nat {
    if b then 1 else 0
  }

  /** What a run of `n` attempts that goes on has spent: one reframe, its stalls, two attempts for
      every passing count it climbed past, and the miss it may hold. */
  predicate Spent(c: Control, n: nat, most: int, nonNegative: bool) {
    && -1 <= c.best <= most
    && (!c.ended ==>
          && c.stalls <= 2
          && n <= Count(c.reframed) + c.stalls + 2 * (c.best + 1) + Count(c.misses > 0)
          && (nonNegative ==>
                && n <= Count(c.reframed) + c.stalls + 2 * (c.best + 1) - 1
                        + Count(c.misses > 0) + Count(c.best == -1)
                && (c.best == -1 ==> c.misses == 0)))
  }

  lemma {:induction false} StepSpends(c: Control, a: Attempt, n: nat, most: int, nonNegative: bool)
    requires Spent(c, n, most, nonNegative) && !c.ended
    requires a.kind.Scored? ==> a.kind.score.passed <= most && (nonNegative ==> a.kind.score.passed >= 0)
    ensures Spent(Step(c, a), n + 1, most, nonNegative)
  {
  }

  lemma {:induction false} RunSpends(run: seq<Attempt>, most: int, nonNegative: bool)
    requires IsRun(run) && PassedAtMost(run, most) && most >= 0
    requires nonNegative ==> PassedAtLeastZero(run)
    ensures Spent(After(run), |run|, most, nonNegative)
  {
    if run != [] {
      var front, last := run[..|run| - 1], run[|run| - 1];
      assert run == front + [last];
      AfterSnoc(front, last);
      RunSpends(front, most, nonNegative);
      StepSpends(After(front), last, |front|, most, nonNegative);
    }
  }

  /** Every run is bounded by the pinned count alone: at most `2 * most + 7` attempts when no score
      passes more than `most`, one fewer when none passes a negative number. */
  lemma {:induction false} AttemptsBounded(run: seq<Attempt>, most: int)
    requires IsRun(run) && PassedAtMost(run, most) && most >= 0
    ensures |run| <= 2 * most + 7
    ensures PassedAtLeastZero(run) ==> |run| <= 2 * most + 6
  {
    if run != [] {
      var front := run[..|run| - 1];
      assert run == front + [run[|run| - 1]];
      AfterSnoc(front, run[|run| - 1]);
      RunSpends(front, most, false);
      if PassedAtLeastZero(run) {
        RunSpends(front, most, true);
      }
    }
  }

  // ---- the bound is reached --------------------------------------------------------------

  /** Every verdict is a counted one against the pinned number of tests. */
  ghost predicate Pinned(run: seq<Attempt>, expected: int) {
    forall i :: 0 <= i < |run| && run[i].kind.Scored? ==>
      run[i].kind.score.Counted() && run[i].kind.score.expected == expected
  }

  /** A score that passes `n` and fails one, against the pinned `expected`. */
  function Miss(n: nat, expected: nat): TestScore {
    TestScore(n, 1, 0, n + 1, 0, expected)
  }

  /** Climb one test at a time, missing once after each gain, never in the same words. */
  function Stairs(n: nat, expected: nat): seq<Attempt> {
    (if n == 0 then [Attempt([0], Blocked)] else Stairs(n - 1, expected))
    + [Attempt([1], Scored(Miss(n, expected)))] + [Attempt([2], Scored(Miss(n, expected)))]
  }

  function StairTop(n: nat): Control {
    Control(true, 0, true, 0, n, 1, Some([2]), false)
  }

  /** One gain and one miss, from the stair below. */
  lemma {:induction false} ClimbOne(below: seq<Attempt>, n: nat, expected: nat)
    requires IsRun(below)
    requires After(below) == if n == 0 then START.(reframed := true, previous := Some([0]))
                             else StairTop(n - 1)
    ensures var run := below + [Attempt([1], Scored(Miss(n, expected)))] + [Attempt([2], Scored(Miss(n, expected)))];
            IsRun(run) && After(run) == StairTop(n)
  {
    var one, two := Attempt([1], Scored(Miss(n, expected))), Attempt([2], Scored(Miss(n, expected)));
    AfterSnoc(below, one);
    assert Some([0]) != Some([1]) && Some([2]) != Some([1]) by {
      assert [0][0] != [1][0] && [2][0] != [1][0];
    }
    var mid := After(below + [one]);
    assert mid == Control(true, 0, true, 0, n, 0, Some([1]), false);
    AfterSnoc(below + [one], two);
  }

  lemma {:induction false} StairsClimb(n: nat, expected: nat)
    ensures IsRun(Stairs(n, expected)) && After(Stairs(n, expected)) == StairTop(n)
  {
    if n == 0 {
      var base: seq<Attempt> := [];
      AfterSnoc(base, Attempt([0], Blocked));
      assert base + [Attempt([0], Blocked)] == [Attempt([0], Blocked)];
      ClimbOne([Attempt([0], Blocked)], 0, expected);
    } else {
      StairsClimb(n - 1, expected);
      ClimbOne(Stairs(n - 1, expected), n, expected);
    }
  }

  lemma {:induction false} StairsScores(n: nat, expected: nat)
    ensures |Stairs(n, expected)| == 2 * n + 3
    ensures PassedAtMost(Stairs(n, expected), n) && PassedAtLeastZero(Stairs(n, expected))
    ensures Pinned(Stairs(n, expected), expected)
  {
    if n > 0 {
      StairsScores(n - 1, expected);
    }
  }

  /** From the top stair, three more misses: two rungs and the end. */
  lemma {:induction false} FromTheTop(below: seq<Attempt>, n: nat, expected: nat)
    requires IsRun(below) && After(below) == StairTop(n)
    ensures var a, b := Attempt([1], Scored(Miss(n, expected))), Attempt([2], Scored(Miss(n, expected)));
            IsRun(below + [a] + [b] + [a])
  {
    var a, b := Attempt([1], Scored(Miss(n, expected))), Attempt([2], Scored(Miss(n, expected)));
    AfterSnoc(below, a);
    AfterSnoc(below + [a], b);
    AfterSnoc(below + [a] + [b], a);
  }

  lemma {:induction false} ScoresSnoc(run: seq<Attempt>, a: Attempt, n: nat)
    requires PassedAtMost(run, n) && PassedAtLeastZero(run) && Pinned(run, n)
    requires a.kind == Scored(Miss(n, n))
    ensures PassedAtMost(run + [a], n) && PassedAtLeastZero(run + [a]) && Pinned(run + [a], n)
  {
  }

  /** A run of one task that needs every attempt the bound allows, for every pinned count. */
  lemma {:induction false} LongestRun(n: nat) returns (run: seq<Attempt>)
    ensures IsRun(run) && PassedAtMost(run, n) && PassedAtLeastZero(run)
    ensures Pinned(run, n) && |run| == 2 * n + 6
  {
    var a, b := Attempt([1], Scored(Miss(n, n))), Attempt([2], Scored(Miss(n, n)));
    StairsClimb(n, n);
    StairsScores(n, n);
    ScoresSnoc(Stairs(n, n), a, n);
    ScoresSnoc(Stairs(n, n) + [a], b, n);
    ScoresSnoc(Stairs(n, n) + [a] + [b], a, n);
    FromTheTop(Stairs(n, n), n, n);
    run := Stairs(n, n) + [a] + [b] + [a];
  }

  // ---- what each attempt was told --------------------------------------------------------

  /** The tail of the next attempt carries a rung. */
  predicate Nudged(c: Control) {
    c.lastScored && c.nudge != 0
  }

  /** The tail of the next attempt is the reframe. */
  predicate Reframing(c: Control) {
    !c.lastScored && c.reframed
  }

  lemma {:induction false} StepGrows(c: Control, a: Attempt)
    ensures Step(c, a).stalls >= c.stalls && (c.reframed ==> Step(c, a).reframed)
  {
  }

  lemma {:induction false} StallsGrow(run: seq<Attempt>, j: nat, k: nat)
    requires j <= k <= |run|
    ensures After(run[..j]).stalls <= After(run[..k]).stalls
    ensures After(run[..j]).reframed ==> After(run[..k]).reframed
    decreases k - j
  {
    if j < k {
      StallsGrow(run, j, k - 1);
      AfterAt(run, k - 1);
      StepGrows(After(run[..k - 1]), run[k - 1]);
    }
  }

  /** A rung is sent by the attempt right before, as the stall of that number. */
  lemma {:induction false} RungIsStall(run: seq<Attempt>, k: nat)
    requires 0 < k <= |run| && Nudged(After(run[..k])) && !After(run[..k]).ended
    ensures After(run[..k]).nudge == After(run[..k]).stalls == After(run[..k - 1]).stalls + 1
  {
    AfterAt(run, k - 1);
    StepToRung(After(run[..k - 1]), run[k - 1]);
  }

  lemma {:induction false} StepToRung(c: Control, a: Attempt)
    requires Nudged(Step(c, a)) && !Step(c, a).ended
    ensures Step(c, a).nudge == Step(c, a).stalls == c.stalls + 1
  {
  }

  /** Along every run the rungs sent strictly increase: each at most once, the first before the
      second. */
  lemma {:induction false} RungsIncrease(run: seq<Attempt>, j: nat, k: nat)
    requires IsRun(run) && 0 <= j < k < |run|
    requires Nudged(After(run[..j])) && Nudged(After(run[..k]))
    ensures 1 <= After(run[..j]).nudge < After(run[..k]).nudge <= 2
  {
    assert run[..0] == [];
    RungIsStall(run, j);
    RungIsStall(run, k);
    StallsGrow(run, j, k - 1);
    RungWithinLadder(run, k);
  }

  lemma {:induction false} RungWithinLadder(run: seq<Attempt>, k: nat)
    requires 0 < k <= |run| && Nudged(After(run[..k])) && !After(run[..k]).ended
    ensures After(run[..k]).nudge <= 2
  {
    AfterAt(run, k - 1);
  }

  /** The reframe is sent at most once, right after the one blocked attempt that earned it. */
  lemma {:induction false} ReframeOnce(run: seq<Attempt>, k: nat)
    requires IsRun(run) && k < |run| && Reframing(After(run[..k]))
    ensures k > 0 && run[k - 1].kind == Blocked
    ensures forall j :: 0 <= j < |run| && j != k ==> !Reframing(After(run[..j]))
  {
    assert run[..0] == [];
    EarnedBy(run, k);
    forall j | 0 <= j < |run| && j != k ensures !Reframing(After(run[..j])) {
      if Reframing(After(run[..j])) {
        EarnedBy(run, j);
        if j < k {
          StallsGrow(run, j, k - 1);
        } else {
          StallsGrow(run, k, j - 1);
        }
      }
    }
  }

  lemma {:induction false} EarnedBy(run: seq<Attempt>, k: nat)
    requires k < |run| && !After(run[..k]).ended && Reframing(After(run[..k]))
    ensures k > 0 && run[k - 1].kind == Blocked && !After(run[..k - 1]).reframed
  {
    assert run[..0] == [];
    AfterAt(run, k - 1);
  }

  /** The attempt after `front` got no further: its reply repeats, or the plateau holds. */
  predicate Stalls(front: seq<Attempt>, a: Attempt) {
    && a.kind.Scored? && !a.kind.score.IsGreen()
    && (Repeats(After(front), a) || Step(After(front), a).misses >= PLATEAU_ATTEMPTS)
  }

  function StallCount(run: seq<Attempt>): nat {
    if run == [] then 0
    else StallCount(run[..|run| - 1]) + Count(Stalls(run[..|run| - 1], run[|run| - 1]))
  }

  /** The ladder is walked once: the next tail carries a rung exactly after a stall, as its number
      counted over the whole run, and the third stall ends the run. */
  lemma {:induction false} RungNumbersStall(run: seq<Attempt>)
    requires IsRun(run) && run != []
    ensures var front, last, c := run[..|run| - 1], run[|run| - 1], After(run);
            && StallCount(run) <= 3
            && (!c.ended ==> (Nudged(c) <==> Stalls(front, last)) && StallCount(run) <= 2)
            && (Nudged(c) && !c.ended ==> c.nudge == StallCount(run))
            && (Stalls(front, last) ==> (c.ended <==> StallCount(run) == 3))
  {
    StallsCounted(run);
    var front, last := run[..|run| - 1], run[|run| - 1];
    assert run == front + [last];
    AfterSnoc(front, last);
    StallsCounted(front);
  }

  lemma {:induction false} StallsCounted(run: seq<Attempt>)
    requires IsRun(run)
    ensures After(run).stalls == StallCount(run) <= 3
    ensures !After(run).ended ==> StallCount(run) <= 2
  {
    if run != [] {
      var front, last := run[..|run| - 1], run[|run| - 1];
      assert run == front + [last];
      AfterSnoc(front, last);
      StallsCounted(front);
    }
  }

  /** What a repeat is judged against is the reply right before. */
  lemma {:induction false} PreviousReply(run: seq<Attempt>, i: nat)
    requires i < |run|
    ensures After(run[..i]).previous == if i == 0 then None else Some(run[i - 1].reply)
  {
    assert run[..0] == [];
    if i > 0 {
      AfterAt(run, i - 1);
    }
  }

  /** The most tests any score of the run passed; below every score when there is none. */
  function MostPassed(run: seq<Attempt>): int {
    if run == [] then -1
    else
      var front, last := MostPassed(run[..|run| - 1]), run[|run| - 1];
      if last.kind.Scored? && last.kind.score.passed > front then last.kind.score.passed else front
  }

  /** How many scores in a row, up to the last, have passed no more than the most before them;
      attempts without a score do not count. */
  function Streak(run: seq<Attempt>): nat {
    if run == [] then 0
    else
      var front, last := run[..|run| - 1], run[|run| - 1];
      if !last.kind.Scored? then Streak(front)
      else if last.kind.score.passed > MostPassed(front) then 0
      else Streak(front) + 1
  }

  lemma {:induction false} StreakKept(run: seq<Attempt>)
    ensures After(run).best == MostPassed(run) && After(run).misses == Streak(run)
  {
    if run != [] {
      StreakKept(run[..|run| - 1]);
    }
  }

  // ---- how a run ends --------------------------------------------------------------------

  predicate HasBlocked(run: seq<Attempt>) {
    exists j :: 0 <= j < |run| && run[j].kind == Blocked
  }

  lemma {:induction false} ReframedIffBlocked(run: seq<Attempt>)
    requires IsRun(run)
    ensures After(run).reframed <==> HasBlocked(run)
  {
    if run != [] {
      var front, last := run[..|run| - 1], run[|run| - 1];
      assert run == front + [last];
      AfterSnoc(front, last);
      ReframedIffBlocked(front);
      assert run[|run| - 1] == last && forall j :: 0 <= j < |front| ==> run[j] == front[j];
    }
  }

  /** A run ends exactly on a fault or a derail, on the second reply that is no file, on green, and
      on the third stall. */
  lemma {:induction false} EndsExactly(run: seq<Attempt>)
    requires IsRun(run) && run != []
    ensures var front, last := run[..|run| - 1], run[|run| - 1];
            After(run).ended <==>
              || last.kind == Stopped
              || (last.kind == Blocked && HasBlocked(front))
              || (last.kind.Scored? && last.kind.score.IsGreen())
              || (Stalls(front, last) && StallCount(run) == 3)
  {
    var front, last := run[..|run| - 1], run[|run| - 1];
    assert run == front + [last];
    AfterSnoc(front, last);
    ReframedIffBlocked(front);
    StallsCounted(run);
    StallsCounted(front);
  }

  /** A green score, a stopped attempt, or any attempt that ends the run is the last one. */
  lemma {:induction false} OnlyLastEnds(run: seq<Attempt>, i: nat)
    requires IsRun(run) && i + 1 < |run|
    ensures run[i].kind != Stopped
    ensures run[i].kind.Scored? ==> !run[i].kind.score.IsGreen()
  {
    AfterAt(run, i);
    assert !After(run[..i + 1]).ended;
  }
}
