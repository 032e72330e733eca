/** The oracle's verdict on one attempt. */
module Scores {

  datatype TestScore =
    TestScore(passed: int, failed: int, errors: int, collected: int, skipped: int, expected: int)
  {
    predicate IsValid() {
      collected == expected
    }

    predicate IsGreen() {
      IsValid() && failed == 0 && errors == 0
    }

    /** What every score the runner builds satisfies, from a report or from a killed run. */
    predicate Counted() {
      passed == collected - failed - errors && failed >= 0 && errors >= 0
    }
  }

  datatype Suite = Suite(tests: int, failures: nat, errors: nat, skipped: int)

  /** `score_junit`: the suites' counts summed, `passed` and `collected` derived. */
  method ScoreJunit(suites: seq<Suite>, expected: int) returns (s: TestScore)
    ensures s.Counted() && s.expected == expected
    ensures s.collected == Total(suites, (x: Suite) => x.tests) - Total(suites, (x: Suite) => x.skipped)
    ensures s.skipped == Total(suites, (x: Suite) => x.skipped)
    ensures s.failed == Total(suites, (x: Suite) => x.failures)
    ensures s.errors == Total(suites, (x: Suite) => x.errors)
  {
    var tests, failures, errors, skipped := 0, 0, 0, 0;
    for i := 0 to |suites|
      invariant failures >= 0 && errors >= 0
      invariant tests == Total(suites[..i], (x: Suite) => x.tests)
      invariant failures == Total(suites[..i], (x: Suite) => x.failures)
      invariant errors == Total(suites[..i], (x: Suite) => x.errors)
      invariant skipped == Total(suites[..i], (x: Suite) => x.skipped)
    {
      assert suites[..i + 1][..i] == suites[..i];
      tests := tests + suites[i].tests;
      failures := failures + suites[i].failures;
      errors := errors + suites[i].errors;
      skipped := skipped + suites[i].skipped;
    }
    assert suites[..|suites|] == suites;
    return TestScore(tests - failures - errors - skipped, failures, errors, tests - skipped, skipped,
                     expected);
  }

  function Total(suites: seq<Suite>, count: Suite -> int): int {
    if suites == [] then 0
    else Total(suites[..|suites| - 1], count) + count(suites[|suites| - 1])
  }

  /** A counted score passes all the pinned tests and no more exactly when nothing failed. */
  lemma {:induction false} GreenPassesAll(s: TestScore)
    requires s.Counted()
    ensures s.IsGreen() <==> s.IsValid() && s.passed == s.expected
  {
  }
}
