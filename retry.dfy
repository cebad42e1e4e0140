/**
 * The bounded retry loop shared by the current store's statements: at most
 * three attempts, a 50 ms pause after each failed attempt except the last,
 * and a stop at the first attempt that runs.  Whether an attempt runs is an
 * input (the oracle); the pauses are counted rather than slept.
 */
module Retry {
  import opened Wrappers

  const MaxAttempts: nat := 3

  /** What one attempt at a statement does: it runs, or fails with a driver error (say, a busy database). */
  datatype AttemptOutcome = Runs | FailsWith(error: string)

  /** The outcome of attempt i; attempts past the end of the oracle run. */
  function OutcomeAt(outcomes: seq<AttemptOutcome>, i: nat): AttemptOutcome
  {
    if i < |outcomes| then outcomes[i] else Runs
  }

  /** The first of the three attempts that runs, if any. */
  function FirstRun(outcomes: seq<AttemptOutcome>): (r: Option<nat>)
    ensures r.Some? ==> r.value < MaxAttempts && OutcomeAt(outcomes, r.value).Runs?
    ensures r.Some? ==> forall j :: 0 <= j < r.value ==> OutcomeAt(outcomes, j).FailsWith?
    ensures r.None? <==> forall j :: 0 <= j < MaxAttempts ==> OutcomeAt(outcomes, j).FailsWith?
  {
    if OutcomeAt(outcomes, 0).Runs? then Some(0)
    else if OutcomeAt(outcomes, 1).Runs? then Some(1)
    else if OutcomeAt(outcomes, 2).Runs? then Some(2)
    else None
  }

  /** The error of the last attempt, reported when all three fail. */
  function FinalError(outcomes: seq<AttemptOutcome>): string
  {
    var last := OutcomeAt(outcomes, MaxAttempts - 1);
    if last.FailsWith? then last.error else ""
  }

  /**
   * The attempt loop: which attempt ran (none after three failures), the
   * error of the last failed one, and the number of attempts and pauses.
   * There is one pause fewer than attempts, so never more than two.
   */
  method Attempt(outcomes: seq<AttemptOutcome>)
    returns (ranAt: Option<nat>, lastError: string, ghost attempts: nat, ghost sleeps: nat)
    ensures ranAt == FirstRun(outcomes)
    ensures ranAt.None? ==> lastError == FinalError(outcomes)
    ensures attempts == if ranAt.Some? then ranAt.value + 1 else MaxAttempts
    ensures 1 <= attempts <= MaxAttempts && sleeps == attempts - 1
  {
    ranAt, lastError := None, "";
    attempts, sleeps := 0, 0;
    var i := 0;
    while i < MaxAttempts
      invariant 0 <= i <= MaxAttempts
      invariant attempts == i && sleeps == (if i == MaxAttempts then i - 1 else i)
      invariant forall j :: 0 <= j < i ==> OutcomeAt(outcomes, j).FailsWith?
      invariant i > 0 ==> lastError == OutcomeAt(outcomes, i - 1).error
    {
      attempts := attempts + 1;
      var outcome := OutcomeAt(outcomes, i);
      if outcome.Runs? {
        ranAt := Some(i);
        return;
      }
      lastError := outcome.error;
      if i < 2 {
        sleeps := sleeps + 1;
      }
      i := i + 1;
    }
  }
}
