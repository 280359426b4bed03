/**
 * The "load more" expansion loop of `doStuff` (source/index.ts, lines 25-68).
 * The browser is replaced by what the loop observes of it: whether the
 * load-more control is visible before the loop, and, on each iteration, the
 * number of download buttons and then the control's visibility again.
 */
module PageExpander {

  /** What one iteration reads from the page: the button count (line 47) and the visibility (line 51). */
  datatype Observation = Observation(count: nat, visible: bool)

  /** Why the loop stopped. */
  datatype Exit =
    | Hidden             // the `while (isNotHidden)` test failed
    | Stagnated          // the `break` on line 64
    | OutOfObservations  // the finite observation sequence ran out (not a case of the source)

  /** `previousDownloadButtonCount` at iteration `i`: 0 before the first, else the count seen last. */
  function PreviousCount(obs: seq<Observation>, i: nat): nat
    requires i < |obs|
  {
    if i == 0 then 0 else obs[i - 1].count
  }

  /** Iteration `i` saw the same button count as the iteration before it (line 56). */
  predicate Unchanged(obs: seq<Observation>, i: nat)
    requires i < |obs|
  {
    obs[i].count == PreviousCount(obs, i)
  }

  /**
   * `currentLoadMoreTryCount` after the first `n` iterations: incremented by
   * an unchanged count, reset to 0 by a changed one (lines 56-60).
   */
  function Streak(obs: seq<Observation>, n: nat): (tries: nat)
    requires n <= |obs|
    ensures tries <= n
  {
    if n == 0 then 0
    else if Unchanged(obs, n - 1) then Streak(obs, n - 1) + 1
    else 0
  }

  /** Every iteration in `[lo, hi)` saw an unchanged count. */
  predicate AllUnchanged(obs: seq<Observation>, lo: nat, hi: nat)
    requires lo <= hi <= |obs|
  {
    forall i :: lo <= i < hi ==> Unchanged(obs, i)
  }

  /**
   * The try counter is the length of the run of unchanged iterations that
   * ends at `n`: those iterations are all unchanged, and the one before
   * them, if any, changed the count.
   */
  lemma {:induction false} StreakIsTrailingRun(obs: seq<Observation>, n: nat)
    requires n <= |obs|
    ensures Streak(obs, n) <= n
    ensures AllUnchanged(obs, n - Streak(obs, n), n)
    ensures Streak(obs, n) < n ==> !Unchanged(obs, n - Streak(obs, n) - 1)
  {
    if n > 0 && Unchanged(obs, n - 1) {
      StreakIsTrailingRun(obs, n - 1);
    }
  }

  /** A window of `hi - lo` unchanged iterations drives the try counter to at least its length. */
  lemma {:induction false} StreakCoversWindow(obs: seq<Observation>, lo: nat, hi: nat)
    requires lo <= hi <= |obs|
    requires AllUnchanged(obs, lo, hi)
    ensures Streak(obs, hi) >= hi - lo
    decreases hi
  {
    if lo < hi {
      StreakCoversWindow(obs, lo, hi - 1);
    }
  }

  /** No window of unchanged iterations within the first `n` is longer than a bound on the counter. */
  lemma WindowsWithinBound(obs: seq<Observation>, n: nat, bound: nat)
    requires n <= |obs|
    requires forall k :: 0 <= k <= n ==> Streak(obs, k) <= bound
    ensures forall lo, hi :: 0 <= lo <= hi <= n && AllUnchanged(obs, lo, hi) ==> hi - lo <= bound
  {
    forall lo, hi | 0 <= lo <= hi <= n && AllUnchanged(obs, lo, hi)
      ensures hi - lo <= bound
    {
      StreakCoversWindow(obs, lo, hi);
    }
  }

  /**
   * If the counter stayed within `maxAttempts` before the `n`-th iteration,
   * there is no window of `maxAttempts + 1` unchanged iterations ending before `n`.
   */
  lemma LongWindowEndsLoop(obs: seq<Observation>, n: nat, maxAttempts: nat)
    requires n <= |obs|
    requires forall k :: 0 <= k < n ==> Streak(obs, k) <= maxAttempts
    ensures forall lo, hi :: 0 <= lo <= hi <= |obs| && hi - lo == maxAttempts + 1 && AllUnchanged(obs, lo, hi) ==> n <= hi
  {
    forall lo, hi | 0 <= lo <= hi <= |obs| && hi - lo == maxAttempts + 1 && AllUnchanged(obs, lo, hi)
      ensures n <= hi
    {
      StreakCoversWindow(obs, lo, hi);
    }
  }

  /**
   * The expansion loop. `visibleAtStart` is the visibility read before the
   * loop (line 25); iteration `i` reads `obs[i]`. Returns how many iterations
   * ran, why the loop stopped, and the final values of
   * `currentLoadMoreTryCount`, `previousDownloadButtonCount` and
   * `currentDownloadButtonCount`.
   */
  method Expand(visibleAtStart: bool, obs: seq<Observation>, maxAttempts: nat)
    returns (iterations: nat, exit: Exit, tries: nat, previous: nat, current: nat)
    ensures iterations <= |obs|
    ensures iterations > 0 ==> visibleAtStart
    // the counter obeys the reset/increment rule, and `previous` caught up with `current`
    ensures tries == Streak(obs, iterations)
    ensures current == (if iterations == 0 then 0 else obs[iterations - 1].count)
    ensures previous == current
    // every iteration but the last saw the control visible and kept the counter within the budget
    ensures forall k :: 0 <= k < iterations - 1 ==> obs[k].visible
    ensures forall k :: 0 <= k < iterations ==> Streak(obs, k) <= maxAttempts
    // the three ways out
    ensures exit == Stagnated <==> iterations > 0 && Streak(obs, iterations) > maxAttempts
    ensures exit == Hidden <==>
      if iterations == 0 then !visibleAtStart
      else !obs[iterations - 1].visible && Streak(obs, iterations) <= maxAttempts
    ensures exit == OutOfObservations <==>
      iterations == |obs| &&
      if iterations == 0 then visibleAtStart
      else obs[iterations - 1].visible && Streak(obs, iterations) <= maxAttempts
    // never more than maxAttempts + 1 consecutive iterations without a change
    ensures forall lo, hi :: 0 <= lo <= hi <= iterations && AllUnchanged(obs, lo, hi) ==> hi - lo <= maxAttempts + 1
    // maxAttempts + 1 unchanged observations in a row stop the loop, whatever the visibility says
    ensures forall lo, hi :: 0 <= lo <= hi <= |obs| && hi - lo == maxAttempts + 1 && AllUnchanged(obs, lo, hi) ==> iterations <= hi
  {
    var isNotHidden := visibleAtStart;
    iterations, exit, tries, previous, current := 0, Hidden, 0, 0, 0;
    while isNotHidden
      invariant iterations <= |obs|
      invariant iterations > 0 ==> visibleAtStart
      invariant isNotHidden == (if iterations == 0 then visibleAtStart else obs[iterations - 1].visible)
      invariant tries == Streak(obs, iterations) && tries <= maxAttempts
      invariant current == (if iterations == 0 then 0 else obs[iterations - 1].count)
      invariant previous == current
      invariant forall k :: 0 <= k < iterations - 1 ==> obs[k].visible
      invariant forall k :: 0 <= k <= iterations ==> Streak(obs, k) <= maxAttempts
      invariant exit == Hidden
      decreases |obs| - iterations
    {
      if iterations == |obs| {
        exit := OutOfObservations;
        break;
      }
      current := obs[iterations].count;
      isNotHidden := obs[iterations].visible;
      if current == previous {
        tries := tries + 1;
      } else {
        tries := 0;
      }
      iterations := iterations + 1;
      if tries > maxAttempts {
        exit := Stagnated;
        break;
      }
      previous := current;
    }
    WindowsWithinBound(obs, iterations, maxAttempts + 1);
    LongWindowEndsLoop(obs, iterations, maxAttempts);
  }
}
