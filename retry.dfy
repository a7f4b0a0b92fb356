/**
 * `connectWithRetry` (bot.js:95-119): call the network operation until it
 * succeeds or `MAX_RETRIES` calls have failed, waiting `retries * 2000` ms
 * after each failure but the last.
 */
module Retry {
  import opened Wrappers

  /** `MAX_RETRIES` (bot.js:8). */
  const MaxRetries: nat := 3
  /** The backoff unit of bot.js:110: the wait after failure `r` is `r * 2000` ms. */
  const BackoffUnitMs: nat := 2000

  /**
   * What one run of the retry loop does: the value it returns (`None` for
   * JavaScript's `undefined`), how often it invoked the operation, and the
   * durations it asked `delay` for, in order.
   */
  datatype Run = Run(result: Option<bool>, attempts: nat, waits: seq<nat>)

  /** The index of the first invocation, among the first `limit`, that succeeds. */
  function FirstSuccess(succeeds: nat -> bool, limit: nat): (r: Option<nat>)
    ensures r.Some? ==> r.value < limit && succeeds(r.value) && forall j: nat :: j < r.value ==> !succeeds(j)
    ensures r.None? ==> forall j: nat :: j < limit ==> !succeeds(j)
    decreases limit
  {
    if limit == 0 then None
    else match FirstSuccess(succeeds, limit - 1)
      case Some(k) => Some(k)
      case None => if succeeds(limit - 1) then Some(limit - 1) else None
  }

  /** The waits after the first `n` failures: the i-th (from 1) is `i * unitMs`. */
  function Backoff(n: nat, unitMs: nat): (waits: seq<nat>)
    ensures |waits| == n
    ensures forall i :: 0 <= i < n ==> waits[i] == (i + 1) * unitMs
  {
    if n == 0 then [] else Backoff(n - 1, unitMs) + [n * unitMs]
  }

  function Sum(s: seq<nat>): nat
  {
    if s == [] then 0 else Sum(s[..|s| - 1]) + s[|s| - 1]
  }

  /**
   * The run in closed form. With a first success at invocation k (from 0):
   * k + 1 invocations, k waits, result true. With none: `maxRetries`
   * invocations, one wait fewer, result false; with no budget at all the loop
   * body never runs and the function falls off its end.
   */
  function RetrySchedule(maxRetries: nat, unitMs: nat, succeeds: nat -> bool): Run
  {
    match FirstSuccess(succeeds, maxRetries)
    case Some(k) => Run(Some(true), k + 1, Backoff(k, unitMs))
    case None =>
      if maxRetries == 0 then Run(None, 0, [])
      else Run(Some(false), maxRetries, Backoff(maxRetries - 1, unitMs))
  }

  /**
   * The loop of bot.js:96-118. `succeeds(i)` is whether invocation `i` (from 0)
   * of the network operation completes; the waits are recorded instead of slept.
   */
  method ConnectWithRetry(maxRetries: nat, unitMs: nat, succeeds: nat -> bool)
    returns (result: Option<bool>, attempts: nat, waits: seq<nat>)
    ensures Run(result, attempts, waits) == RetrySchedule(maxRetries, unitMs, succeeds)
  {
    var retries: nat := 0;
    attempts, waits := 0, [];
    while retries < maxRetries
      invariant retries < maxRetries || retries == 0
      invariant attempts == retries
      invariant forall j: nat :: j < retries ==> !succeeds(j)
      invariant waits == Backoff(retries, unitMs)
      decreases maxRetries - retries
    {
      attempts := attempts + 1;
      if succeeds(retries) {
        assert FirstSuccess(succeeds, maxRetries) == Some(retries);
        return Some(true), attempts, waits;
      }
      retries := retries + 1;
      if retries < maxRetries {
        waits := waits + [retries * unitMs];
      } else {
        return Some(false), attempts, waits;
      }
    }
    return None, attempts, waits;
  }

  /**
   * With a budget of at least one, the operation is invoked at least once and at
   * most `maxRetries` times, the result is a boolean, and it is false exactly
   * when every one of the `maxRetries` invocations failed.
   */
  lemma RetryOutcome(maxRetries: nat, unitMs: nat, succeeds: nat -> bool)
    requires maxRetries >= 1
    ensures var run := RetrySchedule(maxRetries, unitMs, succeeds);
      && 1 <= run.attempts <= maxRetries
      && run.result.Some?
      && (run.result == Some(false) <==> forall j: nat :: j < maxRetries ==> !succeeds(j))
      && (run.result == Some(false) ==> run.attempts == maxRetries)
  {
  }

  /** A true result comes from the first successful invocation, after exactly that many invocations. */
  lemma SuccessIsFirstSuccess(maxRetries: nat, unitMs: nat, succeeds: nat -> bool, k: nat)
    requires k < maxRetries && succeeds(k)
    requires forall j: nat :: j < k ==> !succeeds(j)
    ensures RetrySchedule(maxRetries, unitMs, succeeds).result == Some(true)
    ensures RetrySchedule(maxRetries, unitMs, succeeds).attempts == k + 1
    ensures RetrySchedule(maxRetries, unitMs, succeeds).waits == Backoff(k, unitMs)
  {
    var r := FirstSuccess(succeeds, maxRetries);
    assert r.Some? && r.value == k;
  }

  /**
   * One wait between consecutive invocations and none after the last: the i-th
   * wait (from 1) is `i * unitMs`.
   */
  lemma WaitsBetweenInvocations(maxRetries: nat, unitMs: nat, succeeds: nat -> bool)
    requires maxRetries >= 1
    ensures var run := RetrySchedule(maxRetries, unitMs, succeeds);
      && |run.waits| == run.attempts - 1
      && forall i :: 0 <= i < |run.waits| ==> run.waits[i] == (i + 1) * unitMs
  {
  }

  /** The arithmetic step of `BackoffTotal`: adding the n-th wait to twice the first n - 1. */
  lemma TriangleStep(unitMs: nat, n: nat)
    requires n > 0
    ensures unitMs * (n - 1) * n + 2 * (n * unitMs) == unitMs * n * (n + 1)
  {
  }

  /** Linear backoff: n waits add up to `unitMs * (1 + 2 + ... + n)`. */
  lemma {:induction false} BackoffTotal(n: nat, unitMs: nat)
    ensures 2 * Sum(Backoff(n, unitMs)) == unitMs * n * (n + 1)
  {
    if n > 0 {
      var prev := Backoff(n - 1, unitMs);
      assert Backoff(n, unitMs)[..n - 1] == prev;
      assert Sum(Backoff(n, unitMs)) == Sum(prev) + n * unitMs;
      BackoffTotal(n - 1, unitMs);
      TriangleStep(unitMs, n);
    }
  }

  /** With the constants of bot.js, an operation that always fails is tried 3 times with waits of 2 s and 4 s: 6 s in all. */
  lemma AlwaysFailingOperation()
    ensures RetrySchedule(MaxRetries, BackoffUnitMs, (i: nat) => false) == Run(Some(false), 3, [2000, 4000])
    ensures Sum(RetrySchedule(MaxRetries, BackoffUnitMs, (i: nat) => false).waits) == 6000
  {
    var never := (i: nat) => false;
    assert FirstSuccess(never, 3).None?;
    assert Backoff(2, 2000) == [2000, 4000];
    BackoffTotal(2, 2000);
  }

  /** An operation that succeeds at once is invoked once, with no wait. */
  lemma ImmediateSuccess(maxRetries: nat, unitMs: nat)
    requires maxRetries >= 1
    ensures RetrySchedule(maxRetries, unitMs, (i: nat) => true) == Run(Some(true), 1, [])
  {
    SuccessIsFirstSuccess(maxRetries, unitMs, (i: nat) => true, 0);
  }

  /** An operation that first succeeds on its second invocation: two invocations, one wait of one unit. */
  lemma SecondInvocationSucceeds(maxRetries: nat, unitMs: nat)
    requires maxRetries >= 2
    ensures RetrySchedule(maxRetries, unitMs, (i: nat) => i == 1) == Run(Some(true), 2, [unitMs])
  {
    SuccessIsFirstSuccess(maxRetries, unitMs, (i: nat) => i == 1, 1);
    assert Backoff(1, unitMs) == [unitMs];
  }
}
