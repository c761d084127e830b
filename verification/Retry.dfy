/** The two exponential-backoff loops: retrySnapshot of cmd/worker/handlers.go and
    publishWithRetry of cmd/worker/leaderboard_broadcaster.go. */
module Retry {
  const DEFAULT_SNAPSHOT_ATTEMPTS := 3
  const DEFAULT_PUBLISH_ATTEMPTS := 3
  const DEFAULT_PUBLISH_BASE_MS := 50

  /** What the environment does: which attempts succeed, and after which failed attempt
      the wait is cut short by the context. */
  type Answers = nat -> bool

  /** `calls` attempts were made, `waited` is the sum of the completed waits. */
  datatype Outcome = Outcome(calls: nat, waited: nat, succeeded: bool, cancelled: bool)

  function Pow2(n: nat): (p: nat)
    ensures p >= 1
  {
    if n == 0 then 1 else 2 * Pow2(n - 1)
  }

  /** A configured value, or its default where it is not positive. */
  function Positive(n: int, default: nat): (r: nat)
    ensures (n > 0 ==> r == n) && (n <= 0 ==> r == default)
  {
    if n <= 0 then default else n
  }

  /** The meaning of a retry loop of at most `max` attempts starting at `base`: the
      first success ends it, otherwise a cancelled wait or the last attempt does, and
      every completed wait doubles the one before. */
  ghost predicate IsRetry(ok: Answers, cut: Answers, max: nat, base: nat, r: Outcome) {
    && 1 <= r.calls <= max
    && (forall a | 1 <= a < r.calls :: !ok(a) && !cut(a))
    && r.succeeded == ok(r.calls)
    && r.cancelled == (!ok(r.calls) && r.calls < max && cut(r.calls))
    && (r.succeeded || r.cancelled || r.calls == max)
    && r.waited == base * (Pow2(r.calls - 1) - 1)
  }

  lemma DoubleOnce(base: nat, n: nat)
    ensures base * (Pow2(n) - 1) + base * Pow2(n) == base * (Pow2(n + 1) - 1)
    ensures base * Pow2(n) * 2 == base * Pow2(n + 1)
  {
    var p := Pow2(n);
    assert base * (2 * p) == base * p * 2;
  }

  method RetrySnapshot(ok: Answers, done: Answers, retryBase: nat, configured: int) returns (r: Outcome)
    // The configured limit is the one that holds, unless it is not positive.
    ensures configured > 0 ==> IsRetry(ok, done, configured, retryBase, r)
    ensures configured <= 0 ==> IsRetry(ok, done, DEFAULT_SNAPSHOT_ATTEMPTS, retryBase, r)
  {
    r := Outcome(0, 0, false, false);
    var backoff := retryBase;
    var maxAttempts := configured;
    if maxAttempts <= 0 {
      maxAttempts := DEFAULT_SNAPSHOT_ATTEMPTS;
    }
    var attempt, waited := 1, 0;
    while attempt <= maxAttempts
      invariant 1 <= attempt <= maxAttempts
      invariant forall a | 1 <= a < attempt :: !ok(a) && !done(a)
      invariant backoff == retryBase * Pow2(attempt - 1)
      invariant waited == retryBase * (Pow2(attempt - 1) - 1)
      decreases maxAttempts - attempt
    {
      if ok(attempt) {
        return Outcome(attempt, waited, true, false);
      } else if attempt == maxAttempts {
        return Outcome(attempt, waited, false, false);
      }
      if done(attempt) {
        return Outcome(attempt, waited, false, true);
      }
      DoubleOnce(retryBase, attempt - 1);
      waited := waited + backoff;
      backoff := backoff * 2;
      attempt := attempt + 1;
    }
  }

  method PublishWithRetry(ok: Answers, done: Answers, configuredBase: int, configured: int) returns (r: Outcome)
    ensures IsRetry(ok, done, Positive(configured, DEFAULT_PUBLISH_ATTEMPTS),
                    Positive(configuredBase, DEFAULT_PUBLISH_BASE_MS), r)
  {
    r := Outcome(0, 0, false, false);
    var maxAttempts := Positive(configured, DEFAULT_PUBLISH_ATTEMPTS);
    var baseDelay := Positive(configuredBase, DEFAULT_PUBLISH_BASE_MS);
    var delay, waited := baseDelay, 0;
    for attempt := 1 to maxAttempts + 1
      invariant attempt <= maxAttempts
      invariant forall a | 1 <= a < attempt :: !ok(a) && !done(a)
      invariant delay == baseDelay * Pow2(attempt - 1)
      invariant waited == baseDelay * (Pow2(attempt - 1) - 1)
    {
      if ok(attempt) {
        return Outcome(attempt, waited, true, false);
      }
      if attempt == maxAttempts {
        return Outcome(attempt, waited, false, false);
      }
      if done(attempt) {
        return Outcome(attempt, waited, false, true);
      }
      DoubleOnce(baseDelay, attempt - 1);
      waited := waited + delay;
      delay := delay * 2;
    }
  }

  /** The loop ends at the first attempt that succeeds, whose wait is cut, or that is the last. */
  lemma RetryStopsAt(ok: Answers, cut: Answers, max: nat, base: nat, r: Outcome, n: nat)
    requires IsRetry(ok, cut, max, base, r)
    requires 1 <= n <= max && (ok(n) || cut(n) || n == max)
    requires forall a | 1 <= a < n :: !ok(a) && !cut(a)
    ensures r.calls == n && r.succeeded == ok(n)
  {
  }

  /** The meaning determines the outcome: two loops given the same answers agree. */
  lemma RetryIsDetermined(ok: Answers, cut: Answers, max: nat, base: nat, r: Outcome, q: Outcome)
    requires IsRetry(ok, cut, max, base, r) && IsRetry(ok, cut, max, base, q)
    ensures r == q
  {
    RetryStopsAt(ok, cut, max, base, r, q.calls);
  }

  lemma {:induction false} Pow2Monotone(m: nat, n: nat)
    requires m <= n
    ensures Pow2(m) <= Pow2(n)
  {
    if m < n {
      Pow2Monotone(m, n - 1);
    }
  }

  /** Uncancelled, the loop succeeds exactly when one of its attempts would, and it never
      waits longer than base * (2^(max-1) - 1): the documented 3 * base for three. */
  lemma RetryGuarantee(ok: Answers, cut: Answers, max: nat, base: nat, r: Outcome)
    requires IsRetry(ok, cut, max, base, r) && !r.cancelled
    ensures r.succeeded <==> exists a | 1 <= a <= max :: ok(a)
    ensures r.waited <= base * (Pow2(max - 1) - 1)
    ensures max == 3 ==> r.waited <= 3 * base
    ensures max == 3 && !r.succeeded ==> r.waited == 3 * base
  {
    Pow2Monotone(r.calls - 1, max - 1);
    var small, large := Pow2(r.calls - 1) - 1, Pow2(max - 1) - 1;
    assert base * small <= base * large;
    if max == 3 {
      assert Pow2(2) == 4;
    }
  }
}
