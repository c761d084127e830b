/** Properties of whole runs of the match-sync poller: what every reachable state
    keeps, how close two provider calls may be, how long a pause may sleep, and how
    soon an overdue match is looked at. */
module MatchSyncRuns {
  import opened Wrappers
  import opened MatchSync

  type Run = seq<Tick>

  /** State before tick `n` of a run that starts in a fresh process. */
  ghost function StateAt(run: Run, n: nat): State
    requires n <= |run|
  {
    if n == 0 then INITIAL else Step(StateAt(run, n - 1), run[n - 1])
  }

  predicate ClocksInOrder(i: Tick) {
    i.pauseClock <= i.resumeScanClock <= i.gateClock <= i.storeClock
      <= i.suspendScanClock <= i.suspendClock
  }

  /** The clock never runs backwards, neither inside a tick nor from tick to tick. */
  predicate Ordered(run: Run) {
    && (forall k | 0 <= k < |run| :: ClocksInOrder(run[k]))
    && (forall j, k | 0 <= j < k < |run| :: run[j].suspendClock <= run[k].pauseClock)
  }

  ghost predicate PollsAt(run: Run, k: nat)
    requires k < |run|
  {
    Polls(StateAt(run, k), run[k])
  }

  /** A provider call that succeeded and saw no live match. */
  ghost predicate ZeroPollAt(run: Run, k: nat)
    requires k < |run|
  {
    PollsAt(run, k) && run[k].poll.PollOk? && run[k].poll.liveCount == 0
  }

  ghost predicate SuspendsAt(run: Run, k: nat)
    requires k < |run|
  {
    PollsAt(run, k) && StateAt(run, k + 1).paused
  }

  // ---- what every reachable state keeps ----

  predicate Invariant(s: State) {
    && s.zeroCount >= 0 && s.lastLiveCount >= 0 && s.lastPoll >= 0
    && (!s.paused ==> s.resumeAt == 0)
    && (s.zeroCount > 0 ==> s.lastLiveCount == 0 && s.lastPoll > 0)
    && (s.paused ==> s.zeroCount >= 1)
  }

  lemma {:induction false} ReachableInvariant(run: Run, n: nat)
    requires n <= |run|
    ensures Invariant(StateAt(run, n))
  {
    if n > 0 {
      ReachableInvariant(run, n - 1);
    }
  }

  /** While the threshold stays at or above `threshold`, a paused poller has counted
      that many zero-live polls. */
  lemma {:induction false} PausedMeetsThreshold(run: Run, n: nat, threshold: int)
    requires n <= |run| && StateAt(run, n).paused
    requires forall k | 0 <= k < n :: run[k].stopThreshold >= threshold
    ensures StateAt(run, n).zeroCount >= threshold
  {
    if StateAt(run, n - 1).paused {
      PausedMeetsThreshold(run, n - 1, threshold);
    }
  }

  /** Number of zero-live polls among ticks lo..hi. */
  ghost function CountZeroPolls(run: Run, lo: nat, hi: nat): nat
    requires lo <= hi <= |run|
  {
    if lo == hi then 0
    else CountZeroPolls(run, lo, hi - 1) + if ZeroPollAt(run, hi - 1) then 1 else 0
  }

  /** The tick resumes from a pause, which clears the counter before any poll. */
  ghost predicate ResumesAt(run: Run, k: nat)
    requires k < |run|
  {
    run[k].enabled && StateAt(run, k).paused && !PauseHolds(StateAt(run, k), run[k])
  }

  /** The tick clears the counter after its poll: a live match, or an overdue match
      found when the threshold is reached. */
  ghost predicate ClearsAt(run: Run, k: nat)
    requires k < |run|
  {
    && PollsAt(run, k) && run[k].poll.PollOk?
    && var seen := AfterPauseCheck(StateAt(run, k), run[k]).zeroCount + 1;
       run[k].poll.liveCount > 0
       || (seen >= run[k].stopThreshold
           && HasOverdue(Candidates(run[k].suspendListing), run[k].suspendScanClock))
  }

  /** `start` is where the counter was last cleared before tick `n`. */
  ghost predicate IsLastReset(run: Run, start: nat, n: nat)
    requires start <= n <= |run|
  {
    && (start == 0 || ClearsAt(run, start - 1) || (start < n && ResumesAt(run, start)))
    && (forall k | start <= k < n :: !ClearsAt(run, k))
    && (forall k | start < k < n :: !ResumesAt(run, k))
  }

  /** The counter is the number of successful zero-live polls since its last reset:
      skipped ticks and failed polls neither advance it nor clear it. */
  lemma {:induction false} CounterCountsPolls(run: Run, n: nat) returns (start: nat)
    requires n <= |run|
    ensures start <= n && IsLastReset(run, start, n)
    ensures StateAt(run, n).zeroCount == CountZeroPolls(run, start, n)
  {
    if n == 0 {
      start := 0;
    } else if ClearsAt(run, n - 1) {
      start := n;
    } else if ResumesAt(run, n - 1) {
      start := n - 1;
      assert CountZeroPolls(run, n - 1, n - 1) == 0;
    } else {
      start := CounterCountsPolls(run, n - 1);
    }
  }

  // ---- rate limit ----

  /** After a zero-live poll the gate stays armed with its time until another
      provider call is made, and that call is at least `slow` seconds later. */
  lemma {:induction false} GateStaysArmed(run: Run, slow: int, i: nat, j: nat)
    requires Ordered(run) && i < j <= |run| && ZeroPollAt(run, i)
    requires forall k | i < k < |run| :: run[k].slowSec >= slow
    ensures var s := StateAt(run, j); var stored := Unix(run[i].storeClock);
            || (s.lastLiveCount == 0 && s.lastPoll == stored)
            || Unix(run[j - 1].suspendClock) >= stored + slow
  {
    if i + 1 < j {
      GateStaysArmed(run, slow, i, j - 1);
    }
  }

  /** No provider call starts less than `slow` seconds after a zero-live poll, across
      pauses, early resumes and failed polls. */
  lemma RateLimit(run: Run, slow: int, i: nat, j: nat)
    requires Ordered(run) && i < j < |run| && ZeroPollAt(run, i) && PollsAt(run, j)
    requires forall k | i < k < |run| :: run[k].slowSec >= slow
    ensures Unix(run[j].gateClock) >= Unix(run[i].storeClock) + slow
  {
    GateStaysArmed(run, slow, i, j);
  }

  /** Successful zero-live polls record times at least `slow` seconds apart. */
  ghost predicate Apart(run: Run, slow: int) {
    forall i, j | 0 <= i < j < |run| && ZeroPollAt(run, i) && ZeroPollAt(run, j) ::
      Unix(run[i].storeClock) + slow <= Unix(run[j].storeClock)
  }

  lemma ZeroPollsApart(run: Run, slow: int)
    requires Ordered(run)
    requires forall k | 0 <= k < |run| :: run[k].slowSec >= slow
    ensures Apart(run, slow)
  {
    forall i, j | 0 <= i < j < |run| && ZeroPollAt(run, i) && ZeroPollAt(run, j)
      ensures Unix(run[i].storeClock) + slow <= Unix(run[j].storeClock)
    {
      RateLimit(run, slow, i, j);
      assert ClocksInOrder(run[j]);
    }
  }

  /** Among ticks lo..hi, n + 1 zero-live polls stretch over at least n * slow seconds. */
  lemma {:induction false} ZeroPollsAreSpread(run: Run, slow: nat, lo: nat, hi: nat, n: nat)
    returns (first: nat, last: nat)
    requires Apart(run, slow) && lo <= hi <= |run| && CountZeroPolls(run, lo, hi) == n + 1
    ensures lo <= first <= last < hi && ZeroPollAt(run, first) && ZeroPollAt(run, last)
    ensures n * slow <= Unix(run[last].storeClock) - Unix(run[first].storeClock)
    decreases hi
  {
    if !ZeroPollAt(run, hi - 1) {
      first, last := ZeroPollsAreSpread(run, slow, lo, hi - 1, n);
    } else if n == 0 {
      first, last := hi - 1, hi - 1;
    } else {
      var previous;
      first, previous := ZeroPollsAreSpread(run, slow, lo, hi - 1, n - 1);
      last := hi - 1;
      OneMore(n - 1, slow);
    }
  }

  /** Any window of `length` seconds holds at most length / slow + 1 zero-live polls. */
  lemma ZeroPollsInWindow(run: Run, slow: nat, lo: nat, hi: nat, length: nat)
    requires slow > 0 && Ordered(run) && lo <= hi <= |run|
    requires forall k | 0 <= k < |run| :: run[k].slowSec >= slow
    requires forall j, k | lo <= j <= k < hi && ZeroPollAt(run, j) && ZeroPollAt(run, k) ::
               Unix(run[k].storeClock) - Unix(run[j].storeClock) <= length
    ensures CountZeroPolls(run, lo, hi) <= length / slow + 1
  {
    var n := CountZeroPolls(run, lo, hi);
    if n >= 1 {
      ZeroPollsApart(run, slow);
      var first, last := ZeroPollsAreSpread(run, slow, lo, hi, n - 1);
      assert (n - 1) * slow <= length;
      QuotientBound(n - 1, slow, length);
    }
  }

  lemma OneMore(n: int, d: int)
    ensures (n + 1) * d == n * d + d
  {
  }

  lemma MulMonotone(a: int, b: int, d: nat)
    requires a <= b
    ensures a * d <= b * d
  {
  }

  lemma QuotientBound(n: nat, d: nat, length: nat)
    requires d > 0 && n * d <= length
    ensures n <= length / d
  {
    if n > length / d {
      MulMonotone(length / d + 1, n, d);
    }
  }

  // ---- pauses ----

  /** The wake-up time lies at or before the pre-match window of every scheduled match. */
  predicate WakesInTime(resumeAt: int, ms: seq<Match>, window: int) {
    forall m | m in ms && m.status.Scheduled? :: resumeAt <= Unix(m.kickoffAt) - 60 * window
  }

  predicate NoneScheduled(ms: seq<Match>) {
    forall m | m in ms :: !m.status.Scheduled?
  }

  /** The wake-up time is the start of some scheduled match's pre-match window. */
  predicate WakesAtAWindow(resumeAt: int, ms: seq<Match>, window: int) {
    exists m | m in ms :: m.status.Scheduled? && resumeAt == Unix(m.kickoffAt) - 60 * window
  }

  /** What a suspension decides. With a listing that answered, no scheduled match is
      overdue and the wake-up is the start of the earliest pre-match window, or nothing is
      scheduled and the sleep is pauseSec; a failed listing is handled as "nothing
      scheduled". */
  lemma SuspensionDecision(run: Run, k: nat)
    requires Ordered(run) && k < |run| && SuspendsAt(run, k)
    ensures var i := run[k]; var resumeAt := StateAt(run, k + 1).resumeAt;
            var ms := Candidates(i.suspendListing);
            && ZeroPollAt(run, k)
            && !HasOverdue(ms, i.suspendScanClock)
            && WakesInTime(resumeAt, ms, i.prematchWindow)
            && (if NoneScheduled(ms) then resumeAt == Unix(i.suspendClock) + i.pauseSec
                else resumeAt > Unix(i.suspendClock) && WakesAtAWindow(resumeAt, ms, i.prematchWindow))
  {
    var i := run[k];
    var ms := Candidates(i.suspendListing);
    var next := NextKickoff(ms, i.suspendScanClock);
    NextKickoffIsUnique(ms, i.suspendScanClock, next);
    if !NoneScheduled(ms) {
      assert HasUpcoming(ms, i.suspendScanClock) by {
        var m :| m in ms && m.status.Scheduled?;
        assert IsOverdue(m, i.suspendScanClock) || IsUpcoming(m, i.suspendScanClock);
      }
      var m :| m in ms && IsUpcoming(m, i.suspendScanClock) && m.kickoffAt == next;
    }
  }

  /** Suspension happens exactly when a zero-live poll meets the threshold, no listed match
      is overdue, and every listed match to come is still ahead of its pre-match window. */
  lemma SuspendsExactlyWhen(run: Run, k: nat)
    requires Ordered(run) && k < |run|
    ensures SuspendsAt(run, k) <==>
            && ZeroPollAt(run, k)
            && AfterPauseCheck(StateAt(run, k), run[k]).zeroCount + 1 >= run[k].stopThreshold
            && !HasOverdue(Candidates(run[k].suspendListing), run[k].suspendScanClock)
            && AheadOfWindows(Candidates(run[k].suspendListing), run[k])
  {
    var i, ms := run[k], Candidates(run[k].suspendListing);
    ReachableInvariant(run, k);
    NextIsAhead(ms, i);
    assert !AfterPauseCheck(StateAt(run, k), i).paused || PauseHolds(StateAt(run, k), i);
  }

  predicate AheadOfWindows(ms: seq<Match>, i: Tick) {
    forall m | m in ms && IsUpcoming(m, i.suspendScanClock) ::
      Unix(m.kickoffAt) - 60 * i.prematchWindow > Unix(i.suspendClock)
  }

  /** Looking at the earliest kickoff alone is enough. */
  lemma NextIsAhead(ms: seq<Match>, i: Tick)
    ensures var next := NextKickoff(ms, i.suspendScanClock);
            AheadOfWindows(ms, i) <==>
            next == ZERO_TIME || Unix(next) - i.prematchWindow * 60 > Unix(i.suspendClock)
  {
    var next := NextKickoff(ms, i.suspendScanClock);
    NextKickoffIsUnique(ms, i.suspendScanClock, next);
    if next != ZERO_TIME {
      var m :| m in ms && IsUpcoming(m, i.suspendScanClock) && m.kickoffAt == next;
    }
  }

  /** A paused state goes back to one suspension whose wake-up time it still holds. */
  lemma {:induction false} PauseOrigin(run: Run, n: nat) returns (k: nat)
    requires n <= |run| && StateAt(run, n).paused
    ensures k < n && SuspendsAt(run, k)
    ensures StateAt(run, k + 1) == StateAt(run, n)
  {
    if SuspendsAt(run, n - 1) {
      k := n - 1;
    } else {
      k := PauseOrigin(run, n - 1);
    }
  }

  /** A pause never sleeps through a pre-match window its own listing knew of: every
      tick skipped by the pause lies before the window of every match that was
      scheduled when the pause began. When nothing was scheduled, or the listing
      failed, the tick lies within pauseSec of the suspension instead. */
  lemma PauseNeverOversleeps(run: Run, n: nat) returns (k: nat)
    requires Ordered(run) && n < |run|
    requires OutcomeOf(StateAt(run, n), run[n]) == SkippedByPause
    ensures k < n && SuspendsAt(run, k)
    ensures var began := run[k]; var ms := Candidates(began.suspendListing);
            && (forall m | m in ms && m.status.Scheduled? ::
                  Unix(run[n].pauseClock) < Unix(m.kickoffAt) - 60 * began.prematchWindow)
            && (NoneScheduled(ms) ==>
                  Unix(run[n].pauseClock) < Unix(began.suspendClock) + began.pauseSec)
  {
    k := PauseOrigin(run, n);
    SuspensionDecision(run, k);
  }

  /** With respect to the matches `db` really in the database, a suspension wakes up
      in time exactly when its listing answered, or when the fixed pause that follows
      a failed listing happens to end before every pre-match window. */
  lemma WakesInTimeExactlyWhen(run: Run, k: nat, db: seq<Match>)
    requires Ordered(run) && k < |run| && SuspendsAt(run, k)
    requires run[k].suspendListing in {None, Some(db)}
    ensures WakesInTime(StateAt(run, k + 1).resumeAt, db, run[k].prematchWindow)
        <==> (run[k].suspendListing.Some?
              || WakesInTime(Unix(run[k].suspendClock) + run[k].pauseSec, db, run[k].prematchWindow))
  {
    SuspensionDecision(run, k);
  }

  /** One zero-live poll at second `at` that meets a threshold of one. */
  function SuspendingTick(at: int, listing: Listing): Tick
    requires at >= 1
  {
    var now: Instant := at * NANOS;
    Tick(true, 10, 300, 1, 300, now, None, now, now, PollOk(0), now, listing, now, now)
  }

  /** The failing family is not empty: a listing error makes the poller sleep 300 s
      although a match kicks off in 60 s. The ticks one second before and one second after
      the kickoff, whose own listings fail as well, are both skipped. */
  lemma FailedListingOversleeps()
    ensures var run := [SuspendingTick(1000, None), SuspendingTick(1059, None), SuspendingTick(1061, None)];
            var db := [Match(Scheduled, 1060 * NANOS)];
            && Ordered(run) && SuspendsAt(run, 0)
            && !WakesInTime(StateAt(run, 1).resumeAt, db, run[0].prematchWindow)
            && OutcomeOf(StateAt(run, 1), run[1]) == SkippedByPause
            && OutcomeOf(StateAt(run, 2), run[2]) == SkippedByPause
            && HasOverdue(db, run[2].pauseClock)
  {
    var run := [SuspendingTick(1000, None), SuspendingTick(1059, None), SuspendingTick(1061, None)];
    var db := [Match(Scheduled, 1060 * NANOS)];
    assert StateAt(run, 0) == INITIAL;
    assert StateAt(run, 1) == Step(INITIAL, run[0]);
    assert StateAt(run, 2) == Step(StateAt(run, 1), run[1]);
    assert db[0] in db && IsOverdue(db[0], run[2].pauseClock);
  }

  // ---- bounded detection ----

  /** This tick's listing answers and shows a linked match past its kickoff. */
  predicate ShowsOverdue(i: Tick) {
    i.enabled && i.resumeListing.Some? && HasOverdue(i.resumeListing.value, i.resumeScanClock)
  }

  /** Without a provider call, the recorded poll stays as it was. */
  lemma {:induction false} NoCallKeepsLastPoll(run: Run, k: nat, n: nat)
    requires k <= n <= |run|
    requires forall j | k <= j < n :: !PollsAt(run, j)
    ensures StateAt(run, n).lastPoll == StateAt(run, k).lastPoll
  {
    if k < n {
      NoCallKeepsLastPoll(run, k, n - 1);
      assert !PollsAt(run, n - 1);
    }
  }

  /** The recorded poll is never later than the last tick's own recording time. */
  lemma {:induction false} RecordedPollIsPast(run: Run, n: nat)
    requires Ordered(run) && n <= |run|
    ensures StateAt(run, n).lastPoll <= if n == 0 then 0 else Unix(run[n - 1].storeClock)
  {
    if n > 0 {
      RecordedPollIsPast(run, n - 1);
    }
  }

  /** Bounded detection. From second `since` on a linked match is overdue at every tick
      up to the deadline since + slow + gap, ticks are at most `gap` seconds apart, and
      the tick before had recorded its poll by `since`. Then the provider is called by
      the deadline, whatever the pause state was. */
  lemma BoundedDetection(run: Run, k: nat, since: int, slow: int, gap: int) returns (j: nat)
    requires Ordered(run) && k < |run| && slow >= 0
    requires 0 <= since && (k > 0 ==> Unix(run[k - 1].storeClock) <= since)
    requires Unix(run[k].gateClock) <= since + gap
    requires forall n | k < n < |run| :: Unix(run[n].gateClock) <= Unix(run[n - 1].gateClock) + gap
    requires Unix(run[|run| - 1].gateClock) >= since + slow
    requires forall n | k <= n < |run| && Unix(run[n].gateClock) <= since + slow + gap ::
               ShowsOverdue(run[n]) && run[n].slowSec <= slow
    ensures k <= j < |run| && PollsAt(run, j)
    ensures Unix(run[j].gateClock) <= since + slow + gap
  {
    j := k;
    while Unix(run[j].gateClock) < since + slow && !PollsAt(run, j)
      decreases |run| - j
      invariant k <= j < |run|
      invariant Unix(run[j].gateClock) <= since + slow + gap
      invariant forall n | k <= n < j :: !PollsAt(run, n)
    {
      j := j + 1;
    }
    NoCallKeepsLastPoll(run, k, j);
    RecordedPollIsPast(run, k);
  }

  /** An early resume does not bypass the slow-poll gate: a paused tick that is woken
      by an overdue match calls the provider in the same tick exactly when slowSec has
      passed since the recorded poll. */
  lemma EarlyResumePollsExactlyWhen(run: Run, k: nat)
    requires k < |run| && StateAt(run, k).paused && ShowsOverdue(run[k])
    ensures ResumesAt(run, k)
    ensures PollsAt(run, k) <==> Unix(run[k].gateClock) - StateAt(run, k).lastPoll >= run[k].slowSec
  {
    ReachableInvariant(run, k);
  }
}
