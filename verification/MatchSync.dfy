/** The adaptive match-sync poller of cmd/worker/match_sync_job.go: one value of
    the five atomics per state, one `Step` per scheduler tick, and the imperative
    job proved to perform exactly that step.

    Instants are nanoseconds since the Unix epoch, as Go's `time.Time` keeps them;
    the atomics hold whole seconds, so the truncation of `Unix()` is explicit. */
module MatchSync {
  import opened Wrappers

  const NANOS := 1_000_000_000

  /** A reading of the wall clock: not before the first second of 1970, so a stored
      poll time is never confused with the "never polled" value 0. */
  type Instant = t: int | NANOS <= t witness NANOS

  /** Go's zero `time.Time`, 0001-01-01 00:00:00 UTC. */
  const ZERO_TIME := -62_135_596_800 * NANOS

  function Unix(t: int): int { t / NANOS }

  datatype MatchStatus = Scheduled | Live | Finished | Cancelled

  datatype Match = Match(status: MatchStatus, kickoffAt: int)

  /** Result of ListSyncCandidates: None when the query failed. */
  type Listing = Option<seq<Match>>

  datatype Poll = PollFailed | PollOk(liveCount: nat)

  datatype State = State(
    lastLiveCount: int, lastPoll: int, zeroCount: int, paused: bool, resumeAt: int)

  const INITIAL := State(0, 0, 0, false, 0)

  /** Everything the environment answers during one tick: the parameters, each
      reading of the clock in program order, both candidate listings, the provider. */
  datatype Tick = Tick(
    enabled: bool, prematchWindow: int, slowSec: int, stopThreshold: int, pauseSec: int,
    pauseClock: Instant, resumeListing: Listing, resumeScanClock: Instant,
    gateClock: Instant, poll: Poll, storeClock: Instant,
    suspendListing: Listing, suspendScanClock: Instant, suspendClock: Instant)

  datatype Outcome = Disabled | SkippedByPause | SkippedBySlowGate | Attempted

  // ---- what the candidate scan means ----

  predicate IsOverdue(m: Match, now: int) { m.status.Scheduled? && m.kickoffAt <= now }

  predicate IsUpcoming(m: Match, now: int) { m.status.Scheduled? && m.kickoffAt > now }

  predicate HasOverdue(ms: seq<Match>, now: int) {
    exists m | m in ms :: IsOverdue(m, now)
  }

  predicate HasUpcoming(ms: seq<Match>, now: int) {
    exists m | m in ms :: IsUpcoming(m, now)
  }

  /** `t` is the earliest future kickoff among the scheduled matches, or the zero
      time when there is none. */
  ghost predicate IsNextKickoff(ms: seq<Match>, now: int, t: int) {
    && (forall m | m in ms && IsUpcoming(m, now) :: t <= m.kickoffAt)
    && if HasUpcoming(ms, now) then exists m | m in ms :: IsUpcoming(m, now) && m.kickoffAt == t
       else t == ZERO_TIME
  }

  /** The earliest upcoming kickoff, computed as the scan does. */
  function NextKickoff(ms: seq<Match>, now: Instant): (t: int)
    ensures IsNextKickoff(ms, now, t)
    ensures t == ZERO_TIME || t > now
  {
    if ms == [] then ZERO_TIME
    else
      var init, m := ms[..|ms| - 1], ms[|ms| - 1];
      var t := NextKickoff(init, now);
      assert ms == init + [m];
      if !IsUpcoming(m, now) then t
      else if t == ZERO_TIME || m.kickoffAt < t then m.kickoffAt
      else t
  }

  function Candidates(l: Listing): seq<Match> { if l.Some? then l.value else [] }

  // ---- one tick ----

  function Reset(s: State): State { s.(paused := false, zeroCount := 0, resumeAt := 0) }

  /** The tick is skipped because the pause still holds. */
  predicate PauseHolds(s: State, i: Tick) {
    && s.paused
    && Unix(i.pauseClock) < s.resumeAt
    && !HasOverdue(Candidates(i.resumeListing), i.resumeScanClock)
  }

  function AfterPauseCheck(s: State, i: Tick): State {
    if s.paused && !PauseHolds(s, i) then Reset(s) else s
  }

  /** The slow-poll gate: no live match was seen and the last poll is too recent. */
  predicate GateCloses(s: State, i: Tick) {
    s.lastLiveCount == 0 && s.lastPoll > 0 && Unix(i.gateClock) - s.lastPoll < i.slowSec
  }

  /** PollAndApply is called during this tick. */
  predicate Polls(s: State, i: Tick) {
    i.enabled && !PauseHolds(s, i) && !GateCloses(AfterPauseCheck(s, i), i)
  }

  function OutcomeOf(s: State, i: Tick): Outcome {
    if !i.enabled then Disabled
    else if PauseHolds(s, i) then SkippedByPause
    else if !Polls(s, i) then SkippedBySlowGate
    else Attempted
  }

  /** State after a successful zero-live poll, from the already recorded poll. */
  function Suspend(s: State, i: Tick): State {
    var counted := s.(zeroCount := s.zeroCount + 1);
    var ms := Candidates(i.suspendListing);
    if counted.zeroCount < i.stopThreshold then counted
    else if HasOverdue(ms, i.suspendScanClock) then counted.(zeroCount := 0)
    else
      var next := NextKickoff(ms, i.suspendScanClock);
      if next == ZERO_TIME then
        counted.(paused := true, resumeAt := Unix(i.suspendClock + i.pauseSec * NANOS))
      else
        var resumeAt := Unix(next) - i.prematchWindow * 60;
        if resumeAt <= Unix(i.suspendClock) then counted
        else counted.(paused := true, resumeAt := resumeAt)
  }

  function Step(s: State, i: Tick): State {
    if !i.enabled then s
    else
      var r := AfterPauseCheck(s, i);
      if !Polls(s, i) || i.poll.PollFailed? then r
      else
        var p := r.(lastLiveCount := i.poll.liveCount, lastPoll := Unix(i.storeClock));
        if i.poll.liveCount > 0 then p.(zeroCount := 0) else Suspend(p, i)
  }

  // ---- the job as the source writes it ----

  class MatchSyncState {
    var lastLiveCount: int
    var lastPollUnixSec: int
    var consecutiveZeroCount: int
    var pollingPaused: bool
    var resumeAtUnix: int

    ghost function Abs(): State
      reads this
    {
      State(lastLiveCount, lastPollUnixSec, consecutiveZeroCount, pollingPaused, resumeAtUnix)
    }

    constructor ()
      ensures Abs() == INITIAL
    {
      lastLiveCount, lastPollUnixSec, consecutiveZeroCount := 0, 0, 0;
      pollingPaused, resumeAtUnix := false, 0;
    }

    method ResetPauseState()
      modifies this
      ensures Abs() == Reset(old(Abs()))
    {
      pollingPaused := false;
      consecutiveZeroCount := 0;
      resumeAtUnix := 0;
    }

    /** A failed listing is indistinguishable from an empty one. */
    static method NextScheduledMatchKickoff(listing: Listing, now: Instant)
      returns (next: int, found: bool, hasOverdue: bool)
      ensures hasOverdue == HasOverdue(Candidates(listing), now)
      ensures found == HasUpcoming(Candidates(listing), now)
      ensures IsNextKickoff(Candidates(listing), now, next)
    {
      next, hasOverdue := ZERO_TIME, false;
      if listing.None? {
        return ZERO_TIME, false, false;
      }
      var candidates := listing.value;
      for k := 0 to |candidates|
        invariant hasOverdue == HasOverdue(candidates[..k], now)
        invariant next == NextKickoff(candidates[..k], now)
      {
        var m := candidates[k];
        assert candidates[..k + 1] == candidates[..k] + [m];
        assert candidates[..k + 1][..k] == candidates[..k];
        assert forall x :: x in candidates[..k + 1] <==> x in candidates[..k] || x == m;
        if !m.status.Scheduled? {
          assert hasOverdue == HasOverdue(candidates[..k + 1], now);
        } else if m.kickoffAt <= now {
          assert IsOverdue(m, now);
          hasOverdue := true;
        } else if next == ZERO_TIME || m.kickoffAt < next {
          next := m.kickoffAt;
        }
      }
      assert candidates[..|candidates|] == candidates;
      found := next != ZERO_TIME;
    }

    method HandlePauseResume(i: Tick) returns (skip: bool)
      modifies this
      ensures skip == PauseHolds(old(Abs()), i)
      ensures Abs() == AfterPauseCheck(old(Abs()), i)
    {
      if !pollingPaused {
        return false;
      }
      var resumeAt := resumeAtUnix;
      if Unix(i.pauseClock) >= resumeAt {
        ResetPauseState();
        return false;
      }
      var _, _, hasOverdue := NextScheduledMatchKickoff(i.resumeListing, i.resumeScanClock);
      if hasOverdue {
        ResetPauseState();
        return false;
      }
      return true;
    }

    method SuspendPollingIfThresholdReached(i: Tick)
      modifies this
      ensures Abs() == Suspend(old(Abs()), i)
    {
      consecutiveZeroCount := consecutiveZeroCount + 1;
      if consecutiveZeroCount < i.stopThreshold {
        return;
      }
      var nextKickoff, found, hasOverdue := NextScheduledMatchKickoff(i.suspendListing, i.suspendScanClock);
      NextKickoffIsUnique(Candidates(i.suspendListing), i.suspendScanClock, nextKickoff);
      if hasOverdue {
        consecutiveZeroCount := 0;
        return;
      }
      if !found {
        pollingPaused := true;
        resumeAtUnix := Unix(i.suspendClock + i.pauseSec * NANOS);
        return;
      }
      var resumeAt := Unix(nextKickoff) - i.prematchWindow * 60;
      if resumeAt <= Unix(i.suspendClock) {
        return;
      }
      pollingPaused := true;
      resumeAtUnix := resumeAt;
    }

    method RunTick(i: Tick) returns (outcome: Outcome)
      modifies this
      ensures Abs() == Step(old(Abs()), i)
      ensures outcome == OutcomeOf(old(Abs()), i)
    {
      if !i.enabled {
        return Disabled;
      }
      var skip := HandlePauseResume(i);
      if skip {
        return SkippedByPause;
      }
      var elapsed := Unix(i.gateClock) - lastPollUnixSec;
      if lastLiveCount == 0 && lastPollUnixSec > 0 && elapsed < i.slowSec {
        return SkippedBySlowGate;
      }
      outcome := Attempted;
      if i.poll.PollFailed? {
        return;
      }
      lastLiveCount := i.poll.liveCount;
      lastPollUnixSec := Unix(i.storeClock);
      if i.poll.liveCount > 0 {
        consecutiveZeroCount := 0;
        return;
      }
      SuspendPollingIfThresholdReached(i);
    }
  }

  lemma NextKickoffIsUnique(ms: seq<Match>, now: Instant, t: int)
    requires IsNextKickoff(ms, now, t)
    ensures t == NextKickoff(ms, now)
    ensures HasUpcoming(ms, now) <==> t != ZERO_TIME
  {
    var u := NextKickoff(ms, now);
    if HasUpcoming(ms, now) {
      var m :| m in ms && IsUpcoming(m, now) && m.kickoffAt == t;
      var n :| n in ms && IsUpcoming(n, now) && n.kickoffAt == u;
    }
  }
}
