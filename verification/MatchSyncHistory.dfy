/** The poller as a function of its own history: which past tick decides whether it sleeps,
    and which whether it calls the provider. */
module MatchSyncHistory {
  import opened Wrappers
  import opened MatchSync
  import opened MatchSyncRuns

  // ---- how long a pause lasts ----

  /** This tick ends a pause that was to last until second `resumeAt`. */
  predicate Wakes(i: Tick, resumeAt: int) {
    Unix(i.pauseClock) >= resumeAt || HasOverdue(Candidates(i.resumeListing), i.resumeScanClock)
  }

  /** No tick of a run wakes the pause that tick k began before tick n. */
  ghost predicate AsleepSince(run: Run, k: nat, n: nat)
    requires k < n <= |run|
  {
    forall j | k < j < n :: run[j].enabled ==> !Wakes(run[j], StateAt(run, k + 1).resumeAt)
  }

  lemma {:induction false} AsleepKeepsState(run: Run, k: nat, n: nat)
    requires k < n <= |run| && SuspendsAt(run, k) && AsleepSince(run, k, n)
    ensures StateAt(run, n) == StateAt(run, k + 1)
  {
    if k + 1 < n {
      assert AsleepSince(run, k, n - 1);
      AsleepKeepsState(run, k, n - 1);
    }
  }

  /** As long as nothing has woken it, an enabled tick is skipped exactly when it does not
      wake the pause itself; if it does, the pause is over. */
  lemma SkippedExactlyWhen(run: Run, k: nat, n: nat)
    requires k < n < |run| && SuspendsAt(run, k) && AsleepSince(run, k, n) && run[n].enabled
    ensures var resumeAt := StateAt(run, k + 1).resumeAt;
            && (OutcomeOf(StateAt(run, n), run[n]) == SkippedByPause <==> !Wakes(run[n], resumeAt))
            && (ResumesAt(run, n) <==> Wakes(run[n], resumeAt))
  {
    AsleepKeepsState(run, k, n);
  }

  /** Nobody has suspended since tick k: a paused state is the one that tick left. */
  lemma {:induction false} SameSuspension(run: Run, k: nat, n: nat)
    requires k < n <= |run| && StateAt(run, n).paused
    requires forall j | k < j < n :: !SuspendsAt(run, j)
    ensures StateAt(run, n) == StateAt(run, k + 1)
  {
    if k + 1 < n {
      assert !SuspendsAt(run, n - 1);
      SameSuspension(run, k, n - 1);
    }
  }

  /** Before every pre-match window that the suspension of tick k knew of; when it knew of no
      scheduled match, before the fixed pause is over. */
  predicate BeforeWindows(began: Tick, second: int) {
    var ms := Candidates(began.suspendListing);
    if NoneScheduled(ms) then second < Unix(began.suspendClock) + began.pauseSec
    else forall m | m in ms && m.status.Scheduled? :: second < Unix(m.kickoffAt) - 60 * began.prematchWindow
  }

  lemma BeforeWindowsExactlyWhen(run: Run, k: nat, second: int)
    requires Ordered(run) && k < |run| && SuspendsAt(run, k)
    ensures BeforeWindows(run[k], second) <==> second < StateAt(run, k + 1).resumeAt
  {
    SuspensionDecision(run, k);
  }

  /** A pause lasts exactly until the first pre-match window: while no overdue match is
      listed, an enabled tick after the latest suspension is skipped if and only if it lies
      before every window that suspension knew of. */
  lemma SleepsExactlyUntilWindow(run: Run, k: nat, n: nat)
    requires Ordered(run) && k < n < |run| && SuspendsAt(run, k) && run[n].enabled
    requires forall j | k < j < n :: !SuspendsAt(run, j)
    requires forall j | k < j <= n && run[j].enabled ::
               !HasOverdue(Candidates(run[j].resumeListing), run[j].resumeScanClock)
    ensures OutcomeOf(StateAt(run, n), run[n]) == SkippedByPause <==>
            BeforeWindows(run[k], Unix(run[n].pauseClock))
  {
    BeforeWindowsExactlyWhen(run, k, Unix(run[n].pauseClock));
    if BeforeWindows(run[k], Unix(run[n].pauseClock)) {
      forall j | k < j < n && run[j].enabled
        ensures !Wakes(run[j], StateAt(run, k + 1).resumeAt)
      {
        assert ClocksInOrder(run[j]) && run[j].suspendClock <= run[n].pauseClock;
      }
      SkippedExactlyWhen(run, k, n);
    } else if StateAt(run, n).paused {
      SameSuspension(run, k, n);
    }
  }

  // ---- what the slow-poll gate remembers ----

  ghost predicate SucceedsAt(run: Run, k: nat)
    requires k < |run|
  {
    PollsAt(run, k) && run[k].poll.PollOk?
  }

  /** Tick k made the last successful provider call before tick n. */
  ghost predicate IsLastPoll(run: Run, k: nat, n: nat)
    requires n <= |run|
  {
    k < n && SucceedsAt(run, k) && forall j | k < j < n :: !SucceedsAt(run, j)
  }

  /** The state holds that call's live count and second, and zeros before the first. */
  lemma {:induction false} StateRemembersLastPoll(run: Run, n: nat) returns (any: bool, k: nat)
    requires n <= |run|
    ensures var s := StateAt(run, n);
            if any then IsLastPoll(run, k, n)
                        && s.lastPoll == Unix(run[k].storeClock) && s.lastLiveCount == run[k].poll.liveCount
            else s.lastPoll == 0 && s.lastLiveCount == 0 && forall j | 0 <= j < n :: !SucceedsAt(run, j)
  {
    if n == 0 {
      any, k := false, 0;
    } else {
      any, k := StateRemembersLastPoll(run, n - 1);
      if SucceedsAt(run, n - 1) {
        any, k := true, n - 1;
      }
    }
  }

  lemma LastPollIsUnique(run: Run, j: nat, k: nat, n: nat)
    requires n <= |run| && IsLastPoll(run, j, n) && IsLastPoll(run, k, n)
    ensures j == k
  {
  }

  /** When the provider is called: the tick is enabled, no pause skips it, and if the last
      successful call saw no live match, slowSec have passed since it was recorded. Failed
      calls, skipped ticks, pauses and resumes do not matter. */
  lemma PollsExactlyWhen(run: Run, n: nat)
    requires n < |run|
    ensures PollsAt(run, n) <==>
            && run[n].enabled && OutcomeOf(StateAt(run, n), run[n]) != SkippedByPause
            && forall k: nat | IsLastPoll(run, k, n) && run[k].poll.liveCount == 0 ::
                 Unix(run[n].gateClock) - Unix(run[k].storeClock) >= run[n].slowSec
    ensures OutcomeOf(StateAt(run, n), run[n]) == Disabled <==> !run[n].enabled
    ensures OutcomeOf(StateAt(run, n), run[n]) == Attempted <==> PollsAt(run, n)
  {
    var any, k := StateRemembersLastPoll(run, n);
    forall j: nat | any && IsLastPoll(run, j, n)
      ensures j == k
    {
      LastPollIsUnique(run, j, k, n);
    }
  }

  /** After a poll that saw live matches every enabled tick polls, until a later successful
      poll sees none. */
  lemma LiveMatchesKeepPolling(run: Run, k: nat, n: nat)
    requires n < |run| && IsLastPoll(run, k, n) && run[k].poll.liveCount > 0 && run[n].enabled
    ensures PollsAt(run, n)
  {
    var any, j := StateRemembersLastPoll(run, n);
    assert any;
    LastPollIsUnique(run, j, k, n);
    ReachableInvariant(run, n);
  }
}
