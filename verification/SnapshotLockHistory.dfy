/** What one worker of the snapshot fan-out does over a whole run: its calls and waits are
    those of the retry loop, and the key of a crashed worker blocks its pair until expiry. */
module SnapshotLockHistory {
  import opened Retry
  import opened SnapshotLock
  import opened SnapshotLockProofs

  /** What a run shows of one worker: the answers of its snapshot calls in order, when the
      last of them came, the waits that ended by themselves (as planned, and as they really
      took), whether a wait was cut, and whether it gave up before any call. */
  datatype History = History(
    answers: seq<bool>, lastAt: int, waited: int, slept: int, cut: bool, skipped: bool)

  const NO_HISTORY := History([], 0, 0, 0, false, false)

  function Record(c: Config, h: History, s: State, step: Step, w: nat): History
    requires Enabled(c, s, step)
  {
    match step
    case CallReturns(v, ok) => if v == w then h.(answers := h.answers + [ok], lastAt := s.now) else h
    case Wake(v) =>
      if v == w then h.(waited := h.waited + s.workers[w].phase.wake - h.lastAt, slept := h.slept + s.now - h.lastAt)
      else h
    case BackoffCancelled(v) => if v == w then h.(cut := true) else h
    case AcquireFails(v, _) => if v == w then h.(skipped := true) else h
    case TryLock(v) => if v == w && !Free(c, s, s.workers[v].key) then h.(skipped := true) else h
    case _ => h
  }

  /** The history of worker w over a run, added to what came before. */
  ghost function HistoryOf(c: Config, s: State, steps: seq<Step>, w: nat, h: History): History
    requires IsRun(c, s, steps)
    decreases |steps|
  {
    if steps == [] then h
    else HistoryOf(c, Next(c, s, steps[0]), steps[1..], w, Record(c, h, s, steps[0], w))
  }

  predicate AllFailed(answers: seq<bool>) { forall i | 0 <= i < |answers| :: !answers[i] }

  /** n failed calls and the waits between them. */
  predicate FailedSoFar(c: Config, h: History, n: nat) {
    && |h.answers| == n && AllFailed(h.answers) && !h.cut && !h.skipped
  }

  function PlannedWait(c: Config, n: nat): int { c.retryBase * (Pow2(n) - 1) }

  /** After n + 1 calls the worker has left its retry loop for one of the loop's reasons. */
  predicate LeftAfter(c: Config, s: State, w: Worker, h: History, n: nat) {
    && |h.answers| == n + 1 && AllFailed(h.answers[..n]) && !h.skipped && n < c.Attempts()
    && h.waited == PlannedWait(c, n) <= h.slept
    && (h.cut ==> !h.answers[n] && n + 1 < c.Attempts() && w.event in s.cancelled)
    && (h.answers[n] || h.cut || n + 1 == c.Attempts())
  }

  /** The worker's history by its program counter. */
  ghost predicate HistoryOk(c: Config, s: State, w: Worker, h: History) {
    match w.phase
    case Waiting => h == NO_HISTORY
    case Acquiring => h == NO_HISTORY
    case Locking => h == NO_HISTORY
    case Starting(_) => h == NO_HISTORY
    case Calling(a, _) =>
      && 1 <= a <= c.Attempts() && FailedSoFar(c, h, a - 1) && w.backoff == Backoff(c, a)
      && h.waited == PlannedWait(c, a - 1) <= h.slept
    case BackingOff(a, wake) =>
      && 1 <= a < c.Attempts() && FailedSoFar(c, h, a) && w.backoff == Backoff(c, a)
      && h.waited == PlannedWait(c, a - 1) <= h.slept && wake == h.lastAt + Backoff(c, a)
    case Crashed => true
    case _ => h == NO_HISTORY.(skipped := true) || exists n: nat :: LeftAfter(c, s, w, h, n)
  }

  lemma OneWaitMore(c: Config, a: nat)
    requires a >= 1
    ensures PlannedWait(c, a - 1) + Backoff(c, a) == PlannedWait(c, a)
  {
    DoubleOnce(c.retryBase, a - 1);
  }

  lemma OtherStepsKeepHistory(c: Config, s: State, step: Step, w: nat, h: History)
    requires Enabled(c, s, step) && w < |s.workers| && HistoryOk(c, s, s.workers[w], h)
    requires step.Advance? || step.Cancel? || step.w != w
    ensures Record(c, h, s, step, w) == h
    ensures HistoryOk(c, Next(c, s, step), s.workers[w], h) && Next(c, s, step).workers[w] == s.workers[w]
  {
    if n: nat :| LeftAfter(c, s, s.workers[w], h, n) {
      assert LeftAfter(c, Next(c, s, step), s.workers[w], h, n);
    }
  }

  lemma CallKeepsHistory(c: Config, s: State, ok: bool, w: nat, h: History)
    requires Enabled(c, s, CallReturns(w, ok)) && HistoryOk(c, s, s.workers[w], h)
    ensures var step := CallReturns(w, ok); var t := Next(c, s, step);
            HistoryOk(c, t, t.workers[w], Record(c, h, s, step, w))
  {
    var step := CallReturns(w, ok);
    var t, a, g := Next(c, s, step), s.workers[w].phase.attempt, Record(c, h, s, step, w);
    assert g.answers[..a - 1] == h.answers;
    if !t.workers[w].phase.BackingOff? {
      assert LeftAfter(c, t, t.workers[w], g, a - 1);
    }
  }

  lemma WaitKeepsHistory(c: Config, s: State, step: Step, w: nat, h: History)
    requires Enabled(c, s, step) && (step == Wake(w) || step == BackoffCancelled(w))
    requires HistoryOk(c, s, s.workers[w], h)
    ensures var t := Next(c, s, step); HistoryOk(c, t, t.workers[w], Record(c, h, s, step, w))
  {
    var t, a, g := Next(c, s, step), s.workers[w].phase.attempt, Record(c, h, s, step, w);
    if step.Wake? {
      OneWaitMore(c, a);
      DoubledBackoff(c, a);
    } else {
      assert LeftAfter(c, t, t.workers[w], g, a - 1);
    }
  }

  lemma MoveKeepsHistory(c: Config, s: State, step: Step, w: nat, h: History)
    requires Enabled(c, s, step) && !step.Advance? && !step.Cancel? && step.w == w
    requires !step.CallReturns? && !step.Wake? && !step.BackoffCancelled?
    requires HistoryOk(c, s, s.workers[w], h)
    ensures var t := Next(c, s, step); HistoryOk(c, t, t.workers[w], Record(c, h, s, step, w))
  {
    var t := Next(c, s, step);
    if n: nat :| LeftAfter(c, s, s.workers[w], h, n) {
      assert step.Unlock? || step.Release? ==> LeftAfter(c, t, t.workers[w], h, n);
    }
  }

  lemma StepKeepsHistory(c: Config, s: State, step: Step, w: nat, h: History)
    requires Enabled(c, s, step) && w < |s.workers| && HistoryOk(c, s, s.workers[w], h)
    ensures var t := Next(c, s, step);
            w < |t.workers| && HistoryOk(c, t, t.workers[w], Record(c, h, s, step, w))
  {
    if step.Advance? || step.Cancel? || step.w != w {
      OtherStepsKeepHistory(c, s, step, w, h);
    } else if step.CallReturns? {
      CallKeepsHistory(c, s, step.ok, w, h);
    } else if step.Wake? || step.BackoffCancelled? {
      WaitKeepsHistory(c, s, step, w, h);
    } else {
      MoveKeepsHistory(c, s, step, w, h);
    }
  }

  lemma {:induction false} RunKeepsHistory(c: Config, s: State, steps: seq<Step>, w: nat, h: History)
    requires IsRun(c, s, steps) && w < |s.workers| && HistoryOk(c, s, s.workers[w], h)
    ensures var t := After(c, s, steps);
            w < |t.workers| && HistoryOk(c, t, t.workers[w], HistoryOf(c, s, steps, w, h))
    decreases |steps|
  {
    if steps != [] {
      StepKeepsHistory(c, s, steps[0], w, h);
      RunKeepsHistory(c, Next(c, s, steps[0]), steps[1..], w, Record(c, h, s, steps[0], w));
    }
  }

  function Answered(h: History): Answers { (a: nat) => 1 <= a <= |h.answers| && h.answers[a - 1] }

  function CutAfter(h: History): Answers { (a: nat) => h.cut && a == |h.answers| }

  function OutcomeOf(h: History): Outcome
    requires h.answers != [] && h.waited >= 0
  {
    Outcome(|h.answers|, h.waited, h.answers[|h.answers| - 1], h.cut)
  }

  lemma LeftAfterRetry(c: Config, s: State, w: Worker, h: History, n: nat)
    requires LeftAfter(c, s, w, h, n)
    ensures h.answers != [] && 0 <= h.waited
    ensures IsRetry(Answered(h), CutAfter(h), c.Attempts(), c.retryBase, OutcomeOf(h))
  {
    forall a | 1 <= a < n + 1
      ensures !Answered(h)(a)
    {
      assert h.answers[..n][a - 1] == h.answers[a - 1];
    }
  }

  /** Past the retry loop. */
  predicate Through(p: Phase) { p.Unlocking? || p.Releasing? || p.Finished? }

  /** In every interleaving, a worker that is through has either been refused the permit or
      the lock and made no call, or has done exactly what the retry loop does with the
      answers it got: calls up to the first success, the last attempt or a cut wait, planned
      waits that double and add up, none shorter in reality, and a cut only on an event that
      was cancelled. */
  lemma WorkersRetry(c: Config, s: State, steps: seq<Step>, w: nat) returns (h: History)
    requires Initial(s) && IsRun(c, s, steps) && w < |s.workers|
    ensures h == HistoryOf(c, s, steps, w, NO_HISTORY)
    ensures var t := After(c, s, steps);
            w < |t.workers| && Through(t.workers[w].phase) ==>
              if h.skipped then h.answers == []
              else && h.answers != [] && 0 <= h.waited <= h.slept
                   && IsRetry(Answered(h), CutAfter(h), c.Attempts(), c.retryBase, OutcomeOf(h))
                   && (h.cut ==> t.workers[w].event in t.cancelled)
  {
    h := HistoryOf(c, s, steps, w, NO_HISTORY);
    assert s.workers[w] in s.workers;
    RunKeepsHistory(c, s, steps, w, NO_HISTORY);
    var t := After(c, s, steps);
    if Through(t.workers[w].phase) && !h.skipped {
      var n: nat :| LeftAfter(c, t, t.workers[w], h, n);
      LeftAfterRetry(c, t, t.workers[w], h, n);
    }
  }

  /** After a successful call a worker never calls or waits again, in any continuation. */
  lemma SuccessEndsCalls(c: Config, s: State, w: nat, steps: seq<Step>)
    requires Enabled(c, s, CallReturns(w, true)) && IsRun(c, Next(c, s, CallReturns(w, true)), steps)
    ensures var t := After(c, Next(c, s, CallReturns(w, true)), steps);
            w < |t.workers| && (Through(t.workers[w].phase) || t.workers[w].phase.Crashed?)
  {
    ThroughForGood(c, Next(c, s, CallReturns(w, true)), w, steps);
  }

  lemma {:induction false} ThroughForGood(c: Config, s: State, w: nat, steps: seq<Step>)
    requires w < |s.workers| && (Through(s.workers[w].phase) || s.workers[w].phase.Crashed?)
    requires IsRun(c, s, steps)
    ensures var t := After(c, s, steps);
            w < |t.workers| && (Through(t.workers[w].phase) || t.workers[w].phase.Crashed?)
    decreases |steps|
  {
    if steps != [] {
      ThroughForGood(c, Next(c, s, steps[0]), w, steps[1..]);
    }
  }

  // ---- every lock won is given back ----

  /** How often worker w took the lock in a run. */
  ghost function Wins(c: Config, s: State, steps: seq<Step>, w: nat): nat
    requires IsRun(c, s, steps)
    decreases |steps|
  {
    if steps == [] then 0
    else
      (if steps[0] == TryLock(w) && Free(c, s, s.workers[w].key) then 1 else 0)
      + Wins(c, Next(c, s, steps[0]), steps[1..], w)
  }

  /** How often it issued the DEL. */
  function Unlocks(steps: seq<Step>, w: nat): nat {
    if steps == [] then 0 else (if steps[0].Unlock? && steps[0].w == w then 1 else 0) + Unlocks(steps[1..], w)
  }

  function Held(w: Worker): nat { if w.holds then 1 else 0 }

  lemma {:induction false} WinsAreUnlocked(c: Config, s: State, steps: seq<Step>, w: nat)
    requires WorkersOk(c, s) && w < |s.workers| && IsRun(c, s, steps)
    ensures var t := After(c, s, steps);
            && WorkersOk(c, t) && w < |t.workers|
            && (!t.workers[w].phase.Crashed? ==>
                  Held(s.workers[w]) + Wins(c, s, steps, w) == Unlocks(steps, w) + Held(t.workers[w]))
    decreases |steps|
  {
    if steps != [] {
      var t, rest := Next(c, s, steps[0]), steps[1..];
      StepKeepsWorkersOk(c, s, steps[0]);
      assert WorkerOk(c, s.workers[w]) && WorkerOk(c, t.workers[w]);
      WinsAreUnlocked(c, t, rest, w);
      if steps[0] == Crash(w) {
        CrashedStays(c, t, w, rest);
      }
    }
  }

  lemma {:induction false} CrashedStays(c: Config, s: State, w: nat, steps: seq<Step>)
    requires w < |s.workers| && s.workers[w].phase.Crashed? && IsRun(c, s, steps)
    ensures var t := After(c, s, steps); w < |t.workers| && t.workers[w].phase.Crashed?
    decreases |steps|
  {
    if steps != [] {
      CrashedStays(c, Next(c, s, steps[0]), w, steps[1..]);
    }
  }

  /** In every interleaving a worker that is past its Unlock, and has not crashed, has
      issued exactly one DEL for every lock it took. */
  lemma LocksAreGivenBack(c: Config, s: State, steps: seq<Step>, w: nat)
    requires Initial(s) && IsRun(c, s, steps) && w < |s.workers|
    ensures var t := After(c, s, steps);
            && w < |t.workers|
            && (t.workers[w].phase.Releasing? || t.workers[w].phase.Finished? ==>
                  Wins(c, s, steps, w) == Unlocks(steps, w))
  {
    InitiallyOk(c, s);
    WinsAreUnlocked(c, s, steps, w);
    assert WorkerOk(c, After(c, s, steps).workers[w]);
    assert s.workers[w] in s.workers;
  }

  // ---- a crashed holder ----

  /** Worker w has crashed with its key in the store. */
  predicate LeftBehind(s: State, w: nat, k: Key, e: Entry) {
    w < |s.workers| && s.workers[w].phase.Crashed? && e.setBy == w && k in s.locks && s.locks[k] == e
  }

  lemma StepKeepsLeftBehind(c: Config, s: State, step: Step, w: nat, k: Key, e: Entry)
    requires HoldersOk(c, s) && WorkersOk(c, s) && Enabled(c, s, step)
    requires LeftBehind(s, w, k, e) && !Expired(c, s, e)
    ensures LeftBehind(Next(c, s, step), w, k, e)
  {
    assert WorkerOk(c, s.workers[w]);
    if step.Unlock? {
      assert HolderOk(c, s, step.w) && WorkerOk(c, s.workers[step.w]);
    }
  }

  lemma {:induction false} NowOnlyGrows(c: Config, s: State, steps: seq<Step>)
    requires IsRun(c, s, steps)
    ensures s.now <= After(c, s, steps).now
    decreases |steps|
  {
    if steps != [] {
      NowOnlyGrows(c, Next(c, s, steps[0]), steps[1..]);
    }
  }

  lemma {:induction false} LeftBehindStays(c: Config, s: State, steps: seq<Step>, w: nat, k: Key, e: Entry)
    requires Fits(c) && HoldersOk(c, s) && WorkersOk(c, s) && IsRun(c, s, steps)
    requires LeftBehind(s, w, k, e) && !Expired(c, After(c, s, steps), e)
    ensures LeftBehind(After(c, s, steps), w, k, e)
    decreases |steps|
  {
    NowOnlyGrows(c, s, steps);
    if steps != [] {
      StepKeepsLeftBehind(c, s, steps[0], w, k, e);
      StepKeepsHoldersOk(c, s, steps[0]);
      StepKeepsWorkersOk(c, s, steps[0]);
      LeftBehindStays(c, Next(c, s, steps[0]), steps[1..], w, k, e);
    }
  }

  /** The lifetime is the crash recovery: the key of a worker that crashed while it held the
      lock keeps every other worker out until it expires, and for ever if keys never do. */
  lemma CrashBlocksUntilExpiry(c: Config, s: State, before: seq<Step>, w: nat, after: seq<Step>)
    requires Fits(c) && Initial(s) && IsRun(c, s, before)
    requires var t := After(c, s, before);
             Enabled(c, t, Crash(w)) && t.workers[w].holds && IsRun(c, Next(c, t, Crash(w)), after)
    ensures var t := After(c, s, before); var k := t.workers[w].key;
            var u := After(c, Next(c, t, Crash(w)), after);
            && k in t.locks
            && (!Expired(c, u, t.locks[k]) ==> !Free(c, u, k) && u.locks[k] == t.locks[k])
  {
    InitiallyOk(c, s);
    RunKeepsHolders(c, s, before);
    var t := After(c, s, before);
    assert HolderOk(c, t, w) && WorkerOk(c, t.workers[w]);
    var dead, k := Next(c, t, Crash(w)), t.workers[w].key;
    StepKeepsHoldersOk(c, t, Crash(w));
    StepKeepsWorkersOk(c, t, Crash(w));
    if !Expired(c, After(c, dead, after), t.locks[k]) {
      LeftBehindStays(c, dead, after, w, k, t.locks[k]);
    }
  }
}
