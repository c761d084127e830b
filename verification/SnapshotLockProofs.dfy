/** Safety of the snapshot fan-out over every interleaving: mutual exclusion, whose
    timing condition is exact, the ownership of every DEL, and permit conservation. */
module SnapshotLockProofs {
  import opened Retry
  import opened SnapshotLock

  // ---- one step ----

  /** With a lifetime that fits, no key expires while its writer is still working. */
  lemma HoldersKeyIsLive(c: Config, s: State, w: nat)
    requires Fits(c) && w < |s.workers| && WorkerOk(c, s.workers[w])
    requires HolderOk(c, s, w) && s.workers[w].holds
    ensures !Free(c, s, s.workers[w].key)
    ensures c.timing.Timed? ==> s.now < s.locks[s.workers[w].key].expiresAt
  {
    var me := s.workers[w];
    if c.timing.Timed? && !me.phase.Unlocking? {
      var a := if me.phase.Starting? then 1 else if me.phase.Calling? then me.phase.attempt else me.phase.attempt + 1;
      LatestStartMonotone(c, a, c.Attempts());
    }
  }

  lemma TakerBecomesHolder(c: Config, s: State, step: Step, w: nat)
    requires Enabled(c, s, step) && !step.Advance? && !step.Cancel? && step.w == w
    requires WorkerOk(c, s.workers[w]) && !s.workers[w].holds
    ensures HolderOk(c, Next(c, s, step), w)
  {
  }

  /** A worker at its last or another attempt stays on schedule. */
  lemma HolderStaysOnSchedule(c: Config, s: State, step: Step, w: nat)
    requires Fits(c) && Enabled(c, s, step) && !step.Advance? && !step.Cancel? && step.w == w
    requires WorkerOk(c, s.workers[w]) && HolderOk(c, s, w) && s.workers[w].holds
    ensures HolderOk(c, Next(c, s, step), w)
  {
    var me := s.workers[w];
    if c.timing.Timed? {
      match me.phase
      case Calling(a, _) => LatestStartMonotone(c, a, c.Attempts());
      case BackingOff(a, _) => LatestStartMonotone(c, a + 1, c.Attempts());
      case _ =>
    }
    if step.Wake? {
      DoubledBackoff(c, me.phase.attempt);
    }
  }

  /** What the moving worker itself becomes. */
  lemma MoverKeepsHolderOk(c: Config, s: State, step: Step, w: nat)
    requires Fits(c) && HoldersOk(c, s) && WorkersOk(c, s) && Enabled(c, s, step)
    requires !step.Advance? && !step.Cancel? && step.w == w
    ensures HolderOk(c, Next(c, s, step), w)
  {
    assert HolderOk(c, s, w) && WorkerOk(c, s.workers[w]);
    if s.workers[w].holds {
      HolderStaysOnSchedule(c, s, step, w);
    } else {
      TakerBecomesHolder(c, s, step, w);
    }
  }

  lemma DoubledBackoff(c: Config, a: nat)
    requires a >= 1
    ensures Backoff(c, a) * 2 == Backoff(c, a + 1)
  {
  }

  lemma StepKeepsHoldersOk(c: Config, s: State, step: Step)
    requires Fits(c) && HoldersOk(c, s) && WorkersOk(c, s) && Enabled(c, s, step)
    ensures HoldersOk(c, Next(c, s, step))
  {
    var t := Next(c, s, step);
    forall v: nat | v < |t.workers|
      ensures HolderOk(c, t, v)
    {
      assert HolderOk(c, s, v) && WorkerOk(c, s.workers[v]);
      if !step.Advance? && !step.Cancel? && step.w == v {
        MoverKeepsHolderOk(c, s, step, v);
      } else if s.workers[v].holds {
        HoldersKeyIsLive(c, s, v);
        if step.Advance? {
          assert s.workers[v] in s.workers;
        } else if step.Unlock? {
          assert HolderOk(c, s, step.w) && WorkerOk(c, s.workers[step.w]);
        }
      }
    }
  }

  lemma MoverKeepsWorkerOk(c: Config, s: State, step: Step, w: nat)
    requires Enabled(c, s, step) && !step.Advance? && !step.Cancel? && step.w == w
    requires WorkerOk(c, s.workers[w])
    ensures WorkerOk(c, Next(c, s, step).workers[w])
  {
  }

  lemma StepKeepsWorkersOk(c: Config, s: State, step: Step)
    requires WorkersOk(c, s) && Enabled(c, s, step)
    ensures WorkersOk(c, Next(c, s, step))
  {
    var t := Next(c, s, step);
    if !step.Advance? && !step.Cancel? {
      assert WorkerOk(c, s.workers[step.w]);
      MoverKeepsWorkerOk(c, s, step, step.w);
      assert t.workers == s.workers[step.w := t.workers[step.w]];
    } else {
      assert t.workers == s.workers;
    }
    forall v: nat | v < |t.workers|
      ensures WorkerOk(c, t.workers[v])
    {
      assert WorkerOk(c, s.workers[v]);
    }
  }

  lemma SubsetIsSmaller(a: set<nat>, b: set<nat>)
    requires a <= b
    ensures |a| <= |b|
  {
    assert b == a + (b - a);
  }

  lemma OtherStepsKeepPermits(c: Config, s: State, step: Step)
    requires Enabled(c, s, step) && !step.Acquire? && !step.Release?
    ensures var t := Next(c, s, step);
            Permits(t) == Permits(s) && t.inUse - t.leaked == s.inUse - s.leaked
  {
    var t := Next(c, s, step);
    assert |t.workers| == |s.workers|;
    forall w: nat | w < |s.workers|
      ensures t.workers[w].permit == s.workers[w].permit
    {
    }
  }

  lemma StepKeepsPermits(c: Config, s: State, step: Step)
    requires WorkersOk(c, s) && Enabled(c, s, step) && s.inUse == |Permits(s)| + s.leaked
    ensures Next(c, s, step).inUse == |Permits(Next(c, s, step))| + Next(c, s, step).leaked
  {
    var t := Next(c, s, step);
    if step.Acquire? {
      assert WorkerOk(c, s.workers[step.w]);
      assert Permits(t) == Permits(s) + {step.w};
    } else if step.Release? {
      assert WorkerOk(c, s.workers[step.w]);
      assert step.w in Permits(s) && Permits(t) == Permits(s) - {step.w};
    } else {
      OtherStepsKeepPermits(c, s, step);
    }
  }

  lemma StepKeepsInFlight(c: Config, s: State, step: Step, e: nat)
    requires Enabled(c, s, step) && |InFlight(s, e)| <= c.Concurrency()
    ensures |InFlight(Next(c, s, step), e)| <= c.Concurrency()
  {
    var t := Next(c, s, step);
    if step.Launch? && s.workers[step.w].event == e {
      assert InFlight(t, e) <= InFlight(s, e) + {step.w};
      SubsetIsSmaller(InFlight(t, e), InFlight(s, e) + {step.w});
    } else {
      assert InFlight(t, e) <= InFlight(s, e);
      SubsetIsSmaller(InFlight(t, e), InFlight(s, e));
    }
  }

  lemma StepKeepsConserved(c: Config, s: State, step: Step)
    requires WorkersOk(c, s) && Conserved(c, s) && Enabled(c, s, step)
    ensures Conserved(c, Next(c, s, step))
  {
    StepKeepsPermits(c, s, step);
    forall e: nat
      ensures |InFlight(Next(c, s, step), e)| <= c.Concurrency()
    {
      StepKeepsInFlight(c, s, step, e);
    }
  }

  // ---- every run ----

  lemma {:induction false} RunKeepsWorkers(c: Config, s: State, steps: seq<Step>)
    requires WorkersOk(c, s) && Conserved(c, s) && IsRun(c, s, steps)
    ensures WorkersOk(c, After(c, s, steps)) && Conserved(c, After(c, s, steps))
    decreases |steps|
  {
    if steps != [] {
      StepKeepsWorkersOk(c, s, steps[0]);
      StepKeepsConserved(c, s, steps[0]);
      RunKeepsWorkers(c, Next(c, s, steps[0]), steps[1..]);
    }
  }

  lemma {:induction false} RunKeepsHolders(c: Config, s: State, steps: seq<Step>)
    requires Fits(c) && HoldersOk(c, s) && WorkersOk(c, s) && IsRun(c, s, steps)
    ensures HoldersOk(c, After(c, s, steps)) && WorkersOk(c, After(c, s, steps))
    decreases |steps|
  {
    if steps != [] {
      StepKeepsWorkersOk(c, s, steps[0]);
      StepKeepsHoldersOk(c, s, steps[0]);
      RunKeepsHolders(c, Next(c, s, steps[0]), steps[1..]);
    }
  }

  lemma InitiallyOk(c: Config, s: State)
    requires Initial(s)
    ensures HoldersOk(c, s) && WorkersOk(c, s) && Conserved(c, s)
  {
    forall w: nat | w < |s.workers|
      ensures HolderOk(c, s, w) && WorkerOk(c, s.workers[w])
    {
      assert s.workers[w] in s.workers;
    }
    assert Permits(s) == {};
    forall e: nat
      ensures InFlight(s, e) == {}
    {
    }
  }

  /** At any moment of any run, whatever fails and whoever crashes: every lock a worker
      holds is in the store, unexpired and written by that worker; hence two holders of
      one key are the same worker. */
  lemma HeldLocksAreLive(c: Config, s: State, steps: seq<Step>, w: nat)
    requires Fits(c) && Initial(s) && IsRun(c, s, steps)
    requires var t := After(c, s, steps); w < |t.workers| && t.workers[w].holds
    ensures var t := After(c, s, steps); var k := t.workers[w].key;
            && k in t.locks && t.locks[k].setBy == w
            && (c.timing.Timed? ==> t.now < t.locks[k].expiresAt)
            && (forall v: nat | v < |t.workers| && t.workers[v].holds && t.workers[v].key == k :: v == w)
  {
    InitiallyOk(c, s);
    RunKeepsHolders(c, s, steps);
    var t := After(c, s, steps);
    assert HolderOk(c, t, w) && WorkerOk(c, t.workers[w]);
    HoldersKeyIsLive(c, t, w);
    forall v: nat | v < |t.workers| && t.workers[v].holds && t.workers[v].key == t.workers[w].key
      ensures v == w
    {
      assert HolderOk(c, t, v);
    }
  }

  /** Unlock is a plain DEL, yet the key it deletes is the one its own worker wrote. */
  lemma UnlockDeletesOwnKey(c: Config, s: State, steps: seq<Step>, w: nat, deleted: bool)
    requires Fits(c) && Initial(s) && IsRun(c, s, steps)
    requires Enabled(c, After(c, s, steps), Unlock(w, deleted))
    ensures var t := After(c, s, steps); var k := t.workers[w].key;
            && k in t.locks && t.locks[k].setBy == w && !Free(c, t, k)
            && Next(c, t, Unlock(w, deleted)).locks == map j | j in t.locks && (j != k || !deleted) :: t.locks[j]
  {
    InitiallyOk(c, s);
    RunKeepsHolders(c, s, steps);
    var t := After(c, s, steps);
    assert WorkerOk(c, t.workers[w]) && HolderOk(c, t, w);
    HoldersKeyIsLive(c, t, w);
  }

  /** A worker that found the key taken, or got an error from the store, never issues
      an Unlock later. */
  lemma LosersNeverUnlock(c: Config, s: State, step: Step, w: nat, steps: seq<Step>)
    requires Enabled(c, s, step) && w < |s.workers| && !s.workers[w].holds
    requires (step == TryLock(w) && !Free(c, s, s.workers[w].key))
          || step == TryLockFails(w, true) || step == TryLockFails(w, false)
    requires IsRun(c, Next(c, s, step), steps)
    ensures var t := After(c, Next(c, s, step), steps);
            w < |t.workers| && !t.workers[w].holds && !t.workers[w].phase.Unlocking?
  {
    PastTheLockStaysLockless(c, Next(c, s, step), w, steps);
  }

  lemma {:induction false} PastTheLockStaysLockless(c: Config, s: State, w: nat, steps: seq<Step>)
    requires w < |s.workers| && !s.workers[w].holds && IsRun(c, s, steps)
    requires var p := s.workers[w].phase; !p.Waiting? && !p.Acquiring? && !p.Locking? && !p.Unlocking?
    ensures var t := After(c, s, steps);
            w < |t.workers| && !t.workers[w].holds && !t.workers[w].phase.Unlocking?
    decreases |steps|
  {
    if steps != [] {
      PastTheLockStaysLockless(c, Next(c, s, steps[0]), w, steps[1..]);
    }
  }

  // ---- mutual exclusion ----

  /** Two workers are never inside SnapshotForMatch for one (match, quiniela). */
  predicate Exclusive(s: State) {
    forall v: nat, w: nat | v < |s.workers| && w < |s.workers|
        && s.workers[v].phase.Calling? && s.workers[w].phase.Calling?
        && s.workers[v].key == s.workers[w].key :: v == w
  }

  /** Everyone at work got there through a successful TryLock. */
  predicate AllLocked(s: State) {
    forall w: nat | w < |s.workers| && AtWork(s.workers[w].phase) && !s.workers[w].phase.Locking? ::
      s.workers[w].holds
  }

  lemma {:induction false} ErrorFreeRunsAreLocked(c: Config, s: State, steps: seq<Step>)
    requires c.locker && AllLocked(s) && IsRun(c, s, steps) && ErrorFree(steps)
    ensures AllLocked(After(c, s, steps))
    decreases |steps|
  {
    if steps != [] {
      assert steps[0] in steps;
      ErrorFreeRunsAreLocked(c, Next(c, s, steps[0]), steps[1..]);
    }
  }

  /** In every interleaving of replicas with an error-free lock store, at most one
      worker at a time snapshots a given pair: always without expiry, and with expiry
      when the lifetime outlasts the retry window. */
  lemma MutualExclusion(c: Config, s: State, steps: seq<Step>)
    requires Fits(c) && c.locker && Initial(s) && IsRun(c, s, steps) && ErrorFree(steps)
    ensures Exclusive(After(c, s, steps))
  {
    var t := After(c, s, steps);
    forall w | w in s.workers
      ensures !w.phase.Calling?
    {
    }
    assert forall w: nat | w < |s.workers| :: s.workers[w] in s.workers;
    ErrorFreeRunsAreLocked(c, s, steps);
    forall v: nat, w: nat | v < |t.workers| && w < |t.workers|
        && t.workers[v].phase.Calling? && t.workers[w].phase.Calling?
        && t.workers[v].key == t.workers[w].key
      ensures v == w
    {
      HeldLocksAreLive(c, s, steps, w);
    }
  }

  ghost predicate AlwaysExclusive(c: Config) {
    forall s, steps | Initial(s) && IsRun(c, s, steps) && ErrorFree(steps) ::
      Exclusive(After(c, s, steps))
  }

  // ---- the condition is exact ----

  lemma {:induction false} Extend(c: Config, s: State, steps: seq<Step>, step: Step)
    requires IsRun(c, s, steps) && Enabled(c, After(c, s, steps), step)
    ensures IsRun(c, s, steps + [step])
    ensures After(c, s, steps + [step]) == Next(c, After(c, s, steps), step)
    decreases |steps|
  {
    var longer := steps + [step];
    if steps == [] {
      assert longer[1..] == [];
    } else {
      Extend(c, Next(c, s, steps[0]), steps[1..], step);
      assert longer[1..] == steps[1..] + [step];
    }
  }

  const PAIR := Key(7, 9)

  function Idle(event: nat): Worker { Worker(event, PAIR, Waiting, false, false, 0) }

  /** Three replicas are about to snapshot the same pair. */
  const REPLICAS := State(0, map[], 0, 0, {}, [Idle(0), Idle(1), Idle(2)])

  /** The first replica starts attempt `a` as late as it may; its key is from time 0. */
  function SlowAttempt(c: Config, a: nat): State
    requires c.timing.Timed? && a >= 1
  {
    var now := LatestStart(c, a);
    State(now, map[PAIR := Entry(0, c.timing.ttl)], if c.semaphore then 1 else 0, 0, {},
          [Worker(0, PAIR, Calling(a, now), true, c.semaphore, Backoff(c, a)), Idle(1), Idle(2)])
  }

  predicate RoomForTwo(c: Config) { c.timing.Timed? && c.locker && (c.semaphore ==> c.semLimit >= 2) }

  /** Worker `w` starts and gets as far as the lock. */
  lemma Enter(c: Config, s: State, steps: seq<Step>, w: nat) returns (more: seq<Step>)
    requires c.locker && (c.semaphore ==> c.semLimit >= 2) && IsRun(c, s, steps)
    requires var t := After(c, s, steps);
             && w < |t.workers| && t.workers[w] == Idle(w) && InFlight(t, w) == {}
             && (forall v: nat | v < w :: t.workers[v].event == v)
             && t.inUse <= 1
    ensures IsRun(c, s, more) && (ErrorFree(steps) ==> ErrorFree(more))
    ensures var t := After(c, s, steps);
            After(c, s, more) == t.(inUse := if c.semaphore then t.inUse + 1 else t.inUse,
                                    workers := t.workers[w := Worker(w, PAIR, Locking, false, c.semaphore, 0)])
  {
    Extend(c, s, steps, Launch(w));
    more := steps + [Launch(w)];
    if c.semaphore {
      Extend(c, s, more, Acquire(w));
      more := more + [Acquire(w)];
    }
  }

  /** It takes the lock, which is free. */
  lemma StartAndLock(c: Config, s: State, steps: seq<Step>, w: nat) returns (more: seq<Step>)
    requires c.locker && (c.semaphore ==> c.semLimit >= 2) && IsRun(c, s, steps)
    requires var t := After(c, s, steps);
             && w < |t.workers| && t.workers[w] == Idle(w) && InFlight(t, w) == {}
             && (forall v: nat | v < w :: t.workers[v].event == v)
             && t.inUse <= 1 && Free(c, t, PAIR)
    ensures IsRun(c, s, more) && (ErrorFree(steps) ==> ErrorFree(more))
    ensures var t := After(c, s, steps);
            After(c, s, more) == t.(locks := t.locks[PAIR := NewEntry(c, t, w)],
                                    inUse := if c.semaphore then t.inUse + 1 else t.inUse,
                                    workers := t.workers[w := Worker(w, PAIR, Starting(t.now), true, c.semaphore, 0)])
  {
    more := Enter(c, s, steps, w);
    Extend(c, s, more, TryLock(w));
    more := more + [TryLock(w)];
  }

  /** The worker that has the lock makes its first call, after `lag`. */
  lemma FirstCallAfter(c: Config, s: State, steps: seq<Step>, w: nat, lag: nat) returns (more: seq<Step>)
    requires IsRun(c, s, steps) && Enabled(c, After(c, s, steps), Advance(lag))
    requires var t := After(c, s, steps); w < |t.workers| && t.workers[w].phase.Starting?
    ensures IsRun(c, s, more) && (ErrorFree(steps) ==> ErrorFree(more))
    ensures var t := After(c, s, steps);
            After(c, s, more) == t.(now := t.now + lag,
                                    workers := t.workers[w := t.workers[w].(phase := Calling(1, t.now + lag),
                                                                            backoff := c.retryBase)])
  {
    Extend(c, s, steps, Advance(lag));
    more := steps + [Advance(lag)];
    Extend(c, s, more, Begin(w));
    more := more + [Begin(w)];
  }

  /** It takes the free lock and is inside SnapshotForMatch at once. */
  lemma LockAndCall(c: Config, s: State, steps: seq<Step>, w: nat) returns (more: seq<Step>)
    requires c.locker && (c.semaphore ==> c.semLimit >= 2) && IsRun(c, s, steps)
    requires var t := After(c, s, steps);
             && w < |t.workers| && t.workers[w] == Idle(w) && InFlight(t, w) == {}
             && (forall v: nat | v < w :: t.workers[v].event == v)
             && t.inUse <= 1 && Free(c, t, PAIR)
    ensures IsRun(c, s, more) && (ErrorFree(steps) ==> ErrorFree(more))
    ensures var t := After(c, s, steps);
            After(c, s, more) == t.(locks := t.locks[PAIR := NewEntry(c, t, w)],
                                    inUse := if c.semaphore then t.inUse + 1 else t.inUse,
                                    workers := t.workers[w := Worker(w, PAIR, Calling(1, t.now), true, c.semaphore, c.retryBase)])
  {
    more := StartAndLock(c, s, steps, w);
    Extend(c, s, more, Begin(w));
    more := more + [Begin(w)];
  }

  /** The failing call returned at the last moment and the backoff has begun. */
  function SlowFailure(c: Config, a: nat): State
    requires c.timing.Timed? && a >= 1
  {
    var s := SlowAttempt(c, a);
    var now := s.now + c.timing.callMax;
    s.(now := now, workers := [s.workers[0].(phase := BackingOff(a, now + Backoff(c, a))), Idle(1), Idle(2)])
  }

  lemma SlowCallFails(c: Config, s: State, steps: seq<Step>, a: nat) returns (more: seq<Step>)
    requires RoomForTwo(c) && 1 <= a < c.Attempts()
    requires IsRun(c, s, steps) && ErrorFree(steps) && After(c, s, steps) == SlowAttempt(c, a)
    ensures IsRun(c, s, more) && ErrorFree(more) && After(c, s, more) == SlowFailure(c, a)
  {
    var s0, d := SlowAttempt(c, a), c.timing.callMax;
    Extend(c, s, steps, Advance(d));
    more := steps + [Advance(d)];
    assert Next(c, s0.(now := s0.now + d), CallReturns(0, false)) == SlowFailure(c, a);
    Extend(c, s, more, CallReturns(0, false));
    more := more + [CallReturns(0, false)];
  }

  /** The goroutine has waited for as long as it may. */
  function SlowWait(c: Config, a: nat): State
    requires c.timing.Timed? && a >= 1
  {
    var s := SlowFailure(c, a);
    s.(now := s.now + Backoff(c, a) + c.timing.wakeLag)
  }

  lemma SlowWaitEnds(c: Config, a: nat)
    requires RoomForTwo(c) && 1 <= a < c.Attempts()
    ensures Enabled(c, SlowFailure(c, a), Advance(Backoff(c, a) + c.timing.wakeLag))
    ensures Next(c, SlowFailure(c, a), Advance(Backoff(c, a) + c.timing.wakeLag)) == SlowWait(c, a)
    ensures Enabled(c, SlowWait(c, a), Wake(0)) && Next(c, SlowWait(c, a), Wake(0)) == SlowAttempt(c, a + 1)
  {
    DoubledBackoff(c, a);
  }

  /** From one late attempt to the next: the call fails at the last moment and the
      goroutine wakes at the last moment. */
  lemma SlowerAttempt(c: Config, s: State, steps: seq<Step>, a: nat) returns (more: seq<Step>)
    requires RoomForTwo(c) && 1 <= a < c.Attempts()
    requires IsRun(c, s, steps) && ErrorFree(steps) && After(c, s, steps) == SlowAttempt(c, a)
    ensures IsRun(c, s, more) && ErrorFree(more) && After(c, s, more) == SlowAttempt(c, a + 1)
  {
    more := SlowCallFails(c, s, steps, a);
    var wait := Advance(Backoff(c, a) + c.timing.wakeLag);
    SlowWaitEnds(c, a);
    Extend(c, s, more, wait);
    more := more + [wait];
    Extend(c, s, more, Wake(0));
    more := more + [Wake(0)];
  }

  /** The first replica can use up its whole retry window. */
  lemma {:induction false} SlowRun(c: Config, a: nat) returns (steps: seq<Step>)
    requires RoomForTwo(c) && 1 <= a <= c.Attempts()
    ensures IsRun(c, REPLICAS, steps) && ErrorFree(steps)
    ensures After(c, REPLICAS, steps) == SlowAttempt(c, a)
  {
    if a == 1 {
      assert InFlight(REPLICAS, 0) == {};
      steps := StartAndLock(c, REPLICAS, [], 0);
      steps := FirstCallAfter(c, REPLICAS, steps, 0, c.timing.lockLag);
    } else {
      steps := SlowRun(c, a - 1);
      steps := SlowerAttempt(c, REPLICAS, steps, a - 1);
    }
  }

  /** The last call has ended at the last moment, and the DEL is about to come as late
      as it may. */
  function LateUnlock(c: Config): State
    requires c.timing.Timed?
  {
    var ended := WorstCallEnd(c);
    State(ended + c.timing.unlockLag, map[PAIR := Entry(0, c.timing.ttl)], if c.semaphore then 1 else 0, 0, {},
          [Worker(0, PAIR, Unlocking(ended), true, c.semaphore, Backoff(c, c.Attempts())), Idle(1), Idle(2)])
  }

  lemma SlowestCallReturns(c: Config) returns (steps: seq<Step>)
    requires RoomForTwo(c)
    ensures IsRun(c, REPLICAS, steps) && ErrorFree(steps)
    ensures After(c, REPLICAS, steps) == LateUnlock(c).(now := WorstCallEnd(c))
  {
    var s0 := SlowAttempt(c, c.Attempts());
    steps := SlowRun(c, c.Attempts());
    Extend(c, REPLICAS, steps, Advance(c.timing.callMax));
    steps := steps + [Advance(c.timing.callMax)];
    assert Next(c, s0.(now := WorstCallEnd(c)), CallReturns(0, true)) == LateUnlock(c).(now := WorstCallEnd(c));
    Extend(c, REPLICAS, steps, CallReturns(0, true));
    steps := steps + [CallReturns(0, true)];
  }

  lemma LateUnlockRun(c: Config) returns (steps: seq<Step>)
    requires RoomForTwo(c)
    ensures IsRun(c, REPLICAS, steps) && ErrorFree(steps) && After(c, REPLICAS, steps) == LateUnlock(c)
  {
    steps := SlowestCallReturns(c);
    Extend(c, REPLICAS, steps, Advance(c.timing.unlockLag));
    steps := steps + [Advance(c.timing.unlockLag)];
  }

  /** The late DEL takes away whatever key is there, and its worker's permit is back. */
  lemma UnlockAndRelease(c: Config, s: State, steps: seq<Step>) returns (more: seq<Step>)
    requires IsRun(c, s, steps) && ErrorFree(steps)
    requires var t := After(c, s, steps);
             && |t.workers| == 3 && t.workers[0].phase.Unlocking? && t.workers[0].key == PAIR
             && t.workers[0].permit == c.semaphore && t.inUse == (if c.semaphore then 2 else 0)
    ensures IsRun(c, s, more) && ErrorFree(more)
    ensures var t, u := After(c, s, steps), After(c, s, more);
            && u.now == t.now && u.locks == t.locks - {PAIR} && u.inUse == (if c.semaphore then 1 else 0)
            && |u.workers| == 3 && u.workers[1] == t.workers[1] && u.workers[2] == t.workers[2]
            && u.workers[0].event == t.workers[0].event
  {
    Extend(c, s, steps, Unlock(0, true));
    more := steps + [Unlock(0, true)];
    if c.semaphore {
      Extend(c, s, more, Release(0, true));
      more := more + [Release(0, true)];
    }
  }

  /** A lifetime that ends no later than the last DEL may come breaks exclusion: a second
      replica takes the expired key, the DEL of the first removes it although it is not
      its own any more, and a third replica joins the second. */
  lemma ShortLifetimeBreaksExclusion(c: Config) returns (steps: seq<Step>)
    requires RoomForTwo(c) && c.timing.ttl <= WorstCallEnd(c) + c.timing.unlockLag
    ensures IsRun(c, REPLICAS, steps) && ErrorFree(steps)
    ensures !Exclusive(After(c, REPLICAS, steps))
  {
    steps := LateUnlockRun(c);
    assert InFlight(LateUnlock(c), 1) == {};
    steps := LockAndCall(c, REPLICAS, steps, 1);
    steps := UnlockAndRelease(c, REPLICAS, steps);
    var t := After(c, REPLICAS, steps);
    assert InFlight(t, 2) == {};
    steps := LockAndCall(c, REPLICAS, steps, 2);
    var u := After(c, REPLICAS, steps);
    assert u.workers[1].phase.Calling? && u.workers[2].phase.Calling?;
  }

  lemma Regroup(n: int, d: int, e: int)
    ensures (n - 1) * (d + e) + d == n * d + (n - 1) * e
  {
  }

  /** Exclusion holds in every run exactly when the start, all attempts at their longest, with the
      doubling waits between them, and the DEL after them come before the key expires. */
  lemma ExclusionExactlyWhen(c: Config)
    requires RoomForTwo(c)
    ensures var n := c.Attempts();
            AlwaysExclusive(c) <==>
            c.timing.lockLag + n * c.timing.callMax + (n - 1) * c.timing.wakeLag
              + c.retryBase * (Pow2(n - 1) - 1) + c.timing.unlockLag < c.timing.ttl
  {
    LatestStartClosedForm(c, c.Attempts());
    Regroup(c.Attempts(), c.timing.callMax, c.timing.wakeLag);
    if Fits(c) {
      forall s, steps | Initial(s) && IsRun(c, s, steps) && ErrorFree(steps)
        ensures Exclusive(After(c, s, steps))
      {
        MutualExclusion(c, s, steps);
      }
    } else {
      var steps := ShortLifetimeBreaksExclusion(c);
      assert Initial(REPLICAS);
    }
  }

  /** The worker's own numbers, in milliseconds: three attempts from a base of 100 ms
      under a two-minute lock. Without lags they tolerate exactly calls below 39.9 s. */
  lemma ProductionHeadroom(lockLag: nat, callMax: nat, wakeLag: nat, unlockLag: nat)
    ensures AlwaysExclusive(Config(true, 4, true, 4, 100, 3, Timed(120_000, lockLag, callMax, wakeLag, unlockLag)))
        <==> lockLag + 3 * callMax + 2 * wakeLag + unlockLag < 119_700
    ensures AlwaysExclusive(Config(true, 4, true, 4, 100, 3, Timed(120_000, 0, callMax, 0, 0))) <==> callMax < 39_900
  {
    ExclusionExactlyWhen(Config(true, 4, true, 4, 100, 3, Timed(120_000, lockLag, callMax, wakeLag, unlockLag)));
    ExclusionExactlyWhen(Config(true, 4, true, 4, 100, 3, Timed(120_000, 0, callMax, 0, 0)));
    assert Pow2(2) == 4;
  }

  // ---- permits ----

  lemma {:induction false} NothingLeaks(c: Config, s: State, steps: seq<Step>)
    requires IsRun(c, s, steps) && NoLostReply(steps)
    ensures After(c, s, steps).leaked == s.leaked
    decreases |steps|
  {
    if steps != [] {
      assert steps[0] in steps;
      NothingLeaks(c, Next(c, s, steps[0]), steps[1..]);
    }
  }

  /** Semaphore conservation, in every interleaving and without any assumption on time. The
      counter is the workers that hold a permit plus the units whose reply was lost, and
      stays within the limit. A worker holds one exactly while its program counter is past
      sem.Acquire and not past sem.Release (a crashed worker keeps what it had). No event
      has more goroutines in flight than its limit, every lock holder also holds a permit,
      and once all have finished only lost units are left, none if no reply was lost. */
  lemma PermitsAreConserved(c: Config, s: State, steps: seq<Step>)
    requires Initial(s) && IsRun(c, s, steps)
    ensures var t := After(c, s, steps);
            && t.inUse == |Permits(t)| + t.leaked && (c.semaphore ==> t.inUse <= c.semLimit)
            && (forall w: nat | w < |t.workers| && !t.workers[w].phase.Crashed? ::
                  t.workers[w].permit <==> c.semaphore && (AtWork(t.workers[w].phase) || t.workers[w].phase.Releasing?))
            && (forall e: nat :: |InFlight(t, e)| <= c.Concurrency())
            && (c.semaphore ==> forall w: nat | w < |t.workers| && t.workers[w].holds :: t.workers[w].permit)
            && (NoLostReply(steps) ==> t.leaked == 0)
            && ((forall w: nat | w < |t.workers| :: t.workers[w].phase.Finished?) ==> t.inUse == t.leaked)
  {
    InitiallyOk(c, s);
    RunKeepsWorkers(c, s, steps);
    var t := After(c, s, steps);
    assert forall w: nat | w < |t.workers| :: WorkerOk(c, t.workers[w]);
    if NoLostReply(steps) {
      NothingLeaks(c, s, steps);
    }
    if forall w: nat | w < |t.workers| :: t.workers[w].phase.Finished? {
      assert Permits(t) == {};
    }
  }

  // ---- exclusion when the lock store fails ----

  /** A single error from the store is enough to lose exclusion, however long the lock
      lives: the worker that gets it goes to work without the lock. */
  lemma StoreErrorBreaksExclusion(c: Config) returns (steps: seq<Step>)
    requires c.locker && (c.semaphore ==> c.semLimit >= 2)
    ensures IsRun(c, REPLICAS, steps) && !Exclusive(After(c, REPLICAS, steps))
  {
    assert InFlight(REPLICAS, 0) == {};
    steps := LockAndCall(c, REPLICAS, [], 0);
    assert InFlight(After(c, REPLICAS, steps), 1) == {};
    steps := Enter(c, REPLICAS, steps, 1);
    Extend(c, REPLICAS, steps, TryLockFails(1, false));
    steps := steps + [TryLockFails(1, false)];
    var t := After(c, REPLICAS, steps);
    assert t.workers[0].phase.Calling? && t.workers[1].phase.Calling?;
  }

  /** One permit for everybody is exclusion enough. */
  lemma OnePermitExcludes(c: Config, s: State, steps: seq<Step>)
    requires c.semaphore && c.semLimit <= 1 && Initial(s) && IsRun(c, s, steps)
    ensures Exclusive(After(c, s, steps))
  {
    InitiallyOk(c, s);
    RunKeepsWorkers(c, s, steps);
    var t := After(c, s, steps);
    forall v: nat, w: nat | v < |t.workers| && w < |t.workers|
        && t.workers[v].phase.Calling? && t.workers[w].phase.Calling?
      ensures v == w
    {
      assert WorkerOk(c, t.workers[v]) && WorkerOk(c, t.workers[w]);
      SubsetIsSmaller({v, w}, Permits(t));
    }
  }

  /** With a store that may fail, exclusion holds in every run exactly when the semaphore
      lets in one worker at all: the lock contributes nothing. */
  lemma ExclusionDespiteErrorsExactlyWhen(c: Config)
    requires c.locker
    ensures (forall s, steps | Initial(s) && IsRun(c, s, steps) :: Exclusive(After(c, s, steps)))
        <==> c.semaphore && c.semLimit <= 1
  {
    if c.semaphore && c.semLimit <= 1 {
      forall s, steps | Initial(s) && IsRun(c, s, steps)
        ensures Exclusive(After(c, s, steps))
      {
        OnePermitExcludes(c, s, steps);
      }
    } else {
      var steps := StoreErrorBreaksExclusion(c);
      assert Initial(REPLICAS);
    }
  }
}
