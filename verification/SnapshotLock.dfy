/** The post-scoring snapshot fan-out of cmd/worker/handlers.go over all replicas: each
    goroutine takes a permit of the counting semaphore, an expiring SET NX lock, retries
    the snapshot with doubling backoff, deletes the lock and gives the permit back.

    Goroutines are workers with an explicit program counter; a run is any interleaving
    of their atomic steps with the clock, cancellations and crashes. Times are in one
    unit, for instance milliseconds. */
module SnapshotLock {
  import opened Retry

  const DEFAULT_CONCURRENCY := 4
  const DEFAULT_MAX_ATTEMPTS := 3

  /** One lock key, worker:snap:{matchID}:{quinielaID}. */
  datatype Key = Key(matchId: int, quinielaId: int)

  /** Untimed: keys never expire and nothing is bounded. Timed: keys live for `ttl`, the
      first call starts at most `lockLag` after the store has written the key, a snapshot
      call lasts at most `callMax`, a goroutine runs again at most `wakeLag` after its
      backoff has elapsed, and the DEL lands at most `unlockLag` after the last call
      returned. */
  datatype Timing = Untimed | Timed(ttl: nat, lockLag: nat, callMax: nat, wakeLag: nat, unlockLag: nat)

  datatype Config = Config(
    semaphore: bool, semLimit: nat, locker: bool, concurrency: int,
    retryBase: nat, maxAttempts: int, timing: Timing)
  {
    function Concurrency(): (n: nat)
      ensures (concurrency > 0 ==> n == concurrency) && (concurrency <= 0 ==> n == 4)
    {
      if concurrency <= 0 then DEFAULT_CONCURRENCY else concurrency
    }

    function Attempts(): (n: nat)
      ensures n >= 1 && (maxAttempts > 0 ==> n == maxAttempts) && (maxAttempts <= 0 ==> n == 3)
    {
      if maxAttempts <= 0 then DEFAULT_MAX_ATTEMPTS else maxAttempts
    }
  }

  datatype Phase =
    | Waiting                               // not started by g.Go yet
    | Acquiring                             // before sem.Acquire
    | Locking                               // before locker.TryLock
    | Starting(since: int)                  // the key is written, the first call not begun
    | Calling(attempt: nat, since: int)     // inside SnapshotForMatch
    | BackingOff(attempt: nat, wake: int)   // waiting after failed attempt `attempt`
    | Unlocking(since: int)                 // before locker.Unlock
    | Releasing                             // before sem.Release
    | Finished
    | Crashed

  /** `holds`: TryLock succeeded and Unlock has not been issued yet. */
  datatype Worker = Worker(event: nat, key: Key, phase: Phase, holds: bool, permit: bool, backoff: nat)

  /** The store keeps only the key and its expiry; `setBy` records for the proofs which
      worker wrote it and no step ever looks at it. */
  datatype Entry = Entry(setBy: nat, expiresAt: int)

  /** `inUse` is the semaphore's counter; `leaked` records for the proofs how many of its
      units no worker accounts for, because a reply of the store was lost. */
  datatype State = State(
    now: int, locks: map<Key, Entry>, inUse: nat, leaked: nat, cancelled: set<nat>, workers: seq<Worker>)

  datatype Step =
    | Advance(d: nat)
    | Cancel(event: nat)
    | Launch(w: nat)
    | Acquire(w: nat)
    | AcquireFails(w: nat, counted: bool)   // counted: the increment took effect all the same
    | TryLock(w: nat)
    | TryLockFails(w: nat, applied: bool)
    | Begin(w: nat)
    | CallReturns(w: nat, ok: bool)
    | Wake(w: nat)
    | BackoffCancelled(w: nat)
    | Unlock(w: nat, deleted: bool)
    | Release(w: nat, counted: bool)        // not counted: the decrement was lost
    | Crash(w: nat)

  // ---- one step ----

  predicate Active(w: Worker) { !w.phase.Waiting? && !w.phase.Finished? }

  function InFlight(s: State, event: nat): set<nat> {
    set w: nat | w < |s.workers| && s.workers[w].event == event && Active(s.workers[w])
  }

  predicate Expired(c: Config, s: State, e: Entry) { c.timing.Timed? && e.expiresAt <= s.now }

  /** SET NX would succeed. */
  predicate Free(c: Config, s: State, k: Key) {
    k !in s.locks || Expired(c, s, s.locks[k])
  }

  function NewEntry(c: Config, s: State, w: nat): Entry {
    Entry(w, if c.timing.Timed? then s.now + c.timing.ttl else s.now)
  }

  /** The clock may not pass the moment at which a bounded activity must have ended. */
  predicate MayLast(c: Config, p: Phase, until: int) {
    c.timing.Timed? ==>
      match p
      case Starting(since) => until <= since + c.timing.lockLag
      case Calling(_, since) => until <= since + c.timing.callMax
      case BackingOff(_, wake) => until <= wake + c.timing.wakeLag
      case Unlocking(since) => until <= since + c.timing.unlockLag
      case _ => true
  }

  predicate Enabled(c: Config, s: State, step: Step) {
    match step
    case Advance(d) => forall w | w in s.workers :: MayLast(c, w.phase, s.now + d)
    case Cancel(_) => true
    case Launch(w) =>
      && w < |s.workers| && s.workers[w].phase.Waiting?
      && (forall v | 0 <= v < w && s.workers[v].event == s.workers[w].event :: !s.workers[v].phase.Waiting?)
      && |InFlight(s, s.workers[w].event)| < c.Concurrency()
    case Acquire(w) => w < |s.workers| && s.workers[w].phase.Acquiring? && s.inUse < c.semLimit
    case AcquireFails(w, counted) =>
      w < |s.workers| && s.workers[w].phase.Acquiring? && (counted ==> s.inUse < c.semLimit)
    case TryLock(w) => w < |s.workers| && s.workers[w].phase.Locking?
    case TryLockFails(w, _) => w < |s.workers| && s.workers[w].phase.Locking?
    case Begin(w) => w < |s.workers| && s.workers[w].phase.Starting?
    case CallReturns(w, _) => w < |s.workers| && s.workers[w].phase.Calling?
    case Wake(w) => w < |s.workers| && s.workers[w].phase.BackingOff? && s.now >= s.workers[w].phase.wake
    case BackoffCancelled(w) =>
      w < |s.workers| && s.workers[w].phase.BackingOff? && s.workers[w].event in s.cancelled
    case Unlock(w, _) => w < |s.workers| && s.workers[w].phase.Unlocking?
    case Release(w, _) => w < |s.workers| && s.workers[w].phase.Releasing?
    case Crash(w) => w < |s.workers| && Active(s.workers[w])
  }

  function FirstCall(c: Config, s: State, w: Worker): Worker {
    w.(phase := Calling(1, s.now), backoff := c.retryBase)
  }

  /** With the permit in hand (or no semaphore), go for the lock or straight to work. */
  function Proceed(c: Config, s: State, w: Worker): Worker {
    if c.locker then w.(phase := Locking) else FirstCall(c, s, w)
  }

  /** runSnapshot returns: the deferred permit release is all that is left. */
  function LeaveSnapshot(w: Worker): Worker {
    w.(phase := if w.permit then Releasing else Finished)
  }

  /** retrySnapshot returns: the deferred Unlock runs first, if it was registered. */
  function LeaveRetry(s: State, w: Worker): Worker {
    if w.holds then w.(phase := Unlocking(s.now)) else LeaveSnapshot(w)
  }

  function Put(s: State, i: nat, w: Worker): State
    requires i < |s.workers|
  {
    s.(workers := s.workers[i := w])
  }

  function Next(c: Config, s: State, step: Step): State
    requires Enabled(c, s, step)
  {
    match step
    case Advance(d) => s.(now := s.now + d)
    case Cancel(e) => s.(cancelled := s.cancelled + {e})
    case Launch(w) =>
      var me := s.workers[w];
      Put(s, w, if c.semaphore then me.(phase := Acquiring) else Proceed(c, s, me))
    case Acquire(w) =>
      Put(s, w, Proceed(c, s, s.workers[w].(permit := true))).(inUse := s.inUse + 1)
    case AcquireFails(w, counted) =>
      var left := Put(s, w, s.workers[w].(phase := Finished));
      if counted then left.(inUse := s.inUse + 1, leaked := s.leaked + 1) else left
    case TryLock(w) =>
      var me := s.workers[w];
      if Free(c, s, me.key) then
        Put(s, w, me.(phase := Starting(s.now), holds := true)).(locks := s.locks[me.key := NewEntry(c, s, w)])
      else Put(s, w, LeaveSnapshot(me))
    case TryLockFails(w, applied) =>
      var me := s.workers[w];
      var worked := Put(s, w, FirstCall(c, s, me));
      if applied && Free(c, s, me.key) then worked.(locks := s.locks[me.key := NewEntry(c, s, w)])
      else worked
    case Begin(w) => Put(s, w, FirstCall(c, s, s.workers[w]))
    case CallReturns(w, ok) =>
      var me := s.workers[w];
      if ok || me.phase.attempt >= c.Attempts() then Put(s, w, LeaveRetry(s, me))
      else Put(s, w, me.(phase := BackingOff(me.phase.attempt, s.now + me.backoff)))
    case Wake(w) =>
      var me := s.workers[w];
      Put(s, w, me.(phase := Calling(me.phase.attempt + 1, s.now), backoff := me.backoff * 2))
    case BackoffCancelled(w) => Put(s, w, LeaveRetry(s, s.workers[w]))
    case Unlock(w, deleted) =>
      var me := s.workers[w];
      var left := Put(s, w, LeaveSnapshot(me.(holds := false)));
      if deleted then left.(locks := s.locks - {me.key}) else left
    case Release(w, counted) =>
      var left := Put(s, w, s.workers[w].(permit := false, phase := Finished));
      if !counted then left.(leaked := s.leaked + 1)
      else left.(inUse := if s.inUse > 0 then s.inUse - 1 else 0)
    case Crash(w) => Put(s, w, s.workers[w].(phase := Crashed, holds := false))
  }

  // ---- runs ----

  ghost predicate Initial(s: State) {
    && s.inUse == 0 && s.leaked == 0
    && forall w | w in s.workers :: w.phase.Waiting? && !w.holds && !w.permit
  }

  ghost predicate IsRun(c: Config, s: State, steps: seq<Step>)
    decreases |steps|
  {
    steps == [] || (Enabled(c, s, steps[0]) && IsRun(c, Next(c, s, steps[0]), steps[1..]))
  }

  ghost function After(c: Config, s: State, steps: seq<Step>): State
    requires IsRun(c, s, steps)
    decreases |steps|
  {
    if steps == [] then s else After(c, Next(c, s, steps[0]), steps[1..])
  }

  /** No TryLock ever returned an error. */
  predicate ErrorFree(steps: seq<Step>) {
    forall step | step in steps :: !step.TryLockFails?
  }

  /** Every reply of the semaphore's store arrived. */
  predicate NoLostReply(steps: seq<Step>) {
    forall step | step in steps ::
      (step.AcquireFails? ==> !step.counted) && (step.Release? ==> step.counted)
  }

  // ---- the timing arithmetic ----

  /** Latest start of attempt `a`, counted from the moment the lock was taken. */
  function LatestStart(c: Config, a: nat): nat
    requires c.timing.Timed? && a >= 1
  {
    if a == 1 then c.timing.lockLag
    else LatestStart(c, a - 1) + c.timing.callMax + Backoff(c, a - 1) + c.timing.wakeLag
  }

  /** Wait after failed attempt `a`. */
  function Backoff(c: Config, a: nat): nat
    requires a >= 1
  {
    c.retryBase * Pow2(a - 1)
  }

  /** Latest end of the last snapshot call. */
  function WorstCallEnd(c: Config): nat
    requires c.timing.Timed?
  {
    LatestStart(c, c.Attempts()) + c.timing.callMax
  }

  /** The lock's lifetime outlasts the whole retry window and the DEL. */
  predicate Fits(c: Config) {
    c.timing.Timed? ==> WorstCallEnd(c) + c.timing.unlockLag < c.timing.ttl
  }

  lemma OneLess(n: int, d: int)
    ensures n * d == (n - 1) * d + d
  {
  }

  lemma {:induction false} LatestStartClosedForm(c: Config, a: nat)
    requires c.timing.Timed? && a >= 1
    ensures LatestStart(c, a) ==
            c.timing.lockLag + (a - 1) * (c.timing.callMax + c.timing.wakeLag)
            + c.retryBase * (Pow2(a - 1) - 1)
  {
    if a > 1 {
      LatestStartClosedForm(c, a - 1);
      DoubleOnce(c.retryBase, a - 2);
      OneLess(a - 1, c.timing.callMax + c.timing.wakeLag);
    }
  }

  lemma {:induction false} LatestStartMonotone(c: Config, a: nat, b: nat)
    requires c.timing.Timed? && 1 <= a <= b
    ensures LatestStart(c, a) <= LatestStart(c, b)
  {
    if a < b {
      LatestStartMonotone(c, a, b - 1);
    }
  }

  // ---- the invariant ----

  /** Worker `w` can still finish and unlock before its key expires. */
  predicate OnSchedule(c: Config, now: int, w: Worker, acquired: int) {
    && (w.phase.Calling? || w.phase.BackingOff? ==>
          && 1 <= w.phase.attempt <= c.Attempts()
          && w.backoff == Backoff(c, w.phase.attempt))
    && (w.phase.BackingOff? ==> w.phase.attempt < c.Attempts())
    && (c.timing.Timed? ==>
          match w.phase
          case Starting(since) => since <= acquired && now <= since + c.timing.lockLag
          case Calling(a, since) =>
            since <= acquired + LatestStart(c, a) && now <= since + c.timing.callMax
          case BackingOff(a, wake) =>
            && wake <= acquired + LatestStart(c, a) + c.timing.callMax + Backoff(c, a)
            && now <= wake + c.timing.wakeLag
          case Unlocking(since) =>
            since <= acquired + WorstCallEnd(c) && now <= since + c.timing.unlockLag
          case _ => true)
  }

  function AcquiredAt(c: Config, e: Entry): int {
    if c.timing.Timed? then e.expiresAt - c.timing.ttl else 0
  }

  /** A holder's key is in the store, was written by that holder, and is on schedule. */
  predicate HolderOk(c: Config, s: State, w: nat)
    requires w < |s.workers|
  {
    var me := s.workers[w];
    me.holds ==>
      && me.key in s.locks && s.locks[me.key].setBy == w
      && OnSchedule(c, s.now, me, AcquiredAt(c, s.locks[me.key]))
  }

  /** Who has a permit, by program counter; only a holder reaches the Unlock. */
  predicate WorkerOk(c: Config, w: Worker) {
    && (w.phase.Acquiring? ==> c.semaphore)
    && (w.phase.Locking? ==> c.locker)
    && (w.phase.Starting? || w.phase.Unlocking? ==> w.holds)
    && (w.phase.Acquiring? || w.phase.Waiting? || w.phase.Finished? ==> !w.permit)
    && (AtWork(w.phase) ==> w.permit == c.semaphore)
    && (w.phase.Releasing? ==> w.permit)
    && (w.permit ==> c.semaphore)
    && (w.holds ==> c.locker && AtWork(w.phase) && !w.phase.Locking?)
  }

  /** Past sem.Acquire, and not yet at sem.Release. */
  predicate AtWork(p: Phase) {
    p.Locking? || p.Starting? || p.Calling? || p.BackingOff? || p.Unlocking?
  }

  function Permits(s: State): set<nat> {
    set w: nat | w < |s.workers| && s.workers[w].permit
  }

  predicate HoldersOk(c: Config, s: State) {
    forall w: nat | w < |s.workers| :: HolderOk(c, s, w)
  }

  predicate WorkersOk(c: Config, s: State) {
    forall w: nat | w < |s.workers| :: WorkerOk(c, s.workers[w])
  }

  ghost predicate Conserved(c: Config, s: State) {
    && s.inUse == |Permits(s)| + s.leaked
    && (c.semaphore ==> s.inUse <= c.semLimit)
    && forall e: nat :: |InFlight(s, e)| <= c.Concurrency()
  }
}
