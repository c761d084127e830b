/** Every interleaving of the post-scoring pipeline keeps the fixed order of its steps
    and publishes exactly what one quiniela after the other would. */
module PostScoringProofs {
  import opened Wrappers
  import opened Seqs
  import opened PostScoring
  import Retry

  ghost predicate IsRun(env: Env, s: State, steps: seq<Step>)
    decreases |steps|
  {
    PubsOk(env, s) &&
    (steps == [] || (Enabled(env, s, steps[0]) && IsRun(env, Next(env, s, steps[0]), steps[1..])))
  }

  ghost function After(env: Env, s: State, steps: seq<Step>): State
    requires IsRun(env, s, steps)
    decreases |steps|
  {
    if steps == [] then s else After(env, Next(env, s, steps[0]), steps[1..])
  }

  // ---- the invariant ----

  /** What publisher `w` still has to publish. */
  ghost function Rest(env: Env, w: nat, p: Publisher): seq<Entry>
    requires PubOk(env, w, p)
  {
    match p
    case PubWaiting => QuinielaTrace(env, w, 0)
    case PubFetching => QuinielaTrace(env, w, 0)
    case PubAt(m, a) => MemberTrace(env, w, m, a) + QuinielaTrace(env, w, m + 1)
    case PubDone => []
  }

  /** Log and remaining work of publisher `w` always make up its sequential trace. */
  ghost predicate Faithful(env: Env, s: State, w: nat)
    requires PubsOk(env, s) && w < |s.pubs|
  {
    Projection(s.log, w) + Rest(env, w, s.pubs[w]) == QuinielaTrace(env, w, 0)
  }

  /** Snapshot `w` is in the log once if it has run and not at all otherwise; likewise its
      start. */
  ghost predicate Counted(s: State, w: nat)
    requires w < |s.snaps|
  {
    && multiset(s.log)[Snapshotted(w)] == (if s.snaps[w] == SnapDone(true) then 1 else 0)
    && multiset(s.log)[SnapshotStarted(w)]
       == (if s.snaps[w].SnapRunning? || s.snaps[w] == SnapDone(true) then 1 else 0)
  }

  /** No snapshot goroutine exists before its stage. */
  predicate SnapsHeldBack(s: State) {
    StageRank(s.stage) < 7 ==> forall p | p in s.snaps :: p.SnapWaiting?
  }

  /** A snapshot goroutine exists only on an event that proceeds. */
  predicate SnapsFollowStage(env: Env, s: State) {
    !Proceeds(env) ==> forall p | p in s.snaps :: p.SnapWaiting?
  }

  /** About a snapshot, from the moment it goes for its lock. */
  predicate AboutSnapshot(e: Entry) { e.SnapshotStarted? || e.Snapshotted? }

  /** The event gets as far as the three post-scoring steps. */
  predicate Proceeds(env: Env) {
    env.decodes && env.scores && env.predRepo && env.listing.Some? && env.listing.value != []
  }

  predicate AllFlushed(env: Env, log: seq<Entry>, n: nat) {
    forall i: nat | i < n :: Invalidated(i) in log
  }

  /** What the stage alone tells: the way here, and which barriers lie behind. */
  ghost predicate StageOk(env: Env, s: State) {
    match s.stage
    case Decoding => true
    case Scoring => env.decodes
    case Extras => env.decodes && env.scores
    case Confirming => env.decodes && env.scores
    case Listing => env.decodes && env.scores
    case Invalidating(i) => Proceeds(env) && i <= env.invalidators && AllFlushed(env, s.log, i)
    case Broadcasting => Proceeds(env) && AllFlushed(env, s.log, env.invalidators)
    case Snapshotting =>
      && Proceeds(env) && AllFlushed(env, s.log, env.invalidators)
      && (env.broadcaster ==> AllPublished(s))
    case Returned(failed) =>
      && failed == (env.decodes && !env.scores)
      && (Proceeds(env) ==>
            && AllFlushed(env, s.log, env.invalidators)
            && (env.broadcaster ==> AllPublished(s))
            && (env.snapshotter ==> AllSnapped(s)))
  }

  ghost predicate LogOk(env: Env, s: State) {
    && InOrder(s.log)
    && (forall e | e in s.log :: Rank(e) <= StageRank(s.stage))
    && (!Proceeds(env) ==> forall e | e in s.log :: Rank(e) < 5)
  }

  /** The two per-goroutine clauses, which the main goroutine never touches. */
  ghost predicate GoroutinesOk(env: Env, s: State) {
    && PubsOk(env, s)
    && (forall w: nat | w < |s.pubs| :: Faithful(env, s, w))
    && (forall w: nat | w < |s.snaps| :: Counted(s, w))
  }

  ghost predicate Invariant(env: Env, s: State) {
    GoroutinesOk(env, s) && StageOk(env, s) && LogOk(env, s) && SnapsHeldBack(s) && SnapsFollowStage(env, s)
  }

  // ---- one step ----

  lemma ProjectionOfAppend(log: seq<Entry>, e: Entry, w: nat)
    ensures Projection(log + [e], w) == Projection(log, w) + if e.Published? && e.w == w then [e] else []
  {
    assert (log + [e])[..|log|] == log;
  }

  /** Appending one entry that is not below anything logged so far. */
  lemma AppendKeepsOrder(log: seq<Entry>, e: Entry, rank: nat)
    requires InOrder(log) && (forall x | x in log :: Rank(x) <= rank) && rank <= Rank(e)
    ensures InOrder(log + [e])
  {
    forall i, j | 0 <= i < j < |log + [e]|
      ensures Rank((log + [e])[i]) <= Rank((log + [e])[j])
    {
      if j == |log| {
        assert log[i] in log;
      }
    }
  }

  lemma MainKeepsGoroutines(env: Env, s: State, t: State, e: Entry)
    requires GoroutinesOk(env, s) && !e.Published? && !AboutSnapshot(e)
    requires t.pubs == s.pubs && t.snaps == s.snaps && t.log in {s.log, s.log + [e]}
    ensures GoroutinesOk(env, t)
  {
    forall w: nat | w < |t.pubs|
      ensures Faithful(env, t, w)
    {
      assert Faithful(env, s, w);
      ProjectionOfAppend(s.log, e, w);
    }
    forall w: nat | w < |t.snaps|
      ensures Counted(t, w)
    {
      assert Counted(s, w);
    }
  }

  /** The main goroutine logs at most one entry, which belongs to its stage. */
  lemma MainAppends(env: Env, s: State) returns (emitted: seq<Entry>)
    requires !s.stage.Returned?
    ensures var t := MainStep(env, s);
            && t.log == s.log + emitted && |emitted| <= 1
            && t.pubs == s.pubs && t.snaps == s.snaps && StageRank(s.stage) <= StageRank(t.stage)
    ensures emitted != [] ==>
              && Rank(emitted[0]) == StageRank(s.stage)
              && !emitted[0].Published? && !AboutSnapshot(emitted[0])
  {
    emitted :=
      match s.stage
      case Scoring => [Scored]
      case Extras => if env.extraScorer then [ExtrasScored] else []
      case Confirming => if env.autoConfirmer then [SlotsConfirmed] else []
      case Invalidating(i) => if i < env.invalidators then [Invalidated(i)] else []
      case _ => [];
  }

  lemma MainKeepsLog(env: Env, s: State)
    requires PubsOk(env, s) && StageOk(env, s) && LogOk(env, s) && Enabled(env, s, Main)
    ensures LogOk(env, Next(env, s, Main))
  {
    var emitted := MainAppends(env, s);
    if emitted == [] {
      assert s.log + emitted == s.log;
    } else {
      assert emitted == [emitted[0]];
      AppendKeepsOrder(s.log, emitted[0], StageRank(s.stage));
    }
  }

  lemma MainKeepsStage(env: Env, s: State)
    requires PubsOk(env, s) && StageOk(env, s) && Enabled(env, s, Main)
    ensures StageOk(env, Next(env, s, Main))
  {
    var t := Next(env, s, Main);
    assert t.pubs == s.pubs && t.snaps == s.snaps;
    assert forall x | x in s.log :: x in t.log;
    if s.stage.Invalidating? && s.stage.next < env.invalidators {
      assert t.log == s.log + [Invalidated(s.stage.next)];
    } else if s.stage.Invalidating? || s.stage.Broadcasting? || s.stage.Snapshotting? {
      assert t.log == s.log;
    }
  }

  lemma MainKeepsInvariant(env: Env, s: State)
    requires Invariant(env, s) && Enabled(env, s, Main)
    ensures Invariant(env, Next(env, s, Main))
  {
    MainKeepsStage(env, s);
    MainKeepsLog(env, s);
    var t := Next(env, s, Main);
    var emitted := MainAppends(env, s);
    var e := if emitted == [] then Scored else emitted[0];
    assert emitted == [] || emitted == [e];
    assert emitted == [] ==> t.log == s.log;
    MainKeepsGoroutines(env, s, t, e);
  }

  /** With member m done, the traces of the members after it are left. */
  lemma NextMember(env: Env, w: nat, m: nat)
    requires w < |env.Quinielas()| && m < |env.Members(env.Quinielas()[w])|
    ensures var last := m + 1 == |env.Members(env.Quinielas()[w])|;
            Rest(env, w, if last then PubDone else PubAt(m + 1, 1)) == QuinielaTrace(env, w, m + 1)
  {
  }

  lemma LastAttempt(env: Env, w: nat, m: nat, a: nat)
    requires PubOk(env, w, PubAt(m, a))
    requires Ends(env, env.Quinielas()[w], m, a)
    ensures PubOk(env, w, AfterAttempt(env, w, m, a))
    ensures MemberTrace(env, w, m, a) == [Attempt(env, w, m, a)]
    ensures Rest(env, w, AfterAttempt(env, w, m, a)) == QuinielaTrace(env, w, m + 1)
  {
    NextMember(env, w, m);
  }

  lemma FailedAttempt(env: Env, w: nat, m: nat, a: nat)
    requires PubOk(env, w, PubAt(m, a))
    requires !Ends(env, env.Quinielas()[w], m, a)
    ensures AfterAttempt(env, w, m, a) == PubAt(m, a + 1)
    ensures MemberTrace(env, w, m, a) == [Attempt(env, w, m, a)] + MemberTrace(env, w, m, a + 1)
  {
  }

  lemma LastConsumesRest(env: Env, w: nat, m: nat, a: nat)
    requires PubOk(env, w, PubAt(m, a)) && Ends(env, env.Quinielas()[w], m, a)
    requires PubOk(env, w, AfterAttempt(env, w, m, a))
    ensures Rest(env, w, PubAt(m, a)) == [Attempt(env, w, m, a)] + Rest(env, w, AfterAttempt(env, w, m, a))
  {
    LastAttempt(env, w, m, a);
  }

  lemma FailedConsumesRest(env: Env, w: nat, m: nat, a: nat)
    requires PubOk(env, w, PubAt(m, a)) && !Ends(env, env.Quinielas()[w], m, a)
    requires PubOk(env, w, AfterAttempt(env, w, m, a))
    ensures Rest(env, w, PubAt(m, a)) == [Attempt(env, w, m, a)] + Rest(env, w, AfterAttempt(env, w, m, a))
  {
    FailedAttempt(env, w, m, a);
    Associative([Attempt(env, w, m, a)], MemberTrace(env, w, m, a + 1), QuinielaTrace(env, w, m + 1));
  }

  lemma AfterAttemptOk(env: Env, w: nat, m: nat, a: nat)
    requires PubOk(env, w, PubAt(m, a))
    ensures PubOk(env, w, AfterAttempt(env, w, m, a))
  {
  }

  /** Making the attempt at (m, a) takes exactly that attempt off the remaining trace. */
  lemma AttemptConsumesRest(env: Env, w: nat, m: nat, a: nat)
    requires PubOk(env, w, PubAt(m, a))
    ensures PubOk(env, w, AfterAttempt(env, w, m, a))
    ensures Rest(env, w, PubAt(m, a)) == [Attempt(env, w, m, a)] + Rest(env, w, AfterAttempt(env, w, m, a))
  {
    AfterAttemptOk(env, w, m, a);
    if Ends(env, env.Quinielas()[w], m, a) {
      LastConsumesRest(env, w, m, a);
    } else {
      FailedConsumesRest(env, w, m, a);
    }
  }

  /** The moving publisher's log entries and remaining work still make up its trace. */
  lemma MoverKeepsFaithful(env: Env, s: State, w: nat)
    requires PubsOk(env, s) && Enabled(env, s, Pub(w)) && PubsOk(env, Next(env, s, Pub(w)))
    requires Faithful(env, s, w)
    ensures Faithful(env, Next(env, s, Pub(w)), w)
  {
    var t, p := Next(env, s, Pub(w)), s.pubs[w];
    assert PubOk(env, w, p);
    if p.PubAt? {
      var e := Attempt(env, w, p.member, p.attempt);
      var left := Rest(env, w, AfterAttempt(env, w, p.member, p.attempt));
      ProjectionOfAppend(s.log, e, w);
      AttemptConsumesRest(env, w, p.member, p.attempt);
      Associative(Projection(s.log, w), [e], left);
      assert Projection(t.log, w) == Projection(s.log, w) + [e];
    } else {
      assert Rest(env, w, t.pubs[w]) == Rest(env, w, p);
    }
  }

  lemma PubKeepsFaithful(env: Env, s: State, w: nat, v: nat)
    requires GoroutinesOk(env, s) && Enabled(env, s, Pub(w)) && v < |s.pubs|
    requires PubsOk(env, Next(env, s, Pub(w)))
    ensures Faithful(env, Next(env, s, Pub(w)), v)
  {
    assert Faithful(env, s, v);
    if v == w {
      MoverKeepsFaithful(env, s, w);
    } else {
      OthersKeepProjection(env, s, w, v);
    }
  }

  lemma OthersKeepProjection(env: Env, s: State, w: nat, v: nat)
    requires PubsOk(env, s) && Enabled(env, s, Pub(w)) && v < |s.pubs| && v != w
    ensures var t := Next(env, s, Pub(w));
            Projection(t.log, v) == Projection(s.log, v) && t.pubs[v] == s.pubs[v]
  {
    assert PubOk(env, w, s.pubs[w]);
    if s.pubs[w].PubAt? {
      ProjectionOfAppend(s.log, Attempt(env, w, s.pubs[w].member, s.pubs[w].attempt), v);
    }
  }

  lemma PubKeepsInvariant(env: Env, s: State, w: nat)
    requires Invariant(env, s) && Enabled(env, s, Pub(w))
    ensures Invariant(env, Next(env, s, Pub(w)))
  {
    var t := Next(env, s, Pub(w));
    var p := s.pubs[w];
    assert PubOk(env, w, p);
    if p.PubAt? {
      AttemptConsumesRest(env, w, p.member, p.attempt);
      AppendKeepsOrder(s.log, Attempt(env, w, p.member, p.attempt), 6);
    }
    assert PubsOk(env, t);
    forall v: nat | v < |t.pubs|
      ensures Faithful(env, t, v)
    {
      PubKeepsFaithful(env, s, w, v);
    }
    forall v: nat | v < |t.snaps|
      ensures Counted(t, v)
    {
      assert Counted(s, v);
    }
  }

  lemma SnapKeepsFaithful(env: Env, s: State, w: nat, acquired: bool, v: nat)
    requires PubsOk(env, s) && Enabled(env, s, Snap(w, acquired)) && v < |s.pubs| && Faithful(env, s, v)
    ensures var t := Next(env, s, Snap(w, acquired)); PubsOk(env, t) && Faithful(env, t, v)
  {
    var t := Next(env, s, Snap(w, acquired));
    ProjectionOfAppend(s.log, Snapshotted(w), v);
    ProjectionOfAppend(s.log, SnapshotStarted(w), v);
    assert t.pubs == s.pubs && |t.snaps| == |s.snaps|;
    assert Projection(t.log, v) == Projection(s.log, v);
  }

  lemma SnapKeepsCounted(env: Env, s: State, w: nat, acquired: bool, v: nat)
    requires PubsOk(env, s) && Enabled(env, s, Snap(w, acquired))
    requires v < |s.snaps| && Counted(s, v)
    ensures Counted(Next(env, s, Snap(w, acquired)), v)
  {
  }

  lemma SnapKeepsLog(env: Env, s: State, w: nat, acquired: bool)
    requires PubsOk(env, s) && StageOk(env, s) && LogOk(env, s) && Enabled(env, s, Snap(w, acquired))
    ensures StageOk(env, Next(env, s, Snap(w, acquired))) && LogOk(env, Next(env, s, Snap(w, acquired)))
  {
    AppendKeepsOrder(s.log, Snapshotted(w), 7);
    AppendKeepsOrder(s.log, SnapshotStarted(w), 7);
  }

  lemma SnapKeepsInvariant(env: Env, s: State, w: nat, acquired: bool)
    requires Invariant(env, s) && Enabled(env, s, Snap(w, acquired))
    ensures Invariant(env, Next(env, s, Snap(w, acquired)))
  {
    var t := Next(env, s, Snap(w, acquired));
    forall v: nat | v < |t.pubs|
      ensures PubsOk(env, t) && Faithful(env, t, v) && Counted(t, v)
    {
      assert Faithful(env, s, v) && Counted(s, v);
      SnapKeepsFaithful(env, s, w, acquired, v);
      SnapKeepsCounted(env, s, w, acquired, v);
    }
    SnapKeepsLog(env, s, w, acquired);
  }

  // ---- every run ----

  lemma StepKeepsInvariant(env: Env, s: State, step: Step)
    requires Invariant(env, s) && Enabled(env, s, step)
    ensures Invariant(env, Next(env, s, step))
  {
    match step {
      case Main => MainKeepsInvariant(env, s);
      case Pub(w) => PubKeepsInvariant(env, s, w);
      case Snap(w, acquired) => SnapKeepsInvariant(env, s, w, acquired);
    }
  }

  lemma {:induction false} RunKeepsInvariant(env: Env, s: State, steps: seq<Step>)
    requires Invariant(env, s) && IsRun(env, s, steps)
    ensures Invariant(env, After(env, s, steps))
    decreases |steps|
  {
    if steps != [] {
      StepKeepsInvariant(env, s, steps[0]);
      RunKeepsInvariant(env, Next(env, s, steps[0]), steps[1..]);
    }
  }

  lemma Reachable(env: Env, steps: seq<Step>)
    requires IsRun(env, Start(env), steps)
    ensures Invariant(env, After(env, Start(env), steps))
  {
    var s := Start(env);
    forall w: nat | w < |s.pubs|
      ensures Faithful(env, s, w) && Counted(s, w)
    {
      assert Projection([], w) == [];
    }
    RunKeepsInvariant(env, s, steps);
  }

  /** The handler returns an error exactly when the payload decodes and ScoreMatch fails:
      no later failure, in any interleaving, is ever reported to the bus. */
  lemma HandlerErrorExactlyWhen(env: Env, steps: seq<Step>)
    requires IsRun(env, Start(env), steps) && After(env, Start(env), steps).stage.Returned?
    ensures After(env, Start(env), steps).stage.failed <==> env.decodes && !env.scores
  {
    Reachable(env, steps);
  }

  // ---- order ----

  lemma {:induction false} ProjectionOfPrefix(log: seq<Entry>, w: nat, j: nat)
    requires j <= |log| && forall k | j <= k < |log| :: !log[k].Published?
    ensures Projection(log[..j], w) == Projection(log, w)
  {
    if j == |log| {
      assert log[..j] == log;
    } else {
      assert log[..|log| - 1][..j] == log[..j];
      ProjectionOfPrefix(log[..|log| - 1], w, j);
    }
  }

  lemma EarlierThan(log: seq<Entry>, e: Entry, j: nat)
    requires InOrder(log) && e in log && j < |log| && Rank(e) < Rank(log[j])
    ensures e in log[..j]
  {
    var i :| 0 <= i < |log| && log[i] == e;
    assert i < j;
    assert log[..j][i] == e;
  }

  lemma FlushedBefore(env: Env, s: State, j: nat)
    requires Invariant(env, s) && j < |s.log| && (s.log[j].Published? || AboutSnapshot(s.log[j]))
    ensures AllFlushed(env, s.log[..j], env.invalidators)
  {
    assert s.log[j] in s.log && 6 <= Rank(s.log[j]) <= StageRank(s.stage);
    forall i: nat | i < env.invalidators
      ensures Invalidated(i) in s.log[..j]
    {
      EarlierThan(s.log, Invalidated(i), j);
    }
  }

  lemma PublishersDone(env: Env, s: State)
    requires StageOk(env, s) && Proceeds(env) && env.broadcaster && StageRank(s.stage) >= 7
    ensures AllPublished(s)
  {
  }

  lemma DoneIsWholeTrace(env: Env, s: State, w: nat)
    requires PubsOk(env, s) && w < |s.pubs| && Faithful(env, s, w) && s.pubs[w].PubDone?
    ensures Projection(s.log, w) == QuinielaTrace(env, w, 0)
  {
    assert Projection(s.log, w) + [] == Projection(s.log, w);
  }

  lemma PublishedBefore(env: Env, s: State, j: nat, w: nat)
    requires GoroutinesOk(env, s) && AllPublished(s) && InOrder(s.log)
    requires j < |s.log| && AboutSnapshot(s.log[j]) && w < |s.pubs|
    ensures Projection(s.log[..j], w) == QuinielaTrace(env, w, 0)
  {
    assert Faithful(env, s, w) && s.pubs[w] in s.pubs;
    DoneIsWholeTrace(env, s, w);
    forall k | j <= k < |s.log|
      ensures !s.log[k].Published?
    {
      assert Rank(s.log[j]) <= Rank(s.log[k]);
    }
    ProjectionOfPrefix(s.log, w, j);
  }

  /** Under every failure pattern, cancellation and interleaving: by the first publish
      every invalidator has finished, and before any snapshot goes for its lock so has
      every publisher. */
  lemma PipelineOrder(env: Env, steps: seq<Step>, j: nat)
    requires IsRun(env, Start(env), steps) && j < |After(env, Start(env), steps).log|
    ensures var log := After(env, Start(env), steps).log;
            && (log[j].Published? || AboutSnapshot(log[j]) ==> AllFlushed(env, log[..j], env.invalidators))
            && (AboutSnapshot(log[j]) && env.broadcaster ==>
                  forall w: nat | w < |env.Quinielas()| :: Projection(log[..j], w) == QuinielaTrace(env, w, 0))
  {
    Reachable(env, steps);
    var s := After(env, Start(env), steps);
    if s.log[j].Published? || AboutSnapshot(s.log[j]) {
      FlushedBefore(env, s, j);
    }
    if AboutSnapshot(s.log[j]) && env.broadcaster {
      assert s.log[j] in s.log;
      PublishersDone(env, s);
      forall w: nat | w < |env.Quinielas()|
        ensures Projection(s.log[..j], w) == QuinielaTrace(env, w, 0)
      {
        PublishedBefore(env, s, j, w);
      }
    }
  }

  /** At every moment of every run: a snapshot goroutine that has been started at all, be
      it still waiting for its permit, finds the caches flushed and every publisher done. */
  lemma SnapshotsWaitForPublishers(env: Env, steps: seq<Step>, w: nat)
    requires IsRun(env, Start(env), steps)
    requires var s := After(env, Start(env), steps); w < |s.snaps| && !s.snaps[w].SnapWaiting?
    ensures var s := After(env, Start(env), steps);
            && AllFlushed(env, s.log, env.invalidators)
            && (env.broadcaster ==> AllPublished(s))
  {
    Reachable(env, steps);
    var s := After(env, Start(env), steps);
    assert s.snaps[w] in s.snaps;
  }

  /** Once the handler has returned, every listed quiniela whose permit was granted has
      gone for its lock and been snapshotted once, and no other has. */
  lemma EachSnapshottedOnce(env: Env, steps: seq<Step>, w: nat)
    requires IsRun(env, Start(env), steps) && After(env, Start(env), steps).stage.Returned?
    requires Proceeds(env) && env.snapshotter && w < |env.Quinielas()|
    ensures var s := After(env, Start(env), steps);
            && w < |s.snaps| && s.snaps[w].SnapDone?
            && multiset(s.log)[Snapshotted(w)] == (if s.snaps[w].ran then 1 else 0)
            && multiset(s.log)[SnapshotStarted(w)] == (if s.snaps[w].ran then 1 else 0)
  {
    Reachable(env, steps);
    var s := After(env, Start(env), steps);
    assert Counted(s, w) && s.snaps[w] in s.snaps;
  }

  // ---- broadcast ----

  /** Whatever the schedule, each publisher's part of the log is the trace of the
      sequential broadcastForQuiniela under the same answers, cut waits included. */
  lemma BroadcastIsScheduleIndependent(env: Env, steps: seq<Step>, w: nat)
    requires IsRun(env, Start(env), steps) && After(env, Start(env), steps).stage.Returned?
    requires Proceeds(env) && env.broadcaster && w < |env.Quinielas()|
    ensures Projection(After(env, Start(env), steps).log, w) == QuinielaTrace(env, w, 0)
  {
    Reachable(env, steps);
    var s := After(env, Start(env), steps);
    assert Faithful(env, s, w) && s.pubs[w] in s.pubs;
  }

  /** Some attempt at this member within the limit succeeds, and no wait before it is cut. */
  ghost predicate Reaches(env: Env, q: int, m: nat, from: nat) {
    exists a: nat | from <= a <= env.Attempts() :: env.delivers(q, m, a) && Uncut(env, q, m, from, a)
  }

  /** The context ends none of the waits after the attempts from..a. */
  predicate Uncut(env: Env, q: int, m: nat, from: nat, a: nat) {
    forall b: nat | from <= b < a :: !env.cuts(q, m, b)
  }

  lemma ReachesNext(env: Env, q: int, m: nat, a: nat)
    requires !Ends(env, q, m, a) && a <= env.Attempts()
    ensures Reaches(env, q, m, a) <==> Reaches(env, q, m, a + 1)
  {
    if Reaches(env, q, m, a) {
      var b: nat :| a <= b <= env.Attempts() && env.delivers(q, m, b) && Uncut(env, q, m, a, b);
      assert Uncut(env, q, m, a + 1, b);
    }
    if Reaches(env, q, m, a + 1) {
      var b: nat :| a + 1 <= b <= env.Attempts() && env.delivers(q, m, b) && Uncut(env, q, m, a + 1, b);
      assert Uncut(env, q, m, a, b);
    }
  }

  lemma ReachesNow(env: Env, q: int, m: nat, a: nat)
    requires Ends(env, q, m, a) && a <= env.Attempts()
    ensures Reaches(env, q, m, a) <==> env.delivers(q, m, a)
  {
    if env.delivers(q, m, a) {
      assert Uncut(env, q, m, a, a);
    }
  }

  /** `trace` holds the attempts from `a` on, one after the other. */
  predicate Consecutive(env: Env, w: nat, m: nat, a: nat, trace: seq<Entry>)
    requires PubOk(env, w, PubAt(m, 1))
  {
    forall b: nat {:trigger Attempt(env, w, m, b)} | a <= b < a + |trace| :: trace[b - a] == Attempt(env, w, m, b)
  }

  lemma OneAttemptMore(env: Env, w: nat, m: nat, a: nat, rest: seq<Entry>)
    requires PubOk(env, w, PubAt(m, 1)) && Consecutive(env, w, m, a + 1, rest)
    ensures Consecutive(env, w, m, a, [Attempt(env, w, m, a)] + rest)
  {
  }

  /** The attempts of a trace are consecutive. */
  lemma {:induction false} TraceAttempts(env: Env, w: nat, m: nat, a: nat)
    requires PubOk(env, w, PubAt(m, a))
    ensures 1 <= |MemberTrace(env, w, m, a)| <= env.Attempts() + 1 - a
    ensures Consecutive(env, w, m, a, MemberTrace(env, w, m, a))
    decreases env.Attempts() - a
  {
    MemberTraceStep(env, w, m, a);
    if Ends(env, env.Quinielas()[w], m, a) {
      OneAttemptMore(env, w, m, a, []);
    } else {
      TraceAttempts(env, w, m, a + 1);
      OneAttemptMore(env, w, m, a, MemberTrace(env, w, m, a + 1));
    }
  }

  /** Exactly the last attempt of a trace ends it. */
  lemma {:induction false} TraceEnds(env: Env, w: nat, m: nat, a: nat)
    requires PubOk(env, w, PubAt(m, a))
    ensures var q := env.Quinielas()[w]; var n := |MemberTrace(env, w, m, a)|;
            && n >= 1 && Ends(env, q, m, a + n - 1)
            && (forall b: nat | a <= b < a + n - 1 :: !Ends(env, q, m, b))
            && (Reaches(env, q, m, a) <==> env.delivers(q, m, a + n - 1))
    decreases env.Attempts() - a
  {
    var q := env.Quinielas()[w];
    if Ends(env, q, m, a) {
      ReachesNow(env, q, m, a);
    } else {
      TraceEnds(env, w, m, a + 1);
      ReachesNext(env, q, m, a);
      assert |MemberTrace(env, w, m, a)| == 1 + |MemberTrace(env, w, m, a + 1)|;
    }
  }

  /** A member gets one successful publish, as the last of its attempts, exactly when some
      attempt would succeed before a wait is cut; otherwise only failures, and exactly
      maxAttempts of them unless the context cut the wait after the last. */
  lemma MemberTraceMeaning(env: Env, w: nat, m: nat)
    requires PubOk(env, w, PubAt(m, 1))
    ensures var q := env.Quinielas()[w]; var trace := MemberTrace(env, w, m, 1); var n := |trace|;
            && 1 <= n <= env.Attempts()
            && (forall a: nat {:trigger Attempt(env, w, m, a)} | 1 <= a <= n :: trace[a - 1] == Attempt(env, w, m, a))
            && (forall a: nat | 1 <= a < n :: !env.delivers(q, m, a) && !env.cuts(q, m, a))
            && (Reaches(env, q, m, 1) <==> env.delivers(q, m, n))
            && (!Reaches(env, q, m, 1) ==> n == env.Attempts() || env.cuts(q, m, n))
  {
    TraceAttempts(env, w, m, 1);
    TraceEnds(env, w, m, 1);
    var q, n := env.Quinielas()[w], |MemberTrace(env, w, m, 1)|;
    forall a: nat | 1 <= a < n
      ensures !env.delivers(q, m, a) && !env.cuts(q, m, a)
    {
      assert !Ends(env, q, m, a);
    }
  }

  function DeliversTo(env: Env, q: int, m: nat): Retry.Answers { (a: nat) => env.delivers(q, m, a) }

  function CutsFor(env: Env, q: int, m: nat): Retry.Answers { (a: nat) => env.cuts(q, m, a) }

  /** The trace is as long as the retry loop with these answers, and ends as it ends. */
  lemma MemberTraceIsRetry(env: Env, w: nat, m: nat, base: nat, r: Retry.Outcome)
    requires PubOk(env, w, PubAt(m, 1))
    requires var q := env.Quinielas()[w];
             Retry.IsRetry(DeliversTo(env, q, m), CutsFor(env, q, m), env.Attempts(), base, r)
    ensures var trace := MemberTrace(env, w, m, 1);
            |trace| == r.calls && trace[r.calls - 1] == Attempt(env, w, m, r.calls)
            && env.delivers(env.Quinielas()[w], m, r.calls) == r.succeeded
  {
    var q, trace := env.Quinielas()[w], MemberTrace(env, w, m, 1);
    MemberTraceMeaning(env, w, m);
    var n: nat := |trace|;
    assert trace[n - 1] == Attempt(env, w, m, n);
    Retry.RetryStopsAt(DeliversTo(env, q, m), CutsFor(env, q, m), env.Attempts(), base, r, n);
  }

  lemma {:induction false} DeliveredOfConcat(s: seq<Entry>, t: seq<Entry>)
    ensures Delivered(s + t) == Delivered(s) + Delivered(t)
  {
    if s == [] {
      assert s + t == t;
    } else {
      DeliveredOfConcat(s[1..], t);
      assert (s + t)[1..] == s[1..] + t;
      var head := if s[0].Published? && s[0].ok then [s[0].uid] else [];
      assert Delivered(s + t) == head + Delivered(s[1..] + t);
      Associative(head, Delivered(s[1..]), Delivered(t));
    }
  }

  lemma {:induction false} MemberDelivered(env: Env, w: nat, m: nat, a: nat)
    requires PubOk(env, w, PubAt(m, a))
    ensures var q := env.Quinielas()[w];
            Delivered(MemberTrace(env, w, m, a)) == if Reaches(env, q, m, a) then [env.Members(q)[m]] else []
    decreases env.Attempts() - a
  {
    var q := env.Quinielas()[w];
    var e := Attempt(env, w, m, a);
    if Ends(env, q, m, a) {
      ReachesNow(env, q, m, a);
      assert MemberTrace(env, w, m, a) == [e];
      assert Delivered([e]) == if e.ok then [e.uid] else [];
    } else {
      var rest := MemberTrace(env, w, m, a + 1);
      MemberDelivered(env, w, m, a + 1);
      assert MemberTrace(env, w, m, a) == [e] + rest;
      assert ([e] + rest)[1..] == rest;
      ReachesNext(env, q, m, a);
    }
  }

  /** Members `m` and up that some attempt reaches, in list order. */
  ghost function Reachables(env: Env, q: int, m: nat): seq<int>
    requires m <= |env.Members(q)|
    decreases |env.Members(q)| - m
  {
    if m == |env.Members(q)| then []
    else (if Reaches(env, q, m, 1) then [env.Members(q)[m]] else []) + Reachables(env, q, m + 1)
  }

  lemma QuinielaStep(env: Env, w: nat, m: nat)
    requires w < |env.Quinielas()| && m < |env.Members(env.Quinielas()[w])|
    ensures QuinielaTrace(env, w, m) == MemberTrace(env, w, m, 1) + QuinielaTrace(env, w, m + 1)
  {
  }

  lemma ReachablesStep(env: Env, q: int, m: nat)
    requires m < |env.Members(q)|
    ensures Reachables(env, q, m)
         == (if Reaches(env, q, m, 1) then [env.Members(q)[m]] else []) + Reachables(env, q, m + 1)
  {
  }

  lemma {:induction false} QuinielaDelivered(env: Env, w: nat, m: nat)
    requires w < |env.Quinielas()| && m <= |env.Members(env.Quinielas()[w])|
    ensures Delivered(QuinielaTrace(env, w, m)) == Reachables(env, env.Quinielas()[w], m)
    decreases |env.Members(env.Quinielas()[w])| - m
  {
    if m < |env.Members(env.Quinielas()[w])| {
      var first, later := MemberTrace(env, w, m, 1), QuinielaTrace(env, w, m + 1);
      QuinielaStep(env, w, m);
      DeliveredOfConcat(first, later);
      MemberDelivered(env, w, m, 1);
      QuinielaDelivered(env, w, m + 1);
      ReachablesStep(env, env.Quinielas()[w], m);
    }
  }

  lemma {:induction false} AllReachable(env: Env, q: int, m: nat)
    requires m <= |env.Members(q)| && forall k: nat | m <= k < |env.Members(q)| :: Reaches(env, q, k, 1)
    ensures Reachables(env, q, m) == env.Members(q)[m..]
    decreases |env.Members(q)| - m
  {
    if m < |env.Members(q)| {
      AllReachable(env, q, m + 1);
    }
  }

  /** In every schedule, the users a quiniela's broadcast reached are, in order, the
      members some attempt reaches; all of them when each has a success in time. */
  lemma BroadcastReaches(env: Env, steps: seq<Step>, w: nat)
    requires IsRun(env, Start(env), steps) && After(env, Start(env), steps).stage.Returned?
    requires Proceeds(env) && env.broadcaster && w < |env.Quinielas()|
    ensures var q := env.Quinielas()[w];
            var reached := Delivered(Projection(After(env, Start(env), steps).log, w));
            && reached == Reachables(env, q, 0)
            && ((forall k: nat | k < |env.Members(q)| :: Reaches(env, q, k, 1)) ==> reached == env.Members(q))
  {
    var q := env.Quinielas()[w];
    BroadcastIsScheduleIndependent(env, steps, w);
    QuinielaDelivered(env, w, 0);
    if forall k: nat | k < |env.Members(q)| :: Reaches(env, q, k, 1) {
      AllReachable(env, q, 0);
    }
  }
}
