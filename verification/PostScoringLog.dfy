/** The whole log of a finished event, entry by entry: nothing that is due is left out,
    nothing is done twice, and nothing else is done. */
module PostScoringLog {
  import opened Wrappers
  import opened Seqs
  import opened PostScoring
  import opened PostScoringProofs

  function Bit(b: bool): nat { if b then 1 else 0 }

  // ---- what is due ----

  /** This attempt is made: it is addressed to the listed member of the listed quiniela, and
      all attempts before it failed without a cut wait. */
  predicate IsDuePublish(env: Env, e: Entry)
    requires e.Published? && Proceeds(env)
  {
    && e.w < |env.listing.value|
    && var q := env.listing.value[e.w];
       && env.members(q).Some? && e.member < |env.members(q).value|
       && e.uid == env.members(q).value[e.member]
       && 1 <= e.attempt <= env.Attempts() && e.ok == env.delivers(q, e.member, e.attempt)
       && forall b: nat | 1 <= b < e.attempt :: !env.delivers(q, e.member, b) && !env.cuts(q, e.member, b)
  }

  /** How often an entry is in the log of a finished event; `ran` are the snapshot
      goroutines whose permit was granted. */
  function Due(env: Env, ran: set<nat>, e: Entry): nat {
    match e
    case Scored => Bit(env.decodes)
    case ExtrasScored => Bit(env.decodes && env.scores && env.extraScorer)
    case SlotsConfirmed => Bit(env.decodes && env.scores && env.autoConfirmer)
    case Invalidated(i) => Bit(Proceeds(env) && i < env.invalidators)
    case Published(_, _, _, _, _) => Bit(Proceeds(env) && env.broadcaster && IsDuePublish(env, e))
    case SnapshotStarted(w) => Bit(w in ran)
    case Snapshotted(w) => Bit(w in ran)
  }

  function Ran(s: State): set<nat> { set w: nat | w < |s.snaps| && s.snaps[w] == SnapDone(true) }

  // ---- the main goroutine's entries ----

  predicate IsMain(e: Entry) { !e.Published? && !AboutSnapshot(e) }

  /** How often the main goroutine has logged an entry by the time it reaches a stage. */
  function DueBy(env: Env, stage: Stage, e: Entry): nat {
    var r := StageRank(stage);
    match e
    case Scored => Bit(env.decodes && r >= 2)
    case ExtrasScored => Bit(env.decodes && env.scores && env.extraScorer && r >= 3)
    case SlotsConfirmed => Bit(env.decodes && env.scores && env.autoConfirmer && r >= 4)
    case Invalidated(i) =>
      Bit(Proceeds(env) && if stage.Invalidating? then i < stage.next else i < env.invalidators && r >= 6)
    case _ => 0
  }

  lemma CountConcat<T>(a: seq<T>, b: seq<T>, x: T)
    ensures multiset(a + b)[x] == multiset(a)[x] + multiset(b)[x]
  {
  }

  lemma CountOne<T>(y: T, x: T)
    ensures multiset([y])[x] == if x == y then 1 else 0
  {
  }

  /** What becomes due with a stage of the main goroutine is what it logs there. */
  lemma DueNext(env: Env, s: State, e: Entry)
    requires StageOk(env, s) && Enabled(env, s, Main) && IsMain(e) && !s.stage.Invalidating?
    ensures DueBy(env, MainStep(env, s).stage, e) == DueBy(env, s.stage, e)
            + match s.stage
              case Scoring => Bit(e == Scored)
              case Extras => Bit(env.extraScorer && e == ExtrasScored)
              case Confirming => Bit(env.autoConfirmer && e == SlotsConfirmed)
              case _ => 0
  {
  }

  lemma DueAfterFlush(env: Env, s: State, e: Entry)
    requires StageOk(env, s) && Enabled(env, s, Main) && IsMain(e) && s.stage.Invalidating?
    ensures var i := s.stage.next;
            DueBy(env, MainStep(env, s).stage, e) ==
            DueBy(env, s.stage, e) + Bit(i < env.invalidators && e == Invalidated(i))
  {
  }

  lemma MainKeepsCount(env: Env, s: State, e: Entry)
    requires StageOk(env, s) && Enabled(env, s, Main) && IsMain(e)
    requires multiset(s.log)[e] == DueBy(env, s.stage, e)
    ensures multiset(MainStep(env, s).log)[e] == DueBy(env, MainStep(env, s).stage, e)
  {
    if s.stage.Invalidating? {
      DueAfterFlush(env, s, e);
      FlushLogs(env, s, e);
    } else {
      DueNext(env, s, e);
      StageLogs(env, s, e);
    }
  }

  lemma FlushLogs(env: Env, s: State, e: Entry)
    requires s.stage.Invalidating?
    ensures multiset(MainStep(env, s).log)[e]
         == multiset(s.log)[e] + Bit(s.stage.next < env.invalidators && e == Invalidated(s.stage.next))
  {
    OneEntry(s.log, Invalidated(s.stage.next), e);
    assert s.log + [] == s.log;
  }

  lemma StageLogs(env: Env, s: State, e: Entry)
    requires !s.stage.Invalidating? && !s.stage.Returned?
    ensures multiset(MainStep(env, s).log)[e] == multiset(s.log)[e]
            + match s.stage
              case Scoring => Bit(e == Scored)
              case Extras => Bit(env.extraScorer && e == ExtrasScored)
              case Confirming => Bit(env.autoConfirmer && e == SlotsConfirmed)
              case _ => 0
  {
    assert s.log + [] == s.log;
    OneEntry(s.log, Scored, e);
    OneEntry(s.log, ExtrasScored, e);
    OneEntry(s.log, SlotsConfirmed, e);
  }

  lemma OneEntry(log: seq<Entry>, x: Entry, e: Entry)
    ensures multiset(log + [x])[e] == multiset(log)[e] + if e == x then 1 else 0
  {
  }

  lemma GoroutineKeepsCount(env: Env, s: State, step: Step, e: Entry)
    requires PubsOk(env, s) && Enabled(env, s, step) && !step.Main? && IsMain(e)
    ensures Next(env, s, step).stage == s.stage
    ensures multiset(Next(env, s, step).log)[e] == multiset(s.log)[e]
  {
    var t := Next(env, s, step);
    if t.log != s.log {
      OneEntry(s.log, t.log[|s.log|], e);
    }
  }

  lemma {:induction false} RunKeepsCount(env: Env, s: State, steps: seq<Step>, e: Entry)
    requires Invariant(env, s) && IsRun(env, s, steps) && IsMain(e)
    requires multiset(s.log)[e] == DueBy(env, s.stage, e)
    ensures var t := After(env, s, steps); multiset(t.log)[e] == DueBy(env, t.stage, e)
    decreases |steps|
  {
    if steps != [] {
      StepKeepsInvariant(env, s, steps[0]);
      if steps[0].Main? {
        MainKeepsCount(env, s, e);
      } else {
        GoroutineKeepsCount(env, s, steps[0], e);
      }
      RunKeepsCount(env, Next(env, s, steps[0]), steps[1..], e);
    }
  }

  // ---- goroutines and their dependencies ----

  /** Entries name existing goroutines, and without a dependency no goroutine moves. */
  ghost predicate GoroutinesFit(env: Env, s: State) {
    && (forall e | e in s.log :: (e.Published? ==> e.w < |s.pubs|) && (AboutSnapshot(e) ==> e.w < |s.snaps|))
    && (!env.broadcaster ==> forall p | p in s.pubs :: p.PubWaiting?)
    && (!env.snapshotter ==> forall p | p in s.snaps :: p.SnapWaiting?)
  }

  lemma MainKeepsFit(env: Env, s: State)
    requires Enabled(env, s, Main) && GoroutinesFit(env, s)
    ensures GoroutinesFit(env, MainStep(env, s))
  {
    var emitted := MainAppends(env, s);
    assert forall e | e in MainStep(env, s).log :: e in s.log || e in emitted;
  }

  lemma OthersKeepFit(env: Env, s: State, step: Step)
    requires PubsOk(env, s) && Enabled(env, s, step) && GoroutinesFit(env, s) && !step.Main?
    ensures GoroutinesFit(env, Next(env, s, step))
  {
    var t := Next(env, s, step);
    if t.log != s.log {
      assert forall e | e in t.log :: e in s.log || e == t.log[|s.log|];
    }
  }

  lemma StepKeepsFit(env: Env, s: State, step: Step)
    requires PubsOk(env, s) && Enabled(env, s, step) && GoroutinesFit(env, s)
    ensures GoroutinesFit(env, Next(env, s, step))
  {
    if step.Main? {
      MainKeepsFit(env, s);
    } else {
      OthersKeepFit(env, s, step);
    }
  }

  lemma {:induction false} RunKeepsFit(env: Env, s: State, steps: seq<Step>)
    requires Invariant(env, s) && GoroutinesFit(env, s) && IsRun(env, s, steps)
    ensures GoroutinesFit(env, After(env, s, steps))
    decreases |steps|
  {
    if steps != [] {
      StepKeepsInvariant(env, s, steps[0]);
      StepKeepsFit(env, s, steps[0]);
      RunKeepsFit(env, Next(env, s, steps[0]), steps[1..]);
    }
  }

  // ---- the publishers' entries ----

  /** All entries about publisher w are in its projection. */
  lemma {:induction false} ProjectionKeepsCount(log: seq<Entry>, e: Entry)
    requires e.Published?
    ensures multiset(log)[e] == multiset(Projection(log, e.w))[e]
  {
    if log != [] {
      var front, last := log[..|log| - 1], log[|log| - 1];
      ProjectionKeepsCount(front, e);
      assert log == front + [last];
    }
  }

  /** The attempts at member m from `from` on make way for attempt a. */
  predicate Reached(env: Env, q: int, m: nat, from: nat, a: nat) {
    from <= a <= env.Attempts() && forall b: nat | from <= b < a :: !env.delivers(q, m, b) && !env.cuts(q, m, b)
  }

  predicate IsAttempt(env: Env, w: nat, m: nat, e: Entry)
    requires w < |env.Quinielas()| && m < |env.Members(env.Quinielas()[w])|
  {
    e.Published? && e == Attempt(env, w, m, e.attempt)
  }

  lemma ReachedNext(env: Env, q: int, m: nat, from: nat, a: nat)
    requires a != from && 1 <= from <= env.Attempts()
    ensures Reached(env, q, m, from, a) <==> !Ends(env, q, m, from) && Reached(env, q, m, from + 1, a)
  {
  }

  /** How often attempt b is among those from `from` on. */
  function Made(env: Env, q: int, m: nat, from: nat, b: nat): nat
    requires 1 <= from <= env.Attempts()
    decreases env.Attempts() - from
  {
    Bit(b == from) + if Ends(env, q, m, from) then 0 else Made(env, q, m, from + 1, b)
  }

  lemma {:induction false} MadeExactlyWhen(env: Env, q: int, m: nat, from: nat, b: nat)
    requires 1 <= from <= env.Attempts()
    ensures Made(env, q, m, from, b) == Bit(Reached(env, q, m, from, b))
    decreases env.Attempts() - from
  {
    if b != from {
      ReachedNext(env, q, m, from, b);
    }
    if !Ends(env, q, m, from) {
      MadeExactlyWhen(env, q, m, from + 1, b);
    }
  }

  lemma FirstIsAttempt(env: Env, w: nat, m: nat, a: nat, e: Entry)
    requires PubOk(env, w, PubAt(m, a))
    ensures e == Attempt(env, w, m, a) <==> IsAttempt(env, w, m, e) && e.attempt == a
  {
  }

  /** A list that starts with x and goes on as `rest` does. */
  lemma CountCons(list: seq<Entry>, x: Entry, rest: seq<Entry>, e: Entry)
    requires list == [x] + rest
    ensures multiset(list)[e] == Bit(e == x) + multiset(rest)[e]
  {
    CountOne(x, e);
    CountConcat([x], rest, e);
  }

  function RestOf(env: Env, w: nat, m: nat, a: nat): seq<Entry>
    requires PubOk(env, w, PubAt(m, a))
  {
    if Ends(env, env.Quinielas()[w], m, a) then [] else MemberTrace(env, w, m, a + 1)
  }

  function TraceCount(env: Env, w: nat, m: nat, a: nat, e: Entry): nat
    requires PubOk(env, w, PubAt(m, a))
  {
    multiset(MemberTrace(env, w, m, a))[e]
  }

  lemma CountStep(env: Env, w: nat, m: nat, a: nat, e: Entry, mine: bool)
    requires PubOk(env, w, PubAt(m, a)) && mine == IsAttempt(env, w, m, e)
    ensures TraceCount(env, w, m, a, e)
         == Bit(mine && e.attempt == a)
            + if Ends(env, env.Quinielas()[w], m, a) then 0 else TraceCount(env, w, m, a + 1, e)
  {
    MemberTraceStep(env, w, m, a);
    FirstIsAttempt(env, w, m, a, e);
    CountCons(MemberTrace(env, w, m, a), Attempt(env, w, m, a), RestOf(env, w, m, a), e);
  }

  lemma {:induction false} CountAttempts(env: Env, w: nat, m: nat, a: nat, e: Entry, mine: bool)
    requires PubOk(env, w, PubAt(m, a)) && e.Published? && mine == IsAttempt(env, w, m, e)
    ensures TraceCount(env, w, m, a, e) == if mine then Made(env, env.Quinielas()[w], m, a, e.attempt) else 0
    decreases env.Attempts() - a
  {
    CountStep(env, w, m, a, e, mine);
    if !Ends(env, env.Quinielas()[w], m, a) {
      CountAttempts(env, w, m, a + 1, e, mine);
    }
  }

  lemma CountInMember(env: Env, w: nat, m: nat, e: Entry)
    requires PubOk(env, w, PubAt(m, 1)) && e.Published?
    ensures TraceCount(env, w, m, 1, e) == Bit(IsDueAt(env, w, m, e))
  {
    CountAttempts(env, w, m, 1, e, IsAttempt(env, w, m, e));
    MadeExactlyWhen(env, env.Quinielas()[w], m, 1, e.attempt);
  }

  predicate IsDueAt(env: Env, w: nat, m: nat, e: Entry)
    requires w < |env.Quinielas()| && m < |env.Members(env.Quinielas()[w])| && e.Published?
  {
    IsAttempt(env, w, m, e) && Reached(env, env.Quinielas()[w], m, 1, e.attempt)
  }

  predicate IsDueIn(env: Env, w: nat, m: nat, e: Entry)
    requires w < |env.Quinielas()| && e.Published?
  {
    var q := env.Quinielas()[w];
    m <= e.member < |env.Members(q)| && IsDueAt(env, w, e.member, e)
  }

  function QuinielaCount(env: Env, w: nat, m: nat, e: Entry): nat
    requires w < |env.Quinielas()| && m <= |env.Members(env.Quinielas()[w])|
  {
    multiset(QuinielaTrace(env, w, m))[e]
  }

  /** Only the traces of its own member count. */
  lemma CountMembers(env: Env, w: nat, m: nat, e: Entry)
    requires w < |env.Quinielas()| && m < |env.Members(env.Quinielas()[w])| && e.Published?
    ensures QuinielaCount(env, w, m, e)
         == (if m == e.member then TraceCount(env, w, m, 1, e) else 0) + QuinielaCount(env, w, m + 1, e)
  {
    QuinielaStep(env, w, m);
    CountConcat(MemberTrace(env, w, m, 1), QuinielaTrace(env, w, m + 1), e);
    CountInMember(env, w, m, e);
  }

  lemma {:induction false} CountInQuiniela(env: Env, w: nat, m: nat, e: Entry, size: nat, own: nat)
    requires w < |env.Quinielas()| && size == |env.Members(env.Quinielas()[w])| && m <= size && e.Published?
    requires e.member < size ==> own == TraceCount(env, w, e.member, 1, e)
    ensures QuinielaCount(env, w, m, e) == if m <= e.member < size then own else 0
    decreases size - m
  {
    if m < size {
      CountMembers(env, w, m, e);
      CountInQuiniela(env, w, m + 1, e, size, own);
    }
  }

  lemma CountDue(env: Env, w: nat, e: Entry)
    requires w < |env.Quinielas()| && e.Published?
    ensures QuinielaCount(env, w, 0, e) == Bit(IsDueIn(env, w, 0, e))
  {
    var size := |env.Members(env.Quinielas()[w])|;
    if e.member < size {
      CountInMember(env, w, e.member, e);
      CountInQuiniela(env, w, 0, e, size, TraceCount(env, w, e.member, 1, e));
    } else {
      CountInQuiniela(env, w, 0, e, size, 0);
    }
  }

  /** The same in terms of the listing and the members alone. */
  lemma DueInExactlyWhen(env: Env, e: Entry)
    requires Proceeds(env) && e.Published? && e.w < |env.listing.value|
    ensures IsDueIn(env, e.w, 0, e) <==> IsDuePublish(env, e)
  {
  }

  lemma UnlistedIsUnpublished(env: Env, s: State, e: Entry)
    requires GoroutinesFit(env, s) && LogOk(env, s) && PubsOk(env, s) && e.Published?
    requires !Proceeds(env) || e.w >= |env.listing.value|
    ensures multiset(s.log)[e] == 0
  {
    assert e !in s.log;
  }

  lemma UnstartedIsUnpublished(env: Env, s: State, e: Entry)
    requires GoroutinesFit(env, s) && PubsOk(env, s) && e.Published? && e.w < |s.pubs| && !env.broadcaster
    requires Faithful(env, s, e.w)
    ensures multiset(s.log)[e] == 0
  {
    assert s.pubs[e.w] in s.pubs;
    ProjectionKeepsCount(s.log, e);
    assert Projection(s.log, e.w) == [];
  }

  lemma PublishedAsDue(env: Env, s: State, e: Entry)
    requires Invariant(env, s) && GoroutinesFit(env, s) && s.stage.Returned? && e.Published?
    ensures multiset(s.log)[e] == Bit(Proceeds(env) && env.broadcaster && IsDuePublish(env, e))
  {
    if !Proceeds(env) || e.w >= |env.listing.value| {
      UnlistedIsUnpublished(env, s, e);
    } else if !env.broadcaster {
      assert Faithful(env, s, e.w);
      UnstartedIsUnpublished(env, s, e);
    } else {
      assert Faithful(env, s, e.w) && s.pubs[e.w] in s.pubs;
      DoneIsWholeTrace(env, s, e.w);
      ProjectionKeepsCount(s.log, e);
      CountDue(env, e.w, e);
      DueInExactlyWhen(env, e);
    }
  }

  // ---- the whole log ----

  lemma ReachableFits(env: Env, steps: seq<Step>)
    requires IsRun(env, Start(env), steps)
    ensures var s := After(env, Start(env), steps); Invariant(env, s) && GoroutinesFit(env, s)
  {
    Reachable(env, []);
    Reachable(env, steps);
    RunKeepsFit(env, Start(env), steps);
  }

  /** When the handler has returned, under every schedule, failure and cancellation, every
      entry is in the log exactly as often as it is due. */
  lemma LogIsExact(env: Env, steps: seq<Step>, e: Entry)
    requires IsRun(env, Start(env), steps) && After(env, Start(env), steps).stage.Returned?
    ensures var s := After(env, Start(env), steps);
            multiset(s.log)[e] == Due(env, Ran(s), e)
  {
    ReachableFits(env, steps);
    var s := After(env, Start(env), steps);
    match e
    case Published(_, _, _, _, _) => PublishedAsDue(env, s, e);
    case SnapshotStarted(w) => SnapshotsAsRun(env, s, w);
    case Snapshotted(w) => SnapshotsAsRun(env, s, w);
    case _ =>
      Reachable(env, []);
      RunKeepsCount(env, Start(env), steps, e);
  }

  lemma SnapshotsAsRun(env: Env, s: State, w: nat)
    requires Invariant(env, s) && GoroutinesFit(env, s) && s.stage.Returned?
    ensures multiset(s.log)[Snapshotted(w)] == Bit(w in Ran(s))
    ensures multiset(s.log)[SnapshotStarted(w)] == Bit(w in Ran(s))
  {
    if w < |s.snaps| {
      assert Counted(s, w) && s.snaps[w] in s.snaps;
    } else {
      assert Snapshotted(w) !in s.log && SnapshotStarted(w) !in s.log;
    }
  }

  /** Quiniela w's goroutine was granted its permit at some step of the run. */
  ghost predicate Granted(env: Env, s: State, steps: seq<Step>, w: nat)
    requires IsRun(env, s, steps)
    decreases |steps|
  {
    && steps != []
    && ((steps[0] == Snap(w, true) && s.snaps[w].SnapAcquiring?)
        || Granted(env, Next(env, s, steps[0]), steps[1..], w))
  }

  predicate HasRun(s: State, w: nat) {
    w < |s.snaps| && (s.snaps[w].SnapRunning? || s.snaps[w] == SnapDone(true))
  }

  lemma {:induction false} GrantedExactlyWhen(env: Env, s: State, steps: seq<Step>, w: nat)
    requires IsRun(env, s, steps)
    ensures HasRun(After(env, s, steps), w) <==> HasRun(s, w) || Granted(env, s, steps, w)
    decreases |steps|
  {
    if steps != [] {
      GrantedExactlyWhen(env, Next(env, s, steps[0]), steps[1..], w);
    }
  }

  /** Which snapshots ran: those whose permit was granted. On an event that proceeds and with
      a snapshotter, every listed quiniela's goroutine came to an end; otherwise none ever
      started. */
  lemma SnapshotsExactlyWhen(env: Env, steps: seq<Step>, w: nat)
    requires IsRun(env, Start(env), steps) && After(env, Start(env), steps).stage.Returned?
    ensures var s := After(env, Start(env), steps);
            && (w in Ran(s) <==> Granted(env, Start(env), steps, w))
            && (w in Ran(s) ==> Proceeds(env) && env.snapshotter && w < |env.listing.value|)
            && (Proceeds(env) && env.snapshotter ==>
                  |s.snaps| == |env.listing.value| && (w < |s.snaps| ==> s.snaps[w].SnapDone?))
  {
    ReachableFits(env, steps);
    GrantedExactlyWhen(env, Start(env), steps, w);
    var s := After(env, Start(env), steps);
    if w < |s.snaps| {
      assert s.snaps[w] in s.snaps;
    }
  }
}
