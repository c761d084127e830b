/** The MatchFinished handler of cmd/worker/handlers.go with the leaderboard broadcast of
    cmd/worker/leaderboard_broadcaster.go: sequential stages, two goroutine fan-outs that
    interleave freely, and the log of everything the outside world can see. */
module PostScoring {
  import opened Seqs
  import opened Wrappers

  /** What the environment answers to one event. `delivers(quiniela, member position,
      attempt)` says whether that PUBLISH succeeds, `cuts` whether the context ends the
      wait after it; `members` is None when the lookup fails. Nil dependencies are the
      false flags. */
  datatype Env = Env(
    decodes: bool, scores: bool, extraScorer: bool, autoConfirmer: bool,
    predRepo: bool, listing: Option<seq<int>>, invalidators: nat,
    broadcaster: bool, snapshotter: bool,
    members: int -> Option<seq<int>>, delivers: (int, nat, nat) -> bool, cuts: (int, nat, nat) -> bool,
    maxAttempts: int)
  {
    function Quinielas(): seq<int> {
      if predRepo && listing.Some? then listing.value else []
    }

    function Attempts(): (n: nat)
      ensures n >= 1 && (maxAttempts > 0 ==> n == maxAttempts) && (maxAttempts <= 0 ==> n == 3)
    {
      if maxAttempts <= 0 then 3 else maxAttempts
    }

    function Members(q: int): seq<int> {
      if members(q).Some? then members(q).value else []
    }
  }

  /** One observable action; `w` is the position of the quiniela in the listing. */
  datatype Entry =
    | Scored
    | ExtrasScored
    | SlotsConfirmed
    | Invalidated(i: nat)
    | Published(w: nat, member: nat, uid: int, attempt: nat, ok: bool)
    | SnapshotStarted(w: nat)
    | Snapshotted(w: nat)

  datatype Stage =
    | Decoding | Scoring | Extras | Confirming | Listing
    | Invalidating(next: nat) | Broadcasting | Snapshotting | Returned(failed: bool)

  datatype Publisher = PubWaiting | PubFetching | PubAt(member: nat, attempt: nat) | PubDone

  datatype Snapper = SnapWaiting | SnapAcquiring | SnapRunning | SnapDone(ran: bool)

  datatype State = State(stage: Stage, log: seq<Entry>, pubs: seq<Publisher>, snaps: seq<Snapper>)

  /** `Main` is the handler's own goroutine; the others are one per listed quiniela. */
  datatype Step = Main | Pub(w: nat) | Snap(w: nat, acquired: bool)

  function Start(env: Env): State {
    var n := |env.Quinielas()|;
    State(Decoding, [], seq(n, _ => PubWaiting), seq(n, _ => SnapWaiting))
  }

  predicate AllPublished(s: State) { forall p | p in s.pubs :: p.PubDone? }

  predicate AllSnapped(s: State) { forall p | p in s.snaps :: p.SnapDone? }

  /** Both `g.Wait()` calls are barriers; everything else of the handler never waits.
      The errgroup limit only forbids some of these interleavings. */
  predicate Enabled(env: Env, s: State, step: Step) {
    match step
    case Main =>
      && !s.stage.Returned?
      && (s.stage.Broadcasting? && env.broadcaster ==> AllPublished(s))
      && (s.stage.Snapshotting? && env.snapshotter ==> AllSnapped(s))
    case Pub(w) => s.stage.Broadcasting? && env.broadcaster && w < |s.pubs| && !s.pubs[w].PubDone?
    case Snap(w, _) => s.stage.Snapshotting? && env.snapshotter && w < |s.snaps| && !s.snaps[w].SnapDone?
  }

  function Emit(s: State, entries: seq<Entry>, stage: Stage): State {
    s.(stage := stage, log := s.log + entries)
  }

  function MainStep(env: Env, s: State): State
    requires !s.stage.Returned?
  {
    match s.stage
    case Decoding => Emit(s, [], if env.decodes then Scoring else Returned(false))
    case Scoring => Emit(s, [Scored], if env.scores then Extras else Returned(true))
    case Extras => Emit(s, if env.extraScorer then [ExtrasScored] else [], Confirming)
    case Confirming => Emit(s, if env.autoConfirmer then [SlotsConfirmed] else [], Listing)
    case Listing => Emit(s, [], if env.Quinielas() == [] then Returned(false) else Invalidating(0))
    case Invalidating(i) =>
      if i < env.invalidators then Emit(s, [Invalidated(i)], Invalidating(i + 1))
      else Emit(s, [], Broadcasting)
    case Broadcasting => Emit(s, [], Snapshotting)
    case Snapshotting => Emit(s, [], Returned(false))
  }

  function Attempt(env: Env, w: nat, m: nat, a: nat): Entry
    requires w < |env.Quinielas()| && m < |env.Members(env.Quinielas()[w])|
  {
    var q := env.Quinielas()[w];
    Published(w, m, env.Members(q)[m], a, env.delivers(q, m, a))
  }

  /** publishWithRetry returns after attempt `a`: success, the last try, or a cut wait. */
  predicate Ends(env: Env, q: int, m: nat, a: nat) {
    env.delivers(q, m, a) || a == env.Attempts() || env.cuts(q, m, a)
  }

  /** Where a publisher stands after the attempt at (m, a). A cut wait ends the attempts
      for this member only; the loop goes on to the next. */
  function AfterAttempt(env: Env, w: nat, m: nat, a: nat): Publisher
    requires w < |env.Quinielas()| && m < |env.Members(env.Quinielas()[w])|
  {
    var q := env.Quinielas()[w];
    if !Ends(env, q, m, a) then PubAt(m, a + 1)
    else if m + 1 < |env.Members(q)| then PubAt(m + 1, 1)
    else PubDone
  }

  predicate PubOk(env: Env, w: nat, p: Publisher) {
    && w < |env.Quinielas()|
    && (p.PubAt? ==> p.member < |env.Members(env.Quinielas()[w])| && 1 <= p.attempt <= env.Attempts())
  }

  predicate PubsOk(env: Env, s: State) {
    && |s.pubs| == |s.snaps| == |env.Quinielas()|
    && forall w | 0 <= w < |s.pubs| :: PubOk(env, w, s.pubs[w])
  }

  function Next(env: Env, s: State, step: Step): State
    requires PubsOk(env, s) && Enabled(env, s, step)
  {
    match step
    case Main => MainStep(env, s)
    case Pub(w) =>
      (match s.pubs[w]
       case PubWaiting => s.(pubs := s.pubs[w := PubFetching])
       case PubFetching =>
         var none := env.Members(env.Quinielas()[w]) == [];
         s.(pubs := s.pubs[w := if none then PubDone else PubAt(0, 1)])
       case PubAt(m, a) =>
         assert PubOk(env, w, s.pubs[w]);
         s.(log := s.log + [Attempt(env, w, m, a)], pubs := s.pubs[w := AfterAttempt(env, w, m, a)]))
    case Snap(w, acquired) =>
      (match s.snaps[w]
       case SnapWaiting => s.(snaps := s.snaps[w := SnapAcquiring])
       case SnapAcquiring =>
         if acquired then s.(log := s.log + [SnapshotStarted(w)], snaps := s.snaps[w := SnapRunning])
         else s.(snaps := s.snaps[w := SnapDone(false)])
       case SnapRunning => s.(log := s.log + [Snapshotted(w)], snaps := s.snaps[w := SnapDone(true)]))
  }

  // ---- the broadcast of one quiniela, run alone ----

  /** Attempts `a`, a + 1, ... for one member, up to the first that ends them. */
  function MemberTrace(env: Env, w: nat, m: nat, a: nat): seq<Entry>
    requires w < |env.Quinielas()| && m < |env.Members(env.Quinielas()[w])| && 1 <= a <= env.Attempts()
    decreases env.Attempts() - a
  {
    [Attempt(env, w, m, a)] +
    if Ends(env, env.Quinielas()[w], m, a) then []
    else MemberTrace(env, w, m, a + 1)
  }

  /** All attempts for members `m`, m + 1, ... */
  function QuinielaTrace(env: Env, w: nat, m: nat): seq<Entry>
    requires w < |env.Quinielas()| && m <= |env.Members(env.Quinielas()[w])|
    decreases |env.Members(env.Quinielas()[w])| - m
  {
    if m == |env.Members(env.Quinielas()[w])| then []
    else MemberTrace(env, w, m, 1) + QuinielaTrace(env, w, m + 1)
  }

  lemma MemberTraceStep(env: Env, w: nat, m: nat, a: nat)
    requires w < |env.Quinielas()| && m < |env.Members(env.Quinielas()[w])| && 1 <= a <= env.Attempts()
    ensures MemberTrace(env, w, m, a) ==
            [Attempt(env, w, m, a)] + if Ends(env, env.Quinielas()[w], m, a) then [] else MemberTrace(env, w, m, a + 1)
  {
  }

  /** publishWithRetry as the attempts it makes. */
  method PublishWithRetry(env: Env, w: nat, m: nat) returns (trace: seq<Entry>)
    requires w < |env.Quinielas()| && m < |env.Members(env.Quinielas()[w])|
    ensures trace == MemberTrace(env, w, m, 1)
  {
    trace := [];
    var attempt := 1;
    while true
      invariant 1 <= attempt <= env.Attempts()
      invariant trace + MemberTrace(env, w, m, attempt) == MemberTrace(env, w, m, 1)
      decreases env.Attempts() - attempt
    {
      var entry := Attempt(env, w, m, attempt);
      MemberTraceStep(env, w, m, attempt);
      if !Ends(env, env.Quinielas()[w], m, attempt) {
        Associative(trace, [entry], MemberTrace(env, w, m, attempt + 1));
      }
      trace := trace + [entry];
      if entry.ok || attempt == env.Attempts() {
        return;
      }
      if env.cuts(env.Quinielas()[w], m, attempt) {
        return;
      }
      attempt := attempt + 1;
    }
  }

  method BroadcastForQuiniela(env: Env, w: nat) returns (trace: seq<Entry>)
    requires w < |env.Quinielas()|
    ensures trace == QuinielaTrace(env, w, 0)
  {
    var memberIds := env.Members(env.Quinielas()[w]);
    trace := [];
    for m := 0 to |memberIds|
      invariant trace + QuinielaTrace(env, w, m) == QuinielaTrace(env, w, 0)
    {
      var attempts := PublishWithRetry(env, w, m);
      trace := trace + attempts;
    }
  }

  // ---- reading the log ----

  /** What publisher `w` contributed to the log, in order. */
  function Projection(log: seq<Entry>, w: nat): seq<Entry> {
    if log == [] then []
    else
      var e := log[|log| - 1];
      Projection(log[..|log| - 1], w) + if e.Published? && e.w == w then [e] else []
  }

  /** The user ids a trace reached. */
  function Delivered(trace: seq<Entry>): seq<int> {
    if trace == [] then []
    else (if trace[0].Published? && trace[0].ok then [trace[0].uid] else []) + Delivered(trace[1..])
  }

  /** The fixed order of the pipeline. */
  function Rank(e: Entry): nat {
    match e
    case Scored => 1
    case ExtrasScored => 2
    case SlotsConfirmed => 3
    case Invalidated(_) => 5
    case Published(_, _, _, _, _) => 6
    case SnapshotStarted(_) => 7
    case Snapshotted(_) => 7
  }

  function StageRank(st: Stage): nat {
    match st
    case Decoding => 0
    case Scoring => 1
    case Extras => 2
    case Confirming => 3
    case Listing => 4
    case Invalidating(_) => 5
    case Broadcasting => 6
    case Snapshotting => 7
    case Returned(_) => 8
  }

  predicate InOrder(log: seq<Entry>) {
    forall i, j | 0 <= i < j < |log| :: Rank(log[i]) <= Rank(log[j])
  }
}
