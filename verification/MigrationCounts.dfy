/** What the counters of cmd/reencrypt-payouts/main.go mean over whole runs: every fetched
    row is handled once, and an undecodable row fails once per fetch until the deadline. */
module MigrationCounts {
  import opened Seqs
  import opened Wrappers
  import opened Batches
  import opened Reencrypt
  import opened Migration
  import opened MigrationRun

  // ---- among other writers ----

  /** The rows a run has fetched so far, batch after batch. */
  ghost function Fetched(c: Codec, dryRun: bool, s: State, steps: seq<Step>): seq<Row>
    requires IsRun(c, dryRun, s, steps)
    decreases |steps|
  {
    if steps == [] then []
    else
      (if steps[0] == Fetch(true) then FetchBatch(s.table) else [])
      + Fetched(c, dryRun, Next(c, dryRun, s, steps[0]), steps[1..])
  }

  /** The rows it has handled so far. */
  ghost function Handled(c: Codec, dryRun: bool, s: State, steps: seq<Step>): seq<Row>
    requires IsRun(c, dryRun, s, steps)
    decreases |steps|
  {
    if steps == [] then []
    else
      (if steps[0].Remediate? then [s.phase.rows[s.phase.k]] else [])
      + Handled(c, dryRun, Next(c, dryRun, s, steps[0]), steps[1..])
  }

  /** What is left of the batch in hand. */
  function Pending(p: Phase): seq<Row> {
    if p.InBatch? && p.k <= |p.rows| then p.rows[p.k..] else []
  }

  predicate PhaseOk(p: Phase) { p.InBatch? ==> p.k < |p.rows| }

  lemma StepKeepsQueue(c: Codec, dryRun: bool, s: State, step: Step)
    requires Enabled(s, step) && PhaseOk(s.phase)
    ensures var t := Next(c, dryRun, s, step);
            && PhaseOk(t.phase)
            && Pending(s.phase) + (if step == Fetch(true) then FetchBatch(s.table) else [])
               == (if step.Remediate? then [s.phase.rows[s.phase.k]] else []) + Pending(t.phase)
            && t.migrated + t.failed == s.migrated + s.failed + if step.Remediate? then 1 else 0
  {
  }

  /** In every interleaving, every fetched row is handled exactly once and in order, up to
      the batch in hand; each row handled adds one to one of the two counters. */
  lemma {:induction false} EveryRowIsHandledOnce(c: Codec, dryRun: bool, s: State, steps: seq<Step>)
    requires IsRun(c, dryRun, s, steps) && PhaseOk(s.phase)
    ensures var t := After(c, dryRun, s, steps);
            && Pending(s.phase) + Fetched(c, dryRun, s, steps) == Handled(c, dryRun, s, steps) + Pending(t.phase)
            && t.migrated + t.failed == s.migrated + s.failed + |Handled(c, dryRun, s, steps)|
            && PhaseOk(t.phase)
    decreases |steps|
  {
    if steps != [] {
      var t, rest := Next(c, dryRun, s, steps[0]), steps[1..];
      var pulled := if steps[0] == Fetch(true) then FetchBatch(s.table) else [];
      var done := if steps[0].Remediate? then [s.phase.rows[s.phase.k]] else [];
      StepKeepsQueue(c, dryRun, s, steps[0]);
      EveryRowIsHandledOnce(c, dryRun, t, rest);
      Associative(Pending(s.phase), pulled, Fetched(c, dryRun, t, rest));
      Associative(done, Pending(t.phase), Fetched(c, dryRun, t, rest));
      Associative(done, Handled(c, dryRun, t, rest), Pending(After(c, dryRun, t, rest).phase));
    }
  }

  function FetchCount(steps: seq<Step>): nat {
    if steps == [] then 0 else (if steps[0] == Fetch(true) then 1 else 0) + FetchCount(steps[1..])
  }

  /** A dry run fetches at most once, whatever the others write meanwhile. */
  lemma {:induction false} DryRunFetchesOnce(c: Codec, s: State, steps: seq<Step>)
    requires IsRun(c, true, s, steps)
    ensures FetchCount(steps) <= if s.phase.Fetching? then 1 else 0
    decreases |steps|
  {
    if steps != [] {
      DryRunFetchesOnce(c, Next(c, true, s, steps[0]), steps[1..]);
    }
  }

  /** And it counts as migrated exactly the handled rows that decode. */
  lemma {:induction false} DryRunCounts(c: Codec, s: State, steps: seq<Step>)
    requires Sound(c) && IsRun(c, true, s, steps) && BatchOk(s.phase)
    ensures After(c, true, s, steps).failed == s.failed + |Kept(Handled(c, true, s, steps), BrokenRow(c))|
    decreases |steps|
  {
    if steps != [] {
      var t := Next(c, true, s, steps[0]);
      LegacyMembers(s.table);
      assert BatchOk(t.phase);
      DryRunCounts(c, t, steps[1..]);
      if steps[0].Remediate? {
        var row := s.phase.rows[s.phase.k];
        assert row in s.phase.rows;
        ReencryptionPreservesView(c, row.details.value, steps[0].nonce);
        KeptOfConcat([row], Handled(c, true, t, steps[1..]), BrokenRow(c));
        assert Kept([row], BrokenRow(c)) == if Broken(c, row) then [row] else [];
      } else {
        assert Handled(c, true, s, steps) == Handled(c, true, t, steps[1..]);
      }
    }
  }

  // ---- until the deadline ----

  /** A batch without a decodable row only counts failures. */
  lemma {:induction false} AllBrokenBatch(c: Codec, b: Work, rows: seq<Row>, nonces: int -> nat)
    requires Sound(c) && forall r | r in rows :: IsLegacy(r) && Broken(c, r)
    ensures RemediateAll(c, b, rows, false, nonces) == b.(failed := b.failed + |rows|)
    decreases |rows|
  {
    if rows != [] {
      assert rows[0] in rows;
      ReencryptionPreservesView(c, rows[0].details.value, nonces(rows[0].id));
      AllBrokenBatch(c, RemediateOne(c, b, rows[0], false, nonces(rows[0].id)), rows[1..], nonces);
    }
  }

  lemma {:induction false} OnlyBrokenLeft(c: Codec, b: Work, fetches: nat, nonces: int -> nat)
    requires Sound(c) && 0 < |Legacy(b.table)| <= BATCH_SIZE
    requires forall r | r in Legacy(b.table) :: Broken(c, r)
    ensures RunFrom(c, b, fetches, nonces)
         == End(b.(ops := 0, failed := b.failed + |Legacy(b.table)| * b.ops), fetches + b.ops, true)
    decreases b.ops
  {
    if b.ops > 0 {
      var rows, k := FetchBatch(b.table), |Legacy(b.table)|;
      assert rows == Legacy(b.table);
      LegacyMembers(b.table);
      AllBrokenBatch(c, b.(ops := b.ops - 1), rows, nonces);
      OnlyBrokenLeft(c, b.(ops := b.ops - 1, failed := b.failed + k), fetches + 1, nonces);
      OneTimeMore(k, b.ops);
    }
  }

  lemma OneTimeMore(k: nat, n: nat)
    requires n > 0
    ensures k * n == k + k * (n - 1)
  {
  }

  /** Each decodable row of a batch costs one database operation, the others none. */
  lemma {:induction false} BatchOps(c: Codec, b: Work, rows: seq<Row>, nonces: int -> nat)
    requires Sound(c) && b.ops >= |rows| && forall r | r in rows :: IsLegacy(r)
    ensures RemediateAll(c, b, rows, false, nonces).ops == b.ops - (|rows| - |Kept(rows, BrokenRow(c))|)
    decreases |rows|
  {
    if rows != [] {
      assert rows[0] in rows;
      ReencryptionPreservesView(c, rows[0].details.value, nonces(rows[0].id));
      KeptSplits(rows, BrokenRow(c));
      BatchOps(c, RemediateOne(c, b, rows[0], false, nonces(rows[0].id)), rows[1..], nonces);
    }
  }

  /** A first batch that takes in every legacy row leaves exactly the undecodable ones. */
  lemma FirstBatch(c: Codec, b: Work, nonces: int -> nat)
    requires Sound(c) && Sorted(b.table) && |Legacy(b.table)| <= BATCH_SIZE && b.ops >= |Legacy(b.table)|
    ensures var r := RemediateAll(c, b, Legacy(b.table), false, nonces);
            var n, left := |Legacy(b.table)|, BrokenRows(c, b.table);
            && Legacy(r.table) == left && |left| <= n && (forall row | row in left :: Broken(c, row))
            && r.ops == b.ops - (n - |left|)
            && r.failed == b.failed + |left| && r.migrated == b.migrated + n - |left|
  {
    var rows := Legacy(b.table);
    var left := WholeBatch(c, b, [], rows, [], nonces);
    LegacyMembers(b.table);
    BatchOps(c, b, rows, nonces);
    KeptMembers(rows, BrokenRow(c));
  }

  lemma FirstPass(c: Codec, b: Work, fetches: nat, nonces: int -> nat)
    requires b.ops > 0 && 0 < |Legacy(b.table)| <= BATCH_SIZE
    ensures RunFrom(c, b, fetches, nonces)
         == RunFrom(c, RemediateAll(c, b.(ops := b.ops - 1), Legacy(b.table), false, nonces), fetches + 1, nonces)
  {
    assert FetchBatch(b.table) == Legacy(b.table);
  }

  /** n legacy rows, k of them undecodable: n - k migrated at once, the k failed at every one
      of the fetches that the deadline allows. */
  function DeadlineEnd(b: Work, left: Table, n: nat, k: nat): End
    requires k <= n <= b.ops
  {
    var fetches := b.ops - (n - k);
    End(Work(left, 0, b.migrated + (n - k), b.failed + k * fetches), fetches, true)
  }

  lemma CountsAtDeadline(b: Work, r: Work, n: nat, k: nat)
    requires k <= n < b.ops && r.ops == b.ops - 1 - (n - k)
    requires r.failed == b.failed + k && r.migrated == b.migrated + n - k
    ensures End(r.(ops := 0, failed := r.failed + k * r.ops), 1 + r.ops, true) == DeadlineEnd(b, r.table, n, k)
  {
    OneTimeMore(k, b.ops - (n - k));
  }

  /** A table of at most one batch of legacy rows, some undecodable, under a deadline that
      allows the first batch: the run migrates the others at once, then fetches the
      undecodable rows again and again, counts each as failed at every fetch, and ends in an
      error when the deadline strikes. */
  lemma BrokenRowsFailUntilDeadline(c: Codec, b: Work, nonces: int -> nat) returns (left: Table)
    requires Sound(c) && Sorted(b.table)
    requires |Legacy(b.table)| <= BATCH_SIZE && b.ops >= |Legacy(b.table)| + 1 && BrokenRows(c, b.table) != []
    ensures Legacy(left) == BrokenRows(c, b.table) && |BrokenRows(c, b.table)| <= |Legacy(b.table)|
    ensures RunFrom(c, b, 0, nonces) == DeadlineEnd(b, left, |Legacy(b.table)|, |BrokenRows(c, b.table)|)
  {
    var n, k, q := |Legacy(b.table)|, |BrokenRows(c, b.table)|, b.(ops := b.ops - 1);
    var r := RemediateAll(c, q, Legacy(b.table), false, nonces);
    left := r.table;
    FirstBatch(c, q, nonces);
    FirstPass(c, b, 0, nonces);
    OnlyBrokenLeft(c, r, 1, nonces);
    CountsAtDeadline(b, r, n, k);
  }
}
