/** The migration loop of cmd/reencrypt-payouts/main.go: interleaved with arbitrary
    writers it never shows in what the application reads, and run alone it ends exactly
    when no row is beyond repair. */
module Migration {
  import opened Seqs
  import opened Wrappers
  import opened Batches
  import opened Reencrypt

  // ---- interleaving with other writers ----

  /** A writer sees the decoded column and stores any text; rows may come and go. */
  datatype Write =
    | Put(at: nat, decide: Option<Payload> -> Option<string>)
    | Insert(at: nat, row: Row)
    | Delete(at: nat)

  predicate CanApply(t: Table, w: Write) {
    match w
    case Put(at, _) => at < |t|
    case Insert(at, row) => at <= |t| && Sorted(t[..at] + [row] + t[at..])
    case Delete(at) => at < |t|
  }

  function Apply(c: Codec, t: Table, w: Write): Table
    requires CanApply(t, w)
  {
    match w
    case Put(at, decide) => t[at := Row(t[at].id, decide(View(c, t[at].details)))]
    case Insert(at, row) => t[..at] + [row] + t[at..]
    case Delete(at) => t[..at] + t[at + 1..]
  }

  datatype Phase = Fetching | InBatch(rows: seq<Row>, k: nat) | Stopped(error: bool)

  /** `alone` is the table the other writers alone would have produced. */
  datatype State = State(table: Table, alone: Table, phase: Phase, migrated: nat, failed: nat)

  /** An UPDATE may fail with or without having taken effect. */
  datatype Exec = Done | Errored(applied: bool)

  datatype Step = Writer(w: Write) | Fetch(ok: bool) | Remediate(nonce: nat, exec: Exec)

  predicate Enabled(s: State, step: Step) {
    match step
    case Writer(w) => CanApply(s.table, w)
    case Fetch(_) => s.phase.Fetching?
    case Remediate(_, _) => s.phase.InBatch? && s.phase.k < |s.phase.rows|
  }

  /** The row swap this step performs, if any. */
  function Swapped(c: Codec, dryRun: bool, s: State, step: Step): Option<string>
    requires Enabled(s, step)
  {
    if !step.Remediate? || dryRun then None
    else
      var row := s.phase.rows[s.phase.k];
      if row.details.None? || !Hits(s.table, row) || step.exec == Errored(false) then None
      else ReencryptDetails(c, row.details.value, step.nonce)
  }

  /** remediateRow returns nil. */
  predicate Succeeds(c: Codec, dryRun: bool, s: State, step: Step)
    requires Enabled(s, step) && step.Remediate?
  {
    var row := s.phase.rows[s.phase.k];
    && row.details.Some?
    && ReencryptDetails(c, row.details.value, step.nonce).Some?
    && (dryRun || (step.exec.Done? && Hits(s.table, row)))
  }

  function Next(c: Codec, dryRun: bool, s: State, step: Step): State
    requires Enabled(s, step)
  {
    match step
    case Writer(w) =>
      s.(table := Apply(c, s.table, w), alone := if CanApply(s.alone, w) then Apply(c, s.alone, w) else s.alone)
    case Fetch(ok) =>
      if !ok then s.(phase := Stopped(true))
      else if FetchBatch(s.table) == [] then s.(phase := Stopped(false))
      else s.(phase := InBatch(FetchBatch(s.table), 0))
    case Remediate(_, _) =>
      var row, k := s.phase.rows[s.phase.k], s.phase.k + 1;
      var swapped := Swapped(c, dryRun, s, step);
      var table := if swapped.Some? then Swap(s.table, row, swapped.value) else s.table;
      var phase := if k < |s.phase.rows| then s.phase.(k := k) else if dryRun then Stopped(false) else Fetching;
      if Succeeds(c, dryRun, s, step) then s.(table := table, phase := phase, migrated := s.migrated + 1)
      else s.(table := table, phase := phase, failed := s.failed + 1)
  }

  ghost predicate IsRun(c: Codec, dryRun: bool, s: State, steps: seq<Step>)
    decreases |steps|
  {
    steps == [] || (Enabled(s, steps[0]) && IsRun(c, dryRun, Next(c, dryRun, s, steps[0]), steps[1..]))
  }

  ghost function After(c: Codec, dryRun: bool, s: State, steps: seq<Step>): State
    requires IsRun(c, dryRun, s, steps)
    decreases |steps|
  {
    if steps == [] then s else After(c, dryRun, Next(c, dryRun, s, steps[0]), steps[1..])
  }

  function Start(t: Table): State { State(t, t, Fetching, 0, 0) }

  lemma SwapKeepsView(c: Codec, t: Table, u: Table, row: Row, nonce: nat)
    requires Sound(c) && Alike(c, t, u) && row.details.Some?
    requires ReencryptDetails(c, row.details.value, nonce).Some?
    ensures Alike(c, Swap(t, row, ReencryptDetails(c, row.details.value, nonce).value), u)
  {
    ReencryptionPreservesView(c, row.details.value, nonce);
  }

  /** A writer that acts on what it can read does the same to both tables. */
  lemma WriteKeepsAlike(c: Codec, t: Table, u: Table, w: Write)
    requires Alike(c, t, u) && CanApply(t, w)
    ensures CanApply(u, w) && Alike(c, Apply(c, t, w), Apply(c, u, w))
  {
    if w.Insert? {
      var t', u' := t[..w.at] + [w.row] + t[w.at..], u[..w.at] + [w.row] + u[w.at..];
      assert forall i | 0 <= i < |t'| :: t'[i].id == u'[i].id;
    }
  }

  /** The migration is invisible: in every interleaving with arbitrary writers, under
      every failure, each row always reads as the writers alone would have left it. */
  lemma {:induction false} MigrationIsInvisible(c: Codec, dryRun: bool, s: State, steps: seq<Step>)
    requires Sound(c) && Alike(c, s.table, s.alone) && IsRun(c, dryRun, s, steps)
    ensures var t := After(c, dryRun, s, steps); Alike(c, t.table, t.alone)
    decreases |steps|
  {
    if steps != [] {
      var step := steps[0];
      if step.Writer? {
        WriteKeepsAlike(c, s.table, s.alone, step.w);
      } else if step.Remediate? && Swapped(c, dryRun, s, step).Some? {
        SwapKeepsView(c, s.table, s.alone, s.phase.rows[s.phase.k], step.nonce);
      }
      MigrationIsInvisible(c, dryRun, Next(c, dryRun, s, step), steps[1..]);
    }
  }

  /** A dry run writes nothing, whatever happens around it. */
  lemma {:induction false} DryRunWritesNothing(c: Codec, s: State, steps: seq<Step>)
    requires s.table == s.alone && IsRun(c, true, s, steps)
    ensures After(c, true, s, steps).table == After(c, true, s, steps).alone
    decreases |steps|
  {
    if steps != [] {
      DryRunWritesNothing(c, Next(c, true, s, steps[0]), steps[1..]);
    }
  }

  /** How many UPDATEs of the run reported one row affected. */
  ghost function SwapsDone(c: Codec, s: State, steps: seq<Step>): nat
    requires IsRun(c, false, s, steps)
    decreases |steps|
  {
    if steps == [] then 0
    else
      (if steps[0].Remediate? && steps[0].exec.Done? && Swapped(c, false, s, steps[0]).Some? then 1 else 0)
      + SwapsDone(c, Next(c, false, s, steps[0]), steps[1..])
  }

  /** The counter of a real run, among arbitrary writers, is its number of successful swaps. */
  lemma {:induction false} MigratedCountsSwaps(c: Codec, s: State, steps: seq<Step>)
    requires IsRun(c, false, s, steps)
    ensures After(c, false, s, steps).migrated == s.migrated + SwapsDone(c, s, steps)
    decreases |steps|
  {
    if steps != [] {
      MigratedCountsSwaps(c, Next(c, false, s, steps[0]), steps[1..]);
    }
  }

  /** The first k steps of a run. */
  lemma {:induction false} PrefixIsRun(c: Codec, s: State, steps: seq<Step>, k: nat)
    requires k <= |steps| && IsRun(c, false, s, steps)
    ensures IsRun(c, false, s, steps[..k])
    decreases k
  {
    if k > 0 {
      PrefixIsRun(c, Next(c, false, s, steps[0]), steps[1..], k - 1);
      assert steps[..k][1..] == steps[1..][..k - 1];
    }
  }

  /** A real run among arbitrary writers that has stopped without error had, at one of its
      fetches, a table without legacy rows before it, and its counter is exact. */
  lemma {:induction false} StopsOnlyWhenClean(c: Codec, s: State, steps: seq<Step>) returns (k: nat)
    requires IsRun(c, false, s, steps) && !s.phase.Stopped?
    requires After(c, false, s, steps).phase == Stopped(false)
    ensures k < |steps| && steps[k] == Fetch(true)
    ensures IsRun(c, false, s, steps[..k]) && Legacy(After(c, false, s, steps[..k]).table) == []
    ensures After(c, false, s, steps).migrated == s.migrated + SwapsDone(c, s, steps)
    decreases |steps|
  {
    MigratedCountsSwaps(c, s, steps);
    var t := Next(c, false, s, steps[0]);
    if t.phase.Stopped? {
      StoppedForGood(c, false, t, steps[1..]);
      k := 0;
      assert steps[..0] == [];
    } else {
      k := StopsOnlyWhenClean(c, t, steps[1..]);
      PrefixIsRun(c, s, steps, k + 1);
      assert steps[..k + 1][1..] == steps[1..][..k];
      k := k + 1;
    }
  }

  /** A fetch that fails ends the run in an error: whatever follows comes from the other
      writers, and the counters stay. */
  lemma {:induction false} FailedFetchEndsRun(c: Codec, dryRun: bool, s: State, steps: seq<Step>)
    requires IsRun(c, dryRun, s, steps) && steps != [] && steps[0] == Fetch(false)
    ensures After(c, dryRun, s, steps).phase == Stopped(true)
    ensures forall step | step in steps[1..] :: step.Writer?
    ensures After(c, dryRun, s, steps).migrated == s.migrated && After(c, dryRun, s, steps).failed == s.failed
  {
    StoppedForGood(c, dryRun, Next(c, dryRun, s, steps[0]), steps[1..]);
  }

  lemma {:induction false} StoppedForGood(c: Codec, dryRun: bool, s: State, steps: seq<Step>)
    requires IsRun(c, dryRun, s, steps) && s.phase.Stopped?
    ensures var t := After(c, dryRun, s, steps);
            && t.phase == s.phase && t.migrated == s.migrated && t.failed == s.failed
            && forall step | step in steps :: step.Writer?
    decreases |steps|
  {
    if steps != [] {
      StoppedForGood(c, dryRun, Next(c, dryRun, s, steps[0]), steps[1..]);
      assert steps == [steps[0]] + steps[1..];
    }
  }

  // ---- what one swap does to the legacy set ----

  function Not(row: Row): Row -> bool { r => r != row }

  /** A swap takes its row out of the legacy rows and moves nothing else. */
  lemma {:induction false} SwapRemoves(t: Table, row: Row, new_: string)
    requires MatchesLike(new_)
    ensures Legacy(Swap(t, row, new_)) == Kept(Legacy(t), Not(row))
  {
    if t != [] {
      var tail, u := t[1..], Swap(t, row, new_);
      assert u[1..] == Swap(tail, row, new_);
      SwapRemoves(tail, row, new_);
      var head := if IsLegacy(t[0]) then [t[0]] else [];
      assert Legacy(t) == head + Legacy(tail);
      KeptOfConcat(head, Legacy(tail), Not(row));
      assert Kept(head, Not(row)) == if IsLegacy(t[0]) && t[0] != row then [t[0]] else [];
      assert Legacy(u) == (if IsLegacy(u[0]) then [u[0]] else []) + Legacy(u[1..]);
    }
  }

  lemma LegacyIsDistinct(t: Table, pre: seq<Row>, row: Row, post: seq<Row>)
    requires Sorted(t) && Legacy(t) == pre + [row] + post
    ensures row !in pre && row !in post
  {
    KeptIsSorted(t, (r: Row) => IsLegacy(r));
    var rows := pre + [row] + post;
    assert rows[|pre|] == row;
    forall i | 0 <= i < |pre|
      ensures pre[i] != row
    {
      assert rows[i] == pre[i];
    }
    forall i | 0 <= i < |post|
      ensures post[i] != row
    {
      assert rows[|pre| + 1 + i] == post[i];
    }
  }

  lemma {:induction false} KeptIsSorted(t: Table, keep: Row -> bool)
    requires Sorted(t)
    ensures Sorted(Kept(t, keep))
  {
    if t != [] {
      KeptIsSorted(t[1..], keep);
      KeptMembers(t[1..], keep);
      var rest := Kept(t[1..], keep);
      forall i | 0 <= i < |rest|
        ensures t[0].id < rest[i].id
      {
        assert rest[i] in rest;
      }
    }
  }

  lemma SwapRemovesOne(t: Table, row: Row, new_: string, pre: seq<Row>, post: seq<Row>)
    requires Sorted(t) && Legacy(t) == pre + [row] + post && MatchesLike(new_)
    ensures Sorted(Swap(t, row, new_)) && Legacy(Swap(t, row, new_)) == pre + post
  {
    SwapRemoves(t, row, new_);
    LegacyIsDistinct(t, pre, row, post);
    TakesOutOne(pre, row, post, Not(row));
  }

  /** No other writer. */
  ghost predicate Quiet(steps: seq<Step>) {
    forall step | step in steps :: !step.Writer?
  }

  /** The UPDATE took effect but its reply was lost. */
  predicate ReplyLost(c: Codec, s: State, step: Step)
    requires Enabled(s, step)
  {
    && step.Remediate? && step.exec == Errored(true)
    && var row := s.phase.rows[s.phase.k];
       row in s.table && View(c, row.details).Some?
  }

  /** How many rows a run encrypted without learning of it. */
  ghost function RepliesLost(c: Codec, s: State, steps: seq<Step>): nat
    requires IsRun(c, false, s, steps)
    decreases |steps|
  {
    if steps == [] then 0
    else (if ReplyLost(c, s, steps[0]) then 1 else 0) + RepliesLost(c, Next(c, false, s, steps[0]), steps[1..])
  }

  lemma OccursAt(rows: seq<Row>, row: Row) returns (i: nat)
    requires row in rows
    ensures i < |rows| && rows == rows[..i] + [row] + rows[i + 1..]
  {
    i :| i < |rows| && rows[i] == row;
  }

  /** Every row a batch still has to do is a filled one. */
  predicate BatchOk(p: Phase) {
    p.InBatch? ==> forall r | r in p.rows :: IsLegacy(r)
  }

  /** One step counts one row, loses one reply, or leaves the legacy rows as they are. */
  lemma StepConserves(c: Codec, s: State, step: Step)
    requires Sound(c) && Sorted(s.table) && BatchOk(s.phase) && Enabled(s, step) && !step.Writer?
    ensures var t := Next(c, false, s, step);
            && Sorted(t.table) && BatchOk(t.phase)
            && t.migrated + (if ReplyLost(c, s, step) then 1 else 0) + |Legacy(t.table)|
               == s.migrated + |Legacy(s.table)|
  {
    LegacyMembers(s.table);
    if step.Remediate? {
      var row := s.phase.rows[s.phase.k];
      assert row in s.phase.rows;
      ReencryptionPreservesView(c, row.details.value, step.nonce);
      if Succeeds(c, false, s, step) || ReplyLost(c, s, step) {
        var i := OccursAt(Legacy(s.table), row);
        var new_ := ReencryptDetails(c, row.details.value, step.nonce).value;
        SwapRemovesOne(s.table, row, new_, Legacy(s.table)[..i], Legacy(s.table)[i + 1..]);
      }
    }
  }

  /** Conservation: without other writers, the migration's counter, the rows it encrypted
      without learning of it and the legacy rows left add up to the legacy rows at the start. */
  lemma {:induction false} MigratedPlusLegacy(c: Codec, s: State, steps: seq<Step>)
    requires Sound(c) && Sorted(s.table) && BatchOk(s.phase)
    requires IsRun(c, false, s, steps) && Quiet(steps)
    ensures var t := After(c, false, s, steps);
            && t.migrated + RepliesLost(c, s, steps) + |Legacy(t.table)| == s.migrated + |Legacy(s.table)|
            && Sorted(t.table)
    decreases |steps|
  {
    if steps != [] {
      assert steps[0] in steps;
      StepConserves(c, s, steps[0]);
      MigratedPlusLegacy(c, Next(c, false, s, steps[0]), steps[1..]);
    }
  }

  // ---- run alone, pass after pass ----

  /** A row that can never be re-encrypted: its text does not decode. */
  predicate Broken(c: Codec, r: Row) { View(c, r.details).None? }

  function BrokenRow(c: Codec): Row -> bool { r => Broken(c, r) }

  /** What a run carries from row to row; `ops` is how many more database operations
      the context deadline allows. */
  datatype Work = Work(table: Table, ops: nat, migrated: nat, failed: nat)

  /** remediateRow and the counters of the loop around it. */
  function RemediateOne(c: Codec, b: Work, row: Row, dryRun: bool, nonce: nat): (r: Work)
    ensures r.ops <= b.ops
  {
    var new_ := if row.details.Some? then ReencryptDetails(c, row.details.value, nonce) else None;
    if new_.None? then b.(failed := b.failed + 1)
    else if dryRun then b.(migrated := b.migrated + 1)
    else if b.ops == 0 then b.(failed := b.failed + 1)
    else if !Hits(b.table, row) then b.(ops := b.ops - 1, failed := b.failed + 1)
    else Work(Swap(b.table, row, new_.value), b.ops - 1, b.migrated + 1, b.failed)
  }

  /** A row that is no longer what was fetched is a failure and stays as it is. */
  lemma ChangedRowFails(c: Codec, b: Work, row: Row, nonce: nat)
    requires row !in b.table
    ensures var r := RemediateOne(c, b, row, false, nonce);
            r.table == b.table && r.migrated == b.migrated && r.failed == b.failed + 1
  {
  }

  /** A whole fetched batch; `nonces` gives the nonce used for each row id. */
  function RemediateAll(c: Codec, b: Work, rows: seq<Row>, dryRun: bool, nonces: int -> nat): (r: Work)
    ensures r.ops <= b.ops
    decreases |rows|
  {
    if rows == [] then b
    else RemediateAll(c, RemediateOne(c, b, rows[0], dryRun, nonces(rows[0].id)), rows[1..], dryRun, nonces)
  }

  /** One fetch and its batch, with no deadline in sight. */
  function FixBatch(c: Codec, t: Table, nonces: int -> nat): Table {
    RemediateAll(c, Work(t, |FetchBatch(t)|, 0, 0), FetchBatch(t), false, nonces).table
  }

  function TableAfter(c: Codec, t: Table, nonces: int -> nat, passes: nat): Table
    decreases passes
  {
    if passes == 0 then t else TableAfter(c, FixBatch(c, t, nonces), nonces, passes - 1)
  }

  /** One row of a batch: it leaves the legacy rows when it is counted as migrated, and
      stays where it was, still to be repaired or broken, when counted as failed. */
  lemma OneRow(c: Codec, b: Work, pre: seq<Row>, row: Row, post: seq<Row>, nonce: nat) returns (left: seq<Row>)
    requires Sound(c) && Sorted(b.table) && Legacy(b.table) == pre + [row] + post
    ensures var r := RemediateOne(c, b, row, false, nonce);
            && Sorted(r.table) && Alike(c, r.table, b.table) && Legacy(r.table) == pre + left + post
            && |left| <= 1 && r.failed == b.failed + |left| && r.migrated == b.migrated + 1 - |left|
            && r.ops <= b.ops <= r.ops + 1
            && Kept(left, BrokenRow(c)) == Kept([row], BrokenRow(c))
            && (b.ops >= 1 ==> left == Kept([row], BrokenRow(c)))
  {
    LegacyMembers(b.table);
    assert row in Legacy(b.table);
    ReencryptionPreservesView(c, row.details.value, nonce);
    if Broken(c, row) || b.ops == 0 {
      left := [row];
      assert Broken(c, row) ==> Kept([row], BrokenRow(c)) == [row];
    } else {
      left := [];
      assert Kept([row], BrokenRow(c)) == [];
      SwapRemovesOne(b.table, row, ReencryptDetails(c, row.details.value, nonce).value, pre, post);
      SkipEmpty(pre, post);
      SwapKeepsView(c, b.table, b.table, row, nonce);
    }
  }

  /** A batch leaves its broken rows in place, takes out the others as long as the
      deadline allows, and changes nothing the application reads. */
  lemma {:induction false} WholeBatch(c: Codec, b: Work, pre: seq<Row>, rows: seq<Row>, post: seq<Row>, nonces: int -> nat)
    returns (left: seq<Row>)
    requires Sound(c) && Sorted(b.table) && Legacy(b.table) == pre + rows + post
    ensures var r := RemediateAll(c, b, rows, false, nonces);
            && Sorted(r.table) && Alike(c, r.table, b.table) && Legacy(r.table) == pre + left + post
            && |left| <= |rows| && r.failed == b.failed + |left| && r.migrated == b.migrated + |rows| - |left|
            && r.ops <= b.ops <= r.ops + |rows|
            && Kept(left, BrokenRow(c)) == Kept(rows, BrokenRow(c))
            && (b.ops >= |rows| ==> left == Kept(rows, BrokenRow(c)))
    decreases |rows|
  {
    if rows == [] {
      left := [];
    } else {
      var row, rest := rows[0], rows[1..];
      assert rows == [row] + rest;
      Regroup(pre, [row], rest, post);
      var head := OneRow(c, b, pre, row, rest + post, nonces(row.id));
      Regroup(pre, head, rest, post);
      var r := RemediateOne(c, b, row, false, nonces(row.id));
      var tail := WholeBatch(c, r, pre + head, rest, post, nonces);
      AlikeIsTransitive(c, RemediateAll(c, r, rest, false, nonces).table, r.table, b.table);
      Regroup(pre, head, tail, post);
      KeptOfConcat([row], rest, BrokenRow(c));
      KeptOfConcat(head, tail, BrokenRow(c));
      left := head + tail;
    }
  }

  /** A batch of legacy rows touches no other row. */
  lemma {:induction false} BatchRemediates(c: Codec, b: Work, rows: seq<Row>, dryRun: bool, nonces: int -> nat)
    requires Sound(c) && forall r | r in rows :: IsLegacy(r)
    ensures Remediated(c, b.table, RemediateAll(c, b, rows, dryRun, nonces).table)
    decreases |rows|
  {
    if rows != [] {
      var row, nonce := rows[0], nonces(rows[0].id);
      var one := RemediateOne(c, b, row, dryRun, nonce);
      if one.table != b.table {
        SwapRemediates(c, b.table, row, nonce);
      }
      BatchRemediates(c, one, rows[1..], dryRun, nonces);
      RemediatedIsTransitive(c, b.table, one.table, RemediateAll(c, b, rows, dryRun, nonces).table);
    }
  }

  lemma AlikeIsTransitive(c: Codec, t: Table, u: Table, v: Table)
    requires Alike(c, t, u) && Alike(c, u, v)
    ensures Alike(c, t, v)
  {
  }

  lemma OnePass(c: Codec, t: Table, nonces: int -> nat)
    requires Sound(c) && Sorted(t)
    ensures var u := FixBatch(c, t, nonces);
            Sorted(u) && Legacy(u) == Pass(Legacy(t), BrokenRow(c), BATCH_SIZE)
  {
    var rows, batch := Legacy(t), FetchBatch(t);
    SplitAt(rows, |batch|);
    var left := WholeBatch(c, Work(t, |batch|, 0, 0), [], batch, rows[|batch|..], nonces);
    SkipEmpty(left, rows[|batch|..]);
  }

  /** The table's legacy rows follow the abstract batch loop. */
  lemma {:induction false} PassesOnTable(c: Codec, t: Table, nonces: int -> nat, n: nat)
    requires Sound(c) && Sorted(t)
    ensures Legacy(TableAfter(c, t, nonces, n)) == Passes(Legacy(t), BrokenRow(c), BATCH_SIZE, n)
    decreases n
  {
    if n > 0 {
      OnePass(c, t, nonces);
      PassesOnTable(c, FixBatch(c, t, nonces), nonces, n - 1);
    }
  }

  /** A decodable row is eventually encrypted exactly when fewer than 500 undecodable
      rows have a smaller id: otherwise they fill every batch and it stays plaintext. */
  lemma EncryptedEventuallyExactlyWhen(c: Codec, t: Table, nonces: int -> nat,
                                       pre: seq<Row>, row: Row, post: seq<Row>)
    requires Sound(c) && Sorted(t) && Legacy(t) == pre + [row] + post && !Broken(c, row)
    ensures (exists n: nat :: row !in Legacy(TableAfter(c, t, nonces, n)))
        <==> |Kept(pre, BrokenRow(c))| < BATCH_SIZE
  {
    LegacyIsDistinct(t, pre, row, post);
    if |Kept(pre, BrokenRow(c))| < BATCH_SIZE {
      var n := Reached(pre, row, post, BrokenRow(c), BATCH_SIZE);
      PassesOnTable(c, t, nonces, n);
      assert row !in Legacy(TableAfter(c, t, nonces, n));
    } else {
      forall n: nat
        ensures row in Legacy(TableAfter(c, t, nonces, n))
      {
        Starved(pre, row, post, BrokenRow(c), BATCH_SIZE, n);
        PassesOnTable(c, t, nonces, n);
      }
    }
  }
}
