/** `run` and `remediateRow` of cmd/reencrypt-payouts/main.go as the program executes
    them, with the context deadline as a budget of database operations. */
module MigrationRun {
  import opened Seqs
  import opened Wrappers
  import opened Batches
  import opened Reencrypt
  import opened Migration

  function Ceil(n: nat): nat { (n + BATCH_SIZE - 1) / BATCH_SIZE }

  /** Fetches and updates of a run in which every row can be repaired. */
  function HealthyOps(n: nat): nat { n + Ceil(n) + 1 }

  class Database {
    const codec: Codec
    var table: Table
    var opsLeft: nat

    constructor (codec: Codec, table: Table, opsLeft: nat)
      ensures this.codec == codec && this.table == table && this.opsLeft == opsLeft
    {
      this.codec, this.table, this.opsLeft := codec, table, opsLeft;
    }

    /** None once the deadline has passed. */
    method Query() returns (rows: Option<seq<Row>>)
      modifies this`opsLeft
      ensures old(opsLeft) == 0 ==> rows.None? && opsLeft == 0
      ensures old(opsLeft) > 0 ==> rows == Some(FetchBatch(table)) && opsLeft == old(opsLeft) - 1
    {
      if opsLeft == 0 {
        return None;
      }
      opsLeft := opsLeft - 1;
      return Some(FetchBatch(table));
    }

    ghost function Abs(migrated: nat, failed: nat): Work
      reads this
    {
      Work(table, opsLeft, migrated, failed)
    }

    method RemediateRow(row: Row, dryRun: bool, nonce: nat) returns (ok: bool)
      modifies this
      ensures RemediateOne(codec, old(Abs(0, 0)), row, dryRun, nonce) == if ok then Abs(1, 0) else Abs(0, 1)
    {
      if row.details.None? {
        return false;
      }
      var newDetails := ReencryptDetails(codec, row.details.value, nonce);
      if newDetails.None? {
        return false;
      }
      if dryRun {
        return true;
      }
      if opsLeft == 0 {
        return false;
      }
      opsLeft := opsLeft - 1;
      var affected := Hits(table, row);
      if !affected {
        SwapOfMiss(table, row, newDetails.value);
      }
      table := Swap(table, row, newDetails.value);
      return affected;
    }

    /** The loop over one fetched batch. */
    method RemediateBatch(rows: seq<Row>, dryRun: bool, nonces: int -> nat)
      returns (migrated: nat, failed: nat)
      modifies this
      ensures Abs(migrated, failed) == RemediateAll(codec, old(Abs(0, 0)), rows, dryRun, nonces)
    {
      migrated, failed := 0, 0;
      for k := 0 to |rows|
        invariant RemediateAll(codec, Abs(migrated, failed), rows[k..], dryRun, nonces)
               == RemediateAll(codec, old(Abs(0, 0)), rows, dryRun, nonces)
      {
        NextRow(codec, Abs(migrated, failed), rows, k, dryRun, nonces);
        OneAdds(codec, Abs(0, 0), migrated, failed, rows[k], dryRun, nonces(rows[k].id));
        var ok := RemediateRow(rows[k], dryRun, nonces(rows[k].id));
        if ok {
          migrated := migrated + 1;
        } else {
          failed := failed + 1;
        }
      }
    }

    /** How a real run goes on from here with these counters. */
    ghost function EndFrom(migrated: nat, failed: nat, fetches: nat, nonces: int -> nat): End
      reads this
    {
      RunFrom(codec, Abs(migrated, failed), fetches, nonces)
    }

    /** One round of the loop: a fetch and, if it returned rows, their batch. The ghost
        arguments are what was counted before. */
    method Round(dryRun: bool, nonces: int -> nat, ghost migrated: nat, ghost failed: nat, ghost fetches: nat)
      returns (m: nat, f: nat, empty: bool, error: bool)
      modifies this
      ensures error == (old(opsLeft) == 0) && (error ==> Abs(m, f) == old(Abs(0, 0)))
      ensures !error && empty ==> FetchBatch(old(table)) == []
      ensures !error ==>
                && opsLeft < old(opsLeft)
                && Abs(m, f) == RemediateAll(codec, Work(old(table), old(opsLeft) - 1, 0, 0),
                                             FetchBatch(old(table)), dryRun, nonces)
      ensures !dryRun ==>
                old(EndFrom(migrated, failed, fetches, nonces))
                == if error then End(Abs(migrated, failed), fetches, true)
                   else if empty then End(Abs(migrated, failed), fetches + 1, false)
                   else EndFrom(migrated + m, failed + f, fetches + 1, nonces)
    {
      m, f, empty, error := 0, 0, true, false;
      ghost var before := Abs(migrated, failed);
      var rows := Query();
      if rows.None? {
        error := true;
        return;
      }
      if rows.value == [] {
        return;
      }
      empty := false;
      m, f := RemediateBatch(rows.value, dryRun, nonces);
      if !dryRun {
        NextPass(codec, before, fetches, nonces, Abs(m, f));
      }
    }

    /** Fetch and remediate until a fetch returns nothing, or once in a dry run. */
    method Loop(dryRun: bool, nonces: int -> nat)
      returns (migrated: nat, failed: nat, fetches: nat, error: bool)
      modifies this
      ensures dryRun ==> (error <==> old(opsLeft) == 0)
      ensures dryRun && error ==> table == old(table) && migrated == failed == fetches == 0
      ensures dryRun && !error ==>
                && fetches == 1
                && Abs(migrated, failed) == RemediateAll(codec, Work(old(table), old(opsLeft) - 1, 0, 0),
                                                         FetchBatch(old(table)), true, nonces)
      ensures !dryRun ==> End(Abs(migrated, failed), fetches, error) == old(EndFrom(0, 0, 0, nonces))
    {
      migrated, failed, fetches, error := 0, 0, 0, false;
      ghost var end := EndFrom(0, 0, 0, nonces);
      while true
        invariant dryRun ==> Abs(migrated, failed) == old(Abs(0, 0)) && fetches == 0
        invariant !dryRun ==> EndFrom(migrated, failed, fetches, nonces) == end
        decreases opsLeft
      {
        var m, f, empty, stop := Round(dryRun, nonces, migrated, failed, fetches);
        if stop {
          error := true;
          return;
        }
        fetches := fetches + 1;
        if empty {
          return;
        }
        migrated, failed := migrated + m, failed + f;
        if dryRun {
          return;
        }
      }
    }

    /** The migration from its start. */
    method Run(dryRun: bool, nonces: int -> nat)
      returns (migrated: nat, failed: nat, fetches: nat, error: bool)
      requires Sound(codec) && Sorted(table)
      modifies this
      // Nothing the application reads has changed, however the run ended.
      ensures Sorted(table) && Alike(codec, table, old(table))
      ensures dryRun ==> table == old(table) && (error <==> old(opsLeft) == 0)
      // A dry run tells apart the rows that decode and those that do not.
      ensures dryRun && !error ==>
                && fetches == 1 && failed == |Kept(FetchBatch(old(table)), BrokenRow(codec))|
                && migrated == |FetchBatch(old(table))| - failed
      // A real one ends as fetching and remediating over and over does.
      ensures !dryRun ==> End(Abs(migrated, failed), fetches, error) == old(EndFrom(0, 0, 0, nonces))
      // Only legacy rows were touched, and those only to encrypt them.
      ensures Remediated(codec, old(table), table)
      // Every success took exactly one row out of the legacy set.
      ensures !dryRun ==> migrated + |Legacy(table)| == |Legacy(old(table))|
      // With nothing legacy, as after a run without error, the table stays as it is.
      ensures Legacy(old(table)) == [] ==> table == old(table) && migrated == 0 && fetches <= 1
      // A run that returns no error has emptied it, which no broken row ever allows.
      ensures !dryRun && !error ==> Legacy(table) == []
      ensures !dryRun && BrokenRows(codec, old(table)) != [] ==> error
      // Then everything is encrypted exactly when all that the query passes over was.
      ensures !dryRun && !error ==> (AllEncrypted(codec, table) <==> MatchesAreEncrypted(codec, old(table)))
      // Without broken rows it always gets there, in ceil(n/500) + 1 fetches.
      ensures !dryRun && BrokenRows(codec, old(table)) == [] && old(opsLeft) >= HealthyOps(|Legacy(old(table))|) ==>
                !error && failed == 0 && migrated == |Legacy(old(table))|
                && fetches == Ceil(|Legacy(old(table))|) + 1
    {
      RealRun(codec, Abs(0, 0), 0, nonces);
      if dryRun && opsLeft > 0 {
        DryFetch(codec, Work(table, opsLeft - 1, 0, 0), nonces);
      }
      migrated, failed, fetches, error := Loop(dryRun, nonces);
      if !dryRun && !error {
        FullyEncryptedExactlyWhen(codec, old(table), table);
      }
      assert BrokenRows(codec, old(table)) != [] ==> Legacy(old(table)) != [];
    }
  }

  function BrokenRows(c: Codec, t: Table): seq<Row> { Kept(Legacy(t), BrokenRow(c)) }

  /** What one fetched batch does, as the run's loop needs it. */
  lemma BatchMeaning(c: Codec, b: Work, nonces: int -> nat)
    requires Sound(c) && Sorted(b.table)
    ensures var n := |Legacy(b.table)|; var rows := FetchBatch(b.table);
            var r := RemediateAll(c, b, rows, false, nonces);
            && Sorted(r.table) && Alike(c, r.table, b.table)
            && r.migrated + |Legacy(r.table)| == b.migrated + n
            && r.ops <= b.ops <= r.ops + |rows|
            && BrokenRows(c, r.table) == BrokenRows(c, b.table)
            && (b.ops >= |rows| && BrokenRows(c, b.table) == [] ==>
                  r.failed == b.failed && |Legacy(r.table)| == n - |rows|)
  {
    var all, rows := Legacy(b.table), FetchBatch(b.table);
    var rest := all[|rows|..];
    SplitAt(all, |rows|);
    var left := WholeBatch(c, b, [], rows, rest, nonces);
    SkipEmpty(left, rest);
    KeptOfConcat(left, rest, BrokenRow(c));
    KeptOfConcat(rows, rest, BrokenRow(c));
  }

  /** How a run ends. */
  datatype End = End(work: Work, fetches: nat, error: bool)

  /** Fetch and remediate until a fetch fails or returns nothing. */
  function RunFrom(c: Codec, b: Work, fetches: nat, nonces: int -> nat): End
    decreases b.ops
  {
    if b.ops == 0 then End(b, fetches, true)
    else
      var q, rows := b.(ops := b.ops - 1), FetchBatch(b.table);
      if rows == [] then End(q, fetches + 1, false)
      else RunFrom(c, RemediateAll(c, q, rows, false, nonces), fetches + 1, nonces)
  }

  /** The one fetch of a dry run. */
  lemma DryFetch(c: Codec, b: Work, nonces: int -> nat)
    requires Sound(c)
    ensures var rows := FetchBatch(b.table); var r := RemediateAll(c, b, rows, true, nonces);
            var broken := |Kept(rows, BrokenRow(c))|;
            r.table == b.table && r.failed == b.failed + broken && r.migrated == b.migrated + |rows| - broken
  {
    LegacyMembers(b.table);
    DryBatch(c, b, FetchBatch(b.table), nonces);
  }

  lemma KeptSplits<T>(xs: seq<T>, p: T -> bool)
    requires xs != []
    ensures |Kept(xs, p)| == (if p(xs[0]) then 1 else 0) + |Kept(xs[1..], p)|
  {
  }

  /** What every real run does, however it ends. */
  lemma {:induction false} RealRun(c: Codec, b: Work, fetches: nat, nonces: int -> nat)
    requires Sound(c) && Sorted(b.table)
    ensures var end := RunFrom(c, b, fetches, nonces);
            var t, u, n := b.table, end.work.table, |Legacy(b.table)|;
            && Sorted(u) && Alike(c, u, t) && Remediated(c, t, u) && BrokenRows(c, u) == BrokenRows(c, t)
            && end.work.migrated + |Legacy(u)| == b.migrated + n
            && (n == 0 ==> u == t && end.work.migrated == b.migrated && end.fetches <= fetches + 1)
            && (!end.error ==> Legacy(u) == [])
            && (BrokenRows(c, t) == [] && b.ops >= HealthyOps(n) ==>
                  !end.error && end.work.failed == b.failed && end.fetches == fetches + Ceil(n) + 1)
    decreases b.ops
  {
    var q, rows := b.(ops := if b.ops > 0 then b.ops - 1 else 0), FetchBatch(b.table);
    if b.ops > 0 && rows != [] {
      var r := RemediateAll(c, q, rows, false, nonces);
      BatchMeaning(c, q, nonces);
      LegacyMembers(b.table);
      BatchRemediates(c, q, rows, false, nonces);
      HealthyStep(|Legacy(b.table)|);
      RealRun(c, r, fetches + 1, nonces);
      var u := RunFrom(c, r, fetches + 1, nonces).work.table;
      AlikeIsTransitive(c, u, r.table, b.table);
      RemediatedIsTransitive(c, b.table, r.table, u);
    }
  }

  /** One more fetch and its batch, counted from zero and added up. */
  lemma NextPass(c: Codec, b: Work, fetches: nat, nonces: int -> nat, r: Work)
    requires b.ops > 0 && FetchBatch(b.table) != []
    requires r == RemediateAll(c, Work(b.table, b.ops - 1, 0, 0), FetchBatch(b.table), false, nonces)
    ensures RunFrom(c, b, fetches, nonces)
         == RunFrom(c, r.(migrated := b.migrated + r.migrated, failed := b.failed + r.failed), fetches + 1, nonces)
  {
    CountersAdd(c, Work(b.table, b.ops - 1, 0, 0), b.migrated, b.failed, FetchBatch(b.table), nonces);
  }

  lemma NextRow(c: Codec, b: Work, rows: seq<Row>, k: nat, dryRun: bool, nonces: int -> nat)
    requires k < |rows|
    ensures RemediateAll(c, b, rows[k..], dryRun, nonces)
         == RemediateAll(c, RemediateOne(c, b, rows[k], dryRun, nonces(rows[k].id)), rows[k + 1..], dryRun, nonces)
  {
    assert rows[k..][0] == rows[k] && rows[k..][1..] == rows[k + 1..];
  }

  lemma OneAdds(c: Codec, b: Work, m: nat, f: nat, row: Row, dryRun: bool, nonce: nat)
    ensures var r := RemediateOne(c, b, row, dryRun, nonce);
            RemediateOne(c, b.(migrated := b.migrated + m, failed := b.failed + f), row, dryRun, nonce)
            == r.(migrated := r.migrated + m, failed := r.failed + f)
  {
  }

  /** A batch adds to the counters what it would count from zero. */
  lemma {:induction false} CountersAdd(c: Codec, b: Work, m: nat, f: nat, rows: seq<Row>, nonces: int -> nat)
    ensures var r := RemediateAll(c, b, rows, false, nonces);
            RemediateAll(c, b.(migrated := b.migrated + m, failed := b.failed + f), rows, false, nonces)
            == r.(migrated := r.migrated + m, failed := r.failed + f)
    decreases |rows|
  {
    if rows != [] {
      CountersAdd(c, RemediateOne(c, b, rows[0], false, nonces(rows[0].id)), m, f, rows[1..], nonces);
    }
  }

  /** A dry run only counts, the undecodable rows as failed and the others as migrated. */
  lemma {:induction false} DryBatch(c: Codec, b: Work, rows: seq<Row>, nonces: int -> nat)
    requires Sound(c) && forall r | r in rows :: IsLegacy(r)
    ensures var r := RemediateAll(c, b, rows, true, nonces); var broken := |Kept(rows, BrokenRow(c))|;
            && r.table == b.table && r.ops == b.ops
            && r.failed == b.failed + broken && r.migrated == b.migrated + |rows| - broken
    decreases |rows|
  {
    if rows != [] {
      assert rows[0] in rows;
      ReencryptionPreservesView(c, rows[0].details.value, nonces(rows[0].id));
      KeptSplits(rows, BrokenRow(c));
      DryBatch(c, RemediateOne(c, b, rows[0], true, nonces(rows[0].id)), rows[1..], nonces);
    }
  }

  /** The budget of a healthy run pays for one more fetch and its batch. */
  lemma HealthyStep(n: nat)
    requires n > 0
    ensures Ceil(n) == Ceil(n - Min(BATCH_SIZE, n)) + 1
    ensures HealthyOps(n) == HealthyOps(n - Min(BATCH_SIZE, n)) + Min(BATCH_SIZE, n) + 1
  {
  }

  lemma SwapOfMiss(t: Table, row: Row, new_: string)
    requires row !in t
    ensures Swap(t, row, new_) == t
  {
  }
}
