/** Concrete inputs on which the KYC document purge of cmd/worker/main.go does less than its
    comments say. */
module KycPurgeExamples {
  import opened Batches
  import opened KycPurge

  // ---- an orphaned file ----

  const SCAN := Doc(1, "scan", true)

  const ALL_WELL: Answer := Answer(true, true, false, true, true)

  lemma ScanIsListed()
    ensures ListExpired([SCAN]) == [SCAN]
  {
    EverythingKept([SCAN], (d: Doc) => d.expired);
  }

  lemma NoRowLeft(rows: seq<Doc>, files: set<string>, ans: Answers)
    requires rows == [SCAN] && "scan" in files && ListExpired(rows) == [SCAN]
    requires NoOrphans(State(rows, files)) && ans(SCAN) == ALL_WELL
    ensures !NoOrphans(PurgeRun(State(rows, files), false, ans).state)
  {
    assert rows[0] in rows && SCAN in ListExpired(rows);
    RunWithoutStoreOrphansExactlyWhen(State(rows, files), ans);
  }

  /** One expired document, its file stored, every delete successful, no file store: the
      file stays behind without a row. */
  lemma RunWithoutStoreOrphansAFile()
    ensures NoOrphans(State([SCAN], {"scan"}))
    ensures !NoOrphans(PurgeRun(State([SCAN], {"scan"}), false, _ => ALL_WELL).state)
  {
    assert SCAN in [SCAN] && HasRow([SCAN], "scan");
    ScanIsListed();
    NoRowLeft([SCAN], {"scan"}, _ => ALL_WELL);
  }

  // ---- a starving document ----

  /** The file store refuses the first hundred documents for ever. */
  function Refusing(): Answers { (d: Doc) => if d.id < 100 then Answer(false, false, false, true, true) else ALL_WELL }

  function RefusedAt(id: int): Doc { Doc(id, "refused", true) }

  const LATER := Doc(100, "later", true)

  const BACKLOG: seq<Doc> := seq(100, i => RefusedAt(i)) + [LATER]

  lemma NumberedFromZero()
    ensures DistinctIds(BACKLOG)
  {
    assert forall i | 0 <= i < 101 :: BACKLOG[i].id == i;
  }

  lemma AllExpired()
    ensures Expired(BACKLOG) == BACKLOG
  {
    EverythingKept(BACKLOG, (d: Doc) => d.expired);
  }

  lemma AllRefused()
    ensures |Kept(seq(100, i => RefusedAt(i)), StaysIn(true, Refusing()))| == 100
  {
    EverythingKept(seq(100, i => RefusedAt(i)), StaysIn(true, Refusing()));
  }

  /** However many weeks pass, the later document is never purged, though nothing is wrong
      with it. */
  lemma HundredRefusedDocumentsStarveTheNext(files: set<string>, n: nat)
    ensures !Stays(LATER, true, Refusing())
    ensures LATER in Expired(Repeated(RunOnce(true, Refusing()), State(BACKLOG, files), n).rows)
  {
    NumberedFromZero();
    AllExpired();
    AllRefused();
    var pre := seq(100, i => RefusedAt(i));
    assert BACKLOG == pre + [LATER] + [];
    PurgedEventuallyExactlyWhen(State(BACKLOG, files), true, Refusing(), pre, LATER, []);
  }
}
