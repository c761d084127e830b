/** The KYC document purge of cmd/worker/main.go: the file goes first, then its metadata
    row, one document after the other, under arbitrary failures and crashes. */
module KycPurge {
  import opened Batches
  import opened Seqs

  const BATCH_SIZE := 100

  /** A metadata row; `expired` is the retention condition of ListExpiredDocuments. */
  datatype Doc = Doc(id: int, storageKey: string, expired: bool)

  /** Rows in upload order and the objects in the file store. */
  datatype State = State(rows: seq<Doc>, files: set<string>)

  /** What the environment does to one document: either delete may report an error, with
      or without having taken effect, and the worker may die between the two. */
  datatype Answer = Answer(fileOk: bool, fileGone: bool, crash: bool, rowOk: bool, rowGone: bool)

  datatype Result = Deleted | FileStoreFailed | DbFailed | Died

  type Answers = Doc -> Answer

  predicate DistinctIds(rows: seq<Doc>) {
    forall i, j | 0 <= i < j < |rows| :: rows[i].id != rows[j].id
  }

  function OtherThan(id: int): Doc -> bool { (d: Doc) => d.id != id }

  function DeleteRow(rows: seq<Doc>, id: int): seq<Doc> { Kept(rows, OtherThan(id)) }

  function Expired(rows: seq<Doc>): seq<Doc> { Kept(rows, (d: Doc) => d.expired) }

  function ListExpired(rows: seq<Doc>): seq<Doc> {
    Expired(rows)[..Min(BATCH_SIZE, |Expired(rows)|)]
  }

  function ResultOf(s: State, doc: Doc, hasStore: bool, a: Answer): Result {
    if hasStore && !a.fileOk then FileStoreFailed
    else if a.crash then Died
    else if a.rowOk && doc in s.rows then Deleted
    else DbFailed
  }

  /** purgeKYCDocument. */
  function PurgeOne(s: State, doc: Doc, hasStore: bool, a: Answer): State {
    var files := if hasStore && (a.fileOk || a.fileGone) then s.files - {doc.storageKey} else s.files;
    var reached := !(hasStore && !a.fileOk) && !a.crash;
    State(if reached && (a.rowOk || a.rowGone) then DeleteRow(s.rows, doc.id) else s.rows, files)
  }

  /** The three counters of the job. */
  datatype Counts = Counts(deleted: nat, fileStoreFailed: nat, dbFailed: nat) {
    function Plus(c: Counts): Counts {
      Counts(deleted + c.deleted, fileStoreFailed + c.fileStoreFailed, dbFailed + c.dbFailed)
    }

    function Total(): nat { deleted + fileStoreFailed + dbFailed }
  }

  function CountOf(r: Result): Counts {
    match r
    case Deleted => Counts(1, 0, 0)
    case FileStoreFailed => Counts(0, 1, 0)
    case DbFailed => Counts(0, 0, 1)
    case Died => Counts(0, 0, 0)
  }

  /** What the loop carries from document to document. */
  datatype Progress = Progress(state: State, counts: Counts, died: bool)

  function PurgeNext(p: Progress, doc: Doc, hasStore: bool, a: Answer): Progress {
    var r := ResultOf(p.state, doc, hasStore, a);
    Progress(PurgeOne(p.state, doc, hasStore, a), p.counts.Plus(CountOf(r)), r.Died?)
  }

  /** The loop over the documents; a crash ends it. */
  function PurgeRest(p: Progress, docs: seq<Doc>, hasStore: bool, ans: Answers): Progress
    decreases |docs|
  {
    if docs == [] || p.died then p
    else PurgeRest(PurgeNext(p, docs[0], hasStore, ans(docs[0])), docs[1..], hasStore, ans)
  }

  const NOTHING_YET := Counts(0, 0, 0)

  function Begin(s: State): Progress { Progress(s, NOTHING_YET, false) }

  /** One weekly run whose listing succeeded. */
  function PurgeRun(s: State, hasStore: bool, ans: Answers): Progress {
    PurgeRest(Begin(s), ListExpired(s.rows), hasStore, ans)
  }

  /** Every stored document file still has its metadata row. */
  predicate NoOrphans(s: State) {
    forall k | k in s.files :: HasRow(s.rows, k)
  }

  predicate HasRow(rows: seq<Doc>, key: string) {
    exists d | d in rows :: d.storageKey == key
  }

  // ---- the job as the source writes it ----

  class Stores {
    var rows: seq<Doc>
    var files: set<string>

    ghost function Abs(): State
      reads this
    {
      State(rows, files)
    }

    constructor (rows: seq<Doc>, files: set<string>)
      ensures Abs() == State(rows, files)
    {
      this.rows, this.files := rows, files;
    }

    method PurgeDocument(doc: Doc, hasStore: bool, a: Answer) returns (counts: Counts, died: bool)
      modifies this
      ensures Abs() == PurgeOne(old(Abs()), doc, hasStore, a)
      ensures counts == CountOf(ResultOf(old(Abs()), doc, hasStore, a))
      ensures died == ResultOf(old(Abs()), doc, hasStore, a).Died?
    {
      if hasStore {
        if a.fileOk || a.fileGone {
          files := files - {doc.storageKey};
        }
        if !a.fileOk {
          return Counts(0, 1, 0), false;
        }
      }
      if a.crash {
        return Counts(0, 0, 0), true;
      }
      var found := doc in rows;
      if a.rowOk || a.rowGone {
        rows := DeleteRow(rows, doc.id);
      }
      if !a.rowOk || !found {
        return Counts(0, 0, 1), false;
      }
      return Counts(1, 0, 0), false;
    }

    ghost function Now(counts: Counts, died: bool): Progress
      reads this
    {
      Progress(Abs(), counts, died)
    }

    /** The loop over the listed documents. */
    method PurgeBatch(docs: seq<Doc>, hasStore: bool, ans: Answers) returns (counts: Counts, died: bool)
      modifies this
      ensures Now(counts, died) == PurgeRest(old(Now(NOTHING_YET, false)), docs, hasStore, ans)
    {
      counts, died := NOTHING_YET, false;
      for k := 0 to |docs|
        invariant !died
        invariant PurgeRest(Now(counts, died), docs[k..], hasStore, ans)
               == PurgeRest(old(Now(NOTHING_YET, false)), docs, hasStore, ans)
      {
        ghost var before := Now(counts, false);
        NextDocument(before, docs, k, hasStore, ans);
        var one, dead := PurgeDocument(docs[k], hasStore, ans(docs[k]));
        counts, died := counts.Plus(one), dead;
        assert Now(counts, died) == PurgeNext(before, docs[k], hasStore, ans(docs[k]));
        if died {
          return;
        }
      }
    }

    /** One weekly run. An error means the listing failed and nothing was touched. */
    method PurgeJob(listOk: bool, hasStore: bool, ans: Answers) returns (counts: Counts, died: bool, error: bool)
      modifies this
      ensures error == !listOk
      ensures error ==> Abs() == old(Abs()) && counts == NOTHING_YET && !died
      ensures !error ==> Now(counts, died) == PurgeRun(old(Abs()), hasStore, ans)
      ensures !error && !died ==> counts.Total() == |ListExpired(old(rows))|
    {
      counts, died, error := NOTHING_YET, false, !listOk;
      if !listOk {
        return;
      }
      var docs := ListExpired(rows);
      ghost var before := Begin(Abs());
      counts, died := PurgeBatch(docs, hasStore, ans);
      if !died {
        RestTotal(before, docs, hasStore, ans);
      }
    }
  }

  lemma NextDocument(p: Progress, docs: seq<Doc>, k: nat, hasStore: bool, ans: Answers)
    requires !p.died && k < |docs|
    ensures var q := PurgeNext(p, docs[k], hasStore, ans(docs[k]));
            PurgeRest(p, docs[k..], hasStore, ans) == PurgeRest(q, docs[k + 1..], hasStore, ans)
  {
    assert docs[k..][0] == docs[k] && docs[k..][1..] == docs[k + 1..];
  }

  lemma {:induction false} RestTotal(p: Progress, docs: seq<Doc>, hasStore: bool, ans: Answers)
    requires !p.died && !PurgeRest(p, docs, hasStore, ans).died
    ensures PurgeRest(p, docs, hasStore, ans).counts.Total() == p.counts.Total() + |docs|
    decreases |docs|
  {
    if docs != [] {
      var q := PurgeNext(p, docs[0], hasStore, ans(docs[0]));
      assert !q.died && q.counts.Total() == p.counts.Total() + 1;
      RestTotal(q, docs[1..], hasStore, ans);
    }
  }

  // ---- no orphaned files ----

  lemma DeleteRowMembers(rows: seq<Doc>, id: int)
    ensures forall d :: d in DeleteRow(rows, id) <==> d in rows && d.id != id
  {
    KeptMembers(rows, OtherThan(id));
  }

  /** The row that a delete by id removes is the listed document itself. */
  predicate Listed(rows: seq<Doc>, doc: Doc) {
    forall d | d in rows && d.id == doc.id :: d == doc
  }

  lemma OnePurgeKeepsNoOrphans(s: State, doc: Doc, a: Answer)
    requires NoOrphans(s) && Listed(s.rows, doc)
    ensures NoOrphans(PurgeOne(s, doc, true, a))
  {
    var t := PurgeOne(s, doc, true, a);
    DeleteRowMembers(s.rows, doc.id);
    forall k | k in t.files
      ensures HasRow(t.rows, k)
    {
      assert HasRow(s.rows, k);
      var d :| d in s.rows && d.storageKey == k;
      assert d in t.rows;
    }
  }

  lemma {:induction false} PurgeKeepsNoOrphans(p: Progress, docs: seq<Doc>, ans: Answers)
    requires NoOrphans(p.state) && forall d | d in docs :: Listed(p.state.rows, d)
    ensures NoOrphans(PurgeRest(p, docs, true, ans).state)
    decreases |docs|
  {
    if docs != [] && !p.died {
      var q := PurgeNext(p, docs[0], true, ans(docs[0]));
      OnePurgeKeepsNoOrphans(p.state, docs[0], ans(docs[0]));
      DeleteRowMembers(p.state.rows, docs[0].id);
      forall d | d in docs[1..]
        ensures Listed(q.state.rows, d)
      {
        assert d in docs && Listed(p.state.rows, d);
      }
      PurgeKeepsNoOrphans(q, docs[1..], ans);
    }
  }

  lemma ListedDocs(rows: seq<Doc>)
    requires DistinctIds(rows)
    ensures forall d | d in ListExpired(rows) :: d in rows && Listed(rows, d)
  {
    KeptMembers(rows, (d: Doc) => d.expired);
    forall d | d in ListExpired(rows)
      ensures d in rows && Listed(rows, d)
    {
      assert d in Expired(rows);
      var i :| 0 <= i < |rows| && rows[i] == d;
    }
  }

  lemma {:induction false} KeptDistinct(rows: seq<Doc>, keep: Doc -> bool)
    requires DistinctIds(rows)
    ensures DistinctIds(Kept(rows, keep))
  {
    if rows != [] {
      KeptDistinct(rows[1..], keep);
      KeptMembers(rows[1..], keep);
      var rest := Kept(rows[1..], keep);
      forall i | 0 <= i < |rest|
        ensures rest[i].id != rows[0].id
      {
        assert rest[i] in rest;
      }
    }
  }

  lemma {:induction false} PurgeKeepsDistinct(p: Progress, docs: seq<Doc>, hasStore: bool, ans: Answers)
    requires DistinctIds(p.state.rows)
    ensures DistinctIds(PurgeRest(p, docs, hasStore, ans).state.rows)
    decreases |docs|
  {
    if docs != [] && !p.died {
      KeptDistinct(p.state.rows, OtherThan(docs[0].id));
      PurgeKeepsDistinct(PurgeNext(p, docs[0], hasStore, ans(docs[0])), docs[1..], hasStore, ans);
    }
  }

  function RunAll(s: State, hasStore: bool, runs: seq<Answers>): State {
    if runs == [] then s else PurgeRun(RunAll(s, hasStore, runs[..|runs| - 1]), hasStore, runs[|runs| - 1]).state
  }

  /** Over any number of runs, with a file store, whatever fails and wherever a run dies,
      no stored file ever loses its metadata row. */
  lemma {:induction false} NeverOrphans(s: State, runs: seq<Answers>)
    requires DistinctIds(s.rows) && NoOrphans(s)
    ensures var t := RunAll(s, true, runs); DistinctIds(t.rows) && NoOrphans(t)
  {
    if runs != [] {
      NeverOrphans(s, runs[..|runs| - 1]);
      var t := RunAll(s, true, runs[..|runs| - 1]);
      ListedDocs(t.rows);
      PurgeKeepsNoOrphans(Begin(t), ListExpired(t.rows), runs[|runs| - 1]);
      PurgeKeepsDistinct(Begin(t), ListExpired(t.rows), true, runs[|runs| - 1]);
    }
  }

  // ---- without a file store ----

  /** The worker lives to delete the row of document k of the batch. */
  predicate GoesAt(docs: seq<Doc>, k: nat, ans: Answers)
    requires k < |docs|
  {
    (ans(docs[k]).rowOk || ans(docs[k]).rowGone) && forall j | 0 <= j <= k :: !ans(docs[j]).crash
  }

  predicate Goes(docs: seq<Doc>, id: int, ans: Answers) {
    exists k: nat | k < |docs| :: docs[k].id == id && GoesAt(docs, k, ans)
  }

  lemma GoesFirstOrLater(docs: seq<Doc>, id: int, ans: Answers)
    requires docs != [] && !ans(docs[0]).crash
    ensures Goes(docs, id, ans) <==>
            (docs[0].id == id && GoesAt(docs, 0, ans)) || Goes(docs[1..], id, ans)
  {
    var rest := docs[1..];
    forall k: nat | k < |rest|
      ensures GoesAt(rest, k, ans) <==> GoesAt(docs, k + 1, ans)
    {
      assert forall j | 1 <= j <= k + 1 :: docs[j] == rest[j - 1];
      assert forall j | 0 <= j <= k :: rest[j] == docs[j + 1];
    }
    if Goes(docs, id, ans) {
      var k: nat :| k < |docs| && docs[k].id == id && GoesAt(docs, k, ans);
      if k > 0 {
        assert rest[k - 1] == docs[k] && GoesAt(rest, k - 1, ans);
      }
    }
    if Goes(rest, id, ans) {
      var k: nat :| k < |rest| && rest[k].id == id && GoesAt(rest, k, ans);
      assert docs[k + 1] == rest[k] && GoesAt(docs, k + 1, ans);
    }
  }

  /** Without a store a batch touches no file, and takes exactly those rows. */
  lemma {:induction false} BatchWithoutStore(p: Progress, docs: seq<Doc>, ans: Answers)
    requires !p.died
    ensures var q := PurgeRest(p, docs, false, ans).state;
            && q.files == p.state.files
            && forall d :: d in q.rows <==> d in p.state.rows && !Goes(docs, d.id, ans)
    decreases |docs|
  {
    if docs != [] {
      if ans(docs[0]).crash {
        assert forall k: nat | k < |docs| :: !GoesAt(docs, k, ans);
      } else {
        BatchWithoutStore(PurgeNext(p, docs[0], false, ans(docs[0])), docs[1..], ans);
        DeleteRowMembers(p.state.rows, docs[0].id);
        forall d: Doc
          ensures Goes(docs, d.id, ans) <==>
                  (docs[0].id == d.id && GoesAt(docs, 0, ans)) || Goes(docs[1..], d.id, ans)
        {
          GoesFirstOrLater(docs, d.id, ans);
        }
      }
    }
  }

  /** Some row with this key outlives the batch. */
  predicate KeyOutlives(rows: seq<Doc>, docs: seq<Doc>, ans: Answers, key: string) {
    exists e | e in rows :: e.storageKey == key && !Goes(docs, e.id, ans)
  }

  /** Without a file store, a whole batch under any failures and crashes keeps the guarantee
      exactly when every row it takes leaves its file another row, or has no file. */
  lemma WithoutStoreOrphansExactlyWhen(s: State, docs: seq<Doc>, ans: Answers)
    requires NoOrphans(s)
    ensures NoOrphans(PurgeRest(Begin(s), docs, false, ans).state) <==>
            forall d | d in s.rows && d.storageKey in s.files && Goes(docs, d.id, ans) ::
              KeyOutlives(s.rows, docs, ans, d.storageKey)
  {
    var t := PurgeRest(Begin(s), docs, false, ans).state;
    BatchWithoutStore(Begin(s), docs, ans);
    forall k | k in s.files
      ensures HasRow(t.rows, k) <==> KeyOutlives(s.rows, docs, ans, k)
    {
    }
    if forall d | d in s.rows && d.storageKey in s.files && Goes(docs, d.id, ans) ::
         KeyOutlives(s.rows, docs, ans, d.storageKey)
    {
      forall k | k in t.files
        ensures HasRow(t.rows, k)
      {
        assert HasRow(s.rows, k);
        var d :| d in s.rows && d.storageKey == k;
        assert Goes(docs, d.id, ans) || d in t.rows;
      }
    }
  }

  predicate DistinctKeys(rows: seq<Doc>) {
    forall d, e | d in rows && e in rows && d.storageKey == e.storageKey :: d == e
  }

  /** With every delete successful, exactly the listed rows go. */
  lemma ListedGo(rows: seq<Doc>, docs: seq<Doc>, ans: Answers, d: Doc)
    requires d in rows && forall e | e in docs :: Listed(rows, e) && ans(e).rowOk && !ans(e).crash
    ensures Goes(docs, d.id, ans) <==> d in docs
  {
    if d in docs {
      var k: nat :| k < |docs| && docs[k] == d;
      assert GoesAt(docs, k, ans);
    }
    if Goes(docs, d.id, ans) {
      var k: nat :| k < |docs| && docs[k].id == d.id && GoesAt(docs, k, ans);
      assert Listed(rows, docs[k]);
    }
  }

  /** A stored file of a row that goes has no other row. */
  lemma OnlyRowOfItsFile(rows: seq<Doc>, docs: seq<Doc>, ans: Answers, d: Doc)
    requires DistinctKeys(rows) && d in rows && Goes(docs, d.id, ans)
    ensures !KeyOutlives(rows, docs, ans, d.storageKey)
  {
  }

  /** In particular a weekly run in which every metadata delete succeeds orphans a file
      exactly when the file of a listed document is still stored. */
  lemma RunWithoutStoreOrphansExactlyWhen(s: State, ans: Answers)
    requires NoOrphans(s) && DistinctIds(s.rows) && DistinctKeys(s.rows)
    requires forall d | d in ListExpired(s.rows) :: ans(d).rowOk && !ans(d).crash
    ensures NoOrphans(PurgeRun(s, false, ans).state) <==>
            forall d | d in ListExpired(s.rows) :: d.storageKey !in s.files
  {
    var docs := ListExpired(s.rows);
    ListedDocs(s.rows);
    WithoutStoreOrphansExactlyWhen(s, docs, ans);
    forall d | d in s.rows
      ensures Goes(docs, d.id, ans) <==> d in docs
      ensures d in docs ==> !KeyOutlives(s.rows, docs, ans, d.storageKey)
    {
      ListedGo(s.rows, docs, ans, d);
      if d in docs {
        OnlyRowOfItsFile(s.rows, docs, ans, d);
      }
    }
  }

  // ---- how long it takes ----

  /** The document's row survives this run's attempt. */
  predicate Stays(d: Doc, hasStore: bool, ans: Answers) {
    var a := ans(d);
    (hasStore && !a.fileOk) || a.crash || (!a.rowOk && !a.rowGone)
  }

  function StaysIn(hasStore: bool, ans: Answers): Doc -> bool { (d: Doc) => Stays(d, hasStore, ans) }

  predicate NoCrash(ans: Answers, docs: seq<Doc>) {
    forall d | d in docs :: !ans(d).crash
  }

  lemma OnePurge(s: State, pre: seq<Doc>, doc: Doc, post: seq<Doc>, hasStore: bool, ans: Answers)
    requires DistinctIds(s.rows) && Expired(s.rows) == pre + [doc] + post && !ans(doc).crash
    ensures var t := PurgeOne(s, doc, hasStore, ans(doc));
            DistinctIds(t.rows) && Expired(t.rows) == pre + Kept([doc], StaysIn(hasStore, ans)) + post
  {
    if Stays(doc, hasStore, ans) {
      assert Kept([doc], StaysIn(hasStore, ans)) == [doc];
    } else {
      assert Kept([doc], StaysIn(hasStore, ans)) == [];
      SkipEmpty(pre, post);
      KeptDistinct(s.rows, OtherThan(doc.id));
      KeptDistinct(s.rows, (d: Doc) => d.expired);
      OthersDiffer(pre, doc, post);
      FiltersCommute(s.rows, OtherThan(doc.id), (d: Doc) => d.expired);
      TakesOutOne(pre, doc, post, OtherThan(doc.id));
    }
  }

  lemma OthersDiffer(pre: seq<Doc>, doc: Doc, post: seq<Doc>)
    requires DistinctIds(pre + [doc] + post)
    ensures forall d | d in pre || d in post :: d.id != doc.id
  {
    var all := pre + [doc] + post;
    assert all[|pre|] == doc;
    forall i | 0 <= i < |pre|
      ensures pre[i].id != doc.id
    {
      assert all[i] == pre[i];
    }
    forall i | 0 <= i < |post|
      ensures post[i].id != doc.id
    {
      assert all[|pre| + 1 + i] == post[i];
    }
  }

  lemma {:induction false} WholeRun(p: Progress, pre: seq<Doc>, docs: seq<Doc>, post: seq<Doc>,
                                    hasStore: bool, ans: Answers)
    requires DistinctIds(p.state.rows) && Expired(p.state.rows) == pre + docs + post
    requires !p.died && NoCrash(ans, docs)
    ensures var q := PurgeRest(p, docs, hasStore, ans);
            && DistinctIds(q.state.rows) && !q.died
            && Expired(q.state.rows) == pre + Kept(docs, StaysIn(hasStore, ans)) + post
    decreases |docs|
  {
    if docs != [] {
      var doc, rest := docs[0], docs[1..];
      var head := Kept([doc], StaysIn(hasStore, ans));
      assert docs == [doc] + rest;
      Regroup(pre, [doc], rest, post);
      OnePurge(p.state, pre, doc, rest + post, hasStore, ans);
      Regroup(pre, head, rest, post);
      WholeRun(PurgeNext(p, doc, hasStore, ans(doc)), pre + head, rest, post, hasStore, ans);
      KeptOfConcat([doc], rest, StaysIn(hasStore, ans));
      Regroup(pre, head, Kept(rest, StaysIn(hasStore, ans)), post);
    }
  }

  /** An error of the metadata delete means that the row is still there. */
  predicate PlainErrors(docs: seq<Doc>, ans: Answers) {
    forall d | d in docs :: ans(d).rowGone ==> ans(d).rowOk
  }

  /** Conservation: documents counted as deleted plus those that stay make up the batch. */
  lemma {:induction false} DeletedPlusStaying(p: Progress, pre: seq<Doc>, docs: seq<Doc>, post: seq<Doc>,
                                              hasStore: bool, ans: Answers)
    requires DistinctIds(p.state.rows) && Expired(p.state.rows) == pre + docs + post
    requires !p.died && NoCrash(ans, docs) && PlainErrors(docs, ans)
    ensures PurgeRest(p, docs, hasStore, ans).counts.deleted + |Kept(docs, StaysIn(hasStore, ans))|
         == p.counts.deleted + |docs|
    decreases |docs|
  {
    if docs != [] {
      var doc, rest := docs[0], docs[1..];
      var head := Kept([doc], StaysIn(hasStore, ans));
      assert docs == [doc] + rest;
      Regroup(pre, [doc], rest, post);
      OnePurge(p.state, pre, doc, rest + post, hasStore, ans);
      Regroup(pre, head, rest, post);
      DeletedPlusStaying(PurgeNext(p, doc, hasStore, ans(doc)), pre + head, rest, post, hasStore, ans);
      KeptMembers(p.state.rows, (d: Doc) => d.expired);
      assert doc in Expired(p.state.rows);
    }
  }

  /** The reported number of deletions is exactly how much the backlog has shrunk. */
  lemma DeletedIsTheDrop(s: State, hasStore: bool, ans: Answers)
    requires DistinctIds(s.rows) && NoCrash(ans, ListExpired(s.rows)) && PlainErrors(ListExpired(s.rows), ans)
    ensures var q := PurgeRun(s, hasStore, ans);
            |Expired(q.state.rows)| == |Expired(s.rows)| - q.counts.deleted
  {
    var all, docs := Expired(s.rows), ListExpired(s.rows);
    SplitAt(all, |docs|);
    WholeRun(Begin(s), [], docs, all[|docs|..], hasStore, ans);
    DeletedPlusStaying(Begin(s), [], docs, all[|docs|..], hasStore, ans);
  }

  /** Runs that all get the same answers. */
  function RunOnce(hasStore: bool, ans: Answers): State -> State {
    (s: State) => PurgeRun(s, hasStore, ans).state
  }

  lemma OneRun(s: State, hasStore: bool, ans: Answers)
    requires DistinctIds(s.rows) && NoCrash(ans, ListExpired(s.rows))
    ensures var t := PurgeRun(s, hasStore, ans).state;
            && DistinctIds(t.rows)
            && Expired(t.rows) == Pass(Expired(s.rows), StaysIn(hasStore, ans), BATCH_SIZE)
  {
    var all, docs := Expired(s.rows), ListExpired(s.rows);
    SplitAt(all, |docs|);
    WholeRun(Begin(s), [], docs, all[|docs|..], hasStore, ans);
    SkipEmpty(Kept(docs, StaysIn(hasStore, ans)), all[|docs|..]);
  }

  lemma RepeatedRuns(s: State, hasStore: bool, ans: Answers, n: nat)
    requires DistinctIds(s.rows) && forall d :: !ans(d).crash
    ensures Expired(Repeated(RunOnce(hasStore, ans), s, n).rows)
         == Passes(Expired(s.rows), StaysIn(hasStore, ans), BATCH_SIZE, n)
  {
    var ok, backlog := (t: State) => DistinctIds(t.rows), (t: State) => Expired(t.rows);
    forall t: State | ok(t)
      ensures ok(RunOnce(hasStore, ans)(t))
      ensures backlog(RunOnce(hasStore, ans)(t)) == Pass(backlog(t), StaysIn(hasStore, ans), BATCH_SIZE)
    {
      OneRun(t, hasStore, ans);
    }
    RepeatedPasses(RunOnce(hasStore, ans), ok, backlog, StaysIn(hasStore, ans), BATCH_SIZE, s, n);
  }

  /** Once failures have stopped, n expired documents are gone after exactly ceil(n/100)
      runs. */
  lemma PurgeDrains(s: State, hasStore: bool, ans: Answers, n: nat)
    requires DistinctIds(s.rows) && forall d :: !ans(d).crash
    requires forall d :: !Stays(d, hasStore, ans)
    ensures Expired(Repeated(RunOnce(hasStore, ans), s, n).rows) == [] <==> n >= (|Expired(s.rows)| + 99) / 100
  {
    RepeatedRuns(s, hasStore, ans, n);
    HealthyDrain(Expired(s.rows), StaysIn(hasStore, ans), BATCH_SIZE, n);
  }

  /** With documents that fail for ever, another one is still purged some day exactly
      when fewer than 100 of them were uploaded before it. */
  lemma PurgedEventuallyExactlyWhen(s: State, hasStore: bool, ans: Answers,
                                    pre: seq<Doc>, doc: Doc, post: seq<Doc>)
    requires DistinctIds(s.rows) && (forall d :: !ans(d).crash)
    requires Expired(s.rows) == pre + [doc] + post && !Stays(doc, hasStore, ans)
    ensures (exists n: nat :: doc !in Expired(Repeated(RunOnce(hasStore, ans), s, n).rows))
        <==> |Kept(pre, StaysIn(hasStore, ans))| < BATCH_SIZE
  {
    KeptDistinct(s.rows, (d: Doc) => d.expired);
    OthersDiffer(pre, doc, post);
    if |Kept(pre, StaysIn(hasStore, ans))| < BATCH_SIZE {
      var n := Reached(pre, doc, post, StaysIn(hasStore, ans), BATCH_SIZE);
      RepeatedRuns(s, hasStore, ans, n);
      assert doc !in Expired(Repeated(RunOnce(hasStore, ans), s, n).rows);
    } else {
      forall n: nat
        ensures doc in Expired(Repeated(RunOnce(hasStore, ans), s, n).rows)
      {
        Starved(pre, doc, post, StaysIn(hasStore, ans), BATCH_SIZE, n);
        RepeatedRuns(s, hasStore, ans, n);
      }
    }
  }
}
