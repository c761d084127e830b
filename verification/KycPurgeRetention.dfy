/** What the KYC document purge of cmd/worker/main.go leaves alone, and what its three
    counters count. */
module KycPurgeRetention {
  import opened Batches
  import opened Seqs
  import opened KycPurge

  // ---- nothing but expired documents is touched ----

  /** The rows still within retention, in order. */
  function Retained(rows: seq<Doc>): seq<Doc> { Kept(rows, (d: Doc) => !d.expired) }

  predicate HasExpiredRow(rows: seq<Doc>, key: string) {
    exists d | d in rows :: d.expired && d.storageKey == key
  }

  /** From s to t no row appeared, every row that went was expired, the others kept their
      order, and every file that went belonged to an expired row. */
  predicate TouchesExpiredOnly(s: State, t: State) {
    && Retained(t.rows) == Retained(s.rows)
    && (forall d | d in t.rows :: d in s.rows)
    && (forall d | d in s.rows && d !in t.rows :: d.expired)
    && t.files <= s.files
    && (forall k | k in s.files && k !in t.files :: HasExpiredRow(s.rows, k))
  }

  lemma TouchesTransitive(s: State, t: State, u: State)
    requires TouchesExpiredOnly(s, t) && TouchesExpiredOnly(t, u)
    ensures TouchesExpiredOnly(s, u)
  {
    forall k | k in s.files && k !in u.files
      ensures HasExpiredRow(s.rows, k)
    {
      if k in t.files {
        assert HasExpiredRow(t.rows, k);
        var d :| d in t.rows && d.expired && d.storageKey == k;
        assert d in s.rows;
      }
    }
  }

  lemma DeleteKeepsRetained(rows: seq<Doc>, doc: Doc)
    requires doc.expired && Listed(rows, doc)
    ensures Retained(DeleteRow(rows, doc.id)) == Retained(rows)
  {
    FiltersCommute(rows, OtherThan(doc.id), (d: Doc) => !d.expired);
    KeptMembers(rows, (d: Doc) => !d.expired);
    forall d | d in Retained(rows)
      ensures d.id != doc.id
    {
      assert d in rows && !d.expired;
    }
    EverythingKept(Retained(rows), OtherThan(doc.id));
  }

  /** `key` is the file of an expired row of the table the run began with. */
  lemma OneTouchesExpiredOnly(s: State, doc: Doc, hasStore: bool, a: Answer)
    requires doc.expired && Listed(s.rows, doc) && HasExpiredRow(s.rows, doc.storageKey)
    ensures TouchesExpiredOnly(s, PurgeOne(s, doc, hasStore, a))
  {
    DeleteKeepsRetained(s.rows, doc);
    DeleteRowMembers(s.rows, doc.id);
  }

  lemma {:induction false} BatchTouchesExpiredOnly(p: Progress, docs: seq<Doc>, hasStore: bool, ans: Answers)
    requires DistinctIds(p.state.rows) && DistinctIds(docs)
    requires forall d | d in docs :: d.expired && d in p.state.rows && Listed(p.state.rows, d)
    ensures TouchesExpiredOnly(p.state, PurgeRest(p, docs, hasStore, ans).state)
    decreases |docs|
  {
    if docs != [] && !p.died {
      var doc, rest := docs[0], docs[1..];
      var q := PurgeNext(p, doc, hasStore, ans(doc));
      OneTouchesExpiredOnly(p.state, doc, hasStore, ans(doc));
      DeleteRowMembers(p.state.rows, doc.id);
      KeptDistinct(p.state.rows, OtherThan(doc.id));
      forall d | d in rest
        ensures d.expired && d in q.state.rows && Listed(q.state.rows, d)
      {
        assert d in docs && Listed(p.state.rows, d);
        var i :| 0 <= i < |rest| && rest[i] == d;
        assert docs[0].id != docs[i + 1].id;
      }
      BatchTouchesExpiredOnly(q, rest, hasStore, ans);
      TouchesTransitive(p.state, q.state, PurgeRest(q, rest, hasStore, ans).state);
    }
  }

  /** The expired documents are the rows whose retention has run out, in upload order; a run
      lists the first hundred. */
  lemma ExpiredExactlyWhen(rows: seq<Doc>)
    ensures forall d :: d in Expired(rows) <==> d in rows && d.expired
    ensures ListExpired(rows) <= Expired(rows)
    ensures |ListExpired(rows)| == if |Expired(rows)| <= 100 then |Expired(rows)| else 100
  {
    KeptMembers(rows, (d: Doc) => d.expired);
  }

  lemma PrefixDistinct(docs: seq<Doc>, n: nat)
    requires DistinctIds(docs) && n <= |docs|
    ensures DistinctIds(docs[..n])
  {
  }

  /** Over any number of runs, with or without a store, under any failures and crashes. */
  lemma {:induction false} RunsTouchExpiredOnly(s: State, hasStore: bool, runs: seq<Answers>)
    requires DistinctIds(s.rows)
    ensures var t := RunAll(s, hasStore, runs); DistinctIds(t.rows) && TouchesExpiredOnly(s, t)
  {
    if runs != [] {
      var last := runs[|runs| - 1];
      RunsTouchExpiredOnly(s, hasStore, runs[..|runs| - 1]);
      var t := RunAll(s, hasStore, runs[..|runs| - 1]);
      RunTouchesExpiredOnly(t, hasStore, last);
      TouchesTransitive(s, t, PurgeRun(t, hasStore, last).state);
    }
  }

  lemma RunTouchesExpiredOnly(s: State, hasStore: bool, ans: Answers)
    requires DistinctIds(s.rows)
    ensures var t := PurgeRun(s, hasStore, ans).state; DistinctIds(t.rows) && TouchesExpiredOnly(s, t)
  {
    var docs := ListExpired(s.rows);
    ListedDocs(s.rows);
    ExpiredExactlyWhen(s.rows);
    KeptDistinct(s.rows, (d: Doc) => d.expired);
    PrefixDistinct(Expired(s.rows), |docs|);
    assert forall d | d in docs :: d in Expired(s.rows);
    BatchTouchesExpiredOnly(Begin(s), docs, hasStore, ans);
    PurgeKeepsDistinct(Begin(s), docs, hasStore, ans);
  }

  // ---- what the counters count ----

  /** The store refused the file. */
  predicate StoreFails(hasStore: bool, ans: Answers, d: Doc) { hasStore && !ans(d).fileOk }

  /** The worker dies between the file and the row of d. */
  predicate Dies(hasStore: bool, ans: Answers, d: Doc) { !StoreFails(hasStore, ans, d) && ans(d).crash }

  function StoreFailures(hasStore: bool, ans: Answers): Doc -> bool { (d: Doc) => StoreFails(hasStore, ans, d) }

  /** The file is dealt with, the row was refused. */
  function RowFailures(hasStore: bool, ans: Answers): Doc -> bool {
    (d: Doc) => !StoreFails(hasStore, ans, d) && !ans(d).rowOk
  }

  function Successes(hasStore: bool, ans: Answers): Doc -> bool {
    (d: Doc) => !StoreFails(hasStore, ans, d) && ans(d).rowOk
  }

  /** How many of the documents ended in each way. */
  function Tally(docs: seq<Doc>, hasStore: bool, ans: Answers): Counts {
    Counts(|Kept(docs, Successes(hasStore, ans))|, |Kept(docs, StoreFailures(hasStore, ans))|,
           |Kept(docs, RowFailures(hasStore, ans))|)
  }

  lemma OneCounted(p: Progress, doc: Doc, hasStore: bool, ans: Answers)
    requires doc in p.state.rows && !Dies(hasStore, ans, doc)
    ensures var q := PurgeNext(p, doc, hasStore, ans(doc));
            !q.died && q.counts == p.counts.Plus(Tally([doc], hasStore, ans))
  {
    assert Kept([], Successes(hasStore, ans)) == [];
    assert Kept([], StoreFailures(hasStore, ans)) == [];
    assert Kept([], RowFailures(hasStore, ans)) == [];
  }

  lemma PlusIsAssociative(a: Counts, b: Counts, c: Counts)
    ensures a.Plus(b).Plus(c) == a.Plus(b.Plus(c))
  {
  }

  lemma KeptOneMore(docs: seq<Doc>, keep: Doc -> bool)
    requires docs != []
    ensures |Kept(docs, keep)| == |Kept([docs[0]], keep)| + |Kept(docs[1..], keep)|
  {
    assert docs == [docs[0]] + docs[1..];
    KeptOfConcat([docs[0]], docs[1..], keep);
  }

  lemma TallyOneMore(docs: seq<Doc>, hasStore: bool, ans: Answers)
    requires docs != []
    ensures Tally(docs, hasStore, ans) == Tally([docs[0]], hasStore, ans).Plus(Tally(docs[1..], hasStore, ans))
  {
    KeptOneMore(docs, Successes(hasStore, ans));
    KeptOneMore(docs, StoreFailures(hasStore, ans));
    KeptOneMore(docs, RowFailures(hasStore, ans));
  }

  lemma RestStillThere(s: State, docs: seq<Doc>, hasStore: bool, a: Answer)
    requires docs != [] && DistinctIds(docs) && forall d | d in docs :: d in s.rows
    ensures forall d | d in docs[1..] :: d in PurgeOne(s, docs[0], hasStore, a).rows
  {
    DeleteRowMembers(s.rows, docs[0].id);
    forall d | d in docs[1..]
      ensures d in docs && d.id != docs[0].id
    {
      var i :| 0 <= i < |docs| - 1 && docs[1..][i] == d;
      assert docs[i + 1] == d;
    }
  }

  /** The first m documents are finished, and the worker dies at the next or there is none. */
  predicate Finishes(docs: seq<Doc>, m: nat, hasStore: bool, ans: Answers) {
    && m <= |docs| && (forall j | 0 <= j < m :: !Dies(hasStore, ans, docs[j]))
    && (m < |docs| ==> Dies(hasStore, ans, docs[m]))
  }

  lemma {:induction false} BatchCounted(p: Progress, docs: seq<Doc>, hasStore: bool, ans: Answers, m: nat)
    requires DistinctIds(docs) && !p.died && Finishes(docs, m, hasStore, ans)
    requires forall d | d in docs :: d in p.state.rows
    ensures var q := PurgeRest(p, docs, hasStore, ans);
            q.died == (m < |docs|) && q.counts == p.counts.Plus(Tally(docs[..m], hasStore, ans))
    decreases |docs|
  {
    if m == 0 {
      assert Tally(docs[..0], hasStore, ans) == NOTHING_YET;
    } else {
      var doc, rest := docs[0], docs[1..];
      var first, others := Tally([doc], hasStore, ans), Tally(rest[..m - 1], hasStore, ans);
      RestStillThere(p.state, docs, hasStore, ans(doc));
      OneCounted(p, doc, hasStore, ans);
      BatchCounted(PurgeNext(p, doc, hasStore, ans(doc)), rest, hasStore, ans, m - 1);
      PlusIsAssociative(p.counts, first, others);
      assert Tally(docs[..m], hasStore, ans) == first.Plus(others) by {
        assert docs[..m][1..] == rest[..m - 1];
        TallyOneMore(docs[..m], hasStore, ans);
      }
    }
  }

  /** The three counters of a run are exact: they tally the listed documents, up to the one
      at which the worker died, if it did. */
  lemma RunCounted(s: State, hasStore: bool, ans: Answers, m: nat)
    requires DistinctIds(s.rows) && Finishes(ListExpired(s.rows), m, hasStore, ans)
    ensures var docs, end := ListExpired(s.rows), PurgeRun(s, hasStore, ans);
            end.died == (m < |docs|) && end.counts == Tally(docs[..m], hasStore, ans)
  {
    var docs := ListExpired(s.rows);
    ListedDocs(s.rows);
    KeptDistinct(s.rows, (d: Doc) => d.expired);
    PrefixDistinct(Expired(s.rows), |docs|);
    BatchCounted(Begin(s), docs, hasStore, ans, m);
  }

  /** A row that is gone cannot be deleted again: the repository reports it missing. */
  lemma SecondDeleteFails(s: State, doc: Doc, hasStore: bool, a: Answer, b: Answer)
    requires ResultOf(s, doc, hasStore, a) == Deleted && (hasStore ==> b.fileOk) && !b.crash
    ensures ResultOf(PurgeOne(s, doc, hasStore, a), doc, hasStore, b) == DbFailed
  {
    DeleteRowMembers(s.rows, doc.id);
  }

  // ---- what exactly a run does ----

  /** The run gets to the document at position k. */
  predicate Gets(docs: seq<Doc>, k: nat, hasStore: bool, ans: Answers) {
    k < |docs| && forall j | 0 <= j < k :: !Dies(hasStore, ans, docs[j])
  }

  /** The file delete of the document at k took effect. */
  predicate TakesFile(docs: seq<Doc>, k: nat, hasStore: bool, ans: Answers, key: string) {
    && Gets(docs, k, hasStore, ans) && docs[k].storageKey == key
    && hasStore && (ans(docs[k]).fileOk || ans(docs[k]).fileGone)
  }

  predicate FileTaken(docs: seq<Doc>, hasStore: bool, ans: Answers, key: string) {
    exists k: nat | k < |docs| :: TakesFile(docs, k, hasStore, ans, key)
  }

  /** Its row delete did. */
  predicate TakesRow(docs: seq<Doc>, k: nat, hasStore: bool, ans: Answers, id: int) {
    && Gets(docs, k, hasStore, ans) && docs[k].id == id
    && !StoreFails(hasStore, ans, docs[k]) && !ans(docs[k]).crash
    && (ans(docs[k]).rowOk || ans(docs[k]).rowGone)
  }

  predicate RowTaken(docs: seq<Doc>, hasStore: bool, ans: Answers, id: int) {
    exists k: nat | k < |docs| :: TakesRow(docs, k, hasStore, ans, id)
  }

  lemma GetsNext(docs: seq<Doc>, k: nat, hasStore: bool, ans: Answers)
    requires docs != []
    ensures Gets(docs, k + 1, hasStore, ans) <==> !Dies(hasStore, ans, docs[0]) && Gets(docs[1..], k, hasStore, ans)
  {
    if Gets(docs, k + 1, hasStore, ans) {
      assert forall j | 0 <= j < k :: docs[1..][j] == docs[j + 1];
    } else if !Dies(hasStore, ans, docs[0]) && k < |docs| - 1 {
      var j :| 0 <= j < k + 1 && Dies(hasStore, ans, docs[j]);
      assert docs[1..][j - 1] == docs[j];
    }
  }

  lemma FileFirstOrLater(docs: seq<Doc>, hasStore: bool, ans: Answers, key: string)
    requires docs != []
    ensures FileTaken(docs, hasStore, ans, key) <==>
            || TakesFile(docs, 0, hasStore, ans, key)
            || (!Dies(hasStore, ans, docs[0]) && FileTaken(docs[1..], hasStore, ans, key))
  {
    if k: nat :| k < |docs| && TakesFile(docs, k, hasStore, ans, key) && k > 0 {
      GetsNext(docs, k - 1, hasStore, ans);
      assert TakesFile(docs[1..], k - 1, hasStore, ans, key);
    }
    if !Dies(hasStore, ans, docs[0]) && FileTaken(docs[1..], hasStore, ans, key) {
      var k: nat :| k < |docs| - 1 && TakesFile(docs[1..], k, hasStore, ans, key);
      GetsNext(docs, k, hasStore, ans);
      assert TakesFile(docs, k + 1, hasStore, ans, key);
    }
  }

  lemma RowFirstOrLater(docs: seq<Doc>, hasStore: bool, ans: Answers, id: int)
    requires docs != []
    ensures RowTaken(docs, hasStore, ans, id) <==>
            || TakesRow(docs, 0, hasStore, ans, id)
            || (!Dies(hasStore, ans, docs[0]) && RowTaken(docs[1..], hasStore, ans, id))
  {
    if k: nat :| k < |docs| && TakesRow(docs, k, hasStore, ans, id) && k > 0 {
      GetsNext(docs, k - 1, hasStore, ans);
      assert TakesRow(docs[1..], k - 1, hasStore, ans, id);
    }
    if !Dies(hasStore, ans, docs[0]) && RowTaken(docs[1..], hasStore, ans, id) {
      var k: nat :| k < |docs| - 1 && TakesRow(docs[1..], k, hasStore, ans, id);
      GetsNext(docs, k, hasStore, ans);
      assert TakesRow(docs, k + 1, hasStore, ans, id);
    }
  }

  lemma {:induction false} BatchExactly(p: Progress, docs: seq<Doc>, hasStore: bool, ans: Answers, key: string, d: Doc)
    requires !p.died
    ensures var t := PurgeRest(p, docs, hasStore, ans).state;
            && (key in t.files <==> key in p.state.files && !FileTaken(docs, hasStore, ans, key))
            && (d in t.rows <==> d in p.state.rows && !RowTaken(docs, hasStore, ans, d.id))
    decreases |docs|
  {
    if docs != [] {
      var q := PurgeNext(p, docs[0], hasStore, ans(docs[0]));
      DeleteRowMembers(p.state.rows, docs[0].id);
      FileFirstOrLater(docs, hasStore, ans, key);
      RowFirstOrLater(docs, hasStore, ans, d.id);
      if !q.died {
        BatchExactly(q, docs[1..], hasStore, ans, key, d);
      }
    }
  }

  /** A weekly run takes exactly the files and the rows whose deletes took effect, among the
      listed documents up to the one at which the worker died. */
  lemma RunExactly(s: State, hasStore: bool, ans: Answers, key: string, d: Doc)
    ensures var t, docs := PurgeRun(s, hasStore, ans).state, ListExpired(s.rows);
            && (key in t.files <==> key in s.files && !FileTaken(docs, hasStore, ans, key))
            && (d in t.rows <==> d in s.rows && !RowTaken(docs, hasStore, ans, d.id))
  {
    BatchExactly(Begin(s), ListExpired(s.rows), hasStore, ans, key, d);
  }
}
