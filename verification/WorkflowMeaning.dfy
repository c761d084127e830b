/** What scripts/validate-n8n-workflows.py looks up, stated by positions: the first main
    target of a webhook, the last node of a name, and the webhook paths of all files. */
module WorkflowMeaning {
  import opened Seqs
  import opened Wrappers
  import opened WorkflowValidator

  // ---- the signature check ----

  /** Entry i is the one of that key. */
  predicate IsEntry<V>(entries: seq<(string, V)>, key: string, i: nat) {
    i < |entries| && entries[i].0 == key && forall k | 0 <= k < i :: entries[k].0 != key
  }

  lemma {:induction false} OutputsAtEntry(cs: Connections, name: string, i: nat)
    requires IsEntry(cs, name, i)
    ensures OutputsAt(cs, name) == cs[i].1
  {
    if i > 0 {
      OutputsAtEntry(cs[1..], name, i - 1);
    }
  }

  lemma {:induction false} EntryOfOutputs(cs: Connections, name: string) returns (i: nat)
    requires OutputsAt(cs, name).Outputs?
    ensures IsEntry(cs, name, i)
  {
    if cs[0].0 == name {
      i := 0;
    } else {
      i := EntryOfOutputs(cs[1..], name);
      i := i + 1;
    }
  }

  lemma {:induction false} MainAtEntry(byType: seq<(string, Chains)>, t: nat)
    requires IsEntry(byType, "main", t)
    ensures Main(byType) == byType[t].1
  {
    if t > 0 {
      MainAtEntry(byType[1..], t - 1);
    }
  }

  lemma {:induction false} EntryOfMain(byType: seq<(string, Chains)>) returns (t: nat)
    requires Main(byType).Chains?
    ensures IsEntry(byType, "main", t)
  {
    if byType[0].0 == "main" {
      t := 0;
    } else {
      t := EntryOfMain(byType[1..]);
      t := t + 1;
    }
  }

  /** The first target of the first chain. */
  predicate LeadsTo(chains: Chains, target: string) {
    && chains.Chains? && chains.chains != [] && chains.chains[0].Targets?
    && chains.chains[0].names != [] && chains.chains[0].names[0] == target
  }

  predicate MainLeadsTo(o: Outputs, target: string) {
    o.Outputs? && exists t: nat | t < |o.byType| :: IsEntry(o.byType, "main", t) && LeadsTo(o.byType[t].1, target)
  }

  lemma FirstTargetExactlyWhen(cs: Connections, name: string, target: string)
    ensures FirstTarget(cs, name) == Some(target)
        <==> exists i: nat | i < |cs| :: IsEntry(cs, name, i) && MainLeadsTo(cs[i].1, target)
  {
    if FirstTarget(cs, name) == Some(target) {
      var i := EntryOfOutputs(cs, name);
      OutputsAtEntry(cs, name, i);
      var t := EntryOfMain(cs[i].1.byType);
      MainAtEntry(cs[i].1.byType, t);
      assert MainLeadsTo(cs[i].1, target);
    }
    if i: nat :| i < |cs| && IsEntry(cs, name, i) && MainLeadsTo(cs[i].1, target) {
      OutputsAtEntry(cs, name, i);
      var t: nat :| t < |cs[i].1.byType| && IsEntry(cs[i].1.byType, "main", t) && LeadsTo(cs[i].1.byType[t].1, target);
      MainAtEntry(cs[i].1.byType, t);
    }
  }

  /** Node i is the last of its name among the first n. */
  predicate IsLastNamed(nodes: seq<Node>, n: nat, name: string, i: nat)
    requires n <= |nodes|
  {
    i < n && nodes[i].name == name && forall k | i < k < n :: nodes[k].name != name
  }

  lemma {:induction false} LastNamedExactlyWhen(nodes: seq<Node>, n: nat, name: string, node: Node)
    requires n <= |nodes|
    ensures LastNamed(nodes, n, name) == Some(node)
        <==> exists i: nat | i < n :: IsLastNamed(nodes, n, name, i) && nodes[i] == node
  {
    if n > 0 {
      LastNamedExactlyWhen(nodes, n - 1, name, node);
      if nodes[n - 1].name == name {
        assert IsLastNamed(nodes, n, name, n - 1);
      } else {
        assert forall i: nat | i < n :: IsLastNamed(nodes, n, name, i) <==> i < n - 1 && IsLastNamed(nodes, n - 1, name, i);
      }
    }
  }

  /** A webhook is accepted as signed exactly when the first target of the first chain of its
      main output is named "Verify Signature" and the last node of that name is code. */
  lemma FeedsSignatureExactlyWhen(nodes: seq<Node>, cs: Connections, name: string)
    ensures FeedsSignature(nodes, cs, name) <==>
            && (exists i: nat | i < |cs| :: IsEntry(cs, name, i) && MainLeadsTo(cs[i].1, "Verify Signature"))
            && (exists i: nat | i < |nodes| ::
                  IsLastNamed(nodes, |nodes|, "Verify Signature", i) && nodes[i].typ == "n8n-nodes-base.code")
  {
    FirstTargetExactlyWhen(cs, name, VERIFY_SIGNATURE);
    var last := LastNamed(nodes, |nodes|, VERIFY_SIGNATURE);
    if last.Some? {
      LastNamedExactlyWhen(nodes, |nodes|, VERIFY_SIGNATURE, last.value);
      var i: nat :| i < |nodes| && IsLastNamed(nodes, |nodes|, VERIFY_SIGNATURE, i) && nodes[i] == last.value;
      forall j: nat | j < |nodes| && IsLastNamed(nodes, |nodes|, VERIFY_SIGNATURE, j)
        ensures j == i
      {
      }
    } else if i: nat :| i < |nodes| && IsLastNamed(nodes, |nodes|, VERIFY_SIGNATURE, i) {
      LastNamedExactlyWhen(nodes, |nodes|, VERIFY_SIGNATURE, nodes[i]);
    }
  }

  // ---- triggers and exempt files ----

  lemma HasTriggerExactlyWhen(nodes: seq<Node>)
    ensures HasTrigger(nodes) <==>
            exists n | n in nodes ::
              || n.typ == "n8n-nodes-base.webhook" || n.typ == "n8n-nodes-base.scheduleTrigger"
              || n.typ == "n8n-nodes-base.cronTrigger" || n.typ == "n8n-nodes-base.manualTrigger"
              || n.typ == "n8n-nodes-base.emailReadImap"
  {
  }

  predicate CalledByAlertmanager(file: string) {
    || file == "circuit-breaker-alert.json" || file == "payment-error-escalation.json"
    || file == "prometheus-alert-relay.json"
  }

  /** Only three files may leave their webhooks unsigned. */
  lemma GraphOkExactlyWhen(file: string, nodes: seq<Node>, cs: Connections)
    ensures GraphOk(file, nodes, cs) <==>
            && HasTrigger(nodes) && ConnectionsOk(NamesOf(nodes, |nodes|), cs)
            && (CalledByAlertmanager(file) || forall n | n in nodes :: SignedAt(nodes, cs, n))
  {
    if n :| n in nodes && !SignedAt(nodes, cs, n) {
      var i :| 0 <= i < |nodes| && nodes[i] == n;
      assert !SignedAt(nodes, cs, nodes[i]);
    }
  }

  // ---- the webhook paths ----

  /** Node i is a webhook with that path. */
  predicate PathAt(nodes: seq<Node>, i: nat, path: string) {
    i < |nodes| && nodes[i].typ == "n8n-nodes-base.webhook" && nodes[i].path == Some(path) && !Blank(path)
  }

  predicate FilePathAt(files: seq<File>, f: nat, i: nat, path: string) {
    f < |files| && PathAt(NodesOf(files[f]), i, path)
  }

  lemma {:induction false} PathsMembers(nodes: seq<Node>, n: nat, path: string)
    requires n <= |nodes|
    ensures path in PathsOf(nodes, n) <==> exists i: nat | i < n :: PathAt(nodes, i, path)
  {
    if n > 0 {
      PathsMembers(nodes, n - 1, path);
      assert path in PathIn(nodes[n - 1]) <==> PathAt(nodes, n - 1, path);
    }
  }

  /** A webhook of the first n files has that path. */
  ghost predicate PathBefore(files: seq<File>, n: nat, path: string) {
    exists f: nat, i: nat | f < n :: FilePathAt(files, f, i, path)
  }

  lemma PathBeforeNext(files: seq<File>, g: nat, path: string)
    requires g < |files|
    ensures var nodes := NodesOf(files[g]);
            PathBefore(files, g + 1, path) <==> PathBefore(files, g, path) || path in PathsOf(nodes, |nodes|)
  {
    FilePathsMembers(files, g, path);
    if PathBefore(files, g + 1, path) {
      var f: nat, i: nat :| f < g + 1 && FilePathAt(files, f, i, path);
      assert f == g || f < g;
    }
  }

  lemma {:induction false} AllPathsMembers(files: seq<File>, n: nat, path: string)
    requires n <= |files|
    ensures path in AllPaths(files, n) <==> PathBefore(files, n, path)
  {
    if n > 0 {
      AllPathsMembers(files, n - 1, path);
      PathBeforeNext(files, n - 1, path);
    }
  }

  lemma FilePathsMembers(files: seq<File>, f: nat, path: string)
    requires f < |files|
    ensures var nodes := NodesOf(files[f]);
            path in PathsOf(nodes, |nodes|) <==> exists i: nat :: FilePathAt(files, f, i, path)
  {
    var nodes := NodesOf(files[f]);
    PathsMembers(nodes, |nodes|, path);
    if i: nat :| i < |nodes| && PathAt(nodes, i, path) {
      assert FilePathAt(files, f, i, path);
    }
  }

  ghost predicate Apart(xs: seq<string>, ys: seq<string>) { forall x | x in xs :: x !in ys }

  lemma DistinctOfConcat(xs: seq<string>, ys: seq<string>)
    ensures Distinct(xs + ys) <==> Distinct(xs) && Distinct(ys) && Apart(xs, ys)
  {
    var all := xs + ys;
    if Distinct(all) {
      forall i, j | 0 <= i < |xs| && 0 <= j < |ys|
        ensures xs[i] != ys[j]
      {
        assert all[i] != all[|xs| + j];
      }
      assert forall i | 0 <= i < |xs| :: xs[i] == all[i];
      assert forall j | 0 <= j < |ys| :: ys[j] == all[|xs| + j];
    } else {
      var i, j :| 0 <= i < j < |all| && all[i] == all[j];
      assert i < |xs| <= j ==> all[i] in xs && all[j] in ys;
    }
  }

  // ---- collisions ----

  ghost predicate NoRepeat(nodes: seq<Node>, n: nat) {
    forall i: nat, j: nat, p | i < j < n :: !(PathAt(nodes, i, p) && PathAt(nodes, j, p))
  }

  lemma {:induction false} PathsDistinct(nodes: seq<Node>, n: nat)
    requires n <= |nodes|
    ensures Distinct(PathsOf(nodes, n)) <==> NoRepeat(nodes, n)
  {
    if n > 0 {
      var m := n - 1;
      PathsDistinct(nodes, m);
      DistinctOfConcat(PathsOf(nodes, m), PathIn(nodes[m]));
      assert NoRepeat(nodes, n) <==> NoRepeat(nodes, m) && forall i: nat, p | i < m :: !(PathAt(nodes, i, p) && PathAt(nodes, m, p));
      if HasPath(nodes[m]) {
        var p := nodes[m].path.value;
        PathsMembers(nodes, m, p);
        assert PathAt(nodes, m, p);
      }
    }
  }

  /** Node j of file g has the path of a node before it, in this file or an earlier one. */
  predicate Collides(files: seq<File>, f: nat, i: nat, g: nat, j: nat, path: string) {
    (f < g || (f == g && i < j)) && FilePathAt(files, f, i, path) && FilePathAt(files, g, j, path)
  }

  ghost predicate NoCollision(files: seq<File>, n: nat) {
    forall f: nat, i: nat, g: nat, j: nat, p | g < n :: !Collides(files, f, i, g, j, p)
  }

  /** No path of file g is one of an earlier file. */
  ghost predicate AllNew(files: seq<File>, g: nat) {
    forall f: nat, i: nat, j: nat, p | f < g && FilePathAt(files, f, i, p) :: !FilePathAt(files, g, j, p)
  }

  /** File g repeats neither a path of its own nor one of an earlier file. */
  ghost predicate Fits(files: seq<File>, g: nat)
    requires g < |files|
  {
    NoRepeat(NodesOf(files[g]), |NodesOf(files[g])|) && AllNew(files, g)
  }

  lemma NoCollisionNext(files: seq<File>, g: nat)
    requires g < |files|
    ensures NoCollision(files, g + 1) <==> NoCollision(files, g) && Fits(files, g)
  {
    var nodes := NodesOf(files[g]);
    if NoCollision(files, g + 1) {
      forall i: nat, j: nat, p | i < j < |nodes|
        ensures !(PathAt(nodes, i, p) && PathAt(nodes, j, p))
      {
        assert !Collides(files, g, i, g, j, p);
      }
      forall f: nat, i: nat, j: nat, p | f < g && FilePathAt(files, f, i, p)
        ensures !FilePathAt(files, g, j, p)
      {
        assert !Collides(files, f, i, g, j, p);
      }
    } else {
      var f: nat, i: nat, h: nat, j: nat, p :| h < g + 1 && Collides(files, f, i, h, j, p);
      assert h == g && f == g ==> PathAt(nodes, i, p) && PathAt(nodes, j, p);
    }
  }

  lemma PathsApart(files: seq<File>, g: nat)
    requires g < |files|
    ensures var nodes := NodesOf(files[g]); Apart(AllPaths(files, g), PathsOf(nodes, |nodes|)) <==> AllNew(files, g)
  {
    var nodes := NodesOf(files[g]);
    if p :| p in AllPaths(files, g) && p in PathsOf(nodes, |nodes|) {
      AllPathsMembers(files, g, p);
      FilePathsMembers(files, g, p);
    }
    if f: nat, i: nat, j: nat, p :| f < g && FilePathAt(files, f, i, p) && FilePathAt(files, g, j, p) {
      AllPathsMembers(files, g, p);
      FilePathsMembers(files, g, p);
    }
  }

  predicate PathsDiffer(files: seq<File>, n: nat)
    requires n <= |files|
  {
    Distinct(AllPaths(files, n))
  }

  lemma PathsDifferNext(files: seq<File>, g: nat)
    requires g < |files|
    ensures PathsDiffer(files, g + 1) <==> PathsDiffer(files, g) && Fits(files, g)
  {
    var nodes := NodesOf(files[g]);
    PathsApart(files, g);
    PathsDistinct(nodes, |nodes|);
    DistinctOfConcat(AllPaths(files, g), PathsOf(nodes, |nodes|));
  }

  ghost predicate AllFit(files: seq<File>, n: nat)
    requires n <= |files|
  {
    n == 0 || (AllFit(files, n - 1) && Fits(files, n - 1))
  }

  lemma {:induction false} AllFitDiffer(files: seq<File>, n: nat)
    requires n <= |files|
    ensures AllFit(files, n) <==> PathsDiffer(files, n)
  {
    if n > 0 {
      AllFitDiffer(files, n - 1);
      PathsDifferNext(files, n - 1);
    }
  }

  lemma {:induction false} AllFitApart(files: seq<File>, n: nat)
    requires n <= |files|
    ensures AllFit(files, n) <==> NoCollision(files, n)
  {
    if n > 0 {
      AllFitApart(files, n - 1);
      NoCollisionNext(files, n - 1);
    }
  }

  /** Over all files: the paths are distinct exactly when no two webhook nodes share one. */
  lemma PathsDifferExactlyWhen(files: seq<File>)
    ensures Distinct(AllPaths(files, |files|)) <==> NoCollision(files, |files|)
  {
    AllFitDiffer(files, |files|);
    AllFitApart(files, |files|);
  }

  predicate IsPathed(files: seq<File>, f: nat, i: nat) {
    && f < |files| && i < |NodesOf(files[f])|
    && var n := NodesOf(files[f])[i]; n.typ == "n8n-nodes-base.webhook" && n.path.Some? && !Blank(n.path.value)
  }

  /** `at` holds the webhook nodes with a path before node m of file g, as (file, node). */
  ghost predicate Holds(files: seq<File>, g: nat, m: nat, at: set<(nat, nat)>) {
    forall f: nat, i: nat :: (f, i) in at <==> IsPathed(files, f, i) && (f < g || (f == g && i < m))
  }

  lemma NothingHeld(files: seq<File>, at: set<(nat, nat)>)
    requires Holds(files, 0, 0, at)
    ensures at == {}
  {
    forall x
      ensures x !in at
    {
      assert x == (x.0, x.1);
    }
  }

  /** There is one path for every webhook node that has one. */
  lemma {:induction false} PathsCounted(files: seq<File>, g: nat, m: nat, at: set<(nat, nat)>)
    requires g < |files| && m <= |NodesOf(files[g])| && Holds(files, g, m, at)
    ensures |AllPaths(files, g)| + |PathsOf(NodesOf(files[g]), m)| == |at|
    decreases g, m
  {
    if m > 0 {
      var last := (g, m - 1);
      var before := if IsPathed(files, g, m - 1) then at - {last} else at;
      assert |at| == |before| + |PathIn(NodesOf(files[g])[m - 1])|;
      PathsCounted(files, g, m - 1, before);
    } else if g > 0 {
      PathsCounted(files, g - 1, |NodesOf(files[g - 1])|, at);
    } else {
      NothingHeld(files, at);
    }
  }

  /** What the report says about paths: an error for every webhook node with a path beyond
      the first of each text, hence none exactly when no two nodes share one. */
  lemma CollisionsReported(files: seq<File>, errors: seq<Error>, at: set<(nat, nat)>, texts: set<string>)
    requires IsReport(files, errors) && Holds(files, |files|, 0, at)
    requires forall p :: p in texts <==> PathBefore(files, |files|, p)
    ensures Count(errors, PathCollision) == |at| - |texts|
    ensures Count(errors, PathCollision) == 0 <==> NoCollision(files, |files|)
  {
    var n := |files|;
    var paths := AllPaths(files, n);
    assert Texts(paths) == texts by {
      forall p
        ensures p in paths <==> p in texts
      {
        AllPathsMembers(files, n, p);
      }
    }
    if n > 0 {
      PathsCounted(files, n - 1, |NodesOf(files[n - 1])|, at);
    } else {
      NothingHeld(files, at);
    }
    PathsDifferExactlyWhen(files);
    DistinctExactlyWhen(paths);
  }
}
