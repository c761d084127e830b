/** What each message of scripts/validate-n8n-workflows.py says about the workflows. */
module WorkflowReport {
  import opened Wrappers
  import opened WorkflowValidator
  import opened WorkflowMeaning

  // ---- nodes ----

  /** The rule about node i of file f that a message names is broken. */
  predicate NodeDue(f: nat, nodes: seq<Node>, i: nat, e: Error)
    requires i < |nodes|
  {
    var n := nodes[i];
    || (e == MissingId(f, i) && n.id == "")
    || (e == DuplicateId(f, i) && n.id != "" && exists k | 0 <= k < i :: nodes[k].id == n.id)
    || (e == MissingName(f, i) && n.name == "")
    || (e == MissingType(f, i) && n.typ == "")
    || (e == MissingTypeVersion(f, i) && !n.hasTypeVersion)
    || (e == BadPosition(f, i) && !n.positionOk)
    || (e == EmptyPath(f, i) && n.typ == WEBHOOK && (n.path.None? || Blank(n.path.value)))
  }

  lemma NodeDueExactlyWhen(f: nat, nodes: seq<Node>, i: nat, e: Error)
    requires i < |nodes|
    ensures NodeFaults(f, nodes, i, e) > 0 <==> NodeDue(f, nodes, i, e)
  {
  }

  lemma {:induction false} FaultyNode(f: nat, nodes: seq<Node>, n: nat, e: Error) returns (i: nat)
    requires n <= |nodes| && NodesFaults(f, nodes, n, e) > 0
    ensures i < n && NodeFaults(f, nodes, i, e) > 0
  {
    if NodeFaults(f, nodes, n - 1, e) > 0 {
      i := n - 1;
    } else {
      i := FaultyNode(f, nodes, n - 1, e);
    }
  }

  lemma {:induction false} NodeAddsFaults(f: nat, nodes: seq<Node>, n: nat, i: nat, e: Error)
    requires i < n <= |nodes|
    ensures NodesFaults(f, nodes, n, e) >= NodeFaults(f, nodes, i, e)
  {
    if i < n - 1 {
      NodeAddsFaults(f, nodes, n - 1, i, e);
    }
  }

  lemma NodesDueExactlyWhen(f: nat, nodes: seq<Node>, e: Error)
    ensures NodesFaults(f, nodes, |nodes|, e) > 0 <==> exists i: nat | i < |nodes| :: NodeDue(f, nodes, i, e)
  {
    if NodesFaults(f, nodes, |nodes|, e) > 0 {
      var i := FaultyNode(f, nodes, |nodes|, e);
      NodeDueExactlyWhen(f, nodes, i, e);
    }
    if i: nat :| i < |nodes| && NodeDue(f, nodes, i, e) {
      NodeDueExactlyWhen(f, nodes, i, e);
      NodeAddsFaults(f, nodes, |nodes|, i, e);
    }
  }

  predicate SignatureDue(f: nat, nodes: seq<Node>, cs: Connections, i: nat, e: Error)
    requires i < |nodes|
  {
    && nodes[i].typ == WEBHOOK
    && ((e == RawBodyOff(f, i) && !nodes[i].rawBody)
        || (e == NoSignatureNode(f, i) && !FeedsSignature(nodes, cs, nodes[i].name)))
  }

  lemma SignatureDueExactlyWhen(f: nat, nodes: seq<Node>, cs: Connections, i: nat, e: Error)
    requires i < |nodes|
    ensures SignatureFault(f, nodes, cs, i, e) > 0 <==> SignatureDue(f, nodes, cs, i, e)
  {
  }

  lemma {:induction false} SignaturesDueExactlyWhen(f: nat, nodes: seq<Node>, cs: Connections, n: nat, e: Error)
    requires n <= |nodes|
    ensures SignatureFaults(f, nodes, cs, n, e) > 0 <==> exists i: nat | i < n :: SignatureDue(f, nodes, cs, i, e)
  {
    if n > 0 {
      SignaturesDueExactlyWhen(f, nodes, cs, n - 1, e);
      SignatureDueExactlyWhen(f, nodes, cs, n - 1, e);
    }
  }

  // ---- connections ----

  /** A message about a target that names no node. */
  predicate BadTarget(f: nat, names: set<string>, e: Error) {
    e.UnknownTarget? && e.f == f && e.name != "" && e.name !in names
  }

  predicate InChain(chain: Chain, name: string) { chain.Targets? && name in chain.names }

  predicate InChains(chains: Chains, name: string) {
    chains.Chains? && exists k | 0 <= k < |chains.chains| :: InChain(chains.chains[k], name)
  }

  predicate InOutputs(o: Outputs, name: string) {
    o.Outputs? && exists t | 0 <= t < |o.byType| :: InChains(o.byType[t].1, name)
  }

  lemma {:induction false} TargetsDue(f: nat, names: set<string>, targets: seq<string>, n: nat, e: Error)
    requires n <= |targets|
    ensures TargetFaults(f, names, targets, n, e) > 0 <==> BadTarget(f, names, e) && e.name in targets[..n]
  {
    if n > 0 {
      TargetsDue(f, names, targets, n - 1, e);
      assert targets[..n] == targets[..n - 1] + [targets[n - 1]];
    }
  }

  lemma {:induction false} ChainsDue(f: nat, names: set<string>, chains: seq<Chain>, n: nat, e: Error)
    requires n <= |chains|
    ensures ChainFaults(f, names, chains, n, e) > 0
        <==> BadTarget(f, names, e) && exists k | 0 <= k < n :: InChain(chains[k], e.name)
  {
    if n > 0 {
      ChainsDue(f, names, chains, n - 1, e);
      if chains[n - 1].Targets? {
        var targets := chains[n - 1].names;
        TargetsDue(f, names, targets, |targets|, e);
        assert targets[..|targets|] == targets;
      }
    }
  }

  lemma {:induction false} OutputsDue(f: nat, names: set<string>, byType: seq<(string, Chains)>, n: nat, e: Error)
    requires n <= |byType|
    ensures OutputFaults(f, names, byType, n, e) > 0
        <==> BadTarget(f, names, e) && exists t | 0 <= t < n :: InChains(byType[t].1, e.name)
  {
    if n > 0 {
      OutputsDue(f, names, byType, n - 1, e);
      if byType[n - 1].1.Chains? {
        ChainsDue(f, names, byType[n - 1].1.chains, |byType[n - 1].1.chains|, e);
      }
    }
  }

  /** An end of connection i names no node. */
  predicate ConnectionDue(f: nat, names: set<string>, c: (string, Outputs), e: Error) {
    || (e == UnknownSource(f, c.0) && c.0 !in names)
    || (BadTarget(f, names, e) && InOutputs(c.1, e.name))
  }

  lemma {:induction false} ConnectionsDue(f: nat, names: set<string>, cs: Connections, n: nat, e: Error)
    requires n <= |cs|
    ensures ConnectionFaults(f, names, cs, n, e) > 0 <==> exists i | 0 <= i < n :: ConnectionDue(f, names, cs[i], e)
  {
    if n > 0 {
      ConnectionsDue(f, names, cs, n - 1, e);
      if cs[n - 1].1.Outputs? {
        OutputsDue(f, names, cs[n - 1].1.byType, |cs[n - 1].1.byType|, e);
      }
    }
  }

  // ---- files ----

  /** What the graph of a file is reported for. */
  predicate GraphDue(f: nat, file: string, nodes: seq<Node>, cs: Connections, e: Error) {
    var names := NamesOf(nodes, |nodes|);
    || (e == NoTrigger(f) && !HasTrigger(nodes))
    || (!CalledByAlertmanager(file) && exists i: nat | i < |nodes| :: SignatureDue(f, nodes, cs, i, e))
    || (exists i | 0 <= i < |cs| :: ConnectionDue(f, names, cs[i], e))
  }

  /** What a file with nodes is reported for; connections of another kind count as none. */
  predicate WorkflowDue(f: nat, file: string, nodes: seq<Node>, connections: Option<Connections>, e: Error) {
    || (e == ConnectionsNotObject(f) && connections.None?)
    || (exists i: nat | i < |nodes| :: NodeDue(f, nodes, i, e))
    || GraphDue(f, file, nodes, if connections.Some? then connections.value else [], e)
  }

  predicate FileDue(f: nat, file: File, e: Error) {
    match file.content
    case Malformed => e == InvalidJson(f)
    case Workflow(nameOk, nodes, connections) =>
      || (e == BadName(f) && !nameOk)
      || (e == NodesNotArray(f) && nodes.None?)
      || (e == NodesEmpty(f) && nodes == Some([]))
      || (nodes.Some? && nodes.value != [] && WorkflowDue(f, file.name, nodes.value, connections, e))
  }

  lemma CalledByAlertmanagerExactlyWhen(file: string)
    ensures CalledByAlertmanager(file) <==> file in ALERTMANAGER_TRIGGERED_FILES
  {
  }

  lemma GraphDueExactlyWhen(f: nat, file: string, nodes: seq<Node>, cs: Connections, e: Error)
    ensures GraphFaults(f, file, nodes, cs, e) > 0 <==> GraphDue(f, file, nodes, cs, e)
  {
    CalledByAlertmanagerExactlyWhen(file);
    TriggerIsSeen(nodes);
    SignaturesDueExactlyWhen(f, nodes, cs, |nodes|, e);
    ConnectionsDue(f, NamesOf(nodes, |nodes|), cs, |cs|, e);
  }

  lemma WorkflowDueExactlyWhen(f: nat, file: string, nodes: seq<Node>, connections: Option<Connections>, e: Error)
    ensures WorkflowFaults(f, file, nodes, connections, e) > 0 <==> WorkflowDue(f, file, nodes, connections, e)
  {
    NodesDueExactlyWhen(f, nodes, e);
    GraphDueExactlyWhen(f, file, nodes, if connections.Some? then connections.value else [], e);
  }

  lemma FileDueExactlyWhen(f: nat, file: File, e: Error)
    ensures FileFaults(f, file, e) > 0 <==> FileDue(f, file, e)
  {
    if file.content.Workflow? && file.content.nodes.Some? && file.content.nodes.value != [] {
      WorkflowDueExactlyWhen(f, file.name, file.content.nodes.value, file.content.connections, e);
    }
  }

  lemma {:induction false} FaultsExactlyWhen(files: seq<File>, n: nat, e: Error)
    requires n <= |files|
    ensures Faults(files, n, e) > 0 <==> exists f: nat | f < n :: FileDue(f, files[f], e)
  {
    if n > 0 {
      FaultsExactlyWhen(files, n - 1, e);
      FileDueExactlyWhen(n - 1, files[n - 1], e);
    }
  }

  /** A message is in the report exactly when the rule it names is broken where it says. */
  lemma ReportedExactlyWhen(files: seq<File>, errors: seq<Error>, e: Error)
    requires IsReport(files, errors) && e != PathCollision
    ensures e in errors <==> exists f: nat | f < |files| :: FileDue(f, files[f], e)
  {
    FaultsExactlyWhen(files, |files|, e);
    assert e in errors <==> Count(errors, e) > 0 by {
      assert e in errors <==> e in multiset(errors);
    }
  }
}
