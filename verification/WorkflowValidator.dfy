/** scripts/validate-n8n-workflows.py: the loops over files, nodes and connections, and
    what an empty error list means for the workflows. */
module WorkflowValidator {
  import opened Seqs
  import opened Wrappers

  const WEBHOOK := "n8n-nodes-base.webhook"
  const CODE := "n8n-nodes-base.code"
  const VERIFY_SIGNATURE := "Verify Signature"

  const TRIGGER_TYPES: set<string> := {
    "n8n-nodes-base.webhook", "n8n-nodes-base.scheduleTrigger", "n8n-nodes-base.cronTrigger",
    "n8n-nodes-base.manualTrigger", "n8n-nodes-base.emailReadImap" }

  const ALERTMANAGER_TRIGGERED_FILES: set<string> := {
    "circuit-breaker-alert.json", "payment-error-escalation.json", "prometheus-alert-relay.json" }

  /** A node as its checked members; an absent text is "", `path` is None when it is not a string. */
  datatype Node = Node(
    id: string, name: string, typ: string, hasTypeVersion: bool, positionOk: bool,
    path: Option<string>, rawBody: bool)

  /** The targets of one output; NotAList is any JSON value of another kind. */
  datatype Chain = NotAList | Targets(names: seq<string>)

  datatype Chains = NotChains | Chains(chains: seq<Chain>)

  datatype Outputs = NotOutputs | Outputs(byType: seq<(string, Chains)>)

  /** A JSON object as its members in order; a parsed object has distinct keys. */
  type Connections = seq<(string, Outputs)>

  datatype Content =
    | Malformed
    | Workflow(nameOk: bool, nodes: Option<seq<Node>>, connections: Option<Connections>)

  datatype File = File(name: string, content: Content)

  /** What an error is about: the file's position, and the node's position or the offending
      name. */
  datatype Error =
    | InvalidJson(f: nat) | BadName(f: nat) | NodesNotArray(f: nat) | NodesEmpty(f: nat)
    | ConnectionsNotObject(f: nat)
    | MissingId(f: nat, i: nat) | DuplicateId(f: nat, i: nat) | MissingName(f: nat, i: nat)
    | MissingType(f: nat, i: nat) | MissingTypeVersion(f: nat, i: nat) | BadPosition(f: nat, i: nat)
    | EmptyPath(f: nat, i: nat) | PathCollision | NoTrigger(f: nat)
    | RawBodyOff(f: nat, i: nat) | NoSignatureNode(f: nat, i: nat)
    | UnknownSource(f: nat, name: string) | UnknownTarget(f: nat, name: string)

  // ---- what a sound set of workflows is ----

  /** str.strip() leaves nothing. */
  predicate Blank(s: string) { forall c | c in s :: IsSpace(c) }

  predicate IsSpace(c: char) {
    || '\t' <= c <= '\r' || '\U{1c}' <= c <= ' ' || c == '\U{85}' || c == '\U{a0}' || c == '\U{1680}'
    || '\U{2000}' <= c <= '\U{200a}' || c in {'\U{2028}', '\U{2029}', '\U{202f}', '\U{205f}', '\U{3000}'}
  }

  predicate HasPath(n: Node) { n.typ == WEBHOOK && n.path.Some? && !Blank(n.path.value) }

  function PathIn(n: Node): seq<string> { if HasPath(n) then [n.path.value] else [] }

  /** The webhook paths of the first n nodes, in order. */
  function PathsOf(nodes: seq<Node>, n: nat): seq<string>
    requires n <= |nodes|
  {
    if n == 0 then [] else PathsOf(nodes, n - 1) + PathIn(nodes[n - 1])
  }

  function NodesOf(file: File): seq<Node> {
    if file.content.Workflow? && file.content.nodes.Some? then file.content.nodes.value else []
  }

  /** The webhook paths of the first n files. */
  function AllPaths(files: seq<File>, n: nat): seq<string>
    requires n <= |files|
  {
    if n == 0 then []
    else
      var nodes := NodesOf(files[n - 1]);
      AllPaths(files, n - 1) + PathsOf(nodes, |nodes|)
  }

  predicate NodeOk(n: Node) {
    && n.id != "" && n.name != "" && n.typ != "" && n.hasTypeVersion && n.positionOk
    && (n.typ == WEBHOOK ==> HasPath(n))
  }

  predicate FreshId(nodes: seq<Node>, i: nat)
    requires i < |nodes|
  {
    forall k | 0 <= k < i :: nodes[k].id != nodes[i].id
  }

  /** The non-empty names among the first n nodes. */
  function NamesOf(nodes: seq<Node>, n: nat): set<string>
    requires n <= |nodes|
  {
    set k | 0 <= k < n && nodes[k].name != "" :: nodes[k].name
  }

  function IdsOf(nodes: seq<Node>, n: nat): set<string>
    requires n <= |nodes|
  {
    set k | 0 <= k < n && nodes[k].id != "" :: nodes[k].id
  }

  predicate HasTrigger(nodes: seq<Node>) { exists n | n in nodes :: n.typ in TRIGGER_TYPES }

  function OutputsAt(cs: Connections, name: string): Outputs {
    if cs == [] then NotOutputs else if cs[0].0 == name then cs[0].1 else OutputsAt(cs[1..], name)
  }

  function Main(byType: seq<(string, Chains)>): Chains {
    if byType == [] then NotChains else if byType[0].0 == "main" then byType[0].1 else Main(byType[1..])
  }

  /** Name of the first target of the first main output. */
  function FirstTarget(cs: Connections, name: string): Option<string> {
    match OutputsAt(cs, name)
    case NotOutputs => None
    case Outputs(byType) =>
      match Main(byType)
      case NotChains => None
      case Chains(chains) =>
        if chains != [] && chains[0].Targets? && chains[0].names != [] then Some(chains[0].names[0]) else None
  }

  /** The last of the first n nodes with that name. */
  function LastNamed(nodes: seq<Node>, n: nat, name: string): Option<Node>
    requires n <= |nodes|
  {
    if n == 0 then None else if nodes[n - 1].name == name then Some(nodes[n - 1]) else LastNamed(nodes, n - 1, name)
  }

  /** The first main target of that name is the signature check, a code node. */
  predicate FeedsSignature(nodes: seq<Node>, cs: Connections, name: string) {
    && FirstTarget(cs, name) == Some(VERIFY_SIGNATURE)
    && var node := LastNamed(nodes, |nodes|, VERIFY_SIGNATURE);
       node.Some? && node.value.typ == CODE
  }

  predicate SignedAt(nodes: seq<Node>, cs: Connections, n: Node) {
    n.typ == WEBHOOK ==> n.rawBody && FeedsSignature(nodes, cs, n.name)
  }

  predicate TargetOk(names: set<string>, target: string) { target == "" || target in names }

  predicate ChainOk(names: set<string>, chain: Chain) {
    chain.Targets? ==> forall d | 0 <= d < |chain.names| :: TargetOk(names, chain.names[d])
  }

  predicate ChainsOk(names: set<string>, chains: Chains) {
    chains.Chains? ==> forall k | 0 <= k < |chains.chains| :: ChainOk(names, chains.chains[k])
  }

  predicate OutputsOk(names: set<string>, o: Outputs) {
    o.Outputs? ==> forall t | 0 <= t < |o.byType| :: ChainsOk(names, o.byType[t].1)
  }

  /** Every end of every connection names a node. */
  predicate ConnectionsOk(names: set<string>, cs: Connections) {
    forall i | 0 <= i < |cs| :: cs[i].0 in names && OutputsOk(names, cs[i].1)
  }

  predicate NodesOk(nodes: seq<Node>) {
    forall i | 0 <= i < |nodes| :: NodeOk(nodes[i]) && FreshId(nodes, i)
  }

  predicate GraphOk(file: string, nodes: seq<Node>, cs: Connections) {
    && HasTrigger(nodes)
    && (file !in ALERTMANAGER_TRIGGERED_FILES ==> forall i | 0 <= i < |nodes| :: SignedAt(nodes, cs, nodes[i]))
    && ConnectionsOk(NamesOf(nodes, |nodes|), cs)
  }

  /** One workflow on its own. */
  predicate FileOk(file: File) {
    && file.content.Workflow? && file.content.nameOk
    && file.content.nodes.Some? && file.content.connections.Some?
    && NodesOk(file.content.nodes.value)
    && GraphOk(file.name, file.content.nodes.value, file.content.connections.value)
  }

  // ---- how often each error must be reported ----

  function Bit(b: bool): nat { if b then 1 else 0 }

  /** About node i of file f, path collisions aside. */
  function NodeFaults(f: nat, nodes: seq<Node>, i: nat, e: Error): (r: nat)
    requires i < |nodes|
    ensures e == PathCollision ==> r == 0
  {
    ShapeFaults(f, i, nodes[i], !FreshId(nodes, i), e)
    + Bit(e == EmptyPath(f, i) && nodes[i].typ == WEBHOOK && !HasPath(nodes[i]))
  }

  function ShapeFaults(f: nat, i: nat, n: Node, duplicate: bool, e: Error): (r: nat)
    ensures e == PathCollision ==> r == 0
  {
    IdFaults(f, i, n, duplicate, e)
    + Bit(e == MissingName(f, i) && n.name == "") + Bit(e == MissingType(f, i) && n.typ == "")
    + Bit(e == MissingTypeVersion(f, i) && !n.hasTypeVersion) + Bit(e == BadPosition(f, i) && !n.positionOk)
  }

  function IdFaults(f: nat, i: nat, n: Node, duplicate: bool, e: Error): nat {
    Bit(e == MissingId(f, i) && n.id == "") + Bit(e == DuplicateId(f, i) && n.id != "" && duplicate)
  }

  function NodesFaults(f: nat, nodes: seq<Node>, n: nat, e: Error): (r: nat)
    requires n <= |nodes|
    ensures e == PathCollision ==> r == 0
  {
    if n == 0 then 0 else NodesFaults(f, nodes, n - 1, e) + NodeFaults(f, nodes, n - 1, e)
  }

  function SignatureFault(f: nat, nodes: seq<Node>, cs: Connections, i: nat, e: Error): (r: nat)
    requires i < |nodes|
    ensures e == PathCollision ==> r == 0
  {
    Bit(e == RawBodyOff(f, i) && nodes[i].typ == WEBHOOK && !nodes[i].rawBody)
    + Bit(e == NoSignatureNode(f, i) && nodes[i].typ == WEBHOOK && !FeedsSignature(nodes, cs, nodes[i].name))
  }

  function SignatureFaults(f: nat, nodes: seq<Node>, cs: Connections, n: nat, e: Error): (r: nat)
    requires n <= |nodes|
    ensures e == PathCollision ==> r == 0
  {
    if n == 0 then 0 else SignatureFaults(f, nodes, cs, n - 1, e) + SignatureFault(f, nodes, cs, n - 1, e)
  }

  function TargetFaults(f: nat, names: set<string>, targets: seq<string>, n: nat, e: Error): (r: nat)
    requires n <= |targets|
    ensures e == PathCollision ==> r == 0
  {
    if n == 0 then 0
    else
      TargetFaults(f, names, targets, n - 1, e)
      + Bit(e == UnknownTarget(f, targets[n - 1]) && !TargetOk(names, targets[n - 1]))
  }

  function ChainFaults(f: nat, names: set<string>, chains: seq<Chain>, n: nat, e: Error): (r: nat)
    requires n <= |chains|
    ensures e == PathCollision ==> r == 0
  {
    if n == 0 then 0
    else
      ChainFaults(f, names, chains, n - 1, e)
      + match chains[n - 1] case NotAList => 0 case Targets(ts) => TargetFaults(f, names, ts, |ts|, e)
  }

  function OutputFaults(f: nat, names: set<string>, byType: seq<(string, Chains)>, n: nat, e: Error): (r: nat)
    requires n <= |byType|
    ensures e == PathCollision ==> r == 0
  {
    if n == 0 then 0
    else
      OutputFaults(f, names, byType, n - 1, e)
      + match byType[n - 1].1 case NotChains => 0 case Chains(cs) => ChainFaults(f, names, cs, |cs|, e)
  }

  function ConnectionFaults(f: nat, names: set<string>, cs: Connections, n: nat, e: Error): (r: nat)
    requires n <= |cs|
    ensures e == PathCollision ==> r == 0
  {
    if n == 0 then 0
    else
      ConnectionFaults(f, names, cs, n - 1, e)
      + Bit(e == UnknownSource(f, cs[n - 1].0) && cs[n - 1].0 !in names)
      + match cs[n - 1].1 case NotOutputs => 0 case Outputs(ts) => OutputFaults(f, names, ts, |ts|, e)
  }

  predicate TriggerSeen(nodes: seq<Node>, n: nat)
    requires n <= |nodes|
  {
    n > 0 && (TriggerSeen(nodes, n - 1) || nodes[n - 1].typ in TRIGGER_TYPES)
  }

  function GraphFaults(f: nat, file: string, nodes: seq<Node>, cs: Connections, e: Error): (r: nat)
    ensures e == PathCollision ==> r == 0
  {
    Bit(e == NoTrigger(f) && !TriggerSeen(nodes, |nodes|))
    + (if file in ALERTMANAGER_TRIGGERED_FILES then 0 else SignatureFaults(f, nodes, cs, |nodes|, e))
    + ConnectionFaults(f, NamesOf(nodes, |nodes|), cs, |cs|, e)
  }

  /** Connections of another kind are one fault and count as none. */
  function WorkflowFaults(f: nat, file: string, nodes: seq<Node>, connections: Option<Connections>, e: Error): (r: nat)
    ensures e == PathCollision ==> r == 0
  {
    Bit(e == ConnectionsNotObject(f) && connections.None?) + NodesFaults(f, nodes, |nodes|, e)
    + GraphFaults(f, file, nodes, if connections.Some? then connections.value else [], e)
  }

  function FileFaults(f: nat, file: File, e: Error): (r: nat)
    ensures e == PathCollision ==> r == 0
  {
    match file.content
    case Malformed => Bit(e == InvalidJson(f))
    case Workflow(nameOk, nodes, connections) =>
      Bit(e == BadName(f) && !nameOk) +
      if nodes.None? then Bit(e == NodesNotArray(f))
      else if nodes.value == [] then Bit(e == NodesEmpty(f))
      else WorkflowFaults(f, file.name, nodes.value, connections, e)
  }

  function Faults(files: seq<File>, n: nat, e: Error): (r: nat)
    requires n <= |files|
    ensures e == PathCollision ==> r == 0
  {
    if n == 0 then 0 else Faults(files, n - 1, e) + FileFaults(n - 1, files[n - 1], e)
  }

  // ---- no fault: the workflows are sound ----

  // For each level two lemmas: a sound part reports nothing, an unsound part something.

  lemma NodeSilent(f: nat, nodes: seq<Node>, i: nat, e: Error)
    requires i < |nodes| && NodeOk(nodes[i]) && FreshId(nodes, i)
    ensures NodeFaults(f, nodes, i, e) == 0
  {
  }

  lemma NodeReported(f: nat, nodes: seq<Node>, i: nat) returns (e: Error)
    requires i < |nodes| && !(NodeOk(nodes[i]) && FreshId(nodes, i))
    ensures NodeFaults(f, nodes, i, e) > 0
  {
    var n := nodes[i];
    e := if n.id == "" then MissingId(f, i) else if !FreshId(nodes, i) then DuplicateId(f, i)
         else if n.name == "" then MissingName(f, i) else if n.typ == "" then MissingType(f, i)
         else if !n.hasTypeVersion then MissingTypeVersion(f, i)
         else if !n.positionOk then BadPosition(f, i) else EmptyPath(f, i);
  }

  lemma {:induction false} NodesSilent(f: nat, nodes: seq<Node>, n: nat, e: Error)
    requires n <= |nodes| && forall i | 0 <= i < n :: NodeOk(nodes[i]) && FreshId(nodes, i)
    ensures NodesFaults(f, nodes, n, e) == 0
  {
    if n > 0 {
      NodesSilent(f, nodes, n - 1, e);
      NodeSilent(f, nodes, n - 1, e);
    }
  }

  lemma {:induction false} NodesReported(f: nat, nodes: seq<Node>, n: nat, i: nat) returns (e: Error)
    requires i < n <= |nodes| && !(NodeOk(nodes[i]) && FreshId(nodes, i))
    ensures NodesFaults(f, nodes, n, e) > 0
  {
    if i == n - 1 {
      e := NodeReported(f, nodes, i);
    } else {
      e := NodesReported(f, nodes, n - 1, i);
    }
  }

  lemma {:induction false} SignaturesSilent(f: nat, nodes: seq<Node>, cs: Connections, n: nat, e: Error)
    requires n <= |nodes| && forall i | 0 <= i < n :: SignedAt(nodes, cs, nodes[i])
    ensures SignatureFaults(f, nodes, cs, n, e) == 0
  {
    if n > 0 {
      SignaturesSilent(f, nodes, cs, n - 1, e);
    }
  }

  lemma {:induction false} SignaturesReported(f: nat, nodes: seq<Node>, cs: Connections, n: nat, i: nat)
    returns (e: Error)
    requires i < n <= |nodes| && !SignedAt(nodes, cs, nodes[i])
    ensures SignatureFaults(f, nodes, cs, n, e) > 0
  {
    if i == n - 1 {
      e := if !nodes[i].rawBody then RawBodyOff(f, i) else NoSignatureNode(f, i);
    } else {
      e := SignaturesReported(f, nodes, cs, n - 1, i);
    }
  }

  lemma {:induction false} TargetsSilent(f: nat, names: set<string>, targets: seq<string>, n: nat, e: Error)
    requires n <= |targets| && forall i | 0 <= i < n :: TargetOk(names, targets[i])
    ensures TargetFaults(f, names, targets, n, e) == 0
  {
    if n > 0 {
      TargetsSilent(f, names, targets, n - 1, e);
    }
  }

  lemma {:induction false} TargetsReported(f: nat, names: set<string>, targets: seq<string>, n: nat, i: nat)
    requires i < n <= |targets| && !TargetOk(names, targets[i])
    ensures TargetFaults(f, names, targets, n, UnknownTarget(f, targets[i])) > 0
  {
    if i < n - 1 {
      TargetsReported(f, names, targets, n - 1, i);
    }
  }

  lemma {:induction false} ChainsSilent(f: nat, names: set<string>, chains: seq<Chain>, n: nat, e: Error)
    requires n <= |chains| && forall i | 0 <= i < n :: ChainOk(names, chains[i])
    ensures ChainFaults(f, names, chains, n, e) == 0
  {
    if n > 0 {
      ChainsSilent(f, names, chains, n - 1, e);
      if chains[n - 1].Targets? {
        TargetsSilent(f, names, chains[n - 1].names, |chains[n - 1].names|, e);
      }
    }
  }

  lemma {:induction false} ChainsReported(f: nat, names: set<string>, chains: seq<Chain>, n: nat, i: nat)
    returns (e: Error)
    requires i < n <= |chains| && !ChainOk(names, chains[i])
    ensures ChainFaults(f, names, chains, n, e) > 0
  {
    if i == n - 1 {
      var targets := chains[i].names;
      var d :| 0 <= d < |targets| && !TargetOk(names, targets[d]);
      TargetsReported(f, names, targets, |targets|, d);
      e := UnknownTarget(f, targets[d]);
    } else {
      e := ChainsReported(f, names, chains, n - 1, i);
    }
  }

  lemma {:induction false} OutputsSilent(f: nat, names: set<string>, byType: seq<(string, Chains)>, n: nat, e: Error)
    requires n <= |byType| && forall i | 0 <= i < n :: ChainsOk(names, byType[i].1)
    ensures OutputFaults(f, names, byType, n, e) == 0
  {
    if n > 0 {
      OutputsSilent(f, names, byType, n - 1, e);
      if byType[n - 1].1.Chains? {
        ChainsSilent(f, names, byType[n - 1].1.chains, |byType[n - 1].1.chains|, e);
      }
    }
  }

  lemma {:induction false} OutputsReported(f: nat, names: set<string>, byType: seq<(string, Chains)>, n: nat, i: nat)
    returns (e: Error)
    requires i < n <= |byType| && !ChainsOk(names, byType[i].1)
    ensures OutputFaults(f, names, byType, n, e) > 0
  {
    if i == n - 1 {
      var chains := byType[i].1.chains;
      var k :| 0 <= k < |chains| && !ChainOk(names, chains[k]);
      e := ChainsReported(f, names, chains, |chains|, k);
    } else {
      e := OutputsReported(f, names, byType, n - 1, i);
    }
  }

  lemma {:induction false} ConnectionsSilent(f: nat, names: set<string>, cs: Connections, n: nat, e: Error)
    requires n <= |cs| && forall i | 0 <= i < n :: cs[i].0 in names && OutputsOk(names, cs[i].1)
    ensures ConnectionFaults(f, names, cs, n, e) == 0
  {
    if n > 0 {
      ConnectionsSilent(f, names, cs, n - 1, e);
      if cs[n - 1].1.Outputs? {
        OutputsSilent(f, names, cs[n - 1].1.byType, |cs[n - 1].1.byType|, e);
      }
    }
  }

  lemma {:induction false} ConnectionsReported(f: nat, names: set<string>, cs: Connections, n: nat, i: nat)
    returns (e: Error)
    requires i < n <= |cs| && !(cs[i].0 in names && OutputsOk(names, cs[i].1))
    ensures ConnectionFaults(f, names, cs, n, e) > 0
  {
    if i < n - 1 {
      e := ConnectionsReported(f, names, cs, n - 1, i);
    } else if cs[i].0 !in names {
      e := UnknownSource(f, cs[i].0);
    } else {
      var byType := cs[i].1.byType;
      var t :| 0 <= t < |byType| && !ChainsOk(names, byType[t].1);
      e := OutputsReported(f, names, byType, |byType|, t);
    }
  }

  lemma {:induction false} TriggerSeenExactlyWhen(nodes: seq<Node>, n: nat)
    requires n <= |nodes|
    ensures TriggerSeen(nodes, n) <==> HasTrigger(nodes[..n])
  {
    if n > 0 {
      TriggerSeenExactlyWhen(nodes, n - 1);
      assert nodes[..n] == nodes[..n - 1] + [nodes[n - 1]];
    }
  }

  lemma TriggerIsSeen(nodes: seq<Node>)
    ensures TriggerSeen(nodes, |nodes|) <==> HasTrigger(nodes)
  {
    TriggerSeenExactlyWhen(nodes, |nodes|);
    assert nodes[..|nodes|] == nodes;
  }

  lemma GraphSilent(f: nat, file: string, nodes: seq<Node>, cs: Connections, e: Error)
    requires GraphOk(file, nodes, cs)
    ensures GraphFaults(f, file, nodes, cs, e) == 0
  {
    TriggerIsSeen(nodes);
    if file !in ALERTMANAGER_TRIGGERED_FILES {
      SignaturesSilent(f, nodes, cs, |nodes|, e);
    }
    ConnectionsSilent(f, NamesOf(nodes, |nodes|), cs, |cs|, e);
  }

  lemma GraphReported(f: nat, file: string, nodes: seq<Node>, cs: Connections) returns (e: Error)
    requires !GraphOk(file, nodes, cs)
    ensures GraphFaults(f, file, nodes, cs, e) > 0
  {
    TriggerIsSeen(nodes);
    var names := NamesOf(nodes, |nodes|);
    if !HasTrigger(nodes) {
      e := NoTrigger(f);
    } else if !ConnectionsOk(names, cs) {
      var i :| 0 <= i < |cs| && !(cs[i].0 in names && OutputsOk(names, cs[i].1));
      e := ConnectionsReported(f, names, cs, |cs|, i);
    } else {
      var i :| 0 <= i < |nodes| && !SignedAt(nodes, cs, nodes[i]);
      e := SignaturesReported(f, nodes, cs, |nodes|, i);
    }
  }

  lemma FileSilent(f: nat, file: File, e: Error)
    requires FileOk(file)
    ensures FileFaults(f, file, e) == 0
  {
    var nodes := file.content.nodes.value;
    NodesSilent(f, nodes, |nodes|, e);
    GraphSilent(f, file.name, nodes, file.content.connections.value, e);
  }

  /** A file that is not sound gets an error of its own, path collisions aside. */
  lemma FileReported(f: nat, file: File) returns (e: Error)
    requires !FileOk(file)
    ensures FileFaults(f, file, e) > 0
  {
    match file.content
    case Malformed => e := InvalidJson(f);
    case Workflow(nameOk, nodes, connections) =>
      if !nameOk {
        e := BadName(f);
      } else if nodes.None? {
        e := NodesNotArray(f);
      } else if nodes.value == [] {
        e := NodesEmpty(f);
      } else if connections.None? {
        e := ConnectionsNotObject(f);
      } else if !NodesOk(nodes.value) {
        var i :| 0 <= i < |nodes.value| && !(NodeOk(nodes.value[i]) && FreshId(nodes.value, i));
        e := NodesReported(f, nodes.value, |nodes.value|, i);
      } else {
        e := GraphReported(f, file.name, nodes.value, connections.value);
      }
  }

  lemma {:induction false} FilesSilent(files: seq<File>, n: nat, e: Error)
    requires n <= |files| && forall f: nat | f < n :: FileFaults(f, files[f], e) == 0
    ensures Faults(files, n, e) == 0
  {
    if n > 0 {
      FilesSilent(files, n - 1, e);
    }
  }

  lemma {:induction false} FilesReported(files: seq<File>, n: nat, f: nat, e: Error)
    requires f < n <= |files|
    ensures Faults(files, n, e) >= FileFaults(f, files[f], e)
  {
    if f < n - 1 {
      FilesReported(files, n - 1, f, e);
    }
  }

  /** How often an error is in the list. */
  function Count(es: seq<Error>, e: Error): nat { multiset(es)[e] }

  predicate AllSound(files: seq<File>) { forall f | 0 <= f < |files| :: FileOk(files[f]) }

  /** A report with every fault and every repeated path, as often as due. */
  ghost predicate IsReport(files: seq<File>, errors: seq<Error>) {
    var paths := AllPaths(files, |files|);
    && (forall e | e != PathCollision :: Count(errors, e) == Faults(files, |files|, e))
    && Count(errors, PathCollision) == |paths| - |Texts(paths)|
  }

  /** It is empty exactly for sound workflows whose webhook paths are distinct. */
  lemma AcceptedExactlyWhen(files: seq<File>, errors: seq<Error>)
    requires IsReport(files, errors)
    ensures errors == [] <==> AllSound(files) && Distinct(AllPaths(files, |files|))
  {
    DistinctExactlyWhen(AllPaths(files, |files|));
    EmptyExactlyWhen(errors);
    if AllSound(files) {
      forall e
        ensures Faults(files, |files|, e) == 0
      {
        forall f: nat | f < |files|
          ensures FileFaults(f, files[f], e) == 0
        {
          FileSilent(f, files[f], e);
        }
        FilesSilent(files, |files|, e);
      }
    } else {
      var f: nat :| f < |files| && !FileOk(files[f]);
      var e := FileReported(f, files[f]);
      FilesReported(files, |files|, f, e);
      assert Count(errors, e) > 0;
    }
  }

  lemma EmptyExactlyWhen(es: seq<Error>)
    ensures es == [] <==> forall e :: Count(es, e) == 0
  {
    if es != [] {
      assert es[0] in multiset(es);
      assert Count(es, es[0]) > 0;
    }
  }

  predicate Distinct(xs: seq<string>) {
    forall i, j | 0 <= i < j < |xs| :: xs[i] != xs[j]
  }

  function Texts(xs: seq<string>): set<string> { set x | x in xs }

  /** As many texts as entries: no entry repeats. */
  lemma {:induction false} DistinctExactlyWhen(xs: seq<string>)
    ensures |Texts(xs)| <= |xs|
    ensures |Texts(xs)| == |xs| <==> Distinct(xs)
  {
    if xs != [] {
      var front, x := xs[..|xs| - 1], xs[|xs| - 1];
      DistinctExactlyWhen(front);
      assert Texts(xs) == Texts(front) + {x};
      if x in front {
        assert Texts(xs) == Texts(front);
      }
    }
  }

  // ---- the script ----

  class Validator {
    var errors: seq<Error>
    var seenWebhookPaths: map<string, string>
    /** Every non-empty webhook path met so far, repeats included. */
    ghost var paths: seq<string>

    /** Each path met was either registered or reported. */
    ghost predicate Valid()
      reads this
    {
      && seenWebhookPaths.Keys == Texts(paths)
      && Count(errors, PathCollision) == |paths| - |Texts(paths)|
    }

    constructor ()
      ensures Valid() && errors == [] && paths == []
    {
      errors := [];
      seenWebhookPaths := map[];
      paths := [];
    }

    method Append(e: Error)
      modifies this`errors
      ensures forall d :: Count(errors, d) == Count(old(errors), d) + Bit(d == e)
    {
      errors := errors + [e];
    }

    method Register(file: string, path: string)
      requires Valid()
      modifies this
      ensures Valid() && paths == old(paths) + [path]
      ensures forall e | e != PathCollision :: Count(errors, e) == Count(old(errors), e)
    {
      OneMorePath(paths, path);
      paths := paths + [path];
      if path in seenWebhookPaths {
        Append(PathCollision);
      } else {
        seenWebhookPaths := seenWebhookPaths[path := file];
      }
    }

    method CheckPath(f: nat, file: string, i: nat, n: Node)
      requires Valid() && n.typ == WEBHOOK
      modifies this
      ensures Valid() && paths == old(paths) + PathIn(n)
      ensures forall e | e != PathCollision ::
                Count(errors, e) == Count(old(errors), e) + Bit(e == EmptyPath(f, i) && !HasPath(n))
    {
      if n.path.None? || Blank(n.path.value) {
        Append(EmptyPath(f, i));
      } else {
        Register(file, n.path.value);
      }
    }

    method CheckId(f: nat, i: nat, n: Node, duplicate: bool)
      modifies this`errors
      ensures forall e :: Count(errors, e) == Count(old(errors), e) + IdFaults(f, i, n, duplicate, e)
    {
      if n.id == "" {
        Append(MissingId(f, i));
      } else if duplicate {
        Append(DuplicateId(f, i));
      }
    }

    /** The members every node must have. */
    method CheckShape(f: nat, i: nat, n: Node, duplicate: bool)
      modifies this`errors
      ensures forall e :: Count(errors, e) == Count(old(errors), e) + ShapeFaults(f, i, n, duplicate, e)
    {
      CheckId(f, i, n, duplicate);
      if n.name == "" {
        Append(MissingName(f, i));
      }
      if n.typ == "" {
        Append(MissingType(f, i));
      }
      if !n.hasTypeVersion {
        Append(MissingTypeVersion(f, i));
      }
      if !n.positionOk {
        Append(BadPosition(f, i));
      }
    }

    method CheckNode(f: nat, file: string, nodes: seq<Node>, i: nat, nodeIds: set<string>)
      requires Valid() && i < |nodes| && nodeIds == IdsOf(nodes, i)
      modifies this
      ensures Valid() && paths == old(paths) + PathIn(nodes[i])
      ensures forall e | e != PathCollision :: Count(errors, e) == Count(old(errors), e) + NodeFaults(f, nodes, i, e)
    {
      CheckShape(f, i, nodes[i], nodes[i].id in nodeIds);
      if nodes[i].typ == WEBHOOK {
        CheckPath(f, file, i, nodes[i]);
      }
    }

    method CheckNodes(f: nat, file: string, nodes: seq<Node>) returns (nodeNames: set<string>, hasTrigger: bool)
      requires Valid()
      modifies this
      ensures Valid() && paths == old(paths) + PathsOf(nodes, |nodes|)
      ensures forall e | e != PathCollision ::
                Count(errors, e) == Count(old(errors), e) + NodesFaults(f, nodes, |nodes|, e)
      ensures nodeNames == NamesOf(nodes, |nodes|) && hasTrigger == TriggerSeen(nodes, |nodes|)
    {
      nodeNames, hasTrigger := {}, false;
      var nodeIds: set<string> := {};
      assert paths == old(paths) + [];
      for i := 0 to |nodes|
        invariant Valid() && paths == old(paths) + PathsOf(nodes, i)
        invariant forall e | e != PathCollision ::
                    Count(errors, e) == Count(old(errors), e) + NodesFaults(f, nodes, i, e)
        invariant nodeIds == IdsOf(nodes, i)
        invariant nodeNames == NamesOf(nodes, i) && hasTrigger == TriggerSeen(nodes, i)
      {
        NextPaths(old(paths), nodes, i);
        CheckNode(f, file, nodes, i, nodeIds);
        NextNode(nodes, i);
        nodeIds := nodeIds + if nodes[i].id != "" then {nodes[i].id} else {};
        nodeNames := nodeNames + if nodes[i].name != "" then {nodes[i].name} else {};
        hasTrigger := hasTrigger || nodes[i].typ in TRIGGER_TYPES;
      }
    }

    method NodesByName(nodes: seq<Node>) returns (byName: map<string, Node>)
      ensures forall name :: LastNamed(nodes, |nodes|, name) ==
                             if name in byName then Some(byName[name]) else None
    {
      byName := map[];
      for i := 0 to |nodes|
        invariant forall name :: LastNamed(nodes, i, name) == if name in byName then Some(byName[name]) else None
      {
        byName := byName[nodes[i].name := nodes[i]];
      }
    }

    method CheckSignatures(f: nat, nodes: seq<Node>, cs: Connections)
      modifies this`errors
      ensures forall e :: Count(errors, e) == Count(old(errors), e) + SignatureFaults(f, nodes, cs, |nodes|, e)
    {
      var byName := NodesByName(nodes);
      for i := 0 to |nodes|
        invariant forall e :: Count(errors, e) == Count(old(errors), e) + SignatureFaults(f, nodes, cs, i, e)
      {
        if nodes[i].typ == WEBHOOK {
          CheckSignature(f, nodes, cs, i, byName);
        }
      }
    }

    method CheckSignature(f: nat, nodes: seq<Node>, cs: Connections, i: nat, byName: map<string, Node>)
      requires i < |nodes| && nodes[i].typ == WEBHOOK
      requires forall name :: LastNamed(nodes, |nodes|, name) == if name in byName then Some(byName[name]) else None
      modifies this`errors
      ensures forall e :: Count(errors, e) == Count(old(errors), e) + SignatureFault(f, nodes, cs, i, e)
    {
      if !nodes[i].rawBody {
        Append(RawBodyOff(f, i));
      }
      var target := FirstTarget(cs, nodes[i].name);
      var node := if target.Some? && target.value in byName then Some(byName[target.value]) else None;
      assert target.Some? ==> node == LastNamed(nodes, |nodes|, target.value);
      if target.Some? {
        LastNamedHasName(nodes, |nodes|, target.value);
      }
      if node.None? || node.value.name != VERIFY_SIGNATURE || node.value.typ != CODE {
        Append(NoSignatureNode(f, i));
      }
    }

    method CheckChain(f: nat, names: set<string>, targets: seq<string>)
      modifies this`errors
      ensures forall e :: Count(errors, e) == Count(old(errors), e) + TargetFaults(f, names, targets, |targets|, e)
    {
      for d := 0 to |targets|
        invariant forall e :: Count(errors, e) == Count(old(errors), e) + TargetFaults(f, names, targets, d, e)
      {
        if targets[d] != "" && targets[d] !in names {
          Append(UnknownTarget(f, targets[d]));
        }
      }
    }

    method CheckChains(f: nat, names: set<string>, chains: seq<Chain>)
      modifies this`errors
      ensures forall e :: Count(errors, e) == Count(old(errors), e) + ChainFaults(f, names, chains, |chains|, e)
    {
      for k := 0 to |chains|
        invariant forall e :: Count(errors, e) == Count(old(errors), e) + ChainFaults(f, names, chains, k, e)
      {
        if chains[k].Targets? {
          CheckChain(f, names, chains[k].names);
        }
      }
    }

    method CheckOutputs(f: nat, names: set<string>, byType: seq<(string, Chains)>)
      modifies this`errors
      ensures forall e :: Count(errors, e) == Count(old(errors), e) + OutputFaults(f, names, byType, |byType|, e)
    {
      for t := 0 to |byType|
        invariant forall e :: Count(errors, e) == Count(old(errors), e) + OutputFaults(f, names, byType, t, e)
      {
        if byType[t].1.Chains? {
          CheckChains(f, names, byType[t].1.chains);
        }
      }
    }

    method CheckConnections(f: nat, names: set<string>, cs: Connections)
      modifies this`errors
      ensures forall e :: Count(errors, e) == Count(old(errors), e) + ConnectionFaults(f, names, cs, |cs|, e)
    {
      for i := 0 to |cs|
        invariant forall e :: Count(errors, e) == Count(old(errors), e) + ConnectionFaults(f, names, cs, i, e)
      {
        if cs[i].0 !in names {
          Append(UnknownSource(f, cs[i].0));
        }
        if cs[i].1.Outputs? {
          CheckOutputs(f, names, cs[i].1.byType);
        }
      }
    }

    method CheckGraph(f: nat, file: string, nodes: seq<Node>, cs: Connections, nodeNames: set<string>, hasTrigger: bool)
      requires nodeNames == NamesOf(nodes, |nodes|) && hasTrigger == TriggerSeen(nodes, |nodes|)
      modifies this`errors
      ensures forall e :: Count(errors, e) == Count(old(errors), e) + GraphFaults(f, file, nodes, cs, e)
    {
      if !hasTrigger {
        Append(NoTrigger(f));
      }
      if file !in ALERTMANAGER_TRIGGERED_FILES {
        CheckSignatures(f, nodes, cs);
      }
      CheckConnections(f, nodeNames, cs);
    }

    method CheckWorkflow(f: nat, file: string, nodes: seq<Node>, connections: Option<Connections>)
      requires Valid()
      modifies this
      ensures Valid() && paths == old(paths) + PathsOf(nodes, |nodes|)
      ensures forall e | e != PathCollision ::
                Count(errors, e) == Count(old(errors), e) + WorkflowFaults(f, file, nodes, connections, e)
    {
      var cs: Connections := [];
      if connections.None? {
        Append(ConnectionsNotObject(f));
      } else {
        cs := connections.value;
      }
      var nodeNames, hasTrigger := CheckNodes(f, file, nodes);
      CheckGraph(f, file, nodes, cs, nodeNames, hasTrigger);
    }

    /** All errors of one file; the paths of its nodes count even where the file is faulty. */
    method CheckFile(f: nat, file: File)
      requires Valid()
      modifies this
      ensures Valid() && paths == old(paths) + PathsOf(NodesOf(file), |NodesOf(file)|)
      ensures forall e | e != PathCollision :: Count(errors, e) == Count(old(errors), e) + FileFaults(f, file, e)
    {
      if file.content.Malformed? {
        Append(InvalidJson(f));
        return;
      }
      if !file.content.nameOk {
        Append(BadName(f));
      }
      if file.content.nodes.None? {
        Append(NodesNotArray(f));
        return;
      }
      var nodes := file.content.nodes.value;
      if |nodes| == 0 {
        Append(NodesEmpty(f));
        return;
      }
      CheckWorkflow(f, file.name, nodes, file.content.connections);
    }

    /** The script from its start: every fault of every file is reported, once for each time
        it occurs, and every path after the first of its text. */
    method Run(files: seq<File>)
      requires Valid() && errors == [] && paths == []
      modifies this
      ensures IsReport(files, errors)
      ensures errors == [] <==> AllSound(files) && Distinct(AllPaths(files, |files|))
    {
      for f := 0 to |files|
        invariant Valid() && paths == AllPaths(files, f)
        invariant forall e | e != PathCollision :: Count(errors, e) == Faults(files, f, e)
      {
        CheckFile(f, files[f]);
      }
      AcceptedExactlyWhen(files, errors);
    }
  }

  lemma NextPaths(before: seq<string>, nodes: seq<Node>, i: nat)
    requires i < |nodes|
    ensures before + PathsOf(nodes, i) + PathIn(nodes[i]) == before + PathsOf(nodes, i + 1)
  {
    Associative(before, PathsOf(nodes, i), PathIn(nodes[i]));
  }

  lemma NextNode(nodes: seq<Node>, i: nat)
    requires i < |nodes|
    ensures IdsOf(nodes, i + 1) == IdsOf(nodes, i) + if nodes[i].id != "" then {nodes[i].id} else {}
    ensures NamesOf(nodes, i + 1) == NamesOf(nodes, i) + if nodes[i].name != "" then {nodes[i].name} else {}
    ensures TriggerSeen(nodes, i + 1) == (TriggerSeen(nodes, i) || nodes[i].typ in TRIGGER_TYPES)
  {
  }

  lemma OneMorePath(paths: seq<string>, path: string)
    ensures Texts(paths + [path]) == Texts(paths) + {path}
    ensures |Texts(paths + [path])| == |Texts(paths)| + Bit(path !in paths)
  {
    var more := paths + [path];
    assert Texts(more) == Texts(paths) + {path};
    if path in paths {
      assert Texts(more) == Texts(paths);
    }
  }

  lemma {:induction false} LastNamedHasName(nodes: seq<Node>, n: nat, name: string)
    requires n <= |nodes|
    ensures var last := LastNamed(nodes, n, name); last.Some? ==> last.value.name == name
  {
    if n > 0 {
      LastNamedHasName(nodes, n - 1, name);
    }
  }
}
