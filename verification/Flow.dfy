/** One record's walk through the graph (crates/core/src/engine.rs:465-610). */
module Flow {
  // The walk copies the record at every fan-out: it is the reference the sharing engine is
  // held to.
  //
  // Stages and sinks are oracles asked by visit number, so they may be stateful and may change
  // their minds.

  import opened Wrappers
  import opened Graph
  import opened Json

  datatype StateErrorPolicy = PassOn | NakIt

  datatype Node = SinkNode | StageNode(onStateError: StateErrorPolicy)

  datatype Pipeline = Pipeline(nodes: seq<Node>, edges: Adjacency, sources: seq<nat>)

  /** What the builder guarantees: edges climb (see `Dag.Renumbers`). */
  ghost predicate Valid(p: Pipeline) {
    && |p.edges| == |p.nodes|
    && (forall k :: 0 <= k < |p.sources| ==> p.sources[k] < |p.nodes|)
    && forall v, e :: 0 <= v < |p.nodes| && 0 <= e < |p.edges[v]| ==> v < p.edges[v][e].target < |p.nodes|
  }

  datatype StageOutput =
    | Pass(record: Value)
    | StateError(record: Value)
    | Split(records: seq<Value>)
    | Drop
    | Routed(output: string, record: Value)
    | Error
    | StagePanic

  datatype SinkOutput = Accepted | Refused | SinkPanic

  datatype Oracle = Oracle(stage: (nat, nat, Value) -> StageOutput, sink: (nat, nat, Value) -> SinkOutput)

  /** How a visit ended. `Unroutable` is a label nobody reads. */
  datatype Outcome =
    | Written
    | WriteFailed
    | Passed
    | StateErrorPassed
    | StateErrorFailed
    | SplitInto(n: nat)
    | Dropped
    | RoutedTo(output: string)
    | Unroutable(output: string)
    | Errored
    | Panicked

  /** A node's run on a record; `parent` is the visit the record came from, none for the
      source. */
  datatype Visit = Visit(node: nat, record: Value, parent: Option<nat>, outcome: Outcome)

  /** The visits so far, and whether a panic cut the walk short. */
  datatype Trail = Trail(log: seq<Visit>, panicked: bool)

  /** The nodes that read `output` of a node with these edges: every consumer when none is
      named. */
  function Consumers(edges: seq<Edge>, output: Option<string>): (targets: seq<nat>)
    ensures |targets| <= |edges|
    ensures forall k :: 0 <= k < |targets| ==> exists e :: 0 <= e < |edges| && edges[e].target == targets[k]
  {
    if edges == [] then []
    else
      (if output.None? || edges[0].output == output then [edges[0].target] else []) + Consumers(edges[1..], output)
  }

  /** What a stage's output sends on: `records`, each to all of `targets`. */
  datatype Sending = Sending(targets: seq<nat>, records: seq<Value>)

  function SendingOf(p: Pipeline, node: nat, out: StageOutput): (s: Sending)
    requires Valid(p) && node < |p.nodes| && p.nodes[node].StageNode?
    ensures forall k :: 0 <= k < |s.targets| ==> node < s.targets[k] < |p.nodes|
  {
    match out
    case Pass(r) => Sending(Consumers(p.edges[node], None), [r])
    case StateError(r) => if p.nodes[node].onStateError == PassOn then Sending(Consumers(p.edges[node], None), [r])
      else Sending([], [])
    case Split(rs) => Sending(Consumers(p.edges[node], None), rs)
    case Routed(output, r) => Sending(Consumers(p.edges[node], Some(output)), [r])
    case _ => Sending([], [])
  }

  function OutcomeOf(p: Pipeline, node: nat, out: StageOutput): Outcome
    requires Valid(p) && node < |p.nodes| && p.nodes[node].StageNode?
  {
    match out
    case Pass(_) => Passed
    case StateError(_) => if p.nodes[node].onStateError == PassOn then StateErrorPassed else StateErrorFailed
    case Split(rs) => SplitInto(|rs|)
    case Drop => Dropped
    case Routed(output, _) => if Consumers(p.edges[node], Some(output)) == [] then Unroutable(output)
      else RoutedTo(output)
    case Error => Errored
    case StagePanic => Panicked
  }

  function SinkOutcome(out: SinkOutput): Outcome {
    match out
    case Accepted => Written
    case Refused => WriteFailed
    case SinkPanic => Panicked
  }

  // ----- the walk -----

  function RunNode(p: Pipeline, o: Oracle, node: nat, record: Value, parent: Option<nat>, log: seq<Visit>): Trail
    requires Valid(p) && node < |p.nodes|
    decreases |p.nodes| - node, 0
  {
    match p.nodes[node]
    case SinkNode =>
      var outcome := SinkOutcome(o.sink(|log|, node, record));
      Trail(log + [Visit(node, record, parent, outcome)], outcome.Panicked?)
    case StageNode(_) =>
      var out := o.stage(|log|, node, record);
      var outcome := OutcomeOf(p, node, out);
      var s := SendingOf(p, node, out);
      var visited := log + [Visit(node, record, parent, outcome)];
      if outcome.Panicked? then Trail(visited, true)
      else SendAll(p, o, |p.nodes| - node - 1, s.targets, s.records, Some(|log|), visited)
  }

  /** `record` to each of `targets` in turn, whatever becomes of the others. `above` bounds how
      far the walk can still climb. */
  function FanOut(p: Pipeline, o: Oracle, above: nat, targets: seq<nat>, record: Value, parent: Option<nat>,
      log: seq<Visit>): Trail
    requires Valid(p) && forall k :: 0 <= k < |targets| ==> targets[k] < |p.nodes| <= targets[k] + above
    decreases above, 1, |targets|
  {
    if targets == [] then Trail(log, false)
    else
      var t := RunNode(p, o, targets[0], record, parent, log);
      if t.panicked then t else FanOut(p, o, above, targets[1..], record, parent, t.log)
  }

  function SendAll(p: Pipeline, o: Oracle, above: nat, targets: seq<nat>, records: seq<Value>, parent: Option<nat>,
      log: seq<Visit>): Trail
    requires Valid(p) && forall k :: 0 <= k < |targets| ==> targets[k] < |p.nodes| <= targets[k] + above
    decreases above, 2, |records|
  {
    if records == [] then Trail(log, false)
    else
      var t := FanOut(p, o, above, targets, records[0], parent, log);
      if t.panicked then t else SendAll(p, o, above, targets, records[1..], parent, t.log)
  }

  /** The whole walk, from the source. */
  function Walk(p: Pipeline, o: Oracle, record: Value): Trail
    requires Valid(p)
  {
    FanOut(p, o, |p.nodes|, p.sources, record, None, [])
  }

  // ----- counts -----

  function Count(s: seq<nat>, n: nat): nat {
    if s == [] then 0 else (if s[0] == n then 1 else 0) + Count(s[1..], n)
  }

  /** How many records a visit put on its node's edges to `n`. */
  function Sent(p: Pipeline, v: Visit, n: nat): nat {
    if v.node >= |p.edges| then 0
    else
      match v.outcome
      case Passed | StateErrorPassed => Count(Consumers(p.edges[v.node], None), n)
      case SplitInto(k) => k * Count(Consumers(p.edges[v.node], None), n)
      case RoutedTo(output) => Count(Consumers(p.edges[v.node], Some(output)), n)
      case _ => 0
  }

  function SentTo(p: Pipeline, log: seq<Visit>, n: nat): nat {
    if log == [] then 0 else SentTo(p, log[..|log| - 1], n) + Sent(p, log[|log| - 1], n)
  }

  /** Visits of `n`: its records-in count. */
  function In(log: seq<Visit>, n: nat): nat {
    if log == [] then 0 else In(log[..|log| - 1], n) + if log[|log| - 1].node == n then 1 else 0
  }

  // ----- conservation -----

  /** From `before` to `after`, node `n` was entered by what came from outside and by what was
      sent to it. */
  ghost predicate Balanced(p: Pipeline, before: seq<Visit>, after: seq<Visit>, entering: nat, n: nat) {
    In(after, n) + SentTo(p, before, n) == In(before, n) + entering + SentTo(p, after, n)
  }

  lemma AppendVisit(p: Pipeline, log: seq<Visit>, v: Visit, n: nat)
    ensures In(log + [v], n) == In(log, n) + if v.node == n then 1 else 0
    ensures SentTo(p, log + [v], n) == SentTo(p, log, n) + Sent(p, v, n)
  {
    var all := log + [v];
    assert all[..|all| - 1] == log && all[|all| - 1] == v;
  }

  lemma {:induction false} RunNodeConserves(p: Pipeline, o: Oracle, node: nat, record: Value, parent: Option<nat>,
      log: seq<Visit>, n: nat)
    requires Valid(p) && node < |p.nodes| && !RunNode(p, o, node, record, parent, log).panicked
    ensures Balanced(p, log, RunNode(p, o, node, record, parent, log).log, if node == n then 1 else 0, n)
    decreases |p.nodes| - node, 0
  {
    match p.nodes[node]
    case SinkNode =>
      AppendVisit(p, log, Visit(node, record, parent, SinkOutcome(o.sink(|log|, node, record))), n);
    case StageNode(_) =>
      var out := o.stage(|log|, node, record);
      var s := SendingOf(p, node, out);
      var v := Visit(node, record, parent, OutcomeOf(p, node, out));
      AppendVisit(p, log, v, n);
      SendAllConserves(p, o, |p.nodes| - node - 1, s.targets, s.records, Some(|log|), log + [v], n);
      SentIsSending(p, node, record, parent, out, n);
  }

  /** What a visit counts as sent is what its output sends. */
  lemma SentIsSending(p: Pipeline, node: nat, record: Value, parent: Option<nat>, out: StageOutput, n: nat)
    requires Valid(p) && node < |p.nodes| && p.nodes[node].StageNode?
    ensures var s := SendingOf(p, node, out);
            Sent(p, Visit(node, record, parent, OutcomeOf(p, node, out)), n) == |s.records| * Count(s.targets, n)
  {
    assert node < |p.edges| && Count([], n) == 0;
    hide Valid, Consumers, Count;
    var s := SendingOf(p, node, out);
    OneOrNone(s.records, Count(s.targets, n));
    match out
    case Split(records) => assert s.records == records;
    case Routed(_, r) => assert s.records == [r];
    case _ =>
  }

  lemma OneOrNone(records: seq<Value>, count: nat)
    ensures |records| == 1 ==> |records| * count == count
    ensures |records| == 0 ==> |records| * count == 0
  {
  }

  lemma {:induction false} FanOutConserves(p: Pipeline, o: Oracle, above: nat, targets: seq<nat>, record: Value,
      parent: Option<nat>, log: seq<Visit>, n: nat)
    requires Valid(p) && forall k :: 0 <= k < |targets| ==> targets[k] < |p.nodes| <= targets[k] + above
    requires !FanOut(p, o, above, targets, record, parent, log).panicked
    ensures Balanced(p, log, FanOut(p, o, above, targets, record, parent, log).log, Count(targets, n), n)
    decreases above, 1, |targets|
  {
    if targets != [] {
      var t := RunNode(p, o, targets[0], record, parent, log);
      var rest := FanOut(p, o, above, targets[1..], record, parent, t.log);
      RunNodeConserves(p, o, targets[0], record, parent, log, n);
      FanOutConserves(p, o, above, targets[1..], record, parent, t.log, n);
      BalancedTwice(p, log, t.log, rest.log, if targets[0] == n then 1 else 0, Count(targets[1..], n), n);
    }
  }

  lemma BalancedTwice(p: Pipeline, a: seq<Visit>, b: seq<Visit>, c: seq<Visit>, first: nat, second: nat, n: nat)
    requires Balanced(p, a, b, first, n) && Balanced(p, b, c, second, n)
    ensures Balanced(p, a, c, first + second, n)
  {
  }

  lemma {:induction false} SendAllConserves(p: Pipeline, o: Oracle, above: nat, targets: seq<nat>,
      records: seq<Value>, parent: Option<nat>, log: seq<Visit>, n: nat)
    requires Valid(p) && forall k :: 0 <= k < |targets| ==> targets[k] < |p.nodes| <= targets[k] + above
    requires !SendAll(p, o, above, targets, records, parent, log).panicked
    ensures Balanced(p, log, SendAll(p, o, above, targets, records, parent, log).log, |records| * Count(targets, n), n)
    decreases above, 2, |records|
  {
    if records != [] {
      var t := FanOut(p, o, above, targets, records[0], parent, log);
      FanOutConserves(p, o, above, targets, records[0], parent, log, n);
      SendAllConserves(p, o, above, targets, records[1..], parent, t.log, n);
      assert |records| * Count(targets, n) == Count(targets, n) + (|records| - 1) * Count(targets, n);
    }
  }

  /** Flow conservation: in a walk no panic cuts short, a node's records-in count is what the
      source sends it plus what every upstream visit put on an edge to it. */
  lemma FlowIsConserved(p: Pipeline, o: Oracle, record: Value, n: nat)
    requires Valid(p) && !Walk(p, o, record).panicked
    ensures In(Walk(p, o, record).log, n) == Count(p.sources, n) + SentTo(p, Walk(p, o, record).log, n)
  {
    FanOutConserves(p, o, |p.nodes|, p.sources, record, None, [], n);
  }

  // ----- the shape of a walk -----

  /** Where the record of visit `i` came from: the source, or an earlier visit of a node with an
      edge here. A panic is the last thing a walk does. */
  ghost predicate CameFrom(p: Pipeline, log: seq<Visit>, i: nat)
    requires i < |log|
  {
    && (match log[i].parent
        case None => log[i].node in p.sources
        case Some(q) => q < i && HasEdge(p.edges, log[q].node, log[i].node))
    && (log[i].outcome.Panicked? ==> i == |log| - 1)
  }

  ghost predicate IsTree(p: Pipeline, log: seq<Visit>) {
    forall i :: 0 <= i < |log| ==> CameFrom(p, log, i)
  }

  ghost predicate NoPanic(log: seq<Visit>) {
    forall i :: 0 <= i < |log| ==> !log[i].outcome.Panicked?
  }

  /** A visit may be handed a record by `parent`. */
  ghost predicate MayEnter(p: Pipeline, log: seq<Visit>, parent: Option<nat>, node: nat) {
    match parent
    case None => node in p.sources
    case Some(q) => q < |log| && HasEdge(p.edges, log[q].node, node)
  }

  ghost predicate Grows(p: Pipeline, log: seq<Visit>, t: Trail) {
    && log <= t.log
    && IsTree(p, t.log)
    && (t.panicked <==> !NoPanic(t.log))
    && (t.panicked ==> |t.log| > |log| && t.log[|t.log| - 1].outcome.Panicked?)
  }

  lemma ConsumersAreEdges(p: Pipeline, node: nat, output: Option<string>, k: nat)
    requires node < |p.edges| && k < |Consumers(p.edges[node], output)|
    ensures HasEdge(p.edges, node, Consumers(p.edges[node], output)[k])
  {
  }

  lemma {:induction false} RunNodeGrows(p: Pipeline, o: Oracle, node: nat, record: Value, parent: Option<nat>,
      log: seq<Visit>)
    requires Valid(p) && node < |p.nodes| && IsTree(p, log) && NoPanic(log) && MayEnter(p, log, parent, node)
    ensures Grows(p, log, RunNode(p, o, node, record, parent, log))
    ensures var t := RunNode(p, o, node, record, parent, log).log;
            |t| > |log| && t[|log|].node == node && t[|log|].record == record && t[|log|].parent == parent
    decreases |p.nodes| - node, 0
  {
    if p.nodes[node].SinkNode? {
      OneVisit(p, log, Visit(node, record, parent, SinkOutcome(o.sink(|log|, node, record))));
    } else {
      var out := o.stage(|log|, node, record);
      var s := SendingOf(p, node, out);
      var v := Visit(node, record, parent, OutcomeOf(p, node, out));
      OneVisit(p, log, v);
      if !v.outcome.Panicked? {
        forall k | 0 <= k < |s.targets|
          ensures MayEnter(p, log + [v], Some(|log|), s.targets[k])
        {
          if out.Routed? {
            ConsumersAreEdges(p, node, Some(out.output), k);
          } else {
            ConsumersAreEdges(p, node, None, k);
          }
        }
        SendAllGrows(p, o, |p.nodes| - node - 1, s.targets, s.records, Some(|log|), log + [v]);
      }
    }
  }

  lemma OneVisit(p: Pipeline, log: seq<Visit>, v: Visit)
    requires IsTree(p, log) && NoPanic(log) && MayEnter(p, log, v.parent, v.node)
    ensures Grows(p, log, Trail(log + [v], v.outcome.Panicked?))
  {
    var all := log + [v];
    forall i | 0 <= i < |all|
      ensures CameFrom(p, all, i)
    {
      if i < |log| {
        assert CameFrom(p, log, i) && all[i] == log[i];
      }
    }
    assert all[|log|] == v;
  }

  /** A fan-out runs every target, a failed one included, and each sees the record as it was
      at the fan-out. */
  lemma {:induction false} FanOutGrows(p: Pipeline, o: Oracle, above: nat, targets: seq<nat>, record: Value,
      parent: Option<nat>, log: seq<Visit>)
    requires Valid(p) && forall k :: 0 <= k < |targets| ==> targets[k] < |p.nodes| <= targets[k] + above
    requires IsTree(p, log) && NoPanic(log) && forall k :: 0 <= k < |targets| ==> MayEnter(p, log, parent, targets[k])
    ensures Grows(p, log, FanOut(p, o, above, targets, record, parent, log))
    ensures var t := FanOut(p, o, above, targets, record, parent, log);
            !t.panicked ==> forall k :: 0 <= k < |targets| ==> Branched(t.log, |log|, targets[k], record, parent)
    decreases above, 1, |targets|
  {
    if targets != [] {
      var t := RunNode(p, o, targets[0], record, parent, log);
      RunNodeGrows(p, o, targets[0], record, parent, log);
      if !t.panicked {
        forall k | 0 <= k < |targets[1..]|
          ensures MayEnter(p, t.log, parent, targets[1..][k])
        {
          assert MayEnter(p, log, parent, targets[k + 1]);
        }
        FanOutGrows(p, o, above, targets[1..], record, parent, t.log);
        var u := FanOut(p, o, above, targets[1..], record, parent, t.log);
        if !u.panicked {
          forall k | 0 <= k < |targets|
            ensures Branched(u.log, |log|, targets[k], record, parent)
          {
            if k == 0 {
              assert u.log[|log|] == t.log[|log|];
            } else {
              assert targets[1..][k - 1] == targets[k];
              assert Branched(u.log, |t.log|, targets[k], record, parent);
            }
          }
        }
      }
    }
  }

  /** From place `from` on, `node` was visited with `record`, handed over by `parent`. */
  predicate Branched(log: seq<Visit>, from: nat, node: nat, record: Value, parent: Option<nat>) {
    exists i :: from <= i < |log| && log[i].node == node && log[i].record == record && log[i].parent == parent
  }

  lemma {:induction false} SendAllGrows(p: Pipeline, o: Oracle, above: nat, targets: seq<nat>, records: seq<Value>,
      parent: Option<nat>, log: seq<Visit>)
    requires Valid(p) && forall k :: 0 <= k < |targets| ==> targets[k] < |p.nodes| <= targets[k] + above
    requires IsTree(p, log) && NoPanic(log) && forall k :: 0 <= k < |targets| ==> MayEnter(p, log, parent, targets[k])
    ensures Grows(p, log, SendAll(p, o, above, targets, records, parent, log))
    decreases above, 2, |records|
  {
    if records != [] {
      var t := FanOut(p, o, above, targets, records[0], parent, log);
      FanOutGrows(p, o, above, targets, records[0], parent, log);
      if !t.panicked {
        forall k | 0 <= k < |targets|
          ensures MayEnter(p, t.log, parent, targets[k])
        {
          assert MayEnter(p, log, parent, targets[k]);
        }
        SendAllGrows(p, o, above, targets, records[1..], parent, t.log);
      }
    }
  }

  /** Every walk is a tree rooted at the source, in visit order, along edges of the graph; and
      whatever failed in between, a walk no panic cuts short ran every source consumer. */
  lemma WalkIsTree(p: Pipeline, o: Oracle, record: Value)
    requires Valid(p)
    ensures IsTree(p, Walk(p, o, record).log)
    ensures var t := Walk(p, o, record);
            && (t.panicked <==> !NoPanic(t.log))
            && (t.panicked ==> t.log != [] && t.log[|t.log| - 1].outcome.Panicked?)
            && (!t.panicked ==> forall k :: 0 <= k < |p.sources| ==> Branched(t.log, 0, p.sources[k], record, None))
  {
    assert forall k :: 0 <= k < |p.sources| ==> p.sources[k] in p.sources;
    FanOutGrows(p, o, |p.nodes|, p.sources, record, None, []);
  }
}
