/** A built graph is one the walk can run, and a record routed to a declared label is always
    read (crates/core/src/dag.rs:172-293, crates/core/src/engine.rs:533-607). */
module Build {
  import opened Wrappers
  import opened Graph
  import Dag
  import Engine
  import J = Json
  import opened Flow

  /** The walk's view of a built graph; `policies` are the stages' answers to a state error. */
  function PipelineOf(dag: Dag.Dag, policies: seq<StateErrorPolicy>): Pipeline
    requires |policies| == |dag.nodes|
  {
    Pipeline(
      seq(|dag.nodes|, k requires 0 <= k < |dag.nodes| =>
        if dag.nodes[k].kind.Sink? then SinkNode else StageNode(policies[k])),
      dag.edges, dag.sourceSuccessors)
  }

  /** Whatever the builder returns, the walk runs on it and ends; its sinks are the configured sinks, every
      other node keeps its policy. */
  lemma BuiltIsWalkable(nodes: seq<Dag.NodeConfig>, dag: Dag.Dag, order: seq<nat>, policies: seq<StateErrorPolicy>)
    requires Dag.Renumbers(nodes, dag, order) && |policies| == |dag.nodes|
    ensures var p := PipelineOf(dag, policies);
            && Valid(p)
            && |p.nodes| == |nodes|
            && forall k :: 0 <= k < |p.nodes| ==>
                 && (p.nodes[k].SinkNode? <==> nodes[order[k]].kind.Sink?)
                 && (p.nodes[k].StageNode? ==> p.nodes[k].onStateError == policies[k])
  {
  }

  // ----- each visit ends as its stage or sink answered -----

  /** The answer to visit `i` decides its outcome. */
  ghost predicate AnsweredAt(p: Pipeline, o: Oracle, log: seq<Visit>, i: nat)
    requires Valid(p) && i < |log|
  {
    var v := log[i];
    && v.node < |p.nodes|
    && v.outcome == match p.nodes[v.node]
                    case SinkNode => SinkOutcome(o.sink(i, v.node, v.record))
                    case StageNode(_) => OutcomeOf(p, v.node, o.stage(i, v.node, v.record))
  }

  ghost predicate Answered(p: Pipeline, o: Oracle, log: seq<Visit>)
    requires Valid(p)
  {
    forall i :: 0 <= i < |log| ==> AnsweredAt(p, o, log, i)
  }

  lemma AnsweredOneMore(p: Pipeline, o: Oracle, log: seq<Visit>, v: Visit)
    requires Valid(p) && Answered(p, o, log) && AnsweredAt(p, o, log + [v], |log|)
    ensures Answered(p, o, log + [v])
  {
    forall i | 0 <= i < |log| ensures AnsweredAt(p, o, log + [v], i) {
      assert AnsweredAt(p, o, log, i);
    }
  }

  lemma {:induction false} RunNodeAnswered(p: Pipeline, o: Oracle, node: nat, record: J.Value, parent: Option<nat>,
      log: seq<Visit>)
    requires Valid(p) && node < |p.nodes| && Answered(p, o, log)
    ensures Answered(p, o, RunNode(p, o, node, record, parent, log).log)
    decreases |p.nodes| - node, 0
  {
    match p.nodes[node]
    case SinkNode =>
      AnsweredOneMore(p, o, log, Visit(node, record, parent, SinkOutcome(o.sink(|log|, node, record))));
    case StageNode(_) =>
      var out := o.stage(|log|, node, record);
      var v := Visit(node, record, parent, OutcomeOf(p, node, out));
      AnsweredOneMore(p, o, log, v);
      if !v.outcome.Panicked? {
        var s := SendingOf(p, node, out);
        SendAllAnswered(p, o, |p.nodes| - node - 1, s.targets, s.records, Some(|log|), log + [v]);
      }
  }

  lemma {:induction false} FanOutAnswered(
    p: Pipeline, o: Oracle, above: nat, targets: seq<nat>, record: J.Value, parent: Option<nat>, log: seq<Visit>)
    requires Valid(p) && (forall k :: 0 <= k < |targets| ==> targets[k] < |p.nodes| <= targets[k] + above)
      && Answered(p, o, log)
    ensures Answered(p, o, FanOut(p, o, above, targets, record, parent, log).log)
    decreases above, 1, |targets|
  {
    if targets != [] {
      RunNodeAnswered(p, o, targets[0], record, parent, log);
      var t := RunNode(p, o, targets[0], record, parent, log);
      if !t.panicked {
        FanOutAnswered(p, o, above, targets[1..], record, parent, t.log);
      }
    }
  }

  lemma {:induction false} SendAllAnswered(
    p: Pipeline, o: Oracle, above: nat, targets: seq<nat>, records: seq<J.Value>, parent: Option<nat>, log: seq<Visit>)
    requires Valid(p) && (forall k :: 0 <= k < |targets| ==> targets[k] < |p.nodes| <= targets[k] + above)
      && Answered(p, o, log)
    ensures Answered(p, o, SendAll(p, o, above, targets, records, parent, log).log)
    decreases above, 2, |records|
  {
    if records != [] {
      FanOutAnswered(p, o, above, targets, records[0], parent, log);
      var t := FanOut(p, o, above, targets, records[0], parent, log);
      if !t.panicked {
        SendAllAnswered(p, o, above, targets, records[1..], parent, t.log);
      }
    }
  }

  // ----- routes -----

  /** Routes name only labels their configuration declares. */
  ghost predicate RoutesAsDeclared(dag: Dag.Dag, o: Oracle) {
    forall i, k, record :: 0 <= k < |dag.nodes| && o.stage(i, k, record).Routed? ==>
      dag.nodes[k].kind.Route? && o.stage(i, k, record).output in dag.nodes[k].kind.labels
  }

  /** In a walk of a built graph no visit ends with a label nobody reads. */
  lemma NoRecordFallsOffARoute(
    nodes: seq<Dag.NodeConfig>, dag: Dag.Dag, order: seq<nat>, policies: seq<StateErrorPolicy>, o: Oracle,
      record: J.Value)
    requires Dag.ValidConfig(nodes) && Dag.Renumbers(nodes, dag, order) && |policies| == |dag.nodes|
    requires RoutesAsDeclared(dag, o)
    ensures Valid(PipelineOf(dag, policies))
    ensures forall i :: 0 <= i < |Walk(PipelineOf(dag, policies), o, record).log| ==>
      !Walk(PipelineOf(dag, policies), o, record).log[i].outcome.Unroutable?
  {
    BuiltIsWalkable(nodes, dag, order, policies);
    var p := PipelineOf(dag, policies);
    var log := Walk(p, o, record).log;
    FanOutAnswered(p, o, |p.nodes|, p.sources, record, None, []);
    forall i | 0 <= i < |log| ensures !log[i].outcome.Unroutable? {
      VisitIsRoutable(nodes, dag, order, policies, o, log, i);
    }
  }

  lemma VisitIsRoutable(
    nodes: seq<Dag.NodeConfig>, dag: Dag.Dag, order: seq<nat>, policies: seq<StateErrorPolicy>, o: Oracle,
      log: seq<Visit>, i: nat)
    requires Dag.ValidConfig(nodes) && Dag.Renumbers(nodes, dag, order) && |policies| == |dag.nodes|
      && RoutesAsDeclared(dag, o)
    requires Valid(PipelineOf(dag, policies)) && i < |log| && AnsweredAt(PipelineOf(dag, policies), o, log, i)
    ensures !log[i].outcome.Unroutable?
  {
    hide Dag.ValidConfig, Valid;
    var v := log[i];
    if !dag.nodes[v.node].kind.Sink? && o.stage(i, v.node, v.record).Routed? {
      DeclaredIsConsumed(nodes, dag, order, v.node, o.stage(i, v.node, v.record).output);
    }
  }

  lemma DeclaredIsConsumed(nodes: seq<Dag.NodeConfig>, dag: Dag.Dag, order: seq<nat>, k: nat, output: string)
    requires Dag.ValidConfig(nodes) && Dag.Renumbers(nodes, dag, order)
    requires k < |dag.nodes| && dag.nodes[k].kind.Route? && output in dag.nodes[k].kind.labels
    ensures Consumers(dag.edges[k], Some(output)) != []
  {
    Dag.DeclaredLabelsAreRead(nodes, dag, order, k, output);
    Engine.DeclaredLabelIsRoutable(dag.edges[k], output);
  }
}
