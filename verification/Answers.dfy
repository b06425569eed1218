/** What becomes of a message, told by what its stages and sinks answered: settlement, counters,
    spans, and which records reach which nodes (crates/core/src/engine.rs:402-448, 493-610). */
module Answers {
  import opened Wrappers
  import opened Graph
  import opened Json
  import opened Flow
  import opened Engine
  import Build
  import Sequences
  import T = Trace

  // ----- what an answer counts as -----

  /** What one visit adds to its node's counters, why it failed if it did, and how its span
      shows. */
  datatype Report = Report(left: nat, dropped: nat, failed: Option<T.FailureKind>, shown: T.SpanResult)

  function Failing(kind: T.FailureKind): Report {
    Report(0, 0, Some(kind), T.Error(kind))
  }

  /** Some edge of the node carries the label. */
  predicate IsRead(edges: seq<Edge>, output: string) {
    exists e :: 0 <= e < |edges| && edges[e].output == Some(output)
  }

  function OfSink(answer: SinkOutput): Report {
    match answer
    case Accepted => Report(1, 0, None, T.Written)
    case Refused => Failing(T.SinkFailure)
    case SinkPanic => Failing(T.PanicFailure)
  }

  function OfStage(policy: StateErrorPolicy, edges: seq<Edge>, answer: StageOutput): Report {
    match answer
    case Pass(_) => Report(1, 0, None, T.Pass)
    case StateError(_) => if policy == NakIt then Failing(T.StateFailure) else Report(1, 0, None, T.StateErrorPass)
    case Split(records) => Report(|records|, 0, None, T.Split(|records|))
    case Drop => Report(0, 1, None, T.Drop)
    case Routed(output, _) =>
      if IsRead(edges, output) then Report(1, 0, None, T.Routed(output))
      else Report(1, 0, Some(T.StageFailure), T.Error(T.StageFailure))
    case Error => Failing(T.StageFailure)
    case StagePanic => Failing(T.PanicFailure)
  }

  /** What visit `i` comes to. */
  function ReportOf(p: Pipeline, o: Oracle, v: Visit, i: nat): Report
    requires |p.edges| == |p.nodes| && v.node < |p.nodes|
  {
    match p.nodes[v.node]
    case SinkNode => OfSink(o.sink(i, v.node, v.record))
    case StageNode(policy) => OfStage(policy, p.edges[v.node], o.stage(i, v.node, v.record))
  }

  ghost predicate InGraph(p: Pipeline, log: seq<Visit>) {
    |p.edges| == |p.nodes| && forall i :: 0 <= i < |log| ==> log[i].node < |p.nodes|
  }

  /** The counters of a node: one more record in for each of its visits, and what they come to. */
  function Tally(p: Pipeline, o: Oracle, log: seq<Visit>, n: nat): Counts
    requires InGraph(p, log)
  {
    if log == [] then Counts(0, 0, 0, 0)
    else
      var i := |log| - 1;
      var before, r := Tally(p, o, log[..i], n), ReportOf(p, o, log[i], i);
      if log[i].node != n then before
      else Counts(before.entered + 1, before.left + r.left, before.dropped + r.dropped,
                  before.failed + if r.failed.Some? then 1 else 0)
  }

  /** No visit failed and the message is acked, or it is nakked for the first one that did. */
  ghost predicate SettledBy(p: Pipeline, o: Oracle, log: seq<Visit>, settlement: Settlement)
    requires InGraph(p, log)
  {
    match settlement
    case Ack => forall i :: 0 <= i < |log| ==> ReportOf(p, o, log[i], i).failed.None?
    case Nak(failure) =>
      exists i ::
        && 0 <= i < |log|
        && ReportOf(p, o, log[i], i).failed == Some(failure.kind)
        && failure.node == Some(log[i].node)
        && forall j :: 0 <= j < i ==> ReportOf(p, o, log[j], j).failed.None?
  }

  // ----- the engine's outcomes say just that -----

  /** The outcome the engine records for an answer, put as a report. */
  lemma OutcomeIsReport(p: Pipeline, o: Oracle, log: seq<Visit>, i: nat)
    requires Valid(p) && i < |log| && Build.AnsweredAt(p, o, log, i)
    ensures var outcome, r := log[i].outcome, ReportOf(p, o, log[i], i);
            && (outcome.Panicked? <==> r.failed == Some(T.PanicFailure))
            && r.left == LeftBy(outcome)
            && r.dropped == (if outcome.Dropped? then 1 else 0)
            && (!outcome.Panicked? ==> r.failed == FailureKindOf(outcome) && ResultOf(outcome) == Some(r.shown))
            && (outcome.Panicked? ==> r.shown == T.Error(T.PanicFailure) && ResultOf(outcome) == None)
  {
    hide Consumers;
    var v := log[i];
    if p.nodes[v.node].StageNode? && o.stage(i, v.node, v.record).Routed? {
      DeclaredLabelIsRoutable(p.edges[v.node], o.stage(i, v.node, v.record).output);
    }
  }

  lemma AnsweredIsInGraph(p: Pipeline, o: Oracle, log: seq<Visit>)
    requires Valid(p) && Build.Answered(p, o, log)
    ensures InGraph(p, log)
  {
    forall i | 0 <= i < |log|
      ensures log[i].node < |p.nodes|
    {
      assert Build.AnsweredAt(p, o, log, i);
    }
  }

  lemma AnsweredPrefix(p: Pipeline, o: Oracle, log: seq<Visit>, k: nat)
    requires Valid(p) && Build.Answered(p, o, log) && k <= |log|
    ensures Build.Answered(p, o, log[..k])
  {
    forall i | 0 <= i < k
      ensures Build.AnsweredAt(p, o, log[..k], i)
    {
      assert Build.AnsweredAt(p, o, log, i);
    }
  }

  lemma {:induction false} CountsAreTally(p: Pipeline, o: Oracle, log: seq<Visit>, n: nat)
    requires Valid(p) && Build.Answered(p, o, log) && InGraph(p, log) && NoPanic(log)
    ensures Tally(p, o, log, n) == CountsAt(log, n)
  {
    hide Valid, ReportOf, LeftBy, FailureKindOf;
    if log != [] {
      var last := |log| - 1;
      AnsweredPrefix(p, o, log, last);
      CountsAreTally(p, o, log[..last], n);
      assert Build.AnsweredAt(p, o, log, last);
      OutcomeIsReport(p, o, log, last);
    }
  }

  lemma WalkIsTallied(p: Pipeline, o: Oracle, t: Trail, n: nat)
    requires Valid(p) && Build.Answered(p, o, t.log) && InGraph(p, t.log)
    requires forall i :: 0 <= i < |t.log| ==> (t.log[i].outcome.Panicked? <==> t.panicked && i == |t.log| - 1)
    requires t.panicked ==> t.log != []
    ensures CountsOfWalk(t, n) == Tally(p, o, t.log, n)
  {
    hide Valid, ReportOf;
    if t.panicked {
      var last := |t.log| - 1;
      AnsweredPrefix(p, o, t.log, last);
      CountsAreTally(p, o, t.log[..last], n);
      assert Build.AnsweredAt(p, o, t.log, last);
      OutcomeIsReport(p, o, t.log, last);
    } else {
      CountsAreTally(p, o, t.log, n);
    }
  }

  lemma WalkIsSettled(p: Pipeline, o: Oracle, t: Trail)
    requires Valid(p) && Build.Answered(p, o, t.log) && InGraph(p, t.log)
    requires forall i :: 0 <= i < |t.log| ==> (t.log[i].outcome.Panicked? <==> t.panicked && i == |t.log| - 1)
    requires t.panicked ==> t.log != []
    ensures SettledBy(p, o, t.log, SettlementOf(FailureOfWalk(t)))
  {
    hide Valid, ReportOf, FirstFailure;
    forall i | 0 <= i < |t.log|
      ensures ReportOf(p, o, t.log[i], i).failed ==
              if t.log[i].outcome.Panicked? then Some(T.PanicFailure) else FailureKindOf(t.log[i].outcome)
    {
      assert Build.AnsweredAt(p, o, t.log, i);
      OutcomeIsReport(p, o, t.log, i);
    }
    FirstFailureIsFirst(t.log);
    if FirstFailure(t.log).None? && t.panicked {
      var last := |t.log| - 1;
      assert ReportOf(p, o, t.log[last], last).failed == Some(T.PanicFailure);
    }
  }

  /** A handled message is settled, counted and traced by what its stages and sinks answered alone:
      acked just when no sink refused, no stage failed, no state error met a node that naks it, no
      record was routed under a label that no edge carries, and nothing panicked; else nakked for the
      first of these. The walk is cut short just when something panicked. */
  lemma SettledByAnswers(p: Pipeline, o: Oracle, record: Value)
    requires Valid(p)
    ensures var t := Walk(p, o, record);
            && InGraph(p, t.log)
            && (t.panicked ==> t.log != [])
            && (t.panicked <==>
                exists i :: 0 <= i < |t.log| && ReportOf(p, o, t.log[i], i).failed == Some(T.PanicFailure))
            && SettledBy(p, o, t.log, SettlementOf(FailureOfWalk(t)))
            && (forall n: nat :: CountsOfWalk(t, n) == Tally(p, o, t.log, n))
            && (forall i, delivery :: 0 <= i < |t.log| ==>
                  var span := ShownAs(delivery, i, t.log[i]);
                  span.node == t.log[i].node && span.result == ReportOf(p, o, t.log[i], i).shown)
  {
    hide Valid, FanOut, ReportOf, CountsOfWalk, FailureOfWalk;
    var t := Walk(p, o, record);
    WalkIsAnswered(p, o, record);
    AnsweredIsInGraph(p, o, t.log);
    WalkIsTree(p, o, record);
    forall i | 0 <= i < |t.log|
      ensures t.log[i].outcome.Panicked? <==> t.panicked && i == |t.log| - 1
    {
      assert CameFrom(p, t.log, i);
    }
    WalkIsSettled(p, o, t);
    forall n: nat
      ensures CountsOfWalk(t, n) == Tally(p, o, t.log, n)
    {
      WalkIsTallied(p, o, t, n);
    }
    forall i | 0 <= i < |t.log|
      ensures t.log[i].outcome.Panicked? <==> ReportOf(p, o, t.log[i], i).failed == Some(T.PanicFailure)
      ensures forall delivery ::
        ShownAs(delivery, i, t.log[i]).node == t.log[i].node
        && ShownAs(delivery, i, t.log[i]).result == ReportOf(p, o, t.log[i], i).shown
    {
      assert Build.AnsweredAt(p, o, t.log, i);
      OutcomeIsReport(p, o, t.log, i);
    }
    if t.panicked {
      assert t.log[|t.log| - 1].outcome.Panicked?;
    }
  }

  lemma WalkIsAnswered(p: Pipeline, o: Oracle, record: Value)
    requires Valid(p)
    ensures Build.Answered(p, o, Walk(p, o, record).log)
  {
    Build.FanOutAnswered(p, o, |p.nodes|, p.sources, record, None, []);
  }

  // ----- which records reach which nodes -----

  /** A record handed to a node. */
  datatype Handing = Handing(node: nat, record: Value)

  /** `record` along each of the edges a reader of `output` has, in edge order; along all of them when
      no label is named. */
  function Along(edges: seq<Edge>, output: Option<string>, record: Value): seq<Handing> {
    if edges == [] then []
    else
      (if output == None || edges[0].output == output then [Handing(edges[0].target, record)] else [])
      + Along(edges[1..], output, record)
  }

  /** Each record in turn along all the edges. */
  function EachAlong(edges: seq<Edge>, records: seq<Value>): seq<Handing> {
    if records == [] then [] else Along(edges, None, records[0]) + EachAlong(edges, records[1..])
  }

  /** What an answer hands on. */
  function HandedOn(policy: StateErrorPolicy, edges: seq<Edge>, answer: StageOutput): seq<Handing> {
    match answer
    case Pass(record) => Along(edges, None, record)
    case StateError(record) => if policy == NakIt then [] else Along(edges, None, record)
    case Split(records) => EachAlong(edges, records)
    case Routed(output, record) => Along(edges, Some(output), record)
    case Drop | Error | StagePanic => []
  }

  function HandedBy(p: Pipeline, o: Oracle, v: Visit, i: nat): seq<Handing>
    requires |p.edges| == |p.nodes| && v.node < |p.nodes|
  {
    match p.nodes[v.node]
    case SinkNode => []
    case StageNode(policy) => HandedOn(policy, p.edges[v.node], o.stage(i, v.node, v.record))
  }

  /** The visits that took their record from visit `parent`, or from the source, in visit order. */
  function TakenFrom(log: seq<Visit>, parent: Option<nat>): seq<Handing> {
    if log == [] then []
    else
      var last := log[|log| - 1];
      TakenFrom(log[..|log| - 1], parent) + if last.parent == parent then [Handing(last.node, last.record)] else []
  }

  lemma TakenOneMore(log: seq<Visit>, v: Visit, parent: Option<nat>)
    ensures TakenFrom(log + [v], parent) ==
            TakenFrom(log, parent) + if v.parent == parent then [Handing(v.node, v.record)] else []
  {
    var all := log + [v];
    assert all[..|all| - 1] == log && all[|all| - 1] == v;
  }

  /** Records come from earlier visits only. */
  predicate ParentsBefore(log: seq<Visit>) {
    forall i :: 0 <= i < |log| && log[i].parent.Some? ==> log[i].parent.value < i
  }

  lemma {:induction false} NoneTakenYet(log: seq<Visit>, i: nat)
    requires ParentsBefore(log) && i >= |log|
    ensures TakenFrom(log, Some(i)) == []
  {
    if log != [] {
      NoneTakenYet(log[..|log| - 1], i);
    }
  }

  /** `record` to each of `targets`. */
  function ToEach(targets: seq<nat>, record: Value): seq<Handing> {
    if targets == [] then [] else [Handing(targets[0], record)] + ToEach(targets[1..], record)
  }

  function EachToEach(targets: seq<nat>, records: seq<Value>): seq<Handing> {
    if records == [] then [] else ToEach(targets, records[0]) + EachToEach(targets, records[1..])
  }

  /** From `before` to `after`: `parent` handed on `handed`, older visits nothing else, and every new
      visit what its answer says. */
  ghost predicate HandsOn(p: Pipeline, o: Oracle, before: seq<Visit>, after: seq<Visit>, parent: Option<nat>,
      handed: seq<Handing>)
  {
    && before <= after
    && ParentsBefore(after)
    && InGraph(p, after)
    && (forall q: Option<nat> :: (q.Some? ==> q.value < |before|) ==>
          TakenFrom(after, q) == TakenFrom(before, q) + if q == parent then handed else [])
    && (forall i :: |before| <= i < |after| ==> TakenFrom(after, Some(i)) == HandedBy(p, o, after[i], i))
  }

  ghost predicate Entering(log: seq<Visit>, parent: Option<nat>) {
    ParentsBefore(log) && (parent.Some? ==> parent.value < |log|)
  }

  lemma {:induction false} RunNodeHandsOn(p: Pipeline, o: Oracle, node: nat, record: Value, parent: Option<nat>,
      log: seq<Visit>)
    requires Valid(p) && node < |p.nodes| && !RunNode(p, o, node, record, parent, log).panicked
    requires Entering(log, parent) && InGraph(p, log)
    ensures HandsOn(p, o, log, RunNode(p, o, node, record, parent, log).log, parent, [Handing(node, record)])
    decreases |p.nodes| - node, 0
  {
    hide Valid, HandsOn, TakenFrom, HandedOn, SendingOf, OutcomeOf, SinkOutcome, ParentsBefore, InGraph;
    match p.nodes[node]
    case SinkNode =>
      var v := Visit(node, record, parent, SinkOutcome(o.sink(|log|, node, record)));
      EdgesForNodes(p);
      OneVisitHandsOn(p, log, v);
      HandsOnNothing(p, o, log + [v], Some(|log|));
      VisitThenSends(p, o, log, v, log + [v], []);
    case StageNode(policy) =>
      var out := o.stage(|log|, node, record);
      var s := SendingOf(p, node, out);
      var v := Visit(node, record, parent, OutcomeOf(p, node, out));
      EdgesForNodes(p);
      OneVisitHandsOn(p, log, v);
      SendAllHandsOn(p, o, |p.nodes| - node - 1, s.targets, s.records, Some(|log|), log + [v]);
      SendingIsHandedOn(p, node, policy, out);
      VisitThenSends(p, o, log, v, RunNode(p, o, node, record, parent, log).log, EachToEach(s.targets, s.records));
  }

  lemma EdgesForNodes(p: Pipeline)
    requires Valid(p)
    ensures |p.edges| == |p.nodes|
  {
  }

  lemma VisitThenSends(p: Pipeline, o: Oracle, log: seq<Visit>, v: Visit, after: seq<Visit>, handed: seq<Handing>)
    requires |p.edges| == |p.nodes| && v.node < |p.nodes| && handed == HandedBy(p, o, v, |log|)
    requires Entering(log, v.parent) && HandsOn(p, o, log + [v], after, Some(|log|), handed)
    ensures HandsOn(p, o, log, after, v.parent, [Handing(v.node, v.record)])
  {
    hide HandedBy, TakenFrom;
    forall q: Option<nat> | q.Some? ==> q.value < |log|
      ensures TakenFrom(after, q) ==
              TakenFrom(log, q) + if q == v.parent then [Handing(v.node, v.record)] else []
    {
      TakenOneMore(log, v, q);
      assert TakenFrom(after, q) == TakenFrom(log + [v], q) + [];
    }
    TakenOneMore(log, v, Some(|log|));
    NoneTakenYet(log, |log|);
    assert after[|log|] == v;
    assert TakenFrom(after, Some(|log|)) == [] + [] + handed;
  }

  lemma OneVisitHandsOn(p: Pipeline, log: seq<Visit>, v: Visit)
    requires Entering(log, v.parent) && InGraph(p, log) && v.node < |p.nodes|
    ensures ParentsBefore(log + [v]) && InGraph(p, log + [v])
  {
  }

  lemma {:induction false} FanOutHandsOn(p: Pipeline, o: Oracle, above: nat, targets: seq<nat>, record: Value,
      parent: Option<nat>, log: seq<Visit>)
    requires Valid(p) && forall k :: 0 <= k < |targets| ==> targets[k] < |p.nodes| <= targets[k] + above
    requires !FanOut(p, o, above, targets, record, parent, log).panicked
    requires Entering(log, parent) && InGraph(p, log)
    ensures HandsOn(p, o, log, FanOut(p, o, above, targets, record, parent, log).log, parent, ToEach(targets, record))
    decreases above, 1, |targets|
  {
    if targets == [] {
      HandsOnNothing(p, o, log, parent);
    } else {
      var t := RunNode(p, o, targets[0], record, parent, log);
      RunNodeHandsOn(p, o, targets[0], record, parent, log);
      FanOutHandsOn(p, o, above, targets[1..], record, parent, t.log);
      HandsOnTwice(p, o, log, t.log, FanOut(p, o, above, targets[1..], record, parent, t.log).log, parent,
                   [Handing(targets[0], record)], ToEach(targets[1..], record));
    }
  }

  lemma HandsOnNothing(p: Pipeline, o: Oracle, log: seq<Visit>, parent: Option<nat>)
    requires ParentsBefore(log) && InGraph(p, log)
    ensures HandsOn(p, o, log, log, parent, [])
  {
  }

  lemma HandsOnTwice(p: Pipeline, o: Oracle, a: seq<Visit>, b: seq<Visit>, c: seq<Visit>, parent: Option<nat>,
      first: seq<Handing>, second: seq<Handing>)
    requires HandsOn(p, o, a, b, parent, first) && HandsOn(p, o, b, c, parent, second)
    requires parent.Some? ==> parent.value < |a|
    ensures HandsOn(p, o, a, c, parent, first + second)
  {
    hide TakenFrom, HandedBy;
    forall q: Option<nat> | q.Some? ==> q.value < |a|
      ensures TakenFrom(c, q) == TakenFrom(a, q) + if q == parent then first + second else []
    {
      Sequences.Associative(TakenFrom(a, q), first, second);
    }
    forall i | |a| <= i < |c|
      ensures TakenFrom(c, Some(i)) == HandedBy(p, o, c[i], i)
    {
      if i < |b| {
        assert Some(i) != parent;
        assert c[i] == b[i];
        assert TakenFrom(c, Some(i)) == TakenFrom(b, Some(i)) + [];
      }
    }
  }

  lemma {:induction false} SendAllHandsOn(p: Pipeline, o: Oracle, above: nat, targets: seq<nat>,
      records: seq<Value>, parent: Option<nat>, log: seq<Visit>)
    requires Valid(p) && forall k :: 0 <= k < |targets| ==> targets[k] < |p.nodes| <= targets[k] + above
    requires !SendAll(p, o, above, targets, records, parent, log).panicked
    requires Entering(log, parent) && InGraph(p, log)
    ensures HandsOn(p, o, log, SendAll(p, o, above, targets, records, parent, log).log, parent,
              EachToEach(targets, records))
    decreases above, 2, |records|
  {
    if records == [] {
      HandsOnNothing(p, o, log, parent);
    } else {
      var t := FanOut(p, o, above, targets, records[0], parent, log);
      FanOutHandsOn(p, o, above, targets, records[0], parent, log);
      SendAllHandsOn(p, o, above, targets, records[1..], parent, t.log);
      HandsOnTwice(p, o, log, t.log, SendAll(p, o, above, targets, records[1..], parent, t.log).log, parent,
                   ToEach(targets, records[0]), EachToEach(targets, records[1..]));
    }
  }

  lemma {:induction false} AlongIsToEach(edges: seq<Edge>, output: Option<string>, record: Value)
    ensures ToEach(Consumers(edges, output), record) == Along(edges, output, record)
  {
    if edges != [] {
      AlongIsToEach(edges[1..], output, record);
      if output.None? || edges[0].output == output {
        var rest := Consumers(edges[1..], output);
        assert Consumers(edges, output) == [edges[0].target] + rest;
        assert Consumers(edges, output)[1..] == rest;
      } else {
        assert Consumers(edges, output) == Consumers(edges[1..], output);
      }
    }
  }

  lemma {:induction false} EachAlongIsToEach(edges: seq<Edge>, records: seq<Value>)
    ensures EachToEach(Consumers(edges, None), records) == EachAlong(edges, records)
  {
    if records != [] {
      AlongIsToEach(edges, None, records[0]);
      EachAlongIsToEach(edges, records[1..]);
    }
  }

  /** What the engine sends for an answer is what the answer hands on. */
  lemma SendingIsHandedOn(p: Pipeline, node: nat, policy: StateErrorPolicy, out: StageOutput)
    requires Valid(p) && node < |p.nodes| && p.nodes[node] == StageNode(policy)
    ensures var s := SendingOf(p, node, out);
            EachToEach(s.targets, s.records) == HandedOn(policy, p.edges[node], out)
  {
    hide Consumers, ToEach, Along, EachAlong;
    var edges := p.edges[node];
    match out
    case Pass(r) =>
      AlongIsToEach(edges, None, r);
      OneToEach(Consumers(edges, None), r);
    case StateError(r) =>
      AlongIsToEach(edges, None, r);
      OneToEach(Consumers(edges, None), r);
    case Split(rs) => EachAlongIsToEach(edges, rs);
    case Routed(output, r) =>
      AlongIsToEach(edges, Some(output), r);
      OneToEach(Consumers(edges, Some(output)), r);
    case _ =>
  }

  lemma OneToEach(targets: seq<nat>, record: Value)
    ensures EachToEach(targets, [record]) == ToEach(targets, record)
  {
    assert [record][1..] == [];
    assert EachToEach(targets, [record][1..]) == [];
  }

  /** In a walk no panic cuts short every record that an answer holds reaches, in order, the nodes on
      the edges it goes along, and nothing else reaches any node: not what another visit held, and
      nothing after a drop, a failure or a sink. */
  lemma RecordsGoWhereAnswersSay(p: Pipeline, o: Oracle, record: Value)
    requires Valid(p) && !Walk(p, o, record).panicked
    ensures var log := Walk(p, o, record).log;
            && InGraph(p, log)
            && TakenFrom(log, None) == ToEach(p.sources, record)
            && forall i :: 0 <= i < |log| ==> TakenFrom(log, Some(i)) == HandedBy(p, o, log[i], i)
  {
    hide FanOut, HandedBy;
    FanOutHandsOn(p, o, |p.nodes|, p.sources, record, None, []);
    assert TakenFrom([], None) == [];
  }
}
