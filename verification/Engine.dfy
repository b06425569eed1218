/** The engine's walk of one record (crates/core/src/engine.rs:192-611). */
module Engine {
  // Shared records are copied only when another branch still needs them. The walk keeps
  // counters, the first failure, the span drafts and the settlement.

  import opened Wrappers
  import opened Graph
  import opened Json
  import opened Flow
  import T = Trace

  /** A shared record and how many references are held. */
  datatype Arc = Arc(record: Value, strong: nat)

  /** `entered`, `left`, `dropped` and `failed` are a node's records in, records out, drops and
      errors. */
  datatype Counts = Counts(entered: nat, left: nat, dropped: nat, failed: nat)

  datatype Failure = Failure(node: Option<nat>, kind: T.FailureKind)

  datatype Settlement = Ack | Nak(failure: Failure)

  /** A running node and its span. */
  datatype At = At(node: nat, span: nat)

  /** What the arrival says of a message (crates/core/src/meta.rs:198-221). */
  datatype Resolved = Walkable | MissingId | NotLog

  // ----- what a log of visits adds up to -----

  function FailureKindOf(outcome: Outcome): Option<T.FailureKind> {
    match outcome
    case WriteFailed => Some(T.SinkFailure)
    case StateErrorFailed => Some(T.StateFailure)
    case Unroutable(_) => Some(T.StageFailure)
    case Errored => Some(T.StageFailure)
    case _ => None
  }

  /** The first failure in visit order, panics apart. */
  function FirstFailure(log: seq<Visit>): Option<Failure> {
    if log == [] then None
    else
      var last := log[|log| - 1];
      var before := FirstFailure(log[..|log| - 1]);
      if before.Some? then before
      else if FailureKindOf(last.outcome).Some? then Some(Failure(Some(last.node), FailureKindOf(last.outcome).value))
      else None
  }

  function LeftBy(outcome: Outcome): nat {
    match outcome
    case Written | Passed | StateErrorPassed | RoutedTo(_) | Unroutable(_) => 1
    case SplitInto(n) => n
    case _ => 0
  }

  /** What one visit adds to its node's counters. */
  function CountsOf(outcome: Outcome): Counts {
    Counts(1, LeftBy(outcome), if outcome.Dropped? then 1 else 0, if FailureKindOf(outcome).Some? then 1 else 0)
  }

  function Plus(a: Counts, b: Counts): Counts {
    Counts(a.entered + b.entered, a.left + b.left, a.dropped + b.dropped, a.failed + b.failed)
  }

  function CountsAt(log: seq<Visit>, n: nat): Counts {
    if log == [] then Counts(0, 0, 0, 0)
    else
      var last := log[|log| - 1];
      var before := CountsAt(log[..|log| - 1], n);
      if last.node == n then Plus(before, CountsOf(last.outcome)) else before
  }

  /** Stages among `targets` but the last: who needs a copy of its own in a fan-out. */
  function StagesBeforeLast(p: Pipeline, targets: seq<nat>): nat {
    if |targets| <= 1 then 0
    else (if targets[0] < |p.nodes| && p.nodes[targets[0]].StageNode? then 1 else 0) + StagesBeforeLast(p, targets[1..])
  }

  /** Copies the fan-outs after a visit take. */
  function CopiesAfter(p: Pipeline, v: Visit): nat {
    if v.node >= |p.edges| then 0
    else
      match v.outcome
      case Passed | StateErrorPassed => StagesBeforeLast(p, Consumers(p.edges[v.node], None))
      case SplitInto(k) => k * StagesBeforeLast(p, Consumers(p.edges[v.node], None))
      case RoutedTo(output) => StagesBeforeLast(p, Consumers(p.edges[v.node], Some(output)))
      case _ => 0
  }

  function CopiesIn(p: Pipeline, log: seq<Visit>): nat {
    if log == [] then 0 else CopiesIn(p, log[..|log| - 1]) + CopiesAfter(p, log[|log| - 1])
  }

  function ResultOf(outcome: Outcome): Option<T.SpanResult> {
    match outcome
    case Written => Some(T.Written)
    case Passed => Some(T.Pass)
    case StateErrorPassed => Some(T.StateErrorPass)
    case SplitInto(n) => Some(T.Split(n))
    case Dropped => Some(T.Drop)
    case RoutedTo(output) => Some(T.Routed(output))
    case Panicked => None
    case _ => Some(T.Error(FailureKindOf(outcome).value))
  }

  function DraftsOf(log: seq<Visit>): (drafts: seq<T.Draft>)
    ensures |drafts| == |log|
    ensures forall i :: 0 <= i < |log| ==> drafts[i] == T.Draft(log[i].node, log[i].parent, ResultOf(log[i].outcome))
  {
    if log == [] then []
    else
      var last := log[|log| - 1];
      DraftsOf(log[..|log| - 1]) + [T.Draft(last.node, last.parent, ResultOf(last.outcome))]
  }

  /** One reference to `h` was given up; every other record and count is as it was, and every
      record made meanwhile is let go of. */
  ghost predicate Consumed(before: seq<Arc>, after: seq<Arc>, h: nat) {
    && h < |before| <= |after|
    && before[h].strong > 0
    && after[h] == before[h].(strong := before[h].strong - 1)
    && (forall i :: 0 <= i < |before| && i != h ==> after[i] == before[i])
    && (forall i :: |before| <= i < |after| ==> after[i].strong == 0)
  }

  /** Every record and count is as it was, and every record made meanwhile is let go of. */
  ghost predicate Kept(before: seq<Arc>, after: seq<Arc>) {
    && before <= after
    && (forall i :: |before| <= i < |after| ==> after[i].strong == 0)
  }

  lemma LendAndReturn(before: seq<Arc>, after: seq<Arc>, h: nat)
    requires h < |before| && Consumed(before[h := before[h].(strong := before[h].strong + 1)], after, h)
    ensures Kept(before, after)
  {
    var lent := before[h := before[h].(strong := before[h].strong + 1)];
    forall i | 0 <= i < |before|
      ensures after[i] == before[i]
    {
      assert i != h ==> lent[i] == before[i];
    }
  }

  lemma KeptTwice(a: seq<Arc>, b: seq<Arc>, c: seq<Arc>)
    requires Kept(a, b) && Kept(b, c)
    ensures Kept(a, c)
  {
    forall i | |a| <= i < |c|
      ensures c[i].strong == 0
    {
      if i < |b| {
        assert c[i] == b[i];
      }
    }
  }

  lemma KeptThenConsumed(a: seq<Arc>, b: seq<Arc>, c: seq<Arc>, h: nat)
    requires Kept(a, b) && Consumed(b, c, h) && h < |a|
    ensures Consumed(a, c, h)
  {
    assert forall i :: 0 <= i < |a| ==> b[i] == a[i];
    forall i | |a| <= i < |c|
      ensures c[i].strong == 0
    {
      if i < |b| {
        assert c[i] == b[i];
      }
    }
  }

  lemma ConsumedThenKept(a: seq<Arc>, b: seq<Arc>, c: seq<Arc>, h: nat)
    requires Consumed(a, b, h) && |b| == |a| && Kept(b, c)
    ensures Consumed(a, c, h)
  {
    assert forall i :: 0 <= i < |b| ==> c[i] == b[i];
  }

  lemma MakeAndDrop(before: seq<Arc>, made: seq<Arc>, record: Value, after: seq<Arc>)
    requires Kept(before, made) && Consumed(made + [Arc(record, 1)], after, |made|)
    ensures Kept(before, after)
  {
    assert forall i :: 0 <= i < |before| ==> made[i] == before[i];
  }

  lemma AppendCopies(p: Pipeline, log: seq<Visit>, v: Visit)
    ensures CopiesIn(p, log + [v]) == CopiesIn(p, log) + CopiesAfter(p, v)
  {
    var all := log + [v];
    assert all[..|all| - 1] == log && all[|all| - 1] == v;
  }

  /** The copies taken after a visit are those of its fan-outs, one for each record sent. */
  lemma CopiesOfSending(p: Pipeline, node: nat, record: Value, parent: Option<nat>, out: StageOutput)
    requires Flow.Valid(p) && node < |p.nodes| && p.nodes[node].StageNode?
    ensures var s := SendingOf(p, node, out);
            CopiesAfter(p, Visit(node, record, parent, OutcomeOf(p, node, out))) ==
              |s.records| * StagesBeforeLast(p, s.targets)
  {
    assert node < |p.edges|;
    hide Flow.Valid, Consumers;
    var s := SendingOf(p, node, out);
    var stages := StagesBeforeLast(p, s.targets);
    match out
    case Split(records) => assert s.records == records;
    case Pass(_) => assert |s.records| == 1 && 1 * stages == stages;
    case Routed(output, _) =>
      assert |s.records| == 1 && 1 * stages == stages;
      assert s.targets == [] ==> stages == 0;
    case StateError(_) =>
      assert |s.records| <= 1 && 1 * stages == stages && 0 * stages == 0;
    case _ => assert |s.records| == 0 && 0 * stages == 0;
  }

  lemma SinkTakesNoCopy(p: Pipeline, v: Visit, out: SinkOutput)
    requires v.outcome == SinkOutcome(out)
    ensures CopiesAfter(p, v) == 0 && (v.outcome.Panicked? <==> out.SinkPanic?)
  {
  }

  /** One walk. `log` is history: the visits made so far. */
  class Walker {
    const p: Pipeline
    const spans: T.TraceBuffer
    var arcs: seq<Arc>
    var copies: nat
    var counts: seq<Counts>
    /** The node that is running, for a panic to be charged to. */
    var at: Option<At>
    var failure: Option<Failure>
    ghost var log: seq<Visit>

    ghost predicate Valid()
      reads this, spans
    {
      && Flow.Valid(p)
      && Agrees()
      && spans.Valid()
      && spans.handles == |log|
      && (spans.tracing ==> spans.drafts == DraftsOf(log))
    }

    /** Counters and failure are what the visits add up to. */
    ghost predicate Agrees()
      reads this
    {
      && |counts| == |p.nodes|
      && (forall n :: 0 <= n < |counts| ==> counts[n] == CountsAt(log, n))
      && failure == FirstFailure(log)
    }

    constructor (p: Pipeline, spans: T.TraceBuffer)
      requires Flow.Valid(p) && spans.Valid() && spans.handles == 0 && spans.drafts == []
      ensures this.p == p && this.spans == spans && Valid()
      ensures log == [] && arcs == [] && copies == 0 && at == None
    {
      this.p := p;
      this.spans := spans;
      arcs := [];
      copies := 0;
      counts := seq(|p.nodes|, i => Counts(0, 0, 0, 0));
      at := None;
      failure := None;
      log := [];
    }

    /** `Arc::new`. */
    method Share(record: Value) returns (h: nat)
      modifies this`arcs
      ensures h == |old(arcs)| && arcs == old(arcs) + [Arc(record, 1)]
    {
      h := |arcs|;
      arcs := arcs + [Arc(record, 1)];
    }

    /** `Arc::unwrap_or_clone`: a copy only if another branch still shares the record. */
    method UnwrapOrClone(h: nat) returns (record: Value)
      requires h < |arcs| && arcs[h].strong > 0
      modifies this`arcs, this`copies
      ensures record == old(arcs)[h].record && Consumed(old(arcs), arcs, h) && |arcs| == |old(arcs)|
      ensures copies == old(copies) + if old(arcs)[h].strong > 1 then 1 else 0
    {
      record := arcs[h].record;
      if arcs[h].strong > 1 {
        copies := copies + 1;
      }
      arcs := arcs[h := arcs[h].(strong := arcs[h].strong - 1)];
    }

    /** `node` is running: counted in, its span open. */
    ghost predicate Running(node: nat, parent: Option<nat>)
      reads this, spans
    {
      && Flow.Valid(p) && node < |p.nodes| && at == Some(At(node, |log|))
      && |counts| == |p.nodes|
      && (forall n :: 0 <= n < |counts| ==>
            counts[n] == if n == node then Plus(CountsAt(log, n), Counts(1, 0, 0, 0)) else CountsAt(log, n))
      && failure == FirstFailure(log)
      && spans.Valid() && spans.handles == |log| + 1
      && (spans.tracing ==> spans.drafts == DraftsOf(log) + [T.Draft(node, parent, None)])
    }

    /** Count a record into `node` and open its span. */
    method Enter(node: nat, parent: Option<nat>) returns (span: nat)
      requires Valid() && node < |p.nodes|
      modifies this`counts, this`at, spans
      ensures Running(node, parent) && span == |log|
    {
      counts := counts[node := counts[node].(entered := counts[node].entered + 1)];
      span := spans.Open(node, parent);
      at := Some(At(node, span));
    }

    /** `Walk::fail`: count a failure at `node`, keep it if it is the first, close its span. */
    method Fail(node: nat, kind: T.FailureKind, span: nat)
      requires node < |counts| && spans.Valid()
      modifies this`counts, this`failure, spans`drafts
      ensures spans.Valid() && |spans.drafts| == old(|spans.drafts|)
      ensures span < |spans.drafts| ==>
        spans.drafts == old(spans.drafts)[span := old(spans.drafts)[span].(result := Some(T.Error(kind)))]
      ensures span >= |spans.drafts| ==> spans.drafts == old(spans.drafts)
      ensures counts == old(counts)[node := Plus(old(counts)[node], Counts(0, 0, 0, 1))]
      ensures failure == if old(failure).Some? then old(failure) else Some(Failure(Some(node), kind))
    {
      counts := counts[node := counts[node].(failed := counts[node].failed + 1)];
      if failure.None? {
        failure := Some(Failure(Some(node), kind));
      }
      spans.Close(span, T.Error(kind));
    }

    /** What the node's output does to its counters, its span and the walk's failure. A panic
        does nothing here: it unwinds. */
    method Charge(outcome: Outcome, node: nat, span: nat)
      requires node < |counts| && spans.Valid()
      modifies this`counts, this`failure, spans`drafts
      ensures spans.Valid()
      ensures counts == old(counts)[node := Plus(old(counts)[node], CountsOf(outcome).(entered := 0))]
      ensures failure ==
              if old(failure).Some? || FailureKindOf(outcome).None? then old(failure)
              else Some(Failure(Some(node), FailureKindOf(outcome).value))
      ensures spans.drafts ==
              if span < |old(spans.drafts)| && ResultOf(outcome).Some?
              then old(spans.drafts)[span := old(spans.drafts)[span].(result := ResultOf(outcome))]
              else old(spans.drafts)
    {
      counts := counts[node := Plus(counts[node], Counts(0, LeftBy(outcome), if outcome.Dropped? then 1 else 0, 0))];
      var kind := FailureKindOf(outcome);
      if kind.Some? {
        Fail(node, kind.value, span);
      } else if ResultOf(outcome).Some? {
        spans.Close(span, ResultOf(outcome).value);
      }
    }

    method Leave(ghost record: Value, ghost parent: Option<nat>, outcome: Outcome, node: nat, span: nat)
      requires Running(node, parent) && span == |log|
      modifies this`counts, this`failure, this`log, spans`drafts
      ensures Valid() && log == old(log) + [Visit(node, record, parent, outcome)]
    {
      Charge(outcome, node, span);
      log := log + [Visit(node, record, parent, outcome)];
      assert log[..|log| - 1] == old(log);
      if spans.tracing {
        assert spans.drafts == DraftsOf(old(log)) + [T.Draft(node, parent, ResultOf(outcome))];
      }
    }

    /** The walk's `copies` account for a step that began with `log0` and `copies0` and took
        `own` copies besides those of the visits it made. */
    ghost predicate CopiesAccountFor(log0: seq<Visit>, copies0: nat, own: nat)
      reads this
    {
      copies + CopiesIn(p, log0) == copies0 + own + CopiesIn(p, log)
    }

    /** `run_node` on a reference to the record at `h`, which it uses up. */
    method RunNode(o: Oracle, node: nat, h: nat, parent: Option<nat>) returns (panicked: bool)
      requires Valid() && node < |p.nodes| && h < |arcs| && arcs[h].strong > 0
      modifies this, spans
      ensures Valid()
      ensures Trail(log, panicked) == Flow.RunNode(p, o, node, old(arcs[h].record), parent, old(log))
      ensures panicked ==> log != [] && at == Some(At(log[|log| - 1].node, |log| - 1)) && at.value.node < |counts|
      ensures !panicked ==> Consumed(old(arcs), arcs, h)
      ensures !panicked ==>
        CopiesAccountFor(old(log), old(copies), if p.nodes[node].StageNode? && old(arcs[h].strong) > 1 then 1 else 0)
      decreases |p.nodes| - node, 0, 1
    {
      if p.nodes[node].SinkNode? {
        panicked := RunSink(o, node, h, parent);
      } else {
        panicked := RunStage(o, node, h, parent);
      }
    }

    method RunSink(o: Oracle, node: nat, h: nat, parent: Option<nat>) returns (panicked: bool)
      requires Valid() && node < |p.nodes| && p.nodes[node].SinkNode? && h < |arcs| && arcs[h].strong > 0
      modifies this, spans
      ensures Valid()
      ensures Trail(log, panicked) == Flow.RunNode(p, o, node, old(arcs[h].record), parent, old(log))
      ensures panicked ==> log != [] && at == Some(At(log[|log| - 1].node, |log| - 1)) && at.value.node < |counts|
      ensures !panicked ==> Consumed(old(arcs), arcs, h) && CopiesAccountFor(old(log), old(copies), 0)
    {
      hide CountsAt, DraftsOf, FirstFailure, CopiesIn;
      var span := Enter(node, parent);
      var record := arcs[h].record;
      var out := o.sink(span, node, record);
      arcs := arcs[h := arcs[h].(strong := arcs[h].strong - 1)];
      Leave(record, parent, SinkOutcome(out), node, span);
      AppendCopies(p, old(log), Visit(node, record, parent, SinkOutcome(out)));
      SinkTakesNoCopy(p, Visit(node, record, parent, SinkOutcome(out)), out);
      return out.SinkPanic?;
    }

    method RunStage(o: Oracle, node: nat, h: nat, parent: Option<nat>) returns (panicked: bool)
      requires Valid() && node < |p.nodes| && p.nodes[node].StageNode? && h < |arcs| && arcs[h].strong > 0
      modifies this, spans
      ensures Valid()
      ensures Trail(log, panicked) == Flow.RunNode(p, o, node, old(arcs[h].record), parent, old(log))
      ensures panicked ==> log != [] && at == Some(At(log[|log| - 1].node, |log| - 1)) && at.value.node < |counts|
      ensures !panicked ==> Consumed(old(arcs), arcs, h)
      ensures !panicked ==> CopiesAccountFor(old(log), old(copies), if old(arcs[h].strong) > 1 then 1 else 0)
      decreases |p.nodes| - node, 0, 0
    {
      hide CountsAt, DraftsOf, FirstFailure, CopiesIn;
      var owned := UnwrapOrClone(h);
      var span := Enter(node, parent);
      var out := o.stage(span, node, owned);
      var outcome := OutcomeOf(p, node, out);
      Leave(owned, parent, outcome, node, span);
      AppendCopies(p, old(log), log[|log| - 1]);
      if outcome.Panicked? {
        return true;
      }
      CopiesOfSending(p, node, owned, parent, out);
      var s := SendingOf(p, node, out);
      ghost var unwrapped := arcs;
      panicked := SendAll(o, |p.nodes| - node - 1, s.targets, s.records, Some(span));
      if !panicked {
        ConsumedThenKept(old(arcs), unwrapped, arcs, h);
      }
    }

    /** Each of `records` to all of `targets`. */
    method SendAll(o: Oracle, above: nat, targets: seq<nat>, records: seq<Value>, parent: Option<nat>)
        returns (panicked: bool)
      requires Valid() && forall k :: 0 <= k < |targets| ==> targets[k] < |p.nodes| <= targets[k] + above
      modifies this, spans
      ensures Valid()
      ensures Trail(log, panicked) == Flow.SendAll(p, o, above, targets, records, parent, old(log))
      ensures panicked ==> log != [] && at == Some(At(log[|log| - 1].node, |log| - 1)) && at.value.node < |counts|
      ensures !panicked ==> Kept(old(arcs), arcs)
      ensures !panicked ==> CopiesAccountFor(old(log), old(copies), |records| * StagesBeforeLast(p, targets))
      decreases above, 2, |records|
    {
      hide CountsAt, DraftsOf, FirstFailure, CopiesIn;
      var k := 0;
      assert records[0..] == records;
      while k < |records|
        invariant 0 <= k <= |records| && Valid() && Kept(old(arcs), arcs)
        invariant Flow.SendAll(p, o, above, targets, records[k..], parent, log) ==
          Flow.SendAll(p, o, above, targets, records, parent, old(log))
        invariant CopiesAccountFor(old(log), old(copies), k * StagesBeforeLast(p, targets))
      {
        ghost var made := arcs;
        var h := Share(records[k]);
        assert records[k..][1..] == records[k + 1..];
        panicked := FanOut(o, above, targets, h, parent);
        if panicked {
          return;
        }
        MakeAndDrop(old(arcs), made, records[k], arcs);
        assert (k + 1) * StagesBeforeLast(p, targets) ==
          k * StagesBeforeLast(p, targets) + StagesBeforeLast(p, targets);
        k := k + 1;
      }
      return false;
    }

    /** Run `node` on a reference of its own, keeping the walker's. */
    method LendTo(o: Oracle, node: nat, h: nat, parent: Option<nat>) returns (panicked: bool)
      requires Valid() && node < |p.nodes| && h < |arcs| && arcs[h].strong == 1
      modifies this, spans
      ensures Valid()
      ensures Trail(log, panicked) == Flow.RunNode(p, o, node, old(arcs[h].record), parent, old(log))
      ensures panicked ==> log != [] && at == Some(At(log[|log| - 1].node, |log| - 1)) && at.value.node < |counts|
      ensures !panicked ==> Kept(old(arcs), arcs)
      ensures !panicked ==> CopiesAccountFor(old(log), old(copies), if p.nodes[node].StageNode? then 1 else 0)
      decreases |p.nodes| - node, 0, 2
    {
      hide CountsAt, DraftsOf, FirstFailure, CopiesIn;
      arcs := arcs[h := arcs[h].(strong := arcs[h].strong + 1)];
      panicked := RunNode(o, node, h, parent);
      if !panicked {
        at := None;
        LendAndReturn(old(arcs), arcs, h);
      }
    }

    /** The part of `fan_out` that lends: every target but the last. */
    method LendToAllButLast(o: Oracle, above: nat, targets: seq<nat>, h: nat, parent: Option<nat>)
        returns (panicked: bool)
      requires Valid() && targets != [] && forall k :: 0 <= k < |targets| ==>
        targets[k] < |p.nodes| <= targets[k] + above
      requires h < |arcs| && arcs[h].strong == 1
      modifies this, spans
      ensures Valid()
      ensures panicked ==>
                && Trail(log, true) == Flow.FanOut(p, o, above, targets, old(arcs[h].record), parent, old(log))
                && log != [] && at == Some(At(log[|log| - 1].node, |log| - 1)) && at.value.node < |counts|
      ensures !panicked ==>
                && Flow.FanOut(p, o, above, targets[|targets| - 1..], old(arcs[h].record), parent, log) ==
                   Flow.FanOut(p, o, above, targets, old(arcs[h].record), parent, old(log))
                && Kept(old(arcs), arcs)
                && CopiesAccountFor(old(log), old(copies), StagesBeforeLast(p, targets))
      decreases above, 0, 3
    {
      hide CountsAt, DraftsOf, FirstFailure, CopiesIn;
      ghost var record := arcs[h].record;
      var k := 0;
      assert targets[0..] == targets;
      while k + 1 < |targets|
        invariant 0 <= k < |targets| && Valid() && Kept(old(arcs), arcs)
        invariant Flow.FanOut(p, o, above, targets[k..], record, parent, log) ==
          Flow.FanOut(p, o, above, targets, record, parent, old(log))
        invariant copies + CopiesIn(p, old(log)) + StagesBeforeLast(p, targets[k..]) ==
                  old(copies) + StagesBeforeLast(p, targets) + CopiesIn(p, log)
      {
        ghost var before := arcs;
        assert arcs[h] == old(arcs)[h];
        assert targets[k..][1..] == targets[k + 1..];
        panicked := LendTo(o, targets[k], h, parent);
        if panicked {
          return;
        }
        KeptTwice(old(arcs), before, arcs);
        k := k + 1;
      }
      return false;
    }

    /** `fan_out`: every target but the last gets a reference of its own, the last the walker's,
        so a lone branch never copies. */
    method FanOut(o: Oracle, above: nat, targets: seq<nat>, h: nat, parent: Option<nat>) returns (panicked: bool)
      requires Valid() && forall k :: 0 <= k < |targets| ==> targets[k] < |p.nodes| <= targets[k] + above
      requires h < |arcs| && arcs[h].strong == 1
      modifies this, spans
      ensures Valid()
      ensures Trail(log, panicked) == Flow.FanOut(p, o, above, targets, old(arcs[h].record), parent, old(log))
      ensures panicked ==> log != [] && at == Some(At(log[|log| - 1].node, |log| - 1)) && at.value.node < |counts|
      ensures !panicked ==> Consumed(old(arcs), arcs, h)
      ensures !panicked ==> CopiesAccountFor(old(log), old(copies), StagesBeforeLast(p, targets))
      decreases above, 1, |targets|
    {
      hide CountsAt, DraftsOf, FirstFailure, CopiesIn;
      if targets == [] {
        arcs := arcs[h := arcs[h].(strong := 0)];
        return false;
      }
      panicked := LendToAllButLast(o, above, targets, h, parent);
      if panicked {
        return;
      }
      var target := targets[|targets| - 1];
      assert targets[|targets| - 1..] == [target] && [target][1..] == [];
      ghost var last := arcs;
      assert arcs[h] == old(arcs)[h];
      panicked := RunNode(o, target, h, parent);
      if !panicked {
        at := None;
        KeptThenConsumed(old(arcs), last, arcs, h);
      }
    }
  }

  /** The failure a walk is nakked for: its first in visit order, the panic last of all. */
  function FailureOfWalk(t: Trail): Option<Failure>
    requires t.panicked ==> t.log != []
  {
    if FirstFailure(t.log).Some? then FirstFailure(t.log)
    else if t.panicked then Some(Failure(Some(t.log[|t.log| - 1].node), T.PanicFailure))
    else None
  }

  /** A node's counters after a walk: those of its visits, and an error for its panic. */
  function CountsOfWalk(t: Trail, n: nat): Counts
    requires t.panicked ==> t.log != []
  {
    Plus(CountsAt(t.log, n), Counts(0, 0, 0, if t.panicked && t.log[|t.log| - 1].node == n then 1 else 0))
  }

  function SettlementOf(failure: Option<Failure>): Settlement {
    if failure.Some? then Nak(failure.value) else Ack
  }

  /** The span a visit is shown as, panic or not. */
  function ShownAs(delivery: nat, handle: nat, v: Visit): T.NodeSpan {
    T.SpanOf(delivery, handle,
             T.Draft(v.node, v.parent, Some(if ResultOf(v.outcome).Some? then ResultOf(v.outcome).value
               else T.Error(T.PanicFailure))))
  }

  /** What a handled message leaves behind. */
  datatype Handled = Handled(settlement: Settlement, spans: seq<T.NodeSpan>, counts: seq<Counts>, copies: nat)

  /** `Walker::handle`: reject the message or walk its record, and settle it once. */
  method Handle(p: Pipeline, o: Oracle, resolved: Resolved, record: Value, spans: T.TraceBuffer, delivery: nat,
      keeps: bool) returns (h: Handled)
    requires Flow.Valid(p) && spans.Valid()
    modifies spans
    ensures resolved.MissingId? ==> h.settlement == Nak(Failure(None, T.MissingId))
    ensures resolved.NotLog? ==> h.settlement == Ack
    ensures resolved.Walkable? ==>
              var t := Flow.Walk(p, o, record);
              && (t.panicked ==> t.log != [])
              && h.settlement == SettlementOf(FailureOfWalk(t))
              && |h.counts| == |p.nodes|
              && (forall n :: 0 <= n < |h.counts| ==> h.counts[n] == CountsOfWalk(t, n))
              && (!t.panicked ==> h.copies == StagesBeforeLast(p, p.sources) + CopiesIn(p, t.log))
              && (keeps && spans.tracing ==>
                    && |h.spans| == |t.log|
                    && forall i :: 0 <= i < |t.log| ==> h.spans[i] == ShownAs(delivery, i, t.log[i]))
  {
    spans.Begin();
    if resolved.MissingId? {
      return Handled(Nak(Failure(None, T.MissingId)), [], [], 0);
    }
    if resolved.NotLog? {
      return Handled(Ack, [], [], 0);
    }
    var walker := new Walker(p, spans);
    var source := walker.Share(record);
    var panicked := walker.FanOut(o, |p.nodes|, p.sources, source, None);
    WalkIsTree(p, o, record);
    ghost var t := Flow.Walk(p, o, record);
    forall i | 0 <= i < |t.log| && t.log[i].outcome.Panicked?
      ensures i == |t.log| - 1
    {
      assert CameFrom(p, t.log, i);
    }
    Unwind(walker, panicked, t, delivery);
    var shown: seq<T.NodeSpan> := [];
    if keeps {
      shown := spans.Finish(delivery);
    }
    return Handled(SettlementOf(walker.failure), shown, walker.counts, walker.copies);
  }

  /** After a walk: a panic is charged to the node that was running, and every span still open is
      closed. */
  method Unwind(walker: Walker, panicked: bool, ghost t: Trail, ghost delivery: nat)
    requires walker.Valid() && t == Trail(walker.log, panicked)
    requires panicked <==> !NoPanic(t.log)
    requires forall i :: 0 <= i < |t.log| && t.log[i].outcome.Panicked? ==> i == |t.log| - 1
    requires panicked ==> t.log != [] && walker.at == Some(At(t.log[|t.log| - 1].node, |t.log| - 1))
    requires panicked ==> walker.at.value.node < |walker.counts|
    modifies walker, walker.spans
    ensures walker.spans.Valid() && walker.failure == FailureOfWalk(t) && walker.copies == old(walker.copies)
    ensures |walker.counts| == |walker.p.nodes| && forall n :: 0 <= n < |walker.counts| ==>
      walker.counts[n] == CountsOfWalk(t, n)
    ensures walker.spans.tracing ==>
              |walker.spans.drafts| == |t.log| && forall i :: 0 <= i < |t.log| ==>
                walker.spans.drafts[i].result.Some?
                  && T.SpanOf(delivery, i, walker.spans.drafts[i]) == ShownAs(delivery, i, t.log[i])
  {
    hide CountsAt, FirstFailure;
    ghost var drafts := walker.spans.drafts;
    if panicked {
      walker.Fail(walker.at.value.node, T.PanicFailure, walker.at.value.span);
      walker.spans.FailOpen(T.PanicFailure);
    }
    ClosedDrafts(t, panicked, drafts, walker.spans.drafts, walker.spans.tracing, delivery);
  }

  /** Every draft is closed before the trace is built, a panicking node's too. */
  lemma ClosedDrafts(t: Trail, panicked: bool, before: seq<T.Draft>, after: seq<T.Draft>, tracing: bool, delivery: nat)
    requires t.panicked == panicked && (panicked <==> !NoPanic(t.log)) && (panicked ==> t.log != [])
    requires tracing ==> before == DraftsOf(t.log)
    requires !panicked ==> after == before
    requires forall i :: 0 <= i < |t.log| && t.log[i].outcome.Panicked? ==> i == |t.log| - 1
    requires panicked && tracing ==>
               var last := |t.log| - 1;
               |after| == |before| &&
               forall i :: 0 <= i < |after| ==>
                             var closed :=
                               if i == last then before[i].(result := Some(T.Error(T.PanicFailure))) else before[i];
                             after[i] == if closed.result.Some? then closed
                               else closed.(result := Some(T.Error(T.PanicFailure)))
    ensures tracing ==> |after| == |t.log| && forall i :: 0 <= i < |after| ==>
                          after[i].result.Some? && T.SpanOf(delivery, i, after[i]) == ShownAs(delivery, i, t.log[i])
  {
  }

  // ----- what a handled message's counters and settlement mean -----

  /** The first failure is the first: nothing before it failed; none means no visit did. */
  lemma {:induction false} FirstFailureIsFirst(log: seq<Visit>)
    ensures FirstFailure(log).None? <==> forall i :: 0 <= i < |log| ==> FailureKindOf(log[i].outcome).None?
    ensures FirstFailure(log).Some? ==>
              exists i :: 0 <= i < |log|
                          && FailureKindOf(log[i].outcome).Some?
                          && FirstFailure(log).value == Failure(Some(log[i].node), FailureKindOf(log[i].outcome).value)
                          && forall j :: 0 <= j < i ==> FailureKindOf(log[j].outcome).None?
  {
    if log != [] {
      var init := log[..|log| - 1];
      FirstFailureIsFirst(init);
      assert forall i :: 0 <= i < |init| ==> init[i] == log[i];
      if FirstFailure(init).Some? {
        var i :| 0 <= i < |init|
                 && FailureKindOf(init[i].outcome).Some?
                 && FirstFailure(init).value == Failure(Some(init[i].node), FailureKindOf(init[i].outcome).value)
                 && forall j :: 0 <= j < i ==> FailureKindOf(init[j].outcome).None?;
        assert FailureKindOf(log[i].outcome).Some?;
      }
    }
  }

  /** A message is acked exactly when its walk was not cut short and no visit failed. */
  lemma AckedIffNothingFailed(p: Pipeline, o: Oracle, record: Value)
    requires Flow.Valid(p)
    ensures var t := Flow.Walk(p, o, record);
            && (t.panicked ==> t.log != [])
            && (SettlementOf(FailureOfWalk(t)) == Ack <==>
                !t.panicked && forall i :: 0 <= i < |t.log| ==> FailureKindOf(t.log[i].outcome).None?)
  {
    WalkIsTree(p, o, record);
    FirstFailureIsFirst(Flow.Walk(p, o, record).log);
  }

  lemma {:induction false} EnteredIsIn(log: seq<Visit>, n: nat)
    ensures CountsAt(log, n).entered == In(log, n)
  {
    if log != [] {
      EnteredIsIn(log[..|log| - 1], n);
    }
  }

  /** The engine's records-in counter of every node balances against what its upstreams put on
      their edges to it. */
  lemma CountersConserveFlow(p: Pipeline, o: Oracle, record: Value, n: nat)
    requires Flow.Valid(p) && !Flow.Walk(p, o, record).panicked
    ensures CountsAt(Flow.Walk(p, o, record).log, n).entered ==
            Count(p.sources, n) + SentTo(p, Flow.Walk(p, o, record).log, n)
  {
    EnteredIsIn(Flow.Walk(p, o, record).log, n);
    FlowIsConserved(p, o, record, n);
  }

  /** A visit no panic cut short counts as records out, as a drop or as an error, a split into
      nothing apart; as both out and error only for a label nobody reads; and a dropped record
      as nothing else. */
  lemma VisitIsCountedOnce(outcome: Outcome)
    requires !outcome.Panicked?
    ensures var c := CountsOf(outcome);
            && c.entered == 1
            && (c.left + c.dropped + c.failed > 0 <==> outcome != SplitInto(0))
            && (c.left > 0 && c.failed > 0 <==> outcome.Unroutable?)
            && (c.dropped > 0 ==> c.left == 0 && c.failed == 0)
  {
  }

  /** A declared label is never unroutable: whatever `Routed` names on one of the node's edges
      has a consumer (see `Dag.DeclaredLabelsAreRead`). */
  lemma {:induction false} DeclaredLabelIsRoutable(edges: seq<Edge>, output: string)
    ensures Consumers(edges, Some(output)) == [] <==> forall e :: 0 <= e < |edges| ==> edges[e].output != Some(output)
  {
    if edges != [] {
      DeclaredLabelIsRoutable(edges[1..], output);
      assert forall e :: 0 < e < |edges| ==> edges[1..][e - 1] == edges[e];
    }
  }

  /** Every exported trace, a panicked walk's too, is a tree in visit order along edges of the
      graph, with every span closed. */
  lemma ExportedTraceIsTree(p: Pipeline, o: Oracle, record: Value, delivery: nat, spans: seq<T.NodeSpan>)
    requires Flow.Valid(p)
    requires var t := Flow.Walk(p, o, record);
             |spans| == |t.log| && forall i :: 0 <= i < |spans| ==> spans[i] == ShownAs(delivery, i, t.log[i])
    ensures (forall i, j :: 0 <= i < j < |spans| ==> spans[i].id != spans[j].id) <==> |spans| <= 0xffff_ffff
    ensures forall i :: 0 <= i < |spans| ==>
                          (spans[i].parent == T.SpanRef(delivery, 0) && spans[i].node in p.sources) ||
                          exists j :: 0 <= j < i && spans[j].id == spans[i].parent
                            && HasEdge(p.edges, spans[j].node, spans[i].node)
  {
    WalkIsTree(p, o, record);
    var log := Flow.Walk(p, o, record).log;
    var drafts := seq(|log|, i requires 0 <= i < |log| =>
                                 T.Draft(log[i].node, log[i].parent,
                                         Some(if ResultOf(log[i].outcome).Some? then ResultOf(log[i].outcome).value
                                           else T.Error(T.PanicFailure))));
    forall i | 0 <= i < |log|
      ensures log[i].parent.Some? ==> log[i].parent.value < i
    {
      assert CameFrom(p, log, i);
    }
    T.FinishedTraceIsTree(delivery, drafts, spans);
    forall i | 0 <= i < |spans| && log[i].parent.Some?
      ensures exists j :: 0 <= j < i && spans[j].id == spans[i].parent && HasEdge(p.edges, spans[j].node, spans[i].node)
    {
      assert CameFrom(p, log, i);
      var j := log[i].parent.value;
      assert spans[j].id == spans[i].parent;
    }
    forall i | 0 <= i < |spans| && log[i].parent.None?
      ensures spans[i].parent == T.SpanRef(delivery, 0) && spans[i].node in p.sources
    {
      assert CameFrom(p, log, i);
    }
  }
}
