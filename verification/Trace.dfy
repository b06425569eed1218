/** The span drafts of one walk and the trace built from them
    (crates/core/src/trace.rs:337-500). */
module Trace {
  import opened Wrappers

  const U32_MAX: nat := 0xffff_ffff

  datatype FailureKind = StageFailure | SinkFailure | StateFailure | PanicFailure | MissingId

  datatype SpanResult =
    | Written
    | Pass
    | StateErrorPass
    | Split(n: nat)
    | Drop
    | Routed(output: string)
    | Error(kind: FailureKind)

  /** One node's span while the walk runs; no result while the node runs. */
  datatype Draft = Draft(node: nat, parent: Option<nat>, result: Option<SpanResult>)

  /** What a span id is made from (`Hash.RawSpanId`); visit 0 is the delivery's own span. */
  datatype SpanRef = SpanRef(delivery: nat, visit: nat)

  datatype NodeSpan = NodeSpan(id: SpanRef, parent: SpanRef, node: nat, result: SpanResult)

  /** A handle's visit number, saturating in 32 bits. */
  function VisitOf(handle: nat): nat {
    if handle >= U32_MAX then U32_MAX else handle + 1
  }

  /** The span a finished walk shows for a draft; one never closed shows as a panic. */
  function SpanOf(delivery: nat, handle: nat, d: Draft): NodeSpan {
    NodeSpan(SpanRef(delivery, VisitOf(handle)),
             SpanRef(delivery, if d.parent.Some? then VisitOf(d.parent.value) else 0),
             d.node,
             if d.result.Some? then d.result.value else Error(PanicFailure))
  }

  class TraceBuffer {
    const tracing: bool
    var drafts: seq<Draft>
    /** Handles given out this walk. */
    var handles: nat

    ghost predicate Valid()
      reads this
    {
      |drafts| == if tracing then handles else 0
    }

    constructor (tracing: bool)
      ensures this.tracing == tracing && Valid() && handles == 0
    {
      this.tracing := tracing;
      drafts := [];
      handles := 0;
    }

    method Begin()
      requires Valid()
      modifies this
      ensures Valid() && handles == 0 && drafts == []
    {
      handles := 0;
      if !tracing {
        return;
      }
      drafts := [];
    }

    method Open(node: nat, parent: Option<nat>) returns (handle: nat)
      requires Valid()
      modifies this
      ensures Valid() && handle == old(handles) && handles == handle + 1
      ensures drafts == if tracing then old(drafts) + [Draft(node, parent, None)] else old(drafts)
    {
      handle := handles;
      handles := handles + 1;
      if !tracing {
        return;
      }
      drafts := drafts + [Draft(node, parent, None)];
    }

    method Close(handle: nat, result: SpanResult)
      requires Valid()
      modifies this`drafts
      ensures Valid() && |drafts| == old(|drafts|)
      ensures handle < |drafts| ==> drafts == old(drafts)[handle := old(drafts)[handle].(result := Some(result))]
      ensures handle >= |drafts| ==> drafts == old(drafts)
    {
      if !tracing {
        return;
      }
      if handle < |drafts| {
        drafts := drafts[handle := drafts[handle].(result := Some(result))];
      }
    }

    /** Close every span still open, as failed: a panic unwound past them. */
    method FailOpen(kind: FailureKind)
      requires Valid()
      modifies this`drafts
      ensures Valid() && |drafts| == old(|drafts|)
      ensures forall i :: 0 <= i < |drafts| ==>
                            drafts[i] == if old(drafts)[i].result.Some? then old(drafts)[i]
                              else old(drafts)[i].(result := Some(Error(kind)))
    {
      if !tracing {
        return;
      }
      for i := 0 to |drafts|
        invariant |drafts| == old(|drafts|)
        invariant forall j :: 0 <= j < i ==>
                                drafts[j] == if old(drafts)[j].result.Some? then old(drafts)[j]
                                  else old(drafts)[j].(result := Some(Error(kind)))
        invariant forall j :: i <= j < |drafts| ==> drafts[j] == old(drafts)[j]
      {
        if drafts[i].result.None? {
          drafts := drafts[i := drafts[i].(result := Some(Error(kind)))];
        }
      }
    }

    /** The spans of the walk, in visit order; the buffer is drained. */
    method Finish(delivery: nat) returns (spans: seq<NodeSpan>)
      requires Valid()
      modifies this`drafts
      ensures |spans| == |old(drafts)|
      ensures forall i :: 0 <= i < |spans| ==> spans[i] == SpanOf(delivery, i, old(drafts)[i])
      ensures drafts == []
    {
      spans := [];
      for i := 0 to |drafts|
        invariant |spans| == i && drafts == old(drafts)
        invariant forall j :: 0 <= j < i ==> spans[j] == SpanOf(delivery, j, drafts[j])
      {
        spans := spans + [SpanOf(delivery, i, drafts[i])];
      }
      drafts := [];
    }
  }

  /** Every draft's parent was handles before it. */
  predicate ParentsFirst(drafts: seq<Draft>) {
    forall i :: 0 <= i < |drafts| && drafts[i].parent.Some? ==> drafts[i].parent.value < i
  }

  /** A finished trace is a tree in visit order: each parent is the delivery's span or the span
      of an earlier visit. Its ids all differ just when the walk made no more than 2^32 - 1
      visits, since visit numbers saturate there. */
  lemma FinishedTraceIsTree(delivery: nat, drafts: seq<Draft>, spans: seq<NodeSpan>)
    requires ParentsFirst(drafts) && |spans| == |drafts|
    requires forall i :: 0 <= i < |spans| ==> spans[i] == SpanOf(delivery, i, drafts[i])
    ensures (forall i, j :: 0 <= i < j < |spans| ==> spans[i].id != spans[j].id) <==> |spans| <= 0xffff_ffff
    ensures forall i :: 0 <= i < |spans| ==> spans[i].id != SpanRef(delivery, 0)
    ensures forall i :: 0 <= i < |spans| ==>
                          spans[i].parent == SpanRef(delivery, 0) ||
                          exists j :: 0 <= j < i && spans[j].id == spans[i].parent
  {
    if |spans| > U32_MAX {
      assert spans[U32_MAX - 1].id == spans[U32_MAX].id;
    }
    forall i | 0 <= i < |spans| && spans[i].parent != SpanRef(delivery, 0)
      ensures exists j :: 0 <= j < i && spans[j].id == spans[i].parent
    {
      var j := drafts[i].parent.value;
      assert spans[j].id == spans[i].parent;
    }
  }
}
