/** The 64-bit ids under which a trace is exported (crates/core/src/trace.rs:112-130, 391-430). */
module TraceIds {
  import H = Hash
  import T = Trace

  /** Visit numbers in 32 bits: any form in which those below 2^32 stay apart, as `as u32` does. */
  type Words = nat -> bv32

  ghost predicate KeepsApart(word: Words) {
    forall a, b :: 0 <= a < b <= T.U32_MAX ==> word(a) != word(b)
  }

  /** Where a span stands in its record's history; all spans of a trace share its delivery. */
  function PlaceOf(delivery: bv64, word: Words, span: T.SpanRef): H.Place {
    H.Place(delivery, word(span.visit))
  }

  function ExportedId(key: bv64, delivery: bv64, word: Words, span: T.SpanRef): bv64 {
    H.IdAt(key, PlaceOf(delivery, word, span))
  }

  /** An exported trace of fewer than 2^32 visits is a tree by its 64-bit ids, but for one pair of
      places in the record's history: every parent's id is the delivery's or an earlier span's, and
      two spans share an id only if they stand at the record's two colliding places. */
  lemma ExportedTraceIsTreeById(
    key: bv64, delivery: bv64, word: Words, number: nat, drafts: seq<T.Draft>, spans: seq<T.NodeSpan>)
    returns (zero: H.Place, one: H.Place)
    requires delivery < 0x1_0000_0000 && KeepsApart(word)
    requires T.ParentsFirst(drafts) && |spans| == |drafts| <= T.U32_MAX
    requires forall i :: 0 <= i < |spans| ==> spans[i] == T.SpanOf(number, i, drafts[i])
    ensures forall p, q :: H.InReach(p) && H.InReach(q) && p != q ==>
              (H.IdAt(key, p) == H.IdAt(key, q) <==> (p == zero && q == one) || (p == one && q == zero))
    ensures forall i, j :: 0 <= i < j < |spans| ==>
              PlaceOf(delivery, word, spans[i].id) != PlaceOf(delivery, word, spans[j].id)
    ensures forall i :: 0 <= i < |spans| ==>
              var parent := ExportedId(key, delivery, word, spans[i].parent);
              || parent == ExportedId(key, delivery, word, T.SpanRef(number, 0))
              || exists j :: 0 <= j < i && ExportedId(key, delivery, word, spans[j].id) == parent
  {
    hide H.IdAt;
    zero, one := H.EveryKeyCollides(key);
    T.FinishedTraceIsTree(number, drafts, spans);
    forall i, j | 0 <= i < j < |spans|
      ensures PlaceOf(delivery, word, spans[i].id) != PlaceOf(delivery, word, spans[j].id)
    {
      assert word(i + 1) != word(j + 1);
    }
  }
}
