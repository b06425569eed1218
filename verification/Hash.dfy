/** The splitmix64 finalizer, a bijection on 64-bit words, and the trace ids derived from it
    (crates/core/src/hash.rs, crates/core/src/trace.rs). Words are bit vectors, so that the
    arithmetic wraps as it does there; each step of the finalizer is undone by a step of its
    own, and the whole by the steps undone in reverse. */
module Hash {
  // The steps of the finalizer and their inverses: folding high bits down, and multiplying by
  // an odd factor (undone by multiplying by its inverse modulo 2^64).

  function Fold30(x: bv64): bv64 {
    x ^ (x >> 30)
  }

  function Unfold30(x: bv64): bv64 {
    x ^ (x >> 30) ^ (x >> 60)
  }

  function Fold27(x: bv64): bv64 {
    x ^ (x >> 27)
  }

  function Unfold27(x: bv64): bv64 {
    x ^ (x >> 27) ^ (x >> 54)
  }

  function Fold31(x: bv64): bv64 {
    x ^ (x >> 31)
  }

  function Unfold31(x: bv64): bv64 {
    x ^ (x >> 31) ^ (x >> 62)
  }

  function TimesFirst(x: bv64): bv64 {
    x * 0xbf58_476d_1ce4_e5b9
  }

  function OverFirst(x: bv64): bv64 {
    x * 0x96de_1b17_3f11_9089
  }

  function TimesSecond(x: bv64): bv64 {
    x * 0x94d0_49bb_1331_11eb
  }

  function OverSecond(x: bv64): bv64 {
    x * 0x3196_42b2_d24d_8ec3
  }

  function Mix(x: bv64): bv64 {
    Fold31(TimesSecond(Fold27(TimesFirst(Fold30(x)))))
  }

  function Unmix(m: bv64): bv64 {
    Unfold30(OverFirst(Unfold27(OverSecond(Unfold31(m)))))
  }

  lemma Folds30(x: bv64)
    ensures Unfold30(x ^ (x >> 30)) == x
    ensures Fold30(x ^ (x >> 30) ^ (x >> 60)) == x
  {
  }

  lemma Folds27(x: bv64)
    ensures Unfold27(x ^ (x >> 27)) == x
    ensures Fold27(x ^ (x >> 27) ^ (x >> 54)) == x
  {
  }

  lemma Folds31(x: bv64)
    ensures Unfold31(x ^ (x >> 31)) == x
    ensures Fold31(x ^ (x >> 31) ^ (x >> 62)) == x
  {
  }

  lemma FirstFactor(x: bv64)
    ensures OverFirst(x * 0xbf58_476d_1ce4_e5b9) == x
    ensures TimesFirst(x * 0x96de_1b17_3f11_9089) == x
  {
  }

  lemma SecondFactor(x: bv64)
    ensures OverSecond(x * 0x94d0_49bb_1331_11eb) == x
    ensures TimesSecond(x * 0x3196_42b2_d24d_8ec3) == x
  {
  }

  lemma Inverse30(x: bv64)
    ensures Unfold30(Fold30(x)) == x && Fold30(Unfold30(x)) == x
  {
    Folds30(x);
  }

  lemma Inverse27(x: bv64)
    ensures Unfold27(Fold27(x)) == x && Fold27(Unfold27(x)) == x
  {
    Folds27(x);
  }

  lemma Inverse31(x: bv64)
    ensures Unfold31(Fold31(x)) == x && Fold31(Unfold31(x)) == x
  {
    Folds31(x);
  }

  lemma InverseFirst(x: bv64)
    ensures OverFirst(TimesFirst(x)) == x && TimesFirst(OverFirst(x)) == x
  {
    FirstFactor(x);
  }

  lemma InverseSecond(x: bv64)
    ensures OverSecond(TimesSecond(x)) == x && TimesSecond(OverSecond(x)) == x
  {
    SecondFactor(x);
  }

  /** `Mix` is a bijection: `Unmix` undoes it from both sides. */
  lemma MixIsBijective(x: bv64)
    ensures Unmix(Mix(x)) == x
    ensures Mix(Unmix(x)) == x
  {
    var a := Fold30(x);
    var b := TimesFirst(a);
    var c := Fold27(b);
    var d := TimesSecond(c);
    Inverse31(d);
    InverseSecond(c);
    Inverse27(b);
    InverseFirst(a);
    Inverse30(x);
    var e := Unfold31(x);
    var f := OverSecond(e);
    var g := Unfold27(f);
    var h := OverFirst(g);
    Inverse30(h);
    InverseFirst(g);
    Inverse27(f);
    InverseSecond(e);
    Inverse31(x);
  }

  lemma MixInjective(x: bv64, y: bv64)
    requires Mix(x) == Mix(y)
    ensures x == y
  {
    hide Mix, Unmix;
    MixIsBijective(x);
    MixIsBijective(y);
  }

  // ----- trace ids -----

  const TRACE_SALT: bv64 := 0x7472_6163_655f_6964
  const SPAN_SALT: bv64 := 0x7370_616e_5f69_6421

  /** `TraceKey::new`, the tenant already hashed. */
  function TraceKey(recordId: bv64, tenantHash: bv64): bv64 {
    Mix(recordId ^ tenantHash ^ TRACE_SALT)
  }

  /** What tells one span of a record from another: the delivery and the visit. */
  function Position(delivery: bv64, visit: bv32): bv64 {
    (delivery << 32) ^ (visit as bv64) ^ SPAN_SALT
  }

  function KeyedMix(key: bv64, x: bv64): bv64 {
    Mix(key ^ x)
  }

  /** The span id before a zero is replaced by one. */
  function RawSpanId(key: bv64, delivery: bv64, visit: bv32): bv64 {
    KeyedMix(key, Mix(Position(delivery, visit)))
  }

  function SpanId(key: bv64, delivery: bv64, visit: bv32): bv64 {
    var id := RawSpanId(key, delivery, visit);
    if id == 0 then 1 else id
  }

  lemma PositionInjective(d1: bv64, v1: bv32, d2: bv64, v2: bv32)
    requires d1 < 0x1_0000_0000 && d2 < 0x1_0000_0000
    requires Position(d1, v1) == Position(d2, v2)
    ensures d1 == d2 && v1 == v2
  {
  }

  /** Every word is the position of some delivery and visit. */
  lemma PositionOnto(x: bv64) returns (delivery: bv64, visit: bv32)
    ensures delivery < 0x1_0000_0000 && Position(delivery, visit) == x
  {
    var y := x ^ SPAN_SALT;
    delivery := y >> 32;
    visit := (y & 0xffff_ffff) as bv32;
  }

  lemma KeyedMixInjective(key: bv64, a: bv64, b: bv64)
    requires KeyedMix(key, a) == KeyedMix(key, b)
    ensures a == b
  {
    hide Mix;
    MixInjective(key ^ a, key ^ b);
    XorCancels(key, a, b);
  }

  lemma KeyedMixOnto(key: bv64, id: bv64) returns (x: bv64)
    ensures KeyedMix(key, x) == id
  {
    hide Mix, Unmix;
    x := key ^ Unmix(id);
    XorTwice(key, Unmix(id));
    MixIsBijective(id);
  }

  lemma XorCancels(k: bv64, a: bv64, b: bv64)
    ensures k ^ a == k ^ b ==> a == b
  {
  }

  lemma XorTwice(k: bv64, a: bv64)
    ensures k ^ (k ^ a) == a
  {
  }

  lemma XorRegroup(a: bv64, b: bv64, c: bv64)
    ensures a ^ b ^ c == (b ^ c) ^ a
  {
  }

  /** Two records of one tenant never share a trace key. */
  lemma TraceKeysDistinct(a: bv64, b: bv64, tenantHash: bv64)
    requires a != b
    ensures TraceKey(a, tenantHash) != TraceKey(b, tenantHash)
  {
    hide Mix;
    XorRegroup(a, tenantHash, TRACE_SALT);
    XorRegroup(b, tenantHash, TRACE_SALT);
    if TraceKey(a, tenantHash) == TraceKey(b, tenantHash) {
      KeyedMixInjective(tenantHash ^ TRACE_SALT, a, b);
    }
  }

  lemma SpanPositionsInjective(key: bv64, a: bv64, b: bv64)
    requires KeyedMix(key, Mix(a)) == KeyedMix(key, Mix(b))
    ensures a == b
  {
    hide Mix, KeyedMix;
    KeyedMixInjective(key, Mix(a), Mix(b));
    MixInjective(a, b);
  }

  /** Of one record, every (delivery, visit) pair has its own raw span id, as long as
      deliveries stay below 2^32. */
  lemma SpanIdsDistinct(key: bv64, d1: bv64, v1: bv32, d2: bv64, v2: bv32)
    requires d1 < 0x1_0000_0000 && d2 < 0x1_0000_0000
    requires RawSpanId(key, d1, v1) == RawSpanId(key, d2, v2)
    ensures d1 == d2 && v1 == v2
  {
    hide Mix, KeyedMix;
    SpanPositionsInjective(key, Position(d1, v1), Position(d2, v2));
    PositionInjective(d1, v1, d2, v2);
  }

  /** Every word is the raw span id of some delivery and visit. */
  lemma RawSpanIdOnto(key: bv64, id: bv64) returns (delivery: bv64, visit: bv32)
    ensures delivery < 0x1_0000_0000 && RawSpanId(key, delivery, visit) == id
  {
    hide Mix, Unmix, KeyedMix, Position;
    var x := KeyedMixOnto(key, id);
    MixIsBijective(x);
    delivery, visit := PositionOnto(Unmix(x));
  }

  /** The substitution collides for exactly one pair of raw ids, 0 and 1. */
  lemma SubstitutionCollides(key: bv64, d1: bv64, v1: bv32, d2: bv64, v2: bv32)
    requires d1 < 0x1_0000_0000 && d2 < 0x1_0000_0000 && (d1, v1) != (d2, v2)
    ensures SpanId(key, d1, v1) == SpanId(key, d2, v2) <==>
            (RawSpanId(key, d1, v1) == 0 && RawSpanId(key, d2, v2) == 1) ||
            (RawSpanId(key, d1, v1) == 1 && RawSpanId(key, d2, v2) == 0)
  {
    hide RawSpanId;
    if RawSpanId(key, d1, v1) == RawSpanId(key, d2, v2) {
      SpanIdsDistinct(key, d1, v1, d2, v2);
    }
  }

  /** Where a span is in its record's history, deliveries below 2^32 apart. */
  datatype Place = Place(delivery: bv64, visit: bv32)

  predicate InReach(p: Place) {
    p.delivery < 0x1_0000_0000
  }

  function RawIdAt(key: bv64, p: Place): bv64 {
    RawSpanId(key, p.delivery, p.visit)
  }

  function IdAt(key: bv64, p: Place): bv64 {
    SpanId(key, p.delivery, p.visit)
  }

  lemma PlaceOf(key: bv64, id: bv64) returns (place: Place)
    ensures InReach(place) && RawIdAt(key, place) == id
    ensures forall p :: InReach(p) && RawIdAt(key, p) == id ==> p == place
  {
    hide RawSpanId;
    var d, v := RawSpanIdOnto(key, id);
    place := Place(d, v);
    forall p | InReach(p) && RawIdAt(key, p) == id
      ensures p == place
    {
      SpanIdsDistinct(key, p.delivery, p.visit, d, v);
    }
  }

  /** Of every record exactly one pair of places shares a span id. */
  lemma EveryKeyCollides(key: bv64) returns (zero: Place, one: Place)
    ensures InReach(zero) && InReach(one) && zero != one
    ensures forall p, q :: InReach(p) && InReach(q) && p != q ==>
              (IdAt(key, p) == IdAt(key, q) <==> (p == zero && q == one) || (p == one && q == zero))
  {
    hide RawSpanId;
    zero := PlaceOf(key, 0);
    one := PlaceOf(key, 1);
    forall p, q | InReach(p) && InReach(q) && p != q
      ensures IdAt(key, p) == IdAt(key, q) <==> (p == zero && q == one) || (p == one && q == zero)
    {
      SubstitutionCollides(key, p.delivery, p.visit, q.delivery, q.visit);
      hide SpanId;
      assert RawIdAt(key, p) == 0 <==> p == zero;
      assert RawIdAt(key, q) == 0 <==> q == zero;
      assert RawIdAt(key, p) == 1 <==> p == one;
      assert RawIdAt(key, q) == 1 <==> q == one;
    }
  }
}
