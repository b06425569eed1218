/** The namespacing of state keys: one store, a family of independent maps
    (crates/core/src/stage.rs:133-274). */
module Keys {
  import opened Wrappers
  import Sequences
  import Store

  predicate ColonFree(s: string) {
    ':' !in s
  }

  function EscapeChar(c: char): string {
    if c == ':' then "%3A" else if c == '%' then "%25" else [c]
  }

  function Escape(s: string): string {
    if s == "" then "" else EscapeChar(s[0]) + Escape(s[1..])
  }

  /** `escape_segment`. */
  method EscapeSegment(segment: string) returns (out: string)
    ensures out == Escape(segment)
  {
    if ':' !in segment && '%' !in segment {
      EscapeNothing(segment);
      return segment;
    }
    out := "";
    for i := 0 to |segment|
      invariant out + Escape(segment[i..]) == Escape(segment)
    {
      Sequences.Associative(out, EscapeChar(segment[i]), Escape(segment[i + 1..]));
      assert segment[i..][1..] == segment[i + 1..];
      out := out + EscapeChar(segment[i]);
    }
    assert segment[|segment|..] == "";
    assert out + "" == out;
  }

  lemma {:induction false} EscapeNothing(s: string)
    requires ':' !in s && '%' !in s
    ensures Escape(s) == s
  {
    if s != "" {
      assert s == [s[0]] + s[1..];
      EscapeNothing(s[1..]);
    }
  }

  lemma {:induction false} EscapeIsColonFree(s: string)
    ensures ColonFree(Escape(s))
  {
    if s != "" {
      EscapeIsColonFree(s[1..]);
    }
  }

  /** Undoing the escapes. */
  function Unescape(s: string): string {
    if s == "" then ""
    else if |s| >= 3 && s[..3] == "%3A" then ":" + Unescape(s[3..])
    else if |s| >= 3 && s[..3] == "%25" then "%" + Unescape(s[3..])
    else [s[0]] + Unescape(s[1..])
  }

  lemma {:induction false} UnescapeEscape(s: string)
    ensures Unescape(Escape(s)) == s
  {
    if s != "" {
      var rest := Escape(s[1..]);
      UnescapeEscape(s[1..]);
      assert s == [s[0]] + s[1..];
      if s[0] == ':' || s[0] == '%' {
        assert Escape(s)[..3] == EscapeChar(s[0]) && Escape(s)[3..] == rest;
      } else {
        assert Escape(s)[0] == s[0] && Escape(s)[1..] == rest;
        assert |Escape(s)| >= 3 ==> Escape(s)[..3][0] == s[0];
      }
    }
  }

  /** `{pipeline}:{tenant}:{node}:{key}`, the tenant escaped. */
  function FullKey(pipeline: string, tenant: string, node: string, key: string): string {
    pipeline + ":" + (Escape(tenant) + ":" + (node + ":" + key))
  }

  function FirstColon(s: string): nat {
    if s == "" || s[0] == ':' then 0 else 1 + FirstColon(s[1..])
  }

  lemma {:induction false} FirstColonAfter(a: string, x: string)
    requires ColonFree(a)
    ensures FirstColon(a + ":" + x) == |a|
  {
    if a != "" {
      FirstColonAfter(a[1..], x);
      assert (a + ":" + x)[1..] == a[1..] + ":" + x;
    }
  }

  /** Text before the first colon, and after it, is determined. */
  lemma SplitAtColon(a: string, b: string, x: string, y: string)
    requires ColonFree(a) && ColonFree(b) && a + ":" + x == b + ":" + y
    ensures a == b && x == y
  {
    FirstColonAfter(a, x);
    FirstColonAfter(b, y);
    assert a == (a + ":" + x)[..|a|] && b == (b + ":" + y)[..|a|];
    assert x == (a + ":" + x)[|a| + 1..] && y == (b + ":" + y)[|a| + 1..];
  }

  /** Full keys are equal only if all four parts are; names and ids hold no colon. */
  lemma FullKeysDistinct(pipeline: string, tenant: string, node: string, key: string, pipeline2: string,
      tenant2: string, node2: string, key2: string)
    requires ColonFree(pipeline) && ColonFree(node) && ColonFree(pipeline2) && ColonFree(node2)
    ensures FullKey(pipeline, tenant, node, key) == FullKey(pipeline2, tenant2, node2, key2) <==>
      pipeline == pipeline2 && tenant == tenant2 && node == node2 && key == key2
  {
    if FullKey(pipeline, tenant, node, key) == FullKey(pipeline2, tenant2, node2, key2) {
      SplitAtColon(pipeline, pipeline2, Escape(tenant) + ":" + (node + ":" + key),
        Escape(tenant2) + ":" + (node2 + ":" + key2));
      EscapeIsColonFree(tenant);
      EscapeIsColonFree(tenant2);
      SplitAtColon(Escape(tenant), Escape(tenant2), node + ":" + key, node2 + ":" + key2);
      UnescapeEscape(tenant);
      UnescapeEscape(tenant2);
      SplitAtColon(node, node2, key, key2);
    }
  }

  // ----- handles -----

  /** One record's handle on the shared store. */
  datatype Handle = Handle(pipeline: string, tenant: string, node: string, declared: bool)

  ghost predicate Loaded(h: Handle) {
    ColonFree(h.pipeline) && ColonFree(h.node)
  }

  predicate SameSpace(a: Handle, b: Handle) {
    a.pipeline == b.pipeline && a.tenant == b.tenant && a.node == b.node
  }

  predicate HasKey(op: Store.Op) {
    !op.Advance? && !op.FailAll?
  }

  function Prefixed(h: Handle, op: Store.Op): Store.Op
    requires HasKey(op)
  {
    op.(key := FullKey(h.pipeline, h.tenant, h.node, op.key))
  }

  /** An operation through a handle; a node that did not declare `uses_state` reaches nothing. */
  function Through(h: Handle, r: Store.Reference, op: Store.Op): (Store.Reference, Option<Store.Answer>)
    requires HasKey(op)
  {
    if !h.declared then (r, None)
    else
      var (next, answer) := Store.Step(r, Prefixed(h, op));
      (next, Some(answer))
  }

  /** What a handle can see: its own map from keys to entries. */
  ghost predicate SeesSame(h: Handle, before: Store.Reference, after: Store.Reference) {
    forall key :: Store.At(before, FullKey(h.pipeline, h.tenant, h.node, key)) ==
      Store.At(after, FullKey(h.pipeline, h.tenant, h.node, key))
  }

  /** No operation through one handle changes what a handle of another pipeline, tenant or node sees. */
  lemma HandlesAreIndependent(h: Handle, other: Handle, r: Store.Reference, op: Store.Op)
    requires Loaded(h) && Loaded(other) && !SameSpace(h, other) && HasKey(op)
    ensures SeesSame(other, r, Through(h, r, op).0)
  {
    forall key ensures Store.At(r, FullKey(other.pipeline, other.tenant, other.node, key)) ==
      Store.At(Through(h, r, op).0, FullKey(other.pipeline, other.tenant, other.node, key)) {
      FullKeysDistinct(h.pipeline, h.tenant, h.node, op.key, other.pipeline, other.tenant, other.node, key);
      Store.OtherKeysKept(r, Prefixed(h, op), FullKey(other.pipeline, other.tenant, other.node, key));
    }
  }

  /** Nor does any run of operations through other handles. */
  lemma {:induction false} OthersNeverShow(other: Handle, r: Store.Reference, steps: seq<(Handle, Store.Op)>)
    requires Loaded(other)
    requires forall i :: 0 <= i < |steps| ==> Loaded(steps[i].0) && !SameSpace(steps[i].0, other) && HasKey(steps[i].1)
    ensures SeesSame(other, r, RunThrough(r, steps))
  {
    if steps != [] {
      var before := steps[..|steps| - 1];
      OthersNeverShow(other, r, before);
      HandlesAreIndependent(steps[|steps| - 1].0, other, RunThrough(r, before), steps[|steps| - 1].1);
    }
  }

  function RunThrough(r: Store.Reference, steps: seq<(Handle, Store.Op)>): Store.Reference
    requires forall i :: 0 <= i < |steps| ==> HasKey(steps[i].1)
  {
    if steps == [] then r
    else Through(steps[|steps| - 1].0, RunThrough(r, steps[..|steps| - 1]), steps[|steps| - 1].1).0
  }

  // ----- any interleaving -----

  /** What befalls the store: a handle's operation, or the clock or a failure. */
  datatype Event = Use(h: Handle, op: Store.Op) | World(op: Store.Op)

  ghost predicate ValidEvent(e: Event) {
    if e.Use? then Loaded(e.h) && HasKey(e.op) else !HasKey(e.op)
  }

  function KeyOf(h: Handle, key: string): string {
    FullKey(h.pipeline, h.tenant, h.node, key)
  }

  function SharedStep(r: Store.Reference, e: Event): (Store.Reference, Option<Store.Answer>)
    requires ValidEvent(e)
  {
    if e.Use? then Through(e.h, r, e.op) else (Store.Step(r, e.op).0, None)
  }

  /** The same event on a store that is `me`'s alone and knows no prefixes. */
  function OwnStep(me: Handle, own: Store.Reference, e: Event): (Store.Reference, Option<Store.Answer>) {
    if e.World? then (Store.Step(own, e.op).0, None)
    else if !SameSpace(e.h, me) || !e.h.declared then (own, None)
    else
      var (next, answer) := Store.Step(own, e.op);
      (next, Some(answer))
  }

  /** The shared store after `events`, and the answers to handles of `me`'s pipeline, tenant and node. */
  function SharedRun(me: Handle, r: Store.Reference, events: seq<Event>): (Store.Reference, seq<Option<Store.Answer>>)
    requires forall i :: 0 <= i < |events| ==> ValidEvent(events[i])
  {
    if events == [] then (r, [])
    else
      var e := events[|events| - 1];
      var (before, answers) := SharedRun(me, r, events[..|events| - 1]);
      var (after, answer) := SharedStep(before, e);
      (after, if e.Use? && SameSpace(e.h, me) then answers + [answer] else answers)
  }

  function OwnRun(me: Handle, own: Store.Reference, events: seq<Event>): (Store.Reference, seq<Option<Store.Answer>>) {
    if events == [] then (own, [])
    else
      var e := events[|events| - 1];
      var (before, answers) := OwnRun(me, own, events[..|events| - 1]);
      var (after, answer) := OwnStep(me, before, e);
      (after, if e.Use? && SameSpace(e.h, me) then answers + [answer] else answers)
  }

  /** The shared store holds under `me`'s prefix what `own` holds. */
  ghost predicate Shows(me: Handle, r: Store.Reference, own: Store.Reference) {
    && r.now == own.now && r.failing == own.failing
    && forall key :: Store.At(r, KeyOf(me, key)) == Store.At(own, key)
  }

  lemma WorldShows(me: Handle, r: Store.Reference, own: Store.Reference, op: Store.Op)
    requires !HasKey(op) && Shows(me, r, own)
    ensures Shows(me, Store.Step(r, op).0, Store.Step(own, op).0)
  {
    forall key
      ensures Store.At(Store.Step(r, op).0, KeyOf(me, key)) == Store.At(Store.Step(own, op).0, key)
    {
      Store.OtherKeysKept(r, op, KeyOf(me, key));
      Store.OtherKeysKept(own, op, key);
      assert Store.At(r, KeyOf(me, key)) == Store.At(own, key);
    }
  }

  lemma OthersShow(me: Handle, h: Handle, r: Store.Reference, own: Store.Reference, op: Store.Op)
    requires Loaded(me) && Loaded(h) && !SameSpace(h, me) && HasKey(op) && Shows(me, r, own)
    ensures Shows(me, Through(h, r, op).0, own)
  {
    HandlesAreIndependent(h, me, r, op);
    KeptByKeyed(r, Prefixed(h, op));
    forall key
      ensures Store.At(Through(h, r, op).0, KeyOf(me, key)) == Store.At(own, key)
    {
      assert Store.At(r, KeyOf(me, key)) == Store.At(own, key);
    }
  }

  lemma KeptByKeyed(r: Store.Reference, op: Store.Op)
    requires HasKey(op)
    ensures Store.Step(r, op).0.now == r.now && Store.Step(r, op).0.failing == r.failing
  {
  }

  lemma OwnShows(me: Handle, h: Handle, r: Store.Reference, own: Store.Reference, op: Store.Op)
    requires Loaded(me) && SameSpace(h, me) && h.declared && HasKey(op) && Shows(me, r, own)
    ensures Shows(me, Through(h, r, op).0, Store.Step(own, op).0)
    ensures Through(h, r, op).1 == Some(Store.Step(own, op).1)
  {
    assert Store.At(r, KeyOf(me, op.key)) == Store.At(own, op.key);
    Store.StepIsLocal(own, op, r, Prefixed(h, op));
    forall key
      ensures Store.At(Through(h, r, op).0, KeyOf(me, key)) == Store.At(Store.Step(own, op).0, key)
    {
      if key != op.key {
        FullKeysDistinct(me.pipeline, me.tenant, me.node, op.key, me.pipeline, me.tenant, me.node, key);
        Store.OtherKeysKept(r, Prefixed(h, op), KeyOf(me, key));
        Store.OtherKeysKept(own, op, key);
        assert Store.At(r, KeyOf(me, key)) == Store.At(own, key);
      }
    }
  }

  lemma EventShows(me: Handle, r: Store.Reference, own: Store.Reference, e: Event)
    requires Loaded(me) && ValidEvent(e) && Shows(me, r, own)
    ensures Shows(me, SharedStep(r, e).0, OwnStep(me, own, e).0)
    ensures e.Use? && SameSpace(e.h, me) ==> SharedStep(r, e).1 == OwnStep(me, own, e).1
  {
    if e.World? {
      WorldShows(me, r, own, e.op);
    } else if !SameSpace(e.h, me) {
      OthersShow(me, e.h, r, own, e.op);
    } else if e.h.declared {
      OwnShows(me, e.h, r, own, e.op);
    }
  }

  /** The shared store is a family of independent maps: in any interleaving with operations of
      other handles, moves of the clock and failures, a handle gets the answers that its own
      operations get on a store of its own. */
  lemma {:induction false} EachHandleHasItsOwnMap(me: Handle, r: Store.Reference, own: Store.Reference,
      events: seq<Event>)
    requires Loaded(me) && Shows(me, r, own) && forall i :: 0 <= i < |events| ==> ValidEvent(events[i])
    ensures SharedRun(me, r, events).1 == OwnRun(me, own, events).1
    ensures Shows(me, SharedRun(me, r, events).0, OwnRun(me, own, events).0)
  {
    hide Shows, SharedStep, OwnStep;
    if events != [] {
      var before := events[..|events| - 1];
      EachHandleHasItsOwnMap(me, r, own, before);
      EventShows(me, SharedRun(me, r, before).0, OwnRun(me, own, before).0, events[|events| - 1]);
    }
  }

  /** A handle reads back what it wrote under a key, and one of another key does not disturb it. */
  lemma HandleIsAMap(h: Handle, r: Store.Reference, key: string, value: string, ttl: nat, read: string)
    requires Loaded(h) && h.declared && !r.failing && ttl > 0
    ensures var after := Through(h, r, Store.Set(key, value, ttl)).0;
      Through(h, after, Store.Get(read)).1 == if read == key then Some(Store.Found(value))
        else Through(h, r, Store.Get(read)).1
  {
    FullKeysDistinct(h.pipeline, h.tenant, h.node, key, h.pipeline, h.tenant, h.node, read);
  }
}
