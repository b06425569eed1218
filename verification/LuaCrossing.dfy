/** A record crosses to Lua as tables and comes back (crates/lua/src/convert.rs:61-125, 158-310). */
module LuaCrossing {
  import opened Wrappers
  import opened Tallies
  import opened LuaTables
  import J = Json
  import Utf8

  const MAX_DEPTH: nat := 128

  const I64_LIMIT: int := 0x8000_0000_0000_0000

  /** In what order an object's fields are handed over, and the float a large integer becomes. */
  datatype Handover = Handover(order: set<string> -> seq<string>, nearest: int -> real)

  ghost predicate Orderly(c: Handover) {
    forall keys :: IsListing(c.order(keys), keys)
  }

  // ----- text -----

  /** Bytes of a character in UTF-8. */
  function CharBytes(ch: char): nat {
    var code := ch as int;
    if code < 0x80 then 1 else if code < 0x800 then 2 else if code < 0x1_0000 then 3 else 4
  }

  function TextBytes(text: string): nat {
    if text == "" then 0 else CharBytes(text[0]) + TextBytes(text[1..])
  }

  /** The bytes charged for a text are those of its UTF-8. */
  lemma {:induction false} TextBytesAreUtf8(text: string)
    ensures TextBytes(text) == |Utf8.EncodeText(text)|
  {
    if text != "" {
      TextBytesAreUtf8(text[1..]);
    }
  }

  // ----- over to Lua -----

  function NumberToLua(c: Handover, n: J.Number): LuaValue {
    match n
    case Int(i) => if i < I64_LIMIT then Integer(i) else Number(Finite(c.nearest(i)))
    case Float(f) => Number(Finite(f))
  }

  predicate IsTable(v: J.Value) {
    v.List? || v.Object?
  }

  /** How many tables a value becomes. */
  function Size(c: Handover, v: J.Value): nat
    decreases v, 1
  {
    match v
    case List(items) => 1 + SizeItems(c, v, |items|)
    case Object(fields) => 1 + SizeFields(c, v, c.order(fields.Keys))
    case _ => 0
  }

  function SizeItems(c: Handover, v: J.Value, n: nat): nat
    requires v.List? && n <= |v.items|
    decreases v, 0, n
  {
    if n == 0 then 0 else SizeItems(c, v, n - 1) + Size(c, v.items[n - 1])
  }

  function SizeFields(c: Handover, v: J.Value, keys: seq<string>): nat
    requires v.Object?
    decreases v, 0, |keys|
  {
    if keys == [] then 0
    else SizeFields(c, v, Init(keys)) + if Last(keys) in v.fields then Size(c, v.fields[Last(keys)]) else 0
  }

  /** The value as Lua sees it, its tables at places from `base` on. */
  function ValueAt(c: Handover, v: J.Value, base: nat): LuaValue {
    match v
    case Null => JsonNull
    case Bool(b) => Boolean(b)
    case Number(n) => NumberToLua(c, n)
    case Str(text) => Text(text)
    case List(_) => Table(base)
    case Object(_) => Table(base)
  }

  function ListEntries(c: Handover, v: J.Value, n: nat, base: nat): map<Key, LuaValue>
    requires v.List? && n <= |v.items|
  {
    if n == 0 then map[]
    else ListEntries(c, v, n - 1, base)[Position(n) := ValueAt(c, v.items[n - 1], base + SizeItems(c, v, n - 1))]
  }

  function FieldEntries(c: Handover, v: J.Value, keys: seq<string>, base: nat): map<Key, LuaValue>
    requires v.Object?
  {
    if keys == [] then map[]
    else if Last(keys) !in v.fields then FieldEntries(c, v, Init(keys), base)
    else FieldEntries(c, v, Init(keys), base)[Name(Last(keys)) :=
      ValueAt(c, v.fields[Last(keys)], base + SizeFields(c, v, Init(keys)))]
  }

  /** The heap holds the tables of `v` from `base` on: a list marked as one, or as a record that
      is a list, and an object unmarked, or as a record that is an object. */
  ghost predicate Holds(c: Handover, heap: Heap, v: J.Value, base: nat)
    decreases v, 1
  {
    match v
    case List(items) =>
      && base < |heap| && (heap[base].mark == ListMark || heap[base].mark == RecordList)
      && heap[base].entries == ListEntries(c, v, |items|, base + 1)
      && HoldsItems(c, heap, v, |items|, base + 1)
    case Object(fields) =>
      && base < |heap| && (heap[base].mark == Unmarked || heap[base].mark == RecordObject)
      && heap[base].entries == FieldEntries(c, v, c.order(fields.Keys), base + 1)
      && HoldsFields(c, heap, v, c.order(fields.Keys), base + 1)
    case _ => true
  }

  ghost predicate HoldsItems(c: Handover, heap: Heap, v: J.Value, n: nat, base: nat)
    requires v.List? && n <= |v.items|
    decreases v, 0, n
  {
    n > 0 ==> HoldsItems(c, heap, v, n - 1, base) && Holds(c, heap, v.items[n - 1], base + SizeItems(c, v, n - 1))
  }

  ghost predicate HoldsFields(c: Handover, heap: Heap, v: J.Value, keys: seq<string>, base: nat)
    requires v.Object?
    decreases v, 0, |keys|
  {
    keys != [] ==>
      && HoldsFields(c, heap, v, Init(keys), base)
      && (Last(keys) in v.fields ==> Holds(c, heap, v.fields[Last(keys)], base + SizeFields(c, v, Init(keys))))
  }

  predicate SameFrom(before: Heap, after: Heap, base: nat, size: nat) {
    base + size <= |before| && base + size <= |after| && forall k :: base <= k < base + size ==> before[k] == after[k]
  }

  /** A heap that agrees where a value's tables are holds it too. */
  lemma {:induction false} HoldsKept(c: Handover, before: Heap, after: Heap, v: J.Value, base: nat)
    requires Holds(c, before, v, base) && SameFrom(before, after, base, Size(c, v))
    ensures Holds(c, after, v, base)
    decreases v, 1
  {
    match v
    case List(items) => ItemsKept(c, before, after, v, |items|, base + 1);
    case Object(fields) => FieldsKept(c, before, after, v, c.order(fields.Keys), base + 1);
    case _ =>
  }

  lemma {:induction false} ItemsKept(c: Handover, before: Heap, after: Heap, v: J.Value, n: nat, base: nat)
    requires v.List? && n <= |v.items|
    requires HoldsItems(c, before, v, n, base) && SameFrom(before, after, base, SizeItems(c, v, n))
    ensures HoldsItems(c, after, v, n, base)
    decreases v, 0, n
  {
    if n > 0 {
      ItemsKept(c, before, after, v, n - 1, base);
      HoldsKept(c, before, after, v.items[n - 1], base + SizeItems(c, v, n - 1));
    }
  }

  lemma {:induction false} FieldsKept(c: Handover, before: Heap, after: Heap, v: J.Value, keys: seq<string>, base: nat)
    requires v.Object?
    requires HoldsFields(c, before, v, keys, base) && SameFrom(before, after, base, SizeFields(c, v, keys))
    ensures HoldsFields(c, after, v, keys, base)
    decreases v, 0, |keys|
  {
    if keys != [] {
      FieldsKept(c, before, after, v, Init(keys), base);
      if Last(keys) in v.fields {
        HoldsKept(c, before, after, v.fields[Last(keys)], base + SizeFields(c, v, Init(keys)));
      }
    }
  }

  /** The parts of a prefix of the fields with one more after it. */
  lemma FieldNext(c: Handover, v: J.Value, done: seq<string>, key: string, base: nat)
    requires v.Object? && key in v.fields
    ensures SizeFields(c, v, done + [key]) == SizeFields(c, v, done) + Size(c, v.fields[key])
    ensures FieldEntries(c, v, done + [key], base) ==
      FieldEntries(c, v, done, base)[Name(key) := ValueAt(c, v.fields[key], base + SizeFields(c, v, done))]
  {
    Snoc(done, key);
  }

  lemma FieldHeld(c: Handover, heap: Heap, v: J.Value, done: seq<string>, key: string, base: nat)
    requires v.Object? && key in v.fields
    requires HoldsFields(c, heap, v, done, base) && Holds(c, heap, v.fields[key], base + SizeFields(c, v, done))
    ensures HoldsFields(c, heap, v, done + [key], base)
  {
    Snoc(done, key);
  }

  /** Appending tables and rewriting the one at `place` keeps all after it. */
  lemma HeapGrown(before: Heap, between: Heap, after: Heap, place: nat)
    requires place < |before| <= |between| && between[..|before|] == before
    requires |after| == |between| && after == between[place := after[place]]
    ensures SameFrom(before, after, place + 1, |before| - place - 1)
    ensures SameFrom(between, after, |before|, |between| - |before|)
  {
    assert forall k :: 0 <= k < |before| ==> between[..|before|][k] == between[k];
  }

  class Lua {
    var heap: Heap

    constructor ()
      ensures heap == []
    {
      heap := [];
    }

    /** `json_to_lua`. */
    method JsonToLua(c: Handover, v: J.Value) returns (value: LuaValue)
      requires Orderly(c)
      modifies this
      ensures value == ValueAt(c, v, |old(heap)|)
      ensures |heap| == |old(heap)| + Size(c, v) && heap[..|old(heap)|] == old(heap)
      ensures Holds(c, heap, v, |old(heap)|)
      decreases v, 1
    {
      match v
      case List(items) => value := ListToTable(c, v);
      case Object(fields) => value := MapToTable(c, v);
      case _ => value := ValueAt(c, v, |heap|);
    }

    method ListToTable(c: Handover, v: J.Value) returns (value: LuaValue)
      requires Orderly(c) && v.List?
      modifies this
      ensures value == Table(|old(heap)|)
      ensures |heap| == |old(heap)| + Size(c, v) && heap[..|old(heap)|] == old(heap)
      ensures Holds(c, heap, v, |old(heap)|)
      decreases v, 0
    {
      var place := |heap|;
      heap := heap + [TableData(Unmarked, map[])];
      for i := 0 to |v.items|
        invariant Numbered(c, v, i, place) && heap[..place] == old(heap)
      {
        AddItem(c, v, i, place);
      }
      ghost var filled := heap;
      heap := heap[place := heap[place].(mark := ListMark)];
      ItemsKept(c, filled, heap, v, |v.items|, place + 1);
      value := Table(place);
    }

    /** The table at `place` holds the first `n` items of `v`, their own tables after it. */
    ghost predicate Numbered(c: Handover, v: J.Value, n: nat, place: nat)
      requires v.List? && n <= |v.items|
      reads this
    {
      && |heap| == place + 1 + SizeItems(c, v, n)
      && heap[place] == TableData(Unmarked, ListEntries(c, v, n, place + 1))
      && HoldsItems(c, heap, v, n, place + 1)
    }

    method AddItem(c: Handover, v: J.Value, i: nat, place: nat)
      requires Orderly(c) && v.List? && i < |v.items| && Numbered(c, v, i, place)
      modifies this
      ensures Numbered(c, v, i + 1, place) && heap[..place] == old(heap[..place])
      decreases v, 0, 0
    {
      ghost var before := heap;
      var item := JsonToLua(c, v.items[i]);
      ghost var between := heap;
      assert before[place] == between[..|before|][place];
      assert between[..|before|][..place] == before[..place];
      heap := heap[place := heap[place].(entries := heap[place].entries[Position(i + 1) := item])];
      HeapGrown(before, between, heap, place);
      ItemsKept(c, before, heap, v, i, place + 1);
      HoldsKept(c, between, heap, v.items[i], |before|);
    }

    method MapToTable(c: Handover, v: J.Value) returns (value: LuaValue)
      requires Orderly(c) && v.Object?
      modifies this
      ensures value == Table(|old(heap)|)
      ensures |heap| == |old(heap)| + Size(c, v) && heap[..|old(heap)|] == old(heap)
      ensures Holds(c, heap, v, |old(heap)|)
      decreases v, 0
    {
      var place := |heap|;
      var keys := c.order(v.fields.Keys);
      heap := heap + [TableData(Unmarked, map[])];
      for i := 0 to |keys|
        invariant IsListing(keys, v.fields.Keys)
        invariant Filled(c, v, keys[..i], place) && heap[..place] == old(heap)
      {
        assert keys[i] in keys;
        assert keys[..i + 1] == keys[..i] + [keys[i]];
        AddField(c, v, keys[..i], keys[i], place);
      }
      assert keys[..|keys|] == keys;
      value := Table(place);
    }

    /** The table at `place` holds these fields of `v` so far, their own tables after it. */
    ghost predicate Filled(c: Handover, v: J.Value, done: seq<string>, place: nat)
      requires v.Object?
      reads this
    {
      && |heap| == place + 1 + SizeFields(c, v, done)
      && heap[place] == TableData(Unmarked, FieldEntries(c, v, done, place + 1))
      && HoldsFields(c, heap, v, done, place + 1)
    }

    method AddField(c: Handover, v: J.Value, ghost done: seq<string>, key: string, place: nat)
      requires Orderly(c) && v.Object? && key in v.fields && Filled(c, v, done, place)
      modifies this
      ensures Filled(c, v, done + [key], place) && heap[..place] == old(heap[..place])
      decreases v, 0, 0
    {
      ghost var before := heap;
      var field := JsonToLua(c, v.fields[key]);
      ghost var between := heap;
      assert before[place] == between[..|before|][place];
      assert between[..|before|][..place] == before[..place];
      heap := heap[place := heap[place].(entries := heap[place].entries[Name(key) := field])];
      FieldNext(c, v, done, key, place + 1);
      HeapGrown(before, between, heap, place);
      FieldsKept(c, before, heap, v, done, place + 1);
      HoldsKept(c, between, heap, v.fields[key], |before|);
      FieldHeld(c, heap, v, done, key, place + 1);
    }

    /** `to_lua`, and the record mark its caller puts on a table. */
    method RecordToLua(c: Handover, v: J.Value) returns (value: LuaValue)
      requires Orderly(c) && heap == []
      modifies this
      ensures value == ValueAt(c, v, 0) && Holds(c, heap, v, 0)
    {
      value := JsonToLua(c, v);
      if value.Table? {
        ghost var before := heap;
        heap := heap[0 := heap[0].(mark := if v.List? then RecordList else RecordObject)];
        if v.List? {
          ItemsKept(c, before, heap, v, |v.items|, 1);
        } else {
          FieldsKept(c, before, heap, v, c.order(v.fields.Keys), 1);
        }
      }
    }
  }
}
