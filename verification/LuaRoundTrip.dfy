/** What comes back of a record a script left alone, and of a table nested too deep
    (crates/lua/src/convert.rs:5-14, 158-294). A record within the nesting limit and the byte
    cap comes back as it went, empty lists and nested nulls included; beyond either it is
    refused. Both directions go by the structure of the value, along the tables the crossing
    laid out for it. */
module LuaRoundTrip {
  import opened Wrappers
  import opened Tallies
  import opened LuaTables
  import opened LuaCrossing
  import opened LuaReader
  import J = Json
  import Utf8

  // ----- what the crossing keeps and what it costs -----

  /** Tables around any part of `v`, itself included, are at most `room`. */
  ghost predicate NestsWithin(v: J.Value, room: int) {
    match v
    case List(items) => room >= 1 && forall k :: 0 <= k < |items| ==> NestsWithin(items[k], room - 1)
    case Object(fields) => room >= 1 && forall k :: k in fields ==> NestsWithin(fields[k], room - 1)
    case _ => true
  }

  /** The bytes of the strings that are values; keys are not counted. */
  function Bytes(c: Handover, v: J.Value): nat
    decreases v, 1
  {
    match v
    case Str(text) => |Utf8.EncodeText(text)|
    case List(items) => BytesItems(c, v, |items|)
    case Object(fields) => BytesFields(c, v, c.order(fields.Keys))
    case _ => 0
  }

  function BytesItems(c: Handover, v: J.Value, n: nat): nat
    requires v.List? && n <= |v.items|
    decreases v, 0, n
  {
    if n == 0 then 0 else BytesItems(c, v, n - 1) + Bytes(c, v.items[n - 1])
  }

  function BytesFields(c: Handover, v: J.Value, names: seq<string>): nat
    requires v.Object?
    decreases v, 0, |names|
  {
    if names == [] then 0
    else BytesFields(c, v, Init(names)) + if Last(names) in v.fields then Bytes(c, v.fields[Last(names)]) else 0
  }

  /** The value with every integer beyond 63 bits replaced by its float. */
  function Rounded(c: Handover, v: J.Value): J.Value
    decreases v, 1
  {
    match v
    case Number(Int(i)) => if i < 0x8000_0000_0000_0000 then v else J.Number(J.Float(c.nearest(i)))
    case List(items) => J.List(RoundedItems(c, v, |items|))
    case Object(fields) => J.Object(map k | k in fields :: Rounded(c, fields[k]))
    case _ => v
  }

  function RoundedItems(c: Handover, v: J.Value, n: nat): (items: seq<J.Value>)
    requires v.List? && n <= |v.items|
    ensures |items| == n
    decreases v, 0, n
  {
    if n == 0 then [] else RoundedItems(c, v, n - 1) + [Rounded(c, v.items[n - 1])]
  }

  /** Every integer fits in 64 signed bits. */
  ghost predicate FitsI64(v: J.Value) {
    match v
    case Number(Int(i)) => i < 0x8000_0000_0000_0000
    case List(items) => forall k :: 0 <= k < |items| ==> FitsI64(items[k])
    case Object(fields) => forall k :: k in fields ==> FitsI64(fields[k])
    case _ => true
  }

  lemma {:induction false} RoundedIsSame(c: Handover, v: J.Value)
    ensures Rounded(c, v) == v <==> FitsI64(v)
    decreases v, 1
  {
    match v
    case List(items) =>
      forall k | 0 <= k < |items| ensures RoundedItems(c, v, |items|)[k] == Rounded(c, items[k])
        && (Rounded(c, items[k]) == items[k] <==> FitsI64(items[k])) {
        RoundedItemAt(c, v, |items|, k);
        RoundedIsSame(c, items[k]);
      }
      assert FitsI64(v) ==> RoundedItems(c, v, |items|) == items;
    case Object(fields) =>
      forall k | k in fields ensures Rounded(c, fields[k]) == fields[k] <==> FitsI64(fields[k]) {
        RoundedIsSame(c, fields[k]);
      }
      var rounded := map k | k in fields :: Rounded(c, fields[k]);
      assert FitsI64(v) ==> rounded == fields;
      assert rounded == fields ==> forall k :: k in fields ==> rounded[k] == fields[k];
    case _ =>
  }

  lemma {:induction false} RoundedItemAt(c: Handover, v: J.Value, n: nat, k: nat)
    requires v.List? && k < n <= |v.items|
    ensures RoundedItems(c, v, n)[k] == Rounded(c, v.items[k])
    decreases n
  {
    if k < n - 1 {
      RoundedItemAt(c, v, n - 1, k);
    }
  }

  // ----- where the parts of a value are -----

  /** `value` is part `v` as the heap holds it. */
  ghost predicate Stands(c: Handover, heap: Heap, value: LuaValue, v: J.Value) {
    exists base: nat :: value == ValueAt(c, v, base) && Holds(c, heap, v, base)
  }

  lemma {:induction false} ItemStands(c: Handover, heap: Heap, v: J.Value, n: nat, base: nat, k: nat)
    requires v.List? && k < n <= |v.items| && HoldsItems(c, heap, v, n, base)
    ensures Position(k + 1) in ListEntries(c, v, n, base)
    ensures Stands(c, heap, ListEntries(c, v, n, base)[Position(k + 1)], v.items[k])
    decreases n
  {
    if k < n - 1 {
      ItemStands(c, heap, v, n - 1, base, k);
    }
  }

  lemma {:induction false} FieldStands(c: Handover, heap: Heap, v: J.Value, names: seq<string>, base: nat, k: string)
    requires v.Object? && HoldsFields(c, heap, v, names, base) && k in names && k in v.fields
    ensures Name(k) in FieldEntries(c, v, names, base)
    ensures Stands(c, heap, FieldEntries(c, v, names, base)[Name(k)], v.fields[k])
    decreases |names|
  {
    if k != Last(names) {
      assert names == Init(names) + [Last(names)];
      FieldStands(c, heap, v, Init(names), base, k);
    }
  }

  lemma {:induction false} ListKeys(c: Handover, v: J.Value, n: nat, base: nat)
    requires v.List? && n <= |v.items|
    ensures ListEntries(c, v, n, base).Keys == Positions(n)
    decreases n
  {
    if n > 0 {
      ListKeys(c, v, n - 1, base);
    }
  }

  lemma {:induction false} FieldKeys(c: Handover, v: J.Value, names: seq<string>, base: nat)
    requires v.Object?
    ensures forall key :: key in FieldEntries(c, v, names, base) <==>
      key.Name? && key.name in names && key.name in v.fields
    decreases |names|
  {
    if names != [] {
      FieldKeys(c, v, Init(names), base);
      assert names == Init(names) + [Last(names)];
    }
  }

  // ----- reading back -----

  /** Read back exactly when it nests within the room left and its strings within the bytes left. */
  ghost predicate ReadsBack(r: Result<Done<J.Value>, Refusal>, c: Handover, v: J.Value, cap: nat, depth: nat,
      used: nat) {
    if NestsWithin(v, MAX_DEPTH - depth) && used + Bytes(c, v) <= cap
    then r == Ok(Done(Rounded(c, v), used + Bytes(c, v)))
    else r.Err?
  }

  ghost predicate ItemsReadBack(r: Result<Done<seq<J.Value>>, Refusal>, c: Handover, v: J.Value, n: nat, cap: nat,
      depth: nat, used: nat)
    requires v.List? && n <= |v.items|
  {
    if ItemsNest(v, n, MAX_DEPTH - depth) && used + BytesItems(c, v, n) <= cap
    then r == Ok(Done(RoundedItems(c, v, n), used + BytesItems(c, v, n)))
    else r.Err?
  }

  ghost predicate ItemsNest(v: J.Value, n: nat, room: int)
    requires v.List? && n <= |v.items|
  {
    forall k :: 0 <= k < n ==> NestsWithin(v.items[k], room)
  }

  ghost predicate FieldsReadBack(
    r: Result<Done<map<string, J.Value>>, Refusal>, c: Handover, v: J.Value, names: seq<string>, cap: nat, depth: nat,
      used: nat)
    requires v.Object?
  {
    if FieldsNest(v, names, MAX_DEPTH - depth) && used + BytesFields(c, v, names) <= cap
    then r == Ok(Done(RoundedFields(c, v, names), used + BytesFields(c, v, names)))
    else r.Err?
  }

  lemma {:induction false} ValueBack(c: Handover, heap: Heap, vm: Vm, cap: nat, v: J.Value, value: LuaValue,
      depth: nat, used: nat)
    requires Orderly(c) && Honest(vm) && Stands(c, heap, value, v) && depth <= MAX_DEPTH && used <= cap
    ensures ReadsBack(Read(heap, vm, cap, value, depth, used), c, v, cap, depth, used)
    decreases v, 2
  {
    if IsTable(v) && depth < MAX_DEPTH {
      var base: nat :| value == ValueAt(c, v, base) && Holds(c, heap, v, base);
      if v.List? {
        ListBack(c, heap, vm, cap, v, base, depth + 1, used);
      } else {
        ObjectBack(c, heap, vm, cap, v, base, depth + 1, used);
      }
    } else if v.Str? {
      TextBytesAreUtf8(v.text);
    }
  }

  /** A marked table whose keys are `1..n` reads as the list of its items. */
  lemma ReadAsList(heap: Heap, vm: Vm, cap: nat, t: TableData, n: nat, depth: nat, used: nat)
    requires Honest(vm) && depth <= MAX_DEPTH && (t.mark == ListMark || t.mark == RecordList)
      && t.entries.Keys == Positions(n)
    ensures ReadTable(heap, vm, cap, t, depth, used) == ListOf(ReadItems(heap, vm, cap, t.entries, n, depth, used))
  {
    ListLengthIsExact(vm.visit(t.entries.Keys), t.entries.Keys, n);
  }

  function ListOf(r: Result<Done<seq<J.Value>>, Refusal>): Result<Done<J.Value>, Refusal> {
    match r
    case Err(e) => Err(e)
    case Ok(read) => Ok(Done(J.List(read.value), read.used))
  }

  lemma ListFromItems(c: Handover, v: J.Value, r: Result<Done<seq<J.Value>>, Refusal>, cap: nat, depth: nat, used: nat)
    requires v.List? && 0 < depth <= MAX_DEPTH && ItemsReadBack(r, c, v, |v.items|, cap, depth, used)
    ensures ReadsBack(ListOf(r), c, v, cap, depth - 1, used)
  {
    assert NestsWithin(v, MAX_DEPTH - (depth - 1)) <==> ItemsNest(v, |v.items|, MAX_DEPTH - depth);
  }

  lemma {:induction false} ListBack(c: Handover, heap: Heap, vm: Vm, cap: nat, v: J.Value, base: nat, depth: nat,
      used: nat)
    requires Orderly(c) && Honest(vm) && v.List? && Holds(c, heap, v, base) && 0 < depth <= MAX_DEPTH && used <= cap
    ensures ReadsBack(ReadTable(heap, vm, cap, heap[base], depth, used), c, v, cap, depth - 1, used)
    decreases v, 1
  {
    var entries := heap[base].entries;
    var items := ReadItems(heap, vm, cap, entries, |v.items|, depth, used);
    assert ReadTable(heap, vm, cap, heap[base], depth, used) == ListOf(items) by {
      ListKeys(c, v, |v.items|, base + 1);
      ReadAsList(heap, vm, cap, heap[base], |v.items|, depth, used);
    }
    assert ItemsReadBack(items, c, v, |v.items|, cap, depth, used) by {
      ItemsStand(c, heap, v, base + 1, entries);
      ItemsBack(c, heap, vm, cap, v, entries, |v.items|, depth, used);
    }
    ListFromItems(c, v, items, cap, depth, used);
  }

  lemma ItemsStand(c: Handover, heap: Heap, v: J.Value, base: nat, entries: map<Key, LuaValue>)
    requires v.List? && HoldsItems(c, heap, v, |v.items|, base) && entries == ListEntries(c, v, |v.items|, base)
    ensures forall k :: 0 <= k < |v.items| ==> Stands(c, heap, Get(entries, Position(k + 1)), v.items[k])
  {
    forall k | 0 <= k < |v.items| ensures Stands(c, heap, Get(entries, Position(k + 1)), v.items[k]) {
      ItemStands(c, heap, v, |v.items|, base, k);
    }
  }

  lemma {:induction false} ItemsBack(
    c: Handover, heap: Heap, vm: Vm, cap: nat, v: J.Value, entries: map<Key, LuaValue>, n: nat, depth: nat, used: nat)
    requires Orderly(c) && Honest(vm) && v.List? && n <= |v.items| && depth <= MAX_DEPTH && used <= cap
    requires forall k :: 0 <= k < n ==> Stands(c, heap, Get(entries, Position(k + 1)), v.items[k])
    ensures ItemsReadBack(ReadItems(heap, vm, cap, entries, n, depth, used), c, v, n, cap, depth, used)
    decreases v, 0, n
  {
    hide Stands, Honest;
    if n > 0 {
      ItemsBack(c, heap, vm, cap, v, entries, n - 1, depth, used);
      var before := ReadItems(heap, vm, cap, entries, n - 1, depth, used);
      if before.Ok? {
        ValueBack(c, heap, vm, cap, v.items[n - 1], Get(entries, Position(n)), depth, before.value.used);
      }
    }
  }

  function NamesOf(keys: seq<Key>): (names: seq<string>)
    requires forall key :: key in keys ==> key.Name?
    ensures |names| == |keys|
    ensures forall k :: 0 <= k < |keys| ==> names[k] == keys[k].name
  {
    if keys == [] then []
    else
      assert keys == Init(keys) + [Last(keys)];
      NamesOf(Init(keys)) + [Last(keys).name]
  }

  /** A table with names for keys and no list's mark reads as the object of its fields. */
  lemma ReadAsObject(heap: Heap, vm: Vm, cap: nat, t: TableData, depth: nat, used: nat)
    requires Honest(vm) && depth <= MAX_DEPTH && (t.mark == Unmarked || t.mark == RecordObject)
    requires forall key :: key in t.entries ==> key.Name?
    ensures ReadTable(heap, vm, cap, t, depth, used) ==
      ObjectOf(ReadFields(heap, vm, cap, t.entries, vm.visit(t.entries.Keys), depth, used))
  {
    assert IsBorder(t.entries, vm.border(t.entries));
  }

  lemma FieldsStand(c: Handover, heap: Heap, v: J.Value, base: nat, entries: map<Key, LuaValue>, keys: seq<Key>)
    requires Orderly(c) && v.Object? && IsListing(keys, entries.Keys)
    requires HoldsFields(c, heap, v, c.order(v.fields.Keys), base)
      && entries == FieldEntries(c, v, c.order(v.fields.Keys), base)
    ensures forall key :: key in entries <==> key.Name? && key.name in v.fields
    ensures AllStand(c, heap, v, entries, keys)
  {
    var names := c.order(v.fields.Keys);
    assert IsListing(names, v.fields.Keys);
    FieldKeys(c, v, names, base);
    forall key | key in keys ensures key.Name? && key.name in v.fields
      && Stands(c, heap, Get(entries, key), v.fields[key.name]) {
      assert key in entries.Keys;
      FieldStands(c, heap, v, names, base, key.name);
    }
  }

  ghost predicate AllStand(c: Handover, heap: Heap, v: J.Value, entries: map<Key, LuaValue>, keys: seq<Key>)
    requires v.Object?
  {
    forall key :: key in keys ==>
      key.Name? && key.name in v.fields && Stands(c, heap, Get(entries, key), v.fields[key.name])
  }

  lemma {:induction false} ObjectBack(c: Handover, heap: Heap, vm: Vm, cap: nat, v: J.Value, base: nat, depth: nat,
      used: nat)
    requires Orderly(c) && Honest(vm) && v.Object? && Holds(c, heap, v, base) && 0 < depth <= MAX_DEPTH && used <= cap
    ensures ReadsBack(ReadTable(heap, vm, cap, heap[base], depth, used), c, v, cap, depth - 1, used)
    decreases v, 1
  {
    var entries := heap[base].entries;
    var keys := vm.visit(entries.Keys);
    var fields := ReadFields(heap, vm, cap, entries, keys, depth, used);
    FieldsStand(c, heap, v, base + 1, entries, keys);
    assert ReadTable(heap, vm, cap, heap[base], depth, used) == ObjectOf(fields) by {
      ReadAsObject(heap, vm, cap, heap[base], depth, used);
    }
    FieldsBack(c, heap, vm, cap, v, entries, keys, depth, used);
    NamesAreListed(keys, entries, v.fields.Keys);
    ObjectFromFields(c, v, NamesOf(keys), fields, cap, depth, used);
  }

  function ObjectOf(r: Result<Done<map<string, J.Value>>, Refusal>): Result<Done<J.Value>, Refusal> {
    match r
    case Err(e) => Err(e)
    case Ok(read) => Ok(Done(J.Object(read.value), read.used))
  }

  lemma ObjectFromFields(
    c: Handover, v: J.Value, names: seq<string>, r: Result<Done<map<string, J.Value>>, Refusal>, cap: nat, depth: nat,
      used: nat)
    requires Orderly(c) && v.Object? && IsListing(names, v.fields.Keys) && 0 < depth <= MAX_DEPTH
    requires FieldsReadBack(r, c, v, names, cap, depth, used)
    ensures ReadsBack(ObjectOf(r), c, v, cap, depth - 1, used)
  {
    FieldsListed(c, v, names, MAX_DEPTH - depth);
  }

  /** Read in any order, the fields make the object. */
  lemma FieldsListed(c: Handover, v: J.Value, names: seq<string>, room: int)
    requires Orderly(c) && v.Object? && IsListing(names, v.fields.Keys) && room >= 0
    ensures J.Object(RoundedFields(c, v, names)) == Rounded(c, v)
    ensures FieldsNest(v, names, room) <==> NestsWithin(v, room + 1)
    ensures BytesFields(c, v, names) == Bytes(c, v)
  {
    assert forall k :: k in names <==> k in v.fields.Keys;
    assert RoundedFields(c, v, names) == (map k | k in v.fields :: Rounded(c, v.fields[k]));
    BytesListed(c, v, names, c.order(v.fields.Keys));
  }

  ghost predicate FieldsNest(v: J.Value, names: seq<string>, room: int)
    requires v.Object?
  {
    forall k :: k in names && k in v.fields ==> NestsWithin(v.fields[k], room)
  }

  /** Names in any order without repeats. */
  lemma NamesAreListed(keys: seq<Key>, entries: map<Key, LuaValue>, names: set<string>)
    requires IsListing(keys, entries.Keys) && forall key :: key in entries <==> key.Name? && key.name in names
    ensures IsListing(NamesOf(keys), names)
  {
    var listed := NamesOf(keys);
    forall k ensures k in listed <==> k in names {
      if k in names {
        assert Name(k) in entries.Keys;
        var i :| 0 <= i < |keys| && keys[i] == Name(k);
        assert listed[i] == k;
      }
      if k in listed {
        var i :| 0 <= i < |listed| && listed[i] == k;
        assert keys[i] in entries.Keys;
      }
    }
    forall a, b | 0 <= a < b < |listed| ensures listed[a] != listed[b] {
      assert keys[a] in entries.Keys && keys[b] in entries.Keys;
      assert keys[a] != keys[b];
    }
  }

  function RoundedFields(c: Handover, v: J.Value, names: seq<string>): map<string, J.Value>
    requires v.Object?
  {
    map k | k in names && k in v.fields :: Rounded(c, v.fields[k])
  }

  lemma FieldsNext(c: Handover, v: J.Value, before: seq<string>, name: string, room: int)
    requires v.Object? && name in v.fields
    ensures RoundedFields(c, v, before + [name]) == RoundedFields(c, v, before)[name := Rounded(c, v.fields[name])]
    ensures FieldsNest(v, before + [name], room) <==> FieldsNest(v, before, room) && NestsWithin(v.fields[name], room)
    ensures BytesFields(c, v, before + [name]) == BytesFields(c, v, before) + Bytes(c, v.fields[name])
  {
    Snoc(before, name);
    assert forall k :: k in before + [name] <==> k in before || k == name;
  }

  lemma {:induction false} FieldsBack(
    c: Handover, heap: Heap, vm: Vm, cap: nat, v: J.Value, entries: map<Key, LuaValue>, keys: seq<Key>, depth: nat,
      used: nat)
    requires Orderly(c) && Honest(vm) && v.Object? && depth <= MAX_DEPTH && used <= cap
    requires AllStand(c, heap, v, entries, keys)
    ensures FieldsReadBack(ReadFields(heap, vm, cap, entries, keys, depth, used), c, v, NamesOf(keys), cap, depth, used)
    decreases v, 0, |keys|
  {
    if keys != [] {
      var before, key := Init(keys), Last(keys);
      assert keys == before + [key];
      FieldsBack(c, heap, vm, cap, v, entries, before, depth, used);
      var r := ReadFields(heap, vm, cap, entries, before, depth, used);
      if r.Ok? {
        var field := Read(heap, vm, cap, Get(entries, key), depth, r.value.used);
        ValueBack(c, heap, vm, cap, v.fields[key.name], Get(entries, key), depth, r.value.used);
        OneMoreField(c, v, NamesOf(before), key.name, r, field, cap, depth, used);
        assert ReadFields(heap, vm, cap, entries, keys, depth, used) == WithField(r, key.name, field);
      } else {
        FieldsNext(c, v, NamesOf(before), key.name, MAX_DEPTH - depth);
      }
    }
  }

  /** The fields read so far, with one more. */
  function WithField(r: Result<Done<map<string, J.Value>>, Refusal>, name: string, field: Result<Done<J.Value>,
      Refusal>)
    : Result<Done<map<string, J.Value>>, Refusal>
    requires r.Ok?
  {
    match field
    case Err(e) => Err(e)
    case Ok(read) => Ok(Done(r.value.value[name := read.value], read.used))
  }

  lemma OneMoreField(
    c: Handover, v: J.Value, before: seq<string>, name: string, r: Result<Done<map<string, J.Value>>, Refusal>,
    field: Result<Done<J.Value>, Refusal>, cap: nat, depth: nat, used: nat)
    requires v.Object? && name in v.fields && r.Ok? && FieldsReadBack(r, c, v, before, cap, depth, used)
    requires depth <= MAX_DEPTH && ReadsBack(field, c, v.fields[name], cap, depth, r.value.used)
    ensures FieldsReadBack(WithField(r, name, field), c, v, before + [name], cap, depth, used)
  {
    FieldsNext(c, v, before, name, MAX_DEPTH - depth);
  }

  // ----- the order of the fields does not matter -----

  lemma {:induction false} ListingMultiset<T(!new)>(order: seq<T>, elements: set<T>)
    requires IsListing(order, elements)
    ensures multiset(order) == multiset(elements)
  {
    if order == [] {
      assert elements == {};
    } else {
      var x := Last(order);
      assert order == Init(order) + [x];
      assert elements == (elements - {x}) + {x};
      ListingMultiset(Init(order), elements - {x});
    }
  }

  lemma {:induction false} BytesWithout(c: Handover, v: J.Value, names: seq<string>, j: nat)
    requires v.Object? && j < |names|
    ensures BytesFields(c, v, names) == BytesFields(c, v, Without(names, j)) + if names[j] in v.fields
      then Bytes(c, v.fields[names[j]]) else 0
  {
    if j < |names| - 1 {
      BytesWithout(c, v, Init(names), j);
      assert Init(Without(names, j)) == Without(Init(names), j);
      assert Last(Without(names, j)) == Last(names);
    } else {
      assert Without(names, j) == Init(names);
    }
  }

  lemma {:induction false} BytesPermuted(c: Handover, v: J.Value, names: seq<string>, others: seq<string>)
    requires v.Object? && multiset(names) == multiset(others)
    ensures BytesFields(c, v, names) == BytesFields(c, v, others)
  {
    if names == [] {
      assert |multiset(others)| == 0;
    } else {
      var j := FindLast(names, others);
      BytesPermuted(c, v, Init(names), Without(others, j));
      BytesWithout(c, v, others, j);
    }
  }

  lemma BytesListed(c: Handover, v: J.Value, names: seq<string>, others: seq<string>)
    requires v.Object? && IsListing(names, v.fields.Keys) && IsListing(others, v.fields.Keys)
    ensures BytesFields(c, v, names) == BytesFields(c, v, others)
  {
    ListingMultiset(names, v.fields.Keys);
    ListingMultiset(others, v.fields.Keys);
    BytesPermuted(c, v, names, others);
  }

  // ----- the record -----

  /** A record a script left alone is read back, integers beyond 63 bits as floats, exactly when
      it nests at most 128 tables and its value strings fit the cap; else it is refused. */
  lemma UntouchedRecord(c: Handover, heap: Heap, vm: Vm, cap: nat, v: J.Value)
    requires Orderly(c) && Honest(vm) && Holds(c, heap, v, 0)
    ensures var r := Read(heap, vm, cap, ValueAt(c, v, 0), 0, 0);
      if NestsWithin(v, 128) && Bytes(c, v) <= cap then r == Ok(Done(Rounded(c, v), Bytes(c, v))) else r.Err?
  {
    ValueBack(c, heap, vm, cap, v, ValueAt(c, v, 0), 0, 0);
  }

  /** With integers in 64 signed bits it comes back as it went. */
  lemma RecordSurvives(c: Handover, heap: Heap, vm: Vm, cap: nat, v: J.Value)
    requires Orderly(c) && Honest(vm) && Holds(c, heap, v, 0)
    ensures (Read(heap, vm, cap, ValueAt(c, v, 0), 0, 0) == Ok(Done(v, Bytes(c, v)))) <==>
      FitsI64(v) && NestsWithin(v, 128) && Bytes(c, v) <= cap
  {
    UntouchedRecord(c, heap, vm, cap, v);
    RoundedIsSame(c, v);
  }

  method Cross(c: Handover, vm: Vm, cap: nat, v: J.Value) returns (r: Result<J.Value, Refusal>)
    requires Orderly(c) && Honest(vm)
    ensures NestsWithin(v, 128) && Bytes(c, v) <= cap ==> r == Ok(Rounded(c, v))
    ensures !(NestsWithin(v, 128) && Bytes(c, v) <= cap) ==> r.Err?
  {
    var lua := new Lua();
    var value := lua.RecordToLua(c, v);
    UntouchedRecord(c, lua.heap, vm, cap, v);
    r := FromLua(lua.heap, vm, cap, value);
  }

  // ----- tables nested too deep -----

  /** A chain of `n` tables, each inside the one before. */
  ghost predicate NestsDeep(heap: Heap, value: LuaValue, n: nat)
    decreases n
  {
    n > 0 ==>
      && value.Table? && value.place < |heap|
      && (n > 1 ==> exists key ::
        key in heap[value.place].entries && NestsDeep(heap, heap[value.place].entries[key], n - 1))
  }

  /** Too long a chain is refused, whatever else the tables hold. */
  lemma {:induction false} TooDeepIsRefused(heap: Heap, vm: Vm, cap: nat, value: LuaValue, depth: nat, used: nat)
    requires Honest(vm) && depth <= 128 && NestsDeep(heap, value, 129 - depth)
    ensures Read(heap, vm, cap, value, depth, used).Err?
    decreases 128 - depth
  {
    if depth < 128 {
      var t := heap[value.place];
      var key :| key in t.entries && NestsDeep(heap, t.entries[key], 128 - depth);
      var inside := depth + 1;
      forall charged: nat ensures Read(heap, vm, cap, t.entries[key], inside, charged).Err? {
        TooDeepIsRefused(heap, vm, cap, t.entries[key], inside, charged);
      }
      EntryRefused(heap, vm, cap, t, key, inside, used);
    }
  }

  lemma EntryRefused(heap: Heap, vm: Vm, cap: nat, t: TableData, key: Key, depth: nat, used: nat)
    requires Honest(vm) && depth <= MAX_DEPTH && key in t.entries
    requires forall charged: nat :: Read(heap, vm, cap, t.entries[key], depth, charged).Err?
    ensures ReadTable(heap, vm, cap, t, depth, used).Err?
  {
    var keys := vm.visit(t.entries.Keys);
    assert key in t.entries.Keys;
    match ShapeOf(vm, t)
    case AsObject =>
      var j :| 0 <= j < |keys| && keys[j] == key;
      Snoc(keys[..j], key);
      assert keys[..j + 1] == keys[..j] + [key];
      FieldsFail(heap, vm, cap, t.entries, keys, j + 1, depth, used);
    case AsList =>
      if ListLength(keys).Ok? {
        var n := ListLength(keys).value;
        ListLengthIsExact(keys, t.entries.Keys, n);
        ItemsFail(heap, vm, cap, t.entries, key.i, n, depth, used);
      }
  }

  /** Tables that contain one another in a circle. */
  ghost predicate IsCircle(heap: Heap, places: set<nat>) {
    forall p :: p in places ==>
      p < |heap| && exists key ::
        key in heap[p].entries && heap[p].entries[key].Table? && heap[p].entries[key].place in places
  }

  lemma {:induction false} CircleNestsDeep(heap: Heap, places: set<nat>, p: nat, n: nat)
    requires IsCircle(heap, places) && p in places
    ensures NestsDeep(heap, Table(p), n)
    decreases n
  {
    if n > 1 {
      var key :| key in heap[p].entries && heap[p].entries[key].Table? && heap[p].entries[key].place in places;
      CircleNestsDeep(heap, places, heap[p].entries[key].place, n - 1);
    }
  }

  /** A table that contains itself is refused, and reading it ends. */
  lemma CircleIsRefused(heap: Heap, vm: Vm, cap: nat, places: set<nat>, p: nat)
    requires Honest(vm) && IsCircle(heap, places) && p in places
    ensures Read(heap, vm, cap, Table(p), 0, 0).Err?
  {
    CircleNestsDeep(heap, places, p, 129);
    TooDeepIsRefused(heap, vm, cap, Table(p), 0, 0);
  }
}
