/** Reading a returned Lua value as JSON, and the round trip of an untouched record
    (crates/lua/src/convert.rs:158-310). */
module LuaReader {
  import opened Wrappers
  import opened Tallies
  import opened LuaTables
  import opened LuaCrossing
  import J = Json

  datatype Refusal =
    | TooDeep
    | TooLong
    | KeyNotAString
    | KeyNotUtf8
    | TextNotUtf8
    | NotFiniteNumber
    | NoJsonForm
    | NotAList(e: ListError)

  /** What was read, and the string bytes charged so far. */
  datatype Done<+T> = Done(value: T, used: nat)

  /** A table's value under a key; an absent one is `nil`. */
  function Get(entries: map<Key, LuaValue>, key: Key): LuaValue {
    if key in entries then entries[key] else Nil
  }

  // ----- reading, as a function of the depth and of the bytes used -----

  /** `depth` tables around the value. A place outside the heap names no table. */
  function Read(heap: Heap, vm: Vm, cap: nat, value: LuaValue, depth: nat, used: nat): Result<Done<J.Value>, Refusal>
    requires depth <= MAX_DEPTH
    decreases MAX_DEPTH - depth, 0
  {
    match value
    case Nil => Ok(Done(J.Null, used))
    case JsonNull => Ok(Done(J.Null, used))
    case Boolean(b) => Ok(Done(J.Bool(b), used))
    case Integer(i) => Ok(Done(J.Number(J.Int(i)), used))
    case Number(f) => if f.Finite? then Ok(Done(J.Number(J.Float(f.f)), used)) else Err(NotFiniteNumber)
    case Text(text) => if used + TextBytes(text) > cap then Err(TooLong)
      else Ok(Done(J.Str(text), used + TextBytes(text)))
    case NotUtf8(bytes) => if used + bytes > cap then Err(TooLong) else Err(TextNotUtf8)
    case Table(place) =>
      if place >= |heap| then Err(NoJsonForm)
      else if depth == MAX_DEPTH then Err(TooDeep)
      else ReadTable(heap, vm, cap, heap[place], depth + 1, used)
    case Foreign => Err(NoJsonForm)
  }

  function ReadTable(heap: Heap, vm: Vm, cap: nat, t: TableData, depth: nat, used: nat): Result<Done<J.Value>, Refusal>
    requires depth <= MAX_DEPTH
    decreases MAX_DEPTH - depth, 2
  {
    match ShapeOf(vm, t)
    case AsObject =>
      (match ReadFields(heap, vm, cap, t.entries, vm.visit(t.entries.Keys), depth, used)
       case Err(e) => Err(e)
       case Ok(read) => Ok(Done(J.Object(read.value), read.used)))
    case AsList =>
      match ListLength(vm.visit(t.entries.Keys))
      case Err(e) => Err(NotAList(e))
      case Ok(n) =>
        match ReadItems(heap, vm, cap, t.entries, n, depth, used)
        case Err(e) => Err(e)
        case Ok(read) => Ok(Done(J.List(read.value), read.used))
  }

  /** The first `n` positions. */
  function ReadItems(heap: Heap, vm: Vm, cap: nat, entries: map<Key, LuaValue>, n: nat, depth: nat,
      used: nat): Result<Done<seq<J.Value>>, Refusal>
    requires depth <= MAX_DEPTH
    decreases MAX_DEPTH - depth, 1, n
  {
    if n == 0 then Ok(Done([], used))
    else
      match ReadItems(heap, vm, cap, entries, n - 1, depth, used)
      case Err(e) => Err(e)
      case Ok(before) =>
        match Read(heap, vm, cap, Get(entries, Position(n)), depth, before.used)
        case Err(e) => Err(e)
        case Ok(item) => Ok(Done(before.value + [item.value], item.used))
  }

  /** These keys, in this order. */
  function ReadFields(heap: Heap, vm: Vm, cap: nat, entries: map<Key, LuaValue>, keys: seq<Key>, depth: nat, used: nat)
    : Result<Done<map<string, J.Value>>, Refusal>
    requires depth <= MAX_DEPTH
    decreases MAX_DEPTH - depth, 1, |keys|
  {
    if keys == [] then Ok(Done(map[], used))
    else
      match ReadFields(heap, vm, cap, entries, Init(keys), depth, used)
      case Err(e) => Err(e)
      case Ok(before) =>
        match Last(keys)
        case Position(_) => Err(KeyNotAString)
        case OtherKey(_) => Err(KeyNotAString)
        case NameNotUtf8(_) => Err(KeyNotUtf8)
        case Name(name) =>
          match Read(heap, vm, cap, Get(entries, Last(keys)), depth, before.used)
          case Err(e) => Err(e)
          case Ok(field) => Ok(Done(before.value[name := field.value], field.used))
  }

  // ----- the reader of the source -----

  class Reader {
    const heap: Heap
    const vm: Vm
    const cap: nat
    var used: nat
    var depth: nat

    constructor (heap: Heap, vm: Vm, cap: nat)
      ensures this.heap == heap && this.vm == vm && this.cap == cap && used == 0 && depth == 0
    {
      this.heap, this.vm, this.cap := heap, vm, cap;
      used, depth := 0, 0;
    }

    method Take(bytes: nat) returns (refused: bool)
      modifies this`used
      ensures used == old(used) + bytes && refused == (used > cap)
    {
      used := used + bytes;
      refused := used > cap;
    }

    method Enter() returns (refused: bool)
      requires depth <= MAX_DEPTH
      modifies this`depth
      ensures depth == old(depth) + 1 && refused == (old(depth) == MAX_DEPTH)
    {
      depth := depth + 1;
      refused := depth > MAX_DEPTH;
    }

    method ReadJson(value: LuaValue) returns (r: Result<J.Value, Refusal>)
      requires depth <= MAX_DEPTH
      modifies this
      ensures match Read(heap, vm, cap, value, old(depth), old(used))
        case Err(e) => r == Err(e)
        case Ok(done) => r == Ok(done.value) && used == done.used && depth == old(depth)
      decreases MAX_DEPTH - depth, 0
    {
      match value
      case Nil => r := Ok(J.Null);
      case JsonNull => r := Ok(J.Null);
      case Boolean(b) => r := Ok(J.Bool(b));
      case Integer(i) => r := Ok(J.Number(J.Int(i)));
      case Number(f) => r := if f.Finite? then Ok(J.Number(J.Float(f.f))) else Err(NotFiniteNumber);
      case Text(text) =>
        var refused := Take(TextBytes(text));
        r := if refused then Err(TooLong) else Ok(J.Str(text));
      case NotUtf8(bytes) =>
        var refused := Take(bytes);
        r := Err(if refused then TooLong else TextNotUtf8);
      case Table(place) =>
        if place >= |heap| {
          r := Err(NoJsonForm);
        } else {
          r := ReadJsonTable(heap[place]);
        }
      case Foreign => r := Err(NoJsonForm);
    }

    method ReadJsonTable(t: TableData) returns (r: Result<J.Value, Refusal>)
      requires depth <= MAX_DEPTH
      modifies this
      ensures old(depth) == MAX_DEPTH ==> r == Err(TooDeep)
      ensures old(depth) < MAX_DEPTH ==>
        match ReadTable(heap, vm, cap, t, old(depth) + 1, old(used))
        case Err(e) => r == Err(e)
        case Ok(done) => r == Ok(done.value) && used == done.used && depth == old(depth)
      decreases MAX_DEPTH - depth, 0, 0
    {
      var refused := Enter();
      if refused {
        return Err(TooDeep);
      }
      match ShapeOf(vm, t)
      case AsObject =>
        var fields := Entries(t);
        r := match fields case Err(e) => Err(e) case Ok(all) => Ok(J.Object(all));
      case AsList =>
        var items := Items(t);
        r := match items case Err(e) => Err(e) case Ok(all) => Ok(J.List(all));
    }

    method Entries(t: TableData) returns (r: Result<map<string, J.Value>, Refusal>)
      requires 0 < depth <= MAX_DEPTH
      modifies this
      ensures match ReadFields(heap, vm, cap, t.entries, vm.visit(t.entries.Keys), old(depth), old(used))
        case Err(e) => r == Err(e)
        case Ok(done) => r == Ok(done.value) && used == done.used && depth == old(depth) - 1
      decreases MAX_DEPTH - depth, 1
    {
      var keys := vm.visit(t.entries.Keys);
      var fields: map<string, J.Value> := map[];
      for i := 0 to |keys|
        invariant depth == old(depth)
        invariant ReadFields(heap, vm, cap, t.entries, keys[..i], depth, old(used)) == Ok(Done(fields, used))
      {
        Snoc(keys[..i], keys[i]);
        assert keys[..i + 1] == keys[..i] + [keys[i]];
        FieldsFail(heap, vm, cap, t.entries, keys, i + 1, depth, old(used));
        if keys[i].NameNotUtf8? {
          return Err(KeyNotUtf8);
        }
        if !keys[i].Name? {
          return Err(KeyNotAString);
        }
        var value := ReadJson(Get(t.entries, keys[i]));
        if value.Err? {
          return Err(value.error);
        }
        fields := fields[keys[i].name := value.value];
      }
      assert keys[..|keys|] == keys;
      depth := depth - 1;
      r := Ok(fields);
    }

    method Items(t: TableData) returns (r: Result<seq<J.Value>, Refusal>)
      requires 0 < depth <= MAX_DEPTH
      modifies this
      ensures match ListLength(vm.visit(t.entries.Keys))
        case Err(e) => r == Err(NotAList(e))
        case Ok(n) =>
          match ReadItems(heap, vm, cap, t.entries, n, old(depth), old(used))
          case Err(e) => r == Err(e)
          case Ok(done) => r == Ok(done.value) && used == done.used && depth == old(depth) - 1
      decreases MAX_DEPTH - depth, 1
    {
      var length := ListLen(vm.visit(t.entries.Keys));
      if length.Err? {
        return Err(NotAList(length.error));
      }
      var items: seq<J.Value> := [];
      for i := 0 to length.value
        invariant depth == old(depth)
        invariant ReadItems(heap, vm, cap, t.entries, i, depth, old(used)) == Ok(Done(items, used))
      {
        ItemsFail(heap, vm, cap, t.entries, i + 1, length.value, depth, old(used));
        var item := ReadJson(Get(t.entries, Position(i + 1)));
        if item.Err? {
          return Err(item.error);
        }
        items := items + [item.value];
      }
      depth := depth - 1;
      r := Ok(items);
    }
  }

  /** A refusal among the first entries is the refusal of all. */
  lemma {:induction false} FieldsFail(heap: Heap, vm: Vm, cap: nat, entries: map<Key, LuaValue>, keys: seq<Key>,
      i: nat, depth: nat, used: nat)
    requires depth <= MAX_DEPTH && i <= |keys|
    ensures var part := ReadFields(heap, vm, cap, entries, keys[..i], depth, used);
      part.Err? ==> ReadFields(heap, vm, cap, entries, keys, depth, used) == part
    decreases |keys| - i
  {
    if i < |keys| {
      FieldsFail(heap, vm, cap, entries, keys, i + 1, depth, used);
      assert Init(keys[..i + 1]) == keys[..i];
    } else {
      assert keys[..i] == keys;
    }
  }

  lemma {:induction false} ItemsFail(heap: Heap, vm: Vm, cap: nat, entries: map<Key, LuaValue>, i: nat, n: nat,
      depth: nat, used: nat)
    requires depth <= MAX_DEPTH && i <= n
    ensures var part := ReadItems(heap, vm, cap, entries, i, depth, used);
      part.Err? ==> ReadItems(heap, vm, cap, entries, n, depth, used) == part
    decreases n - i
  {
    if i < n {
      ItemsFail(heap, vm, cap, entries, i + 1, n, depth, used);
    }
  }

  /** `from_lua`. */
  method FromLua(heap: Heap, vm: Vm, cap: nat, value: LuaValue) returns (r: Result<J.Value, Refusal>)
    ensures match Read(heap, vm, cap, value, 0, 0)
      case Err(e) => r == Err(e)
      case Ok(done) => r == Ok(done.value)
  {
    var reader := new Reader(heap, vm, cap);
    r := reader.ReadJson(value);
  }
}
