/** Lua values and tables, and which tables read as lists (crates/lua/src/convert.rs:127-156,
    345-369). A table is a place in the heap, so tables may be shared or contain themselves. */
module LuaTables {
  import opened Wrappers
  import opened Tallies

  type LuaInt = i: int | -0x8000_0000_0000_0000 <= i < 0x8000_0000_0000_0000

  /** Not finite: an infinity, or not a number. */
  datatype LuaFloat = Finite(f: real) | NotFinite

  /** `Foreign` is a function, a coroutine or userdata. */
  datatype LuaValue =
    | Nil
    | JsonNull
    | Boolean(b: bool)
    | Integer(i: LuaInt)
    | Number(f: LuaFloat)
    | Text(text: string)
    | NotUtf8(bytes: nat)
    | Table(place: nat)
    | Foreign

  /** The metatables the stage knows: the list mark and the two of a record table. */
  datatype Mark = Unmarked | ListMark | RecordList | RecordObject | OtherMark

  datatype Key = Position(i: int) | Name(name: string) | NameNotUtf8(of: nat) | OtherKey(of: nat)

  datatype TableData = TableData(mark: Mark, entries: map<Key, LuaValue>)

  type Heap = seq<TableData>

  /** Some order of the elements of a set, each once. */
  ghost predicate IsListing<T(!new)>(order: seq<T>, elements: set<T>) {
    && (forall x :: x in order <==> x in elements)
    && (forall a, b :: 0 <= a < b < |order| ==> order[a] != order[b])
  }

  /** In what order `pairs` visits a table's keys, and what `#` says its length is. */
  datatype Vm = Vm(visit: set<Key> -> seq<Key>, border: map<Key, LuaValue> -> nat)

  /** A border: the position before the first absent one after it, or 0 if 1 is absent. */
  predicate IsBorder(entries: map<Key, LuaValue>, n: nat) {
    (n == 0 || Position(n) in entries) && Position(n + 1) !in entries
  }

  ghost predicate Honest(vm: Vm) {
    && (forall keys :: IsListing(vm.visit(keys), keys))
    && (forall entries :: IsBorder(entries, vm.border(entries)))
  }

  function Beyond(entries: map<Key, LuaValue>, n: nat): set<Key> {
    set k | k in entries.Keys && k.Position? && k.i > n
  }

  /** A border can always be found. */
  lemma {:induction false} HasBorder(entries: map<Key, LuaValue>, n: nat) returns (border: nat)
    requires n == 0 || Position(n) in entries
    ensures border >= n && IsBorder(entries, border)
    decreases Beyond(entries, n)
  {
    border := n;
    if Position(n + 1) in entries {
      assert Position(n + 1) in Beyond(entries, n) && Position(n + 1) !in Beyond(entries, n + 1);
      border := HasBorder(entries, n + 1);
    }
  }

  /** A table that holds just the positions up to `n` has that one border. */
  lemma SequenceHasOneBorder(entries: map<Key, LuaValue>, n: nat, border: nat)
    requires forall i: int :: Position(i) in entries <==> 1 <= i <= n
    ensures IsBorder(entries, border) <==> border == n
  {
    assert Position(border) in entries <==> 1 <= border <= n;
    assert Position(border + 1) in entries <==> border + 1 <= n;
  }

  datatype Shape = AsList | AsObject

  /** A record table carries its shape; any other is a list if marked so or if it holds positions. */
  function ShapeOf(vm: Vm, t: TableData): Shape {
    match t.mark
    case RecordList => AsList
    case RecordObject => AsObject
    case _ => if t.mark == ListMark || vm.border(t.entries) > 0 then AsList else AsObject
  }

  /** An unmarked table with an item at 1 reads as a list, one without positions as an object; a mark
      settles it for an empty list, and a record table is read in its own shape. */
  lemma ShapeMeans(vm: Vm, t: TableData)
    requires Honest(vm)
    ensures t.mark == RecordList || t.mark == ListMark ==> ShapeOf(vm, t) == AsList
    ensures t.mark == RecordObject ==> ShapeOf(vm, t) == AsObject
    ensures (t.mark == Unmarked || t.mark == OtherMark) && Position(1) in t.entries ==> ShapeOf(vm, t) == AsList
    ensures (t.mark == Unmarked || t.mark == OtherMark) && (forall i :: i > 0 ==> Position(i) !in t.entries) ==>
              ShapeOf(vm, t) == AsObject
  {
    assert IsBorder(t.entries, vm.border(t.entries));
  }

  datatype ListError = NotAPosition | Hole

  predicate IsPosition(k: Key) {
    k.Position? && k.i > 0
  }

  function Larger(a: nat, b: nat): nat {
    if a < b then b else a
  }

  /** The largest of the positions among `keys`. */
  function LastPosition(keys: seq<Key>): nat {
    if keys == [] then 0
    else Larger(LastPosition(Init(keys)), if IsPosition(Last(keys)) then Last(keys).i else 0)
  }

  /** The length of a table read as a list, from its keys in the order they are visited. */
  function ListLength(keys: seq<Key>): Result<nat, ListError> {
    if exists k :: k in keys && !IsPosition(k) then Err(NotAPosition)
    else if |keys| != LastPosition(keys) then Err(Hole)
    else Ok(|keys|)
  }

  /** `list_len`. */
  method ListLen(keys: seq<Key>) returns (r: Result<nat, ListError>)
    ensures r == ListLength(keys)
  {
    var count, last := 0, 0;
    for i := 0 to |keys|
      invariant count == i && last == LastPosition(keys[..i])
      invariant forall k :: k in keys[..i] ==> IsPosition(k)
    {
      Snoc(keys[..i], keys[i]);
      assert keys[..i + 1] == keys[..i] + [keys[i]];
      if !IsPosition(keys[i]) {
        return Err(NotAPosition);
      }
      count := count + 1;
      last := Larger(last, keys[i].i);
    }
    assert keys[..|keys|] == keys;
    if count != last {
      return Err(Hole);
    }
    r := Ok(last);
  }

  /** The positions `1..n`. */
  function Positions(n: nat): set<Key>
    ensures forall k :: k in Positions(n) <==> k.Position? && 1 <= k.i <= n
    ensures |Positions(n)| == n
  {
    if n == 0 then {} else Positions(n - 1) + {Position(n)}
  }

  lemma {:induction false} LastIsLargest(keys: seq<Key>)
    ensures forall k :: k in keys && IsPosition(k) ==> k.i <= LastPosition(keys)
    ensures LastPosition(keys) > 0 ==> Position(LastPosition(keys)) in keys
  {
    if keys != [] {
      LastIsLargest(Init(keys));
      assert keys == Init(keys) + [Last(keys)];
    }
  }

  lemma {:induction false} ListingSize<T(!new)>(order: seq<T>, elements: set<T>)
    requires IsListing(order, elements)
    ensures |order| == |elements|
  {
    if order == [] {
      assert elements == {};
    } else {
      var x := Last(order);
      assert order == Init(order) + [x];
      assert elements == (elements - {x}) + {x};
      ListingSize(Init(order), elements - {x});
    }
  }

  lemma SubsetOfSize<T>(a: set<T>, b: set<T>)
    requires a <= b && |a| == |b|
    ensures a == b
  {
    assert b == a + (b - a);
  }

  lemma PositionsMeasure(order: seq<Key>, n: nat)
    requires IsListing(order, Positions(n))
    ensures ListLength(order) == Ok(n)
  {
    ListingSize(order, Positions(n));
    LastIsLargest(order);
    if n > 0 {
      assert Position(n) in order;
    }
  }

  lemma MeasuredPositions(order: seq<Key>, keys: set<Key>, n: nat)
    requires IsListing(order, keys) && ListLength(order) == Ok(n)
    ensures keys == Positions(n)
  {
    ListingSize(order, keys);
    LastIsLargest(order);
    SubsetOfSize(keys, Positions(n));
  }

  /** A table has a list's length exactly when its keys are the positions up to it. */
  lemma ListLengthIsExact(order: seq<Key>, keys: set<Key>, n: nat)
    requires IsListing(order, keys)
    ensures ListLength(order) == Ok(n) <==> keys == Positions(n)
  {
    if ListLength(order) == Ok(n) {
      MeasuredPositions(order, keys, n);
    }
    if keys == Positions(n) {
      PositionsMeasure(order, n);
    }
  }
}
