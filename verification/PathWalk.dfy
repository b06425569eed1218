/** Reading, writing and removing by path inside a JSON record
    (crates/core/src/path.rs:208-219, 468-542). */
module PathWalk {
  import opened Wrappers
  import opened Json
  import Decimal

  /** The list position a segment names: digits with no leading zero, in the machine's range. */
  function Position(segment: string): Option<nat> {
    if segment == "" || !Decimal.AllDigits(segment) then None
    else if |segment| > 1 && segment[0] == '0' then None
    else Decimal.ParseUnsigned(segment, U64_LIMIT)
  }

  /** A position has one spelling, so two segments never name the same list item. */
  lemma PositionInjective(s: string, t: string)
    requires Position(s).Some? && Position(s) == Position(t)
    ensures s == t
  {
    Decimal.PrintValueOf(s);
    Decimal.PrintValueOf(t);
  }

  /** And every position below 2^64 has that spelling: its decimal digits. */
  lemma PositionOfPrint(i: nat)
    ensures Position(Decimal.Print(i)) == if i < 0x1_0000_0000_0000_0000 then Some(i) else None
  {
    Decimal.ValueOfPrint(i);
  }

  /** The existing list item `segment` names. */
  function ItemAt(items: seq<Value>, segment: string): (i: Option<nat>)
    ensures i.Some? ==> i.value < |items| && Position(segment) == i
  {
    if Position(segment).Some? && Position(segment).value < |items| then Position(segment) else None
  }

  /** One step of a walk. */
  function Child(v: Value, segment: string): (c: Option<Value>)
    ensures c.Some? ==> c.value < v
  {
    match v
    case Object(fields) => if segment in fields then Some(fields[segment]) else None
    case List(items) => if ItemAt(items, segment).Some? then Some(items[ItemAt(items, segment).value]) else None
    case _ => None
  }

  function ReadAt(v: Value, segments: seq<string>): Option<Value> {
    if segments == [] then Some(v)
    else
      match Child(v, segments[0])
      case None => None
      case Some(c) => ReadAt(c, segments[1..])
  }

  /** What the slot for `segment` holds before the write: the existing child, or null. */
  function SlotValue(v: Value, segment: string): Value {
    match Child(v, segment)
    case None => Null
    case Some(c) => c
  }

  /** `v` with the slot for `segment` holding `x`: an existing list item, or else a key of an
      object, which replaces whatever is in the way. */
  function SetSlot(v: Value, segment: string, x: Value): Value {
    match v
    case List(items) =>
      if ItemAt(items, segment).Some? then List(items[ItemAt(items, segment).value := x]) else Object(map[segment := x])
    case Object(fields) => Object(fields[segment := x])
    case _ => Object(map[segment := x])
  }

  function WriteAt(v: Value, segments: seq<string>, x: Value): Value
    decreases segments
  {
    if segments == [] then x
    else SetSlot(v, segments[0], WriteAt(SlotValue(v, segments[0]), segments[1..], x))
  }

  /** `v` without its existing child; a list closes the gap. */
  function DropChild(v: Value, segment: string): Value
    requires Child(v, segment).Some?
  {
    match v
    case Object(fields) => Object(fields - {segment})
    case List(items) =>
      var i := ItemAt(items, segment).value;
      List(items[..i] + items[i + 1..])
  }

  /** `v` after removing what `segments` names, which must be there. */
  function RemoveAt(v: Value, segments: seq<string>): Value
    requires ReadAt(v, segments).Some?
  {
    if segments == [] then Null
    else if |segments| == 1 then DropChild(v, segments[0])
    else SetSlot(v, segments[0], RemoveAt(Child(v, segments[0]).value, segments[1..]))
  }

  // ----- the record, updated in place -----

  /** Where a walk stepped: into a list item or under a key. */
  datatype Frame = Frame(parent: Value, segment: string)

  /** The value that has `v` at the bottom of `frames`. */
  function Plug(frames: seq<Frame>, v: Value): Value {
    if frames == [] then v
    else
      var last := |frames| - 1;
      Plug(frames[..last], SetSlot(frames[last].parent, frames[last].segment, v))
  }

  class Record {
    var value: Value

    constructor (v: Value)
      ensures value == v
    {
      value := v;
    }

    /** Climb back out of a walk, storing each level. */
    method Store(frames: seq<Frame>, v: Value)
      modifies this
      ensures value == Plug(frames, v)
    {
      var current := v;
      var k := |frames|;
      assert frames[..k] == frames;
      while k > 0
        invariant 0 <= k <= |frames|
        invariant Plug(frames[..k], current) == Plug(frames, v)
      {
        k := k - 1;
        current := SetSlot(frames[k].parent, frames[k].segment, current);
        assert frames[..k + 1][..k] == frames[..k];
      }
      value := current;
    }

    /** `write_at`: make every slot on the way exist, then store. */
    method Write(segments: seq<string>, x: Value)
      modifies this
      ensures value == WriteAt(old(value), segments, x)
    {
      var current := value;
      var frames: seq<Frame> := [];
      assert segments[0..] == segments;
      for k := 0 to |segments|
        invariant Plug(frames, WriteAt(current, segments[k..], x)) == WriteAt(value, segments, x)
        invariant value == old(value)
      {
        var next := frames + [Frame(current, segments[k])];
        assert next[..|frames|] == frames;
        assert segments[k..][1..] == segments[k + 1..];
        current, frames := SlotValue(current, segments[k]), next;
      }
      Store(frames, x);
    }

    /** `read_at`. */
    method Read(segments: seq<string>) returns (v: Option<Value>)
      ensures v == ReadAt(value, segments)
    {
      var current := value;
      assert segments[0..] == segments;
      for k := 0 to |segments|
        invariant ReadAt(current, segments[k..]) == ReadAt(value, segments)
      {
        assert segments[k..][1..] == segments[k + 1..];
        var child := Child(current, segments[k]);
        if child.None? {
          return None;
        }
        current := child.value;
      }
      return Some(current);
    }

    /** `remove_at`: hand back what was there, or leave the record as it is. */
    method Remove(segments: seq<string>) returns (removed: Option<Value>)
      modifies this
      ensures removed == ReadAt(old(value), segments)
      ensures value == if removed.Some? then RemoveAt(old(value), segments) else old(value)
    {
      if segments == [] {
        removed := Some(value);
        value := Null;
        return;
      }
      var last := |segments| - 1;
      var current := value;
      var frames: seq<Frame> := [];
      assert segments[0..] == segments;
      for k := 0 to last
        invariant ReadAt(current, segments[k..]) == ReadAt(value, segments)
        invariant ReadAt(value, segments).Some? ==>
          Plug(frames, RemoveAt(current, segments[k..])) == RemoveAt(value, segments)
        invariant value == old(value)
      {
        assert segments[k..][1..] == segments[k + 1..];
        var child := Child(current, segments[k]);
        if child.None? {
          return None;
        }
        var next := frames + [Frame(current, segments[k])];
        assert next[..|frames|] == frames;
        current, frames := child.value, next;
      }
      assert segments[last..] == [segments[last]];
      removed := Child(current, segments[last]);
      if removed.Some? {
        Store(frames, DropChild(current, segments[last]));
      }
    }
  }

  // ----- laws -----

  /** Every item of a list is read, written and removed under its index in decimal. */
  lemma ItemsHaveNames(items: seq<Value>, i: nat, x: Value)
    requires i < |items| && i < 0x1_0000_0000_0000_0000
    ensures var name := [Decimal.Print(i)];
            && ReadAt(List(items), name) == Some(items[i])
            && WriteAt(List(items), name, x) == List(items[i := x])
            && RemoveAt(List(items), name) == List(items[..i] + items[i + 1..])
  {
    PositionOfPrint(i);
    var name := [Decimal.Print(i)];
    assert name[1..] == [];
    assert ReadAt(items[i], name[1..]) == Some(items[i]);
  }

  /** And no other segment names an item: a read finds nothing, and a write makes an object of
      that one key in the list's place. */
  lemma OnlyIndicesName(items: seq<Value>, segment: string, x: Value)
    ensures ReadAt(List(items), [segment]).Some? <==>
            exists i :: 0 <= i < |items| && i < 0x1_0000_0000_0000_0000 && segment == Decimal.Print(i)
    ensures ReadAt(List(items), [segment]).None? ==> WriteAt(List(items), [segment], x) == Object(map[segment := x])
  {
    forall i | 0 <= i < |items| && i < 0x1_0000_0000_0000_0000 && segment == Decimal.Print(i)
      ensures ItemAt(items, segment).Some?
    {
      PositionOfPrint(i);
    }
    if ItemAt(items, segment).Some? {
      Decimal.PrintValueOf(segment);
    }
  }

  lemma ReadSetSlot(v: Value, s: string, x: Value)
    ensures Child(SetSlot(v, s, x), s) == Some(x)
  {
  }

  lemma {:induction false} ReadAppend(v: Value, p: seq<string>, r: seq<string>)
    ensures ReadAt(v, p + r) == if ReadAt(v, p).Some? then ReadAt(ReadAt(v, p).value, r) else None
  {
    if p == [] {
      assert p + r == r;
    } else {
      assert (p + r)[1..] == p[1..] + r;
      if Child(v, p[0]).Some? {
        ReadAppend(Child(v, p[0]).value, p[1..], r);
      }
    }
  }

  /** What a walk along `p` meets, or null where it leaves the record. */
  function Found(v: Value, p: seq<string>): Value {
    if ReadAt(v, p).Some? then ReadAt(v, p).value else Null
  }

  /** A write changes what lies on its way exactly by the rest of the write. With no rest:
      reading after a write gives the written value. */
  lemma {:induction false} ReadOnTheWay(v: Value, p: seq<string>, r: seq<string>, x: Value)
    ensures ReadAt(WriteAt(v, p + r, x), p) == Some(WriteAt(Found(v, p), r, x))
    decreases p
  {
    if p == [] {
      assert p + r == r;
    } else {
      assert (p + r)[1..] == p[1..] + r;
      var slot := SlotValue(v, p[0]);
      ReadOnTheWay(slot, p[1..], r, x);
      ReadSetSlot(v, p[0], WriteAt(slot, p[1..] + r, x));
      if Child(v, p[0]).None? {
        ReadNull(p[1..]);
      }
    }
  }

  lemma ReadNull(p: seq<string>)
    ensures Found(Null, p) == Null
  {
  }

  lemma ReadAfterWrite(v: Value, p: seq<string>, x: Value)
    ensures ReadAt(WriteAt(v, p, x), p) == Some(x)
  {
    assert p + [] == p;
    ReadOnTheWay(v, p, [], x);
  }

  /** Below a written path is what the written value holds there. */
  lemma ReadBelowWrite(v: Value, p: seq<string>, r: seq<string>, x: Value)
    ensures ReadAt(WriteAt(v, p, x), p + r) == ReadAt(x, r)
  {
    ReadAfterWrite(v, p, x);
    ReadAppend(WriteAt(v, p, x), p, r);
  }

  lemma SetSlotTwice(v: Value, s: string, x: Value, y: Value)
    ensures SetSlot(SetSlot(v, s, x), s, y) == SetSlot(v, s, y)
  {
    match v
    case List(items) =>
      if ItemAt(items, s).Some? {
        var i := ItemAt(items, s).value;
        assert items[i := x][i := y] == items[i := y];
      } else {
        assert map[s := x][s := y] == map[s := y];
      }
    case Object(fields) => assert fields[s := x][s := y] == fields[s := y];
    case _ => assert map[s := x][s := y] == map[s := y];
  }

  /** A second write at the same path wins. */
  lemma {:induction false} WriteTwice(v: Value, p: seq<string>, x: Value, y: Value)
    ensures WriteAt(WriteAt(v, p, x), p, y) == WriteAt(v, p, y)
    decreases p
  {
    if p != [] {
      var slot := SlotValue(v, p[0]);
      var inner := WriteAt(slot, p[1..], x);
      ReadSetSlot(v, p[0], inner);
      WriteTwice(slot, p[1..], x, y);
      SetSlotTwice(v, p[0], inner, WriteAt(slot, p[1..], y));
    }
  }

  /** The two paths part after their first `k` segments. */
  predicate PartAt(p: seq<string>, q: seq<string>, k: nat) {
    k < |p| && k < |q| && p[..k] == q[..k] && p[k] != q[k]
  }

  /** Where the paths part there is a list, and `segment` names none of its items, so writing
      through it replaces the list by an object. */
  predicate ReplacesList(at: Option<Value>, segment: string) {
    at.Some? && at.value.List? && ItemAt(at.value.items, segment).None?
  }

  lemma ReadOtherSlot(v: Value, s: string, t: string, x: Value)
    requires s != t
    ensures Child(SetSlot(v, s, x), t) == if ReplacesList(Some(v), s) then None else Child(v, t)
  {
    if v.List? && ItemAt(v.items, s).Some? && ItemAt(v.items, t).Some? {
      if ItemAt(v.items, s) == ItemAt(v.items, t) {
        PositionInjective(s, t);
      }
    }
  }

  /** The frame law, exactly: a write through `p` leaves a path that diverges from it as it
      was, unless they part at a list with no item named by `p`'s segment; then the list is
      gone and the other path reads nothing. */
  lemma {:induction false} WriteFrame(v: Value, p: seq<string>, q: seq<string>, k: nat, x: Value)
    requires PartAt(p, q, k)
    ensures ReadAt(WriteAt(v, p, x), q) == if ReplacesList(ReadAt(v, p[..k]), p[k]) then None else ReadAt(v, q)
    decreases p
  {
    var slot := SlotValue(v, p[0]);
    var inner := WriteAt(slot, p[1..], x);
    if k == 0 {
      ReadOtherSlot(v, p[0], q[0], inner);
    } else {
      assert p[0] == p[..k][0] && q[0] == q[..k][0];
      assert p[1..][..k - 1] == p[..k][1..] && q[1..][..k - 1] == q[..k][1..];
      WriteFrame(slot, p[1..], q[1..], k - 1, x);
      ReadSetSlot(v, p[0], inner);
    }
  }

  /** So a diverging read changes just when it read something and the list it was in goes. */
  lemma WriteDisturbs(v: Value, p: seq<string>, q: seq<string>, k: nat, x: Value)
    requires PartAt(p, q, k)
    ensures ReadAt(WriteAt(v, p, x), q) != ReadAt(v, q) <==>
            ReplacesList(ReadAt(v, p[..k]), p[k]) && ReadAt(v, q).Some?
  {
    WriteFrame(v, p, q, k, x);
  }

  /** Removing a key leaves nothing there; removing a list item leaves the one after it. */
  lemma ReadDropped(v: Value, s: string)
    requires Child(v, s).Some?
    ensures v.Object? ==> Child(DropChild(v, s), s).None?
    ensures v.List? ==> DropChild(v, s).List? && var i := ItemAt(v.items, s).value;
                        Child(DropChild(v, s), s) == if i + 1 < |v.items| then Some(v.items[i + 1]) else None
  {
  }

  /** Removing what `p` names and walking to its parent finds the parent without it. */
  lemma {:induction false} ReadParentAfterRemove(v: Value, p: seq<string>, s: string)
    requires ReadAt(v, p + [s]).Some?
    ensures ReadAt(v, p).Some? && Child(ReadAt(v, p).value, s).Some?
    ensures ReadAt(RemoveAt(v, p + [s]), p) == Some(DropChild(ReadAt(v, p).value, s))
  {
    ReadAppend(v, p, [s]);
    if p == [] {
      assert p + [s] == [s];
    } else {
      assert (p + [s])[1..] == p[1..] + [s];
      ReadParentAfterRemove(Child(v, p[0]).value, p[1..], s);
      ReadSetSlot(v, p[0], RemoveAt(Child(v, p[0]).value, p[1..] + [s]));
    }
  }

  lemma ReadOtherDropped(v: Value, s: string, t: string)
    requires s != t && Child(v, s).Some?
    requires v.Object? || Position(t).None? || Position(t).value < Position(s).value
    ensures Child(DropChild(v, s), t) == Child(v, t)
  {
  }

  /** Every item from the removed one's place on moves down by one. */
  lemma DroppedShifts(v: Value, s: string, t: string)
    requires v.List? && Child(v, s).Some? && Position(t).Some? && Position(t).value >= Position(s).value
    ensures Child(DropChild(v, s), t) ==
            if Position(t).value + 1 < |v.items| then Some(v.items[Position(t).value + 1]) else None
  {
  }

  /** A removal leaves a diverging path as it was, unless they part at a list item at or after
      the removed one's place. */
  lemma {:induction false} RemoveFrame(v: Value, p: seq<string>, q: seq<string>, k: nat)
    requires PartAt(p, q, k) && ReadAt(v, p).Some?
    requires ReadAt(v, p[..k]).Some? && Child(ReadAt(v, p[..k]).value, p[k]).Some?
    requires k + 1 < |p| || ReadAt(v, p[..k]).value.Object? || Position(q[k]).None?
      || Position(q[k]).value < Position(p[k]).value
    ensures ReadAt(RemoveAt(v, p), q) == ReadAt(v, q)
  {
    var child := Child(v, p[0]).value;
    if k == 0 {
      if |p| == 1 {
        ReadOtherDropped(v, p[0], q[0]);
      } else {
        ReadOtherSlot(v, p[0], q[0], RemoveAt(child, p[1..]));
      }
    } else {
      assert p[0] == p[..k][0] && q[0] == q[..k][0];
      assert p[1..][..k - 1] == p[..k][1..] && q[1..][..k - 1] == q[..k][1..];
      RemoveFrame(child, p[1..], q[1..], k - 1);
      ReadSetSlot(v, p[0], RemoveAt(child, p[1..]));
    }
  }
}
