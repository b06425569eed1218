/** The in-memory state store on its fake clock, against a map whose keys vanish at their ttl
    (crates/core/src/memory.rs:272-489, crates/core/src/state.rs:46-102). */
module Store {
  // Times are whole ticks, and a value's bytes are written as text.

  import opened Wrappers
  import Decimal

  datatype StateError = InjectedFailure | NotAnInteger | WouldOverflow

  datatype Entry = Entry(value: string, expiresAt: nat)

  // ----- signed numbers as text -----

  const I64_LIMIT: int := 0x8000_0000_0000_0000

  predicate IsI64(i: int) {
    -I64_LIMIT <= i < I64_LIMIT
  }

  function PrintInt(i: int): string {
    if i < 0 then "-" + Decimal.Print(-i) else Decimal.Print(i)
  }

  /** `str::parse::<i64>`: one sign is allowed, leading zeros are, and the range is checked. */
  function ParseInt(s: string): Option<int> {
    if s == "" then None
    else
      var digits := if s[0] == '-' || s[0] == '+' then s[1..] else s;
      if digits == "" || !Decimal.AllDigits(digits) then None
      else
        var magnitude: int := Decimal.ValueOf(digits);
        var i := if s[0] == '-' then -magnitude else magnitude;
        if IsI64(i) then Some(i) else None
  }

  /** A number's text reads back as it exactly when it fits 64 signed bits. */
  lemma ParsePrintInt(i: int)
    ensures ParseInt(PrintInt(i)) == if -0x8000_0000_0000_0000 <= i < 0x8000_0000_0000_0000 then Some(i) else None
    ensures PrintInt(i)[0] == '-' <==> i < 0
  {
    var magnitude: nat := if i < 0 then -i else i;
    Decimal.ValueOfPrint(magnitude);
    if i < 0 {
      assert PrintInt(i)[1..] == Decimal.Print(magnitude);
    } else {
      assert Decimal.IsDigit(PrintInt(i)[0]);
    }
  }

  /** The texts that read as a number: its digits, after any leading zeros and at most one sign. */
  lemma ParseIntMeans(s: string, sign: string, z: nat, n: nat)
    requires sign == "" || sign == "+" || sign == "-"
    requires s == sign + (Decimal.Zeros(z) + Decimal.Print(n))
    ensures var i := if sign == "-" then -(n as int) else n;
            ParseInt(s) == if -0x8000_0000_0000_0000 <= i < 0x8000_0000_0000_0000 then Some(i) else None
  {
    hide Decimal.Print, Decimal.Zeros, Decimal.ValueOf;
    var digits := Decimal.Zeros(z) + Decimal.Print(n);
    Decimal.ValueOfPrint(n);
    Decimal.LeadingZeros(z, Decimal.Print(n));
    assert Decimal.IsDigit(digits[0]);
    if sign == "" {
      assert s == digits;
    } else {
      assert s[0] == sign[0] && s[1..] == digits;
    }
  }

  /** And no other text does. */
  lemma ParsedIntIsWritten(s: string) returns (sign: string, z: nat, n: nat)
    requires ParseInt(s).Some?
    ensures sign == "" || sign == "+" || sign == "-"
    ensures s == sign + (Decimal.Zeros(z) + Decimal.Print(n))
  {
    hide Decimal.Print, Decimal.Zeros, Decimal.ValueOf;
    var digits := if s[0] == '-' || s[0] == '+' then s[1..] else s;
    sign := if s[0] == '-' || s[0] == '+' then [s[0]] else "";
    n := Decimal.ValueOf(digits);
    z := Decimal.Stripped(digits);
    assert s == sign + digits;
  }

  // ----- the reference: keys vanish exactly when their ttl has passed -----

  datatype Op =
    | SetNx(key: string, value: string, ttl: nat)
    | Set(key: string, value: string, ttl: nat)
    | CompareAndSet(key: string, expected: string, value: string, ttl: nat)
    | Get(key: string)
    | Incr(key: string, amount: int, ttl: nat)
    | Del(key: string)
    | Advance(ticks: nat)
    | FailAll(on: bool)

  datatype Answer = Nothing | Found(value: string) | Count(n: int) | Failed(e: StateError)

  /** Only keys still to expire are in `keys`. */
  datatype Reference = Reference(keys: map<string, Entry>, now: nat, failing: bool)

  function Unexpired(entries: map<string, Entry>, now: nat): map<string, Entry> {
    map k | k in entries && entries[k].expiresAt > now :: entries[k]
  }

  function Put(r: Reference, key: string, value: string, ttl: nat): Reference {
    r.(keys := if ttl > 0 then r.keys[key := Entry(value, r.now + ttl)] else r.keys - {key})
  }

  function Step(r: Reference, op: Op): (Reference, Answer) {
    if op.Advance? then (r.(now := r.now + op.ticks, keys := Unexpired(r.keys, r.now + op.ticks)), Nothing)
    else if op.FailAll? then (r.(failing := op.on), Nothing)
    else if r.failing then (r, Failed(InjectedFailure))
    else
      match op
      case SetNx(key, value, ttl) =>
        if key in r.keys then (r, Found(r.keys[key].value)) else (Put(r, key, value, ttl), Nothing)
      case Set(key, value, ttl) => (Put(r, key, value, ttl), Nothing)
      case CompareAndSet(key, expected, value, ttl) =>
        if key in r.keys && r.keys[key].value != expected then (r, Found(r.keys[key].value))
          else (Put(r, key, value, ttl), Nothing)
      case Get(key) => (r, if key in r.keys then Found(r.keys[key].value) else Nothing)
      case Incr(key, amount, ttl) =>
        var current := if key in r.keys then ParseInt(r.keys[key].value) else Some(0);
        if current.None? then (r, Failed(NotAnInteger))
        else if !IsI64(current.value + amount) then (r, Failed(WouldOverflow))
        else (Put(r, key, PrintInt(current.value + amount), ttl), Count(current.value + amount))
      case Del(key) => (r.(keys := r.keys - {key}), Nothing)
  }

  function Run(r: Reference, ops: seq<Op>): (Reference, seq<Answer>) {
    if ops == [] then (r, [])
    else
      var (before, answers) := Run(r, ops[..|ops| - 1]);
      var (after, answer) := Step(before, ops[|ops| - 1]);
      (after, answers + [answer])
  }

  // ----- the store: a key past its ttl stays until it is touched -----

  class MemoryStateStore {
    var entries: map<string, Entry>
    var now: nat
    var failing: bool

    constructor ()
      ensures View() == Reference(map[], 0, false)
    {
      entries, now, failing := map[], 0, false;
    }

    /** What a caller can tell of the store. */
    ghost function View(): Reference
      reads this
    {
      Reference(Unexpired(entries, now), now, failing)
    }

    /** The live entry at `key`; an expired one is dropped on the way. */
    method Live(key: string) returns (live: Option<Entry>)
      modifies this`entries
      ensures View() == old(View())
      ensures live == if key in View().keys then Some(View().keys[key]) else None
      ensures live.None? ==> key !in entries
    {
      if key in entries && entries[key].expiresAt <= now {
        entries := entries - {key};
      }
      live := if key in entries then Some(entries[key]) else None;
    }

    method Write(key: string, value: string, ttl: nat)
      modifies this`entries
      ensures View() == Put(old(View()), key, value, ttl)
    {
      entries := entries[key := Entry(value, now + ttl)];
    }

    method DoSetNx(key: string, value: string, ttl: nat) returns (r: Result<Option<string>, StateError>)
      modifies this`entries
      ensures (View(), AnswerOf(r)) == Step(old(View()), SetNx(key, value, ttl))
    {
      if failing {
        return Err(InjectedFailure);
      }
      var live := Live(key);
      if live.Some? {
        return Ok(Some(live.value.value));
      }
      Write(key, value, ttl);
      r := Ok(None);
    }

    method DoSet(key: string, value: string, ttl: nat) returns (r: Result<Option<string>, StateError>)
      modifies this`entries
      ensures (View(), AnswerOf(r)) == Step(old(View()), Set(key, value, ttl))
    {
      if failing {
        return Err(InjectedFailure);
      }
      Write(key, value, ttl);
      r := Ok(None);
    }

    method DoCompareAndSet(key: string, expected: string, value: string, ttl: nat)
        returns (r: Result<Option<string>, StateError>)
      modifies this`entries
      ensures (View(), AnswerOf(r)) == Step(old(View()), CompareAndSet(key, expected, value, ttl))
    {
      if failing {
        return Err(InjectedFailure);
      }
      var live := Live(key);
      if live.Some? && live.value.value != expected {
        return Ok(Some(live.value.value));
      }
      Write(key, value, ttl);
      r := Ok(None);
    }

    method DoGet(key: string) returns (r: Result<Option<string>, StateError>)
      modifies this`entries
      ensures (View(), AnswerOf(r)) == Step(old(View()), Get(key))
    {
      if failing {
        return Err(InjectedFailure);
      }
      var live := Live(key);
      r := Ok(if live.Some? then Some(live.value.value) else None);
    }

    method DoIncr(key: string, amount: int, ttl: nat) returns (r: Result<int, StateError>)
      modifies this`entries
      ensures (View(), CountOf(r)) == Step(old(View()), Incr(key, amount, ttl))
    {
      if failing {
        return Err(InjectedFailure);
      }
      var live := Live(key);
      var current := if live.None? then Some(0) else ParseInt(live.value.value);
      if current.None? {
        return Err(NotAnInteger);
      }
      if !IsI64(current.value + amount) {
        return Err(WouldOverflow);
      }
      Write(key, PrintInt(current.value + amount), ttl);
      r := Ok(current.value + amount);
    }

    method DoDel(key: string) returns (r: Result<Option<string>, StateError>)
      modifies this`entries
      ensures (View(), AnswerOf(r)) == Step(old(View()), Del(key))
    {
      if failing {
        return Err(InjectedFailure);
      }
      entries := entries - {key};
      assert View().keys == old(View()).keys - {key};
      r := Ok(None);
    }

    method DoAdvance(ticks: nat)
      modifies this`now
      ensures View() == Step(old(View()), Advance(ticks)).0
    {
      now := now + ticks;
    }

    method DoFailAll(on: bool)
      modifies this`failing
      ensures View() == Step(old(View()), FailAll(on)).0
    {
      failing := on;
    }

    /** `keys`: every expired key is dropped, the rest are listed. */
    method LiveKeys() returns (keys: set<string>)
      modifies this`entries
      ensures View() == old(View()) && keys == View().keys.Keys && entries == View().keys
    {
      entries := Unexpired(entries, now);
      keys := entries.Keys;
    }

    method Perform(op: Op) returns (answer: Answer)
      modifies this
      ensures (View(), answer) == Step(old(View()), op)
    {
      match op
      case SetNx(key, value, ttl) =>
        var r := DoSetNx(key, value, ttl);
        answer := AnswerOf(r);
      case Set(key, value, ttl) =>
        var r := DoSet(key, value, ttl);
        answer := AnswerOf(r);
      case CompareAndSet(key, expected, value, ttl) =>
        var r := DoCompareAndSet(key, expected, value, ttl);
        answer := AnswerOf(r);
      case Get(key) =>
        var r := DoGet(key);
        answer := AnswerOf(r);
      case Incr(key, amount, ttl) =>
        var r := DoIncr(key, amount, ttl);
        answer := CountOf(r);
      case Del(key) =>
        var r := DoDel(key);
        answer := AnswerOf(r);
      case Advance(amount) =>
        DoAdvance(amount);
        answer := Nothing;
      case FailAll(on) =>
        DoFailAll(on);
        answer := Nothing;
    }

    /** Any run of operations, clock moves and outages gives the reference's answers. */
    method PerformAll(ops: seq<Op>) returns (answers: seq<Answer>)
      modifies this
      ensures (View(), answers) == Run(old(View()), ops)
    {
      answers := [];
      for i := 0 to |ops|
        invariant (View(), answers) == Run(old(View()), ops[..i])
      {
        assert ops[..i + 1][..i] == ops[..i];
        var answer := Perform(ops[i]);
        answers := answers + [answer];
      }
      assert ops[..|ops|] == ops;
    }
  }

  function AnswerOf(r: Result<Option<string>, StateError>): Answer {
    match r
    case Err(e) => Failed(e)
    case Ok(None) => Nothing
    case Ok(Some(value)) => Found(value)
  }

  function CountOf(r: Result<int, StateError>): Answer {
    match r
    case Err(e) => Failed(e)
    case Ok(n) => Count(n)
  }

  // ----- laws of the reference -----

  predicate Touches(op: Op, key: string) {
    !op.Advance? && !op.FailAll? && op.key == key
  }

  /** What a key holds, if anything. */
  function At(r: Reference, key: string): Option<Entry> {
    if key in r.keys then Some(r.keys[key]) else None
  }

  /** An operation on another key changes nothing at this one but what the clock does. */
  lemma OtherKeysKept(r: Reference, op: Op, key: string)
    requires !Touches(op, key)
    ensures At(Step(r, op).0, key) ==
      if op.Advance? && key in r.keys && r.keys[key].expiresAt <= r.now + op.ticks then None else At(r, key)
    ensures Step(r, op).0.now == r.now + if op.Advance? then op.ticks else 0
  {
  }

  function Elapsed(ops: seq<Op>): nat {
    if ops == [] then 0 else Elapsed(ops[..|ops| - 1]) + if ops[|ops| - 1].Advance? then ops[|ops| - 1].ticks else 0
  }

  /** A key that nobody touches stands exactly until its ttl has run out. */
  lemma {:induction false} StandsUntilTtl(r: Reference, key: string, ops: seq<Op>)
    requires key in r.keys && r.keys[key].expiresAt > r.now && forall i :: 0 <= i < |ops| ==> !Touches(ops[i], key)
    ensures At(Run(r, ops).0, key) == if r.now + Elapsed(ops) < r.keys[key].expiresAt then Some(r.keys[key]) else None
    ensures Run(r, ops).0.now == r.now + Elapsed(ops)
  {
    if ops != [] {
      var before := ops[..|ops| - 1];
      StandsUntilTtl(r, key, before);
      OtherKeysKept(Run(r, before).0, ops[|ops| - 1], key);
    }
  }

  /** A claim holds while its ttl lasts: until then no other claim of the key succeeds. */
  lemma ClaimHolds(r: Reference, key: string, value: string, ttl: nat, ops: seq<Op>, other: string, otherTtl: nat)
    requires !r.failing && key !in r.keys && ttl > 0 && forall i :: 0 <= i < |ops| ==> !Touches(ops[i], key)
    ensures var claimed := Step(r, SetNx(key, value, ttl));
      var later := Run(claimed.0, ops).0;
      && claimed.1 == Nothing
      && (!later.failing ==>
        Step(later, SetNx(key, other, otherTtl)).1 == if Elapsed(ops) < ttl then Found(value) else Nothing)
  {
    StandsUntilTtl(Step(r, SetNx(key, value, ttl)).0, key, ops);
  }

  /** Increments add up while the key stands, and one that would overflow leaves it as it was. */
  lemma IncrementsAddUp(r: Reference, key: string, a: int, b: int, ttl: nat)
    requires !r.failing && ttl > 0 && Step(r, Incr(key, a, ttl)).1.Count?
    ensures var first := Step(r, Incr(key, a, ttl));
      var second := Step(first.0, Incr(key, b, ttl));
      if IsI64(first.1.n + b) then second.1 == Count(first.1.n + b)
      else second == (first.0, Failed(WouldOverflow))
  {
    ParsePrintInt(Step(r, Incr(key, a, ttl)).1.n);
  }

  /** An operation on a key is decided by what that key holds, wherever it is kept. */
  lemma StepIsLocal(r: Reference, op: Op, other: Reference, renamed: Op)
    requires !op.Advance? && !op.FailAll? && !renamed.Advance? && !renamed.FailAll?
      && renamed == op.(key := renamed.key)
    requires At(r, op.key) == At(other, renamed.key) && r.now == other.now && r.failing == other.failing
    ensures Step(r, op).1 == Step(other, renamed).1
    ensures At(Step(r, op).0, op.key) == At(Step(other, renamed).0, renamed.key)
    ensures Step(r, op).0.now == Step(other, renamed).0.now && Step(r, op).0.failing == Step(other, renamed).0.failing
  {
  }
}
