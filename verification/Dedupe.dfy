/** The `dedupe` stage of one record: the holder it stores, its verdict against the holder of
    the key, and the bounded takeover (crates/stages/src/dedupe.rs). */
module Dedupe {
  import opened Wrappers
  import Decimal

  const TAKEOVER_ATTEMPTS: nat := 2

  datatype Verdict = SameRecord | OlderThanHolder | Repeat | WindowOver | Unreadable

  datatype Output = Pass | Drop | StateError

  /** `"{id} {ingestion time}"`: who holds a key. Times are nanoseconds. */
  datatype Holder = Holder(id: u64, time: u64) {
    function ToBytes(): string {
      Decimal.Print(id) + " " + Decimal.Print(time)
    }

    /** `split_once(' ')`, then both halves as `u64`. */
    static function Parse(value: string): Option<Holder> {
      var at := IndexOf(value, ' ');
      if at == |value| then None
      else
        match (Decimal.ParseUnsigned(value[..at], U64_LIMIT), Decimal.ParseUnsigned(value[at + 1..], U64_LIMIT))
        case (Some(id), Some(time)) => Some(Holder(id, time))
        case _ => None
    }

    function Against(holder: Holder, window: u64): Verdict {
      if id == holder.id then SameRecord
      else if time < holder.time then OlderThanHolder
      else if time - holder.time < window then Repeat
      else WindowOver
    }

    function AgainstValue(value: string, window: u64): Verdict {
      match Parse(value)
      case None => Unreadable
      case Some(holder) => Against(holder, window)
    }
  }

  function IndexOf(s: string, c: char): (i: nat)
    ensures i <= |s| && (i < |s| ==> s[i] == c)
    ensures forall k :: 0 <= k < i ==> s[k] != c
  {
    if s == [] || s[0] == c then 0 else 1 + IndexOf(s[1..], c)
  }

  function Settle(verdict: Verdict): Output {
    if verdict == Repeat then Drop else Pass
  }

  /** Reading back a stored holder gives the holder that was written, so the encoding is
      injective and a conditional write can only replace the very holder it judged. */
  lemma ParseToBytes(h: Holder)
    ensures Holder.Parse(h.ToBytes()) == Some(h)
  {
    var id, time := Decimal.Print(h.id), Decimal.Print(h.time);
    var value := h.ToBytes();
    var at := IndexOf(value, ' ');
    assert value[|id|] == ' ';
    assert forall k :: 0 <= k < |id| ==> value[k] == id[k] && Decimal.IsDigit(value[k]);
    assert at == |id|;
    assert value[..at] == id && value[at + 1..] == time;
    Decimal.ParsePrint(h.id, U64_LIMIT);
    Decimal.ParsePrint(h.time, U64_LIMIT);
  }

  lemma ToBytesInjective(a: Holder, b: Holder)
    requires a.ToBytes() == b.ToBytes()
    ensures a == b
  {
    ParseToBytes(a);
    ParseToBytes(b);
  }

  /** The texts that read as a holder: two numbers below 2^64 around one space. */
  lemma ParseMeans(value: string, h: Holder)
    ensures Holder.Parse(value) == Some(h) <==>
            exists at :: 0 <= at < |value| && value[at] == ' '
                                && Decimal.ParseUnsigned(value[..at], 0x1_0000_0000_0000_0000) == Some(h.id)
                                && Decimal.ParseUnsigned(value[at + 1..], 0x1_0000_0000_0000_0000) == Some(h.time)
  {
    forall at | 0 <= at < |value| && value[at] == ' '
                && Decimal.ParseUnsigned(value[..at], 0x1_0000_0000_0000_0000).Some?
      ensures IndexOf(value, ' ') == at
    {
      var id := value[..at];
      assert forall k :: 0 <= k < at ==> value[k] == id[k] && (Decimal.IsDigit(id[k]) || id[k] == '+');
    }
  }

  // ----- one worker's exchange with the store -----

  /** What the store answered: nothing held the key (or the write took it), another value
      holds it, or the operation failed. */
  datatype Reply = Vacant | Held(value: string) | Failed

  datatype Request = SetNx(value: string) | CompareAndSet(expected: string, value: string)

  datatype Move = Decide(output: Output) | TryTakeover

  /** What a worker does on reading `value` after `tries` takeovers were refused. */
  function NextMove(incoming: Holder, value: string, tries: nat, window: u64): Move {
    if tries >= TAKEOVER_ATTEMPTS then Decide(Pass)
    else
      var verdict := incoming.AgainstValue(value, window);
      if verdict == WindowOver then TryTakeover else Decide(Settle(verdict))
  }

  /** Reply `k` was a stale holder, and the worker asked to take over exactly that holder. */
  ghost predicate TookOver(incoming: Holder, window: u64, replies: seq<Reply>, asked: seq<Request>, k: nat)
    requires k < |replies| && k + 1 < |asked|
  {
    && replies[k].Held?
    && NextMove(incoming, replies[k].value, k, window) == TryTakeover
    && asked[k + 1] == CompareAndSet(replies[k].value, incoming.ToBytes())
  }

  /** `asked` is what a worker following `NextMove` asks of a store that answers `replies`,
      and `out` is what it then returns. */
  ghost predicate Exchange(incoming: Holder, window: u64, replies: seq<Reply>, asked: seq<Request>, out: Output)
    requires 0 < |asked| <= |replies|
  {
    var last := |asked| - 1;
    && asked[0] == SetNx(incoming.ToBytes())
    && (forall k :: 0 <= k < last ==> TookOver(incoming, window, replies, asked, k))
    && match replies[last]
       case Vacant => out == Pass
       case Failed => out == StateError
       case Held(value) => NextMove(incoming, value, last, window) == Decide(out)
  }

  lemma AsksNext(incoming: Holder, window: u64, replies: seq<Reply>, asked: seq<Request>, holder: string, tries: nat)
    requires |asked| == tries + 1 < |replies| && replies[tries] == Held(holder)
    requires forall k :: 0 <= k < tries ==> TookOver(incoming, window, replies, asked, k)
    requires NextMove(incoming, holder, tries, window) == TryTakeover
    ensures var more := asked + [CompareAndSet(holder, incoming.ToBytes())];
            forall k :: 0 <= k < tries + 1 ==> TookOver(incoming, window, replies, more, k)
  {
    hide NextMove;
    var more := asked + [CompareAndSet(holder, incoming.ToBytes())];
    forall k | 0 <= k < tries
      ensures TookOver(incoming, window, replies, more, k)
    {
      assert TookOver(incoming, window, replies, asked, k);
    }
  }

  /** The reading is another record's holder in whose window the incoming record lies. */
  ghost predicate Covered(incoming: Holder, window: u64, value: string) {
    var h := Holder.Parse(value);
    h.Some? && h.value.id != incoming.id && h.value.time <= incoming.time < h.value.time + window
  }

  /** The reading is another record's holder whose window is over. */
  ghost predicate Stale(incoming: Holder, window: u64, value: string) {
    var h := Holder.Parse(value);
    h.Some? && h.value.id != incoming.id && h.value.time + window <= incoming.time
  }

  /** What a reply settles by itself; none when it is a stale holder, to be taken over. */
  ghost function Ruling(incoming: Holder, window: u64, reply: Reply): Option<Output> {
    match reply
    case Vacant => Some(Pass)
    case Failed => Some(StateError)
    case Held(value) =>
      if Covered(incoming, window, value) then Some(Drop)
      else if Stale(incoming, window, value) then None
      else Some(Pass)
  }

  /** `Dedupe::process` against any store: `replies` are the answers it gives in turn, which
      other workers decide. The claim's reply and, if that was stale, the first takeover's are ruled on
      alike; a worker whose second takeover is refused as well passes its record without
      another reading. */
  method Process(incoming: Holder, window: u64, replies: seq<Reply>) returns (out: Output, asked: seq<Request>)
    requires |replies| == 3
    ensures 0 < |asked| <= |replies|
    ensures Exchange(incoming, window, replies, asked, out)
    ensures var first, second := Ruling(incoming, window, replies[0]), Ruling(incoming, window, replies[1]);
            && |asked| == (if first.Some? then 1 else if second.Some? then 2 else 3)
            && out == if first.Some? then first.value
                      else if second.Some? then second.value
                      else if replies[2] == Failed then StateError
                      else Pass
  {
    hide Holder.Parse, Holder.ToBytes;
    asked := [SetNx(incoming.ToBytes())];
    if replies[0].Failed? {
      return StateError, asked;
    }
    if replies[0].Vacant? {
      return Pass, asked;
    }
    var holder := replies[0].value;
    for tries := 0 to TAKEOVER_ATTEMPTS
      invariant |asked| == tries + 1
      invariant asked[0] == SetNx(incoming.ToBytes())
      invariant replies[tries] == Held(holder)
      invariant forall k :: 0 <= k < tries ==> TookOver(incoming, window, replies, asked, k)
      invariant tries > 0 ==> Ruling(incoming, window, replies[0]).None?
      invariant tries > 1 ==> Ruling(incoming, window, replies[1]).None?
    {
      var verdict := incoming.AgainstValue(holder, window);
      if verdict != WindowOver {
        return Settle(verdict), asked;
      }
      AsksNext(incoming, window, replies, asked, holder, tries);
      asked := asked + [CompareAndSet(holder, incoming.ToBytes())];
      match replies[tries + 1]
      case Vacant => return Pass, asked;
      case Failed => return StateError, asked;
      case Held(current) => holder := current;
    }
    out := Settle(WindowOver);
  }
}
