/** Every run of workers deduplicating over one shared store, with settlement. */
module DedupeRuns {
  // A message is a record at the `dedupe` node of one handle (crates/core/src/stage.rs:138-184
  // keeps handles apart). Workers take atomic store steps (crates/stages/src/dedupe.rs:115-155,
  // crates/core/src/memory.rs:407-451) that interleave freely; a store operation may fail with
  // or without having taken effect; keys vanish at any moment, which covers any clock; foreign
  // values may appear under a key; workers crash anywhere; deliveries are counted and settled
  // as the source does (crates/nats/src/source.rs:170-225). At most one delivery of a message
  // is in flight at a time.

  import opened Wrappers
  import opened Dedupe
  import Settlement

  type Key = string

  datatype StateErrorPolicy = PassOn | NakIt

  datatype Config = Config(window: u64, limit: nat, policy: StateErrorPolicy)

  datatype Message = Message(record: Holder, key: Key)

  /** A stored value. `writer` is history: the message whose worker wrote it, if any did. */
  datatype Entry = Entry(value: string, writer: Option<nat>)

  /** What a worker last read from the store, and the step it read it at. */
  datatype Reading = Reading(entry: Entry, at: nat)

  datatype Phase =
    | Waiting
    | Claiming
    | Judging(reading: Reading, tries: nat)
    | Passed
    | Dropped(reading: Reading)
    | Failed
    | DeadLetterStored
    | AckedPass
    | AckedDrop(reading: Reading)
    | Terminated
    | GivenUp

  /** `steps` counts the steps taken; `deadLetters` holds the messages whose dead letter is
      stored. */
  datatype State = State(
    phases: seq<Phase>,
    delivered: seq<nat>,
    store: map<Key, Entry>,
    deadLetters: set<nat>,
    steps: nat)

  /** Whether a store operation answers, or fails before or after taking effect. */
  datatype Fault = Answered | LostRequest | LostReply

  /** What one message's delivery does next. */
  datatype Action =
    | Deliver
    | RunOut
    | Claim(fault: Fault)
    | TakeOver(fault: Fault)
    | Judge
    | WalkFails
    | Ack
    | Nak(infoReadable: bool)
    | PublishDeadLetter(stored: bool)
    | Terminate
    | Crash

  datatype Event =
    | Act(m: nat, action: Action)
    | Expire(key: Key)
    | ForeignWrite(key: Key, value: string)

  predicate InFlight(p: Phase) {
    p.Claiming? || p.Judging? || p.Passed? || p.Dropped? || p.Failed? || p.DeadLetterStored?
  }

  ghost predicate WellFormed(msgs: seq<Message>, s: State) {
    |s.phases| == |s.delivered| == |msgs|
  }

  predicate Init(msgs: seq<Message>, s: State) {
    s == State(seq(|msgs|, i => Waiting), seq(|msgs|, i => 0), map[], {}, 0)
  }

  function Bytes(msgs: seq<Message>, m: nat): string
    requires m < |msgs|
  {
    msgs[m].record.ToBytes()
  }

  function MoveOf(c: Config, msgs: seq<Message>, m: nat, p: Phase): Move
    requires m < |msgs| && p.Judging?
  {
    NextMove(msgs[m].record, p.reading.entry.value, p.tries, c.window)
  }

  predicate MayAct(c: Config, msgs: seq<Message>, s: State, m: nat, action: Action)
    requires |s.phases| == |s.delivered| == |msgs| && m < |msgs|
  {
    var p := s.phases[m];
    match action
    case Deliver => p.Waiting? && s.delivered[m] < c.limit
    case RunOut => p.Waiting? && s.delivered[m] >= c.limit
    case Claim(_) => p.Claiming?
    case TakeOver(_) => p.Judging? && MoveOf(c, msgs, m, p) == TryTakeover
    case Judge => p.Judging? && MoveOf(c, msgs, m, p).Decide?
    case WalkFails => p.Passed? || p.Dropped?
    case Ack => p.Passed? || p.Dropped?
    case Nak(infoReadable) => p.Failed? && !(infoReadable && Settlement.IsFinalDelivery(s.delivered[m], c.limit))
    case PublishDeadLetter(_) => p.Failed? && Settlement.IsFinalDelivery(s.delivered[m], c.limit)
    case Terminate => p.DeadLetterStored?
    case Crash => InFlight(p)
  }

  predicate Enabled(c: Config, msgs: seq<Message>, s: State, e: Event)
    requires |s.phases| == |s.delivered| == |msgs|
  {
    match e
    case Act(m, action) => m < |msgs| && MayAct(c, msgs, s, m, action)
    case Expire(key) => key in s.store
    case ForeignWrite(key, value) => Holder.Parse(value).None?
  }

  /** The phase after a failed store operation: the node's `on_state_error`. */
  function OnStateError(c: Config): Phase {
    if c.policy == PassOn then Passed else Phase.Failed
  }

  function ToPhase(s: State, m: nat, p: Phase): State
    requires m < |s.phases|
  {
    s.(phases := s.phases[m := p])
  }

  /** `set_nx`: the write happens only when nothing holds the key. */
  function ApplyClaim(c: Config, msgs: seq<Message>, s: State, m: nat, fault: Fault): State
    requires |s.phases| == |s.delivered| == |msgs| && m < |msgs|
  {
    var key := msgs[m].key;
    var t := if fault != LostRequest && key !in s.store
             then s.(store := s.store[key := Entry(Bytes(msgs, m), Some(m))]) else s;
    ToPhase(t, m,
            if fault != Answered then OnStateError(c)
            else if key in s.store then Judging(Reading(s.store[key], s.steps), 0)
            else Passed)
  }

  /** `compare_and_set`: the write happens when the key holds the expected value or nothing. */
  function ApplyTakeOver(c: Config, msgs: seq<Message>, s: State, m: nat, fault: Fault): State
    requires |s.phases| == |s.delivered| == |msgs| && m < |msgs| && s.phases[m].Judging?
  {
    var key := msgs[m].key;
    var p := s.phases[m];
    var accepted := key !in s.store || s.store[key].value == p.reading.entry.value;
    var t := if fault != LostRequest && accepted
             then s.(store := s.store[key := Entry(Bytes(msgs, m), Some(m))]) else s;
    ToPhase(t, m,
            if fault != Answered then OnStateError(c)
            else if accepted then Passed
            else Judging(Reading(s.store[key], s.steps), p.tries + 1))
  }

  function Effect(c: Config, msgs: seq<Message>, s: State, m: nat, action: Action): State
    requires |s.phases| == |s.delivered| == |msgs| && m < |msgs|
    requires MayAct(c, msgs, s, m, action)
  {
    var p := s.phases[m];
    match action
    case Deliver => ToPhase(s, m, Claiming).(delivered := s.delivered[m := s.delivered[m] + 1])
    case RunOut => ToPhase(s, m, GivenUp)
    case Claim(fault) => ApplyClaim(c, msgs, s, m, fault)
    case TakeOver(fault) => ApplyTakeOver(c, msgs, s, m, fault)
    case Judge => ToPhase(s, m, if MoveOf(c, msgs, m, p) == Decide(Drop) then Dropped(p.reading) else Passed)
    case WalkFails => ToPhase(s, m, Phase.Failed)
    case Ack => ToPhase(s, m, if p.Passed? then AckedPass else AckedDrop(p.reading))
    case Nak(_) => ToPhase(s, m, Waiting)
    case PublishDeadLetter(stored) =>
      if stored then ToPhase(s, m, DeadLetterStored).(deadLetters := s.deadLetters + {m}) else ToPhase(s, m, Waiting)
    case Terminate => ToPhase(s, m, Terminated)
    case Crash => ToPhase(s, m, Waiting)
  }

  function Apply(c: Config, msgs: seq<Message>, s: State, e: Event): (t: State)
    requires |s.phases| == |s.delivered| == |msgs|
    requires Enabled(c, msgs, s, e)
    ensures |t.phases| == |t.delivered| == |msgs|
  {
    var t :=
      match e
      case Act(m, action) => Effect(c, msgs, s, m, action)
      case Expire(key) => s.(store := s.store - {key})
      case ForeignWrite(key, value) => s.(store := s.store[key := Entry(value, None)]);
    t.(steps := s.steps + 1)
  }

  predicate Next(c: Config, msgs: seq<Message>, s: State, e: Event, t: State) {
    && |s.phases| == |s.delivered| == |msgs|
    && Enabled(c, msgs, s, e)
    && t == Apply(c, msgs, s, e)
  }

  // ----- the invariant -----

  /** The reading a message's fate rests on: none unless it is judging, or dropped. */
  function ReadingOf(p: Phase): Option<Reading> {
    if p.Judging? || p.Dropped? || p.AckedDrop? then Some(p.reading) else None
  }

  /** Message `m`'s fate rests on a value that message `h` wrote, `h` another message. */
  predicate RestsOn(s: State, m: nat, h: nat)
    requires m < |s.phases|
  {
    var r := ReadingOf(s.phases[m]);
    r.Some? && r.value.entry.writer == Some(h) && h != m
  }

  /** `m` lies in the window `h` opened. */
  predicate Covers(c: Config, msgs: seq<Message>, h: nat, m: nat)
    requires h < |msgs| && m < |msgs|
  {
    && msgs[h].key == msgs[m].key
    && msgs[h].record.id != msgs[m].record.id
    && msgs[h].record.time <= msgs[m].record.time < msgs[h].record.time + c.window
  }

  /** A value is its writer's holder, and parses only if a worker wrote it. */
  predicate EntryOk(msgs: seq<Message>, key: Key, e: Entry) {
    match e.writer
    case Some(h) => h < |msgs| && msgs[h].key == key && e.value == Bytes(msgs, h)
    case None => Holder.Parse(e.value).None?
  }

  /** What is known of message `m` alone: its reading is of its own key and past, a drop is
      covered by the window of the reading's writer, a message whose fate rests on another's
      value does not hold its key, and its settlement matches its deliveries. */
  predicate MessageOk(c: Config, msgs: seq<Message>, s: State, m: nat)
    requires |s.phases| == |s.delivered| == |msgs| && m < |msgs|
  {
    var p := s.phases[m];
    var r := ReadingOf(p);
    && (r.Some? ==>
          && EntryOk(msgs, msgs[m].key, r.value.entry)
          && r.value.at < s.steps
          && (r.value.entry.writer == Some(m) || msgs[m].key !in s.store || s.store[msgs[m].key].writer != Some(m)))
    && (p.Dropped? || p.AckedDrop? ==>
          && p.reading.entry.writer.Some?
          && p.reading.entry.writer.value < |msgs|
          && Covers(c, msgs, p.reading.entry.writer.value, m))
    && (p.Terminated? || p.DeadLetterStored? ==> m in s.deadLetters)
    && (p.GivenUp? ==> s.delivered[m] >= c.limit)
    && (m in s.deadLetters ==>
          && s.delivered[m] >= c.limit
          && (p.DeadLetterStored? || p.Terminated? || p.Waiting? || p.GivenUp?))
  }

  /** If `m` rests on `h` and `h` on a third message, then `m` read first. */
  predicate Ordered(s: State, m: nat, h: nat)
    requires m < |s.phases| && h < |s.phases|
  {
    RestsOn(s, m, h) && ReadingOf(s.phases[h]).Some? && ReadingOf(s.phases[h]).value.entry.writer != Some(h) ==>
      ReadingOf(s.phases[m]).value.at < ReadingOf(s.phases[h]).value.at
  }

  ghost predicate Inv(c: Config, msgs: seq<Message>, s: State) {
    && WellFormed(msgs, s)
    && (forall key :: key in s.store ==> EntryOk(msgs, key, s.store[key]))
    && (forall m :: 0 <= m < |msgs| ==> MessageOk(c, msgs, s, m))
    && (forall m, h :: 0 <= m < |msgs| && 0 <= h < |msgs| ==> Ordered(s, m, h))
  }

  lemma InvInit(c: Config, msgs: seq<Message>, s: State)
    requires Init(msgs, s)
    ensures Inv(c, msgs, s)
  {
  }

  /** A decision to drop rests on a holder whose window covers the record. */
  lemma DropIsCovered(c: Config, msgs: seq<Message>, s: State, m: nat)
    requires Inv(c, msgs, s) && m < |msgs| && s.phases[m].Judging?
    requires MoveOf(c, msgs, m, s.phases[m]) == Decide(Drop)
    ensures s.phases[m].reading.entry.writer.Some?
    ensures s.phases[m].reading.entry.writer.value < |msgs|
    ensures Covers(c, msgs, s.phases[m].reading.entry.writer.value, m)
  {
    assert MessageOk(c, msgs, s, m);
    var entry := s.phases[m].reading.entry;
    if entry.writer.Some? {
      ParseToBytes(msgs[entry.writer.value].record);
    }
  }

  /** What a step of `m` may change: its own phase and count, and its key, which it writes only
      when it keeps no reading; a new reading is of its key as it stands, taken last of all. */
  ghost predicate ActsAlone(msgs: seq<Message>, s: State, t: State, m: nat)
    requires |s.phases| == |s.delivered| == |t.phases| == |t.delivered| == |msgs| && m < |msgs|
  {
    var key := msgs[m].key;
    var r := ReadingOf(t.phases[m]);
    && t.steps == s.steps + 1
    && (forall i :: 0 <= i < |msgs| && i != m ==> t.phases[i] == s.phases[i] && t.delivered[i] == s.delivered[i])
    && (forall i :: i != m ==> (i in t.deadLetters <==> i in s.deadLetters))
    && (t.store == s.store || (t.store == s.store[key := Entry(Bytes(msgs, m), Some(m))] && r.None?))
    && (r.None? || r == ReadingOf(s.phases[m]) || (key in s.store && r == Some(Reading(s.store[key], s.steps))))
  }

  lemma ActionActsAlone(c: Config, msgs: seq<Message>, s: State, m: nat, action: Action)
    requires |s.phases| == |s.delivered| == |msgs| && m < |msgs| && MayAct(c, msgs, s, m, action)
    ensures ActsAlone(msgs, s, Apply(c, msgs, s, Act(m, action)), m)
  {
  }

  lemma ClaimActorOk(c: Config, msgs: seq<Message>, s: State, m: nat, fault: Fault)
    requires |s.phases| == |s.delivered| == |msgs| && m < |msgs|
    requires s.phases[m].Claiming? && MessageOk(c, msgs, s, m)
    requires msgs[m].key in s.store ==> EntryOk(msgs, msgs[m].key, s.store[msgs[m].key])
    ensures MessageOk(c, msgs, ApplyClaim(c, msgs, s, m, fault).(steps := s.steps + 1), m)
  {
  }

  lemma TakeOverActorOk(c: Config, msgs: seq<Message>, s: State, m: nat, fault: Fault)
    requires |s.phases| == |s.delivered| == |msgs| && m < |msgs|
    requires s.phases[m].Judging? && MessageOk(c, msgs, s, m)
    requires msgs[m].key in s.store ==> EntryOk(msgs, msgs[m].key, s.store[msgs[m].key])
    ensures MessageOk(c, msgs, ApplyTakeOver(c, msgs, s, m, fault).(steps := s.steps + 1), m)
  {
  }

  /** The acting message's own part, for everything else it does. */
  lemma ActorOk(c: Config, msgs: seq<Message>, s: State, m: nat, action: Action)
    requires Inv(c, msgs, s) && m < |msgs| && MayAct(c, msgs, s, m, action)
    requires !action.Claim? && !action.TakeOver?
    ensures MessageOk(c, msgs, Apply(c, msgs, s, Act(m, action)), m)
  {
    if action.Judge? {
      JudgeOk(c, msgs, s, m);
    } else {
      hide EntryOk, Covers;
      assert MessageOk(c, msgs, s, m);
    }
  }

  lemma JudgeOk(c: Config, msgs: seq<Message>, s: State, m: nat)
    requires Inv(c, msgs, s) && m < |msgs| && MayAct(c, msgs, s, m, Judge)
    ensures MessageOk(c, msgs, Apply(c, msgs, s, Act(m, Judge)), m)
  {
    hide EntryOk, MoveOf;
    assert MessageOk(c, msgs, s, m);
    if MoveOf(c, msgs, m, s.phases[m]) == Decide(Drop) {
      DropIsCovered(c, msgs, s, m);
    }
  }

  lemma OthersOk(c: Config, msgs: seq<Message>, s: State, t: State, actor: nat, m: nat)
    requires |s.phases| == |s.delivered| == |t.phases| == |t.delivered| == |msgs| && m < |msgs| && actor < |msgs|
    requires ActsAlone(msgs, s, t, actor) && m != actor && MessageOk(c, msgs, s, m)
    ensures MessageOk(c, msgs, t, m)
  {
  }

  /** Only a store operation takes a reading, and it reads last of all. */
  lemma OrderKept(c: Config, msgs: seq<Message>, s: State, t: State, actor: nat, m: nat, h: nat)
    requires |s.phases| == |s.delivered| == |t.phases| == |t.delivered| == |msgs|
    requires m < |msgs| && h < |msgs| && actor < |msgs|
    requires ActsAlone(msgs, s, t, actor) && MessageOk(c, msgs, s, m) && MessageOk(c, msgs, s, h) && Ordered(s, m, h)
    requires msgs[m].key in s.store ==> EntryOk(msgs, msgs[m].key, s.store[msgs[m].key])
    ensures Ordered(t, m, h)
  {
  }

  /** Every step keeps the invariant. */
  lemma InvStep(c: Config, msgs: seq<Message>, s: State, e: Event, t: State)
    requires Inv(c, msgs, s) && Next(c, msgs, s, e, t)
    ensures Inv(c, msgs, t)
  {
    if e.Act? {
      ActionActsAlone(c, msgs, s, e.m, e.action);
      forall key | key in t.store
        ensures EntryOk(msgs, key, t.store[key])
      {
        assert key in s.store ==> EntryOk(msgs, key, s.store[key]);
      }
      forall m | 0 <= m < |msgs|
        ensures MessageOk(c, msgs, t, m)
      {
        if e.m == m {
          if e.action.Claim? {
            ClaimActorOk(c, msgs, s, m, e.action.fault);
          } else if e.action.TakeOver? {
            TakeOverActorOk(c, msgs, s, m, e.action.fault);
          } else {
            ActorOk(c, msgs, s, m, e.action);
          }
        } else {
          OthersOk(c, msgs, s, t, e.m, m);
        }
      }
      forall m, h | 0 <= m < |msgs| && 0 <= h < |msgs|
        ensures Ordered(t, m, h)
      {
        assert Ordered(s, m, h);
        OrderKept(c, msgs, s, t, e.m, m, h);
      }
    } else {
      forall m | 0 <= m < |msgs|
        ensures MessageOk(c, msgs, t, m)
      {
        assert MessageOk(c, msgs, s, m);
      }
      forall m, h | 0 <= m < |msgs| && 0 <= h < |msgs|
        ensures Ordered(t, m, h)
      {
        assert Ordered(s, m, h);
      }
    }
  }

  // ----- what every run keeps -----

  ghost predicate StepAt(c: Config, msgs: seq<Message>, run: seq<State>, events: seq<Event>, i: nat)
    requires |run| == |events| + 1 && i < |events|
  {
    Next(c, msgs, run[i], events[i], run[i + 1])
  }

  ghost predicate IsRun(c: Config, msgs: seq<Message>, run: seq<State>, events: seq<Event>) {
    && |run| == |events| + 1
    && Init(msgs, run[0])
    && forall i :: 0 <= i < |events| ==> StepAt(c, msgs, run, events, i)
  }

  lemma {:induction false} RunKeepsInv(c: Config, msgs: seq<Message>, run: seq<State>, events: seq<Event>, i: nat)
    requires IsRun(c, msgs, run, events) && i < |run|
    ensures Inv(c, msgs, run[i])
  {
    if i == 0 {
      InvInit(c, msgs, run[0]);
    } else {
      RunKeepsInv(c, msgs, run, events, i - 1);
      assert StepAt(c, msgs, run, events, i - 1);
      InvStepTo(c, msgs, run, events, i);
    }
  }

  lemma InvStepTo(c: Config, msgs: seq<Message>, run: seq<State>, events: seq<Event>, i: nat)
    requires |run| == |events| + 1 && 0 < i < |run| && StepAt(c, msgs, run, events, i - 1) && Inv(c, msgs, run[i - 1])
    ensures Inv(c, msgs, run[i])
  {
    InvStep(c, msgs, run[i - 1], events[i - 1], run[i]);
  }

  /** Where a message ends up without being lost: it passed and was acked, its dead letter is
      stored, its deliveries ran out, or a delivery or its settlement is still owed. */
  predicate Accounted(s: State, m: nat)
    requires m < |s.phases|
  {
    var p := s.phases[m];
    !p.AckedDrop? && (p.AckedPass? || m in s.deadLetters || p.GivenUp? || p.Waiting? || InFlight(p))
  }

  /** Each message of the chain but the last was acked as a repeat of the next, inside the
      next one's window, and read it before the next one's own fate was read; the last is
      accounted for. */
  ghost predicate HolderChain(c: Config, msgs: seq<Message>, s: State, chain: seq<nat>) {
    && |s.phases| == |msgs|
    && chain != []
    && (forall i :: 0 <= i < |chain| ==> chain[i] < |msgs|)
    && (forall i :: 0 <= i < |chain| - 1 ==>
          && s.phases[chain[i]].AckedDrop?
          && s.phases[chain[i]].reading.entry.writer == Some(chain[i + 1])
          && Covers(c, msgs, chain[i + 1], chain[i]))
    && Accounted(s, chain[|chain| - 1])
  }

  lemma {:induction false} ChainFrom(c: Config, msgs: seq<Message>, s: State, m: nat) returns (chain: seq<nat>)
    requires Inv(c, msgs, s) && m < |msgs|
    ensures HolderChain(c, msgs, s, chain) && chain[0] == m
    decreases if s.phases[m].AckedDrop? then 1 + s.steps - s.phases[m].reading.at else 0
  {
    assert MessageOk(c, msgs, s, m);
    if s.phases[m].AckedDrop? {
      var h := s.phases[m].reading.entry.writer.value;
      assert Covers(c, msgs, h, m);
      assert MessageOk(c, msgs, s, h) && Ordered(s, m, h);
      assert RestsOn(s, m, h);
      var rest := ChainFrom(c, msgs, s, h);
      chain := [m] + rest;
    } else {
      chain := [m];
    }
  }

  /** Nothing vanishes: in every reachable state, whatever message is acked as a repeat heads
      a finite chain of holders that ends in a message that is accounted for. */
  lemma NothingVanishes(c: Config, msgs: seq<Message>, run: seq<State>, events: seq<Event>, i: nat, m: nat)
    requires IsRun(c, msgs, run, events) && i < |run| && m < |msgs|
    requires |run[i].phases| == |msgs| && run[i].phases[m].AckedDrop?
    ensures exists chain :: HolderChain(c, msgs, run[i], chain) && |chain| >= 2 && chain[0] == m
  {
    RunKeepsInv(c, msgs, run, events, i);
    var chain := ChainFrom(c, msgs, run[i], m);
  }

  lemma DeadLetterStep(c: Config, msgs: seq<Message>, s: State, e: Event, m: nat)
    requires |s.phases| == |s.delivered| == |msgs| && m < |msgs| && Enabled(c, msgs, s, e)
    requires m !in s.deadLetters && m in Apply(c, msgs, s, e).deadLetters
    ensures e == Act(m, PublishDeadLetter(true)) && s.delivered[m] >= c.limit
  {
  }

  /** A failed delivery is nakked only below the limit, or when its count could not be read. */
  lemma NakkedBelowLimit(c: Config, msgs: seq<Message>, s: State, m: nat, infoReadable: bool)
    requires |s.phases| == |s.delivered| == |msgs| && m < |msgs| && s.phases[m].Failed?
    ensures MayAct(c, msgs, s, m, Nak(infoReadable)) <==> !infoReadable || s.delivered[m] < c.limit
    ensures forall stored :: MayAct(c, msgs, s, m, PublishDeadLetter(stored)) <==> s.delivered[m] >= c.limit
  {
  }

  lemma {:induction false} DeadLetterWasStored(c: Config, msgs: seq<Message>, run: seq<State>, events: seq<Event>,
      i: nat, m: nat) returns (j: nat)
    requires IsRun(c, msgs, run, events) && i < |run| && m < |msgs| && m in run[i].deadLetters
    ensures j < i && events[j] == Act(m, PublishDeadLetter(true))
    ensures |run[j].delivered| == |msgs| && run[j].delivered[m] >= c.limit
  {
    if m in run[i - 1].deadLetters {
      j := DeadLetterWasStored(c, msgs, run, events, i - 1, m);
    } else {
      j := i - 1;
      assert StepAt(c, msgs, run, events, j);
      DeadLetterStep(c, msgs, run[j], events[j], m);
    }
  }

  /** A message is terminated only after its dead letter was stored, on a delivery that was
      its last. */
  lemma TerminatedAfterDeadLetter(c: Config, msgs: seq<Message>, run: seq<State>, events: seq<Event>, i: nat, m: nat)
    requires IsRun(c, msgs, run, events) && i < |run| && m < |msgs|
    requires |run[i].phases| == |msgs| && run[i].phases[m].Terminated?
    ensures exists j :: 0 <= j < i && events[j] == Act(m, PublishDeadLetter(true))
                                   && |run[j].delivered| == |msgs| && run[j].delivered[m] >= c.limit
  {
    RunKeepsInv(c, msgs, run, events, i);
    assert MessageOk(c, msgs, run[i], m);
    var j := DeadLetterWasStored(c, msgs, run, events, i, m);
  }

  // ----- a takeover refused -----

  /** What a worker knows of the holder another worker put in its way. */
  ghost predicate ReadHolder(msgs: seq<Message>, s: State, m: nat, h: nat, tries: nat)
    requires m < |msgs| && h < |msgs|
  {
    && |s.phases| == |msgs|
    && s.phases[m].Judging?
    && s.phases[m].tries == tries
    && s.phases[m].reading.entry.value == Bytes(msgs, h)
  }

  /** On its claim or on its first takeover refused, a worker that reads another record's holder
      in whose window its own record lies can only drop it. */
  lemma CoveredDrops(c: Config, msgs: seq<Message>, s: State, m: nat, h: nat, tries: nat)
    requires m < |msgs| && h < |msgs| && ReadHolder(msgs, s, m, h, tries) && tries < 2 && Covers(c, msgs, h, m)
    ensures MoveOf(c, msgs, m, s.phases[m]) == Decide(Drop)
  {
    ParseToBytes(msgs[h].record);
  }

  lemma {:induction false} ReadingKept(c: Config, msgs: seq<Message>, run: seq<State>, events: seq<Event>,
      m: nat, i: nat, j: nat)
    requires IsRun(c, msgs, run, events) && m < |msgs| && i <= j < |run|
    requires forall l :: i <= l < j ==> !(events[l].Act? && events[l].m == m)
    requires |run[i].phases| == |msgs|
    ensures |run[j].phases| == |msgs| && run[j].phases[m] == run[i].phases[m]
  {
    if i < j {
      ReadingKept(c, msgs, run, events, m, i, j - 1);
      assert StepAt(c, msgs, run, events, j - 1);
      if events[j - 1].Act? {
        ActionActsAlone(c, msgs, run[j - 1], events[j - 1].m, events[j - 1].action);
      }
    }
  }

  /** The race for a stale key: a worker whose first takeover is refused because record `h` holds
      the key by then, and whose record lies in the window of `h`, drops it with its next step, or crashes. */
  lemma RefusedThenDrops(c: Config, msgs: seq<Message>, run: seq<State>, events: seq<Event>, i: nat, j: nat,
      m: nat, h: nat)
    requires IsRun(c, msgs, run, events) && i < j < |events| && m < |msgs| && h < |msgs|
    requires events[i] == Act(m, TakeOver(Answered))
    requires |run[i].phases| == |msgs| && run[i].phases[m].Judging? && run[i].phases[m].tries == 0
    requires msgs[m].key in run[i].store && run[i].store[msgs[m].key] == Entry(Bytes(msgs, h), Some(h))
    requires Covers(c, msgs, h, m)
    requires events[j].Act? && events[j].m == m
    requires forall l :: i < l < j ==> !(events[l].Act? && events[l].m == m)
    ensures events[j].action == Crash ||
            (events[j].action == Judge && |run[j + 1].phases| == |msgs| && run[j + 1].phases[m].Dropped?)
  {
    assert StepAt(c, msgs, run, events, i) && StepAt(c, msgs, run, events, j);
    if run[i].phases[m].reading.entry.value == Bytes(msgs, h) {
      CoveredDrops(c, msgs, run[i], m, h, 0);
    } else {
      assert ReadHolder(msgs, run[i + 1], m, h, 1);
      ReadingKept(c, msgs, run, events, m, i + 1, j);
      CoveredDrops(c, msgs, run[j], m, h, 1);
    }
  }

  // ----- holder succession -----

  /** Nothing but workers touched `key` in steps `i..j`. */
  predicate Undisturbed(events: seq<Event>, key: Key, i: nat, j: nat)
    requires i <= j <= |events|
  {
    forall l :: i <= l < j ==> events[l] != Expire(key) && !(events[l].ForeignWrite? && events[l].key == key)
  }

  /** How often the entry of `key` changed over steps `i..j`. */
  ghost function Changes(run: seq<State>, key: Key, i: nat, j: nat): nat
    requires i <= j < |run|
  {
    if i == j then 0
    else Changes(run, key, i, j - 1) +
         if key in run[j - 1].store && key in run[j].store && run[j - 1].store[key] == run[j].store[key] then 0 else 1
  }

  /** A worker's value is stored under `key`. */
  predicate Held(msgs: seq<Message>, s: State, key: Key) {
    key in s.store && s.store[key].writer.Some? && s.store[key].writer.value < |msgs|
  }

  /** The record that holds `key`. */
  function HolderOf(msgs: seq<Message>, s: State, key: Key): Holder
    requires Held(msgs, s, key)
  {
    msgs[s.store[key].writer.value].record
  }

  lemma RunHolds(c: Config, msgs: seq<Message>, run: seq<State>, events: seq<Event>, key: Key, i: nat)
    requires IsRun(c, msgs, run, events) && i < |run| && key in run[i].store
    ensures EntryOk(msgs, key, run[i].store[key])
  {
    RunKeepsInv(c, msgs, run, events, i);
  }

  /** A worker overwrites a held key only by taking over the very value it judged stale. */
  lemma WriteCause(c: Config, msgs: seq<Message>, s: State, m: nat, action: Action)
    requires |s.phases| == |s.delivered| == |msgs| && m < |msgs| && MayAct(c, msgs, s, m, action)
    requires msgs[m].key in s.store && Apply(c, msgs, s, Act(m, action)).store != s.store
    ensures s.phases[m].Judging? && MoveOf(c, msgs, m, s.phases[m]) == TryTakeover
    ensures s.store[msgs[m].key].value == s.phases[m].reading.entry.value
  {
  }

  lemma StaleByWindow(c: Config, msgs: seq<Message>, m: nat, h: nat, p: Phase)
    requires m < |msgs| && h < |msgs| && p.Judging? && p.reading.entry.value == Bytes(msgs, h)
    requires MoveOf(c, msgs, m, p) == TryTakeover
    ensures msgs[m].record.time >= msgs[h].record.time + c.window
  {
    ParseToBytes(msgs[h].record);
  }

  /** One step that neither expires nor overwrites `key` from outside: a worker's holder
      stays, or is replaced by one ingested at least `window` later. */
  lemma HolderStep(c: Config, msgs: seq<Message>, s: State, e: Event, key: Key)
    requires |s.phases| == |s.delivered| == |msgs| && Enabled(c, msgs, s, e)
    requires Held(msgs, s, key) && EntryOk(msgs, key, s.store[key])
    requires e != Expire(key) && !(e.ForeignWrite? && e.key == key)
    ensures var t := Apply(c, msgs, s, e);
            && Held(msgs, t, key)
            && (t.store[key] == s.store[key] || HolderOf(msgs, t, key).time >= HolderOf(msgs, s, key).time + c.window)
  {
    if e.Act? {
      ActionActsAlone(c, msgs, s, e.m, e.action);
      if Apply(c, msgs, s, e).store != s.store && msgs[e.m].key == key {
        WriteCause(c, msgs, s, e.m, e.action);
        StaleByWindow(c, msgs, e.m, s.store[key].writer.value, s.phases[e.m]);
      }
    }
  }

  lemma RunHolderStep(c: Config, msgs: seq<Message>, run: seq<State>, events: seq<Event>, key: Key, j: nat)
    requires IsRun(c, msgs, run, events) && j < |events| && Undisturbed(events, key, j, j + 1)
    requires Held(msgs, run[j], key)
    ensures Held(msgs, run[j + 1], key)
    ensures run[j + 1].store[key] == run[j].store[key] ||
            HolderOf(msgs, run[j + 1], key).time >= HolderOf(msgs, run[j], key).time + c.window
  {
    RunHolds(c, msgs, run, events, key, j);
    assert StepAt(c, msgs, run, events, j);
    HolderStep(c, msgs, run[j], events[j], key);
  }

  /** `n` windows on end. */
  function Windows(c: Config, n: nat): (length: nat)
    ensures n > 0 ==> length >= c.window
  {
    if n == 0 then 0 else c.window + Windows(c, n - 1)
  }

  /** Between expiries of a key its holders' ingestion times rise by at least `window` at
      each change, whatever the workers' interleaving. */
  lemma {:induction false} HolderSuccession(c: Config, msgs: seq<Message>, run: seq<State>, events: seq<Event>,
      key: Key, i: nat, j: nat)
    requires IsRun(c, msgs, run, events) && i <= j < |run| && Undisturbed(events, key, i, j)
    requires Held(msgs, run[i], key)
    ensures Held(msgs, run[j], key)
    ensures HolderOf(msgs, run[j], key).time >= HolderOf(msgs, run[i], key).time + Windows(c, Changes(run, key, i, j))
    ensures Changes(run, key, i, j) == 0 ==> run[j].store[key] == run[i].store[key]
  {
    if i < j {
      HolderSuccession(c, msgs, run, events, key, i, j - 1);
      RunHolderStep(c, msgs, run, events, key, j - 1);
    }
  }

  /** All messages of `key` were ingested inside one window. */
  predicate InOneWindow(c: Config, msgs: seq<Message>, key: Key, from: nat) {
    forall m :: 0 <= m < |msgs| && msgs[m].key == key ==> from <= msgs[m].record.time < from + c.window
  }

  /** With no expiry and every record of the key inside one window, the first record to write
      the key holds it for the rest of the run. */
  lemma OneWindowOneHolder(c: Config, msgs: seq<Message>, run: seq<State>, events: seq<Event>, key: Key, from: nat,
      i: nat, j: nat)
    requires IsRun(c, msgs, run, events) && i <= j < |run| && Undisturbed(events, key, i, j)
    requires InOneWindow(c, msgs, key, from) && Held(msgs, run[i], key)
    ensures key in run[j].store && run[j].store[key] == run[i].store[key]
  {
    HolderSuccession(c, msgs, run, events, key, i, j);
    RunHolds(c, msgs, run, events, key, i);
    RunHolds(c, msgs, run, events, key, j);
  }

  /** Every value a worker reads or holds under the key is the one holder's. */
  ghost predicate OneReading(msgs: seq<Message>, s: State, key: Key, m: nat)
    requires m < |s.phases|
  {
    && (key in s.store ==> Held(msgs, s, key))
    && (ReadingOf(s.phases[m]).Some? ==> key in s.store && ReadingOf(s.phases[m]).value.entry == s.store[key])
  }

  lemma OneReadingStep(c: Config, msgs: seq<Message>, s: State, e: Event, t: State, key: Key, m: nat)
    requires Next(c, msgs, s, e, t)
    requires e != Expire(key) && !(e.ForeignWrite? && e.key == key)
    requires m < |msgs| && msgs[m].key == key && OneReading(msgs, s, key, m)
    requires key in s.store ==> key in t.store && t.store[key] == s.store[key]
    ensures OneReading(msgs, t, key, m)
  {
    if e.Act? {
      ActionActsAlone(c, msgs, s, e.m, e.action);
    }
  }

  lemma {:induction false} OneWindowReadings(c: Config, msgs: seq<Message>, run: seq<State>, events: seq<Event>,
      key: Key, from: nat, i: nat, m: nat)
    requires IsRun(c, msgs, run, events) && i < |run| && Undisturbed(events, key, 0, |events|)
    requires InOneWindow(c, msgs, key, from)
    requires m < |msgs| && msgs[m].key == key
    ensures |run[i].phases| == |msgs| && OneReading(msgs, run[i], key, m)
  {
    if i > 0 {
      OneWindowReadings(c, msgs, run, events, key, from, i - 1, m);
      if key in run[i - 1].store {
        OneWindowOneHolder(c, msgs, run, events, key, from, i - 1, i);
      }
      assert StepAt(c, msgs, run, events, i - 1);
      OneReadingStep(c, msgs, run[i - 1], events[i - 1], run[i], key, m);
    }
  }

  /** A worker that reads a holder of its own window does not try a takeover, and drops its
      record exactly when it is another record, no older than the holder. */
  lemma JudgedInWindow(c: Config, msgs: seq<Message>, m: nat, h: nat, p: Phase)
    requires m < |msgs| && h < |msgs| && p.Judging? && p.tries < 2
    requires p.reading.entry.value == Bytes(msgs, h)
    requires msgs[m].record.time < msgs[h].record.time + c.window
    ensures MoveOf(c, msgs, m, p) ==
            Decide(if msgs[m].record.id != msgs[h].record.id && msgs[m].record.time >= msgs[h].record.time then Drop
              else Pass)
  {
    ParseToBytes(msgs[h].record);
  }

  /** With no expiry and every record of the key inside one window a record that is judged drops exactly
      when it is not the holder again and not older than it. */
  lemma {:induction false} OneWindowDrops(c: Config, msgs: seq<Message>, run: seq<State>, events: seq<Event>,
      key: Key, from: nat, i: nat, m: nat)
    requires IsRun(c, msgs, run, events) && i < |run| && Undisturbed(events, key, 0, |events|)
    requires InOneWindow(c, msgs, key, from)
    requires m < |msgs| && msgs[m].key == key
    requires |run[i].phases| == |run[i].delivered| == |msgs| && run[i].phases[m].Judging?
    ensures Held(msgs, run[i], key)
    ensures var holder := HolderOf(msgs, run[i], key);
            MoveOf(c, msgs, m, run[i].phases[m]) ==
            Decide(if msgs[m].record.id != holder.id && msgs[m].record.time >= holder.time then Drop else Pass)
  {
    OneWindowReadings(c, msgs, run, events, key, from, i, m);
    RunHolds(c, msgs, run, events, key, i);
    OnFirstReading(c, msgs, run, events, key, from, i, m);
    JudgedInWindow(c, msgs, m, run[i].store[key].writer.value, run[i].phases[m]);
  }

  lemma NoTakeoverStep(c: Config, msgs: seq<Message>, s: State, e: Event, m: nat)
    requires |s.phases| == |s.delivered| == |msgs| && m < |msgs| && Enabled(c, msgs, s, e)
    requires s.phases[m].Judging? ==> s.phases[m].tries == 0 && MoveOf(c, msgs, m, s.phases[m]).Decide?
    ensures var p := Apply(c, msgs, s, e).phases[m]; p.Judging? ==> p.tries == 0
  {
  }

  lemma {:induction false} OnFirstReading(c: Config, msgs: seq<Message>, run: seq<State>, events: seq<Event>,
      key: Key, from: nat, i: nat, m: nat)
    requires IsRun(c, msgs, run, events) && i < |run| && Undisturbed(events, key, 0, |events|)
    requires InOneWindow(c, msgs, key, from)
    requires m < |msgs| && msgs[m].key == key && |run[i].phases| == |msgs|
    ensures run[i].phases[m].Judging? ==> run[i].phases[m].tries == 0
  {
    if i > 0 {
      assert StepAt(c, msgs, run, events, i - 1);
      OnFirstReading(c, msgs, run, events, key, from, i - 1, m);
      if run[i - 1].phases[m].Judging? {
        OneWindowReadings(c, msgs, run, events, key, from, i - 1, m);
        RunHolds(c, msgs, run, events, key, i - 1);
        JudgedInWindow(c, msgs, m, run[i - 1].store[key].writer.value, run[i - 1].phases[m]);
      }
      NoTakeoverStep(c, msgs, run[i - 1], events[i - 1], m);
    }
  }

  /** And no event of the run is a takeover of the key, accepted or refused. */
  lemma NoTakeovers(c: Config, msgs: seq<Message>, run: seq<State>, events: seq<Event>, key: Key, from: nat, i: nat)
    requires IsRun(c, msgs, run, events) && i < |events| && Undisturbed(events, key, 0, |events|)
    requires InOneWindow(c, msgs, key, from)
    ensures events[i].Act? && events[i].action.TakeOver? ==> events[i].m < |msgs| && msgs[events[i].m].key != key
  {
    assert StepAt(c, msgs, run, events, i);
    if events[i].Act? && events[i].action.TakeOver? && msgs[events[i].m].key == key {
      OneWindowDrops(c, msgs, run, events, key, from, i, events[i].m);
      assert false;
    }
  }
}
