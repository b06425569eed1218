/** What deliveries come to, step by step: the fates of messages that `DedupeRuns` keeps safe, each
    reached from every state it starts in (crates/stages/src/dedupe.rs:115-155,
    crates/nats/src/source.rs:170-225). */
module Fates {
  import opened Wrappers
  import opened Dedupe
  import opened DedupeRuns

  /** The state after message `m` takes these steps and nothing else happens; none if one of them is
      not open to it. */
  function After(c: Config, msgs: seq<Message>, s: State, m: nat, actions: seq<Action>): Option<State>
    requires |s.phases| == |s.delivered| == |msgs| && m < |msgs|
    decreases |actions|
  {
    if actions == [] then Some(s)
    else if MayAct(c, msgs, s, m, actions[0]) then
      After(c, msgs, Apply(c, msgs, s, Act(m, actions[0])), m, actions[1..])
    else None
  }

  lemma TakesStep(c: Config, msgs: seq<Message>, s: State, m: nat, actions: seq<Action>)
    requires |s.phases| == |s.delivered| == |msgs| && m < |msgs|
    requires actions != [] && MayAct(c, msgs, s, m, actions[0])
    ensures After(c, msgs, s, m, actions) == After(c, msgs, Apply(c, msgs, s, Act(m, actions[0])), m, actions[1..])
  {
  }

  /** `m` waits for a delivery it may still have. */
  predicate MayDeliver(c: Config, msgs: seq<Message>, s: State, m: nat) {
    |s.phases| == |s.delivered| == |msgs| && m < |msgs| && s.phases[m] == Waiting && s.delivered[m] < c.limit
  }

  /** After a delivery and whatever it asked: `m` has one delivery more. */
  function Delivered(s: State, m: nat, phase: Phase, store: map<Key, Entry>, steps: nat): State
    requires m < |s.phases| && m < |s.delivered|
  {
    State(s.phases[m := phase], s.delivered[m := s.delivered[m] + 1], store, s.deadLetters, s.steps + steps)
  }

  lemma DeliverThenClaim(c: Config, msgs: seq<Message>, s: State, m: nat, fault: Fault)
    requires MayDeliver(c, msgs, s, m)
    ensures var key := msgs[m].key;
            var mine := Entry(Bytes(msgs, m), Some(m));
            After(c, msgs, s, m, [Deliver, Claim(fault)]) ==
            Some(if fault == Answered && key in s.store then
                   Delivered(s, m, Judging(Reading(s.store[key], s.steps + 1), 0), s.store, 2)
                 else
                   var phase := if fault == Answered || c.policy == PassOn then Passed else Phase.Failed;
                   Delivered(s, m, phase,
                             if fault == LostRequest || key in s.store then s.store else s.store[key := mine], 2))
  {
    var t := Apply(c, msgs, s, Act(m, Deliver));
    TakesStep(c, msgs, s, m, [Deliver, Claim(fault)]);
    assert [Deliver, Claim(fault)][1..] == [Claim(fault)];
    TakesStep(c, msgs, t, m, [Claim(fault)]);
    assert [Claim(fault)][1..] == [];
    var u := Apply(c, msgs, t, Act(m, Claim(fault)));
    assert s.phases[m := Claiming][m := u.phases[m]] == s.phases[m := u.phases[m]];
  }

  lemma {:induction false} AfterInParts(c: Config, msgs: seq<Message>, s: State, m: nat, first: seq<Action>,
      second: seq<Action>)
    requires |s.phases| == |s.delivered| == |msgs| && m < |msgs|
    requires After(c, msgs, s, m, first).Some?
    ensures var t := After(c, msgs, s, m, first).value;
            && |t.phases| == |t.delivered| == |msgs|
            && After(c, msgs, s, m, first + second) == After(c, msgs, t, m, second)
    decreases |first|
  {
    hide MayAct, Apply;
    if first == [] {
      assert first + second == second;
    } else {
      assert (first + second)[1..] == first[1..] + second;
      AfterInParts(c, msgs, Apply(c, msgs, s, Act(m, first[0])), m, first[1..], second);
    }
  }

  lemma OneStep(c: Config, msgs: seq<Message>, s: State, m: nat, action: Action)
    requires |s.phases| == |s.delivered| == |msgs| && m < |msgs| && MayAct(c, msgs, s, m, action)
    ensures After(c, msgs, s, m, [action]) == Some(Apply(c, msgs, s, Act(m, action)))
  {
    TakesStep(c, msgs, s, m, [action]);
    assert [action][1..] == [];
  }

  lemma Overwritten<T>(s: seq<T>, m: nat, first: T, second: T)
    requires m < |s|
    ensures s[m := first][m := second] == s[m := second]
  {
  }

  /** A record whose key nobody holds passes, holds the key, and is acked. */
  lemma FreshIsAcked(c: Config, msgs: seq<Message>, s: State, m: nat)
    requires MayDeliver(c, msgs, s, m) && msgs[m].key !in s.store
    ensures After(c, msgs, s, m, [Deliver, Claim(Answered), Ack]) ==
            Some(Delivered(s, m, AckedPass, s.store[msgs[m].key := Entry(Bytes(msgs, m), Some(m))], 3))
  {
    hide MoveOf, Bytes;
    DeliverThenClaim(c, msgs, s, m, Answered);
    var first := [Deliver, Claim(Answered)];
    AfterInParts(c, msgs, s, m, first, [Ack]);
    assert first + [Ack] == [Deliver, Claim(Answered), Ack];
    var t := After(c, msgs, s, m, first).value;
    OneStep(c, msgs, t, m, Ack);
    Overwritten(s.phases, m, Passed, AckedPass);
  }

  /** A repeat in a holder's window is dropped and acked, and the holder stays. */
  lemma RepeatIsDropped(c: Config, msgs: seq<Message>, s: State, m: nat, h: nat)
    requires MayDeliver(c, msgs, s, m) && h < |msgs| && Covers(c, msgs, h, m)
    requires msgs[m].key in s.store && s.store[msgs[m].key] == Entry(Bytes(msgs, h), Some(h))
    ensures After(c, msgs, s, m, [Deliver, Claim(Answered), Judge, Ack]) ==
            Some(Delivered(s, m, AckedDrop(Reading(s.store[msgs[m].key], s.steps + 1)), s.store, 4))
  {
    hide MoveOf, Bytes, Holder.Parse, Apply, MayAct;
    DeliverThenClaim(c, msgs, s, m, Answered);
    var first := [Deliver, Claim(Answered)];
    AfterInParts(c, msgs, s, m, first, [Judge, Ack]);
    assert first + [Judge, Ack] == [Deliver, Claim(Answered), Judge, Ack];
    var t := After(c, msgs, s, m, first).value;
    CoveredDrops(c, msgs, t, m, h, 0);
    JudgedThenAcked(c, msgs, t, m);
    Overwritten(s.phases, m, t.phases[m], AckedDrop(t.phases[m].reading));
  }

  lemma JudgedThenAcked(c: Config, msgs: seq<Message>, t: State, m: nat)
    requires |t.phases| == |t.delivered| == |msgs| && m < |msgs|
    requires t.phases[m].Judging? && MoveOf(c, msgs, m, t.phases[m]) == Decide(Drop)
    ensures After(c, msgs, t, m, [Judge, Ack]) ==
            Some(t.(phases := t.phases[m := AckedDrop(t.phases[m].reading)], steps := t.steps + 2))
  {
    hide MoveOf;
    TakesStep(c, msgs, t, m, [Judge, Ack]);
    assert [Judge, Ack][1..] == [Ack];
    var u := Apply(c, msgs, t, Act(m, Judge));
    OneStep(c, msgs, u, m, Ack);
    Overwritten(t.phases, m, u.phases[m], AckedDrop(t.phases[m].reading));
  }

  /** A stale holder is taken over, and the record passes. */
  lemma StaleIsTakenOver(c: Config, msgs: seq<Message>, s: State, m: nat, h: nat)
    requires MayDeliver(c, msgs, s, m) && h < |msgs| && msgs[h].record.id != msgs[m].record.id
    requires msgs[h].record.time + c.window <= msgs[m].record.time
    requires msgs[m].key in s.store && s.store[msgs[m].key] == Entry(Bytes(msgs, h), Some(h))
    ensures After(c, msgs, s, m, [Deliver, Claim(Answered), TakeOver(Answered), Ack]) ==
            Some(Delivered(s, m, AckedPass, s.store[msgs[m].key := Entry(Bytes(msgs, m), Some(m))], 4))
  {
    hide MoveOf, Bytes, Holder.Parse, Apply, MayAct;
    DeliverThenClaim(c, msgs, s, m, Answered);
    var first := [Deliver, Claim(Answered)];
    AfterInParts(c, msgs, s, m, first, [TakeOver(Answered), Ack]);
    assert first + [TakeOver(Answered), Ack] == [Deliver, Claim(Answered), TakeOver(Answered), Ack];
    var t := After(c, msgs, s, m, first).value;
    StaleMoves(c, msgs, m, h, t.phases[m]);
    TakenOverThenAcked(c, msgs, t, m);
    Overwritten(s.phases, m, t.phases[m], AckedPass);
  }

  lemma StaleMoves(c: Config, msgs: seq<Message>, m: nat, h: nat, p: Phase)
    requires m < |msgs| && h < |msgs| && p.Judging? && p.tries < 2 && p.reading.entry.value == Bytes(msgs, h)
    requires msgs[h].record.id != msgs[m].record.id
    requires msgs[h].record.time + c.window <= msgs[m].record.time
    ensures MoveOf(c, msgs, m, p) == TryTakeover
  {
    ParseToBytes(msgs[h].record);
  }

  lemma TakenOverThenAcked(c: Config, msgs: seq<Message>, t: State, m: nat)
    requires |t.phases| == |t.delivered| == |msgs| && m < |msgs|
    requires t.phases[m].Judging? && MoveOf(c, msgs, m, t.phases[m]) == TryTakeover
    requires msgs[m].key in t.store && t.store[msgs[m].key] == t.phases[m].reading.entry
    ensures After(c, msgs, t, m, [TakeOver(Answered), Ack]) ==
            Some(t.(phases := t.phases[m := AckedPass],
                    store := t.store[msgs[m].key := Entry(Bytes(msgs, m), Some(m))], steps := t.steps + 2))
  {
    hide MoveOf, Bytes;
    TakesStep(c, msgs, t, m, [TakeOver(Answered), Ack]);
    assert [TakeOver(Answered), Ack][1..] == [Ack];
    var u := Apply(c, msgs, t, Act(m, TakeOver(Answered)));
    OneStep(c, msgs, u, m, Ack);
    Overwritten(t.phases, m, u.phases[m], AckedPass);
  }

  /** A delivery whose walk fails waits for the next one below the limit; at the limit its dead letter
      is stored and it is terminated, and it waits on when the dead letter cannot be stored. */
  lemma FailureIsSettled(c: Config, msgs: seq<Message>, s: State, m: nat, stored: bool)
    requires |s.phases| == |s.delivered| == |msgs| && m < |msgs| && (s.phases[m].Passed? || s.phases[m].Dropped?)
    ensures s.delivered[m] < c.limit ==>
              After(c, msgs, s, m, [WalkFails, Nak(true)]) ==
              Some(s.(phases := s.phases[m := Waiting], steps := s.steps + 2))
    ensures s.delivered[m] >= c.limit ==>
              After(c, msgs, s, m, [WalkFails, PublishDeadLetter(true), Terminate]) ==
              Some(s.(phases := s.phases[m := Terminated], deadLetters := s.deadLetters + {m}, steps := s.steps + 3))
    ensures s.delivered[m] >= c.limit ==>
              After(c, msgs, s, m, [WalkFails, PublishDeadLetter(false)]) ==
              Some(s.(phases := s.phases[m := Waiting], steps := s.steps + 2))
  {
    var t := Apply(c, msgs, s, Act(m, WalkFails));
    Overwritten(s.phases, m, Phase.Failed, Waiting);
    Overwritten(s.phases, m, Phase.Failed, DeadLetterStored);
    Overwritten(s.phases, m, DeadLetterStored, Terminated);
    if s.delivered[m] < c.limit {
      TwoSteps(c, msgs, s, m, WalkFails, Nak(true));
    } else {
      TwoSteps(c, msgs, s, m, WalkFails, PublishDeadLetter(false));
      TwoSteps(c, msgs, s, m, WalkFails, PublishDeadLetter(true));
      var first := [WalkFails, PublishDeadLetter(true)];
      AfterInParts(c, msgs, s, m, first, [Terminate]);
      assert first + [Terminate] == [WalkFails, PublishDeadLetter(true), Terminate];
      OneStep(c, msgs, After(c, msgs, s, m, first).value, m, Terminate);
    }
  }

  lemma TwoSteps(c: Config, msgs: seq<Message>, s: State, m: nat, first: Action, second: Action)
    requires |s.phases| == |s.delivered| == |msgs| && m < |msgs| && MayAct(c, msgs, s, m, first)
    requires MayAct(c, msgs, Apply(c, msgs, s, Act(m, first)), m, second)
    ensures After(c, msgs, s, m, [first, second]) ==
            Some(Apply(c, msgs, Apply(c, msgs, s, Act(m, first)), Act(m, second)))
  {
    hide MayAct, Apply;
    TakesStep(c, msgs, s, m, [first, second]);
    assert [first, second][1..] == [second];
    OneStep(c, msgs, Apply(c, msgs, s, Act(m, first)), m, second);
  }

  /** A message that waits with no delivery left is given up; a crash makes one in flight wait again. */
  lemma GivenUpOrRedelivered(c: Config, msgs: seq<Message>, s: State, m: nat)
    requires |s.phases| == |s.delivered| == |msgs| && m < |msgs|
    ensures s.phases[m] == Waiting && s.delivered[m] >= c.limit ==>
              After(c, msgs, s, m, [RunOut]) == Some(s.(phases := s.phases[m := GivenUp], steps := s.steps + 1))
    ensures InFlight(s.phases[m]) ==>
              After(c, msgs, s, m, [Crash]) == Some(s.(phases := s.phases[m := Waiting], steps := s.steps + 1))
  {
    if s.phases[m] == Waiting && s.delivered[m] >= c.limit {
      OneStep(c, msgs, s, m, RunOut);
    }
    if InFlight(s.phases[m]) {
      OneStep(c, msgs, s, m, Crash);
    }
  }

  /** Every run starts with all messages waiting for their first delivery and nothing stored. */
  lemma StartsEmpty(msgs: seq<Message>, s: State)
    requires Init(msgs, s)
    ensures |s.phases| == |s.delivered| == |msgs| && s.store == map[] && s.deadLetters == {} && s.steps == 0
    ensures forall m :: 0 <= m < |msgs| ==> s.phases[m] == Waiting && s.delivered[m] == 0
  {
  }
}
