/** The runs of `DedupeRuns` against the stage and the store themselves: a delivery's store steps
    are the store's, and taken together they are one exchange of `Dedupe.Process`
    (crates/stages/src/dedupe.rs:115-155, crates/core/src/memory.rs:407-451). */
module Deliveries {
  import opened Wrappers
  import opened Dedupe
  import R = DedupeRuns
  import Store

  // ----- a worker's store steps are the store's -----

  /** The run's store holds the values that the reference store holds. */
  ghost predicate Alike(s: R.State, r: Store.Reference) {
    && !r.failing
    && (forall key :: key in s.store <==> key in r.keys)
    && (forall key :: key in s.store ==> s.store[key].value == r.keys[key].value)
  }

  /** What a store operation leaves: nothing if its request was lost. */
  function After(r: Store.Reference, op: Store.Op, fault: R.Fault): Store.Reference {
    if fault == R.LostRequest then r else Store.Step(r, op).0
  }

  /** A claim is the store's `set_nx`, and the worker goes on by its answer. */
  lemma ClaimIsSetNx(c: R.Config, msgs: seq<R.Message>, s: R.State, m: nat, fault: R.Fault,
      r: Store.Reference, ttl: nat)
    requires |s.phases| == |s.delivered| == |msgs| && m < |msgs| && Alike(s, r) && ttl > 0
    ensures var op := Store.SetNx(msgs[m].key, R.Bytes(msgs, m), ttl);
            var t := R.ApplyClaim(c, msgs, s, m, fault);
            && Alike(t, After(r, op, fault))
            && (fault == R.Answered ==>
                  match Store.Step(r, op).1
                  case Nothing => t.phases[m] == R.Passed
                  case Found(value) => t.phases[m] == R.Judging(R.Reading(s.store[msgs[m].key], s.steps), 0)
                                       && s.store[msgs[m].key].value == value
                  case _ => false)
  {
  }

  /** A takeover is the store's `compare_and_set`, expecting exactly the value last read. */
  lemma TakeOverIsCompareAndSet(c: R.Config, msgs: seq<R.Message>, s: R.State, m: nat, fault: R.Fault,
      r: Store.Reference, ttl: nat)
    requires |s.phases| == |s.delivered| == |msgs| && m < |msgs| && s.phases[m].Judging? && Alike(s, r) && ttl > 0
    ensures var op := Store.CompareAndSet(msgs[m].key, s.phases[m].reading.entry.value, R.Bytes(msgs, m), ttl);
            var t := R.ApplyTakeOver(c, msgs, s, m, fault);
            && Alike(t, After(r, op, fault))
            && (fault == R.Answered ==>
                  match Store.Step(r, op).1
                  case Nothing => t.phases[m] == R.Passed
                  case Found(value) => t.phases[m].Judging? && t.phases[m].tries == s.phases[m].tries + 1
                                       && t.phases[m].reading.entry.value == value
                  case _ => false)
  {
  }

  /** When the clock moves, the keys past their ttl are gone, as after an expiry of each. */
  lemma ClockExpiresKeys(s: R.State, r: Store.Reference, ticks: nat)
    requires Alike(s, r)
    ensures var gone := set key | key in r.keys && r.keys[key].expiresAt <= r.now + ticks;
            Alike(s.(store := s.store - gone), Store.Step(r, Store.Advance(ticks)).0)
  {
  }

  // ----- a delivery is one exchange -----

  /** What a delivery has asked the store so far, and was answered. */
  datatype Talk = Talk(asked: seq<Request>, replies: seq<Reply>)

  /** The store's reply to a claim or a takeover of message `m`. */
  function ReplyTo(msgs: seq<R.Message>, s: R.State, m: nat, fault: R.Fault, expected: Option<string>): Reply
    requires m < |msgs|
  {
    var key := msgs[m].key;
    if fault != R.Answered then Reply.Failed
    else if key !in s.store || expected == Some(s.store[key].value) then Vacant
    else Held(s.store[key].value)
  }

  function TalkAfter(msgs: seq<R.Message>, s: R.State, e: R.Event, m: nat, talk: Talk): Talk
    requires m < |msgs|
  {
    if !e.Act? || e.m != m then talk
    else
      match e.action
      case Deliver => Talk([], [])
      case Claim(fault) =>
        Talk(talk.asked + [SetNx(R.Bytes(msgs, m))], talk.replies + [ReplyTo(msgs, s, m, fault, None)])
      case TakeOver(fault) =>
        if m >= |s.phases| || !s.phases[m].Judging? then talk
        else
          var expected := s.phases[m].reading.entry.value;
          Talk(talk.asked + [CompareAndSet(expected, R.Bytes(msgs, m))],
               talk.replies + [ReplyTo(msgs, s, m, fault, Some(expected))])
      case _ => talk
  }

  /** What the latest delivery of message `m` has said after `i` events. */
  ghost function TalkOf(msgs: seq<R.Message>, run: seq<R.State>, events: seq<R.Event>, m: nat, i: nat): Talk
    requires m < |msgs| && i <= |events| <= |run|
  {
    if i == 0 then Talk([], []) else TalkAfter(msgs, run[i - 1], events[i - 1], m, TalkOf(msgs, run, events, m, i - 1))
  }

  /** The talk is a finished exchange that returned `out`. */
  ghost predicate Concluded(c: R.Config, record: Holder, talk: Talk, out: Output) {
    0 < |talk.asked| == |talk.replies| && Exchange(record, c.window, talk.replies, talk.asked, out)
  }

  /** The talk has come to a holder that is still to be judged. */
  ghost predicate Open(c: R.Config, record: Holder, talk: Talk, value: string, tries: nat) {
    && |talk.asked| == |talk.replies| == tries + 1 <= 1 + TAKEOVER_ATTEMPTS
    && talk.asked[0] == SetNx(record.ToBytes())
    && talk.replies[tries] == Held(value)
    && forall k :: 0 <= k < tries ==> TookOver(record, c.window, talk.replies, talk.asked, k)
  }

  /** What a message's phase says of its delivery's talk. */
  ghost predicate Says(c: R.Config, record: Holder, p: R.Phase, talk: Talk) {
    match p
    case Claiming => talk == Talk([], [])
    case Judging(reading, tries) => Open(c, record, talk, reading.entry.value, tries)
    case Passed | AckedPass =>
      Concluded(c, record, talk, Pass) || (c.policy == R.PassOn && Concluded(c, record, talk, StateError))
    case Dropped(_) | AckedDrop(_) => Concluded(c, record, talk, Drop)
    case Failed | DeadLetterStored | Terminated => exists out :: Concluded(c, record, talk, out)
    case Waiting | GivenUp => true
  }

  lemma ExtendedTookOver(record: Holder, window: u64, talk: Talk, request: Request, reply: Reply, k: nat)
    requires k + 1 < |talk.asked| == |talk.replies| && TookOver(record, window, talk.replies, talk.asked, k)
    ensures TookOver(record, window, talk.replies + [reply], talk.asked + [request], k)
  {
  }

  lemma MoreTookOver(record: Holder, window: u64, talk: Talk, after: Talk, value: string, tries: nat)
    requires |talk.asked| == |talk.replies| == tries + 1 && talk.replies[tries] == Held(value)
    requires forall k :: 0 <= k < tries ==> TookOver(record, window, talk.replies, talk.asked, k)
    requires |after.asked| == |after.replies| == tries + 2 && after.replies[..tries + 1] == talk.replies
    requires after.asked == talk.asked + [CompareAndSet(value, record.ToBytes())]
    requires NextMove(record, value, tries, window) == TryTakeover
    ensures forall k :: 0 <= k < tries + 1 ==> TookOver(record, window, after.replies, after.asked, k)
  {
    hide NextMove;
    var reply := after.replies[tries + 1];
    assert after.replies == talk.replies + [reply];
    forall k | 0 <= k < tries
      ensures TookOver(record, window, after.replies, after.asked, k)
    {
      ExtendedTookOver(record, window, talk, CompareAndSet(value, record.ToBytes()), reply, k);
    }
  }

  lemma ClaimSays(c: R.Config, msgs: seq<R.Message>, s: R.State, m: nat, fault: R.Fault, talk: Talk)
    requires |s.phases| == |s.delivered| == |msgs| && m < |msgs| && talk == Talk([], [])
    ensures Says(c, msgs[m].record, R.ApplyClaim(c, msgs, s, m, fault).phases[m],
              TalkAfter(msgs, s, R.Act(m, R.Claim(fault)), m, talk))
  {
    var after := TalkAfter(msgs, s, R.Act(m, R.Claim(fault)), m, talk);
    if fault != R.Answered {
      assert Concluded(c, msgs[m].record, after, StateError);
    } else if msgs[m].key !in s.store {
      assert Concluded(c, msgs[m].record, after, Pass);
    }
  }

  lemma TakeOverSays(c: R.Config, msgs: seq<R.Message>, s: R.State, m: nat, fault: R.Fault, talk: Talk)
    requires |s.phases| == |s.delivered| == |msgs| && m < |msgs| && s.phases[m].Judging?
    requires Says(c, msgs[m].record, s.phases[m], talk) && R.MoveOf(c, msgs, m, s.phases[m]) == TryTakeover
    ensures Says(c, msgs[m].record, R.ApplyTakeOver(c, msgs, s, m, fault).phases[m],
              TalkAfter(msgs, s, R.Act(m, R.TakeOver(fault)), m, talk))
  {
    var p, record := s.phases[m], msgs[m].record;
    var after := TalkAfter(msgs, s, R.Act(m, R.TakeOver(fault)), m, talk);
    MoreTookOver(record, c.window, talk, after, p.reading.entry.value, p.tries);
    if fault != R.Answered {
      assert Concluded(c, record, after, StateError);
    } else if after.replies[p.tries + 1].Vacant? {
      assert Concluded(c, record, after, Pass);
    }
  }

  lemma JudgeSays(c: R.Config, msgs: seq<R.Message>, m: nat, p: R.Phase, talk: Talk, out: Output)
    requires m < |msgs| && p.Judging? && Says(c, msgs[m].record, p, talk) && R.MoveOf(c, msgs, m, p) == Decide(out)
    ensures Concluded(c, msgs[m].record, talk, out)
  {
    hide NextMove, TookOver;
  }

  lemma SaysStep(c: R.Config, msgs: seq<R.Message>, s: R.State, e: R.Event, m: nat, talk: Talk)
    requires |s.phases| == |s.delivered| == |msgs| && m < |msgs| && R.Enabled(c, msgs, s, e)
    requires Says(c, msgs[m].record, s.phases[m], talk)
    ensures Says(c, msgs[m].record, R.Apply(c, msgs, s, e).phases[m], TalkAfter(msgs, s, e, m, talk))
  {
    hide Open, Concluded;
    if e.Act? && e.m == m {
      match e.action
      case Claim(fault) => ClaimSays(c, msgs, s, m, fault, talk);
      case TakeOver(fault) => TakeOverSays(c, msgs, s, m, fault, talk);
      case Judge =>
        var move := R.MoveOf(c, msgs, m, s.phases[m]);
        JudgeSays(c, msgs, m, s.phases[m], talk, move.output);
      case _ =>
    }
  }

  /** In every run, what a delivery asks of the store is an exchange of `Dedupe.Process` under way,
      and what it returned is that exchange's output: a record passed (or was passed on after a store
      error, if the policy says so), or was dropped, exactly as the stage decides. */
  lemma {:induction false} DeliveryIsExchange(c: R.Config, msgs: seq<R.Message>, run: seq<R.State>,
      events: seq<R.Event>, m: nat, i: nat)
    requires R.IsRun(c, msgs, run, events) && i < |run| && m < |msgs|
    ensures |run[i].phases| == |msgs|
    ensures Says(c, msgs[m].record, run[i].phases[m], TalkOf(msgs, run, events, m, i))
  {
    if i > 0 {
      DeliveryIsExchange(c, msgs, run, events, m, i - 1);
      assert R.StepAt(c, msgs, run, events, i - 1);
      SaysStep(c, msgs, run[i - 1], events[i - 1], m, TalkOf(msgs, run, events, m, i - 1));
    }
  }

  /** Where an exchange ended, another that got the same replies has ended too. */
  lemma NoLonger(record: Holder, window: u64, replies: seq<Reply>, asked: seq<Request>, out: Output,
      others: seq<Reply>, othersAsked: seq<Request>)
    requires 0 < |asked| <= |replies| && 0 < |othersAsked| <= |others| && (replies <= others || others <= replies)
    requires Exchange(record, window, replies, asked, out)
    requires forall k :: 0 <= k < |othersAsked| - 1 ==> TookOver(record, window, others, othersAsked, k)
    ensures |othersAsked| <= |asked|
  {
    var last := |asked| - 1;
    assert last < |othersAsked| - 1 ==> TookOver(record, window, others, othersAsked, last);
  }

  /** A worker has one way to answer a store: the same replies make the same exchange, so this one
      is what `Process` returns when the store answers so. */
  lemma ExchangeIsUnique(record: Holder, window: u64, replies: seq<Reply>, asked: seq<Request>, out: Output,
      allReplies: seq<Reply>, allAsked: seq<Request>, allOut: Output)
    requires 0 < |asked| <= |replies| && 0 < |allAsked| <= |allReplies| && replies <= allReplies
    requires Exchange(record, window, replies, asked, out) && Exchange(record, window, allReplies, allAsked, allOut)
    ensures asked == allAsked && out == allOut
  {
    NoLonger(record, window, replies, asked, out, allReplies, allAsked);
    NoLonger(record, window, allReplies, allAsked, allOut, replies, asked);
    forall k | 0 < k < |asked|
      ensures asked[k] == allAsked[k]
    {
      assert TookOver(record, window, replies, asked, k - 1);
      assert TookOver(record, window, allReplies, allAsked, k - 1);
    }
  }
}
