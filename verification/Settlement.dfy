/** How the NATS source settles a failed delivery: a nak, or on the final delivery a dead
    letter followed by a terminate (crates/nats/src/source.rs). */
module Settlement {
  import opened Wrappers

  /** Seconds. */
  const MAX_NAK_DELAY: nat := 30

  /** Milliseconds before each further try of a failed dead-letter publish. */
  const DEAD_LETTER_RETRIES: seq<nat> := [250, 500, 1000]

  function Pow2(n: nat): nat {
    if n == 0 then 1 else 2 * Pow2(n - 1)
  }

  function Min(a: int, b: int): int {
    if a < b then a else b
  }

  /** The delay in seconds of a nak on the `delivered`-th delivery. */
  function NakDelay(delivered: nat): nat {
    var exponent := Min(if delivered == 0 then 0 else delivered - 1, 5);
    Min(Pow2(exponent), MAX_NAK_DELAY)
  }

  predicate IsFinalDelivery(delivered: nat, limit: nat) {
    delivered >= limit
  }

  /** Delays never shrink from one delivery to the next, double up to 16 seconds and stay at 30 from
      the sixth on; a count of zero is treated as the first. */
  lemma NakDelayBacksOff(delivered: nat)
    ensures 1 <= NakDelay(delivered) <= NakDelay(delivered + 1) <= 30
    ensures NakDelay(0) == NakDelay(1) == 1
    ensures delivered >= 1 && NakDelay(delivered + 1) < 30 ==> NakDelay(delivered + 1) == 2 * NakDelay(delivered)
    ensures NakDelay(delivered) == 30 <==> delivered >= 6
  {
    assert Pow2(5) == 32 && Pow2(4) == 16 && Pow2(3) == 8 && Pow2(2) == 4 && Pow2(1) == 2;
  }

  // ----- settling -----

  datatype Action =
    | PublishDeadLetter(stored: bool)
    | Pause(millis: nat)
    | Nak(delaySeconds: Option<nat>)
    | Terminate

  /** The tries of one dead-letter publish: `outcomes[k]` is whether try `k` would be stored. */
  function Tries(outcomes: seq<bool>, k: nat): (actions: seq<Action>)
    requires |outcomes| == 1 + |DEAD_LETTER_RETRIES|
    requires k < |outcomes|
    decreases |outcomes| - k
  {
    if outcomes[k] || k == |DEAD_LETTER_RETRIES| then [PublishDeadLetter(outcomes[k])]
    else [PublishDeadLetter(false), Pause(DEAD_LETTER_RETRIES[k])] + Tries(outcomes, k + 1)
  }

  /** The tries written out: a quarter, a half and a whole second between one and the next. */
  function FourTries(outcomes: seq<bool>): seq<Action>
    requires |outcomes| == 4
  {
    var second := [PublishDeadLetter(false), Pause(250)];
    var third := second + [PublishDeadLetter(false), Pause(500)];
    var fourth := third + [PublishDeadLetter(false), Pause(1000)];
    if outcomes[0] then [PublishDeadLetter(true)]
    else if outcomes[1] then second + [PublishDeadLetter(true)]
    else if outcomes[2] then third + [PublishDeadLetter(true)]
    else fourth + [PublishDeadLetter(outcomes[3])]
  }

  lemma TriesAreFour(outcomes: seq<bool>)
    requires |outcomes| == 4
    ensures Tries(outcomes, 0) == FourTries(outcomes)
  {
    assert Tries(outcomes, 3) == [PublishDeadLetter(outcomes[3])];
    assert Tries(outcomes, 2) ==
      if outcomes[2] then [PublishDeadLetter(true)]
      else [PublishDeadLetter(false), Pause(1000)] + Tries(outcomes, 3);
    assert Tries(outcomes, 1) ==
      if outcomes[1] then [PublishDeadLetter(true)]
      else [PublishDeadLetter(false), Pause(500)] + Tries(outcomes, 2);
  }

  /** Publish the dead letter, pausing and trying again until one try is stored or the pauses
      run out. */
  method Publish(outcomes: seq<bool>) returns (stored: bool, actions: seq<Action>)
    requires |outcomes| == 4
    ensures stored == (true in outcomes)
    ensures actions == FourTries(outcomes)
    ensures PublishDeadLetter(true) in actions <==> stored
    ensures forall a :: a in actions ==> a.PublishDeadLetter? || a.Pause?
  {
    TriesAreFour(outcomes);
    actions := [];
    var k := 0;
    while true
      invariant 0 <= k <= |DEAD_LETTER_RETRIES|
      invariant actions + Tries(outcomes, k) == Tries(outcomes, 0)
      invariant forall i :: 0 <= i < k ==> !outcomes[i]
      invariant forall a :: a in actions ==> a == PublishDeadLetter(false) || a.Pause?
      decreases |outcomes| - k
    {
      if outcomes[k] {
        return true, actions + [PublishDeadLetter(true)];
      }
      if k == |DEAD_LETTER_RETRIES| {
        return false, actions + [PublishDeadLetter(false)];
      }
      actions := actions + [PublishDeadLetter(false), Pause(DEAD_LETTER_RETRIES[k])];
      k := k + 1;
    }
  }

  /** `DeadLetters::settle_failure`: `delivered` is `None` when the message info could not be
      read, and such a delivery is never final. The message is terminated only once its dead
      letter is stored, is nakked in every other case, and is settled exactly once, last. */
  method SettleFailure(delivered: Option<nat>, limit: nat, delay: Option<nat>, outcomes: seq<bool>)
      returns (actions: seq<Action>)
    requires |outcomes| == 4
    ensures actions != []
    ensures delivered.None? || delivered.value < limit ==>
              actions == [Nak(Some(
                if delay.Some? then delay.value else NakDelay(if delivered.Some? then delivered.value else 1)))]
    ensures delivered.Some? && delivered.value >= limit ==>
              actions == FourTries(outcomes) + [if true in outcomes then Terminate else Nak(None)]
    ensures forall i :: 0 <= i < |actions| - 1 ==> actions[i].PublishDeadLetter? || actions[i].Pause?
    ensures Terminate in actions <==> PublishDeadLetter(true) in actions
  {
    if delivered.None? || !IsFinalDelivery(delivered.value, limit) {
      var count := if delivered.Some? then delivered.value else 1;
      return [Nak(Some(if delay.Some? then delay.value else NakDelay(count)))];
    }
    var stored, published := Publish(outcomes);
    actions := published + [if stored then Terminate else Nak(None)];
    if stored {
      var i :| 0 <= i < |published| && published[i] == PublishDeadLetter(true);
      assert actions[i] == PublishDeadLetter(true);
      assert actions[|published|] == Terminate;
    }
  }
}
