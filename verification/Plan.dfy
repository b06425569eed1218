/** The load producer's plan: originals round-robin over the sets, with deliberate duplicates
    scheduled behind them (crates/harness/src/plan.rs). */
module Plan {
  // Rates and times are real numbers. What a run promises, it promises for any source of draws;
  // a seed's generator is one.

  import opened Wrappers
  import Sequences
  import S = SplitMix

  const DUP_LAG := 0.5
  const REPEAT_MARGIN := 1.0
  const MAX_COUNT: nat := 0x40_0000

  type Duration = d: real | d >= 0.0

  datatype PlanConfig = PlanConfig(rate: real, count: nat, dupPercent: nat, seed: bv64, dedupeWindow: Duration)

  datatype Planned = Planned(id: nat, dataset: nat, line: nat, cycle: nat, dupOf: Option<nat>, at: real)

  datatype PlanError =
    | RateNotPositive
    | ShareTooHigh
    | CountTooHigh
    | NoSets
    | EmptySet
    | RateTooHigh(repeated: real, needed: real)
    | RateTooLow

  /** What the generator yields if asked in slot `i`: a fraction, and a whole number. */
  datatype Draws = Draws(unit: nat -> real, next: nat -> nat)

  ghost predicate ValidDraws(draws: Draws) {
    forall i :: 0.0 <= draws.unit(i) < 1.0
  }

  /** A duplicate waiting for its slot, held as its original. */
  datatype Entry = Entry(slot: nat, origin: nat, original: Planned)

  /** `due` is the ordered map, smallest key first. */
  datatype State = State(due: seq<Entry>, sent: seq<nat>, originals: nat, messages: seq<Planned>)

  /** What the checks before the loop settle. Ids are `base | i`, which is `base + i` since a
      base has none of the bits below `MAX_COUNT`. */
  datatype Setup = Setup(lens: seq<nat>, base: nat, rate: real, half: nat, chance: real)

  ghost predicate ValidSetup(s: Setup) {
    s.lens != [] && s.rate > 0.0 && forall k :: 0 <= k < |s.lens| ==> s.lens[k] > 0
  }

  // ----- the checks -----

  function Share(config: PlanConfig): real {
    config.dupPercent as real / 100.0
  }

  function Needed(config: PlanConfig): real {
    config.dedupeWindow + DUP_LAG + REPEAT_MARGIN
  }

  function Half(rate: real): nat
    requires rate > 0.0
  {
    (DUP_LAG * rate).Floor / 2
  }

  function SetupOf(config: PlanConfig, lens: seq<nat>, base: nat): Setup
    requires config.rate > 0.0 && config.dupPercent <= 50
  {
    Setup(lens, base, config.rate, Half(config.rate), Share(config) / OriginalShare(config))
  }

  /** How soon the planner expects a set of `len` lines to come back. */
  function Repeat(config: PlanConfig, len: nat, sets: nat): real
    requires config.rate > 0.0 && config.dupPercent <= 50
  {
    TimeFor(LinesInRound(len, sets), OriginalsPerSecond(config))
  }

  function OriginalShare(config: PlanConfig): (left: real)
    requires config.dupPercent <= 50
    ensures 0.5 <= left <= 1.0
  {
    1.0 - Share(config)
  }

  function OriginalsPerSecond(config: PlanConfig): (r: real)
    requires config.rate > 0.0 && config.dupPercent <= 50
    ensures r > 0.0
  {
    PositiveProduct(config.rate, OriginalShare(config));
    config.rate * OriginalShare(config)
  }

  lemma PositiveProduct(a: real, b: real)
    requires a > 0.0 && b > 0.0
    ensures a * b > 0.0
  {
  }

  /** What all sets send while one of `len` lines comes round. */
  function LinesInRound(len: nat, sets: nat): real {
    len as real * sets as real
  }

  function TimeFor(lines: real, rate: real): real
    requires rate > 0.0
  {
    lines / rate
  }

  /** Why a plan is refused; `None` when it is not. `shortest` is the smallest of `lens`. */
  function Refusal(config: PlanConfig, lens: seq<nat>, shortest: nat): Option<PlanError> {
    if config.rate <= 0.0 then Some(RateNotPositive)
    else if config.dupPercent > 50 then Some(ShareTooHigh)
    else if config.count >= MAX_COUNT then Some(CountTooHigh)
    else if lens == [] then Some(NoSets)
    else if shortest == 0 then Some(EmptySet)
    else if Repeat(config, shortest, |lens|) < Needed(config)
      then Some(RateTooHigh(Repeat(config, shortest, |lens|), Needed(config)))
    else if config.dupPercent > 0 && Half(config.rate) == 0 then Some(RateTooLow)
    else None
  }

  ghost predicate IsShortest(lens: seq<nat>, shortest: nat) {
    lens != [] ==> shortest in lens && forall k :: 0 <= k < |lens| ==> shortest <= lens[k]
  }

  // ----- one slot, and the run -----

  predicate ComesBefore(a: Entry, b: Entry) {
    a.slot < b.slot || (a.slot == b.slot && a.origin < b.origin)
  }

  function Insert(due: seq<Entry>, e: Entry): seq<Entry> {
    if due == [] || ComesBefore(e, due[0]) then [e] + due else [due[0]] + Insert(due[1..], e)
  }

  /** The `ordinal`-th original of the run: its set, its line there, and the set's cycle. */
  function OriginalAt(setup: Setup, sent: seq<nat>, ordinal: nat, i: nat): Planned
    requires ValidSetup(setup) && |sent| == |setup.lens|
  {
    var s := ordinal % |setup.lens|;
    Planned(setup.base + i, s, sent[s] % setup.lens[s], sent[s] / setup.lens[s], None, i as real / setup.rate)
  }

  function Slot(st: State, i: nat, setup: Setup, coin: real, delay: nat): (next: State)
    requires ValidSetup(setup) && |st.sent| == |setup.lens|
    ensures |next.sent| == |setup.lens|
  {
    if st.due != [] && st.due[0].slot <= i then
      var original := st.due[0].original;
      var repeated := original.(id := setup.base + i, dupOf := Some(original.id), at := i as real / setup.rate);
      st.(due := st.due[1..], messages := st.messages + [repeated])
    else
      var original := OriginalAt(setup, st.sent, st.originals, i);
      var s := original.dataset;
      var due :=
        if setup.half > 0 && |st.due| < setup.half && coin < setup.chance
        then Insert(st.due, Entry(i + 1 + delay % setup.half, i, original))
        else st.due;
      State(due, st.sent[s := st.sent[s] + 1], st.originals + 1, st.messages + [original])
  }

  function Run(n: nat, setup: Setup, draws: Draws): (st: State)
    requires ValidSetup(setup)
    ensures |st.sent| == |setup.lens|
  {
    if n == 0 then State([], seq(|setup.lens|, _ => 0), 0, [])
    else Slot(Run(n - 1, setup, draws), n - 1, setup, draws.unit(n - 1), draws.next(n - 1))
  }

  // ----- the draws of a seed -----

  /** A run drawing from a generator, and how many numbers it has drawn. */
  datatype Seeded = Seeded(st: State, taken: nat)

  /** Whether slot `i` tosses the coin. */
  predicate Tosses(st: State, i: nat, setup: Setup) {
    (st.due == [] || st.due[0].slot > i) && setup.half > 0 && |st.due| < setup.half
  }

  function SeededSlot(run: Seeded, i: nat, setup: Setup, numbers: S.Numbers): (next: Seeded)
    requires ValidSetup(setup) && |run.st.sent| == |setup.lens|
    ensures |next.st.sent| == |setup.lens|
  {
    var drawn :=
      if !Tosses(run.st, i, setup) then 0
      else if numbers.fraction(run.taken) < setup.chance then 2
      else 1;
    Seeded(Slot(run.st, i, setup, numbers.fraction(run.taken), numbers.natural(run.taken + 1)), run.taken + drawn)
  }

  /** The run of a generator: one number for every coin tossed, another for every delay. */
  function SeededRun(n: nat, setup: Setup, numbers: S.Numbers): (run: Seeded)
    requires ValidSetup(setup)
    ensures |run.st.sent| == |setup.lens|
  {
    if n == 0 then Seeded(State([], seq(|setup.lens|, _ => 0), 0, []), 0)
    else SeededSlot(SeededRun(n - 1, setup, numbers), n - 1, setup, numbers)
  }

  /** What each slot of that run draws, or would draw. */
  function DrawsOf(setup: Setup, numbers: S.Numbers): Draws
    requires ValidSetup(setup)
  {
    Draws(
      (i: nat) => numbers.fraction(SeededRun(i, setup, numbers).taken),
      (i: nat) => numbers.natural(SeededRun(i, setup, numbers).taken + 1))
  }

  /** Slot `i` finds what the generator has come to. */
  ghost predicate DrawsNext(setup: Setup, numbers: S.Numbers, draws: Draws, i: nat)
    requires ValidSetup(setup)
  {
    var taken := SeededRun(i, setup, numbers).taken;
    draws.unit(i) == numbers.fraction(taken) && draws.next(i) == numbers.natural(taken + 1)
  }

  lemma {:induction false} RunsAgree(n: nat, setup: Setup, numbers: S.Numbers, draws: Draws)
    requires ValidSetup(setup) && forall i :: 0 <= i < n ==> DrawsNext(setup, numbers, draws, i)
    ensures SeededRun(n, setup, numbers).st == Run(n, setup, draws)
  {
    hide Slot;
    if n > 0 {
      RunsAgree(n - 1, setup, numbers, draws);
      assert DrawsNext(setup, numbers, draws, n - 1);
    }
  }

  /** A generator's run is the run of its draws, so what holds of every run holds of it. */
  lemma SeededRunIsRun(n: nat, setup: Setup, numbers: S.Numbers)
    requires ValidSetup(setup)
    ensures SeededRun(n, setup, numbers).st == Run(n, setup, DrawsOf(setup, numbers))
  {
    hide Run, SeededRun;
    RunsAgree(n, setup, numbers, DrawsOf(setup, numbers));
  }

  /** The draws of a seed are fractions below one, as the coin needs. */
  lemma SeedDrawsAreValid(setup: Setup, seed: bv64)
    requires ValidSetup(setup)
    ensures ValidDraws(DrawsOf(setup, S.NumbersOf(seed)))
  {
    S.FractionsOf(seed);
  }

  // ----- the planner as the source writes it -----

  method Shortest(lens: seq<nat>) returns (shortest: nat)
    ensures IsShortest(lens, shortest)
  {
    shortest := 0;
    for k := 0 to |lens|
      invariant k > 0 ==> IsShortest(lens[..k], shortest)
    {
      Sequences.TakeNext(lens, k);
      if k == 0 || lens[k] < shortest {
        shortest := lens[k];
      }
    }
    assert lens[..|lens|] == lens;
  }

  method MakePlan(config: PlanConfig, lens: seq<nat>, base: nat) returns (r: Result<seq<Planned>, PlanError>)
    ensures forall shortest :: IsShortest(lens, shortest) ==>
      match Refusal(config, lens, shortest)
      case Some(e) => r == Err(e)
      case None =>
        var setup := SetupOf(config, lens, base);
        ValidSetup(setup) && r == Ok(Run(config.count, setup, DrawsOf(setup, S.NumbersOf(config.seed))).messages)
  {
    var shortest := Shortest(lens);
    OneShortest(config, lens, shortest);
    if config.rate <= 0.0 {
      return Err(RateNotPositive);
    }
    if config.dupPercent > 50 {
      return Err(ShareTooHigh);
    }
    if config.count >= MAX_COUNT {
      return Err(CountTooHigh);
    }
    if lens == [] {
      return Err(NoSets);
    }
    if shortest == 0 {
      return Err(EmptySet);
    }
    var repeated, needed := Repeat(config, shortest, |lens|), Needed(config);
    if repeated < needed {
      return Err(RateTooHigh(repeated, needed));
    }
    var half := Half(config.rate);
    if config.dupPercent > 0 && half == 0 {
      return Err(RateTooLow);
    }
    var setup := SetupOf(config, lens, base);
    var rng := new S.SplitMix64(config.seed);
    var messages := Schedule(config.count, setup, rng);
    SeededRunIsRun(config.count, setup, rng.numbers);
    r := Ok(messages);
  }

  lemma OneShortest(config: PlanConfig, lens: seq<nat>, shortest: nat)
    requires IsShortest(lens, shortest)
    ensures forall other :: IsShortest(lens, other) ==> Refusal(config, lens, other) == Refusal(config, lens, shortest)
  {
  }

  /** When a plan is refused, in the flags' own terms: no rate, more than half duplicates, 2^22 messages
      or more, no sets or an empty one, a shortest set that comes round at the rate of originals before
      the window, 500 ms and a second have passed, or duplicates at fewer than four messages a second. */
  lemma RefusedExactlyFor(config: PlanConfig, lens: seq<nat>, shortest: nat)
    requires IsShortest(lens, shortest)
    ensures Refusal(config, lens, shortest) ==
            if config.rate <= 0.0 then Some(RateNotPositive)
            else if config.dupPercent > 50 then Some(ShareTooHigh)
            else if config.count >= 4_194_304 then Some(CountTooHigh)
            else if lens == [] then Some(NoSets)
            else if 0 in lens then Some(EmptySet)
            else
              var first := FirstReturn(config, shortest, |lens|);
              if first < config.dedupeWindow + 1.5 then Some(RateTooHigh(first, config.dedupeWindow + 1.5))
              else if config.dupPercent > 0 && config.rate < 4.0 then Some(RateTooLow)
              else None
  {
    hide FirstReturn, Repeat, Half, Needed;
    if config.rate > 0.0 && config.dupPercent <= 50 {
      HalfOfRate(config.rate);
      RepeatIsFirstReturn(config, shortest, |lens|);
      NeededIs(config);
    }
  }

  /** How soon a set of `len` lines comes round when only originals count. */
  function FirstReturn(config: PlanConfig, len: nat, sets: nat): real
    requires config.rate > 0.0 && config.dupPercent <= 50
  {
    var originals := config.rate * (1.0 - config.dupPercent as real / 100.0);
    PositiveProduct(config.rate, 1.0 - config.dupPercent as real / 100.0);
    len as real * sets as real / originals
  }

  lemma RepeatIsFirstReturn(config: PlanConfig, len: nat, sets: nat)
    requires config.rate > 0.0 && config.dupPercent <= 50
    ensures Repeat(config, len, sets) == FirstReturn(config, len, sets)
  {
  }

  lemma NeededIs(config: PlanConfig)
    ensures Needed(config) == config.dedupeWindow + 1.5
  {
  }

  /** A plan spreads its duplicates over half the slots of half a second, and draws them so often that they
      make up their share of all messages. */
  lemma SetupMeans(config: PlanConfig, lens: seq<nat>, base: nat)
    requires config.rate > 0.0 && config.dupPercent <= 50
    ensures var setup := SetupOf(config, lens, base);
            && setup.lens == lens && setup.base == base && setup.rate == config.rate
            && 4.0 * setup.half as real <= config.rate < 4.0 * (setup.half + 1) as real
            && setup.chance * (100 - config.dupPercent) as real == config.dupPercent as real
            && OriginalShare(config) * 100.0 == (100 - config.dupPercent) as real
  {
    HalfOfRate(config.rate);
    var left := OriginalShare(config);
    assert left * 100.0 == (100 - config.dupPercent) as real;
    QuotientBack(Share(config), left);
    ScaledBack(Share(config) / left, left, Share(config));
  }

  lemma HalfOfRate(rate: real)
    requires rate > 0.0
    ensures 4.0 * Half(rate) as real <= rate < 4.0 * (Half(rate) + 1) as real
    ensures Half(rate) == 0 <==> rate < 4.0
  {
    var slots := (0.5 * rate).Floor;
    assert slots as real <= 0.5 * rate < (slots + 1) as real;
    assert 2 * (slots / 2) <= slots <= 2 * (slots / 2) + 1;
  }

  lemma QuotientBack(a: real, b: real)
    requires b > 0.0
    ensures a / b * b == a
  {
  }

  lemma ScaledBack(q: real, b: real, a: real)
    requires q * b == a
    ensures q * (b * 100.0) == a * 100.0
  {
  }

  method Schedule(count: nat, setup: Setup, rng: S.SplitMix64) returns (messages: seq<Planned>)
    requires ValidSetup(setup) && rng.Valid() && rng.taken == 0
    modifies rng
    ensures messages == SeededRun(count, setup, rng.numbers).st.messages
  {
    var st := State([], seq(|setup.lens|, _ => 0), 0, []);
    for i := 0 to count
      invariant rng.Valid() && |st.sent| == |setup.lens|
      invariant Seeded(st, rng.taken) == SeededRun(i, setup, rng.numbers)
    {
      st := Send(st, i, setup, rng);
    }
    return st.messages;
  }

  /** One pass of the loop: the first duplicate that is due, or else the next original. */
  method Send(st: State, i: nat, setup: Setup, rng: S.SplitMix64) returns (next: State)
    requires ValidSetup(setup) && |st.sent| == |setup.lens| && rng.Valid()
    modifies rng
    ensures rng.Valid() && |next.sent| == |setup.lens|
    ensures Seeded(next, rng.taken) == SeededSlot(Seeded(st, old(rng.taken)), i, setup, rng.numbers)
  {
    var due, sent, originals, messages := st.due, st.sent, st.originals, st.messages;
    if due != [] && due[0].slot <= i {
      var original := due[0].original;
      due := due[1..];
      var repeated := original.(id := setup.base + i, dupOf := Some(original.id), at := i as real / setup.rate);
      return State(due, sent, originals, messages + [repeated]);
    }
    var original := OriginalAt(setup, sent, originals, i);
    originals := originals + 1;
    sent := sent[original.dataset := sent[original.dataset] + 1];
    if setup.half > 0 && |due| < setup.half {
      var coin := rng.Unit();
      if coin < setup.chance {
        var z := rng.Next();
        var after := 1 + S.Natural(z) % setup.half;
        due := Insert(due, Entry(i + after, i, original));
      }
    }
    return State(due, sent, originals, messages + [original]);
  }

  // ----- the queue of duplicates -----

  ghost predicate Sorted(due: seq<Entry>) {
    forall a, b :: 0 <= a < b < |due| ==> due[a].slot <= due[b].slot
  }

  lemma {:induction false} InsertKeepsOrder(due: seq<Entry>, e: Entry)
    requires Sorted(due)
    ensures Sorted(Insert(due, e)) && |Insert(due, e)| == |due| + 1
    ensures forall k :: 0 <= k < |due| + 1 ==> Insert(due, e)[k] == e || Insert(due, e)[k] in due
  {
    if due != [] && !ComesBefore(e, due[0]) {
      InsertKeepsOrder(due[1..], e);
    }
  }

  /** Before slot `i`: an entry that is already due leaves within `half` slots of its own,
      whatever stands before it. */
  ghost predicate Prompt(due: seq<Entry>, i: nat, half: nat) {
    && |due| <= half
    && Sorted(due)
    && forall k :: 0 <= k < |due| ==>
      && due[k].origin < i && due[k].origin < due[k].slot <= due[k].origin + half
      && (due[k].slot <= i ==> i + k < due[k].slot + half)
  }

  lemma PromptAfterInsert(due: seq<Entry>, e: Entry, i: nat, half: nat)
    requires Prompt(due, i, half) && |due| < half && (due == [] || due[0].slot > i)
    requires e.origin == i < e.slot <= i + half
    ensures Prompt(Insert(due, e), i + 1, half)
  {
    InsertKeepsOrder(due, e);
  }

  lemma PromptStep(st: State, i: nat, setup: Setup, coin: real, delay: nat)
    requires ValidSetup(setup) && |st.sent| == |setup.lens|
    requires Prompt(st.due, i, setup.half)
    ensures Prompt(Slot(st, i, setup, coin, delay).due, i + 1, setup.half)
  {
    if Tosses(st, i, setup) && coin < setup.chance {
      var e := Entry(i + 1 + delay % setup.half, i, OriginalAt(setup, st.sent, st.originals, i));
      PromptAfterInsert(st.due, e, i, setup.half);
    }
  }

  /** At most `half` duplicates are ever pending. */
  lemma {:induction false} PendingIsBounded(n: nat, setup: Setup, draws: Draws)
    requires ValidSetup(setup)
    ensures Prompt(Run(n, setup, draws).due, n, setup.half)
    ensures |Run(n, setup, draws).due| <= setup.half
  {
    hide Slot;
    if n > 0 {
      PendingIsBounded(n - 1, setup, draws);
      var before := Run(n - 1, setup, draws);
      PromptStep(before, n - 1, setup, draws.unit(n - 1), draws.next(n - 1));
    }
  }

  // ----- duplicates and their originals -----

  /** The message in slot `k` repeats the original in an earlier slot less than `2 * half` back. */
  ghost predicate RepeatsOriginal(messages: seq<Planned>, k: nat, base: nat, half: nat)
    requires k < |messages|
  {
    var m := messages[k];
    m.dupOf.Some? ==>
      && base <= m.dupOf.value < base + k
      && k - (m.dupOf.value - base) < 2 * half
      && Repeats(m, messages[m.dupOf.value - base])
  }

  ghost predicate Repeats(m: Planned, original: Planned) {
    && original.dupOf.None?
    && m.dupOf == Some(original.id)
    && m.dataset == original.dataset && m.line == original.line && m.cycle == original.cycle
  }

  ghost predicate Origins(st: State, setup: Setup) {
    && (forall k :: 0 <= k < |st.messages| ==>
      st.messages[k].id == setup.base + k && RepeatsOriginal(st.messages, k, setup.base, setup.half))
    && (forall k :: 0 <= k < |st.due| ==>
      st.due[k].origin < |st.messages| && st.messages[st.due[k].origin] == st.due[k].original
        && st.due[k].original.dupOf.None?)
  }

  ghost predicate DistinctIds(due: seq<Entry>) {
    forall a, b :: 0 <= a < b < |due| ==> due[a].original.id != due[b].original.id
  }

  /** No original is waiting twice, sent twice, or waiting once sent. */
  ghost predicate OncePerOriginal(st: State) {
    && DistinctIds(st.due)
    && (forall a, b :: 0 <= a < b < |st.messages| && st.messages[a].dupOf.Some? ==>
      st.messages[a].dupOf != st.messages[b].dupOf)
    && (forall a, b :: 0 <= a < |st.due| && 0 <= b < |st.messages| ==>
      st.messages[b].dupOf != Some(st.due[a].original.id))
  }

  /** Slot `i` sends the first waiting duplicate. */
  ghost predicate SendsDuplicate(st: State, next: State, i: nat, setup: Setup) {
    && st.due != [] && st.due[0].slot <= i
    && next.due == st.due[1..]
    && |next.messages| == i + 1 && next.messages[..i] == st.messages
    && next.messages[i].id == setup.base + i
    && Repeats(next.messages[i], st.due[0].original.(dupOf := None))
  }

  /** Slot `i` sends a new original, and may queue its duplicate. */
  ghost predicate SendsOriginal(st: State, next: State, i: nat, setup: Setup, e: Entry) {
    && |next.messages| == i + 1 && next.messages[..i] == st.messages
    && next.messages[i] == e.original
    && e.origin == i && e.original.id == setup.base + i && e.original.dupOf.None?
    && (next.due == st.due || next.due == Insert(st.due, e))
  }

  lemma SlotSends(st: State, i: nat, setup: Setup, coin: real, delay: nat) returns (e: Entry)
    requires ValidSetup(setup) && |st.sent| == |setup.lens| && |st.messages| == i
    requires forall k :: 0 <= k < |st.due| ==> st.due[k].original.dupOf.None?
    ensures var next := Slot(st, i, setup, coin, delay);
      SendsDuplicate(st, next, i, setup) || SendsOriginal(st, next, i, setup, e)
  {
    var after := 1 + if setup.half > 0 then delay % setup.half else 0;
    e := Entry(i + after, i, OriginalAt(setup, st.sent, st.originals, i));
    assert Slot(st, i, setup, coin, delay).messages[..i] == st.messages;
  }

  lemma OriginsStep(st: State, next: State, i: nat, setup: Setup, e: Entry)
    requires |st.messages| == i && Prompt(st.due, i, setup.half) && Origins(st, setup)
    requires SendsDuplicate(st, next, i, setup) || SendsOriginal(st, next, i, setup, e)
    ensures Origins(next, setup)
  {
    forall k | 0 <= k < i ensures next.messages[k] == st.messages[k]
      && RepeatsOriginal(next.messages, k, setup.base, setup.half) {
      KeptMessage(st.messages, next.messages, k);
      assert RepeatsOriginal(st.messages, k, setup.base, setup.half);
    }
    if SendsDuplicate(st, next, i, setup) {
      var origin := st.due[0].origin;
      assert next.messages[origin] == st.due[0].original;
      assert RepeatsOriginal(next.messages, i, setup.base, setup.half);
    } else {
      InsertKeepsOrder(st.due, e);
    }
  }

  lemma KeptMessage(before: seq<Planned>, after: seq<Planned>, k: nat)
    requires k < |before| <= |after| && after[..|before|] == before
    ensures after[k] == before[k]
    ensures forall j :: 0 <= j <= k ==> after[j] == before[j]
  {
    assert forall j :: 0 <= j <= k ==> after[j] == after[..|before|][j];
  }

  lemma {:induction false} InsertStaysDistinct(due: seq<Entry>, e: Entry)
    requires DistinctIds(due)
    requires forall a :: 0 <= a < |due| ==> due[a].original.id != e.original.id
    ensures DistinctIds(Insert(due, e))
  {
    if due != [] && !ComesBefore(e, due[0]) {
      var rest := Insert(due[1..], e);
      InsertStaysDistinct(due[1..], e);
      InsertHolds(due[1..], e);
      var all := Insert(due, e);
      forall a, b | 0 <= a < b < |all| ensures all[a].original.id != all[b].original.id {
        assert all[b] == rest[b - 1];
        assert a > 0 ==> all[a] == rest[a - 1];
      }
    }
  }

  lemma {:induction false} InsertHolds(due: seq<Entry>, e: Entry)
    ensures forall k :: 0 <= k < |Insert(due, e)| ==>
      Insert(due, e)[k] == e || exists j :: 0 <= j < |due| && due[j] == Insert(due, e)[k]
  {
    if due != [] && !ComesBefore(e, due[0]) {
      InsertHolds(due[1..], e);
      var rest := Insert(due[1..], e);
      forall k | 0 <= k < |rest| ensures rest[k] == e || exists j :: 0 <= j < |due| && due[j] == rest[k] {
        if rest[k] != e {
          var j :| 0 <= j < |due[1..]| && due[1..][j] == rest[k];
          assert due[j + 1] == rest[k];
        }
      }
    }
  }

  lemma OnceAfterDuplicate(st: State, next: State, i: nat, setup: Setup)
    requires |st.messages| == i && Origins(st, setup) && OncePerOriginal(st)
    requires SendsDuplicate(st, next, i, setup)
    ensures OncePerOriginal(next)
  {
    var sent := st.due[0].original.id;
    assert next.messages[i].dupOf == Some(sent);
    forall k | 0 <= k < i ensures next.messages[k] == st.messages[k] && next.messages[k].dupOf != Some(sent) {
      KeptMessage(st.messages, next.messages, k);
    }
  }

  lemma OnceAfterOriginal(st: State, next: State, i: nat, setup: Setup, e: Entry)
    requires |st.messages| == i && Origins(st, setup) && OncePerOriginal(st)
    requires SendsOriginal(st, next, i, setup, e)
    ensures OncePerOriginal(next)
  {
    forall k | 0 <= k < i ensures next.messages[k] == st.messages[k] && next.messages[k].dupOf != Some(e.original.id) {
      KeptMessage(st.messages, next.messages, k);
      assert RepeatsOriginal(st.messages, k, setup.base, setup.half);
    }
    forall k | 0 <= k < |st.due| ensures st.due[k].original.id != e.original.id {
      assert st.messages[st.due[k].origin].id == setup.base + st.due[k].origin;
    }
    InsertStaysDistinct(st.due, e);
    InsertHolds(st.due, e);
    OnceFromParts(st, next, i, e);
  }

  lemma OnceFromParts(st: State, next: State, i: nat, e: Entry)
    requires OncePerOriginal(st) && |st.messages| == i && |next.messages| == i + 1
    requires next.messages[i].dupOf.None? && DistinctIds(next.due)
    requires forall k :: 0 <= k < i ==>
      next.messages[k] == st.messages[k] && next.messages[k].dupOf != Some(e.original.id)
    requires forall k :: 0 <= k < |next.due| ==>
      next.due[k] == e || exists j :: 0 <= j < |st.due| && st.due[j] == next.due[k]
    ensures OncePerOriginal(next)
  {
  }

  lemma {:induction false} DuplicatesAreSound(n: nat, setup: Setup, draws: Draws)
    requires ValidSetup(setup)
    ensures |Run(n, setup, draws).messages| == n
    ensures Origins(Run(n, setup, draws), setup) && OncePerOriginal(Run(n, setup, draws))
  {
    hide Slot;
    if n > 0 {
      DuplicatesAreSound(n - 1, setup, draws);
      PendingIsBounded(n - 1, setup, draws);
      var before := Run(n - 1, setup, draws);
      var after := Run(n, setup, draws);
      var e := SlotSends(before, n - 1, setup, draws.unit(n - 1), draws.next(n - 1));
      SoundStep(before, after, n - 1, setup, e);
    }
  }

  lemma SoundStep(before: State, after: State, i: nat, setup: Setup, e: Entry)
    requires |before.messages| == i && Prompt(before.due, i, setup.half) && Origins(before, setup)
      && OncePerOriginal(before)
    requires SendsDuplicate(before, after, i, setup) || SendsOriginal(before, after, i, setup, e)
    ensures |after.messages| == i + 1 && Origins(after, setup) && OncePerOriginal(after)
  {
    OriginsStep(before, after, i, setup, e);
    if SendsDuplicate(before, after, i, setup) {
      OnceAfterDuplicate(before, after, i, setup);
    } else {
      OnceAfterOriginal(before, after, i, setup, e);
    }
  }

  /** Every duplicate sent repeats the set, line and cycle of one earlier original, goes out
      less than `2 * half` slots and less than the lag after it, and is the only one to do so. */
  lemma DuplicateIsPromptAndOnly(count: nat, setup: Setup, draws: Draws, k: nat, config: PlanConfig)
    requires ValidSetup(setup) && config.rate == setup.rate && setup.half == Half(config.rate)
    requires k < count
    ensures var messages := Run(count, setup, draws).messages;
      |messages| == count && (messages[k].dupOf.Some? ==>
        exists o :: 0 <= o < k < o + 2 * setup.half
          && Repeats(messages[k], messages[o])
          && k as real / setup.rate - o as real / setup.rate < 0.5
          && forall j :: 0 <= j < count && j != k ==> !Repeats(messages[j], messages[o]))
  {
    DuplicatesAreSound(count, setup, draws);
    var messages := Run(count, setup, draws).messages;
    if messages[k].dupOf.Some? {
      assert RepeatsOriginal(messages, k, setup.base, setup.half);
      var o := messages[k].dupOf.value - setup.base;
      WithinLag(k, o, setup.half, setup.rate);
    }
  }

  lemma WithinLag(k: nat, o: nat, half: nat, rate: real)
    requires rate > 0.0 && half == Half(rate) && o < k < o + 2 * half
    ensures k as real / rate - o as real / rate < 0.5
  {
    assert (2 * half) as real <= DUP_LAG * rate;
    SlotsToTime(o, k, rate);
    assert (k - o) as real < DUP_LAG * rate;
    LessTime((k - o) as real, DUP_LAG, rate);
  }

  lemma SlotsToTime(a: nat, b: nat, rate: real)
    requires rate > 0.0 && a <= b
    ensures b as real / rate - a as real / rate == (b - a) as real / rate
  {
    assert (b as real - a as real) / rate == b as real / rate - a as real / rate;
  }

  lemma LessTime(slots: real, time: real, rate: real)
    requires rate > 0.0
    ensures slots < time * rate <==> slots / rate < time
  {
    var t := slots / rate;
    assert t * rate == slots;
    assert t < time <==> t * rate < time * rate;
  }

  // ----- round-robin -----

  /** How many originals of set `s` are among the first `originals`. */
  function RoundOf(s: nat, originals: nat, sets: nat): nat
    requires sets > 0
  {
    originals / sets + if s < originals % sets then 1 else 0
  }

  lemma NextOrdinal(n: nat, sets: nat)
    requires sets > 0
    ensures (n + 1) % sets == (if n % sets == sets - 1 then 0 else n % sets + 1)
    ensures (n + 1) / sets == (if n % sets == sets - 1 then n / sets + 1 else n / sets)
  {
    var q, r := n / sets, n % sets;
    assert n == q * sets + r;
    if r == sets - 1 {
      assert n + 1 == (q + 1) * sets;
      DivMod(n + 1, q + 1, 0, sets);
    } else {
      DivMod(n + 1, q, r + 1, sets);
    }
  }

  lemma DivMod(n: nat, q: nat, r: nat, d: nat)
    requires d > 0 && r < d && n == q * d + r
    ensures n / d == q && n % d == r
  {
    var e := n / d - q;
    assert n == (n / d) * d + n % d;
    assert e * d == (n / d) * d - q * d;
    ZeroFactor(e, d);
  }

  lemma ZeroFactor(e: int, d: int)
    requires d > 0 && -d < e * d < d
    ensures e == 0
  {
    assert (-e) * d == -(e * d);
    if e >= 0 {
      Multiple(e, d);
    } else {
      Multiple(-e, d);
    }
  }

  lemma {:induction false} Multiple(e: nat, d: nat)
    ensures e >= 1 ==> e * d >= d
  {
    if e > 1 {
      Multiple(e - 1, d);
      assert e * d == (e - 1) * d + d;
    }
  }

  /** Which body the `ordinal`-th original carries. */
  ghost predicate CarriesBody(m: Planned, ordinal: nat, lens: seq<nat>)
    requires lens != [] && forall k :: 0 <= k < |lens| ==> lens[k] > 0
  {
    && m.dataset == ordinal % |lens|
    && m.line == (ordinal / |lens|) % lens[m.dataset]
    && m.cycle == (ordinal / |lens|) / lens[m.dataset]
  }

  /** How many of `messages` are originals. */
  function OriginalsIn(messages: seq<Planned>): (n: nat)
    ensures n <= |messages|
  {
    if messages == [] then 0
    else OriginalsIn(messages[..|messages| - 1]) + if messages[|messages| - 1].dupOf.None? then 1 else 0
  }

  ghost predicate InRounds(st: State, setup: Setup)
    requires ValidSetup(setup) && |st.sent| == |setup.lens|
  {
    && st.originals == OriginalsIn(st.messages)
    && (forall s :: 0 <= s < |setup.lens| ==> st.sent[s] == RoundOf(s, st.originals, |setup.lens|))
    && (forall k :: 0 <= k < |st.messages| && st.messages[k].dupOf.None? ==>
      CarriesBody(st.messages[k], OriginalsIn(st.messages[..k]), setup.lens))
  }

  lemma RoundStep(st: State, i: nat, setup: Setup, coin: real, delay: nat)
    requires ValidSetup(setup) && |st.sent| == |setup.lens| && |st.messages| == i
    requires InRounds(st, setup)
    ensures |Slot(st, i, setup, coin, delay).messages| == i + 1 && InRounds(Slot(st, i, setup, coin, delay), setup)
  {
    var next := Slot(st, i, setup, coin, delay);
    assert next.messages[..i] == st.messages;
    forall k | 0 <= k < i ensures next.messages[..k] == st.messages[..k] {
    }
    NextOrdinal(st.originals, |setup.lens|);
  }

  /** The originals are dealt round-robin: the `j`-th carries line `j / sets` of set `j % sets`,
      counted modulo the set's length. */
  lemma {:induction false} OriginalsAreDealtInRounds(n: nat, setup: Setup, draws: Draws)
    requires ValidSetup(setup)
    ensures |Run(n, setup, draws).messages| == n && InRounds(Run(n, setup, draws), setup)
  {
    hide Slot;
    if n > 0 {
      OriginalsAreDealtInRounds(n - 1, setup, draws);
      RoundStep(Run(n - 1, setup, draws), n - 1, setup, draws.unit(n - 1), draws.next(n - 1));
    }
  }

  lemma {:induction false} OrdinalsLagSlots(messages: seq<Planned>, a: nat, b: nat)
    requires a <= b <= |messages|
    ensures OriginalsIn(messages[..a]) <= OriginalsIn(messages[..b]) <= OriginalsIn(messages[..a]) + (b - a)
    ensures a < b && messages[a].dupOf.None? ==> OriginalsIn(messages[..a]) < OriginalsIn(messages[..b])
    decreases b - a
  {
    if a < b {
      OrdinalsLagSlots(messages, a, b - 1);
      assert messages[..b][..b - 1] == messages[..b - 1];
    }
  }

  /** Two ordinals of one set and one line are whole cycles apart. */
  lemma SameBodyOrdinals(j: nat, l: nat, sets: nat, len: nat)
    requires sets > 0 && len > 0 && j < l
    requires j % sets == l % sets && (j / sets) % len == (l / sets) % len
    ensures l - j >= len * sets
  {
    SameRemainder(j, l, sets);
    SameRemainder(j / sets, l / sets, len);
    WholeCycles(l / sets - j / sets, len, sets);
  }

  lemma SameRemainder(j: nat, l: nat, d: nat)
    requires d > 0 && j < l && j % d == l % d
    ensures j / d < l / d && l - j == (l / d - j / d) * d && l - j >= d
  {
    assert j == (j / d) * d + j % d && l == (l / d) * d + l % d;
    Factor(l / d, j / d, d, l - j);
  }

  lemma Factor(x: nat, y: nat, d: nat, gap: int)
    requires d > 0 && x * d - y * d == gap > 0
    ensures x > y && gap == (x - y) * d && gap >= d
  {
    assert gap == (x - y) * d;
    assert x <= y ==> (x - y) * d <= 0;
    assert x - y >= 1 ==> (x - y) * d >= d;
  }

  lemma WholeCycles(rounds: nat, len: nat, sets: nat)
    requires rounds >= len
    ensures rounds * sets >= len * sets
  {
    assert rounds * sets == len * sets + (rounds - len) * sets;
  }

  /** Two originals of one body are at least a whole cycle of its set apart. */
  lemma BodiesAreSpaced(count: nat, setup: Setup, draws: Draws, a: nat, b: nat)
    requires ValidSetup(setup) && a < b < count
    ensures var messages := Run(count, setup, draws).messages;
      |messages| == count
      && (SameBody(messages[a], messages[b]) ==>
        messages[a].dataset < |setup.lens| && b - a >= setup.lens[messages[a].dataset] * |setup.lens|)
  {
    hide Slot;
    OriginalsAreDealtInRounds(count, setup, draws);
    var messages := Run(count, setup, draws).messages;
    if SameBody(messages[a], messages[b]) {
      OrdinalsLagSlots(messages, a, b);
      SameBodyOrdinals(OriginalsIn(messages[..a]), OriginalsIn(messages[..b]), |setup.lens|,
        setup.lens[messages[a].dataset]);
    }
  }

  /** Two originals of one line of one set. */
  predicate SameBody(m: Planned, n: Planned) {
    m.dupOf.None? && n.dupOf.None? && m.dataset == n.dataset && m.line == n.line
  }

  // ----- how soon a body comes back -----

  lemma {:induction false} SentInItsSlot(n: nat, setup: Setup, draws: Draws)
    requires ValidSetup(setup)
    ensures |Run(n, setup, draws).messages| == n
    ensures forall k :: 0 <= k < n ==> Run(n, setup, draws).messages[k].at == k as real / setup.rate
  {
    if n > 0 {
      SentInItsSlot(n - 1, setup, draws);
    }
  }

  ghost predicate SpacedBy(messages: seq<Planned>, time: real) {
    forall a, b :: 0 <= a < b < |messages| && SameBody(messages[a], messages[b]) ==>
      messages[b].at - messages[a].at >= time
  }

  /** The fewest slots in which set `s` can come round. A coin that always succeeds puts a duplicate
      behind every original, of which at most `half - 1` can still be waiting by then. */
  function FewestSlots(setup: Setup, s: nat): int
    requires s < |setup.lens|
  {
    var cycle := setup.lens[s] * |setup.lens|;
    if setup.chance < 1.0 then cycle else 2 * cycle - (setup.half - 1)
  }

  /** The first slot in which set `s` can come round. */
  function FirstBack(setup: Setup, s: nat): int
    requires s < |setup.lens|
  {
    (if setup.chance < 1.0 then s else 2 * s) + FewestSlots(setup, s)
  }

  /** Set `s` does not come round among the first `count` messages, or takes `time` for it. */
  ghost predicate KeepsTime(count: nat, setup: Setup, s: nat, time: real)
    requires setup.rate > 0.0 && s < |setup.lens|
  {
    FirstBack(setup, s) >= count || FewestSlots(setup, s) as real / setup.rate >= time
  }

  /** Whole cycles of set `s` take at least `time`, duplicates apart. */
  ghost predicate CycleTakes(setup: Setup, s: nat, time: real)
    requires setup.rate > 0.0 && s < |setup.lens|
  {
    (setup.lens[s] * |setup.lens|) as real / setup.rate >= time
  }

  lemma SpacedWhenCyclesAre(count: nat, setup: Setup, draws: Draws, time: real)
    requires ValidSetup(setup)
    requires forall s :: 0 <= s < |setup.lens| ==>
      s + setup.lens[s] * |setup.lens| >= count || CycleTakes(setup, s, time)
    ensures SpacedBy(Run(count, setup, draws).messages, time)
  {
    var messages := Run(count, setup, draws).messages;
    SentInItsSlot(count, setup, draws);
    OriginalsAreDealtInRounds(count, setup, draws);
    forall a, b | 0 <= a < b < count && SameBody(messages[a], messages[b])
      ensures messages[b].at - messages[a].at >= time {
      BodiesAreSpaced(count, setup, draws, a, b);
      var s := messages[a].dataset;
      FirstOfSet(messages, a, setup);
      OnePairSpaced(setup, s, a, b, time);
    }
  }

  lemma OnePairSpaced(setup: Setup, s: nat, a: nat, b: nat, time: real)
    requires setup.rate > 0.0 && s < |setup.lens| && CycleTakes(setup, s, time)
    requires a < b && b - a >= setup.lens[s] * |setup.lens|
    ensures b as real / setup.rate - a as real / setup.rate >= time
  {
    var cycle := setup.lens[s] * |setup.lens|;
    SlotsToTime(a, b, setup.rate);
    LessTime((b - a) as real, time, setup.rate);
    LessTime(cycle as real, time, setup.rate);
  }

  /** The first original of set `s` is not sent before slot `s`. */
  lemma FirstOfSet(messages: seq<Planned>, a: nat, setup: Setup)
    requires ValidSetup(setup) && a < |messages| && CarriesBody(messages[a], OriginalsIn(messages[..a]), setup.lens)
    ensures messages[a].dataset <= OriginalsIn(messages[..a]) <= a
  {
    var j := OriginalsIn(messages[..a]);
    assert j == (j / |setup.lens|) * |setup.lens| + j % |setup.lens|;
    assert (j / |setup.lens|) * |setup.lens| >= 0;
  }

  /** In every accepted plan, whatever the draws, two originals of one body are at least
      `1 - share` of the needed time apart. */
  lemma BodiesAreNeverEarlier(config: PlanConfig, lens: seq<nat>, base: nat, draws: Draws, shortest: nat)
    requires IsShortest(lens, shortest) && Refusal(config, lens, shortest).None?
    ensures ValidSetup(SetupOf(config, lens, base))
    ensures SpacedBy(Run(config.count, SetupOf(config, lens, base), draws).messages,
      OriginalShare(config) * Needed(config))
  {
    var setup := SetupOf(config, lens, base);
    var time := OriginalShare(config) * Needed(config);
    forall s | 0 <= s < |lens| ensures CycleTakes(setup, s, time) {
      ShareOfRepeat(config, shortest, |lens|);
      WholeCycles(lens[s], shortest, |lens|);
      LessTime((shortest * |lens|) as real, time, config.rate);
      LessTime((lens[s] * |lens|) as real, time, config.rate);
    }
    SpacedWhenCyclesAre(config.count, setup, draws, time);
  }

  lemma ShareOfRepeat(config: PlanConfig, len: nat, sets: nat)
    requires config.rate > 0.0 && config.dupPercent <= 50 && Repeat(config, len, sets) >= Needed(config)
    ensures (len * sets) as real / config.rate >= OriginalShare(config) * Needed(config)
  {
    hide OriginalShare, OriginalsPerSecond, Needed, TimeFor, LinesInRound;
    LinesAsReal(len, sets);
    OriginalsAreShare(config);
    ShareOfQuotient(
      LinesInRound(len, sets), config.rate, OriginalShare(config), OriginalsPerSecond(config), Needed(config));
  }

  lemma LinesAsReal(len: nat, sets: nat)
    ensures LinesInRound(len, sets) == (len * sets) as real
  {
  }

  lemma OriginalsAreShare(config: PlanConfig)
    requires config.rate > 0.0 && config.dupPercent <= 50
    ensures OriginalsPerSecond(config) == config.rate * OriginalShare(config)
  {
    hide OriginalShare;
  }

  lemma ShareOfQuotient(lines: real, rate: real, left: real, originals: real, needed: real)
    requires rate > 0.0 && left > 0.0 && originals > 0.0 && originals == rate * left
    requires TimeFor(lines, originals) >= needed
    ensures lines / rate >= left * needed
  {
    var q := TimeFor(lines, originals);
    Quotient(lines, originals);
    Regroup(q, rate, left);
    UniqueQuotient(lines, left * q, rate);
    Scale(needed, q, left);
  }

  lemma Quotient(x: real, d: real)
    requires d > 0.0
    ensures (x / d) * d == x
  {
  }

  lemma UniqueQuotient(x: real, y: real, d: real)
    requires d > 0.0 && y * d == x
    ensures x / d == y
  {
    Quotient(x, d);
    var e := x / d - y;
    assert e * d == (x / d) * d - y * d;
    assert e * d == 0.0;
  }

  lemma Scale(x: real, y: real, d: real)
    requires d > 0.0 && x <= y
    ensures d * x <= d * y
  {
    assert d * (y - x) >= 0.0;
  }

  lemma Regroup(a: real, b: real, c: real)
    ensures a * (b * c) == (c * a) * b
  {
  }

  // ----- without duplicates -----

  lemma {:induction false} QuietRun(n: nat, setup: Setup, draws: Draws)
    requires ValidSetup(setup) && forall i :: 0 <= i < n ==> draws.unit(i) >= setup.chance
    ensures Run(n, setup, draws).due == [] && |Run(n, setup, draws).messages| == n
    ensures forall k :: 0 <= k < n ==> Run(n, setup, draws).messages[k].dupOf.None?
  {
    if n > 0 {
      QuietRun(n - 1, setup, draws);
    }
  }

  lemma {:induction false} AllOriginals(messages: seq<Planned>)
    requires forall k :: 0 <= k < |messages| ==> messages[k].dupOf.None?
    ensures OriginalsIn(messages) == |messages|
  {
    if messages != [] {
      AllOriginals(messages[..|messages| - 1]);
    }
  }

  /** Without duplicates, set `s` repeats its first line one cycle after slot `s`. */
  lemma QuietRepeat(count: nat, setup: Setup, draws: Draws, s: nat)
    requires ValidSetup(setup) && (forall i :: 0 <= i < count ==> draws.unit(i) >= setup.chance)
    requires s < |setup.lens| && s + setup.lens[s] * |setup.lens| < count
    ensures var messages := Run(count, setup, draws).messages;
      |messages| == count && SameBody(messages[s], messages[s + setup.lens[s] * |setup.lens|])
  {
    hide Slot;
    var messages := Run(count, setup, draws).messages;
    var again := s + setup.lens[s] * |setup.lens|;
    CycleLater(s, setup.lens[s], |setup.lens|);
    QuietBody(count, setup, draws, s);
    QuietBody(count, setup, draws, again);
  }

  lemma QuietBody(count: nat, setup: Setup, draws: Draws, k: nat)
    requires ValidSetup(setup) && (forall i :: 0 <= i < count ==> draws.unit(i) >= setup.chance) && k < count
    ensures var messages := Run(count, setup, draws).messages;
      |messages| == count && messages[k].dupOf.None? && CarriesBody(messages[k], k, setup.lens)
  {
    hide Slot;
    var messages := Run(count, setup, draws).messages;
    QuietRun(count, setup, draws);
    OriginalsAreDealtInRounds(count, setup, draws);
    AllOriginals(messages[..k]);
  }

  lemma CycleLater(s: nat, len: nat, sets: nat)
    requires s < sets && len > 0
    ensures s % sets == s && (s / sets) % len == 0
    ensures var again := s + len * sets; again >= s && again % sets == s && (again / sets) % len == 0
  {
    assert len * sets >= 0;
    DivMod(s, 0, s, sets);
    DivMod(s + len * sets, len, s, sets);
    DivMod(len, 1, 0, len);
  }

  lemma QuietBreaks(count: nat, setup: Setup, draws: Draws, s: nat, time: real)
    requires ValidSetup(setup) && setup.chance < 1.0
    requires forall i :: 0 <= i < count ==> draws.unit(i) >= setup.chance
    requires s < |setup.lens| && !KeepsTime(count, setup, s, time)
    ensures !SpacedBy(Run(count, setup, draws).messages, time)
  {
    var messages := Run(count, setup, draws).messages;
    var again := s + setup.lens[s] * |setup.lens|;
    QuietRepeat(count, setup, draws, s);
    SentInItsSlot(count, setup, draws);
    WholeCycles(setup.lens[s], 1, |setup.lens|);
    SlotsToTime(s, again, setup.rate);
    assert messages[again].at - messages[s].at < time;
  }

  // ----- with a duplicate behind every original -----

  /** Before slot `i`: no more duplicates wait than can leave within `half` slots of their
      originals, one a slot. */
  ghost predicate Slack(due: seq<Entry>, i: nat, half: nat) {
    forall k :: 0 <= k < |due| ==> due[k].slot + |due| - k <= i + half
  }

  lemma {:induction false} InsertKeepsSlack(due: seq<Entry>, e: Entry, i: nat, half: nat)
    requires Slack(due, i, half) && e.slot <= i + half
    ensures |Insert(due, e)| == |due| + 1 && Slack(Insert(due, e), i + 1, half)
  {
    if due != [] && !ComesBefore(e, due[0]) {
      assert Slack(due[1..], i, half) by {
        assert forall k :: 0 <= k < |due[1..]| ==> due[1..][k] == due[k + 1];
      }
      InsertKeepsSlack(due[1..], e, i, half);
    }
  }

  /** Every slot so far sent an original and queued its duplicate, or sent a duplicate. */
  ghost predicate Paired(st: State, i: nat, half: nat) {
    Slack(st.due, i, half) && |st.due| <= half && i == 2 * st.originals - |st.due|
  }

  lemma PairedStep(st: State, i: nat, setup: Setup, coin: real, delay: nat)
    requires ValidSetup(setup) && |st.sent| == |setup.lens| && Paired(st, i, setup.half)
    requires setup.half > 0 && coin < setup.chance
    ensures Paired(Slot(st, i, setup, coin, delay), i + 1, setup.half)
  {
    if st.due == [] || st.due[0].slot > i {
      var e := Entry(i + 1 + delay % setup.half, i, OriginalAt(setup, st.sent, st.originals, i));
      InsertKeepsSlack(st.due, e, i, setup.half);
    }
  }

  /** Where the coin always succeeds, the queue never turns a duplicate away. */
  lemma {:induction false} RunIsPaired(n: nat, setup: Setup, draws: Draws)
    requires ValidSetup(setup) && setup.half > 0 && forall i :: 0 <= i < n ==> draws.unit(i) < setup.chance
    ensures Paired(Run(n, setup, draws), n, setup.half)
  {
    hide Slot;
    if n > 0 {
      RunIsPaired(n - 1, setup, draws);
      PairedStep(Run(n - 1, setup, draws), n - 1, setup, draws.unit(n - 1), draws.next(n - 1));
    }
  }

  lemma SlotAppends(st: State, i: nat, setup: Setup, coin: real, delay: nat)
    requires ValidSetup(setup) && |st.sent| == |setup.lens|
    ensures var next := Slot(st, i, setup, coin, delay);
      |next.messages| == |st.messages| + 1 && next.messages[..|st.messages|] == st.messages
  {
  }

  lemma RunAppends(n: nat, setup: Setup, draws: Draws)
    requires ValidSetup(setup)
    ensures |Run(n, setup, draws).messages| == n && |Run(n + 1, setup, draws).messages| == n + 1
    ensures Run(n + 1, setup, draws).messages[..n] == Run(n, setup, draws).messages
  {
    hide Slot;
    SentInItsSlot(n, setup, draws);
    SlotAppends(Run(n, setup, draws), n, setup, draws.unit(n), draws.next(n));
  }

  /** What is sent stays sent. */
  lemma {:induction false} RunPrefix(k: nat, n: nat, setup: Setup, draws: Draws)
    requires ValidSetup(setup) && k < n
    ensures |Run(k, setup, draws).messages| == k && |Run(n, setup, draws).messages| == n
    ensures Run(n, setup, draws).messages[..k] == Run(k, setup, draws).messages
    decreases n
  {
    hide Slot;
    RunAppends(n - 1, setup, draws);
    if k < n - 1 {
      RunPrefix(k, n - 1, setup, draws);
      Sequences.TakeOfTake(Run(n, setup, draws).messages, k, n - 1);
    }
  }

  /** Whether slot `i` sends an original. */
  predicate SendsNew(st: State, i: nat) {
    st.due == [] || st.due[0].slot > i
  }

  lemma SlotSendsNew(a: nat, count: nat, setup: Setup, draws: Draws)
    requires ValidSetup(setup) && a < count
    ensures var messages := Run(count, setup, draws).messages;
      |messages| == count
      && OriginalsIn(messages[..a]) == Run(a, setup, draws).originals
      && (messages[a].dupOf.None? <==> SendsNew(Run(a, setup, draws), a))
  {
    RunPrefix(a, count, setup, draws);
    RunAppends(a, setup, draws);
    OriginalsAreDealtInRounds(a, setup, draws);
    var messages := Run(count, setup, draws).messages;
    if a + 1 < count {
      RunPrefix(a + 1, count, setup, draws);
      assert messages[a] == messages[..a + 1][a];
    }
  }

  /** An original is sent at twice its ordinal, or up to `half - 1` slots sooner. */
  lemma SlotOfOriginal(a: nat, count: nat, setup: Setup, draws: Draws)
    requires ValidSetup(setup) && a < count
    requires setup.half > 0 && forall i :: 0 <= i < count ==> draws.unit(i) < setup.chance
    ensures var messages := Run(count, setup, draws).messages;
      |messages| == count && (messages[a].dupOf.None? ==>
        var ordinal := OriginalsIn(messages[..a]);
        2 * ordinal - (setup.half - 1) <= a <= 2 * ordinal)
  {
    hide Slot;
    SlotSendsNew(a, count, setup, draws);
    RunIsPaired(a, setup, draws);
    var due := Run(a, setup, draws).due;
    assert due != [] ==> due[0].slot + |due| <= a + setup.half;
  }

  lemma SpacedWhenPaired(count: nat, setup: Setup, draws: Draws, time: real)
    requires ValidSetup(setup) && setup.half > 0 && setup.chance >= 1.0 && ValidDraws(draws)
    requires forall s :: 0 <= s < |setup.lens| ==> KeepsTime(count, setup, s, time)
    ensures SpacedBy(Run(count, setup, draws).messages, time)
  {
    hide Slot;
    var messages := Run(count, setup, draws).messages;
    SentInItsSlot(count, setup, draws);
    forall a, b | 0 <= a < b < count && SameBody(messages[a], messages[b])
      ensures messages[b].at - messages[a].at >= time
    {
      var s := PairedGap(count, setup, draws, a, b);
      GapTakes(count, setup, s, a, b, time);
    }
  }

  lemma GapTakes(count: nat, setup: Setup, s: nat, a: nat, b: nat, time: real)
    requires setup.rate > 0.0 && s < |setup.lens| && KeepsTime(count, setup, s, time)
    requires a < b < count && b - a >= FewestSlots(setup, s) && b >= FirstBack(setup, s)
    ensures b as real / setup.rate - a as real / setup.rate >= time
  {
    SlotsToTime(a, b, setup.rate);
    LessTime((b - a) as real, time, setup.rate);
    LessTime(FewestSlots(setup, s) as real, time, setup.rate);
  }

  lemma PairedGap(count: nat, setup: Setup, draws: Draws, a: nat, b: nat) returns (s: nat)
    requires ValidSetup(setup) && setup.half > 0 && setup.chance >= 1.0 && ValidDraws(draws)
    requires a < b < count == |Run(count, setup, draws).messages|
    requires SameBody(Run(count, setup, draws).messages[a], Run(count, setup, draws).messages[b])
    ensures s < |setup.lens| && b - a >= FewestSlots(setup, s) && b >= FirstBack(setup, s)
  {
    hide Slot;
    var messages := Run(count, setup, draws).messages;
    OriginalsAreDealtInRounds(count, setup, draws);
    s := messages[a].dataset;
    var j, l := OriginalsIn(messages[..a]), OriginalsIn(messages[..b]);
    FirstOfSet(messages, a, setup);
    OrdinalsLagSlots(messages, a, b);
    SameBodyOrdinals(j, l, |setup.lens|, setup.lens[s]);
    SlotOfOriginal(a, count, setup, draws);
    SlotOfOriginal(b, count, setup, draws);
  }

  /** Draws that send each duplicate at once, and from slot `2 * k` on keep it as long as they can. */
  function HoldBackFrom(k: nat, half: nat): Draws
    requires half > 0
  {
    Draws(_ => 0.0, (i: nat) => if i < 2 * k then 0 else half - 1)
  }

  /** A slot that sends an original and queues its duplicate. */
  lemma SlotQueues(st: State, i: nat, setup: Setup, delay: nat) returns (e: Entry)
    requires ValidSetup(setup) && |st.sent| == |setup.lens| && SendsNew(st, i)
    requires setup.half > 0 && |st.due| < setup.half && setup.chance > 0.0 && delay < setup.half
    ensures e.slot == i + 1 + delay
    ensures var next := Slot(st, i, setup, 0.0, delay);
      next.due == Insert(st.due, e) && next.originals == st.originals + 1
  {
    SmallMod(delay, setup.half);
    e := Entry(i + 1 + delay, i, OriginalAt(setup, st.sent, st.originals, i));
  }

  lemma SmallMod(delay: nat, half: nat)
    requires delay < half
    ensures delay % half == delay
  {
  }

  /** A slot that sends the only duplicate waiting. */
  lemma SlotEmpties(st: State, i: nat, setup: Setup, coin: real, delay: nat)
    requires ValidSetup(setup) && |st.sent| == |setup.lens| && |st.due| == 1 && st.due[0].slot <= i
    ensures var next := Slot(st, i, setup, coin, delay);
      next.due == [] && next.originals == st.originals
  {
  }

  /** Slot `i` sends an original, whose duplicate then waits. */
  lemma RunQueues(i: nat, setup: Setup, draws: Draws) returns (e: Entry)
    requires ValidSetup(setup) && setup.half > 0 && setup.chance > 0.0
    requires draws.unit(i) == 0.0 && draws.next(i) < setup.half
    requires SendsNew(Run(i, setup, draws), i) && |Run(i, setup, draws).due| < setup.half
    ensures e.slot == i + 1 + draws.next(i)
    ensures Run(i + 1, setup, draws).due == Insert(Run(i, setup, draws).due, e)
    ensures Run(i + 1, setup, draws).originals == Run(i, setup, draws).originals + 1
  {
    e := SlotQueues(Run(i, setup, draws), i, setup, draws.next(i));
  }

  lemma RunEmpties(i: nat, setup: Setup, draws: Draws)
    requires ValidSetup(setup) && |Run(i, setup, draws).due| == 1 && Run(i, setup, draws).due[0].slot <= i
    ensures Run(i + 1, setup, draws).due == []
    ensures Run(i + 1, setup, draws).originals == Run(i, setup, draws).originals
  {
    SlotEmpties(Run(i, setup, draws), i, setup, draws.unit(i), draws.next(i));
  }

  lemma {:induction false} AtOnce(j: nat, k: nat, setup: Setup, draws: Draws)
    requires ValidSetup(setup) && setup.half > 0 && setup.chance > 0.0
    requires draws == HoldBackFrom(k, setup.half) && j <= k
    ensures Run(2 * j, setup, draws).due == [] && Run(2 * j, setup, draws).originals == j
  {
    hide Slot;
    if j > 0 {
      AtOnce(j - 1, k, setup, draws);
      var e := RunQueues(2 * j - 2, setup, draws);
      RunEmpties(2 * j - 1, setup, draws);
    }
  }

  lemma {:induction false} HeldBack(t: nat, k: nat, setup: Setup, draws: Draws)
    requires ValidSetup(setup) && setup.half > 0 && setup.chance > 0.0
    requires draws == HoldBackFrom(k, setup.half) && t <= setup.half
    ensures var st := Run(2 * k + t, setup, draws);
      && |st.due| == t && st.originals == k + t
      && (st.due != [] ==> st.due[0].slot >= 2 * k + setup.half)
  {
    hide Slot;
    if t == 0 {
      AtOnce(k, k, setup, draws);
    } else {
      HeldBack(t - 1, k, setup, draws);
      var i := 2 * k + t - 1;
      var e := RunQueues(i, setup, draws);
      InsertFirst(Run(i, setup, draws).due, e);
    }
  }

  lemma {:induction false} InsertFirst(due: seq<Entry>, e: Entry)
    ensures |Insert(due, e)| == |due| + 1
    ensures Insert(due, e)[0] == e || (due != [] && Insert(due, e)[0] == due[0])
  {
    if due != [] && !ComesBefore(e, due[0]) {
      InsertFirst(due[1..], e);
    }
  }

  /** Originals that carry whole cycles of one set carry one body. */
  lemma SameBodyAt(messages: seq<Planned>, a: nat, b: nat, s: nat, lens: seq<nat>)
    requires lens != [] && (forall k :: 0 <= k < |lens| ==> lens[k] > 0) && s < |lens|
    requires a < |messages| && b < |messages| && messages[a].dupOf.None? && messages[b].dupOf.None?
    requires CarriesBody(messages[a], s, lens) && CarriesBody(messages[b], s + lens[s] * |lens|, lens)
    ensures SameBody(messages[a], messages[b])
  {
    CycleLater(s, lens[s], |lens|);
  }

  /** The slot of an original gives its body. */
  lemma BodyInSlot(a: nat, ordinal: nat, count: nat, setup: Setup, draws: Draws)
    requires ValidSetup(setup) && a < count
    requires SendsNew(Run(a, setup, draws), a) && Run(a, setup, draws).originals == ordinal
    ensures var messages := Run(count, setup, draws).messages;
      |messages| == count && messages[a].dupOf.None? && CarriesBody(messages[a], ordinal, setup.lens)
  {
    hide Slot;
    OriginalsAreDealtInRounds(count, setup, draws);
    SlotSendsNew(a, count, setup, draws);
  }

  lemma BodyAtOnce(j: nat, k: nat, count: nat, setup: Setup)
    requires ValidSetup(setup) && setup.half > 0 && setup.chance > 0.0 && j <= k && 2 * j < count
    ensures var messages := Run(count, setup, HoldBackFrom(k, setup.half)).messages;
      |messages| == count && messages[2 * j].dupOf.None? && CarriesBody(messages[2 * j], j, setup.lens)
  {
    hide Slot;
    AtOnce(j, k, setup, HoldBackFrom(k, setup.half));
    BodyInSlot(2 * j, j, count, setup, HoldBackFrom(k, setup.half));
  }

  lemma BodyHeldBack(t: nat, k: nat, b: nat, count: nat, setup: Setup)
    requires ValidSetup(setup) && setup.half > 0 && setup.chance > 0.0 && t < setup.half && b == 2 * k + t < count
    ensures var messages := Run(count, setup, HoldBackFrom(k, setup.half)).messages;
      |messages| == count && messages[b].dupOf.None? && CarriesBody(messages[b], k + t, setup.lens)
  {
    hide Slot;
    StillHeld(t, k, b, setup);
    BodyInSlot(b, k + t, count, setup, HoldBackFrom(k, setup.half));
  }

  lemma StillHeld(t: nat, k: nat, b: nat, setup: Setup)
    requires ValidSetup(setup) && setup.half > 0 && setup.chance > 0.0 && t < setup.half && b == 2 * k + t
    ensures var st := Run(b, setup, HoldBackFrom(k, setup.half)); SendsNew(st, b) && st.originals == k + t
  {
    hide Slot;
    HeldBack(t, k, setup, HoldBackFrom(k, setup.half));
  }

  /** Set `s` comes round as soon as it can. */
  lemma HoldingBack(count: nat, setup: Setup, s: nat, k: nat)
    requires ValidSetup(setup) && setup.half > 0 && setup.chance > 0.0
    requires s < |setup.lens| && setup.half <= setup.lens[s] * |setup.lens|
    requires k == s + setup.lens[s] * |setup.lens| - (setup.half - 1) && 2 * k + setup.half - 1 < count
    ensures var messages := Run(count, setup, HoldBackFrom(k, setup.half)).messages;
      |messages| == count && SameBody(messages[2 * s], messages[2 * k + setup.half - 1])
  {
    hide Slot;
    BodyAtOnce(s, k, count, setup);
    BodyHeldBack(setup.half - 1, k, 2 * k + setup.half - 1, count, setup);
    var messages := Run(count, setup, HoldBackFrom(k, setup.half)).messages;
    SameBodyAt(messages, 2 * s, 2 * k + setup.half - 1, s, setup.lens);
  }

  lemma HoldingBackBreaks(count: nat, setup: Setup, s: nat, k: nat, time: real)
    requires ValidSetup(setup) && setup.half > 0 && setup.chance >= 1.0
    requires s < |setup.lens| && setup.half <= setup.lens[s] * |setup.lens| && !KeepsTime(count, setup, s, time)
    requires k == s + setup.lens[s] * |setup.lens| - (setup.half - 1)
    ensures !SpacedBy(Run(count, setup, HoldBackFrom(k, setup.half)).messages, time)
  {
    var draws := HoldBackFrom(k, setup.half);
    var a, b := 2 * s, 2 * k + setup.half - 1;
    assert b == FirstBack(setup, s) && b - a == FewestSlots(setup, s);
    HoldingBack(count, setup, s, k);
    SentInItsSlot(count, setup, draws);
    SlotsToTime(a, b, setup.rate);
    NotSpaced(Run(count, setup, draws).messages, a, b, time);
  }

  lemma NotSpaced(messages: seq<Planned>, a: nat, b: nat, time: real)
    requires a < b < |messages| && SameBody(messages[a], messages[b]) && messages[b].at - messages[a].at < time
    ensures !SpacedBy(messages, time)
  {
  }

  // ----- exactly when the needed time is kept -----

  lemma ChanceOfShare(config: PlanConfig)
    requires config.dupPercent <= 50
    ensures 0.0 <= Share(config) / OriginalShare(config)
    ensures Share(config) / OriginalShare(config) < 1.0 <==> config.dupPercent < 50
  {
    var left := OriginalShare(config);
    LessTime(Share(config), 1.0, left);
    LessTime(Share(config), 0.0, left);
  }

  /** In an accepted plan a cycle takes no fewer than `half` slots. */
  lemma HalfIsShort(config: PlanConfig, lens: seq<nat>, shortest: nat, s: nat)
    requires IsShortest(lens, shortest) && Refusal(config, lens, shortest).None? && s < |lens|
    ensures Half(config.rate) <= lens[s] * |lens|
  {
    ShareOfRepeat(config, shortest, |lens|);
    WholeCycles(lens[s], shortest, |lens|);
    LeastTime(OriginalShare(config), Needed(config));
    HalfWithin(config.rate, shortest * |lens|);
  }

  lemma LeastTime(left: real, needed: real)
    requires left >= 0.5 && needed >= 1.5
    ensures left * needed >= 0.75
  {
    Scale(1.5, needed, left);
  }

  lemma HalfWithin(rate: real, cycle: nat)
    requires rate > 0.0 && cycle as real / rate >= 0.75
    ensures Half(rate) <= cycle
  {
    LessTime(cycle as real, 0.75, rate);
    assert Half(rate) as real <= DUP_LAG * rate;
  }

  /** Under every sequence of draws an accepted plan keeps the whole needed time exactly when
      every set that comes round in it takes that long at its fastest: without duplicates, or,
      where half of all messages are duplicates, with as many of them held back as can be. The
      check counts on duplicates taking up their share of the time. */
  lemma NeededTimeIsKeptExactlyWhen(config: PlanConfig, lens: seq<nat>, base: nat, shortest: nat)
    requires IsShortest(lens, shortest) && Refusal(config, lens, shortest).None?
    ensures var setup := SetupOf(config, lens, base);
      && ValidSetup(setup)
      && ((forall draws :: ValidDraws(draws) ==>
            SpacedBy(Run(config.count, setup, draws).messages, Needed(config))) <==>
        (forall s :: 0 <= s < |lens| ==> KeepsTime(config.count, setup, s, Needed(config))))
  {
    var setup := SetupOf(config, lens, base);
    ChanceOfShare(config);
    if forall s :: 0 <= s < |lens| ==> KeepsTime(config.count, setup, s, Needed(config)) {
      forall draws | ValidDraws(draws)
        ensures SpacedBy(Run(config.count, setup, draws).messages, Needed(config))
      {
        if setup.chance < 1.0 {
          SpacedAtFastest(config.count, setup, draws, Needed(config));
        } else {
          SpacedWhenPaired(config.count, setup, draws, Needed(config));
        }
      }
    } else {
      var s :| 0 <= s < |lens| && !KeepsTime(config.count, setup, s, Needed(config));
      var draws := Fastest(config, setup, shortest, s);
    }
  }

  /** So an accepted plan that meets the condition keeps its promise, whatever its seed. */
  lemma AcceptedPlanKeepsTime(config: PlanConfig, lens: seq<nat>, base: nat, shortest: nat)
    requires IsShortest(lens, shortest) && Refusal(config, lens, shortest).None?
    requires forall s :: 0 <= s < |lens| ==> KeepsTime(config.count, SetupOf(config, lens, base), s, Needed(config))
    ensures var setup := SetupOf(config, lens, base);
      ValidSetup(setup)
      && SpacedBy(Run(config.count, setup, DrawsOf(setup, S.NumbersOf(config.seed))).messages, Needed(config))
  {
    hide Run, SpacedBy, KeepsTime;
    NeededTimeIsKeptExactlyWhen(config, lens, base, shortest);
    SeedDrawsAreValid(SetupOf(config, lens, base), config.seed);
  }

  lemma SpacedAtFastest(count: nat, setup: Setup, draws: Draws, time: real)
    requires ValidSetup(setup) && setup.chance < 1.0
    requires forall s :: 0 <= s < |setup.lens| ==> KeepsTime(count, setup, s, time)
    ensures SpacedBy(Run(count, setup, draws).messages, time)
  {
    forall s | 0 <= s < |setup.lens|
      ensures s + setup.lens[s] * |setup.lens| >= count || CycleTakes(setup, s, time)
    {
      assert KeepsTime(count, setup, s, time);
    }
    SpacedWhenCyclesAre(count, setup, draws, time);
  }

  lemma Fastest(config: PlanConfig, setup: Setup, shortest: nat, s: nat) returns (draws: Draws)
    requires ValidSetup(setup) && IsShortest(setup.lens, shortest) && Refusal(config, setup.lens, shortest).None?
    requires setup == SetupOf(config, setup.lens, setup.base)
    requires s < |setup.lens| && !KeepsTime(config.count, setup, s, Needed(config))
    ensures ValidDraws(draws) && !SpacedBy(Run(config.count, setup, draws).messages, Needed(config))
  {
    ChanceOfShare(config);
    if setup.chance < 1.0 {
      draws := Draws(_ => setup.chance, _ => 0);
      QuietBreaks(config.count, setup, draws, s, Needed(config));
    } else {
      HalfIsShort(config, setup.lens, shortest, s);
      var k := s + setup.lens[s] * |setup.lens| - (setup.half - 1);
      draws := HoldBackFrom(k, setup.half);
      HoldingBackBreaks(config.count, setup, s, k, Needed(config));
    }
  }

  // ----- a plan that repeats too early -----

  lemma {:induction false} QuietSeed(n: nat, setup: Setup, numbers: S.Numbers)
    requires ValidSetup(setup) && setup.half > 0
    requires forall k :: 0 <= k < n ==> numbers.fraction(k) >= setup.chance
    ensures SeededRun(n, setup, numbers).st.due == [] && SeededRun(n, setup, numbers).taken == n
  {
    if n > 0 {
      QuietSeed(n - 1, setup, numbers);
    }
  }

  lemma QuietSeedDraws(count: nat, setup: Setup, numbers: S.Numbers)
    requires ValidSetup(setup) && setup.half > 0
    requires forall k :: 0 <= k < count ==> numbers.fraction(k) >= setup.chance
    ensures forall i :: 0 <= i < count ==> DrawsOf(setup, numbers).unit(i) >= setup.chance
  {
    forall i | 0 <= i < count
      ensures DrawsOf(setup, numbers).unit(i) >= setup.chance
    {
      QuietSeed(i, setup, numbers);
    }
  }

  /** Seven messages at four a second, a tenth of them to be duplicates, over one set of six lines,
      for a window of a millisecond. */
  const EARLY := PlanConfig(4.0, 7, 10, 1, 0.001)

  lemma EarlyIsAccepted(base: nat)
    ensures Refusal(EARLY, [6], 6).None? && IsShortest([6], 6) && Needed(EARLY) == 1.501
    ensures var setup := SetupOf(EARLY, [6], base);
      ValidSetup(setup) && setup.chance < 0.125 && setup.half == 1 && setup.rate == 4.0 && setup.lens == [6]
  {
    assert Repeat(EARLY, 6, 1) >= 1.6;
  }

  /** That plan is accepted, but seed 1 tosses no duplicate, and the set comes round after 1.5 s
      where 1.501 s are needed. */
  lemma AcceptedPlanRepeatsEarly(base: nat)
    ensures Refusal(EARLY, [6], 6).None? && ValidSetup(SetupOf(EARLY, [6], base)) && Needed(EARLY) == 1.501
    ensures var setup := SetupOf(EARLY, [6], base);
      var messages := Run(EARLY.count, setup, DrawsOf(setup, S.NumbersOf(EARLY.seed))).messages;
      |messages| == 7 && SameBody(messages[0], messages[6]) && messages[6].at - messages[0].at == 1.5
  {
    EarlyIsAccepted(base);
    S.SeedOneStartsHigh();
    QuietRepeatsEarly(SetupOf(EARLY, [6], base), S.NumbersOf(1));
  }

  lemma QuietRepeatsEarly(setup: Setup, numbers: S.Numbers)
    requires ValidSetup(setup) && setup.chance < 0.125 && setup.half == 1 && setup.rate == 4.0 && setup.lens == [6]
    requires forall k :: 0 <= k < 7 ==> numbers.fraction(k) >= 0.125
    ensures var messages := Run(7, setup, DrawsOf(setup, numbers)).messages;
      |messages| == 7 && SameBody(messages[0], messages[6]) && messages[6].at - messages[0].at == 1.5
  {
    hide Slot, Run;
    var draws := DrawsOf(setup, numbers);
    QuietSeedDraws(7, setup, numbers);
    QuietRepeat(7, setup, draws, 0);
    SentInItsSlot(7, setup, draws);
  }

  // ----- the same with a duplicate behind every original -----

  /** Before slot `i` of a generator's run no duplicate waits. */
  ghost predicate Emptied(i: nat, originals: nat, taken: nat, setup: Setup, numbers: S.Numbers)
    requires ValidSetup(setup)
  {
    var run := SeededRun(i, setup, numbers);
    run.st.due == [] && run.st.originals == originals && run.taken == taken
  }

  lemma SeededQueues(run: Seeded, i: nat, setup: Setup, numbers: S.Numbers) returns (e: Entry)
    requires ValidSetup(setup) && |run.st.sent| == |setup.lens| && Tosses(run.st, i, setup)
    requires numbers.fraction(run.taken) < setup.chance
    ensures e.origin == i && e.slot == i + 1 + numbers.natural(run.taken + 1) % setup.half
    ensures var next := SeededSlot(run, i, setup, numbers);
      && next.st.due == Insert(run.st.due, e)
      && next.st.originals == run.st.originals + 1 && next.taken == run.taken + 2
  {
    var delay := numbers.natural(run.taken + 1);
    e := Entry(i + 1 + delay % setup.half, i, OriginalAt(setup, run.st.sent, run.st.originals, i));
  }

  lemma SeededSends(run: Seeded, i: nat, setup: Setup, numbers: S.Numbers)
    requires ValidSetup(setup) && |run.st.sent| == |setup.lens| && run.st.due != [] && run.st.due[0].slot <= i
    ensures var next := SeededSlot(run, i, setup, numbers);
      next.st.due == run.st.due[1..] && next.st.originals == run.st.originals && next.taken == run.taken
  {
  }

  /** An original and its duplicate at once. */
  lemma OneAtOnce(i: nat, originals: nat, taken: nat, setup: Setup, numbers: S.Numbers)
    requires ValidSetup(setup) && setup.half == 2 && Emptied(i, originals, taken, setup, numbers)
    requires numbers.fraction(taken) < setup.chance && numbers.natural(taken + 1) % 2 == 0
    ensures Emptied(i + 2, originals + 1, taken + 2, setup, numbers)
  {
    hide SeededSlot;
    var e := SeededQueues(SeededRun(i, setup, numbers), i, setup, numbers);
    SeededSends(SeededRun(i + 1, setup, numbers), i + 1, setup, numbers);
  }

  /** An original whose duplicate waits while another goes out, then both duplicates. */
  lemma TwoHeldBack(i: nat, originals: nat, taken: nat, setup: Setup, numbers: S.Numbers)
    requires ValidSetup(setup) && setup.half == 2 && Emptied(i, originals, taken, setup, numbers)
    requires numbers.fraction(taken) < setup.chance && numbers.fraction(taken + 2) < setup.chance
    requires numbers.natural(taken + 1) % 2 == 1
    ensures SeededRun(i + 1, setup, numbers).st.originals == originals + 1
    ensures SendsNew(SeededRun(i + 1, setup, numbers).st, i + 1)
    ensures Emptied(i + 4, originals + 2, taken + 4, setup, numbers)
  {
    hide SeededSlot;
    var first := SeededQueues(SeededRun(i, setup, numbers), i, setup, numbers);
    assert SeededRun(i + 1, setup, numbers).st.due == [first];
    var second := SeededQueues(SeededRun(i + 1, setup, numbers), i + 1, setup, numbers);
    assert SeededRun(i + 2, setup, numbers).st.due == [first, second];
    SeededSends(SeededRun(i + 2, setup, numbers), i + 2, setup, numbers);
    SeededSends(SeededRun(i + 3, setup, numbers), i + 3, setup, numbers);
  }

  /** What the delays of seed 2 make of twenty slots: the eleventh original goes out in the last. */
  lemma HeldBackRun(setup: Setup, numbers: S.Numbers)
    requires ValidSetup(setup) && setup.half == 2 && forall k :: 0 <= k < 22 ==> numbers.fraction(k) < setup.chance
    requires var natural := numbers.natural;
      && natural(1) % 2 == 0 && natural(3) % 2 == 0 && natural(5) % 2 == 1 && natural(9) % 2 == 0
      && natural(11) % 2 == 1 && natural(15) % 2 == 1 && natural(19) % 2 == 1
    ensures var st := SeededRun(19, setup, numbers).st; st.originals == 10 && SendsNew(st, 19)
  {
    hide SeededRun, Emptied;
    Unstarted(setup, numbers);
    OneAtOnce(0, 0, 0, setup, numbers);
    OneAtOnce(2, 1, 2, setup, numbers);
    TwoHeldBack(4, 2, 4, setup, numbers);
    OneAtOnce(8, 4, 8, setup, numbers);
    TwoHeldBack(10, 5, 10, setup, numbers);
    TwoHeldBack(14, 7, 14, setup, numbers);
    TwoHeldBack(18, 9, 18, setup, numbers);
  }

  lemma Unstarted(setup: Setup, numbers: S.Numbers)
    requires ValidSetup(setup)
    ensures Emptied(0, 0, 0, setup, numbers)
  {
  }

  /** Twenty messages at eight a second, half of them to be duplicates, over one set of ten lines,
      for a window of a second. */
  const HALF_SHARE := PlanConfig(8.0, 20, 50, 2, 1.0)

  lemma HalfShareIsAccepted(base: nat)
    ensures Refusal(HALF_SHARE, [10], 10).None? && IsShortest([10], 10) && Needed(HALF_SHARE) == 2.5
    ensures var setup := SetupOf(HALF_SHARE, [10], base);
      ValidSetup(setup) && setup.chance == 1.0 && setup.half == 2 && setup.rate == 8.0 && setup.lens == [10]
  {
    assert Share(HALF_SHARE) == 0.5;
    assert Repeat(HALF_SHARE, 10, 1) == 2.5;
  }

  /** That plan is accepted with nothing to spare, but seed 2 holds back as many duplicates as can
      be, and the set comes round in 19 slots, after 2.375 s where 2.5 s are needed. */
  lemma HalfShareRepeatsEarly(base: nat)
    ensures Refusal(HALF_SHARE, [10], 10).None? && Needed(HALF_SHARE) == 2.5
    ensures ValidSetup(SetupOf(HALF_SHARE, [10], base))
    ensures var setup := SetupOf(HALF_SHARE, [10], base);
      var messages := Run(HALF_SHARE.count, setup, DrawsOf(setup, S.NumbersOf(HALF_SHARE.seed))).messages;
      |messages| == 20 && SameBody(messages[0], messages[19]) && messages[19].at - messages[0].at == 2.375
  {
    hide S.Output, S.Natural, S.Fraction, S.StepsFrom;
    HalfShareIsAccepted(base);
    S.SeedTwoParities();
    S.FractionsOf(2);
    HeldBackRepeatsEarly(SetupOf(HALF_SHARE, [10], base), S.NumbersOf(2));
  }

  lemma HeldBackRepeatsEarly(setup: Setup, numbers: S.Numbers)
    requires ValidSetup(setup) && setup.chance == 1.0 && setup.half == 2 && setup.rate == 8.0 && setup.lens == [10]
    requires forall k :: 0.0 <= numbers.fraction(k) < 1.0
    requires var natural := numbers.natural;
      && natural(1) % 2 == 0 && natural(3) % 2 == 0 && natural(5) % 2 == 1 && natural(9) % 2 == 0
      && natural(11) % 2 == 1 && natural(15) % 2 == 1 && natural(19) % 2 == 1
    ensures var messages := Run(20, setup, DrawsOf(setup, numbers)).messages;
      |messages| == 20 && SameBody(messages[0], messages[19]) && messages[19].at - messages[0].at == 2.375
  {
    hide Slot, SeededSlot;
    var draws := DrawsOf(setup, numbers);
    HeldBackRun(setup, numbers);
    SeededRunIsRun(19, setup, numbers);
    BodyInSlot(0, 0, 20, setup, draws);
    BodyInSlot(19, 10, 20, setup, draws);
    SameBodyAt(Run(20, setup, draws).messages, 0, 19, 0, setup.lens);
    SentInItsSlot(20, setup, draws);
  }
}
