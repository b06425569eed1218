/** The verifier's verdict: what the sinks wrote and what was dead-lettered, against the
    expectations (crates/harness/src/verdict.rs:259-422, crates/harness/src/expect.rs:138-173).
    The loops over the messages are methods that keep the report's counters, each tied to a
    function that counts over the whole list. */
module Verdict {
  import opened Wrappers
  import opened Tallies
  import Decimal
  import Sequences

  const MAIN := "processed.loghub.main"
  const MIN_DUPLICATES_DROPPED_PERCENT := 80

  datatype Group = Group(series: string, lineId: nat, cycle: nat)

  /** `planned` says that the message may be dropped as a duplicate. */
  datatype Expectation = Expectation(id: u64, group: Group, tenant: string, subjects: seq<string>, planned: bool)

  /** The attributes matter only to the comparisons, which are given. */
  datatype Written = Written(subject: string, recordId: Option<string>, tenant: Option<string>, attributes: string)

  type DeadLetter = Option<string>

  /** Whether attributes carry what `edit`, or `lua`, writes for an expectation. */
  datatype Checks = Checks(edit: (Expectation, string) -> bool, lua: (Expectation, string) -> bool)

  datatype Report = Report(
    published: nat, received: nat, expected: nat, missing: nat, unexpected: nat, extraCopies: nat, deadLettered: nat,
    duplicatesPlanned: nat, duplicatesDropped: nat, editMismatch: nat, luaMismatch: nat, sampledOut: nat,
    repeatedOnEverySubject: nat) {
    function Reached(): nat {
      if expected < missing then 0 else expected - missing
    }

    predicate DedupeHeld() {
      duplicatesDropped * 100 >= duplicatesPlanned * MIN_DUPLICATES_DROPPED_PERCENT
    }

    predicate Passed() {
      missing == 0 && unexpected == 0 && deadLettered == 0 && editMismatch == 0 && luaMismatch == 0 && DedupeHeld()
    }
  }

  // ----- reading a message -----

  /** Decimal digits only, and within 64 bits. */
  function ParseId(text: Option<string>): Option<nat> {
    if text.None? || text.value == "" || !Decimal.AllDigits(text.value) then None
    else Decimal.ParseUnsigned(text.value, U64_LIMIT)
  }

  type Index = map<nat, Expectation>

  /** Expectations by id; of two with one id the later stays. */
  function ById(es: seq<Expectation>): (index: Index)
    ensures forall id :: id in index ==> index[id].id == id && index[id] in es
  {
    if es == [] then map[] else ById(Init(es))[Last(es).id := Last(es)]
  }

  function Known(index: Index, recordId: Option<string>): Option<Expectation> {
    var id := ParseId(recordId);
    if id.Some? && id.value in index then Some(index[id.value]) else None
  }

  /** The expectation a message meets: published, on one of its subjects, under its tenant. */
  function Matched(index: Index, w: Written): Option<Expectation> {
    var e := Known(index, w.recordId);
    if e.Some? && w.subject in e.value.subjects && w.tenant == Some(e.value.tenant) then e else None
  }

  function IsStray(index: Index): Written -> bool {
    w => Matched(index, w).None?
  }

  function IsMatched(index: Index): Written -> bool {
    w => Matched(index, w).Some?
  }

  function CopyKey(index: Index): Written -> Option<(nat, string)> {
    w => match Matched(index, w) case None => None case Some(e) => Some((e.id, w.subject))
  }

  function PairKey(index: Index): Written -> Option<(Group, string)> {
    w => match Matched(index, w) case None => None case Some(e) => Some((e.group, w.subject))
  }

  function MainKey(index: Index): Written -> Option<Group> {
    w => match Matched(index, w) case None => None case Some(e) => if w.subject == MAIN then Some(e.group) else None
  }

  function IdKey(index: Index, pair: (Group, string)): Written -> Option<nat> {
    w => match Matched(index, w) case None => None case Some(e) => if (e.group, w.subject) == pair then Some(e.id)
      else None
  }

  /** The ids of a group that reached one of its subjects. */
  function IdsAt(index: Index, pair: (Group, string), ws: seq<Written>): set<nat> {
    Keys(IdKey(index, pair), ws)
  }

  /** Groups whose first copy on the main subject fails a check. */
  function Mismatches(index: Index, check: (Expectation, string) -> bool, ws: seq<Written>): nat {
    if ws == [] then 0
    else
      var w := Last(ws);
      var e := Matched(index, w);
      Mismatches(index, check, Init(ws))
      + if e.Some? && w.subject == MAIN && e.value.group !in Keys(MainKey(index), Init(ws))
        && !check(e.value, w.attributes) then 1 else 0
  }

  // ----- the groups -----

  /** Groups in the order of their first expectation. */
  function GroupsOf(es: seq<Expectation>): seq<Group> {
    if es == [] then []
    else if Last(es).group in GroupsOf(Init(es)) then GroupsOf(Init(es))
    else GroupsOf(Init(es)) + [Last(es).group]
  }

  lemma {:induction false} GroupsAre(es: seq<Expectation>)
    ensures forall k :: 0 <= k < |es| ==> es[k].group in GroupsOf(es)
    ensures forall a, b :: 0 <= a < b < |GroupsOf(es)| ==> GroupsOf(es)[a] != GroupsOf(es)[b]
    ensures forall g :: g in GroupsOf(es) ==> exists k :: 0 <= k < |es| && es[k].group == g
  {
    if es != [] {
      GroupsAre(Init(es));
      assert es == Init(es) + [Last(es)];
      forall g | g in GroupsOf(es) ensures exists k :: 0 <= k < |es| && es[k].group == g {
        if g != Last(es).group {
          var k :| 0 <= k < |Init(es)| && Init(es)[k].group == g;
          assert es[k].group == g;
        } else {
          assert es[|es| - 1].group == g;
        }
      }
    }
  }

  /** The subjects of a group's first expectation. */
  function SubjectsOf(es: seq<Expectation>, g: Group): seq<string> {
    if es == [] then []
    else if g in GroupsOf(Init(es)) then SubjectsOf(Init(es), g)
    else if Last(es).group == g then Last(es).subjects
    else []
  }

  function InGroup(g: Group): Expectation -> bool {
    (e: Expectation) => e.group == g
  }

  function PlannedIn(g: Group): Expectation -> bool {
    (e: Expectation) => e.group == g && e.planned
  }

  /** What is kept of a group while the expectations are read. */
  datatype Entry = Entry(subjects: seq<string>, size: nat, planned: nat)

  function EntryOf(es: seq<Expectation>, g: Group): Entry {
    Entry(SubjectsOf(es, g), Count(InGroup(g), es), Count(PlannedIn(g), es))
  }

  // ----- what a group adds to the report -----

  function Unreached(pairs: set<(Group, string)>, g: Group): string -> bool {
    s => (g, s) !in pairs
  }

  function Max(a: nat, b: nat): nat {
    if a < b then b else a
  }

  function Min(a: nat, b: nat): nat {
    if a < b then a else b
  }

  /** One copy of a group is meant to arrive; of the others, those that did not are drops. */
  function Drops(size: nat, planned: nat, reached: nat): nat {
    var first := Max(reached, 1);
    Min(if size < first then 0 else size - first, planned)
  }

  function MissingIn(es: seq<Expectation>, pairs: set<(Group, string)>, g: Group): nat {
    Count(Unreached(pairs, g), SubjectsOf(es, g))
  }

  predicate SampledOut(es: seq<Expectation>, g: Group) {
    MAIN !in SubjectsOf(es, g)
  }

  predicate Repeated(es: seq<Expectation>, index: Index, ws: seq<Written>, g: Group) {
    |SubjectsOf(es, g)| > 1 && forall s :: s in SubjectsOf(es, g) ==> CountKey(PairKey(index), (g, s), ws) > 1
  }

  function PlannedOf(es: seq<Expectation>, g: Group): nat {
    if SubjectsOf(es, g) == [] then 0 else Count(PlannedIn(g), es)
  }

  function DroppedOf(es: seq<Expectation>, index: Index, ws: seq<Written>, g: Group): nat {
    if SubjectsOf(es, g) == [] then 0
    else Drops(Count(InGroup(g), es), Count(PlannedIn(g), es), |IdsAt(index, (g, SubjectsOf(es, g)[0]), ws)|)
  }

  function SubjectCount(es: seq<Expectation>): Group -> nat {
    (g: Group) => |SubjectsOf(es, g)|
  }

  function MissingCount(es: seq<Expectation>, pairs: set<(Group, string)>): Group -> nat {
    (g: Group) => MissingIn(es, pairs, g)
  }

  function IsSampledOut(es: seq<Expectation>): Group -> bool {
    (g: Group) => SampledOut(es, g)
  }

  function IsRepeated(es: seq<Expectation>, index: Index, ws: seq<Written>): Group -> bool {
    (g: Group) => Repeated(es, index, ws, g)
  }

  function PlannedCount(es: seq<Expectation>): Group -> nat {
    (g: Group) => PlannedOf(es, g)
  }

  function DroppedCount(es: seq<Expectation>, index: Index, ws: seq<Written>): Group -> nat {
    (g: Group) => DroppedOf(es, index, ws, g)
  }

  /** The part of the report that the groups add up to. */
  datatype Sums = Sums(expected: nat, missing: nat, sampledOut: nat, repeated: nat, planned: nat, dropped: nat)

  function SumsOf(es: seq<Expectation>, index: Index, ws: seq<Written>, groups: seq<Group>): Sums {
    Sums(
      Sum(SubjectCount(es), groups), Sum(MissingCount(es, Keys(PairKey(index), ws)), groups),
      Count(IsSampledOut(es), groups), Count(IsRepeated(es, index, ws), groups),
      Sum(PlannedCount(es), groups), Sum(DroppedCount(es, index, ws), groups))
  }

  function IsKnown(index: Index): DeadLetter -> bool {
    d => Known(index, d).Some?
  }

  function IsUnknown(index: Index): DeadLetter -> bool {
    d => Known(index, d).None?
  }

  /** The part of the report that the messages add up to. */
  datatype Flows = Flows(received: nat, stray: nat, extra: nat, edit: nat, lua: nat)

  function FlowsOf(index: Index, ws: seq<Written>, checks: Checks): Flows {
    var pairs, matched := |Keys(PairKey(index), ws)|, Count(IsMatched(index), ws);
    Flows(
      |Keys(CopyKey(index), ws)|, Count(IsStray(index), ws), if matched < pairs then 0 else matched - pairs,
      Mismatches(index, checks.edit, ws), Mismatches(index, checks.lua, ws))
  }

  function ReportFrom(published: nat, flows: Flows, sums: Sums, known: nat, unknown: nat): Report {
    Report(
      published := published, received := flows.received, expected := sums.expected, missing := sums.missing,
      unexpected := flows.stray + unknown, extraCopies := flows.extra, deadLettered := known,
      duplicatesPlanned := sums.planned, duplicatesDropped := sums.dropped,
      editMismatch := flows.edit, luaMismatch := flows.lua,
      sampledOut := sums.sampledOut, repeatedOnEverySubject := sums.repeated)
  }

  /** The verdict, from counts and sets alone but for the two comparisons of first copies. */
  function Judgement(es: seq<Expectation>, ws: seq<Written>, dead: seq<DeadLetter>, checks: Checks): Report {
    var index := ById(es);
    ReportFrom(
      |es|, FlowsOf(index, ws, checks), SumsOf(es, index, ws, GroupsOf(es)),
      Count(IsKnown(index), dead), Count(IsUnknown(index), dead))
  }

  // ----- the judging loops -----

  /** Which messages are judged, by their record id. */
  type Counted = Option<string> -> bool

  function CountedWritten(counted: Counted): Written -> bool {
    (w: Written) => counted(w.recordId)
  }

  /** What there is to know of the messages judged so far. */
  datatype Facts = Facts(
    stray: nat, matched: nat, pairs: set<(Group, string)>, copyKeys: set<(nat, string)>, mains: set<Group>,
    occurrences: ((Group, string)) -> nat, ids: ((Group, string)) -> set<nat>, edit: nat, lua: nat)

  ghost function FactsOf(index: Index, checks: Checks, ws: seq<Written>): Facts {
    Facts(
      Count(IsStray(index), ws), Count(IsMatched(index), ws),
      Keys(PairKey(index), ws), Keys(CopyKey(index), ws), Keys(MainKey(index), ws),
      (k: (Group, string)) => CountKey(PairKey(index), k, ws), (k: (Group, string)) => IdsAt(index, k, ws),
      Mismatches(index, checks.edit, ws), Mismatches(index, checks.lua, ws))
  }

  /** What a message that meets no expectation adds. */
  ghost predicate AddsStray(f: Facts, g: Facts) {
    && g.stray == f.stray + 1 && g.matched == f.matched
    && g.pairs == f.pairs && g.copyKeys == f.copyKeys && g.mains == f.mains
    && (forall k :: g.occurrences(k) == f.occurrences(k) && g.ids(k) == f.ids(k))
    && g.edit == f.edit && g.lua == f.lua
  }

  /** What a message that meets `e` adds. */
  ghost predicate AddsMatched(w: Written, e: Expectation, checks: Checks, f: Facts, g: Facts) {
    var pair, copy := (e.group, w.subject), (e.id, w.subject);
    var first := w.subject == MAIN && e.group !in f.mains;
    && g.stray == f.stray && g.matched == f.matched + 1
    && g.pairs == f.pairs + {pair} && g.copyKeys == f.copyKeys + {copy}
    && g.mains == f.mains + (if w.subject == MAIN then {e.group} else {})
    && g.occurrences(pair) == f.occurrences(pair) + 1 && g.ids(pair) == f.ids(pair) + {e.id}
    && (pair !in f.pairs ==> f.occurrences(pair) == 0 && f.ids(pair) == {})
    && (forall k :: k != pair ==> g.occurrences(k) == f.occurrences(k) && g.ids(k) == f.ids(k))
    && (e.id in f.ids(pair) <==> copy in f.copyKeys)
    && (copy in f.copyKeys ==> pair in f.pairs && (w.subject == MAIN ==> e.group in f.mains))
    && g.edit == f.edit + (if first && !checks.edit(e, w.attributes) then 1 else 0)
    && g.lua == f.lua + (if first && !checks.lua(e, w.attributes) then 1 else 0)
  }

  /** One more id has reached this pair. */
  ghost predicate AddsId(pair: (Group, string), f: Facts, g: Facts) {
    && g.matched == f.matched + 1 && g.pairs == f.pairs + {pair}
    && |g.pairs| == |f.pairs| + (if pair in f.pairs then 0 else 1)
    && |g.ids(pair)| == |f.ids(pair)| + 1 && (pair !in f.pairs ==> |f.ids(pair)| == 0)
    && forall k :: k != pair ==> g.ids(k) == f.ids(k)
  }

  lemma NewId(w: Written, e: Expectation, checks: Checks, f: Facts, g: Facts)
    requires AddsMatched(w, e, checks, f, g) && (e.id, w.subject) !in f.copyKeys
    ensures AddsId((e.group, w.subject), f, g)
  {
    var pair := (e.group, w.subject);
    if pair in f.pairs {
      assert g.pairs == f.pairs;
    }
  }

  lemma SeenBefore(w: Written, e: Expectation, checks: Checks, f: Facts, g: Facts)
    requires AddsMatched(w, e, checks, f, g) && (e.id, w.subject) in f.copyKeys
    ensures g.pairs == f.pairs && g.mains == f.mains && g.edit == f.edit && g.lua == f.lua && g.matched == f.matched + 1
    ensures forall k :: g.ids(k) == f.ids(k)
  {
    var pair := (e.group, w.subject);
    assert g.ids(pair) == f.ids(pair);
  }

  ghost predicate Adds(index: Index, checks: Checks, w: Written, f: Facts, g: Facts) {
    match Matched(index, w)
    case None => AddsStray(f, g)
    case Some(e) => AddsMatched(w, e, checks, f, g)
  }

  class Tally {
    const index: Index
    const checks: Checks
    var unexpected: nat
    var extra: nat
    var editMismatch: nat
    var luaMismatch: nat
    var copies: map<(nat, string), nat>
    var copiesPerGroup: map<(Group, string), nat>
    var reached: map<(Group, string), nat>
    var compared: set<Group>

    constructor (index: Index, checks: Checks)
      ensures this.index == index && this.checks == checks && Stands(FactsOf(index, checks, []))
    {
      this.index, this.checks := index, checks;
      unexpected, extra, editMismatch, luaMismatch := 0, 0, 0, 0;
      copies, copiesPerGroup, reached, compared := map[], map[], map[], {};
    }

    /** The fields hold these facts. */
    ghost predicate Stands(f: Facts)
      reads this
    {
      unexpected == f.stray && HoldCopies(f) && HoldReached(f) && HoldRest(f)
    }

    ghost predicate HoldCopies(f: Facts)
      reads this`copies, this`copiesPerGroup
    {
      && copies.Keys == f.copyKeys
      && (forall k :: k in copies ==> copies[k] > 0)
      && copiesPerGroup.Keys == f.pairs
      && (forall k :: k in copiesPerGroup ==> copiesPerGroup[k] == f.occurrences(k))
    }

    ghost predicate HoldReached(f: Facts)
      reads this`reached
    {
      && reached.Keys == f.pairs
      && (forall k :: k in reached ==> reached[k] == |f.ids(k)| && reached[k] > 0)
    }

    method Take(w: Written, ghost f: Facts, ghost g: Facts)
      requires Stands(f) && Adds(index, checks, w, f, g)
      modifies this
      ensures Stands(g)
    {
      var matched := Matched(index, w);
      if matched.None? {
        TakeStray(f, g);
      } else {
        TakeMatched(w, matched.value, f, g);
        assert unexpected == g.stray;
      }
    }

    method TakeStray(ghost f: Facts, ghost g: Facts)
      requires Stands(f) && AddsStray(f, g)
      modifies this`unexpected
      ensures Stands(g)
    {
      unexpected := unexpected + 1;
    }

    method TakeMatched(w: Written, e: Expectation, ghost f: Facts, ghost g: Facts)
      requires Stands(f) && AddsMatched(w, e, checks, f, g)
      modifies this`extra, this`copies, this`copiesPerGroup, this`reached, this`compared, this`editMismatch,
        this`luaMismatch
      ensures HoldCopies(g)
      ensures HoldReached(g)
      ensures HoldRest(g)
    {
      var seen := CountCopy(w, e, f, g);
      if seen > 1 {
        CountSeen(w, e, f, g);
      } else {
        CountNew(w, e, f, g);
      }
    }

    ghost predicate HoldRest(f: Facts)
      reads this`extra, this`compared, this`editMismatch, this`luaMismatch
    {
      extra + |f.pairs| == f.matched && compared == f.mains && editMismatch == f.edit && luaMismatch == f.lua
    }

    method CountNew(w: Written, e: Expectation, ghost f: Facts, ghost g: Facts)
      requires HoldReached(f) && HoldRest(f) && AddsMatched(w, e, checks, f, g) && (e.id, w.subject) !in f.copyKeys
      modifies this`extra, this`reached, this`compared, this`editMismatch, this`luaMismatch
      ensures HoldReached(g) && HoldRest(g)
    {
      Compare(w, e, f, g);
      NewId(w, e, checks, f, g);
      CountReached((e.group, w.subject), f, g);
    }

    method CountSeen(w: Written, e: Expectation, ghost f: Facts, ghost g: Facts)
      requires HoldReached(f) && AddsMatched(w, e, checks, f, g) && (e.id, w.subject) in f.copyKeys
      requires HoldRest(f)
      modifies this`extra
      ensures HoldReached(g) && HoldRest(g) && g.stray == f.stray
    {
      SeenBefore(w, e, checks, f, g);
      extra := extra + 1;
    }

    method CountCopy(w: Written, e: Expectation, ghost f: Facts, ghost g: Facts) returns (seen: nat)
      requires HoldCopies(f) && AddsMatched(w, e, checks, f, g)
      modifies this`copies, this`copiesPerGroup
      ensures HoldCopies(g)
      ensures seen > 1 <==> (e.id, w.subject) in f.copyKeys
    {
      var pair, copy := (e.group, w.subject), (e.id, w.subject);
      copiesPerGroup := copiesPerGroup[pair := (if pair in copiesPerGroup then copiesPerGroup[pair] else 0) + 1];
      seen := (if copy in copies then copies[copy] else 0) + 1;
      copies := copies[copy := seen];
    }

    method CountReached(pair: (Group, string), ghost f: Facts, ghost g: Facts)
      requires HoldReached(f) && AddsId(pair, f, g) && extra + |f.pairs| == f.matched
      modifies this`reached, this`extra
      ensures HoldReached(g) && extra + |g.pairs| == g.matched
    {
      var ids := (if pair in reached then reached[pair] else 0) + 1;
      reached := reached[pair := ids];
      if ids > 1 {
        extra := extra + 1;
      }
    }

    method Compare(w: Written, e: Expectation, ghost f: Facts, ghost g: Facts)
      requires compared == f.mains && editMismatch == f.edit && luaMismatch == f.lua
      requires AddsMatched(w, e, checks, f, g)
      modifies this`compared, this`editMismatch, this`luaMismatch
      ensures compared == g.mains && editMismatch == g.edit && luaMismatch == g.lua
    {
      if w.subject == MAIN && e.group !in compared {
        compared := compared + {e.group};
        if !checks.edit(e, w.attributes) {
          editMismatch := editMismatch + 1;
        }
        if !checks.lua(e, w.attributes) {
          luaMismatch := luaMismatch + 1;
        }
      }
    }
  }

  lemma FactsNext(index: Index, checks: Checks, w: Written, ws: seq<Written>)
    requires forall id :: id in index ==> index[id].id == id
    ensures Adds(index, checks, w, FactsOf(index, checks, ws), FactsOf(index, checks, ws + [w]))
  {
    Snoc(ws, w);
    var matched := Matched(index, w);
    if matched.Some? {
      var e := matched.value;
      KeysAre(PairKey(index), ws, (e.group, w.subject));
      IdsOfCopies(index, e, w.subject, ws);
      if (e.id, w.subject) in Keys(CopyKey(index), ws) {
        AlreadyCompared(index, w, e, ws);
      }
    }
  }

  /** An id has reached a subject for its group exactly when a copy of it was seen there. */
  lemma {:induction false} IdsOfCopies(index: Index, e: Expectation, subject: string, ws: seq<Written>)
    requires forall id :: id in index ==> index[id].id == id
    requires e.id in index && index[e.id] == e
    ensures e.id in IdsAt(index, (e.group, subject), ws) <==> (e.id, subject) in Keys(CopyKey(index), ws)
    ensures (e.group, subject) !in Keys(PairKey(index), ws) ==> IdsAt(index, (e.group, subject), ws) == {}
  {
    if ws != [] {
      IdsOfCopies(index, e, subject, Init(ws));
    }
  }

  lemma {:induction false} AlreadyCompared(index: Index, w: Written, e: Expectation, ws: seq<Written>)
    requires Matched(index, w) == Some(e) && (e.id, w.subject) in Keys(CopyKey(index), ws)
    requires forall id :: id in index ==> index[id].id == id
    ensures (e.group, w.subject) in Keys(PairKey(index), ws)
    ensures w.subject == MAIN ==> e.group in Keys(MainKey(index), ws)
  {
    if (e.id, w.subject) in Keys(CopyKey(index), Init(ws)) {
      AlreadyCompared(index, w, e, Init(ws));
    }
  }

  lemma {:induction false} NoIdsUnreached(index: Index, pair: (Group, string), ws: seq<Written>)
    requires pair !in Keys(PairKey(index), ws)
    ensures IdsAt(index, pair, ws) == {}
  {
    if ws != [] {
      NoIdsUnreached(index, pair, Init(ws));
    }
  }

  /** What there is to know of the counted ones of the first `i` messages. */
  ghost function FactsTo(index: Index, checks: Checks, counts: Written -> bool, ws: seq<Written>, i: nat): Facts
    requires i <= |ws|
  {
    FactsOf(index, checks, Filter(counts, ws[..i]))
  }

  lemma FactsToNext(index: Index, checks: Checks, counts: Written -> bool, ws: seq<Written>, i: nat)
    requires i < |ws| && forall id :: id in index ==> index[id].id == id
    ensures counts(ws[i]) ==> Adds(index, checks, ws[i], FactsTo(index, checks, counts, ws, i),
      FactsTo(index, checks, counts, ws, i + 1))
    ensures !counts(ws[i]) ==> FactsTo(index, checks, counts, ws, i + 1) == FactsTo(index, checks, counts, ws, i)
  {
    FilterNext(counts, ws, i);
    if counts(ws[i]) {
      FactsNext(index, checks, ws[i], Filter(counts, ws[..i]));
    }
  }

  ghost predicate KnowsCopies(tally: Tally, ws: seq<Written>)
    reads tally
  {
    && tally.copiesPerGroup.Keys == Keys(PairKey(tally.index), ws)
    && forall k :: k in tally.copiesPerGroup ==> tally.copiesPerGroup[k] == CountKey(PairKey(tally.index), k, ws)
  }

  ghost predicate KnowsReached(tally: Tally, ws: seq<Written>)
    reads tally
  {
    && tally.reached.Keys == Keys(PairKey(tally.index), ws)
    && forall k :: k in tally.reached ==> tally.reached[k] == |IdsAt(tally.index, k, ws)|
  }

  lemma StandsFor(tally: Tally, ws: seq<Written>, f: Facts)
    requires tally.Stands(f) && f == FactsOf(tally.index, tally.checks, ws)
    ensures KnowsCopies(tally, ws) && KnowsReached(tally, ws)
    ensures Flows(|tally.copies|, tally.unexpected, tally.extra, tally.editMismatch, tally.luaMismatch) ==
      FlowsOf(tally.index, ws, tally.checks)
  {
    assert |tally.copies| == |tally.copies.Keys|;
  }

  method TakeAll(index: Index, checks: Checks, ws: seq<Written>, counted: Counted) returns (tally: Tally)
    requires forall id :: id in index ==> index[id].id == id
    ensures fresh(tally) && tally.index == index && tally.checks == checks
    ensures var kept := Filter(CountedWritten(counted), ws);
      && KnowsCopies(tally, kept) && KnowsReached(tally, kept)
      && Flows(|tally.copies|, tally.unexpected, tally.extra, tally.editMismatch, tally.luaMismatch) ==
        FlowsOf(index, kept, checks)
  {
    tally := new Tally(index, checks);
    var counts := CountedWritten(counted);
    ghost var f := FactsTo(index, checks, counts, ws, 0);
    for i := 0 to |ws|
      invariant fresh(tally) && tally.index == index && tally.checks == checks
      invariant f == FactsTo(index, checks, counts, ws, i) && tally.Stands(f)
    {
      FactsToNext(index, checks, counts, ws, i);
      ghost var g := FactsTo(index, checks, counts, ws, i + 1);
      if counts(ws[i]) {
        tally.Take(ws[i], f, g);
      }
      f := g;
    }
    assert ws[..|ws|] == ws;
    StandsFor(tally, Filter(counts, ws), f);
  }

  method IndexById(es: seq<Expectation>) returns (index: Index)
    ensures index == ById(es)
  {
    index := map[];
    for i := 0 to |es|
      invariant index == ById(es[..i])
    {
      Sequences.TakeNext(es, i);
      Snoc(es[..i], es[i]);
      index := index[es[i].id := es[i]];
    }
    assert es[..|es|] == es;
  }

  /** An expectation enters its group: as its first, or as one more. */
  function Entered(entries: map<Group, Entry>, e: Expectation): map<Group, Entry> {
    var entry := if e.group in entries then entries[e.group] else Entry(e.subjects, 0, 0);
    entries[e.group := Entry(entry.subjects, entry.size + 1, entry.planned + if e.planned then 1 else 0)]
  }

  function EntriesOf(es: seq<Expectation>): map<Group, Entry> {
    if es == [] then map[] else Entered(EntriesOf(Init(es)), Last(es))
  }

  lemma {:induction false} EntriesAre(es: seq<Expectation>, g: Group)
    ensures g in EntriesOf(es) <==> g in GroupsOf(es)
    ensures g in GroupsOf(es) ==> EntriesOf(es)[g] == EntryOf(es, g)
    ensures g !in GroupsOf(es) ==> Count(InGroup(g), es) == 0 && Count(PlannedIn(g), es) == 0
  {
    if es != [] {
      EntriesAre(Init(es), g);
      EntriesAre(Init(es), Last(es).group);
    }
  }

  method GroupExpectations(es: seq<Expectation>) returns (order: seq<Group>, groups: map<Group, Entry>)
    ensures order == GroupsOf(es) && groups == EntriesOf(es)
  {
    order, groups := [], map[];
    for i := 0 to |es|
      invariant order == GroupsOf(es[..i]) && groups == EntriesOf(es[..i])
    {
      var e := es[i];
      Sequences.TakeNext(es, i);
      Snoc(es[..i], e);
      EntriesAre(es[..i], e.group);
      if e.group !in groups {
        groups := groups[e.group := Entry(e.subjects, 0, 0)];
        order := order + [e.group];
      }
      var entry := groups[e.group];
      groups := groups[e.group := Entry(entry.subjects, entry.size + 1, entry.planned + if e.planned then 1 else 0)];
    }
    assert es[..|es|] == es;
  }

  method CountMissing(tally: Tally, g: Group, subjects: seq<string>, ghost pairs: set<(Group, string)>)
      returns (missing: nat)
    requires tally.reached.Keys == pairs
    ensures missing == Count(Unreached(pairs, g), subjects)
  {
    missing := 0;
    for j := 0 to |subjects|
      invariant missing == Count(Unreached(pairs, g), subjects[..j])
    {
      Sequences.TakeNext(subjects, j);
      Snoc(subjects[..j], subjects[j]);
      if (g, subjects[j]) !in tally.reached {
        missing := missing + 1;
      }
    }
    assert subjects[..|subjects|] == subjects;
  }

  method RepeatedEverywhere(tally: Tally, g: Group, subjects: seq<string>, ghost es: seq<Expectation>,
      ghost ws: seq<Written>) returns (repeated: bool)
    requires KnowsCopies(tally, ws) && subjects == SubjectsOf(es, g)
    ensures repeated == Repeated(es, tally.index, ws, g)
  {
    repeated := |subjects| > 1 && forall s | s in subjects ::
      (g, s) in tally.copiesPerGroup && tally.copiesPerGroup[(g, s)] > 1;
    forall s | s in subjects
      ensures ((g, s) in tally.copiesPerGroup && tally.copiesPerGroup[(g, s)] > 1) ==
        (CountKey(PairKey(tally.index), (g, s), ws) > 1) {
      KeysAre(PairKey(tally.index), ws, (g, s));
    }
  }

  method IdsReached(tally: Tally, pair: (Group, string), ghost ws: seq<Written>) returns (ids: nat)
    requires KnowsReached(tally, ws)
    ensures ids == |IdsAt(tally.index, pair, ws)|
  {
    if pair in tally.reached {
      ids := tally.reached[pair];
    } else {
      NoIdsUnreached(tally.index, pair, ws);
      ids := 0;
    }
  }

  /** The sums with group `g` added. */
  function WithGroup(sums: Sums, es: seq<Expectation>, index: Index, ws: seq<Written>, g: Group): Sums {
    Sums(
      sums.expected + |SubjectsOf(es, g)|, sums.missing + MissingIn(es, Keys(PairKey(index), ws), g),
      sums.sampledOut + (if SampledOut(es, g) then 1 else 0),
        sums.repeated + (if Repeated(es, index, ws, g) then 1 else 0),
      sums.planned + PlannedOf(es, g), sums.dropped + DroppedOf(es, index, ws, g))
  }

  lemma SumsNext(es: seq<Expectation>, index: Index, ws: seq<Written>, order: seq<Group>, i: nat)
    requires i < |order|
    ensures SumsOf(es, index, ws, order[..i + 1]) ==
      WithGroup(SumsOf(es, index, ws, order[..i]), es, index, ws, order[i])
  {
    Sequences.TakeNext(order, i);
    Snoc(order[..i], order[i]);
  }

  method AddGroup(sums: Sums, tally: Tally, g: Group, entry: Entry, ghost es: seq<Expectation>,
      ghost ws: seq<Written>) returns (next: Sums)
    requires KnowsCopies(tally, ws) && KnowsReached(tally, ws)
    requires entry == EntryOf(es, g)
    ensures next == WithGroup(sums, es, tally.index, ws, g)
  {
    hide IdsAt;
    var subjects := entry.subjects;
    var missing := CountMissing(tally, g, subjects, Keys(PairKey(tally.index), ws));
    var repeated := RepeatedEverywhere(tally, g, subjects, es, ws);
    var planned, dropped := 0, 0;
    if subjects != [] {
      var reachedFirst := IdsReached(tally, (g, subjects[0]), ws);
      planned, dropped := entry.planned, Drops(entry.size, entry.planned, reachedFirst);
    }
    next := Sums(
      sums.expected + |subjects|, sums.missing + missing,
      sums.sampledOut + (if MAIN !in subjects then 1 else 0), sums.repeated + (if repeated then 1 else 0),
      sums.planned + planned, sums.dropped + dropped);
  }

  method AddGroups(tally: Tally, order: seq<Group>, groups: map<Group, Entry>, ghost es: seq<Expectation>,
      ghost ws: seq<Written>)
    returns (sums: Sums)
    requires KnowsCopies(tally, ws) && KnowsReached(tally, ws)
    requires forall g :: g in order ==> g in groups && groups[g] == EntryOf(es, g)
    ensures sums == SumsOf(es, tally.index, ws, order)
  {
    sums := Sums(0, 0, 0, 0, 0, 0);
    for i := 0 to |order|
      invariant sums == SumsOf(es, tally.index, ws, order[..i])
    {
      SumsNext(es, tally.index, ws, order, i);
      sums := AddGroup(sums, tally, order[i], groups[order[i]], es, ws);
    }
    assert order[..|order|] == order;
  }

  method CountDead(index: Index, dead: seq<DeadLetter>, counted: Counted) returns (known: nat, unknown: nat)
    ensures known == Count(IsKnown(index), Filter(counted, dead))
    ensures unknown == Count(IsUnknown(index), Filter(counted, dead))
  {
    known, unknown := 0, 0;
    for i := 0 to |dead|
      invariant known == Count(IsKnown(index), Filter(counted, dead[..i]))
      invariant unknown == Count(IsUnknown(index), Filter(counted, dead[..i]))
    {
      CountFilterNext(IsKnown(index), counted, dead, i);
      CountFilterNext(IsUnknown(index), counted, dead, i);
      if counted(dead[i]) {
        if Known(index, dead[i]).Some? {
          known := known + 1;
        } else {
          unknown := unknown + 1;
        }
      }
    }
    assert dead[..|dead|] == dead;
  }

  method JudgeWhere(es: seq<Expectation>, ws: seq<Written>, dead: seq<DeadLetter>, counted: Counted, checks: Checks)
    returns (report: Report)
    ensures report == Judgement(es, Filter(CountedWritten(counted), ws), Filter(counted, dead), checks)
  {
    var index := IndexById(es);
    ghost var kept := Filter(CountedWritten(counted), ws);
    var tally := TakeAll(index, checks, ws, counted);
    var order, groups := GroupExpectations(es);
    forall g | g in order ensures g in groups && groups[g] == EntryOf(es, g) {
      EntriesAre(es, g);
    }
    var sums := AddGroups(tally, order, groups, es, kept);
    var known, unknown := CountDead(index, dead, counted);
    var flows := Flows(|tally.copies|, tally.unexpected, tally.extra, tally.editMismatch, tally.luaMismatch);
    report := ReportFrom(|es|, flows, sums, known, unknown);
  }

  method Judge(es: seq<Expectation>, ws: seq<Written>, dead: seq<DeadLetter>, checks: Checks) returns (report: Report)
    ensures report == Judgement(es, ws, dead, checks)
  {
    var all: Counted := _ => true;
    FilterAll(CountedWritten(all), ws);
    FilterAll(all, dead);
    report := JudgeWhere(es, ws, dead, all, checks);
  }

  /** Not waiting for an expectation: its id is unreadable or published. */
  function Settled(index: Index): Counted {
    (recordId: Option<string>) => ParseId(recordId).None? || ParseId(recordId).value in index
  }

  method JudgeSoFar(es: seq<Expectation>, ws: seq<Written>, dead: seq<DeadLetter>, checks: Checks)
      returns (report: Report)
    ensures report == Judgement(es, Filter(CountedWritten(Settled(ById(es))), ws), Filter(Settled(ById(es)), dead),
      checks)
  {
    var index := IndexById(es);
    report := JudgeWhere(es, ws, dead, Settled(index), checks);
  }

  lemma {:induction false} FilterAll<T>(keep: T -> bool, s: seq<T>)
    requires forall x :: x in s ==> keep(x)
    ensures Filter(keep, s) == s
  {
    if s != [] {
      FilterAll(keep, Init(s));
      assert s == Init(s) + [Last(s)];
    }
  }
}
