/** What each number of a verdict counts, told by the messages and expectations themselves
    (crates/harness/src/verdict.rs:110-177, 259-406). */
module VerdictMeaning {
  import opened Wrappers
  import opened Tallies
  import opened Verdict
  import opened VerdictLaws
  import Decimal

  // ----- whom a message meets -----

  /** A record id as the pipeline writes it: the number's digits, after any leading zeros. */
  ghost predicate Spells(text: Option<string>, id: nat) {
    && text.Some?
    && id < 0x1_0000_0000_0000_0000
    && exists z: nat :: text.value == Decimal.Zeros(z) + Decimal.Print(id)
  }

  /** Of several expectations with one id the last counts. */
  predicate IsLast(es: seq<Expectation>, k: nat) {
    k < |es| && forall j :: k < j < |es| ==> es[j].id != es[k].id
  }

  /** The text is the id of expectation `k`. */
  ghost predicate Names(es: seq<Expectation>, k: nat, text: Option<string>) {
    IsLast(es, k) && Spells(text, es[k].id)
  }

  /** The message is one that expectation `k` expects: its id, on one of its subjects, under its
      tenant. */
  ghost predicate Meets(es: seq<Expectation>, k: nat, w: Written) {
    Names(es, k, w.recordId) && w.subject in es[k].subjects && w.tenant == Some(es[k].tenant)
  }

  lemma {:induction false} LastIsFound(es: seq<Expectation>, k: nat)
    requires IsLast(es, k)
    ensures es[k].id in ById(es) && ById(es)[es[k].id] == es[k]
  {
    if k < |es| - 1 {
      assert IsLast(Init(es), k);
      LastIsFound(Init(es), k);
    }
  }

  lemma {:induction false} FoundIsLast(es: seq<Expectation>, id: nat) returns (k: nat)
    requires id in ById(es)
    ensures IsLast(es, k) && es[k].id == id
  {
    k := |es| - 1;
    if es[k].id != id {
      k := FoundIsLast(Init(es), id);
    }
  }

  lemma ParseIdMeans(text: Option<string>, id: nat)
    ensures ParseId(text) == Some(id) <==> Spells(text, id)
  {
    hide Decimal.Zeros, Decimal.Print;
    if text.Some? {
      Decimal.ParseUnsignedMeans(text.value, U64_LIMIT, id);
      if ParseId(text) == Some(id) {
        var z: nat :| text.value == Decimal.Zeros(z) + Decimal.Print(id)
          || text.value == "+" + (Decimal.Zeros(z) + Decimal.Print(id));
        assert Decimal.IsDigit(text.value[0]);
      }
      if Spells(text, id) {
        var z: nat :| text.value == Decimal.Zeros(z) + Decimal.Print(id);
        Decimal.ParseZeros(z, id, U64_LIMIT);
      }
    }
  }

  lemma KnownMeans(es: seq<Expectation>, text: Option<string>)
    ensures forall k: nat :: Names(es, k, text) ==> Known(ById(es), text) == Some(es[k])
    ensures Known(ById(es), text).Some? ==>
              exists k: nat :: k < |es| && Names(es, k, text) && Known(ById(es), text) == Some(es[k])
  {
    hide Spells, ParseId, ById;
    forall k: nat | Names(es, k, text)
      ensures Known(ById(es), text) == Some(es[k])
    {
      LastIsFound(es, k);
      ParseIdMeans(text, es[k].id);
    }
    if Known(ById(es), text).Some? {
      var id := ParseId(text).value;
      var k := FoundIsLast(es, id);
      LastIsFound(es, k);
      ParseIdMeans(text, id);
      assert Names(es, k, text);
    }
  }

  lemma MatchedMeans(es: seq<Expectation>, w: Written)
    ensures forall k: nat :: Meets(es, k, w) ==> Matched(ById(es), w) == Some(es[k])
    ensures Matched(ById(es), w).Some? ==>
              exists k: nat :: k < |es| && Meets(es, k, w) && Matched(ById(es), w) == Some(es[k])
  {
    hide Names, Known, ById;
    KnownMeans(es, w.recordId);
  }

  // ----- counts are sizes -----

  ghost function Places<T>(p: T -> bool, s: seq<T>): set<nat> {
    set i: nat | i < |s| && p(s[i])
  }

  lemma {:induction false} CountIsSize<T>(p: T -> bool, s: seq<T>)
    ensures Count(p, s) == |Places(p, s)|
  {
    if s == [] {
      assert Places(p, s) == {};
    } else {
      CountIsSize(p, Init(s));
      PlacesNext(p, s);
    }
  }

  lemma PlacesNext<T>(p: T -> bool, s: seq<T>)
    requires s != []
    ensures |Places(p, s)| == |Places(p, Init(s))| + if p(Last(s)) then 1 else 0
  {
    var last, rest := |s| - 1, Places(p, Init(s));
    assert last !in rest;
    assert Places(p, s) == if p(s[last]) then rest + {last} else rest;
  }

  lemma {:induction false} CountDistinctIsSize<T>(p: T -> bool, s: seq<T>, chosen: set<T>)
    requires forall a, b :: 0 <= a < b < |s| ==> s[a] != s[b]
    requires forall x :: x in chosen <==> x in s && p(x)
    ensures Count(p, s) == |chosen|
  {
    if s == [] {
      assert chosen == {};
    } else {
      var before, last := Init(s), Last(s);
      assert s == before + [last] && last !in before;
      CountDistinctIsSize(p, before, chosen - {last});
    }
  }

  lemma {:induction false} TwiceIsTwo<T, K>(key: T -> Option<K>, k: K, s: seq<T>)
    ensures CountKey(key, k, s) > 1 <==>
            exists i, j :: 0 <= i < j < |s| && key(s[i]) == Some(k) && key(s[j]) == Some(k)
  {
    if s != [] {
      var before, last := Init(s), |s| - 1;
      TwiceIsTwo(key, k, before);
      KeysAre(key, before, k);
      assert forall i :: 0 <= i < last ==> before[i] == s[i];
    }
  }

  ghost predicate Fails(index: Index, check: (Expectation, string) -> bool, ws: seq<Written>, i: nat)
    requires i < |ws|
  {
    FirstOnMain(index, ws, i) && !PassesCheck(index, check, ws[i])
  }

  ghost function Failing(index: Index, check: (Expectation, string) -> bool, ws: seq<Written>): set<nat> {
    set i: nat | i < |ws| && Fails(index, check, ws, i)
  }

  lemma {:induction false} MismatchesAreFirst(index: Index, check: (Expectation, string) -> bool, ws: seq<Written>)
    ensures Mismatches(index, check, ws) == |Failing(index, check, ws)|
  {
    if ws == [] {
      assert Failing(index, check, ws) == {};
    } else {
      MismatchesAreFirst(index, check, Init(ws));
      FailsBefore(index, check, ws);
      FailingNext(index, check, ws);
    }
  }

  lemma FailingNext(index: Index, check: (Expectation, string) -> bool, ws: seq<Written>)
    requires ws != []
    requires forall i :: 0 <= i < |ws| - 1 ==> (Fails(index, check, ws, i) <==> Fails(index, check, Init(ws), i))
    ensures |Failing(index, check, ws)| ==
            |Failing(index, check, Init(ws))| + if Fails(index, check, ws, |ws| - 1) then 1 else 0
  {
    hide Fails;
    var last, rest := |ws| - 1, Failing(index, check, Init(ws));
    assert last !in rest;
    assert Failing(index, check, ws) == if Fails(index, check, ws, last) then rest + {last} else rest;
  }

  lemma FailsBefore(index: Index, check: (Expectation, string) -> bool, ws: seq<Written>)
    requires ws != []
    ensures forall i :: 0 <= i < |ws| - 1 ==> (Fails(index, check, ws, i) <==> Fails(index, check, Init(ws), i))
    ensures Mismatches(index, check, ws) ==
            Mismatches(index, check, Init(ws)) + if Fails(index, check, ws, |ws| - 1) then 1 else 0
  {
    hide Matched;
    LastOnMain(index, ws);
  }

  // ----- the numbers -----

  /** Message `i` meets some expectation. */
  ghost predicate IsMet(es: seq<Expectation>, w: Written) {
    exists k: nat :: Meets(es, k, w)
  }

  ghost function Met(es: seq<Expectation>, ws: seq<Written>): set<nat> {
    set i: nat | i < |ws| && IsMet(es, ws[i])
  }

  ghost function Unmet(es: seq<Expectation>, ws: seq<Written>): set<nat> {
    set i: nat | i < |ws| && !IsMet(es, ws[i])
  }

  ghost predicate IsPublished(es: seq<Expectation>, text: Option<string>) {
    exists k: nat :: Names(es, k, text)
  }

  ghost function Published(es: seq<Expectation>, dead: seq<DeadLetter>): set<nat> {
    set i: nat | i < |dead| && IsPublished(es, dead[i])
  }

  ghost function Unpublished(es: seq<Expectation>, dead: seq<DeadLetter>): set<nat> {
    set i: nat | i < |dead| && !IsPublished(es, dead[i])
  }

  /** The ids that arrived, each on each subject. */
  ghost function ReceivedPairs(es: seq<Expectation>, ws: seq<Written>): set<(nat, string)> {
    set i: nat, k: nat | i < |ws| && k < |es| && Meets(es, k, ws[i]) :: (es[k].id, ws[i].subject)
  }

  /** The groups that arrived, each on each subject. */
  ghost function ReachedPairs(es: seq<Expectation>, ws: seq<Written>): set<(Group, string)> {
    set i: nat, k: nat | i < |ws| && k < |es| && Meets(es, k, ws[i]) :: (es[k].group, ws[i].subject)
  }

  /** The groups expected, each on each of its subjects. */
  ghost function NamedPairs(es: seq<Expectation>): set<(Group, string)> {
    set k: nat, s | k < |es| && s in es[k].subjects :: (es[k].group, s)
  }

  ghost function AllGroups(es: seq<Expectation>): set<Group> {
    set k: nat | k < |es| :: es[k].group
  }

  lemma FlowsMean(es: seq<Expectation>, ws: seq<Written>)
    ensures Count(IsMatched(ById(es)), ws) == |Met(es, ws)|
    ensures Count(IsStray(ById(es)), ws) == |Unmet(es, ws)|
    ensures Keys(CopyKey(ById(es)), ws) == ReceivedPairs(es, ws)
    ensures Keys(PairKey(ById(es)), ws) == ReachedPairs(es, ws)
  {
    hide Meets, Matched, ById, Count, Keys;
    var index := ById(es);
    forall w
      ensures Matched(index, w).Some? <==> IsMet(es, w)
    {
      MatchedMeans(es, w);
    }
    CountIsSize(IsMatched(index), ws);
    CountIsSize(IsStray(index), ws);
    assert Places(IsMatched(index), ws) == Met(es, ws);
    assert Places(IsStray(index), ws) == Unmet(es, ws);
    CopiesMean(es, ws);
    PairsMean(es, ws);
  }

  lemma CopiesMean(es: seq<Expectation>, ws: seq<Written>)
    ensures Keys(CopyKey(ById(es)), ws) == ReceivedPairs(es, ws)
  {
    hide Meets, Matched, ById, Keys;
    var index := ById(es);
    forall key: (nat, string)
      ensures key in Keys(CopyKey(index), ws) <==> key in ReceivedPairs(es, ws)
    {
      KeysAre(CopyKey(index), ws, key);
      if key in Keys(CopyKey(index), ws) {
        var i :| 0 <= i < |ws| && CopyKey(index)(ws[i]) == Some(key);
        MatchedMeans(es, ws[i]);
        var k: nat :| k < |es| && Meets(es, k, ws[i]) && Matched(index, ws[i]) == Some(es[k]);
      }
      if key in ReceivedPairs(es, ws) {
        var i: nat, k: nat :| i < |ws| && k < |es| && Meets(es, k, ws[i]) && key == (es[k].id, ws[i].subject);
        MatchedMeans(es, ws[i]);
        assert CopyKey(index)(ws[i]) == Some(key);
      }
    }
  }

  lemma PairsMean(es: seq<Expectation>, ws: seq<Written>)
    ensures Keys(PairKey(ById(es)), ws) == ReachedPairs(es, ws)
  {
    hide Meets, Matched, ById, Keys;
    var index := ById(es);
    forall key: (Group, string)
      ensures key in Keys(PairKey(index), ws) <==> key in ReachedPairs(es, ws)
    {
      KeysAre(PairKey(index), ws, key);
      if key in Keys(PairKey(index), ws) {
        var i :| 0 <= i < |ws| && PairKey(index)(ws[i]) == Some(key);
        MatchedMeans(es, ws[i]);
        var k: nat :| k < |es| && Meets(es, k, ws[i]) && Matched(index, ws[i]) == Some(es[k]);
      }
      if key in ReachedPairs(es, ws) {
        var i: nat, k: nat :| i < |ws| && k < |es| && Meets(es, k, ws[i]) && key == (es[k].group, ws[i].subject);
        MatchedMeans(es, ws[i]);
        assert PairKey(index)(ws[i]) == Some(key);
      }
    }
  }

  // ----- groups -----

  ghost predicate KeepsOffMain(es: seq<Expectation>, g: Group) {
    "processed.loghub.main" !in SubjectsOf(es, g)
  }

  /** Two messages of the group arrived on the subject. */
  ghost predicate ArrivedTwice(es: seq<Expectation>, ws: seq<Written>, g: Group, s: string) {
    exists i: nat, j: nat :: i < j < |ws| && MeetsIn(es, ws[i], g, s) && MeetsIn(es, ws[j], g, s)
  }

  /** The message is one that the group expects on the subject. */
  ghost predicate MeetsIn(es: seq<Expectation>, w: Written, g: Group, s: string) {
    w.subject == s && exists k: nat :: k < |es| && Meets(es, k, w) && es[k].group == g
  }

  /** The group has several subjects, and a second copy on every one. */
  ghost predicate RepeatedEverywhere(es: seq<Expectation>, ws: seq<Written>, g: Group) {
    |SubjectsOf(es, g)| > 1 && forall s :: s in SubjectsOf(es, g) ==> ArrivedTwice(es, ws, g, s)
  }

  ghost function SampledOutGroups(es: seq<Expectation>): set<Group> {
    set g | g in AllGroups(es) && KeepsOffMain(es, g)
  }

  ghost function RepeatedGroups(es: seq<Expectation>, ws: seq<Written>): set<Group> {
    set g | g in AllGroups(es) && RepeatedEverywhere(es, ws, g)
  }

  lemma GroupsAreAll(es: seq<Expectation>)
    ensures (set g | g in GroupsOf(es)) == AllGroups(es)
  {
    GroupsAre(es);
  }

  lemma MeetsInMeans(es: seq<Expectation>, w: Written, g: Group, s: string)
    ensures PairKey(ById(es))(w) == Some((g, s)) <==> MeetsIn(es, w, g, s)
  {
    hide Meets, Matched, ById;
    MatchedMeans(es, w);
  }

  lemma RepeatedMeans(es: seq<Expectation>, ws: seq<Written>, g: Group)
    ensures Repeated(es, ById(es), ws, g) <==> RepeatedEverywhere(es, ws, g)
  {
    hide MeetsIn, CountKey, SubjectsOf, ById;
    var key := PairKey(ById(es));
    forall s
      ensures CountKey(key, (g, s), ws) > 1 <==> ArrivedTwice(es, ws, g, s)
    {
      TwiceIsTwo(key, (g, s), ws);
      forall i | 0 <= i < |ws|
        ensures key(ws[i]) == Some((g, s)) <==> MeetsIn(es, ws[i], g, s)
      {
        MeetsInMeans(es, ws[i], g, s);
      }
    }
  }

  lemma GroupCountsMean(es: seq<Expectation>, ws: seq<Written>)
    ensures Count(IsSampledOut(es), GroupsOf(es)) == |SampledOutGroups(es)|
    ensures Count(IsRepeated(es, ById(es), ws), GroupsOf(es)) == |RepeatedGroups(es, ws)|
  {
    hide GroupsOf, SubjectsOf, AllGroups, RepeatedEverywhere, Repeated, ById, Count;
    GroupsAreAll(es);
    GroupsAre(es);
    forall g
      ensures g in AllGroups(es) <==> g in GroupsOf(es)
      ensures IsRepeated(es, ById(es), ws)(g) <==> RepeatedEverywhere(es, ws, g)
    {
      assert g in (set x | x in GroupsOf(es)) <==> g in GroupsOf(es);
      RepeatedMeans(es, ws, g);
    }
    CountDistinctIsSize(IsSampledOut(es), GroupsOf(es), SampledOutGroups(es));
    CountDistinctIsSize(IsRepeated(es, ById(es), ws), GroupsOf(es), RepeatedGroups(es, ws));
  }

  /** The drops of a group: as many of the planned ones as there are copies that did not reach its
      first subject, the one that was meant to apart. */
  lemma GroupDropsMean(es: seq<Expectation>, ws: seq<Written>, g: Group)
    requires SubjectsOf(es, g) != []
    ensures var ids := set i: nat, k: nat | i < |ws| && k < |es| && Meets(es, k, ws[i]) && es[k].group == g
                         && ws[i].subject == SubjectsOf(es, g)[0] :: es[k].id;
            var size, planned := Count(InGroup(g), es), Count(PlannedIn(g), es);
            var drops := DroppedOf(es, ById(es), ws, g);
            && drops <= planned
            && (drops > 0 ==> drops + |ids| <= size && drops + 1 <= size)
            && (drops == planned || drops + |ids| >= size || drops + 1 >= size)
  {
    hide Meets, Matched, ById, Keys, Count, SubjectsOf;
    var index, pair := ById(es), (g, SubjectsOf(es, g)[0]);
    var ids := set i: nat, k: nat | i < |ws| && k < |es| && Meets(es, k, ws[i]) && es[k].group == g
                 && ws[i].subject == SubjectsOf(es, g)[0] :: es[k].id;
    forall id: nat
      ensures id in IdsAt(index, pair, ws) <==> id in ids
    {
      KeysAre(IdKey(index, pair), ws, id);
      if id in IdsAt(index, pair, ws) {
        var i :| 0 <= i < |ws| && IdKey(index, pair)(ws[i]) == Some(id);
        MatchedMeans(es, ws[i]);
        var k: nat :| k < |es| && Meets(es, k, ws[i]) && Matched(index, ws[i]) == Some(es[k]);
      }
      if id in ids {
        var i: nat, k: nat :| i < |ws| && k < |es| && Meets(es, k, ws[i]) && es[k].group == g
          && ws[i].subject == SubjectsOf(es, g)[0] && es[k].id == id;
        MatchedMeans(es, ws[i]);
        assert IdKey(index, pair)(ws[i]) == Some(id);
      }
    }
    assert IdsAt(index, pair, ws) == ids;
  }

  // ----- expected and missing -----

  lemma PairsNamed(es: seq<Expectation>)
    requires Agree(es)
    ensures Covered(es, NamedPairs(es), GroupsOf(es)) == NamedPairs(es)
    ensures Sum(MissingCount(es, NamedPairs(es)), GroupsOf(es)) == 0
  {
    hide SubjectsOf, GroupsOf, Count;
    GroupsAre(es);
    var pairs := NamedPairs(es);
    forall p | p in pairs
      ensures p.0 in GroupsOf(es) && p.1 in SubjectsOf(es, p.0)
    {
      var k: nat, s :| k < |es| && s in es[k].subjects && p == (es[k].group, s);
      SubjectsAgree(es, k);
    }
    SumZero(MissingCount(es, pairs), GroupsOf(es));
    forall g | g in GroupsOf(es)
      ensures MissingCount(es, pairs)(g) == 0
    {
      var k :| 0 <= k < |es| && es[k].group == g;
      SubjectsAgree(es, k);
      CountZero(Unreached(pairs, g), SubjectsOf(es, g));
      assert forall s :: s in es[k].subjects ==> (es[k].group, s) in pairs;
    }
  }

  lemma ExpectedMeans(es: seq<Expectation>, ws: seq<Written>)
    requires Agree(es)
    ensures Sum(SubjectCount(es), GroupsOf(es)) == |NamedPairs(es)|
    ensures ReachedPairs(es, ws) <= NamedPairs(es)
    ensures Sum(MissingCount(es, Keys(PairKey(ById(es)), ws)), GroupsOf(es)) == |NamedPairs(es) - ReachedPairs(es, ws)|
  {
    hide SubjectsOf, GroupsOf, Count, ById, Keys, Covered;
    GroupsAre(es);
    forall g | g in GroupsOf(es)
      ensures NoRepeats(SubjectsOf(es, g))
    {
      var k :| 0 <= k < |es| && es[k].group == g;
      SubjectsAgree(es, k);
    }
    PairsNamed(es);
    ExpectedLessMissing(es, NamedPairs(es), GroupsOf(es));
    PairsMean(es, ws);
    PairsAreCovered(es, ws);
    ExpectedLessMissing(es, ReachedPairs(es, ws), GroupsOf(es));
    ReachedAreNamed(es, ws);
    SizeOfRest(NamedPairs(es), ReachedPairs(es, ws));
  }

  lemma ReachedAreNamed(es: seq<Expectation>, ws: seq<Written>)
    ensures ReachedPairs(es, ws) <= NamedPairs(es)
  {
  }

  lemma SizeOfRest<T>(all: set<T>, some: set<T>)
    requires some <= all
    ensures |all - some| == |all| - |some|
  {
    assert all == (all - some) + some;
  }

  /** Every number of a verdict but the two of planned duplicates, for any expectations and messages:
      what was received, reached, missing, unexpected, dead-lettered, extra, mismatched, sampled out
      and repeated on every subject. */
  lemma JudgementMeans(es: seq<Expectation>, ws: seq<Written>, dead: seq<DeadLetter>, checks: Checks)
    ensures var r := Judgement(es, ws, dead, checks);
            && r.published == |es|
            && r.received == |ReceivedPairs(es, ws)|
            && r.unexpected == |Unmet(es, ws)| + |Unpublished(es, dead)|
            && r.deadLettered == |Published(es, dead)|
            && r.extraCopies == |Met(es, ws)| - |ReachedPairs(es, ws)|
            && r.editMismatch == |Failing(ById(es), checks.edit, ws)|
            && r.luaMismatch == |Failing(ById(es), checks.lua, ws)|
            && r.sampledOut == |SampledOutGroups(es)|
            && r.repeatedOnEverySubject == |RepeatedGroups(es, ws)|
            && (Agree(es) ==>
                  && r.expected == |NamedPairs(es)|
                  && r.missing == |NamedPairs(es) - ReachedPairs(es, ws)|
                  && r.Reached() == |ReachedPairs(es, ws)|)
  {
    hide SubjectsOf, GroupsOf, Count, ById, Keys, Mismatches, KeepsOffMain, RepeatedEverywhere, Agree, Sum;
    var index := ById(es);
    FlowsMean(es, ws);
    PairsAtMostMatched(index, ws);
    MismatchesAreFirst(index, checks.edit, ws);
    MismatchesAreFirst(index, checks.lua, ws);
    GroupCountsMean(es, ws);
    DeadMean(es, dead);
    if Agree(es) {
      ExpectedMeans(es, ws);
      SizeOfRest(NamedPairs(es), ReachedPairs(es, ws));
    }
  }

  lemma DeadMean(es: seq<Expectation>, dead: seq<DeadLetter>)
    ensures Count(IsKnown(ById(es)), dead) == |Published(es, dead)|
    ensures Count(IsUnknown(ById(es)), dead) == |Unpublished(es, dead)|
  {
    hide Names, Known, ById, Count;
    var index := ById(es);
    forall d: DeadLetter
      ensures Known(index, d).Some? <==> IsPublished(es, d)
    {
      KnownMeans(es, d);
    }
    CountIsSize(IsKnown(index), dead);
    CountIsSize(IsUnknown(index), dead);
    assert Places(IsKnown(index), dead) == Published(es, dead);
    assert Places(IsUnknown(index), dead) == Unpublished(es, dead);
  }
}
