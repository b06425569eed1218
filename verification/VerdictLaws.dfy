/** What the verdict's numbers add up to, and what they do not depend on: every message written
    or dead-lettered is counted in exactly one place, the order in which the sinks wrote matters
    to no count but the comparisons of first copies, and judging early differs from judging
    late by the messages that still wait for an expectation. */
module VerdictLaws {
  import opened Wrappers
  import opened Tallies
  import opened Verdict

  // ----- every message is accounted for -----

  /** Expectations of one group name the same subjects, none twice. */
  ghost predicate Agree(es: seq<Expectation>) {
    && (forall j, k :: 0 <= j < |es| && 0 <= k < |es| && es[j].group == es[k].group ==>
      es[j].subjects == es[k].subjects)
    && (forall k :: 0 <= k < |es| ==> NoRepeats(es[k].subjects))
  }

  predicate NoRepeats(subjects: seq<string>) {
    forall a, b :: 0 <= a < b < |subjects| ==> subjects[a] != subjects[b]
  }

  lemma {:induction false} SubjectsAgree(es: seq<Expectation>, k: nat)
    requires Agree(es) && k < |es|
    ensures SubjectsOf(es, es[k].group) == es[k].subjects
  {
    var g := es[k].group;
    var before := Init(es);
    assert k < |before| ==> before[k] == es[k];
    GroupsAre(before);
    if g in GroupsOf(before) {
      var j :| 0 <= j < |before| && before[j].group == g;
      SubjectsAgree(before, j);
      assert before[j] == es[j];
    }
  }

  /** The pairs of one group that were reached. */
  function ReachedOf(pairs: set<(Group, string)>, g: Group, subjects: seq<string>): set<(Group, string)> {
    set p | p in pairs && p.0 == g && p.1 in subjects
  }

  lemma {:induction false} ReachedSubjects(pairs: set<(Group, string)>, g: Group, subjects: seq<string>)
    requires NoRepeats(subjects)
    ensures |subjects| - Count(Unreached(pairs, g), subjects) == |ReachedOf(pairs, g, subjects)|
  {
    if subjects == [] {
      assert ReachedOf(pairs, g, subjects) == {};
    } else {
      var before, s := Init(subjects), Last(subjects);
      ReachedSubjects(pairs, g, before);
      assert subjects == before + [s];
      if (g, s) in pairs {
        assert ReachedOf(pairs, g, subjects) == ReachedOf(pairs, g, before) + {(g, s)};
      } else {
        assert ReachedOf(pairs, g, subjects) == ReachedOf(pairs, g, before);
      }
    }
  }

  function Covered(es: seq<Expectation>, pairs: set<(Group, string)>, groups: seq<Group>): set<(Group, string)> {
    set p | p in pairs && p.0 in groups && p.1 in SubjectsOf(es, p.0)
  }

  lemma {:induction false} ExpectedLessMissing(es: seq<Expectation>, pairs: set<(Group, string)>, groups: seq<Group>)
    requires forall a, b :: 0 <= a < b < |groups| ==> groups[a] != groups[b]
    requires forall g :: g in groups ==> NoRepeats(SubjectsOf(es, g))
    ensures Sum(SubjectCount(es), groups) - Sum(MissingCount(es, pairs), groups) == |Covered(es, pairs, groups)|
  {
    hide SubjectsOf, Count;
    if groups == [] {
      assert Covered(es, pairs, groups) == {};
    } else {
      var before, g := Init(groups), Last(groups);
      assert groups == before + [g];
      assert g !in before;
      ExpectedLessMissing(es, pairs, before);
      ReachedSubjects(pairs, g, SubjectsOf(es, g));
      var mine := ReachedOf(pairs, g, SubjectsOf(es, g));
      assert Covered(es, pairs, groups) == Covered(es, pairs, before) + mine;
      assert Covered(es, pairs, before) !! mine;
    }
  }

  lemma PairsAreCovered(es: seq<Expectation>, ws: seq<Written>)
    requires Agree(es)
    ensures var pairs := Keys(PairKey(ById(es)), ws); Covered(es, pairs, GroupsOf(es)) == pairs
  {
    var index := ById(es);
    var pairs := Keys(PairKey(index), ws);
    forall p | p in pairs ensures p.0 in GroupsOf(es) && p.1 in SubjectsOf(es, p.0) {
      KeysAre(PairKey(index), ws, p);
      var i :| 0 <= i < |ws| && PairKey(index)(ws[i]) == Some(p);
      var e := Matched(index, ws[i]).value;
      var k :| 0 <= k < |es| && es[k] == e;
      GroupsAre(es);
      SubjectsAgree(es, k);
    }
  }

  lemma {:induction false} PairsAtMostMatched(index: Index, ws: seq<Written>)
    ensures |Keys(PairKey(index), ws)| <= Count(IsMatched(index), ws)
  {
    if ws != [] {
      PairsAtMostMatched(index, Init(ws));
    }
  }

  /** The (group, subject) pairs reached are those of the messages that meet an expectation. */
  lemma ReachedIsPairs(es: seq<Expectation>, ws: seq<Written>, dead: seq<DeadLetter>, checks: Checks)
    requires Agree(es)
    ensures var r := Judgement(es, ws, dead, checks);
      r.missing <= r.expected && r.Reached() == |Keys(PairKey(ById(es)), ws)|
  {
    var pairs := Keys(PairKey(ById(es)), ws);
    GroupsAre(es);
    forall g | g in GroupsOf(es) ensures NoRepeats(SubjectsOf(es, g)) {
      var k :| 0 <= k < |es| && es[k].group == g;
      SubjectsAgree(es, k);
    }
    ExpectedLessMissing(es, pairs, GroupsOf(es));
    PairsAreCovered(es, ws);
  }

  /** Each message written and each dead letter is a pair reached, an extra copy, unexpected or
      a published message dead-lettered. */
  lemma EveryMessageIsAccountedFor(es: seq<Expectation>, ws: seq<Written>, dead: seq<DeadLetter>, checks: Checks)
    requires Agree(es)
    ensures var r := Judgement(es, ws, dead, checks);
      |ws| + |dead| == r.Reached() + r.extraCopies + r.unexpected + r.deadLettered
  {
    var index := ById(es);
    ReachedIsPairs(es, ws, dead, checks);
    PairsAtMostMatched(index, ws);
    CountComplement(IsMatched(index), IsStray(index), ws);
    CountComplement(IsKnown(index), IsUnknown(index), dead);
  }

  // ----- what a passing verdict says -----

  ghost predicate Arrived(index: Index, ws: seq<Written>, g: Group, s: string) {
    exists i :: 0 <= i < |ws| && PairKey(index)(ws[i]) == Some((g, s))
  }

  lemma NoneMissingIn(es: seq<Expectation>, ws: seq<Written>, g: Group)
    ensures MissingIn(es, Keys(PairKey(ById(es)), ws), g) == 0 <==>
      forall s :: s in SubjectsOf(es, g) ==> Arrived(ById(es), ws, g, s)
  {
    var pairs := Keys(PairKey(ById(es)), ws);
    CountZero(Unreached(pairs, g), SubjectsOf(es, g));
    forall s ensures Arrived(ById(es), ws, g, s) <==> (g, s) in pairs {
      KeysAre(PairKey(ById(es)), ws, (g, s));
    }
  }

  /** Nothing is missing exactly when some copy of every group reached each of its subjects. */
  lemma NothingMissing(es: seq<Expectation>, ws: seq<Written>, dead: seq<DeadLetter>, checks: Checks)
    ensures Judgement(es, ws, dead, checks).missing == 0 <==>
      forall g, s :: g in GroupsOf(es) && s in SubjectsOf(es, g) ==> Arrived(ById(es), ws, g, s)
  {
    SumZero(MissingCount(es, Keys(PairKey(ById(es)), ws)), GroupsOf(es));
    forall g | g in GroupsOf(es)
      ensures MissingCount(es, Keys(PairKey(ById(es)), ws))(g) == 0 <==>
        forall s :: s in SubjectsOf(es, g) ==> Arrived(ById(es), ws, g, s) {
      NoneMissingIn(es, ws, g);
    }
  }

  /** A copy of the group on the main subject. */
  ghost predicate IsMainCopy(index: Index, w: Written, g: Group) {
    w.subject == "processed.loghub.main" && Matched(index, w).Some? && Matched(index, w).value.group == g
  }

  /** Message `i` is the first copy of its group on the main subject. */
  ghost predicate FirstOnMain(index: Index, ws: seq<Written>, i: nat)
    requires i < |ws|
  {
    && Matched(index, ws[i]).Some?
    && IsMainCopy(index, ws[i], Matched(index, ws[i]).value.group)
    && forall j :: 0 <= j < i ==> !IsMainCopy(index, ws[j], Matched(index, ws[i]).value.group)
  }

  ghost predicate PassesCheck(index: Index, check: (Expectation, string) -> bool, w: Written) {
    Matched(index, w).Some? && check(Matched(index, w).value, w.attributes)
  }

  /** No comparison fails exactly when each group's first copy on the main subject passes the check. */
  lemma {:induction false} NoMismatch(index: Index, check: (Expectation, string) -> bool, ws: seq<Written>)
    ensures Mismatches(index, check, ws) == 0 <==>
      forall i :: 0 <= i < |ws| && FirstOnMain(index, ws, i) ==> PassesCheck(index, check, ws[i])
  {
    if ws != [] {
      var before := Init(ws);
      NoMismatch(index, check, before);
      forall i | 0 <= i < |before|
        ensures FirstOnMain(index, ws, i) <==> FirstOnMain(index, before, i)
      {
      }
      LastOnMain(index, ws);
      assert forall i :: 0 <= i < |ws| ==> i < |before| || ws[i] == Last(ws);
    }
  }

  lemma LastOnMain(index: Index, ws: seq<Written>)
    requires ws != []
    ensures FirstOnMain(index, ws, |ws| - 1) <==>
      MainKey(index)(Last(ws)).Some? && MainKey(index)(Last(ws)).value !in Keys(MainKey(index), Init(ws))
  {
    if MainKey(index)(Last(ws)).Some? {
      KeysAre(MainKey(index), Init(ws), MainKey(index)(Last(ws)).value);
    }
  }

  /** Every message was expected, and every first copy on the main subject carries what `edit` and
      `lua` write. */
  ghost predicate AsExpected(index: Index, ws: seq<Written>, checks: Checks) {
    && (forall i :: 0 <= i < |ws| ==> Matched(index, ws[i]).Some?)
    && (forall i :: 0 <= i < |ws| && FirstOnMain(index, ws, i) ==>
          PassesCheck(index, checks.edit, ws[i]) && PassesCheck(index, checks.lua, ws[i]))
  }

  /** At least the required share of the planned duplicates was dropped, group by group. */
  ghost predicate EnoughDropped(es: seq<Expectation>, ws: seq<Written>) {
    Sum(DroppedCount(es, ById(es), ws), GroupsOf(es)) * 100 >=
      Sum(PlannedCount(es), GroupsOf(es)) * 80
  }

  /** A run passes exactly when it lost nothing, wrote only what was expected and as expected, has
      no dead letter, and dropped enough of the planned duplicates. */
  lemma PassedMeans(es: seq<Expectation>, ws: seq<Written>, dead: seq<DeadLetter>, checks: Checks)
    ensures Judgement(es, ws, dead, checks).Passed() <==>
      && dead == []
      && (forall g, s :: g in GroupsOf(es) && s in SubjectsOf(es, g) ==> Arrived(ById(es), ws, g, s))
      && AsExpected(ById(es), ws, checks)
      && EnoughDropped(es, ws)
  {
    var index := ById(es);
    NothingMissing(es, ws, dead, checks);
    CountZero(IsStray(index), ws);
    CountComplement(IsKnown(index), IsUnknown(index), dead);
    NoMismatch(index, checks.edit, ws);
    NoMismatch(index, checks.lua, ws);
    AllExpected(index, ws);
    PassedIsParts(es, ws, dead, checks);
  }

  lemma AllExpected(index: Index, ws: seq<Written>)
    ensures (forall w :: w in ws ==> !IsStray(index)(w)) <==> forall i :: 0 <= i < |ws| ==> Matched(index, ws[i]).Some?
  {
    if forall w :: w in ws ==> !IsStray(index)(w) {
      forall i | 0 <= i < |ws|
        ensures Matched(index, ws[i]).Some?
      {
        assert !IsStray(index)(ws[i]);
      }
    }
  }

  lemma PassedIsParts(es: seq<Expectation>, ws: seq<Written>, dead: seq<DeadLetter>, checks: Checks)
    ensures var index := ById(es);
      Judgement(es, ws, dead, checks).Passed() <==>
        && Judgement(es, ws, dead, checks).missing == 0
        && Count(IsStray(index), ws) == 0 && Count(IsUnknown(index), dead) == 0 && Count(IsKnown(index), dead) == 0
        && Mismatches(index, checks.edit, ws) == 0 && Mismatches(index, checks.lua, ws) == 0
        && EnoughDropped(es, ws)
  {
  }

  /** No more duplicates are dropped than were planned. */
  lemma DropsWithinPlan(es: seq<Expectation>, ws: seq<Written>, dead: seq<DeadLetter>, checks: Checks)
    ensures var r := Judgement(es, ws, dead, checks); r.duplicatesDropped <= r.duplicatesPlanned
  {
    SumAtMost(DroppedCount(es, ById(es), ws), PlannedCount(es), GroupsOf(es));
  }

  // ----- order -----

  /** A report without its comparisons of first copies. */
  function Counts(r: Report): Report {
    r.(editMismatch := 0, luaMismatch := 0)
  }

  lemma SumsPermuted(es: seq<Expectation>, index: Index, ws: seq<Written>, other: seq<Written>, groups: seq<Group>)
    requires multiset(ws) == multiset(other)
    ensures SumsOf(es, index, ws, groups) == SumsOf(es, index, other, groups)
  {
    KeysPermuted(PairKey(index), ws, other);
    forall g ensures Repeated(es, index, ws, g) == Repeated(es, index, other, g) {
      forall s ensures CountKey(PairKey(index), (g, s), ws) == CountKey(PairKey(index), (g, s), other) {
        CountKeyPermuted(PairKey(index), (g, s), ws, other);
      }
    }
    forall g ensures DroppedOf(es, index, ws, g) == DroppedOf(es, index, other, g) {
      if SubjectsOf(es, g) != [] {
        KeysPermuted(IdKey(index, (g, SubjectsOf(es, g)[0])), ws, other);
      }
    }
    CountSame(IsRepeated(es, index, ws), IsRepeated(es, index, other), groups);
    SumSame(DroppedCount(es, index, ws), DroppedCount(es, index, other), groups);
  }

  /** Every count but the two comparisons is the same in whatever order the messages come. */
  lemma OrderDoesNotMatter(
    es: seq<Expectation>, ws: seq<Written>, other: seq<Written>, dead: seq<DeadLetter>, otherDead: seq<DeadLetter>,
      checks: Checks)
    requires multiset(ws) == multiset(other) && multiset(dead) == multiset(otherDead)
    ensures Counts(Judgement(es, ws, dead, checks)) == Counts(Judgement(es, other, otherDead, checks))
  {
    var index := ById(es);
    SumsPermuted(es, index, ws, other, GroupsOf(es));
    KeysPermuted(PairKey(index), ws, other);
    KeysPermuted(CopyKey(index), ws, other);
    CountPermuted(IsMatched(index), ws, other);
    CountPermuted(IsStray(index), ws, other);
    CountPermuted(IsKnown(index), dead, otherDead);
    CountPermuted(IsUnknown(index), dead, otherDead);
  }

  /** The comparisons do depend on it: of two copies of one group the first is compared. */
  lemma FirstCopyDecides(index: Index, good: Written, bad: Written, check: (Expectation, string) -> bool)
    requires Matched(index, good).Some? && Matched(index, bad).Some? && good.subject == MAIN && bad.subject == MAIN
    requires Matched(index, good).value.group == Matched(index, bad).value.group
    requires check(Matched(index, good).value, good.attributes) && !check(Matched(index, bad).value, bad.attributes)
    ensures Mismatches(index, check, [good, bad]) == 0 && Mismatches(index, check, [bad, good]) == 1
  {
    assert Init([good, bad]) == [good] && Init([bad, good]) == [bad] && Init([good]) == [] && Init([bad]) == [];
    assert Last([good, bad]) == bad && Last([bad, good]) == good && Last([good]) == good && Last([bad]) == bad;
    assert Keys(MainKey(index), []) == {};
    assert Keys(MainKey(index), [good]) == Keys(MainKey(index), [bad]) == {Matched(index, good).value.group};
    assert Mismatches(index, check, []) == 0;
    assert Mismatches(index, check, [good]) == 0 && Mismatches(index, check, [bad]) == 1;
  }

  // ----- judging a run still going on -----

  lemma {:induction false} MismatchesFiltered(index: Index, check: (Expectation, string) -> bool,
      keep: Written -> bool, ws: seq<Written>)
    requires forall w :: w in ws && !keep(w) ==> Matched(index, w).None?
    ensures Mismatches(index, check, ws) == Mismatches(index, check, Filter(keep, ws))
  {
    if ws != [] {
      MismatchesFiltered(index, check, keep, Init(ws));
      KeysFiltered(MainKey(index), keep, Init(ws));
      FilterStep(keep, ws);
    }
  }

  lemma SumsFiltered(es: seq<Expectation>, index: Index, keep: Written -> bool, ws: seq<Written>, groups: seq<Group>)
    requires forall w :: w in ws && !keep(w) ==> Matched(index, w).None?
    ensures SumsOf(es, index, ws, groups) == SumsOf(es, index, Filter(keep, ws), groups)
  {
    var kept := Filter(keep, ws);
    KeysFiltered(PairKey(index), keep, ws);
    forall g ensures Repeated(es, index, ws, g) == Repeated(es, index, kept, g) {
      forall s ensures CountKey(PairKey(index), (g, s), ws) == CountKey(PairKey(index), (g, s), kept) {
        CountKeyFiltered(PairKey(index), (g, s), keep, ws);
      }
    }
    forall g ensures DroppedOf(es, index, ws, g) == DroppedOf(es, index, kept, g) {
      if SubjectsOf(es, g) != [] {
        KeysFiltered(IdKey(index, (g, SubjectsOf(es, g)[0])), keep, ws);
      }
    }
    CountSame(IsRepeated(es, index, ws), IsRepeated(es, index, kept), groups);
    SumSame(DroppedCount(es, index, ws), DroppedCount(es, index, kept), groups);
  }

  lemma FlowsFiltered(index: Index, checks: Checks, keep: Written -> bool, ws: seq<Written>)
    requires forall w :: w in ws && !keep(w) ==> Matched(index, w).None?
    ensures |Filter(keep, ws)| <= |ws|
    ensures var kept := FlowsOf(index, Filter(keep, ws), checks);
      FlowsOf(index, ws, checks) == kept.(stray := kept.stray + |ws| - |Filter(keep, ws)|)
  {
    hide Matched, Count, Keys, Filter, Mismatches;
    KeysFiltered(PairKey(index), keep, ws);
    KeysFiltered(CopyKey(index), keep, ws);
    MismatchesFiltered(index, checks.edit, keep, ws);
    MismatchesFiltered(index, checks.lua, keep, ws);
    CountFiltered(IsMatched(index), keep, ws);
    CountFiltered(IsStray(index), keep, ws);
  }

  lemma DeadFiltered(index: Index, dead: seq<DeadLetter>)
    ensures var kept := Filter(Settled(index), dead);
      && |kept| <= |dead|
      && Count(IsKnown(index), dead) == Count(IsKnown(index), kept)
      && Count(IsUnknown(index), dead) == Count(IsUnknown(index), kept) + |dead| - |kept|
  {
    CountFiltered(IsKnown(index), Settled(index), dead);
    CountFiltered(IsUnknown(index), Settled(index), dead);
  }

  /** Messages and dead letters whose expectation has not been written yet. */
  function Waiting(es: seq<Expectation>, ws: seq<Written>, dead: seq<DeadLetter>): int {
    var settled := Settled(ById(es));
    |ws| - |Filter(CountedWritten(settled), ws)| + |dead| - |Filter(settled, dead)|
  }

  /** What is waiting shows in the full judgement as unexpected, and nowhere else. */
  lemma SoFarDiffersByWaiting(es: seq<Expectation>, ws: seq<Written>, dead: seq<DeadLetter>, checks: Checks)
    ensures var settled := Settled(ById(es));
      var soFar := Judgement(es, Filter(CountedWritten(settled), ws), Filter(settled, dead), checks);
      && Waiting(es, ws, dead) >= 0
      && Judgement(es, ws, dead, checks) == soFar.(unexpected := soFar.unexpected + Waiting(es, ws, dead))
  {
    var index := ById(es);
    var keep := CountedWritten(Settled(index));
    SumsFiltered(es, index, keep, ws, GroupsOf(es));
    FlowsFiltered(index, checks, keep, ws);
    DeadFiltered(index, dead);
  }

  /** Once every readable id is published, the judgement so far is the judgement. */
  lemma CaughtUp(es: seq<Expectation>, ws: seq<Written>, dead: seq<DeadLetter>, checks: Checks)
    requires forall w :: w in ws ==> Settled(ById(es))(w.recordId)
    requires forall d :: d in dead ==> Settled(ById(es))(d)
    ensures var settled := Settled(ById(es));
      Judgement(es, Filter(CountedWritten(settled), ws), Filter(settled, dead), checks) ==
        Judgement(es, ws, dead, checks)
  {
    var settled := Settled(ById(es));
    FilterAll(CountedWritten(settled), ws);
    FilterAll(settled, dead);
  }
}
