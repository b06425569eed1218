/** Rule 2 of the ReDoS lint, overlapping alternation under repetition, and what a clean
    answer guarantees (crates/regex/src/lint.rs). */
module Lint {
  import opened Wrappers
  import opened RegexAst

  /** A counted repetition is written out this many times at most. */
  const MAX_UNROLL: nat := 32

  /** How every word of an expression begins: the class of its first character, of its second, and
      so on. `exact` says that the word also ends there. */
  datatype Shape = Shape(prefix: seq<Class>, exact: bool)

  // ----- the lint's abstractions -----

  predicate Nullable(a: Ast) {
    match a
    case Empty | Flags | Assertion => true
    case Leaf(_, _) => false
    case Group(body) => Nullable(body)
    case Alternation(branches) => exists x :: x in branches && Nullable(x)
    case Concat(items) => forall x :: x in items ==> Nullable(x)
    case Repetition(kind, body) => MinOf(kind) == 0 || Nullable(body)
  }

  /** Characters that can start a match. */
  function FirstSet(a: Ast): Class
    decreases a, 1
  {
    match a
    case Empty | Flags | Assertion => {}
    case Leaf(translated, _) => if translated == [] then {} else translated[0]
    case Group(body) => FirstSet(body)
    case Repetition(_, body) => FirstSet(body)
    case Alternation(branches) => FirstOfAny(branches)
    case Concat(items) => FirstOfAll(items)
  }

  function FirstOfAny(branches: seq<Ast>): Class
    decreases branches, 0
  {
    if branches == [] then {} else FirstSet(branches[0]) + FirstOfAny(branches[1..])
  }

  function FirstOfAll(items: seq<Ast>): Class
    decreases items, 0
  {
    if items == [] then {}
    else if Nullable(items[0]) then FirstSet(items[0]) + FirstOfAll(items[1..])
    else FirstSet(items[0])
  }

  function ShapeOf(a: Ast): Shape
    decreases a, 1
  {
    match a
    case Empty | Flags | Assertion => Shape([], true)
    case Leaf(translated, _) => Shape(translated, true)
    case Group(body) => ShapeOf(body)
    case Concat(items) => ShapeOfAll(items)
    case Alternation(_) => Shape([], false)
    case Repetition(kind, body) => RepeatedShape(ShapeOf(body), MinOf(kind), MaxOf(kind))
  }

  function RepeatedShape(inner: Shape, min: nat, max: Option<nat>): Shape {
    var unrolled := Repeated(inner, if min < MAX_UNROLL then min else MAX_UNROLL);
    Shape(unrolled.prefix, unrolled.exact && max == Some(min) && min <= MAX_UNROLL)
  }

  function ShapeOfAll(items: seq<Ast>): Shape
    decreases items, 0
  {
    if items == [] then Shape([], true)
    else
      var part := ShapeOf(items[0]);
      if part.exact then Then(part, ShapeOfAll(items[1..])) else part
  }

  function Then(part: Shape, rest: Shape): Shape {
    Shape(part.prefix + rest.prefix, rest.exact)
  }

  function Repeated(inner: Shape, n: nat): Shape {
    if n == 0 then Shape([], true)
    else if inner.exact then Then(inner, Repeated(inner, n - 1))
    else inner
  }

  /** Text of branch `a` can also be text of branch `b` followed by a restart of the loop. */
  predicate BranchesOverlap(a: Shape, b: Shape, restart: Class) {
    var n := if |a.prefix| < |b.prefix| then |a.prefix| else |b.prefix|;
    if exists i :: 0 <= i < n && a.prefix[i] !! b.prefix[i] then false
    else if !a.exact then true
    else if |a.prefix| > |b.prefix| then !b.exact
    else if |a.prefix| < |b.prefix| then !(b.prefix[|a.prefix|] !! restart)
    else true
  }

  predicate PairOverlaps(branches: seq<Ast>, i: nat, j: nat)
    requires i < |branches| && j < |branches|
  {
    var a, b, restart := ShapeOf(branches[i]), ShapeOf(branches[j]), FirstOfAny(branches);
    BranchesOverlap(a, b, restart) || BranchesOverlap(b, a, restart)
  }

  predicate AlternationOverlaps(branches: seq<Ast>) {
    exists i, j :: 0 <= i < j < |branches| && PairOverlaps(branches, i, j)
  }

  // ----- the same, by the lint's own loops -----

  method ComputeFirstSet(a: Ast) returns (first: Class)
    ensures first == FirstSet(a)
    decreases a, 1
  {
    match a
    case Empty => first := {};
    case Flags => first := {};
    case Assertion => first := {};
    case Leaf(translated, _) => first := if translated == [] then {} else translated[0];
    case Group(body) => first := ComputeFirstSet(body);
    case Repetition(_, body) => first := ComputeFirstSet(body);
    case Alternation(branches) => first := ComputeFirstOfAny(branches);
    case Concat(items) =>
      first := {};
      var k := 0;
      while k < |items|
        invariant 0 <= k <= |items|
        invariant first + FirstOfAll(items[k..]) == FirstOfAll(items)
      {
        var next := ComputeFirstSet(items[k]);
        assert items[k..][1..] == items[k + 1..];
        first := first + next;
        if !Nullable(items[k]) {
          break;
        }
        k := k + 1;
      }
  }

  method ComputeFirstOfAny(branches: seq<Ast>) returns (first: Class)
    ensures first == FirstOfAny(branches)
    decreases branches, 0
  {
    first := {};
    for k := 0 to |branches|
      invariant first + FirstOfAny(branches[k..]) == FirstOfAny(branches)
    {
      var next := ComputeFirstSet(branches[k]);
      assert branches[k..][1..] == branches[k + 1..];
      first := first + next;
    }
  }

  method ComputeShape(a: Ast) returns (shape: Shape)
    ensures shape == ShapeOf(a)
    decreases a, 1
  {
    match a
    case Empty => shape := Shape([], true);
    case Flags => shape := Shape([], true);
    case Assertion => shape := Shape([], true);
    case Leaf(translated, _) => shape := Shape(translated, true);
    case Group(body) => shape := ComputeShape(body);
    case Alternation(_) => shape := Shape([], false);
    case Concat(items) => shape := ComputeShapeOfAll(items);
    case Repetition(kind, body) =>
      var inner := ComputeShape(body);
      shape := ComputeRepeated(inner, MinOf(kind), MaxOf(kind));
  }

  method ComputeShapeOfAll(items: seq<Ast>) returns (shape: Shape)
    ensures shape == ShapeOfAll(items)
    decreases items, 0
  {
    shape := Shape([], true);
    for k := 0 to |items|
      invariant shape.exact
      invariant Then(shape, ShapeOfAll(items[k..])) == ShapeOfAll(items)
    {
      var part := ComputeShape(items[k]);
      assert items[k..][1..] == items[k + 1..];
      shape := Shape(shape.prefix + part.prefix, part.exact);
      if !part.exact {
        return;
      }
    }
  }

  method ComputeRepeated(inner: Shape, min: nat, max: Option<nat>) returns (shape: Shape)
    ensures shape == RepeatedShape(inner, min, max)
  {
    var reps := if min < MAX_UNROLL then min else MAX_UNROLL;
    shape := Shape([], true);
    for k := 0 to reps
      invariant shape.exact
      invariant Then(shape, Repeated(inner, reps - k)) == Repeated(inner, reps)
    {
      assert inner.exact ==>
        Then(shape, Then(inner, Repeated(inner, reps - k - 1))) ==
        Then(Then(shape, inner), Repeated(inner, reps - k - 1));
      shape := Shape(shape.prefix + inner.prefix, inner.exact);
      if !inner.exact {
        return;
      }
    }
    if max != Some(min) || min > MAX_UNROLL {
      shape := Shape(shape.prefix, false);
    }
  }

  method ComputeAlternationOverlaps(branches: seq<Ast>) returns (overlaps: bool)
    ensures overlaps == AlternationOverlaps(branches)
  {
    var restart := ComputeFirstOfAny(branches);
    var shapes: seq<Shape> := [];
    for k := 0 to |branches|
      invariant |shapes| == k
      invariant forall i :: 0 <= i < k ==> shapes[i] == ShapeOf(branches[i])
    {
      var shape := ComputeShape(branches[k]);
      shapes := shapes + [shape];
    }
    for i := 0 to |shapes|
      invariant forall p, q :: 0 <= p < i && p < q < |branches| ==> !PairOverlaps(branches, p, q)
    {
      for j := i + 1 to |shapes|
        invariant forall p, q :: 0 <= p < i && p < q < |branches| ==> !PairOverlaps(branches, p, q)
        invariant forall q :: i < q < j ==> !PairOverlaps(branches, i, q)
      {
        if BranchesOverlap(shapes[i], shapes[j], restart) || BranchesOverlap(shapes[j], shapes[i], restart) {
          assert PairOverlaps(branches, i, j);
          return true;
        }
      }
    }
    return false;
  }

  // ----- what the abstractions say about words -----

  /** The lint's `nullable` is exact: it holds just when the empty word matches. */
  lemma {:induction false} NullableIsExact(a: Ast)
    requires Covered(a)
    ensures Nullable(a) <==> Matches(a, "")
    decreases a, 1
  {
    match a
    case Empty | Flags | Assertion =>
    case Leaf(_, _) =>
    case Group(body) => NullableIsExact(body);
    case Concat(items) => NullableAll(items);
    case Alternation(branches) =>
      forall x | x in branches
        ensures Nullable(x) <==> Matches(x, "")
      {
        NullableIsExact(x);
      }
    case Repetition(kind, body) =>
      NullableIsExact(body);
      if MinOf(kind) == 0 {
        assert Allows(kind, 0) && MatchesTimes(body, 0, "");
      } else if Nullable(body) {
        EmptyTimes(body, MinOf(kind));
        assert Allows(kind, MinOf(kind));
      }
  }

  lemma {:induction false} NullableAll(items: seq<Ast>)
    requires forall x :: x in items ==> Covered(x)
    ensures (forall x :: x in items ==> Nullable(x)) <==> MatchesAll(items, "")
    decreases items, 0
  {
    if items != [] {
      NullableIsExact(items[0]);
      NullableAll(items[1..]);
      var w := "";
      assert w[..0] == w && w[0..] == w;
      assert forall x :: x in items <==> x == items[0] || x in items[1..];
    }
  }

  lemma {:induction false} EmptyTimes(a: Ast, n: nat)
    requires Matches(a, "")
    ensures MatchesTimes(a, n, "")
  {
    if n > 0 {
      EmptyTimes(a, n - 1);
      var w := "";
      assert w[..0] == w && w[0..] == w;
    }
  }

  /** Every word's first character is in the first set. */
  lemma {:induction false} FirstSetCovers(a: Ast, w: string)
    requires Covered(a) && Matches(a, w) && w != ""
    ensures w[0] in FirstSet(a)
    decreases a, 1, |w|
  {
    match a
    case Empty | Flags | Assertion =>
    case Leaf(_, _) =>
    case Group(body) => FirstSetCovers(body, w);
    case Concat(items) => FirstOfAllCovers(items, w);
    case Alternation(branches) =>
      var i :| 0 <= i < |branches| && Matches(branches[i], w);
      FirstSetCovers(branches[i], w);
      FirstOfAnyContains(branches, i);
    case Repetition(kind, body) =>
      var n: nat :| Allows(kind, n) && MatchesTimes(body, n, w);
      FirstOfTimes(body, n, w);
  }

  lemma {:induction false} FirstOfAllCovers(items: seq<Ast>, w: string)
    requires (forall x :: x in items ==> Covered(x)) && MatchesAll(items, w) && w != ""
    ensures w[0] in FirstOfAll(items)
    decreases items, 0, |w|
  {
    var i :| 0 <= i <= |w| && Matches(items[0], w[..i]) && MatchesAll(items[1..], w[i..]);
    if i == 0 {
      assert w[..0] == "" && w[0..] == w;
      NullableIsExact(items[0]);
      FirstOfAllCovers(items[1..], w);
    } else {
      FirstSetCovers(items[0], w[..i]);
    }
  }

  lemma {:induction false} FirstOfTimes(a: Ast, n: nat, w: string)
    requires Covered(a) && MatchesTimes(a, n, w) && w != ""
    ensures w[0] in FirstSet(a)
    decreases a, 2, n
  {
    var i :| 0 <= i <= |w| && Matches(a, w[..i]) && MatchesTimes(a, n - 1, w[i..]);
    if i == 0 {
      assert w[0..] == w;
      FirstOfTimes(a, n - 1, w);
    } else {
      FirstSetCovers(a, w[..i]);
    }
  }

  lemma {:induction false} FirstOfAnyContains(branches: seq<Ast>, i: nat)
    requires i < |branches|
    ensures FirstSet(branches[i]) <= FirstOfAny(branches)
  {
    if i > 0 {
      assert branches[1..][i - 1] == branches[i];
      FirstOfAnyContains(branches[1..], i - 1);
    }
  }

  /** `w` starts with one character of each class of the prefix, and is no longer when the
      shape is exact. */
  ghost predicate Abstracts(s: Shape, w: string) {
    && |s.prefix| <= |w|
    && (forall i :: 0 <= i < |s.prefix| ==> w[i] in s.prefix[i])
    && (s.exact ==> |w| == |s.prefix|)
  }

  lemma ThenAbstracts(part: Shape, rest: Shape, w: string, i: nat)
    requires part.exact && i <= |w| && Abstracts(part, w[..i]) && Abstracts(rest, w[i..])
    ensures Abstracts(Then(part, rest), w)
  {
    forall k | 0 <= k < |part.prefix| + |rest.prefix|
      ensures w[k] in (part.prefix + rest.prefix)[k]
    {
      if k < i {
        assert w[..i][k] == w[k];
      } else {
        assert w[i..][k - i] == w[k];
      }
    }
  }

  lemma PrefixAbstracts(part: Shape, w: string, i: nat)
    requires !part.exact && i <= |w| && Abstracts(part, w[..i])
    ensures Abstracts(part, w)
  {
    assert forall k :: 0 <= k < i ==> w[..i][k] == w[k];
  }

  /** Every word has its expression's shape. */
  lemma {:induction false} ShapeIsCorrect(a: Ast, w: string)
    requires Covered(a) && Matches(a, w)
    ensures Abstracts(ShapeOf(a), w)
    decreases a, 1
  {
    match a
    case Empty | Flags | Assertion =>
    case Leaf(_, _) =>
    case Group(body) => ShapeIsCorrect(body, w);
    case Alternation(_) =>
    case Concat(items) => ShapeOfAllIsCorrect(items, w);
    case Repetition(kind, body) =>
      var n: nat :| Allows(kind, n) && MatchesTimes(body, n, w);
      var reps := if MinOf(kind) < MAX_UNROLL then MinOf(kind) else MAX_UNROLL;
      RepeatedIsCorrect(body, reps, n, w);
  }

  lemma {:induction false} ShapeOfAllIsCorrect(items: seq<Ast>, w: string)
    requires (forall x :: x in items ==> Covered(x)) && MatchesAll(items, w)
    ensures Abstracts(ShapeOfAll(items), w)
    decreases items, 0
  {
    if items != [] {
      var i :| 0 <= i <= |w| && Matches(items[0], w[..i]) && MatchesAll(items[1..], w[i..]);
      ShapeIsCorrect(items[0], w[..i]);
      ShapeOfAllIsCorrect(items[1..], w[i..]);
      if ShapeOf(items[0]).exact {
        ThenAbstracts(ShapeOf(items[0]), ShapeOfAll(items[1..]), w, i);
      } else {
        PrefixAbstracts(ShapeOf(items[0]), w, i);
      }
    }
  }

  /** `reps` copies of a body's shape abstract any word of at least that many copies; the
      lengths agree when the counts do. */
  lemma {:induction false} RepeatedIsCorrect(a: Ast, reps: nat, n: nat, w: string)
    requires Covered(a) && MatchesTimes(a, n, w) && reps <= n
    ensures var s := Repeated(ShapeOf(a), reps); Abstracts(Shape(s.prefix, s.exact && reps == n), w)
    decreases a, 2, n
  {
    if reps > 0 {
      var i :| 0 <= i <= |w| && Matches(a, w[..i]) && MatchesTimes(a, n - 1, w[i..]);
      ShapeIsCorrect(a, w[..i]);
      RepeatedIsCorrect(a, reps - 1, n - 1, w[i..]);
      var part, rest := ShapeOf(a), Repeated(ShapeOf(a), reps - 1);
      if part.exact {
        ThenAbstracts(part, Shape(rest.prefix, rest.exact && reps == n), w, i);
      } else {
        PrefixAbstracts(part, w, i);
      }
    }
  }

  /** An exact shape is the whole language: every word of the shape matches. */
  lemma {:induction false} ExactShapeIsWhole(a: Ast, w: string)
    requires Untouched(a) && ShapeOf(a).exact && Abstracts(ShapeOf(a), w)
    ensures Matches(a, w)
    decreases a, 1
  {
    match a
    case Empty | Flags | Assertion =>
    case Leaf(_, _) =>
    case Group(body) => ExactShapeIsWhole(body, w);
    case Concat(items) => ExactAllIsWhole(items, w);
    case Repetition(kind, body) =>
      ExactTimesIsWhole(body, MinOf(kind), w);
      assert Allows(kind, MinOf(kind));
  }

  lemma {:induction false} ExactAllIsWhole(items: seq<Ast>, w: string)
    requires (forall x :: x in items ==> Untouched(x)) && ShapeOfAll(items).exact && Abstracts(ShapeOfAll(items), w)
    ensures MatchesAll(items, w)
    decreases items, 0
  {
    if items != [] {
      var i := |ShapeOf(items[0]).prefix|;
      SplitAbstracts(ShapeOf(items[0]), ShapeOfAll(items[1..]), w);
      ExactShapeIsWhole(items[0], w[..i]);
      ExactAllIsWhole(items[1..], w[i..]);
    }
  }

  lemma {:induction false} ExactTimesIsWhole(a: Ast, n: nat, w: string)
    requires Untouched(a) && Repeated(ShapeOf(a), n).exact && Abstracts(Repeated(ShapeOf(a), n), w)
    ensures MatchesTimes(a, n, w)
    decreases a, 2, n
  {
    if n > 0 {
      var i := |ShapeOf(a).prefix|;
      SplitAbstracts(ShapeOf(a), Repeated(ShapeOf(a), n - 1), w);
      ExactShapeIsWhole(a, w[..i]);
      ExactTimesIsWhole(a, n - 1, w[i..]);
    }
  }

  lemma SplitAbstracts(part: Shape, rest: Shape, w: string)
    requires part.exact && Abstracts(Then(part, rest), w)
    ensures |part.prefix| <= |w|
    ensures Abstracts(part, w[..|part.prefix|]) && Abstracts(rest, w[|part.prefix|..])
  {
    var both := Then(part, rest).prefix;
    assert forall k :: 0 <= k < |part.prefix| ==> both[k] == part.prefix[k];
    assert forall k :: 0 <= k < |rest.prefix| ==> both[|part.prefix| + k] == rest.prefix[k];
  }

  // ----- what an unflagged alternation guarantees -----

  /** One iteration of a repeated alternation: the branch taken and the text it matched. */
  datatype Part = Part(branch: nat, text: string)

  function Joined(f: seq<Part>): string {
    if f == [] then "" else f[0].text + Joined(f[1..])
  }

  /** `f` is a way to read `w` as iterations of the alternation. */
  ghost predicate Factors(branches: seq<Ast>, f: seq<Part>, w: string) {
    && Joined(f) == w
    && forall p :: p in f ==> p.branch < |branches| && Matches(branches[p.branch], p.text)
  }

  ghost predicate AllCovered(branches: seq<Ast>) {
    forall x :: x in branches ==> Covered(x)
  }

  /** Two different branches of an unflagged alternation do not overlap, either way round. */
  lemma NoOverlap(branches: seq<Ast>, i: nat, j: nat)
    requires !AlternationOverlaps(branches) && i < |branches| && j < |branches| && i != j
    ensures !BranchesOverlap(ShapeOf(branches[i]), ShapeOf(branches[j]), FirstOfAny(branches))
  {
    assert if i < j then !PairOverlaps(branches, i, j) else !PairOverlaps(branches, j, i);
  }

  /** Two shapes that do not overlap either way round are told apart by a position of their
      common prefix, or both are exact and what follows the shorter cannot restart the loop. */
  lemma Separated(a: Shape, b: Shape, restart: Class)
    requires !BranchesOverlap(a, b, restart) && !BranchesOverlap(b, a, restart)
    requires |a.prefix| >= |b.prefix|
    ensures (exists k :: 0 <= k < |b.prefix| && a.prefix[k] !! b.prefix[k]) ||
            (a.exact && b.exact && |a.prefix| > |b.prefix| && a.prefix[|b.prefix|] !! restart)
  {
  }

  /** No branch of an unflagged alternation matches the empty word. */
  lemma NoEmptyBranch(branches: seq<Ast>, i: nat, w: string)
    requires AllCovered(branches) && |branches| >= 2 && !AlternationOverlaps(branches) && i < |branches|
    requires Matches(branches[i], w)
    ensures w != ""
  {
    var j := if i == 0 then 1 else 0;
    var a, b := ShapeOf(branches[i]), ShapeOf(branches[j]);
    ShapeIsCorrect(branches[i], w);
    var v := Inhabited(branches[j]);
    ShapeIsCorrect(branches[j], v);
    if |b.prefix| > 0 {
      FirstSetCovers(branches[j], v);
      FirstOfAnyContains(branches, j);
      assert v[0] in b.prefix[0] && v[0] in FirstOfAny(branches);
    }
    NoOverlap(branches, i, j);
    NoOverlap(branches, j, i);
    if |a.prefix| < |b.prefix| {
      Separated(b, a, FirstOfAny(branches));
    } else {
      Separated(a, b, FirstOfAny(branches));
    }
  }

  /** Where the first part of `f` ends, a character of the restart set follows. */
  lemma NextStarts(branches: seq<Ast>, f: seq<Part>, w: string)
    requires AllCovered(branches) && |branches| >= 2 && !AlternationOverlaps(branches)
    requires Factors(branches, f, w) && f != [] && |f[0].text| < |w|
    ensures w[|f[0].text|] in FirstOfAny(branches)
  {
    assert w == f[0].text + Joined(f[1..]);
    var next := f[1];
    assert next in f && f[1..][0] == next;
    NoEmptyBranch(branches, next.branch, next.text);
    FirstSetCovers(branches[next.branch], next.text);
    FirstOfAnyContains(branches, next.branch);
    assert Joined(f[1..])[0] == next.text[0];
  }

  /** A word read two ways, the first branch of one no shorter in its fixed prefix. */
  lemma FirstBranchesAgree(branches: seq<Ast>, f: seq<Part>, g: seq<Part>, w: string)
    requires AllCovered(branches) && |branches| >= 2 && !AlternationOverlaps(branches)
    requires Factors(branches, f, w) && Factors(branches, g, w) && f != [] && g != []
    requires f[0].branch < |branches| && g[0].branch < |branches|
    requires |ShapeOf(branches[f[0].branch]).prefix| >= |ShapeOf(branches[g[0].branch]).prefix|
    ensures f[0].branch == g[0].branch
  {
    var i, j := f[0].branch, g[0].branch;
    var a, b := ShapeOf(branches[i]), ShapeOf(branches[j]);
    assert f[0] in f && g[0] in g;
    ShapeIsCorrect(branches[i], f[0].text);
    ShapeIsCorrect(branches[j], g[0].text);
    assert w == f[0].text + Joined(f[1..]) && w == g[0].text + Joined(g[1..]);
    assert forall k :: 0 <= k < |a.prefix| ==> w[k] in a.prefix[k];
    assert forall k :: 0 <= k < |b.prefix| ==> w[k] in b.prefix[k];
    if |g[0].text| < |w| {
      NextStarts(branches, g, w);
    }
    if i != j {
      NoOverlap(branches, i, j);
      NoOverlap(branches, j, i);
      Separated(a, b, FirstOfAny(branches));
    }
  }

  /** Lint soundness: however a string is read as iterations of an unflagged alternation, the
      first branch taken is the same. */
  lemma UnflaggedStartsAlike(branches: seq<Ast>, f: seq<Part>, g: seq<Part>, w: string)
    requires AllCovered(branches) && |branches| >= 2 && !AlternationOverlaps(branches)
    requires Factors(branches, f, w) && Factors(branches, g, w)
    ensures f == [] <==> g == []
    ensures f != [] ==> f[0].branch == g[0].branch
  {
    if f != [] {
      assert f[0] in f;
      NoEmptyBranch(branches, f[0].branch, f[0].text);
    }
    if g != [] {
      assert g[0] in g;
      NoEmptyBranch(branches, g[0].branch, g[0].text);
    }
    if f != [] && g != [] {
      if |ShapeOf(branches[f[0].branch]).prefix| >= |ShapeOf(branches[g[0].branch]).prefix| {
        FirstBranchesAgree(branches, f, g, w);
      } else {
        FirstBranchesAgree(branches, g, f, w);
      }
    }
  }

  /** When every branch has an exact shape there is only one way to read a string at all, so
      a backtracking engine has nothing to try again. */
  lemma {:induction false} UnflaggedIsUnambiguous(branches: seq<Ast>, f: seq<Part>, g: seq<Part>, w: string)
    requires AllCovered(branches) && |branches| >= 2 && !AlternationOverlaps(branches)
    requires forall x :: x in branches ==> ShapeOf(x).exact
    requires Factors(branches, f, w) && Factors(branches, g, w)
    ensures f == g
    decreases |f|
  {
    UnflaggedStartsAlike(branches, f, g, w);
    if f != [] {
      assert f[0] in f && g[0] in g;
      ShapeIsCorrect(branches[f[0].branch], f[0].text);
      ShapeIsCorrect(branches[g[0].branch], g[0].text);
      var n := |f[0].text|;
      assert f[0].text == w[..n] == g[0].text;
      assert Joined(f[1..]) == w[n..] == Joined(g[1..]);
      UnflaggedIsUnambiguous(branches, f[1..], g[1..], w[n..]);
      assert f == [f[0]] + f[1..] && g == [g[0]] + g[1..];
    }
  }

  /** With any flags, the guarantee holds of the alternation as the flags in force have it: if that
      is unflagged, two readings of a string still start with the same branch. */
  lemma InForceStartsAlike(branches: seq<Ast>, f: seq<Part>, g: seq<Part>, w: string)
    requires AllCovered(EachInForce(branches)) && |branches| >= 2 && !AlternationOverlaps(EachInForce(branches))
    requires Factors(branches, f, w) && Factors(branches, g, w)
    ensures f == [] <==> g == []
    ensures f != [] ==> f[0].branch == g[0].branch
    ensures (forall x :: x in EachInForce(branches) ==> ShapeOf(x).exact) ==> f == g
  {
    hide *;
    FactorsInForce(branches, f, w);
    FactorsInForce(branches, g, w);
    UnflaggedStartsAlike(EachInForce(branches), f, g, w);
    if forall x :: x in EachInForce(branches) ==> ShapeOf(x).exact {
      UnflaggedIsUnambiguous(EachInForce(branches), f, g, w);
    }
  }

  lemma FactorsInForce(branches: seq<Ast>, f: seq<Part>, w: string)
    requires Factors(branches, f, w)
    ensures Factors(EachInForce(branches), f, w)
  {
    forall p | p in f
      ensures Matches(EachInForce(branches)[p.branch], p.text)
    {
      InForceMatches(branches[p.branch], p.text);
    }
  }

  /** Flags that widen a leaf are outside that guarantee. In `(?:(?i)a|A)*` each leaf is translated as if
      case mattered, so nothing is flagged, and yet both branches match `a`. */
  lemma InlineFlagsEscape()
    ensures !AlternationOverlaps(FlaggedInline())
    ensures Factors(FlaggedInline(), [Part(0, "a")], "a") && Factors(FlaggedInline(), [Part(1, "a")], "a")
  {
    var branches := FlaggedInline();
    var items := branches[0].items;
    assert items[1..] == [Leaf([{'a'}], {'a', 'A'})] && items[1..][1..] == [];
    assert ShapeOfAll(items[1..][1..]) == Shape([], true);
    assert ShapeOfAll(items[1..]).prefix == [{'a'}];
    assert ShapeOf(branches[0]).prefix == [{'a'}];
    assert ShapeOf(branches[1]).prefix == [{'A'}];
    assert !PairOverlaps(branches, 0, 1);
    FlagsThenA();
    var f, g := [Part(0, "a")], [Part(1, "a")];
    assert f[1..] == [] && g[1..] == [];
    assert Matches(branches[1], "a");
  }

  function FlaggedInline(): seq<Ast> {
    [Concat([Flags, Leaf([{'a'}], {'a', 'A'})]), Leaf([{'A'}], {'a', 'A'})]
  }

  lemma FlagsThenA()
    ensures Matches(FlaggedInline()[0], "a")
  {
    var items := FlaggedInline()[0].items;
    var w := "a";
    assert w[..0] == "" && w[0..] == w && w[..1] == w && w[1..] == "";
    assert MatchesAll(items[1..][1..], w[1..]);
    assert Matches(items[1..][0], w[..1]);
    assert MatchesAll(items[1..], w[0..]);
    assert Matches(items[0], w[..0]);
    assert MatchesAll(items, w);
  }

  // ----- the walk over a pattern -----

  /** Every alternation of a repeated body, outermost first. */
  function Alternations(a: Ast): seq<seq<Ast>>
    decreases a, 1
  {
    match a
    case Alternation(branches) => [branches] + AlternationsIn(branches)
    case Group(body) => Alternations(body)
    case Concat(items) => AlternationsIn(items)
    case Repetition(_, body) => Alternations(body)
    case _ => []
  }

  function AlternationsIn(items: seq<Ast>): seq<seq<Ast>>
    decreases items, 0
  {
    if items == [] then [] else Alternations(items[0]) + AlternationsIn(items[1..])
  }

  predicate HasOverlappingAlternation(body: Ast) {
    exists branches :: branches in Alternations(body) && AlternationOverlaps(branches)
  }

  /** The repetitions rule 2 flags, in the order the walk meets them. */
  function Flagged(a: Ast): seq<Ast>
    decreases a, 1
  {
    match a
    case Repetition(kind, body) =>
      (if IsUnbounded(kind) && HasOverlappingAlternation(body) then [a] else []) + Flagged(body)
    case Group(body) => Flagged(body)
    case Alternation(branches) => FlaggedIn(branches)
    case Concat(items) => FlaggedIn(items)
    case _ => []
  }

  function FlaggedIn(items: seq<Ast>): seq<Ast>
    decreases items, 0
  {
    if items == [] then [] else Flagged(items[0]) + FlaggedIn(items[1..])
  }

  /** The lint's walk; `risks` holds the repetitions flagged so far. */
  class Walker {
    var risks: seq<Ast>

    constructor ()
      ensures risks == []
    {
      risks := [];
    }

    method Walk(a: Ast)
      modifies this
      ensures risks == old(risks) + Flagged(a)
      decreases a, 1
    {
      match a
      case Repetition(kind, body) =>
        if IsUnbounded(kind) {
          var overlaps := OverlapsAnywhere(body);
          if overlaps {
            risks := risks + [a];
          }
        }
        Walk(body);
      case Group(body) => Walk(body);
      case Alternation(branches) => WalkEach(branches);
      case Concat(items) => WalkEach(items);
      case _ =>
    }

    method WalkEach(items: seq<Ast>)
      modifies this
      ensures risks == old(risks) + FlaggedIn(items)
      decreases items, 0
    {
      for k := 0 to |items|
        invariant risks + FlaggedIn(items[k..]) == old(risks) + FlaggedIn(items)
      {
        ghost var before := risks;
        assert items[k..][1..] == items[k + 1..];
        Walk(items[k]);
        assert before + (Flagged(items[k]) + FlaggedIn(items[k + 1..])) == risks + FlaggedIn(items[k + 1..]);
      }
    }
  }

  method OverlapsAnywhere(body: Ast) returns (overlaps: bool)
    ensures overlaps == HasOverlappingAlternation(body)
  {
    var found := Alternations(body);
    for k := 0 to |found|
      invariant forall i :: 0 <= i < k ==> !AlternationOverlaps(found[i])
    {
      var overlap := ComputeAlternationOverlaps(found[k]);
      if overlap {
        return true;
      }
    }
    return false;
  }

  /** The alternations looked at are just those inside the body, at any depth. */
  lemma {:induction false} AlternationsAreWithin(a: Ast, branches: seq<Ast>)
    ensures branches in Alternations(a) <==> Within(Alternation(branches), a)
    decreases a, 1
  {
    match a
    case Repetition(_, body) => AlternationsAreWithin(body, branches);
    case Group(body) => AlternationsAreWithin(body, branches);
    case Alternation(items) => AlternationsAreWithinAny(items, branches);
    case Concat(items) => AlternationsAreWithinAny(items, branches);
    case _ =>
  }

  lemma {:induction false} AlternationsAreWithinAny(items: seq<Ast>, branches: seq<Ast>)
    ensures branches in AlternationsIn(items) <==> exists x :: x in items && Within(Alternation(branches), x)
    decreases items, 0
  {
    if items != [] {
      AlternationsAreWithin(items[0], branches);
      AlternationsAreWithinAny(items[1..], branches);
      assert forall x :: x in items <==> x == items[0] || x in items[1..];
    }
  }

  /** A repetition without an upper bound, with an overlapping alternation somewhere in its body. */
  ghost predicate Risky(rep: Ast) {
    && rep.Repetition?
    && (rep.kind.ZeroOrMore? || rep.kind.OneOrMore? || rep.kind.AtLeast?)
    && exists branches :: Within(Alternation(branches), rep.body) && AlternationOverlaps(branches)
  }

  /** The walk flags just the risky repetitions of the pattern, however deep they stand. */
  lemma {:induction false} FlaggedAreRisky(a: Ast, rep: Ast)
    ensures rep in Flagged(a) <==> Within(rep, a) && Risky(rep)
    decreases a, 1
  {
    match a
    case Repetition(kind, body) =>
      FlaggedAreRisky(body, rep);
      OverlapWithin(body);
    case Group(body) => FlaggedAreRisky(body, rep);
    case Alternation(items) => FlaggedAreRiskyAny(items, rep);
    case Concat(items) => FlaggedAreRiskyAny(items, rep);
    case _ =>
  }

  lemma {:induction false} FlaggedAreRiskyAny(items: seq<Ast>, rep: Ast)
    ensures rep in FlaggedIn(items) <==> Risky(rep) && exists x :: x in items && Within(rep, x)
    decreases items, 0
  {
    if items != [] {
      FlaggedAreRisky(items[0], rep);
      FlaggedAreRiskyAny(items[1..], rep);
      assert forall x :: x in items <==> x == items[0] || x in items[1..];
    }
  }

  lemma OverlapWithin(body: Ast)
    ensures HasOverlappingAlternation(body) <==>
            exists branches :: Within(Alternation(branches), body) && AlternationOverlaps(branches)
  {
    forall branches
      ensures branches in Alternations(body) <==> Within(Alternation(branches), body)
    {
      AlternationsAreWithin(body, branches);
    }
  }

  lemma {:induction false} CoveredWithin(a: Ast, part: Ast)
    requires Covered(a) && Within(part, a)
    ensures Covered(part)
  {
    if part != a {
      match a
      case Repetition(_, body) => CoveredWithin(body, part);
      case Group(body) => CoveredWithin(body, part);
      case Alternation(branches) =>
        var x :| x in branches && Within(part, x);
        CoveredWithin(x, part);
      case Concat(items) =>
        var x :| x in items && Within(part, x);
        CoveredWithin(x, part);
    }
  }

  /** A pattern the walk flags nothing in: wherever it repeats an alternation without bound, at
      any depth of the repeated body, every string has at most one first branch. */
  lemma CleanPattern(a: Ast, rep: Ast, branches: seq<Ast>, f: seq<Part>, g: seq<Part>, w: string)
    requires Covered(a) && Flagged(a) == [] && Within(rep, a)
    requires rep.Repetition? && (rep.kind.ZeroOrMore? || rep.kind.OneOrMore? || rep.kind.AtLeast?)
    requires Within(Alternation(branches), rep.body) && |branches| >= 2
    requires Factors(branches, f, w) && Factors(branches, g, w)
    ensures f == [] <==> g == []
    ensures f != [] ==> f[0].branch == g[0].branch
    ensures (forall x :: x in branches ==> ShapeOf(x).exact) ==> f == g
  {
    hide Within, Matches, AlternationOverlaps, Factors;
    FlaggedAreRisky(a, rep);
    CoveredWithin(a, rep);
    CoveredWithin(rep.body, Alternation(branches));
    UnflaggedStartsAlike(branches, f, g, w);
    if forall x :: x in branches ==> ShapeOf(x).exact {
      UnflaggedIsUnambiguous(branches, f, g, w);
    }
  }
}
