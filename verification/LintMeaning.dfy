/** What rule 2 of the ReDoS lint flags, told by words alone: the converse of its soundness
    (crates/regex/src/lint.rs:239-373). */
module LintMeaning {
  import opened Wrappers
  import opened RegexAst
  import opened Lint

  // ----- how much of an expression is fixed -----

  /** The fewest times a repetition repeats. */
  function Fewest(kind: RepetitionKind): nat {
    match kind
    case ZeroOrOne | ZeroOrMore => 0
    case OneOrMore => 1
    case Exactly(n) => n
    case AtLeast(n) => n
    case Bounded(low, _) => low
  }

  /** How often each repetition may repeat. */
  lemma AllowsMeans(kind: RepetitionKind, n: nat)
    ensures Allows(kind, n) <==> match kind
                                 case ZeroOrOne => n == 0 || n == 1
                                 case ZeroOrMore => true
                                 case OneOrMore => n >= 1
                                 case Exactly(m) => n == m
                                 case AtLeast(m) => n >= m
                                 case Bounded(low, high) => low <= n <= high
  {
  }

  /** It repeats one number of times only, few enough to be written out. */
  predicate Counted(kind: RepetitionKind) {
    match kind
    case Exactly(n) => n <= 32
    case Bounded(low, high) => low == high <= 32
    case _ => false
  }

  /** The lint follows such an expression to its end. */
  predicate Fixed(a: Ast) {
    match a
    case Empty | Flags | Assertion | Leaf(_, _) => true
    case Group(body) => Fixed(body)
    case Concat(items) => forall x :: x in items ==> Fixed(x)
    case Alternation(_) => false
    case Repetition(kind, body) => Counted(kind) && (Fewest(kind) == 0 || Fixed(body))
  }

  /** How many characters into every word it follows the expression. */
  function Reach(a: Ast): nat
    decreases a, 1
  {
    match a
    case Empty | Flags | Assertion | Alternation(_) => 0
    case Leaf(_, _) => 1
    case Group(body) => Reach(body)
    case Concat(items) => ReachOfAll(items)
    case Repetition(kind, body) =>
      if Fewest(kind) == 0 then 0
      else if !Fixed(body) then Reach(body)
      else Copies(if Fewest(kind) <= 32 then Fewest(kind) else 32, Reach(body))
  }

  /** Up to and into the first item that is not fixed. */
  function ReachOfAll(items: seq<Ast>): nat
    decreases items, 0
  {
    if items == [] then 0
    else if Fixed(items[0]) then Reach(items[0]) + ReachOfAll(items[1..])
    else Reach(items[0])
  }

  function Copies(n: nat, length: nat): nat {
    if n == 0 then 0 else length + Copies(n - 1, length)
  }

  /** The lint's shape is exact just for fixed expressions, and its prefix as long as its reach. */
  lemma {:induction false} ShapeReaches(a: Ast)
    requires Covered(a)
    ensures ShapeOf(a).exact <==> Fixed(a)
    ensures |ShapeOf(a).prefix| == Reach(a)
    decreases a, 1
  {
    match a
    case Empty | Flags | Assertion =>
    case Leaf(_, _) =>
    case Group(body) => ShapeReaches(body);
    case Concat(items) => ShapeOfAllReaches(items);
    case Alternation(_) =>
    case Repetition(kind, body) =>
      ShapeReaches(body);
      RepeatedReaches(ShapeOf(body), if Fewest(kind) <= 32 then Fewest(kind) else 32);
  }

  lemma {:induction false} ShapeOfAllReaches(items: seq<Ast>)
    requires forall x :: x in items ==> Covered(x)
    ensures ShapeOfAll(items).exact <==> forall x :: x in items ==> Fixed(x)
    ensures |ShapeOfAll(items).prefix| == ReachOfAll(items)
    decreases items, 0
  {
    if items != [] {
      ShapeReaches(items[0]);
      ShapeOfAllReaches(items[1..]);
      assert forall x :: x in items <==> x == items[0] || x in items[1..];
    }
  }

  lemma {:induction false} RepeatedReaches(inner: Shape, n: nat)
    ensures Repeated(inner, n).exact <==> n == 0 || inner.exact
    ensures |Repeated(inner, n).prefix| ==
            if inner.exact then Copies(n, |inner.prefix|) else if n == 0 then 0 else |inner.prefix|
  {
    if n > 0 {
      RepeatedReaches(inner, n - 1);
    }
  }

  // ----- every beginning the lint considers occurs -----

  ghost predicate Begins(s: Shape, u: string) {
    |u| == |s.prefix| && forall i :: 0 <= i < |u| ==> u[i] in s.prefix[i]
  }

  /** Whatever its prefix classes spell is how some word begins. */
  lemma {:induction false} PrefixOccurs(a: Ast, u: string) returns (w: string)
    requires Covered(a) && Untouched(a) && Begins(ShapeOf(a), u)
    ensures Matches(a, w) && u <= w
    ensures ShapeOf(a).exact ==> w == u
    decreases a, 1
  {
    match a
    case Empty | Flags | Assertion => w := "";
    case Leaf(_, _) => w := u;
    case Group(body) => w := PrefixOccurs(body, u);
    case Concat(items) => w := PrefixOfAllOccurs(items, u);
    case Alternation(_) => w := Inhabited(a);
    case Repetition(kind, body) =>
      var reps := if MinOf(kind) < MAX_UNROLL then MinOf(kind) else MAX_UNROLL;
      w := PrefixOfTimesOccurs(body, reps, MinOf(kind), u);
      assert Allows(kind, MinOf(kind));
  }

  lemma {:induction false} PrefixOfAllOccurs(items: seq<Ast>, u: string) returns (w: string)
    requires (forall x :: x in items ==> Covered(x) && Untouched(x)) && Begins(ShapeOfAll(items), u)
    ensures MatchesAll(items, w) && u <= w
    ensures ShapeOfAll(items).exact ==> w == u
    decreases items, 0
  {
    w := "";
    if items != [] {
      var part := ShapeOf(items[0]);
      if part.exact {
        BeginsInParts(part, ShapeOfAll(items[1..]), u);
        var first := PrefixOccurs(items[0], u[..|part.prefix|]);
        var rest := PrefixOfAllOccurs(items[1..], u[|part.prefix|..]);
        w := first + rest;
        assert w[..|first|] == first && w[|first|..] == rest;
      } else {
        var first := PrefixOccurs(items[0], u);
        var rest := AllInhabited(items[1..]);
        w := first + rest;
        assert w[..|first|] == first && w[|first|..] == rest;
      }
    }
  }

  lemma {:induction false} PrefixOfTimesOccurs(a: Ast, reps: nat, n: nat, u: string) returns (w: string)
    requires Covered(a) && Untouched(a) && reps <= n && Begins(Repeated(ShapeOf(a), reps), u)
    ensures MatchesTimes(a, n, w) && u <= w
    ensures Repeated(ShapeOf(a), reps).exact && reps == n ==> w == u
    decreases a, 2, n
  {
    var part := ShapeOf(a);
    if reps == 0 {
      w := TimesInhabited(a, n);
    } else if part.exact {
      BeginsInParts(part, Repeated(part, reps - 1), u);
      var first := PrefixOccurs(a, u[..|part.prefix|]);
      var rest := PrefixOfTimesOccurs(a, reps - 1, n - 1, u[|part.prefix|..]);
      w := first + rest;
      assert w[..|first|] == first && w[|first|..] == rest;
    } else {
      var first := PrefixOccurs(a, u);
      var rest := TimesInhabited(a, n - 1);
      w := first + rest;
      assert w[..|first|] == first && w[|first|..] == rest;
    }
  }

  lemma BeginsInParts(part: Shape, rest: Shape, u: string)
    requires part.exact && Begins(Then(part, rest), u)
    ensures Begins(part, u[..|part.prefix|]) && Begins(rest, u[|part.prefix|..])
  {
    var both := Then(part, rest).prefix;
    assert forall k :: 0 <= k < |part.prefix| ==> both[k] == part.prefix[k];
    assert forall k :: 0 <= k < |rest.prefix| ==> both[|part.prefix| + k] == rest.prefix[k];
  }

  // ----- every first character the lint considers occurs -----

  /** The expression with every body that is repeated zero times at most made optional: the first
      set counts such a body in. */
  function Unskipped(a: Ast): Ast
    decreases a, 1
  {
    match a
    case Group(body) => Group(Unskipped(body))
    case Concat(items) => Concat(EachUnskipped(items))
    case Alternation(branches) => Alternation(EachUnskipped(branches))
    case Repetition(kind, body) =>
      Repetition(if kind == Exactly(0) || kind == Bounded(0, 0) then ZeroOrOne else kind, Unskipped(body))
    case _ => a
  }

  function EachUnskipped(items: seq<Ast>): (r: seq<Ast>)
    ensures |r| == |items| && forall i :: 0 <= i < |items| ==> r[i] == Unskipped(items[i])
    decreases items, 0
  {
    if items == [] then [] else [Unskipped(items[0])] + EachUnskipped(items[1..])
  }

  /** Nothing is repeated zero times at most. */
  predicate NoneSkipped(a: Ast) {
    match a
    case Group(body) => NoneSkipped(body)
    case Concat(items) => forall x :: x in items ==> NoneSkipped(x)
    case Alternation(branches) => forall x :: x in branches ==> NoneSkipped(x)
    case Repetition(kind, body) => kind != Exactly(0) && kind != Bounded(0, 0) && NoneSkipped(body)
    case _ => true
  }

  /** `u`, which skips no body, starts as `a` does. */
  ghost predicate StartsAlike(a: Ast, u: Ast) {
    && Covered(u) && Untouched(u) && NoneSkipped(u)
    && FirstSet(u) == FirstSet(a)
    && Nullable(u) == Nullable(a)
    && (NoneSkipped(a) ==> u == a)
  }

  /** Making skipped bodies optional changes neither what can come first nor what can be empty. */
  lemma {:induction false} UnskippedStartsAlike(a: Ast)
    requires Covered(a) && Untouched(a)
    ensures StartsAlike(a, Unskipped(a))
    decreases a, 1
  {
    hide EachStartsAlike, EachUnskipped;
    match a
    case Group(body) => UnskippedStartsAlike(body);
    case Concat(items) =>
      EachUnskippedStartsAlike(items);
      ListStartsAlike(items, EachUnskipped(items));
    case Alternation(branches) =>
      EachUnskippedStartsAlike(branches);
      ListStartsAlike(branches, EachUnskipped(branches));
    case Repetition(_, body) => UnskippedStartsAlike(body);
    case _ =>
  }

  ghost predicate EachStartsAlike(items: seq<Ast>, r: seq<Ast>) {
    && |r| == |items|
    && (forall x :: x in r ==> Covered(x) && Untouched(x) && NoneSkipped(x))
    && FirstOfAny(r) == FirstOfAny(items)
    && FirstOfAll(r) == FirstOfAll(items)
    && ((forall x :: x in r ==> Nullable(x)) <==> forall x :: x in items ==> Nullable(x))
    && ((exists x :: x in r && Nullable(x)) <==> exists x :: x in items && Nullable(x))
    && ((forall x :: x in items ==> NoneSkipped(x)) ==> r == items)
  }

  lemma ListStartsAlike(items: seq<Ast>, r: seq<Ast>)
    requires EachStartsAlike(items, r)
    ensures StartsAlike(Concat(items), Concat(r))
    ensures items != [] ==> StartsAlike(Alternation(items), Alternation(r))
  {
    hide FirstOfAny, FirstOfAll;
  }

  lemma EachUnskippedStartsAlike(items: seq<Ast>)
    requires forall x :: x in items ==> Covered(x) && Untouched(x)
    ensures EachStartsAlike(items, EachUnskipped(items))
    decreases items, 0
  {
    hide Covered, Untouched, NoneSkipped, FirstSet, FirstOfAny, FirstOfAll, Nullable, Unskipped;
    var r := EachUnskipped(items);
    forall i | 0 <= i < |items|
      ensures StartsAlike(items[i], r[i])
    {
      UnskippedStartsAlike(items[i]);
    }
    hide StartsAlike;
    EachStarts(items, r);
  }

  lemma EachStarts(items: seq<Ast>, r: seq<Ast>)
    requires |r| == |items| && forall i :: 0 <= i < |items| ==> StartsAlike(items[i], r[i])
    ensures EachStartsAlike(items, r)
  {
    hide Covered, Untouched, NoneSkipped, FirstSet, FirstOfAny, FirstOfAll, Nullable;
    forall x | x in r
      ensures Covered(x) && Untouched(x) && NoneSkipped(x)
    {
      var i :| 0 <= i < |r| && r[i] == x;
      assert StartsAlike(items[i], r[i]);
    }
    if forall x :: x in items ==> NoneSkipped(x) {
      forall i | 0 <= i < |items|
        ensures r[i] == items[i]
      {
        assert items[i] in items && StartsAlike(items[i], r[i]);
      }
      assert r == items;
    }
    SameStarts(items, r);
    SameNullable(items, r);
  }

  lemma {:induction false} SameStarts(xs: seq<Ast>, ys: seq<Ast>)
    requires |xs| == |ys|
    requires forall i :: 0 <= i < |xs| ==> FirstSet(xs[i]) == FirstSet(ys[i]) && Nullable(xs[i]) == Nullable(ys[i])
    ensures FirstOfAny(xs) == FirstOfAny(ys) && FirstOfAll(xs) == FirstOfAll(ys)
  {
    hide FirstSet, Nullable;
    if xs != [] {
      SameStarts(xs[1..], ys[1..]);
    }
  }

  lemma SameNullable(xs: seq<Ast>, ys: seq<Ast>)
    requires |xs| == |ys| && forall i :: 0 <= i < |xs| ==> Nullable(xs[i]) == Nullable(ys[i])
    ensures (forall x :: x in ys ==> Nullable(x)) <==> forall x :: x in xs ==> Nullable(x)
    ensures (exists x :: x in ys && Nullable(x)) <==> exists x :: x in xs && Nullable(x)
  {
    hide Nullable;
    assert forall i :: 0 <= i < |xs| ==> xs[i] in xs && ys[i] in ys;
  }

  lemma {:induction false} FirstOccurs(a: Ast, c: char) returns (w: string)
    requires Covered(a) && Untouched(a) && NoneSkipped(a) && c in FirstSet(a)
    ensures Matches(a, w) && w != "" && w[0] == c
    decreases a, 1
  {
    match a
    case Leaf(_, _) => w := [c];
    case Group(body) => w := FirstOccurs(body, c);
    case Concat(items) => w := FirstOfAllOccurs(items, c);
    case Alternation(branches) =>
      var i;
      i, w := FirstOfAnyOccurs(branches, c);
    case Repetition(kind, body) =>
      var first := FirstOccurs(body, c);
      var n := if MinOf(kind) == 0 then 1 else MinOf(kind);
      var rest := TimesInhabited(body, n - 1);
      w := first + rest;
      assert w[..|first|] == first && w[|first|..] == rest;
      assert Allows(kind, n);
  }

  lemma {:induction false} FirstOfAnyOccurs(branches: seq<Ast>, c: char) returns (i: nat, w: string)
    requires forall x :: x in branches ==> Covered(x) && Untouched(x) && NoneSkipped(x)
    requires c in FirstOfAny(branches)
    ensures i < |branches| && Matches(branches[i], w) && w != "" && w[0] == c
    decreases branches, 0
  {
    if c in FirstSet(branches[0]) {
      i := 0;
      w := FirstOccurs(branches[0], c);
    } else {
      i, w := FirstOfAnyOccurs(branches[1..], c);
      i := i + 1;
    }
  }

  lemma {:induction false} FirstOfAllOccurs(items: seq<Ast>, c: char) returns (w: string)
    requires forall x :: x in items ==> Covered(x) && Untouched(x) && NoneSkipped(x)
    requires c in FirstOfAll(items)
    ensures MatchesAll(items, w) && w != "" && w[0] == c
    decreases items, 0
  {
    if c in FirstSet(items[0]) {
      var first := FirstOccurs(items[0], c);
      var rest := AllInhabited(items[1..]);
      w := first + rest;
      assert w[..|first|] == first && w[|first|..] == rest;
    } else {
      NullableIsExact(items[0]);
      w := FirstOfAllOccurs(items[1..], c);
      assert w[..0] == "" && w[0..] == w;
    }
  }

  // ----- what is flagged, by words -----

  /** Some iteration of the loop can start with `c`, bodies repeated zero times counted in. */
  ghost predicate Restarts(branches: seq<Ast>, c: char) {
    exists k, w :: 0 <= k < |branches| && Matches(Unskipped(branches[k]), w) && w != "" && w[0] == c
  }

  lemma RestartsFromFirstSet(branches: seq<Ast>, c: char)
    requires Plain(branches)
    ensures Restarts(branches, c) <==> c in FirstOfAny(branches)
  {
    hide Covered, Untouched, NoneSkipped, Matches, Unskipped;
    EachUnskippedStartsAlike(branches);
    if c in FirstOfAny(branches) {
      var k, w := FirstOfAnyOccurs(EachUnskipped(branches), c);
    }
    forall k, w | 0 <= k < |branches| && Matches(Unskipped(branches[k]), w) && w != "" && w[0] == c
      ensures c in FirstOfAny(branches)
    {
      assert EachUnskipped(branches)[k] in EachUnskipped(branches);
      FirstSetCovers(EachUnskipped(branches)[k], w);
      FirstOfAnyContains(EachUnskipped(branches), k);
    }
  }

  /** A text of branch `j` is one of branch `i` as well, or begins with one and goes on as an
      iteration of the loop can start. */
  ghost predicate ReadTwoWays(branches: seq<Ast>, i: nat, j: nat)
    requires i < |branches| && j < |branches|
  {
    exists w, n ::
      && 0 <= n <= |w|
      && Matches(branches[j], w)
      && Matches(branches[i], w[..n])
      && (n < |w| ==> Restarts(branches, w[n]))
  }

  predicate AgreeFor(x: string, y: string, n: nat) {
    n <= |x| && n <= |y| && x[..n] == y[..n]
  }

  function Lesser(m: nat, n: nat): nat {
    if m < n then m else n
  }

  /** The two have words that agree as far as both are followed. */
  ghost predicate AgreeInReach(a: Ast, b: Ast) {
    exists x, y :: Matches(a, x) && Matches(b, y) && AgreeFor(x, y, Lesser(Reach(a), Reach(b)))
  }

  ghost predicate Confusable(branches: seq<Ast>, i: nat, j: nat)
    requires i < |branches| && j < |branches|
  {
    if Fixed(branches[i]) && Fixed(branches[j]) then ReadTwoWays(branches, i, j)
    else AgreeInReach(branches[i], branches[j])
  }

  ghost predicate Plain(branches: seq<Ast>) {
    forall x :: x in branches ==> Covered(x) && Untouched(x)
  }

  /** One character out of each class. */
  lemma {:induction false} Spelled(classes: seq<Class>) returns (u: string)
    requires forall k :: 0 <= k < |classes| ==> classes[k] != {}
    ensures |u| == |classes| && forall k :: 0 <= k < |u| ==> u[k] in classes[k]
  {
    u := "";
    if classes != [] {
      assert classes[0] != {};
      var c :| c in classes[0];
      var rest := Spelled(classes[1..]);
      u := [c] + rest;
    }
  }

  lemma ClassesInhabited(a: Ast)
    requires Covered(a)
    ensures forall k :: 0 <= k < |ShapeOf(a).prefix| ==> ShapeOf(a).prefix[k] != {}
  {
    var w := Inhabited(a);
    ShapeIsCorrect(a, w);
    assert forall k :: 0 <= k < |ShapeOf(a).prefix| ==> w[k] in ShapeOf(a).prefix[k];
  }

  /** No position of the common prefix tells them apart. */
  ghost predicate Compatible(a: Shape, b: Shape) {
    forall k :: 0 <= k < |a.prefix| && k < |b.prefix| ==> a.prefix[k] * b.prefix[k] != {}
  }

  lemma Meet(c: Class, d: Class)
    requires !(c !! d)
    ensures c * d != {}
  {
    var x :| x in c && x in d;
    assert x in c * d;
  }

  lemma CompatibleWhenOverlapping(a: Shape, b: Shape, restart: Class)
    requires BranchesOverlap(a, b, restart)
    ensures Compatible(a, b)
  {
    forall k | 0 <= k < |a.prefix| && k < |b.prefix|
      ensures a.prefix[k] * b.prefix[k] != {}
    {
      Meet(a.prefix[k], b.prefix[k]);
    }
  }

  /** A beginning of `b` that fits `a` as far as both go, and `beyond` right after `a`. */
  lemma CommonBeginning(a: Shape, b: Shape, beyond: Class) returns (u: string)
    requires Compatible(a, b) && forall k :: 0 <= k < |b.prefix| ==> b.prefix[k] != {}
    requires |a.prefix| < |b.prefix| ==> b.prefix[|a.prefix|] * beyond != {}
    ensures Begins(b, u)
    ensures forall k :: 0 <= k < |a.prefix| && k < |b.prefix| ==> u[k] in a.prefix[k]
    ensures |a.prefix| < |b.prefix| ==> u[|a.prefix|] in beyond
  {
    var n := |a.prefix|;
    var classes := seq(|b.prefix|, k requires 0 <= k < |b.prefix| =>
                                     if k < n then a.prefix[k] * b.prefix[k]
                                     else if k == n then b.prefix[k] * beyond else b.prefix[k]);
    u := Spelled(classes);
    forall k | 0 <= k < |b.prefix|
      ensures u[k] in b.prefix[k]
    {
      assert u[k] in classes[k];
    }
  }

  /** A flagged pair is confusable. */
  lemma OverlapIsConfusable(branches: seq<Ast>, i: nat, j: nat)
    requires Plain(branches) && i < |branches| && j < |branches|
    requires BranchesOverlap(ShapeOf(branches[i]), ShapeOf(branches[j]), FirstOfAny(branches))
    ensures Confusable(branches, i, j)
  {
    hide Covered, Untouched, Fixed, Reach, ShapeOf, ReadTwoWays, AgreeInReach;
    var x, y := branches[i], branches[j];
    assert x in branches && y in branches;
    ShapeReaches(x);
    ShapeReaches(y);
    if Fixed(x) && Fixed(y) {
      FixedOverlap(branches, i, j);
    } else {
      CompatibleWhenOverlapping(ShapeOf(x), ShapeOf(y), FirstOfAny(branches));
      AgreeingWords(x, y);
    }
  }

  lemma FixedOverlap(branches: seq<Ast>, i: nat, j: nat)
    requires Plain(branches) && i < |branches| && j < |branches|
    requires ShapeOf(branches[i]).exact && ShapeOf(branches[j]).exact
    requires BranchesOverlap(ShapeOf(branches[i]), ShapeOf(branches[j]), FirstOfAny(branches))
    ensures ReadTwoWays(branches, i, j)
  {
    hide Covered, Untouched, Matches, ShapeOf, FirstOfAny, Restarts;
    var x, y := branches[i], branches[j];
    assert x in branches && y in branches;
    ClassesInhabited(y);
    var a, b, n := ShapeOf(x), ShapeOf(y), |ShapeOf(x).prefix|;
    CompatibleWhenOverlapping(a, b, FirstOfAny(branches));
    if n < |b.prefix| {
      Meet(b.prefix[n], FirstOfAny(branches));
    }
    var w := CommonBeginning(a, b, FirstOfAny(branches));
    assert forall k :: 0 <= k < n ==> w[..n][k] == w[k];
    var v := PrefixOccurs(y, w);
    var u := PrefixOccurs(x, w[..n]);
    if n < |w| {
      RestartsFromFirstSet(branches, w[n]);
    }
    assert Matches(y, w) && Matches(x, w[..n]);
  }

  lemma AgreeingWords(x: Ast, y: Ast)
    requires Covered(x) && Untouched(x) && Covered(y) && Untouched(y) && Compatible(ShapeOf(x), ShapeOf(y))
    ensures AgreeInReach(x, y)
  {
    hide Covered, Untouched, Matches, ShapeOf, Reach, Begins;
    var a, b := ShapeOf(x), ShapeOf(y);
    ShapeReaches(x);
    ShapeReaches(y);
    ClassesInhabited(x);
    ClassesInhabited(y);
    var u, v := AgreeingBeginnings(a, b);
    var p := PrefixOccurs(x, u);
    var q := PrefixOccurs(y, v);
    var n := Lesser(|a.prefix|, |b.prefix|);
    assert p[..n] == u[..n] && q[..n] == v[..n];
  }

  lemma AgreeingBeginnings(a: Shape, b: Shape) returns (u: string, v: string)
    requires Compatible(a, b)
    requires forall k :: 0 <= k < |a.prefix| ==> a.prefix[k] != {}
    requires forall k :: 0 <= k < |b.prefix| ==> b.prefix[k] != {}
    ensures Begins(a, u) && Begins(b, v) && AgreeFor(u, v, Lesser(|a.prefix|, |b.prefix|))
  {
    var n := Lesser(|a.prefix|, |b.prefix|);
    var common := Spelled(seq(n, k requires 0 <= k < n => a.prefix[k] * b.prefix[k]));
    var more := Spelled(a.prefix[n..]);
    var others := Spelled(b.prefix[n..]);
    u, v := common + more, common + others;
    assert u[..n] == common == v[..n];
  }

  /** A confusable pair is flagged, one way round or the other. */
  lemma ConfusableOverlaps(branches: seq<Ast>, i: nat, j: nat)
    requires Plain(branches) && i < |branches| && j < |branches| && i != j && Confusable(branches, i, j)
    ensures AlternationOverlaps(branches)
  {
    hide Covered, Untouched, Fixed, Reach, ShapeOf, FirstOfAny, BranchesOverlap, ReadTwoWays, AgreeInReach;
    var x, y := branches[i], branches[j];
    assert x in branches && y in branches;
    ShapeReaches(x);
    ShapeReaches(y);
    if Fixed(x) && Fixed(y) {
      TwoReadingsOverlap(branches, i, j);
    } else {
      AgreementOverlaps(x, y, FirstOfAny(branches));
    }
    assert if i < j then PairOverlaps(branches, i, j) else PairOverlaps(branches, j, i);
  }

  lemma TwoReadingsOverlap(branches: seq<Ast>, i: nat, j: nat)
    requires Plain(branches) && i < |branches| && j < |branches| && ReadTwoWays(branches, i, j)
    requires ShapeOf(branches[i]).exact && ShapeOf(branches[j]).exact
    ensures BranchesOverlap(ShapeOf(branches[i]), ShapeOf(branches[j]), FirstOfAny(branches))
  {
    hide Covered, Untouched, Matches, ShapeOf, FirstOfAny, Restarts;
    var x, y := branches[i], branches[j];
    assert x in branches && y in branches;
    var a, b := ShapeOf(x), ShapeOf(y);
    var w, n :| 0 <= n <= |w| && Matches(y, w) && Matches(x, w[..n]) && (n < |w| ==> Restarts(branches, w[n]));
    ShapeIsCorrect(y, w);
    ShapeIsCorrect(x, w[..n]);
    if n < |w| {
      RestartsFromFirstSet(branches, w[n]);
    }
    assert forall k :: 0 <= k < n ==> w[..n][k] in a.prefix[k] && w[k] in b.prefix[k];
  }

  lemma AgreementOverlaps(x: Ast, y: Ast, restart: Class)
    requires Covered(x) && Covered(y) && AgreeInReach(x, y)
    requires !ShapeOf(x).exact || !ShapeOf(y).exact
    ensures BranchesOverlap(ShapeOf(x), ShapeOf(y), restart) || BranchesOverlap(ShapeOf(y), ShapeOf(x), restart)
  {
    hide Covered, Matches, ShapeOf, Reach;
    var n := Lesser(Reach(x), Reach(y));
    var p, q :| Matches(x, p) && Matches(y, q) && AgreeFor(p, q, n);
    ShapeReaches(x);
    ShapeReaches(y);
    ShapeIsCorrect(x, p);
    ShapeIsCorrect(y, q);
    var a, b := ShapeOf(x), ShapeOf(y);
    assert forall k :: 0 <= k < n ==> p[..n][k] == p[k] && q[..n][k] == q[k];
    assert forall k :: 0 <= k < n ==> p[k] in a.prefix[k] && p[k] in b.prefix[k];
  }

  /** Rule 2 flags an alternation exactly when two of its branches are confusable. When both are
      fixed, that is when a text of one is a text of the other as well, or begins with one and goes
      on as the loop can start again; else when they have words that agree as far as the lint
      follows both. With no body repeated zero times at most, the loop can start again with just the
      characters that words of its branches start with. */
  lemma FlaggedExactlyWhen(branches: seq<Ast>)
    requires Plain(branches)
    ensures AlternationOverlaps(branches) <==>
            exists i, j :: 0 <= i < |branches| && 0 <= j < |branches| && i != j && Confusable(branches, i, j)
    ensures (forall x :: x in branches ==> NoneSkipped(x)) ==>
              forall k :: 0 <= k < |branches| ==> Unskipped(branches[k]) == branches[k]
  {
    EachUnskippedStartsAlike(branches);
    if AlternationOverlaps(branches) {
      var i, j :| 0 <= i < j < |branches| && PairOverlaps(branches, i, j);
      if BranchesOverlap(ShapeOf(branches[i]), ShapeOf(branches[j]), FirstOfAny(branches)) {
        OverlapIsConfusable(branches, i, j);
      } else {
        OverlapIsConfusable(branches, j, i);
      }
    }
    forall i, j | 0 <= i < |branches| && 0 <= j < |branches| && i != j && Confusable(branches, i, j)
      ensures AlternationOverlaps(branches)
    {
      ConfusableOverlaps(branches, i, j);
    }
  }
}
