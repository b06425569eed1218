/** The regular expressions the ReDoS lint reads, and the words they match. */
module RegexAst {
  import opened Wrappers

  type Class = set<char>

  datatype RepetitionKind =
    | ZeroOrOne
    | ZeroOrMore
    | OneOrMore
    | Exactly(n: nat)
    | AtLeast(n: nat)
    | Bounded(low: nat, high: nat)

  /** A leaf matches one character. `translated` is what translating it alone, without the
      flags in force around it, yields; `matched` is what it matches where it stands. */
  datatype Ast =
    | Empty
    | Flags
    | Assertion
    | Leaf(translated: seq<Class>, matched: Class)
    | Group(body: Ast)
    | Concat(items: seq<Ast>)
    | Alternation(branches: seq<Ast>)
    | Repetition(kind: RepetitionKind, body: Ast)

  function MinOf(kind: RepetitionKind): nat {
    match kind
    case ZeroOrOne | ZeroOrMore => 0
    case OneOrMore => 1
    case Exactly(n) => n
    case AtLeast(n) => n
    case Bounded(low, _) => low
  }

  function MaxOf(kind: RepetitionKind): Option<nat> {
    match kind
    case ZeroOrOne => Some(1)
    case ZeroOrMore | OneOrMore | AtLeast(_) => None
    case Exactly(n) => Some(n)
    case Bounded(_, high) => Some(high)
  }

  predicate IsUnbounded(kind: RepetitionKind) {
    MaxOf(kind).None?
  }

  predicate Allows(kind: RepetitionKind, n: nat) {
    MinOf(kind) <= n && (MaxOf(kind).Some? ==> n <= MaxOf(kind).value)
  }

  /** `w` is a word of `a`. An assertion is taken to hold wherever it stands, so these are at
      least the words a real engine accepts. */
  ghost predicate Matches(a: Ast, w: string)
    decreases a, 1
  {
    match a
    case Empty | Flags | Assertion => w == ""
    case Leaf(_, matched) => |w| == 1 && w[0] in matched
    case Group(body) => Matches(body, w)
    case Concat(items) => MatchesAll(items, w)
    case Alternation(branches) => exists i :: 0 <= i < |branches| && Matches(branches[i], w)
    case Repetition(kind, body) => exists n: nat :: Allows(kind, n) && MatchesTimes(body, n, w)
  }

  /** `w` is a word of `items` one after the other. */
  ghost predicate MatchesAll(items: seq<Ast>, w: string)
    decreases items, 0
  {
    if items == [] then w == ""
    else exists i :: 0 <= i <= |w| && Matches(items[0], w[..i]) && MatchesAll(items[1..], w[i..])
  }

  /** `w` is `n` words of `a` one after the other. */
  ghost predicate MatchesTimes(a: Ast, n: nat, w: string)
    decreases a, 2, n
  {
    if n == 0 then w == ""
    else exists i :: 0 <= i <= |w| && Matches(a, w[..i]) && MatchesTimes(a, n - 1, w[i..])
  }

  /** Whatever flags are in force, each leaf matches no more than its translation says; no class
      is empty, and bounds are in order (the parser refuses them otherwise). */
  ghost predicate Covered(a: Ast) {
    match a
    case Empty | Flags | Assertion => true
    case Leaf(translated, matched) => |translated| == 1 && matched <= translated[0] && matched != {}
    case Group(body) => Covered(body)
    case Concat(items) => forall x :: x in items ==> Covered(x)
    case Alternation(branches) => branches != [] && forall x :: x in branches ==> Covered(x)
    case Repetition(kind, body) => Covered(body) && (MaxOf(kind).Some? ==> MinOf(kind) <= MaxOf(kind).value)
  }

  /** No inline flags change a leaf. */
  ghost predicate Untouched(a: Ast) {
    match a
    case Empty | Flags | Assertion => true
    case Leaf(translated, matched) => translated == [matched]
    case Group(body) => Untouched(body)
    case Concat(items) => forall x :: x in items ==> Untouched(x)
    case Alternation(branches) => forall x :: x in branches ==> Untouched(x)
    case Repetition(_, body) => Untouched(body)
  }

  /** `a` as a lint would read it that knew the flags in force. */
  function InForce(a: Ast): Ast
    decreases a, 1
  {
    match a
    case Leaf(_, matched) => Leaf([matched], matched)
    case Group(body) => Group(InForce(body))
    case Concat(items) => Concat(EachInForce(items))
    case Alternation(branches) => Alternation(EachInForce(branches))
    case Repetition(kind, body) => Repetition(kind, InForce(body))
    case _ => a
  }

  function EachInForce(items: seq<Ast>): (r: seq<Ast>)
    ensures |r| == |items| && forall i :: 0 <= i < |items| ==> r[i] == InForce(items[i])
    decreases items, 0
  {
    if items == [] then [] else [InForce(items[0])] + EachInForce(items[1..])
  }

  /** Reading with the flags in force changes no word. */
  lemma {:induction false} InForceMatches(a: Ast, w: string)
    ensures Matches(InForce(a), w) <==> Matches(a, w)
    decreases a, 1
  {
    match a
    case Empty | Flags | Assertion =>
    case Leaf(_, _) =>
    case Group(body) => InForceMatches(body, w);
    case Concat(items) => EachInForceMatches(items, w);
    case Alternation(branches) =>
      forall i | 0 <= i < |branches|
        ensures Matches(InForce(branches[i]), w) <==> Matches(branches[i], w)
      {
        InForceMatches(branches[i], w);
      }
    case Repetition(kind, body) =>
      forall n: nat
        ensures MatchesTimes(InForce(body), n, w) <==> MatchesTimes(body, n, w)
      {
        InForceTimes(body, n, w);
      }
  }

  /** And leaves no leaf that a flag changes. */
  lemma {:induction false} InForceIsUntouched(a: Ast)
    ensures Untouched(InForce(a))
  {
    match a
    case Group(body) => InForceIsUntouched(body);
    case Concat(items) =>
      forall i | 0 <= i < |items|
        ensures Untouched(InForce(items[i]))
      {
        InForceIsUntouched(items[i]);
      }
    case Alternation(branches) =>
      forall i | 0 <= i < |branches|
        ensures Untouched(InForce(branches[i]))
      {
        InForceIsUntouched(branches[i]);
      }
    case Repetition(_, body) => InForceIsUntouched(body);
    case _ =>
  }

  lemma {:induction false} EachInForceMatches(items: seq<Ast>, w: string)
    ensures MatchesAll(EachInForce(items), w) <==> MatchesAll(items, w)
    decreases items, 0
  {
    if items != [] {
      assert EachInForce(items)[1..] == EachInForce(items[1..]);
      forall i | 0 <= i <= |w|
        ensures Matches(InForce(items[0]), w[..i]) <==> Matches(items[0], w[..i])
        ensures MatchesAll(EachInForce(items[1..]), w[i..]) <==> MatchesAll(items[1..], w[i..])
      {
        InForceMatches(items[0], w[..i]);
        EachInForceMatches(items[1..], w[i..]);
      }
    }
  }

  lemma {:induction false} InForceTimes(a: Ast, n: nat, w: string)
    ensures MatchesTimes(InForce(a), n, w) <==> MatchesTimes(a, n, w)
    decreases a, 2, n
  {
    if n > 0 {
      forall i | 0 <= i <= |w|
        ensures Matches(InForce(a), w[..i]) <==> Matches(a, w[..i])
        ensures MatchesTimes(InForce(a), n - 1, w[i..]) <==> MatchesTimes(a, n - 1, w[i..])
      {
        InForceMatches(a, w[..i]);
        InForceTimes(a, n - 1, w[i..]);
      }
    }
  }

  /** `part` is `whole` or occurs inside it. */
  ghost predicate Within(part: Ast, whole: Ast) {
    part == whole ||
    match whole
    case Group(body) => Within(part, body)
    case Concat(items) => exists x :: x in items && Within(part, x)
    case Alternation(branches) => exists x :: x in branches && Within(part, x)
    case Repetition(_, body) => Within(part, body)
    case _ => false
  }

  /** Some word of `a`, as a covered expression always has one. */
  lemma {:induction false} Inhabited(a: Ast) returns (w: string)
    requires Covered(a)
    ensures Matches(a, w)
    decreases a, 1
  {
    match a
    case Empty | Flags | Assertion => w := "";
    case Leaf(_, matched) =>
      var c :| c in matched;
      w := [c];
    case Group(body) => w := Inhabited(body);
    case Concat(items) => w := AllInhabited(items);
    case Alternation(branches) =>
      w := Inhabited(branches[0]);
    case Repetition(kind, body) =>
      w := TimesInhabited(body, MinOf(kind));
      assert Allows(kind, MinOf(kind));
  }

  lemma {:induction false} AllInhabited(items: seq<Ast>) returns (w: string)
    requires forall x :: x in items ==> Covered(x)
    ensures MatchesAll(items, w)
    decreases items, 0
  {
    w := "";
    if items != [] {
      var first := Inhabited(items[0]);
      var rest := AllInhabited(items[1..]);
      w := first + rest;
      assert w[..|first|] == first && w[|first|..] == rest;
    }
  }

  lemma {:induction false} TimesInhabited(a: Ast, n: nat) returns (w: string)
    requires Covered(a)
    ensures MatchesTimes(a, n, w)
    decreases a, 2, n
  {
    w := "";
    if n > 0 {
      var first := Inhabited(a);
      var rest := TimesInhabited(a, n - 1);
      w := first + rest;
      assert w[..|first|] == first && w[|first|..] == rest;
    }
  }
}
