/** The condition grammar and its recursive-descent parser
    (crates/core/src/condition.rs:3-12, 503-607). */
module ConditionParser {
  import opened Wrappers
  import PathText
  import Sequences

  datatype CompareOp = Eq | Ne | Lt | Gt | Le | Ge | Match | NotMatch

  datatype Literal = NullLit | BoolLit(b: bool) | IntLit(i: int) | FloatLit(f: real) | StrLit(text: string)

  datatype Condition =
    | Compare(field: PathText.FieldPath, op: CompareOp, literal: Literal)
    | And(left: Condition, right: Condition)
    | Or(left: Condition, right: Condition)
    | Not(inner: Condition)

  /** A bare word is a keyword or a path of one root; a path is kept as written. */
  datatype Tok =
    | Ident(name: string)
    | Path(text: string)
    | StrTok(s: string)
    | IntTok(i: int)
    | FloatTok(f: real)
    | OpTok(op: CompareOp)
    | LParen
    | RParen

  datatype ParseError =
    | UnexpectedEnd
    | UnexpectedToken(tok: Tok)
    | RegexNeedsString
    | Field(error: PathText.PathError)

  // ----- the grammar -----

  predicate Keyword(ts: seq<Tok>, word: string) {
    ts != [] && ts[0] == Ident(word)
  }

  function LiteralOf(t: Tok): Option<Literal> {
    match t
    case StrTok(s) => Some(StrLit(s))
    case IntTok(i) => Some(IntLit(i))
    case FloatTok(f) => Some(FloatLit(f))
    case Ident(name) =>
      if name == "true" then Some(BoolLit(true))
      else if name == "false" then Some(BoolLit(false))
      else if name == "null" then Some(NullLit)
      else None
    case _ => None
  }

  function PathOf(t: Tok): Option<Result<PathText.FieldPath, PathText.PathError>> {
    match t
    case Ident(name) => Some(PathText.Parse(name))
    case Path(text) => Some(PathText.Parse(text))
    case _ => None
  }

  predicate IsRegexOp(op: CompareOp) {
    op == Match || op == NotMatch
  }

  /** `or := and ("or" and)*`, folded to the left. */
  ghost predicate DerivesOr(ts: seq<Tok>, c: Condition)
    decreases |ts|, 3
  {
    DerivesAnd(ts, c) ||
    (c.Or? && exists k ::
      0 <= k < |ts| && ts[k] == Ident("or") && DerivesOr(ts[..k], c.left) && DerivesAnd(ts[k + 1..], c.right))
  }

  /** `and := not ("and" not)*`, folded to the left. */
  ghost predicate DerivesAnd(ts: seq<Tok>, c: Condition)
    decreases |ts|, 2
  {
    DerivesNot(ts, c) ||
    (c.And? && exists k ::
      0 <= k < |ts| && ts[k] == Ident("and") && DerivesAnd(ts[..k], c.left) && DerivesNot(ts[k + 1..], c.right))
  }

  /** `not := "not" not | primary`; a bare `not` is the keyword and never a path. */
  ghost predicate DerivesNot(ts: seq<Tok>, c: Condition)
    decreases |ts|, 1
  {
    if Keyword(ts, "not") then c.Not? && DerivesNot(ts[1..], c.inner)
    else DerivesPrimary(ts, c)
  }

  /** `primary := "(" condition ")" | path op literal`; `=~` and `!~` take a string. */
  ghost predicate DerivesPrimary(ts: seq<Tok>, c: Condition)
    decreases |ts|, 0
  {
    (|ts| >= 2 && ts[0] == LParen && ts[|ts| - 1] == RParen && DerivesOr(ts[1..|ts| - 1], c)) ||
    (|ts| == 3 && c.Compare? && PathOf(ts[0]) == Some(Ok(c.field)) && ts[1] == OpTok(c.op)
      && LiteralOf(ts[2]) == Some(c.literal)
     && (IsRegexOp(c.op) ==> c.literal.StrLit?))
  }

  // ----- the parser, on what is left of the tokens -----

  /** A condition and the tokens after it. */
  datatype Parsed = Parsed(c: Condition, rest: seq<Tok>)

  function ParseOr(ts: seq<Tok>): (r: Result<Parsed, ParseError>)
    ensures r.Ok? ==> |r.value.rest| < |ts|
    decreases |ts|, 3
  {
    match ParseAnd(ts)
    case Err(e) => Err(e)
    case Ok(Parsed(left, rest)) => OrTail(left, rest)
  }

  function OrTail(left: Condition, ts: seq<Tok>): (r: Result<Parsed, ParseError>)
    ensures r.Ok? ==> |r.value.rest| <= |ts|
    decreases |ts|, 4
  {
    if !Keyword(ts, "or") then Ok(Parsed(left, ts))
    else
      match ParseAnd(ts[1..])
      case Err(e) => Err(e)
      case Ok(Parsed(right, rest)) => OrTail(Or(left, right), rest)
  }

  function ParseAnd(ts: seq<Tok>): (r: Result<Parsed, ParseError>)
    ensures r.Ok? ==> |r.value.rest| < |ts|
    decreases |ts|, 2
  {
    match ParseNot(ts)
    case Err(e) => Err(e)
    case Ok(Parsed(left, rest)) => AndTail(left, rest)
  }

  function AndTail(left: Condition, ts: seq<Tok>): (r: Result<Parsed, ParseError>)
    ensures r.Ok? ==> |r.value.rest| <= |ts|
    decreases |ts|, 4
  {
    if !Keyword(ts, "and") then Ok(Parsed(left, ts))
    else
      match ParseNot(ts[1..])
      case Err(e) => Err(e)
      case Ok(Parsed(right, rest)) => AndTail(And(left, right), rest)
  }

  function ParseNot(ts: seq<Tok>): (r: Result<Parsed, ParseError>)
    ensures r.Ok? ==> |r.value.rest| < |ts|
    decreases |ts|, 1
  {
    if Keyword(ts, "not") then
      match ParseNot(ts[1..])
      case Err(e) => Err(e)
      case Ok(Parsed(inner, rest)) => Ok(Parsed(Not(inner), rest))
    else ParsePrimary(ts)
  }

  function ParsePrimary(ts: seq<Tok>): (r: Result<Parsed, ParseError>)
    ensures r.Ok? ==> |r.value.rest| < |ts|
    decreases |ts|, 0
  {
    if ts == [] then Err(UnexpectedEnd)
    else if ts[0] == LParen then
      match ParseOr(ts[1..])
      case Err(e) => Err(e)
      case Ok(Parsed(inner, rest)) =>
        if rest == [] then Err(UnexpectedEnd)
        else if rest[0] == RParen then Ok(Parsed(inner, rest[1..]))
        else Err(UnexpectedToken(rest[0]))
    else ParseComparison(ts)
  }

  function ParseComparison(ts: seq<Tok>): (r: Result<Parsed, ParseError>)
    requires ts != []
    ensures r.Ok? ==> |r.value.rest| < |ts|
  {
    match PathOf(ts[0])
    case None => Err(UnexpectedToken(ts[0]))
    case Some(Err(e)) => Err(Field(e))
    case Some(Ok(field)) =>
      if |ts| == 1 then Err(UnexpectedEnd)
      else if !ts[1].OpTok? then Err(UnexpectedToken(ts[1]))
      else if |ts| == 2 then Err(UnexpectedEnd)
      else
        match LiteralOf(ts[2])
        case None => Err(UnexpectedToken(ts[2]))
        case Some(literal) =>
          if IsRegexOp(ts[1].op) && !literal.StrLit? then Err(RegexNeedsString)
          else Ok(Parsed(Compare(field, ts[1].op, literal), ts[3..]))
  }

  /** `Condition::parse` on tokens: a condition and nothing after it. */
  function Parse(ts: seq<Tok>): Result<Condition, ParseError> {
    match ParseOr(ts)
    case Err(e) => Err(e)
    case Ok(Parsed(c, rest)) => if rest == [] then Ok(c) else Err(UnexpectedToken(rest[0]))
  }

  // ----- the parser as the source writes it: a position moved along the tokens -----

  class Parser {
    const tokens: seq<Tok>
    var pos: nat

    constructor (tokens: seq<Tok>)
      ensures this.tokens == tokens && pos == 0
    {
      this.tokens := tokens;
      pos := 0;
    }

    /** A step from `start` that did what the function form says. */
    ghost predicate Follows(start: nat, r: Result<Condition, ParseError>, parsed: Result<Parsed, ParseError>)
      reads this
    {
      && start <= pos <= |tokens|
      && match parsed
         case Err(e) => r == Err(e)
         case Ok(Parsed(c, rest)) => r == Ok(c) && rest == tokens[pos..]
    }

    predicate PeekKeyword(word: string)
      reads this
    {
      pos < |tokens| && tokens[pos] == Ident(word)
    }

    method ParseOrHere() returns (r: Result<Condition, ParseError>)
      requires pos <= |tokens|
      modifies this
      ensures Follows(old(pos), r, ParseOr(tokens[old(pos)..]))
      decreases |tokens| - pos, 3
    {
      r := ParseAndHere();
      while r.Ok? && PeekKeyword("or")
        invariant old(pos) <= pos <= |tokens|
        invariant r.Ok? ==> old(pos) < pos && OrTail(r.value, tokens[pos..]) == ParseOr(tokens[old(pos)..])
        invariant r.Err? ==> ParseOr(tokens[old(pos)..]) == Err(r.error)
        decreases |tokens| - pos, r.Ok?
      {
        var left := r.value;
        assert tokens[pos..][1..] == tokens[pos + 1..];
        pos := pos + 1;
        r := ParseAndHere();
        if r.Ok? {
          r := Ok(Or(left, r.value));
        }
      }
    }

    method ParseAndHere() returns (r: Result<Condition, ParseError>)
      requires pos <= |tokens|
      modifies this
      ensures Follows(old(pos), r, ParseAnd(tokens[old(pos)..]))
      ensures r.Ok? ==> pos > old(pos)
      decreases |tokens| - pos, 2
    {
      r := ParseNotHere();
      while r.Ok? && PeekKeyword("and")
        invariant old(pos) <= pos <= |tokens|
        invariant r.Ok? ==> old(pos) < pos && AndTail(r.value, tokens[pos..]) == ParseAnd(tokens[old(pos)..])
        invariant r.Err? ==> ParseAnd(tokens[old(pos)..]) == Err(r.error)
        decreases |tokens| - pos, r.Ok?
      {
        var left := r.value;
        assert tokens[pos..][1..] == tokens[pos + 1..];
        pos := pos + 1;
        r := ParseNotHere();
        if r.Ok? {
          r := Ok(And(left, r.value));
        }
      }
    }

    method ParseNotHere() returns (r: Result<Condition, ParseError>)
      requires pos <= |tokens|
      modifies this
      ensures Follows(old(pos), r, ParseNot(tokens[old(pos)..]))
      ensures r.Ok? ==> pos > old(pos)
      decreases |tokens| - pos, 1
    {
      if PeekKeyword("not") {
        assert tokens[pos..][1..] == tokens[pos + 1..];
        pos := pos + 1;
        r := ParseNotHere();
        if r.Ok? {
          r := Ok(Not(r.value));
        }
      } else {
        r := ParsePrimaryHere();
      }
    }

    method ParsePrimaryHere() returns (r: Result<Condition, ParseError>)
      requires pos <= |tokens|
      modifies this
      ensures Follows(old(pos), r, ParsePrimary(tokens[old(pos)..]))
      ensures r.Ok? ==> pos > old(pos)
      decreases |tokens| - pos, 0
    {
      if pos == |tokens| {
        return Err(UnexpectedEnd);
      }
      if tokens[pos] == LParen {
        assert tokens[pos..][1..] == tokens[pos + 1..];
        pos := pos + 1;
        r := ParseOrHere();
        if r.Err? {
          return;
        }
        if pos == |tokens| {
          return Err(UnexpectedEnd);
        }
        if tokens[pos] != RParen {
          return Err(UnexpectedToken(tokens[pos]));
        }
        assert tokens[pos..][1..] == tokens[pos + 1..];
        pos := pos + 1;
      } else {
        var parsed := ParseComparison(tokens[pos..]);
        match parsed
        case Err(e) => r := Err(e);
        case Ok(Parsed(c, rest)) =>
          assert tokens[pos..][3..] == tokens[pos + 3..];
          pos := pos + 3;
          r := Ok(c);
      }
    }
  }

  method ParseCondition(tokens: seq<Tok>) returns (r: Result<Condition, ParseError>)
    ensures r == Parse(tokens)
  {
    var parser := new Parser(tokens);
    assert tokens[0..] == tokens;
    r := parser.ParseOrHere();
    if r.Ok? && parser.pos < |tokens| {
      r := Err(UnexpectedToken(tokens[parser.pos]));
    }
  }

  // ----- the parser accepts what the grammar derives -----

  lemma {:induction false} OrComplete(ts: seq<Tok>, c: Condition, rest: seq<Tok>)
    requires DerivesOr(ts, c) && !Keyword(rest, "and")
    ensures ParseOr(ts + rest) == OrTail(c, rest)
    decreases |ts|, 3
  {
    if DerivesAnd(ts, c) {
      AndComplete(ts, c, rest);
    } else {
      var k :| 0 <= k < |ts| && ts[k] == Ident("or") && DerivesOr(ts[..k], c.left) && DerivesAnd(ts[k + 1..], c.right);
      Joint(ts, k, rest);
      OrComplete(ts[..k], c.left, ts[k..] + rest);
      AndComplete(ts[k + 1..], c.right, rest);
    }
  }

  lemma {:induction false} AndComplete(ts: seq<Tok>, c: Condition, rest: seq<Tok>)
    requires DerivesAnd(ts, c)
    ensures ParseAnd(ts + rest) == AndTail(c, rest)
    decreases |ts|, 2
  {
    if DerivesNot(ts, c) {
      NotComplete(ts, c, rest);
    } else {
      var k :| 0 <= k < |ts| && ts[k] == Ident("and") && DerivesAnd(ts[..k], c.left)
        && DerivesNot(ts[k + 1..], c.right);
      Joint(ts, k, rest);
      AndComplete(ts[..k], c.left, ts[k..] + rest);
      NotComplete(ts[k + 1..], c.right, rest);
    }
  }

  lemma {:induction false} NotComplete(ts: seq<Tok>, c: Condition, rest: seq<Tok>)
    requires DerivesNot(ts, c)
    ensures ParseNot(ts + rest) == Ok(Parsed(c, rest))
    decreases |ts|, 1
  {
    if Keyword(ts, "not") {
      NotComplete(ts[1..], c.inner, rest);
      assert (ts + rest)[1..] == ts[1..] + rest;
    } else {
      PrimaryComplete(ts, c, rest);
    }
  }

  lemma {:induction false} PrimaryComplete(ts: seq<Tok>, c: Condition, rest: seq<Tok>)
    requires DerivesPrimary(ts, c)
    ensures ts != [] && ParsePrimary(ts + rest) == Ok(Parsed(c, rest))
    decreases |ts|, 0
  {
    if |ts| >= 2 && ts[0] == LParen && ts[|ts| - 1] == RParen && DerivesOr(ts[1..|ts| - 1], c) {
      var inner := ts[1..|ts| - 1];
      OrComplete(inner, c, [RParen] + rest);
      assert (ts + rest)[1..] == inner + ([RParen] + rest);
      assert ([RParen] + rest)[1..] == rest;
    } else {
      assert (ts + rest)[3..] == rest;
    }
  }

  /** Cutting `ts + rest` around the token at `k`. */
  lemma Joint(ts: seq<Tok>, k: nat, rest: seq<Tok>)
    requires k < |ts|
    ensures ts + rest == ts[..k] + (ts[k..] + rest)
    ensures (ts[k..] + rest)[0] == ts[k]
    ensures (ts[k..] + rest)[1..] == ts[k + 1..] + rest
  {
  }

  // ----- and nothing else -----

  /** What was read of `ts` when `rest` is left. */
  function Taken(ts: seq<Tok>, rest: seq<Tok>): seq<Tok>
    requires |rest| <= |ts|
  {
    ts[..|ts| - |rest|]
  }

  ghost predicate IsSuffix(rest: seq<Tok>, ts: seq<Tok>) {
    |rest| <= |ts| && ts == Taken(ts, rest) + rest
  }

  /** Reading on after a first token, or after a first stretch. */
  lemma SuffixOfSuffix(ts: seq<Tok>, mid: seq<Tok>, rest: seq<Tok>)
    requires IsSuffix(mid, ts) && IsSuffix(rest, mid)
    ensures IsSuffix(rest, ts) && Taken(ts, rest) == Taken(ts, mid) + Taken(mid, rest)
  {
  }

  lemma SuffixOfTail(ts: seq<Tok>, rest: seq<Tok>)
    requires ts != [] && IsSuffix(rest, ts[1..])
    ensures IsSuffix(rest, ts) && Taken(ts, rest) == [ts[0]] + Taken(ts[1..], rest)
  {
    assert ts == [ts[0]] + ts[1..];
  }

  lemma {:induction false} OrSound(ts: seq<Tok>, p: Parsed)
    requires ParseOr(ts) == Ok(p)
    ensures IsSuffix(p.rest, ts) && DerivesOr(Taken(ts, p.rest), p.c)
    decreases |ts|, 3
  {
    var first := ParseAnd(ts).value;
    AndSound(ts, first);
    OrTailSound(Taken(ts, first.rest), first.c, first.rest, p);
    SuffixOfSuffix(ts, first.rest, p.rest);
  }

  lemma {:induction false} OrTailSound(before: seq<Tok>, left: Condition, ts: seq<Tok>, p: Parsed)
    requires DerivesOr(before, left) && OrTail(left, ts) == Ok(p)
    ensures IsSuffix(p.rest, ts) && DerivesOr(before + Taken(ts, p.rest), p.c)
    decreases |ts|, 4
  {
    if Keyword(ts, "or") {
      var next := ParseAnd(ts[1..]).value;
      AndSound(ts[1..], next);
      SuffixOfTail(ts, next.rest);
      var longer := before + Taken(ts, next.rest);
      Appended(before, ts[0], Taken(ts[1..], next.rest));
      assert DerivesOr(longer, Or(left, next.c));
      OrTailSound(longer, Or(left, next.c), next.rest, p);
      SuffixOfSuffix(ts, next.rest, p.rest);
      Sequences.Associative(before, Taken(ts, next.rest), Taken(next.rest, p.rest));
    } else {
      assert before + Taken(ts, ts) == before;
    }
  }

  lemma {:induction false} AndSound(ts: seq<Tok>, p: Parsed)
    requires ParseAnd(ts) == Ok(p)
    ensures IsSuffix(p.rest, ts) && DerivesAnd(Taken(ts, p.rest), p.c)
    decreases |ts|, 2
  {
    var first := ParseNot(ts).value;
    NotSound(ts, first);
    AndTailSound(Taken(ts, first.rest), first.c, first.rest, p);
    SuffixOfSuffix(ts, first.rest, p.rest);
  }

  lemma {:induction false} AndTailSound(before: seq<Tok>, left: Condition, ts: seq<Tok>, p: Parsed)
    requires DerivesAnd(before, left) && AndTail(left, ts) == Ok(p)
    ensures IsSuffix(p.rest, ts) && DerivesAnd(before + Taken(ts, p.rest), p.c)
    decreases |ts|, 4
  {
    if Keyword(ts, "and") {
      var next := ParseNot(ts[1..]).value;
      NotSound(ts[1..], next);
      SuffixOfTail(ts, next.rest);
      var longer := before + Taken(ts, next.rest);
      Appended(before, ts[0], Taken(ts[1..], next.rest));
      assert DerivesAnd(longer, And(left, next.c));
      AndTailSound(longer, And(left, next.c), next.rest, p);
      SuffixOfSuffix(ts, next.rest, p.rest);
      Sequences.Associative(before, Taken(ts, next.rest), Taken(next.rest, p.rest));
    } else {
      assert before + Taken(ts, ts) == before;
    }
  }

  /** Where the joining keyword stands once it and what follows it are appended. */
  lemma Appended(before: seq<Tok>, t: Tok, after: seq<Tok>)
    ensures (before + ([t] + after))[|before|] == t
    ensures (before + ([t] + after))[..|before|] == before
    ensures (before + ([t] + after))[|before| + 1..] == after
  {
  }

  lemma {:induction false} NotSound(ts: seq<Tok>, p: Parsed)
    requires ParseNot(ts) == Ok(p)
    ensures IsSuffix(p.rest, ts) && DerivesNot(Taken(ts, p.rest), p.c)
    decreases |ts|, 1
  {
    if Keyword(ts, "not") {
      var inner := ParseNot(ts[1..]).value;
      NotSound(ts[1..], inner);
      SuffixOfTail(ts, inner.rest);
      assert Taken(ts, p.rest)[1..] == Taken(ts[1..], inner.rest);
    } else {
      PrimarySound(ts, p);
    }
  }

  lemma {:induction false} PrimarySound(ts: seq<Tok>, p: Parsed)
    requires ParsePrimary(ts) == Ok(p)
    ensures IsSuffix(p.rest, ts) && DerivesPrimary(Taken(ts, p.rest), p.c)
    ensures ts != [] && |p.rest| < |ts|
    decreases |ts|, 0
  {
    if ts[0] == LParen {
      var inner := ParseOr(ts[1..]).value;
      OrSound(ts[1..], inner);
      SuffixOfTail(ts, inner.rest);
      SuffixOfTail(inner.rest, p.rest);
      SuffixOfSuffix(ts, inner.rest, p.rest);
      var used := Taken(ts, p.rest);
      assert used == [LParen] + Taken(ts[1..], inner.rest) + [RParen];
      assert used[1..|used| - 1] == Taken(ts[1..], inner.rest);
    } else {
      assert p.rest == ts[3..];
    }
  }

  /** The parser accepts exactly the token lists the grammar derives, reads them to the end,
      and returns the tree the grammar gives them. */
  lemma ParsesExactlyTheGrammar(ts: seq<Tok>, c: Condition)
    ensures Parse(ts) == Ok(c) <==> DerivesOr(ts, c)
  {
    if Parse(ts) == Ok(c) {
      var p := ParseOr(ts).value;
      OrSound(ts, p);
      assert Taken(ts, p.rest) == ts;
    }
    if DerivesOr(ts, c) {
      OrComplete(ts, c, []);
      assert ts + [] == ts;
    }
  }

  /** The grammar gives a token list at most one tree. */
  lemma GrammarIsUnambiguous(ts: seq<Tok>, c: Condition, d: Condition)
    requires DerivesOr(ts, c) && DerivesOr(ts, d)
    ensures c == d
  {
    ParsesExactlyTheGrammar(ts, c);
    ParsesExactlyTheGrammar(ts, d);
  }

  /** A refusal means that no tree fits. */
  lemma RefusedIsUnderivable(ts: seq<Tok>, c: Condition)
    requires Parse(ts).Err?
    ensures !DerivesOr(ts, c)
  {
    ParsesExactlyTheGrammar(ts, c);
  }
}
