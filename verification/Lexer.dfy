/** The condition lexer (crates/core/src/condition.rs:304-497). Offsets count characters; the
    source counts bytes, but every character it looks for is ASCII. */
module Lexer {
  import opened Wrappers
  import opened ConditionParser
  import Decimal
  import PathText
  import Sequences

  datatype LexError =
    | UnexpectedChar(ch: char, offset: nat)
    | UnterminatedString(offset: nat)
    | UnterminatedQuote(offset: nat)
    | InvalidNumber(text: string, offset: nat)

  /** A token and the offset just past it. */
  datatype Lexed = Lexed(tok: Tok, end: nat)

  const I128_LIMIT: int := 0x8000_0000_0000_0000_0000_0000_0000_0000

  /** Reading a float; what it accepts is left open. */
  type FloatReader = string -> Option<real>

  predicate IsSpace(c: char) {
    c == ' ' || c == '\t' || c == '\n' || c == '\r'
  }

  predicate IsQuote(c: char) {
    c == '"' || c == '\''
  }

  /** Keeps a bare segment going: wider than what a segment may hold. */
  predicate ContinuesBareSegment(c: char) {
    && !IsSpace(c) && !IsQuote(c)
    && c != '.' && c != '(' && c != ')' && c != '[' && c != ']'
    && c != '=' && c != '!' && c != '<' && c != '>'
  }

  predicate StartsName(c: char) {
    'a' <= c <= 'z' || 'A' <= c <= 'Z' || c == '_'
  }

  predicate StartsNumber(c: char) {
    c == '-' || Decimal.IsDigit(c)
  }

  predicate ContinuesNumber(c: char) {
    Decimal.IsDigit(c) || c == '.' || c == 'e' || c == 'E' || c == '+' || c == '-'
  }

  // ----- tokens, as functions of an offset -----

  /** Where a run of characters that satisfy `goesOn` stops, from `i`. */
  function StopOf(goesOn: char -> bool, expr: string, i: nat): (end: nat)
    requires i <= |expr|
    ensures i <= end <= |expr|
    decreases |expr| - i
  {
    if i < |expr| && goesOn(expr[i]) then StopOf(goesOn, expr, i + 1) else i
  }

  function BareStop(expr: string, i: nat): (end: nat)
    requires i <= |expr|
    ensures i <= end <= |expr|
  {
    StopOf(ContinuesBareSegment, expr, i)
  }

  /** The offset of the closing bracket, quotes honoured; the end when there is none. */
  function BracketStop(expr: string, i: nat): (end: nat)
    requires i <= |expr|
    ensures i <= end <= |expr|
    decreases |expr| - i
  {
    if i == |expr| || expr[i] == ']' then i
    else if IsQuote(expr[i]) then
      match PathText.QuotedEnd(expr, i)
      case None => |expr|
      case Some(end) => BracketStop(expr, end)
    else BracketStop(expr, i + 1)
  }

  /** Past one `.` and the segment after it; nothing when a quote is left open. */
  function SegmentStop(expr: string, i: nat): (end: Option<nat>)
    requires i < |expr|
    ensures end.Some? ==> i < end.value <= |expr|
  {
    if i + 1 < |expr| && expr[i + 1] == '"' then
      match PathText.QuotedEnd(expr, i + 1)
      case None => None
      case Some(closed) => Some(BareStop(expr, closed))
    else Some(BareStop(expr, i + 1))
  }

  /** `lex_path_rest`: past every segment and bracket from `i` on. */
  function PathStop(expr: string, i: nat): (end: Option<nat>)
    requires i <= |expr|
    ensures end.Some? ==> i <= end.value <= |expr|
    ensures end.Some? && i < |expr| && (expr[i] == '.' || expr[i] == '[') ==> i < end.value
    decreases |expr| - i
  {
    if i == |expr| then Some(i)
    else if expr[i] == '.' then
      match SegmentStop(expr, i)
      case None => None
      case Some(next) => PathStop(expr, next)
    else if expr[i] == '[' then
      var close := BracketStop(expr, i + 1);
      PathStop(expr, if close < |expr| then close + 1 else |expr|)
    else Some(i)
  }

  /** From inside a quoted string at `i`: its text unescaped, and the offset past it. */
  function StringEnd(expr: string, quote: char, i: nat): (r: Option<(string, nat)>)
    ensures r.Some? ==> i < r.value.1 <= |expr|
    decreases if i < |expr| then |expr| - i else 0
  {
    if i >= |expr| then None
    else if expr[i] == '\\' && i + 1 == |expr| then None
    else if expr[i] == quote && quote != '\\' then Some(("", i + 1))
    else
      var step := if expr[i] == '\\' then 2 else 1;
      match StringEnd(expr, quote, i + step)
      case None => None
      case Some((rest, end)) => Some(([if step == 2 then Unescaped(expr[i + 1]) else expr[i]] + rest, end))
  }

  function Unescaped(c: char): char {
    if c == 'n' then '\n' else if c == 't' then '\t' else if c == 'r' then '\r' else c
  }

  function OpAt(expr: string, i: nat): (r: Option<Lexed>)
    requires i < |expr|
    ensures r.Some? ==> i < r.value.end <= |expr|
  {
    var next := if i + 1 < |expr| then expr[i + 1] else ' ';
    match expr[i]
    case '=' =>
      if next == '=' then Some(Lexed(OpTok(Eq), i + 2))
      else if next == '~' then Some(Lexed(OpTok(Match), i + 2))
      else None
    case '!' =>
      if next == '=' then Some(Lexed(OpTok(Ne), i + 2))
      else if next == '~' then Some(Lexed(OpTok(NotMatch), i + 2))
      else None
    case '<' => Some(if next == '=' then Lexed(OpTok(Le), i + 2) else Lexed(OpTok(Lt), i + 1))
    case '>' => Some(if next == '=' then Lexed(OpTok(Ge), i + 2) else Lexed(OpTok(Gt), i + 1))
    case _ => None
  }

  /** `parse::<i128>` on a text that starts with `-` or a digit. */
  function IntegerOf(text: string): Option<int> {
    var negative := text != "" && text[0] == '-';
    var digits := if negative then text[1..] else text;
    if digits == "" || !Decimal.AllDigits(digits) then None
    else
      var magnitude: int := Decimal.ValueOf(digits);
      var n := if negative then -magnitude else magnitude;
      if -I128_LIMIT <= n < I128_LIMIT then Some(n) else None
  }

  function NumberOf(text: string, offset: nat, floatOf: FloatReader): Result<Tok, LexError> {
    match IntegerOf(text)
    case Some(n) => Ok(IntTok(n))
    case None =>
      match floatOf(text)
      case Some(f) => Ok(FloatTok(f))
      case None => Err(InvalidNumber(text, offset))
  }

  /** The token that starts at `i`, which is not a space. */
  function TokenAt(expr: string, i: nat, floatOf: FloatReader): (r: Result<Lexed, LexError>)
    requires i < |expr|
    ensures r.Ok? ==> i < r.value.end <= |expr|
  {
    var c := expr[i];
    if c == '(' then Ok(Lexed(LParen, i + 1))
    else if c == ')' then Ok(Lexed(RParen, i + 1))
    else if c == '=' || c == '!' || c == '<' || c == '>' then
      match OpAt(expr, i)
      case None => Err(UnexpectedChar(c, i))
      case Some(lexed) => Ok(lexed)
    else if IsQuote(c) then
      match StringEnd(expr, c, i + 1)
      case None => Err(UnterminatedString(i))
      case Some((text, end)) => Ok(Lexed(StrTok(text), end))
    else if c == '.' then PathToken(expr, i, i)
    else if StartsNumber(c) then
      var end := StopOf(ContinuesNumber, expr, i + 1);
      match NumberOf(expr[i..end], i, floatOf)
      case Err(e) => Err(e)
      case Ok(tok) => Ok(Lexed(tok, end))
    else if StartsName(c) then
      var end := BareStop(expr, i + 1);
      if end < |expr| && (expr[end] == '.' || expr[end] == '[') then PathToken(expr, i, end)
      else Ok(Lexed(Ident(expr[i..end]), end))
    else Err(UnexpectedChar(c, i))
  }

  function PathToken(expr: string, start: nat, i: nat): (r: Result<Lexed, LexError>)
    requires start <= i < |expr| && (expr[i] == '.' || expr[i] == '[')
    ensures r.Ok? ==> i < r.value.end <= |expr|
  {
    match PathStop(expr, i)
    case None => Err(UnterminatedQuote(start))
    case Some(end) => Ok(Lexed(Path(expr[start..end]), end))
  }

  /** The tokens from `i` on. */
  function LexFrom(expr: string, i: nat, floatOf: FloatReader): Result<seq<Tok>, LexError>
    requires i <= |expr|
    decreases |expr| - i
  {
    if i == |expr| then Ok([])
    else if IsSpace(expr[i]) then LexFrom(expr, i + 1, floatOf)
    else
      match TokenAt(expr, i, floatOf)
      case Err(e) => Err(e)
      case Ok(Lexed(tok, end)) => Following([tok], LexFrom(expr, end, floatOf))
  }

  function Following(done: seq<Tok>, rest: Result<seq<Tok>, LexError>): Result<seq<Tok>, LexError> {
    match rest
    case Err(e) => Err(e)
    case Ok(more) => Ok(done + more)
  }

  // ----- the loops of the source -----

  method SkipWhile(goesOn: char -> bool, expr: string, start: nat) returns (i: nat)
    requires start <= |expr|
    ensures i == StopOf(goesOn, expr, start)
  {
    i := start;
    while i < |expr| && goesOn(expr[i])
      invariant start <= i <= |expr|
      invariant StopOf(goesOn, expr, i) == StopOf(goesOn, expr, start)
    {
      i := i + 1;
    }
  }

  method SkipBracket(expr: string, start: nat) returns (i: nat)
    requires start <= |expr|
    ensures i == BracketStop(expr, start)
  {
    i := start;
    while i < |expr| && expr[i] != ']'
      invariant start <= i <= |expr|
      invariant BracketStop(expr, i) == BracketStop(expr, start)
    {
      if IsQuote(expr[i]) {
        var end := PathText.FindQuotedEnd(expr, i);
        i := if end.Some? then end.value else |expr|;
      } else {
        i := i + 1;
      }
    }
  }

  method LexPathRest(expr: string, start: nat) returns (end: Option<nat>)
    requires start <= |expr|
    ensures end == PathStop(expr, start)
  {
    var i := start;
    while i < |expr|
      invariant start <= i <= |expr|
      invariant PathStop(expr, i) == PathStop(expr, start)
    {
      if expr[i] == '.' {
        var next := i + 1;
        if next < |expr| && expr[next] == '"' {
          var closed := PathText.FindQuotedEnd(expr, next);
          if closed.None? {
            return None;
          }
          next := closed.value;
        }
        i := SkipWhile(ContinuesBareSegment, expr, next);
      } else if expr[i] == '[' {
        i := SkipBracket(expr, i + 1);
        i := if i + 1 < |expr| then i + 1 else |expr|;
      } else {
        break;
      }
    }
    end := Some(i);
  }

  method LexString(expr: string, start: nat) returns (r: Result<(string, nat), LexError>)
    requires start < |expr| && IsQuote(expr[start])
    ensures r == match StringEnd(expr, expr[start], start + 1)
      case None => Err(UnterminatedString(start))
      case Some(found) => Ok(found)
  {
    var quote := expr[start];
    var out := "";
    var i := start + 1;
    PrependedStep(out, quote, StringEnd(expr, quote, i));
    while i < |expr|
      invariant start < i <= |expr|
      invariant StringEnd(expr, quote, start + 1) == Prepended(out, StringEnd(expr, quote, i))
    {
      var c := expr[i];
      if c == '\\' {
        if i + 1 == |expr| {
          return Err(UnterminatedString(start));
        }
        PrependedStep(out, Unescaped(expr[i + 1]), StringEnd(expr, quote, i + 2));
        out := out + [Unescaped(expr[i + 1])];
        i := i + 2;
      } else if c == quote {
        assert out + "" == out;
        return Ok((out, i + 1));
      } else {
        PrependedStep(out, c, StringEnd(expr, quote, i + 1));
        out := out + [c];
        i := i + 1;
      }
    }
    r := Err(UnterminatedString(start));
  }

  ghost function Prepended(out: string, r: Option<(string, nat)>): Option<(string, nat)> {
    match r
    case None => None
    case Some((rest, end)) => Some((out + rest, end))
  }

  lemma PrependedStep(out: string, c: char, r: Option<(string, nat)>)
    ensures Prepended(out, Prepended([c], r)) == Prepended(out + [c], r)
    ensures Prepended("", r) == r
  {
    if r.Some? {
      Sequences.Associative(out, [c], r.value.0);
      assert "" + r.value.0 == r.value.0;
    }
  }

  method LexToken(expr: string, i: nat, floatOf: FloatReader) returns (r: Result<Lexed, LexError>)
    requires i < |expr|
    ensures r == TokenAt(expr, i, floatOf)
  {
    var c := expr[i];
    if IsQuote(c) {
      var found := LexString(expr, i);
      match found
      case Err(e) => r := Err(e);
      case Ok(s) => r := Ok(Lexed(StrTok(s.0), s.1));
    } else if c == '.' {
      r := LexPath(expr, i, i);
    } else if StartsNumber(c) {
      var end := SkipWhile(ContinuesNumber, expr, i + 1);
      var number := NumberOf(expr[i..end], i, floatOf);
      match number
      case Err(e) => r := Err(e);
      case Ok(tok) => r := Ok(Lexed(tok, end));
    } else if StartsName(c) {
      var end := SkipWhile(ContinuesBareSegment, expr, i + 1);
      if end < |expr| && (expr[end] == '.' || expr[end] == '[') {
        r := LexPath(expr, i, end);
      } else {
        r := Ok(Lexed(Ident(expr[i..end]), end));
      }
    } else {
      r := TokenAt(expr, i, floatOf);
    }
  }

  method LexPath(expr: string, start: nat, i: nat) returns (r: Result<Lexed, LexError>)
    requires start <= i < |expr| && (expr[i] == '.' || expr[i] == '[')
    ensures r == PathToken(expr, start, i)
  {
    var end := LexPathRest(expr, i);
    r := if end.Some? then Ok(Lexed(Path(expr[start..end.value]), end.value)) else Err(UnterminatedQuote(start));
  }

  method Lex(expr: string, floatOf: FloatReader) returns (r: Result<seq<Tok>, LexError>)
    ensures r == LexFrom(expr, 0, floatOf)
  {
    var tokens: seq<Tok> := [];
    var i := 0;
    FollowingNone(LexFrom(expr, 0, floatOf));
    while i < |expr|
      invariant 0 <= i <= |expr|
      invariant LexFrom(expr, 0, floatOf) == Following(tokens, LexFrom(expr, i, floatOf))
    {
      if IsSpace(expr[i]) {
        i := i + 1;
        continue;
      }
      var lexed := LexToken(expr, i, floatOf);
      if lexed.Err? {
        return Err(lexed.error);
      }
      FollowingStep(tokens, lexed.value.tok, LexFrom(expr, lexed.value.end, floatOf));
      tokens := tokens + [lexed.value.tok];
      i := lexed.value.end;
    }
    assert tokens + [] == tokens;
    r := Ok(tokens);
  }

  lemma FollowingStep(done: seq<Tok>, tok: Tok, rest: Result<seq<Tok>, LexError>)
    ensures Following(done, Following([tok], rest)) == Following(done + [tok], rest)
  {
    if rest.Ok? {
      Sequences.Associative(done, [tok], rest.value);
    }
  }

  lemma FollowingNone(rest: Result<seq<Tok>, LexError>)
    ensures Following([], rest) == rest
  {
    if rest.Ok? {
      assert [] + rest.value == rest.value;
    }
  }

  // ----- from text to condition -----

  datatype TextError = Lexing(e: LexError) | Parsing(p: ParseError)

  /** `Condition::parse`. */
  function ParseText(expr: string, floatOf: FloatReader): Result<Condition, TextError> {
    match LexFrom(expr, 0, floatOf)
    case Err(e) => Err(Lexing(e))
    case Ok(ts) =>
      match Parse(ts)
      case Err(p) => Err(Parsing(p))
      case Ok(c) => Ok(c)
  }
}
