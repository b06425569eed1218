/** How tokens are written: every layout of a list of tokens lexes to them, and every text that
    lexes spells its tokens (crates/core/src/condition.rs:304-497). */
module TokenText {
  import opened Wrappers
  import opened ConditionParser
  import opened Lexer
  import Decimal
  import PathText
  import Sequences

  // ----- writing tokens -----

  function OpText(op: CompareOp): string {
    match op
    case Eq => "=="
    case Ne => "!="
    case Lt => "<"
    case Gt => ">"
    case Le => "<="
    case Ge => ">="
    case Match => "=~"
    case NotMatch => "!~"
  }

  /** What is left to the writer: the quotes, which characters of a string are escaped without
      need, leading zeros, and how a float is spelled. */
  datatype Style = Style(quote: char, escaped: char -> bool, zeros: nat, floatText: real -> string)

  function CharText(style: Style, c: char): string {
    if c == '\n' && style.escaped(c) then "\\n"
    else if c == '\t' && style.escaped(c) then "\\t"
    else if c == '\r' && style.escaped(c) then "\\r"
    else if c == '\\' || c == style.quote then ['\\', c]
    else if style.escaped(c) && c !in "ntr" then ['\\', c]
    else [c]
  }

  function StringText(style: Style, s: string): string {
    if s == "" then "" else CharText(style, s[0]) + StringText(style, s[1..])
  }

  function IntegerText(negative: bool, zeros: nat, n: nat): string {
    (if negative then "-" else "") + (Decimal.Zeros(zeros) + Decimal.Print(n))
  }

  function TokText(style: Style, t: Tok): string {
    match t
    case Ident(name) => name
    case Path(text) => text
    case StrTok(s) => [style.quote] + (StringText(style, s) + [style.quote])
    case IntTok(n) => IntegerText(n < 0, style.zeros, if n < 0 then -n else n)
    case FloatTok(f) => style.floatText(f)
    case OpTok(op) => OpText(op)
    case LParen => "("
    case RParen => ")"
  }

  predicate IsLetter(c: char) {
    'a' <= c <= 'z' || 'A' <= c <= 'Z' || c == '_'
  }

  /** A character that ends a word. */
  predicate EndsWord(c: char) {
    c in " \t\n\r\"'.()[]=!<>"
  }

  predicate IsWord(name: string) {
    name != "" && IsLetter(name[0]) && forall k :: 0 <= k < |name| ==> !EndsWord(name[k])
  }

  /** A character a number goes on with. */
  predicate InNumber(c: char) {
    '0' <= c <= '9' || c in ".eE+-"
  }

  predicate IsNumber(text: string) {
    && text != ""
    && ('0' <= text[0] <= '9' || text[0] == '-')
    && forall k :: 0 <= k < |text| ==> InNumber(text[k])
  }

  /** A path in leading-dot form, or under a word. */
  ghost predicate IsPathText(text: string) {
    exists root, segments :: Rooted(text, root, segments)
  }

  predicate Rooted(text: string, root: string, segments: seq<string>) {
    && PathText.Displayable(segments)
    && (root == "" || (IsWord(root) && segments != []))
    && text == root + ("." + PathText.Dotted(segments))
  }

  /** Tokens that a text can have. */
  ghost predicate Writable(style: Style, floatOf: FloatReader, t: Tok) {
    match t
    case Ident(name) => IsWord(name)
    case Path(text) => IsPathText(text)
    case IntTok(n) =>
      -0x8000_0000_0000_0000_0000_0000_0000_0000 <= n < 0x8000_0000_0000_0000_0000_0000_0000_0000
    case FloatTok(f) =>
      var text := style.floatText(f);
      IsNumber(text) && floatOf(text) == Some(f) && !IsIntegerText(text)
    case _ => true
  }

  /** The text is that of a whole number. */
  ghost predicate IsIntegerText(text: string) {
    exists negative: bool, zeros: nat, n: nat :: IntegerText(negative, zeros, n) == text && InRange(negative, n)
  }

  function Signed(negative: bool, n: int): int {
    if negative then -n else n
  }

  predicate InRange(negative: bool, n: nat) {
    if negative then n <= 0x8000_0000_0000_0000_0000_0000_0000_0000
    else n < 0x8000_0000_0000_0000_0000_0000_0000_0000
  }

  /** `c` right after the token's text does not add to it. */
  predicate MayFollow(t: Tok, c: char) {
    match t
    case LParen | RParen | StrTok(_) => true
    case OpTok(_) => c != '=' && c != '~'
    case Ident(_) => EndsWord(c) && c != '.' && c != '['
    case Path(text) => EndsWord(c) && c != '.' && c != '[' && (text == "." ==> c != '"')
    case IntTok(_) | FloatTok(_) => !InNumber(c)
  }

  predicate Ends(t: Tok, after: string) {
    after == "" || MayFollow(t, after[0])
  }

  // ----- one token -----

  lemma {:induction false} RunStops(goesOn: char -> bool, before: string, text: string, after: string)
    requires forall k :: 0 <= k < |text| ==> goesOn(text[k])
    requires after == "" || !goesOn(after[0])
    ensures StopOf(goesOn, before + (text + after), |before|) == |before| + |text|
    decreases |text|
  {
    if text == "" {
      assert text + after == after;
    } else {
      RunStops(goesOn, before + [text[0]], text[1..], after);
      assert before + (text + after) == (before + [text[0]]) + (text[1..] + after);
    }
  }

  lemma WordsGoOn(c: char)
    ensures ContinuesBareSegment(c) <==> !EndsWord(c)
    ensures StartsName(c) <==> IsLetter(c)
  {
  }

  lemma NumbersGoOn(c: char)
    ensures ContinuesNumber(c) <==> InNumber(c)
    ensures StartsNumber(c) <==> '0' <= c <= '9' || c == '-'
  {
  }

  /** Each printed segment after a dot of its own. */
  function Dots(segments: seq<string>): string {
    if segments == [] then "" else "." + (PathText.DisplaySegment(segments[0]) + Dots(segments[1..]))
  }

  lemma {:induction false} DotsOfDotted(segments: seq<string>)
    requires segments != []
    ensures Dots(segments) == "." + PathText.Dotted(segments)
  {
    hide PathText.DisplaySegment;
    var shown := PathText.DisplaySegment(segments[0]);
    if |segments| > 1 {
      DotsOfDotted(segments[1..]);
      Sequences.Associative(shown, ".", PathText.Dotted(segments[1..]));
    } else {
      assert segments[1..] == [];
      assert shown + "" == shown;
    }
  }

  predicate EndsPath(after: string) {
    after == "" || (EndsWord(after[0]) && after[0] != '.' && after[0] != '[')
  }

  lemma BareSegmentStops(before: string, segment: string, after: string)
    requires PathText.IsBare(segment) && (after == "" || EndsWord(after[0]))
    ensures SegmentStop(before + ("." + (segment + after)), |before|) == Some(|before| + 1 + |segment|)
  {
    var expr := before + ("." + (segment + after));
    assert expr == (before + ".") + (segment + after);
    assert PathText.IsSegmentChar(segment[0]) && expr[|before| + 1] == segment[0];
    forall k | 0 <= k < |segment|
      ensures ContinuesBareSegment(segment[k])
    {
      assert PathText.IsSegmentChar(segment[k]);
    }
    RunStops(ContinuesBareSegment, before + ".", segment, after);
  }

  lemma QuotedSegmentStops(before: string, segment: string, after: string)
    requires after == "" || EndsWord(after[0])
    ensures var shown := "\"" + PathText.Escape(segment) + "\"";
            SegmentStop(before + ("." + (shown + after)), |before|) == Some(|before| + 1 + |shown|)
  {
    hide PathText.Escape, EndsWord;
    if after != "" {
      WordsGoOn(after[0]);
    }
    var escaped := PathText.Escape(segment);
    var shown := "\"" + escaped + "\"";
    var expr := before + ("." + (shown + after));
    PathText.QuoteEndEscape(before + ".\"", segment, after);
    assert expr == (before + ".\"") + escaped + "\"" + after;
    assert expr[|before| + 1] == '"';
    RunStops(ContinuesBareSegment, before + ("." + shown), "", after);
    assert expr == (before + ("." + shown)) + ("" + after);
  }

  /** A run of printed segments is read to its end. */
  lemma {:induction false} DotsStop(before: string, segments: seq<string>, after: string)
    requires PathText.Displayable(segments) && EndsPath(after)
    ensures PathStop(before + (Dots(segments) + after), |before|) == Some(|before| + |Dots(segments)|)
    decreases |segments|
  {
    hide PathText.DisplaySegment, PathText.IsBare, EndsWord, SegmentStop, Dots;
    var expr := before + (Dots(segments) + after);
    if segments == [] {
      DotsStep(segments);
      assert expr == before + after;
    } else {
      var shown := PathText.DisplaySegment(segments[0]);
      var rest := Dots(segments[1..]) + after;
      DotsStep(segments);
      AfterSegment(segments[1..], after);
      SegmentStops(before, segments[0], rest);
      assert expr == before + ("." + (shown + rest));
      assert expr == (before + ("." + shown)) + rest;
      DotsStop(before + ("." + shown), segments[1..], after);
      assert expr[|before|] == '.';
    }
  }

  lemma AfterSegment(segments: seq<string>, after: string)
    requires EndsPath(after)
    ensures var rest := Dots(segments) + after;
            rest == "" || EndsWord(rest[0])
  {
    DotsStep(segments);
  }

  lemma DotsStep(segments: seq<string>)
    ensures segments == [] ==> Dots(segments) == ""
    ensures segments != [] ==>
              Dots(segments) == "." + (PathText.DisplaySegment(segments[0]) + Dots(segments[1..]))
    ensures segments != [] ==> Dots(segments) != "" && Dots(segments)[0] == '.'
  {
  }

  lemma SegmentStops(before: string, segment: string, after: string)
    requires segment != "" && (after == "" || EndsWord(after[0]))
    ensures var shown := PathText.DisplaySegment(segment);
            SegmentStop(before + ("." + (shown + after)), |before|) == Some(|before| + 1 + |shown|)
  {
    hide SegmentStop, EndsWord, PathText.IsBare, PathText.Escape;
    if PathText.IsBare(segment) {
      BareSegmentStops(before, segment, after);
    } else {
      QuotedSegmentStops(before, segment, after);
    }
  }

  lemma PathReads(before: string, text: string, after: string, floatOf: FloatReader)
    requires IsPathText(text) && Ends(Path(text), after)
    ensures text != ""
    ensures TokenAt(before + (text + after), |before|, floatOf) == Ok(Lexed(Path(text), |before| + |text|))
  {
    hide PathText.Displayable, PathText.Dotted, IsWord, TokenAt, EndsWord;
    var root, segments :| Rooted(text, root, segments);
    if segments == [] {
      DotOnly(segments);
      assert text == ".";
      WholeRecordReads(before, after, floatOf);
    } else {
      DotsOfDotted(segments);
      if root == "" {
        assert text == Dots(segments);
        DotsRead(before, text, segments, after, floatOf);
      } else {
        RootedReads(before, root, Dots(segments), after, segments, floatOf);
      }
    }
  }

  lemma DotsRead(before: string, text: string, segments: seq<string>, after: string, floatOf: FloatReader)
    requires segments != [] && PathText.Displayable(segments) && text == Dots(segments) && EndsPath(after)
    ensures text != ""
    ensures TokenAt(before + (text + after), |before|, floatOf) == Ok(Lexed(Path(text), |before| + |text|))
  {
    hide PathText.Displayable, PathStop, TokenAt, Dots, EndsPath;
    DotsStep(segments);
    DotsStop(before, segments, after);
    DottedReads(before, text, after, floatOf);
  }

  lemma DotOnly(segments: seq<string>)
    ensures segments == [] ==> PathText.Dotted(segments) == ""
  {
  }

  lemma DottedReads(before: string, text: string, after: string, floatOf: FloatReader)
    requires text != "" && text[0] == '.'
    requires PathStop(before + (text + after), |before|) == Some(|before| + |text|)
    ensures TokenAt(before + (text + after), |before|, floatOf) == Ok(Lexed(Path(text), |before| + |text|))
  {
    hide PathStop;
    var expr := before + (text + after);
    assert expr[|before|] == '.';
    assert expr[|before|..|before| + |text|] == text;
  }

  lemma WholeRecordReads(before: string, after: string, floatOf: FloatReader)
    requires Ends(Path("."), after)
    ensures TokenAt(before + ("." + after), |before|, floatOf) == Ok(Lexed(Path("."), |before| + 1))
  {
    var expr := before + ("." + after);
    assert expr == (before + ".") + ("" + after);
    assert after != "" ==> expr[|before| + 1] == after[0];
    RunStops(ContinuesBareSegment, before + ".", "", after);
    assert SegmentStop(expr, |before|) == Some(|before| + 1);
    assert PathStop(expr, |before|) == Some(|before| + 1);
    DottedReads(before, ".", after, floatOf);
  }

  lemma RootedReads(before: string, root: string, dots: string, after: string, segments: seq<string>,
      floatOf: FloatReader)
    requires IsWord(root) && segments != [] && PathText.Displayable(segments) && dots == Dots(segments)
    requires EndsPath(after)
    ensures var text := root + dots;
            TokenAt(before + (text + after), |before|, floatOf) == Ok(Lexed(Path(text), |before| + |text|))
  {
    hide PathText.Displayable, PathStop, Dots, TokenAt, BareStop, EndsWord, IsWord, EndsPath;
    var text := root + dots;
    var expr := before + (text + after);
    DotsStep(segments);
    PartsOf(before, root, dots, after);
    AfterSegment(segments, after);
    WordStops(before, root, dots + after);
    DotsStop(before + root, segments, after);
    assert expr[|before| + |root|] == '.';
    assert expr[|before|..|before| + |text|] == text;
    NameThenPath(expr, |before|, |before| + |root|, |before| + |text|, floatOf);
  }

  lemma PartsOf(before: string, root: string, dots: string, after: string)
    ensures before + ((root + dots) + after) == before + (root + (dots + after)) == (before + root) + (dots + after)
  {
  }

  lemma NameThenPath(expr: string, i: nat, dot: nat, end: nat, floatOf: FloatReader)
    requires i < dot < |expr| && IsLetter(expr[i]) && BareStop(expr, i + 1) == dot
    requires expr[dot] == '.' && PathStop(expr, dot) == Some(end)
    ensures dot < end <= |expr| && TokenAt(expr, i, floatOf) == Ok(Lexed(Path(expr[i..end]), end))
  {
    hide BareStop;
    LetterReads(expr, i);
  }

  /** A word is read to its end. */
  lemma WordStops(before: string, name: string, after: string)
    requires IsWord(name) && (after == "" || EndsWord(after[0]))
    ensures var expr := before + (name + after);
            |before| < |expr| && IsLetter(expr[|before|]) && BareStop(expr, |before| + 1) == |before| + |name|
  {
    var expr := before + (name + after);
    assert expr == (before + [name[0]]) + (name[1..] + after);
    RunStops(ContinuesBareSegment, before + [name[0]], name[1..], after);
  }

  /** Only a letter starts a word. */
  lemma LetterReads(expr: string, i: nat)
    requires i < |expr|
    ensures IsLetter(expr[i]) ==>
              StartsName(expr[i]) && !StartsNumber(expr[i]) && !IsQuote(expr[i]) && expr[i] !in "()=!<>."
  {
  }

  lemma WordReads(before: string, name: string, after: string, floatOf: FloatReader)
    requires IsWord(name) && Ends(Ident(name), after)
    ensures TokenAt(before + (name + after), |before|, floatOf) == Ok(Lexed(Ident(name), |before| + |name|))
  {
    hide EndsWord;
    var expr := before + (name + after);
    WordStops(before, name, after);
    LetterReads(expr, |before|);
    assert expr[|before|..|before| + |name|] == name;
    assert after != "" ==> expr[|before| + |name|] == after[0];
  }

  // ----- numbers -----

  lemma IntegerOfText(negative: bool, zeros: nat, n: nat)
    ensures IntegerOf(IntegerText(negative, zeros, n)) ==
            if InRange(negative, n) then Some(Signed(negative, n)) else None
  {
    hide Decimal.Print, Decimal.Zeros, Decimal.ValueOf;
    var digits := Decimal.Zeros(zeros) + Decimal.Print(n);
    Decimal.LeadingZeros(zeros, Decimal.Print(n));
    Decimal.ValueOfPrint(n);
    assert Decimal.IsDigit(digits[0]);
    var text := IntegerText(negative, zeros, n);
    if negative {
      assert text[1..] == digits;
    } else {
      assert text == digits;
    }
  }

  /** The lexer's integers are exactly the texts of one. */
  lemma IntegerTextOf(text: string) returns (negative: bool, zeros: nat, n: nat)
    requires IntegerOf(text).Some?
    ensures IntegerText(negative, zeros, n) == text && InRange(negative, n)
    ensures IntegerOf(text).value == Signed(negative, n)
  {
    hide Decimal.Print, Decimal.Zeros, Decimal.ValueOf;
    negative := text[0] == '-';
    var digits := if negative then text[1..] else text;
    n := Decimal.ValueOf(digits);
    zeros := Decimal.Stripped(digits);
    assert negative ==> text == "-" + digits;
    assert !negative ==> text == "" + digits;
  }

  lemma NumberReads(before: string, text: string, after: string, floatOf: FloatReader)
    requires IsNumber(text) && (after == "" || !InNumber(after[0]))
    ensures var expr := before + (text + after);
            TokenAt(expr, |before|, floatOf) ==
            match NumberOf(text, |before|, floatOf)
            case Err(e) => Err(e)
            case Ok(tok) => Ok(Lexed(tok, |before| + |text|))
  {
    hide NumberOf, InNumber;
    var expr := before + (text + after);
    assert expr == (before + [text[0]]) + (text[1..] + after);
    forall k | 0 <= k < |text[1..]|
      ensures ContinuesNumber(text[1..][k])
    {
      NumbersGoOn(text[1..][k]);
    }
    if after != "" {
      NumbersGoOn(after[0]);
    }
    RunStops(ContinuesNumber, before + [text[0]], text[1..], after);
    assert expr[|before|..|before| + |text|] == text;
    DigitReads(expr, |before|);
  }

  lemma DigitReads(expr: string, i: nat)
    requires i < |expr|
    ensures '0' <= expr[i] <= '9' || expr[i] == '-' ==>
              StartsNumber(expr[i]) && !IsQuote(expr[i]) && expr[i] !in "()=!<>."
  {
  }

  lemma IntegerTextIsNumber(negative: bool, zeros: nat, n: nat)
    ensures IsNumber(IntegerText(negative, zeros, n))
  {
    hide Decimal.Print, Decimal.Zeros;
    var digits := Decimal.Zeros(zeros) + Decimal.Print(n);
    forall k | 0 <= k < |digits|
      ensures '0' <= digits[k] <= '9'
    {
      assert Decimal.IsDigit(digits[k]);
    }
  }

  // ----- strings -----

  /** A string is read to its closing quote, every escape undone. */
  lemma {:induction false} StringReads(style: Style, before: string, s: string, after: string)
    requires style.quote == '"' || style.quote == '\''
    ensures StringEnd(before + (StringText(style, s) + ([style.quote] + after)), style.quote, |before|) ==
            Some((s, |before| + |StringText(style, s)| + 1))
    decreases |s|
  {
    hide CharText;
    var text := StringText(style, s);
    var expr := before + (text + ([style.quote] + after));
    if s == "" {
      assert expr == before + ([style.quote] + after);
      assert expr[|before|] == style.quote;
    } else {
      var first, more := CharText(style, s[0]), StringText(style, s[1..]);
      StringReads(style, before + first, s[1..], after);
      assert expr == (before + first) + (more + ([style.quote] + after));
      CharReads(style, before, s[0], more + ([style.quote] + after));
      assert expr == before + (first + (more + ([style.quote] + after)));
      assert s == [s[0]] + s[1..];
    }
  }

  /** One character of a string, escaped or not. */
  lemma CharReads(style: Style, before: string, c: char, rest: string)
    requires style.quote == '"' || style.quote == '\''
    requires rest != ""
    ensures var first := CharText(style, c);
            var expr := before + (first + rest);
            StringEnd(expr, style.quote, |before|) ==
            match StringEnd(expr, style.quote, |before| + |first|)
            case None => None
            case Some((more, end)) => Some(([c] + more, end))
  {
    hide StringEnd;
    var first := CharText(style, c);
    var expr := before + (first + rest);
    assert expr[|before|] == first[0];
    if |first| == 2 {
      assert expr[|before| + 1] == first[1];
      EscapedStep(expr, style.quote, |before|);
    } else {
      PlainStep(expr, style.quote, |before|);
    }
  }

  lemma PlainStep(expr: string, quote: char, i: nat)
    requires i < |expr| && expr[i] != '\\' && expr[i] != quote
    ensures StringEnd(expr, quote, i) ==
            match StringEnd(expr, quote, i + 1)
            case None => None
            case Some((more, end)) => Some(([expr[i]] + more, end))
  {
  }

  lemma EscapedStep(expr: string, quote: char, i: nat)
    requires i + 1 < |expr| && expr[i] == '\\' && quote != '\\'
    ensures StringEnd(expr, quote, i) ==
            match StringEnd(expr, quote, i + 2)
            case None => None
            case Some((more, end)) => Some(([Unescaped(expr[i + 1])] + more, end))
  {
  }

  // ----- a layout of tokens -----

  lemma OperatorReads(before: string, op: CompareOp, after: string, floatOf: FloatReader)
    requires Ends(OpTok(op), after)
    ensures TokenAt(before + (OpText(op) + after), |before|, floatOf) == Ok(Lexed(OpTok(op), |before| + |OpText(op)|))
  {
    var text := OpText(op);
    var expr := before + (text + after);
    assert expr[|before|] == text[0];
    assert |text| == 2 ==> expr[|before| + 1] == text[1];
    assert |text| == 1 && after != "" ==> expr[|before| + 1] == after[0];
  }

  lemma StringTokenReads(style: Style, before: string, s: string, after: string, floatOf: FloatReader)
    requires style.quote == '"' || style.quote == '\''
    ensures var text := TokText(style, StrTok(s));
            TokenAt(before + (text + after), |before|, floatOf) == Ok(Lexed(StrTok(s), |before| + |text|))
  {
    hide StringText;
    var text := TokText(style, StrTok(s));
    var expr := before + (text + after);
    StringReads(style, before + [style.quote], s, after);
    assert expr == (before + [style.quote]) + (StringText(style, s) + ([style.quote] + after));
    assert expr[|before|] == style.quote;
  }

  lemma IntegerReads(style: Style, before: string, n: int, after: string, floatOf: FloatReader)
    requires Writable(style, floatOf, IntTok(n)) && Ends(IntTok(n), after)
    ensures var text := TokText(style, IntTok(n));
            TokenAt(before + (text + after), |before|, floatOf) == Ok(Lexed(IntTok(n), |before| + |text|))
  {
    hide IntegerText, TokenAt, InNumber;
    var magnitude := if n < 0 then -n else n;
    IntegerOfText(n < 0, style.zeros, magnitude);
    IntegerTextIsNumber(n < 0, style.zeros, magnitude);
    NumberReads(before, IntegerText(n < 0, style.zeros, magnitude), after, floatOf);
  }

  lemma FloatReads(style: Style, before: string, f: real, after: string, floatOf: FloatReader)
    requires Writable(style, floatOf, FloatTok(f)) && Ends(FloatTok(f), after)
    ensures var text := TokText(style, FloatTok(f));
            TokenAt(before + (text + after), |before|, floatOf) == Ok(Lexed(FloatTok(f), |before| + |text|))
  {
    hide IntegerText, TokenAt, InNumber, IntegerOf;
    var text := style.floatText(f);
    if IntegerOf(text).Some? {
      var negative, zeros, n := IntegerTextOf(text);
    }
    NumberReads(before, text, after, floatOf);
  }

  /** Each token is read back from its text, whatever stands before it and whatever may follow. */
  lemma TokenReads(style: Style, floatOf: FloatReader, before: string, t: Tok, after: string)
    requires style.quote == '"' || style.quote == '\''
    requires Writable(style, floatOf, t) && Ends(t, after)
    ensures TokText(style, t) != ""
    ensures var text := TokText(style, t);
            TokenAt(before + (text + after), |before|, floatOf) == Ok(Lexed(t, |before| + |text|))
  {
    hide TokenAt, IsPathText, IsNumber, IsIntegerText, IntegerText, EndsWord, InNumber, StringText;
    match t
    case Ident(name) => WordReads(before, name, after, floatOf);
    case Path(text) => PathReads(before, text, after, floatOf);
    case StrTok(s) => StringTokenReads(style, before, s, after, floatOf);
    case IntTok(n) =>
      IntegerReads(style, before, n, after, floatOf);
      IntegerTextIsNumber(n < 0, style.zeros, if n < 0 then -n else n);
    case FloatTok(f) => FloatReads(style, before, f, after, floatOf);
    case OpTok(op) => OperatorReads(before, op, after, floatOf);
    case LParen => BracketReads(before, "(", after, floatOf);
    case RParen => BracketReads(before, ")", after, floatOf);
  }

  lemma BracketReads(before: string, text: string, after: string, floatOf: FloatReader)
    requires text == "(" || text == ")"
    ensures TokenAt(before + (text + after), |before|, floatOf) ==
            Ok(Lexed(if text == "(" then LParen else RParen, |before| + 1))
  {
    assert (before + (text + after))[|before|] == text[0];
  }

  predicate IsGap(s: string) {
    forall k :: 0 <= k < |s| ==> s[k] in " \t\n\r"
  }

  /** The two need no gap between them. */
  predicate MayTouch(t: Tok, u: Tok) {
    match t
    case LParen | RParen | StrTok(_) => true
    case OpTok(_) => !u.OpTok?
    case _ => u.LParen? || u.RParen? || u.OpTok? || (u.StrTok? && t != Path("."))
  }

  /** `gaps[k]` after token `k`. */
  function Written(style: Style, ts: seq<Tok>, gaps: seq<string>): string
    requires |gaps| == |ts|
  {
    if ts == [] then "" else TokText(style, ts[0]) + (gaps[0] + Written(style, ts[1..], gaps[1..]))
  }

  /** Gaps are blank, and there is one wherever two tokens would run together. */
  predicate Spaced(ts: seq<Tok>, gaps: seq<string>) {
    && |gaps| == |ts|
    && (ts != [] ==>
          && IsGap(gaps[0])
          && (gaps[0] != "" || |ts| == 1 || MayTouch(ts[0], ts[1]))
          && Spaced(ts[1..], gaps[1..]))
  }

  /** The layout can be read back. */
  ghost predicate LaidOut(style: Style, floatOf: FloatReader, ts: seq<Tok>, gaps: seq<string>) {
    && (style.quote == '"' || style.quote == '\'')
    && Spaced(ts, gaps)
    && forall t :: t in ts ==> Writable(style, floatOf, t)
  }

  lemma {:induction false} GapSkipped(before: string, gap: string, rest: string, floatOf: FloatReader)
    requires IsGap(gap)
    ensures var expr := before + (gap + rest);
            LexFrom(expr, |before|, floatOf) == LexFrom(expr, |before| + |gap|, floatOf)
    decreases |gap|
  {
    hide TokenAt, Following;
    if gap != "" {
      var expr := before + (gap + rest);
      GapSkipped(before + [gap[0]], gap[1..], rest, floatOf);
      assert expr == (before + [gap[0]]) + (gap[1..] + rest);
      assert expr[|before|] == gap[0];
      assert IsSpace(gap[0]);
    }
  }

  /** What follows a token in a layout does not add to it. */
  lemma NextMayFollow(style: Style, floatOf: FloatReader, t: Tok, u: Tok)
    requires style.quote == '"' || style.quote == '\''
    requires Writable(style, floatOf, u) && MayTouch(t, u)
    ensures TokText(style, u) != "" && MayFollow(t, TokText(style, u)[0])
  {
    match u
    case Path(text) => PathStarts(text);
    case IntTok(n) => IntegerTextIsNumber(n < 0, style.zeros, if n < 0 then -n else n);
    case _ =>
  }

  lemma PathStarts(text: string)
    requires IsPathText(text)
    ensures text != "" && (text[0] == '.' || IsLetter(text[0]))
  {
    hide PathText.Displayable, PathText.Dotted, EndsWord;
    var root, segments :| Rooted(text, root, segments);
  }

  lemma SpaceMayFollow(t: Tok, c: char)
    requires c in " \t\n\r"
    ensures MayFollow(t, c)
  {
  }

  lemma LayoutEnds(style: Style, floatOf: FloatReader, ts: seq<Tok>, gaps: seq<string>)
    requires ts != [] && LaidOut(style, floatOf, ts, gaps)
    ensures |gaps| == |ts| && Ends(ts[0], gaps[0] + Written(style, ts[1..], gaps[1..]))
  {
    hide TokText, Writable, MayTouch, MayFollow;
    if gaps[0] != "" {
      SpaceMayFollow(ts[0], gaps[0][0]);
    } else if |ts| > 1 {
      NextMayFollow(style, floatOf, ts[0], ts[1]);
      var next := TokText(style, ts[1]);
      assert Written(style, ts[1..], gaps[1..])[0] == next[0];
      assert "" + Written(style, ts[1..], gaps[1..]) == Written(style, ts[1..], gaps[1..]);
    }
  }

  lemma {:induction false} LexLaidOut(style: Style, floatOf: FloatReader, before: string, ts: seq<Tok>,
      gaps: seq<string>)
    requires LaidOut(style, floatOf, ts, gaps)
    ensures |gaps| == |ts| && LexFrom(before + Written(style, ts, gaps), |before|, floatOf) == Ok(ts)
    decreases |ts|
  {
    hide TokText, Writable, TokenAt;
    if ts != [] {
      var text, rest := TokText(style, ts[0]), Written(style, ts[1..], gaps[1..]);
      var expr := before + Written(style, ts, gaps);
      LayoutEnds(style, floatOf, ts, gaps);
      TokenReads(style, floatOf, before, ts[0], gaps[0] + rest);
      assert expr == before + (text + (gaps[0] + rest));
      assert expr == (before + text) + (gaps[0] + rest);
      assert expr == (before + text + gaps[0]) + rest;
      GapSkipped(before + text, gaps[0], rest, floatOf);
      LexLaidOut(style, floatOf, before + text + gaps[0], ts[1..], gaps[1..]);
      TokenIsNoSpace(expr, |before|, floatOf);
      assert [ts[0]] + ts[1..] == ts;
    }
  }

  lemma TokenIsNoSpace(expr: string, i: nat, floatOf: FloatReader)
    requires i < |expr| && TokenAt(expr, i, floatOf).Ok?
    ensures !IsSpace(expr[i])
  {
  }

  /** However tokens are laid out, the lexer reads just them. */
  lemma WrittenLexes(style: Style, floatOf: FloatReader, lead: string, ts: seq<Tok>, gaps: seq<string>)
    requires IsGap(lead) && LaidOut(style, floatOf, ts, gaps)
    ensures |gaps| == |ts| && LexFrom(lead + Written(style, ts, gaps), 0, floatOf) == Ok(ts)
  {
    hide Written, LexFrom;
    var rest := Written(style, ts, gaps);
    GapSkipped("", lead, rest, floatOf);
    assert "" + (lead + rest) == lead + rest;
    LexLaidOut(style, floatOf, lead, ts, gaps);
  }

  // ----- nothing else lexes -----

  /** What the text between quotes stands for. */
  ghost predicate Reads(body: string, quote: char, s: string) {
    if body == "" then s == ""
    else if s == "" then false
    else if body[0] == '\\' then
      && |body| >= 2
      && s[0] == (match body[1]
                  case 'n' => '\n'
                  case 't' => '\t'
                  case 'r' => '\r'
                  case c => c)
      && Reads(body[2..], quote, s[1..])
    else body[0] != quote && s[0] == body[0] && Reads(body[1..], quote, s[1..])
  }

  /** `text` is a spelling of the token. */
  ghost predicate Spells(floatOf: FloatReader, t: Tok, text: string) {
    match t
    case LParen => text == "("
    case RParen => text == ")"
    case OpTok(op) => text == OpText(op)
    case Ident(name) => text == name && IsWord(name)
    case Path(p) => text == p && p != "" && (p[0] == '.' || IsLetter(p[0]))
    case StrTok(s) =>
      && |text| >= 2
      && (text[0] == '"' || text[0] == '\'')
      && text[|text| - 1] == text[0]
      && Reads(text[1..|text| - 1], text[0], s)
    case IntTok(i) =>
      exists negative: bool, zeros: nat, n: nat ::
        IntegerText(negative, zeros, n) == text && InRange(negative, n) && i == Signed(negative, n)
    case FloatTok(f) => IsNumber(text) && !IsIntegerText(text) && floatOf(text) == Some(f)
  }

  lemma {:induction false} StringIsWritten(expr: string, quote: char, i: nat)
    requires i <= |expr| && StringEnd(expr, quote, i).Some? && quote != '\\'
    ensures var (s, end) := StringEnd(expr, quote, i).value;
            i < end && expr[end - 1] == quote && Reads(expr[i..end - 1], quote, s)
    decreases |expr| - i
  {
    if expr[i] != '\\' && expr[i] == quote {
    } else {
      var step := if expr[i] == '\\' then 2 else 1;
      StringIsWritten(expr, quote, i + step);
      var (s, end) := StringEnd(expr, quote, i).value;
      var body := expr[i..end - 1];
      assert body[step..] == expr[i + step..end - 1];
      assert body[0] == expr[i];
      assert step == 2 ==> body[1] == expr[i + 1];
      assert s[1..] == StringEnd(expr, quote, i + step).value.0;
    }
  }

  lemma {:induction false} RunIsWritten(goesOn: char -> bool, expr: string, i: nat)
    requires i <= |expr|
    ensures forall k :: i <= k < StopOf(goesOn, expr, i) ==> goesOn(expr[k])
    decreases |expr| - i
  {
    if i < |expr| && goesOn(expr[i]) {
      RunIsWritten(goesOn, expr, i + 1);
    }
  }

  lemma OperatorIsWritten(expr: string, i: nat)
    requires i < |expr| && OpAt(expr, i).Some?
    ensures var lexed := OpAt(expr, i).value;
            lexed.tok.OpTok? && expr[i..lexed.end] == OpText(lexed.tok.op)
  {
    var end := OpAt(expr, i).value.end;
    if end == i + 1 {
      assert expr[i..end] == [expr[i]];
    } else {
      assert expr[i..end] == [expr[i], expr[i + 1]];
    }
  }

  lemma NumberIsWritten(text: string, offset: nat, floatOf: FloatReader)
    requires IsNumber(text) && NumberOf(text, offset, floatOf).Ok?
    ensures Spells(floatOf, NumberOf(text, offset, floatOf).value, text)
  {
    hide IntegerText, IntegerOf;
    if IntegerOf(text).Some? {
      var negative, zeros, n := IntegerTextOf(text);
    } else {
      forall negative: bool, zeros: nat, n: nat | IntegerText(negative, zeros, n) == text && InRange(negative, n)
        ensures false
      {
        IntegerOfText(negative, zeros, n);
      }
    }
  }

  lemma NumberTokenIsWritten(expr: string, i: nat, floatOf: FloatReader)
    requires i < |expr| && StartsNumber(expr[i]) && TokenAt(expr, i, floatOf).Ok?
    ensures var Lexed(tok, end) := TokenAt(expr, i, floatOf).value;
            Spells(floatOf, tok, expr[i..end])
  {
    hide NumberOf, Spells;
    var end := StopOf(ContinuesNumber, expr, i + 1);
    var text := expr[i..end];
    RunIsWritten(ContinuesNumber, expr, i + 1);
    NumbersGoOn(expr[i]);
    forall k | 0 <= k < |text|
      ensures InNumber(text[k])
    {
      NumbersGoOn(text[k]);
      assert k > 0 ==> text[k] == expr[i + k];
    }
    NumberIsWritten(text, i, floatOf);
  }

  lemma WordIsWritten(expr: string, i: nat, floatOf: FloatReader)
    requires i < |expr| && StartsName(expr[i]) && TokenAt(expr, i, floatOf).Ok?
    ensures var Lexed(tok, end) := TokenAt(expr, i, floatOf).value;
            Spells(floatOf, tok, expr[i..end])
  {
    hide PathStop, EndsWord, ContinuesBareSegment;
    var end := BareStop(expr, i + 1);
    var text := expr[i..end];
    RunIsWritten(ContinuesBareSegment, expr, i + 1);
    WordsGoOn(expr[i]);
    LetterGoesOn(expr[i]);
    forall k | 0 <= k < |text|
      ensures !EndsWord(text[k])
    {
      WordsGoOn(text[k]);
      assert k > 0 ==> text[k] == expr[i + k];
    }
    assert text[0] == expr[i];
    assert expr[i..TokenAt(expr, i, floatOf).value.end][0] == expr[i];
  }

  lemma LetterGoesOn(c: char)
    ensures IsLetter(c) ==> !EndsWord(c)
  {
  }

  lemma StringTokenIsWritten(expr: string, i: nat, floatOf: FloatReader)
    requires i < |expr| && IsQuote(expr[i]) && TokenAt(expr, i, floatOf).Ok?
    ensures var Lexed(tok, end) := TokenAt(expr, i, floatOf).value;
            Spells(floatOf, tok, expr[i..end])
  {
    hide StringEnd, Reads;
    var end := TokenAt(expr, i, floatOf).value.end;
    var text := expr[i..end];
    StringIsWritten(expr, expr[i], i + 1);
    assert text[1..|text| - 1] == expr[i + 1..end - 1];
  }

  /** Whatever token the lexer finds, the text it read is a spelling of it. */
  lemma TokenIsWritten(expr: string, i: nat, floatOf: FloatReader)
    requires i < |expr| && TokenAt(expr, i, floatOf).Ok?
    ensures var Lexed(tok, end) := TokenAt(expr, i, floatOf).value;
            Spells(floatOf, tok, expr[i..end])
  {
    hide StringEnd, Reads, PathStop, StopOf, NumberOf, IsIntegerText, IsWord;
    var c := expr[i];
    var Lexed(tok, end) := TokenAt(expr, i, floatOf).value;
    var text := expr[i..end];
    assert text[0] == c;
    if c == '(' || c == ')' {
      assert text == [c];
    } else if c == '=' || c == '!' || c == '<' || c == '>' {
      OperatorIsWritten(expr, i);
    } else if IsQuote(c) {
      StringTokenIsWritten(expr, i, floatOf);
    } else if c == '.' {
    } else if StartsNumber(c) {
      NumberTokenIsWritten(expr, i, floatOf);
    } else {
      WordIsWritten(expr, i, floatOf);
    }
  }

  function Joined(texts: seq<string>, gaps: seq<string>): string
    requires |texts| == |gaps|
  {
    if texts == [] then "" else texts[0] + (gaps[0] + Joined(texts[1..], gaps[1..]))
  }

  lemma JoinedMore(expr: string, i: nat, end: nat, gap: string, texts: seq<string>, gaps: seq<string>)
    requires i <= end <= |expr| && |texts| == |gaps| && expr[end..] == gap + Joined(texts, gaps)
    ensures expr[i..] == "" + Joined([expr[i..end]] + texts, [gap] + gaps)
  {
    assert expr[i..] == expr[i..end] + expr[end..];
    assert ([expr[i..end]] + texts)[1..] == texts && ([gap] + gaps)[1..] == gaps;
  }

  /** Whatever lexes is a spelling of the tokens, with blanks between them and nothing else. */
  lemma {:induction false} LexedIsWritten(expr: string, i: nat, floatOf: FloatReader, ts: seq<Tok>)
      returns (lead: string, texts: seq<string>, gaps: seq<string>)
    requires i <= |expr| && LexFrom(expr, i, floatOf) == Ok(ts)
    ensures |texts| == |gaps| == |ts| && expr[i..] == lead + Joined(texts, gaps)
    ensures IsGap(lead) && forall k :: 0 <= k < |ts| ==> IsGap(gaps[k]) && Spells(floatOf, ts[k], texts[k])
    decreases |expr| - i
  {
    hide TokenAt, Spells, IsWord;
    if i == |expr| {
      lead, texts, gaps := "", [], [];
    } else if IsSpace(expr[i]) {
      lead, texts, gaps := LexedIsWritten(expr, i + 1, floatOf, ts);
      assert expr[i..] == [expr[i]] + expr[i + 1..];
      lead := [expr[i]] + lead;
    } else {
      var Lexed(tok, end) := TokenAt(expr, i, floatOf).value;
      var rest := LexFrom(expr, end, floatOf).value;
      var gap;
      gap, texts, gaps := LexedIsWritten(expr, end, floatOf, rest);
      TokenIsWritten(expr, i, floatOf);
      assert ts == [tok] + rest;
      JoinedMore(expr, i, end, gap, texts, gaps);
      lead, texts, gaps := "", [expr[i..end]] + texts, [gap] + gaps;
    }
  }
}
