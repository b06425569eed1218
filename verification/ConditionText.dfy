/** How conditions are written: every condition parses back from its text, and whatever parses is
    written by the grammar (crates/core/src/condition.rs:3-12, 304-607). */
module ConditionText {
  import opened Wrappers
  import opened ConditionParser
  import opened Lexer
  import opened TokenText
  import PathText
  import Sequences

  // ----- writing conditions -----

  /** The path starts with a key that can be written as a bare word, and is not taken for something
      else then. */
  predicate StartsAsWord(segments: seq<string>) {
    && segments != []
    && PathText.IsBare(segments[0])
    && IsLetter(segments[0][0])
    && segments[0] != "meta"
    && (|segments| > 1 || segments[0] != "not")
  }

  /** A field, in leading-dot form or, with `words`, as a bare word where it can be. */
  function FieldTok(words: bool, field: PathText.FieldPath): Tok {
    match field
    case Meta(Id) => Path("meta.id")
    case Meta(Tenant) => Path("meta.tenant")
    case Meta(IngestionTime) => Path("meta.ingestion_time")
    case Meta(DeliveryCount) => Path("meta.delivery_count")
    case Record(segments) =>
      if !words || !StartsAsWord(segments) then Path("." + PathText.Dotted(segments))
      else if |segments| == 1 then Ident(segments[0])
      else Path(segments[0] + ("." + PathText.Dotted(segments[1..])))
  }

  function LiteralTok(literal: Literal): Tok {
    match literal
    case NullLit => Ident("null")
    case BoolLit(b) => Ident(if b then "true" else "false")
    case IntLit(i) => IntTok(i)
    case FloatLit(f) => FloatTok(f)
    case StrLit(text) => StrTok(text)
  }

  /** No more brackets than precedence asks for: `not` before `and` before `or`, both of these to
      the left. */
  function OrTokens(words: bool, c: Condition): seq<Tok>
    decreases c, 3
  {
    if c.Or? then OrBody(words, c) else AndTokens(words, c)
  }

  function AndTokens(words: bool, c: Condition): seq<Tok>
    decreases c, 2
  {
    if c.And? then AndBody(words, c) else NotTokens(words, c)
  }

  function NotTokens(words: bool, c: Condition): seq<Tok>
    decreases c, 1
  {
    match c
    case Not(inner) => [Ident("not")] + NotTokens(words, inner)
    case Or(_, _) => [LParen] + OrBody(words, c) + [RParen]
    case And(_, _) => [LParen] + AndBody(words, c) + [RParen]
    case Compare(field, op, literal) => [FieldTok(words, field), OpTok(op), LiteralTok(literal)]
  }

  function OrBody(words: bool, c: Condition): seq<Tok>
    requires c.Or?
    decreases c, 0
  {
    OrTokens(words, c.left) + [Ident("or")] + AndTokens(words, c.right)
  }

  function AndBody(words: bool, c: Condition): seq<Tok>
    requires c.And?
    decreases c, 0
  {
    AndTokens(words, c.left) + [Ident("and")] + NotTokens(words, c.right)
  }

  /** What every condition that parses satisfies. */
  predicate WellFormed(c: Condition) {
    match c
    case Compare(field, op, literal) =>
      && (field.Record? ==> PathText.Displayable(field.segments))
      && (op == Match || op == NotMatch ==> literal.StrLit?)
      && (literal.IntLit? ==>
            -0x8000_0000_0000_0000_0000_0000_0000_0000 <= literal.i < 0x8000_0000_0000_0000_0000_0000_0000_0000)
    case And(left, right) => WellFormed(left) && WellFormed(right)
    case Or(left, right) => WellFormed(left) && WellFormed(right)
    case Not(inner) => WellFormed(inner)
  }

  lemma {:induction false} OrDerives(words: bool, c: Condition)
    requires WellFormed(c)
    ensures DerivesOr(OrTokens(words, c), c)
    decreases c, 3
  {
    if c.Or? {
      OrBodyDerives(words, c);
    } else {
      AndDerives(words, c);
    }
  }

  lemma {:induction false} AndDerives(words: bool, c: Condition)
    requires WellFormed(c)
    ensures DerivesAnd(AndTokens(words, c), c)
    decreases c, 2
  {
    if c.And? {
      AndBodyDerives(words, c);
    } else {
      NotDerives(words, c);
    }
  }

  lemma {:induction false} OrBodyDerives(words: bool, c: Condition)
    requires c.Or? && WellFormed(c)
    ensures DerivesOr(OrBody(words, c), c)
    decreases c, 0
  {
    hide OrTokens, AndTokens, DerivesAnd;
    var ts, left, right := OrBody(words, c), OrTokens(words, c.left), AndTokens(words, c.right);
    OrDerives(words, c.left);
    AndDerives(words, c.right);
    var k := |left|;
    assert ts[k] == Ident("or") && ts[..k] == left && ts[k + 1..] == right;
  }

  lemma {:induction false} AndBodyDerives(words: bool, c: Condition)
    requires c.And? && WellFormed(c)
    ensures DerivesAnd(AndBody(words, c), c)
    decreases c, 0
  {
    hide AndTokens, NotTokens, DerivesNot;
    var ts, left, right := AndBody(words, c), AndTokens(words, c.left), NotTokens(words, c.right);
    AndDerives(words, c.left);
    NotDerives(words, c.right);
    var k := |left|;
    assert ts[k] == Ident("and") && ts[..k] == left && ts[k + 1..] == right;
  }

  lemma {:induction false} NotDerives(words: bool, c: Condition)
    requires WellFormed(c)
    ensures DerivesNot(NotTokens(words, c), c)
    decreases c, 1
  {
    match c
    case Not(inner) =>
      NotDerives(words, inner);
      assert ([Ident("not")] + NotTokens(words, inner))[1..] == NotTokens(words, inner);
    case Or(_, _) =>
      OrBodyDerives(words, c);
      BracketsDerive(OrBody(words, c), c);
    case And(_, _) =>
      AndBodyDerives(words, c);
      assert DerivesOr(AndBody(words, c), c);
      BracketsDerive(AndBody(words, c), c);
    case Compare(field, op, literal) =>
      FieldReads(words, field);
      LiteralIsWritten(LiteralTok(literal), literal);
      ComparisonDerives(NotTokens(words, c), c);
  }

  lemma BracketsDerive(ts: seq<Tok>, c: Condition)
    requires DerivesOr(ts, c)
    ensures DerivesNot([LParen] + ts + [RParen], c)
  {
    var all := [LParen] + ts + [RParen];
    assert all[1..|all| - 1] == ts;
    assert DerivesPrimary(all, c);
  }

  lemma ComparisonDerives(ts: seq<Tok>, c: Condition)
    requires |ts| == 3 && c.Compare? && PathOf(ts[0]) == Some(Ok(c.field)) && ts[1] == OpTok(c.op)
    requires LiteralOf(ts[2]) == Some(c.literal) && (c.op == Match || c.op == NotMatch ==> c.literal.StrLit?)
    requires ts[0] != Ident("not")
    ensures DerivesNot(ts, c)
  {
    assert DerivesPrimary(ts, c);
  }

  /** The parser takes a literal from just the token that is written for it. */
  lemma LiteralIsWritten(t: Tok, literal: Literal)
    ensures LiteralOf(t) == Some(literal) <==> t == LiteralTok(literal)
  {
  }

  lemma FieldReads(words: bool, field: PathText.FieldPath)
    requires field.Record? ==> PathText.Displayable(field.segments)
    ensures FieldTok(words, field) != Ident("not") && PathOf(FieldTok(words, field)) == Some(Ok(field))
  {
    hide PathText.Parse, PathText.Dotted;
    match field
    case Meta(m) =>
      PathText.MetaRoundTrip(m);
      MetaShown(words, m);
    case Record(segments) =>
      if !words || !StartsAsWord(segments) {
        PathText.ParseRooted(segments);
      } else {
        PathText.ParseDisplay(field);
        WordShown(segments);
      }
  }

  lemma MetaShown(words: bool, m: PathText.MetaField)
    ensures FieldTok(words, PathText.Meta(m)) == Path(PathText.Display(PathText.Meta(m)))
  {
    var shown := PathText.Display(PathText.Meta(m));
    match m
    case Id => assert shown == "meta.id";
    case Tenant => assert shown == "meta.tenant";
    case IngestionTime => assert shown == "meta.ingestion_time";
    case DeliveryCount => assert shown == "meta.delivery_count";
  }

  lemma WordShown(segments: seq<string>)
    requires StartsAsWord(segments)
    ensures PathText.Display(PathText.Record(segments)) ==
            if |segments| == 1 then segments[0] else segments[0] + ("." + PathText.Dotted(segments[1..]))
  {
    Sequences.Associative(segments[0], ".", PathText.Dotted(segments[1..]));
  }

  lemma FieldIsWritable(style: Style, floatOf: FloatReader, words: bool, field: PathText.FieldPath)
    requires field.Record? ==> PathText.Displayable(field.segments)
    ensures Writable(style, floatOf, FieldTok(words, field))
  {
    match field
    case Meta(m) => MetaIsWritable(style, floatOf, words, m);
    case Record(segments) =>
      if !words || !StartsAsWord(segments) {
        RootedIsPathText("", segments);
        assert "" + ("." + PathText.Dotted(segments)) == "." + PathText.Dotted(segments);
      } else {
        BareIsWord(segments[0]);
        if |segments| > 1 {
          assert PathText.Displayable(segments[1..]);
          RootedIsPathText(segments[0], segments[1..]);
        }
      }
  }

  lemma BareIsWord(name: string)
    requires PathText.IsBare(name) && IsLetter(name[0])
    ensures IsWord(name)
  {
    forall k | 0 <= k < |name|
      ensures !EndsWord(name[k])
    {
      assert PathText.IsSegmentChar(name[k]);
    }
  }

  lemma MetaIsWritable(style: Style, floatOf: FloatReader, words: bool, m: PathText.MetaField)
    ensures Writable(style, floatOf, FieldTok(words, PathText.Meta(m)))
  {
    hide IsWord, PathText.Displayable, PathText.MetaName;
    PathText.ParseMetaName(m);
    MetaShown(words, m);
    OneDotted(PathText.MetaName(m));
    Sequences.Associative("meta", ".", PathText.MetaName(m));
    KeywordsAreWords();
    RootedIsPathText("meta", [PathText.MetaName(m)]);
  }

  lemma OneDotted(name: string)
    requires PathText.IsBare(name)
    ensures PathText.Dotted([name]) == name && PathText.Displayable([name])
  {
    var segments := [name];
    assert |segments| == 1 && segments[0] == name;
    assert PathText.Dotted(segments) == PathText.DisplaySegment(segments[0]);
    assert PathText.Displayable(segments) by {
      assert forall i :: 0 <= i < |segments| ==> segments[i] == name;
    }
    assert PathText.DisplaySegment(name) == name;
    assert PathText.Dotted(segments) == name;
  }

  lemma RootedIsPathText(root: string, segments: seq<string>)
    requires PathText.Displayable(segments) && (root == "" || (IsWord(root) && segments != []))
    ensures IsPathText(root + ("." + PathText.Dotted(segments)))
  {
    assert Rooted(root + ("." + PathText.Dotted(segments)), root, segments);
  }

  lemma KeywordsAreWords()
    ensures IsWord("or") && IsWord("and") && IsWord("not")
    ensures IsWord("null") && IsWord("true") && IsWord("false") && IsWord("meta")
  {
    hide IsWord;
    LettersAreWord("or");
    LettersAreWord("and");
    LettersAreWord("not");
    LettersAreWord("null");
    LettersAreWord("true");
    LettersAreWord("false");
    LettersAreWord("meta");
  }

  lemma LettersAreWord(name: string)
    requires name != "" && forall k :: 0 <= k < |name| ==> IsLetter(name[k])
    ensures IsWord(name)
  {
    forall k | 0 <= k < |name|
      ensures !EndsWord(name[k])
    {
      LetterGoesOn(name[k]);
    }
  }

  /** The writer can spell the floats of the condition. */
  ghost predicate FloatsWritable(style: Style, floatOf: FloatReader, c: Condition) {
    match c
    case Compare(_, _, literal) => literal.FloatLit? ==> Writable(style, floatOf, FloatTok(literal.f))
    case And(left, right) => FloatsWritable(style, floatOf, left) && FloatsWritable(style, floatOf, right)
    case Or(left, right) => FloatsWritable(style, floatOf, left) && FloatsWritable(style, floatOf, right)
    case Not(inner) => FloatsWritable(style, floatOf, inner)
  }

  lemma {:induction false} TokensAreWritable(style: Style, floatOf: FloatReader, words: bool, c: Condition)
    requires WellFormed(c) && FloatsWritable(style, floatOf, c)
    ensures forall t :: t in OrTokens(words, c) ==> Writable(style, floatOf, t)
    ensures forall t :: t in AndTokens(words, c) ==> Writable(style, floatOf, t)
    ensures forall t :: t in NotTokens(words, c) ==> Writable(style, floatOf, t)
  {
    hide IsWord, IsPathText, IsNumber, IsIntegerText, FieldTok, LiteralTok;
    KeywordsAreWords();
    match c
    case Compare(field, op, literal) =>
      FieldIsWritable(style, floatOf, words, field);
      LiteralIsWritable(style, floatOf, literal);
    case And(left, right) =>
      TokensAreWritable(style, floatOf, words, left);
      TokensAreWritable(style, floatOf, words, right);
      assert AndTokens(words, c) == OrTokens(words, c) == AndBody(words, c);
    case Or(left, right) =>
      TokensAreWritable(style, floatOf, words, left);
      TokensAreWritable(style, floatOf, words, right);
      assert OrTokens(words, c) == OrBody(words, c);
      assert AndTokens(words, c) == NotTokens(words, c);
    case Not(inner) => TokensAreWritable(style, floatOf, words, inner);
  }

  lemma LiteralIsWritable(style: Style, floatOf: FloatReader, literal: Literal)
    requires literal.FloatLit? ==> Writable(style, floatOf, FloatTok(literal.f))
    requires literal.IntLit? ==>
               -0x8000_0000_0000_0000_0000_0000_0000_0000 <= literal.i < 0x8000_0000_0000_0000_0000_0000_0000_0000
    ensures Writable(style, floatOf, LiteralTok(literal))
  {
    hide IsWord;
    KeywordsAreWords();
  }

  /** Every condition parses back from its text, however that is laid out. */
  lemma ConditionReads(style: Style, floatOf: FloatReader, words: bool, c: Condition, lead: string, gaps: seq<string>)
    requires style.quote == '"' || style.quote == '\''
    requires WellFormed(c) && FloatsWritable(style, floatOf, c)
    requires IsGap(lead) && Spaced(OrTokens(words, c), gaps)
    ensures |gaps| == |OrTokens(words, c)|
    ensures ParseText(lead + Written(style, OrTokens(words, c), gaps), floatOf) == Ok(c)
  {
    hide OrTokens, LexFrom, Parse, Written;
    var ts := OrTokens(words, c);
    TokensAreWritable(style, floatOf, words, c);
    WrittenLexes(style, floatOf, lead, ts, gaps);
    OrDerives(words, c);
    ParsesExactlyTheGrammar(ts, c);
  }

  // ----- nothing else parses -----

  predicate IntegersInRange(ts: seq<Tok>) {
    forall k :: 0 <= k < |ts| && ts[k].IntTok? ==>
      -0x8000_0000_0000_0000_0000_0000_0000_0000 <= ts[k].i < 0x8000_0000_0000_0000_0000_0000_0000_0000
  }

  lemma {:induction false} OrIsWellFormed(ts: seq<Tok>, c: Condition)
    requires IntegersInRange(ts) && DerivesOr(ts, c)
    ensures WellFormed(c)
    decreases |ts|, 3
  {
    if DerivesAnd(ts, c) {
      AndIsWellFormed(ts, c);
    } else {
      var k :| 0 <= k < |ts| && ts[k] == Ident("or") && DerivesOr(ts[..k], c.left) && DerivesAnd(ts[k + 1..], c.right);
      OrIsWellFormed(ts[..k], c.left);
      AndIsWellFormed(ts[k + 1..], c.right);
    }
  }

  lemma {:induction false} AndIsWellFormed(ts: seq<Tok>, c: Condition)
    requires IntegersInRange(ts) && DerivesAnd(ts, c)
    ensures WellFormed(c)
    decreases |ts|, 2
  {
    if DerivesNot(ts, c) {
      NotIsWellFormed(ts, c);
    } else {
      var k :| 0 <= k < |ts| && ts[k] == Ident("and") && DerivesAnd(ts[..k], c.left)
        && DerivesNot(ts[k + 1..], c.right);
      AndIsWellFormed(ts[..k], c.left);
      NotIsWellFormed(ts[k + 1..], c.right);
    }
  }

  lemma {:induction false} NotIsWellFormed(ts: seq<Tok>, c: Condition)
    requires IntegersInRange(ts) && DerivesNot(ts, c)
    ensures WellFormed(c)
    decreases |ts|, 1
  {
    if Keyword(ts, "not") {
      NotIsWellFormed(ts[1..], c.inner);
    } else if |ts| >= 2 && ts[0] == LParen && ts[|ts| - 1] == RParen && DerivesOr(ts[1..|ts| - 1], c) {
      OrIsWellFormed(ts[1..|ts| - 1], c);
    } else {
      ComparisonIsWellFormed(ts, c);
    }
  }

  lemma ComparisonIsWellFormed(ts: seq<Tok>, c: Condition)
    requires IntegersInRange(ts) && |ts| == 3 && c.Compare? && PathOf(ts[0]) == Some(Ok(c.field))
    requires LiteralOf(ts[2]) == Some(c.literal) && (IsRegexOp(c.op) ==> c.literal.StrLit?)
    ensures WellFormed(c)
  {
    hide PathText.Segments;
    LiteralIsWritten(ts[2], c.literal);
    var path := if ts[0].Ident? then ts[0].name else ts[0].text;
    var text := if path != "" && path[0] == '.' then path[1..] else path;
    if PathText.Segments(text).Ok? {
      PathText.ParsedIsDisplayable(text);
    }
  }

  /** Whatever parses is well formed, so that it can be written and read again; and its text spells
      the tokens of one of its derivations, with blanks between them and nothing else. */
  lemma ParsedIsWritten(expr: string, floatOf: FloatReader, c: Condition)
      returns (ts: seq<Tok>, lead: string, texts: seq<string>, gaps: seq<string>)
    requires ParseText(expr, floatOf) == Ok(c)
    ensures WellFormed(c) && DerivesOr(ts, c)
    ensures |texts| == |gaps| == |ts| && expr == lead + Joined(texts, gaps)
    ensures IsGap(lead) && forall k :: 0 <= k < |ts| ==> IsGap(gaps[k]) && Spells(floatOf, ts[k], texts[k])
  {
    ts := LexFrom(expr, 0, floatOf).value;
    lead, texts, gaps := LexedIsWritten(expr, 0, floatOf, ts);
    assert expr[0..] == expr;
    ParsesExactlyTheGrammar(ts, c);
    forall k | 0 <= k < |ts| && ts[k].IntTok?
      ensures -0x8000_0000_0000_0000_0000_0000_0000_0000 <= ts[k].i < 0x8000_0000_0000_0000_0000_0000_0000_0000
    {
      assert Spells(floatOf, ts[k], texts[k]);
    }
    OrIsWellFormed(ts, c);
  }

  /** Why tokens are no comparison: the first of the three that does not fit, a path that does not parse,
      tokens that end too soon, or a pattern operator without a string. */
  lemma MalformedComparison(ts: seq<Tok>)
    requires ts != [] && ts[0] != LParen
    ensures !ts[0].Ident? && !ts[0].Path? ==> ParsePrimary(ts) == Err(UnexpectedToken(ts[0]))
    ensures ts[0].Ident? || ts[0].Path? ==>
              var parsed := PathText.Parse(if ts[0].Ident? then ts[0].name else ts[0].text);
              ParsePrimary(ts) ==
              if parsed.Err? then Err(Field(parsed.error))
              else if |ts| == 1 then Err(UnexpectedEnd)
              else if !ts[1].OpTok? then Err(UnexpectedToken(ts[1]))
              else if |ts| == 2 then Err(UnexpectedEnd)
              else
                match LiteralAt(ts[2])
                case None => Err(UnexpectedToken(ts[2]))
                case Some(literal) =>
                  if (ts[1].op == Match || ts[1].op == NotMatch) && !ts[2].StrTok? then Err(RegexNeedsString)
                  else Ok(Parsed(Compare(parsed.value, ts[1].op, literal), ts[3..]))
  {
    hide PathText.Parse;
    if |ts| > 2 {
      forall literal
        ensures LiteralOf(ts[2]) == Some(literal) <==> ts[2] == LiteralTok(literal)
      {
        LiteralIsWritten(ts[2], literal);
      }
    }
  }

  /** The literal that the token is written for. */
  ghost function LiteralAt(t: Tok): Option<Literal> {
    if exists literal :: t == LiteralTok(literal) then
      var literal :| t == LiteralTok(literal);
      Some(literal)
    else None
  }

  /** Nothing at all, and a bracket that is not closed, end too soon. */
  lemma UnclosedBracket(c: Condition)
    requires WellFormed(c)
    ensures Parse([]) == Err(UnexpectedEnd)
    ensures Parse([LParen] + OrTokens(true, c)) == Err(UnexpectedEnd)
  {
    var all := [LParen] + OrTokens(true, c);
    OrDerives(true, c);
    OrComplete(OrTokens(true, c), c, []);
    assert OrTokens(true, c) + [] == OrTokens(true, c);
    assert all[1..] == OrTokens(true, c);
    assert ParseOr(all[1..]) == Ok(Parsed(c, []));
    assert ParsePrimary(all) == Err(UnexpectedEnd);
    assert ParseNot(all) == Err(UnexpectedEnd);
    assert ParseAnd(all) == Err(UnexpectedEnd);
  }

  // ----- record paths -----

  /** Any record path in leading-dot form with a space after it is one token holding exactly
      that text, and lexing goes on after the space. */
  lemma RecordPathIsOneToken(segments: seq<string>, tail: string, floatOf: FloatReader)
    requires PathText.Displayable(segments)
    ensures var text := "." + PathText.Dotted(segments);
      var expr := text + " " + tail;
      LexFrom(expr, 0, floatOf) == Following([Path(text)], LexFrom(expr, |text| + 1, floatOf))
  {
    hide TokenAt, IsPathText, PathText.Displayable, PathText.Dotted, LexFrom;
    var text := "." + PathText.Dotted(segments);
    var expr := text + " " + tail;
    RootedIsPathText("", segments);
    assert "" + ("." + PathText.Dotted(segments)) == text;
    PathReads("", text, " " + tail, floatOf);
    assert "" + (text + (" " + tail)) == expr;
    assert expr[|text|] == ' ';
    TokenThenSpace(expr, floatOf, Path(text), |text|);
  }

  lemma TokenThenSpace(expr: string, floatOf: FloatReader, tok: Tok, end: nat)
    requires end < |expr| && expr[end] == ' ' && TokenAt(expr, 0, floatOf) == Ok(Lexed(tok, end))
    ensures LexFrom(expr, 0, floatOf) == Following([tok], LexFrom(expr, end + 1, floatOf))
  {
    TokenIsNoSpace(expr, 0, floatOf);
    hide TokenAt;
    assert LexFrom(expr, end, floatOf) == LexFrom(expr, end + 1, floatOf);
  }

  /** And `FieldPath::parse` reads the token back as the path. */
  lemma RecordTokenReadsBack(segments: seq<string>)
    requires PathText.Displayable(segments)
    ensures PathOf(Path("." + PathText.Dotted(segments))) == Some(Ok(PathText.Record(segments)))
  {
    PathText.ParseRooted(segments);
  }

  /** A comparison written with any record path in leading-dot form parses to that comparison. */
  lemma RecordComparisonParses(segments: seq<string>, tail: string, floatOf: FloatReader, op: CompareOp, tok: Tok)
    requires PathText.Displayable(segments)
    requires LiteralOf(tok).Some? && (IsRegexOp(op) ==> LiteralOf(tok).value.StrLit?)
    requires var text := "." + PathText.Dotted(segments);
      LexFrom(text + " " + tail, |text| + 1, floatOf) == Ok([OpTok(op), tok])
    ensures ParseText("." + PathText.Dotted(segments) + " " + tail, floatOf) ==
      Ok(Compare(PathText.Record(segments), op, LiteralOf(tok).value))
  {
    var text := "." + PathText.Dotted(segments);
    RecordPathIsOneToken(segments, tail, floatOf);
    RecordTokenReadsBack(segments);
    var ts := [Path(text), OpTok(op), tok];
    assert [Path(text)] + [OpTok(op), tok] == ts;
    var c := Compare(PathText.Record(segments), op, LiteralOf(tok).value);
    assert DerivesPrimary(ts, c);
    ParsesExactlyTheGrammar(ts, c);
    assert DerivesNot(ts, c) && DerivesAnd(ts, c) && DerivesOr(ts, c);
  }
}
