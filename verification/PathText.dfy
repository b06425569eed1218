/** The text of a field path: quoting printer and parser (crates/core/src/path.rs). */
module PathText {
  // Offsets count characters; the source counts bytes, but every character it looks for is
  // ASCII.

  import opened Wrappers
  import Sequences

  const META_ROOT := "meta"

  datatype MetaField = Id | Tenant | IngestionTime | DeliveryCount

  function MetaName(field: MetaField): string {
    match field
    case Id => "id"
    case Tenant => "tenant"
    case IngestionTime => "ingestion_time"
    case DeliveryCount => "delivery_count"
  }

  function ParseMetaField(name: string): Option<MetaField> {
    if name == "id" then Some(Id)
    else if name == "tenant" then Some(Tenant)
    else if name == "ingestion_time" then Some(IngestionTime)
    else if name == "delivery_count" then Some(DeliveryCount)
    else None
  }

  /** Segments walked over the record, none being the whole record, or a value of its `Meta`. */
  datatype FieldPath = Record(segments: seq<string>) | Meta(field: MetaField)

  datatype PathError =
    | EmptySegment
    | InvalidSegment(ch: char)
    | UnterminatedQuote
    | BracketSyntax
    | UnknownMetaField

  predicate IsSegmentChar(c: char) {
    'a' <= c <= 'z' || 'A' <= c <= 'Z' || '0' <= c <= '9' || c == '_' || c == '-'
  }

  predicate IsBare(segment: string) {
    segment != "" && forall i :: 0 <= i < |segment| ==> IsSegmentChar(segment[i])
  }

  // ----- printing -----

  function Escape(s: string): string {
    if s == "" then ""
    else (if s[0] == '\\' || s[0] == '"' then ['\\', s[0]] else [s[0]]) + Escape(s[1..])
  }

  function DisplaySegment(segment: string): string {
    if IsBare(segment) then segment else "\"" + Escape(segment) + "\""
  }

  /** Segments with one dot between them. */
  function Dotted(segments: seq<string>): string {
    if segments == [] then ""
    else if |segments| == 1 then DisplaySegment(segments[0])
    else DisplaySegment(segments[0]) + "." + Dotted(segments[1..])
  }

  function Display(path: FieldPath): string {
    match path
    case Meta(field) => META_ROOT + "." + MetaName(field)
    case Record(segments) =>
      if segments == [] then "."
      else if segments[0] == META_ROOT then "." + Dotted(segments)
      else Dotted(segments)
  }

  // ----- parsing -----

  /** From inside a quoted text at `i`, the offset just past the closing `quote`. */
  function QuoteEnd(text: string, quote: char, i: nat): (end: Option<nat>)
    ensures end.Some? ==> i < end.value <= |text|
    decreases if i < |text| then |text| - i else 0
  {
    if i >= |text| then None
    else if text[i] == '\\' then QuoteEnd(text, quote, i + 2)
    else if text[i] == quote then Some(i + 1)
    else QuoteEnd(text, quote, i + 1)
  }

  function QuotedEnd(text: string, start: nat): Option<nat> {
    if start >= |text| then None else QuoteEnd(text, text[start], start + 1)
  }

  /** The text inside quotes with `\"` and `\\` resolved; the error is the escaped character
      that may not be. */
  function Unescape(inner: string): Result<string, char> {
    if inner == "" then Ok("")
    else if inner[0] != '\\' then
      match Unescape(inner[1..])
      case Ok(rest) => Ok([inner[0]] + rest)
      case Err(ch) => Err(ch)
    else if |inner| == 1 then Ok("")
    else if inner[1] == '"' || inner[1] == '\\' then
      match Unescape(inner[2..])
      case Ok(rest) => Ok([inner[1]] + rest)
      case Err(ch) => Err(ch)
    else Err(inner[1])
  }

  /** A segment and how many characters it takes up. */
  datatype Piece = Piece(text: string, length: nat)

  function BareEnd(rest: string): (end: nat)
    ensures end <= |rest|
    ensures forall i :: 0 <= i < end ==> rest[i] != '.' && rest[i] != '[' && rest[i] != ']'
    ensures end < |rest| ==> rest[end] == '.' || rest[end] == '[' || rest[end] == ']'
  {
    if rest == "" || rest[0] == '.' || rest[0] == '[' || rest[0] == ']' then 0 else 1 + BareEnd(rest[1..])
  }

  /** The first character of `s` that a bare segment may not hold. */
  function FirstInvalid(s: string): (i: nat)
    ensures i <= |s| && (i < |s| ==> !IsSegmentChar(s[i]))
    ensures forall k :: 0 <= k < i ==> IsSegmentChar(s[k])
  {
    if s == "" || !IsSegmentChar(s[0]) then 0 else 1 + FirstInvalid(s[1..])
  }

  function ReadQuoted(rest: string): (r: Result<Piece, PathError>)
    requires rest != "" && rest[0] == '"'
    ensures r.Ok? ==> 0 < r.value.length <= |rest|
  {
    match QuotedEnd(rest, 0)
    case None => Err(UnterminatedQuote)
    case Some(end) =>
      match Unescape(rest[1..end - 1])
      case Err(ch) => Err(InvalidSegment(ch))
      case Ok(text) => if text == "" then Err(EmptySegment) else Ok(Piece(text, end))
  }

  function ReadBare(rest: string): (r: Result<Piece, PathError>)
    ensures r.Ok? ==> r.value.length <= |rest|
  {
    var end := BareEnd(rest);
    var segment := rest[..end];
    if segment == "" && (end == |rest| || rest[end] == '.') then Err(EmptySegment)
    else if FirstInvalid(segment) < |segment| then Err(InvalidSegment(segment[FirstInvalid(segment)]))
    else Ok(Piece(segment, end))
  }

  function ReadSegment(rest: string): (r: Result<Piece, PathError>)
    ensures r.Ok? ==> r.value.length <= |rest|
  {
    if rest != "" && rest[0] == '"' then ReadQuoted(rest) else ReadBare(rest)
  }

  /** `segment ("." segment)*`. */
  function Segments(rest: string): Result<seq<string>, PathError>
    decreases |rest|
  {
    match ReadSegment(rest)
    case Err(e) => Err(e)
    case Ok(Piece(text, length)) =>
      if length == |rest| then Ok([text])
      else if rest[length] == '.' then
        if length + 1 == |rest| then Err(EmptySegment)
        else
          match Segments(rest[length + 1..])
          case Err(e) => Err(e)
          case Ok(more) => Ok([text] + more)
      else if rest[length] == '[' || rest[length] == ']' then Err(BracketSyntax)
      else Err(InvalidSegment(rest[length]))
  }

  function Parse(path: string): Result<FieldPath, PathError> {
    var rooted := path != "" && path[0] == '.';
    var text := if rooted then path[1..] else path;
    if rooted && text == "" then Ok(Record([]))
    else
      match Segments(text)
      case Err(e) => Err(e)
      case Ok(segments) =>
        if !rooted && segments != [] && segments[0] == META_ROOT then
          if |segments| != 2 then Err(UnknownMetaField)
          else
            match ParseMetaField(segments[1])
            case None => Err(UnknownMetaField)
            case Some(field) => Ok(Meta(field))
        else Ok(Record(segments))
  }

  // ----- the source's loops -----

  method FindQuotedEnd(text: string, start: nat) returns (end: Option<nat>)
    ensures end == QuotedEnd(text, start)
  {
    if start >= |text| {
      return None;
    }
    var quote := text[start];
    var i := start + 1;
    while i < |text|
      invariant QuoteEnd(text, quote, i) == QuotedEnd(text, start)
    {
      if text[i] == '\\' {
        i := i + 2;
      } else if text[i] == quote {
        return Some(i + 1);
      } else {
        i := i + 1;
      }
    }
    return None;
  }

  /** What `Unescape` makes of the rest once `out` is read. */
  function After(out: string, rest: Result<string, char>): Result<string, char> {
    match rest
    case Ok(more) => Ok(out + more)
    case Err(ch) => Err(ch)
  }

  method ResolveEscapes(inner: string) returns (r: Result<string, char>)
    ensures r == Unescape(inner)
  {
    var out := "";
    var i := 0;
    assert inner[0..] == inner;
    AfterStep("", "", Unescape(inner));
    while i < |inner|
      invariant 0 <= i <= |inner|
      invariant After(out, Unescape(inner[i..])) == Unescape(inner)
    {
      var c := inner[i];
      assert inner[i..][1..] == inner[i + 1..];
      AfterStep(out, [c], Unescape(inner[i + 1..]));
      if c != '\\' {
        out := out + [c];
        i := i + 1;
      } else if i + 1 == |inner| {
        assert out + "" == out;
        return Ok(out);
      } else if inner[i + 1] == '"' || inner[i + 1] == '\\' {
        assert inner[i..][2..] == inner[i + 2..];
        AfterStep(out, [inner[i + 1]], Unescape(inner[i + 2..]));
        out := out + [inner[i + 1]];
        i := i + 2;
      } else {
        return Err(inner[i + 1]);
      }
    }
    assert inner[i..] == "" && out + "" == out;
    return Ok(out);
  }

  lemma AfterStep(out: string, next: string, rest: Result<string, char>)
    ensures After(out, After(next, rest)) == After(out + next, rest)
    ensures After("", rest) == rest
  {
    if rest.Ok? {
      Sequences.Associative(out, next, rest.value);
      assert "" + rest.value == rest.value;
    }
  }

  /** What `Segments` makes of the rest once `done` is read. */
  function Following(done: seq<string>, rest: Result<seq<string>, PathError>): Result<seq<string>, PathError> {
    match rest
    case Ok(more) => Ok(done + more)
    case Err(e) => Err(e)
  }

  method SplitSegments(path: string) returns (r: Result<seq<string>, PathError>)
    ensures r == Segments(path)
  {
    hide ReadSegment;
    var segments: seq<string> := [];
    var rest := path;
    FollowingStep([], [], Segments(path));
    while true
      invariant Following(segments, Segments(rest)) == Segments(path)
      decreases |rest|
    {
      var piece := ReadSegment(rest);
      if piece.Err? {
        return Err(piece.error);
      }
      var Piece(text, length) := piece.value;
      if length == |rest| {
        return Ok(segments + [text]);
      }
      var ch := rest[length];
      if ch != '.' {
        return Err(if ch == '[' || ch == ']' then BracketSyntax else InvalidSegment(ch));
      }
      if length + 1 == |rest| {
        return Err(EmptySegment);
      }
      rest := rest[length + 1..];
      FollowingStep(segments, [text], Segments(rest));
      segments := segments + [text];
    }
  }

  lemma FollowingStep(done: seq<string>, next: seq<string>, rest: Result<seq<string>, PathError>)
    ensures Following(done, Following(next, rest)) == Following(done + next, rest)
    ensures Following([], rest) == rest
  {
    if rest.Ok? {
      Sequences.Associative(done, next, rest.value);
      assert [] + rest.value == rest.value;
    }
  }

  // ----- printing and parsing undo each other -----

  lemma {:induction false} UnescapeEscape(s: string)
    ensures Unescape(Escape(s)) == Ok(s)
  {
    if s != "" {
      UnescapeEscape(s[1..]);
      var e := Escape(s);
      assert [s[0]] + s[1..] == s;
      if s[0] == '\\' || s[0] == '"' {
        assert e[2..] == Escape(s[1..]);
      } else {
        assert e[1..] == Escape(s[1..]);
      }
    }
  }

  /** The scan for the closing quote stops just past an escaped text. */
  lemma {:induction false} QuoteEndEscape(before: string, s: string, after: string)
    ensures QuoteEnd(before + Escape(s) + "\"" + after, '"', |before|) == Some(|before| + |Escape(s)| + 1)
    decreases |s|
  {
    var text := before + Escape(s) + "\"" + after;
    if s != "" {
      var c := if s[0] == '\\' || s[0] == '"' then ['\\', s[0]] else [s[0]];
      QuoteEndEscape(before + c, s[1..], after);
      assert text == (before + c) + Escape(s[1..]) + "\"" + after;
      assert text[|before|] == c[0];
    }
  }

  lemma ReadDisplayedBare(segment: string, after: string)
    requires IsBare(segment) && (after == "" || after[0] == '.')
    ensures ReadSegment(segment + after) == Ok(Piece(segment, |segment|))
  {
    var rest := segment + after;
    assert forall i :: 0 <= i < |segment| ==> rest[i] == segment[i] && IsSegmentChar(rest[i]);
    assert after != "" ==> rest[|segment|] == '.';
    var end := BareEnd(rest);
    assert end == |segment|;
    assert rest[..end] == segment;
  }

  lemma ReadDisplayedQuoted(segment: string, after: string)
    requires segment != ""
    ensures ReadSegment("\"" + Escape(segment) + "\"" + after) == Ok(Piece(segment, |Escape(segment)| + 2))
  {
    var e := Escape(segment);
    var rest := "\"" + e + "\"" + after;
    QuoteEndEscape("\"", segment, after);
    assert QuotedEnd(rest, 0) == Some(|e| + 2);
    assert rest[1..|e| + 1] == e;
    UnescapeEscape(segment);
  }

  /** A printed segment reads back as itself, whatever follows it after a dot or the end of
      the text. */
  lemma ReadDisplayed(segment: string, after: string)
    requires segment != "" && (after == "" || after[0] == '.')
    ensures ReadSegment(DisplaySegment(segment) + after) == Ok(Piece(segment, |DisplaySegment(segment)|))
  {
    if IsBare(segment) {
      ReadDisplayedBare(segment, after);
    } else {
      ReadDisplayedQuoted(segment, after);
    }
  }

  lemma SegmentsLast(segment: string)
    requires segment != ""
    ensures Segments(DisplaySegment(segment)) == Ok([segment])
  {
    ReadDisplayed(segment, "");
    assert DisplaySegment(segment) + "" == DisplaySegment(segment);
  }

  lemma SegmentsMore(segment: string, text: string, more: seq<string>)
    requires segment != "" && text != "" && Segments(text) == Ok(more)
    ensures Segments(DisplaySegment(segment) + "." + text) == Ok([segment] + more)
  {
    var shown := DisplaySegment(segment);
    var rest := shown + "." + text;
    Sequences.Associative(shown, ".", text);
    ReadDisplayed(segment, "." + text);
    assert rest[|shown|] == '.' && rest[|shown| + 1..] == text;
  }

  predicate Displayable(segments: seq<string>) {
    forall i :: 0 <= i < |segments| ==> segments[i] != ""
  }

  lemma {:induction false} SegmentsOfDotted(segments: seq<string>)
    requires segments != [] && Displayable(segments)
    ensures Segments(Dotted(segments)) == Ok(segments)
    ensures Dotted(segments) != "" && Dotted(segments)[0] != '.'
  {
    if |segments| == 1 {
      SegmentsLast(segments[0]);
      assert segments == [segments[0]];
    } else {
      SegmentsOfDotted(segments[1..]);
      SegmentsMore(segments[0], Dotted(segments[1..]), segments[1..]);
      assert [segments[0]] + segments[1..] == segments;
    }
  }

  /** The leading-dot form always names the record. */
  lemma ParseRooted(segments: seq<string>)
    requires Displayable(segments)
    ensures Parse("." + Dotted(segments)) == Ok(Record(segments))
  {
    var path := "." + Dotted(segments);
    assert path[1..] == Dotted(segments);
    if segments != [] {
      SegmentsOfDotted(segments);
    }
  }

  lemma ParseMetaName(field: MetaField)
    ensures ParseMetaField(MetaName(field)) == Some(field)
    ensures IsBare(MetaName(field))
  {
  }

  lemma MetaRoundTrip(field: MetaField)
    ensures Parse(Display(Meta(field))) == Ok(Meta(field))
  {
    var name := MetaName(field);
    ParseMetaName(field);
    assert IsBare(META_ROOT);
    SegmentsLast(name);
    SegmentsMore(META_ROOT, name, [name]);
    ParseUnrooted(Display(Meta(field)), [META_ROOT] + [name], field);
  }

  lemma ParseUnrooted(path: string, segments: seq<string>, field: MetaField)
    requires path != "" && path[0] != '.' && Segments(path) == Ok(segments)
    requires |segments| == 2 && segments[0] == META_ROOT && ParseMetaField(segments[1]) == Some(field)
    ensures Parse(path) == Ok(Meta(field))
  {
  }

  /** Every path with non-empty segments reads back from its text: quotes, backslashes, dots
      and a payload key spelled `meta` included. */
  lemma ParseDisplay(path: FieldPath)
    requires path.Record? ==> Displayable(path.segments)
    ensures Parse(Display(path)) == Ok(path)
  {
    match path
    case Meta(field) => MetaRoundTrip(field);
    case Record(segments) =>
      if segments == [] {
        assert Display(path)[1..] == "";
      } else if segments[0] == META_ROOT {
        ParseRooted(segments);
      } else {
        SegmentsOfDotted(segments);
      }
  }

  /** Whatever parses has non-empty segments, so its text can be printed and read back. */
  lemma {:induction false} ParsedIsDisplayable(rest: string)
    requires Segments(rest).Ok?
    ensures forall i :: 0 <= i < |Segments(rest).value| ==> Segments(rest).value[i] != ""
    decreases |rest|
  {
    var Piece(text, length) := ReadSegment(rest).value;
    if length < |rest| {
      ParsedIsDisplayable(rest[length + 1..]);
    }
  }

  // ----- which texts are paths -----

  /** ASCII letters, digits, the underscore and the hyphen, by their codes. */
  predicate IsBareCode(code: int) {
    97 <= code <= 122 || 65 <= code <= 90 || 48 <= code <= 57 || code == 95 || code == 45
  }

  /** A text without dots, brackets or a leading quote is one segment, exactly as written, when it holds
      nothing but such characters; else the first other character is refused. */
  lemma OneBareSegment(s: string)
    requires '.' !in s && '[' !in s && ']' !in s && (s != "" ==> s[0] != '"')
    ensures s == "" ==> Segments(s) == Err(EmptySegment)
    ensures s != "" && (forall k :: 0 <= k < |s| ==> IsBareCode(s[k] as int)) ==> Segments(s) == Ok([s])
    ensures forall i :: 0 <= i < |s| && !IsBareCode(s[i] as int) && (forall k :: 0 <= k < i ==> IsBareCode(s[k] as int))
                        ==> Segments(s) == Err(InvalidSegment(s[i]))
  {
    assert BareEnd(s) == |s|;
    assert s[..|s|] == s;
    forall k | 0 <= k < |s|
      ensures IsSegmentChar(s[k]) <==> IsBareCode(s[k] as int)
    {
    }
    var bad := FirstInvalid(s);
    assert ReadSegment(s) ==
      if s == "" then Err(EmptySegment) else if bad < |s| then Err(InvalidSegment(s[bad])) else Ok(Piece(s, |s|));
  }

  /** What a text names: the record itself, a value of its `Meta`, or segments in the record. Only a
      leading dot makes a first segment `meta` a key of the record. */
  lemma ParseMeans(path: string)
    ensures path == "." ==> Parse(path) == Ok(Record([]))
    ensures |path| > 1 && path[0] == '.' ==>
              Parse(path) == match Segments(path[1..])
                             case Ok(segments) => Ok(Record(segments))
                             case Err(e) => Err(e)
    ensures (path == "" || path[0] != '.') && Segments(path).Err? ==> Parse(path) == Err(Segments(path).error)
    ensures (path == "" || path[0] != '.') && Segments(path).Ok? ==>
              var segments := Segments(path).value;
              Parse(path) ==
              if segments == [] || segments[0] != "meta" then Ok(Record(segments))
              else if |segments| != 2 then Err(UnknownMetaField)
              else if segments[1] == "id" then Ok(Meta(Id))
              else if segments[1] == "tenant" then Ok(Meta(Tenant))
              else if segments[1] == "ingestion_time" then Ok(Meta(IngestionTime))
              else if segments[1] == "delivery_count" then Ok(Meta(DeliveryCount))
              else Err(UnknownMetaField)
  {
    hide Segments;
  }

  lemma {:induction false} NeverClosed(before: string, s: string)
    ensures QuoteEnd(before + Escape(s), '"', |before|) == None
    decreases |s|
  {
    if s == "" {
      assert before + Escape(s) == before;
    } else {
      var c := if s[0] == '\\' || s[0] == '"' then ['\\', s[0]] else [s[0]];
      NeverClosed(before + c, s[1..]);
      assert before + Escape(s) == (before + c) + Escape(s[1..]);
      assert (before + Escape(s))[|before|] == c[0];
    }
  }

  /** Why a text is no list of segments: a dot with nothing before it, an empty quoted segment, a quote
      left open, or a bracket where a segment starts or ends. */
  lemma MalformedSegments(s: string, rest: string)
    ensures Segments("." + rest) == Err(EmptySegment)
    ensures Segments("\"\"" + rest) == Err(EmptySegment)
    ensures Segments("\"" + Escape(s)) == Err(UnterminatedQuote)
    ensures Segments("[" + rest) == Err(BracketSyntax)
    ensures IsBare(s) ==> Segments(s + "[" + rest) == Err(BracketSyntax)
  {
    NeverClosed("\"", s);
    assert ("\"" + Escape(s))[0] == '"';
    assert BareEnd("." + rest) == 0 && BareEnd("[" + rest) == 0;
    EmptyQuoted(rest);
    if IsBare(s) {
      BareThenBracket(s, rest);
    }
  }

  lemma EmptyQuoted(rest: string)
    ensures Segments("\"\"" + rest) == Err(EmptySegment)
  {
    var text := "\"\"" + rest;
    assert text[0] == '"' && text[1] == '"';
    assert QuotedEnd(text, 0) == Some(2);
    assert text[1..1] == "";
  }

  lemma BareThenBracket(s: string, rest: string)
    requires IsBare(s)
    ensures Segments(s + "[" + rest) == Err(BracketSyntax)
  {
    var text := s + "[" + rest;
    assert forall i :: 0 <= i < |s| ==> text[i] == s[i] && IsSegmentChar(text[i]);
    assert text[|s|] == '[';
    assert BareEnd(text) == |s|;
    assert text[..|s|] == s;
  }

  // ----- what a list of segments looks like -----

  /** What stands between the quotes of a segment. */
  ghost predicate QuotedReads(body: string, s: string) {
    if body == "" then s == ""
    else if s == "" then false
    else if body[0] == '\\' then
      |body| >= 2 && (body[1] == '"' || body[1] == '\\') && s[0] == body[1] && QuotedReads(body[2..], s[1..])
    else body[0] != '"' && s[0] == body[0] && QuotedReads(body[1..], s[1..])
  }

  /** `text` is a spelling of the segment. */
  ghost predicate SpellsSegment(segment: string, text: string) {
    segment != "" &&
    ((text == segment && forall k :: 0 <= k < |text| ==> IsBareCode(text[k] as int)) ||
     (|text| >= 2 && text[0] == '"' && text[|text| - 1] == '"' && QuotedReads(text[1..|text| - 1], segment)))
  }

  function JoinedByDots(texts: seq<string>): string
    requires texts != []
  {
    if |texts| == 1 then texts[0] else texts[0] + ("." + JoinedByDots(texts[1..]))
  }

  lemma {:induction false} QuotedIsSpelled(text: string, i: nat, end: nat)
    requires i <= |text| && QuoteEnd(text, '"', i) == Some(end) && Unescape(text[i..end - 1]).Ok?
    ensures text[end - 1] == '"' && QuotedReads(text[i..end - 1], Unescape(text[i..end - 1]).value)
    decreases |text| - i
  {
    var inner := text[i..end - 1];
    if text[i] == '\\' {
      QuoteEndsLater(text, i + 2);
      assert inner[2..] == text[i + 2..end - 1] && inner[0] == text[i] && inner[1] == text[i + 1];
      QuotedIsSpelled(text, i + 2, end);
    } else if text[i] == '"' {
      assert inner == "";
    } else {
      QuoteEndsLater(text, i + 1);
      assert inner[1..] == text[i + 1..end - 1] && inner[0] == text[i];
      QuotedIsSpelled(text, i + 1, end);
    }
  }

  lemma QuoteEndsLater(text: string, i: nat)
    requires QuoteEnd(text, '"', i).Some?
    ensures i < QuoteEnd(text, '"', i).value <= |text|
  {
  }

  lemma PieceIsSpelled(rest: string)
    requires ReadSegment(rest).Ok?
    requires var length := ReadSegment(rest).value.length;
             length == |rest| || rest[length] == '.'
    ensures var Piece(segment, length) := ReadSegment(rest).value;
            SpellsSegment(segment, rest[..length])
  {
    hide SpellsSegment, ReadBare, ReadQuoted;
    if rest != "" && rest[0] == '"' {
      QuotedPieceIsSpelled(rest);
    } else {
      BareIsSpelled(rest);
    }
  }

  lemma QuotedPieceIsSpelled(rest: string)
    requires rest != "" && rest[0] == '"' && ReadQuoted(rest).Ok?
    ensures var Piece(segment, length) := ReadQuoted(rest).value;
            SpellsSegment(segment, rest[..length])
  {
    hide QuotedReads, Unescape, QuoteEnd;
    var length := ReadQuoted(rest).value.length;
    var text := rest[..length];
    QuotedIsSpelled(rest, 1, length);
    assert text[1..|text| - 1] == rest[1..length - 1];
  }

  lemma BareIsSpelled(rest: string)
    requires ReadBare(rest).Ok?
    requires var length := ReadBare(rest).value.length;
             length == |rest| || rest[length] == '.'
    ensures var Piece(segment, length) := ReadBare(rest).value;
            SpellsSegment(segment, rest[..length])
  {
    var segment := ReadBare(rest).value.text;
    forall k | 0 <= k < |segment|
      ensures IsBareCode(segment[k] as int)
    {
      assert IsSegmentChar(segment[k]);
    }
  }

  /** Whatever parses spells its segments, with one dot between them and nothing else. */
  lemma {:induction false} SegmentsAreSpelled(rest: string) returns (texts: seq<string>)
    requires Segments(rest).Ok?
    ensures var segments := Segments(rest).value;
            && |texts| == |segments| > 0
            && rest == JoinedByDots(texts)
            && forall k :: 0 <= k < |texts| ==> SpellsSegment(segments[k], texts[k])
    decreases |rest|
  {
    hide SpellsSegment, ReadSegment;
    var Piece(segment, length) := ReadSegment(rest).value;
    PieceIsSpelled(rest);
    if length == |rest| {
      texts := [rest];
      assert rest[..length] == rest;
    } else {
      var more := SegmentsAreSpelled(rest[length + 1..]);
      texts := [rest[..length]] + more;
      assert texts[1..] == more;
      assert rest == rest[..length] + ("." + rest[length + 1..]);
    }
  }
}
