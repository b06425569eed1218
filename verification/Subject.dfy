/** Subject tokens, wildcards and dead-letter subjects (crates/nats/src/subject.rs:16-71). A
    tenant is its bytes. */
module Subject {
  import opened Wrappers
  import Sequences

  type Byte = n: nat | n < 256

  /** `str::split('.')`: one token more than there are dots. */
  function Split(s: string): (tokens: seq<string>)
    ensures tokens != []
  {
    if s == "" then [""]
    else
      var rest := Split(s[1..]);
      if s[0] == '.' then [""] + rest else [[s[0]] + rest[0]] + rest[1..]
  }

  predicate DotFree(s: string) {
    '.' !in s
  }

  // ----- wildcards -----

  predicate TokensCaptured(pattern: seq<string>, tokens: seq<string>)
    decreases |pattern|
  {
    if pattern == [] then tokens == []
    else if pattern == [">"] then tokens != []
    else tokens != [] && (pattern[0] == "*" || pattern[0] == tokens[0]) && TokensCaptured(pattern[1..], tokens[1..])
  }

  predicate IsCaptured(pattern: string, subject: string) {
    TokensCaptured(Split(pattern), Split(subject))
  }

  /** `captures`. */
  method Captures(pattern: string, subject: string) returns (captured: bool)
    ensures captured == IsCaptured(pattern, subject)
  {
    var wants, tokens := Split(pattern), Split(subject);
    var i := 0;
    while i < |wants|
      invariant 0 <= i <= |wants| && i <= |tokens|
      invariant TokensCaptured(wants, tokens) == TokensCaptured(wants[i..], tokens[i..])
    {
      if wants[i] == ">" && i + 1 == |wants| {
        assert wants[i..] == [">"];
        return i < |tokens|;
      }
      assert wants[i..][1..] == wants[i + 1..];
      if i == |tokens| || !(wants[i] == "*" || wants[i] == tokens[i]) {
        return false;
      }
      assert tokens[i..][1..] == tokens[i + 1..];
      i := i + 1;
    }
    captured := i == |tokens|;
  }

  predicate Fits(want: string, token: string) {
    want == "*" || want == token
  }

  /** Token by token, `*` fitting any; a last `>` stands for one token or more. */
  lemma {:induction false} CapturedMeans(pattern: seq<string>, tokens: seq<string>)
    requires pattern != []
    ensures TokensCaptured(pattern, tokens) <==>
      if pattern[|pattern| - 1] == ">"
      then |tokens| >= |pattern| && forall k :: 0 <= k < |pattern| - 1 ==> Fits(pattern[k], tokens[k])
      else |tokens| == |pattern| && forall k :: 0 <= k < |pattern| ==> Fits(pattern[k], tokens[k])
    decreases |pattern|
  {
    if pattern != [">"] && tokens != [] {
      if |pattern| > 1 {
        var p, t := pattern[1..], tokens[1..];
        CapturedMeans(p, t);
        assert forall k :: 0 <= k < |p| ==> pattern[k + 1] == p[k];
        assert forall k :: 0 <= k < |t| ==> tokens[k + 1] == t[k];
        assert forall k :: 0 < k < |pattern| ==> pattern[k] == p[k - 1];
        assert forall k :: 0 < k < |tokens| ==> tokens[k] == t[k - 1];
      } else {
        assert pattern[1..] == [];
      }
    }
  }

  // ----- dead-letter subjects -----

  /** Stands for itself in a token: printable ASCII but `.`, `*`, `>` and `%`. */
  predicate IsPlain(b: Byte) {
    0x21 <= b <= 0x7E && b as char != '.' && b as char != '*' && b as char != '>' && b as char != '%'
  }

  function HexDigit(d: nat): (c: char)
    requires d < 16
  {
    if d < 10 then (d + 48) as char else (d + 55) as char
  }

  function EncodeByte(b: Byte): string {
    if IsPlain(b) then [b as char] else ['%', HexDigit(b / 16), HexDigit(b % 16)]
  }

  function Token(tenant: seq<Byte>): string {
    if tenant == [] then "" else EncodeByte(tenant[0]) + Token(tenant[1..])
  }

  /** The characters that stand for themselves: the printable ASCII between and around the four that do
      not. */
  predicate StandsForItself(c: char) {
    '!' <= c <= '$' || '&' <= c <= ')' || '+' <= c <= '-' || '/' <= c <= '=' || '?' <= c <= '~'
  }

  /** Each of them is kept, and every other byte is a percent sign and two upper-case hexadecimal
      digits. */
  lemma BytesOfToken(b: Byte)
    ensures EncodeByte(b) ==
            if StandsForItself(b as char) then [b as char]
            else ['%', "0123456789ABCDEF"[b / 16], "0123456789ABCDEF"[b % 16]]
  {
    HexIsSpelled(b / 16);
    HexIsSpelled(b % 16);
  }

  lemma HexIsSpelled(d: nat)
    requires d < 16
    ensures HexDigit(d) == "0123456789ABCDEF"[d]
  {
  }

  function DeadLetterOf(prefix: string, tenant: seq<Byte>): string {
    prefix + "." + Token(tenant)
  }

  /** `dead_letter`. */
  method DeadLetter(prefix: string, tenant: seq<Byte>) returns (subject: string)
    ensures subject == DeadLetterOf(prefix, tenant)
  {
    subject := prefix + ".";
    for i := 0 to |tenant|
      invariant subject + Token(tenant[i..]) == DeadLetterOf(prefix, tenant)
    {
      Sequences.Associative(subject, EncodeByte(tenant[i]), Token(tenant[i + 1..]));
      assert tenant[i..][1..] == tenant[i + 1..];
      subject := subject + EncodeByte(tenant[i]);
    }
    assert tenant[|tenant|..] == [] && subject + "" == subject;
  }

  function HexValue(c: char): nat {
    if '0' <= c <= '9' then c as int - 48 else if 'A' <= c <= 'F' then c as int - 55 else 0
  }

  lemma HexValueOf(d: nat)
    requires d < 16
    ensures HexValue(HexDigit(d)) == d && HexDigit(d) != '.'
  {
  }

  /** Reading a token back. */
  function Decode(token: string): seq<int> {
    if token == "" then []
    else if token[0] == '%' && |token| >= 3 then [HexValue(token[1]) * 16 + HexValue(token[2])] + Decode(token[3..])
    else [token[0] as int] + Decode(token[1..])
  }

  lemma DecodeByte(b: Byte, rest: string)
    ensures Decode(EncodeByte(b) + rest) == [b as int] + Decode(rest)
  {
    var text := EncodeByte(b) + rest;
    if IsPlain(b) {
      assert text[0] == b as char && text[1..] == rest;
    } else {
      HexValueOf(b / 16);
      HexValueOf(b % 16);
      assert text[3..] == rest;
      assert b / 16 * 16 + b % 16 == b;
    }
  }

  lemma {:induction false} DecodeToken(tenant: seq<Byte>)
    ensures |Decode(Token(tenant))| == |tenant| && forall k :: 0 <= k < |tenant| ==>
      Decode(Token(tenant))[k] == tenant[k] as int
  {
    if tenant != [] {
      DecodeToken(tenant[1..]);
      DecodeByte(tenant[0], Token(tenant[1..]));
      assert forall k :: 0 < k < |tenant| ==> tenant[k] == tenant[1..][k - 1];
    }
  }

  /** Two tenants share a token only if they are one. */
  lemma TokenInjective(a: seq<Byte>, b: seq<Byte>)
    ensures Token(a) == Token(b) <==> a == b
  {
    DecodeToken(a);
    DecodeToken(b);
    if Token(a) == Token(b) {
      assert forall k :: 0 <= k < |a| ==> a[k] == b[k];
    }
  }

  /** A tenant is one token: no dot in it, and never a wildcard. */
  lemma {:induction false} TokenIsOneToken(tenant: seq<Byte>)
    ensures DotFree(Token(tenant)) && '*' !in Token(tenant) && '>' !in Token(tenant)
    ensures Token(tenant) == "" <==> tenant == []
  {
    if tenant != [] {
      HexValueOf(tenant[0] / 16);
      HexValueOf(tenant[0] % 16);
      TokenIsOneToken(tenant[1..]);
    }
  }

  lemma {:induction false} SplitDotFree(s: string)
    requires DotFree(s)
    ensures Split(s) == [s]
  {
    if s != "" {
      SplitDotFree(s[1..]);
      assert s == [s[0]] + s[1..];
    }
  }

  /** Tokens of two texts with a dot between them. */
  lemma {:induction false} SplitJoined(a: string, b: string)
    ensures Split(a + "." + b) == Split(a) + Split(b)
  {
    var s := a + "." + b;
    if a == "" {
      assert s[1..] == b;
    } else {
      SplitJoined(a[1..], b);
      assert s[0] == a[0] && s[1..] == a[1..] + "." + b;
      FirstTokenGrows(a[0], Split(a[1..]), Split(b));
    }
  }

  lemma FirstTokenGrows(c: char, tokens: seq<string>, more: seq<string>)
    requires tokens != []
    ensures (tokens + more)[0] == tokens[0] && (tokens + more)[1..] == tokens[1..] + more
    ensures [""] + (tokens + more) == [""] + tokens + more
    ensures [[c] + tokens[0]] + (tokens[1..] + more) == [[c] + tokens[0]] + tokens[1..] + more
  {
  }

  lemma DeadLetterTokens(prefix: string, tenant: seq<Byte>)
    ensures Split(DeadLetterOf(prefix, tenant)) == Split(prefix) + [Token(tenant)]
  {
    TokenIsOneToken(tenant);
    SplitJoined(prefix, Token(tenant));
    SplitDotFree(Token(tenant));
  }

  /** No two tenants share a dead-letter subject. */
  lemma DeadLettersDistinct(prefix: string, a: seq<Byte>, b: seq<Byte>)
    ensures DeadLetterOf(prefix, a) == DeadLetterOf(prefix, b) <==> a == b
  {
    TokenInjective(a, b);
    assert Token(a) == DeadLetterOf(prefix, a)[|prefix| + 1..] && Token(b) == DeadLetterOf(prefix, b)[|prefix| + 1..];
  }

  // ----- covering every tenant -----

  predicate CoversEveryTenant(pattern: string, prefix: string) {
    IsCaptured(pattern, prefix + "." + "*")
  }

  /** What takes a literal `*` for last token takes any. */
  lemma {:induction false} StarTakesAny(pattern: seq<string>, before: seq<string>, token: string)
    requires TokensCaptured(pattern, before + ["*"])
    ensures TokensCaptured(pattern, before + [token])
    decreases |before|
  {
    if before != [] && pattern != [">"] {
      assert (before + ["*"])[1..] == before[1..] + ["*"] && (before + [token])[1..] == before[1..] + [token];
      StarTakesAny(pattern[1..], before[1..], token);
    }
  }

  /** What takes two different last tokens takes a literal `*` too. */
  lemma {:induction false} TwoMeanStar(pattern: seq<string>, before: seq<string>, a: string, b: string)
    requires a != b && TokensCaptured(pattern, before + [a]) && TokensCaptured(pattern, before + [b])
    ensures TokensCaptured(pattern, before + ["*"])
    decreases |before|
  {
    if before != [] && pattern != [">"] {
      assert (before + ["*"])[1..] == before[1..] + ["*"];
      assert (before + [a])[1..] == before[1..] + [a] && (before + [b])[1..] == before[1..] + [b];
      TwoMeanStar(pattern[1..], before[1..], a, b);
    }
  }

  /** Asking about `{prefix}.*` answers for every tenant: the pattern covers it exactly when it
      captures the dead-letter subject of each tenant that is not empty. */
  lemma CoversExactlyEveryTenant(pattern: string, prefix: string)
    ensures CoversEveryTenant(pattern, prefix) <==>
      forall tenant: seq<Byte> :: tenant != [] ==> IsCaptured(pattern, DeadLetterOf(prefix, tenant))
  {
    SplitJoined(prefix, "*");
    SplitDotFree("*");
    if CoversEveryTenant(pattern, prefix) {
      forall tenant: seq<Byte> ensures IsCaptured(pattern, DeadLetterOf(prefix, tenant)) {
        DeadLetterTokens(prefix, tenant);
        StarTakesAny(Split(pattern), Split(prefix), Token(tenant));
      }
    }
    if forall tenant: seq<Byte> :: tenant != [] ==> IsCaptured(pattern, DeadLetterOf(prefix, tenant)) {
      var a: seq<Byte>, b: seq<Byte> := [97], [98];
      assert IsCaptured(pattern, DeadLetterOf(prefix, a)) && IsCaptured(pattern, DeadLetterOf(prefix, b));
      DeadLetterTokens(prefix, a);
      DeadLetterTokens(prefix, b);
      TokenInjective(a, b);
      TwoMeanStar(Split(pattern), Split(prefix), Token(a), Token(b));
    }
  }

  // ----- the tenant of a subject -----

  /** `tenant_from_subject`. */
  function TenantFromSubject(subject: string, prefix: string): Option<string> {
    var tokens := Split(subject);
    if |tokens| >= 3 && tokens[0] == prefix && tokens[1] != "" then Some(tokens[1]) else None
  }

  lemma {:induction false} TokensAreDotFree(s: string)
    ensures forall k :: 0 <= k < |Split(s)| ==> DotFree(Split(s)[k])
  {
    if s != "" {
      TokensAreDotFree(s[1..]);
    }
  }

  /** Whatever a subject names as its tenant is one token, and not empty. */
  lemma NamedTenantIsOneToken(subject: string, prefix: string)
    ensures var tenant := TenantFromSubject(subject, prefix);
      tenant.Some? ==> DotFree(tenant.value) && tenant.value != ""
  {
    TokensAreDotFree(subject);
  }

  /** The first token and what follows its dot. */
  lemma {:induction false} FirstAndRest(s: string) returns (rest: string)
    requires |Split(s)| >= 2
    ensures s == Split(s)[0] + ("." + rest) && Split(rest) == Split(s)[1..]
  {
    if s[0] == '.' {
      rest := s[1..];
    } else {
      rest := FirstAndRest(s[1..]);
      var first := Split(s[1..])[0];
      assert s == [s[0]] + s[1..];
      assert [s[0]] + (first + ("." + rest)) == ([s[0]] + first) + ("." + rest);
    }
  }

  /** A subject names a tenant exactly when it is the prefix, one token that is not empty, and a token or
      more after that. */
  lemma NamesTenant(subject: string, prefix: string, tenant: string)
    ensures TenantFromSubject(subject, prefix) == Some(tenant) <==>
            && DotFree(prefix) && DotFree(tenant) && tenant != ""
            && exists rest :: subject == prefix + ("." + (tenant + ("." + rest)))
  {
    if TenantFromSubject(subject, prefix) == Some(tenant) {
      TokensAreDotFree(subject);
      var rest := FirstAndRest(subject);
      var more := FirstAndRest(rest);
      assert subject == prefix + ("." + (tenant + ("." + more)));
    }
    forall rest | DotFree(prefix) && DotFree(tenant) && subject == prefix + ("." + (tenant + ("." + rest)))
      ensures Split(subject)[0] == prefix && |Split(subject)| >= 3 && Split(subject)[1] == tenant
    {
      Sequences.Associative(prefix, ".", tenant + ("." + rest));
      Sequences.Associative(tenant, ".", rest);
      SplitJoined(prefix, tenant + ("." + rest));
      SplitJoined(tenant, rest);
      SplitDotFree(prefix);
      SplitDotFree(tenant);
    }
  }
}
