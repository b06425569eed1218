/** Unsigned decimal text, as Rust prints and parses it. */
module Decimal {
  import opened Wrappers
  import Sequences

  predicate IsDigit(c: char) {
    '0' <= c <= '9'
  }

  predicate AllDigits(s: string) {
    forall i :: 0 <= i < |s| ==> IsDigit(s[i])
  }

  function DigitValue(c: char): nat
    requires IsDigit(c)
  {
    (c as int) - ('0' as int)
  }

  function DigitChar(d: nat): (c: char)
    requires d < 10
    ensures IsDigit(c) && DigitValue(c) == d
  {
    (d + '0' as int) as char
  }

  function Print(n: nat): (s: string)
    ensures s != [] && AllDigits(s)
    ensures |s| > 1 ==> s[0] != '0'
  {
    if n < 10 then [DigitChar(n)] else Print(n / 10) + [DigitChar(n % 10)]
  }

  function ValueOf(s: string): nat
    requires AllDigits(s)
  {
    if s == [] then 0 else ValueOf(s[..|s| - 1]) * 10 + DigitValue(s[|s| - 1])
  }

  /** `str::parse` for an unsigned integer below `limit`: one leading `+` is allowed, leading
      zeros are, and a value out of range is refused. */
  function ParseUnsigned(s: string, limit: nat): Option<nat> {
    var digits := if |s| > 0 && s[0] == '+' then s[1..] else s;
    if digits == [] || !AllDigits(digits) then None
    else if ValueOf(digits) < limit then Some(ValueOf(digits))
    else None
  }

  lemma {:induction false} ValueOfPrint(n: nat)
    ensures ValueOf(Print(n)) == n
  {
    if n >= 10 {
      ValueOfPrint(n / 10);
      assert Print(n)[..|Print(n)| - 1] == Print(n / 10);
    }
  }

  /** Printing then parsing gives the number back, for every number in range. */
  lemma ParsePrint(n: nat, limit: nat)
    requires n < limit
    ensures ParseUnsigned(Print(n), limit) == Some(n)
  {
    ValueOfPrint(n);
  }

  lemma {:induction false} ValueGrows(s: string)
    requires AllDigits(s) && s != [] && s[0] != '0'
    ensures ValueOf(s) > 0
  {
    if |s| > 1 {
      ValueGrows(s[..|s| - 1]);
    }
  }

  /** Digits with no leading zero are the only way to write their value. */
  lemma {:induction false} PrintValueOf(s: string)
    requires AllDigits(s) && s != [] && (|s| > 1 ==> s[0] != '0')
    ensures Print(ValueOf(s)) == s
  {
    if |s| == 1 {
      assert s[..0] == [];
    } else {
      var init := s[..|s| - 1];
      PrintValueOf(init);
      ValueGrows(init);
      assert s == init + [s[|s| - 1]];
    }
  }

  function Zeros(z: nat): (s: string)
    ensures AllDigits(s)
  {
    if z == 0 then "" else "0" + Zeros(z - 1)
  }

  lemma {:induction false} LeadingZero(s: string)
    requires AllDigits(s)
    ensures ValueOf("0" + s) == ValueOf(s)
  {
    var t := "0" + s;
    if s == "" {
      assert t[..0] == "";
    } else {
      LeadingZero(s[..|s| - 1]);
      assert t[..|t| - 1] == "0" + s[..|s| - 1];
    }
  }

  lemma {:induction false} LeadingZeros(z: nat, s: string)
    requires AllDigits(s)
    ensures ValueOf(Zeros(z) + s) == ValueOf(s)
  {
    hide ValueOf;
    if z == 0 {
      assert Zeros(z) + s == s;
    } else {
      LeadingZeros(z - 1, s);
      LeadingZero(Zeros(z - 1) + s);
      assert Zeros(z) + s == "0" + (Zeros(z - 1) + s);
    }
  }

  lemma {:induction false} Stripped(s: string) returns (z: nat)
    requires AllDigits(s) && s != ""
    ensures s == Zeros(z) + Print(ValueOf(s))
  {
    if |s| > 1 && s[0] == '0' {
      var less := Stripped(s[1..]);
      z := less + 1;
      assert s == "0" + s[1..];
      LeadingZero(s[1..]);
      Sequences.Associative("0", Zeros(less), Print(ValueOf(s)));
    } else {
      z := 0;
      PrintValueOf(s);
      assert s == Zeros(0) + s;
    }
  }

  /** A number reads back from its digits with zeros in front. */
  lemma ParseZeros(z: nat, n: nat, limit: nat)
    requires n < limit
    ensures ParseUnsigned(Zeros(z) + Print(n), limit) == Some(n)
    ensures AllDigits(Zeros(z) + Print(n)) && Zeros(z) + Print(n) != ""
  {
    ValueOfPrint(n);
    LeadingZeros(z, Print(n));
    assert IsDigit((Zeros(z) + Print(n))[0]);
  }

  /** Exactly the texts that read as `n`: its digits, after any leading zeros and at most one `+`. */
  lemma ParseUnsignedMeans(s: string, limit: nat, n: nat)
    ensures ParseUnsigned(s, limit) == Some(n) <==>
            n < limit && exists z: nat :: s == Zeros(z) + Print(n) || s == "+" + (Zeros(z) + Print(n))
  {
    hide Print, ValueOf, Zeros;
    var digits := if |s| > 0 && s[0] == '+' then s[1..] else s;
    if ParseUnsigned(s, limit) == Some(n) {
      var z := Stripped(digits);
      assert s[0] == '+' ==> s == "+" + digits;
    }
    forall z: nat | s == Zeros(z) + Print(n) || s == "+" + (Zeros(z) + Print(n))
      ensures digits == Zeros(z) + Print(n) && ValueOf(digits) == n
    {
      ValueOfPrint(n);
      LeadingZeros(z, Print(n));
      assert IsDigit((Zeros(z) + Print(n))[0]);
    }
  }
}
