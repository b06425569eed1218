/** UTF-8 (section 3 of RFC 3629), for text whose bytes are counted. */
module Utf8 {
  import opened Wrappers

  /** The bytes of a code point. */
  function Encode(code: nat): (bytes: seq<nat>)
    requires code < 0x11_0000
    ensures bytes != []
  {
    if code <= 0x7F then [code]
    else if code <= 0x7FF then [0xC0 + code / 0x40, 0x80 + code % 0x40]
    else if code <= 0xFFFF then [0xE0 + code / 0x1000, 0x80 + code / 0x40 % 0x40, 0x80 + code % 0x40]
    else [0xF0 + code / 0x4_0000, 0x80 + code / 0x1000 % 0x40, 0x80 + code / 0x40 % 0x40, 0x80 + code % 0x40]
  }

  /** How many bytes a character takes, from the bits its first byte leads with. */
  function LengthOf(lead: nat): Option<nat> {
    if lead < 0x80 then Some(1)
    else if 0xC0 <= lead < 0xE0 then Some(2)
    else if 0xE0 <= lead < 0xF0 then Some(3)
    else if 0xF0 <= lead < 0xF8 then Some(4)
    else None
  }

  function Decode(bytes: seq<int>): int
    requires 1 <= |bytes| <= 4
  {
    match |bytes|
    case 1 => bytes[0]
    case 2 => (bytes[0] - 0xC0) * 0x40 + (bytes[1] - 0x80)
    case 3 => (bytes[0] - 0xE0) * 0x1000 + (bytes[1] - 0x80) * 0x40 + (bytes[2] - 0x80)
    case _ => (bytes[0] - 0xF0) * 0x4_0000 + (bytes[1] - 0x80) * 0x1000 + (bytes[2] - 0x80) * 0x40 + (bytes[3] - 0x80)
  }

  /** The first byte says how many there are, every other is a continuation byte, the code point is
      read back, and no shorter form would hold it. */
  lemma EncodingIsSound(code: nat)
    requires code < 0x11_0000
    ensures var bytes := Encode(code);
            && LengthOf(bytes[0]) == Some(|bytes|)
            && (forall k :: 1 <= k < |bytes| ==> 0x80 <= bytes[k] < 0xC0)
            && Decode(bytes) == code
            && (|bytes| > 1 ==> code >= [0, 0, 0x80, 0x800, 0x1_0000][|bytes|])
  {
    assert code / 0x1000 == code / 0x40 / 0x40 && code / 0x4_0000 == code / 0x1000 / 0x40;
  }

  function EncodeText(text: string): seq<nat> {
    if text == "" then [] else Encode(text[0] as int) + EncodeText(text[1..])
  }
}
