/** UTF-8 (RFC 3629, section 3), as used to turn a text into the bytes to be encrypted. */
module Utf8 {
  import opened PiiFormat

  /** The bytes of one character. */
  function EncodeChar(c: char): (bytes: seq<Byte>)
    ensures 1 <= |bytes| <= 4
  {
    var n := c as int;
    if n < 0x80 then [n]
    else if n < 0x800 then [0xC0 + n / 64, 0x80 + n % 64]
    else if n < 0x10000 then [0xE0 + n / 4096, 0x80 + n / 64 % 64, 0x80 + n % 64]
    else [0xF0 + n / 262144, 0x80 + n / 4096 % 64, 0x80 + n / 64 % 64, 0x80 + n % 64]
  }

  function Encode(text: string): (bytes: seq<Byte>)
    ensures |text| <= |bytes| <= 4 * |text|
  {
    if text == "" then [] else EncodeChar(text[0]) + Encode(text[1..])
  }

  /** The number of bytes of a character, by its first byte. */
  function Width(lead: Byte): (width: nat)
    ensures 1 <= width <= 4
  {
    if lead < 0xC0 then 1 else if lead < 0xE0 then 2 else if lead < 0xF0 then 3 else 4
  }

  /** The six payload bits of a continuation byte. */
  function Payload(b: Byte): int { b - 0x80 }

  function CodePoint(bytes: seq<Byte>): int
    requires bytes != [] && |bytes| == Width(bytes[0])
  {
    match |bytes|
    case 1 => bytes[0]
    case 2 => (bytes[0] - 0xC0) * 64 + Payload(bytes[1])
    case 3 => (bytes[0] - 0xE0) * 4096 + Payload(bytes[1]) * 64 + Payload(bytes[2])
    case _ => (bytes[0] - 0xF0) * 262144 + Payload(bytes[1]) * 4096 + Payload(bytes[2]) * 64 + Payload(bytes[3])
  }

  /** Malformed input gives the replacement character. */
  function CharOf(code: int): char {
    if 0 <= code < 0xD800 || 0xE000 <= code < 0x110000 then code as char else '\U{FFFD}'
  }

  function Decode(bytes: seq<Byte>): string {
    if bytes == [] then ""
    else
      var width := Width(bytes[0]);
      if width <= |bytes| then [CharOf(CodePoint(bytes[..width]))] + Decode(bytes[width..]) else "\U{FFFD}"
  }

  lemma WidthOfChar(c: char)
    ensures |EncodeChar(c)| == Width(EncodeChar(c)[0])
  {}

  lemma CodePointOfChar(c: char)
    requires |EncodeChar(c)| == Width(EncodeChar(c)[0])
    ensures CharOf(CodePoint(EncodeChar(c))) == c
  {
    var n := c as int;
    if n >= 0x10000 {
      assert n == n / 262144 * 262144 + n / 4096 % 64 * 4096 + n / 64 % 64 * 64 + n % 64;
    } else if n >= 0x800 {
      assert n == n / 4096 * 4096 + n / 64 % 64 * 64 + n % 64;
    }
  }

  /** No text is lost. */
  lemma {:induction false} DecodeEncode(text: string)
    ensures Decode(Encode(text)) == text
  {
    if text != "" {
      var head, rest := EncodeChar(text[0]), Encode(text[1..]);
      WidthOfChar(text[0]);
      CodePointOfChar(text[0]);
      DecodeEncode(text[1..]);
      assert (head + rest)[..|head|] == head && (head + rest)[|head|..] == rest;
      assert text == [text[0]] + text[1..];
    }
  }
}
