/**
 * Percent-encoding as in section 2.1 of RFC 3986: `utf8_percent_encode(input,
 * NON_ALPHANUMERIC)` writes every byte other than an ASCII letter or digit as
 * `%` and two upper-case hexadecimal digits; `percent_decode_str` undoes it.
 */
module PercentEncoding {

  import opened Wrappers
  import Utf8

  type byte = Utf8.byte

  /** The bytes the NON_ALPHANUMERIC set leaves alone: `0-9`, `A-Z`, `a-z`. */
  predicate IsAsciiAlphanumeric(b: byte)
  {
    0x30 <= b <= 0x39 || 0x41 <= b <= 0x5A || 0x61 <= b <= 0x7A
  }

  const HexDigits: string := "0123456789ABCDEF"

  /** The characters an encoded string is made of. */
  predicate IsEncodedChar(c: char)
  {
    ('0' <= c <= '9') || ('A' <= c <= 'Z') || ('a' <= c <= 'z') || c == '%'
  }

  /** The value of a hexadecimal digit of either case. */
  function HexValue(c: char): (r: Option<nat>)
    ensures r.Some? ==> r.value < 16
  {
    if '0' <= c <= '9' then Some(c as int - '0' as int)
    else if 'A' <= c <= 'F' then Some(c as int - 'A' as int + 10)
    else if 'a' <= c <= 'f' then Some(c as int - 'a' as int + 10)
    else None
  }

  /** One byte, encoded. */
  function EncodeByte(b: byte): (r: string)
    ensures 1 <= |r| <= 3
    ensures forall i :: 0 <= i < |r| ==> IsEncodedChar(r[i])
    ensures |r| == 1 <==> IsAsciiAlphanumeric(b)
  {
    if IsAsciiAlphanumeric(b) then [b as char]
    else ['%', HexDigits[b / 16], HexDigits[b % 16]]
  }

  /** `utf8_percent_encode` applied to the bytes of a string, NON_ALPHANUMERIC set. */
  function Encode(bytes: seq<byte>): (r: string)
    ensures forall i :: 0 <= i < |r| ==> IsEncodedChar(r[i])
    ensures |bytes| <= |r| <= 3 * |bytes|
  {
    if bytes == [] then ""
    else
      EncodeByte(bytes[0]) + Encode(bytes[1..])
  }

  /**
   * `percent_decode_str(s)`: each `%` followed by two hexadecimal digits
   * becomes the byte they spell; every other character stands for its own
   * UTF-8 bytes (a `%` not followed by two digits included).
   */
  function Decode(s: string): (r: seq<byte>)
    ensures |s| <= 3 * |r| && |r| <= 4 * |s|
  {
    if s == [] then []
    else if |s| >= 3 && s[0] == '%' && HexValue(s[1]).Some? && HexValue(s[2]).Some? then
      [HexValue(s[1]).value * 16 + HexValue(s[2]).value] + Decode(s[3..])
    else Utf8.EncodeChar(s[0]) + Decode(s[1..])
  }

  lemma HexDigitValue(d: nat)
    requires d < 16
    ensures HexValue(HexDigits[d]) == Some(d)
  {
  }

  /** Decoding the encoding of one byte gives that byte back, whatever follows. */
  lemma DecodeEncodeByte(b: byte, rest: string)
    ensures Decode(EncodeByte(b) + rest) == [b] + Decode(rest)
  {
    if IsAsciiAlphanumeric(b) {
      DecodeLiteral(b, rest);
    } else {
      DecodeEscape(b, rest);
    }
  }

  lemma DecodeLiteral(b: byte, rest: string)
    requires IsAsciiAlphanumeric(b)
    ensures Decode([b as char] + rest) == [b] + Decode(rest)
  {
    var s := [b as char] + rest;
    assert s[0] == b as char && s[0] != '%' && s[1..] == rest;
    assert Utf8.EncodeChar(b as char) == [b];
  }

  lemma DecodeEscape(b: byte, rest: string)
    ensures Decode(['%', HexDigits[b / 16], HexDigits[b % 16]] + rest) == [b] + Decode(rest)
  {
    var s := ['%', HexDigits[b / 16], HexDigits[b % 16]] + rest;
    HexDigitValue(b / 16);
    HexDigitValue(b % 16);
    assert s[0] == '%' && s[1] == HexDigits[b / 16] && s[2] == HexDigits[b % 16];
    assert s[3..] == rest;
  }

  /** The round trip: percent-decoding an encoding gives back exactly the encoded bytes. */
  lemma {:induction false} DecodeEncode(bytes: seq<byte>)
    ensures Decode(Encode(bytes)) == bytes
  {
    if bytes != [] {
      DecodeEncodeByte(bytes[0], Encode(bytes[1..]));
      DecodeEncode(bytes[1..]);
    }
  }

  /** Text without `%` decodes to its own UTF-8 bytes: decoding changes only escapes. */
  lemma {:induction false} DecodeWithoutEscapes(s: string)
    requires '%' !in s
    ensures Decode(s) == Utf8.Encode(s)
  {
    if s != [] {
      assert s[0] != '%';
      assert '%' !in s[1..] by {
        forall i | 0 <= i < |s[1..]|
          ensures s[1..][i] != '%'
        {
          assert s[1..][i] == s[i + 1];
        }
      }
      DecodeWithoutEscapes(s[1..]);
    }
  }
}
