/**
 Lowercase hexadecimal encoding, as produced by the `hex::encode` call the
 signer uses for every digest it prints: two characters per byte, the high
 nibble first, from the alphabet `0-9a-f`.
 */
module Hex {

  import opened Wrappers
  import opened Utf8

  /** The sixteen characters of the lowercase alphabet, in value order. */
  const Alphabet: string := "0123456789abcdef"

  /** True when `c` is one of the lowercase hex characters. */
  predicate IsHexChar(c: char) {
    '0' <= c <= '9' || 'a' <= c <= 'f'
  }

  /** True when every character of `s` is a lowercase hex character. */
  predicate IsLowerHex(s: string) {
    forall i :: 0 <= i < |s| ==> IsHexChar(s[i])
  }

  /** The character for a nibble. */
  function Digit(v: int): (c: char)
    requires 0 <= v < 16
    ensures IsHexChar(c)
  {
    Alphabet[v]
  }

  /** The nibble a hex character stands for. */
  function DigitValue(c: char): (v: int)
    requires IsHexChar(c)
    ensures 0 <= v < 16
  {
    if c <= '9' then c as int - '0' as int else c as int - 'a' as int + 10
  }

  lemma DigitRoundTrip(v: int)
    requires 0 <= v < 16
    ensures DigitValue(Digit(v)) == v
  {
  }

  lemma DigitValueRoundTrip(c: char)
    requires IsHexChar(c)
    ensures Digit(DigitValue(c)) == c
  {
  }

  /** The two characters of one byte. */
  function EncodeByte(b: Byte): (r: string)
    ensures |r| == 2 && IsHexChar(r[0]) && IsHexChar(r[1])
    ensures DigitValue(r[0]) * 16 + DigitValue(r[1]) == b
  {
    DigitRoundTrip(b / 16);
    DigitRoundTrip(b % 16);
    [Digit(b / 16), Digit(b % 16)]
  }

  /** The lowercase hex encoding of a byte string. */
  function Encode(bytes: seq<Byte>): (r: string)
    ensures |r| == 2 * |bytes|
    ensures IsLowerHex(r)
  {
    if bytes == [] then [] else EncodeByte(bytes[0]) + Encode(bytes[1..])
  }

  /** The inverse of `Encode`: `None` on odd length or a character outside the alphabet. */
  function Decode(s: string): (r: Option<seq<Byte>>)
    ensures r.Some? ==> 2 * |r.value| == |s|
  {
    if s == [] then Some([])
    else if |s| < 2 || !IsHexChar(s[0]) || !IsHexChar(s[1]) then None
    else match Decode(s[2..])
      case None => None
      case Some(rest) => Some([DigitValue(s[0]) * 16 + DigitValue(s[1])] + rest)
  }

  /** Decoding undoes encoding. */
  lemma {:induction false} DecodeEncode(bytes: seq<Byte>)
    ensures Decode(Encode(bytes)) == Some(bytes)
  {
    if bytes != [] {
      var e, tail := EncodeByte(bytes[0]), Encode(bytes[1..]);
      var s := e + tail;
      assert Encode(bytes) == s;
      assert s[0] == e[0] && s[1] == e[1] && s[2..] == tail;
      DecodeEncode(bytes[1..]);
      assert Decode(s) == Some([bytes[0]] + bytes[1..]);
      assert [bytes[0]] + bytes[1..] == bytes;
    }
  }

  /** Encoding undoes decoding: every even-length lowercase hex string is an encoding. */
  lemma {:induction false} EncodeDecode(s: string)
    requires IsLowerHex(s) && |s| % 2 == 0
    ensures Decode(s).Some? && Encode(Decode(s).value) == s
  {
    if s != [] {
      assert IsLowerHex(s[2..]) by {
        forall i | 0 <= i < |s[2..]| ensures IsHexChar(s[2..][i]) {
          assert s[2..][i] == s[i + 2];
        }
      }
      EncodeDecode(s[2..]);
      var rest := Decode(s[2..]).value;
      var hi, lo := DigitValue(s[0]), DigitValue(s[1]);
      var b: Byte := hi * 16 + lo;
      assert Decode(s) == Some([b] + rest);
      assert b / 16 == hi && b % 16 == lo;
      DigitValueRoundTrip(s[0]);
      DigitValueRoundTrip(s[1]);
      assert EncodeByte(b) == s[..2];
      assert ([b] + rest)[1..] == rest;
      assert Encode([b] + rest) == s[..2] + s[2..];
      assert s == s[..2] + s[2..];
    }
  }

  /** Distinct byte strings have distinct encodings. */
  lemma EncodeInjective(a: seq<Byte>, b: seq<Byte>)
    requires Encode(a) == Encode(b)
    ensures a == b
  {
    DecodeEncode(a);
    DecodeEncode(b);
  }
}
