/**
 Bytes and the UTF-8 encoding of text. Rust's `str::as_bytes` exposes the
 UTF-8 encoding of a string; every hash and HMAC input of the signer is
 obtained that way, so the model encodes Dafny strings (sequences of Unicode
 scalar values) into bytes explicitly.
 */
module Utf8 {

  import opened Wrappers

  /** An octet. */
  type Byte = b: int | 0 <= b < 256

  /** True when every character of `s` is in the 7-bit ASCII range. */
  predicate IsAscii(s: string) {
    forall i :: 0 <= i < |s| ==> (s[i] as int) < 0x80
  }

  /** The UTF-8 encoding of one Unicode scalar value (RFC 3629, section 3). */
  function EncodeChar(c: char): (r: seq<Byte>)
    ensures 1 <= |r| <= 4
    ensures (c as int) < 0x80 <==> |r| == 1
    ensures (c as int) < 0x80 ==> r[0] == c as int
  {
    var n := c as int;
    if n < 0x80 then [n]
    else if n < 0x800 then [0xC0 + n / 64, 0x80 + n % 64]
    else if n < 0x1_0000 then [0xE0 + n / 4096, 0x80 + (n / 64) % 64, 0x80 + n % 64]
    else [0xF0 + n / 262144, 0x80 + (n / 4096) % 64, 0x80 + (n / 64) % 64, 0x80 + n % 64]
  }

  /** The UTF-8 encoding of a string: the encodings of its characters, in order. */
  function Encode(s: string): (r: seq<Byte>)
    ensures |r| >= |s|
  {
    if s == [] then [] else EncodeChar(s[0]) + Encode(s[1..])
  }

  /** The encodings of a list of strings, element by element. */
  function EncodeAll(ss: seq<string>): (r: seq<seq<Byte>>)
    ensures |r| == |ss|
    ensures forall i :: 0 <= i < |ss| ==> r[i] == Encode(ss[i])
  {
    seq(|ss|, i requires 0 <= i < |ss| => Encode(ss[i]))
  }

  /** Encoding distributes over concatenation, so `format!` pieces may be encoded separately. */
  lemma {:induction false} EncodeAppend(a: string, b: string)
    ensures Encode(a + b) == Encode(a) + Encode(b)
  {
    if a == [] {
      assert a + b == b;
    } else {
      assert (a + b)[1..] == a[1..] + b;
      EncodeAppend(a[1..], b);
    }
  }

  /** An ASCII string encodes to one byte per character, the byte being the character code. */
  lemma {:induction false} EncodeAscii(s: string)
    requires IsAscii(s)
    ensures |Encode(s)| == |s|
    ensures forall i :: 0 <= i < |s| ==> Encode(s)[i] == s[i] as int
  {
    if s != [] {
      assert IsAscii(s[1..]) by {
        forall i | 0 <= i < |s[1..]| ensures (s[1..][i] as int) < 0x80 {
          assert s[1..][i] == s[i + 1];
        }
      }
      EncodeAscii(s[1..]);
    }
  }

  /** An ASCII string encodes to the bytes of its character codes. */
  lemma EncodeAsciiBytes(s: string, bytes: seq<Byte>)
    requires |s| == |bytes|
    requires forall i :: 0 <= i < |s| ==> (s[i] as int) < 0x80 && bytes[i] == s[i] as int
    ensures Encode(s) == bytes
  {
    EncodeAscii(s);
  }

  /** True when `b` is a UTF-8 continuation byte (10xxxxxx). */
  predicate IsContinuation(b: Byte) {
    0x80 <= b < 0xC0
  }

  /** The character whose code is `n`, when `n` is a Unicode scalar value. */
  function ScalarChar(n: int): Option<char> {
    if 0 <= n < 0xD800 || 0xE000 <= n < 0x11_0000 then Some(n as char) else None
  }

  /**
   The number of bytes of the encoded character that starts with lead byte
   `b`, or 0 when `b` cannot start one.
   */
  function SequenceLength(b: Byte): nat {
    if b < 0x80 then 1
    else if 0xC0 <= b < 0xE0 then 2
    else if 0xE0 <= b < 0xF0 then 3
    else if 0xF0 <= b < 0xF8 then 4
    else 0
  }

  /** Decodes the first character of `bytes`, given its encoded length `k`. */
  function DecodeFirst(bytes: seq<Byte>, k: nat): Option<char>
    requires 1 <= k <= 4 && k <= |bytes|
  {
    if exists i :: 1 <= i < k && !IsContinuation(bytes[i]) then None
    else if k == 1 then ScalarChar(bytes[0])
    else if k == 2 then ScalarChar((bytes[0] as int - 0xC0) * 64 + (bytes[1] as int - 0x80))
    else if k == 3 then
      ScalarChar((bytes[0] as int - 0xE0) * 4096 + (bytes[1] as int - 0x80) * 64 + (bytes[2] as int - 0x80))
    else
      ScalarChar((bytes[0] as int - 0xF0) * 262144 + (bytes[1] as int - 0x80) * 4096
                 + (bytes[2] as int - 0x80) * 64 + (bytes[3] as int - 0x80))
  }

  /** A reference decoder: the inverse of `Encode` on the bytes `Encode` produces. */
  function Decode(bytes: seq<Byte>): Option<string>
    decreases |bytes|
  {
    if bytes == [] then Some([])
    else
      var k := SequenceLength(bytes[0]);
      if k == 0 || |bytes| < k then None
      else match DecodeFirst(bytes, k)
        case None => None
        case Some(c) =>
          match Decode(bytes[k..])
          case None => None
          case Some(rest) => Some([c] + rest)
  }

  /** Splitting a code point into 6-bit groups and joining them back is the identity. */
  lemma SixBitGroups(n: nat)
    ensures (n / 64) * 64 + n % 64 == n
    ensures (n / 4096) * 64 + (n / 64) % 64 == n / 64
    ensures (n / 262144) * 64 + (n / 4096) % 64 == n / 4096
  {
    assert (n / 64) / 64 == n / 4096;
    assert (n / 4096) / 64 == n / 262144;
  }

  lemma DecodeFirstOfEncodeChar(c: char, tail: seq<Byte>)
    ensures SequenceLength((EncodeChar(c) + tail)[0]) == |EncodeChar(c)|
    ensures DecodeFirst(EncodeChar(c) + tail, |EncodeChar(c)|) == Some(c)
  {
    var n := c as int;
    if n < 0x80 {
    } else if n < 0x800 {
      DecodeTwoBytes(c, tail);
    } else if n < 0x1_0000 {
      DecodeThreeBytes(c, tail);
    } else {
      DecodeFourBytes(c, tail);
    }
  }

  lemma DecodeTwoBytes(c: char, tail: seq<Byte>)
    requires 0x80 <= c as int < 0x800
    ensures SequenceLength((EncodeChar(c) + tail)[0]) == 2 == |EncodeChar(c)|
    ensures DecodeFirst(EncodeChar(c) + tail, 2) == Some(c)
  {
    var n := c as int;
    var bs := EncodeChar(c) + tail;
    SixBitGroups(n);
    assert bs[0] as int - 0xC0 == n / 64 && bs[1] as int - 0x80 == n % 64;
  }

  lemma DecodeThreeBytes(c: char, tail: seq<Byte>)
    requires 0x800 <= c as int < 0x1_0000
    ensures SequenceLength((EncodeChar(c) + tail)[0]) == 3 == |EncodeChar(c)|
    ensures DecodeFirst(EncodeChar(c) + tail, 3) == Some(c)
  {
    var n := c as int;
    var bs := EncodeChar(c) + tail;
    SixBitGroups(n);
    assert bs[0] as int - 0xE0 == n / 4096;
    assert bs[1] as int - 0x80 == (n / 64) % 64 && bs[2] as int - 0x80 == n % 64;
    assert (bs[0] as int - 0xE0) * 64 + (bs[1] as int - 0x80) == n / 64;
  }

  lemma DecodeFourBytes(c: char, tail: seq<Byte>)
    requires 0x1_0000 <= c as int
    ensures SequenceLength((EncodeChar(c) + tail)[0]) == 4 == |EncodeChar(c)|
    ensures DecodeFirst(EncodeChar(c) + tail, 4) == Some(c)
  {
    var n := c as int;
    var bs := EncodeChar(c) + tail;
    SixBitGroups(n);
    assert bs[0] as int - 0xF0 == n / 262144;
    assert bs[1] as int - 0x80 == (n / 4096) % 64;
    assert bs[2] as int - 0x80 == (n / 64) % 64 && bs[3] as int - 0x80 == n % 64;
    assert (bs[0] as int - 0xF0) * 64 + (bs[1] as int - 0x80) == n / 4096;
  }

  /** Decoding undoes encoding, so distinct strings have distinct UTF-8 encodings. */
  lemma {:induction false} DecodeEncode(s: string)
    ensures Decode(Encode(s)) == Some(s)
  {
    if s != [] {
      var e := EncodeChar(s[0]);
      var bs := Encode(s);
      assert bs == e + Encode(s[1..]);
      DecodeFirstOfEncodeChar(s[0], Encode(s[1..]));
      assert bs[|e|..] == Encode(s[1..]);
      DecodeEncode(s[1..]);
      assert [s[0]] + s[1..] == s;
    }
  }
}
