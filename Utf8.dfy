/**
 * Rust strings are UTF-8: `str::as_bytes` (what the Base64 engine reads when
 * it is handed a `String`) gives the UTF-8 encoding of the characters. The
 * decoder is the reference inverse that shows no two strings share bytes.
 */
module Utf8 {
  import opened Wrappers

  /** An octet: Rust's `u8`. */
  type Byte = b: int | 0 <= b < 256

  /** A Unicode scalar value, the range of Dafny's (and Rust's) `char`. */
  predicate IsScalarValue(cp: int) {
    (0 <= cp < 0xD800) || (0xE000 <= cp < 0x11_0000)
  }

  predicate IsContinuation(b: Byte) {
    0x80 <= b < 0xC0
  }

  /** The one to four bytes that UTF-8 writes for `c`. */
  function EncodeChar(c: char): (bs: seq<Byte>)
    ensures 1 <= |bs| <= 4
    ensures |bs| == 1 <==> c as int < 0x80
  {
    var cp := c as int;
    // cp in base 64: top, hi, mid, lo (six bits each, most significant first)
    var q1, lo := cp / 64, cp % 64;
    var q2, mid := q1 / 64, q1 % 64;
    var top, hi := q2 / 64, q2 % 64;
    if cp < 0x80 then [cp]
    else if cp < 0x800 then [0xC0 + q1, 0x80 + lo]
    else if cp < 0x1_0000 then [0xE0 + q2, 0x80 + mid, 0x80 + lo]
    else [0xF0 + top, 0x80 + hi, 0x80 + mid, 0x80 + lo]
  }

  /** `str::as_bytes`: the UTF-8 encoding of a string, character by character. */
  function Encode(s: string): (bs: seq<Byte>)
    ensures |bs| >= |s|
  {
    if s == [] then [] else EncodeChar(s[0]) + Encode(s[1..])
  }

  /**
   * Reads the character at the front of `bs` and says how many bytes it
   * took, rejecting truncated sequences, stray continuation bytes,
   * overlong forms, surrogates and values beyond U+10FFFF.
   */
  function DecodeChar(bs: seq<Byte>): (r: Option<(char, nat)>)
    ensures r.Some? ==> 1 <= r.value.1 <= |bs|
  {
    if bs == [] then None
    else
      var b0 := bs[0] as int;
      if b0 < 0x80 then Some((b0 as char, 1))
      else if 0xC0 <= b0 < 0xE0 then
        if |bs| < 2 || !IsContinuation(bs[1]) then None
        else
          var cp := (b0 - 0xC0) * 64 + (bs[1] as int - 0x80);
          if cp < 0x80 then None else Some((cp as char, 2))
      else if 0xE0 <= b0 < 0xF0 then
        if |bs| < 3 || !IsContinuation(bs[1]) || !IsContinuation(bs[2]) then None
        else
          var cp := (b0 - 0xE0) * 4096 + (bs[1] as int - 0x80) * 64 + (bs[2] as int - 0x80);
          if cp < 0x800 || !IsScalarValue(cp) then None else Some((cp as char, 3))
      else if 0xF0 <= b0 < 0xF8 then
        if |bs| < 4 || !IsContinuation(bs[1]) || !IsContinuation(bs[2]) || !IsContinuation(bs[3]) then None
        else
          var cp := (b0 - 0xF0) * 262144 + (bs[1] as int - 0x80) * 4096 + (bs[2] as int - 0x80) * 64 + (bs[3] as int - 0x80);
          if cp < 0x1_0000 || !IsScalarValue(cp) then None else Some((cp as char, 4))
      else None
  }

  /** Decodes a whole byte sequence, or fails if it is not well-formed UTF-8. */
  function Decode(bs: seq<Byte>): Option<string>
    decreases |bs|
  {
    if bs == [] then Some([])
    else
      match DecodeChar(bs)
      case None => None
      case Some((c, n)) =>
        match Decode(bs[n..])
        case None => None
        case Some(rest) => Some([c] + rest)
  }

  /** The decoder reads back exactly the character that `EncodeChar` wrote. */
  lemma DecodeEncodeChar(c: char, rest: seq<Byte>)
    ensures DecodeChar(EncodeChar(c) + rest) == Some((c, |EncodeChar(c)|))
  {
    var cp := c as int;
    if cp < 0x80 {
    } else if cp < 0x800 {
      DecodeTwo(c, rest);
    } else if cp < 0x1_0000 {
      DecodeThree(c, rest);
    } else {
      DecodeFour(c, rest);
    }
  }

  lemma DecodeTwo(c: char, rest: seq<Byte>)
    requires 0x80 <= c as int < 0x800
    ensures DecodeChar(EncodeChar(c) + rest) == Some((c, 2))
  {
    var cp := c as int;
    var q1, lo := cp / 64, cp % 64;
    var bs := EncodeChar(c) + rest;
    assert bs[0] as int == 0xC0 + q1 && bs[1] as int == 0x80 + lo;
    assert cp == q1 * 64 + lo;
  }

  lemma DecodeThree(c: char, rest: seq<Byte>)
    requires 0x800 <= c as int < 0x1_0000
    ensures DecodeChar(EncodeChar(c) + rest) == Some((c, 3))
  {
    var cp := c as int;
    var q1, lo := cp / 64, cp % 64;
    var q2, mid := q1 / 64, q1 % 64;
    var bs := EncodeChar(c) + rest;
    assert bs[0] as int == 0xE0 + q2 && bs[1] as int == 0x80 + mid && bs[2] as int == 0x80 + lo;
    assert cp == q1 * 64 + lo && q1 == q2 * 64 + mid;
    assert cp == q2 * 4096 + mid * 64 + lo;
  }

  lemma DecodeFour(c: char, rest: seq<Byte>)
    requires 0x1_0000 <= c as int
    ensures DecodeChar(EncodeChar(c) + rest) == Some((c, 4))
  {
    var cp := c as int;
    var q1, lo := cp / 64, cp % 64;
    var q2, mid := q1 / 64, q1 % 64;
    var top, hi := q2 / 64, q2 % 64;
    var bs := EncodeChar(c) + rest;
    assert bs[0] as int == 0xF0 + top && bs[1] as int == 0x80 + hi
      && bs[2] as int == 0x80 + mid && bs[3] as int == 0x80 + lo;
    assert cp == q1 * 64 + lo && q1 == q2 * 64 + mid && q2 == top * 64 + hi;
    assert cp == top * 262144 + hi * 4096 + mid * 64 + lo;
  }

  /** Decoding the encoding of any string gives the string back. */
  lemma {:induction false} DecodeEncode(s: string)
    ensures Decode(Encode(s)) == Some(s)
  {
    if s != [] {
      var head := EncodeChar(s[0]);
      var tail := Encode(s[1..]);
      DecodeEncodeChar(s[0], tail);
      assert (head + tail)[|head|..] == tail;
      DecodeEncode(s[1..]);
      assert [s[0]] + s[1..] == s;
    }
  }

  /** Distinct strings have distinct encodings. */
  lemma EncodeInjective(s: string, t: string)
    requires Encode(s) == Encode(t)
    ensures s == t
  {
    DecodeEncode(s);
    DecodeEncode(t);
  }

  /** Encoding distributes over concatenation. */
  lemma {:induction false} EncodeAppend(s: string, t: string)
    ensures Encode(s + t) == Encode(s) + Encode(t)
  {
    if s != [] {
      EncodeAppend(s[1..], t);
      assert (s + t)[1..] == s[1..] + t;
    } else {
      assert s + t == t;
    }
  }
}
