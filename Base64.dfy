/**
 * The `STANDARD` engine of the Rust `base64` crate: the alphabet of section 4
 * of RFC 4648 (A-Z, a-z, 0-9, '+', '/') with '=' padding to a multiple of
 * four characters. The decoder is the reference inverse of the encoder; it
 * accepts only canonical input (padding only at the end, zero trailing bits).
 */
module Base64 {
  import opened Wrappers
  import opened Utf8

  /** The character for a 6-bit value. */
  function Symbol(v: int): (c: char)
    requires 0 <= v < 64
    ensures c != '='
  {
    if v < 26 then ('A' as int + v) as char
    else if v < 52 then ('a' as int + (v - 26)) as char
    else if v < 62 then ('0' as int + (v - 52)) as char
    else if v == 62 then '+'
    else '/'
  }

  /** The 6-bit value of an alphabet character; `None` for anything else, '=' included. */
  function SymbolValue(c: char): (r: Option<int>)
    ensures r.Some? ==> 0 <= r.value < 64 && Symbol(r.value) == c
  {
    if 'A' <= c <= 'Z' then Some(c as int - 'A' as int)
    else if 'a' <= c <= 'z' then Some(c as int - 'a' as int + 26)
    else if '0' <= c <= '9' then Some(c as int - '0' as int + 52)
    else if c == '+' then Some(62)
    else if c == '/' then Some(63)
    else None
  }

  lemma SymbolRoundTrip(v: int)
    requires 0 <= v < 64
    ensures SymbolValue(Symbol(v)) == Some(v)
  {
  }

  predicate IsBase64Char(c: char) {
    SymbolValue(c).Some? || c == '='
  }

  /** Three bytes as four symbols. */
  function EncodeTriple(b0: Byte, b1: Byte, b2: Byte): string {
    [Symbol(b0 / 4), Symbol(b0 % 4 * 16 + b1 / 16), Symbol(b1 % 16 * 4 + b2 / 64), Symbol(b2 % 64)]
  }

  /** The final one or two bytes as four characters, padded with '='. */
  function EncodeTail(b: seq<Byte>): string
    requires 1 <= |b| <= 2
  {
    if |b| == 1 then [Symbol(b[0] / 4), Symbol(b[0] % 4 * 16), '=', '=']
    else [Symbol(b[0] / 4), Symbol(b[0] % 4 * 16 + b[1] / 16), Symbol(b[1] % 16 * 4), '=']
  }

  /** `STANDARD.encode`: every three bytes become four symbols; a short final group is padded. */
  function Encode(b: seq<Byte>): (s: string)
    ensures |s| == (|b| + 2) / 3 * 4
  {
    if |b| == 0 then []
    else if |b| < 3 then EncodeTail(b)
    else EncodeTriple(b[0], b[1], b[2]) + Encode(b[3..])
  }

  /** The encoding uses only the 64 symbols and the padding character. */
  lemma {:induction false} EncodeAlphabet(b: seq<Byte>)
    ensures forall i :: 0 <= i < |Encode(b)| ==> IsBase64Char(Encode(b)[i])
  {
    var s := Encode(b);
    if |b| >= 3 {
      var head, tail := EncodeTriple(b[0], b[1], b[2]), Encode(b[3..]);
      assert s == head + tail;
      SymbolRoundTrip(b[0] / 4);
      SymbolRoundTrip(b[0] % 4 * 16 + b[1] / 16);
      SymbolRoundTrip(b[1] % 16 * 4 + b[2] / 64);
      SymbolRoundTrip(b[2] % 64);
      EncodeAlphabet(b[3..]);
      forall i | 0 <= i < |s| ensures IsBase64Char(s[i]) {
        if i >= 4 {
          assert s[i] == tail[i - 4];
        }
      }
    } else if |b| > 0 {
      SymbolRoundTrip(b[0] / 4);
      if |b| == 1 {
        SymbolRoundTrip(b[0] % 4 * 16);
      } else {
        SymbolRoundTrip(b[0] % 4 * 16 + b[1] / 16);
        SymbolRoundTrip(b[1] % 16 * 4);
      }
    }
  }

  /**
   * Decodes one group of four characters. Only the final group (`last`) may
   * carry padding, and padding must leave the unused low bits zero.
   */
  function DecodeGroup(g: string, last: bool): Option<seq<Byte>>
    requires |g| == 4
  {
    var o0, o1, o2, o3 := SymbolValue(g[0]), SymbolValue(g[1]), SymbolValue(g[2]), SymbolValue(g[3]);
    if o0.None? || o1.None? then None
    else
      var v0, v1 := o0.value, o1.value;
      if last && g[2] == '=' && g[3] == '=' then
        if v1 % 16 == 0 then Some([v0 * 4 + v1 / 16]) else None
      else if last && g[3] == '=' then
        if o2.None? || o2.value % 4 != 0 then None
        else Some([v0 * 4 + v1 / 16, v1 % 16 * 16 + o2.value / 4])
      else if o2.None? || o3.None? then None
      else Some([v0 * 4 + v1 / 16, v1 % 16 * 16 + o2.value / 4, o2.value % 4 * 64 + o3.value])
  }

  /** Decodes a padded Base64 string, or fails if it is not one. */
  function Decode(s: string): Option<seq<Byte>>
    decreases |s|
  {
    if s == [] then Some([])
    else if |s| < 4 then None
    else
      match DecodeGroup(s[..4], |s| == 4)
      case None => None
      case Some(head) =>
        if |s| == 4 then Some(head)
        else
          match Decode(s[4..])
          case None => None
          case Some(rest) => Some(head + rest)
  }

  /** Regrouping the four 6-bit values of three bytes into 8-bit values gives the bytes. */
  lemma RegroupTriple(b0: Byte, b1: Byte, b2: Byte)
    ensures (b0 / 4) * 4 + (b0 % 4 * 16 + b1 / 16) / 16 == b0
    ensures (b0 % 4 * 16 + b1 / 16) % 16 * 16 + (b1 % 16 * 4 + b2 / 64) / 4 == b1
    ensures (b1 % 16 * 4 + b2 / 64) % 4 * 64 + b2 % 64 == b2
  {
    var hi1 := b1 / 16;
    assert b0 % 4 * 16 + hi1 == (b0 % 4) * 16 + hi1;
    var hi2 := b2 / 64;
    assert (b1 % 16 * 4 + hi2) / 4 == b1 % 16;
    assert (b1 % 16 * 4 + hi2) % 4 == hi2;
  }

  lemma DecodeTriple(b0: Byte, b1: Byte, b2: Byte, last: bool)
    ensures DecodeGroup(EncodeTriple(b0, b1, b2), last) == Some([b0, b1, b2])
  {
    SymbolRoundTrip(b0 / 4);
    SymbolRoundTrip(b0 % 4 * 16 + b1 / 16);
    SymbolRoundTrip(b1 % 16 * 4 + b2 / 64);
    SymbolRoundTrip(b2 % 64);
    RegroupTriple(b0, b1, b2);
  }

  lemma DecodeTail(b: seq<Byte>)
    requires 1 <= |b| <= 2
    ensures DecodeGroup(EncodeTail(b), true) == Some(b)
  {
    if |b| == 1 {
      DecodeOne(b[0]);
      assert [b[0]] == b;
    } else {
      DecodeTwo(b[0], b[1]);
      assert [b[0], b[1]] == b;
    }
  }

  /** One final byte: two symbols and two padding characters. */
  lemma DecodeOne(b0: Byte)
    ensures DecodeGroup(EncodeTail([b0]), true) == Some([b0])
  {
    SymbolRoundTrip(b0 / 4);
    SymbolRoundTrip(b0 % 4 * 16);
    RegroupTriple(b0, 0, 0);
  }

  /** Two final bytes: three symbols and one padding character. */
  lemma DecodeTwo(b0: Byte, b1: Byte)
    ensures DecodeGroup(EncodeTail([b0, b1]), true) == Some([b0, b1])
  {
    SymbolRoundTrip(b0 / 4);
    SymbolRoundTrip(b0 % 4 * 16 + b1 / 16);
    SymbolRoundTrip(b1 % 16 * 4);
    RegroupTriple(b0, b1, 0);
  }

  /** A decodable group followed by a decodable remainder decodes to both, in order. */
  lemma DecodeAppend(head: string, tail: string, x: seq<Byte>, y: seq<Byte>)
    requires |head| == 4 && DecodeGroup(head, tail == []) == Some(x)
    requires Decode(tail) == Some(y)
    ensures Decode(head + tail) == Some(x + y)
  {
    var s := head + tail;
    assert s[..4] == head;
    if tail == [] {
      assert s == head;
      assert x + y == x;
    } else {
      assert s[4..] == tail;
    }
  }

  /** Decoding the encoding of any byte sequence gives the bytes back. */
  lemma {:induction false} DecodeEncode(b: seq<Byte>)
    ensures Decode(Encode(b)) == Some(b)
  {
    if |b| == 0 {
    } else if |b| < 3 {
      DecodeEncodeTail(b);
    } else {
      DecodeEncode(b[3..]);
      DecodeEncodeTriple(b);
    }
  }

  /** A final one- or two-byte group is one padded group that decodes back. */
  lemma DecodeEncodeTail(b: seq<Byte>)
    requires 1 <= |b| <= 2
    ensures Decode(Encode(b)) == Some(b)
  {
    var s := EncodeTail(b);
    assert Encode(b) == s;
    DecodeTail(b);
    assert s[..4] == s;
  }

  /** Three leading bytes become a group that decodes ahead of the rest. */
  lemma DecodeEncodeTriple(b: seq<Byte>)
    requires |b| >= 3 && Decode(Encode(b[3..])) == Some(b[3..])
    ensures Decode(Encode(b)) == Some(b)
  {
    var tail := Encode(b[3..]);
    assert Encode(b) == EncodeTriple(b[0], b[1], b[2]) + tail;
    DecodeTripleThen(b, tail);
  }

  /** An encoded triple decodes back ahead of whatever decodable text follows it. */
  lemma DecodeTripleThen(b: seq<Byte>, tail: string)
    requires |b| >= 3 && Decode(tail) == Some(b[3..])
    ensures Decode(EncodeTriple(b[0], b[1], b[2]) + tail) == Some(b)
  {
    DecodeTriple(b[0], b[1], b[2], tail == []);
    FirstThree(b);
    DecodeAppend(EncodeTriple(b[0], b[1], b[2]), tail, b[..3], b[3..]);
    assert b[..3] + b[3..] == b;
  }

  lemma FirstThree(b: seq<Byte>)
    requires |b| >= 3
    ensures b[..3] == [b[0], b[1], b[2]]
  {
  }

  /** Distinct byte sequences have distinct encodings. */
  lemma EncodeInjective(a: seq<Byte>, b: seq<Byte>)
    requires Encode(a) == Encode(b)
    ensures a == b
  {
    DecodeEncode(a);
    DecodeEncode(b);
  }
}
