/** `String.getBytes(StandardCharsets.UTF_8)`: the UTF-8 encoding form of RFC 3629,
    section 3, over Unicode scalar values, with the matching strict decoder. */
module Utf8 {
  import opened Wrappers

  newtype byte = b: int | 0 <= b < 256

  /** The one to four bytes of one scalar value (RFC 3629, section 3). */
  function EncodeChar(c: char): (r: seq<byte>)
    ensures 1 <= |r| <= 4
  {
    var n := c as int;
    if n < 0x80 then [n as byte]
    else if n < 0x800 then [(0xC0 + n / 64) as byte, (0x80 + n % 64) as byte]
    else if n < 0x10000 then [(0xE0 + n / 4096) as byte, (0x80 + n / 64 % 64) as byte, (0x80 + n % 64) as byte]
    else [(0xF0 + n / 262144) as byte, (0x80 + n / 4096 % 64) as byte, (0x80 + n / 64 % 64) as byte, (0x80 + n % 64) as byte]
  }

  function Encode(s: string): seq<byte> {
    if s == [] then [] else EncodeChar(s[0]) + Encode(s[1..])
  }

  predicate IsContinuation(b: byte) {
    0x80 <= b < 0xC0
  }

  /** The scalar value encoded at the start of `bs` and the number of bytes it takes;
      None for a malformed, overlong or out-of-range sequence, or a surrogate. */
  function DecodeChar(bs: seq<byte>): (r: Option<(char, nat)>)
    ensures r.Some? ==> 1 <= r.value.1 <= |bs|
  {
    if bs == [] then None
    else if bs[0] < 0x80 then Some((bs[0] as int as char, 1))
    else if 0xC2 <= bs[0] < 0xE0 then
      if |bs| < 2 || !IsContinuation(bs[1]) then None
      else Some((((bs[0] as int - 0xC0) * 64 + (bs[1] as int - 0x80)) as char, 2))
    else if 0xE0 <= bs[0] < 0xF0 then
      if |bs| < 3 || !IsContinuation(bs[1]) || !IsContinuation(bs[2]) then None
      else
        var n := (bs[0] as int - 0xE0) * 4096 + (bs[1] as int - 0x80) * 64 + (bs[2] as int - 0x80);
        if n < 0x800 || (0xD800 <= n < 0xE000) then None else Some((n as char, 3))
    else if 0xF0 <= bs[0] < 0xF5 then
      if |bs| < 4 || !IsContinuation(bs[1]) || !IsContinuation(bs[2]) || !IsContinuation(bs[3]) then None
      else
        var n := (bs[0] as int - 0xF0) * 262144 + (bs[1] as int - 0x80) * 4096 + (bs[2] as int - 0x80) * 64 + (bs[3] as int - 0x80);
        if n < 0x10000 || n > 0x10FFFF then None else Some((n as char, 4))
    else None
  }

  /** The strict decoder: a whole byte sequence read back as scalar values. */
  function Decode(bs: seq<byte>): Option<string>
    decreases |bs|
  {
    if bs == [] then Some([])
    else match DecodeChar(bs)
      case None => None
      case Some((c, k)) =>
        match Decode(bs[k..])
        case None => None
        case Some(rest) => Some([c] + rest)
  }

  /** The decoder reads back exactly the bytes one scalar value was encoded to. */
  lemma DecodeEncodeChar(c: char, rest: seq<byte>)
    ensures DecodeChar(EncodeChar(c) + rest) == Some((c, |EncodeChar(c)|))
  {
    var n := c as int;
    if 0x80 <= n < 0x800 {
      DecodeTwo(c, rest);
    } else if 0x800 <= n < 0x10000 {
      DecodeThree(c, rest);
    } else if 0x10000 <= n {
      DecodeFour(c, rest);
    }
  }

  lemma DecodeTwo(c: char, rest: seq<byte>)
    requires 0x80 <= c as int < 0x800
    ensures DecodeChar(EncodeChar(c) + rest) == Some((c, 2))
  {
    var n := c as int;
    var e := EncodeChar(c);
    var bs := e + rest;
    assert bs[0] == e[0] && bs[1] == e[1];
    assert (n / 64) * 64 + n % 64 == n;
  }

  lemma DecodeThree(c: char, rest: seq<byte>)
    requires 0x800 <= c as int < 0x10000
    ensures DecodeChar(EncodeChar(c) + rest) == Some((c, 3))
  {
    var n := c as int;
    var e := EncodeChar(c);
    var bs := e + rest;
    assert bs[0] == e[0] && bs[1] == e[1] && bs[2] == e[2];
    var hi, mid, lo := n / 4096, n / 64 % 64, n % 64;
    assert n / 64 == hi * 64 + mid;
    assert hi * 4096 + mid * 64 + lo == n;
  }

  lemma DecodeFour(c: char, rest: seq<byte>)
    requires 0x10000 <= c as int
    ensures DecodeChar(EncodeChar(c) + rest) == Some((c, 4))
  {
    var n := c as int;
    var e := EncodeChar(c);
    var bs := e + rest;
    assert bs[0] == e[0] && bs[1] == e[1] && bs[2] == e[2] && bs[3] == e[3];
    var b0, b1, b2, b3 := n / 262144, n / 4096 % 64, n / 64 % 64, n % 64;
    assert n / 4096 == b0 * 64 + b1;
    assert n / 64 == (b0 * 64 + b1) * 64 + b2;
    assert b0 * 262144 + b1 * 4096 + b2 * 64 + b3 == n;
  }

  /** Decoding undoes encoding: distinct strings have distinct UTF-8 bytes. */
  lemma {:induction false} DecodeEncode(s: string)
    ensures Decode(Encode(s)) == Some(s)
  {
    if s != [] {
      var e := EncodeChar(s[0]);
      var bs := Encode(s);
      DecodeEncodeChar(s[0], Encode(s[1..]));
      assert bs[|e|..] == Encode(s[1..]);
      DecodeEncode(s[1..]);
      assert [s[0]] + s[1..] == s;
    }
  }

  /** A character below U+0080 is its own single byte. */
  lemma EncodeAscii(s: string)
    requires forall k :: 0 <= k < |s| ==> s[k] < '\U{80}'
    ensures |Encode(s)| == |s|
    ensures forall k :: 0 <= k < |s| ==> Encode(s)[k] as int == s[k] as int
  {
    if s != [] {
      EncodeAscii(s[1..]);
    }
  }
}
