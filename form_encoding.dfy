/** `URLEncoder.encode(s, StandardCharsets.UTF_8)`: the application/x-www-form-urlencoded
    encoding of section 17.13.4.1 of HTML 4.01, as the JDK implements it, and the decoder
    that reads it back. */
module FormEncoding {
  import opened Wrappers
  import Utf8

  /** The characters the JDK leaves as they are: ASCII letters and digits and `.-*_`. */
  predicate IsUnreserved(c: char) {
    ('a' <= c <= 'z') || ('A' <= c <= 'Z') || ('0' <= c <= '9')
    || c == '.' || c == '-' || c == '*' || c == '_'
  }

  /** An upper-case hexadecimal digit. */
  function HexDigit(v: nat): char
    requires v < 16
  {
    if v < 10 then ('0' as int + v) as char else ('A' as int + v - 10) as char
  }

  function HexValue(c: char): Option<nat> {
    if '0' <= c <= '9' then Some(c as int - '0' as int)
    else if 'A' <= c <= 'F' then Some(c as int - 'A' as int + 10)
    else if 'a' <= c <= 'f' then Some(c as int - 'a' as int + 10)
    else None
  }

  lemma HexValueOf(v: nat)
    requires v < 16
    ensures HexValue(HexDigit(v)) == Some(v)
  {
  }

  /** Every byte as `%` and two upper-case hexadecimal digits. */
  function Percent(bs: seq<Utf8.byte>): (r: string)
    ensures |r| == 3 * |bs|
  {
    if bs == [] then []
    else ['%', HexDigit(bs[0] as int / 16), HexDigit(bs[0] as int % 16)] + Percent(bs[1..])
  }

  /** One character: unchanged when unreserved, `+` for a space, otherwise its UTF-8 bytes percent-encoded. */
  function EncodeChar(c: char): string {
    if IsUnreserved(c) then [c]
    else if c == ' ' then "+"
    else Percent(Utf8.EncodeChar(c))
  }

  function Encode(s: string): string {
    if s == [] then [] else EncodeChar(s[0]) + Encode(s[1..])
  }

  /** The characters an encoded text is made of. */
  predicate IsEncodedChar(c: char) {
    IsUnreserved(c) || c == '+' || c == '%'
  }

  function PrependBytes(bs: seq<Utf8.byte>, r: Option<seq<Utf8.byte>>): Option<seq<Utf8.byte>> {
    if r.None? then None else Some(bs + r.value)
  }

  /** The bytes of an encoded text: `+` is a space, `%XY` the byte XY, any other character
      its own UTF-8 bytes; a `%` without two hexadecimal digits is malformed. */
  function DecodeBytes(t: string): Option<seq<Utf8.byte>>
    decreases |t|
  {
    if t == [] then Some([])
    else if t[0] == '+' then PrependBytes([32], DecodeBytes(t[1..]))
    else if t[0] == '%' then
      if |t| < 3 || HexValue(t[1]).None? || HexValue(t[2]).None? then None
      else PrependBytes([(HexValue(t[1]).value * 16 + HexValue(t[2]).value) as Utf8.byte], DecodeBytes(t[3..]))
    else PrependBytes(Utf8.EncodeChar(t[0]), DecodeBytes(t[1..]))
  }

  /** The decoder: the bytes of the text read as UTF-8. */
  function Decode(t: string): Option<string> {
    match DecodeBytes(t)
    case None => None
    case Some(bs) => Utf8.Decode(bs)
  }

  lemma {:induction false} PercentDecodes(bs: seq<Utf8.byte>, rest: string)
    ensures DecodeBytes(Percent(bs) + rest) == PrependBytes(bs, DecodeBytes(rest))
  {
    if bs != [] {
      PercentHead(bs, rest);
      PercentDecodes(bs[1..], rest);
      PrependTwice(bs, DecodeBytes(rest));
    } else {
      assert Percent(bs) + rest == rest;
      PrependNothing(bs, DecodeBytes(rest));
    }
  }

  lemma PrependNothing(bs: seq<Utf8.byte>, r: Option<seq<Utf8.byte>>)
    requires bs == []
    ensures PrependBytes(bs, r) == r
  {
    if r.Some? {
      assert bs + r.value == r.value;
    }
  }

  /** The first `%XY` of a percent-encoded run is its first byte. */
  lemma PercentHead(bs: seq<Utf8.byte>, rest: string)
    requires bs != []
    ensures DecodeBytes(Percent(bs) + rest) == PrependBytes([bs[0]], DecodeBytes(Percent(bs[1..]) + rest))
  {
    var b := bs[0] as int;
    var h, l := HexDigit(b / 16), HexDigit(b % 16);
    HexValueOf(b / 16);
    HexValueOf(b % 16);
    var tail := Percent(bs[1..]) + rest;
    assert Percent(bs) + rest == ['%', h, l] + tail;
    PercentTriple(h, l, tail);
    assert (b / 16) * 16 + b % 16 == b;
  }

  /** `%` and two hexadecimal digits decode as one byte, then the rest. */
  lemma PercentTriple(h: char, l: char, tail: string)
    requires HexValue(h).Some? && HexValue(l).Some? && HexValue(h).value * 16 + HexValue(l).value < 256
    ensures DecodeBytes(['%', h, l] + tail)
         == PrependBytes([(HexValue(h).value * 16 + HexValue(l).value) as Utf8.byte], DecodeBytes(tail))
  {
    var t := ['%', h, l] + tail;
    assert t[0] == '%' && t[1] == h && t[2] == l;
    assert t[3..] == tail;
  }

  lemma PrependTwice(bs: seq<Utf8.byte>, r: Option<seq<Utf8.byte>>)
    requires bs != []
    ensures PrependBytes([bs[0]], PrependBytes(bs[1..], r)) == PrependBytes(bs, r)
  {
    if r.Some? {
      assert [bs[0]] + (bs[1..] + r.value) == bs + r.value;
    }
  }

  lemma EncodeCharDecodes(c: char, rest: string)
    ensures DecodeBytes(EncodeChar(c) + rest) == PrependBytes(Utf8.EncodeChar(c), DecodeBytes(rest))
  {
    var t := EncodeChar(c) + rest;
    if IsUnreserved(c) || c == ' ' {
      assert t[1..] == rest;
    } else {
      PercentDecodes(Utf8.EncodeChar(c), rest);
    }
  }

  /** The bytes of an encoded text are the UTF-8 bytes of the original. */
  lemma {:induction false} DecodeBytesEncode(s: string)
    ensures DecodeBytes(Encode(s)) == Some(Utf8.Encode(s))
  {
    if s != [] {
      EncodeCharDecodes(s[0], Encode(s[1..]));
      DecodeBytesEncode(s[1..]);
    }
  }

  /** Decoding undoes encoding: every string is recovered from its form encoding. */
  lemma EncodeRoundTrip(s: string)
    ensures Decode(Encode(s)) == Some(s)
  {
    DecodeBytesEncode(s);
    Utf8.DecodeEncode(s);
  }

  lemma PercentChars(bs: seq<Utf8.byte>)
    ensures forall k :: 0 <= k < |Percent(bs)| ==> IsEncodedChar(Percent(bs)[k])
  {
    if bs != [] {
      PercentChars(bs[1..]);
      var p := Percent(bs);
      forall k | 0 <= k < |p| ensures IsEncodedChar(p[k]) {
        if k >= 3 { assert p[k] == Percent(bs[1..])[k - 3]; }
      }
    }
  }

  /** An encoded text holds only unreserved characters, `+` and `%`: in particular no `&` and no `=`. */
  lemma {:induction false} EncodedChars(s: string)
    ensures forall k :: 0 <= k < |Encode(s)| ==> IsEncodedChar(Encode(s)[k])
  {
    if s != [] {
      var e := EncodeChar(s[0]);
      if !IsUnreserved(s[0]) && s[0] != ' ' {
        PercentChars(Utf8.EncodeChar(s[0]));
      }
      EncodedChars(s[1..]);
      EncodedConcat(e, Encode(s[1..]));
    }
  }

  lemma EncodedConcat(a: string, b: string)
    requires forall k :: 0 <= k < |a| ==> IsEncodedChar(a[k])
    requires forall k :: 0 <= k < |b| ==> IsEncodedChar(b[k])
    ensures forall k :: 0 <= k < |a + b| ==> IsEncodedChar((a + b)[k])
  {
    forall k | 0 <= k < |a + b| ensures IsEncodedChar((a + b)[k]) {
      if k >= |a| { assert (a + b)[k] == b[k - |a|]; } else { assert (a + b)[k] == a[k]; }
    }
  }

  /** A text of unreserved characters is its own encoding. */
  lemma {:induction false} EncodeUnreserved(s: string)
    requires forall k :: 0 <= k < |s| ==> IsUnreserved(s[k])
    ensures Encode(s) == s
  {
    if s != [] {
      EncodeUnreserved(s[1..]);
      assert [s[0]] + s[1..] == s;
    }
  }
}
