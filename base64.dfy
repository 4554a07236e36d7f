/** `Base64.getEncoder().encodeToString`: the base 64 encoding of RFC 4648, section 4
    (basic alphabet, with `=` padding, no line breaks), and its decoder. */
module Base64 {
  import opened Wrappers
  import opened Utf8

  /** The value of a digit of the alphabet, Table 1 of RFC 4648. */
  function Digit(v: nat): char
    requires v < 64
  {
    if v < 26 then ('A' as int + v) as char
    else if v < 52 then ('a' as int + v - 26) as char
    else if v < 62 then ('0' as int + v - 52) as char
    else if v == 62 then '+' else '/'
  }

  function DigitValue(c: char): Option<nat> {
    if 'A' <= c <= 'Z' then Some(c as int - 'A' as int)
    else if 'a' <= c <= 'z' then Some(c as int - 'a' as int + 26)
    else if '0' <= c <= '9' then Some(c as int - '0' as int + 52)
    else if c == '+' then Some(62)
    else if c == '/' then Some(63)
    else None
  }

  lemma DigitValueOf(v: nat)
    requires v < 64
    ensures DigitValue(Digit(v)) == Some(v)
  {
  }

  /** Three bytes as four digits. */
  function Quantum3(b0: byte, b1: byte, b2: byte): (r: string)
    ensures |r| == 4
  {
    [Digit(b0 as int / 4), Digit(b0 as int % 4 * 16 + b1 as int / 16),
     Digit(b1 as int % 16 * 4 + b2 as int / 64), Digit(b2 as int % 64)]
  }

  /** Two final bytes as three digits and one pad. */
  function Quantum2(b0: byte, b1: byte): (r: string)
    ensures |r| == 4
  {
    [Digit(b0 as int / 4), Digit(b0 as int % 4 * 16 + b1 as int / 16), Digit(b1 as int % 16 * 4), '=']
  }

  /** One final byte as two digits and two pads. */
  function Quantum1(b0: byte): (r: string)
    ensures |r| == 4
  {
    [Digit(b0 as int / 4), Digit(b0 as int % 4 * 16), '=', '=']
  }

  /** Three bytes become four digits; one or two final bytes become two or three digits and padding. */
  function Encode(bs: seq<byte>): (r: string)
    ensures |r| == (|bs| + 2) / 3 * 4
    decreases |bs|
  {
    if |bs| == 0 then ""
    else if |bs| == 1 then Quantum1(bs[0])
    else if |bs| == 2 then Quantum2(bs[0], bs[1])
    else Quantum3(bs[0], bs[1], bs[2]) + Encode(bs[3..])
  }

  /** Four digits back to one, two or three bytes, as the padding says. */
  function DecodeQuantum(q: string): Option<seq<byte>>
    requires |q| == 4
  {
    var a, b := DigitValue(q[0]), DigitValue(q[1]);
    if a.None? || b.None? then None
    else if q[2] == '=' && q[3] == '=' then
      Some([(a.value * 4 + b.value / 16) as byte])
    else
      var c := DigitValue(q[2]);
      if c.None? then None
      else if q[3] == '=' then
        Some([(a.value * 4 + b.value / 16) as byte, (b.value % 16 * 16 + c.value / 4) as byte])
      else
        var d := DigitValue(q[3]);
        if d.None? then None
        else Some([(a.value * 4 + b.value / 16) as byte, (b.value % 16 * 16 + c.value / 4) as byte,
                   (c.value % 4 * 64 + d.value) as byte])
  }

  /** The decoder: a text of whole quanta, padding only in the last one. */
  function Decode(s: string): Option<seq<byte>>
    decreases |s|
  {
    if s == [] then Some([])
    else if |s| < 4 then None
    else match DecodeQuantum(s[..4])
      case None => None
      case Some(bs) =>
        if |bs| < 3 && |s| > 4 then None
        else match Decode(s[4..])
          case None => None
          case Some(rest) => Some(bs + rest)
  }

  /** The four digits of three bytes give the bytes back. */
  lemma SextetsOfThree(b0: int, b1: int, b2: int)
    requires 0 <= b0 < 256 && 0 <= b1 < 256 && 0 <= b2 < 256
    ensures (b0 / 4) * 4 + (b0 % 4 * 16 + b1 / 16) / 16 == b0
    ensures (b0 % 4 * 16 + b1 / 16) % 16 * 16 + (b1 % 16 * 4 + b2 / 64) / 4 == b1
    ensures (b1 % 16 * 4 + b2 / 64) % 4 * 64 + b2 % 64 == b2
  {
    SextetLow(b0 % 4, b1 / 16, 16);
    SextetLow(b1 % 16, b2 / 64, 4);
  }

  /** A digit `hi * m + lo` with `lo < m` splits back into `hi` and `lo`. */
  lemma SextetLow(hi: int, lo: int, m: int)
    requires 0 <= lo < m && 0 <= hi && (m == 16 || m == 4)
    ensures (hi * m + lo) / m == hi && (hi * m + lo) % m == lo
  {
  }

  lemma DecodeFull(b0: byte, b1: byte, b2: byte)
    ensures DecodeQuantum(Quantum3(b0, b1, b2)) == Some([b0, b1, b2])
  {
    var v0, v1, v2, v3 := b0 as int / 4, b0 as int % 4 * 16 + b1 as int / 16, b1 as int % 16 * 4 + b2 as int / 64, b2 as int % 64;
    DigitValueOf(v0);
    DigitValueOf(v1);
    DigitValueOf(v2);
    DigitValueOf(v3);
    SextetsOfThree(b0 as int, b1 as int, b2 as int);
  }

  lemma DecodeTwoBytes(b0: byte, b1: byte)
    ensures DecodeQuantum(Quantum2(b0, b1)) == Some([b0, b1])
  {
    DigitValueOf(b0 as int / 4);
    DigitValueOf(b0 as int % 4 * 16 + b1 as int / 16);
    DigitValueOf(b1 as int % 16 * 4);
    SextetsOfThree(b0 as int, b1 as int, 0);
  }

  lemma DecodeOneByte(b0: byte)
    ensures DecodeQuantum(Quantum1(b0)) == Some([b0])
  {
    DigitValueOf(b0 as int / 4);
    DigitValueOf(b0 as int % 4 * 16);
    SextetsOfThree(b0 as int, 0, 0);
  }

  /** A text of one quantum decodes as that quantum. */
  lemma DecodeOneQuantum(s: string, bs: seq<byte>)
    requires |s| == 4 && DecodeQuantum(s) == Some(bs)
    ensures Decode(s) == Some(bs)
  {
    assert s[..4] == s;
    assert s[4..] == [];
    assert bs + [] == bs;
  }

  /** A full quantum followed by a decodable rest. */
  lemma DecodeQuanta(s: string, bs: seq<byte>, rest: seq<byte>)
    requires |s| > 4 && DecodeQuantum(s[..4]) == Some(bs) && |bs| == 3 && Decode(s[4..]) == Some(rest)
    ensures Decode(s) == Some(bs + rest)
  {
  }

  /** The last quantum: one, two or three bytes. */
  lemma DecodeEncodeShort(bs: seq<byte>)
    requires 1 <= |bs| <= 3
    ensures Decode(Encode(bs)) == Some(bs)
  {
    if |bs| == 1 {
      DecodeEncodeOne(bs);
    } else if |bs| == 2 {
      DecodeEncodeTwo(bs);
    } else {
      DecodeEncodeThree(bs);
    }
  }

  lemma DecodeEncodeOne(bs: seq<byte>)
    requires |bs| == 1
    ensures Decode(Encode(bs)) == Some(bs)
  {
    var s := Quantum1(bs[0]);
    assert Encode(bs) == s;
    DecodeOneByte(bs[0]);
    DecodeOneQuantum(s, [bs[0]]);
    assert [bs[0]] == bs;
  }

  lemma DecodeEncodeTwo(bs: seq<byte>)
    requires |bs| == 2
    ensures Decode(Encode(bs)) == Some(bs)
  {
    var s := Quantum2(bs[0], bs[1]);
    assert Encode(bs) == s;
    DecodeTwoBytes(bs[0], bs[1]);
    DecodeOneQuantum(s, [bs[0], bs[1]]);
    assert [bs[0], bs[1]] == bs;
  }

  lemma DecodeEncodeThree(bs: seq<byte>)
    requires |bs| == 3
    ensures Decode(Encode(bs)) == Some(bs)
  {
    var s := Quantum3(bs[0], bs[1], bs[2]);
    assert bs[3..] == [];
    assert Encode(bs) == s + [];
    assert s + [] == s;
    DecodeFull(bs[0], bs[1], bs[2]);
    DecodeOneQuantum(s, [bs[0], bs[1], bs[2]]);
    assert [bs[0], bs[1], bs[2]] == bs;
  }

  /** Decoding undoes encoding, for every byte sequence. */
  lemma {:induction false} DecodeEncode(bs: seq<byte>)
    ensures Decode(Encode(bs)) == Some(bs)
    decreases |bs|
  {
    if 1 <= |bs| <= 3 {
      DecodeEncodeShort(bs);
    } else if |bs| > 3 {
      var s := Encode(bs);
      DecodeFull(bs[0], bs[1], bs[2]);
      DecodeEncode(bs[3..]);
      assert s[4..] == Encode(bs[3..]);
      assert s[..4] == Quantum3(bs[0], bs[1], bs[2]);
      DecodeQuanta(s, [bs[0], bs[1], bs[2]], bs[3..]);
      assert [bs[0], bs[1], bs[2]] + bs[3..] == bs;
    }
  }

  /** The value of the Authorization header for Basic authentication (RFC 7617, section 2):
      "Basic " and the base 64 encoding of the UTF-8 bytes of user-id, ":" and password. */
  function BasicCredentials(username: string, password: string): string {
    "Basic " + Encode(Utf8.Encode(username + ":" + password))
  }

  /** The credentials can be read back from the header value: the text after "Basic "
      decodes to the UTF-8 bytes of user-id ":" password. */
  lemma BasicCredentialsRoundTrip(username: string, password: string)
    ensures |BasicCredentials(username, password)| >= 6
    ensures var b := BasicCredentials(username, password);
            b[..6] == "Basic " && Decode(b[6..]).Some?
            && Utf8.Decode(Decode(b[6..]).value) == Some(username + ":" + password)
  {
    var b := BasicCredentials(username, password);
    var bytes := Utf8.Encode(username + ":" + password);
    assert b[6..] == Encode(bytes);
    DecodeEncode(bytes);
    Utf8.DecodeEncode(username + ":" + password);
  }
}
