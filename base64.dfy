/** Standard base64, section 4 of RFC 4648: every 3 input bytes become 4 characters of the
    64-character alphabet; a final group of 1 or 2 bytes is padded with '='. */
module Base64 {
  import opened Wrappers

  newtype byte = x: int | 0 <= x < 256

  const Pad: char := '='

  /** The character for a 6-bit value: A-Z, a-z, 0-9, '+', '/' (Table 1 of RFC 4648). */
  function EncodeDigit(v: int): (c: char)
    requires 0 <= v < 64
    ensures DecodeDigit(c) == Some(v)
  {
    if v < 26 then ('A' as int + v) as char
    else if v < 52 then ('a' as int + (v - 26)) as char
    else if v < 62 then ('0' as int + (v - 52)) as char
    else if v == 62 then '+'
    else '/'
  }

  /** The 6-bit value of an alphabet character; `None` for any other character, the pad
      character included. */
  function DecodeDigit(c: char): (r: Option<int>)
    ensures r.Some? ==> 0 <= r.value < 64
    ensures c == Pad ==> r.None?
  {
    if 'A' <= c <= 'Z' then Some(c as int - 'A' as int)
    else if 'a' <= c <= 'z' then Some(c as int - 'a' as int + 26)
    else if '0' <= c <= '9' then Some(c as int - '0' as int + 52)
    else if c == '+' then Some(62)
    else if c == '/' then Some(63)
    else None
  }

  predicate IsDigit(c: char) { DecodeDigit(c).Some? }

  /** Every character the decoder accepts is the encoding of the value it decodes to. */
  lemma DecodeDigitInverse(c: char)
    requires IsDigit(c)
    ensures EncodeDigit(DecodeDigit(c).value) == c
  {
  }

  /** Four characters for three bytes. */
  function EncodeGroup(b0: byte, b1: byte, b2: byte): string
  {
    [EncodeDigit(b0 as int / 4),
     EncodeDigit(b0 as int % 4 * 16 + b1 as int / 16),
     EncodeDigit(b1 as int % 16 * 4 + b2 as int / 64),
     EncodeDigit(b2 as int % 64)]
  }

  /** A final group of one byte: two characters and two pad characters. */
  function EncodeTail1(b0: byte): string
  {
    [EncodeDigit(b0 as int / 4), EncodeDigit(b0 as int % 4 * 16), Pad, Pad]
  }

  /** A final group of two bytes: three characters and one pad character. */
  function EncodeTail2(b0: byte, b1: byte): string
  {
    [EncodeDigit(b0 as int / 4),
     EncodeDigit(b0 as int % 4 * 16 + b1 as int / 16),
     EncodeDigit(b1 as int % 16 * 4),
     Pad]
  }

  /** Whether `s` is made of alphabet characters, except for pad characters in (at most) its
      last two positions. */
  ghost predicate WellFormed(s: string)
  {
    forall i :: 0 <= i < |s| ==> IsDigit(s[i]) || (s[i] == Pad && i >= |s| - 2)
  }

  /** `base64.b64encode`: the output is 4 * ceil(n / 3) characters long, uses only the
      alphabet, and pads only at its end. */
  function Encode(data: seq<byte>): (s: string)
    ensures |s| == 4 * ((|data| + 2) / 3)
    ensures WellFormed(s)
  {
    if |data| == 0 then []
    else if |data| == 1 then EncodeTail1(data[0])
    else if |data| == 2 then EncodeTail2(data[0], data[1])
    else EncodeGroup(data[0], data[1], data[2]) + Encode(data[3..])
  }

  /** Three bytes from four alphabet characters. */
  function DecodeGroup(c0: char, c1: char, c2: char, c3: char): (r: Option<seq<byte>>)
  {
    var d0, d1, d2, d3 := DecodeDigit(c0), DecodeDigit(c1), DecodeDigit(c2), DecodeDigit(c3);
    if d0.Some? && d1.Some? && d2.Some? && d3.Some? then
      var v0, v1, v2, v3 := d0.value, d1.value, d2.value, d3.value;
      Some([(v0 * 4 + v1 / 16) as byte, (v1 % 16 * 16 + v2 / 4) as byte, (v2 % 4 * 64 + v3) as byte])
    else None
  }

  /** The last four characters: a full group, or one or two data bytes followed by padding.
      Pad bits that are not zero are rejected (section 3.5 of RFC 4648), so that every
      accepted string is the encoding of what it decodes to. */
  function DecodeLast(c0: char, c1: char, c2: char, c3: char): (r: Option<seq<byte>>)
  {
    var d0, d1, d2 := DecodeDigit(c0), DecodeDigit(c1), DecodeDigit(c2);
    if c2 == Pad && c3 == Pad then
      if d0.Some? && d1.Some? && d1.value % 16 == 0 then
        Some([(d0.value * 4 + d1.value / 16) as byte])
      else None
    else if c3 == Pad then
      if d0.Some? && d1.Some? && d2.Some? && d2.value % 4 == 0 then
        var v0, v1, v2 := d0.value, d1.value, d2.value;
        Some([(v0 * 4 + v1 / 16) as byte, (v1 % 16 * 16 + v2 / 4) as byte])
      else None
    else DecodeGroup(c0, c1, c2, c3)
  }

  /** Strict decoding: `None` unless `s` is the encoding of some byte sequence. */
  function Decode(s: string): (r: Option<seq<byte>>)
    ensures r.Some? ==> |s| == 4 * ((|r.value| + 2) / 3)
  {
    if |s| == 0 then Some([])
    else if |s| < 4 then None
    else if |s| == 4 then DecodeLast(s[0], s[1], s[2], s[3])
    else match (DecodeGroup(s[0], s[1], s[2], s[3]), Decode(s[4..]))
      case (Some(g), Some(rest)) => Some(g + rest)
      case _ => None
  }

  /** A full group decodes back to its three bytes, whether or not it is the last one. */
  lemma GroupRoundTrip(b0: byte, b1: byte, b2: byte)
    ensures var g := EncodeGroup(b0, b1, b2);
      DecodeGroup(g[0], g[1], g[2], g[3]) == Some([b0, b1, b2]) &&
      DecodeLast(g[0], g[1], g[2], g[3]) == Some([b0, b1, b2])
  {
  }

  /** A one-byte final group decodes back to its byte. */
  lemma Tail1RoundTrip(b0: byte)
    ensures var t := EncodeTail1(b0); DecodeLast(t[0], t[1], t[2], t[3]) == Some([b0])
  {
    var v0, v1 := b0 as int / 4, b0 as int % 4 * 16;
    var t := EncodeTail1(b0);
    assert DecodeDigit(t[0]) == Some(v0) && DecodeDigit(t[1]) == Some(v1);
    assert v1 % 16 == 0 && v0 * 4 + v1 / 16 == b0 as int;
  }

  /** A two-byte final group decodes back to its bytes. */
  lemma Tail2RoundTrip(b0: byte, b1: byte)
    ensures var t := EncodeTail2(b0, b1); DecodeLast(t[0], t[1], t[2], t[3]) == Some([b0, b1])
  {
    var v0, v1, v2 := b0 as int / 4, b0 as int % 4 * 16 + b1 as int / 16, b1 as int % 16 * 4;
    var t := EncodeTail2(b0, b1);
    assert DecodeDigit(t[0]) == Some(v0) && DecodeDigit(t[1]) == Some(v1);
    assert DecodeDigit(t[2]) == Some(v2);
    assert v2 % 4 == 0 && v0 * 4 + v1 / 16 == b0 as int && v1 % 16 * 16 + v2 / 4 == b1 as int;
  }

  /** Decoding an encoding gives back exactly the original bytes. */
  lemma {:induction false} EncodeDecode(data: seq<byte>)
    ensures Decode(Encode(data)) == Some(data)
  {
    if |data| == 1 {
      Tail1RoundTrip(data[0]);
      assert data == [data[0]];
    } else if |data| == 2 {
      Tail2RoundTrip(data[0], data[1]);
      assert data == [data[0], data[1]];
    } else if |data| >= 3 {
      var s := Encode(data);
      var g := EncodeGroup(data[0], data[1], data[2]);
      var rest := data[3..];
      assert s == g + Encode(rest);
      GroupRoundTrip(data[0], data[1], data[2]);
      assert data == [data[0], data[1], data[2]] + rest;
      if |data| == 3 {
        assert rest == [];
        assert s == g;
        assert Decode(s) == DecodeLast(g[0], g[1], g[2], g[3]);
        assert data == [data[0], data[1], data[2]];
      } else {
        EncodeDecode(rest);
        assert s[4..] == Encode(rest);
        assert s[0] == g[0] && s[1] == g[1] && s[2] == g[2] && s[3] == g[3];
        assert |s| > 4;
        assert Decode(s) == Some([data[0], data[1], data[2]] + rest);
      }
    }
  }

  /** Joining four 6-bit values into three bytes and splitting them again is the identity. */
  lemma JoinSplit(v0: int, v1: int, v2: int, v3: int)
    requires 0 <= v0 < 64 && 0 <= v1 < 64 && 0 <= v2 < 64 && 0 <= v3 < 64
    ensures var b0, b1, b2 := v0 * 4 + v1 / 16, v1 % 16 * 16 + v2 / 4, v2 % 4 * 64 + v3;
      0 <= b0 < 256 && 0 <= b1 < 256 && 0 <= b2 < 256 &&
      b0 / 4 == v0 && b0 % 4 * 16 + b1 / 16 == v1 && b1 % 16 * 4 + b2 / 64 == v2 && b2 % 64 == v3
  {
  }

  /** Whatever a full group decodes to encodes back to that group. */
  lemma GroupInverse(c0: char, c1: char, c2: char, c3: char)
    requires DecodeGroup(c0, c1, c2, c3).Some?
    ensures var b := DecodeGroup(c0, c1, c2, c3).value;
      |b| == 3 && EncodeGroup(b[0], b[1], b[2]) == [c0, c1, c2, c3]
  {
    var v0, v1 := DecodeDigit(c0).value, DecodeDigit(c1).value;
    var v2, v3 := DecodeDigit(c2).value, DecodeDigit(c3).value;
    DecodeDigitInverse(c0);
    DecodeDigitInverse(c1);
    DecodeDigitInverse(c2);
    DecodeDigitInverse(c3);
    JoinSplit(v0, v1, v2, v3);
    var b := DecodeGroup(c0, c1, c2, c3).value;
    assert b[0] as int == v0 * 4 + v1 / 16;
    assert b[1] as int == v1 % 16 * 16 + v2 / 4;
    assert b[2] as int == v2 % 4 * 64 + v3;
    var e := EncodeGroup(b[0], b[1], b[2]);
    assert e[0] == EncodeDigit(v0) == c0;
    assert e[1] == EncodeDigit(v1) == c1;
    assert e[2] == EncodeDigit(v2) == c2;
    assert e[3] == EncodeDigit(v3) == c3;
  }

  /** A one-byte final group that decodes encodes back to itself. */
  lemma Tail1Inverse(c0: char, c1: char)
    requires DecodeLast(c0, c1, Pad, Pad).Some?
    ensures var b := DecodeLast(c0, c1, Pad, Pad).value;
      |b| == 1 && EncodeTail1(b[0]) == [c0, c1, Pad, Pad]
  {
    var v0, v1 := DecodeDigit(c0).value, DecodeDigit(c1).value;
    DecodeDigitInverse(c0);
    DecodeDigitInverse(c1);
    JoinSplit(v0, v1, 0, 0);
    var b := DecodeLast(c0, c1, Pad, Pad).value;
    assert b[0] as int == v0 * 4 + v1 / 16;
    var e := EncodeTail1(b[0]);
    assert e[0] == EncodeDigit(v0) == c0;
    assert e[1] == EncodeDigit(v1) == c1;
  }

  /** A two-byte final group that decodes encodes back to itself. */
  lemma Tail2Inverse(c0: char, c1: char, c2: char)
    requires c2 != Pad && DecodeLast(c0, c1, c2, Pad).Some?
    ensures var b := DecodeLast(c0, c1, c2, Pad).value;
      |b| == 2 && EncodeTail2(b[0], b[1]) == [c0, c1, c2, Pad]
  {
    var v0, v1, v2 := DecodeDigit(c0).value, DecodeDigit(c1).value, DecodeDigit(c2).value;
    DecodeDigitInverse(c0);
    DecodeDigitInverse(c1);
    DecodeDigitInverse(c2);
    JoinSplit(v0, v1, v2, 0);
    var b := DecodeLast(c0, c1, c2, Pad).value;
    assert b[0] as int == v0 * 4 + v1 / 16;
    assert b[1] as int == v1 % 16 * 16 + v2 / 4;
    var e := EncodeTail2(b[0], b[1]);
    assert e[0] == EncodeDigit(v0) == c0;
    assert e[1] == EncodeDigit(v1) == c1;
    assert e[2] == EncodeDigit(v2) == c2;
  }

  /** Whatever the last four characters decode to encodes back to them. */
  lemma LastInverse(c0: char, c1: char, c2: char, c3: char)
    requires DecodeLast(c0, c1, c2, c3).Some?
    ensures Encode(DecodeLast(c0, c1, c2, c3).value) == [c0, c1, c2, c3]
  {
    var b := DecodeLast(c0, c1, c2, c3).value;
    if c2 == Pad && c3 == Pad {
      Tail1Inverse(c0, c1);
      assert Encode(b) == EncodeTail1(b[0]);
    } else if c3 == Pad {
      Tail2Inverse(c0, c1, c2);
      assert Encode(b) == EncodeTail2(b[0], b[1]);
    } else {
      assert b == DecodeGroup(c0, c1, c2, c3).value;
      GroupInverse(c0, c1, c2, c3);
      assert b[3..] == [];
      assert Encode(b) == EncodeGroup(b[0], b[1], b[2]) + Encode([]);
    }
  }

  /** The decoder accepts only encodings: whatever it returns encodes back to its input.
      With EncodeDecode, Decode(s) == Some(data) exactly when s == Encode(data). */
  lemma {:induction false} DecodeEncode(s: string)
    requires Decode(s).Some?
    ensures Encode(Decode(s).value) == s
  {
    if |s| == 4 {
      assert Decode(s) == DecodeLast(s[0], s[1], s[2], s[3]);
      LastInverse(s[0], s[1], s[2], s[3]);
      assert s == [s[0], s[1], s[2], s[3]];
    } else if |s| > 4 {
      var g := DecodeGroup(s[0], s[1], s[2], s[3]).value;
      var rest := Decode(s[4..]).value;
      var d := g + rest;
      assert Decode(s) == Some(d);
      DecodeEncode(s[4..]);
      GroupInverse(s[0], s[1], s[2], s[3]);
      assert |rest| > 0;
      assert d[..3] == g && d[3..] == rest;
      assert Encode(d) == EncodeGroup(d[0], d[1], d[2]) + Encode(rest);
      assert s == [s[0], s[1], s[2], s[3]] + s[4..];
    }
  }

  /** Decoding succeeds on `s` with result `data` exactly when `s` is the encoding of `data`. */
  lemma DecodeIffEncode(s: string, data: seq<byte>)
    ensures Decode(s) == Some(data) <==> s == Encode(data)
  {
    if Decode(s) == Some(data) {
      DecodeEncode(s);
    }
    if s == Encode(data) {
      EncodeDecode(data);
    }
  }
}
