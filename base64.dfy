/**
 * Base64 with the standard alphabet and '=' padding (section 4 of RFC 4648),
 * over bytes. This is what the cursor helpers get from Node's Buffer
 * ("base64" encoding). Decoding is strict: the length must be a multiple of
 * four, every character must come from the alphabet, '=' may appear only as
 * the padding of the last quantum, and the bits that padding discards must be
 * zero. With that, decoding is exactly the inverse of encoding.
 */
module Base64 {
  import opened Wrappers

  type Byte = x: int | 0 <= x < 256
  type Sextet = x: int | 0 <= x < 64

  /** The alphabet of section 4 of RFC 4648: A-Z, a-z, 0-9, '+', '/'. */
  function Char(i: Sextet): (c: char)
  {
    if i < 26 then ('A' as int + i) as char
    else if i < 52 then ('a' as int + (i - 26)) as char
    else if i < 62 then ('0' as int + (i - 52)) as char
    else if i == 62 then '+'
    else '/'
  }

  /** The value of an alphabet character, or None for any other character. */
  function Value(c: char): (r: Option<Sextet>)
  {
    if 'A' <= c <= 'Z' then Some(c as int - 'A' as int)
    else if 'a' <= c <= 'z' then Some(c as int - 'a' as int + 26)
    else if '0' <= c <= '9' then Some(c as int - '0' as int + 52)
    else if c == '+' then Some(62)
    else if c == '/' then Some(63)
    else None
  }

  lemma ValueOfChar(i: Sextet)
    ensures Value(Char(i)) == Some(i)
    ensures Char(i) != '='
  {
  }

  lemma CharOfValue(c: char)
    requires Value(c).Some?
    ensures Char(Value(c).value) == c
  {
  }

  /** The four characters of one full 24-bit group. */
  function EncodeGroup(b0: Byte, b1: Byte, b2: Byte): (r: string)
  {
    [Char(b0 / 4), Char((b0 % 4) * 16 + b1 / 16), Char((b1 % 16) * 4 + b2 / 64), Char(b2 % 64)]
  }

  function Encode(s: seq<Byte>): (r: string)
  {
    if |s| == 0 then []
    else if |s| == 1 then [Char(s[0] / 4), Char((s[0] % 4) * 16), '=', '=']
    else if |s| == 2 then [Char(s[0] / 4), Char((s[0] % 4) * 16 + s[1] / 16), Char((s[1] % 16) * 4), '=']
    else
      EncodeGroup(s[0], s[1], s[2]) + Encode(s[3..])
  }

  /** Every three bytes, or the one or two left over, become four characters. */
  lemma {:induction false} EncodeLength(s: seq<Byte>)
    ensures |Encode(s)| == 4 * ((|s| + 2) / 3)
    decreases |s|
  {
    if |s| >= 3 {
      EncodeLength(s[3..]);
      assert (|s| + 2) / 3 == (|s| - 1) / 3 + 1;
    }
  }

  /** A byte string of three or more bytes encodes as its first group followed by the encoding of the rest. */
  lemma EncodeFirstGroup(s: seq<Byte>)
    requires |s| >= 3
    ensures Encode(s)[..4] == EncodeGroup(s[0], s[1], s[2])
    ensures Encode(s)[4..] == Encode(s[3..])
    ensures |Encode(s)| == 4 <==> |s| == 3
  {
  }

  /**
   * Decodes one quantum of four characters; `last` says whether it ends the
   * input, the only place where padding is allowed.
   */
  function DecodeQuantum(q: string, last: bool): (r: Option<seq<Byte>>)
    requires |q| == 4
    ensures r.Some? ==> 1 <= |r.value| <= 3
    ensures r.Some? && !last ==> |r.value| == 3
  {
    var v0, v1, v2, v3 := Value(q[0]), Value(q[1]), Value(q[2]), Value(q[3]);
    if v0.None? || v1.None? then None
    else if last && q[2] == '=' && q[3] == '=' then
      if v1.value % 16 == 0 then Some([v0.value * 4 + v1.value / 16]) else None
    else if last && q[3] == '=' then
      if v2.None? || v2.value % 4 != 0 then None
      else Some([v0.value * 4 + v1.value / 16, (v1.value % 16) * 16 + v2.value / 4])
    else if v2.None? || v3.None? then None
    else Some([v0.value * 4 + v1.value / 16, (v1.value % 16) * 16 + v2.value / 4, (v2.value % 4) * 64 + v3.value])
  }

  function Decode(s: string): (r: Option<seq<Byte>>)
    decreases |s|
  {
    if |s| == 0 then Some([])
    else if |s| < 4 then None
    else
      match DecodeQuantum(s[..4], |s| == 4)
      case None => None
      case Some(head) =>
        match Decode(s[4..])
        case None => None
        case Some(tail) => Some(head + tail)
  }

  /** A text whose first quantum and remainder both decode decodes to their concatenation. */
  lemma DecodeStep(s: string, head: seq<Byte>, tail: seq<Byte>)
    requires |s| >= 4
    requires DecodeQuantum(s[..4], |s| == 4) == Some(head)
    requires Decode(s[4..]) == Some(tail)
    ensures Decode(s) == Some(head + tail)
  {
  }

  lemma GroupRoundTrip(b0: Byte, b1: Byte, b2: Byte, last: bool)
    ensures DecodeQuantum(EncodeGroup(b0, b1, b2), last) == Some([b0, b1, b2])
  {
    var c0, c1, c2, c3 := b0 / 4, (b0 % 4) * 16 + b1 / 16, (b1 % 16) * 4 + b2 / 64, b2 % 64;
    ValueOfChar(c0); ValueOfChar(c1); ValueOfChar(c2); ValueOfChar(c3);
    assert c1 / 16 == b0 % 4 && c1 % 16 == b1 / 16;
    assert c2 / 4 == b1 % 16 && c2 % 4 == b2 / 64;
  }

  lemma DecodeLastQuantum(q: string)
    requires |q| == 4
    ensures Decode(q) == DecodeQuantum(q, true)
  {
    assert q[..4] == q && q[4..] == [];
    match DecodeQuantum(q, true)
    case None =>
    case Some(b) => assert b + [] == b;
  }

  lemma OneByteRoundTrip(b0: Byte)
    ensures Decode(Encode([b0])) == Some([b0])
  {
    DecodeLastQuantum(Encode([b0]));
    ValueOfChar(b0 / 4);
    ValueOfChar((b0 % 4) * 16);
  }

  lemma TwoBytesRoundTrip(b0: Byte, b1: Byte)
    ensures Decode(Encode([b0, b1])) == Some([b0, b1])
  {
    DecodeLastQuantum(Encode([b0, b1]));
    var c1, c2 := (b0 % 4) * 16 + b1 / 16, (b1 % 16) * 4;
    ValueOfChar(b0 / 4); ValueOfChar(c1); ValueOfChar(c2);
    assert c1 / 16 == b0 % 4 && c1 % 16 == b1 / 16;
  }

  lemma ShortRoundTrip(s: seq<Byte>)
    requires 1 <= |s| <= 2
    ensures Decode(Encode(s)) == Some(s)
  {
    if |s| == 1 {
      assert s == [s[0]];
      OneByteRoundTrip(s[0]);
    } else {
      assert s == [s[0], s[1]];
      TwoBytesRoundTrip(s[0], s[1]);
    }
  }

  /** Decoding undoes encoding, for every byte string. */
  lemma {:induction false} DecodeEncode(s: seq<Byte>)
    ensures Decode(Encode(s)) == Some(s)
    decreases |s|
  {
    if 1 <= |s| <= 2 {
      ShortRoundTrip(s);
    } else if |s| >= 3 {
      DecodeEncode(s[3..]);
      DecodeEncodeGroup(s);
    }
  }

  lemma FirstThree<T>(s: seq<T>)
    requires |s| >= 3
    ensures [s[0], s[1], s[2]] + s[3..] == s
  {
  }

  /** One more group in front keeps the round trip: the inductive step of DecodeEncode. */
  lemma DecodeEncodeGroup(s: seq<Byte>)
    requires |s| >= 3
    requires Decode(Encode(s[3..])) == Some(s[3..])
    ensures Decode(Encode(s)) == Some(s)
  {
    var e := Encode(s);
    EncodeFirstGroup(s);
    GroupRoundTrip(s[0], s[1], s[2], |e| == 4);
    assert DecodeQuantum(e[..4], |e| == 4) == Some([s[0], s[1], s[2]]);
    assert Decode(e[4..]) == Some(s[3..]);
    DecodeStep(e, [s[0], s[1], s[2]], s[3..]);
    FirstThree(s);
  }

  /** A quantum that decodes is the encoding of what it decodes to. */
  lemma QuantumCanonical(q: string, last: bool)
    requires |q| == 4
    requires DecodeQuantum(q, last).Some?
    ensures Encode(DecodeQuantum(q, last).value) == q
  {
    if last && q[2] == '=' && q[3] == '=' {
      DoublePaddedCanonical(q);
    } else if last && q[3] == '=' {
      PaddedCanonical(q);
    } else {
      UnpaddedCanonical(q, last);
    }
  }

  lemma DoublePaddedCanonical(q: string)
    requires |q| == 4 && q[2] == '=' && q[3] == '='
    requires DecodeQuantum(q, true).Some?
    ensures Encode(DecodeQuantum(q, true).value) == q
  {
    var v0, v1 := Value(q[0]).value, Value(q[1]).value;
    CharOfValue(q[0]); CharOfValue(q[1]);
    var b := DecodeQuantum(q, true).value;
    assert b[0] / 4 == v0 && (b[0] % 4) * 16 == v1;
  }

  lemma PaddedCanonical(q: string)
    requires |q| == 4 && q[2] != '=' && q[3] == '='
    requires DecodeQuantum(q, true).Some?
    ensures Encode(DecodeQuantum(q, true).value) == q
  {
    var v0, v1, v2 := Value(q[0]).value, Value(q[1]).value, Value(q[2]).value;
    CharOfValue(q[0]); CharOfValue(q[1]); CharOfValue(q[2]);
    var b := DecodeQuantum(q, true).value;
    assert b[0] / 4 == v0 && (b[0] % 4) * 16 + b[1] / 16 == v1;
    assert (b[1] % 16) * 4 == v2;
  }

  lemma UnpaddedCanonical(q: string, last: bool)
    requires |q| == 4 && !(last && q[3] == '=')
    requires DecodeQuantum(q, last).Some?
    ensures Encode(DecodeQuantum(q, last).value) == q
  {
    var v0, v1, v2, v3 := Value(q[0]).value, Value(q[1]).value, Value(q[2]).value, Value(q[3]).value;
    CharOfValue(q[0]); CharOfValue(q[1]); CharOfValue(q[2]); CharOfValue(q[3]);
    var b := DecodeQuantum(q, last).value;
    assert b[0] / 4 == v0 && (b[0] % 4) * 16 + b[1] / 16 == v1;
    assert (b[1] % 16) * 4 + b[2] / 64 == v2 && b[2] % 64 == v3;
    assert b[3..] == [];
  }

  /** Whatever decodes is the encoding of its result: there are no two spellings of one byte string. */
  lemma {:induction false} EncodeDecode(s: string)
    requires Decode(s).Some?
    ensures Encode(Decode(s).value) == s
    decreases |s|
  {
    if |s| > 0 {
      var head := DecodeQuantum(s[..4], |s| == 4).value;
      var tail := Decode(s[4..]).value;
      QuantumCanonical(s[..4], |s| == 4);
      EncodeDecode(s[4..]);
      if |head| < 3 {
        assert tail == [];
        assert head + tail == head;
      } else {
        var b := head + tail;
        assert b[3..] == tail;
        assert Encode(head) == EncodeGroup(head[0], head[1], head[2]) + Encode([]);
        assert s == s[..4] + s[4..];
      }
    }
  }

  /** Decoding and encoding are inverse bijections between byte strings and well-formed texts. */
  lemma DecodeIffEncode(s: string, b: seq<Byte>)
    ensures Decode(s) == Some(b) <==> s == Encode(b)
  {
    if Decode(s) == Some(b) { EncodeDecode(s); }
    if s == Encode(b) { DecodeEncode(b); }
  }
}
