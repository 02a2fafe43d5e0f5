/**
 * Base 64 encoding with the standard alphabet and '=' padding (section 4 of
 * RFC 4648), as Node's `buf.toString('base64')` produces it, and the strict
 * decoder that accepts exactly the strings this encoder can produce.
 */
module Base64 {
  import opened Wrappers
  import opened Bytes

  /** The character for a 6-bit value: A-Z, a-z, 0-9, '+', '/'. */
  function IndexChar(i: int): (c: char)
    requires 0 <= i < 64
    ensures c != '='
  {
    if i < 26 then ('A' as int + i) as char
    else if i < 52 then ('a' as int + (i - 26)) as char
    else if i < 62 then ('0' as int + (i - 52)) as char
    else if i == 62 then '+'
    else '/'
  }

  /** The 6-bit value of an alphabet character; None for anything else. */
  function CharIndex(c: char): (r: Option<int>)
    ensures r.Some? ==> 0 <= r.value < 64 && IndexChar(r.value) == c
  {
    if 'A' <= c <= 'Z' then Some(c as int - 'A' as int)
    else if 'a' <= c <= 'z' then Some(c as int - 'a' as int + 26)
    else if '0' <= c <= '9' then Some(c as int - '0' as int + 52)
    else if c == '+' then Some(62)
    else if c == '/' then Some(63)
    else None
  }

  lemma CharIndexOfIndexChar(i: int)
    requires 0 <= i < 64
    ensures CharIndex(IndexChar(i)) == Some(i)
  {
  }

  /** The four 6-bit values of three bytes, most significant first. */
  function Sextets(b0: byte, b1: byte, b2: byte): (q: seq<int>)
    ensures |q| == 4 && forall k :: 0 <= k < 4 ==> 0 <= q[k] < 64
  {
    [b0 / 4, (b0 % 4) * 16 + b1 / 16, (b1 % 16) * 4 + b2 / 64, b2 % 64]
  }

  /** The three bytes that four 6-bit values spell. */
  function Octets(i0: int, i1: int, i2: int, i3: int): (b: seq<byte>)
    requires 0 <= i0 < 64 && 0 <= i1 < 64 && 0 <= i2 < 64 && 0 <= i3 < 64
    ensures |b| == 3
  {
    [i0 * 4 + i1 / 16, (i1 % 16) * 16 + i2 / 4, (i2 % 4) * 64 + i3]
  }

  lemma Split16(a: int, r: int)
    requires 0 <= r < 16
    ensures (a * 16 + r) / 16 == a && (a * 16 + r) % 16 == r
  {
  }

  lemma Split4(a: int, r: int)
    requires 0 <= r < 4
    ensures (a * 4 + r) / 4 == a && (a * 4 + r) % 4 == r
  {
  }

  lemma Split64(a: int, r: int)
    requires 0 <= r < 64
    ensures (a * 64 + r) / 64 == a && (a * 64 + r) % 64 == r
  {
  }

  lemma OctetsOfSextets(b0: byte, b1: byte, b2: byte)
    ensures var q := Sextets(b0, b1, b2); Octets(q[0], q[1], q[2], q[3]) == [b0, b1, b2]
  {
    Split16(b0 % 4, b1 / 16);
    Split4(b1 % 16, b2 / 64);
  }

  lemma SextetsOfOctets(i0: int, i1: int, i2: int, i3: int)
    requires 0 <= i0 < 64 && 0 <= i1 < 64 && 0 <= i2 < 64 && 0 <= i3 < 64
    ensures var b := Octets(i0, i1, i2, i3); Sextets(b[0], b[1], b[2]) == [i0, i1, i2, i3]
  {
    Split16(i0, i1 / 16);
    Split16(i1 % 16, i2 / 4);
    Split64(i2 % 4, i3);
  }

  /** Three bytes as four characters. */
  function EncodeGroup(b0: byte, b1: byte, b2: byte): (s: string)
    ensures |s| == 4
  {
    var q := Sextets(b0, b1, b2);
    [IndexChar(q[0]), IndexChar(q[1]), IndexChar(q[2]), IndexChar(q[3])]
  }

  /** The padded encoding: every full group of three bytes becomes four
      characters; a final one or two bytes become "xx==" or "xxx=". */
  function Encode(b: seq<byte>): (s: string)
    decreases |b|
  {
    if |b| == 0 then ""
    else if |b| == 1 then
      var q := Sextets(b[0], 0, 0);
      [IndexChar(q[0]), IndexChar(q[1]), '=', '=']
    else if |b| == 2 then
      var q := Sextets(b[0], b[1], 0);
      [IndexChar(q[0]), IndexChar(q[1]), IndexChar(q[2]), '=']
    else EncodeGroup(b[0], b[1], b[2]) + Encode(b[3..])
  }

  /** Four characters with no padding back to three bytes. */
  function DecodeGroup(q: string): (r: Option<seq<byte>>)
    requires |q| == 4
    ensures r.Some? ==> |r.value| == 3
  {
    var c0, c1, c2, c3 := CharIndex(q[0]), CharIndex(q[1]), CharIndex(q[2]), CharIndex(q[3]);
    if c0.None? || c1.None? || c2.None? || c3.None? then None
    else Some(Octets(c0.value, c1.value, c2.value, c3.value))
  }

  /** The last quadruple, which may carry one or two '=' padding characters.
      Bits that padding leaves unused must be zero, so that only the
      encoder's own output is accepted. */
  function DecodeLast(q: string): (r: Option<seq<byte>>)
    requires |q| == 4
    ensures r.Some? ==> 1 <= |r.value| <= 3
  {
    if q[2] == '=' && q[3] == '=' then
      var c0, c1 := CharIndex(q[0]), CharIndex(q[1]);
      if c0.None? || c1.None? || c1.value % 16 != 0 then None
      else Some(Octets(c0.value, c1.value, 0, 0)[..1])
    else if q[3] == '=' then
      var c0, c1, c2 := CharIndex(q[0]), CharIndex(q[1]), CharIndex(q[2]);
      if c0.None? || c1.None? || c2.None? || c2.value % 4 != 0 then None
      else Some(Octets(c0.value, c1.value, c2.value, 0)[..2])
    else DecodeGroup(q)
  }

  /** Decoding: the length is a multiple of four, every quadruple but the
      last is four alphabet characters, and only the last may be padded. */
  function Decode(s: string): (r: Option<seq<byte>>)
    decreases |s|
  {
    if |s| == 0 then Some([])
    else if |s| < 4 then None
    else if |s| == 4 then DecodeLast(s)
    else
      match DecodeGroup(s[..4])
      case None => None
      case Some(g) =>
        match Decode(s[4..])
        case None => None
        case Some(rest) => Some(g + rest)
  }

  lemma {:induction false} EncodeLength(b: seq<byte>)
    ensures |Encode(b)| == 4 * ((|b| + 2) / 3)
    decreases |b|
  {
    if |b| > 2 {
      EncodeLength(b[3..]);
      assert |Encode(b)| == 4 + |Encode(b[3..])|;
      assert (|b| + 2) / 3 == (|b[3..]| + 2) / 3 + 1;
    }
  }

  lemma DecodeEncodeGroup(b0: byte, b1: byte, b2: byte)
    ensures DecodeGroup(EncodeGroup(b0, b1, b2)) == Some([b0, b1, b2])
  {
    var q := Sextets(b0, b1, b2);
    CharIndexOfIndexChar(q[0]);
    CharIndexOfIndexChar(q[1]);
    CharIndexOfIndexChar(q[2]);
    CharIndexOfIndexChar(q[3]);
    OctetsOfSextets(b0, b1, b2);
  }

  lemma DecodeEncodeOne(b0: byte)
    ensures Decode(Encode([b0])) == Some([b0])
  {
    var q := Sextets(b0, 0, 0);
    CharIndexOfIndexChar(q[0]);
    CharIndexOfIndexChar(q[1]);
    OctetsOfSextets(b0, 0, 0);
    var s := Encode([b0]);
    assert s == [IndexChar(q[0]), IndexChar(q[1]), '=', '='];
    assert CharIndex(s[0]) == Some(q[0]);
    assert CharIndex(s[1]) == Some(q[1]);
    assert q[1] % 16 == 0;
    assert q[2] == 0 && q[3] == 0;
    assert Octets(q[0], q[1], 0, 0)[..1] == [b0];
  }

  lemma DecodeEncodeTwo(b0: byte, b1: byte)
    ensures Decode(Encode([b0, b1])) == Some([b0, b1])
  {
    var q := Sextets(b0, b1, 0);
    CharIndexOfIndexChar(q[0]);
    CharIndexOfIndexChar(q[1]);
    CharIndexOfIndexChar(q[2]);
    OctetsOfSextets(b0, b1, 0);
    var s := Encode([b0, b1]);
    assert s[2] != '=' && s[3] == '=';
    assert CharIndex(s[0]) == Some(q[0]);
    assert CharIndex(s[1]) == Some(q[1]);
    assert CharIndex(s[2]) == Some(q[2]);
    assert Octets(q[0], q[1], q[2], 0)[..2] == [b0, b1];
  }

  lemma DecodeCons(q: string, t: string)
    requires |q| == 4 && |t| > 0 && DecodeGroup(q).Some? && Decode(t).Some?
    ensures Decode(q + t) == Some(DecodeGroup(q).value + Decode(t).value)
  {
    var s := q + t;
    assert s[..4] == q && s[4..] == t;
  }

  lemma DecodeUnpadded(q: string)
    requires |q| == 4 && q[2] != '=' && q[3] != '='
    ensures Decode(q) == DecodeGroup(q)
  {
  }

  lemma DecodeEncodeThree(b0: byte, b1: byte, b2: byte)
    ensures Decode(Encode([b0, b1, b2])) == Some([b0, b1, b2])
  {
    var b := [b0, b1, b2];
    var q := EncodeGroup(b0, b1, b2);
    assert b[3..] == [];
    assert Encode(b) == q;
    DecodeUnpadded(q);
    DecodeEncodeGroup(b0, b1, b2);
  }

  lemma EncodeCons(b: seq<byte>)
    requires |b| > 3
    ensures Encode(b) == EncodeGroup(b[0], b[1], b[2]) + Encode(b[3..])
    ensures |Encode(b[3..])| > 0
  {
    EncodeLength(b[3..]);
  }

  lemma HeadThree(b: seq<byte>)
    requires |b| >= 3
    ensures b == [b[0], b[1], b[2]] + b[3..]
  {
  }

  lemma DecodeEncodeStep(b: seq<byte>)
    requires |b| > 3 && Decode(Encode(b[3..])) == Some(b[3..])
    ensures Decode(Encode(b)) == Some(b)
  {
    HeadThree(b);
    var q, t := EncodeGroup(b[0], b[1], b[2]), Encode(b[3..]);
    EncodeCons(b);
    DecodeEncodeGroup(b[0], b[1], b[2]);
    DecodeCons(q, t);
  }

  /** Decoding undoes encoding. */
  lemma {:induction false} DecodeEncode(b: seq<byte>)
    ensures Decode(Encode(b)) == Some(b)
    decreases |b|
  {
    if |b| == 1 {
      DecodeEncodeOne(b[0]);
      assert b == [b[0]];
    } else if |b| == 2 {
      DecodeEncodeTwo(b[0], b[1]);
      assert b == [b[0], b[1]];
    } else if |b| == 3 {
      DecodeEncodeThree(b[0], b[1], b[2]);
      assert b == [b[0], b[1], b[2]];
    } else if |b| > 3 {
      DecodeEncode(b[3..]);
      DecodeEncodeStep(b);
    }
  }

  lemma EncodeDecodeGroup(q: string)
    requires |q| == 4 && DecodeGroup(q).Some?
    ensures var g := DecodeGroup(q).value; EncodeGroup(g[0], g[1], g[2]) == q
  {
    var i0, i1, i2, i3 := CharIndex(q[0]).value, CharIndex(q[1]).value, CharIndex(q[2]).value, CharIndex(q[3]).value;
    SextetsOfOctets(i0, i1, i2, i3);
  }

  lemma EncodeDecodeLast(q: string)
    requires |q| == 4 && DecodeLast(q).Some?
    ensures Encode(DecodeLast(q).value) == q
  {
    if q[2] == '=' && q[3] == '=' {
      var i0, i1 := CharIndex(q[0]).value, CharIndex(q[1]).value;
      SextetsOfOctets(i0, i1, 0, 0);
    } else if q[3] == '=' {
      var i0, i1, i2 := CharIndex(q[0]).value, CharIndex(q[1]).value, CharIndex(q[2]).value;
      SextetsOfOctets(i0, i1, i2, 0);
    } else {
      EncodeDecodeGroup(q);
      var g := DecodeGroup(q).value;
      assert Encode(g) == EncodeGroup(g[0], g[1], g[2]) + Encode(g[3..]);
    }
  }

  lemma DecodeNonEmpty(s: string)
    requires |s| > 0 && Decode(s).Some?
    ensures |Decode(s).value| > 0
  {
  }

  /** Encoding undoes decoding: the decoder accepts no string the encoder
      would not have produced. */
  lemma {:induction false} EncodeDecode(s: string)
    requires Decode(s).Some?
    ensures Encode(Decode(s).value) == s
    decreases |s|
  {
    if |s| == 4 {
      EncodeDecodeLast(s);
    } else if |s| > 4 {
      var g := DecodeGroup(s[..4]).value;
      var rest := Decode(s[4..]).value;
      EncodeDecode(s[4..]);
      EncodeDecodeGroup(s[..4]);
      DecodeNonEmpty(s[4..]);
      assert (g + rest)[3..] == rest;
      assert s == s[..4] + s[4..];
    }
  }
}
