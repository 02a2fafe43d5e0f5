/**
 * Lower-case hexadecimal rendering of bytes, as Node's `buf.toString('hex')`
 * writes it: two characters per byte, high nibble first.
 */
module Hex {
  import opened Wrappers
  import opened Bytes

  function NibbleChar(d: int): (c: char)
    requires 0 <= d < 16
  {
    if d < 10 then ('0' as int + d) as char else ('a' as int + (d - 10)) as char
  }

  function CharNibble(c: char): (r: Option<int>)
    ensures r.Some? ==> 0 <= r.value < 16 && NibbleChar(r.value) == c
  {
    if '0' <= c <= '9' then Some(c as int - '0' as int)
    else if 'a' <= c <= 'f' then Some(c as int - 'a' as int + 10)
    else None
  }

  function Encode(b: seq<byte>): (s: string)
  {
    if b == [] then "" else [NibbleChar(b[0] / 16), NibbleChar(b[0] % 16)] + Encode(b[1..])
  }

  function Decode(s: string): (r: Option<seq<byte>>)
  {
    if |s| == 0 then Some([])
    else if |s| == 1 then None
    else
      match (CharNibble(s[0]), CharNibble(s[1]), Decode(s[2..]))
      case (Some(hi), Some(lo), Some(rest)) => Some([hi * 16 + lo] + rest)
      case _ => None
  }

  lemma {:induction false} EncodeLength(b: seq<byte>)
    ensures |Encode(b)| == 2 * |b|
  {
    if b != [] {
      EncodeLength(b[1..]);
    }
  }

  lemma {:induction false} DecodeEncode(b: seq<byte>)
    ensures Decode(Encode(b)) == Some(b)
  {
    if b != [] {
      var s := Encode(b);
      assert s[2..] == Encode(b[1..]);
      DecodeEncode(b[1..]);
      assert CharNibble(s[0]) == Some(b[0] / 16);
      assert CharNibble(s[1]) == Some(b[0] % 16);
      assert b == [b[0]] + b[1..];
    }
  }

  lemma {:induction false} EncodeDecode(s: string)
    requires Decode(s).Some?
    ensures Encode(Decode(s).value) == s
  {
    if |s| >= 2 {
      var hi, lo := CharNibble(s[0]).value, CharNibble(s[1]).value;
      var rest := Decode(s[2..]).value;
      EncodeDecode(s[2..]);
      var b := [hi * 16 + lo] + rest;
      assert b[1..] == rest;
      assert s == [s[0], s[1]] + s[2..];
    }
  }
}
