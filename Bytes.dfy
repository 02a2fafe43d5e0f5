/**
 * Bytes as they appear in a Node `Buffer`, and the fixed-width big-endian
 * integer fields that `Buffer.writeUInt16BE` and `Buffer.writeBigInt64BE`
 * write, with the readers that invert them.
 */
module Bytes {

  type byte = x: int | 0 <= x < 256

  /** 256 to the power n: one more than the largest value n bytes hold. */
  function Pow256(n: nat): (p: nat)
    ensures p >= 1
  {
    if n == 0 then 1 else 256 * Pow256(n - 1)
  }

  const Uint16Limit: nat := 0x1_0000
  const Int64Min: int := -0x8000_0000_0000_0000
  const Int64Limit: int := 0x8000_0000_0000_0000

  /** The unsigned value of a big-endian byte string. */
  function ReadUintBE(s: seq<byte>): (v: nat)
    ensures v < Pow256(|s|)
  {
    if s == [] then 0 else ReadUintBE(s[..|s| - 1]) * 256 + s[|s| - 1]
  }

  /** `width` bytes holding `v` most significant first. */
  function UintBE(v: nat, width: nat): (s: seq<byte>)
    requires v < Pow256(width)
    ensures |s| == width
  {
    if width == 0 then [] else UintBE(v / 256, width - 1) + [v % 256]
  }

  lemma {:induction false} ReadUintBEOfUintBE(v: nat, width: nat)
    requires v < Pow256(width)
    ensures ReadUintBE(UintBE(v, width)) == v
  {
    if width > 0 {
      var s := UintBE(v, width);
      assert s[..|s| - 1] == UintBE(v / 256, width - 1);
      ReadUintBEOfUintBE(v / 256, width - 1);
    }
  }

  lemma {:induction false} UintBEOfReadUintBE(s: seq<byte>)
    ensures UintBE(ReadUintBE(s), |s|) == s
  {
    if s != [] {
      var init := s[..|s| - 1];
      UintBEOfReadUintBE(init);
      assert (ReadUintBE(init) * 256 + s[|s| - 1]) / 256 == ReadUintBE(init);
      assert s == init + [s[|s| - 1]];
    }
  }

  /** Two's-complement image of a signed 64-bit value, as `writeBigInt64BE` stores it. */
  function Int64BE(v: int): (s: seq<byte>)
    requires Int64Min <= v < Int64Limit
    ensures |s| == 8
  {
    UintBE(if v < 0 then v + 2 * Int64Limit else v, 8)
  }

  /** The signed value of eight big-endian bytes, as `readBigInt64BE` reads it. */
  function ReadInt64BE(s: seq<byte>): (v: int)
    requires |s| == 8
    ensures Int64Min <= v < Int64Limit
  {
    var u := ReadUintBE(s);
    if u < Int64Limit then u else u - 2 * Int64Limit
  }

  lemma Int64RoundTrip(v: int)
    requires Int64Min <= v < Int64Limit
    ensures ReadInt64BE(Int64BE(v)) == v
  {
    ReadUintBEOfUintBE(if v < 0 then v + 2 * Int64Limit else v, 8);
  }

  lemma Int64BEOfReadInt64BE(s: seq<byte>)
    requires |s| == 8
    ensures Int64BE(ReadInt64BE(s)) == s
  {
    UintBEOfReadUintBE(s);
  }
}
