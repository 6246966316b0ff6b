/**
  Fixed-width integers of the firmware and their little-endian byte layout.

  The packet writers transmit `int16_t`, `uint16_t` and `int32_t` fields by
  dumping their in-memory representation. On the little-endian Cortex-M7 target
  that is the two's-complement value, least significant byte first; this module
  writes that layout out explicitly and gives its inverse.
 */
module Bytes {

  type byte = b: int | 0 <= b < 0x100
  type uint16 = x: int | 0 <= x < 0x1_0000
  type int16 = x: int | -0x8000 <= x < 0x8000
  type int32 = x: int | -0x8000_0000 <= x < 0x8000_0000

  /** 256 to the power `width`: the number of values `width` bytes can hold. */
  function Pow256(width: nat): (p: nat)
    ensures p >= 1
  {
    if width == 0 then 1 else 0x100 * Pow256(width - 1)
  }

  /** The `width` bytes of the unsigned value `u`, least significant first. */
  function LittleEndian(u: nat, width: nat): (r: seq<byte>)
    requires u < Pow256(width)
    ensures |r| == width
  {
    if width == 0 then [] else [u % 0x100] + LittleEndian(u / 0x100, width - 1)
  }

  /** The unsigned value whose little-endian bytes are `bs`. */
  function LittleEndianValue(bs: seq<byte>): (u: nat)
    ensures u < Pow256(|bs|)
  {
    if bs == [] then 0 else bs[0] + 0x100 * LittleEndianValue(bs[1..])
  }

  lemma {:induction false} LittleEndianRoundTrip(u: nat, width: nat)
    requires u < Pow256(width)
    ensures LittleEndianValue(LittleEndian(u, width)) == u
  {
    if width > 0 {
      var r := LittleEndian(u, width);
      assert r[1..] == LittleEndian(u / 0x100, width - 1);
      LittleEndianRoundTrip(u / 0x100, width - 1);
    }
  }

  lemma {:induction false} LittleEndianOfValue(bs: seq<byte>)
    ensures LittleEndian(LittleEndianValue(bs), |bs|) == bs
  {
    if bs != [] {
      var v := LittleEndianValue(bs[1..]);
      assert (bs[0] + 0x100 * v) % 0x100 == bs[0];
      assert (bs[0] + 0x100 * v) / 0x100 == v;
      LittleEndianOfValue(bs[1..]);
      assert bs == [bs[0]] + bs[1..];
    }
  }

  /** Memory image of an `int16_t`: two's complement, low byte first. */
  function Int16Bytes(x: int16): (r: seq<byte>)
    ensures |r| == 2
  {
    LittleEndian(if x < 0 then x + 0x1_0000 else x, 2)
  }

  /** Memory image of a `uint16_t`, low byte first. */
  function Uint16Bytes(x: uint16): (r: seq<byte>)
    ensures |r| == 2
  {
    LittleEndian(x, 2)
  }

  /** Memory image of an `int32_t`: two's complement, low byte first. */
  function Int32Bytes(x: int32): (r: seq<byte>)
    ensures |r| == 4
  {
    LittleEndian(if x < 0 then x + 0x1_0000_0000 else x, 4)
  }

  /** The `int16_t` whose memory image is `bs`. */
  function Int16Of(bs: seq<byte>): int16
    requires |bs| == 2
  {
    var u := LittleEndianValue(bs);
    if u >= 0x8000 then u - 0x1_0000 else u
  }

  /** The `uint16_t` whose memory image is `bs`. */
  function Uint16Of(bs: seq<byte>): uint16
    requires |bs| == 2
  {
    LittleEndianValue(bs)
  }

  /** The `int32_t` whose memory image is `bs`. */
  function Int32Of(bs: seq<byte>): int32
    requires |bs| == 4
  {
    var u := LittleEndianValue(bs);
    if u >= 0x8000_0000 then u - 0x1_0000_0000 else u
  }

  lemma Int16RoundTrip(x: int16)
    ensures Int16Of(Int16Bytes(x)) == x
  {
    LittleEndianRoundTrip(if x < 0 then x + 0x1_0000 else x, 2);
  }

  lemma Int16BytesOf(bs: seq<byte>)
    requires |bs| == 2
    ensures Int16Bytes(Int16Of(bs)) == bs
  {
    LittleEndianOfValue(bs);
  }

  lemma Uint16RoundTrip(x: uint16)
    ensures Uint16Of(Uint16Bytes(x)) == x
  {
    LittleEndianRoundTrip(x, 2);
  }

  lemma Uint16BytesOf(bs: seq<byte>)
    requires |bs| == 2
    ensures Uint16Bytes(Uint16Of(bs)) == bs
  {
    LittleEndianOfValue(bs);
  }

  lemma Int32RoundTrip(x: int32)
    ensures Int32Of(Int32Bytes(x)) == x
  {
    LittleEndianRoundTrip(if x < 0 then x + 0x1_0000_0000 else x, 4);
  }

  lemma Int32BytesOf(bs: seq<byte>)
    requires |bs| == 4
    ensures Int32Bytes(Int32Of(bs)) == bs
  {
    LittleEndianOfValue(bs);
  }
}
