// Helper functions for reading bits of unsigned integers (exegesis/util/bits.h),
// and the conversions between machine words and bytes that the encoder and the
// parser of x86-64 instructions use.
module Bits {

  predicate IsNthBitSet(value: bv32, position: bv32)
    requires position < 32
  {
    (value & (1 << position)) != 0
  }

  function GetBitRange(value: bv32, start: bv32, end: bv32): bv32
    requires start < end <= 32
  {
    (value & (0xffff_ffff >> (32 - end))) >> start
  }

  // The value of a Boolean promoted to an integer.
  function Flag(b: bool): bv32 {
    if b then 1 else 0
  }

  // The cast of a 32-bit value to a byte.
  function LowByte(value: bv32): bv8 {
    (value & 0xff) as bv8
  }

  // The casts of the 64-bit displacement to a narrower signed type.
  function Truncate8(value: bv64): bv8 {
    (value & 0xff) as bv8
  }

  function Truncate32(value: bv64): bv32 {
    (value & 0xffff_ffff) as bv32
  }

  function SignExtend8(value: bv8): bv64 {
    if (value & 0x80) != 0 then 0xffff_ffff_ffff_ff00 | value as bv64 else value as bv64
  }

  function SignExtend32(value: bv32): bv64 {
    if (value & 0x8000_0000) != 0 then 0xffff_ffff_0000_0000 | value as bv64 else value as bv64
  }

  // A 32-bit value in the little-endian byte order.
  function DWordBytes(value: bv32): (bytes: seq<bv8>)
    ensures |bytes| == 4
  {
    [LowByte(value), LowByte(value >> 8), LowByte(value >> 16), LowByte(value >> 24)]
  }

  function DWordValue(b0: bv8, b1: bv8, b2: bv8, b3: bv8): bv32 {
    b0 as bv32 | (b1 as bv32 << 8) | (b2 as bv32 << 16) | (b3 as bv32 << 24)
  }

  lemma DWordRoundTrip(value: bv32)
    ensures var b := DWordBytes(value); DWordValue(b[0], b[1], b[2], b[3]) == value
  {
  }

  lemma SignExtend8RoundTrip(value: bv8)
    ensures Truncate8(SignExtend8(value)) == value
  {
  }

  lemma SignExtend32KeepsLowBits(value: bv32)
    ensures SignExtend32(value) & 0xffff_ffff == value as bv64
  {
    if (value & 0x8000_0000) != 0 {
      assert (0xffff_ffff_0000_0000 | value as bv64) & 0xffff_ffff == value as bv64;
    } else {
      assert value as bv64 & 0xffff_ffff == value as bv64;
    }
  }

  lemma Truncate32OfLowBits(value: bv32, wide: bv64)
    requires wide & 0xffff_ffff == value as bv64
    ensures Truncate32(wide) == value
  {
  }

  lemma SignExtend32RoundTrip(value: bv32)
    ensures Truncate32(SignExtend32(value)) == value
  {
    SignExtend32KeepsLowBits(value);
    Truncate32OfLowBits(value, SignExtend32(value));
  }

  // A number with its sign bit set stands for minus its complement.
  lemma SignExtend8IsSigned(value: bv8)
    ensures value < 0x80 ==> SignExtend8(value) == value as bv64
    ensures value >= 0x80 ==> SignExtend8(value) == 0 - ((0 - value) as bv64)
  {
  }

  lemma SignExtend32IsSigned(value: bv32)
    ensures value < 0x8000_0000 ==> SignExtend32(value) == value as bv64
    ensures value >= 0x8000_0000 ==> SignExtend32(value) == 0 - ((0 - value) as bv64)
  {
  }
}
