// The layout of the VEX and EVEX prefixes, bit by bit, as the manuals draw it (Intel
// SDM volume 2A, sections 2.3.5 and 2.7.1), and that the parser reads it.
module VexLayouts {
  import opened Bits
  import opened Wrappers
  import opened X86Protos
  import opened InstructionParser

  predicate Bit(byte: bv8, mask: bv8) {
    byte & mask != 0
  }

  // The maps are numbered from 1. Of the five bits of VEX.mmmmm the others are
  // reserved.
  predicate IsMapNumber(number: bv8, mapSelect: MapSelect) {
    if number == 0 then mapSelect == UndefinedOperandMap
    else if number == 1 then mapSelect == Map0F
    else if number == 2 then mapSelect == Map0F38
    else if number == 3 then mapSelect == Map0F3A
    else mapSelect == ReservedMap(number)
  }

  predicate IsPrefixNumber(number: bv8, prefix: MandatoryPrefix) {
    && (number == 0 <==> prefix == NoMandatoryPrefix)
    && (number == 1 <==> prefix == MandatoryOperandSizeOverride)
    && (number == 2 <==> prefix == MandatoryRepe)
    && (number == 3 <==> prefix == MandatoryRepne)
  }

  // The last byte of both VEX forms.
  predicate IsVexOperandLayout(byte: bv8, vex: VexFields) {
    && vex.invertedRegisterOperand == ((byte >> 3) & 0x0f) as bv32
    && vex.use256BitVectorLength == Bit(byte, 0x04)
    && IsPrefixNumber(byte & 0x03, vex.mandatoryPrefix)
    && vex.vexSuffixValue == 0
  }

  // C4, RXBmmmmm, WvvvvLpp, with R, X, B and vvvv inverted.
  predicate IsThreeByteLayout(first: bv8, second: bv8, vex: VexFields) {
    && vex.notR == Bit(first, 0x80) && vex.notX == Bit(first, 0x40) && vex.notB == Bit(first, 0x20)
    && IsMapNumber(first & 0x1f, vex.mapSelect)
    && vex.w == Bit(second, 0x80)
    && IsVexOperandLayout(second, vex)
  }

  // C5, RvvvvLpp.
  predicate IsTwoByteLayout(byte: bv8, vex: VexFields) {
    && vex.notR == Bit(byte, 0x80) && vex.notX && vex.notB && !vex.w && vex.mapSelect == Map0F
    && IsVexOperandLayout(byte, vex)
  }

  // 62, RXBR'00mm, Wvvvv1pp, zL'LbV'aaa. The code keeps V' above vvvv, and R above R'.
  predicate IsEvexLayout(first: bv8, second: bv8, third: bv8, evex: EvexFields) {
    && evex.notR == (if Bit(first, 0x80) then 2 else 0) + (if Bit(first, 0x10) then 1 else 0)
    && evex.notX == Bit(first, 0x40) && evex.notB == Bit(first, 0x20)
    && IsMapNumber(first & 0x03, evex.mapSelect)
    && evex.w == Bit(second, 0x80)
    && evex.invertedRegisterOperand ==
       ((second >> 3) & 0x0f) as bv32 + (if Bit(third, 0x08) then 16 else 0)
    && IsPrefixNumber(second & 0x03, evex.mandatoryPrefix)
    && evex.z == Bit(third, 0x80) && evex.broadcastOrControl == Bit(third, 0x10)
    && evex.vectorLengthOrRounding == ((third >> 5) & 0x03) as bv32
    && evex.opmaskRegister == (third & 0x07) as bv32
  }

  lemma BitsOf(byte: bv8)
    ensures var bits := byte as bv32;
            && IsNthBitSet(bits, 2) == Bit(byte, 0x04) && IsNthBitSet(bits, 3) == Bit(byte, 0x08)
            && IsNthBitSet(bits, 4) == Bit(byte, 0x10) && IsNthBitSet(bits, 5) == Bit(byte, 0x20)
            && IsNthBitSet(bits, 6) == Bit(byte, 0x40) && IsNthBitSet(bits, 7) == Bit(byte, 0x80)
  {
  }

  lemma RangesOf(byte: bv8)
    ensures var bits := byte as bv32;
            && GetBitRange(bits, 0, 2) == (byte & 0x03) as bv32 && GetBitRange(bits, 0, 3) == (byte & 0x07) as bv32
            && GetBitRange(bits, 0, 5) == (byte & 0x1f) as bv32
            && GetBitRange(bits, 3, 7) == ((byte >> 3) & 0x0f) as bv32
            && GetBitRange(bits, 5, 7) == ((byte >> 5) & 0x03) as bv32
  {
  }

  lemma MapOf(number: bv8)
    ensures IsMapNumber(number, MapSelectOf(number as bv32))
  {
  }

  lemma PrefixOf(number: bv8)
    requires number <= 3
    ensures IsPrefixNumber(number, MandatoryPrefixOf(number as bv32))
  {
  }

  lemma TwoBitsOf(byte: bv8)
    ensures byte & 0x03 <= 3
  {
  }

  lemma HighBits(first: bv8, bit: bool)
    ensures ((first >> 3) & 0x0f) as bv32 | (Flag(bit) << 4) == ((first >> 3) & 0x0f) as bv32 + (if bit then 16 else 0)
  {
  }

  lemma TwoBitsAre(high: bool, low: bool)
    ensures TwoBits(high, low) == (if high then 2 else 0) + (if low then 1 else 0)
  {
  }

  lemma OperandLayout(byte: bv8, vex: VexFields)
    requires vex.invertedRegisterOperand == GetBitRange(byte as bv32, 3, 7) && vex.vexSuffixValue == 0
    requires vex.use256BitVectorLength == IsNthBitSet(byte as bv32, 2)
    requires vex.mandatoryPrefix == MandatoryPrefixOf(GetBitRange(byte as bv32, 0, 2))
    ensures IsVexOperandLayout(byte, vex)
  {
    BitsOf(byte);
    RangesOf(byte);
    TwoBitsOf(byte);
    PrefixOf(byte & 0x03);
  }

  lemma {:induction false} ThreeByteLayout(first: bv8, second: bv8)
    ensures IsThreeByteLayout(first, second, ThreeByteVex(first, second))
  {
    OperandLayout(second, ThreeByteVex(first, second));
    BitsOf(first);
    RangesOf(first);
    MapOf(first & 0x1f);
    BitsOf(second);
  }

  lemma {:induction false} TwoByteLayout(byte: bv8)
    ensures IsTwoByteLayout(byte, TwoByteVex(byte))
  {
    OperandLayout(byte, TwoByteVex(byte));
    BitsOf(byte);
  }

  lemma {:induction false} EvexLayout(first: bv8, second: bv8, third: bv8)
    ensures IsEvexLayout(first, second, third, EvexOf(first, second, third))
  {
    BitsOf(first);
    RangesOf(first);
    MapOf(first & 0x03);
    BitsOf(second);
    RangesOf(second);
    TwoBitsOf(second);
    PrefixOf(second & 0x03);
    BitsOf(third);
    RangesOf(third);
    HighBits(second, Bit(third, 0x08));
    TwoBitsAre(Bit(first, 0x80), Bit(first, 0x10));
  }

  // The two forms are told apart by their escape bytes, and take three and two bytes.
  lemma {:induction false} VexIsReadByLayout(instruction: DecodedInstruction, bytes: seq<bv8>)
    requires bytes != [] && bytes[0] in {0xc4, 0xc5}
    ensures match ReadVexPrefix(instruction, bytes)
            case Success((read, rest)) =>
              && read.prefix.Vex? && read == instruction.(prefix := read.prefix)
              && (if bytes[0] == 0xc4
                  then |bytes| >= 3 && rest == bytes[3..] && IsThreeByteLayout(bytes[1], bytes[2], read.prefix.vex)
                  else |bytes| >= 2 && rest == bytes[2..] && IsTwoByteLayout(bytes[1], read.prefix.vex))
            case Failure(error) => error == InvalidArgument && |bytes| < if bytes[0] == 0xc4 then 3 else 2
  {
    if bytes[0] == 0xc4 && |bytes| >= 3 {
      ThreeByteLayout(bytes[1], bytes[2]);
    } else if bytes[0] == 0xc5 && |bytes| >= 2 {
      TwoByteLayout(bytes[1]);
    }
  }

  predicate HasReservedBits(bytes: seq<bv8>)
    requires |bytes| >= 4
  {
    bytes[1] & 0x0c == 0 && bytes[2] & 0x04 != 0
  }

  lemma ReservedBits(bytes: seq<bv8>)
    requires |bytes| >= 4
    ensures HasReservedBits(bytes) <==> ReadEvexPrefix(DEFAULT_INSTRUCTION, bytes).Success?
  {
  }

  // The EVEX prefix takes four bytes, and its two reserved places are checked.
  lemma {:induction false} EvexIsReadByLayout(instruction: DecodedInstruction, bytes: seq<bv8>)
    ensures match ReadEvexPrefix(instruction, bytes)
            case Success((read, rest)) =>
              && |bytes| >= 4 && HasReservedBits(bytes) && rest == bytes[4..]
              && read.prefix.Evex? && read == instruction.(prefix := read.prefix)
              && IsEvexLayout(bytes[1], bytes[2], bytes[3], read.prefix.evex)
            case Failure(error) => error == InvalidArgument && (|bytes| < 4 || !HasReservedBits(bytes))
  {
    if |bytes| >= 4 {
      ReservedBits(bytes);
      EvexLayout(bytes[1], bytes[2], bytes[3]);
    }
  }

  // Segment and address-size overrides may stand in front of the escape bytes; what
  // follows them is left to the prefix.
  lemma {:induction false} EscapesAreRead(instruction: DecodedInstruction, bytes: seq<bv8>)
    requires bytes != []
    ensures bytes[0] in {0xc4, 0xc5} ==> ReadPrefixes(instruction, bytes) == ReadVexPrefix(instruction, bytes)
    ensures bytes[0] == 0x62 ==> ReadPrefixes(instruction, bytes) == ReadEvexPrefix(instruction, bytes)
    ensures bytes[0] == 0x67 ==>
              ReadPrefixes(instruction, bytes) ==
              ReadPrefixes(instruction.(addressSizeOverride := true), bytes[1..])
  {
  }
}
