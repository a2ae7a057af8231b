// What the parser reads from the prefixes that the encoder emits.
module RoundTripPrefixes {
  import opened Bits
  import opened Sequences
  import opened Wrappers
  import opened X86Protos
  import opened InstructionEncodingConstants
  import opened InstructionEncoding
  import opened InstructionEncoder
  import opened InstructionParser

  // ---- Single bytes ---------------------------------------------------------

  // A byte at which the parser stops looking for prefixes.
  predicate IsPrefixByte(byte: bv8) {
    || !SegmentOverrideOf(byte).NoSegmentOverride?
    || !LockOrRepOf(byte).NoLockOrRep?
    || byte == OPERAND_SIZE_OVERRIDE_BYTE
    || byte == ADDRESS_SIZE_OVERRIDE_BYTE
    || IsRexPrefixByte(byte)
    || IsVexPrefixByte(byte)
    || byte == EVEX_ESCAPE_BYTE
  }

  lemma RexByteRoundTrip(rex: Rex)
    ensures RexOf(RexByte(rex)) == rex
    ensures (RexByte(rex) & 0xf0) == 0x40
  {
  }

  lemma RexByteIsOnlyRex(byte: bv8)
    requires (byte & 0xf0) == 0x40
    ensures IsRexPrefixByte(byte) && !IsVexPrefixByte(byte) && byte != EVEX_ESCAPE_BYTE
    ensures SegmentOverrideOf(byte).NoSegmentOverride? && LockOrRepOf(byte).NoLockOrRep?
    ensures byte != OPERAND_SIZE_OVERRIDE_BYTE && byte != ADDRESS_SIZE_OVERRIDE_BYTE
  {
  }

  // The three opcode maps that exist.
  lemma {:induction false} MandatoryPrefixRoundTrip(prefix: MandatoryPrefix)
    ensures MandatoryPrefixOf(MandatoryPrefixBits(prefix)) == prefix
    ensures GetBitRange(MandatoryPrefixBits(prefix), 0, 2) == MandatoryPrefixBits(prefix)
  {
  }

  lemma MapSelectRoundTrip(mapSelect: MapSelect)
    requires IsOpcodeMap(mapSelect)
    ensures MapSelectOf(MapSelectBits(mapSelect)) == mapSelect
    ensures GetBitRange(MapSelectBits(mapSelect), 0, 5) == MapSelectBits(mapSelect)
    ensures GetBitRange(MapSelectBits(mapSelect), 0, 2) == MapSelectBits(mapSelect)
  {
  }

  // Facts about the fields of a byte, stated one byte at a time.
  predicate IsVexOperandByte(byte: bv8, high: bool, operand: bv32, use256: bool, prefix: bv32) {
    var bits := byte as bv32;
    && IsNthBitSet(bits, 7) == high
    && GetBitRange(bits, 3, 7) == operand
    && IsNthBitSet(bits, 2) == use256
    && GetBitRange(bits, 0, 2) == prefix
  }

  lemma {:induction false} OperandByteFields(high: bool, operand: bv32, use256: bool, prefix: bv32)
    requires operand <= 15 && prefix <= 3
    ensures IsVexOperandByte(LowByte((Flag(high) << 7) | (operand << 3) | (Flag(use256) << 2) | prefix),
                             high, operand, use256, prefix)
  {
  }

  lemma OperandIsFourBits(operand: bv32)
    ensures GetBitRange(operand, 0, 4) <= 15
  {
  }

  lemma VexOperandByteFields(high: bool, operand: bv32, use256: bool, prefix: MandatoryPrefix)
    ensures IsVexOperandByte(VexOperandByte(high, operand, use256, prefix),
                             high, GetBitRange(operand, 0, 4), use256, MandatoryPrefixBits(prefix))
  {
    MandatoryPrefixRoundTrip(prefix);
    OperandIsFourBits(operand);
    OperandByteFields(high, GetBitRange(operand, 0, 4), use256, MandatoryPrefixBits(prefix));
  }

  predicate IsMapByte(byte: bv8, bit7: bool, bit6: bool, bit5: bool) {
    var bits := byte as bv32;
    IsNthBitSet(bits, 7) == bit7 && IsNthBitSet(bits, 6) == bit6 && IsNthBitSet(bits, 5) == bit5
  }

  lemma VexMapByteFields(vex: VexFields)
    requires IsOpcodeMap(vex.mapSelect)
    ensures IsMapByte(VexMapByte(vex), vex.notR, vex.notX, vex.notB)
    ensures GetBitRange(VexMapByte(vex) as bv32, 0, 5) == MapSelectBits(vex.mapSelect)
  {
  }

  lemma EvexMapByteFields(evex: EvexFields)
    requires IsOpcodeMap(evex.mapSelect)
    ensures IsMapByte(EvexMapByte(evex), IsNthBitSet(evex.notR, 0), evex.notX, evex.notB)
    ensures var bits := EvexMapByte(evex) as bv32;
            && IsNthBitSet(bits, 4) == IsNthBitSet(evex.notR, 1)
            && GetBitRange(bits, 2, 4) == 0
            && GetBitRange(bits, 0, 2) == MapSelectBits(evex.mapSelect)
  {
  }

  lemma {:induction false} EvexOperandByteFields(evex: EvexFields, operand: bv32)
    ensures IsVexOperandByte(EvexOperandByte(evex, operand), evex.w, GetBitRange(operand, 0, 4), true,
                             MandatoryPrefixBits(evex.mandatoryPrefix))
  {
    MandatoryPrefixRoundTrip(evex.mandatoryPrefix);
    OperandIsFourBits(operand);
    OperandByteFields(evex.w, GetBitRange(operand, 0, 4), true, MandatoryPrefixBits(evex.mandatoryPrefix));
  }

  predicate IsMaskByte(byte: bv8, z: bool, length: bv32, broadcast: bool, high: bool, opmask: bv32) {
    var bits := byte as bv32;
    && IsNthBitSet(bits, 7) == z
    && GetBitRange(bits, 5, 7) == length
    && IsNthBitSet(bits, 4) == broadcast
    && IsNthBitSet(bits, 3) == high
    && GetBitRange(bits, 0, 3) == opmask
  }

  lemma MaskByteFields(z: bool, length: bv32, broadcast: bool, high: bool, opmask: bv32)
    requires length <= 3 && opmask <= 7
    ensures IsMaskByte(
              LowByte((Flag(z) << 7) | (length << 5) | (Flag(broadcast) << 4) | (Flag(high) << 3) | opmask),
              z, length, broadcast, high, opmask)
  {
  }

  lemma LowBits(value: bv32)
    ensures GetBitRange(value, 0, 2) == value & 3 && (value & 3) <= 3
    ensures GetBitRange(value, 0, 3) == value & 7 && (value & 7) <= 7
  {
  }

  lemma EvexMaskByteFields(evex: EvexFields)
    ensures IsMaskByte(EvexMaskByte(evex), evex.z, evex.vectorLengthOrRounding & 3, evex.broadcastOrControl,
                       IsNthBitSet(evex.invertedRegisterOperand, 4), evex.opmaskRegister & 7)
  {
    LowBits(evex.vectorLengthOrRounding);
    LowBits(evex.opmaskRegister);
    MaskByteFields(evex.z, evex.vectorLengthOrRounding & 3, evex.broadcastOrControl,
                   IsNthBitSet(evex.invertedRegisterOperand, 4), evex.opmaskRegister & 7);
  }

  // ---- The fields that survive ----------------------------------------------

  // The bits of the register operand that a VEX prefix carries.
  function NormalVex(specification: VexPrefixSpecification, vex: VexFields): VexFields {
    vex.(invertedRegisterOperand := GetBitRange(InvertedVexOperand(specification, vex), 0, 4),
         vexSuffixValue := if specification.hasVexOperandSuffix then vex.vexSuffixValue & 0xff else 0)
  }

  // An EVEX prefix with the given bits vvvv and V', and the other fields cut to
  // the bits that the encoding keeps.
  function EvexWithOperand(evex: EvexFields, operand: bv32, high: bool): EvexFields {
    evex.(invertedRegisterOperand := operand | (Flag(high) << 4),
          notR := evex.notR & 3,
          vectorLengthOrRounding := evex.vectorLengthOrRounding & 3,
          opmaskRegister := evex.opmaskRegister & 7)
  }

  // The bits vvvv of the register operand are normalised when the operand is not
  // used; the bit V' is taken from the field as it is.
  function NormalEvex(specification: VexPrefixSpecification, evex: EvexFields): EvexFields {
    EvexWithOperand(evex, GetBitRange(InvertedEvexOperand(specification, evex), 0, 4),
                    IsNthBitSet(evex.invertedRegisterOperand, 4))
  }

  function SwappedNotR(notR: bv32): bv32 {
    TwoBits(IsNthBitSet(notR, 0), IsNthBitSet(notR, 1))
  }

  // What the parser reads: it puts the bits EVEX.R and EVEX.R' in the opposite
  // order.
  function ParsedEvex(specification: VexPrefixSpecification, evex: EvexFields): EvexFields {
    NormalEvex(specification, evex).(notR := SwappedNotR(evex.notR))
  }

  lemma NotRIsReadBack(notR: bv32)
    ensures SwappedNotR(notR) == notR & 3 <==> IsNthBitSet(notR, 0) == IsNthBitSet(notR, 1)
  {
  }

  function NormalLegacy(legacy: LegacyFields): InstructionPrefix {
    if !RexIsNeeded(legacy.GetRex()) && legacy.lockOrRep.NoLockOrRep? && !legacy.operandSizeOverride then NoPrefix
    else
      Legacy(LegacyFields(
               if RexIsNeeded(legacy.GetRex()) then Some(legacy.GetRex()) else None,
               legacy.lockOrRep, legacy.operandSizeOverride))
  }

  lemma {:induction false} ReadVexFields(vex: VexFields, first: bv8, second: bv8, operand: bv32)
    requires IsOpcodeMap(vex.mapSelect)
    requires IsMapByte(first, vex.notR, vex.notX, vex.notB)
    requires GetBitRange(first as bv32, 0, 5) == MapSelectBits(vex.mapSelect)
    requires IsVexOperandByte(second, vex.w, operand, vex.use256BitVectorLength,
                              MandatoryPrefixBits(vex.mandatoryPrefix))
    ensures ThreeByteVex(first, second) == vex.(invertedRegisterOperand := operand, vexSuffixValue := 0)
  {
    MandatoryPrefixRoundTrip(vex.mandatoryPrefix);
    MapSelectRoundTrip(vex.mapSelect);
  }

  lemma {:induction false} ReadTwoByteVexFields(vex: VexFields, data: bv8, operand: bv32)
    requires CanUseTwoByteForm(vex)
    requires IsVexOperandByte(data, vex.notR, operand, vex.use256BitVectorLength,
                              MandatoryPrefixBits(vex.mandatoryPrefix))
    ensures TwoByteVex(data) == vex.(invertedRegisterOperand := operand, vexSuffixValue := 0)
  {
    MandatoryPrefixRoundTrip(vex.mandatoryPrefix);
  }

  lemma {:induction false} VexPrefixRoundTrip(
    specification: VexPrefixSpecification, vex: VexFields, instruction: DecodedInstruction, rest: seq<bv8>
  )
    requires IsOpcodeMap(vex.mapSelect)
    ensures ReadVexPrefix(instruction, VexPrefixBytes(specification, vex) + rest) ==
            Success((instruction.(prefix := Vex(NormalVex(specification, vex).(vexSuffixValue := 0))), rest))
  {
    var operand := InvertedVexOperand(specification, vex);
    var bytes := VexPrefixBytes(specification, vex) + rest;
    if CanUseTwoByteForm(vex) {
      VexOperandByteFields(vex.notR, operand, vex.use256BitVectorLength, vex.mandatoryPrefix);
      ReadTwoByteVexFields(vex, bytes[1], GetBitRange(operand, 0, 4));
      assert bytes[2..] == rest;
    } else {
      VexMapByteFields(vex);
      VexOperandByteFields(vex.w, operand, vex.use256BitVectorLength, vex.mandatoryPrefix);
      ReadVexFields(vex, bytes[1], bytes[2], GetBitRange(operand, 0, 4));
      assert bytes[3..] == rest;
    }
  }

  lemma {:induction false} ReadEvexFields(
    evex: EvexFields, first: bv8, second: bv8, third: bv8, operand: bv32, high: bool, bit7: bool, bit4: bool
  )
    requires IsOpcodeMap(evex.mapSelect)
    requires IsMapByte(first, bit7, evex.notX, evex.notB)
    requires IsNthBitSet(first as bv32, 4) == bit4
    requires GetBitRange(first as bv32, 0, 2) == MapSelectBits(evex.mapSelect)
    requires IsVexOperandByte(second, evex.w, operand, true, MandatoryPrefixBits(evex.mandatoryPrefix))
    requires IsMaskByte(third, evex.z, evex.vectorLengthOrRounding & 3, evex.broadcastOrControl,
                        high, evex.opmaskRegister & 7)
    ensures EvexOf(first, second, third) == EvexWithOperand(evex, operand, high).(notR := TwoBits(bit7, bit4))
  {
    MandatoryPrefixRoundTrip(evex.mandatoryPrefix);
    MapSelectRoundTrip(evex.mapSelect);
  }

  lemma {:induction false} ReadEvexBytes(instruction: DecodedInstruction, first: bv8, second: bv8, third: bv8, rest: seq<bv8>)
    requires GetBitRange(first as bv32, 2, 4) == 0 && IsNthBitSet(second as bv32, 2)
    ensures ReadEvexPrefix(instruction, [EVEX_ESCAPE_BYTE, first, second, third] + rest) ==
            Success((instruction.(prefix := Evex(EvexOf(first, second, third))), rest))
  {
    DropFront([EVEX_ESCAPE_BYTE, first, second, third], rest);
  }

  // The bytes of an EVEX prefix hold the fields that the encoder composes.
  predicate AreEvexBytes(evex: EvexFields, operand: bv32, first: bv8, second: bv8, third: bv8) {
    && IsMapByte(first, IsNthBitSet(evex.notR, 0), evex.notX, evex.notB)
    && IsNthBitSet(first as bv32, 4) == IsNthBitSet(evex.notR, 1)
    && GetBitRange(first as bv32, 2, 4) == 0
    && GetBitRange(first as bv32, 0, 2) == MapSelectBits(evex.mapSelect)
    && IsVexOperandByte(second, evex.w, operand, true, MandatoryPrefixBits(evex.mandatoryPrefix))
    && IsMaskByte(third, evex.z, evex.vectorLengthOrRounding & 3, evex.broadcastOrControl,
                  IsNthBitSet(evex.invertedRegisterOperand, 4), evex.opmaskRegister & 7)
  }

  lemma EncodedEvexBytes(evex: EvexFields, operand: bv32)
    requires IsOpcodeMap(evex.mapSelect)
    ensures AreEvexBytes(evex, GetBitRange(operand, 0, 4),
                         EvexMapByte(evex), EvexOperandByte(evex, operand), EvexMaskByte(evex))
  {
    EvexMapByteFields(evex);
    EvexOperandByteFields(evex, operand);
    EvexMaskByteFields(evex);
  }

  lemma {:induction false} ReadBackEvex(
    evex: EvexFields, operand: bv32, first: bv8, second: bv8, third: bv8,
    instruction: DecodedInstruction, rest: seq<bv8>
  )
    requires IsOpcodeMap(evex.mapSelect) && AreEvexBytes(evex, operand, first, second, third)
    ensures ReadEvexPrefix(instruction, [EVEX_ESCAPE_BYTE, first, second, third] + rest) ==
            Success((instruction.(prefix := Evex(
              EvexWithOperand(evex, operand, IsNthBitSet(evex.invertedRegisterOperand, 4))
              .(notR := SwappedNotR(evex.notR)))), rest))
  {
    ReadEvexFields(evex, first, second, third, operand, IsNthBitSet(evex.invertedRegisterOperand, 4),
                   IsNthBitSet(evex.notR, 0), IsNthBitSet(evex.notR, 1));
    ReadEvexBytes(instruction, first, second, third, rest);
  }

  lemma {:induction false} EvexPrefixRoundTrip(
    specification: VexPrefixSpecification, evex: EvexFields, instruction: DecodedInstruction, rest: seq<bv8>
  )
    requires IsOpcodeMap(evex.mapSelect)
    ensures ReadEvexPrefix(instruction, EvexPrefixBytes(specification, evex) + rest) ==
            Success((instruction.(prefix := Evex(ParsedEvex(specification, evex))), rest))
  {
    var operand := InvertedEvexOperand(specification, evex);
    EncodedEvexBytes(evex, operand);
    ReadBackEvex(evex, GetBitRange(operand, 0, 4), EvexMapByte(evex), EvexOperandByte(evex, operand),
                 EvexMaskByte(evex), instruction, rest);
  }

  // ---- The prefix run -------------------------------------------------------

  lemma SegmentOverrideRoundTrip(prefix: SegmentOverride)
    requires !prefix.NoSegmentOverride?
    ensures |SegmentOverrideBytes(prefix)| == 1 && SegmentOverrideOf(SegmentOverrideBytes(prefix)[0]) == prefix
  {
  }

  predicate StopsOverrides(bytes: seq<bv8>) {
    bytes != [] && SegmentOverrideOf(bytes[0]).NoSegmentOverride? && bytes[0] != ADDRESS_SIZE_OVERRIDE_BYTE
  }

  lemma {:induction false} SkipAddressSizeOverride(instruction: DecodedInstruction, override: bool, rest: seq<bv8>)
    requires StopsOverrides(rest) && !instruction.addressSizeOverride
    ensures SkipOverrides(instruction, AddressSizeOverrideBytes(override) + rest) ==
            (instruction.(addressSizeOverride := override), rest)
  {
    if override {
      DropFront([ADDRESS_SIZE_OVERRIDE_BYTE], rest);
    } else {
      assert [] + rest == rest;
    }
  }

  // The instruction after the segment and address size overrides.
  function WithOverrides(instruction: DecodedInstruction): DecodedInstruction {
    DEFAULT_INSTRUCTION.(
      segmentOverride := instruction.segmentOverride, addressSizeOverride := instruction.addressSizeOverride)
  }

  lemma {:induction false} SkipEncodedOverrides(instruction: DecodedInstruction, rest: seq<bv8>)
    requires StopsOverrides(rest)
    ensures SkipOverrides(
              DEFAULT_INSTRUCTION,
              SegmentOverrideBytes(instruction.segmentOverride) +
              (AddressSizeOverrideBytes(instruction.addressSizeOverride) + rest))
            == (WithOverrides(instruction), rest)
  {
    var segment := instruction.segmentOverride;
    var tail := AddressSizeOverrideBytes(instruction.addressSizeOverride) + rest;
    if segment.NoSegmentOverride? {
      assert [] + tail == tail;
    } else {
      SegmentOverrideRoundTrip(segment);
      DropFront(SegmentOverrideBytes(segment), tail);
    }
    SkipAddressSizeOverride(DEFAULT_INSTRUCTION.(segmentOverride := segment), instruction.addressSizeOverride, rest);
  }

  function PrefixWithRex(rex: Rex): InstructionPrefix {
    if RexIsNeeded(rex) then Legacy(LegacyFields(Some(rex), NoLockOrRep, false)) else NoPrefix
  }

  lemma {:induction false} SkipRex(instruction: DecodedInstruction, rex: Rex, rest: seq<bv8>)
    requires instruction.prefix.NoPrefix?
    ensures SkipLegacyPrefixes(instruction, RexBytes(rex) + rest) ==
            SkipLegacyPrefixes(instruction.(prefix := PrefixWithRex(rex)), rest)
  {
    if RexIsNeeded(rex) {
      RexByteRoundTrip(rex);
      RexByteIsOnlyRex(RexByte(rex));
      ReadRexByte(instruction, RexByte(rex), rex);
      DropFront([RexByte(rex)], rest);
    } else {
      assert [] + rest == rest;
    }
  }

  lemma ReadRexByte(instruction: DecodedInstruction, byte: bv8, rex: Rex)
    requires instruction.prefix.NoPrefix? && RexOf(byte) == rex && (byte & 0xf0) == 0x40
    ensures LegacyPrefixStep(instruction, byte) ==
            Step(Success(instruction.(prefix := Legacy(LegacyFields(Some(rex), NoLockOrRep, false)))))
  {
    RexByteIsOnlyRex(byte);
  }

  function PrefixWithLockOrRep(prefix: InstructionPrefix, lockOrRep: LockOrRepPrefix): InstructionPrefix
    requires prefix.NoPrefix? || prefix.Legacy?
  {
    var legacy := if prefix.Legacy? then prefix.legacy else DEFAULT_LEGACY;
    if lockOrRep.NoLockOrRep? then prefix else Legacy(legacy.(lockOrRep := lockOrRep))
  }

  lemma {:induction false} SkipLockOrRep(instruction: DecodedInstruction, lockOrRep: LockOrRepPrefix, rest: seq<bv8>)
    requires instruction.prefix.NoPrefix? || instruction.prefix.Legacy?
    requires instruction.GetLegacyPrefixes().lockOrRep.NoLockOrRep?
    ensures SkipLegacyPrefixes(instruction, LockOrRepBytes(lockOrRep) + rest) ==
            SkipLegacyPrefixes(instruction.(prefix := PrefixWithLockOrRep(instruction.prefix, lockOrRep)), rest)
  {
    if lockOrRep.NoLockOrRep? {
      assert [] + rest == rest;
    } else {
      DropFront(LockOrRepBytes(lockOrRep), rest);
    }
  }

  function PrefixWithOperandSize(prefix: InstructionPrefix, override: bool): InstructionPrefix
    requires prefix.NoPrefix? || prefix.Legacy?
  {
    var legacy := if prefix.Legacy? then prefix.legacy else DEFAULT_LEGACY;
    if override then Legacy(legacy.(operandSizeOverride := true)) else prefix
  }

  lemma {:induction false} SkipOperandSize(instruction: DecodedInstruction, override: bool, rest: seq<bv8>)
    requires instruction.prefix.NoPrefix? || instruction.prefix.Legacy?
    ensures SkipLegacyPrefixes(instruction, OperandSizeOverrideBytes(override) + rest) ==
            SkipLegacyPrefixes(instruction.(prefix := PrefixWithOperandSize(instruction.prefix, override)), rest)
  {
    if override {
      DropFront([OPERAND_SIZE_OVERRIDE_BYTE], rest);
    } else {
      assert [] + rest == rest;
    }
  }

  lemma {:induction false} SkipEncodedLegacy(instruction: DecodedInstruction, legacy: LegacyFields, rest: seq<bv8>)
    requires instruction.prefix.NoPrefix?
    requires rest != [] && !IsPrefixByte(rest[0])
    ensures SkipLegacyPrefixes(instruction, LegacyPrefixBytes(legacy) + rest) ==
            Success((instruction.(prefix := NormalLegacy(legacy)), rest))
  {
    var afterLock := OperandSizeOverrideBytes(legacy.operandSizeOverride) + rest;
    var afterRex := LockOrRepBytes(legacy.lockOrRep) + afterLock;
    assert LegacyPrefixBytes(legacy) + rest == RexBytes(legacy.GetRex()) + afterRex;
    var withRex := instruction.(prefix := PrefixWithRex(legacy.GetRex()));
    var withLock := withRex.(prefix := PrefixWithLockOrRep(withRex.prefix, legacy.lockOrRep));
    SkipRex(instruction, legacy.GetRex(), afterRex);
    SkipLockOrRep(withRex, legacy.lockOrRep, afterLock);
    SkipOperandSize(withLock, legacy.operandSizeOverride, rest);
  }

  // The first byte of the encoded legacy prefixes is never an escape byte.
  lemma LegacyBytesStartRun(legacy: LegacyFields, rest: seq<bv8>)
    requires rest != [] && !IsPrefixByte(rest[0])
    ensures var bytes := LegacyPrefixBytes(legacy) + rest;
            StopsOverrides(bytes) && !IsVexPrefixByte(bytes[0]) && bytes[0] != EVEX_ESCAPE_BYTE
  {
    if RexIsNeeded(legacy.GetRex()) {
      RexByteRoundTrip(legacy.GetRex());
      RexByteIsOnlyRex(RexByte(legacy.GetRex()));
    }
  }

  // ---- All prefixes ---------------------------------------------------------

  // The specification has a prefix set, and the opcode bytes that follow the
  // prefixes can be told from a prefix.
  predicate HasReadablePrefix(specification: EncodingSpecification, instruction: DecodedInstruction) {
    match specification.prefix
    case NoPrefixSpecification => false
    case LegacySpecification(_) => !IsPrefixByte(OpcodeBytes(specification, instruction)[0])
    case VexSpecification(vex) => IsOpcodeMap(vex.mapSelect)
  }

  // The prefix that the parser stores for an encoded instruction.
  function ParsedPrefix(specification: EncodingSpecification, instruction: DecodedInstruction): InstructionPrefix {
    match specification.prefix
    case LegacySpecification(_) => NormalLegacy(instruction.GetLegacyPrefixes())
    case VexSpecification(vex) =>
      (match instruction.prefix
       case Vex(fields) => Vex(NormalVex(vex, fields).(vexSuffixValue := 0))
       case Evex(fields) => Evex(ParsedEvex(vex, fields))
       case _ => NoPrefix)
    case NoPrefixSpecification => NoPrefix
  }

  lemma VexMapIsOpcodeMap(specification: VexPrefixSpecification, instruction: DecodedInstruction)
    requires ValidateVexPrefix(specification, instruction).Ok? && IsOpcodeMap(specification.mapSelect)
    ensures instruction.prefix.Vex? && IsOpcodeMap(instruction.prefix.vex.mapSelect)
  {
  }

  lemma EvexMapIsOpcodeMap(specification: VexPrefixSpecification, instruction: DecodedInstruction)
    requires AllowedEvexBInterpretations(specification.evexBInterpretations)
    requires ValidateEvexPrefix(specification, instruction).Ok? && IsOpcodeMap(specification.mapSelect)
    ensures instruction.prefix.Evex? && IsOpcodeMap(instruction.prefix.evex.mapSelect)
  {
  }

  lemma {:induction false} PrefixesRoundTrip(specification: EncodingSpecification, instruction: DecodedInstruction, rest: seq<bv8>)
    requires HasReadablePrefix(specification, instruction) && EvexBInterpretationsAreAllowed(specification)
    requires ValidatePrefix(specification, instruction).Ok?
    requires specification.prefix.LegacySpecification? ==> rest != [] && !IsPrefixByte(rest[0])
    ensures ReadPrefixes(DEFAULT_INSTRUCTION, PrefixBytes(specification, instruction) + rest) ==
            Success((WithOverrides(instruction).(prefix := ParsedPrefix(specification, instruction)), rest))
  {
    var scheme := EncodingSchemeBytes(specification, instruction) + rest;
    assert PrefixBytes(specification, instruction) + rest ==
           SegmentOverrideBytes(instruction.segmentOverride) +
           (AddressSizeOverrideBytes(instruction.addressSizeOverride) + scheme);
    if specification.prefix.LegacySpecification? {
      LegacyBytesStartRun(instruction.GetLegacyPrefixes(), rest);
      SkipEncodedLegacy(WithOverrides(instruction), instruction.GetLegacyPrefixes(), rest);
    } else {
      var vex := specification.prefix.vex;
      if vex.prefixType.VexType? {
        VexMapIsOpcodeMap(vex, instruction);
        VexPrefixRoundTrip(vex, instruction.prefix.vex, WithOverrides(instruction), rest);
      } else {
        EvexMapIsOpcodeMap(vex, instruction);
        EvexPrefixRoundTrip(vex, instruction.prefix.evex, WithOverrides(instruction), rest);
      }
    }
    SkipEncodedOverrides(instruction, scheme);
  }
}
