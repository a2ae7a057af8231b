// Exactly which instructions the encoder accepts, what the matchers ask of the
// prefixes, and what the emitted bytes then have in common: the demands of the
// specification, one by one, as the manuals state them (Intel SDM volume 2A,
// sections 2.3.5, 2.7 and 3.1.1).
module AcceptedInstructions {
  import opened Bits
  import opened Wrappers
  import opened Opcodes
  import opened X86Protos
  import opened InstructionEncoding
  import opened InstructionEncoder
  import opened PrefixRuns

  // ---- Demands --------------------------------------------------------------

  predicate MeetsUsage(usage: PrefixUsage, isPresent: bool) {
    && (usage == PrefixIsRequired ==> isPresent)
    && (usage == PrefixIsNotPermitted ==> !isPresent)
  }

  predicate MeetsWUsage(usage: VexWUsage, w: bool) {
    && (usage == VexWIsOne ==> w)
    && (usage == VexWIsZero ==> !w)
  }

  predicate MeetsMandatoryLegacy(specification: LegacyPrefixSpecification, instruction: DecodedInstruction) {
    var prefixes := instruction.GetLegacyPrefixes();
    && (specification.hasMandatoryRepePrefix ==> prefixes.lockOrRep == RepPrefix)
    && (specification.hasMandatoryRepnePrefix ==> prefixes.lockOrRep == RepnePrefix)
    && (specification.hasMandatoryAddressSizeOverridePrefix ==> instruction.addressSizeOverride)
  }

  // The number in the bits L or L'L. The encoder wants zero where it is ignored.
  function DemandedLength(size: VexVectorSize): bv32 {
    match size
    case VectorSizeBitIsOne => 1
    case VectorSize256Bit => 1
    case VectorSize512Bit => 2
    case _ => 0
  }

  // An operand that is left at zero is not checked; one that is not used has all
  // its bits set.
  predicate MeetsOperandUsage(usage: VexOperandUsage, operand: bv32, largest: bv32) {
    operand == 0 || (if usage == VexOperandIsNotUsed then operand == largest else operand <= largest)
  }

  predicate HasMemory(instruction: DecodedInstruction) {
    instruction.optionalModRm.Some? && instruction.optionalModRm.value.addressingMode != Direct
  }

  // An interpretation applies to memory operands if it is a broadcast, and to
  // registers if it is not; one that has no other beside it does not need a register.
  predicate Applies(
    interpretation: EvexBInterpretation, interpretations: seq<EvexBInterpretation>, instruction: DecodedInstruction
  ) {
    match interpretation
    case UndefinedEvexBInterpretation => false
    case EvexBEnables32BitBroadcast => HasMemory(instruction)
    case EvexBEnables64BitBroadcast => HasMemory(instruction)
    case _ => !HasMemory(instruction) || |interpretations| == 1
  }

  predicate MeetsEvexB(specification: VexPrefixSpecification, instruction: DecodedInstruction) {
    instruction.GetEvexPrefix().broadcastOrControl ==>
      exists interpretation :: interpretation in specification.evexBInterpretations &&
                               Applies(interpretation, specification.evexBInterpretations, instruction)
  }

  predicate MeetsOpmask(specification: VexPrefixSpecification, evex: EvexFields) {
    && (specification.opmaskUsage == EvexOpmaskIsNotUsed ==> evex.opmaskRegister == 0)
    && (specification.opmaskUsage == EvexOpmaskIsRequired ==> evex.opmaskRegister != 0)
    && (evex.z ==> specification.maskingOperation == EvexMaskingMergingAndZeroing)
  }

  predicate MeetsMap(specification: VexPrefixSpecification, prefix: MandatoryPrefix, mapSelect: MapSelect) {
    prefix == specification.mandatoryPrefix && mapSelect == specification.mapSelect
  }

  predicate MeetsLegacy(specification: LegacyPrefixSpecification, instruction: DecodedInstruction) {
    var prefixes := instruction.GetLegacyPrefixes();
    && !instruction.prefix.Vex?
    && MeetsUsage(specification.rexWPrefix, prefixes.GetRex().w)
    && MeetsUsage(specification.operandSizeOverridePrefix, prefixes.operandSizeOverride)
    && MeetsMandatoryLegacy(specification, instruction)
  }

  predicate MeetsVex(specification: VexPrefixSpecification, instruction: DecodedInstruction) {
    && instruction.prefix.Vex?
    && var vex := instruction.prefix.vex;
       && MeetsOperandUsage(specification.vexOperandUsage, vex.invertedRegisterOperand, 15)
       && specification.vectorSize != VectorSize512Bit
       && (vex.use256BitVectorLength <==> DemandedLength(specification.vectorSize) == 1)
       && MeetsWUsage(specification.vexWUsage, vex.w)
       && MeetsMap(specification, vex.mandatoryPrefix, vex.mapSelect)
  }

  predicate MeetsEvex(specification: VexPrefixSpecification, instruction: DecodedInstruction) {
    && instruction.prefix.Evex?
    && var evex := instruction.prefix.evex;
       && MeetsOperandUsage(specification.vexOperandUsage, evex.invertedRegisterOperand, 31)
       && evex.vectorLengthOrRounding == DemandedLength(specification.vectorSize)
       && MeetsWUsage(specification.vexWUsage, evex.w)
       && MeetsMap(specification, evex.mandatoryPrefix, evex.mapSelect)
       && MeetsEvexB(specification, instruction)
       && MeetsOpmask(specification, evex)
  }

  predicate MeetsPrefix(specification: EncodingSpecification, instruction: DecodedInstruction) {
    match specification.prefix
    case NoPrefixSpecification => true
    case LegacySpecification(legacy) => MeetsLegacy(legacy, instruction)
    case VexSpecification(vex) =>
      || (vex.prefixType == VexType && MeetsVex(vex, instruction))
      || (vex.prefixType == EvexType && MeetsEvex(vex, instruction))
  }

  // A zero opcode stands for that of the specification. Another one is equal to it,
  // up to the low three bits when they hold an operand.
  predicate MeetsOpcode(specification: EncodingSpecification, opcode: Opcode) {
    || opcode == ZERO
    || specification.opcode ==
       if specification.operandInOpcode == NoOperandInOpcode then opcode
       else opcode.(b0 := opcode.b0 - opcode.b0 % 8)
  }

  // There is a ModR/M byte exactly when the specification has one, and a SIB byte
  // exactly when modrm.rm asks for it.
  predicate MeetsModRm(specification: EncodingSpecification, instruction: DecodedInstruction) {
    if specification.modrmUsage == NoModRmUsage
    then instruction.optionalModRm == None && instruction.optionalSib == None
    else
      && instruction.optionalModRm.Some?
      && var modrm := instruction.optionalModRm.value;
         && (specification.modrmUsage == OpcodeExtensionInModRm ==>
               modrm.registerOperand == specification.modrmOpcodeExtension)
         && (instruction.optionalSib.Some? <==> modrm.addressingMode != Direct && modrm.rmOperand == 4)
  }

  predicate MeetsSizes(specification: EncodingSpecification, instruction: DecodedInstruction) {
    var sizes, values := specification.immediateValueBytes, instruction.immediateValue;
    && |values| == |sizes| && (forall i :: 0 <= i < |sizes| ==> |values[i]| == sizes[i])
    && |instruction.codeOffset| == specification.codeOffsetBytes
  }

  // A VEX suffix is set only where the specification has one.
  predicate MeetsSuffix(specification: EncodingSpecification, instruction: DecodedInstruction) {
    specification.prefix.VexSpecification? && !specification.prefix.vex.hasVexOperandSuffix &&
    instruction.prefix.Vex? ==>
      instruction.prefix.vex.vexSuffixValue == 0
  }

  // ---- The validator --------------------------------------------------------

  // REX.W and 66 are both held to the usage that the specification gives them.
  lemma {:induction false} LegacyIsAccepted(specification: LegacyPrefixSpecification, instruction: DecodedInstruction)
    ensures ValidateLegacyPrefixes(specification, instruction).Ok? <==> MeetsLegacy(specification, instruction)
  {
  }

  lemma {:induction false} VexIsAccepted(specification: VexPrefixSpecification, instruction: DecodedInstruction)
    requires specification.prefixType == VexType
    ensures ValidateVexPrefix(specification, instruction).Ok? <==>
            MeetsVex(specification, instruction) && specification.mapSelect != UndefinedOperandMap
  {
  }

  lemma {:induction false} EvexIsAccepted(specification: VexPrefixSpecification, instruction: DecodedInstruction)
    requires AllowedEvexBInterpretations(specification.evexBInterpretations) && specification.prefixType == EvexType
    ensures ValidateEvexPrefix(specification, instruction).Ok? <==>
            MeetsEvex(specification, instruction) && specification.mapSelect != UndefinedOperandMap
  {
    EvexBIsAccepted(specification, instruction);
  }

  lemma {:induction false} EvexBIsAccepted(specification: VexPrefixSpecification, instruction: DecodedInstruction)
    requires AllowedEvexBInterpretations(specification.evexBInterpretations) && specification.prefixType == EvexType
    ensures ValidateEvexBBit(specification, instruction).Ok? <==> MeetsEvexB(specification, instruction)
  {
    var interpretations := specification.evexBInterpretations;
    if |interpretations| == 1 {
      var only := interpretations[0];
      assert only in interpretations;
      assert forall interpretation :: interpretation in interpretations ==> interpretation == only;
      assert Applies(only, interpretations, instruction) <==>
             !GetUsedEvexBInterpretation(specification, instruction).UndefinedEvexBInterpretation?;
    } else if |interpretations| == 2 {
      var first, second := interpretations[0], interpretations[1];
      assert first in interpretations && second in interpretations;
      assert forall interpretation :: interpretation in interpretations ==>
          interpretation == first || interpretation == second;
      assert Applies(first, interpretations, instruction) || Applies(second, interpretations, instruction) <==>
             !GetUsedEvexBInterpretation(specification, instruction).UndefinedEvexBInterpretation?;
    }
  }

  lemma MaskedBits(byte: bv8)
    ensures byte & 0xf8 == byte - byte % 8
  {
  }

  lemma OpcodeIsAccepted(specification: EncodingSpecification, instruction: DecodedInstruction)
    ensures ValidateOpcode(specification, instruction).Ok? <==> MeetsOpcode(specification, instruction.opcode)
  {
    MaskedBits(instruction.opcode.b0);
  }

  predicate HasDefinedMap(specification: EncodingSpecification) {
    specification.prefix.VexSpecification? ==> specification.prefix.vex.mapSelect != UndefinedOperandMap
  }

  lemma {:induction false} PrefixIsAccepted(specification: EncodingSpecification, instruction: DecodedInstruction)
    requires EvexBInterpretationsAreAllowed(specification)
    ensures ValidatePrefix(specification, instruction).Ok? <==>
            MeetsPrefix(specification, instruction) && HasDefinedMap(specification)
  {
    match specification.prefix
    case LegacySpecification(legacy) => LegacyIsAccepted(legacy, instruction);
    case VexSpecification(vex) =>
      if vex.prefixType.VexType? {
        VexIsAccepted(vex, instruction);
      } else if vex.prefixType.EvexType? {
        EvexIsAccepted(vex, instruction);
      }
    case NoPrefixSpecification =>
  }

  lemma OperandsAreAccepted(specification: EncodingSpecification, instruction: DecodedInstruction)
    ensures ValidateModRm(specification, instruction).Ok? <==> MeetsModRm(specification, instruction)
    ensures ValidateImmediateValues(specification, instruction).Ok? <==> MeetsSizes(specification, instruction)
    ensures ValidateVexSuffix(specification, instruction).Ok? <==> MeetsSuffix(specification, instruction)
  {
  }

  // The encoder accepts an instruction exactly when it meets all the demands of the
  // specification.
  lemma {:induction false} AcceptedExactly(specification: EncodingSpecification, instruction: DecodedInstruction)
    requires EvexBInterpretationsAreAllowed(specification)
    ensures Validate(specification, instruction).Ok? <==>
            && HasDefinedMap(specification)
            && MeetsPrefix(specification, instruction)
            && MeetsOpcode(specification, instruction.opcode)
            && MeetsModRm(specification, instruction)
            && MeetsSizes(specification, instruction)
            && MeetsSuffix(specification, instruction)
  {
    PrefixIsAccepted(specification, instruction);
    OpcodeIsAccepted(specification, instruction);
    OperandsAreAccepted(specification, instruction);
  }

  // The reason is an invalid argument, unless the specification itself cannot be used.
  lemma {:induction false} RejectedWith(specification: EncodingSpecification, instruction: DecodedInstruction)
    requires EvexBInterpretationsAreAllowed(specification) && !Validate(specification, instruction).Ok?
    ensures Validate(specification, instruction) ==
            if specification.prefix.VexSpecification? && specification.prefix.vex.prefixType == UndefinedPrefixType
            then Internal
            else if HasLongVex(specification) && instruction.prefix.Vex? &&
                    MeetsOperandUsage(specification.prefix.vex.vexOperandUsage,
                                      instruction.prefix.vex.invertedRegisterOperand, 15)
            then FailedPrecondition
            else InvalidArgument
  {
  }

  // A VEX prefix cannot ask for 512 bits.
  predicate HasLongVex(specification: EncodingSpecification) {
    && specification.prefix.VexSpecification? && specification.prefix.vex.prefixType == VexType
    && specification.prefix.vex.vectorSize == VectorSize512Bit
  }

  // ---- The matchers ---------------------------------------------------------

  // Under REX.W the matcher does not look at 66.
  lemma {:induction false} LegacyMatches(specification: LegacyPrefixSpecification, instruction: DecodedInstruction)
    ensures LegacyPrefixesMatchSpecification(specification, instruction) <==>
            var prefixes := instruction.GetLegacyPrefixes();
            && MeetsUsage(specification.rexWPrefix, prefixes.GetRex().w)
            && (prefixes.GetRex().w ||
                MeetsUsage(specification.operandSizeOverridePrefix, prefixes.operandSizeOverride))
            && MeetsMandatoryLegacy(specification, instruction)
  {
  }

  // An ignored length is free here.
  predicate MatchesLength(size: VexVectorSize, length: bv32) {
    size == VectorSizeIsIgnored || length == DemandedLength(size)
  }

  lemma {:induction false} VexMatches(specification: VexPrefixSpecification, vex: VexFields)
    ensures specification.vectorSize != VectorSize512Bit ==>
              (VexPrefixMatchesSpecification(specification, vex) == Matches <==>
               && MeetsMap(specification, vex.mandatoryPrefix, vex.mapSelect)
               && MeetsWUsage(specification.vexWUsage, vex.w)
               && MatchesLength(specification.vectorSize, if vex.use256BitVectorLength then 1 else 0))
    ensures VexPrefixMatchesSpecification(specification, vex) == Fatal <==>
            && specification.vectorSize == VectorSize512Bit
            && MeetsMap(specification, vex.mandatoryPrefix, vex.mapSelect)
            && MeetsWUsage(specification.vexWUsage, vex.w)
  {
  }

  lemma {:induction false} EvexMatches(specification: VexPrefixSpecification, evex: EvexFields)
    ensures EvexPrefixMatchesSpecification(specification, evex) <==>
            && MeetsMap(specification, evex.mandatoryPrefix, evex.mapSelect)
            && MeetsWUsage(specification.vexWUsage, evex.w)
            && (MatchesLength(specification.vectorSize, evex.vectorLengthOrRounding) ||
                (evex.broadcastOrControl && EvexBEnablesStaticRoundingControl in specification.evexBInterpretations))
  {
  }

  // An instruction is found by its prefixes and its opcode exactly when its prefixes
  // are of the kind of the specification and meet its demands.
  lemma {:induction false} PrefixesAndOpcodeMatch(specification: EncodingSpecification, instruction: DecodedInstruction)
    ensures PrefixesAndOpcodeMatchSpecification(specification, instruction) == Matches <==>
            && (instruction.opcode == specification.opcode || MatchesWithOperand(specification, instruction.opcode))
            && match specification.prefix {
                 case VexSpecification(vex) =>
                   || (vex.prefixType == VexType && instruction.prefix.Vex? &&
                       VexPrefixMatchesSpecification(vex, instruction.prefix.vex) == Matches)
                   || (vex.prefixType == EvexType && instruction.prefix.Evex? &&
                       EvexPrefixMatchesSpecification(vex, instruction.prefix.evex))
                 case _ =>
                   (instruction.prefix.NoPrefix? || instruction.prefix.Legacy?) &&
                   LegacyPrefixesMatchSpecification(specification.GetLegacyPrefixes(), instruction)
               }
  {
    MaskedBits(instruction.opcode.b0);
  }

  predicate MatchesWithOperand(specification: EncodingSpecification, opcode: Opcode) {
    specification.operandInOpcode != NoOperandInOpcode &&
    specification.opcode == opcode.(b0 := opcode.b0 - opcode.b0 % 8)
  }

  // ---- The emitted bytes ----------------------------------------------------

  predicate HasRexW(bytes: seq<bv8>) {
    exists i :: 0 <= i < |bytes| && IsRexByte(bytes[i]) && bytes[i] & 8 != 0
  }

  lemma RexByteBits(rex: Rex)
    ensures IsRexByte(RexByte(rex)) && (RexByte(rex) & 8 != 0 <==> rex.w)
  {
  }

  lemma RexWIsEmitted(rex: Rex, others: seq<bv8>)
    requires forall i :: 0 <= i < |others| ==> !IsRexByte(others[i])
    ensures HasRexW(others + RexBytes(rex)) <==> rex.w
  {
    RexByteBits(rex);
    var bytes := others + RexBytes(rex);
    if rex.w {
      assert bytes[|others|] == RexByte(rex);
    }
  }

  lemma OthersAreNoRex(instruction: DecodedInstruction)
    ensures var others := OverrideBytes(instruction) + LegacyBytesWithoutRex(instruction.GetLegacyPrefixes());
            forall i :: 0 <= i < |others| ==> !IsRexByte(others[i])
  {
  }

  lemma SameRexW(first: seq<bv8>, second: seq<bv8>)
    requires forall byte :: byte in first <==> byte in second
    ensures HasRexW(first) ==> HasRexW(second)
  {
    if HasRexW(first) {
      var i :| 0 <= i < |first| && IsRexByte(first[i]) && first[i] & 8 != 0;
      var k := OccursAt(second, first[i]);
    }
  }

  lemma {:induction false} EmittedPrefixes(specification: EncodingSpecification, instruction: DecodedInstruction)
    requires specification.prefix.LegacySpecification?
    ensures var bytes, legacy := PrefixBytes(specification, instruction), instruction.GetLegacyPrefixes();
            && (HasRexW(bytes) <==> legacy.GetRex().w)
            && (0x66 in bytes <==> legacy.operandSizeOverride)
            && (0x67 in bytes <==> instruction.addressSizeOverride)
            && (0xf0 in bytes <==> legacy.lockOrRep == LockPrefix)
            && (0xf2 in bytes <==> legacy.lockOrRep == RepnePrefix)
            && (0xf3 in bytes <==> legacy.lockOrRep == RepPrefix)
  {
    var legacy := instruction.GetLegacyPrefixes();
    var bytes := PrefixBytes(specification, instruction);
    ConventionalIsPermutation(specification, instruction);
    SameBytes(bytes, ConventionalPrefixBytes(instruction));
    OthersAreNoRex(instruction);
    RexWIsEmitted(legacy.GetRex(), OverrideBytes(instruction) + LegacyBytesWithoutRex(legacy));
    SameRexW(bytes, ConventionalPrefixBytes(instruction));
    SameRexW(ConventionalPrefixBytes(instruction), bytes);
    MembersOfPrefixes(instruction);
  }

  lemma MembersOfPrefixes(instruction: DecodedInstruction)
    ensures var bytes, legacy := ConventionalPrefixBytes(instruction), instruction.GetLegacyPrefixes();
            && (0x66 in bytes <==> legacy.operandSizeOverride)
            && (0x67 in bytes <==> instruction.addressSizeOverride)
            && (0xf0 in bytes <==> legacy.lockOrRep == LockPrefix)
            && (0xf2 in bytes <==> legacy.lockOrRep == RepnePrefix)
            && (0xf3 in bytes <==> legacy.lockOrRep == RepPrefix)
  {
    MembersOfOverrides(instruction);
    MembersOfLegacy(instruction.GetLegacyPrefixes());
    MembersOfRex(instruction.GetLegacyPrefixes().GetRex());
  }

  lemma MembersOfOverrides(instruction: DecodedInstruction)
    ensures var bytes := OverrideBytes(instruction);
            && (0x67 in bytes <==> instruction.addressSizeOverride)
            && forall byte :: byte in bytes ==> IsSegmentByte(byte) || byte == 0x67
  {
  }

  lemma MembersOfLegacy(legacy: LegacyFields)
    ensures var bytes := LegacyBytesWithoutRex(legacy);
            && (0x66 in bytes <==> legacy.operandSizeOverride)
            && (0xf0 in bytes <==> legacy.lockOrRep == LockPrefix)
            && (0xf2 in bytes <==> legacy.lockOrRep == RepnePrefix)
            && (0xf3 in bytes <==> legacy.lockOrRep == RepPrefix)
            && 0x67 !in bytes
  {
  }

  lemma MembersOfRex(rex: Rex)
    ensures forall byte :: byte in RexBytes(rex) ==> IsRexByte(byte)
  {
    RexByteBits(rex);
  }

  // The bytes of an accepted legacy instruction start with prefixes that are there
  // when they are required and are not when they are not permitted.
  lemma {:induction false} LegacyBytesMeetDemands(specification: EncodingSpecification, instruction: DecodedInstruction)
    requires specification.prefix.LegacySpecification? && EvexBInterpretationsAreAllowed(specification)
    requires Validate(specification, instruction).Ok?
    ensures var bytes, legacy := PrefixBytes(specification, instruction), specification.prefix.legacy;
            && bytes <= EncodedBytes(specification, instruction)
            && MeetsUsage(legacy.operandSizeOverridePrefix, 0x66 in bytes)
            && MeetsUsage(legacy.rexWPrefix, HasRexW(bytes))
            && (legacy.hasMandatoryRepePrefix ==> 0xf3 in bytes)
            && (legacy.hasMandatoryRepnePrefix ==> 0xf2 in bytes)
            && (legacy.hasMandatoryAddressSizeOverridePrefix ==> 0x67 in bytes)
  {
    EmittedPrefixes(specification, instruction);
    AcceptedExactly(specification, instruction);
  }

  function MapNumber(mapSelect: MapSelect): bv8 {
    match mapSelect
    case Map0F => 1
    case Map0F38 => 2
    case Map0F3A => 3
    case ReservedMap(number) => number
    case UndefinedOperandMap => 0
  }

  function PrefixNumber(prefix: MandatoryPrefix): bv8 {
    match prefix
    case NoMandatoryPrefix => 0
    case MandatoryOperandSizeOverride => 1
    case MandatoryRepe => 2
    case MandatoryRepne => 3
  }

  // The two-byte form stands for the map 0F and a clear bit W.
  predicate VexBytesMeet(specification: VexPrefixSpecification, bytes: seq<bv8>) {
    && 2 <= |bytes| <= 3
    && (if |bytes| == 2
        then bytes[0] == 0xc5 && specification.mapSelect == Map0F && specification.vexWUsage != VexWIsOne
        else
          && bytes[0] == 0xc4 && bytes[1] & 0x1f == MapNumber(specification.mapSelect) & 0x1f
          && MeetsWUsage(specification.vexWUsage, bytes[2] & 0x80 != 0))
    && var last := bytes[|bytes| - 1];
       && last & 3 == PrefixNumber(specification.mandatoryPrefix)
       && (last & 4 != 0 <==> specification.vectorSize in {VectorSizeBitIsOne, VectorSize256Bit})
       && (specification.vexOperandUsage == VexOperandIsNotUsed ==> (last >> 3) & 0x0f == 0x0f)
  }

  predicate EvexBytesMeet(specification: VexPrefixSpecification, bytes: seq<bv8>) {
    && |bytes| == 4 && bytes[0] == 0x62
    && bytes[1] & 0x0c == 0 && bytes[1] & 3 == MapNumber(specification.mapSelect) & 3
    && MeetsWUsage(specification.vexWUsage, bytes[2] & 0x80 != 0)
    && bytes[2] & 4 != 0 && bytes[2] & 3 == PrefixNumber(specification.mandatoryPrefix)
    && (specification.vexOperandUsage == VexOperandIsNotUsed ==> (bytes[2] >> 3) & 0x0f == 0x0f)
    && (bytes[3] >> 5) & 3 == LowByte(DemandedLength(specification.vectorSize))
    && (bytes[3] & 0x80 != 0 ==> specification.maskingOperation == EvexMaskingMergingAndZeroing)
    && (specification.opmaskUsage == EvexOpmaskIsNotUsed ==> bytes[3] & 7 == 0)
  }

  lemma OperandByteBits(high: bool, operand: bv32, use256: bool, prefix: MandatoryPrefix)
    ensures var byte := VexOperandByte(high, operand, use256, prefix);
            && (byte & 0x80 != 0 <==> high) && (byte & 4 != 0 <==> use256) && byte & 3 == PrefixNumber(prefix)
            && (operand == 15 ==> (byte >> 3) & 0x0f == 0x0f)
  {
  }

  lemma MapByteBits(vex: VexFields)
    ensures VexMapByte(vex) & 0x1f == MapNumber(vex.mapSelect) & 0x1f
  {
  }

  lemma EvexByteBits(evex: EvexFields, operand: bv32)
    ensures var byte := EvexMapByte(evex); byte & 0x0c == 0 && byte & 3 == MapNumber(evex.mapSelect) & 3
    ensures var byte := EvexOperandByte(evex, operand);
            && (byte & 0x80 != 0 <==> evex.w) && byte & 4 != 0 && byte & 3 == PrefixNumber(evex.mandatoryPrefix)
            && (operand == 31 ==> (byte >> 3) & 0x0f == 0x0f)
  {
  }

  lemma EvexMaskBits(evex: EvexFields)
    ensures var byte := EvexMaskByte(evex);
            && (evex.vectorLengthOrRounding <= 3 ==> (byte >> 5) & 3 == LowByte(evex.vectorLengthOrRounding))
            && (byte & 0x80 != 0 <==> evex.z) && (evex.opmaskRegister == 0 ==> byte & 7 == 0)
  {
  }

  // The same of VEX and EVEX: the escape byte, the map, W, the mandatory prefix, the
  // vector length, and the mask are those of the specification, and an operand that is
  // not used has all its bits set.
  lemma {:induction false} VexBytesMeetDemands(specification: EncodingSpecification, instruction: DecodedInstruction)
    requires specification.prefix.VexSpecification? && EvexBInterpretationsAreAllowed(specification)
    requires Validate(specification, instruction).Ok?
    ensures var vex, bytes := specification.prefix.vex, EncodingSchemeBytes(specification, instruction);
            if vex.prefixType == VexType then VexBytesMeet(vex, bytes) else EvexBytesMeet(vex, bytes)
  {
    AcceptedExactly(specification, instruction);
    var vex := specification.prefix.vex;
    if vex.prefixType == VexType {
      VexBytesMeetSpecification(vex, instruction);
    } else {
      EvexBytesMeetSpecification(vex, instruction);
    }
  }

  lemma {:induction false} VexBytesMeetSpecification(specification: VexPrefixSpecification, instruction: DecodedInstruction)
    requires MeetsVex(specification, instruction)
    ensures VexBytesMeet(specification, VexPrefixBytes(specification, instruction.prefix.vex))
  {
    var vex := instruction.prefix.vex;
    var operand := InvertedVexOperand(specification, vex);
    MapByteBits(vex);
    OperandByteBits(vex.notR, operand, vex.use256BitVectorLength, vex.mandatoryPrefix);
    OperandByteBits(vex.w, operand, vex.use256BitVectorLength, vex.mandatoryPrefix);
  }

  lemma {:induction false} EvexBytesMeetSpecification(specification: VexPrefixSpecification, instruction: DecodedInstruction)
    requires MeetsEvex(specification, instruction)
    ensures EvexBytesMeet(specification, EvexPrefixBytes(specification, instruction.prefix.evex))
  {
    var evex := instruction.prefix.evex;
    EvexByteBits(evex, InvertedEvexOperand(specification, evex));
    EvexMaskBits(evex);
  }
}