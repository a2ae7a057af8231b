// The validator of the encoder and the matcher of the parser: what the encoder
// accepts is what the matcher accepts, up to a few named exceptions
// (exegesis/x86/instruction_encoder.cc, exegesis/x86/instruction_encoding.cc).
module MatcherAgreement {
  import opened Opcodes
  import opened X86Protos
  import opened InstructionEncoding
  import opened InstructionEncoder

  // The instruction with the opcode that the encoder emits for it.
  function WithFilledOpcode(specification: EncodingSpecification, instruction: DecodedInstruction): DecodedInstruction {
    instruction.(opcode := RawOpcode(specification, instruction))
  }

  // Prefixes that no check of the validator looks at, but that the matcher does.
  predicate HasForeignPrefix(specification: EncodingSpecification, instruction: DecodedInstruction) {
    match specification.prefix
    case LegacySpecification(_) => instruction.prefix.Evex?
    case NoPrefixSpecification => instruction.prefix.Evex? || instruction.prefix.Vex?
    case VexSpecification(_) => false
  }

  lemma FilledOpcodeMatches(specification: EncodingSpecification, instruction: DecodedInstruction)
    requires ValidateOpcode(specification, instruction).Ok?
    ensures OpcodeMatchesSpecification(specification, RawOpcode(specification, instruction))
  {
  }

  // An instruction that the encoder accepts satisfies the matcher, unless it has
  // a prefix of a kind that the specification does not have.
  lemma ValidatorRefinesMatcher(
    specification: EncodingSpecification, instruction: DecodedInstruction
  )
    requires EvexBInterpretationsAreAllowed(specification) && Validate(specification, instruction).Ok?
    ensures PrefixesAndOpcodeMatchSpecification(specification, WithFilledOpcode(specification, instruction)) ==
            if HasForeignPrefix(specification, instruction) then Mismatch else Matches
  {
    FilledOpcodeMatches(specification, instruction);
    match specification.prefix
    case VexSpecification(vex) =>
      if vex.prefixType.VexType? {
        VexValidatorIsMatcher(vex, instruction);
      } else {
        EvexValidatorIsMatcher(vex, instruction);
      }
    case LegacySpecification(legacy) => LegacyValidatorIsMatcher(legacy, instruction);
    case NoPrefixSpecification =>
  }

  // What is left of the ModR/M test is the addressing mode of the operand.
  lemma ValidatorRefinesModRmMatcher(
    specification: EncodingSpecification, instruction: DecodedInstruction, format: InstructionFormat
  )
    requires EvexBInterpretationsAreAllowed(specification) && Validate(specification, instruction).Ok?
    ensures ModRmUsageMatchesSpecification(specification, WithFilledOpcode(specification, instruction), format) ==
            match specification.modrmUsage
            case NoModRmUsage => Matches
            case RegIgnored => Fatal
            case _ => AddressingModeMatchesSpecification(format, instruction)
  {
    assert ValidateModRm(specification, instruction).Ok?;
    AddressingModeIgnoresOpcode(format, instruction, RawOpcode(specification, instruction));
  }

  lemma AddressingModeIgnoresOpcode(
    format: InstructionFormat, instruction: DecodedInstruction, opcode: Opcode
  )
    ensures AddressingModeMatchesSpecification(format, instruction.(opcode := opcode)) ==
            AddressingModeMatchesSpecification(format, instruction)
  {
  }

  // ---- The exact relation, one kind of prefix at a time ---------------------

  // The matcher does not look at the register operand, at the bit of an ignored
  // vector size, and at the map when the specification has none.
  lemma VexValidatorIsMatcher(specification: VexPrefixSpecification, instruction: DecodedInstruction)
    requires instruction.prefix.Vex? && specification.prefixType.VexType?
    ensures ValidateVexPrefix(specification, instruction).Ok? <==>
            var vex := instruction.prefix.vex;
            && VexPrefixMatchesSpecification(specification, vex).Matches?
            && ValidateVexRegisterOperandBits(specification, vex.invertedRegisterOperand).Ok?
            && (specification.vectorSize.VectorSizeIsIgnored? ==> !vex.use256BitVectorLength)
            && !vex.mapSelect.UndefinedOperandMap?
  {
  }

  // Under static rounding control the matcher ignores the vector size, while the
  // validator reads the rounding mode as a vector length.
  lemma EvexValidatorIsMatcher(
    specification: VexPrefixSpecification, instruction: DecodedInstruction
  )
    requires instruction.prefix.Evex? && specification.prefixType.EvexType?
    requires AllowedEvexBInterpretations(specification.evexBInterpretations)
    ensures ValidateEvexPrefix(specification, instruction).Ok? <==>
            var evex := instruction.prefix.evex;
            && EvexPrefixMatchesSpecification(specification, evex)
            && ValidateVexRegisterOperandBits(specification, evex.invertedRegisterOperand).Ok?
            && ValidateVectorSizeBits(specification.vectorSize, evex.vectorLengthOrRounding, EvexType).Ok?
            && !evex.mapSelect.UndefinedOperandMap?
            && ValidateEvexBBit(specification, instruction).Ok?
            && ValidateEvexOpmask(specification, instruction).Ok?
  {
  }

  // The matcher does not look at the operand size override under REX.W, and the
  // validator does not look for EVEX data.
  lemma LegacyValidatorIsMatcher(
    specification: LegacyPrefixSpecification, instruction: DecodedInstruction
  )
    ensures ValidateLegacyPrefixes(specification, instruction).Ok? <==>
            var prefixes := instruction.GetLegacyPrefixes();
            && !instruction.prefix.Vex?
            && LegacyPrefixesMatchSpecification(specification, instruction)
            && (prefixes.GetRex().w ==>
                  PrefixMatchesSpecification(specification.operandSizeOverridePrefix, prefixes.operandSizeOverride))
  {
  }

  // ---- Where they differ ----------------------------------------------------

  const ANY_LEGACY_SPECIFICATION: EncodingSpecification :=
    EncodingSpecification(
      OneByte(0x90), NoOperandInOpcode, NoModRmUsage, 0,
      LegacySpecification(LegacyPrefixSpecification(PrefixIsIgnored, false, false, PrefixIsIgnored, false)), [], 0)

  // The validator accepts EVEX data under a legacy specification.
  lemma EvexPassesAsLegacy()
    ensures var instruction := DEFAULT_INSTRUCTION.(prefix := Evex(DEFAULT_EVEX));
            && EvexBInterpretationsAreAllowed(ANY_LEGACY_SPECIFICATION)
            && Validate(ANY_LEGACY_SPECIFICATION, instruction).Ok?
            && PrefixesAndOpcodeMatchSpecification(
                 ANY_LEGACY_SPECIFICATION, WithFilledOpcode(ANY_LEGACY_SPECIFICATION, instruction)).Mismatch?
  {
    var instruction := DEFAULT_INSTRUCTION.(prefix := Evex(DEFAULT_EVEX));
    ValidatorRefinesMatcher(ANY_LEGACY_SPECIFICATION, instruction);
  }

  const ROUNDING_PREFIX: VexPrefixSpecification :=
    VexPrefixSpecification(
      EvexType, VexOperandIsFirstSourceRegister, VectorSize512Bit, NoMandatoryPrefix, Map0F, VexWIsIgnored, false,
      VSibUnused, [EvexBEnablesStaticRoundingControl], EvexOpmaskIsOptional, EvexMaskingMergingOnly)

  // With static rounding the two bits are a rounding mode; the validator still wants
  // the vector length in them.
  lemma RoundingModeIsRejected()
    ensures var evex := DEFAULT_EVEX.(mapSelect := Map0F, broadcastOrControl := true, vectorLengthOrRounding := 1);
            && EvexPrefixMatchesSpecification(ROUNDING_PREFIX, evex)
            && ValidateEvexPrefix(ROUNDING_PREFIX, DEFAULT_INSTRUCTION.(prefix := Evex(evex))).InvalidArgument?
  {
    assert ROUNDING_PREFIX.evexBInterpretations[0] == EvexBEnablesStaticRoundingControl;
  }
}
