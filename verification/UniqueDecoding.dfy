// Decoding with one specification: exactly when an encoded instruction is read
// back, and that no encoding is a prefix of another one.
module UniqueDecoding {
  import opened Wrappers
  import opened Opcodes
  import opened X86Protos
  import opened InstructionEncoding
  import opened InstructionEncoder
  import opened Architecture
  import opened Indices
  import opened InstructionParser
  import opened MatcherAgreement
  import opened RoundTripPrefixes
  import opened RoundTripOpcode
  import opened RoundTripOperands
  import opened RoundTrip

  // The database that holds nothing but this specification.
  function OneInstruction(specification: EncodingSpecification): Database {
    [NO_INSTRUCTION.(vendorSyntax := [InstructionFormat("", [])], x86EncodingSpecification := Some(specification))]
  }

  // The matcher supports the specification, an opcode extension fits its field,
  // and the opcode of a VEX instruction names the map of its prefix.
  predicate IsReadable(specification: EncodingSpecification) {
    && !specification.modrmUsage.RegIgnored?
    && (specification.modrmUsage.OpcodeExtensionInModRm? ==> specification.modrmOpcodeExtension <= 7)
    && (specification.prefix.VexSpecification? ==>
          specification.opcode == OpcodeWithMap(specification.prefix.vex.mapSelect, specification.opcode.b0))
  }

  // What the round trip asks for.
  predicate IsEncodable(specification: EncodingSpecification, instruction: DecodedInstruction) {
    && EvexBInterpretationsAreAllowed(specification)
    && Validate(specification, instruction).Ok?
    && HasReadablePrefix(specification, instruction)
  }

  lemma OneInstructionIsWellFormed(
    specification: EncodingSpecification, instruction: DecodedInstruction
  )
    requires IsEncodable(specification, instruction) && IsReadable(specification)
    ensures IsWellFormedDatabase(OneInstruction(specification))
  {
  }

  // ---- Lookups in the one-instruction database ------------------------------

  lemma LookupInOne(specification: EncodingSpecification, decoded: DecodedInstruction, checkModRm: bool)
    requires IsWellFormedDatabase(OneInstruction(specification))
    requires InstructionMatches(OneInstruction(specification)[0], decoded, checkModRm).Matches?
    ensures FindSpecification(OneInstruction(specification), decoded, checkModRm) == Some(specification)
  {
    var db := OneInstruction(specification);
    IndexAgreesWithScanEverywhere(db, decoded, checkModRm);
    var flags := MatchFlags(db, decoded, checkModRm);
    IndicesOfIncreasing(flags);
    assert flags[0];
    assert 0 in ScanAll(db, decoded, checkModRm);
  }

  // The parsed opcode satisfies the matcher, like the emitted one.
  lemma ParsedOpcodeMatches(
    specification: EncodingSpecification, instruction: DecodedInstruction
  )
    requires ValidateOpcode(specification, instruction).Ok? && IsReadable(specification)
    requires !specification.prefix.NoPrefixSpecification?
    ensures OpcodeMatchesSpecification(specification, ParsedOpcode(specification, instruction))
    ensures !specification.prefix.VexSpecification? ==>
              ParsedOpcode(specification, instruction).DropLastByte() == specification.opcode.DropLastByte()
  {
    FilledOpcodeMatches(specification, instruction);
  }

  lemma {:induction false} ParsedPrefixMatches(
    specification: EncodingSpecification, instruction: DecodedInstruction
  )
    requires IsEncodable(specification, instruction) && IsReadable(specification)
    ensures PrefixesAndOpcodeMatchSpecification(specification, WithOpcode(specification, instruction)).Matches?
  {
    ParsedOpcodeMatches(specification, instruction);
    match specification.prefix
    case VexSpecification(vex) =>
      if vex.prefixType.VexType? {
        VexValidatorIsMatcher(vex, instruction);
      } else {
        EvexValidatorIsMatcher(vex, instruction);
        VectorLengthFits(vex, instruction.prefix.evex.vectorLengthOrRounding);
      }
    case LegacySpecification(legacy) =>
      LegacyValidatorIsMatcher(legacy, instruction);
  }

  lemma VectorLengthFits(specification: VexPrefixSpecification, bits: bv32)
    requires ValidateVectorSizeBits(specification.vectorSize, bits, EvexType).Ok?
    ensures bits & 3 == bits
  {
  }

  lemma {:induction false} OpcodeIsFoundInOne(
    specification: EncodingSpecification, instruction: DecodedInstruction, rest: seq<bv8>
  )
    requires IsEncodable(specification, instruction) && IsReadable(specification)
    requires IsWellFormedDatabase(OneInstruction(specification))
    ensures OpcodeIsFound(OneInstruction(specification), specification, instruction, rest)
  {
    var db := OneInstruction(specification);
    if !specification.prefix.VexSpecification? {
      var opcode := ParsedOpcode(specification, instruction);
      ParsedOpcodeMatches(specification, instruction);
      ParsedPrefixMatches(specification, instruction);
      LookupInOne(specification, WithOpcode(specification, instruction), false);
      assert IsListed(db, WithPrefixes(specification, instruction))(opcode);
      assert forall prefix :: IsOpcodePrefix(db)(prefix) <==> prefix in LegacyPrefixesOf(db, 0);
      NotItsOwnPrefix(opcode);
      NothingFollowsNoPrefix(IsListed(db, WithPrefixes(specification, instruction)), IsOpcodePrefix(db), opcode,
                             AfterOpcode(specification, instruction, rest));
    }
  }

  lemma NotItsOwnPrefix(opcode: Opcode)
    ensures opcode !in ProperOpcodePrefixes(opcode)
  {
  }

  lemma {:induction false} LayoutIsFoundInOne(specification: EncodingSpecification, instruction: DecodedInstruction)
    requires IsEncodable(specification, instruction) && IsReadable(specification)
    requires IsWellFormedDatabase(OneInstruction(specification))
    ensures LayoutIsFound(OneInstruction(specification), specification, instruction)
  {
    var withOpcode := WithOpcode(specification, instruction);
    ParsedPrefixMatches(specification, instruction);
    LookupInOne(specification, withOpcode, false);
    if !specification.modrmUsage.NoModRmUsage? {
      ParsedModRmMatches(specification, instruction, withOpcode);
      LookupInOne(specification, WithAddressing(specification, instruction, withOpcode), true);
    }
  }

  lemma {:induction false} ParsedModRmMatches(
    specification: EncodingSpecification, encoded: DecodedInstruction, instruction: DecodedInstruction
  )
    requires ValidateModRm(specification, encoded).Ok? && IsReadable(specification)
    requires !specification.modrmUsage.NoModRmUsage?
    requires PrefixesAndOpcodeMatchSpecification(specification, instruction).Matches?
    ensures var withModRm := WithAddressing(specification, encoded, instruction);
            && PrefixesAndOpcodeMatchSpecification(specification, withModRm).Matches?
            && ModRmUsageMatchesSpecification(specification, withModRm, InstructionFormat("", [])).Matches?
  {
    if specification.modrmUsage.OpcodeExtensionInModRm? {
      LowBitsOfExtension(encoded.GetModRm().registerOperand);
    }
    MatcherIgnoresAddressing(specification, instruction, WithAddressing(specification, encoded, instruction));
  }

  lemma MatcherIgnoresAddressing(
    specification: EncodingSpecification, first: DecodedInstruction, second: DecodedInstruction
  )
    requires first.prefix == second.prefix && first.opcode == second.opcode
    requires first.addressSizeOverride == second.addressSizeOverride
    ensures PrefixesAndOpcodeMatchSpecification(specification, first) ==
            PrefixesAndOpcodeMatchSpecification(specification, second)
  {
  }

  lemma LowBitsOfExtension(value: bv32)
    requires value <= 7
    ensures value & 7 == value
  {
  }

  // ---- The round trip -------------------------------------------------------

  // With an escape out of range the parser takes more bytes for the address than
  // the encoder emitted.
  lemma {:induction false} AddressingOverrun(modrm: ModRm, sib: Sib, rest: seq<bv8>)
    requires !EscapesAreInRange(modrm, sib)
    ensures match ReadAddressing(AddressingBytes(modrm, sib) + rest)
            case Success((_, _, left)) => |left| < |rest|
            case Failure(_) => true
  {
    ModRmByteRoundTrip(modrm, 0);
    var bytes := AddressingBytes(modrm, sib) + rest;
    assert bytes[0] == ModRmByte(modrm);
    if ModRmRequiresSib(modrm) {
      assert bytes[1] == SibByte(sib);
      SibByteRoundTrip(sib);
    }
  }

  lemma OperandsHaveFixedSize(
    specification: EncodingSpecification, first: DecodedInstruction, second: DecodedInstruction,
    longer: seq<bv8>, shorter: seq<bv8>
  )
    requires |shorter| < |longer|
    ensures match (ReadOperands(specification, first, longer), ReadOperands(specification, second, shorter))
            case (Success((_, afterLonger)), Success((_, afterShorter))) => |afterShorter| < |afterLonger|
            case _ => true
  {
    ValuesHaveFixedSize(specification.immediateValueBytes, longer, shorter);
  }

  lemma {:induction false} ValuesHaveFixedSize(sizes: seq<nat>, longer: seq<bv8>, shorter: seq<bv8>)
    requires |shorter| < |longer|
    ensures match (ReadValues(sizes, longer), ReadValues(sizes, shorter))
            case (Success((_, afterLonger)), Success((_, afterShorter))) => |afterShorter| < |afterLonger|
            case _ => true
  {
    if sizes != [] && sizes[0] <= |shorter| {
      ValuesHaveFixedSize(sizes[1..], longer[sizes[0]..], shorter[sizes[0]..]);
    }
  }

  // What decoding with one specification gives.
  lemma {:induction false} ReadWithSpecification(
    specification: EncodingSpecification, instruction: DecodedInstruction, rest: seq<bv8>
  )
    requires IsEncodable(specification, instruction) && IsReadable(specification)
    requires AddressingSurvives(specification, instruction)
    ensures IsWellFormedDatabase(OneInstruction(specification))
    ensures ReadInstruction(OneInstruction(specification), EncodedBytes(specification, instruction) + rest) ==
            Success((Parsed(specification, instruction), rest))
  {
    OneInstructionIsWellFormed(specification, instruction);
    OpcodeIsFoundInOne(specification, instruction, rest);
    LayoutIsFoundInOne(specification, instruction);
    DatabaseRoundTrip(OneInstruction(specification), specification, instruction, rest);
  }

  // It is the normal form of the instruction, and leaves the bytes that follow it,
  // exactly when the escapes of the address are in range and the parser keeps the
  // prefix.
  lemma {:induction false} RoundTripWithSpecification(
    specification: EncodingSpecification, instruction: DecodedInstruction, rest: seq<bv8>
  )
    requires IsEncodable(specification, instruction) && IsReadable(specification)
    ensures IsWellFormedDatabase(OneInstruction(specification))
    ensures ReadInstruction(OneInstruction(specification), EncodedBytes(specification, instruction) + rest) ==
            Success((Normalize(specification, instruction), rest))
            <==> AddressingSurvives(specification, instruction) && PrefixSurvives(specification, instruction)
  {
    if AddressingSurvives(specification, instruction) {
      ReadWithSpecification(specification, instruction, rest);
      ParsedIsNormal(specification, instruction);
    } else {
      FramingIsLost(specification, instruction, rest);
    }
  }

  // The parser fails or stops in the middle of what follows the instruction.
  lemma {:induction false} FramingIsLost(
    specification: EncodingSpecification, instruction: DecodedInstruction, rest: seq<bv8>
  )
    requires IsEncodable(specification, instruction) && IsReadable(specification)
    requires !AddressingSurvives(specification, instruction)
    ensures IsWellFormedDatabase(OneInstruction(specification))
    ensures match ReadInstruction(OneInstruction(specification), EncodedBytes(specification, instruction) + rest)
            case Success((_, left)) => |left| < |rest|
            case Failure(_) => true
  {
    OneInstructionIsWellFormed(specification, instruction);
    OpcodeIsFoundInOne(specification, instruction, rest);
    LayoutIsFoundInOne(specification, instruction);
    ReadUntilOpcode(OneInstruction(specification), specification, instruction, rest);
    AddressIsOverrun(specification, instruction, rest);
  }

  // From the ModR/M byte on, the parser takes more than there is.
  lemma {:induction false} AddressIsOverrun(
    specification: EncodingSpecification, instruction: DecodedInstruction, rest: seq<bv8>
  )
    requires IsWellFormedDatabase(OneInstruction(specification)) && LayoutIsFound(OneInstruction(specification), specification, instruction)
    requires ValidateImmediateValues(specification, instruction).Ok? && !AddressingSurvives(specification, instruction)
    ensures match ReadAfterOpcode(OneInstruction(specification), WithOpcode(specification, instruction),
                                  AfterOpcode(specification, instruction, rest))
            case Success((_, left)) => |left| < |rest|
            case Failure(_) => true
  {
    var db := OneInstruction(specification);
    var withOpcode := WithOpcode(specification, instruction);
    var afterModRm := AfterModRm(specification, instruction, rest);
    AddressingOverrun(instruction.GetModRm(), instruction.GetSib(), afterModRm);
    var addressing := ReadAddressing(AfterOpcode(specification, instruction, rest));
    if addressing.Success? {
      var withModRm := withOpcode.(optionalModRm := Some(addressing.value.0), optionalSib := addressing.value.1);
      var located := Relocate(db, specification, withModRm);
      FoundInOne(specification, withModRm, true);
      OperandsRoundTrip(specification, instruction, withOpcode, rest);
      OperandsHaveFixedSize(specification, withOpcode, withModRm, afterModRm, addressing.value.2);
    }
  }

  lemma FoundInOne(specification: EncodingSpecification, decoded: DecodedInstruction, checkModRm: bool)
    requires IsWellFormedDatabase(OneInstruction(specification))
    ensures var found := FindSpecification(OneInstruction(specification), decoded, checkModRm);
            found.Some? ==> found.value == specification
  {
    var db := OneInstruction(specification);
    var withoutOperand := decoded.(opcode := decoded.opcode.WithoutOperandBits());
    FirstIsOfDatabase(specification, InstructionIndices(db, withoutOperand, checkModRm));
  }

  lemma {:induction false} FirstIsOfDatabase(specification: EncodingSpecification, indices: seq<nat>)
    requires IsWellFormedDatabase(OneInstruction(specification))
    ensures var found := FirstWithOperandInOpcode(OneInstruction(specification), indices);
            found.Some? ==> found.value == specification
  {
    if indices != [] {
      FirstIsOfDatabase(specification, indices[1..]);
    }
  }

  // The two ways in which the round trip fails do occur: an index register number
  // above 7 in modrm.rm, and an EVEX prefix whose bits R and R' differ.
  const INDIRECT_SPECIFICATION: EncodingSpecification :=
    EncodingSpecification(
      OneByte(0x03), NoOperandInOpcode, FullModRm, 0,
      LegacySpecification(LegacyPrefixSpecification(PrefixIsIgnored, false, false, PrefixIsIgnored, false)), [], 0)

  lemma {:induction false} RegisterTwelveIsNotReadBack(rest: seq<bv8>)
    ensures var specification := INDIRECT_SPECIFICATION;
            var instruction :=
              DEFAULT_INSTRUCTION.(optionalModRm := Some(ModRm(Indirect, 0, 12, 0)));
            && IsEncodable(specification, instruction) && IsReadable(specification)
            && IsWellFormedDatabase(OneInstruction(specification))
            && ReadInstruction(OneInstruction(specification), EncodedBytes(specification, instruction) + rest) !=
               Success((Normalize(specification, instruction), rest))
  {
    var instruction := DEFAULT_INSTRUCTION.(optionalModRm := Some(ModRm(Indirect, 0, 12, 0)));
    assert OpcodeBytes(INDIRECT_SPECIFICATION, instruction)[0] == 0x03;
    assert !EscapesAreInRange(instruction.GetModRm(), instruction.GetSib());
    RoundTripWithSpecification(INDIRECT_SPECIFICATION, instruction, rest);
  }

  const EVEX_SPECIFICATION: EncodingSpecification :=
    EncodingSpecification(
      Opcode(0, 0, 0x0f, 0x58), NoOperandInOpcode, NoModRmUsage, 0,
      VexSpecification(VexPrefixSpecification(
        EvexType, VexOperandIsFirstSourceRegister, VectorSize128Bit, NoMandatoryPrefix, Map0F, VexWIsIgnored,
        false, VSibUnused, [], EvexOpmaskIsOptional, EvexMaskingMergingOnly)), [], 0)

  lemma {:induction false} EvexRBitsAreSwapped(rest: seq<bv8>)
    ensures var specification := EVEX_SPECIFICATION;
            var instruction := DEFAULT_INSTRUCTION.(prefix := Evex(DEFAULT_EVEX.(mapSelect := Map0F, notR := 1)));
            && IsEncodable(specification, instruction) && IsReadable(specification)
            && IsWellFormedDatabase(OneInstruction(specification))
            && ReadInstruction(OneInstruction(specification), EncodedBytes(specification, instruction) + rest) !=
               Success((Normalize(specification, instruction), rest))
  {
    var instruction := DEFAULT_INSTRUCTION.(prefix := Evex(DEFAULT_EVEX.(mapSelect := Map0F, notR := 1)));
    var vex := EVEX_SPECIFICATION.prefix.vex;
    assert ValidateEvexPrefix(vex, instruction).Ok?;
    assert !PrefixSurvives(EVEX_SPECIFICATION, instruction);
    RoundTripWithSpecification(EVEX_SPECIFICATION, instruction, rest);
  }
}
