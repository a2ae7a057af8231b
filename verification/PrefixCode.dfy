// The encodings under one specification form a prefix code, and the normal form
// of an instruction stands for all instructions with the same encoding.
module PrefixCode {
  import opened Bits
  import opened Sequences
  import opened Wrappers
  import opened Opcodes
  import opened X86Protos
  import opened InstructionEncoding
  import opened InstructionEncoder
  import opened Architecture
  import opened InstructionParser
  import opened RoundTripPrefixes
  import opened RoundTripOperands
  import opened RoundTrip
  import opened MatcherAgreement
  import opened UniqueDecoding

  // ---- The normal form has the same encoding --------------------------------

  lemma {:induction false} LowBitsTwice(value: bv32)
    ensures GetBitRange(GetBitRange(value, 0, 4), 0, 4) == GetBitRange(value, 0, 4)
    ensures LowByte(value & 0xff) == LowByte(value)
    ensures ((value & 7) & 7) == value & 7 && ((value & 3) & 3) == value & 3
    ensures GetBitRange(value & 3, 0, 2) == GetBitRange(value, 0, 2)
    ensures GetBitRange(value & 7, 0, 3) == GetBitRange(value, 0, 3)
    ensures IsNthBitSet(value & 3, 0) == IsNthBitSet(value, 0)
    ensures IsNthBitSet(value & 3, 1) == IsNthBitSet(value, 1)
  {
  }

  lemma {:induction false} HighBitIsKept(operand: bv32, high: bool)
    ensures var value := GetBitRange(operand, 0, 4) | (Flag(high) << 4);
            GetBitRange(value, 0, 4) == GetBitRange(operand, 0, 4) && IsNthBitSet(value, 4) == high
  {
  }

  lemma {:induction false} NormalVexBytes(specification: VexPrefixSpecification, vex: VexFields)
    ensures VexPrefixBytes(specification, NormalVex(specification, vex)) == VexPrefixBytes(specification, vex)
  {
    var operand := InvertedVexOperand(specification, vex);
    LowBitsTwice(operand);
    FourBits(operand);
    SameOperandByte(vex.notR, GetBitRange(operand, 0, 4), operand, vex);
    SameOperandByte(vex.w, GetBitRange(operand, 0, 4), operand, vex);
  }

  lemma {:induction false} SameOperandByte(high: bool, first: bv32, second: bv32, vex: VexFields)
    requires GetBitRange(first, 0, 4) == GetBitRange(second, 0, 4)
    ensures VexOperandByte(high, first, vex.use256BitVectorLength, vex.mandatoryPrefix) ==
            VexOperandByte(high, second, vex.use256BitVectorLength, vex.mandatoryPrefix)
  {
  }

  lemma {:induction false} NormalEvexBytes(specification: VexPrefixSpecification, evex: EvexFields)
    ensures EvexPrefixBytes(specification, NormalEvex(specification, evex)) == EvexPrefixBytes(specification, evex)
  {
    var normal := NormalEvex(specification, evex);
    HighBitIsKept(InvertedEvexOperand(specification, evex), IsNthBitSet(evex.invertedRegisterOperand, 4));
    LowBitsTwice(evex.notR);
    LowBitsTwice(evex.vectorLengthOrRounding);
    LowBitsTwice(evex.opmaskRegister);
  }

  lemma NormalLegacyBytes(instruction: DecodedInstruction, legacy: LegacyFields)
    requires instruction.prefix == NormalLegacy(legacy)
    ensures LegacyPrefixBytes(instruction.GetLegacyPrefixes()) == LegacyPrefixBytes(legacy)
  {
  }

  lemma {:induction false} NormalDisplacementBytes(size: nat, displacement: bv64)
    requires size == 0 || size == 1 || size == 4
    ensures DisplacementBytes(size, NormalDisplacement(size, displacement)) == DisplacementBytes(size, displacement)
  {
    SignExtend8RoundTrip(Truncate8(displacement));
    SignExtend32RoundTrip(Truncate32(displacement));
  }

  lemma {:induction false} NormalModRmByte(modrm: ModRm, sib: Sib)
    ensures ModRmByte(NormalModRm(modrm, sib)) == ModRmByte(modrm)
    ensures SibByte(NormalSib(sib)) == SibByte(sib)
  {
    ComposeIgnoresHighBits(AddressingModeBits(modrm.addressingMode), modrm.registerOperand, modrm.rmOperand);
    ComposeIgnoresHighBits(sib.scale, sib.index, sib.base);
    AddressingModeRoundTrip(modrm.addressingMode);
  }

  lemma {:induction false} NormalAddressingBytes(modrm: ModRm, sib: Sib)
    requires EscapesAreInRange(modrm, sib)
    ensures var normalSib := if ModRmRequiresSib(modrm) then NormalSib(sib) else Sib(0, 0, 0);
            AddressingBytes(NormalModRm(modrm, sib), normalSib) == AddressingBytes(modrm, sib)
  {
    NormalDisplacementBytes(NumModRmDisplacementBytes(modrm, sib), modrm.addressDisplacement);
    NormalSizes(modrm, sib);
    NormalModRmByte(modrm, sib);
  }

  lemma {:induction false} NormalSizes(modrm: ModRm, sib: Sib)
    requires EscapesAreInRange(modrm, sib)
    ensures var normalSib := if ModRmRequiresSib(modrm) then NormalSib(sib) else Sib(0, 0, 0);
            && ModRmRequiresSib(NormalModRm(modrm, sib)) == ModRmRequiresSib(modrm)
            && NumModRmDisplacementBytes(NormalModRm(modrm, sib), normalSib) == NumModRmDisplacementBytes(modrm, sib)
  {
  }

  lemma ComposeIgnoresHighBits(two: bv32, firstThree: bv32, secondThree: bv32)
    ensures Compose233BitValues(two & 3, firstThree & 7, secondThree & 7) ==
            Compose233BitValues(two, firstThree, secondThree)
  {
    LowBitsTwice(two);
    LowBitsTwice(firstThree);
    LowBitsTwice(secondThree);
  }

  // Encoding the normal form gives the bytes of the instruction.
  lemma {:induction false} NormalFormEncodesTheSame(
    specification: EncodingSpecification, instruction: DecodedInstruction
  )
    requires IsEncodable(specification, instruction) && AddressingSurvives(specification, instruction)
    ensures EncodedBytes(specification, Normalize(specification, instruction)) ==
            EncodedBytes(specification, instruction)
  {
    var normal := Normalize(specification, instruction);
    NormalPrefixBytes(specification, instruction, normal);
    NormalOperandBytes(specification, instruction);
    NormalSuffixBytes(specification, instruction, normal);
    assert PrefixBytes(specification, normal) == PrefixBytes(specification, instruction);
  }

  lemma {:induction false} NormalOperandBytes(specification: EncodingSpecification, instruction: DecodedInstruction)
    requires IsEncodable(specification, instruction) && AddressingSurvives(specification, instruction)
    ensures var normal := Normalize(specification, instruction);
            && OpcodeBytes(specification, normal) == OpcodeBytes(specification, instruction)
            && ModRmBytes(specification, normal) == ModRmBytes(specification, instruction)
            && ImmediateBytes(normal) == ImmediateBytes(instruction)
  {
    if !specification.modrmUsage.NoModRmUsage? {
      NormalAddressingBytes(instruction.GetModRm(), instruction.GetSib());
    }
  }

  lemma {:induction false} NormalPrefixBytes(
    specification: EncodingSpecification, instruction: DecodedInstruction, normal: DecodedInstruction
  )
    requires EvexBInterpretationsAreAllowed(specification) && ValidatePrefix(specification, instruction).Ok?
    requires HasReadablePrefix(specification, instruction)
    requires normal.prefix == NormalPrefix(specification, instruction)
    ensures EncodingSchemeBytes(specification, normal) == EncodingSchemeBytes(specification, instruction)
  {
    match specification.prefix
    case LegacySpecification(_) => NormalLegacyBytes(normal, instruction.GetLegacyPrefixes());
    case VexSpecification(vex) =>
      if instruction.prefix.Vex? {
        NormalVexBytes(vex, instruction.prefix.vex);
      } else {
        NormalEvexBytes(vex, instruction.prefix.evex);
      }
  }

  lemma {:induction false} NormalSuffixBytes(
    specification: EncodingSpecification, instruction: DecodedInstruction, normal: DecodedInstruction
  )
    requires EvexBInterpretationsAreAllowed(specification) && ValidatePrefix(specification, instruction).Ok?
    requires normal.prefix == NormalPrefix(specification, instruction)
    requires !specification.prefix.NoPrefixSpecification?
    ensures VexSuffixBytes(specification, normal) == VexSuffixBytes(specification, instruction)
  {
    LowBitsTwice(instruction.GetVexPrefix().vexSuffixValue);
  }

  // ---- No encoding is a prefix of another one -------------------------------

  // Two valid instructions whose encodings start one stream of bytes are equal up
  // to normalisation, and the same bytes follow them.
  lemma {:induction false} EncodingsArePrefixFree(
    specification: EncodingSpecification, first: DecodedInstruction, second: DecodedInstruction,
    afterFirst: seq<bv8>, afterSecond: seq<bv8>
  )
    requires IsEncodable(specification, first) && AddressingSurvives(specification, first)
    requires IsEncodable(specification, second) && AddressingSurvives(specification, second)
    requires EncodedBytes(specification, first) + afterFirst == EncodedBytes(specification, second) + afterSecond
    ensures afterFirst == afterSecond
    ensures Normalize(specification, first) == Normalize(specification, second)
  {
    EncodedBytesInOrder(specification, first, afterFirst);
    EncodedBytesInOrder(specification, second, afterSecond);
    SamePrefixes(specification, first, second, AfterOpcode(specification, first, afterFirst),
                 AfterOpcode(specification, second, afterSecond));
    SameOpcodes(specification, first, second, AfterOpcode(specification, first, afterFirst),
                AfterOpcode(specification, second, afterSecond));
    SameOperands(specification, first, second, afterFirst, afterSecond);
  }

  lemma {:induction false} SamePrefixes(
    specification: EncodingSpecification, first: DecodedInstruction, second: DecodedInstruction,
    afterFirst: seq<bv8>, afterSecond: seq<bv8>
  )
    requires IsEncodable(specification, first) && IsEncodable(specification, second)
    requires PrefixBytes(specification, first) + (OpcodeBytes(specification, first) + afterFirst) ==
             PrefixBytes(specification, second) + (OpcodeBytes(specification, second) + afterSecond)
    ensures OpcodeBytes(specification, first) + afterFirst == OpcodeBytes(specification, second) + afterSecond
    ensures WithOverrides(first) == WithOverrides(second)
    ensures ParsedPrefix(specification, first) == ParsedPrefix(specification, second)
  {
    OpcodeStartsBytes(specification, first, afterFirst);
    OpcodeStartsBytes(specification, second, afterSecond);
    PrefixesRoundTrip(specification, first, OpcodeBytes(specification, first) + afterFirst);
    PrefixesRoundTrip(specification, second, OpcodeBytes(specification, second) + afterSecond);
    var a := WithOverrides(first).(prefix := ParsedPrefix(specification, first));
    var b := WithOverrides(second).(prefix := ParsedPrefix(specification, second));
    assert a == b;
    assert WithOverrides(first) == a.(prefix := NoPrefix);
  }

  lemma SameOpcodes(
    specification: EncodingSpecification, first: DecodedInstruction, second: DecodedInstruction,
    afterFirst: seq<bv8>, afterSecond: seq<bv8>
  )
    requires ValidateOpcode(specification, first).Ok? && ValidateOpcode(specification, second).Ok?
    requires OpcodeBytes(specification, first) + afterFirst == OpcodeBytes(specification, second) + afterSecond
    ensures afterFirst == afterSecond
    ensures ParsedOpcode(specification, first) == ParsedOpcode(specification, second)
  {
    FilledOpcodeMatches(specification, first);
    FilledOpcodeMatches(specification, second);
    var a, b := EmittedOpcode(specification, first), EmittedOpcode(specification, second);
    assert |a.Bytes()| == |b.Bytes()|;
    SplitEqually(a.Bytes(), b.Bytes(), afterFirst, afterSecond);
    assert a.b0 == a.Bytes()[|a.Bytes()| - 1] && b.b0 == b.Bytes()[|b.Bytes()| - 1];
  }

  lemma {:induction false} SameOperands(
    specification: EncodingSpecification, first: DecodedInstruction, second: DecodedInstruction,
    afterFirst: seq<bv8>, afterSecond: seq<bv8>
  )
    requires IsEncodable(specification, first) && AddressingSurvives(specification, first)
    requires IsEncodable(specification, second) && AddressingSurvives(specification, second)
    requires AfterOpcode(specification, first, afterFirst) == AfterOpcode(specification, second, afterSecond)
    requires WithOverrides(first) == WithOverrides(second)
    requires ParsedPrefix(specification, first) == ParsedPrefix(specification, second)
    requires ParsedOpcode(specification, first) == ParsedOpcode(specification, second)
    ensures afterFirst == afterSecond
    ensures Normalize(specification, first) == Normalize(specification, second)
  {
    var start := DEFAULT_INSTRUCTION;
    var a := WithAddressing(specification, first, start);
    var b := WithAddressing(specification, second, start);
    ModRmRoundTrip(specification, specification, first, start, AfterModRm(specification, first, afterFirst));
    ModRmRoundTrip(specification, specification, second, start, AfterModRm(specification, second, afterSecond));
    OperandsRoundTrip(specification, first, start, afterFirst);
    OperandsRoundTrip(specification, second, start, afterSecond);
    SameNormalPrefix(specification, first, second);
  }

  lemma {:induction false} SameNormalPrefix(
    specification: EncodingSpecification, first: DecodedInstruction, second: DecodedInstruction
  )
    requires EvexBInterpretationsAreAllowed(specification)
    requires ValidatePrefix(specification, first).Ok? && ValidatePrefix(specification, second).Ok?
    requires ParsedPrefix(specification, first) == ParsedPrefix(specification, second)
    requires specification.GetVexPrefix().hasVexOperandSuffix ==>
               first.GetVexPrefix().vexSuffixValue & 0xff == second.GetVexPrefix().vexSuffixValue & 0xff
    ensures NormalPrefix(specification, first) == NormalPrefix(specification, second)
  {
    if specification.prefix.VexSpecification? {
      if first.prefix.Vex? {
        SameNormalVex(specification.prefix.vex, first.prefix.vex, second.prefix.vex);
      } else {
        SameNormalEvex(specification.prefix.vex, first.prefix.evex, second.prefix.evex);
      }
    }
  }

  lemma {:induction false} SameNormalVex(specification: VexPrefixSpecification, first: VexFields, second: VexFields)
    requires NormalVex(specification, first).(vexSuffixValue := 0) ==
             NormalVex(specification, second).(vexSuffixValue := 0)
    requires specification.hasVexOperandSuffix ==> first.vexSuffixValue & 0xff == second.vexSuffixValue & 0xff
    ensures NormalVex(specification, first) == NormalVex(specification, second)
  {
  }

  lemma SameNormalEvex(specification: VexPrefixSpecification, first: EvexFields, second: EvexFields)
    requires ParsedEvex(specification, first) == ParsedEvex(specification, second)
    ensures NormalEvex(specification, first) == NormalEvex(specification, second)
  {
    SwapIsInjective(first.notR, second.notR);
    var a, b := NormalEvex(specification, first), NormalEvex(specification, second);
    assert a == ParsedEvex(specification, first).(notR := a.notR);
  }

  lemma SwapIsInjective(first: bv32, second: bv32)
    requires SwappedNotR(first) == SwappedNotR(second)
    ensures first & 3 == second & 3
  {
  }

  // Two valid instructions have the same encoding exactly when they have the same
  // normal form.
  lemma {:induction false} SameEncodingIsSameNormalForm(
    specification: EncodingSpecification, first: DecodedInstruction, second: DecodedInstruction
  )
    requires IsEncodable(specification, first) && AddressingSurvives(specification, first)
    requires IsEncodable(specification, second) && AddressingSurvives(specification, second)
    ensures EncodedBytes(specification, first) == EncodedBytes(specification, second) <==>
            Normalize(specification, first) == Normalize(specification, second)
  {
    NormalFormEncodesTheSame(specification, first);
    NormalFormEncodesTheSame(specification, second);
    if EncodedBytes(specification, first) == EncodedBytes(specification, second) {
      EncodingsArePrefixFree(specification, first, second, [], []);
    }
  }

  // ---- The normal form as an input of the encoder ---------------------------

  // Two EVEX fields that the validator reads as a whole while the encoder emits
  // some of their bits: an opmask register of 8 or more passes for a register
  // that is not k0, and a zero in place of an unused register operand is emitted
  // as vvvv = 15 with the bit V' still zero.
  predicate HasRejectedEvexField(specification: EncodingSpecification, instruction: DecodedInstruction) {
    && specification.prefix.VexSpecification? && instruction.prefix.Evex?
    && var vex, evex := specification.prefix.vex, instruction.prefix.evex;
       || (vex.opmaskUsage.EvexOpmaskIsRequired? && evex.opmaskRegister & 7 == 0)
       || (vex.vexOperandUsage.VexOperandIsNotUsed? && evex.invertedRegisterOperand == 0)
  }

  // A missing opcode is filled in from the specification, whose operand bits the
  // validator then expects to be clear.
  predicate HasRejectedOpcode(specification: EncodingSpecification, instruction: DecodedInstruction) {
    && instruction.opcode == ZERO && !specification.operandInOpcode.NoOperandInOpcode?
    && specification.opcode.WithoutOperandBits() != specification.opcode
  }

  lemma {:induction false} NormalFormIsValid(specification: EncodingSpecification, instruction: DecodedInstruction)
    requires IsEncodable(specification, instruction) && IsReadable(specification)
    requires AddressingSurvives(specification, instruction)
    ensures Validate(specification, Normalize(specification, instruction)).Ok? <==>
            !HasRejectedEvexField(specification, instruction) && !HasRejectedOpcode(specification, instruction)
  {
    var normal := Normalize(specification, instruction);
    NormalOpcodeIsValid(specification, instruction, normal);
    NormalModRmIsValid(specification, instruction, normal);
    match specification.prefix
    case LegacySpecification(legacy) => NormalLegacyIsValid(legacy, instruction, normal);
    case VexSpecification(vex) =>
      if instruction.prefix.Vex? {
        NormalVexIsValid(vex, instruction, normal);
      } else {
        NormalEvexIsValid(vex, instruction, normal);
      }
  }

  lemma NormalOpcodeIsValid(
    specification: EncodingSpecification, instruction: DecodedInstruction, normal: DecodedInstruction
  )
    requires ValidateOpcode(specification, instruction).Ok? && IsReadable(specification)
    requires !specification.prefix.NoPrefixSpecification?
    requires normal.opcode == ParsedOpcode(specification, instruction)
    ensures ValidateOpcode(specification, normal).Ok? <==> !HasRejectedOpcode(specification, instruction)
  {
  }

  lemma {:induction false} NormalModRmIsValid(
    specification: EncodingSpecification, instruction: DecodedInstruction, normal: DecodedInstruction
  )
    requires ValidateModRm(specification, instruction).Ok? && IsReadable(specification)
    requires AddressingSurvives(specification, instruction)
    requires normal == WithAddressing(specification, instruction, normal)
    requires specification.modrmUsage.NoModRmUsage? ==> normal.optionalModRm.None? && normal.optionalSib.None?
    ensures ValidateModRm(specification, normal).Ok?
  {
    if !specification.modrmUsage.NoModRmUsage? {
      var modrm, sib := instruction.GetModRm(), instruction.GetSib();
      NormalSizes(modrm, sib);
      if specification.modrmUsage.OpcodeExtensionInModRm? {
        LowBitsOfExtension(modrm.registerOperand);
      }
    }
  }

  lemma NormalLegacyIsValid(
    specification: LegacyPrefixSpecification, instruction: DecodedInstruction, normal: DecodedInstruction
  )
    requires ValidateLegacyPrefixes(specification, instruction).Ok?
    requires normal.prefix == NormalLegacy(instruction.GetLegacyPrefixes())
    requires normal.addressSizeOverride == instruction.addressSizeOverride
    ensures ValidateLegacyPrefixes(specification, normal).Ok?
  {
  }

  lemma FourBits(operand: bv32)
    ensures operand <= 15 ==> GetBitRange(operand, 0, 4) == operand
    ensures GetBitRange(operand, 0, 4) <= 15
    ensures GetBitRange(15, 0, 4) == 15 && GetBitRange(31, 0, 4) == 15
  {
  }

  lemma {:induction false} FiveBits(operand: bv32)
    ensures operand <= 31 ==> GetBitRange(operand, 0, 4) | (Flag(IsNthBitSet(operand, 4)) << 4) == operand
    ensures 15 | (Flag(IsNthBitSet(0, 4)) << 4) == 15
    ensures 15 | (Flag(IsNthBitSet(31, 4)) << 4) == 31
  {
  }

  lemma {:induction false} NormalVexIsValid(
    specification: VexPrefixSpecification, instruction: DecodedInstruction, normal: DecodedInstruction
  )
    requires instruction.prefix.Vex? && specification.prefixType.VexType?
    requires ValidateVexPrefix(specification, instruction).Ok?
    requires normal.prefix == Vex(NormalVex(specification, instruction.prefix.vex))
    ensures ValidateVexPrefix(specification, normal).Ok?
  {
    FourBits(InvertedVexOperand(specification, instruction.prefix.vex));
  }

  lemma NormalEvexOperandIsValid(specification: VexPrefixSpecification, evex: EvexFields)
    requires specification.prefixType.EvexType?
    requires ValidateVexRegisterOperandBits(specification, evex.invertedRegisterOperand).Ok?
    ensures ValidateVexRegisterOperandBits(
              specification, NormalEvex(specification, evex).invertedRegisterOperand).Ok? <==>
            !(specification.vexOperandUsage.VexOperandIsNotUsed? && evex.invertedRegisterOperand == 0)
  {
    FourBits(InvertedEvexOperand(specification, evex));
    FiveBits(evex.invertedRegisterOperand);
  }

  lemma {:induction false} NormalEvexIsValid(
    specification: VexPrefixSpecification, instruction: DecodedInstruction, normal: DecodedInstruction
  )
    requires instruction.prefix.Evex? && specification.prefixType.EvexType?
    requires AllowedEvexBInterpretations(specification.evexBInterpretations)
    requires ValidateEvexPrefix(specification, instruction).Ok?
    requires normal.prefix == Evex(NormalEvex(specification, instruction.prefix.evex))
    requires HasMemoryOperand(normal) == HasMemoryOperand(instruction)
    ensures ValidateEvexPrefix(specification, normal).Ok? <==>
            var evex := instruction.prefix.evex;
            && !(specification.opmaskUsage.EvexOpmaskIsRequired? && evex.opmaskRegister & 7 == 0)
            && !(specification.vexOperandUsage.VexOperandIsNotUsed? && evex.invertedRegisterOperand == 0)
  {
    NormalEvexOperandIsValid(specification, instruction.prefix.evex);
    VectorLengthFits(specification, instruction.prefix.evex.vectorLengthOrRounding);
  }

  predicate HasMemoryOperand(instruction: DecodedInstruction) {
    instruction.optionalModRm.Some? && !instruction.optionalModRm.value.addressingMode.Direct?
  }

  // Valid instructions whose normal form is not valid: an opmask register whose low
  // bits are those of k0, a zero in an unused register field, and a missing opcode.
  function EvexSpecification(usage: VexOperandUsage, opmask: EvexOpmaskUsage): EncodingSpecification {
    EVEX_SPECIFICATION.(prefix := VexSpecification(
      EVEX_SPECIFICATION.prefix.vex.(vexOperandUsage := usage, opmaskUsage := opmask)))
  }

  predicate HasRejectedNormalForm(specification: EncodingSpecification, instruction: DecodedInstruction) {
    && IsEncodable(specification, instruction) && IsReadable(specification)
    && AddressingSurvives(specification, instruction)
    && !Validate(specification, Normalize(specification, instruction)).Ok?
  }

  lemma {:induction false} OpmaskEightIsRejected()
    ensures HasRejectedNormalForm(
              EvexSpecification(VexOperandIsFirstSourceRegister, EvexOpmaskIsRequired),
              DEFAULT_INSTRUCTION.(prefix := Evex(DEFAULT_EVEX.(mapSelect := Map0F, opmaskRegister := 8))))
  {
    var specification := EvexSpecification(VexOperandIsFirstSourceRegister, EvexOpmaskIsRequired);
    var instruction := DEFAULT_INSTRUCTION.(prefix := Evex(DEFAULT_EVEX.(mapSelect := Map0F, opmaskRegister := 8)));
    assert ValidateEvexPrefix(specification.prefix.vex, instruction).Ok?;
    NormalFormIsValid(specification, instruction);
  }

  lemma {:induction false} UnusedRegisterZeroIsRejected()
    ensures HasRejectedNormalForm(
              EvexSpecification(VexOperandIsNotUsed, EvexOpmaskIsOptional),
              DEFAULT_INSTRUCTION.(prefix := Evex(DEFAULT_EVEX.(mapSelect := Map0F))))
  {
    var specification := EvexSpecification(VexOperandIsNotUsed, EvexOpmaskIsOptional);
    var instruction := DEFAULT_INSTRUCTION.(prefix := Evex(DEFAULT_EVEX.(mapSelect := Map0F)));
    assert ValidateEvexPrefix(specification.prefix.vex, instruction).Ok?;
    NormalFormIsValid(specification, instruction);
  }

  lemma {:induction false} MissingOpcodeIsRejected()
    ensures HasRejectedNormalForm(
              ANY_LEGACY_SPECIFICATION.(opcode := OneByte(0x51), operandInOpcode := GeneralPurposeRegisterInOpcode),
              DEFAULT_INSTRUCTION)
  {
    var specification :=
      ANY_LEGACY_SPECIFICATION.(opcode := OneByte(0x51), operandInOpcode := GeneralPurposeRegisterInOpcode);
    assert OpcodeBytes(specification, DEFAULT_INSTRUCTION)[0] == 0x51;
    NormalFormIsValid(specification, DEFAULT_INSTRUCTION);
  }

  // ---- Streams of instructions ----------------------------------------------

  datatype Item = Item(specification: EncodingSpecification, instruction: DecodedInstruction)

  function EncodedStream(items: seq<Item>): seq<bv8> {
    if items == [] then []
    else EncodedBytes(items[0].specification, items[0].instruction) + EncodedStream(items[1..])
  }

  // What a caller gets that parses n instructions one after another.
  function ReadSeveral(db: Database, n: nat, bytes: seq<bv8>): Result<(seq<DecodedInstruction>, seq<bv8>)>
    requires IsWellFormedDatabase(db)
  {
    if n == 0 then Success(([], bytes))
    else
      var (first, rest) :- ReadInstruction(db, bytes);
      var (others, left) :- ReadSeveral(db, n - 1, rest);
      Success(([first] + others, left))
  }

  // The item survives, and the database has its layout.
  predicate IsOf(db: Database, item: Item)
    requires IsWellFormedDatabase(db)
  {
    && IsEncodable(item.specification, item.instruction)
    && AddressingSurvives(item.specification, item.instruction)
    && PrefixSurvives(item.specification, item.instruction)
    && LayoutIsFound(db, item.specification, item.instruction)
  }

  function NormalForm(item: Item): DecodedInstruction {
    Normalize(item.specification, item.instruction)
  }

  function NormalForms(items: seq<Item>): seq<DecodedInstruction> {
    if items == [] then []
    else [NormalForm(items[0])] + NormalForms(items[1..])
  }

  predicate AreOf(db: Database, items: seq<Item>)
    requires IsWellFormedDatabase(db)
  {
    forall i :: 0 <= i < |items| ==> IsOf(db, items[i])
  }

  // The opcode of each item is found, with the other items behind it.
  ghost predicate AreFound(db: Database, items: seq<Item>, rest: seq<bv8>)
    requires IsWellFormedDatabase(db)
  {
    items == [] ||
    (OpcodeIsFound(db, items[0].specification, items[0].instruction, EncodedStream(items[1..]) + rest) &&
     AreFound(db, items[1..], rest))
  }

  // A concatenation of encoded instructions is parsed back one by one exactly when
  // each opcode is found.
  lemma {:induction false} StreamRoundTrip(db: Database, items: seq<Item>, rest: seq<bv8>)
    requires IsWellFormedDatabase(db) && AreOf(db, items)
    ensures ReadSeveral(db, |items|, EncodedStream(items) + rest) == Success((NormalForms(items), rest))
            <==> AreFound(db, items, rest)
  {
    if items == [] {
      assert [] + rest == rest;
    } else {
      var tail := EncodedStream(items[1..]) + rest;
      assert IsOf(db, items[0]);
      StreamRoundTrip(db, items[1..], rest);
      StreamStartsWithItem(items, rest);
      ReadFront(db, items[0], |items| - 1, tail, NormalForms(items[1..]), rest);
    }
  }

  lemma {:induction false} StreamStartsWithItem(items: seq<Item>, rest: seq<bv8>)
    requires items != []
    ensures EncodedStream(items) + rest ==
            EncodedBytes(items[0].specification, items[0].instruction) + (EncodedStream(items[1..]) + rest)
  {
    Associate(EncodedBytes(items[0].specification, items[0].instruction), EncodedStream(items[1..]), rest);
  }

  lemma {:induction false} ReadFront(
    db: Database, item: Item, n: nat, tail: seq<bv8>, others: seq<DecodedInstruction>, left: seq<bv8>
  )
    requires IsWellFormedDatabase(db) && IsOf(db, item)
    ensures ReadSeveral(db, n + 1, EncodedBytes(item.specification, item.instruction) + tail) ==
            Success(([NormalForm(item)] + others, left))
            <==>
            && OpcodeIsFound(db, item.specification, item.instruction, tail)
            && ReadSeveral(db, n, tail) == Success((others, left))
  {
    var bytes := EncodedBytes(item.specification, item.instruction) + tail;
    if OpcodeIsFound(db, item.specification, item.instruction, tail) {
      DatabaseRoundTrip(db, item.specification, item.instruction, tail);
      ParsedIsNormal(item.specification, item.instruction);
      ReadOneMore(db, n, bytes, NormalForm(item), tail, others, left);
    } else {
      ReadsAnotherOpcode(db, item.specification, item.instruction, tail);
      ReadAnother(db, n, bytes, NormalForm(item), others, left);
    }
  }

  lemma {:induction false} ReadOneMore(
    db: Database, n: nat, bytes: seq<bv8>, first: DecodedInstruction, rest: seq<bv8>,
    others: seq<DecodedInstruction>, left: seq<bv8>
  )
    requires IsWellFormedDatabase(db)
    requires ReadInstruction(db, bytes) == Success((first, rest))
    ensures ReadSeveral(db, n + 1, bytes) == Success(([first] + others, left)) <==>
            ReadSeveral(db, n, rest) == Success((others, left))
  {
    var read := ReadSeveral(db, n, rest);
    if read.Success? {
      SameTail(first, read.value.0, others);
    }
  }

  lemma SameTail<T>(first: T, a: seq<T>, b: seq<T>)
    ensures [first] + a == [first] + b <==> a == b
  {
    DropFront([first], a);
    DropFront([first], b);
  }

  lemma {:induction false} ReadAnother(
    db: Database, n: nat, bytes: seq<bv8>, first: DecodedInstruction, others: seq<DecodedInstruction>, left: seq<bv8>
  )
    requires IsWellFormedDatabase(db)
    requires match ReadInstruction(db, bytes)
             case Success((decoded, _)) => decoded.opcode != first.opcode
             case Failure(_) => true
    ensures ReadSeveral(db, n + 1, bytes) != Success(([first] + others, left))
  {
    var read := ReadSeveral(db, n + 1, bytes);
    if read.Success? {
      assert read.value.0[0].opcode != first.opcode;
    }
  }

  // The instructions of one specification that survive are in its database.
  predicate SurvivesUnder(specification: EncodingSpecification, item: Item) {
    && item.specification == specification
    && IsEncodable(specification, item.instruction)
    && AddressingSurvives(specification, item.instruction)
    && PrefixSurvives(specification, item.instruction)
  }

  lemma {:induction false} SurvivorIsOf(specification: EncodingSpecification, item: Item, rest: seq<bv8>)
    requires IsReadable(specification) && SurvivesUnder(specification, item)
    ensures IsWellFormedDatabase(OneInstruction(specification))
    ensures IsOf(OneInstruction(specification), item)
    ensures OpcodeIsFound(OneInstruction(specification), specification, item.instruction, rest)
  {
    OneInstructionIsWellFormed(specification, item.instruction);
    OpcodeIsFoundInOne(specification, item.instruction, rest);
    LayoutIsFoundInOne(specification, item.instruction);
  }

  lemma {:induction false} SurvivorsAreFound(
    db: Database, specification: EncodingSpecification, items: seq<Item>, rest: seq<bv8>
  )
    requires IsReadable(specification) && IsWellFormedDatabase(db) && db == OneInstruction(specification)
    requires forall i :: 0 <= i < |items| ==> SurvivesUnder(specification, items[i])
    ensures AreFound(db, items, rest)
  {
    if items != [] {
      assert SurvivesUnder(specification, items[0]);
      SurvivorIsOf(specification, items[0], EncodedStream(items[1..]) + rest);
      assert items[0].specification == specification;
      SurvivorsAreFound(db, specification, items[1..], rest);
    }
  }

  // A concatenation of encodings under one specification, without any condition on
  // a database.
  lemma {:induction false} SpecificationStreamRoundTrip(
    specification: EncodingSpecification, items: seq<Item>, rest: seq<bv8>
  )
    requires IsReadable(specification) && items != []
    requires forall i :: 0 <= i < |items| ==> SurvivesUnder(specification, items[i])
    ensures IsWellFormedDatabase(OneInstruction(specification))
    ensures ReadSeveral(OneInstruction(specification), |items|, EncodedStream(items) + rest) ==
            Success((NormalForms(items), rest))
  {
    assert SurvivesUnder(specification, items[0]);
    SurvivorIsOf(specification, items[0], rest);
    var db := OneInstruction(specification);
    forall i | 0 <= i < |items|
      ensures IsOf(db, items[i])
    {
      assert SurvivesUnder(specification, items[i]);
      SurvivorIsOf(specification, items[i], rest);
    }
    SurvivorsAreFound(db, specification, items, rest);
    StreamRoundTrip(db, items, rest);
  }
}
