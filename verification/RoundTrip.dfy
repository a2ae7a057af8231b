// Encoding an instruction and parsing the bytes gives the instruction back.
module RoundTrip {
  import opened Bits
  import opened Wrappers
  import opened Sequences
  import opened Opcodes
  import opened X86Protos
  import opened InstructionEncoder
  import opened Architecture
  import opened InstructionParser
  import opened RoundTripPrefixes
  import opened RoundTripOpcode
  import opened RoundTripOperands

  // ---- The normal form ------------------------------------------------------

  // The opcode that the parser stores: the encoder fills in a missing opcode, and
  // the parser derives all but the last byte from the opcode map.
  function ParsedOpcode(specification: EncodingSpecification, instruction: DecodedInstruction): Opcode {
    var raw := RawOpcode(specification, instruction);
    if specification.prefix.VexSpecification? then OpcodeWithMap(specification.prefix.vex.mapSelect, raw.b0) else raw
  }

  function NormalPrefix(specification: EncodingSpecification, instruction: DecodedInstruction): InstructionPrefix {
    match specification.prefix
    case LegacySpecification(_) => NormalLegacy(instruction.GetLegacyPrefixes())
    case VexSpecification(vex) =>
      (match instruction.prefix
       case Vex(fields) => Vex(NormalVex(vex, fields))
       case Evex(fields) => Evex(NormalEvex(vex, fields))
       case _ => NoPrefix)
    case NoPrefixSpecification => NoPrefix
  }

  function WithAddressing(
    specification: EncodingSpecification, encoded: DecodedInstruction, instruction: DecodedInstruction
  ): DecodedInstruction
  {
    if specification.modrmUsage.NoModRmUsage? then instruction
    else
      instruction.(optionalModRm := Some(NormalModRm(encoded.GetModRm(), encoded.GetSib())),
                   optionalSib := NormalSibIfUsed(encoded.GetModRm(), encoded.GetSib()))
  }

  // The instruction with every field cut to the bits that the encoding has for
  // it.
  function Normalize(specification: EncodingSpecification, instruction: DecodedInstruction): DecodedInstruction {
    WithAddressing(
      specification, instruction,
      WithOverrides(instruction).(
        prefix := NormalPrefix(specification, instruction),
        opcode := ParsedOpcode(specification, instruction),
        immediateValue := instruction.immediateValue,
        codeOffset := instruction.codeOffset))
  }

  // ---- What the parser returns ----------------------------------------------

  function WithPrefixes(specification: EncodingSpecification, instruction: DecodedInstruction): DecodedInstruction {
    WithOverrides(instruction).(prefix := ParsedPrefix(specification, instruction))
  }

  function WithOpcode(specification: EncodingSpecification, instruction: DecodedInstruction): DecodedInstruction {
    WithPrefixes(specification, instruction).(opcode := ParsedOpcode(specification, instruction))
  }

  function Parsed(specification: EncodingSpecification, instruction: DecodedInstruction): DecodedInstruction {
    WithOperands(specification, instruction,
                 WithAddressing(specification, instruction, WithOpcode(specification, instruction)))
  }

  // The parser swaps two bits of an EVEX prefix, and drops the prefix of an EVEX
  // instruction when it stores a VEX suffix.
  predicate PrefixSurvives(specification: EncodingSpecification, instruction: DecodedInstruction) {
    specification.prefix.VexSpecification? && instruction.prefix.Evex? ==>
      IsNthBitSet(instruction.prefix.evex.notR, 0) == IsNthBitSet(instruction.prefix.evex.notR, 1) &&
      !specification.prefix.vex.hasVexOperandSuffix
  }

  lemma {:induction false} ParsedIsNormal(specification: EncodingSpecification, instruction: DecodedInstruction)
    requires EvexBInterpretationsAreAllowed(specification) && Validate(specification, instruction).Ok?
    requires !specification.prefix.NoPrefixSpecification?
    ensures Parsed(specification, instruction) == Normalize(specification, instruction)
            <==> PrefixSurvives(specification, instruction)
  {
    var parsed, normal := Parsed(specification, instruction), Normalize(specification, instruction);
    ParsedPrefixIsNormal(specification, instruction);
    OtherFieldsAreNormal(specification, instruction);
    assert parsed == parsed.(prefix := NoPrefix).(prefix := parsed.prefix);
    assert normal == normal.(prefix := NoPrefix).(prefix := normal.prefix);
  }

  lemma {:induction false} ParsedPrefixIsNormal(specification: EncodingSpecification, instruction: DecodedInstruction)
    requires EvexBInterpretationsAreAllowed(specification)
    requires ValidatePrefix(specification, instruction).Ok? && ValidateVexSuffix(specification, instruction).Ok?
    requires !specification.prefix.NoPrefixSpecification?
    ensures Parsed(specification, instruction).prefix == NormalPrefix(specification, instruction)
            <==> PrefixSurvives(specification, instruction)
  {
    if specification.prefix.VexSpecification? && instruction.prefix.Evex? {
      NotRIsReadBack(instruction.prefix.evex.notR);
    }
  }

  lemma {:induction false} OtherFieldsAreNormal(specification: EncodingSpecification, instruction: DecodedInstruction)
    ensures Parsed(specification, instruction).(prefix := NoPrefix) ==
            Normalize(specification, instruction).(prefix := NoPrefix)
  {
  }

  // ---- Round trip in a database ---------------------------------------------

  // The parts of a specification that say what follows the ModR/M byte.
  predicate SameOperandLayout(first: EncodingSpecification, second: EncodingSpecification) {
    && first.immediateValueBytes == second.immediateValueBytes
    && first.codeOffsetBytes == second.codeOffsetBytes
    && first.GetVexPrefix().hasVexOperandSuffix == second.GetVexPrefix().hasVexOperandSuffix
  }

  lemma SameLayoutReadsTheSame(
    first: EncodingSpecification, second: EncodingSpecification, instruction: DecodedInstruction, bytes: seq<bv8>
  )
    requires SameOperandLayout(first, second)
    ensures ReadOperands(first, instruction, bytes) == ReadOperands(second, instruction, bytes)
  {
  }

  // The bytes after the prefixes, after the opcode, and after the ModR/M part.
  function AfterModRm(specification: EncodingSpecification, instruction: DecodedInstruction, rest: seq<bv8>): seq<bv8> {
    ImmediateBytes(instruction) + (VexSuffixBytes(specification, instruction) + rest)
  }

  function AfterOpcode(specification: EncodingSpecification, instruction: DecodedInstruction, rest: seq<bv8>): seq<bv8> {
    ModRmBytes(specification, instruction) + AfterModRm(specification, instruction, rest)
  }

  // The opcode of a legacy instruction is found at the end of its bytes, with these
  // bytes behind the instruction.
  ghost predicate OpcodeIsFound(
    db: Database, specification: EncodingSpecification, instruction: DecodedInstruction, rest: seq<bv8>
  )
    requires IsWellFormedDatabase(db)
  {
    !specification.prefix.VexSpecification? ==>
      OpcodeIsRead(IsListed(db, WithPrefixes(specification, instruction)), IsOpcodePrefix(db),
                   ParsedOpcode(specification, instruction), AfterOpcode(specification, instruction, rest))
  }

  // The specification found by the prefixes and the opcode agrees on the presence
  // of the ModR/M byte, and the one found in the end on the operands.
  predicate LayoutIsFound(db: Database, specification: EncodingSpecification, instruction: DecodedInstruction)
    requires IsWellFormedDatabase(db)
  {
    var withOpcode := WithOpcode(specification, instruction);
    var byOpcode := FindSpecification(db, withOpcode, false);
    && byOpcode.Some?
    && byOpcode.value.modrmUsage.NoModRmUsage? == specification.modrmUsage.NoModRmUsage?
    && var found :=
         if specification.modrmUsage.NoModRmUsage? then byOpcode
         else FindSpecification(db, WithAddressing(specification, instruction, withOpcode), true);
       found.Some? && SameOperandLayout(found.value, specification)
  }

  predicate AddressingSurvives(specification: EncodingSpecification, instruction: DecodedInstruction) {
    !specification.modrmUsage.NoModRmUsage? ==> EscapesAreInRange(instruction.GetModRm(), instruction.GetSib())
  }

  lemma OpcodeStartsBytes(
    specification: EncodingSpecification, instruction: DecodedInstruction, rest: seq<bv8>
  )
    requires HasReadablePrefix(specification, instruction)
    ensures var bytes := OpcodeBytes(specification, instruction) + rest;
            specification.prefix.LegacySpecification? ==> bytes != [] && !IsPrefixByte(bytes[0])
  {
  }

  lemma {:induction false} OpcodeRoundTrip(
    db: Database, specification: EncodingSpecification, instruction: DecodedInstruction, rest: seq<bv8>
  )
    requires IsWellFormedDatabase(db) && HasReadablePrefix(specification, instruction)
    requires EvexBInterpretationsAreAllowed(specification) && ValidatePrefix(specification, instruction).Ok?
    ensures var withPrefixes := WithPrefixes(specification, instruction);
            var afterOpcode := AfterOpcode(specification, instruction, rest);
            ReadOpcode(IsListed(db, withPrefixes), IsOpcodePrefix(db), withPrefixes,
                       OpcodeBytes(specification, instruction) + afterOpcode) ==
            Success((WithOpcode(specification, instruction), afterOpcode))
            <==> OpcodeIsFound(db, specification, instruction, rest)
  {
    var withPrefixes := WithPrefixes(specification, instruction);
    var afterOpcode := AfterOpcode(specification, instruction, rest);
    if specification.prefix.VexSpecification? {
      MappedOpcodeRoundTrip(IsListed(db, withPrefixes), IsOpcodePrefix(db), withPrefixes,
                            specification.prefix.vex.mapSelect, RawOpcode(specification, instruction), afterOpcode);
    } else {
      LegacyOpcodeRoundTrip(IsListed(db, withPrefixes), IsOpcodePrefix(db), withPrefixes,
                            RawOpcode(specification, instruction), afterOpcode);
    }
  }

  lemma {:induction false} ModRmRoundTrip(
    specification: EncodingSpecification, byOpcode: EncodingSpecification, encoded: DecodedInstruction,
    instruction: DecodedInstruction, rest: seq<bv8>
  )
    requires byOpcode.modrmUsage.NoModRmUsage? == specification.modrmUsage.NoModRmUsage?
    requires AddressingSurvives(specification, encoded)
    ensures ReadModRmAndSib(byOpcode, instruction, ModRmBytes(specification, encoded) + rest) ==
            Success((WithAddressing(specification, encoded, instruction), rest))
  {
    if specification.modrmUsage.NoModRmUsage? {
      assert [] + rest == rest;
    } else {
      AddressingRoundTrip(encoded.GetModRm(), encoded.GetSib(), rest);
    }
  }

  lemma EncodedBytesInOrder(
    specification: EncodingSpecification, instruction: DecodedInstruction, rest: seq<bv8>
  )
    ensures EncodedBytes(specification, instruction) + rest ==
            PrefixBytes(specification, instruction) +
            (OpcodeBytes(specification, instruction) + AfterOpcode(specification, instruction, rest))
  {
    Reassociate(PrefixBytes(specification, instruction), OpcodeBytes(specification, instruction),
                ModRmBytes(specification, instruction), ImmediateBytes(instruction),
                VexSuffixBytes(specification, instruction), rest);
  }

  lemma Reassociate(
    a: seq<bv8>, b: seq<bv8>, c: seq<bv8>, d: seq<bv8>, e: seq<bv8>, rest: seq<bv8>
  )
    ensures (a + (b + (c + (d + e)))) + rest == a + (b + (c + (d + (e + rest))))
  {
  }

  // The parser reads exactly the instruction and stops before the bytes that follow
  // exactly when its opcode is found.
  lemma {:induction false} DatabaseRoundTrip(
    db: Database, specification: EncodingSpecification, instruction: DecodedInstruction, rest: seq<bv8>
  )
    requires IsWellFormedDatabase(db) && EvexBInterpretationsAreAllowed(specification)
    requires Validate(specification, instruction).Ok? && HasReadablePrefix(specification, instruction)
    requires AddressingSurvives(specification, instruction) && LayoutIsFound(db, specification, instruction)
    ensures ReadInstruction(db, EncodedBytes(specification, instruction) + rest) ==
            Success((Parsed(specification, instruction), rest))
            <==> OpcodeIsFound(db, specification, instruction, rest)
  {
    if OpcodeIsFound(db, specification, instruction, rest) {
      ReadsWhenFound(db, specification, instruction, rest);
    } else {
      ReadsAnotherOpcode(db, specification, instruction, rest);
    }
  }

  lemma {:induction false} ReadsWhenFound(
    db: Database, specification: EncodingSpecification, instruction: DecodedInstruction, rest: seq<bv8>
  )
    requires IsWellFormedDatabase(db) && EvexBInterpretationsAreAllowed(specification)
    requires Validate(specification, instruction).Ok? && HasReadablePrefix(specification, instruction)
    requires AddressingSurvives(specification, instruction)
    requires OpcodeIsFound(db, specification, instruction, rest) && LayoutIsFound(db, specification, instruction)
    ensures ReadInstruction(db, EncodedBytes(specification, instruction) + rest) ==
            Success((Parsed(specification, instruction), rest))
  {
    var withOpcode := WithOpcode(specification, instruction);
    var withModRm := WithAddressing(specification, instruction, withOpcode);
    var afterOpcode := AfterOpcode(specification, instruction, rest);
    var afterModRm := AfterModRm(specification, instruction, rest);
    var byOpcode := FindSpecification(db, withOpcode, false).value;
    ReadUntilOpcode(db, specification, instruction, rest);
    ModRmRoundTrip(specification, byOpcode, instruction, withOpcode, afterModRm);
    var found := Relocate(db, byOpcode, withModRm).value;
    SameLayoutReadsTheSame(found, specification, withModRm, afterModRm);
    OperandsRoundTrip(specification, instruction, withModRm, rest);
  }

  lemma {:induction false} ReadUntilOpcode(
    db: Database, specification: EncodingSpecification, instruction: DecodedInstruction, rest: seq<bv8>
  )
    requires IsWellFormedDatabase(db) && EvexBInterpretationsAreAllowed(specification)
    requires Validate(specification, instruction).Ok? && HasReadablePrefix(specification, instruction)
    requires OpcodeIsFound(db, specification, instruction, rest)
    ensures ReadInstruction(db, EncodedBytes(specification, instruction) + rest) ==
            ReadAfterOpcode(db, WithOpcode(specification, instruction), AfterOpcode(specification, instruction, rest))
  {
    ReadUntilPrefixes(db, specification, instruction, rest);
    OpcodeRoundTrip(db, specification, instruction, rest);
  }

  // What is left to do for the parser once the prefixes are read.
  function ReadAfterPrefixes(db: Database, withPrefixes: DecodedInstruction, bytes: seq<bv8>): Progress
    requires IsWellFormedDatabase(db)
  {
    var (withOpcode, afterOpcode) :-
      ReadOpcode(IsListed(db, withPrefixes), IsOpcodePrefix(db), withPrefixes, bytes);
    ReadAfterOpcode(db, withOpcode, afterOpcode)
  }

  lemma {:induction false} PrefixesComeFirst(db: Database, bytes: seq<bv8>)
    requires IsWellFormedDatabase(db) && ReadPrefixes(DEFAULT_INSTRUCTION, bytes).Success?
    ensures var prefixes := ReadPrefixes(DEFAULT_INSTRUCTION, bytes).value;
            ReadInstruction(db, bytes) == ReadAfterPrefixes(db, prefixes.0, prefixes.1)
  {
  }

  lemma {:induction false} ReadUntilPrefixes(
    db: Database, specification: EncodingSpecification, instruction: DecodedInstruction, rest: seq<bv8>
  )
    requires IsWellFormedDatabase(db) && EvexBInterpretationsAreAllowed(specification)
    requires ValidatePrefix(specification, instruction).Ok? && HasReadablePrefix(specification, instruction)
    ensures var bytes := OpcodeBytes(specification, instruction) + AfterOpcode(specification, instruction, rest);
            ReadInstruction(db, EncodedBytes(specification, instruction) + rest) ==
            ReadAfterPrefixes(db, WithPrefixes(specification, instruction), bytes)
  {
    var afterOpcode := AfterOpcode(specification, instruction, rest);
    EncodedBytesInOrder(specification, instruction, rest);
    OpcodeStartsBytes(specification, instruction, afterOpcode);
    PrefixesRoundTrip(specification, instruction, OpcodeBytes(specification, instruction) + afterOpcode);
    PrefixesComeFirst(db, EncodedBytes(specification, instruction) + rest);
  }

  // What is left to do for the parser once the opcode is read.
  function ReadAfterOpcode(db: Database, withOpcode: DecodedInstruction, bytes: seq<bv8>): Progress
    requires IsWellFormedDatabase(db)
  {
    var specification :- Locate(db, withOpcode, false);
    var (withModRm, afterModRm) :- ReadModRmAndSib(specification, withOpcode, bytes);
    var located :- Relocate(db, specification, withModRm);
    ReadOperands(located, withModRm, afterModRm)
  }

  lemma {:induction false} OpcodeIsKept(db: Database, withOpcode: DecodedInstruction, bytes: seq<bv8>)
    requires IsWellFormedDatabase(db)
    ensures match ReadAfterOpcode(db, withOpcode, bytes)
            case Success((decoded, _)) => decoded.opcode == withOpcode.opcode
            case Failure(_) => true
  {
    var located := Locate(db, withOpcode, false);
    if located.Success? {
      var addressed := ReadModRmAndSib(located.value, withOpcode, bytes);
      AddressingKeepsOpcode(located.value, withOpcode, bytes);
      if addressed.Success? {
        var relocated := Relocate(db, located.value, addressed.value.0);
        if relocated.Success? {
          OperandsKeepOpcode(relocated.value, addressed.value.0, addressed.value.1);
        }
      }
    }
  }

  lemma {:induction false} AddressingKeepsOpcode(
    specification: EncodingSpecification, instruction: DecodedInstruction, bytes: seq<bv8>
  )
    ensures match ReadModRmAndSib(specification, instruction, bytes)
            case Success((read, _)) => read.opcode == instruction.opcode
            case Failure(_) => true
  {
  }

  lemma OperandsKeepOpcode(
    specification: EncodingSpecification, instruction: DecodedInstruction, bytes: seq<bv8>
  )
    ensures match ReadOperands(specification, instruction, bytes)
            case Success((read, _)) => read.opcode == instruction.opcode
            case Failure(_) => true
  {
  }

  // When the opcode is not found, another one is read, or none.
  lemma {:induction false} ReadsAnotherOpcode(
    db: Database, specification: EncodingSpecification, instruction: DecodedInstruction, rest: seq<bv8>
  )
    requires IsWellFormedDatabase(db) && EvexBInterpretationsAreAllowed(specification)
    requires Validate(specification, instruction).Ok? && HasReadablePrefix(specification, instruction)
    requires !OpcodeIsFound(db, specification, instruction, rest)
    ensures match ReadInstruction(db, EncodedBytes(specification, instruction) + rest)
            case Success((decoded, _)) => decoded.opcode != ParsedOpcode(specification, instruction)
            case Failure(_) => true
  {
    var withPrefixes := WithPrefixes(specification, instruction);
    var afterOpcode := AfterOpcode(specification, instruction, rest);
    var opcode := ParsedOpcode(specification, instruction);
    var bytes := OpcodeBytes(specification, instruction) + afterOpcode;
    ReadUntilPrefixes(db, specification, instruction, rest);
    OpcodeRoundTrip(db, specification, instruction, rest);
    PrefixesAreShort(db);
    OpcodeHasItsLength(IsListed(db, withPrefixes), IsOpcodePrefix(db), withPrefixes, bytes);
    var read := ReadOpcode(IsListed(db, withPrefixes), IsOpcodePrefix(db), withPrefixes, bytes);
    if read.Success? {
      DropFront(opcode.Bytes(), afterOpcode);
      OpcodeIsKept(db, read.value.0, read.value.1);
    }
  }

  lemma PrefixesAreShort(db: Database)
    requires IsWellFormedDatabase(db)
    ensures AreShort(IsOpcodePrefix(db))
  {
  }

  // ---- An EVEX instruction with a suffix ------------------------------------

  const SUFFIX_SPECIFICATION: EncodingSpecification :=
    EncodingSpecification(
      Opcode(0, 0, 0x0f, 0x4a), NoOperandInOpcode, NoModRmUsage, 0,
      VexSpecification(VexPrefixSpecification(
        EvexType, VexOperandIsFirstSourceRegister, VectorSize128Bit, NoMandatoryPrefix, Map0F, VexWIsIgnored,
        true, VSibUnused, [], EvexOpmaskIsOptional, EvexMaskingMergingOnly)), [], 0)

  // The parsed suffix replaces the EVEX prefix, even if its bits R and R' agree.
  lemma {:induction false} SuffixReplacesEvexPrefix()
    ensures var instruction := DEFAULT_INSTRUCTION.(prefix := Evex(DEFAULT_EVEX.(mapSelect := Map0F)));
            && EvexBInterpretationsAreAllowed(SUFFIX_SPECIFICATION)
            && Validate(SUFFIX_SPECIFICATION, instruction).Ok?
            && Parsed(SUFFIX_SPECIFICATION, instruction).prefix.Vex?
            && Normalize(SUFFIX_SPECIFICATION, instruction).prefix.Evex?
  {
    var instruction := DEFAULT_INSTRUCTION.(prefix := Evex(DEFAULT_EVEX.(mapSelect := Map0F)));
    assert ValidateEvexPrefix(SUFFIX_SPECIFICATION.prefix.vex, instruction).Ok?;
    ParsedIsNormal(SUFFIX_SPECIFICATION, instruction);
  }
}
