// The parser of the binary encoding of x86-64 instructions
// (exegesis/x86/instruction_parser.{h,cc}). The functions say what one phase of
// the parser reads; the class consumes a span phase by phase.
module InstructionParser {
  import opened Bits
  import opened Wrappers
  import opened X86Protos
  import opened InstructionEncodingConstants
  import opened Opcodes
  import opened Architecture

  // What a phase returns on success: the instruction read so far and the bytes
  // that follow.
  type Progress = Result<(DecodedInstruction, seq<bv8>)>

  // ---- Prefixes -------------------------------------------------------------

  function SegmentOverrideOf(byte: bv8): SegmentOverride {
    if byte == CS_OVERRIDE_BYTE then CsOverrideOrBranchNotTaken
    else if byte == SS_OVERRIDE_BYTE then SsOverride
    else if byte == DS_OVERRIDE_BYTE then DsOverrideOrBranchTaken
    else if byte == ES_OVERRIDE_BYTE then EsOverride
    else if byte == FS_OVERRIDE_BYTE then FsOverride
    else if byte == GS_OVERRIDE_BYTE then GsOverride
    else NoSegmentOverride
  }

  function LockOrRepOf(byte: bv8): LockOrRepPrefix {
    if byte == LOCK_PREFIX_BYTE then LockPrefix
    else if byte == REPNE_PREFIX_BYTE then RepnePrefix
    else if byte == REP_PREFIX_BYTE then RepPrefix
    else NoLockOrRep
  }

  predicate IsRexPrefixByte(byte: bv8) {
    (byte & 0xf0) == REX_PREFIX_BASE_BYTE
  }

  predicate IsVexPrefixByte(byte: bv8) {
    byte == TWO_BYTE_VEX_ESCAPE_BYTE || byte == THREE_BYTE_VEX_ESCAPE_BYTE
  }

  // The segment and address size overrides in front of any other prefix; the
  // last segment override wins.
  function SkipOverrides(instruction: DecodedInstruction, bytes: seq<bv8>): (DecodedInstruction, seq<bv8>)
    decreases |bytes|
  {
    if bytes == [] then (instruction, bytes)
    else if !SegmentOverrideOf(bytes[0]).NoSegmentOverride? then
      SkipOverrides(instruction.(segmentOverride := SegmentOverrideOf(bytes[0])), bytes[1..])
    else if bytes[0] == ADDRESS_SIZE_OVERRIDE_BYTE then
      SkipOverrides(instruction.(addressSizeOverride := true), bytes[1..])
    else (instruction, bytes)
  }

  function AddLockOrRepPrefix(instruction: DecodedInstruction, prefix: LockOrRepPrefix): Result<DecodedInstruction> {
    var legacy := instruction.GetLegacyPrefixes();
    if instruction.prefix.Vex? || !legacy.lockOrRep.NoLockOrRep? then Failure(InvalidArgument)
    else Success(instruction.(prefix := Legacy(legacy.(lockOrRep := prefix))))
  }

  function AddOperandSizeOverridePrefix(instruction: DecodedInstruction): Result<DecodedInstruction> {
    var legacy := instruction.GetLegacyPrefixes();
    if instruction.prefix.Vex? then Failure(InvalidArgument)
    else Success(instruction.(prefix := Legacy(legacy.(operandSizeOverride := true))))
  }

  function RexOf(byte: bv8): Rex {
    var bits := byte as bv32;
    Rex(IsNthBitSet(bits, 0), IsNthBitSet(bits, 2), IsNthBitSet(bits, 3), IsNthBitSet(bits, 1))
  }

  function ParseRexPrefix(instruction: DecodedInstruction, byte: bv8): Result<DecodedInstruction> {
    var legacy := instruction.GetLegacyPrefixes();
    if instruction.prefix.Vex? || legacy.optionalRex.Some? then Failure(InvalidArgument)
    else Success(instruction.(prefix := Legacy(legacy.(optionalRex := Some(RexOf(byte))))))
  }

  datatype PrefixStep = NotAPrefix | Step(result: Result<DecodedInstruction>)

  // What one byte of the legacy prefix run does.
  function LegacyPrefixStep(instruction: DecodedInstruction, byte: bv8): PrefixStep {
    if !LockOrRepOf(byte).NoLockOrRep? then Step(AddLockOrRepPrefix(instruction, LockOrRepOf(byte)))
    else if !SegmentOverrideOf(byte).NoSegmentOverride? then
      Step(Success(instruction.(segmentOverride := SegmentOverrideOf(byte))))
    else if byte == OPERAND_SIZE_OVERRIDE_BYTE then Step(AddOperandSizeOverridePrefix(instruction))
    else if byte == ADDRESS_SIZE_OVERRIDE_BYTE then Step(Success(instruction.(addressSizeOverride := true)))
    else if IsRexPrefixByte(byte) then Step(ParseRexPrefix(instruction, byte))
    else NotAPrefix
  }

  function SkipLegacyPrefixes(instruction: DecodedInstruction, bytes: seq<bv8>): Progress
    decreases |bytes|
  {
    if bytes == [] then Failure(InvalidArgument)
    else
      match LegacyPrefixStep(instruction, bytes[0])
      case NotAPrefix => Success((instruction, bytes))
      case Step(result) =>
        var next :- result;
        SkipLegacyPrefixes(next, bytes[1..])
  }

  function MapSelectOf(bits: bv32): MapSelect {
    if bits == 0 then UndefinedOperandMap
    else if bits == 1 then Map0F
    else if bits == 2 then Map0F38
    else if bits == 3 then Map0F3A
    else ReservedMap(LowByte(bits))
  }

  function MandatoryPrefixOf(bits: bv32): MandatoryPrefix {
    if bits == 0 then NoMandatoryPrefix
    else if bits == 1 then MandatoryOperandSizeOverride
    else if bits == 2 then MandatoryRepe
    else MandatoryRepne
  }

  function ThreeByteVex(first: bv8, second: bv8): VexFields {
    var d1, d2 := first as bv32, second as bv32;
    VexFields(
      MandatoryPrefixOf(GetBitRange(d2, 0, 2)),
      IsNthBitSet(d1, 5), IsNthBitSet(d1, 7), IsNthBitSet(d1, 6), IsNthBitSet(d2, 7),
      GetBitRange(d2, 3, 7), MapSelectOf(GetBitRange(d1, 0, 5)), IsNthBitSet(d2, 2), 0)
  }

  function TwoByteVex(data: bv8): VexFields {
    var d := data as bv32;
    VexFields(
      MandatoryPrefixOf(GetBitRange(d, 0, 2)),
      true, IsNthBitSet(d, 7), true, false,
      GetBitRange(d, 3, 7), Map0F, IsNthBitSet(d, 2), 0)
  }

  function ReadVexPrefix(instruction: DecodedInstruction, bytes: seq<bv8>): Progress
    requires bytes != []
  {
    if bytes[0] == THREE_BYTE_VEX_ESCAPE_BYTE then
      if |bytes| < 3 then Failure(InvalidArgument)
      else Success((instruction.(prefix := Vex(ThreeByteVex(bytes[1], bytes[2]))), bytes[3..]))
    else if bytes[0] == TWO_BYTE_VEX_ESCAPE_BYTE then
      if |bytes| < 2 then Failure(InvalidArgument)
      else Success((instruction.(prefix := Vex(TwoByteVex(bytes[1]))), bytes[2..]))
    else Failure(InvalidArgument)
  }

  function TwoBits(high: bool, low: bool): bv32 {
    (Flag(high) << 1) | Flag(low)
  }

  function EvexOf(first: bv8, second: bv8, third: bv8): EvexFields {
    var d1, d2, d3 := first as bv32, second as bv32, third as bv32;
    EvexFields(
      MandatoryPrefixOf(GetBitRange(d2, 0, 2)),
      MapSelectOf(GetBitRange(d1, 0, 2)),
      GetBitRange(d2, 3, 7) | (Flag(IsNthBitSet(d3, 3)) << 4),
      IsNthBitSet(d1, 5),
      TwoBits(IsNthBitSet(d1, 7), IsNthBitSet(d1, 4)),
      IsNthBitSet(d1, 6),
      IsNthBitSet(d2, 7),
      IsNthBitSet(d3, 7),
      IsNthBitSet(d3, 4),
      GetBitRange(d3, 5, 7),
      GetBitRange(d3, 0, 3))
  }

  function ReadEvexPrefix(instruction: DecodedInstruction, bytes: seq<bv8>): Progress {
    if |bytes| < 4 then Failure(InvalidArgument)
    else if GetBitRange(bytes[1] as bv32, 2, 4) != 0 then Failure(InvalidArgument)
    else if !IsNthBitSet(bytes[2] as bv32, 2) then Failure(InvalidArgument)
    else Success((instruction.(prefix := Evex(EvexOf(bytes[1], bytes[2], bytes[3]))), bytes[4..]))
  }

  function ReadPrefixes(instruction: DecodedInstruction, bytes: seq<bv8>): Progress {
    var (next, rest) := SkipOverrides(instruction, bytes);
    if rest != [] && IsVexPrefixByte(rest[0]) then ReadVexPrefix(next, rest)
    else if rest != [] && rest[0] == EVEX_ESCAPE_BYTE then ReadEvexPrefix(next, rest)
    else SkipLegacyPrefixes(next, rest)
  }

  // ---- Opcode ---------------------------------------------------------------

  // The first of the instructions that has an operand in the opcode.
  function FirstWithOperandInOpcode(db: Database, indices: seq<nat>): Option<EncodingSpecification>
    requires IsWellFormedDatabase(db)
  {
    if indices == [] then None
    else if EncodesOperandInOpcode(db, indices[0]) then Some(SpecificationAt(db, indices[0]))
    else FirstWithOperandInOpcode(db, indices[1..])
  }

  function FindSpecification(
    db: Database, instruction: DecodedInstruction, checkModRm: bool
  ): Option<EncodingSpecification>
    requires IsWellFormedDatabase(db)
  {
    match InstructionIndex(db, instruction, checkModRm)
    case Some(index) => Some(SpecificationAt(db, index))
    case None =>
      var withoutOperand := instruction.(opcode := instruction.opcode.WithoutOperandBits());
      FirstWithOperandInOpcode(db, InstructionIndices(db, withoutOperand, checkModRm))
  }

  function WithMap(mapSelect: MapSelect, byte: bv8): Result<Opcode> {
    match mapSelect
    case Map0F => Success(Opcode(0, 0, 0x0f, byte))
    case Map0F38 => Success(Opcode(0, 0x0f, 0x38, byte))
    case Map0F3A => Success(Opcode(0, 0x0f, 0x3a, byte))
    case _ => Failure(InvalidArgument)
  }

  // Whether some instruction has this opcode and the prefixes read so far.
  function IsListed(db: Database, instruction: DecodedInstruction): Opcode -> bool
    requires IsWellFormedDatabase(db)
  {
    (opcode: Opcode) => IsWellFormedDatabase(db) &&
                      FindSpecification(db, instruction.(opcode := opcode), false).Some?
  }

  function IsOpcodePrefix(db: Database): Opcode -> bool
    requires IsWellFormedDatabase(db)
  {
    (opcode: Opcode) => IsWellFormedDatabase(db) && IsLegacyOpcodePrefix(db, opcode)
  }

  // Extends the opcode as long as it is a prefix of the opcode of a legacy
  // instruction. The result is the longest extension that is listed, or the opcode
  // found so far, and the bytes after it.
  function ExtendOpcode(
    isListed: Opcode -> bool, isPrefix: Opcode -> bool,
    found: Opcode, afterFound: seq<bv8>, extended: Opcode, bytes: seq<bv8>
  ): (Opcode, seq<bv8>)
    decreases |bytes|
  {
    if bytes == [] || !isPrefix(extended) then (found, afterFound)
    else
      var next := extended.AppendByte(bytes[0]);
      if isListed(next) then ExtendOpcode(isListed, isPrefix, next, bytes[1..], next, bytes[1..])
      else ExtendOpcode(isListed, isPrefix, found, afterFound, next, bytes[1..])
  }

  function Locate(db: Database, instruction: DecodedInstruction, checkModRm: bool): Result<EncodingSpecification>
    requires IsWellFormedDatabase(db)
  {
    match FindSpecification(db, instruction, checkModRm)
    case None => Failure(NotFound)
    case Some(specification) => Success(specification)
  }

  function ReadOpcode(
    isListed: Opcode -> bool, isPrefix: Opcode -> bool, instruction: DecodedInstruction, bytes: seq<bv8>
  ): Progress
  {
    if bytes == [] then Failure(InvalidArgument)
    else if instruction.prefix.Vex? || instruction.prefix.Evex? then
      var mapSelect :=
        if instruction.prefix.Vex? then instruction.prefix.vex.mapSelect else instruction.prefix.evex.mapSelect;
      var opcode :- WithMap(mapSelect, bytes[0]);
      Success((instruction.(opcode := opcode), bytes[1..]))
    else
      var first := OneByte(bytes[0]);
      var (opcode, rest) := ExtendOpcode(isListed, isPrefix, first, bytes[1..], first, bytes[1..]);
      Success((instruction.(opcode := opcode), rest))
  }

  // ---- ModR/M, SIB and displacement -----------------------------------------

  function AddressingModeOf(bits: bv32): AddressingMode {
    if bits == 0 then Indirect
    else if bits == 1 then IndirectWith8BitDisplacement
    else if bits == 2 then IndirectWith32BitDisplacement
    else Direct
  }

  function ModRmOf(byte: bv8, displacement: bv64): ModRm {
    var bits := byte as bv32;
    ModRm(AddressingModeOf(GetBitRange(bits, 6, 8)), GetBitRange(bits, 3, 6), GetBitRange(bits, 0, 3), displacement)
  }

  function SibOf(byte: bv8): Sib {
    var bits := byte as bv32;
    Sib(GetBitRange(bits, 6, 8), GetBitRange(bits, 3, 6), GetBitRange(bits, 0, 3))
  }

  function DisplacementSize(modrm: ModRm, sib: Option<Sib>): nat {
    match modrm.addressingMode
    case Direct => 0
    case Indirect => if modrm.rmOperand == 5 || (sib.Some? && sib.value.base == 5) then 4 else 0
    case IndirectWith8BitDisplacement => 1
    case IndirectWith32BitDisplacement => 4
  }

  function DisplacementOf(bytes: seq<bv8>, size: nat): bv64
    requires size <= |bytes|
  {
    if size == 1 then SignExtend8(bytes[0])
    else if size == 4 then SignExtend32(DWordValue(bytes[0], bytes[1], bytes[2], bytes[3]))
    else 0
  }

  function HasSib(modrm: ModRm): bool {
    !modrm.addressingMode.Direct? && modrm.rmOperand == 4
  }

  // The fields of the ModR/M and SIB bytes and the displacement that follows.
  function ReadAddressing(bytes: seq<bv8>): Result<(ModRm, Option<Sib>, seq<bv8>)> {
    if bytes == [] then Failure(InvalidArgument)
    else
      var modrm := ModRmOf(bytes[0], 0);
      if HasSib(modrm) && |bytes| < 2 then Failure(InvalidArgument)
      else
        var sib := if HasSib(modrm) then Some(SibOf(bytes[1])) else None;
        var rest := if HasSib(modrm) then bytes[2..] else bytes[1..];
        var size := DisplacementSize(modrm, sib);
        if |rest| < size then Failure(InvalidArgument)
        else Success((ModRmOf(bytes[0], DisplacementOf(rest, size)), sib, rest[size..]))
  }

  function ReadModRmAndSib(
    specification: EncodingSpecification, instruction: DecodedInstruction, bytes: seq<bv8>
  ): Progress
  {
    if specification.modrmUsage.NoModRmUsage? then Success((instruction, bytes))
    else
      var (modrm, sib, rest) :- ReadAddressing(bytes);
      Success((instruction.(optionalModRm := Some(modrm), optionalSib := sib), rest))
  }

  // The specification is looked up again when the ModR/M byte is known.
  function Relocate(
    db: Database, specification: EncodingSpecification, instruction: DecodedInstruction
  ): Result<EncodingSpecification>
    requires IsWellFormedDatabase(db)
  {
    if specification.modrmUsage.NoModRmUsage? then Success(specification) else Locate(db, instruction, true)
  }

  // ---- Immediate values, code offset and VEX suffix -------------------------

  function ReadValues(sizes: seq<nat>, bytes: seq<bv8>): Result<(seq<seq<bv8>>, seq<bv8>)> {
    if sizes == [] then Success(([], bytes))
    else if |bytes| < sizes[0] then Failure(InvalidArgument)
    else
      var (values, rest) :- ReadValues(sizes[1..], bytes[sizes[0]..]);
      Success(([bytes[..sizes[0]]] + values, rest))
  }

  function ReadImmediateValues(
    specification: EncodingSpecification, instruction: DecodedInstruction, bytes: seq<bv8>
  ): Progress
  {
    var (values, rest) :- ReadValues(specification.immediateValueBytes, bytes);
    Success((instruction.(immediateValue := instruction.immediateValue + values), rest))
  }

  function ReadCodeOffset(
    specification: EncodingSpecification, instruction: DecodedInstruction, bytes: seq<bv8>
  ): Progress
  {
    var size := specification.codeOffsetBytes;
    if size == 0 then Success((instruction, bytes))
    else if |bytes| < size then Failure(InvalidArgument)
    else Success((instruction.(codeOffset := bytes[..size]), bytes[size..]))
  }

  // The suffix is stored in the VEX prefix; storing it there drops an EVEX
  // prefix, because the two are alternatives of one field.
  function ReadVexSuffix(
    specification: EncodingSpecification, instruction: DecodedInstruction, bytes: seq<bv8>
  ): Progress
  {
    if !specification.GetVexPrefix().hasVexOperandSuffix then Success((instruction, bytes))
    else if bytes == [] then Failure(InvalidArgument)
    else
      var vex := instruction.GetVexPrefix().(vexSuffixValue := bytes[0] as bv32);
      Success((instruction.(prefix := Vex(vex)), bytes[1..]))
  }

  function ReadOperands(
    specification: EncodingSpecification, instruction: DecodedInstruction, bytes: seq<bv8>
  ): Progress
  {
    var (withImmediates, afterImmediates) :- ReadImmediateValues(specification, instruction, bytes);
    var (withOffset, afterOffset) :- ReadCodeOffset(specification, withImmediates, afterImmediates);
    ReadVexSuffix(specification, withOffset, afterOffset)
  }

  // ---- The whole instruction ------------------------------------------------

  function ReadInstruction(db: Database, bytes: seq<bv8>): Progress
    requires IsWellFormedDatabase(db)
  {
    var (withPrefixes, afterPrefixes) :- ReadPrefixes(DEFAULT_INSTRUCTION, bytes);
    var (withOpcode, afterOpcode) :-
      ReadOpcode(IsListed(db, withPrefixes), IsOpcodePrefix(db), withPrefixes, afterPrefixes);
    var specification :- Locate(db, withOpcode, false);
    var (withModRm, afterModRm) :- ReadModRmAndSib(specification, withOpcode, afterOpcode);
    var located :- Relocate(db, specification, withModRm);
    ReadOperands(located, withModRm, afterModRm)
  }

  // ---- The parser -----------------------------------------------------------

  // A method leaves the remaining span unspecified when it fails.
  predicate Agrees(progress: Progress, status: Status, instruction: DecodedInstruction, rest: seq<bv8>) {
    match progress
    case Success((expected, expectedRest)) => status.Ok? && instruction == expected && rest == expectedRest
    case Failure(error) => status == error && !status.Ok?
  }

  predicate HasLocated(located: Result<EncodingSpecification>, status: Status, found: Option<EncodingSpecification>) {
    match located
    case Success(specification) => status.Ok? && found == Some(specification)
    case Failure(error) => status == error && !status.Ok?
  }

  class InstructionParser {
    const architecture: X86Architecture
    var specification: Option<EncodingSpecification>
    var instruction: DecodedInstruction

    constructor (architecture: X86Architecture)
      ensures this.architecture == architecture
    {
      this.architecture := architecture;
      specification := None;
      instruction := DEFAULT_INSTRUCTION;
    }

    method ConsumeBinaryEncoding(encoded: seq<bv8>) returns (result: Result<DecodedInstruction>, rest: seq<bv8>)
      requires architecture.Valid()
      modifies this
      ensures match ReadInstruction(architecture.instructions, encoded)
              case Success((expected, expectedRest)) => result == Success(expected) && rest == expectedRest
              case Failure(error) => result == Failure(error)
    {
      instruction, specification := DEFAULT_INSTRUCTION, None;
      var status: Status;
      status, rest := ConsumePrefixes(encoded);
      if !status.Ok? {
        return Failure(status), rest;
      }
      status, rest := ConsumeOpcode(rest);
      if !status.Ok? {
        return Failure(status), rest;
      }
      status, rest := ConsumeModRmAndSibIfNeeded(rest);
      if !status.Ok? {
        return Failure(status), rest;
      }
      status, rest := ConsumeOperands(rest);
      if !status.Ok? {
        return Failure(status), rest;
      }
      return Success(instruction), rest;
    }

    method ConsumeOverridePrefixIfNeeded(bytes: seq<bv8>) returns (consumed: bool, rest: seq<bv8>)
      modifies `instruction
      ensures SkipOverrides(instruction, rest) == SkipOverrides(old(instruction), bytes)
      ensures consumed ==> |rest| < |bytes|
      ensures !consumed ==> rest == bytes && SkipOverrides(old(instruction), bytes) == (instruction, rest)
    {
      rest := bytes;
      if bytes == [] {
        return false, bytes;
      }
      if !SegmentOverrideOf(bytes[0]).NoSegmentOverride? {
        instruction := instruction.(segmentOverride := SegmentOverrideOf(bytes[0]));
        return true, bytes[1..];
      }
      if bytes[0] == ADDRESS_SIZE_OVERRIDE_BYTE {
        instruction := instruction.(addressSizeOverride := true);
        return true, bytes[1..];
      }
      return false, bytes;
    }

    method ConsumePrefixes(bytes: seq<bv8>) returns (status: Status, rest: seq<bv8>)
      modifies `instruction
      ensures Agrees(ReadPrefixes(old(instruction), bytes), status, instruction, rest)
    {
      var consumed;
      consumed, rest := ConsumeOverridePrefixIfNeeded(bytes);
      while consumed
        invariant SkipOverrides(instruction, rest) == SkipOverrides(old(instruction), bytes)
        invariant !consumed ==> SkipOverrides(old(instruction), bytes) == (instruction, rest)
        decreases |rest|, consumed
      {
        consumed, rest := ConsumeOverridePrefixIfNeeded(rest);
      }
      if rest != [] && IsVexPrefixByte(rest[0]) {
        status, rest := ConsumeVexPrefix(rest);
        return;
      }
      if rest != [] && rest[0] == EVEX_ESCAPE_BYTE {
        status, rest := ConsumeEvexPrefix(rest);
        return;
      }
      status, rest := ConsumeLegacyPrefixes(rest);
    }

    method ConsumeLegacyPrefixes(bytes: seq<bv8>) returns (status: Status, rest: seq<bv8>)
      modifies `instruction
      ensures Agrees(SkipLegacyPrefixes(old(instruction), bytes), status, instruction, rest)
    {
      rest := bytes;
      while rest != []
        invariant SkipLegacyPrefixes(instruction, rest) == SkipLegacyPrefixes(old(instruction), bytes)
        decreases |rest|
      {
        match LegacyPrefixStep(instruction, rest[0])
        case NotAPrefix =>
          return Ok, rest;
        case Step(result) =>
          if result.Failure? {
            return result.error, rest;
          }
          instruction := result.value;
          rest := rest[1..];
      }
      return InvalidArgument, rest;
    }

    method ConsumeVexPrefix(bytes: seq<bv8>) returns (status: Status, rest: seq<bv8>)
      requires bytes != []
      modifies `instruction
      ensures Agrees(ReadVexPrefix(old(instruction), bytes), status, instruction, rest)
    {
      var escape := bytes[0];
      rest := bytes[1..];
      if escape == THREE_BYTE_VEX_ESCAPE_BYTE {
        if |rest| < 2 {
          return InvalidArgument, rest;
        }
        instruction := instruction.(prefix := Vex(ThreeByteVex(rest[0], rest[1])));
        return Ok, rest[2..];
      } else if escape == TWO_BYTE_VEX_ESCAPE_BYTE {
        if rest == [] {
          return InvalidArgument, rest;
        }
        instruction := instruction.(prefix := Vex(TwoByteVex(rest[0])));
        return Ok, rest[1..];
      }
      return InvalidArgument, rest;
    }

    method ConsumeEvexPrefix(bytes: seq<bv8>) returns (status: Status, rest: seq<bv8>)
      modifies `instruction
      ensures Agrees(ReadEvexPrefix(old(instruction), bytes), status, instruction, rest)
    {
      rest := bytes;
      if |bytes| < 4 {
        return InvalidArgument, rest;
      }
      if GetBitRange(bytes[1] as bv32, 2, 4) != 0 {
        return InvalidArgument, rest;
      }
      if !IsNthBitSet(bytes[2] as bv32, 2) {
        return InvalidArgument, rest;
      }
      instruction := instruction.(prefix := Evex(EvexOf(bytes[1], bytes[2], bytes[3])));
      return Ok, bytes[4..];
    }

    // Looks the instruction up by its own opcode, then by the opcode without the
    // operand bits.
    method GetEncodingSpecification(checkModRm: bool) returns (found: Option<EncodingSpecification>)
      requires architecture.Valid()
      requires checkModRm ==> instruction.optionalModRm.Some?
      modifies `instruction
      ensures instruction == old(instruction)
      ensures found == FindSpecification(architecture.instructions, instruction, checkModRm)
    {
      var db := architecture.instructions;
      var index := architecture.GetInstructionIndex(instruction, checkModRm);
      if index.Some? {
        return Some(SpecificationAt(db, index.value));
      }
      var opcode := instruction.opcode;
      instruction := instruction.(opcode := opcode.WithoutOperandBits());
      var indices := architecture.GetInstructionIndices(instruction, checkModRm);
      instruction := instruction.(opcode := opcode);
      for i := 0 to |indices|
        invariant FirstWithOperandInOpcode(db, indices) == FirstWithOperandInOpcode(db, indices[i..])
      {
        if EncodesOperandInOpcode(db, indices[i]) {
          return Some(SpecificationAt(db, indices[i]));
        }
      }
      return None;
    }

    method LocateSpecification(checkModRm: bool) returns (status: Status)
      requires architecture.Valid()
      requires checkModRm ==> instruction.optionalModRm.Some?
      modifies this
      ensures instruction == old(instruction)
      ensures HasLocated(Locate(architecture.instructions, instruction, checkModRm), status, specification)
    {
      specification := GetEncodingSpecification(checkModRm);
      return if specification.None? then NotFound else Ok;
    }

    method ConsumeOpcode(bytes: seq<bv8>) returns (status: Status, rest: seq<bv8>)
      requires architecture.Valid()
      modifies this
      ensures match ReadOpcode(IsListed(architecture.instructions, old(instruction)),
                               IsOpcodePrefix(architecture.instructions), old(instruction), bytes)
              case Failure(error) => status == error && !status.Ok?
              case Success((expected, expectedRest)) =>
                instruction == expected && rest == expectedRest &&
                HasLocated(Locate(architecture.instructions, instruction, false), status, specification)
    {
      rest := bytes;
      if bytes == [] {
        return InvalidArgument, rest;
      }
      rest := bytes[1..];
      var opcode := OneByte(bytes[0]);
      if instruction.prefix.Vex? || instruction.prefix.Evex? {
        var mapSelect :=
          if instruction.prefix.Vex? then instruction.prefix.vex.mapSelect else instruction.prefix.evex.mapSelect;
        var withMap := WithMap(mapSelect, bytes[0]);
        if withMap.Failure? {
          return withMap.error, rest;
        }
        opcode := withMap.value;
      } else {
        opcode, rest := ConsumeLegacyOpcode(opcode, rest);
      }
      instruction := instruction.(opcode := opcode);
      status := LocateSpecification(false);
    }

    // Takes the longest sequence of bytes that is the opcode of a legacy
    // instruction.
    method ConsumeLegacyOpcode(first: Opcode, bytes: seq<bv8>) returns (opcode: Opcode, rest: seq<bv8>)
      requires architecture.Valid()
      modifies this
      ensures (opcode, rest) ==
              ExtendOpcode(IsListed(architecture.instructions, old(instruction)),
                           IsOpcodePrefix(architecture.instructions), first, bytes, first, bytes)
      ensures instruction == old(instruction).(opcode := instruction.opcode)
    {
      ghost var isListed := IsListed(architecture.instructions, instruction);
      ghost var isPrefix := IsOpcodePrefix(architecture.instructions);
      opcode, rest := first, bytes;
      var extended, current := first, bytes;
      while current != []
        invariant instruction == old(instruction).(opcode := instruction.opcode)
        invariant ExtendOpcode(isListed, isPrefix, opcode, rest, extended, current) ==
                  ExtendOpcode(isListed, isPrefix, first, bytes, first, bytes)
        decreases |current|
      {
        var isOpcodePrefix := architecture.IsOpcodePrefix(extended);
        if !isOpcodePrefix {
          break;
        }
        extended := extended.AppendByte(current[0]);
        instruction := instruction.(opcode := extended);
        specification := GetEncodingSpecification(false);
        current := current[1..];
        if specification.Some? {
          opcode, rest := extended, current;
        }
      }
    }

    method ConsumeModRmAndSibIfNeeded(bytes: seq<bv8>) returns (status: Status, rest: seq<bv8>)
      requires architecture.Valid() && specification.Some?
      modifies this
      ensures match ReadModRmAndSib(old(specification).value, old(instruction), bytes)
              case Failure(error) => status == error && !status.Ok?
              case Success((expected, expectedRest)) =>
                instruction == expected && rest == expectedRest &&
                HasLocated(Relocate(architecture.instructions, old(specification).value, instruction),
                           status, specification)
    {
      rest := bytes;
      if specification.value.modrmUsage.NoModRmUsage? {
        return Ok, rest;
      }
      if bytes == [] {
        return InvalidArgument, rest;
      }
      var modrm := ModRmOf(bytes[0], 0);
      var sib := None;
      rest := bytes[1..];
      if HasSib(modrm) {
        if rest == [] {
          return InvalidArgument, rest;
        }
        sib := Some(SibOf(rest[0]));
        rest := rest[1..];
      }
      var size := DisplacementSize(modrm, sib);
      if |rest| < size {
        return InvalidArgument, rest;
      }
      modrm := modrm.(addressDisplacement := DisplacementOf(rest, size));
      rest := rest[size..];
      assert ReadAddressing(bytes) == Success((modrm, sib, rest));
      instruction := instruction.(optionalModRm := Some(modrm), optionalSib := sib);
      status := LocateSpecification(true);
    }

    method ConsumeOperands(bytes: seq<bv8>) returns (status: Status, rest: seq<bv8>)
      requires specification.Some?
      modifies `instruction
      ensures Agrees(ReadOperands(specification.value, old(instruction), bytes),
                     status, instruction, rest)
    {
      status, rest := ConsumeImmediateValuesIfNeeded(bytes);
      if !status.Ok? {
        return;
      }
      status, rest := ConsumeCodeOffsetIfNeeded(rest);
      if !status.Ok? {
        return;
      }
      status, rest := ConsumeVexSuffixIfNeeded(rest);
    }

    method ConsumeImmediateValuesIfNeeded(bytes: seq<bv8>) returns (status: Status, rest: seq<bv8>)
      requires specification.Some?
      modifies `instruction
      ensures Agrees(ReadImmediateValues(specification.value, old(instruction), bytes), status, instruction, rest)
    {
      var sizes := specification.value.immediateValueBytes;
      rest := bytes;
      for i := 0 to |sizes|
        invariant instruction == old(instruction).(immediateValue := instruction.immediateValue)
        invariant ReadAfter(instruction.immediateValue, sizes[i..], rest) ==
                  ReadAfter(old(instruction).immediateValue, sizes, bytes)
      {
        var size := sizes[i];
        assert sizes[i..][1..] == sizes[i + 1..];
        if |rest| < size {
          return InvalidArgument, rest;
        }
        ReadOneValue(instruction.immediateValue, sizes[i..], rest);
        instruction := instruction.(immediateValue := instruction.immediateValue + [rest[..size]]);
        rest := rest[size..];
      }
      assert instruction.immediateValue + [] == instruction.immediateValue;
      return Ok, rest;
    }

    method ConsumeCodeOffsetIfNeeded(bytes: seq<bv8>) returns (status: Status, rest: seq<bv8>)
      requires specification.Some?
      modifies `instruction
      ensures Agrees(ReadCodeOffset(specification.value, old(instruction), bytes), status, instruction, rest)
    {
      rest := bytes;
      var size := specification.value.codeOffsetBytes;
      if size != 0 {
        if |bytes| < size {
          return InvalidArgument, rest;
        }
        instruction := instruction.(codeOffset := bytes[..size]);
        rest := bytes[size..];
      }
      return Ok, rest;
    }

    method ConsumeVexSuffixIfNeeded(bytes: seq<bv8>) returns (status: Status, rest: seq<bv8>)
      requires specification.Some?
      modifies `instruction
      ensures Agrees(ReadVexSuffix(specification.value, old(instruction), bytes), status, instruction, rest)
    {
      rest := bytes;
      if specification.value.GetVexPrefix().hasVexOperandSuffix {
        if bytes == [] {
          return InvalidArgument, rest;
        }
        var vex := instruction.GetVexPrefix().(vexSuffixValue := bytes[0] as bv32);
        instruction := instruction.(prefix := Vex(vex));
        rest := bytes[1..];
      }
      return Ok, rest;
    }
  }

  // The immediate values read before, followed by the ones still to be read.
  function ReadAfter(values: seq<seq<bv8>>, sizes: seq<nat>, bytes: seq<bv8>): Result<(seq<seq<bv8>>, seq<bv8>)> {
    var (more, rest) :- ReadValues(sizes, bytes);
    Success((values + more, rest))
  }

  lemma ReadOneValue(values: seq<seq<bv8>>, sizes: seq<nat>, bytes: seq<bv8>)
    requires sizes != [] && sizes[0] <= |bytes|
    ensures ReadAfter(values, sizes, bytes) ==
            ReadAfter(values + [bytes[..sizes[0]]], sizes[1..], bytes[sizes[0]..])
  {
    var more := ReadValues(sizes[1..], bytes[sizes[0]..]);
    if more.Success? {
      var value := bytes[..sizes[0]];
      assert values + ([value] + more.value.0) == (values + [value]) + more.value.0;
    }
  }
}
