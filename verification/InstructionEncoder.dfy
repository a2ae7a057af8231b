// The encoder of x86-64 instructions (exegesis/x86/instruction_encoder.cc) and
// the constants of the encoding (exegesis/x86/instruction_encoding_constants.h).

module InstructionEncodingConstants {
  const LOCK_PREFIX_BYTE: bv8 := 0xf0
  const REP_PREFIX_BYTE: bv8 := 0xf3
  const REPNE_PREFIX_BYTE: bv8 := 0xf2
  const OPERAND_SIZE_OVERRIDE_BYTE: bv8 := 0x66
  const ADDRESS_SIZE_OVERRIDE_BYTE: bv8 := 0x67
  const CS_OVERRIDE_BYTE: bv8 := 0x2e
  const SS_OVERRIDE_BYTE: bv8 := 0x36
  const DS_OVERRIDE_BYTE: bv8 := 0x3e
  const ES_OVERRIDE_BYTE: bv8 := 0x26
  const FS_OVERRIDE_BYTE: bv8 := 0x64
  const GS_OVERRIDE_BYTE: bv8 := 0x65
  const REX_PREFIX_BASE_BYTE: bv8 := 0x40
  const TWO_BYTE_VEX_ESCAPE_BYTE: bv8 := 0xc5
  const THREE_BYTE_VEX_ESCAPE_BYTE: bv8 := 0xc4
  const EVEX_ESCAPE_BYTE: bv8 := 0x62
}

module InstructionEncoder {
  import opened Bits
  import opened Opcodes
  import opened Wrappers
  import opened X86Protos
  import opened InstructionEncoding
  import opened InstructionEncodingConstants

  // ---- Validation -----------------------------------------------------------

  // What GetUsedEvexBInterpretation CHECKs about the specification.
  predicate EvexBInterpretationsAreAllowed(specification: EncodingSpecification) {
    AllowedEvexBInterpretations(specification.GetVexPrefix().evexBInterpretations)
  }

  function Validate(specification: EncodingSpecification, instruction: DecodedInstruction): Status
    requires EvexBInterpretationsAreAllowed(specification)
  {
    ValidatePrefix(specification, instruction)
    .Then(ValidateOpcode(specification, instruction))
    .Then(ValidateModRm(specification, instruction))
    .Then(ValidateImmediateValues(specification, instruction))
    .Then(ValidateVexSuffix(specification, instruction))
  }

  function ValidatePrefix(specification: EncodingSpecification, instruction: DecodedInstruction): Status
    requires EvexBInterpretationsAreAllowed(specification)
  {
    match specification.prefix
    case LegacySpecification(legacy) => ValidateLegacyPrefixes(legacy, instruction)
    case VexSpecification(vex) =>
      (match vex.prefixType
       case VexType => ValidateVexPrefix(vex, instruction)
       case EvexType => ValidateEvexPrefix(vex, instruction)
       case UndefinedPrefixType => Internal)
    case NoPrefixSpecification => Ok
  }

  function ValidateLegacyPrefixes(specification: LegacyPrefixSpecification, instruction: DecodedInstruction): Status {
    var prefixes := instruction.GetLegacyPrefixes();
    if instruction.prefix.Vex? then InvalidArgument
    else if !PrefixMatchesSpecification(specification.rexWPrefix, prefixes.GetRex().w) then InvalidArgument
    else if specification.hasMandatoryRepePrefix && !prefixes.lockOrRep.RepPrefix? then InvalidArgument
    else if specification.hasMandatoryRepnePrefix && !prefixes.lockOrRep.RepnePrefix? then InvalidArgument
    else if
      !PrefixMatchesSpecification(specification.operandSizeOverridePrefix, prefixes.operandSizeOverride)
    then InvalidArgument
    else if specification.hasMandatoryAddressSizeOverridePrefix && !instruction.addressSizeOverride
    then InvalidArgument
    else Ok
  }

  function ValidateVexPrefix(specification: VexPrefixSpecification, instruction: DecodedInstruction): Status {
    var vex := instruction.GetVexPrefix();
    if !instruction.prefix.Vex? then InvalidArgument
    else
      ValidateVexRegisterOperandBits(specification, vex.invertedRegisterOperand)
      .Then(ValidateVectorSizeBits(specification.vectorSize, Flag(vex.use256BitVectorLength), VexType))
      .Then(ValidateVexWBit(specification.vexWUsage, vex.w))
      .Then(ValidateMandatoryPrefixBits(specification, vex.mandatoryPrefix))
      .Then(ValidateMapSelectBits(specification, vex.mapSelect))
  }

  function ValidateEvexPrefix(specification: VexPrefixSpecification, instruction: DecodedInstruction): Status
    requires AllowedEvexBInterpretations(specification.evexBInterpretations)
  {
    var evex := instruction.GetEvexPrefix();
    if !instruction.prefix.Evex? then InvalidArgument
    else
      ValidateVexRegisterOperandBits(specification, evex.invertedRegisterOperand)
      .Then(ValidateVectorSizeBits(specification.vectorSize, evex.vectorLengthOrRounding, EvexType))
      .Then(ValidateVexWBit(specification.vexWUsage, evex.w))
      .Then(ValidateMandatoryPrefixBits(specification, evex.mandatoryPrefix))
      .Then(ValidateMapSelectBits(specification, evex.mapSelect))
      .Then(ValidateEvexBBit(specification, instruction))
      .Then(ValidateEvexOpmask(specification, instruction))
  }

  function ValidateVexSuffix(specification: EncodingSpecification, instruction: DecodedInstruction): Status {
    if !specification.prefix.VexSpecification? then Ok
    else if !specification.prefix.vex.hasVexOperandSuffix && instruction.GetVexPrefix().vexSuffixValue > 0
    then InvalidArgument
    else Ok
  }

  // An opcode of zero is filled in by the encoder.
  function ValidateOpcode(specification: EncodingSpecification, instruction: DecodedInstruction): Status {
    if instruction.opcode == ZERO then Ok
    else if specification.operandInOpcode.NoOperandInOpcode? then
      if instruction.opcode == specification.opcode then Ok else InvalidArgument
    else if instruction.opcode.WithoutOperandBits() == specification.opcode then Ok
    else InvalidArgument
  }

  function ValidateModRm(specification: EncodingSpecification, instruction: DecodedInstruction): Status {
    var required := !specification.modrmUsage.NoModRmUsage?;
    if required != instruction.optionalModRm.Some? then InvalidArgument
    else if !required && instruction.optionalSib.Some? then InvalidArgument
    else if !required then Ok
    else if
      specification.modrmUsage.OpcodeExtensionInModRm? &&
      specification.modrmOpcodeExtension != instruction.GetModRm().registerOperand
    then InvalidArgument
    else if ModRmRequiresSib(instruction.GetModRm()) != instruction.optionalSib.Some? then InvalidArgument
    else Ok
  }

  function ValidateImmediateValues(specification: EncodingSpecification, instruction: DecodedInstruction): Status {
    if |specification.immediateValueBytes| != |instruction.immediateValue| then InvalidArgument
    else if
      exists i :: 0 <= i < |specification.immediateValueBytes| &&
                  specification.immediateValueBytes[i] != |instruction.immediateValue[i]|
    then InvalidArgument
    else if specification.codeOffsetBytes != |instruction.codeOffset| then InvalidArgument
    else Ok
  }

  // ---- The bytes of each part of the encoding -------------------------------

  function MapSelectBits(mapSelect: MapSelect): bv32 {
    match mapSelect
    case UndefinedOperandMap => 0
    case Map0F => 1
    case Map0F38 => 2
    case Map0F3A => 3
    case ReservedMap(bits) => bits as bv32
  }

  function MandatoryPrefixBits(prefix: MandatoryPrefix): bv32 {
    match prefix
    case NoMandatoryPrefix => 0
    case MandatoryOperandSizeOverride => 1
    case MandatoryRepe => 2
    case MandatoryRepne => 3
  }

  function AddressingModeBits(mode: AddressingMode): bv32 {
    match mode
    case Indirect => 0
    case IndirectWith8BitDisplacement => 1
    case IndirectWith32BitDisplacement => 2
    case Direct => 3
  }

  function SegmentOverrideBytes(prefix: SegmentOverride): seq<bv8> {
    match prefix
    case NoSegmentOverride => []
    case CsOverrideOrBranchNotTaken => [CS_OVERRIDE_BYTE]
    case SsOverride => [SS_OVERRIDE_BYTE]
    case DsOverrideOrBranchTaken => [DS_OVERRIDE_BYTE]
    case EsOverride => [ES_OVERRIDE_BYTE]
    case FsOverride => [FS_OVERRIDE_BYTE]
    case GsOverride => [GS_OVERRIDE_BYTE]
  }

  function AddressSizeOverrideBytes(override: bool): seq<bv8> {
    if override then [ADDRESS_SIZE_OVERRIDE_BYTE] else []
  }

  predicate RexIsNeeded(rex: Rex) {
    rex.b || rex.r || rex.w || rex.x
  }

  function RexByte(rex: Rex): bv8 {
    LowByte(0x40 | Flag(rex.b) | (Flag(rex.r) << 2) | (Flag(rex.w) << 3) | (Flag(rex.x) << 1))
  }

  function RexBytes(rex: Rex): seq<bv8> {
    if RexIsNeeded(rex) then [RexByte(rex)] else []
  }

  function LockOrRepBytes(prefix: LockOrRepPrefix): seq<bv8> {
    match prefix
    case NoLockOrRep => []
    case LockPrefix => [LOCK_PREFIX_BYTE]
    case RepPrefix => [REP_PREFIX_BYTE]
    case RepnePrefix => [REPNE_PREFIX_BYTE]
  }

  function OperandSizeOverrideBytes(override: bool): seq<bv8> {
    if override then [OPERAND_SIZE_OVERRIDE_BYTE] else []
  }

  function LegacyPrefixBytes(prefixes: LegacyFields): seq<bv8> {
    RexBytes(prefixes.GetRex()) + LockOrRepBytes(prefixes.lockOrRep) +
    OperandSizeOverrideBytes(prefixes.operandSizeOverride)
  }

  // The encoder allows zero in place of the unused inverted register operand.
  function InvertedVexOperand(specification: VexPrefixSpecification, vex: VexFields): bv32 {
    if specification.vexOperandUsage.VexOperandIsNotUsed? then 15 else vex.invertedRegisterOperand
  }

  predicate CanUseTwoByteForm(vex: VexFields) {
    vex.notX && vex.notB && !vex.w && vex.mapSelect.Map0F?
  }

  function VexOperandByte(high: bool, operand: bv32, use256: bool, prefix: MandatoryPrefix): bv8 {
    LowByte((Flag(high) << 7) | (GetBitRange(operand, 0, 4) << 3) | (Flag(use256) << 2) |
            GetBitRange(MandatoryPrefixBits(prefix), 0, 2))
  }

  function VexMapByte(vex: VexFields): bv8 {
    LowByte((Flag(vex.notR) << 7) | (Flag(vex.notX) << 6) | (Flag(vex.notB) << 5) |
            GetBitRange(MapSelectBits(vex.mapSelect), 0, 5))
  }

  function VexPrefixBytes(specification: VexPrefixSpecification, vex: VexFields): seq<bv8> {
    var operand := InvertedVexOperand(specification, vex);
    if CanUseTwoByteForm(vex) then
      [TWO_BYTE_VEX_ESCAPE_BYTE,
       VexOperandByte(vex.notR, operand, vex.use256BitVectorLength, vex.mandatoryPrefix)]
    else
      [THREE_BYTE_VEX_ESCAPE_BYTE,
       VexMapByte(vex),
       VexOperandByte(vex.w, operand, vex.use256BitVectorLength, vex.mandatoryPrefix)]
  }

  function InvertedEvexOperand(specification: VexPrefixSpecification, evex: EvexFields): bv32 {
    if specification.vexOperandUsage.VexOperandIsNotUsed? then 31 else evex.invertedRegisterOperand
  }

  function EvexMapByte(evex: EvexFields): bv8 {
    LowByte((Flag(IsNthBitSet(evex.notR, 0)) << 7) | (Flag(evex.notX) << 6) | (Flag(evex.notB) << 5) |
            (Flag(IsNthBitSet(evex.notR, 1)) << 4) | GetBitRange(MapSelectBits(evex.mapSelect), 0, 2))
  }

  function EvexOperandByte(evex: EvexFields, operand: bv32): bv8 {
    LowByte((Flag(evex.w) << 7) | (GetBitRange(operand, 0, 4) << 3) | (1 << 2) |
            GetBitRange(MandatoryPrefixBits(evex.mandatoryPrefix), 0, 2))
  }

  function EvexMaskByte(evex: EvexFields): bv8 {
    LowByte((Flag(evex.z) << 7) | (GetBitRange(evex.vectorLengthOrRounding, 0, 2) << 5) |
            (Flag(evex.broadcastOrControl) << 4) | (Flag(IsNthBitSet(evex.invertedRegisterOperand, 4)) << 3) |
            GetBitRange(evex.opmaskRegister, 0, 3))
  }

  function EvexPrefixBytes(specification: VexPrefixSpecification, evex: EvexFields): seq<bv8> {
    [EVEX_ESCAPE_BYTE,
     EvexMapByte(evex),
     EvexOperandByte(evex, InvertedEvexOperand(specification, evex)),
     EvexMaskByte(evex)]
  }

  function PrefixBytes(specification: EncodingSpecification, instruction: DecodedInstruction): seq<bv8> {
    SegmentOverrideBytes(instruction.segmentOverride) +
    AddressSizeOverrideBytes(instruction.addressSizeOverride) +
    EncodingSchemeBytes(specification, instruction)
  }

  function EncodingSchemeBytes(specification: EncodingSpecification, instruction: DecodedInstruction): seq<bv8> {
    if specification.prefix.LegacySpecification? then LegacyPrefixBytes(instruction.GetLegacyPrefixes())
    else if instruction.prefix.Vex? then VexPrefixBytes(specification.GetVexPrefix(), instruction.prefix.vex)
    else if instruction.prefix.Evex? then EvexPrefixBytes(specification.GetVexPrefix(), instruction.prefix.evex)
    else []
  }

  function RawOpcode(specification: EncodingSpecification, instruction: DecodedInstruction): Opcode {
    if instruction.opcode != ZERO then instruction.opcode else specification.opcode
  }

  // VEX and EVEX instructions have one opcode byte; the rest of the opcode of the
  // specification stands for the map select field.
  function EmittedOpcode(specification: EncodingSpecification, instruction: DecodedInstruction): Opcode {
    var raw := RawOpcode(specification, instruction);
    if specification.prefix.VexSpecification? then raw.LastByte() else raw
  }

  function OpcodeBytes(specification: EncodingSpecification, instruction: DecodedInstruction): seq<bv8> {
    EmittedOpcode(specification, instruction).Bytes()
  }

  function Compose233BitValues(two: bv32, firstThree: bv32, secondThree: bv32): bv8 {
    LowByte(((two & 3) << 6) | ((firstThree & 7) << 3) | (secondThree & 7))
  }

  function DisplacementBytes(count: nat, displacement: bv64): seq<bv8> {
    if count == 1 then [Truncate8(displacement)]
    else if count == 4 then DWordBytes(Truncate32(displacement))
    else []
  }

  function ModRmByte(modrm: ModRm): bv8 {
    Compose233BitValues(AddressingModeBits(modrm.addressingMode), modrm.registerOperand, modrm.rmOperand)
  }

  function SibByte(sib: Sib): bv8 {
    Compose233BitValues(sib.scale, sib.index, sib.base)
  }

  function AddressingBytes(modrm: ModRm, sib: Sib): seq<bv8> {
    [ModRmByte(modrm)] +
    (if ModRmRequiresSib(modrm) then [SibByte(sib)] else []) +
    DisplacementBytes(NumModRmDisplacementBytes(modrm, sib), modrm.addressDisplacement)
  }

  function ModRmBytes(specification: EncodingSpecification, instruction: DecodedInstruction): seq<bv8> {
    if specification.modrmUsage.NoModRmUsage? then []
    else AddressingBytes(instruction.GetModRm(), instruction.GetSib())
  }

  function Flatten(values: seq<seq<bv8>>): seq<bv8> {
    if values == [] then [] else values[0] + Flatten(values[1..])
  }

  function ImmediateBytes(instruction: DecodedInstruction): seq<bv8> {
    Flatten(instruction.immediateValue) + instruction.codeOffset
  }

  function VexSuffixBytes(specification: EncodingSpecification, instruction: DecodedInstruction): seq<bv8> {
    if specification.GetVexPrefix().hasVexOperandSuffix
    then [LowByte(instruction.GetVexPrefix().vexSuffixValue)]
    else []
  }

  // The encoding of an instruction: the concatenation of its parts.
  function EncodedBytes(specification: EncodingSpecification, instruction: DecodedInstruction): seq<bv8> {
    PrefixBytes(specification, instruction) +
    (OpcodeBytes(specification, instruction) +
     (ModRmBytes(specification, instruction) +
      (ImmediateBytes(instruction) +
       VexSuffixBytes(specification, instruction))))
  }

  // ---- The encoder ----------------------------------------------------------

  // Emits the encoding to a buffer, one part after another.
  class InstructionEncoder {
    var instructionBuffer: seq<bv8>
    const specification: EncodingSpecification
    const instruction: DecodedInstruction

    constructor (specification: EncodingSpecification, instruction: DecodedInstruction)
      ensures this.specification == specification && this.instruction == instruction
    {
      this.specification := specification;
      this.instruction := instruction;
      instructionBuffer := [];
    }

    method EmitByte(byte: bv8)
      modifies this
      ensures instructionBuffer == old(instructionBuffer) + [byte]
    {
      instructionBuffer := instructionBuffer + [byte];
    }

    method EmitDWord(value: bv32)
      modifies this
      ensures instructionBuffer == old(instructionBuffer) + DWordBytes(value)
    {
      EmitByte(LowByte(value));
      EmitByte(LowByte(value >> 8));
      EmitByte(LowByte(value >> 16));
      EmitByte(LowByte(value >> 24));
    }

    method EmitString(data: seq<bv8>)
      modifies this
      ensures instructionBuffer == old(instructionBuffer) + data
    {
      for i := 0 to |data|
        invariant instructionBuffer == old(instructionBuffer) + data[..i]
      {
        EmitByte(data[i]);
      }
    }

    method EncodePrefix()
      modifies this
      ensures instructionBuffer == old(instructionBuffer) + PrefixBytes(specification, instruction)
    {
      EncodeSegmentOverridePrefixIfNeeded();
      EncodeAddressSizeOverridePrefixIfNeeded();
      EncodeSchemePrefix();
      Concatenation(old(instructionBuffer), SegmentOverrideBytes(instruction.segmentOverride),
                    AddressSizeOverrideBytes(instruction.addressSizeOverride),
                    EncodingSchemeBytes(specification, instruction), []);
    }

    method EncodeSegmentOverridePrefixIfNeeded()
      modifies this
      ensures instructionBuffer == old(instructionBuffer) + SegmentOverrideBytes(instruction.segmentOverride)
    {
      if !instruction.segmentOverride.NoSegmentOverride? {
        EmitByte(SegmentOverrideBytes(instruction.segmentOverride)[0]);
      }
    }

    method EncodeSchemePrefix()
      modifies this
      ensures instructionBuffer == old(instructionBuffer) + EncodingSchemeBytes(specification, instruction)
    {
      if specification.prefix.LegacySpecification? {
        EncodeLegacyPrefixes();
      } else if instruction.prefix.Vex? {
        EncodeVexPrefix();
      } else if instruction.prefix.Evex? {
        EncodeEvexPrefix();
      }
    }

    method EncodeAddressSizeOverridePrefixIfNeeded()
      modifies this
      ensures instructionBuffer == old(instructionBuffer) + AddressSizeOverrideBytes(instruction.addressSizeOverride)
    {
      if instruction.addressSizeOverride {
        EmitByte(ADDRESS_SIZE_OVERRIDE_BYTE);
      }
    }

    method EncodeLegacyPrefixes()
      modifies this
      ensures instructionBuffer == old(instructionBuffer) + LegacyPrefixBytes(instruction.GetLegacyPrefixes())
    {
      var prefixes := instruction.GetLegacyPrefixes();
      if RexIsNeeded(prefixes.GetRex()) {
        EmitByte(RexByte(prefixes.GetRex()));
      }
      EmitString(LockOrRepBytes(prefixes.lockOrRep));
      if prefixes.operandSizeOverride {
        EmitByte(OPERAND_SIZE_OVERRIDE_BYTE);
      }
    }

    method EncodeVexPrefix()
      requires instruction.prefix.Vex?
      modifies this
      ensures instructionBuffer ==
              old(instructionBuffer) + VexPrefixBytes(specification.GetVexPrefix(), instruction.prefix.vex)
    {
      var vex := instruction.prefix.vex;
      var operand := InvertedVexOperand(specification.GetVexPrefix(), vex);
      if CanUseTwoByteForm(vex) {
        EmitByte(TWO_BYTE_VEX_ESCAPE_BYTE);
        EmitByte(VexOperandByte(vex.notR, operand, vex.use256BitVectorLength, vex.mandatoryPrefix));
      } else {
        EmitByte(THREE_BYTE_VEX_ESCAPE_BYTE);
        EmitByte(VexMapByte(vex));
        EmitByte(VexOperandByte(vex.w, operand, vex.use256BitVectorLength, vex.mandatoryPrefix));
      }
    }

    method EncodeEvexPrefix()
      requires instruction.prefix.Evex?
      modifies this
      ensures instructionBuffer ==
              old(instructionBuffer) + EvexPrefixBytes(specification.GetVexPrefix(), instruction.prefix.evex)
    {
      var evex := instruction.prefix.evex;
      EmitByte(EVEX_ESCAPE_BYTE);
      EmitByte(EvexMapByte(evex));
      EmitByte(EvexOperandByte(evex, InvertedEvexOperand(specification.GetVexPrefix(), evex)));
      EmitByte(EvexMaskByte(evex));
    }

    method EncodeOpcode()
      modifies this
      ensures instructionBuffer == old(instructionBuffer) + OpcodeBytes(specification, instruction)
    {
      var opcode := EmittedOpcode(specification, instruction);
      if opcode.b3 != 0 {
        EmitByte(opcode.b3);
      }
      if opcode.b3 != 0 || opcode.b2 != 0 {
        EmitByte(opcode.b2);
      }
      if opcode.b3 != 0 || opcode.b2 != 0 || opcode.b1 != 0 {
        EmitByte(opcode.b1);
      }
      EmitByte(opcode.b0);
    }

    method EncodeModRmIfNeeded()
      modifies this
      ensures instructionBuffer == old(instructionBuffer) + ModRmBytes(specification, instruction)
    {
      if specification.modrmUsage.NoModRmUsage? {
        return;
      }
      var modrm, sib := instruction.GetModRm(), instruction.GetSib();
      EmitByte(ModRmByte(modrm));
      if ModRmRequiresSib(modrm) {
        EmitByte(SibByte(sib));
      }
      var displacementBytes := NumModRmDisplacementBytes(modrm, sib);
      if displacementBytes == 1 {
        EmitByte(Truncate8(modrm.addressDisplacement));
      } else if displacementBytes == 4 {
        EmitDWord(Truncate32(modrm.addressDisplacement));
      }
    }

    method EncodeImmediateValues()
      modifies this
      ensures instructionBuffer == old(instructionBuffer) + ImmediateBytes(instruction)
    {
      var values := instruction.immediateValue;
      for i := 0 to |values|
        invariant instructionBuffer + Flatten(values[i..]) == old(instructionBuffer) + Flatten(values)
      {
        assert values[i..] == [values[i]] + values[i + 1..];
        EmitString(values[i]);
      }
      assert values[|values|..] == [];
      assert instructionBuffer == old(instructionBuffer) + Flatten(values);
      EmitString(instruction.codeOffset);
    }

    method EncodeVexSuffixIfNeeded()
      modifies this
      ensures instructionBuffer == old(instructionBuffer) + VexSuffixBytes(specification, instruction)
    {
      if specification.GetVexPrefix().hasVexOperandSuffix {
        EmitByte(LowByte(instruction.GetVexPrefix().vexSuffixValue));
      }
    }

    method Encode() returns (bytes: seq<bv8>)
      modifies this
      ensures bytes == EncodedBytes(specification, instruction)
    {
      instructionBuffer := [];
      EncodePrefix();
      assert instructionBuffer == PrefixBytes(specification, instruction);
      EncodeOpcode();
      EncodeModRmIfNeeded();
      EncodeImmediateValues();
      EncodeVexSuffixIfNeeded();
      bytes := instructionBuffer;
      Concatenation(PrefixBytes(specification, instruction), OpcodeBytes(specification, instruction),
                    ModRmBytes(specification, instruction), ImmediateBytes(instruction),
                    VexSuffixBytes(specification, instruction));
    }
  }

  lemma Concatenation(a: seq<bv8>, b: seq<bv8>, c: seq<bv8>, d: seq<bv8>, e: seq<bv8>)
    ensures a + (b + (c + (d + e))) == a + b + c + d + e
    ensures a + (b + c + d) == a + b + c + d
  {
  }

  method EncodeInstruction(specification: EncodingSpecification, instruction: DecodedInstruction)
    returns (result: Result<seq<bv8>>)
    requires EvexBInterpretationsAreAllowed(specification)
    ensures var status := Validate(specification, instruction);
            result == if status.Ok? then Success(EncodedBytes(specification, instruction)) else Failure(status)
  {
    var encoder := new InstructionEncoder(specification, instruction);
    var status := Validate(specification, instruction);
    if !status.Ok? {
      return Failure(status);
    }
    var bytes := encoder.Encode();
    return Success(bytes);
  }
}
