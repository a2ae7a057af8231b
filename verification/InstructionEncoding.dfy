// Validation and matching of decoded instructions against an encoding
// specification (exegesis/x86/instruction_encoding.{h,cc}).
module InstructionEncoding {
  import opened Opcodes
  import opened Wrappers
  import opened X86Protos

  predicate IsEvexBBroadcast(interpretation: EvexBInterpretation) {
    interpretation.EvexBEnables32BitBroadcast? || interpretation.EvexBEnables64BitBroadcast?
  }

  // An unknown usage is logged as an error and accepted.
  predicate PrefixMatchesSpecification(specification: PrefixUsage, prefixIsPresent: bool) {
    match specification
    case PrefixIsRequired => prefixIsPresent
    case PrefixIsNotPermitted => !prefixIsPresent
    case PrefixIsIgnored => true
    case PrefixUsageIsUnknown => true
  }

  function NumModRmDisplacementBytes(modrm: ModRm, sib: Sib): nat {
    match modrm.addressingMode
    case Indirect =>
      if modrm.rmOperand == 5 || (modrm.rmOperand == 4 && sib.base == 5) then 4 else 0
    case IndirectWith8BitDisplacement => 1
    case IndirectWith32BitDisplacement => 4
    case Direct => 0
  }

  predicate ModRmRequiresSib(modrm: ModRm) {
    !modrm.addressingMode.Direct? && modrm.rmOperand == 4
  }

  // ---- Validation -----------------------------------------------------------

  function ValidateMandatoryPrefixBits(specification: VexPrefixSpecification, prefix: MandatoryPrefix): Status {
    if specification.mandatoryPrefix != prefix then InvalidArgument else Ok
  }

  function ValidateMapSelectBits(specification: VexPrefixSpecification, mapSelect: MapSelect): Status {
    if specification.mapSelect != mapSelect then InvalidArgument
    else if mapSelect.UndefinedOperandMap? then InvalidArgument
    else Ok
  }

  function ValidateVectorSizeBits(vectorSize: VexVectorSize, bits: bv32, prefixType: VexPrefixType): Status {
    match vectorSize
    case VectorSizeIsIgnored | VectorSizeBitIsZero | VectorSize128Bit =>
      if bits != 0 then InvalidArgument else Ok
    case VectorSizeBitIsOne | VectorSize256Bit =>
      if bits != 1 then InvalidArgument else Ok
    case VectorSize512Bit =>
      if !prefixType.EvexType? then FailedPrecondition
      else if bits != 2 then InvalidArgument else Ok
  }

  function ValidateVexWBit(vexWUsage: VexWUsage, w: bool): Status {
    match vexWUsage
    case VexWIsZero => if w then InvalidArgument else Ok
    case VexWIsOne => if !w then InvalidArgument else Ok
    case VexWIsIgnored => Ok
  }

  // The combinations of interpretations that encoding_specification.proto
  // allows; for any other one GetUsedEvexBInterpretation fails a CHECK.
  predicate AllowedEvexBInterpretations(interpretations: seq<EvexBInterpretation>) {
    && |interpretations| <= 2
    && (|interpretations| == 2 ==>
          IsEvexBBroadcast(interpretations[0]) != IsEvexBBroadcast(interpretations[1]))
  }

  function GetUsedEvexBInterpretation(
    specification: VexPrefixSpecification, instruction: DecodedInstruction
  ): EvexBInterpretation
    requires AllowedEvexBInterpretations(specification.evexBInterpretations)
  {
    var interpretations := specification.evexBInterpretations;
    var hasMemoryOperand :=
      instruction.optionalModRm.Some? && !instruction.optionalModRm.value.addressingMode.Direct?;
    if !specification.prefixType.EvexType? || |interpretations| == 0 then
      UndefinedEvexBInterpretation
    else if |interpretations| == 1 then
      if IsEvexBBroadcast(interpretations[0]) && !hasMemoryOperand then UndefinedEvexBInterpretation
      else interpretations[0]
    else if hasMemoryOperand == IsEvexBBroadcast(interpretations[0]) then
      interpretations[0]
    else
      interpretations[1]
  }

  function ValidateEvexBBit(specification: VexPrefixSpecification, instruction: DecodedInstruction): Status
    requires AllowedEvexBInterpretations(specification.evexBInterpretations)
  {
    if !specification.prefixType.EvexType? then FailedPrecondition
    else if
      GetUsedEvexBInterpretation(specification, instruction).UndefinedEvexBInterpretation? &&
      instruction.GetEvexPrefix().broadcastOrControl
    then InvalidArgument
    else Ok
  }

  function ValidateEvexOpmask(specification: VexPrefixSpecification, instruction: DecodedInstruction): Status {
    var evex := instruction.GetEvexPrefix();
    if !specification.prefixType.EvexType? then FailedPrecondition
    else if specification.opmaskUsage.EvexOpmaskIsNotUsed? && evex.opmaskRegister != 0 then InvalidArgument
    else if specification.opmaskUsage.EvexOpmaskIsRequired? && evex.opmaskRegister == 0 then InvalidArgument
    else if evex.z && !specification.maskingOperation.EvexMaskingMergingAndZeroing? then InvalidArgument
    else Ok
  }

  function ValidateVexRegisterOperandBits(specification: VexPrefixSpecification, registerOperand: bv32): Status {
    if registerOperand == 0 then Ok
    else
      var maxValue: bv32 := if specification.prefixType.VexType? then 15 else 31;
      var minValue: bv32 := if !specification.vexOperandUsage.VexOperandIsNotUsed? then 0 else maxValue;
      if registerOperand < minValue || registerOperand > maxValue then InvalidArgument else Ok
  }

  // ---- Matching -------------------------------------------------------------

  // The outcome of a matcher. LOG(FATAL) ends the process; it is kept as a value
  // so that the absence of it can be stated.
  datatype MatchResult = Matches | Mismatch | Fatal {
    function Then(next: MatchResult): MatchResult {
      if Matches? then next else this
    }
  }

  function MatchWhen(condition: bool): MatchResult {
    if condition then Matches else Mismatch
  }

  predicate LegacyPrefixesMatchSpecification(
    specification: LegacyPrefixSpecification, instruction: DecodedInstruction
  ) {
    var prefixes := instruction.GetLegacyPrefixes();
    && PrefixMatchesSpecification(specification.rexWPrefix, prefixes.GetRex().w)
    && (prefixes.GetRex().w ||
        PrefixMatchesSpecification(specification.operandSizeOverridePrefix, prefixes.operandSizeOverride))
    && (specification.hasMandatoryAddressSizeOverridePrefix ==> instruction.addressSizeOverride)
    && (specification.hasMandatoryRepePrefix ==> prefixes.lockOrRep.RepPrefix?)
    && (specification.hasMandatoryRepnePrefix ==> prefixes.lockOrRep.RepnePrefix?)
  }

  predicate MandatoryPrefixAndMapSelectMatchSpecification(
    specification: VexPrefixSpecification, mandatoryPrefix: MandatoryPrefix, mapSelect: MapSelect
  ) {
    mandatoryPrefix == specification.mandatoryPrefix && mapSelect == specification.mapSelect
  }

  predicate VexWBitMatchesSpecification(specification: VexPrefixSpecification, w: bool) {
    match specification.vexWUsage
    case VexWIsZero => !w
    case VexWIsOne => w
    case VexWIsIgnored => true
  }

  function VexPrefixMatchesSpecification(specification: VexPrefixSpecification, prefix: VexFields): MatchResult {
    if !MandatoryPrefixAndMapSelectMatchSpecification(specification, prefix.mandatoryPrefix, prefix.mapSelect) then
      Mismatch
    else if !VexWBitMatchesSpecification(specification, prefix.w) then
      Mismatch
    else
      match specification.vectorSize
      case VectorSizeBitIsZero | VectorSize128Bit => MatchWhen(!prefix.use256BitVectorLength)
      case VectorSizeBitIsOne | VectorSize256Bit => MatchWhen(prefix.use256BitVectorLength)
      case VectorSizeIsIgnored => Matches
      case VectorSize512Bit => Fatal
  }

  predicate EvexPrefixMatchesSpecification(specification: VexPrefixSpecification, prefix: EvexFields) {
    && MandatoryPrefixAndMapSelectMatchSpecification(specification, prefix.mandatoryPrefix, prefix.mapSelect)
    && VexWBitMatchesSpecification(specification, prefix.w)
    && (|| (prefix.broadcastOrControl && EvexBEnablesStaticRoundingControl in specification.evexBInterpretations)
        || match specification.vectorSize {
             case VectorSizeIsIgnored => true
             case VectorSizeBitIsZero | VectorSize128Bit => prefix.vectorLengthOrRounding == 0
             case VectorSizeBitIsOne | VectorSize256Bit => prefix.vectorLengthOrRounding == 1
             case VectorSize512Bit => prefix.vectorLengthOrRounding == 2
           })
  }

  predicate OpcodeMatchesSpecification(specification: EncodingSpecification, opcode: Opcode) {
    || specification.opcode == opcode
    || (!specification.operandInOpcode.NoOperandInOpcode? && specification.opcode == opcode.WithoutOperandBits())
  }

  function PrefixesAndOpcodeMatchSpecification(
    specification: EncodingSpecification, instruction: DecodedInstruction
  ): MatchResult
  {
    if !OpcodeMatchesSpecification(specification, instruction.opcode) then
      Mismatch
    else if specification.prefix.VexSpecification? then
      match specification.prefix.vex.prefixType
      case EvexType =>
        MatchWhen(instruction.prefix.Evex? &&
                  EvexPrefixMatchesSpecification(specification.prefix.vex, instruction.prefix.evex))
      case VexType =>
        if !instruction.prefix.Vex? then Mismatch
        else VexPrefixMatchesSpecification(specification.prefix.vex, instruction.prefix.vex)
      case UndefinedPrefixType => Fatal
    else
      MatchWhen(!instruction.prefix.Vex? && !instruction.prefix.Evex? &&
                LegacyPrefixesMatchSpecification(specification.GetLegacyPrefixes(), instruction))
  }

  function ModRmAddressingModeMatchesOperand(
    instruction: DecodedInstruction, operandMode: OperandAddressingMode
  ): MatchResult
  {
    var modrm := instruction.GetModRm();
    var sib := instruction.GetSib();
    var mode := modrm.addressingMode;
    var withDisplacement := mode.IndirectWith8BitDisplacement? || mode.IndirectWith32BitDisplacement?;
    if instruction.optionalModRm.None? then
      Fatal
    else
      match operandMode
      case AnyAddressingMode => Matches
      case DirectAddressing | BlockDirectAddressing => MatchWhen(mode.Direct?)
      case IndirectAddressing | LoadEffectiveAddress => MatchWhen(!mode.Direct?)
      case IndirectAddressingWithBase =>
        MatchWhen(mode.Indirect? && modrm.rmOperand != 5 &&
                  (modrm.rmOperand != 4 || (sib.index == 4 && sib.base != 5)))
      case IndirectAddressingWithDisplacement =>
        MatchWhen(mode.Indirect? && modrm.rmOperand == 4 && sib.index == 4 && sib.base == 5)
      case IndirectAddressingWithBaseAndDisplacement =>
        MatchWhen(withDisplacement && (modrm.rmOperand != 4 || sib.index == 4))
      case IndirectAddressingWithBaseAndIndex =>
        MatchWhen(mode.Indirect? && modrm.rmOperand == 4 && sib.index != 4 && sib.base != 5)
      case IndirectAddressingWithIndexAndDisplacement =>
        MatchWhen(mode.Indirect? && modrm.rmOperand == 4 && sib.index != 4 && sib.base == 5)
      case IndirectAddressingWithBaseDisplacementAndIndex =>
        MatchWhen(withDisplacement && modrm.rmOperand == 4 && sib.index != 4)
      case IndirectAddressingWithVsib => MatchWhen(!mode.Direct? && modrm.rmOperand == 4)
      case IndirectAddressingWithInstructionPointer => MatchWhen(mode.Indirect? && modrm.rmOperand == 5)
      case _ => Fatal
  }

  // The position of the first operand that is encoded in modrm.rm, or the number
  // of operands.
  function ModRmRmOperandPosition(operands: seq<InstructionOperand>): (position: nat)
    ensures position <= |operands|
    ensures position < |operands| ==> operands[position].encoding.ModRmRmEncoding?
    ensures forall i :: 0 <= i < position ==> !operands[i].encoding.ModRmRmEncoding?
  {
    if operands == [] || operands[0].encoding.ModRmRmEncoding? then 0
    else 1 + ModRmRmOperandPosition(operands[1..])
  }

  function AddressingModeMatchesSpecification(
    format: InstructionFormat, instruction: DecodedInstruction
  ): MatchResult
  {
    var position := ModRmRmOperandPosition(format.operands);
    if position == |format.operands| then Matches
    else ModRmAddressingModeMatchesOperand(instruction, format.operands[position].addressingMode)
  }

  function ModRmUsageMatchesSpecification(
    specification: EncodingSpecification, instruction: DecodedInstruction, format: InstructionFormat
  ): MatchResult
  {
    match specification.modrmUsage
    case NoModRmUsage => Matches
    case FullModRm => AddressingModeMatchesSpecification(format, instruction)
    case OpcodeExtensionInModRm =>
      if instruction.GetModRm().registerOperand != specification.modrmOpcodeExtension then Mismatch
      else AddressingModeMatchesSpecification(format, instruction)
    case RegIgnored => Fatal
  }
}
