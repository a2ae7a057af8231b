// The messages that the x86-64 code works on: the encoding specification of an
// instruction, an instruction in decoded form, and an entry of the instruction
// database (exegesis/proto/x86/*.proto, exegesis/proto/instructions.proto).
// A sub-message that may be absent is an Option; where the code reads an absent
// sub-message it gets the default one, which the accessors below return.

module Wrappers {
  datatype Option<+T> = None | Some(value: T)

  datatype Status =
    | Ok
    | InvalidArgument
    | FailedPrecondition
    | NotFound
    | Internal
  {
    // RETURN_IF_ERROR chains stop at the first error.
    function Then(next: Status): Status {
      if Ok? then next else this
    }
  }

  datatype Result<+T> = Success(value: T) | Failure(error: Status) {
    predicate IsFailure() {
      Failure?
    }

    function PropagateFailure<U>(): Result<U>
      requires Failure?
    {
      Failure(error)
    }

    function Extract(): T
      requires Success?
    {
      value
    }
  }
}

module X86Protos {
  import opened Wrappers
  import opened Opcodes

  // ---- instruction_encoding.proto -------------------------------------------

  datatype MandatoryPrefix =
    | NoMandatoryPrefix
    | MandatoryOperandSizeOverride
    | MandatoryRepe
    | MandatoryRepne

  // The enum is open: the parser can store any five-bit value in it.
  datatype MapSelect =
    | UndefinedOperandMap
    | Map0F
    | Map0F38
    | Map0F3A
    | ReservedMap(bits: bv8)

  predicate IsOpcodeMap(mapSelect: MapSelect) {
    mapSelect.Map0F? || mapSelect.Map0F38? || mapSelect.Map0F3A?
  }

  datatype LockOrRepPrefix = NoLockOrRep | LockPrefix | RepPrefix | RepnePrefix

  datatype SegmentOverride =
    | NoSegmentOverride
    | CsOverrideOrBranchNotTaken
    | SsOverride
    | DsOverrideOrBranchTaken
    | EsOverride
    | FsOverride
    | GsOverride

  datatype PrefixUsage =
    | PrefixUsageIsUnknown
    | PrefixIsIgnored
    | PrefixIsNotPermitted
    | PrefixIsRequired

  // ---- encoding_specification.proto -----------------------------------------

  datatype LegacyPrefixSpecification = LegacyPrefixSpecification(
    rexWPrefix: PrefixUsage,
    hasMandatoryRepePrefix: bool,
    hasMandatoryRepnePrefix: bool,
    operandSizeOverridePrefix: PrefixUsage,
    hasMandatoryAddressSizeOverridePrefix: bool
  )

  datatype VexOperandUsage =
    | UndefinedVexOperandUsage
    | VexOperandIsFirstSourceRegister
    | VexOperandIsSecondSourceRegister
    | VexOperandIsDestinationRegister
    | VexOperandIsNotUsed

  datatype EvexBInterpretation =
    | UndefinedEvexBInterpretation
    | EvexBEnables32BitBroadcast
    | EvexBEnables64BitBroadcast
    | EvexBEnablesStaticRoundingControl
    | EvexBEnablesSuppressAllExceptions

  datatype EvexOpmaskUsage = EvexOpmaskIsNotUsed | EvexOpmaskIsOptional | EvexOpmaskIsRequired

  datatype EvexMaskingOperation = NoEvexMasking | EvexMaskingMergingOnly | EvexMaskingMergingAndZeroing

  datatype VexVectorSize =
    | VectorSizeIsIgnored
    | VectorSizeBitIsZero
    | VectorSizeBitIsOne
    | VectorSize128Bit
    | VectorSize256Bit
    | VectorSize512Bit

  datatype VexPrefixType = UndefinedPrefixType | VexType | EvexType

  datatype VexWUsage = VexWIsIgnored | VexWIsZero | VexWIsOne

  datatype VSibUsage = VSibUnused | VSibUsed

  datatype VexPrefixSpecification = VexPrefixSpecification(
    prefixType: VexPrefixType,
    vexOperandUsage: VexOperandUsage,
    vectorSize: VexVectorSize,
    mandatoryPrefix: MandatoryPrefix,
    mapSelect: MapSelect,
    vexWUsage: VexWUsage,
    hasVexOperandSuffix: bool,
    vsibUsage: VSibUsage,
    evexBInterpretations: seq<EvexBInterpretation>,
    opmaskUsage: EvexOpmaskUsage,
    maskingOperation: EvexMaskingOperation
  )

  datatype ModRmUsage = NoModRmUsage | FullModRm | OpcodeExtensionInModRm | RegIgnored

  datatype OperandInOpcode = NoOperandInOpcode | GeneralPurposeRegisterInOpcode | FpStackRegisterInOpcode

  // The oneof 'prefix' of the specification.
  datatype PrefixSpecification =
    | NoPrefixSpecification
    | LegacySpecification(legacy: LegacyPrefixSpecification)
    | VexSpecification(vex: VexPrefixSpecification)

  datatype EncodingSpecification = EncodingSpecification(
    opcode: Opcode,
    operandInOpcode: OperandInOpcode,
    modrmUsage: ModRmUsage,
    modrmOpcodeExtension: bv32,
    prefix: PrefixSpecification,
    immediateValueBytes: seq<nat>,
    codeOffsetBytes: nat
  ) {
    function GetLegacyPrefixes(): LegacyPrefixSpecification {
      if prefix.LegacySpecification? then prefix.legacy
      else LegacyPrefixSpecification(PrefixUsageIsUnknown, false, false, PrefixUsageIsUnknown, false)
    }

    function GetVexPrefix(): VexPrefixSpecification {
      if prefix.VexSpecification? then prefix.vex
      else VexPrefixSpecification(UndefinedPrefixType, UndefinedVexOperandUsage, VectorSizeIsIgnored,
                                  NoMandatoryPrefix, UndefinedOperandMap, VexWIsIgnored, false, VSibUnused,
                                  [], EvexOpmaskIsNotUsed, NoEvexMasking)
    }
  }

  // ---- decoded_instruction.proto --------------------------------------------

  datatype VexFields = VexFields(
    mandatoryPrefix: MandatoryPrefix,
    notB: bool,
    notR: bool,
    notX: bool,
    w: bool,
    invertedRegisterOperand: bv32,
    mapSelect: MapSelect,
    use256BitVectorLength: bool,
    vexSuffixValue: bv32
  )

  datatype EvexFields = EvexFields(
    mandatoryPrefix: MandatoryPrefix,
    mapSelect: MapSelect,
    invertedRegisterOperand: bv32,
    notB: bool,
    notR: bv32,
    notX: bool,
    w: bool,
    z: bool,
    broadcastOrControl: bool,
    vectorLengthOrRounding: bv32,
    opmaskRegister: bv32
  )

  datatype Rex = Rex(b: bool, r: bool, w: bool, x: bool)

  datatype LegacyFields = LegacyFields(
    optionalRex: Option<Rex>,
    lockOrRep: LockOrRepPrefix,
    operandSizeOverride: bool
  ) {
    function GetRex(): Rex {
      if optionalRex.Some? then optionalRex.value else Rex(false, false, false, false)
    }
  }

  // The oneof 'prefix' of the decoded instruction.
  datatype InstructionPrefix =
    | NoPrefix
    | Legacy(legacy: LegacyFields)
    | Vex(vex: VexFields)
    | Evex(evex: EvexFields)

  // The values of the enum in the order of its numbers, which are the values of
  // the mod bits.
  datatype AddressingMode =
    | Indirect
    | IndirectWith8BitDisplacement
    | IndirectWith32BitDisplacement
    | Direct

  datatype ModRm = ModRm(
    addressingMode: AddressingMode,
    registerOperand: bv32,
    rmOperand: bv32,
    addressDisplacement: bv64
  )

  datatype Sib = Sib(scale: bv32, index: bv32, base: bv32)

  datatype DecodedInstruction = DecodedInstruction(
    prefix: InstructionPrefix,
    segmentOverride: SegmentOverride,
    addressSizeOverride: bool,
    opcode: Opcode,
    optionalModRm: Option<ModRm>,
    optionalSib: Option<Sib>,
    immediateValue: seq<seq<bv8>>,
    codeOffset: seq<bv8>
  ) {
    function GetLegacyPrefixes(): LegacyFields {
      if prefix.Legacy? then prefix.legacy else DEFAULT_LEGACY
    }

    function GetVexPrefix(): VexFields {
      if prefix.Vex? then prefix.vex else DEFAULT_VEX
    }

    function GetEvexPrefix(): EvexFields {
      if prefix.Evex? then prefix.evex else DEFAULT_EVEX
    }

    function GetModRm(): ModRm {
      if optionalModRm.Some? then optionalModRm.value else ModRm(Indirect, 0, 0, 0)
    }

    function GetSib(): Sib {
      if optionalSib.Some? then optionalSib.value else Sib(0, 0, 0)
    }
  }

  const DEFAULT_LEGACY: LegacyFields := LegacyFields(None, NoLockOrRep, false)
  const DEFAULT_VEX: VexFields :=
    VexFields(NoMandatoryPrefix, false, false, false, false, 0, UndefinedOperandMap, false, 0)
  const DEFAULT_EVEX: EvexFields :=
    EvexFields(NoMandatoryPrefix, UndefinedOperandMap, 0, false, 0, false, false, false, false, 0, 0)
  const DEFAULT_INSTRUCTION: DecodedInstruction :=
    DecodedInstruction(NoPrefix, NoSegmentOverride, false, ZERO, None, None, [], [])

  // ---- instructions.proto ---------------------------------------------------

  datatype OperandAddressingMode =
    | AnyAddressingMode
    | NoAddressing
    | AnyAddressingWithFlexibleRegisters
    | DirectAddressing
    | BlockDirectAddressing
    | IndirectAddressing
    | IndirectAddressingWithBase
    | IndirectAddressingWithDisplacement
    | IndirectAddressingWithBaseAndDisplacement
    | IndirectAddressingWithBaseAndIndex
    | IndirectAddressingWithIndexAndDisplacement
    | IndirectAddressingWithBaseDisplacementAndIndex
    | IndirectAddressingWithVsib
    | IndirectAddressingWithInstructionPointer
    | AnyAddressingWithFixedRegisters
    | IndirectAddressingByRsi
    | IndirectAddressingByRdi
    | LoadEffectiveAddress
  {
    // The number of the enum value; each hexadecimal digit is one level of the
    // category hierarchy.
    function Number(): nat {
      match this
      case AnyAddressingMode => 0x0
      case NoAddressing => 0x1
      case AnyAddressingWithFlexibleRegisters => 0x2
      case DirectAddressing => 0x21
      case BlockDirectAddressing => 0x212
      case IndirectAddressing => 0x22
      case IndirectAddressingWithBase => 0x221
      case IndirectAddressingWithDisplacement => 0x222
      case IndirectAddressingWithBaseAndDisplacement => 0x223
      case IndirectAddressingWithBaseAndIndex => 0x224
      case IndirectAddressingWithIndexAndDisplacement => 0x225
      case IndirectAddressingWithBaseDisplacementAndIndex => 0x226
      case IndirectAddressingWithVsib => 0x227
      case IndirectAddressingWithInstructionPointer => 0x228
      case AnyAddressingWithFixedRegisters => 0x3
      case IndirectAddressingByRsi => 0x31
      case IndirectAddressingByRdi => 0x32
      case LoadEffectiveAddress => 0x4
    }
  }

  datatype OperandEncoding =
    | AnyEncoding
    | X86RegisterEncoding
    | OpcodeEncoding
    | ModRmEncoding
    | ModRmRegEncoding
    | ModRmRmEncoding
    | VexEncoding
    | VexVEncoding
    | VexSuffixEncoding
    | EvexEncoding
    | EvexMaskOperandEncoding
    | ImplicitEncoding
    | X86RegisterEax
    | X86RegisterEbx
    | X86RegisterRax
    | X86RegisterRbx
    | X86RegisterRcx
    | X86RegisterRdx
    | ImmediateValueEncoding
    | VsibEncoding
    | X86StaticPropertyEncoding
  {
    function Number(): nat {
      match this
      case AnyEncoding => 0
      case X86RegisterEncoding => 0x1
      case OpcodeEncoding => 0x11
      case ModRmEncoding => 0x12
      case ModRmRegEncoding => 0x121
      case ModRmRmEncoding => 0x122
      case VexEncoding => 0x13
      case VexVEncoding => 0x131
      case VexSuffixEncoding => 0x132
      case EvexEncoding => 0x14
      case EvexMaskOperandEncoding => 0x141
      case ImplicitEncoding => 0x2
      case X86RegisterEax => 0x21
      case X86RegisterEbx => 0x22
      case X86RegisterRax => 0x23
      case X86RegisterRbx => 0x24
      case X86RegisterRcx => 0x25
      case X86RegisterRdx => 0x26
      case ImmediateValueEncoding => 0x3
      case VsibEncoding => 0x4
      case X86StaticPropertyEncoding => 0x5
    }
  }

  datatype OperandUsage = UsageUnknown | UsageRead | UsageWrite | UsageReadWrite

  datatype InstructionOperand = InstructionOperand(
    name: string,
    addressingMode: OperandAddressingMode,
    encoding: OperandEncoding,
    dataTypeBitWidth: int,
    valueSizeBits: int,
    tags: seq<string>,
    usage: OperandUsage
  )

  const NO_OPERAND: InstructionOperand := InstructionOperand("", AnyAddressingMode, AnyEncoding, 0, 0, [], UsageUnknown)

  datatype InstructionFormat = InstructionFormat(mnemonic: string, operands: seq<InstructionOperand>)

  datatype InstructionProto = InstructionProto(
    description: string,
    llvmMnemonic: string,
    vendorSyntax: seq<InstructionFormat>,
    syntax: Option<InstructionFormat>,
    attSyntax: Option<InstructionFormat>,
    featureName: string,
    availableIn64Bit: bool,
    legacyInstruction: bool,
    encodingScheme: string,
    protectionMode: int,
    rawEncodingSpecification: string,
    implicitInputOperands: seq<string>,
    implicitOutputOperands: seq<string>,
    x86EncodingSpecification: Option<EncodingSpecification>,
    instructionGroupIndex: int,
    leafInstructions: seq<InstructionProto>
  )

  const NO_INSTRUCTION: InstructionProto :=
    InstructionProto("", "", [], None, None, "", false, false, "", 0, "", [], [], None, 0, [])
}
