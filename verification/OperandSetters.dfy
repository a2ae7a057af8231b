// The functions that assign a register or a memory location to an operand of a
// decoded instruction (exegesis/x86/instruction_encoding.cc).
module OperandSetters {
  import opened Bits
  import opened Wrappers
  import opened X86Protos
  import opened CategoryUtil

  // A register index is an int in the source. It is kept as the 32 bits of the
  // int, so a negative index is above every limit.
  const MAX_LEGACY_REGISTER_INDEX: bv32 := 7
  const MAX_GENERAL_PURPOSE_REGISTER_INDEX: bv32 := 15
  const MAX_REGISTER_INDEX: bv32 := 31

  // ---- The new value of the instruction -------------------------------------

  // The extension bits R, X and B are in the VEX prefix, stored inverted, if
  // there is one, and in the REX prefix otherwise.
  function LegacyOf(prefix: InstructionPrefix): LegacyFields {
    if prefix.Legacy? then prefix.legacy else DEFAULT_LEGACY
  }

  function SetRex(prefix: InstructionPrefix, rex: Rex): InstructionPrefix {
    Legacy(LegacyOf(prefix).(optionalRex := Some(rex)))
  }

  function SetR(prefix: InstructionPrefix, r: bool): InstructionPrefix {
    if prefix.Vex? then Vex(prefix.vex.(notR := !r)) else SetRex(prefix, LegacyOf(prefix).GetRex().(r := r))
  }

  function SetX(prefix: InstructionPrefix, x: bool): InstructionPrefix {
    if prefix.Vex? then Vex(prefix.vex.(notX := !x)) else SetRex(prefix, LegacyOf(prefix).GetRex().(x := x))
  }

  function SetB(prefix: InstructionPrefix, b: bool): InstructionPrefix {
    if prefix.Vex? then Vex(prefix.vex.(notB := !b)) else SetRex(prefix, LegacyOf(prefix).GetRex().(b := b))
  }

  function WithR(instruction: DecodedInstruction, r: bool): DecodedInstruction {
    instruction.(prefix := SetR(instruction.prefix, r))
  }

  function WithX(instruction: DecodedInstruction, x: bool): DecodedInstruction {
    instruction.(prefix := SetX(instruction.prefix, x))
  }

  function WithB(instruction: DecodedInstruction, b: bool): DecodedInstruction {
    instruction.(prefix := SetB(instruction.prefix, b))
  }

  function WithRegOperand(instruction: DecodedInstruction, index: bv32): DecodedInstruction {
    WithR(instruction.(optionalModRm := Some(instruction.GetModRm().(registerOperand := GetBitRange(index, 0, 3)))),
          index > MAX_LEGACY_REGISTER_INDEX)
  }

  function WithRmValue(instruction: DecodedInstruction, index: bv32): DecodedInstruction {
    WithB(instruction.(optionalModRm := Some(instruction.GetModRm().(rmOperand := GetBitRange(index, 0, 3)))),
          index > MAX_LEGACY_REGISTER_INDEX)
  }

  function WithRmRegister(instruction: DecodedInstruction, index: bv32): DecodedInstruction {
    WithRmValue(WithMode(instruction, Direct).(optionalSib := None), index)
  }

  function WithMode(instruction: DecodedInstruction, mode: AddressingMode): DecodedInstruction {
    instruction.(optionalModRm := Some(instruction.GetModRm().(addressingMode := mode)))
  }

  function WithDisplacement(instruction: DecodedInstruction, displacement: bv64): DecodedInstruction {
    instruction.(optionalModRm := Some(instruction.GetModRm().(addressDisplacement := displacement)))
  }

  function WithOpcodeOperand(instruction: DecodedInstruction, index: bv32): DecodedInstruction {
    var cleared := instruction.opcode.WithoutOperandBits();
    instruction.(opcode := cleared.(b0 := cleared.b0 + LowByte(index)))
  }

  function WithSibBase(instruction: DecodedInstruction, index: bv32): DecodedInstruction {
    WithB(instruction.(optionalSib := Some(instruction.GetSib().(base := GetBitRange(index, 0, 3)))),
          index > MAX_LEGACY_REGISTER_INDEX)
  }

  function WithSibIndex(instruction: DecodedInstruction, index: bv32): DecodedInstruction {
    WithX(instruction.(optionalSib := Some(instruction.GetSib().(index := GetBitRange(index, 0, 3)))),
          index > MAX_LEGACY_REGISTER_INDEX)
  }

  // Accessing the VEX prefix of an instruction that has another one replaces it.
  function WithVexOperand(instruction: DecodedInstruction, index: bv32): DecodedInstruction {
    instruction.(prefix := Vex(instruction.GetVexPrefix().(invertedRegisterOperand := GetBitRange(!index, 0, 4))))
  }

  function WithVexSuffix(instruction: DecodedInstruction, index: bv32): DecodedInstruction {
    instruction.(prefix := Vex(instruction.GetVexPrefix().(vexSuffixValue := index << 4)))
  }

  // ---- Registers ------------------------------------------------------------

  // The encodings that LOG(FATAL) does not catch.
  predicate IsExpectedEncoding(encoding: OperandEncoding) {
    IsRegisterEncoding(encoding) || encoding.ImplicitEncoding? || encoding.ImmediateValueEncoding?
  }

  predicate IsRegisterEncoding(encoding: OperandEncoding) {
    encoding.OpcodeEncoding? || encoding.ModRmRegEncoding? || encoding.ModRmRmEncoding? ||
    encoding.VexVEncoding? || encoding.VexSuffixEncoding?
  }

  function WithRegister(encoding: OperandEncoding, index: bv32, instruction: DecodedInstruction): DecodedInstruction
    requires IsRegisterEncoding(encoding)
  {
    match encoding
    case OpcodeEncoding => WithOpcodeOperand(instruction, index)
    case ModRmRegEncoding => WithRegOperand(instruction, index)
    case ModRmRmEncoding => WithRmRegister(instruction, index)
    case VexVEncoding => WithVexOperand(instruction, index)
    case VexSuffixEncoding => WithVexSuffix(instruction, index)
  }

  // What SetOperandToRegister answers, and the new value if it succeeds.
  predicate CanHoldRegister(format: InstructionFormat, position: int, index: bv32) {
    && 0 <= position < |format.operands|
    && index <= MAX_REGISTER_INDEX
    && IsRegisterEncoding(format.operands[position].encoding)
    && (format.operands[position].encoding.OpcodeEncoding? ==> index <= MAX_LEGACY_REGISTER_INDEX)
  }

  // ---- Memory ---------------------------------------------------------------

  predicate AllowsIndirectAddressing(mode: OperandAddressingMode) {
    || mode.AnyAddressingMode? || mode.AnyAddressingWithFlexibleRegisters? || mode.IndirectAddressing?
    || mode.IndirectAddressingWithBase? || mode.IndirectAddressingWithDisplacement?
    || mode.IndirectAddressingWithBaseAndDisplacement? || mode.IndirectAddressingWithBaseAndIndex?
    || mode.IndirectAddressingWithIndexAndDisplacement? || mode.IndirectAddressingWithBaseDisplacementAndIndex?
    || mode.IndirectAddressingWithVsib? || mode.IndirectAddressingWithInstructionPointer?
  }

  // The mode is a category that includes indirect addressing, or is one of the
  // indirect addressing modes.
  lemma IndirectCategories(mode: OperandAddressingMode)
    ensures AllowsIndirectAddressing(mode) <==>
            InCategory(OperandAddressingMode.IndirectAddressing.Number(), mode.Number()) ||
            InCategory(mode.Number(), OperandAddressingMode.IndirectAddressing.Number())
  {
    CategoriesOf(OperandAddressingMode.IndirectAddressing.Number(), mode.Number());
    CategoriesOf(mode.Number(), OperandAddressingMode.IndirectAddressing.Number());
  }

  predicate IsMemoryOperand(operand: InstructionOperand) {
    AllowsIndirectAddressing(operand.addressingMode) && operand.encoding.ModRmRmEncoding?
  }

  predicate HasMemoryOperand(format: InstructionFormat) {
    exists i :: 0 <= i < |format.operands| && IsMemoryOperand(format.operands[i])
  }

  // Which operands can hold a memory reference: those in modrm.rm that leave the
  // addressing mode open, or ask for some indirect one.
  lemma MemoryOperandsAre(format: InstructionFormat)
    ensures HasMemoryOperand(format) <==>
            exists i :: 0 <= i < |format.operands| &&
              format.operands[i].encoding == ModRmRmEncoding &&
              (format.operands[i].addressingMode in {AnyAddressingMode, AnyAddressingWithFlexibleRegisters} ||
               InCategory(format.operands[i].addressingMode.Number(), 0x22))
  {
    forall i | 0 <= i < |format.operands|
      ensures IsMemoryOperand(format.operands[i]) <==>
              format.operands[i].encoding == ModRmRmEncoding &&
              (format.operands[i].addressingMode in {AnyAddressingMode, AnyAddressingWithFlexibleRegisters} ||
               InCategory(format.operands[i].addressingMode.Number(), 0x22))
    {
      CategoriesOf(format.operands[i].addressingMode.Number(), 0x22);
    }
  }

  method GetMemoryOperandPosition(format: InstructionFormat) returns (position: int)
    ensures position == -1 <==> !HasMemoryOperand(format)
    ensures position != -1 ==>
              && 0 <= position < |format.operands| && IsMemoryOperand(format.operands[position])
              && forall i :: 0 <= i < position ==> !IsMemoryOperand(format.operands[i])
  {
    for i := 0 to |format.operands|
      invariant forall j :: 0 <= j < i ==> !IsMemoryOperand(format.operands[j])
    {
      var operand := format.operands[i];
      var isCategory := IsInCategory(OperandAddressingMode.IndirectAddressing.Number(), operand.addressingMode.Number());
      var isMember := IsInCategory(operand.addressingMode.Number(), OperandAddressingMode.IndirectAddressing.Number());
      IndirectCategories(operand.addressingMode);
      if (isCategory || isMember) && operand.encoding.ModRmRmEncoding? {
        return i;
      }
    }
    return -1;
  }

  // One case for each of the setters.
  datatype MemoryReference =
    | Absolute(address: bv32)
    | Base(base: bv32)
    | BaseSib(base: bv32)
    | RelativeToRip(displacement32: bv32)
    | BaseAnd8BitDisplacement(base: bv32, displacement8: bv8)
    | BaseAnd32BitDisplacement(base: bv32, displacement32: bv32)

  // The register indices that serve as escapes in the encoding that the setter
  // uses.
  predicate CanAddress(reference: MemoryReference) {
    match reference
    case Absolute(_) => true
    case RelativeToRip(_) => true
    case Base(base) => base <= MAX_GENERAL_PURPOSE_REGISTER_INDEX && base !in {4, 5, 12, 13}
    case BaseSib(base) => base <= MAX_GENERAL_PURPOSE_REGISTER_INDEX && base !in {5, 13}
    case BaseAnd8BitDisplacement(base, _) => base <= MAX_GENERAL_PURPOSE_REGISTER_INDEX && base !in {4, 12}
    case BaseAnd32BitDisplacement(base, _) => base <= MAX_GENERAL_PURPOSE_REGISTER_INDEX && base !in {4, 12}
  }

  function WithBaseAndDisplacement(
    instruction: DecodedInstruction, mode: AddressingMode, base: bv32, displacement: bv64
  ): DecodedInstruction
  {
    WithRmValue(WithDisplacement(WithMode(instruction, mode), displacement).(optionalSib := None), base)
  }

  function WithMemory(reference: MemoryReference, instruction: DecodedInstruction): DecodedInstruction {
    match reference
    case Absolute(address) =>
      WithSibIndex(
        WithSibBase(WithRmValue(WithDisplacement(WithMode(instruction, Indirect), address as bv64), 4), 5), 4)
    case Base(base) =>
      WithRmValue(WithMode(instruction, Indirect).(optionalSib := None), base)
    case BaseSib(base) =>
      var withSib := WithSibIndex(WithSibBase(WithRmValue(WithMode(instruction, Indirect), 4), base), 4);
      withSib.(optionalSib := Some(withSib.GetSib().(scale := 0)))
    case RelativeToRip(displacement) =>
      WithDisplacement(WithRmValue(WithMode(instruction, Indirect), 5), displacement as bv64).(optionalSib := None)
    case BaseAnd8BitDisplacement(base, displacement) =>
      WithBaseAndDisplacement(instruction, IndirectWith8BitDisplacement, base, displacement as bv64)
    case BaseAnd32BitDisplacement(base, displacement) =>
      WithBaseAndDisplacement(instruction, IndirectWith32BitDisplacement, base, displacement as bv64)
  }

  // What a memory setter leaves behind: an error and the old instruction, or the
  // instruction with the new operand.
  predicate MemoryIsSet(
    format: InstructionFormat, reference: MemoryReference, before: DecodedInstruction,
    status: Status, after: DecodedInstruction
  ) {
    if HasMemoryOperand(format) && CanAddress(reference)
    then status.Ok? && after == WithMemory(reference, before)
    else status.InvalidArgument? && after == before
  }

  lemma EscapeBits(base: bv32)
    requires base <= 15
    ensures (base & 7 == 4 || base & 7 == 5) <==> base in {4, 5, 12, 13}
  {
  }

  // ---- The setters ----------------------------------------------------------

  class MutableInstruction {
    var instruction: DecodedInstruction

    constructor (instruction: DecodedInstruction)
      ensures this.instruction == instruction
    {
      this.instruction := instruction;
    }

    method SetModRmRegOperand(index: bv32)
      requires index <= MAX_REGISTER_INDEX
      modifies this
      ensures instruction == WithRegOperand(old(instruction), index)
    {
      var modrm := instruction.GetModRm().(registerOperand := GetBitRange(index, 0, 3));
      instruction := instruction.(optionalModRm := Some(modrm));
      var usesExtensionBit := index > MAX_LEGACY_REGISTER_INDEX;
      if instruction.prefix.Vex? {
        instruction := instruction.(prefix := Vex(instruction.prefix.vex.(notR := !usesExtensionBit)));
      } else {
        MutableRex(instruction.GetLegacyPrefixes().GetRex().(r := usesExtensionBit));
      }
    }

    method MutableRex(rex: Rex)
      modifies this
      ensures instruction == old(instruction).(prefix := SetRex(old(instruction).prefix, rex))
    {
      instruction := instruction.(prefix := Legacy(instruction.GetLegacyPrefixes().(optionalRex := Some(rex))));
    }

    method SetExtensionB(usesExtensionBit: bool)
      modifies this
      ensures instruction == WithB(old(instruction), usesExtensionBit)
    {
      if instruction.prefix.Vex? {
        instruction := instruction.(prefix := Vex(instruction.prefix.vex.(notB := !usesExtensionBit)));
      } else {
        MutableRex(instruction.GetLegacyPrefixes().GetRex().(b := usesExtensionBit));
      }
    }

    method SetModRmRmValue(index: bv32)
      requires index <= MAX_REGISTER_INDEX
      modifies this
      ensures instruction == WithRmValue(old(instruction), index)
    {
      var modrm := instruction.GetModRm().(rmOperand := GetBitRange(index, 0, 3));
      instruction := instruction.(optionalModRm := Some(modrm));
      SetExtensionB(index > MAX_LEGACY_REGISTER_INDEX);
    }

    method SetModRmRmOperandToRegister(index: bv32)
      requires index <= MAX_REGISTER_INDEX
      modifies this
      ensures instruction == WithRmRegister(old(instruction), index)
    {
      instruction := WithMode(instruction, Direct);
      instruction := instruction.(optionalSib := None);
      SetModRmRmValue(index);
    }

    method SetSibBaseValue(index: bv32)
      requires index <= MAX_GENERAL_PURPOSE_REGISTER_INDEX
      modifies this
      ensures instruction == WithSibBase(old(instruction), index)
    {
      var sib := instruction.GetSib().(base := GetBitRange(index, 0, 3));
      instruction := instruction.(optionalSib := Some(sib));
      SetExtensionB(index > MAX_LEGACY_REGISTER_INDEX);
    }

    method SetSibIndexValue(index: bv32)
      requires index <= MAX_GENERAL_PURPOSE_REGISTER_INDEX
      modifies this
      ensures instruction == WithSibIndex(old(instruction), index)
    {
      var sib := instruction.GetSib().(index := GetBitRange(index, 0, 3));
      instruction := instruction.(optionalSib := Some(sib));
      var usesExtensionBit := index > MAX_LEGACY_REGISTER_INDEX;
      if instruction.prefix.Vex? {
        instruction := instruction.(prefix := Vex(instruction.prefix.vex.(notX := !usesExtensionBit)));
      } else {
        MutableRex(instruction.GetLegacyPrefixes().GetRex().(x := usesExtensionBit));
      }
    }

    method SetOperandToRegister(format: InstructionFormat, position: int, index: bv32) returns (status: Status)
      requires 0 <= position < |format.operands| ==> IsExpectedEncoding(format.operands[position].encoding)
      modifies this
      ensures if CanHoldRegister(format, position, index)
              then status.Ok? &&
                   instruction == WithRegister(format.operands[position].encoding, index, old(instruction))
              else status.InvalidArgument? && instruction == old(instruction)
    {
      if position < 0 || position >= |format.operands| {
        return InvalidArgument;
      }
      if index > MAX_REGISTER_INDEX {
        return InvalidArgument;
      }
      match format.operands[position].encoding {
        case OpcodeEncoding =>
          if index > MAX_LEGACY_REGISTER_INDEX {
            return InvalidArgument;
          }
          instruction := WithOpcodeOperand(instruction, index);
        case ModRmRegEncoding => SetModRmRegOperand(index);
        case ModRmRmEncoding => SetModRmRmOperandToRegister(index);
        case VexVEncoding => instruction := WithVexOperand(instruction, index);
        case VexSuffixEncoding => instruction := WithVexSuffix(instruction, index);
        case _ => return InvalidArgument;
      }
      return Ok;
    }

    method SetOperandToMemoryAbsolute(format: InstructionFormat, address: bv32) returns (status: Status)
      modifies this
      ensures MemoryIsSet(format, Absolute(address), old(instruction), status, instruction)
    {
      var position := GetMemoryOperandPosition(format);
      if position == -1 {
        return InvalidArgument;
      }
      instruction := WithMode(instruction, Indirect);
      instruction := WithDisplacement(instruction, address as bv64);
      SetModRmRmValue(4);
      SetSibBaseValue(5);
      SetSibIndexValue(4);
      return Ok;
    }

    method SetOperandToMemoryBase(format: InstructionFormat, base: bv32) returns (status: Status)
      modifies this
      ensures MemoryIsSet(format, Base(base), old(instruction), status, instruction)
    {
      var position := GetMemoryOperandPosition(format);
      if position == -1 {
        return InvalidArgument;
      }
      if base > MAX_GENERAL_PURPOSE_REGISTER_INDEX {
        return InvalidArgument;
      }
      EscapeBits(base);
      if base & 7 == 4 || base & 7 == 5 {
        return InvalidArgument;
      }
      instruction := WithMode(instruction, Indirect);
      instruction := instruction.(optionalSib := None);
      SetModRmRmValue(base);
      return Ok;
    }

    method SetOperandToMemoryBaseSib(format: InstructionFormat, base: bv32) returns (status: Status)
      modifies this
      ensures MemoryIsSet(format, BaseSib(base), old(instruction), status, instruction)
    {
      var position := GetMemoryOperandPosition(format);
      if position == -1 {
        return InvalidArgument;
      }
      if base > MAX_GENERAL_PURPOSE_REGISTER_INDEX {
        return InvalidArgument;
      }
      if base == 5 || base == 13 {
        return InvalidArgument;
      }
      instruction := WithMode(instruction, Indirect);
      SetModRmRmValue(4);
      SetSibBaseValue(base);
      SetSibIndexValue(4);
      instruction := instruction.(optionalSib := Some(instruction.GetSib().(scale := 0)));
      return Ok;
    }

    method SetOperandToMemoryRelativeToRip(format: InstructionFormat, displacement: bv32) returns (status: Status)
      modifies this
      ensures MemoryIsSet(format, RelativeToRip(displacement), old(instruction), status, instruction)
    {
      var position := GetMemoryOperandPosition(format);
      if position == -1 {
        return InvalidArgument;
      }
      instruction := WithMode(instruction, Indirect);
      SetModRmRmValue(5);
      instruction := WithDisplacement(instruction, displacement as bv64);
      instruction := instruction.(optionalSib := None);
      return Ok;
    }

    method SetOperandToMemoryBaseAnd8BitDisplacement(format: InstructionFormat, base: bv32, displacement: bv8)
      returns (status: Status)
      modifies this
      ensures MemoryIsSet(format, BaseAnd8BitDisplacement(base, displacement), old(instruction), status, instruction)
    {
      status := SetOperandToMemoryBaseAndDisplacement(
        format, IndirectWith8BitDisplacement, base, displacement as bv64);
    }

    method SetOperandToMemoryBaseAnd32BitDisplacement(format: InstructionFormat, base: bv32, displacement: bv32)
      returns (status: Status)
      modifies this
      ensures MemoryIsSet(format, BaseAnd32BitDisplacement(base, displacement), old(instruction), status, instruction)
    {
      status := SetOperandToMemoryBaseAndDisplacement(
        format, IndirectWith32BitDisplacement, base, displacement as bv64);
    }

    // The template behind the two setters with a displacement.
    method SetOperandToMemoryBaseAndDisplacement(
      format: InstructionFormat, mode: AddressingMode, base: bv32, displacement: bv64
    )
      returns (status: Status)
      modifies this
      ensures if HasMemoryOperand(format) && base <= MAX_GENERAL_PURPOSE_REGISTER_INDEX && base !in {4, 12}
              then status.Ok? && instruction == WithBaseAndDisplacement(old(instruction), mode, base, displacement)
              else status.InvalidArgument? && instruction == old(instruction)
    {
      var position := GetMemoryOperandPosition(format);
      if position == -1 {
        return InvalidArgument;
      }
      if base > MAX_GENERAL_PURPOSE_REGISTER_INDEX {
        return InvalidArgument;
      }
      if base == 4 || base == 12 {
        return InvalidArgument;
      }
      instruction := WithMode(instruction, mode);
      instruction := WithDisplacement(instruction, displacement);
      instruction := instruction.(optionalSib := None);
      SetModRmRmValue(base);
      return Ok;
    }
  }
}
