// Register operands: the register that an encoding selects, for the parser and for
// the processor, and the order in which operands are set (exegesis/x86/instruction_encoding.cc).
module RegisterOperands {
  import opened Architecture
  import opened Bits
  import opened Folds
  import opened Wrappers
  import opened Opcodes
  import opened X86Protos
  import opened InstructionEncoder
  import opened InstructionParser
  import opened RoundTripPrefixes
  import opened RoundTripOperands
  import opened RoundTrip
  import opened UniqueDecoding
  import opened OperandSetters
  import opened ProcessorPrefixes

  // ---- The register of an encoding ------------------------------------------

  function RegisterNumber(extension: bool, bits: bv32): bv32 {
    (Flag(extension) << 3) | bits
  }

  // B extends a general-purpose register in the opcode, and no other one there
  // (Intel SDM volume 2A, section 2.2.1.2).
  predicate IsExtendedInOpcode(specification: EncodingSpecification, encoding: OperandEncoding) {
    encoding.OpcodeEncoding? && specification.operandInOpcode.GeneralPurposeRegisterInOpcode?
  }

  predicate IsInModRm(encoding: OperandEncoding) {
    encoding.ModRmRegEncoding? || encoding.ModRmRmEncoding?
  }

  // The register that the fields of the encoding and the extension bits select.
  function SelectedRegister(
    specification: EncodingSpecification, encoding: OperandEncoding, extensions: Extensions,
    instruction: DecodedInstruction
  ): bv32
    requires IsRegisterEncoding(encoding)
  {
    match encoding
    case OpcodeEncoding =>
      RegisterNumber(IsExtendedInOpcode(specification, encoding) && extensions.b, instruction.opcode.b0 as bv32 & 7)
    case ModRmRegEncoding => RegisterNumber(extensions.r, instruction.GetModRm().registerOperand)
    case ModRmRmEncoding => RegisterNumber(extensions.b, instruction.GetModRm().rmOperand)
    case VexVEncoding => 15 & !instruction.GetVexPrefix().invertedRegisterOperand
    case VexSuffixEncoding => instruction.GetVexPrefix().vexSuffixValue >> 4
  }

  // The specification has the field that the operand is encoded in.
  predicate HasField(specification: EncodingSpecification, encoding: OperandEncoding) {
    match encoding
    case OpcodeEncoding => !specification.operandInOpcode.NoOperandInOpcode?
    case ModRmRegEncoding => !specification.modrmUsage.NoModRmUsage?
    case ModRmRmEncoding => !specification.modrmUsage.NoModRmUsage?
    case VexVEncoding =>
      specification.prefix.VexSpecification? && !specification.prefix.vex.vexOperandUsage.VexOperandIsNotUsed?
    case VexSuffixEncoding => specification.prefix.VexSpecification? && specification.prefix.vex.hasVexOperandSuffix
    case _ => false
  }

  // The setter accepts the index, and the specification has the field.
  predicate IsAssignable(
    specification: EncodingSpecification, encoding: OperandEncoding, index: bv32, instruction: DecodedInstruction
  ) {
    && IsRegisterEncoding(encoding) && HasField(specification, encoding) && !instruction.prefix.Evex?
    && index <= MAX_REGISTER_INDEX && (encoding.OpcodeEncoding? ==> index <= MAX_LEGACY_REGISTER_INDEX)
    && (encoding.OpcodeEncoding? ==> WithRegister(encoding, index, instruction).opcode != ZERO)
    && IsEncodable(specification, WithRegister(encoding, index, instruction))
  }

  lemma {:induction false} RegisterBits(index: bv32)
    requires index <= 31
    ensures RegisterNumber(index > 7, GetBitRange(index, 0, 3) & 7) == index <==> index <= 15
    ensures RegisterNumber(false, GetBitRange(index, 0, 3) & 7) == index <==> index <= 7
    ensures 15 & !GetBitRange(GetBitRange(!index, 0, 4), 0, 4) == index <==> index <= 15
    ensures ((index << 4) & 0xff) >> 4 == index <==> index <= 15
  {
  }

  lemma OpcodeBits(base: bv8, index: bv32, extension: bool)
    requires index <= 7
    ensures ((base & 0xf8) + LowByte(index)) as bv32 & 7 == index
    ensures RegisterNumber(extension, index) == index <==> !extension
  {
  }

  // The register whose bits are emitted.
  function EmittedRegister(
    specification: EncodingSpecification, encoding: OperandEncoding, extensions: Extensions,
    instruction: DecodedInstruction
  ): bv32
    requires IsRegisterEncoding(encoding)
  {
    match encoding
    case OpcodeEncoding =>
      RegisterNumber(IsExtendedInOpcode(specification, encoding) && extensions.b, instruction.opcode.b0 as bv32 & 7)
    case ModRmRegEncoding => RegisterNumber(extensions.r, instruction.GetModRm().registerOperand & 7)
    case ModRmRmEncoding => RegisterNumber(extensions.b, instruction.GetModRm().rmOperand & 7)
    case VexVEncoding => 15 & !GetBitRange(instruction.GetVexPrefix().invertedRegisterOperand, 0, 4)
    case VexSuffixEncoding => (instruction.GetVexPrefix().vexSuffixValue & 0xff) >> 4
  }

  // The fields are read back as they were emitted.
  lemma {:induction false} FieldsAreReadBack(
    specification: EncodingSpecification, encoding: OperandEncoding, extensions: Extensions,
    instruction: DecodedInstruction
  )
    requires IsRegisterEncoding(encoding) && HasField(specification, encoding)
    requires IsEncodable(specification, instruction) && !instruction.prefix.Evex?
    requires encoding.OpcodeEncoding? ==> instruction.opcode != ZERO
    ensures SelectedRegister(specification, encoding, extensions, Parsed(specification, instruction)) ==
            EmittedRegister(specification, encoding, extensions, instruction)
  {
    if encoding.OpcodeEncoding? {
      OpcodeIsReadBack(specification, instruction);
    } else if IsInModRm(encoding) {
      ModRmFieldsAreReadBack(specification, encoding, extensions, instruction);
    } else {
      VexFieldsAreReadBack(specification, encoding, extensions, instruction);
    }
  }

  lemma {:induction false} OpcodeIsReadBack(specification: EncodingSpecification, instruction: DecodedInstruction)
    requires instruction.opcode != ZERO
    ensures Parsed(specification, instruction).opcode.b0 == instruction.opcode.b0
  {
  }

  lemma {:induction false} ModRmFieldsAreReadBack(
    specification: EncodingSpecification, encoding: OperandEncoding, extensions: Extensions,
    instruction: DecodedInstruction
  )
    requires IsInModRm(encoding) && HasField(specification, encoding)
    ensures SelectedRegister(specification, encoding, extensions, Parsed(specification, instruction)) ==
            EmittedRegister(specification, encoding, extensions, instruction)
  {
    var withModRm := WithAddressing(specification, instruction, WithOpcode(specification, instruction));
    assert Parsed(specification, instruction).optionalModRm == withModRm.optionalModRm;
  }

  lemma {:induction false} VexFieldsAreReadBack(
    specification: EncodingSpecification, encoding: OperandEncoding, extensions: Extensions,
    instruction: DecodedInstruction
  )
    requires encoding.VexVEncoding? || encoding.VexSuffixEncoding?
    requires IsEncodable(specification, instruction) && HasField(specification, encoding)
    requires !instruction.prefix.Evex?
    ensures SelectedRegister(specification, encoding, extensions, Parsed(specification, instruction)) ==
            EmittedRegister(specification, encoding, extensions, instruction)
  {
    assert ValidatePrefix(specification, instruction).Ok?;
    var fields := instruction.prefix.vex;
    var parsed := Parsed(specification, instruction).prefix;
    assert parsed.Vex? && parsed.vex.invertedRegisterOperand ==
           NormalVex(specification.prefix.vex, fields).invertedRegisterOperand;
  }

  lemma {:induction false} ExtensionsAreReadBack(specification: EncodingSpecification, instruction: DecodedInstruction)
    requires IsEncodable(specification, instruction) && !instruction.prefix.Evex?
    ensures ExtensionsOf(Parsed(specification, instruction).prefix) == ExtensionsOf(instruction.prefix)
  {
    ExtensionBitsSurvive(specification, instruction);
    assert ValidatePrefix(specification, instruction).Ok?;
    SuffixKeepsExtensionBits(specification, instruction,
                             WithAddressing(specification, instruction, WithOpcode(specification, instruction)));
  }

  lemma SuffixKeepsExtensionBits(
    specification: EncodingSpecification, encoded: DecodedInstruction, instruction: DecodedInstruction
  )
    requires specification.GetVexPrefix().hasVexOperandSuffix ==> instruction.prefix.Vex?
    ensures ExtensionsOf(WithOperands(specification, encoded, instruction).prefix) == ExtensionsOf(instruction.prefix)
  {
  }

  // A register in the opcode needs a clear bit B, which its setter does not touch;
  // the setters of the ModR/M byte set the bit that they need.
  predicate HasBitsFor(
    specification: EncodingSpecification, encoding: OperandEncoding, index: bv32, extensions: Extensions
  ) {
    && index <= MAX_GENERAL_PURPOSE_REGISTER_INDEX
    && (IsExtendedInOpcode(specification, encoding) ==> !extensions.b)
  }

  lemma {:induction false} EmittedRegisterIsSet(
    specification: EncodingSpecification, encoding: OperandEncoding, index: bv32, instruction: DecodedInstruction
  )
    requires IsRegisterEncoding(encoding) && !instruction.prefix.Evex?
    requires index <= MAX_REGISTER_INDEX && (encoding.OpcodeEncoding? ==> index <= MAX_LEGACY_REGISTER_INDEX)
    ensures var after := WithRegister(encoding, index, instruction);
            EmittedRegister(specification, encoding, ExtensionsOf(after.prefix), after) == index <==>
            HasBitsFor(specification, encoding, index, ExtensionsOf(instruction.prefix))
  {
    if encoding.OpcodeEncoding? {
      OpcodeRegisterIsSet(specification, index, instruction);
    } else {
      RegisterBits(index);
      ExtensionBitIsSet(encoding, index, instruction);
    }
  }

  lemma {:induction false} OpcodeRegisterIsSet(
    specification: EncodingSpecification, index: bv32, instruction: DecodedInstruction
  )
    requires index <= MAX_LEGACY_REGISTER_INDEX
    ensures EmittedRegister(specification, OpcodeEncoding, ExtensionsOf(instruction.prefix),
                            WithOpcodeOperand(instruction, index)) == index <==>
            (IsExtendedInOpcode(specification, OpcodeEncoding) ==> !ExtensionsOf(instruction.prefix).b)
  {
    OpcodeBits(instruction.opcode.b0, index,
               IsExtendedInOpcode(specification, OpcodeEncoding) && ExtensionsOf(instruction.prefix).b);
  }

  lemma ExtensionBitIsSet(encoding: OperandEncoding, index: bv32, instruction: DecodedInstruction)
    requires IsRegisterEncoding(encoding) && !instruction.prefix.Evex?
    ensures encoding.ModRmRegEncoding? ==>
              ExtensionsOf(WithRegister(encoding, index, instruction).prefix).r == (index > 7)
    ensures encoding.ModRmRmEncoding? ==>
              ExtensionsOf(WithRegister(encoding, index, instruction).prefix).b == (index > 7)
  {
  }

  // ---- The parser -----------------------------------------------------------

  // The parser reads the register back from the encoding exactly when the
  // encoding has enough bits for its index, and no bit too many.
  lemma {:induction false} RegisterIsReadBack(
    specification: EncodingSpecification, encoding: OperandEncoding, index: bv32, instruction: DecodedInstruction
  )
    requires IsAssignable(specification, encoding, index, instruction)
    ensures var parsed := Parsed(specification, WithRegister(encoding, index, instruction));
            SelectedRegister(specification, encoding, ExtensionsOf(parsed.prefix), parsed) == index <==>
            HasBitsFor(specification, encoding, index, ExtensionsOf(instruction.prefix))
  {
    var after := WithRegister(encoding, index, instruction);
    EmittedRegisterIsSet(specification, encoding, index, instruction);
    SettersKeepKind(encoding, index, instruction);
    ExtensionsAreReadBack(specification, after);
    FieldsAreReadBack(specification, encoding, ExtensionsOf(after.prefix), after);
  }

  lemma SettersKeepKind(encoding: OperandEncoding, index: bv32, instruction: DecodedInstruction)
    requires IsRegisterEncoding(encoding) && !instruction.prefix.Evex?
    ensures !WithRegister(encoding, index, instruction).prefix.Evex?
  {
  }

  // ---- The processor --------------------------------------------------------

  // Where the processor ignores REX, the ModR/M byte holds indices up to 7, and a
  // bit B does no harm to a register in the opcode.
  predicate ProcessorHasBitsFor(
    specification: EncodingSpecification, encoding: OperandEncoding, index: bv32, instruction: DecodedInstruction
  ) {
    if RexIsIgnored(specification, instruction) then
      IsInModRm(encoding) ==> index <= MAX_LEGACY_REGISTER_INDEX
    else HasBitsFor(specification, encoding, index, ExtensionsOf(instruction.prefix))
  }

  lemma {:induction false} RegisterWithoutRex(
    specification: EncodingSpecification, encoding: OperandEncoding, index: bv32, instruction: DecodedInstruction
  )
    requires IsAssignable(specification, encoding, index, instruction)
    requires specification.prefix.LegacySpecification?
    ensures EmittedRegister(specification, encoding, NO_EXTENSIONS, WithRegister(encoding, index, instruction)) == index
            <==> IsInModRm(encoding) ==> index <= MAX_LEGACY_REGISTER_INDEX
  {
    RegisterBits(index);
    if encoding.OpcodeEncoding? {
      OpcodeBits(instruction.opcode.b0, index, false);
    }
  }

  // The fields with the extension bits that the processor takes from the bytes.
  lemma {:induction false} ProcessorSelectsRegister(
    specification: EncodingSpecification, encoding: OperandEncoding, index: bv32, instruction: DecodedInstruction,
    rest: seq<bv8>
  )
    requires IsAssignable(specification, encoding, index, instruction)
    ensures var after := WithRegister(encoding, index, instruction);
            var extensions := PrefixesOf(EncodedBytes(specification, after) + rest).extensions;
            SelectedRegister(specification, encoding, extensions, Parsed(specification, after)) == index <==>
            ProcessorHasBitsFor(specification, encoding, index, instruction)
  {
    var after := WithRegister(encoding, index, instruction);
    SettersKeepKind(encoding, index, instruction);
    ProcessorReadsPrefixes(specification, after, rest);
    FieldsAreReadBack(specification, encoding, EffectiveExtensions(specification, after), after);
    SettersKeepIgnoredRex(specification, encoding, index, instruction);
    if RexIsIgnored(specification, after) {
      RegisterWithoutRex(specification, encoding, index, instruction);
    } else {
      EmittedRegisterIsSet(specification, encoding, index, instruction);
    }
  }

  lemma SettersKeepIgnoredRex(
    specification: EncodingSpecification, encoding: OperandEncoding, index: bv32, instruction: DecodedInstruction
  )
    requires IsRegisterEncoding(encoding) && HasField(specification, encoding)
    ensures RexIsIgnored(specification, WithRegister(encoding, index, instruction)) ==
            RexIsIgnored(specification, instruction)
  {
  }

  // Both of the bytes: the decoder leaves the bytes that follow, and its fields
  // select the register, with its own extension bits and with those that the
  // processor takes, exactly in these cases.
  lemma {:induction false} RegisterIsReadFromBytes(
    specification: EncodingSpecification, encoding: OperandEncoding, index: bv32, instruction: DecodedInstruction,
    rest: seq<bv8>
  )
    requires IsAssignable(specification, encoding, index, instruction) && IsReadable(specification)
    requires AddressingSurvives(specification, WithRegister(encoding, index, instruction))
    ensures IsWellFormedDatabase(OneInstruction(specification))
    ensures var bytes := EncodedBytes(specification, WithRegister(encoding, index, instruction)) + rest;
            match ReadInstruction(OneInstruction(specification), bytes)
            case Success((decoded, left)) =>
              && left == rest
              && (SelectedRegister(specification, encoding, ExtensionsOf(decoded.prefix), decoded) == index <==>
                  HasBitsFor(specification, encoding, index, ExtensionsOf(instruction.prefix)))
              && (SelectedRegister(specification, encoding, PrefixesOf(bytes).extensions, decoded) == index <==>
                  ProcessorHasBitsFor(specification, encoding, index, instruction))
            case Failure(_) => false
  {
    RegisterIsReadBack(specification, encoding, index, instruction);
    ProcessorSelectsRegister(specification, encoding, index, instruction, rest);
    ReadWithSpecification(specification, WithRegister(encoding, index, instruction), rest);
  }

  // ---- Registers that are not read back -------------------------------------

  const WITH_REGISTER_SIXTEEN: DecodedInstruction :=
    WithRegister(ModRmRegEncoding, 16, DEFAULT_INSTRUCTION.(optionalModRm := Some(ModRm(Direct, 0, 0, 0))))

  // Register 16 is set without an error, and register 8 is what its bytes select.
  lemma {:induction false} RegisterSixteenIsNotReadBack(rest: seq<bv8>)
    ensures CanHoldRegister(InstructionFormat("", [NO_OPERAND.(encoding := ModRmRegEncoding)]), 0, 16)
    ensures IsEncodable(INDIRECT_SPECIFICATION, WITH_REGISTER_SIXTEEN)
    ensures IsWellFormedDatabase(OneInstruction(INDIRECT_SPECIFICATION))
    ensures match ReadInstruction(OneInstruction(INDIRECT_SPECIFICATION),
                                  EncodedBytes(INDIRECT_SPECIFICATION, WITH_REGISTER_SIXTEEN) + rest)
            case Success((decoded, _)) =>
              SelectedRegister(INDIRECT_SPECIFICATION, ModRmRegEncoding, ExtensionsOf(decoded.prefix), decoded) == 8
            case Failure(_) => false
  {
    assert OpcodeBytes(INDIRECT_SPECIFICATION, WITH_REGISTER_SIXTEEN)[0] == 0x03;
    ExtensionsAreReadBack(INDIRECT_SPECIFICATION, WITH_REGISTER_SIXTEEN);
    FieldsAreReadBack(INDIRECT_SPECIFICATION, ModRmRegEncoding, ExtensionsOf(WITH_REGISTER_SIXTEEN.prefix),
                      WITH_REGISTER_SIXTEEN);
    ReadWithSpecification(INDIRECT_SPECIFICATION, WITH_REGISTER_SIXTEEN, rest);
  }

  // BSWAP, with a register in its second opcode byte.
  const SWAP_SPECIFICATION: EncodingSpecification :=
    EncodingSpecification(
      Opcode(0, 0, 0x0f, 0xc8), GeneralPurposeRegisterInOpcode, NoModRmUsage, 0,
      LegacySpecification(LegacyPrefixSpecification(PrefixIsIgnored, false, false, PrefixIsIgnored, false)), [], 0)

  // The encoding of its register 8.
  const SWAP_EIGHT: DecodedInstruction :=
    DEFAULT_INSTRUCTION.(
      opcode := Opcode(0, 0, 0x0f, 0xc8),
      prefix := Legacy(DEFAULT_LEGACY.(optionalRex := Some(Rex(true, false, false, false)))))

  // Register 3 is set without an error, and register 11 is what the bytes select.
  lemma {:induction false} OpcodeRegisterKeepsExtension(rest: seq<bv8>)
    ensures CanHoldRegister(InstructionFormat("", [NO_OPERAND.(encoding := OpcodeEncoding)]), 0, 3)
    ensures IsAssignable(SWAP_SPECIFICATION, OpcodeEncoding, 3, SWAP_EIGHT)
    ensures var after := WithRegister(OpcodeEncoding, 3, SWAP_EIGHT);
            var bytes := EncodedBytes(SWAP_SPECIFICATION, after);
            && bytes == [0x41, 0x0f, 0xcb]
            && SelectedRegister(SWAP_SPECIFICATION, OpcodeEncoding, PrefixesOf(bytes + rest).extensions,
                                Parsed(SWAP_SPECIFICATION, after)) == 11
  {
    var after := WithRegister(OpcodeEncoding, 3, SWAP_EIGHT);
    assert OpcodeBytes(SWAP_SPECIFICATION, after) == [0x0f, 0xcb];
    ProcessorReadsPrefixes(SWAP_SPECIFICATION, after, rest);
  }

  // ---- Several registers ----------------------------------------------------

  // The instruction has the prefix that the operand belongs to. (Setting a VEX
  // operand of another instruction replaces its prefix.)
  predicate IsOwnEncoding(encoding: OperandEncoding, instruction: DecodedInstruction) {
    && IsRegisterEncoding(encoding) && !instruction.prefix.Evex?
    && (encoding.VexVEncoding? || encoding.VexSuffixEncoding? ==> instruction.prefix.Vex?)
  }

  // What a setter does to each of the four fields that it may change.
  function PrefixAfter(encoding: OperandEncoding, index: bv32, prefix: InstructionPrefix): InstructionPrefix {
    match encoding
    case ModRmRegEncoding => SetR(prefix, index > 7)
    case ModRmRmEncoding => SetB(prefix, index > 7)
    case VexVEncoding =>
      Vex((if prefix.Vex? then prefix.vex else DEFAULT_VEX).(invertedRegisterOperand := GetBitRange(!index, 0, 4)))
    case VexSuffixEncoding =>
      Vex((if prefix.Vex? then prefix.vex else DEFAULT_VEX).(vexSuffixValue := index << 4))
    case _ => prefix
  }

  function ModRmAfter(encoding: OperandEncoding, index: bv32, modrm: Option<ModRm>): Option<ModRm> {
    var present := if modrm.Some? then modrm.value else ModRm(Indirect, 0, 0, 0);
    match encoding
    case ModRmRegEncoding => Some(present.(registerOperand := GetBitRange(index, 0, 3)))
    case ModRmRmEncoding => Some(present.(addressingMode := Direct, rmOperand := GetBitRange(index, 0, 3)))
    case _ => modrm
  }

  lemma {:induction false} SetterByFields(encoding: OperandEncoding, index: bv32, instruction: DecodedInstruction)
    requires IsRegisterEncoding(encoding)
    ensures WithRegister(encoding, index, instruction) ==
            instruction.(
              prefix := PrefixAfter(encoding, index, instruction.prefix),
              opcode := if encoding.OpcodeEncoding? then WithOpcodeOperand(instruction, index).opcode
                        else instruction.opcode,
              optionalModRm := ModRmAfter(encoding, index, instruction.optionalModRm),
              optionalSib := if encoding.ModRmRmEncoding? then None else instruction.optionalSib)
  {
  }

  lemma ExtensionBitsCommute(prefix: InstructionPrefix, r: bool, b: bool)
    ensures SetR(SetB(prefix, b), r) == SetB(SetR(prefix, r), b)
  {
    if !prefix.Vex? {
      var rex := LegacyOf(prefix).GetRex().(r := r, b := b);
      assert SetR(SetB(prefix, b), r) == SetRex(prefix, rex);
      assert SetB(SetR(prefix, r), b) == SetRex(prefix, rex);
    }
  }

  lemma {:induction false} PrefixesCommute(
    first: OperandEncoding, i: bv32, second: OperandEncoding, j: bv32, prefix: InstructionPrefix
  )
    requires first != second
    requires prefix.Vex? || !(first.VexVEncoding? || first.VexSuffixEncoding? ||
                              second.VexVEncoding? || second.VexSuffixEncoding?)
    ensures PrefixAfter(second, j, PrefixAfter(first, i, prefix)) ==
            PrefixAfter(first, i, PrefixAfter(second, j, prefix))
  {
    if prefix.Vex? {
      VexPrefixesCommute(first, i, second, j, prefix);
    } else if first.ModRmRegEncoding? {
      ExtensionBitsCommute(prefix, i > 7, j > 7);
    } else {
      ExtensionBitsCommute(prefix, j > 7, i > 7);
    }
  }

  lemma VexPrefixesCommute(
    first: OperandEncoding, i: bv32, second: OperandEncoding, j: bv32, prefix: InstructionPrefix
  )
    requires first != second && prefix.Vex?
    ensures PrefixAfter(second, j, PrefixAfter(first, i, prefix)) ==
            PrefixAfter(first, i, PrefixAfter(second, j, prefix))
  {
    VexAfterByFields(first, i, prefix.vex);
    VexAfterByFields(second, j, prefix.vex);
    VexAfterByFields(second, j, PrefixAfter(first, i, prefix).vex);
    VexAfterByFields(first, i, PrefixAfter(second, j, prefix).vex);
  }

  lemma {:induction false} VexAfterByFields(encoding: OperandEncoding, index: bv32, vex: VexFields)
    ensures PrefixAfter(encoding, index, Vex(vex)) ==
            Vex(vex.(notR := if encoding.ModRmRegEncoding? then index <= 7 else vex.notR,
                     notB := if encoding.ModRmRmEncoding? then index <= 7 else vex.notB,
                     invertedRegisterOperand :=
                       if encoding.VexVEncoding? then GetBitRange(!index, 0, 4) else vex.invertedRegisterOperand,
                     vexSuffixValue := if encoding.VexSuffixEncoding? then index << 4 else vex.vexSuffixValue))
  {
  }

  lemma ModRmsCommute(
    first: OperandEncoding, i: bv32, second: OperandEncoding, j: bv32, modrm: Option<ModRm>
  )
    requires first != second
    ensures ModRmAfter(second, j, ModRmAfter(first, i, modrm)) == ModRmAfter(first, i, ModRmAfter(second, j, modrm))
  {
  }

  // Setting two operands gives the same instruction in either order.
  lemma {:induction false} SettersCommute(
    first: OperandEncoding, i: bv32, second: OperandEncoding, j: bv32, instruction: DecodedInstruction
  )
    requires IsOwnEncoding(first, instruction) && IsOwnEncoding(second, instruction) && first != second
    ensures WithRegister(second, j, WithRegister(first, i, instruction)) ==
            WithRegister(first, i, WithRegister(second, j, instruction))
  {
    SetterByFields(first, i, instruction);
    SetterByFields(second, j, instruction);
    SetterByFields(second, j, WithRegister(first, i, instruction));
    SetterByFields(first, i, WithRegister(second, j, instruction));
    PrefixesCommute(first, i, second, j, instruction.prefix);
    ModRmsCommute(first, i, second, j, instruction.optionalModRm);
  }

  datatype Assignment = Assignment(encoding: OperandEncoding, index: bv32)

  predicate AreDistinctOwn(assignments: seq<Assignment>, instruction: DecodedInstruction) {
    && (forall k :: 0 <= k < |assignments| ==> IsOwnEncoding(assignments[k].encoding, instruction))
    && (forall k, l :: 0 <= k < l < |assignments| ==> assignments[k].encoding != assignments[l].encoding)
  }

  function Assign(assignment: Assignment, instruction: DecodedInstruction): DecodedInstruction {
    if IsRegisterEncoding(assignment.encoding)
    then WithRegister(assignment.encoding, assignment.index, instruction)
    else instruction
  }

  // Sets the operands one after another.
  function WithRegisters(assignments: seq<Assignment>, instruction: DecodedInstruction): DecodedInstruction {
    Fold(Assign, assignments, instruction)
  }

  predicate IsOfKind(isVex: bool, instruction: DecodedInstruction) {
    instruction.prefix.Vex? == isVex && !instruction.prefix.Evex?
  }

  lemma {:induction false} AssignKeepsKind(assignment: Assignment, isVex: bool, instruction: DecodedInstruction)
    requires IsOfKind(isVex, instruction) && IsOwnEncoding(assignment.encoding, instruction)
    ensures IsOfKind(isVex, Assign(assignment, instruction))
  {
    SetterByFields(assignment.encoding, assignment.index, instruction);
  }

  function KindOf(instruction: DecodedInstruction): DecodedInstruction -> bool {
    var isVex := instruction.prefix.Vex?;
    d => IsOfKind(isVex, d)
  }

  lemma {:induction false} AssignmentsCommute(assignments: seq<Assignment>, instruction: DecodedInstruction)
    requires AreDistinctOwn(assignments, instruction) && !instruction.prefix.Evex?
    ensures Commute(Assign, KindOf(instruction), set a | a in assignments)
  {
    var elements := set a | a in assignments;
    forall a, d | a in elements && KindOf(instruction)(d)
      ensures KindOf(instruction)(Assign(a, d))
    {
      AssignKeepsKind(a, instruction.prefix.Vex?, d);
    }
    forall a, b, d | a in elements && b in elements && a != b && KindOf(instruction)(d)
      ensures Assign(a, Assign(b, d)) == Assign(b, Assign(a, d))
    {
      SettersCommute(a.encoding, a.index, b.encoding, b.index, d);
    }
  }

  // Setting operands with distinct encodings gives the same instruction, and so
  // the same bytes, in any order.
  lemma {:induction false} AnyOrderIsTheSame(
    first: seq<Assignment>, second: seq<Assignment>, instruction: DecodedInstruction
  )
    requires AreDistinctOwn(first, instruction) && multiset(first) == multiset(second)
    ensures WithRegisters(first, instruction) == WithRegisters(second, instruction)
  {
    if first != [] {
      assert IsOwnEncoding(first[0].encoding, instruction);
      AssignmentsCommute(first, instruction);
      FoldInAnyOrder(Assign, KindOf(instruction), (set a | a in first), first, second, instruction);
    } else {
      assert |first| == |multiset(first)| == |multiset(second)| == |second|;
    }
  }

  // ---- All registers are read back ------------------------------------------

  predicate AreAccepted(specification: EncodingSpecification, assignments: seq<Assignment>) {
    forall k :: 0 <= k < |assignments| ==>
      && HasField(specification, assignments[k].encoding) && assignments[k].index <= MAX_REGISTER_INDEX
      && (assignments[k].encoding.OpcodeEncoding? ==> assignments[k].index <= MAX_LEGACY_REGISTER_INDEX)
  }

  // Any of the assignments is the last one.
  lemma {:induction false} IsLast(assignments: seq<Assignment>, k: nat, instruction: DecodedInstruction)
    requires AreDistinctOwn(assignments, instruction) && k < |assignments|
    ensures var before := WithRegisters(Without(assignments, k), instruction);
            IsOfKind(instruction.prefix.Vex?, before) &&
            WithRegisters(assignments, instruction) == Assign(assignments[k], before)
  {
    var elements := set a | a in assignments;
    assert IsOwnEncoding(assignments[k].encoding, instruction);
    AssignmentsCommute(assignments, instruction);
    MoveToEnd(Assign, KindOf(instruction), elements, assignments, k, instruction);
    FoldKeeps(Assign, KindOf(instruction), elements, Without(assignments, k), instruction);
  }

  // The bit B in the end: that of the register in modrm.rm, or the one at first.
  predicate LeavesExtensionB(assignments: seq<Assignment>, b: bool) {
    || (exists k :: 0 <= k < |assignments| && assignments[k].encoding.ModRmRmEncoding? && assignments[k].index > 7)
    || (b && forall k :: 0 <= k < |assignments| ==> !assignments[k].encoding.ModRmRmEncoding?)
  }

  lemma {:induction false} FinalExtensionB(assignments: seq<Assignment>, instruction: DecodedInstruction)
    requires AreDistinctOwn(assignments, instruction) && !instruction.prefix.Evex?
    ensures ExtensionsOf(WithRegisters(assignments, instruction).prefix).b ==
            LeavesExtensionB(assignments, ExtensionsOf(instruction.prefix).b)
  {
    var n := |assignments| - 1;
    if n >= 0 {
      var front, last := assignments[..n], assignments[n];
      FinalExtensionB(front, instruction);
      IsLast(assignments, n, instruction);
      assert Without(assignments, n) == front;
      assert IsOwnEncoding(last.encoding, instruction);
      ExtensionBAfter(last, WithRegisters(front, instruction));
      assert assignments == front + [last];
      LeavesExtensionBOfLast(front, last, ExtensionsOf(instruction.prefix).b);
    }
  }

  lemma LeavesExtensionBOfLast(front: seq<Assignment>, last: Assignment, b: bool)
    requires forall k :: 0 <= k < |front| ==> front[k].encoding != last.encoding
    ensures LeavesExtensionB(front + [last], b) ==
            if last.encoding.ModRmRmEncoding? then last.index > 7 else LeavesExtensionB(front, b)
  {
    var all := front + [last];
    assert all[|front|] == last && forall k :: 0 <= k < |front| ==> all[k] == front[k];
  }

  lemma ExtensionBAfter(assignment: Assignment, instruction: DecodedInstruction)
    requires IsOwnEncoding(assignment.encoding, instruction)
    ensures ExtensionsOf(Assign(assignment, instruction).prefix).b ==
            if assignment.encoding.ModRmRmEncoding? then assignment.index > 7 else ExtensionsOf(instruction.prefix).b
  {
  }

  // After all the setters, decoding the bytes gives each register its index; only a
  // register in the opcode depends on the others, by the bit B that they leave.
  lemma {:induction false} EachRegisterIsReadFromBytes(
    specification: EncodingSpecification, assignments: seq<Assignment>, instruction: DecodedInstruction, rest: seq<bv8>
  )
    requires AreDistinctOwn(assignments, instruction) && AreAccepted(specification, assignments)
    requires !instruction.prefix.Evex? && IsReadable(specification)
    requires var after := WithRegisters(assignments, instruction);
             IsEncodable(specification, after) && AddressingSurvives(specification, after)
    requires forall k :: 0 <= k < |assignments| && assignments[k].encoding.OpcodeEncoding? ==>
               WithRegisters(assignments, instruction).opcode != ZERO
    ensures IsWellFormedDatabase(OneInstruction(specification))
    ensures var bytes := EncodedBytes(specification, WithRegisters(assignments, instruction)) + rest;
            match ReadInstruction(OneInstruction(specification), bytes)
            case Success((decoded, left)) =>
              left == rest &&
              forall k :: 0 <= k < |assignments| ==>
                && IsRegisterEncoding(assignments[k].encoding)
                && (SelectedRegister(specification, assignments[k].encoding, ExtensionsOf(decoded.prefix), decoded) ==
                    assignments[k].index
                    <==>
                    && assignments[k].index <= MAX_GENERAL_PURPOSE_REGISTER_INDEX
                    && (IsExtendedInOpcode(specification, assignments[k].encoding) ==>
                          !LeavesExtensionB(assignments, ExtensionsOf(instruction.prefix).b)))
            case Failure(_) => false
  {
    var after := WithRegisters(assignments, instruction);
    var parsed := Parsed(specification, after);
    ReadWithSpecification(specification, after, rest);
    forall k | 0 <= k < |assignments|
      ensures IsRegisterEncoding(assignments[k].encoding)
      ensures SelectedRegister(specification, assignments[k].encoding, ExtensionsOf(parsed.prefix), parsed) ==
              assignments[k].index <==>
              HasBitsFor(specification, assignments[k].encoding, assignments[k].index, ExtensionsOf(after.prefix))
    {
      EachRegisterIsReadBack(specification, assignments, k, instruction);
    }
    FinalExtensionB(assignments, instruction);
  }

  lemma {:induction false} EachRegisterIsReadBack(
    specification: EncodingSpecification, assignments: seq<Assignment>, k: nat, instruction: DecodedInstruction
  )
    requires AreDistinctOwn(assignments, instruction) && AreAccepted(specification, assignments) && k < |assignments|
    requires assignments[k].encoding.OpcodeEncoding? ==> WithRegisters(assignments, instruction).opcode != ZERO
    requires IsEncodable(specification, WithRegisters(assignments, instruction))
    ensures IsRegisterEncoding(assignments[k].encoding)
    ensures var after := WithRegisters(assignments, instruction);
            var parsed := Parsed(specification, after);
            SelectedRegister(specification, assignments[k].encoding, ExtensionsOf(parsed.prefix), parsed) ==
            assignments[k].index <==>
            HasBitsFor(specification, assignments[k].encoding, assignments[k].index, ExtensionsOf(after.prefix))
  {
    var before := WithRegisters(Without(assignments, k), instruction);
    var encoding, index := assignments[k].encoding, assignments[k].index;
    assert IsOwnEncoding(encoding, instruction);
    IsLast(assignments, k, instruction);
    RegisterIsReadBack(specification, encoding, index, before);
    if encoding.OpcodeEncoding? {
      assert WithRegister(encoding, index, before).prefix == before.prefix;
    }
  }
}
