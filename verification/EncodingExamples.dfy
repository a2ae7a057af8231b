// The example encodings of an instruction (exegesis/x86/instruction_encoding.cc):
// a base instruction from the specification, all addressing modes of the modrm.rm
// operand, and a variant of each that uses an extension bit of the prefix.
module EncodingExamples {
  import opened Wrappers
  import opened Sequences
  import opened Opcodes
  import opened X86Protos
  import opened InstructionEncoding
  import opened InstructionEncoder
  import opened EncodingSpecificationLanguage
  import opened ParsedSpecifications
  import opened MatcherAgreement
  import opened RoundTripPrefixes
  import opened RoundTripOperands
  import opened RoundTrip
  import opened UniqueDecoding
  import opened InstructionParser
  import opened OperandSetters

  const RM_OPERAND: bv32 := 3
  const RM_RIP_ESCAPE: bv32 := 5
  const RM_SIB_ESCAPE: bv32 := 4
  const SCALE: bv32 := 2
  const SIB_DISPLACEMENT_ESCAPE: bv32 := 5
  const INDEX_REGISTER: bv32 := 1
  const BASE_REGISTER: bv32 := 4
  const DISPLACEMENT_8_BIT: bv64 := 127
  const DISPLACEMENT_32_BIT: bv64 := 0x1234_5678
  const MODRM_REG_OPERAND: bv32 := 6
  const INVERTED_VEX_OPERAND: bv32 := 7

  // ---- The base instruction -------------------------------------------------

  function BaseVexPrefix(specification: VexPrefixSpecification): VexFields {
    VexFields(specification.mandatoryPrefix, true, true, true, specification.vexWUsage.VexWIsOne?, 0,
              specification.mapSelect, specification.vectorSize.VectorSize256Bit?, 0)
  }

  function BaseLegacyPrefixes(specification: LegacyPrefixSpecification): LegacyFields {
    LegacyFields(
      if specification.rexWPrefix.PrefixIsRequired? then Some(Rex(false, false, true, false)) else None,
      if specification.hasMandatoryRepnePrefix then RepnePrefix
      else if specification.hasMandatoryRepePrefix then RepPrefix
      else NoLockOrRep,
      specification.operandSizeOverridePrefix.PrefixIsRequired?)
  }

  function BaseModRm(specification: EncodingSpecification): Option<ModRm> {
    match specification.modrmUsage
    case FullModRm => Some(ModRm(Indirect, 0, 0, 0))
    case OpcodeExtensionInModRm => Some(ModRm(Indirect, specification.modrmOpcodeExtension, 0, 0))
    case NoModRmUsage | RegIgnored => None
  }

  function BaseDecodedInstruction(specification: EncodingSpecification): DecodedInstruction {
    DEFAULT_INSTRUCTION.(
      opcode := specification.opcode,
      optionalModRm := BaseModRm(specification),
      prefix := if specification.prefix.VexSpecification? then Vex(BaseVexPrefix(specification.prefix.vex))
                else Legacy(BaseLegacyPrefixes(specification.GetLegacyPrefixes())))
  }

  // ---- The operands of the instruction --------------------------------------

  function FirstWithEncoding(operands: seq<InstructionOperand>, encoding: OperandEncoding): Option<InstructionOperand> {
    if operands == [] then None
    else if operands[0].encoding == encoding then Some(operands[0])
    else FirstWithEncoding(operands[1..], encoding)
  }

  function OperandWithEncoding(formats: seq<InstructionFormat>, encoding: OperandEncoding): Option<InstructionOperand> {
    if formats == [] then None
    else
      var first := FirstWithEncoding(formats[0].operands, encoding);
      if first.Some? then first else OperandWithEncoding(formats[1..], encoding)
  }

  predicate HasOperand(instruction: InstructionProto, encoding: OperandEncoding) {
    OperandWithEncoding(instruction.vendorSyntax, encoding).Some?
  }

  method FindOperand(operands: seq<InstructionOperand>, encoding: OperandEncoding)
    returns (operand: Option<InstructionOperand>)
    ensures operand == FirstWithEncoding(operands, encoding)
  {
    for i := 0 to |operands|
      invariant FirstWithEncoding(operands, encoding) == FirstWithEncoding(operands[i..], encoding)
    {
      if operands[i].encoding == encoding {
        return Some(operands[i]);
      }
    }
    return None;
  }

  method GetOperandWithEncoding(instruction: InstructionProto, encoding: OperandEncoding)
    returns (operand: Option<InstructionOperand>)
    ensures operand == OperandWithEncoding(instruction.vendorSyntax, encoding)
  {
    var formats := instruction.vendorSyntax;
    for i := 0 to |formats|
      invariant OperandWithEncoding(formats, encoding) == OperandWithEncoding(formats[i..], encoding)
    {
      operand := FindOperand(formats[i].operands, encoding);
      if operand.Some? {
        return;
      }
    }
    return None;
  }

  // ---- The examples ---------------------------------------------------------

  function WithRm(base: DecodedInstruction, rm: bv32): DecodedInstruction {
    base.(optionalModRm := Some(base.GetModRm().(rmOperand := rm)))
  }

  function WithSib(base: DecodedInstruction, sibBase: bv32): DecodedInstruction {
    WithRm(base, RM_SIB_ESCAPE).(optionalSib := Some(Sib(SCALE, INDEX_REGISTER, sibBase)))
  }

  // [base], [RIP + displacement], [base + index] and [base + index + displacement].
  function IndirectExamples(base: DecodedInstruction): seq<DecodedInstruction> {
    [WithRm(base, RM_OPERAND),
     WithDisplacement(WithRm(base, RM_RIP_ESCAPE), DISPLACEMENT_32_BIT),
     WithSib(base, BASE_REGISTER),
     WithDisplacement(WithSib(base, SIB_DISPLACEMENT_ESCAPE), DISPLACEMENT_32_BIT)]
  }

  function DisplacementExamples(base: DecodedInstruction, displacement: bv64): seq<DecodedInstruction> {
    [WithDisplacement(WithRm(base, RM_OPERAND), displacement),
     WithDisplacement(WithSib(base, BASE_REGISTER), displacement)]
  }

  function ModeExamples(base: DecodedInstruction, mode: AddressingMode): seq<DecodedInstruction> {
    var withMode := WithMode(base, mode);
    match mode
    case Indirect => IndirectExamples(withMode)
    case IndirectWith8BitDisplacement => DisplacementExamples(withMode, DISPLACEMENT_8_BIT)
    case IndirectWith32BitDisplacement => DisplacementExamples(withMode, DISPLACEMENT_32_BIT)
    case Direct => [WithRm(withMode, RM_OPERAND)]
  }

  function ModRmExamples(base: DecodedInstruction, modes: seq<AddressingMode>): seq<DecodedInstruction> {
    if modes == [] then []
    else ModRmExamples(base, modes[..|modes| - 1]) + ModeExamples(base, modes[|modes| - 1])
  }

  // Any other mode ends the process.
  predicate IsExpectedMode(mode: OperandAddressingMode) {
    mode.AnyAddressingWithFlexibleRegisters? || mode.DirectAddressing? || mode.IndirectAddressing? ||
    mode.IndirectAddressingWithBaseAndDisplacement? || mode.IndirectAddressingWithBaseDisplacementAndIndex?
  }

  function ExampleModes(mode: OperandAddressingMode): seq<AddressingMode>
    requires IsExpectedMode(mode)
  {
    match mode
    case AnyAddressingWithFlexibleRegisters =>
      [Direct, IndirectWith8BitDisplacement, IndirectWith32BitDisplacement, Indirect]
    case DirectAddressing => [Direct]
    case IndirectAddressing => [IndirectWith8BitDisplacement, IndirectWith32BitDisplacement, Indirect]
    case _ => [IndirectWith8BitDisplacement, IndirectWith32BitDisplacement]
  }

  function ExtendedB(specification: EncodingSpecification, prefix: InstructionPrefix): InstructionPrefix {
    if specification.prefix.VexSpecification? then Vex((if prefix.Vex? then prefix.vex else DEFAULT_VEX).(notB := false))
    else SetRex(prefix, LegacyOf(prefix).GetRex().(b := true))
  }

  function ExtendedR(specification: EncodingSpecification, prefix: InstructionPrefix): InstructionPrefix {
    if specification.prefix.VexSpecification? then Vex((if prefix.Vex? then prefix.vex else DEFAULT_VEX).(notR := false))
    else SetRex(prefix, LegacyOf(prefix).GetRex().(r := true))
  }

  // The encoding has the same size with any extension bit.
  predicate IsExtended(specification: EncodingSpecification, base: DecodedInstruction) {
    if specification.prefix.VexSpecification? then !base.GetVexPrefix().mapSelect.Map0F? || base.GetVexPrefix().w
    else base.GetLegacyPrefixes().GetRex().w
  }

  function PrefixVariations(
    instruction: InstructionProto, specification: EncodingSpecification, base: DecodedInstruction
  ): seq<DecodedInstruction> {
    if IsExtended(specification, base) then []
    else if HasOperand(instruction, ModRmRmEncoding) || specification.operandInOpcode.GeneralPurposeRegisterInOpcode? then
      [base.(prefix := ExtendedB(specification, base.prefix))]
    else if HasOperand(instruction, ModRmRegEncoding) then
      [base.(prefix := ExtendedR(specification, base.prefix))]
    else []
  }

  function AllVariations(
    instruction: InstructionProto, specification: EncodingSpecification, bases: seq<DecodedInstruction>
  ): seq<DecodedInstruction> {
    if bases == [] then []
    else AllVariations(instruction, specification, bases[..|bases| - 1]) +
         PrefixVariations(instruction, specification, bases[|bases| - 1])
  }

  function ExampleBytes(size: nat): seq<bv8> {
    seq(size, i requires 0 <= i < size => ((0xab + i) % 256) as bv8)
  }

  function ExampleImmediates(sizes: seq<nat>): seq<seq<bv8>> {
    seq(|sizes|, i requires 0 <= i < |sizes| => ExampleBytes(sizes[i]))
  }

  function ExampleBase(instruction: InstructionProto, specification: EncodingSpecification): DecodedInstruction {
    var base := BaseDecodedInstruction(specification);
    var withReg :=
      if !HasOperand(instruction, ModRmRegEncoding) then base
      else base.(optionalModRm := Some(base.GetModRm().(registerOperand := MODRM_REG_OPERAND)));
    var withVex :=
      if !HasOperand(instruction, VexVEncoding) then withReg
      else withReg.(prefix := Vex(withReg.GetVexPrefix().(invertedRegisterOperand := INVERTED_VEX_OPERAND)));
    withVex.(immediateValue := ExampleImmediates(specification.immediateValueBytes),
             codeOffset := seq(specification.codeOffsetBytes, _ => 0xc0))
  }

  // The operand in modrm.rm, if any, has an addressing mode that can be tried.
  predicate HasExamples(instruction: InstructionProto) {
    var operand := OperandWithEncoding(instruction.vendorSyntax, ModRmRmEncoding);
    operand.Some? ==> IsExpectedMode(operand.value.addressingMode)
  }

  function Originals(instruction: InstructionProto, specification: EncodingSpecification): seq<DecodedInstruction>
    requires HasExamples(instruction)
  {
    var base := ExampleBase(instruction, specification);
    var operand := OperandWithEncoding(instruction.vendorSyntax, ModRmRmEncoding);
    if operand.None? then [base] else ModRmExamples(base, ExampleModes(operand.value.addressingMode))
  }

  function Examples(instruction: InstructionProto, specification: EncodingSpecification): seq<DecodedInstruction>
    requires HasExamples(instruction)
  {
    var originals := Originals(instruction, specification);
    originals + AllVariations(instruction, specification, originals)
  }

  // ---- The generator --------------------------------------------------------

  method GenerateModRMEncodingExamples(instruction: InstructionProto, decodedInstructionBase: DecodedInstruction)
    returns (examples: seq<DecodedInstruction>)
    requires HasExamples(instruction) && HasOperand(instruction, ModRmRmEncoding)
    ensures examples ==
            ModRmExamples(decodedInstructionBase,
                          ExampleModes(OperandWithEncoding(instruction.vendorSyntax, ModRmRmEncoding).value.addressingMode))
  {
    var modrmOperand := GetOperandWithEncoding(instruction, ModRmRmEncoding);
    var addressingModes := ExampleModes(modrmOperand.value.addressingMode);
    var base := decodedInstructionBase;
    examples := [];
    for i := 0 to |addressingModes|
      invariant forall mode :: WithMode(base, mode) == WithMode(decodedInstructionBase, mode)
      invariant examples == ModRmExamples(decodedInstructionBase, addressingModes[..i])
    {
      assert addressingModes[..i + 1][..i] == addressingModes[..i];
      base := WithMode(base, addressingModes[i]);
      match addressingModes[i] {
        case Indirect => examples := examples + IndirectExamples(base);
        case IndirectWith8BitDisplacement => examples := examples + DisplacementExamples(base, DISPLACEMENT_8_BIT);
        case IndirectWith32BitDisplacement => examples := examples + DisplacementExamples(base, DISPLACEMENT_32_BIT);
        case Direct => examples := examples + [WithRm(base, RM_OPERAND)];
      }
    }
    assert addressingModes[..|addressingModes|] == addressingModes;
  }

  method AppendPrefixVariations(
    instruction: InstructionProto, specification: EncodingSpecification, base: DecodedInstruction,
    examples: seq<DecodedInstruction>
  )
    returns (after: seq<DecodedInstruction>)
    ensures after == examples + PrefixVariations(instruction, specification, base)
  {
    after := examples;
    if IsExtended(specification, base) {
      return;
    }
    var rmOperand := GetOperandWithEncoding(instruction, ModRmRmEncoding);
    var regOperand := GetOperandWithEncoding(instruction, ModRmRegEncoding);
    if rmOperand.Some? || specification.operandInOpcode.GeneralPurposeRegisterInOpcode? {
      after := after + [base.(prefix := ExtendedB(specification, base.prefix))];
    } else if regOperand.Some? {
      after := after + [base.(prefix := ExtendedR(specification, base.prefix))];
    }
  }

  method FillImmediates(base: DecodedInstruction, sizes: seq<nat>) returns (filled: DecodedInstruction)
    requires base.immediateValue == []
    ensures filled == base.(immediateValue := ExampleImmediates(sizes))
  {
    filled := base;
    for i := 0 to |sizes|
      invariant filled == base.(immediateValue := ExampleImmediates(sizes[..i]))
    {
      filled := filled.(immediateValue := filled.immediateValue + [ExampleBytes(sizes[i])]);
      assert filled.immediateValue == ExampleImmediates(sizes[..i + 1]);
    }
    assert sizes[..|sizes|] == sizes;
  }

  method FillExampleBase(instruction: InstructionProto, specification: EncodingSpecification)
    returns (base: DecodedInstruction)
    ensures base == ExampleBase(instruction, specification)
  {
    base := BaseDecodedInstruction(specification);
    var regOperand := GetOperandWithEncoding(instruction, ModRmRegEncoding);
    if regOperand.Some? {
      base := base.(optionalModRm := Some(base.GetModRm().(registerOperand := MODRM_REG_OPERAND)));
    }
    var vexOperand := GetOperandWithEncoding(instruction, VexVEncoding);
    if vexOperand.Some? {
      base := base.(prefix := Vex(base.GetVexPrefix().(invertedRegisterOperand := INVERTED_VEX_OPERAND)));
    }
    base := FillImmediates(base, specification.immediateValueBytes);
    if specification.codeOffsetBytes > 0 {
      base := base.(codeOffset := seq(specification.codeOffsetBytes, _ => 0xc0));
    }
    if specification.GetVexPrefix().hasVexOperandSuffix {
      base := base.(prefix := Vex(base.GetVexPrefix().(vexSuffixValue := 0)));
    }
  }

  // The list grows while it is read, but only behind the examples that are read.
  method AppendVariations(
    instruction: InstructionProto, specification: EncodingSpecification, originals: seq<DecodedInstruction>
  )
    returns (examples: seq<DecodedInstruction>)
    ensures examples == originals + AllVariations(instruction, specification, originals)
  {
    examples := originals;
    for i := 0 to |originals|
      invariant examples == originals + AllVariations(instruction, specification, originals[..i])
    {
      assert examples[i] == originals[i];
      examples := AppendPrefixVariations(instruction, specification, examples[i], examples);
      OneMoreVariation(instruction, specification, originals, i);
    }
    assert originals[..|originals|] == originals;
  }

  lemma {:induction false} OneMoreVariation(
    instruction: InstructionProto, specification: EncodingSpecification, originals: seq<DecodedInstruction>, i: nat
  )
    requires i < |originals|
    ensures originals + AllVariations(instruction, specification, originals[..i + 1]) ==
            originals + AllVariations(instruction, specification, originals[..i]) +
            PrefixVariations(instruction, specification, originals[i])
  {
    assert originals[..i + 1][..i] == originals[..i];
    Associate(originals, AllVariations(instruction, specification, originals[..i]),
              PrefixVariations(instruction, specification, originals[i]));
  }

  method GenerateExamplesOf(instruction: InstructionProto, specification: EncodingSpecification)
    returns (examples: seq<DecodedInstruction>)
    requires HasExamples(instruction)
    ensures examples == Examples(instruction, specification)
  {
    var base := FillExampleBase(instruction, specification);
    var rmOperand := GetOperandWithEncoding(instruction, ModRmRmEncoding);
    if rmOperand.Some? {
      examples := GenerateModRMEncodingExamples(instruction, base);
    } else {
      examples := [base];
    }
    examples := AppendVariations(instruction, specification, examples);
  }

  method GenerateEncodingExamples(instruction: InstructionProto) returns (examples: seq<DecodedInstruction>)
    requires var text := instruction.rawEncodingSpecification;
             (HasVexPrefix(text) ==> NamesVectorSize(text)) && ParseEncodingSpecification(text).Success?
    requires HasExamples(instruction)
    ensures examples ==
            Examples(instruction, ParseEncodingSpecification(instruction.rawEncodingSpecification).value)
  {
    var specification := ParseEncodingSpecification(instruction.rawEncodingSpecification);
    examples := GenerateExamplesOf(instruction, specification.value);
  }

  // ---- Every example encodes ------------------------------------------------

  // The prefix of the base instruction, and the prefixes with an extension bit.
  predicate IsPrefixVariant(specification: EncodingSpecification, base: InstructionPrefix, prefix: InstructionPrefix) {
    prefix == base || prefix == ExtendedB(specification, base) || prefix == ExtendedR(specification, base)
  }

  // The fields of modrm.rm are the ones that the generator varies.
  predicate HasExampleAddress(modrm: ModRm, sib: Option<Sib>) {
    && ModRmRequiresSib(modrm) == sib.Some?
    && modrm.rmOperand <= 5
    && (sib.Some? ==> sib.value.base <= 5)
  }

  predicate IsExample(base: DecodedInstruction, example: DecodedInstruction) {
    && example.optionalModRm.Some?
    && example ==
       base.(optionalModRm := example.optionalModRm, optionalSib := example.optionalSib)
    && example.optionalModRm.value.registerOperand == base.GetModRm().registerOperand
    && HasExampleAddress(example.optionalModRm.value, example.optionalSib)
  }

  lemma ModeExamplesAre(base: DecodedInstruction, mode: AddressingMode)
    requires base.optionalSib.None?
    ensures ModeExamples(base, mode) != []
    ensures forall e :: e in ModeExamples(base, mode) ==> IsExample(base, e)
  {
    var examples := ModeExamples(base, mode);
    assert forall i :: 0 <= i < |examples| ==> IsExample(base, examples[i]);
  }

  lemma {:induction false} ModRmExamplesAreOfModes(base: DecodedInstruction, modes: seq<AddressingMode>)
    ensures forall e :: e in ModRmExamples(base, modes) <==> exists m :: m in modes && e in ModeExamples(base, m)
  {
    if modes != [] {
      var others, last := modes[..|modes| - 1], modes[|modes| - 1];
      ModRmExamplesAreOfModes(base, others);
      assert forall m :: m in modes <==> m in others || m == last;
    }
  }

  lemma {:induction false} ModRmExamplesAre(base: DecodedInstruction, modes: seq<AddressingMode>)
    requires base.optionalSib.None?
    ensures modes != [] ==> ModRmExamples(base, modes) != []
    ensures forall e :: e in ModRmExamples(base, modes) ==> IsExample(base, e)
  {
    ModRmExamplesAreOfModes(base, modes);
    forall m | m in modes
      ensures ModeExamples(base, m) != [] && forall e :: e in ModeExamples(base, m) ==> IsExample(base, e)
    {
      ModeExamplesAre(base, m);
    }
    if modes != [] {
      assert ModeExamples(base, modes[0])[0] in ModRmExamples(base, modes);
    }
  }

  // A variation differs from an example in an extension bit.
  lemma {:induction false} VariationsVary(
    instruction: InstructionProto, specification: EncodingSpecification, bases: seq<DecodedInstruction>
  )
    ensures forall e :: e in AllVariations(instruction, specification, bases) ==>
              exists b :: b in bases && e == b.(prefix := e.prefix) && IsPrefixVariant(specification, b.prefix, e.prefix)
  {
    if bases != [] {
      VariationsVary(instruction, specification, bases[..|bases| - 1]);
      var last := bases[|bases| - 1];
      forall e | e in AllVariations(instruction, specification, bases)
        ensures exists b :: b in bases && e == b.(prefix := e.prefix) &&
                            IsPrefixVariant(specification, b.prefix, e.prefix)
      {
        if e in PrefixVariations(instruction, specification, last) {
          assert last in bases;
        }
      }
    }
  }

  // What every example is: the base instruction up to the extension bits and the
  // address.
  predicate Varies(
    instruction: InstructionProto, specification: EncodingSpecification, example: DecodedInstruction
  ) {
    var base := ExampleBase(instruction, specification);
    var original := example.(prefix := base.prefix);
    && IsPrefixVariant(specification, base.prefix, example.prefix)
    && if HasOperand(instruction, ModRmRmEncoding) then IsExample(base, original) else original == base
  }

  lemma ExamplesVary(instruction: InstructionProto, specification: EncodingSpecification)
    requires HasExamples(instruction)
    ensures Originals(instruction, specification) != []
    ensures Originals(instruction, specification)[0].prefix == ExampleBase(instruction, specification).prefix
    ensures forall e :: e in Examples(instruction, specification) ==> Varies(instruction, specification, e)
  {
    var base := ExampleBase(instruction, specification);
    var originals := Originals(instruction, specification);
    var operand := OperandWithEncoding(instruction.vendorSyntax, ModRmRmEncoding);
    if operand.Some? {
      ModRmExamplesAre(base, ExampleModes(operand.value.addressingMode));
    }
    assert forall e :: e in originals ==> e.prefix == base.prefix && Varies(instruction, specification, e);
    VariationsVary(instruction, specification, originals);
  }

  // When the operands and the specification agree in the way that the generator
  // relies on.
  predicate PrefixSuitsOperands(instruction: InstructionProto, specification: EncodingSpecification) {
    match specification.prefix
    case NoPrefixSpecification => false
    case LegacySpecification(legacy) =>
      && !legacy.hasMandatoryAddressSizeOverridePrefix
      && !(legacy.hasMandatoryRepePrefix && legacy.hasMandatoryRepnePrefix)
      && !HasOperand(instruction, VexVEncoding)
    case VexSpecification(vex) =>
      && vex.prefixType.VexType?
      && !vex.vectorSize.VectorSizeBitIsOne?
      && (HasOperand(instruction, VexVEncoding) ==> !vex.vexOperandUsage.VexOperandIsNotUsed?)
  }

  predicate ModRmSuitsOperands(instruction: InstructionProto, specification: EncodingSpecification) {
    match specification.modrmUsage
    case NoModRmUsage => !HasOperand(instruction, ModRmRmEncoding) && !HasOperand(instruction, ModRmRegEncoding)
    case OpcodeExtensionInModRm =>
      HasOperand(instruction, ModRmRegEncoding) ==> specification.modrmOpcodeExtension == MODRM_REG_OPERAND
    case FullModRm | RegIgnored => true
  }

  predicate LeavesRoomForOperand(specification: EncodingSpecification) {
    specification.opcode != ZERO && !specification.operandInOpcode.NoOperandInOpcode? ==>
      specification.opcode.WithoutOperandBits() == specification.opcode
  }

  predicate SuitsOperands(instruction: InstructionProto, specification: EncodingSpecification) {
    && PrefixSuitsOperands(instruction, specification)
    && ModRmSuitsOperands(instruction, specification)
    && LeavesRoomForOperand(specification)
  }

  lemma PrefixOfVariantIsValid(
    instruction: InstructionProto, specification: EncodingSpecification, example: DecodedInstruction
  )
    requires IsUsable(specification) && EvexBInterpretationsAreAllowed(specification)
    requires Varies(instruction, specification, example)
    requires PrefixSuitsOperands(instruction, specification)
    ensures ValidatePrefix(specification, example).Ok? && ValidateVexSuffix(specification, example).Ok?
  {
    var base := ExampleBase(instruction, specification);
    assert !example.addressSizeOverride;
    match specification.prefix
    case LegacySpecification(legacy) =>
      assert base.prefix == Legacy(BaseLegacyPrefixes(legacy));
      LegacyVariantIsValid(legacy, example);
    case VexSpecification(vex) =>
      var operand: bv32 := if HasOperand(instruction, VexVEncoding) then INVERTED_VEX_OPERAND else 0;
      assert base.prefix == Vex(BaseVexPrefix(vex).(invertedRegisterOperand := operand));
      VexVariantIsValid(vex, operand, example);
  }

  lemma LegacyVariantIsValid(legacy: LegacyPrefixSpecification, example: DecodedInstruction)
    requires !legacy.hasMandatoryAddressSizeOverridePrefix
    requires !(legacy.hasMandatoryRepePrefix && legacy.hasMandatoryRepnePrefix)
    requires example.prefix.Legacy?
    requires var fields := example.prefix.legacy;
             var base := BaseLegacyPrefixes(legacy);
             && fields.GetRex().w == base.GetRex().w
             && fields == base.(optionalRex := fields.optionalRex)
    ensures ValidateLegacyPrefixes(legacy, example).Ok?
  {
  }

  lemma VexVariantIsValid(vex: VexPrefixSpecification, operand: bv32, example: DecodedInstruction)
    requires IsOpcodeMap(vex.mapSelect) && vex.prefixType.VexType?
    requires !vex.vectorSize.VectorSizeBitIsOne? && !vex.vectorSize.VectorSize512Bit?
    requires operand == 0 || (operand <= 15 && !vex.vexOperandUsage.VexOperandIsNotUsed?)
    requires example.prefix.Vex?
    requires var fields := example.prefix.vex;
             fields == BaseVexPrefix(vex).(invertedRegisterOperand := operand, notB := fields.notB, notR := fields.notR)
    ensures ValidateVexPrefix(vex, example).Ok? && example.GetVexPrefix().vexSuffixValue == 0
  {
  }

  lemma PrefixOfBaseIsValid(
    instruction: InstructionProto, specification: EncodingSpecification, example: DecodedInstruction
  )
    requires IsUsable(specification) && EvexBInterpretationsAreAllowed(specification)
    requires Varies(instruction, specification, example)
    requires example.prefix == ExampleBase(instruction, specification).prefix
    ensures ValidatePrefix(specification, example).Ok? ==> PrefixSuitsOperands(instruction, specification)
  {
  }

  lemma RestOfVariantIsValid(
    instruction: InstructionProto, specification: EncodingSpecification, example: DecodedInstruction
  )
    requires IsUsable(specification) && Varies(instruction, specification, example)
    ensures ValidateModRm(specification, example).Ok? <==> ModRmSuitsOperands(instruction, specification)
    ensures ValidateOpcode(specification, example).Ok? <==> LeavesRoomForOperand(specification)
    ensures ValidateImmediateValues(specification, example).Ok?
  {
  }

  // The encoder accepts every example exactly when the specification suits the
  // operands.
  lemma EveryExampleEncodes(instruction: InstructionProto, specification: EncodingSpecification)
    requires HasExamples(instruction) && IsUsable(specification)
    ensures EvexBInterpretationsAreAllowed(specification) && Examples(instruction, specification) != []
    ensures (forall e :: e in Examples(instruction, specification) ==> Validate(specification, e).Ok?) <==>
            SuitsOperands(instruction, specification)
  {
    ExamplesVary(instruction, specification);
    var examples := Examples(instruction, specification);
    if SuitsOperands(instruction, specification) {
      forall e | e in examples
        ensures Validate(specification, e).Ok?
      {
        PrefixOfVariantIsValid(instruction, specification, e);
        RestOfVariantIsValid(instruction, specification, e);
      }
    }
    var first := examples[0];
    assert first in examples;
    PrefixOfBaseIsValid(instruction, specification, first);
    RestOfVariantIsValid(instruction, specification, first);
  }

  lemma VariantsSurvive(
    instruction: InstructionProto, specification: EncodingSpecification, example: DecodedInstruction
  )
    requires IsUsable(specification) && Varies(instruction, specification, example)
    ensures AddressingSurvives(specification, example) && PrefixSurvives(specification, example)
  {
    VariantIsNotEvex(instruction, specification, example);
    AddressOfVariant(instruction, specification, example);
    ExampleAddressSurvives(example.GetModRm(), example.GetSib());
  }

  lemma VariantIsNotEvex(
    instruction: InstructionProto, specification: EncodingSpecification, example: DecodedInstruction
  )
    requires Varies(instruction, specification, example)
    ensures !example.prefix.Evex?
  {
  }

  lemma AddressOfBase(instruction: InstructionProto, specification: EncodingSpecification)
    ensures ExampleBase(instruction, specification).GetModRm().rmOperand == 0
    ensures ExampleBase(instruction, specification).optionalSib.None?
  {
  }

  lemma AddressOfExample(
    base: DecodedInstruction, example: DecodedInstruction, prefix: InstructionPrefix
  )
    requires example.(prefix := prefix) == base || IsExample(base, example.(prefix := prefix))
    requires base.GetModRm().rmOperand == 0 && base.optionalSib.None?
    ensures example.GetModRm().rmOperand <= 5 && example.GetSib().base <= 5
  {
  }

  lemma AddressOfVariant(
    instruction: InstructionProto, specification: EncodingSpecification, example: DecodedInstruction
  )
    requires Varies(instruction, specification, example)
    ensures example.GetModRm().rmOperand <= 5 && example.GetSib().base <= 5
  {
    var base := ExampleBase(instruction, specification);
    AddressOfBase(instruction, specification);
    AddressOfExample(base, example, base.prefix);
  }

  lemma ExampleAddressSurvives(modrm: ModRm, sib: Sib)
    requires modrm.rmOperand <= 5 && sib.base <= 5
    ensures EscapesAreInRange(modrm, sib)
  {
  }

  // The parser reads every example back, with a specification whose opcode does
  // not start with a prefix byte and whose extension fits its field.
  lemma {:induction false} EveryExampleIsReadBack(
    instruction: InstructionProto, specification: EncodingSpecification, example: DecodedInstruction, rest: seq<bv8>
  )
    requires HasExamples(instruction) && IsUsable(specification) && SuitsOperands(instruction, specification)
    requires IsReadable(specification) && HasReadablePrefix(specification, example)
    requires example in Examples(instruction, specification)
    ensures Architecture.IsWellFormedDatabase(OneInstruction(specification))
    ensures ReadInstruction(OneInstruction(specification), EncodedBytes(specification, example) + rest) ==
            Success((Normalize(specification, example), rest))
  {
    EveryExampleEncodes(instruction, specification);
    ExamplesVary(instruction, specification);
    VariantsSurvive(instruction, specification, example);
    assert IsEncodable(specification, example);
    RoundTripWithSpecification(specification, example, rest);
  }

  // ---- The examples and the matchers ----------------------------------------

  lemma {:induction false} PositionIsOfFirst(operands: seq<InstructionOperand>)
    ensures var position := ModRmRmOperandPosition(operands);
            FirstWithEncoding(operands, ModRmRmEncoding) ==
            if position < |operands| then Some(operands[position]) else None
  {
    if operands != [] && !operands[0].encoding.ModRmRmEncoding? {
      PositionIsOfFirst(operands[1..]);
    }
  }

  // The examples of two operand modes have that mode; of the other three, at least
  // one example does not match, or the matcher does not know the mode.
  lemma {:induction false} ModeExamplesMatch(base: DecodedInstruction, mode: OperandAddressingMode)
    requires IsExpectedMode(mode)
    ensures (forall e :: e in ModRmExamples(base, ExampleModes(mode)) ==>
               ModRmAddressingModeMatchesOperand(e, mode).Matches?) <==>
            mode.DirectAddressing? || mode.IndirectAddressing?
  {
    ModRmExamplesAreOfModes(base, ExampleModes(mode));
    if mode.DirectAddressing? || mode.IndirectAddressing? {
      forall m | m in ExampleModes(mode)
        ensures forall e :: e in ModeExamples(base, m) ==> ModRmAddressingModeMatchesOperand(e, mode).Matches?
      {
        ModeIsKept(base, m);
      }
    } else {
      var e := OtherModeFails(base, mode);
      assert e in ModeExamples(base, IndirectWith8BitDisplacement);
      assert IndirectWith8BitDisplacement in ExampleModes(mode);
    }
  }

  // An example with a displacement, with or without an index.
  lemma OtherModeFails(base: DecodedInstruction, mode: OperandAddressingMode)
    returns (example: DecodedInstruction)
    requires IsExpectedMode(mode) && !mode.DirectAddressing? && !mode.IndirectAddressing?
    ensures example in ModeExamples(base, IndirectWith8BitDisplacement)
    ensures !ModRmAddressingModeMatchesOperand(example, mode).Matches?
  {
    var examples := ModeExamples(base, IndirectWith8BitDisplacement);
    example := if mode.IndirectAddressingWithBaseAndDisplacement? then examples[1] else examples[0];
  }

  lemma ModeIsKept(base: DecodedInstruction, mode: AddressingMode)
    ensures forall e :: e in ModeExamples(base, mode) ==>
              e.optionalModRm.Some? && e.optionalModRm.value.addressingMode == mode
  {
  }

  // The variations have the address of their example.
  lemma {:induction false} VariationsMatchMode(
    instruction: InstructionProto, specification: EncodingSpecification, originals: seq<DecodedInstruction>,
    mode: OperandAddressingMode
  )
    ensures (forall e :: e in originals + AllVariations(instruction, specification, originals) ==>
               ModRmAddressingModeMatchesOperand(e, mode).Matches?) <==>
            (forall e :: e in originals ==> ModRmAddressingModeMatchesOperand(e, mode).Matches?)
  {
    VariationsVary(instruction, specification, originals);
    var all := originals + AllVariations(instruction, specification, originals);
    forall e | e in all
      ensures exists b :: b in originals &&
                          ModRmAddressingModeMatchesOperand(e, mode) == ModRmAddressingModeMatchesOperand(b, mode)
    {
      if e !in originals {
        var b :| b in originals && e == b.(prefix := e.prefix);
        MatcherIgnoresPrefix(b, e.prefix, mode);
      }
    }
    assert forall e :: e in originals ==> e in all;
  }

  lemma MatcherIgnoresPrefix(
    example: DecodedInstruction, prefix: InstructionPrefix, mode: OperandAddressingMode
  )
    ensures ModRmAddressingModeMatchesOperand(example.(prefix := prefix), mode) ==
            ModRmAddressingModeMatchesOperand(example, mode)
  {
  }

  lemma ExamplesMatchMode(instruction: InstructionProto, specification: EncodingSpecification)
    requires HasExamples(instruction) && HasOperand(instruction, ModRmRmEncoding)
    ensures var mode := OperandWithEncoding(instruction.vendorSyntax, ModRmRmEncoding).value.addressingMode;
            (forall e :: e in Examples(instruction, specification) ==>
               ModRmAddressingModeMatchesOperand(e, mode).Matches?) <==>
            mode.DirectAddressing? || mode.IndirectAddressing?
  {
    var mode := OperandWithEncoding(instruction.vendorSyntax, ModRmRmEncoding).value.addressingMode;
    ModeExamplesMatch(ExampleBase(instruction, specification), mode);
    VariationsMatchMode(instruction, specification, Originals(instruction, specification), mode);
  }

  // Every example satisfies the matcher of prefixes and opcode. They all satisfy
  // the matcher of the address as well exactly when the operand is a register or
  // any memory location.
  lemma EveryExampleMatches(
    instruction: InstructionProto, specification: EncodingSpecification, format: InstructionFormat
  )
    requires HasExamples(instruction) && IsUsable(specification) && SuitsOperands(instruction, specification)
    requires FirstWithEncoding(format.operands, ModRmRmEncoding) ==
             OperandWithEncoding(instruction.vendorSyntax, ModRmRmEncoding)
    ensures forall e :: e in Examples(instruction, specification) ==>
              PrefixesAndOpcodeMatchSpecification(specification, e).Matches?
    ensures (forall e :: e in Examples(instruction, specification) ==>
               ModRmUsageMatchesSpecification(specification, e, format).Matches?) <==>
            var operand := OperandWithEncoding(instruction.vendorSyntax, ModRmRmEncoding);
            operand.Some? ==> operand.value.addressingMode.DirectAddressing? ||
                              operand.value.addressingMode.IndirectAddressing?
  {
    var operand := OperandWithEncoding(instruction.vendorSyntax, ModRmRmEncoding);
    EveryExampleEncodes(instruction, specification);
    ExamplesVary(instruction, specification);
    PositionIsOfFirst(format.operands);
    forall e | e in Examples(instruction, specification)
      ensures PrefixesAndOpcodeMatchSpecification(specification, e).Matches?
      ensures ModRmUsageMatchesSpecification(specification, e, format) ==
              if operand.None? then Matches
              else ModRmAddressingModeMatchesOperand(e, operand.value.addressingMode)
    {
      VariantMatches(instruction, specification, e, format);
    }
    if operand.Some? {
      ExamplesMatchMode(instruction, specification);
    }
  }

  lemma VariantMatches(
    instruction: InstructionProto, specification: EncodingSpecification, example: DecodedInstruction,
    format: InstructionFormat
  )
    requires IsUsable(specification) && EvexBInterpretationsAreAllowed(specification)
    requires SuitsOperands(instruction, specification)
    requires Varies(instruction, specification, example) && Validate(specification, example).Ok?
    requires FirstWithEncoding(format.operands, ModRmRmEncoding) ==
             OperandWithEncoding(instruction.vendorSyntax, ModRmRmEncoding)
    ensures PrefixesAndOpcodeMatchSpecification(specification, example).Matches?
    ensures var operand := OperandWithEncoding(instruction.vendorSyntax, ModRmRmEncoding);
            ModRmUsageMatchesSpecification(specification, example, format) ==
            if operand.None? then Matches
            else ModRmAddressingModeMatchesOperand(example, operand.value.addressingMode)
  {
    PositionIsOfFirst(format.operands);
    assert WithFilledOpcode(specification, example) == example;
    ValidatorRefinesMatcher(specification, example);
    ValidatorRefinesModRmMatcher(specification, example, format);
  }

  // ---- Examples that the encoder rejects ------------------------------------

  function VexOnly(vectorSize: VexVectorSize): EncodingSpecification {
    NO_SPECIFICATION.(
      opcode := Opcode(0, 0, 0x0f, 0x77),
      prefix := VexSpecification(NO_VEX_PREFIX.(
        prefixType := VexType, vexOperandUsage := VexOperandIsNotUsed, vectorSize := vectorSize, mapSelect := Map0F)))
  }

  function LegacyOnly(repe: bool, repne: bool, addressSize: bool): EncodingSpecification {
    NO_SPECIFICATION.(
      opcode := OneByte(0x90),
      prefix := LegacySpecification(
        LegacyPrefixSpecification(PrefixIsIgnored, repe, repne, PrefixIsIgnored, addressSize)))
  }

  // The only example of an instruction without operands is not valid.
  predicate HasRejectedExample(specification: EncodingSpecification) {
    && IsUsable(specification) && EvexBInterpretationsAreAllowed(specification)
    && ExampleBase(NO_INSTRUCTION, specification) in Examples(NO_INSTRUCTION, specification)
    && !Validate(specification, ExampleBase(NO_INSTRUCTION, specification)).Ok?
  }

  // A vector size bit of one, a mandatory address-size override, and F2 with F3.
  lemma ExamplesAreRejected()
    ensures HasRejectedExample(VexOnly(VectorSizeBitIsOne))
    ensures HasRejectedExample(LegacyOnly(false, false, true))
    ensures HasRejectedExample(LegacyOnly(true, true, false))
  {
    BaseIsRejected(VexOnly(VectorSizeBitIsOne));
    BaseIsRejected(LegacyOnly(false, false, true));
    BaseIsRejected(LegacyOnly(true, true, false));
  }

  lemma BaseIsRejected(specification: EncodingSpecification)
    requires IsUsable(specification) && !PrefixSuitsOperands(NO_INSTRUCTION, specification)
    ensures HasRejectedExample(specification)
  {
    var base := ExampleBase(NO_INSTRUCTION, specification);
    assert Originals(NO_INSTRUCTION, specification)[0] == base;
    PrefixOfBaseIsValid(NO_INSTRUCTION, specification, base);
  }
}
