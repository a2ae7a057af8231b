// What the generated examples are: the addresses that their operands denote, the
// registers and values that they hold, and what their variations add.
module ExampleMeaning {
  import opened Bits
  import opened Wrappers
  import opened X86Protos
  import opened InstructionEncoding
  import opened InstructionEncoder
  import opened ProcessorPrefixes
  import opened AddressMeaning
  import opened EncodingExamples

  // ---- The addresses --------------------------------------------------------

  // The address of the operand in modrm.rm without extension bits, or None for a
  // register.
  function AddressOfExample(example: DecodedInstruction): Option<Address> {
    DenotedAddress(false, false, AddressingBytes(example.GetModRm(), example.GetSib()))
  }

  function AddressesOf(examples: seq<DecodedInstruction>): (addresses: seq<Option<Address>>)
    ensures |addresses| == |examples|
    ensures forall i :: 0 <= i < |examples| ==> addresses[i] == AddressOfExample(examples[i])
  {
    seq(|examples|, i requires 0 <= i < |examples| => AddressOfExample(examples[i]))
  }

  // [rbx + displacement] and [rsp + 4 * rcx + displacement].
  function WithBase(displacement: bv64): Option<Address> {
    Some(Address(BaseRegister(3), NoIndex, displacement))
  }

  function WithBaseAndIndex(displacement: bv64): Option<Address> {
    Some(Address(BaseRegister(4), IndexRegister(1, 4), displacement))
  }

  const LONG: bv64 := 0x1234_5678

  const INDIRECT_ADDRESSES: seq<Option<Address>> :=
    [WithBase(0), Some(Address(Rip, NoIndex, LONG)), WithBaseAndIndex(0),
     Some(Address(NoBase, IndexRegister(1, 4), LONG))]

  const SHORT_DISPLACEMENT_ADDRESSES: seq<Option<Address>> := [WithBase(127), WithBaseAndIndex(127)]

  const LONG_DISPLACEMENT_ADDRESSES: seq<Option<Address>> := [WithBase(LONG), WithBaseAndIndex(LONG)]

  // The examples for each addressing mode of the operand: a register, and all
  // combinations of ModR/M, SIB and displacement.
  function ExpectedAddresses(mode: OperandAddressingMode): seq<Option<Address>> {
    var displaced := SHORT_DISPLACEMENT_ADDRESSES + LONG_DISPLACEMENT_ADDRESSES;
    match mode
    case AnyAddressingWithFlexibleRegisters =>
      [None] + SHORT_DISPLACEMENT_ADDRESSES + LONG_DISPLACEMENT_ADDRESSES + INDIRECT_ADDRESSES
    case DirectAddressing => [None]
    case IndirectAddressing => displaced + INDIRECT_ADDRESSES
    case _ => displaced
  }

  lemma {:induction false} AddressesOfBoth(first: seq<DecodedInstruction>, second: seq<DecodedInstruction>)
    ensures AddressesOf(first + second) == AddressesOf(first) + AddressesOf(second)
  {
  }

  lemma DisplacementsAreDenoted()
    ensures SignExtend8(Truncate8(127)) == 127 && SignExtend32(Truncate32(LONG)) == LONG
  {
  }

  lemma ExampleSib(base: bv32)
    requires base == 4 || base == 5
    ensures var byte := SibByte(Sib(2, 1, base));
            (byte >> 3) & 7 == 1 && byte & 7 == (if base == 4 then 4 else 5) && byte >> 6 == 2
  {
  }

  lemma {:induction false} PlainExample(example: DecodedInstruction, rm: bv32)
    requires rm == 3 || (rm == 5 && example.GetModRm().addressingMode.Indirect?)
    requires example.GetModRm().rmOperand == rm
    ensures !example.GetModRm().addressingMode.Direct? ==>
              AddressOfExample(example) ==
              AddressWith(if rm == 3 then BaseRegister(3) else Rip, NoIndex,
                          NumModRmDisplacementBytes(example.GetModRm(), example.GetSib()),
                          DisplacementBytes(NumModRmDisplacementBytes(example.GetModRm(), example.GetSib()),
                                            example.GetModRm().addressDisplacement))
  {
    if !example.GetModRm().addressingMode.Direct? {
      PlainAddress(example.GetModRm(), example.GetSib(), false, false);
    }
  }

  lemma {:induction false} SibExample(example: DecodedInstruction, base: bv32)
    requires base == 4 || (base == 5 && example.GetModRm().addressingMode.Indirect?)
    requires !example.GetModRm().addressingMode.Direct? && example.GetModRm().rmOperand == 4
    requires example.GetSib() == Sib(2, 1, base)
    ensures AddressOfExample(example) ==
            AddressWith(if base == 4 then BaseRegister(4) else NoBase, IndexRegister(1, 4),
                        NumModRmDisplacementBytes(example.GetModRm(), example.GetSib()),
                        DisplacementBytes(NumModRmDisplacementBytes(example.GetModRm(), example.GetSib()),
                                          example.GetModRm().addressDisplacement))
  {
    var modrm, sib := example.GetModRm(), example.GetSib();
    ModRmParts(modrm.addressingMode, modrm.registerOperand, modrm.rmOperand);
    ExampleSib(base);
    var bytes := AddressingBytes(modrm, sib);
    assert bytes[0] == ModRmByte(modrm) && bytes[1] == SibByte(sib);
    assert bytes[2..] == DisplacementBytes(NumModRmDisplacementBytes(modrm, sib), modrm.addressDisplacement);
  }

  lemma {:induction false} RegisterExample(example: DecodedInstruction)
    requires example.GetModRm().addressingMode.Direct?
    ensures AddressOfExample(example) == None
  {
    ModRmDirect(example.GetModRm());
    assert AddressingBytes(example.GetModRm(), example.GetSib())[0] == ModRmByte(example.GetModRm());
  }

  lemma ModRmDirect(modrm: ModRm)
    requires modrm.addressingMode.Direct?
    ensures ModRmByte(modrm) >> 6 == 3
  {
  }

  lemma {:induction false} IndirectAddressesAreDenoted(base: DecodedInstruction)
    ensures AddressesOf(ModeExamples(base, Indirect)) == INDIRECT_ADDRESSES
  {
    var examples := ModeExamples(base, Indirect);
    DisplacementsAreDenoted();
    DisplacementIsDenoted(LONG);
    PlainExample(examples[0], 3);
    PlainExample(examples[1], 5);
    SibExample(examples[2], 4);
    SibExample(examples[3], 5);
  }

  lemma {:induction false} DisplacedAddressesAreDenoted(base: DecodedInstruction)
    ensures AddressesOf(ModeExamples(base, IndirectWith8BitDisplacement)) == SHORT_DISPLACEMENT_ADDRESSES
    ensures AddressesOf(ModeExamples(base, IndirectWith32BitDisplacement)) == LONG_DISPLACEMENT_ADDRESSES
  {
    var short := ModeExamples(base, IndirectWith8BitDisplacement);
    var long := ModeExamples(base, IndirectWith32BitDisplacement);
    DisplacementsAreDenoted();
    DisplacementIsDenoted(127);
    DisplacementIsDenoted(LONG);
    PlainExample(short[0], 3);
    SibExample(short[1], 4);
    PlainExample(long[0], 3);
    SibExample(long[1], 4);
  }

  lemma {:induction false} DirectAddressIsNone(base: DecodedInstruction)
    ensures AddressesOf(ModeExamples(base, Direct)) == [None]
  {
    RegisterExample(ModeExamples(base, Direct)[0]);
  }

  lemma {:induction false} OneMoreMode(base: DecodedInstruction, modes: seq<AddressingMode>, mode: AddressingMode)
    ensures AddressesOf(ModRmExamples(base, modes + [mode])) ==
            AddressesOf(ModRmExamples(base, modes)) + AddressesOf(ModeExamples(base, mode))
  {
    assert (modes + [mode])[..|modes|] == modes;
    AddressesOfBoth(ModRmExamples(base, modes), ModeExamples(base, mode));
  }

  // The addresses of the examples for a list of modes.
  function OfModes(base: DecodedInstruction, modes: seq<AddressingMode>): seq<Option<Address>> {
    AddressesOf(ModRmExamples(base, modes))
  }

  lemma {:induction false} NextMode(
    base: DecodedInstruction, front: seq<AddressingMode>, mode: AddressingMode, modes: seq<AddressingMode>
  )
    requires modes == front + [mode]
    ensures OfModes(base, modes) == OfModes(base, front) + AddressesOf(ModeExamples(base, mode))
  {
    OneMoreMode(base, front, mode);
  }

  lemma {:induction false} FirstMode(base: DecodedInstruction, mode: AddressingMode)
    ensures OfModes(base, [mode]) == AddressesOf(ModeExamples(base, mode))
  {
    NextMode(base, [], mode, [mode]);
    assert OfModes(base, []) == [];
  }

  lemma {:induction false} DisplacedModes(base: DecodedInstruction)
    ensures OfModes(base, [IndirectWith8BitDisplacement, IndirectWith32BitDisplacement]) ==
            SHORT_DISPLACEMENT_ADDRESSES + LONG_DISPLACEMENT_ADDRESSES
  {
    DisplacedAddressesAreDenoted(base);
    FirstMode(base, IndirectWith8BitDisplacement);
    NextMode(base, [IndirectWith8BitDisplacement], IndirectWith32BitDisplacement,
             [IndirectWith8BitDisplacement, IndirectWith32BitDisplacement]);
  }

  lemma {:induction false} MemoryModes(base: DecodedInstruction)
    ensures OfModes(base, [IndirectWith8BitDisplacement, IndirectWith32BitDisplacement, Indirect]) ==
            SHORT_DISPLACEMENT_ADDRESSES + LONG_DISPLACEMENT_ADDRESSES + INDIRECT_ADDRESSES
  {
    DisplacedModes(base);
    IndirectAddressesAreDenoted(base);
    NextMode(base, [IndirectWith8BitDisplacement, IndirectWith32BitDisplacement], Indirect,
             [IndirectWith8BitDisplacement, IndirectWith32BitDisplacement, Indirect]);
  }

  lemma {:induction false} DirectMode(base: DecodedInstruction)
    ensures OfModes(base, [Direct]) == [None]
  {
    FirstMode(base, Direct);
    DirectAddressIsNone(base);
  }

  lemma {:induction false} DirectAndShort(base: DecodedInstruction)
    ensures OfModes(base, [Direct, IndirectWith8BitDisplacement]) == [None] + SHORT_DISPLACEMENT_ADDRESSES
  {
    DirectMode(base);
    DisplacedAddressesAreDenoted(base);
    NextMode(base, [Direct], IndirectWith8BitDisplacement,
             [Direct, IndirectWith8BitDisplacement]);
  }

  lemma {:induction false} DirectAndDisplaced(base: DecodedInstruction)
    ensures OfModes(base, [Direct, IndirectWith8BitDisplacement, IndirectWith32BitDisplacement]) ==
            [None] + SHORT_DISPLACEMENT_ADDRESSES + LONG_DISPLACEMENT_ADDRESSES
  {
    DirectAndShort(base);
    DisplacedAddressesAreDenoted(base);
    NextMode(base, [Direct, IndirectWith8BitDisplacement], IndirectWith32BitDisplacement,
             [Direct, IndirectWith8BitDisplacement, IndirectWith32BitDisplacement]);
  }

  lemma {:induction false} AllModes(base: DecodedInstruction)
    ensures OfModes(base, [Direct, IndirectWith8BitDisplacement, IndirectWith32BitDisplacement, Indirect]) ==
            [None] + SHORT_DISPLACEMENT_ADDRESSES + LONG_DISPLACEMENT_ADDRESSES + INDIRECT_ADDRESSES
  {
    DirectAndDisplaced(base);
    IndirectAddressesAreDenoted(base);
    NextMode(base, [Direct, IndirectWith8BitDisplacement, IndirectWith32BitDisplacement], Indirect,
             [Direct, IndirectWith8BitDisplacement, IndirectWith32BitDisplacement, Indirect]);
  }

  lemma {:induction false} ModesAreDenoted(base: DecodedInstruction, mode: OperandAddressingMode)
    requires IsExpectedMode(mode)
    ensures OfModes(base, ExampleModes(mode)) == ExpectedAddresses(mode)
  {
    match mode
    case AnyAddressingWithFlexibleRegisters => AllModes(base);
    case DirectAddressing => DirectMode(base);
    case IndirectAddressing => MemoryModes(base);
    case _ => DisplacedModes(base);
  }

  // The examples before their variations denote these addresses, in this order; an
  // instruction without an operand in modrm.rm has one example.
  lemma {:induction false} OriginalsDenote(instruction: InstructionProto, specification: EncodingSpecification)
    requires HasExamples(instruction)
    ensures var operand := OperandWithEncoding(instruction.vendorSyntax, ModRmRmEncoding);
            if operand.None? then Originals(instruction, specification) == [ExampleBase(instruction, specification)]
            else AddressesOf(Originals(instruction, specification)) == ExpectedAddresses(operand.value.addressingMode)
  {
    var operand := OperandWithEncoding(instruction.vendorSyntax, ModRmRmEncoding);
    if operand.Some? {
      ModesAreDenoted(ExampleBase(instruction, specification), operand.value.addressingMode);
    }
  }

  // ---- The values -----------------------------------------------------------

  // No extension bit is set but W, which is set only when it is required; the other
  // prefixes are those that the specification demands.
  predicate IsDemandedPrefix(specification: EncodingSpecification, prefix: InstructionPrefix) {
    match specification.prefix
    case VexSpecification(vex) =>
      && prefix.Vex? && ExtensionsOf(prefix) == NO_EXTENSIONS.(w := vex.vexWUsage == VexWIsOne)
      && prefix.vex.mandatoryPrefix == vex.mandatoryPrefix && prefix.vex.mapSelect == vex.mapSelect
      && (prefix.vex.use256BitVectorLength <==> vex.vectorSize == VectorSize256Bit)
      && prefix.vex.vexSuffixValue == 0
    case _ =>
      var legacy := specification.GetLegacyPrefixes();
      && prefix.Legacy? && ExtensionsOf(prefix) == NO_EXTENSIONS.(w := legacy.rexWPrefix == PrefixIsRequired)
      && prefix.legacy.lockOrRep ==
         (if legacy.hasMandatoryRepnePrefix then RepnePrefix
          else if legacy.hasMandatoryRepePrefix then RepPrefix
          else NoLockOrRep)
      && (prefix.legacy.operandSizeOverride <==> legacy.operandSizeOverridePrefix == PrefixIsRequired)
  }

  // The bytes AB AC AD, and so on.
  predicate CountsUp(value: seq<bv8>) {
    forall i :: 0 <= i < |value| ==> value[i] == ((0xab + i) % 256) as bv8
  }

  lemma {:induction false} BytesCountUp(size: nat)
    ensures |ExampleBytes(size)| == size && CountsUp(ExampleBytes(size))
  {
  }

  lemma {:induction false} PrefixIsDemanded(instruction: InstructionProto, specification: EncodingSpecification)
    requires HasOperand(instruction, VexVEncoding) ==> specification.prefix.VexSpecification?
    ensures IsDemandedPrefix(specification, ExampleBase(instruction, specification).prefix)
  {
  }

  // The base of the examples: modrm.reg is the opcode extension, or register 6 if it
  // holds an operand; VEX.vvvv holds register 8; the values have their sizes.
  lemma {:induction false} BaseHolds(instruction: InstructionProto, specification: EncodingSpecification)
    requires HasOperand(instruction, VexVEncoding) ==> specification.prefix.VexSpecification?
    ensures var base := ExampleBase(instruction, specification);
            && base.opcode == specification.opcode && base.segmentOverride == NoSegmentOverride
            && !base.addressSizeOverride && base.optionalSib == None
            && IsDemandedPrefix(specification, base.prefix)
            && base.GetModRm() == ModRm(Indirect, base.GetModRm().registerOperand, 0, 0)
            && (HasOperand(instruction, ModRmRegEncoding) ==> base.GetModRm().registerOperand == 6)
            && (!HasOperand(instruction, ModRmRegEncoding) ==>
                  (base.optionalModRm.Some? <==> specification.modrmUsage in {FullModRm, OpcodeExtensionInModRm}) &&
                  base.GetModRm().registerOperand ==
                  if specification.modrmUsage == OpcodeExtensionInModRm then specification.modrmOpcodeExtension else 0)
            && (specification.prefix.VexSpecification? ==>
                  base.GetVexPrefix().invertedRegisterOperand ==
                  if HasOperand(instruction, VexVEncoding) then 15 & !8 else 0)
  {
    PrefixIsDemanded(instruction, specification);
  }

  // The operand that decides for an encoding is the first one that has it, in the
  // order of the syntaxes.
  predicate IsFirstOperand(formats: seq<InstructionFormat>, i: nat, j: nat, encoding: OperandEncoding) {
    && i < |formats| && j < |formats[i].operands| && formats[i].operands[j].encoding == encoding
    && (forall l :: 0 <= l < j ==> formats[i].operands[l].encoding != encoding)
    && (forall k, l :: 0 <= k < i && 0 <= l < |formats[k].operands| ==> formats[k].operands[l].encoding != encoding)
  }

  lemma {:induction false} FirstInOperands(operands: seq<InstructionOperand>, j: nat, encoding: OperandEncoding)
    requires j <= |operands| && forall l :: 0 <= l < j ==> operands[l].encoding != encoding
    requires j < |operands| ==> operands[j].encoding == encoding
    ensures FirstWithEncoding(operands, encoding) == if j < |operands| then Some(operands[j]) else None
    decreases j
  {
    if j > 0 {
      assert operands[0].encoding != encoding;
      FirstInOperands(operands[1..], j - 1, encoding);
    }
  }

  lemma {:induction false} FirstInFormats(
    formats: seq<InstructionFormat>, i: nat, j: nat, encoding: OperandEncoding
  )
    requires IsFirstOperand(formats, i, j, encoding)
    ensures OperandWithEncoding(formats, encoding) == Some(formats[i].operands[j])
    decreases i
  {
    if i == 0 {
      FirstInOperands(formats[0].operands, j, encoding);
    } else {
      FirstInOperands(formats[0].operands, |formats[0].operands|, encoding);
      assert forall k, l :: 0 <= k < i - 1 && 0 <= l < |formats[1..][k].operands| ==>
          formats[1..][k].operands[l] == formats[k + 1].operands[l];
      FirstInFormats(formats[1..], i - 1, j, encoding);
    }
  }

  lemma {:induction false} ValuesHaveSizes(instruction: InstructionProto, specification: EncodingSpecification)
    ensures var base, sizes := ExampleBase(instruction, specification), specification.immediateValueBytes;
            && |base.immediateValue| == |sizes|
            && (forall k :: 0 <= k < |sizes| ==>
                  |base.immediateValue[k]| == sizes[k] && CountsUp(base.immediateValue[k]))
            && |base.codeOffset| == specification.codeOffsetBytes
            && forall i :: 0 <= i < |base.codeOffset| ==> base.codeOffset[i] == 0xc0
  {
    ImmediatesCountUp(specification.immediateValueBytes);
    assert ExampleBase(instruction, specification).immediateValue == ExampleImmediates(specification.immediateValueBytes);
  }

  lemma {:induction false} ImmediatesCountUp(sizes: seq<nat>)
    ensures var values := ExampleImmediates(sizes);
            |values| == |sizes| && forall k :: 0 <= k < |sizes| ==> |values[k]| == sizes[k] && CountsUp(values[k])
  {
    forall k | 0 <= k < |sizes|
      ensures |ExampleImmediates(sizes)[k]| == sizes[k] && CountsUp(ExampleImmediates(sizes)[k])
    {
      BytesCountUp(sizes[k]);
    }
  }

  // ---- The variations -------------------------------------------------------

  // The prefix is of the kind of the specification.
  predicate HasItsKind(specification: EncodingSpecification, example: DecodedInstruction) {
    if specification.prefix.VexSpecification? then example.prefix.Vex? else example.prefix.Legacy?
  }

  // An operand that the bit B extends, in modrm.rm or in the opcode, and one that the
  // bit R extends.
  predicate HasBOperand(instruction: InstructionProto, specification: EncodingSpecification) {
    HasOperand(instruction, ModRmRmEncoding) || specification.operandInOpcode == GeneralPurposeRegisterInOpcode
  }

  // REX.W needs REX, and VEX.W or another map than 0F the longer form of VEX.
  predicate HasLongPrefix(specification: EncodingSpecification, example: DecodedInstruction) {
    || ExtensionsOf(example.prefix).w
    || (specification.prefix.VexSpecification? && example.prefix.Vex? && example.prefix.vex.mapSelect != Map0F)
  }

  // A variation sets the bit B, or R if no operand uses B, and nothing else; there is
  // one unless the prefix is long already or no operand uses either.
  lemma {:induction false} VariationsAdd(
    instruction: InstructionProto, specification: EncodingSpecification, example: DecodedInstruction
  )
    requires HasItsKind(specification, example)
    ensures var variations := PrefixVariations(instruction, specification, example);
            var extensions := ExtensionsOf(example.prefix);
            if HasLongPrefix(specification, example) ||
               !(HasBOperand(instruction, specification) || HasOperand(instruction, ModRmRegEncoding))
            then variations == []
            else
              && |variations| == 1 && HasItsKind(specification, variations[0])
              && variations[0] == example.(prefix := variations[0].prefix)
              && KeepsAllButRB(example.prefix, variations[0].prefix)
              && ExtensionsOf(variations[0].prefix) ==
                 if HasBOperand(instruction, specification) then extensions.(b := true) else extensions.(r := true)
  {
  }

  predicate KeepsAllButRB(before: InstructionPrefix, after: InstructionPrefix) {
    if before.Vex?
    then after.Vex? && after.vex.(notR := false, notB := false) == before.vex.(notR := false, notB := false)
    else
      && before.Legacy? && after.Legacy? && after.legacy.lockOrRep == before.legacy.lockOrRep
      && after.legacy.operandSizeOverride == before.legacy.operandSizeOverride
      && ExtensionsOf(after).x == ExtensionsOf(before).x
  }

  // What a variation is for: with the bit B the prefix takes one byte more.
  lemma {:induction false} VariationIsLonger(
    instruction: InstructionProto, specification: EncodingSpecification, example: DecodedInstruction
  )
    requires HasItsKind(specification, example) && !HasLongPrefix(specification, example)
    requires ExtensionsOf(example.prefix) == NO_EXTENSIONS && HasBOperand(instruction, specification)
    requires !specification.prefix.NoPrefixSpecification?
    ensures |PrefixVariations(instruction, specification, example)| == 1
    ensures var variation := PrefixVariations(instruction, specification, example)[0];
            |EncodedBytes(specification, variation)| == |EncodedBytes(specification, example)| + 1
  {
    var variation := PrefixVariations(instruction, specification, example)[0];
    VariationsAdd(instruction, specification, example);
    assert |EncodingSchemeBytes(specification, variation)| == |EncodingSchemeBytes(specification, example)| + 1;
    assert OpcodeBytes(specification, variation) == OpcodeBytes(specification, example);
    assert VexSuffixBytes(specification, variation) == VexSuffixBytes(specification, example);
  }

  // The values of a function on a list, one after another.
  function ConcatOf<T, U>(f: T -> seq<U>, list: seq<T>): seq<U> {
    if list == [] then [] else f(list[0]) + ConcatOf(f, list[1..])
  }

  lemma {:induction false} ConcatOfLast<T, U>(f: T -> seq<U>, front: seq<T>, last: T)
    ensures ConcatOf(f, front + [last]) == ConcatOf(f, front) + f(last)
  {
    if front == [] {
      assert [] + [last] == [last] && [last][1..] == [];
    } else {
      ConcatOfLast(f, front[1..], last);
      assert (front + [last])[1..] == front[1..] + [last];
    }
  }

  function VariationsOf(
    instruction: InstructionProto, specification: EncodingSpecification
  ): DecodedInstruction -> seq<DecodedInstruction> {
    example => PrefixVariations(instruction, specification, example)
  }

  // The variations come in the order of the examples.
  lemma {:induction false} VariationsInOrder(
    instruction: InstructionProto, specification: EncodingSpecification, examples: seq<DecodedInstruction>
  )
    ensures AllVariations(instruction, specification, examples) ==
            ConcatOf(VariationsOf(instruction, specification), examples)
    decreases |examples|
  {
    if examples != [] {
      var front, last := examples[..|examples| - 1], examples[|examples| - 1];
      VariationsInOrder(instruction, specification, front);
      ConcatOfLast(VariationsOf(instruction, specification), front, last);
      assert examples == front + [last];
    }
  }
}
