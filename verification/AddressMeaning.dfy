// What the bytes of an encoded memory operand mean: the address that the ModR/M
// byte, the SIB byte, the displacement and the extension bits denote in 64-bit mode
// (Intel SDM volume 2A, sections 2.1.5 and 2.2.1), with the extension bits that the
// processor takes and with those that the parser takes.
module AddressMeaning {
  import opened Bits
  import opened Wrappers
  import opened X86Protos
  import opened InstructionEncoding
  import opened InstructionEncoder
  import opened InstructionParser
  import opened RoundTripPrefixes
  import opened RoundTripOperands
  import opened RoundTrip
  import opened UniqueDecoding
  import opened OperandSetters
  import opened ProcessorPrefixes

  // ---- The reference --------------------------------------------------------

  datatype BaseRegister = NoBase | Rip | BaseRegister(number: bv8)
  datatype IndexRegister = NoIndex | IndexRegister(number: bv8, factor: bv8)
  datatype Address = Address(base: BaseRegister, index: IndexRegister, displacement: bv64)

  function Extended(extension: bool, bits: bv8): bv8 {
    if extension then bits | 8 else bits
  }

  function DisplacementAt(bytes: seq<bv8>): Option<bv64> {
    if |bytes| == 0 then Some(0)
    else if |bytes| == 1 then Some(SignExtend8(bytes[0]))
    else if |bytes| == 4 then Some(SignExtend32(DWordValue(bytes[0], bytes[1], bytes[2], bytes[3])))
    else None
  }

  // The displacement must have the size that the other bytes ask for.
  function AddressWith(base: BaseRegister, index: IndexRegister, size: nat, bytes: seq<bv8>): Option<Address> {
    if |bytes| != size then None
    else
      match DisplacementAt(bytes)
      case Some(displacement) => Some(Address(base, index, displacement))
      case None => None
  }

  // The address denoted by exactly these bytes; nothing for a register operand
  // and for too few or too many bytes.
  function DenotedAddress(x: bool, b: bool, bytes: seq<bv8>): Option<Address> {
    if bytes == [] then None
    else
      var mod, rm := bytes[0] >> 6, bytes[0] & 7;
      var size := if mod == 1 then 1 else if mod == 2 then 4 else 0;
      if mod == 3 then None
      else if rm == 4 then
        if |bytes| < 2 then None else DenotedSibAddress(x, b, mod, size, bytes[1], bytes[2..])
      else if rm == 5 && mod == 0 then AddressWith(Rip, NoIndex, 4, bytes[1..])
      else AddressWith(BaseRegister(Extended(b, rm)), NoIndex, size, bytes[1..])
  }

  function DenotedSibAddress(x: bool, b: bool, mod: bv8, size: nat, sib: bv8, displacement: seq<bv8>): Option<Address> {
    var index, base := (sib >> 3) & 7, sib & 7;
    var indexRegister := if Extended(x, index) == 4 then NoIndex else IndexRegister(Extended(x, index), 1 << (sib >> 6));
    if base == 5 && mod == 0 then AddressWith(NoBase, indexRegister, 4, displacement)
    else AddressWith(BaseRegister(Extended(b, base)), indexRegister, size, displacement)
  }

  // The address that the caller of a setter asks for.
  function AddressOf(reference: MemoryReference): Address {
    match reference
    case Absolute(address) => Address(NoBase, NoIndex, SignExtend32(address))
    case Base(base) => Address(BaseRegister(LowByte(base)), NoIndex, 0)
    case BaseSib(base) => Address(BaseRegister(LowByte(base)), NoIndex, 0)
    case RelativeToRip(displacement) => Address(Rip, NoIndex, SignExtend32(displacement))
    case BaseAnd8BitDisplacement(base, displacement) =>
      Address(BaseRegister(LowByte(base)), NoIndex, SignExtend8(displacement))
    case BaseAnd32BitDisplacement(base, displacement) =>
      Address(BaseRegister(LowByte(base)), NoIndex, SignExtend32(displacement))
  }

  // An address is computed with 64 bits, or with the low 32 bits of the registers if
  // there is an address-size override.
  datatype EffectiveAddress = EffectiveAddress(bits: nat, address: Address)

  function AddressSize(addressSizeOverride: bool): nat {
    if addressSizeOverride then 32 else 64
  }

  // The address denoted by the prefixes and the bytes of the operand together.
  function DenotedEffectiveAddress(
    extensions: Extensions, addressSizeOverride: bool, bytes: seq<bv8>
  ): Option<EffectiveAddress> {
    match DenotedAddress(extensions.x, extensions.b, bytes)
    case Some(address) => Some(EffectiveAddress(AddressSize(addressSizeOverride), address))
    case None => None
  }

  // ---- Bits of the ModR/M and SIB bytes -------------------------------------

  lemma ComposedParts(two: bv32, firstThree: bv32, secondThree: bv32)
    requires two <= 3 && firstThree <= 7 && secondThree <= 7
    ensures var byte := Compose233BitValues(two, firstThree, secondThree);
            && byte >> 6 == LowByte(two)
            && (byte >> 3) & 7 == LowByte(firstThree)
            && byte & 7 == LowByte(secondThree)
  {
  }

  lemma ModRmParts(mode: AddressingMode, reg: bv32, rm: bv32)
    requires rm <= 7
    ensures var byte := Compose233BitValues(AddressingModeBits(mode), reg, rm);
            byte >> 6 == LowByte(AddressingModeBits(mode)) && byte & 7 == LowByte(rm)
  {
  }

  lemma {:induction false} SplitIndex(index: bv32)
    requires index <= 15
    ensures GetBitRange(index, 0, 3) <= 7
    ensures Extended(index > 7, LowByte(GetBitRange(index, 0, 3))) == LowByte(index)
    ensures GetBitRange(index, 0, 3) == 4 <==> index == 4 || index == 12
    ensures GetBitRange(index, 0, 3) == 5 <==> index == 5 || index == 13
    ensures LowByte(GetBitRange(index, 0, 3)) == 4 <==> index == 4 || index == 12
    ensures LowByte(GetBitRange(index, 0, 3)) == 5 <==> index == 5 || index == 13
    ensures GetBitRange(4, 0, 3) == 4 && GetBitRange(5, 0, 3) == 5
  {
  }

  lemma {:induction false} DisplacementIsDenoted(displacement: bv64)
    ensures DisplacementAt(DisplacementBytes(0, displacement)) == Some(0)
    ensures DisplacementAt(DisplacementBytes(1, displacement)) == Some(SignExtend8(Truncate8(displacement)))
    ensures DisplacementAt(DisplacementBytes(4, displacement)) == Some(SignExtend32(Truncate32(displacement)))
  {
    DWordRoundTrip(Truncate32(displacement));
  }

  lemma TruncateExtended(byte: bv8, word: bv32)
    ensures Truncate8(byte as bv64) == byte && Truncate32(word as bv64) == word
  {
  }

  // ---- Addresses ------------------------------------------------------------

  // Without a SIB byte the ModR/M byte denotes a register or RIP.
  lemma {:induction false} PlainAddress(modrm: ModRm, sib: Sib, x: bool, b: bool)
    requires !modrm.addressingMode.Direct? && modrm.rmOperand <= 7 && modrm.rmOperand != 4
    ensures var size := NumModRmDisplacementBytes(modrm, sib);
            var base := if modrm.addressingMode.Indirect? && modrm.rmOperand == 5 then Rip
                        else BaseRegister(Extended(b, LowByte(modrm.rmOperand)));
            DenotedAddress(x, b, AddressingBytes(modrm, sib)) ==
            AddressWith(base, NoIndex, size, DisplacementBytes(size, modrm.addressDisplacement))
  {
    ModRmParts(modrm.addressingMode, modrm.registerOperand, modrm.rmOperand);
    LowByteIsFaithful(modrm.rmOperand);
    var bytes := AddressingBytes(modrm, sib);
    var displacement := DisplacementBytes(NumModRmDisplacementBytes(modrm, sib), modrm.addressDisplacement);
    assert bytes[0] == ModRmByte(modrm) && bytes[1..] == displacement;
  }

  lemma LowByteIsFaithful(bits: bv32)
    requires bits <= 7
    ensures LowByte(bits) == 4 <==> bits == 4
    ensures LowByte(bits) == 5 <==> bits == 5
  {
  }

  // A SIB byte without an index denotes a register or nothing but a displacement.
  lemma {:induction false} SibAddress(modrm: ModRm, sib: Sib, x: bool, b: bool)
    requires modrm.addressingMode.Indirect? && modrm.rmOperand == 4
    requires sib.index == 4 && sib.base <= 7 && !x
    ensures var size := NumModRmDisplacementBytes(modrm, sib);
            var base := if sib.base == 5 then NoBase else BaseRegister(Extended(b, LowByte(sib.base)));
            DenotedAddress(x, b, AddressingBytes(modrm, sib)) ==
            AddressWith(base, NoIndex, size, DisplacementBytes(size, modrm.addressDisplacement))
  {
    ModRmParts(modrm.addressingMode, modrm.registerOperand, modrm.rmOperand);
    SibParts(sib);
    LowByteIsFaithful(sib.base);
    var bytes := AddressingBytes(modrm, sib);
    var displacement := DisplacementBytes(NumModRmDisplacementBytes(modrm, sib), modrm.addressDisplacement);
    assert bytes[0] == ModRmByte(modrm) && bytes[1] == SibByte(sib) && bytes[2..] == displacement;
  }

  lemma SibParts(sib: Sib)
    requires sib.index == 4 && sib.base <= 7
    ensures (SibByte(sib) >> 3) & 7 == 4 && SibByte(sib) & 7 == LowByte(sib.base)
  {
    ComposedParts(sib.scale & 3, sib.index, sib.base);
  }

  // After a setter the operand fields hold the address, whatever they held before.
  predicate HoldsReference(reference: MemoryReference, modrm: ModRm, sib: Sib, x: bool, b: bool) {
    match reference
    case Absolute(address) =>
      modrm.addressingMode.Indirect? && modrm.rmOperand == 4 && modrm.addressDisplacement == address as bv64 &&
      sib.index == 4 && sib.base == 5 && !x
    case Base(base) =>
      modrm.addressingMode.Indirect? && modrm.rmOperand == GetBitRange(base, 0, 3) && b == (base > 7)
    case BaseSib(base) =>
      modrm.addressingMode.Indirect? && modrm.rmOperand == 4 &&
      sib == Sib(0, 4, GetBitRange(base, 0, 3)) && !x && b == (base > 7)
    case RelativeToRip(displacement) =>
      modrm.addressingMode.Indirect? && modrm.rmOperand == 5 && modrm.addressDisplacement == displacement as bv64
    case BaseAnd8BitDisplacement(base, displacement) =>
      modrm.addressingMode.IndirectWith8BitDisplacement? && modrm.rmOperand == GetBitRange(base, 0, 3) &&
      modrm.addressDisplacement == displacement as bv64 && b == (base > 7)
    case BaseAnd32BitDisplacement(base, displacement) =>
      modrm.addressingMode.IndirectWith32BitDisplacement? && modrm.rmOperand == GetBitRange(base, 0, 3) &&
      modrm.addressDisplacement == displacement as bv64 && b == (base > 7)
  }

  lemma {:induction false} SettersHoldReference(reference: MemoryReference, instruction: DecodedInstruction)
    requires CanAddress(reference) && !instruction.prefix.Evex?
    ensures var after := WithMemory(reference, instruction);
            && after.optionalModRm.Some? && after.optionalSib.Some? == ModRmRequiresSib(after.GetModRm())
            && HoldsReference(reference, after.GetModRm(), after.GetSib(),
                              ExtensionsOf(after.prefix).x, ExtensionsOf(after.prefix).b)
  {
    SplitIndex(4);
    if !reference.Absolute? && !reference.RelativeToRip? {
      SplitIndex(reference.base);
    }
  }

  lemma {:induction false} RegisterIsDenoted(modrm: ModRm, sib: Sib, x: bool, base: bv32)
    requires base <= 15 && base !in {4, 12} && (modrm.addressingMode.Indirect? ==> base !in {5, 13})
    requires !modrm.addressingMode.Direct? && modrm.rmOperand == GetBitRange(base, 0, 3)
    ensures EscapesAreInRange(modrm, sib)
    ensures DenotedAddress(x, base > 7, AddressingBytes(modrm, sib)) ==
            Some(Address(BaseRegister(LowByte(base)), NoIndex,
                         match modrm.addressingMode
                         case IndirectWith8BitDisplacement => SignExtend8(Truncate8(modrm.addressDisplacement))
                         case IndirectWith32BitDisplacement => SignExtend32(Truncate32(modrm.addressDisplacement))
                         case _ => 0))
  {
    SplitIndex(base);
    SmallOperand(modrm.rmOperand);
    PlainAddress(modrm, sib, x, base > 7);
    DisplacementIsDenoted(modrm.addressDisplacement);
  }

  lemma SmallOperand(bits: bv32)
    requires bits <= 7
    ensures bits & 7 == bits
  {
  }

  lemma {:induction false} SibRegisterIsDenoted(modrm: ModRm, sib: Sib, base: bv32)
    requires base <= 15 && base !in {5, 13}
    requires modrm.addressingMode.Indirect? && modrm.rmOperand == 4
    requires sib.index == 4 && sib.base == GetBitRange(base, 0, 3)
    ensures EscapesAreInRange(modrm, sib)
    ensures DenotedAddress(false, base > 7, AddressingBytes(modrm, sib)) ==
            Some(Address(BaseRegister(LowByte(base)), NoIndex, 0))
  {
    SplitIndex(base);
    SmallOperand(sib.base);
    SibAddress(modrm, sib, false, base > 7);
    DisplacementIsDenoted(modrm.addressDisplacement);
  }

  lemma {:induction false} DisplacementAloneIsDenoted(modrm: ModRm, sib: Sib, x: bool, b: bool)
    requires modrm.addressingMode.Indirect?
    requires modrm.rmOperand == 5 || (modrm.rmOperand == 4 && sib.index == 4 && sib.base == 5 && !x)
    ensures EscapesAreInRange(modrm, sib)
    ensures DenotedAddress(x, b, AddressingBytes(modrm, sib)) ==
            Some(Address(if modrm.rmOperand == 5 then Rip else NoBase, NoIndex,
                         SignExtend32(Truncate32(modrm.addressDisplacement))))
  {
    SmallOperand(modrm.rmOperand);
    DisplacementIsDenoted(modrm.addressDisplacement);
    if modrm.rmOperand == 5 {
      PlainAddress(modrm, sib, x, b);
    } else {
      SibAddress(modrm, sib, x, b);
    }
  }

  // The bytes of the operand denote the address that was asked for.
  lemma {:induction false} HeldReferenceIsDenoted(
    reference: MemoryReference, modrm: ModRm, sib: Sib, x: bool, b: bool
  )
    requires CanAddress(reference) && HoldsReference(reference, modrm, sib, x, b)
    ensures EscapesAreInRange(modrm, sib)
    ensures DenotedAddress(x, b, AddressingBytes(modrm, sib)) == Some(AddressOf(reference))
  {
    match reference
    case Absolute(address) =>
      DisplacementAloneIsDenoted(modrm, sib, x, b);
      TruncateExtended(0, address);
    case Base(base) => RegisterIsDenoted(modrm, sib, x, base);
    case BaseSib(base) => SibRegisterIsDenoted(modrm, sib, base);
    case RelativeToRip(displacement) =>
      DisplacementAloneIsDenoted(modrm, sib, x, b);
      TruncateExtended(0, displacement);
    case BaseAnd8BitDisplacement(base, displacement) =>
      RegisterIsDenoted(modrm, sib, x, base);
      TruncateExtended(displacement, 0);
    case BaseAnd32BitDisplacement(base, displacement) =>
      RegisterIsDenoted(modrm, sib, x, base);
      TruncateExtended(0, displacement);
  }

  lemma {:induction false} HeldOperandIsDenoted(
    specification: EncodingSpecification, reference: MemoryReference, encoded: DecodedInstruction,
    extensions: Extensions
  )
    requires CanAddress(reference) && IsEncodable(specification, encoded) && encoded.optionalModRm.Some?
    requires HoldsReference(reference, encoded.GetModRm(), encoded.GetSib(), extensions.x, extensions.b)
    ensures AddressingSurvives(specification, encoded)
    ensures DenotedEffectiveAddress(extensions, encoded.addressSizeOverride, ModRmBytes(specification, encoded)) ==
            Some(EffectiveAddress(AddressSize(encoded.addressSizeOverride), AddressOf(reference)))
  {
    HeldReferenceIsDenoted(reference, encoded.GetModRm(), encoded.GetSib(), extensions.x, extensions.b);
    assert ValidateModRm(specification, encoded).Ok?;
  }

  // ---- The processor --------------------------------------------------------

  // The prefixes at the start of the bytes and the bytes after the opcode denote
  // the address, in the size that the instruction has.
  ghost predicate DenotesReference(
    specification: EncodingSpecification, reference: MemoryReference, encoded: DecodedInstruction, rest: seq<bv8>
  ) {
    var operand := ModRmBytes(specification, encoded);
    var prefixes := PrefixesOf(EncodedBytes(specification, encoded) + rest);
    && prefixes.rest == OpcodeBytes(specification, encoded) + (operand + AfterModRm(specification, encoded, rest))
    && DenotedEffectiveAddress(prefixes.extensions, prefixes.addressSizeOverride, operand) ==
       Some(EffectiveAddress(AddressSize(encoded.addressSizeOverride), AddressOf(reference)))
  }

  // The base register has a number above 7.
  predicate NeedsExtension(reference: MemoryReference) {
    !reference.Absolute? && !reference.RelativeToRip? && reference.base > MAX_LEGACY_REGISTER_INDEX
  }

  // The reference with the low three bits of its register.
  function WithoutExtension(reference: MemoryReference): MemoryReference {
    if NeedsExtension(reference) then reference.(base := reference.base & 7) else reference
  }

  lemma {:induction false} LowBitsOfBase(base: bv32)
    requires 7 < base <= 15
    ensures GetBitRange(base & 7, 0, 3) == GetBitRange(base, 0, 3) && base & 7 <= 7
    ensures LowByte(base & 7) != LowByte(base)
    ensures base & 7 in {4, 5} ==> base in {12, 13}
    ensures base & 7 == 4 ==> base == 12
  {
  }

  lemma {:induction false} HoldsWithoutExtension(
    reference: MemoryReference, modrm: ModRm, sib: Sib, x: bool, b: bool
  )
    requires CanAddress(reference) && HoldsReference(reference, modrm, sib, x, b)
    ensures CanAddress(WithoutExtension(reference))
    ensures HoldsReference(WithoutExtension(reference), modrm, sib, false, false)
  {
    if NeedsExtension(reference) {
      LowBitsOfBase(reference.base);
    }
  }

  lemma {:induction false} ExtensionChangesAddress(reference: MemoryReference)
    requires CanAddress(reference)
    ensures AddressOf(WithoutExtension(reference)) == AddressOf(reference) <==> !NeedsExtension(reference)
  {
    if NeedsExtension(reference) {
      LowBitsOfBase(reference.base);
    }
  }

  lemma {:induction false} ProcessorFindsReference(
    specification: EncodingSpecification, reference: MemoryReference, encoded: DecodedInstruction, rest: seq<bv8>
  )
    requires CanAddress(reference) && !encoded.prefix.Evex? && IsEncodable(specification, encoded)
    requires encoded.optionalModRm.Some?
    requires HoldsReference(reference, encoded.GetModRm(), encoded.GetSib(),
                            EffectiveExtensions(specification, encoded).x, EffectiveExtensions(specification, encoded).b)
    ensures AddressingSurvives(specification, encoded)
    ensures DenotesReference(specification, reference, encoded, rest)
  {
    HeldOperandIsDenoted(specification, reference, encoded, EffectiveExtensions(specification, encoded));
    ProcessorReadsPrefixes(specification, encoded, rest);
  }

  function EffectiveReference(
    specification: EncodingSpecification, reference: MemoryReference, encoded: DecodedInstruction
  ): MemoryReference {
    if RexIsIgnored(specification, encoded) then WithoutExtension(reference) else reference
  }

  lemma {:induction false} EffectiveReferenceIsHeld(
    specification: EncodingSpecification, reference: MemoryReference, encoded: DecodedInstruction
  )
    requires CanAddress(reference)
    requires HoldsReference(reference, encoded.GetModRm(), encoded.GetSib(),
                            ExtensionsOf(encoded.prefix).x, ExtensionsOf(encoded.prefix).b)
    ensures CanAddress(EffectiveReference(specification, reference, encoded))
    ensures HoldsReference(EffectiveReference(specification, reference, encoded), encoded.GetModRm(), encoded.GetSib(),
                           EffectiveExtensions(specification, encoded).x, EffectiveExtensions(specification, encoded).b)
  {
    HoldsWithoutExtension(reference, encoded.GetModRm(), encoded.GetSib(),
                          ExtensionsOf(encoded.prefix).x, ExtensionsOf(encoded.prefix).b);
    EffectiveValues(specification, reference, encoded);
  }

  lemma EffectiveValues(
    specification: EncodingSpecification, reference: MemoryReference, encoded: DecodedInstruction
  )
    ensures var effective := EffectiveReference(specification, reference, encoded);
            var extensions := EffectiveExtensions(specification, encoded);
            || (effective == reference && extensions == ExtensionsOf(encoded.prefix))
            || (effective == WithoutExtension(reference) && extensions == NO_EXTENSIONS)
  {
  }

  lemma OneAddressIsDenoted(
    specification: EncodingSpecification, first: MemoryReference, second: MemoryReference,
    encoded: DecodedInstruction, rest: seq<bv8>
  )
    requires DenotesReference(specification, first, encoded, rest)
    ensures DenotesReference(specification, second, encoded, rest) <==> AddressOf(first) == AddressOf(second)
  {
  }

  lemma {:induction false} HeldReferenceIsFound(
    specification: EncodingSpecification, reference: MemoryReference, encoded: DecodedInstruction, rest: seq<bv8>
  )
    requires CanAddress(reference) && !encoded.prefix.Evex? && IsEncodable(specification, encoded)
    requires encoded.optionalModRm.Some?
    requires HoldsReference(reference, encoded.GetModRm(), encoded.GetSib(),
                            ExtensionsOf(encoded.prefix).x, ExtensionsOf(encoded.prefix).b)
    ensures AddressingSurvives(specification, encoded)
    ensures DenotesReference(specification, EffectiveReference(specification, reference, encoded), encoded, rest)
    ensures DenotesReference(specification, reference, encoded, rest) <==>
            !RexIsIgnored(specification, encoded) || !NeedsExtension(reference)
  {
    EffectiveReferenceIsHeld(specification, reference, encoded);
    ProcessorFindsReference(specification, EffectiveReference(specification, reference, encoded), encoded, rest);
    ExtensionChangesAddress(reference);
    OneAddressIsDenoted(specification, EffectiveReference(specification, reference, encoded), reference, encoded, rest);
  }

  // A memory setter followed by encoding: the bytes denote the address exactly when
  // the processor takes REX or the address does without it. Otherwise they denote
  // the address with a base register of the number minus 8.
  lemma {:induction false} EncodedOperandDenotesReference(
    specification: EncodingSpecification, reference: MemoryReference, instruction: DecodedInstruction, rest: seq<bv8>
  )
    requires CanAddress(reference) && !instruction.prefix.Evex?
    requires IsEncodable(specification, WithMemory(reference, instruction))
    ensures var after := WithMemory(reference, instruction);
            && AddressingSurvives(specification, after)
            && after.addressSizeOverride == instruction.addressSizeOverride
            && DenotesReference(specification, EffectiveReference(specification, reference, after), after, rest)
            && (DenotesReference(specification, reference, after, rest) <==>
                !RexIsIgnored(specification, after) || !NeedsExtension(reference))
  {
    SettersHoldReference(reference, instruction);
    HeldReferenceIsFound(specification, reference, WithMemory(reference, instruction), rest);
  }

  const OVERRIDDEN: DecodedInstruction :=
    DEFAULT_INSTRUCTION.(prefix := Legacy(DEFAULT_LEGACY.(operandSizeOverride := true)))

  lemma {:induction false} NinthBaseIsEncoded()
    ensures IsEncodable(INDIRECT_SPECIFICATION, WithMemory(Base(9), OVERRIDDEN))
    ensures EncodedBytes(INDIRECT_SPECIFICATION, WithMemory(Base(9), OVERRIDDEN)) == [0x41, 0x66, 0x03, 0x01]
  {
    assert OpcodeBytes(INDIRECT_SPECIFICATION, WithMemory(Base(9), OVERRIDDEN)) == [0x03];
  }

  // The operand-size override stands behind REX: the processor reads [rcx], not [r9].
  lemma {:induction false} NinthBaseIsNotDenoted(rest: seq<bv8>)
    ensures var encoded := WithMemory(Base(9), OVERRIDDEN);
            && CanAddress(Base(9)) && IsEncodable(INDIRECT_SPECIFICATION, encoded)
            && EncodedBytes(INDIRECT_SPECIFICATION, encoded) == [0x41, 0x66, 0x03, 0x01]
            && DenotesReference(INDIRECT_SPECIFICATION, Base(1), encoded, rest)
            && !DenotesReference(INDIRECT_SPECIFICATION, Base(9), encoded, rest)
  {
    NinthBaseIsEncoded();
    EncodedOperandDenotesReference(INDIRECT_SPECIFICATION, Base(9), OVERRIDDEN, rest);
  }

  // ---- The parser -----------------------------------------------------------

  // The same with the extension bits that the parser finds.
  ghost predicate IsDecodedReference(
    specification: EncodingSpecification, reference: MemoryReference, encoded: DecodedInstruction, rest: seq<bv8>
  ) {
    var operand := ModRmBytes(specification, encoded);
    match ReadPrefixes(DEFAULT_INSTRUCTION, EncodedBytes(specification, encoded) + rest)
    case Success((prefixes, left)) =>
      && left == OpcodeBytes(specification, encoded) + (operand + AfterModRm(specification, encoded, rest))
      && DenotedEffectiveAddress(ExtensionsOf(prefixes.prefix), prefixes.addressSizeOverride, operand) ==
         Some(EffectiveAddress(AddressSize(encoded.addressSizeOverride), AddressOf(reference)))
    case Failure(_) => false
  }

  lemma {:induction false} ParserFindsReference(
    specification: EncodingSpecification, reference: MemoryReference, encoded: DecodedInstruction, rest: seq<bv8>
  )
    requires CanAddress(reference) && !encoded.prefix.Evex? && IsEncodable(specification, encoded)
    requires encoded.optionalModRm.Some?
    requires HoldsReference(reference, encoded.GetModRm(), encoded.GetSib(),
                            ExtensionsOf(encoded.prefix).x, ExtensionsOf(encoded.prefix).b)
    ensures IsDecodedReference(specification, reference, encoded, rest)
  {
    HeldOperandIsDenoted(specification, reference, encoded, ExtensionsOf(encoded.prefix));
    ExtensionBitsAreRead(specification, encoded, rest);
  }

  // The parser takes REX wherever it stands, and so finds every reference.
  lemma {:induction false} EncodedOperandIsDecoded(
    specification: EncodingSpecification, reference: MemoryReference, instruction: DecodedInstruction, rest: seq<bv8>
  )
    requires CanAddress(reference) && !instruction.prefix.Evex?
    requires IsEncodable(specification, WithMemory(reference, instruction))
    ensures IsDecodedReference(specification, reference, WithMemory(reference, instruction), rest)
  {
    var encoded := WithMemory(reference, instruction);
    SettersHoldReference(reference, instruction);
    ParserFindsReference(specification, reference, encoded, rest);
  }

  lemma {:induction false} ExtensionBitsAreRead(
    specification: EncodingSpecification, encoded: DecodedInstruction, rest: seq<bv8>
  )
    requires IsEncodable(specification, encoded) && !encoded.prefix.Evex?
    ensures match ReadPrefixes(DEFAULT_INSTRUCTION, EncodedBytes(specification, encoded) + rest)
            case Success((prefixes, left)) =>
              && left == OpcodeBytes(specification, encoded) + AfterOpcode(specification, encoded, rest)
              && prefixes.addressSizeOverride == encoded.addressSizeOverride
              && ExtensionsOf(prefixes.prefix) == ExtensionsOf(encoded.prefix)
            case Failure(_) => false
  {
    var afterOpcode := AfterOpcode(specification, encoded, rest);
    EncodedBytesInOrder(specification, encoded, rest);
    OpcodeStartsBytes(specification, encoded, afterOpcode);
    PrefixesRoundTrip(specification, encoded, OpcodeBytes(specification, encoded) + afterOpcode);
    ExtensionBitsSurvive(specification, encoded);
  }

  // ---- The other fields -----------------------------------------------------

  // The prefixes differ in the bits X and B only, and in the presence of REX.
  predicate KeepsOtherBits(before: InstructionPrefix, after: InstructionPrefix) {
    if before.Vex? then
      after.Vex? && after.vex.(notX := false, notB := false) == before.vex.(notX := false, notB := false)
    else
      && after.Legacy?
      && after.legacy.(optionalRex := None) == LegacyOf(before).(optionalRex := None)
      && after.legacy.GetRex().(x := false, b := false) == LegacyOf(before).GetRex().(x := false, b := false)
  }

  lemma SetBKeepsOthers(before: InstructionPrefix, prefix: InstructionPrefix, b: bool)
    requires prefix == before || KeepsOtherBits(before, prefix)
    ensures KeepsOtherBits(before, SetB(prefix, b))
  {
  }

  lemma SetXKeepsOthers(before: InstructionPrefix, prefix: InstructionPrefix, x: bool)
    requires KeepsOtherBits(before, prefix)
    ensures KeepsOtherBits(before, SetX(prefix, x))
  {
  }

  // Nothing but the memory operand and its extension bits changes.
  lemma {:induction false} SettersKeepOtherFields(reference: MemoryReference, instruction: DecodedInstruction)
    ensures var after := WithMemory(reference, instruction);
            && KeepsOtherBits(instruction.prefix, after.prefix)
            && after.GetModRm().registerOperand == instruction.GetModRm().registerOperand
            && after == instruction.(prefix := after.prefix, optionalModRm := after.optionalModRm,
                                     optionalSib := after.optionalSib)
  {
    var p := instruction.prefix;
    if reference.Absolute? || reference.BaseSib? {
      var b := reference.BaseSib? && reference.base > 7;
      SetBKeepsOthers(p, p, false);
      SetBKeepsOthers(p, SetB(p, false), b);
      SetXKeepsOthers(p, SetB(SetB(p, false), b), false);
    } else {
      SetBKeepsOthers(p, p, !reference.RelativeToRip? && reference.base > 7);
    }
  }
}
