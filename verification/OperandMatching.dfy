// What a match says about the bytes of the operand: the opcode extension, and the
// addressing mode in terms of the address that the bytes denote.
module OperandMatching {
  import opened Bits
  import opened Wrappers
  import opened X86Protos
  import opened InstructionEncoding
  import opened Architecture
  import opened InstructionParser
  import opened AddressMeaning

  // ---- Opcode extensions ----------------------------------------------------

  predicate HasExtension(db: Database, i: nat)
    requires IsWellFormedDatabase(db) && i < |db|
  {
    SpecificationAt(db, i).modrmUsage == OpcodeExtensionInModRm
  }

  // A lookup with the ModR/M byte returns only instructions whose opcode extension is
  // the value of modrm.reg.
  lemma ExtensionIsChecked(db: Database, decoded: DecodedInstruction, i: nat)
    requires IsWellFormedDatabase(db) && i in InstructionIndices(db, decoded, true)
    ensures HasExtension(db, i) ==> SpecificationAt(db, i).modrmOpcodeExtension == decoded.GetModRm().registerOperand
  {
    LookupIsSortedAndSound(db, decoded, true);
  }

  // So instructions with different extensions are never returned together.
  lemma ExtensionsExclude(db: Database, decoded: DecodedInstruction, i: nat, j: nat)
    requires IsWellFormedDatabase(db) && i < |db| && j < |db| && HasExtension(db, i) && HasExtension(db, j)
    requires SpecificationAt(db, i).modrmOpcodeExtension != SpecificationAt(db, j).modrmOpcodeExtension
    ensures !(i in InstructionIndices(db, decoded, true) && j in InstructionIndices(db, decoded, true))
    ensures InstructionIndex(db, decoded, true) == Some(i) ==>
              SpecificationAt(db, i).modrmOpcodeExtension == decoded.GetModRm().registerOperand
  {
    if i in InstructionIndices(db, decoded, true) {
      ExtensionIsChecked(db, decoded, i);
    }
    if j in InstructionIndices(db, decoded, true) {
      ExtensionIsChecked(db, decoded, j);
    }
  }

  // The whole test of the ModR/M byte.
  lemma ModRmMatches(specification: EncodingSpecification, decoded: DecodedInstruction, format: InstructionFormat)
    ensures ModRmUsageMatchesSpecification(specification, decoded, format) == Matches <==>
            || specification.modrmUsage == NoModRmUsage
            || ((specification.modrmUsage == FullModRm ||
                 (specification.modrmUsage == OpcodeExtensionInModRm &&
                  decoded.GetModRm().registerOperand == specification.modrmOpcodeExtension)) &&
                AddressingModeMatchesSpecification(format, decoded) == Matches)
  {
  }

  // ---- Addressing modes -----------------------------------------------------

  // How many bytes of the operand are left for the displacement.
  function DisplacementLength(bytes: seq<bv8>): int {
    if bytes == [] then 0
    else |bytes| - (if bytes[0] >> 6 != 3 && bytes[0] & 7 == 4 then 2 else 1)
  }

  predicate HasSibByte(bytes: seq<bv8>) {
    bytes != [] && bytes[0] >> 6 != 3 && bytes[0] & 7 == 4
  }

  // The meaning of each mode: which of base, index and displacement there are.
  predicate HasMode(mode: OperandAddressingMode, bytes: seq<bv8>, address: Option<Address>) {
    match mode
    case AnyAddressingMode => true
    case DirectAddressing => address.None?
    case BlockDirectAddressing => address.None?
    case IndirectAddressing => address.Some?
    case LoadEffectiveAddress => address.Some?
    case IndirectAddressingWithBase =>
      && address.Some? && address.value.base.BaseRegister? && address.value.index.NoIndex?
      && DisplacementLength(bytes) == 0
    case IndirectAddressingWithDisplacement =>
      address.Some? && address.value.base.NoBase? && address.value.index.NoIndex?
    case IndirectAddressingWithBaseAndDisplacement =>
      && address.Some? && address.value.base.BaseRegister? && address.value.index.NoIndex?
      && DisplacementLength(bytes) > 0
    case IndirectAddressingWithBaseAndIndex =>
      && address.Some? && address.value.base.BaseRegister? && address.value.index.IndexRegister?
      && DisplacementLength(bytes) == 0
    case IndirectAddressingWithIndexAndDisplacement =>
      address.Some? && address.value.base.NoBase? && address.value.index.IndexRegister?
    case IndirectAddressingWithBaseDisplacementAndIndex =>
      && address.Some? && address.value.base.BaseRegister? && address.value.index.IndexRegister?
      && DisplacementLength(bytes) > 0
    case IndirectAddressingWithVsib => HasSibByte(bytes)
    case IndirectAddressingWithInstructionPointer => address.Some? && address.value.base.Rip?
    case _ => false
  }

  // The operand of these bytes as the parser stores it.
  predicate IsOperandOf(bytes: seq<bv8>, decoded: DecodedInstruction) {
    match ReadAddressing(bytes)
    case Success((modrm, sib, rest)) =>
      rest == [] && decoded.optionalModRm == Some(modrm) && decoded.optionalSib == sib
    case Failure(_) => false
  }

  lemma SmallFields(byte: bv8)
    ensures var bits := byte as bv32;
            && GetBitRange(bits, 0, 3) == (byte & 7) as bv32
            && GetBitRange(bits, 3, 6) == ((byte >> 3) & 7) as bv32
            && GetBitRange(bits, 6, 8) == (byte >> 6) as bv32
  {
  }

  lemma ModeOfBits(two: bv8)
    requires two <= 3
    ensures AddressingModeOf(two as bv32).Direct? <==> two == 3
    ensures AddressingModeOf(two as bv32).Indirect? <==> two == 0
    ensures AddressingModeOf(two as bv32).IndirectWith8BitDisplacement? <==> two == 1
  {
  }

  lemma HighBitsAreTwo(byte: bv8)
    ensures byte >> 6 <= 3
  {
  }

  // The two bytes and the size of the displacement.
  function Mod(bytes: seq<bv8>): bv8
    requires bytes != []
  {
    bytes[0] >> 6
  }

  function Rm(bytes: seq<bv8>): bv8
    requires bytes != []
  {
    bytes[0] & 7
  }

  function SibIndex(bytes: seq<bv8>): bv8 {
    if |bytes| < 2 then 0 else (bytes[1] >> 3) & 7
  }

  function SibBase(bytes: seq<bv8>): bv8 {
    if |bytes| < 2 then 0 else bytes[1] & 7
  }

  // The fields that the parser stores are those of the bytes.
  predicate AreFieldsOf(bytes: seq<bv8>, modrm: ModRm, sib: Option<Sib>)
    requires bytes != []
  {
    && (modrm.addressingMode.Direct? <==> Mod(bytes) == 3) && (modrm.addressingMode.Indirect? <==> Mod(bytes) == 0)
    && (modrm.addressingMode.IndirectWith8BitDisplacement? <==> Mod(bytes) == 1)
    && (modrm.rmOperand == 4 <==> Rm(bytes) == 4) && (modrm.rmOperand == 5 <==> Rm(bytes) == 5)
    && (sib.Some? <==> HasSibByte(bytes)) && (sib.Some? ==> |bytes| >= 2)
    && (sib.Some? ==> (sib.value.index == 4 <==> SibIndex(bytes) == 4) && (sib.value.base == 5 <==> SibBase(bytes) == 5))
  }

  lemma NumberIsKept(number: bv8)
    ensures (number as bv32 == 4 <==> number == 4) && (number as bv32 == 5 <==> number == 5)
  {
  }

  lemma {:induction false} ModRmFields(byte: bv8, displacement: bv64)
    ensures var modrm := ModRmOf(byte, displacement);
            && (modrm.addressingMode.Direct? <==> byte >> 6 == 3) && (modrm.addressingMode.Indirect? <==> byte >> 6 == 0)
            && (modrm.addressingMode.IndirectWith8BitDisplacement? <==> byte >> 6 == 1)
            && (modrm.rmOperand == 4 <==> byte & 7 == 4) && (modrm.rmOperand == 5 <==> byte & 7 == 5)
            && modrm.addressDisplacement == displacement
  {
    SmallFields(byte);
    HighBitsAreTwo(byte);
    ModeOfBits(byte >> 6);
    NumberIsKept(byte & 7);
  }

  lemma {:induction false} SibFields(byte: bv8)
    ensures var sib := SibOf(byte);
            (sib.index == 4 <==> (byte >> 3) & 7 == 4) && (sib.base == 5 <==> byte & 7 == 5)
  {
    SmallFields(byte);
    NumberIsKept(byte & 7);
    NumberIsKept((byte >> 3) & 7);
  }

  lemma {:induction false} FieldsAreStored(bytes: seq<bv8>)
    requires ReadAddressing(bytes).Success? && ReadAddressing(bytes).value.2 == []
    ensures bytes != []
    ensures AreFieldsOf(bytes, ReadAddressing(bytes).value.0, ReadAddressing(bytes).value.1)
    ensures |bytes| == (if HasSibByte(bytes) then 2 else 1) +
                       DisplacementSize(ReadAddressing(bytes).value.0, ReadAddressing(bytes).value.1)
  {
    var modrm := ModRmOf(bytes[0], 0);
    ModRmFields(bytes[0], 0);
    ModRmFields(bytes[0], ReadAddressing(bytes).value.0.addressDisplacement);
    if HasSib(modrm) {
      SibFields(bytes[1]);
    }
  }

  // The displacement of the address that exactly these bytes denote.
  lemma {:induction false} AddressOfBytes(x: bool, b: bool, bytes: seq<bv8>)
    requires ReadAddressing(bytes).Success? && ReadAddressing(bytes).value.2 == []
    ensures bytes != []
    ensures var address := DenotedAddress(x, b, bytes);
            && (address.None? <==> Mod(bytes) == 3)
            && (address.Some? ==>
                  && (address.value.base.Rip? <==> Mod(bytes) == 0 && Rm(bytes) == 5)
                  && (address.value.base.NoBase? <==> Mod(bytes) == 0 && Rm(bytes) == 4 && SibBase(bytes) == 5)
                  && (address.value.index.NoIndex? <==> !(Rm(bytes) == 4 && (x || SibIndex(bytes) != 4))))
  {
    FieldsAreStored(bytes);
    HighBitsAreTwo(bytes[0]);
    ExtendedIndex(x, SibIndex(bytes));
  }

  lemma ExtendedIndex(x: bool, index: bv8)
    requires index <= 7
    ensures Extended(x, index) == 4 <==> !x && index == 4
  {
  }

  // ---- The matcher ----------------------------------------------------------

  // The index field is 4, which means no index when REX.X is clear and r12 when it is
  // set.
  predicate HasIndexFour(bytes: seq<bv8>) {
    HasSibByte(bytes) && SibIndex(bytes) == 4
  }

  // Whatever the bytes of the operand are, the matcher finds the mode exactly when the
  // address that they denote has the base, the index and the displacement of that
  // mode. It does not look at REX.X: only r12 as an index may be taken for none.
  lemma {:induction false} MatcherReadsAddress(
    bytes: seq<bv8>, decoded: DecodedInstruction, mode: OperandAddressingMode, x: bool, b: bool
  )
    requires IsOperandOf(bytes, decoded) && !(x && HasIndexFour(bytes))
    ensures ModRmAddressingModeMatchesOperand(decoded, mode) ==
            if mode in {NoAddressing, AnyAddressingWithFlexibleRegisters, AnyAddressingWithFixedRegisters,
                        IndirectAddressingByRsi, IndirectAddressingByRdi} then Fatal
            else if HasMode(mode, bytes, DenotedAddress(x, b, bytes)) then Matches
            else Mismatch
  {
    FieldsAreStored(bytes);
    AddressOfBytes(x, b, bytes);
    LengthOfBytes(bytes);
  }

  lemma {:induction false} LengthOfBytes(bytes: seq<bv8>)
    requires ReadAddressing(bytes).Success? && ReadAddressing(bytes).value.2 == []
    ensures bytes != []
    ensures DisplacementLength(bytes) > 0 <==>
            Mod(bytes) == 1 || Mod(bytes) == 2 ||
            (Mod(bytes) == 0 && (Rm(bytes) == 5 || (Rm(bytes) == 4 && SibBase(bytes) == 5)))
    ensures DisplacementLength(bytes) >= 0
  {
    FieldsAreStored(bytes);
    HighBitsAreTwo(bytes[0]);
  }

  const TWELFTH_INDEX: seq<bv8> := [0x04, 0x20]

  lemma TwelfthIndexFields()
    ensures Mod(TWELFTH_INDEX) == 0 && Rm(TWELFTH_INDEX) == 4
    ensures SibIndex(TWELFTH_INDEX) == 4 && SibBase(TWELFTH_INDEX) == 0
    ensures TWELFTH_INDEX[1] >> 6 == 0 && TWELFTH_INDEX[2..] == []
    ensures Extended(true, 4) == 12 && Extended(false, 0) == 0 && (1 as bv8) << 0 == 1
  {
  }

  lemma TwelfthIndexIsDenoted(b: bool, x: bool)
    ensures DenotedAddress(x, b, TWELFTH_INDEX) ==
            Some(Address(BaseRegister(Extended(b, 0)), if x then IndexRegister(12, 1) else NoIndex, 0))
  {
    TwelfthIndexFields();
  }

  // With REX.X such bytes denote an address with the index r12, for example 04 20, which
  // is [rax + r12], and no mode with an index is found.
  lemma {:induction false} IndexTwelveIsTakenForNone(bytes: seq<bv8>, decoded: DecodedInstruction, b: bool)
    requires IsOperandOf(bytes, decoded) && HasIndexFour(bytes)
    ensures DenotedAddress(true, b, bytes).Some?
    ensures DenotedAddress(true, b, bytes).value.index.IndexRegister?
    ensures forall mode :: mode in {IndirectAddressingWithBaseAndIndex, IndirectAddressingWithIndexAndDisplacement,
                                    IndirectAddressingWithBaseDisplacementAndIndex} ==>
              ModRmAddressingModeMatchesOperand(decoded, mode) == Mismatch
  {
    AddressOfBytes(true, b, bytes);
    AddressOfBytes(false, b, bytes);
    MatcherReadsAddress(bytes, decoded, IndirectAddressingWithBaseAndIndex, false, b);
    MatcherReadsAddress(bytes, decoded, IndirectAddressingWithIndexAndDisplacement, false, b);
    MatcherReadsAddress(bytes, decoded, IndirectAddressingWithBaseDisplacementAndIndex, false, b);
  }

  // The operand that decides is the first one in modrm.rm; without one every address
  // matches.
  lemma {:induction false} OperandDecides(
    format: InstructionFormat, bytes: seq<bv8>, decoded: DecodedInstruction, k: nat
  )
    requires IsOperandOf(bytes, decoded) && k <= |format.operands|
    requires forall i :: 0 <= i < k ==> format.operands[i].encoding != ModRmRmEncoding
    requires k < |format.operands| ==> format.operands[k].encoding == ModRmRmEncoding
    ensures AddressingModeMatchesSpecification(format, decoded) ==
            if k == |format.operands| then Matches
            else ModRmAddressingModeMatchesOperand(decoded, format.operands[k].addressingMode)
  {
    assert ModRmRmOperandPosition(format.operands) == k;
  }
}
