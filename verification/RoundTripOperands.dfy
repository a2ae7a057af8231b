// What the parser reads from the bytes that the encoder emits after the opcode.
module RoundTripOperands {
  import opened Bits
  import opened Sequences
  import opened Wrappers
  import opened X86Protos
  import opened InstructionEncoding
  import opened InstructionEncoder
  import opened InstructionParser

  // ---- ModR/M, SIB and displacement -----------------------------------------

  predicate HasFields(byte: bv8, two: bv32, firstThree: bv32, secondThree: bv32) {
    var bits := byte as bv32;
    && GetBitRange(bits, 6, 8) == two
    && GetBitRange(bits, 3, 6) == firstThree
    && GetBitRange(bits, 0, 3) == secondThree
  }

  lemma Compose233Fields(two: bv32, firstThree: bv32, secondThree: bv32)
    ensures HasFields(Compose233BitValues(two, firstThree, secondThree), two & 3, firstThree & 7, secondThree & 7)
  {
  }

  lemma AddressingModeRoundTrip(mode: AddressingMode)
    ensures AddressingModeBits(mode) & 3 == AddressingModeBits(mode)
    ensures AddressingModeOf(AddressingModeBits(mode)) == mode
  {
  }

  // The displacement that the encoding keeps.
  function NormalDisplacement(size: nat, displacement: bv64): bv64 {
    if size == 1 then SignExtend8(Truncate8(displacement))
    else if size == 4 then SignExtend32(Truncate32(displacement))
    else 0
  }

  lemma DisplacementRoundTrip(size: nat, displacement: bv64, rest: seq<bv8>)
    requires size == 0 || size == 1 || size == 4
    ensures var bytes := DisplacementBytes(size, displacement) + rest;
            && size <= |bytes|
            && DisplacementOf(bytes, size) == NormalDisplacement(size, displacement)
            && bytes[size..] == rest
  {
    DropFront(DisplacementBytes(size, displacement), rest);
    if size == 4 {
      DWordRoundTrip(Truncate32(displacement));
    }
  }

  // The fields of the ModR/M and SIB bytes cut to their widths.
  function NormalSib(sib: Sib): Sib {
    Sib(sib.scale & 3, sib.index & 7, sib.base & 7)
  }

  function NormalModRm(modrm: ModRm, sib: Sib): ModRm {
    ModRm(modrm.addressingMode, modrm.registerOperand & 7, modrm.rmOperand & 7,
          NormalDisplacement(NumModRmDisplacementBytes(modrm, sib), modrm.addressDisplacement))
  }

  function NormalSibIfUsed(modrm: ModRm, sib: Sib): Option<Sib> {
    if ModRmRequiresSib(modrm) then Some(NormalSib(sib)) else None
  }

  // The escape values of modrm.rm and sib.base are compared with the whole field,
  // while only its three low bits are emitted. The two agree when no other value
  // of the field has the low bits of the escape.
  predicate EscapesAreInRange(modrm: ModRm, sib: Sib) {
    && (!modrm.addressingMode.Direct? && (modrm.rmOperand & 7) == 4 ==> modrm.rmOperand == 4)
    && (modrm.addressingMode.Indirect? && (modrm.rmOperand & 7) == 5 ==> modrm.rmOperand == 5)
    && (modrm.addressingMode.Indirect? && modrm.rmOperand == 4 && (sib.base & 7) == 5 ==> sib.base == 5)
  }

  lemma {:induction false} EscapesAgree(modrm: ModRm, sib: Sib)
    requires EscapesAreInRange(modrm, sib)
    ensures HasSib(NormalModRm(modrm, sib)) == ModRmRequiresSib(modrm)
    ensures DisplacementSize(NormalModRm(modrm, sib), NormalSibIfUsed(modrm, sib)) ==
            NumModRmDisplacementBytes(modrm, sib)
  {
  }

  lemma {:induction false} ReadFields(byte: bv8, two: bv32, firstThree: bv32, secondThree: bv32, displacement: bv64)
    requires HasFields(byte, two, firstThree, secondThree)
    ensures ModRmOf(byte, displacement) == ModRm(AddressingModeOf(two), firstThree, secondThree, displacement)
    ensures SibOf(byte) == Sib(two, firstThree, secondThree)
  {
  }

  lemma {:induction false} ModRmByteRoundTrip(modrm: ModRm, displacement: bv64)
    ensures ModRmOf(ModRmByte(modrm), displacement) ==
            ModRm(modrm.addressingMode, modrm.registerOperand & 7, modrm.rmOperand & 7, displacement)
  {
    var mode := AddressingModeBits(modrm.addressingMode);
    AddressingModeRoundTrip(modrm.addressingMode);
    Compose233Fields(mode, modrm.registerOperand, modrm.rmOperand);
    ReadFields(ModRmByte(modrm), mode & 3, modrm.registerOperand & 7, modrm.rmOperand & 7, displacement);
  }

  lemma SibByteRoundTrip(sib: Sib)
    ensures SibOf(SibByte(sib)) == NormalSib(sib)
  {
    Compose233Fields(sib.scale, sib.index, sib.base);
    ReadFields(SibByte(sib), sib.scale & 3, sib.index & 7, sib.base & 7, 0);
  }

  // The fields read from a ModR/M byte, a SIB byte if there is one, and a
  // displacement of the size that the fields ask for.
  lemma {:induction false} ReadAddressingOf(
    first: bv8, sibBytes: seq<bv8>, displacement: seq<bv8>, modrm: ModRm, sib: Option<Sib>, rest: seq<bv8>
  )
    requires ModRmOf(first, 0) == modrm.(addressDisplacement := 0)
    requires ModRmOf(first, modrm.addressDisplacement) == modrm
    requires HasSib(modrm) == sib.Some?
    requires match sib case None => sibBytes == [] case Some(s) => |sibBytes| == 1 && SibOf(sibBytes[0]) == s
    requires var size := DisplacementSize(modrm, sib);
             size <= |displacement + rest| && (displacement + rest)[size..] == rest &&
             DisplacementOf(displacement + rest, size) == modrm.addressDisplacement
    ensures ReadAddressing([first] + sibBytes + displacement + rest) == Success((modrm, sib, rest))
  {
    var bytes := [first] + sibBytes + displacement + rest;
    assert bytes == ([first] + sibBytes) + (displacement + rest);
    DropFront([first] + sibBytes, displacement + rest);
  }

  lemma {:induction false} AddressingRoundTrip(modrm: ModRm, sib: Sib, rest: seq<bv8>)
    requires EscapesAreInRange(modrm, sib)
    ensures ReadAddressing(AddressingBytes(modrm, sib) + rest) ==
            Success((NormalModRm(modrm, sib), NormalSibIfUsed(modrm, sib), rest))
  {
    var normal := NormalModRm(modrm, sib);
    EscapesAgree(modrm, sib);
    ModRmByteRoundTrip(modrm, 0);
    ModRmByteRoundTrip(modrm, normal.addressDisplacement);
    SibByteRoundTrip(sib);
    var size := NumModRmDisplacementBytes(modrm, sib);
    DisplacementRoundTrip(size, modrm.addressDisplacement, rest);
    ReadAddressingOf(ModRmByte(modrm), if ModRmRequiresSib(modrm) then [SibByte(sib)] else [],
                     DisplacementBytes(size, modrm.addressDisplacement), normal, NormalSibIfUsed(modrm, sib), rest);
  }

  // ---- Immediate values, code offset and VEX suffix -------------------------

  predicate HaveSizes(values: seq<seq<bv8>>, sizes: seq<nat>) {
    |values| == |sizes| && forall i :: 0 <= i < |sizes| ==> |values[i]| == sizes[i]
  }

  lemma {:induction false} ValuesRoundTrip(sizes: seq<nat>, values: seq<seq<bv8>>, rest: seq<bv8>)
    requires HaveSizes(values, sizes)
    ensures ReadValues(sizes, Flatten(values) + rest) == Success((values, rest))
  {
    if sizes == [] {
      assert [] + rest == rest;
    } else {
      var tail := Flatten(values[1..]) + rest;
      assert Flatten(values) + rest == values[0] + tail;
      DropFront(values[0], tail);
      ValuesRoundTrip(sizes[1..], values[1..], rest);
      assert [values[0]] + values[1..] == values;
    }
  }

  lemma ImmediatesRoundTrip(
    specification: EncodingSpecification, encoded: DecodedInstruction, instruction: DecodedInstruction, rest: seq<bv8>
  )
    requires ValidateImmediateValues(specification, encoded).Ok?
    requires instruction.immediateValue == [] && instruction.codeOffset == []
    ensures ReadImmediateValues(specification, instruction, ImmediateBytes(encoded) + rest) ==
            Success((instruction.(immediateValue := encoded.immediateValue), encoded.codeOffset + rest))
  {
    assert ImmediateBytes(encoded) + rest == Flatten(encoded.immediateValue) + (encoded.codeOffset + rest);
    ValuesRoundTrip(specification.immediateValueBytes, encoded.immediateValue, encoded.codeOffset + rest);
    assert [] + encoded.immediateValue == encoded.immediateValue;
  }

  lemma CodeOffsetRoundTrip(
    specification: EncodingSpecification, encoded: DecodedInstruction, instruction: DecodedInstruction, rest: seq<bv8>
  )
    requires ValidateImmediateValues(specification, encoded).Ok?
    requires instruction.codeOffset == []
    ensures ReadCodeOffset(specification, instruction, encoded.codeOffset + rest) ==
            Success((instruction.(codeOffset := encoded.codeOffset), rest))
  {
    DropFront(encoded.codeOffset, rest);
  }

  // The prefix after the VEX suffix is read. An EVEX prefix does not survive it.
  function WithSuffix(
    specification: EncodingSpecification, encoded: DecodedInstruction, instruction: DecodedInstruction
  ): DecodedInstruction
  {
    if !specification.GetVexPrefix().hasVexOperandSuffix then instruction
    else
      instruction.(prefix :=
        Vex(instruction.GetVexPrefix().(vexSuffixValue := encoded.GetVexPrefix().vexSuffixValue & 0xff)))
  }

  lemma SuffixRoundTrip(
    specification: EncodingSpecification, encoded: DecodedInstruction, instruction: DecodedInstruction, rest: seq<bv8>
  )
    ensures ReadVexSuffix(specification, instruction, VexSuffixBytes(specification, encoded) + rest) ==
            Success((WithSuffix(specification, encoded, instruction), rest))
  {
    DropFront(VexSuffixBytes(specification, encoded), rest);
    var suffix := encoded.GetVexPrefix().vexSuffixValue;
    assert LowByte(suffix) as bv32 == suffix & 0xff;
  }

  // The instruction after everything that follows the ModR/M byte is read.
  function WithOperands(
    specification: EncodingSpecification, encoded: DecodedInstruction, instruction: DecodedInstruction
  ): DecodedInstruction
  {
    WithSuffix(specification, encoded,
               instruction.(immediateValue := encoded.immediateValue, codeOffset := encoded.codeOffset))
  }

  lemma OperandsRoundTrip(
    specification: EncodingSpecification, encoded: DecodedInstruction, instruction: DecodedInstruction, rest: seq<bv8>
  )
    requires ValidateImmediateValues(specification, encoded).Ok?
    requires instruction.immediateValue == [] && instruction.codeOffset == []
    ensures ReadOperands(specification, instruction,
                         ImmediateBytes(encoded) + (VexSuffixBytes(specification, encoded) + rest)) ==
            Success((WithOperands(specification, encoded, instruction), rest))
  {
    var suffix := VexSuffixBytes(specification, encoded) + rest;
    ImmediatesRoundTrip(specification, encoded, instruction, suffix);
    var withImmediates := instruction.(immediateValue := encoded.immediateValue);
    CodeOffsetRoundTrip(specification, encoded, withImmediates, suffix);
    SuffixRoundTrip(specification, encoded, withImmediates.(codeOffset := encoded.codeOffset), rest);
  }
}
