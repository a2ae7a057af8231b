// The generator of encoding specification strings
// (exegesis/x86/encoding_specification.cc).
module EncodingSpecificationGenerator {
  import opened Wrappers
  import opened Opcodes
  import opened X86Protos

  function HexDigit(n: bv8): char {
    if n == 0 then '0' else if n == 1 then '1' else if n == 2 then '2' else if n == 3 then '3'
    else if n == 4 then '4' else if n == 5 then '5' else if n == 6 then '6' else if n == 7 then '7'
    else if n == 8 then '8' else if n == 9 then '9' else if n == 10 then 'A' else if n == 11 then 'B'
    else if n == 12 then 'C' else if n == 13 then 'D' else if n == 14 then 'E' else 'F'
  }

  // The two hexadecimal digits of a byte.
  function HexText(byte: bv8): (text: string)
    ensures |text| == 2 && text[0] != ' ' && text[1] != ' '
  {
    [HexDigit(byte >> 4), HexDigit(byte & 15)]
  }

  function DecimalDigit(n: nat): char
    requires n < 10
  {
    "0123456789"[n]
  }

  function DecimalText(n: nat): (text: string)
    ensures text != []
  {
    if n < 10 then [DecimalDigit(n)] else DecimalText(n / 10) + [DecimalDigit(n % 10)]
  }

  // ---- What the CHECKs demand -----------------------------------------------

  // The first operand that is encoded in the opcode has a width with a suffix.
  function WidthInOpcode(operands: seq<InstructionOperand>): Option<int> {
    if operands == [] then None
    else if operands[0].encoding.OpcodeEncoding? then Some(operands[0].dataTypeBitWidth)
    else WidthInOpcode(operands[1..])
  }

  predicate CanGenerateVex(vex: VexPrefixSpecification, opcode: Opcode) {
    && !vex.prefixType.UndefinedPrefixType?
    && match vex.mapSelect
       case Map0F => opcode.DropLastByte() == Opcode(0, 0, 0, 0x0f)
       case Map0F38 => opcode.DropLastByte() == Opcode(0, 0, 0x0f, 0x38)
       case Map0F3A => opcode.DropLastByte() == Opcode(0, 0, 0x0f, 0x3a)
       case _ => false
  }

  predicate CanGenerate(format: InstructionFormat, specification: EncodingSpecification) {
    && (if specification.prefix.VexSpecification?
        then CanGenerateVex(specification.prefix.vex, specification.opcode)
        else specification.opcode.b3 == 0)
    && (specification.operandInOpcode.GeneralPurposeRegisterInOpcode? ==>
          var width := WidthInOpcode(format.operands);
          width.Some? && width.value in {8, 16, 32, 64})
    && forall i :: 0 <= i < |specification.immediateValueBytes| ==>
         specification.immediateValueBytes[i] in {1, 2, 4, 8}
  }

  // ---- The text -------------------------------------------------------------

  function When(condition: bool, text: string): string {
    if condition then text else ""
  }

  function LegacyPrefixText(prefixes: LegacyPrefixSpecification): string {
    When(prefixes.rexWPrefix.PrefixIsRequired?, "REX.W + ") +
    When(prefixes.hasMandatoryRepnePrefix, "F2 ") +
    When(prefixes.hasMandatoryRepePrefix, "F3 ") +
    When(prefixes.hasMandatoryAddressSizeOverridePrefix, "67 ") +
    When(prefixes.operandSizeOverridePrefix.PrefixIsRequired?, "66 ")
  }

  function PrefixTypeText(prefixType: VexPrefixType): string {
    if prefixType.VexType? then "VEX" else "EVEX"
  }

  function VectorSizeText(size: VexVectorSize): string {
    match size
    case VectorSizeIsIgnored => ".LIG"
    case VectorSizeBitIsZero => ".L0"
    case VectorSizeBitIsOne => ".L1"
    case VectorSize128Bit => ".128"
    case VectorSize256Bit => ".256"
    case VectorSize512Bit => ".512"
  }

  function MandatoryPrefixText(prefix: MandatoryPrefix): string {
    match prefix
    case NoMandatoryPrefix => ""
    case MandatoryOperandSizeOverride => ".66"
    case MandatoryRepne => ".F2"
    case MandatoryRepe => ".F3"
  }

  function MapSelectText(mapSelect: MapSelect): string {
    match mapSelect
    case Map0F38 => ".0F38"
    case Map0F3A => ".0F3A"
    case _ => ".0F"
  }

  function VexWText(usage: VexWUsage): string {
    match usage
    case VexWIsZero => ".W0"
    case VexWIsOne => ".W1"
    case VexWIsIgnored => ".WIG"
  }

  function VexPrefixText(vex: VexPrefixSpecification): string {
    PrefixTypeText(vex.prefixType) +
    (VectorSizeText(vex.vectorSize) +
     (MandatoryPrefixText(vex.mandatoryPrefix) +
      (MapSelectText(vex.mapSelect) + (VexWText(vex.vexWUsage) + " "))))
  }

  function PrefixText(specification: EncodingSpecification): string {
    match specification.prefix
    case NoPrefixSpecification => ""
    case LegacySpecification(legacy) => LegacyPrefixText(legacy)
    case VexSpecification(vex) => VexPrefixText(vex)
  }

  // The map is a part of the prefix, so the opcode of a VEX instruction has one
  // byte.
  function PrintedOpcode(specification: EncodingSpecification): Opcode {
    if specification.prefix.VexSpecification? then specification.opcode.LastByte() else specification.opcode
  }

  function OpcodeText(bytes: seq<bv8>): string
    requires bytes != []
  {
    HexText(bytes[0]) + (if |bytes| == 1 then "" else " " + OpcodeText(bytes[1..]))
  }

  function OperandInOpcodeText(format: InstructionFormat, specification: EncodingSpecification): string
    requires CanGenerate(format, specification)
  {
    match specification.operandInOpcode
    case NoOperandInOpcode => ""
    case FpStackRegisterInOpcode => " +i"
    case GeneralPurposeRegisterInOpcode =>
      var width := WidthInOpcode(format.operands).value;
      if width == 8 then " +rb" else if width == 16 then " +rw" else if width == 32 then " +rd" else " +ro"
  }

  function ModRmText(specification: EncodingSpecification): string {
    if specification.modrmUsage.OpcodeExtensionInModRm? then " /" + DecimalText(specification.modrmOpcodeExtension as nat)
    else if specification.modrmUsage.FullModRm? then " /r"
    else ""
  }

  function ImmediateText(size: nat): string {
    if size == 1 then " ib" else if size == 2 then " iw" else if size == 4 then " id" else " io"
  }

  function ImmediatesText(sizes: seq<nat>): string {
    if sizes == [] then "" else ImmediateText(sizes[0]) + ImmediatesText(sizes[1..])
  }

  function SpecificationText(format: InstructionFormat, specification: EncodingSpecification): string
    requires CanGenerate(format, specification)
  {
    PrefixText(specification) +
    (OpcodeText(PrintedOpcode(specification).Bytes()) +
     (OperandInOpcodeText(format, specification) +
      (ModRmText(specification) + ImmediatesText(specification.immediateValueBytes))))
  }

  // ---- The generator --------------------------------------------------------

  predicate EndsWithSpace(text: string) {
    text == "" || text[|text| - 1] == ' '
  }

  method AppendPrefix(text: string, isPresent: bool, prefix: string) returns (result: string)
    requires EndsWithSpace(text) && EndsWithSpace(prefix)
    ensures result == text + When(isPresent, prefix) && EndsWithSpace(result)
  {
    result := text;
    if isPresent {
      result := result + prefix;
    }
  }

  method GenerateLegacyPrefixEncodingSpec(prefixes: LegacyPrefixSpecification) returns (text: string)
    ensures text == LegacyPrefixText(prefixes) && EndsWithSpace(text)
  {
    text := AppendPrefix("", prefixes.rexWPrefix.PrefixIsRequired?, "REX.W + ");
    assert text == When(prefixes.rexWPrefix.PrefixIsRequired?, "REX.W + ");
    text := AppendPrefix(text, prefixes.hasMandatoryRepnePrefix, "F2 ");
    text := AppendPrefix(text, prefixes.hasMandatoryRepePrefix, "F3 ");
    text := AppendPrefix(text, prefixes.hasMandatoryAddressSizeOverridePrefix, "67 ");
    text := AppendPrefix(text, prefixes.operandSizeOverridePrefix.PrefixIsRequired?, "66 ");
  }

  // Also strips from the opcode the bytes that the map stands for.
  method GenerateVexPrefixEncodingSpec(vex: VexPrefixSpecification, opcode: Opcode)
    returns (text: string, stripped: Opcode)
    requires CanGenerateVex(vex, opcode)
    ensures text == VexPrefixText(vex) && text[|text| - 1] == ' '
    ensures stripped == opcode.LastByte()
  {
    text := PrefixTypeText(vex.prefixType);
    text := text + VectorSizeText(vex.vectorSize);
    text := text + MandatoryPrefixText(vex.mandatoryPrefix);
    text := text + MapSelectText(vex.mapSelect);
    stripped := opcode.LastByte();
    text := text + VexWText(vex.vexWUsage);
    text := text + " ";
  }

  // The text of the bytes from the n-th one, with a space in front of it.
  function RestText(bytes: seq<bv8>, n: nat): string
    requires n <= |bytes|
  {
    if n == |bytes| then "" else " " + OpcodeText(bytes[n..])
  }

  lemma TextStep(text: string, hex: string, bytes: seq<bv8>, n: nat)
    requires n < |bytes| && hex == HexText(bytes[n])
    ensures text + RestText(bytes, n) == text + " " + hex + RestText(bytes, n + 1)
  {
    assert bytes[n..][1..] == bytes[n + 1..];
    Concatenation(text, " ", hex, RestText(bytes, n + 1), "");
  }

  // The bytes are separated by spaces from each other and from the prefixes.
  method AppendOpcode(prefix: string, bytes: seq<bv8>) returns (text: string)
    requires EndsWithSpace(prefix) && bytes != []
    ensures text == prefix + OpcodeText(bytes)
  {
    text := prefix;
    for n := 0 to |bytes|
      invariant n == 0 ==> text == prefix
      invariant n > 0 ==> !EndsWithSpace(text) && text + RestText(bytes, n) == prefix + OpcodeText(bytes)
    {
      ghost var before := text;
      var hex := HexText(bytes[n]);
      if text != "" && text[|text| - 1] != ' ' {
        text := text + " ";
        TextStep(before, hex, bytes, n);
      }
      text := text + hex;
    }
  }

  method AppendImmediates(prefix: string, sizes: seq<nat>) returns (text: string)
    requires forall i :: 0 <= i < |sizes| ==> sizes[i] in {1, 2, 4, 8}
    ensures text == prefix + ImmediatesText(sizes)
  {
    text := prefix;
    for i := 0 to |sizes|
      invariant text + ImmediatesText(sizes[i..]) == prefix + ImmediatesText(sizes)
    {
      assert sizes[i..][1..] == sizes[i + 1..];
      text := text + ImmediateText(sizes[i]);
    }
    assert sizes[|sizes|..] == [];
  }

  lemma Concatenation(a: string, b: string, c: string, d: string, e: string)
    ensures a + (b + (c + (d + e))) == a + b + c + d + e
  {
  }

  method GenerateEncodingSpec(format: InstructionFormat, specification: EncodingSpecification)
    returns (text: string)
    requires CanGenerate(format, specification)
    ensures text == SpecificationText(format, specification)
  {
    text := "";
    var opcode := specification.opcode;
    match specification.prefix {
      case NoPrefixSpecification =>
      case LegacySpecification(legacy) => text := GenerateLegacyPrefixEncodingSpec(legacy);
      case VexSpecification(vex) => text, opcode := GenerateVexPrefixEncodingSpec(vex, opcode);
    }
    text := AppendOpcode(text, opcode.Bytes());
    text := text + OperandInOpcodeText(format, specification);
    text := text + ModRmText(specification);
    text := AppendImmediates(text, specification.immediateValueBytes);
    Concatenation(PrefixText(specification), OpcodeText(PrintedOpcode(specification).Bytes()),
                  OperandInOpcodeText(format, specification), ModRmText(specification),
                  ImmediatesText(specification.immediateValueBytes));
  }
}
