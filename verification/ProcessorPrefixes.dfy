// What a processor in 64-bit mode takes from the prefix bytes of an encoding: the
// extension bits and the address size (Intel SDM volume 2A, sections 2.1.1, 2.2.1
// and 2.3.5). Unlike the parser it ignores a REX prefix that is not directly in
// front of the opcode.
module ProcessorPrefixes {
  import opened Wrappers
  import opened Opcodes
  import opened X86Protos
  import opened InstructionEncodingConstants
  import opened InstructionEncoder
  import opened InstructionParser
  import opened RoundTripPrefixes
  import opened RoundTrip
  import opened Sequences
  import opened UniqueDecoding

  // ---- The extension bits of an instruction ---------------------------------

  // W selects the operand size; R, X and B are the fourth bits of registers.
  datatype Extensions = Extensions(w: bool, r: bool, x: bool, b: bool)

  const NO_EXTENSIONS: Extensions := Extensions(false, false, false, false)

  function ExtensionsOf(prefix: InstructionPrefix): Extensions {
    match prefix
    case Vex(vex) => Extensions(vex.w, !vex.notR, !vex.notX, !vex.notB)
    case Legacy(legacy) => ExtensionsOfRex(legacy.GetRex())
    case _ => NO_EXTENSIONS
  }

  function ExtensionsOfRex(rex: Rex): Extensions {
    Extensions(rex.w, rex.r, rex.x, rex.b)
  }

  // The parser finds the extension bits of a legacy or VEX instruction in its
  // encoding.
  lemma {:induction false} ExtensionBitsSurvive(specification: EncodingSpecification, instruction: DecodedInstruction)
    requires IsEncodable(specification, instruction) && !instruction.prefix.Evex?
    ensures ExtensionsOf(ParsedPrefix(specification, instruction)) == ExtensionsOf(instruction.prefix)
  {
    assert ValidatePrefix(specification, instruction).Ok?;
  }

  // ---- The prefixes of the processor ----------------------------------------

  // The extension bits, the address-size override, and the bytes from the opcode on.
  datatype Prefixes = Prefixes(extensions: Extensions, addressSizeOverride: bool, rest: seq<bv8>)

  predicate IsLegacyPrefixByte(byte: bv8) {
    !SegmentOverrideOf(byte).NoSegmentOverride? || !LockOrRepOf(byte).NoLockOrRep? ||
    byte == OPERAND_SIZE_OVERRIDE_BYTE || byte == ADDRESS_SIZE_OVERRIDE_BYTE
  }

  // Any other prefix behind a REX prefix makes the processor forget it.
  function ScanRun(extensions: Extensions, addressSizeOverride: bool, bytes: seq<bv8>): Prefixes
    decreases |bytes|
  {
    if bytes == [] then Prefixes(extensions, addressSizeOverride, bytes)
    else if IsRexPrefixByte(bytes[0]) then
      ScanRun(ExtensionsOfRex(RexOf(bytes[0])), addressSizeOverride, bytes[1..])
    else if IsLegacyPrefixByte(bytes[0]) then
      ScanRun(NO_EXTENSIONS, addressSizeOverride || bytes[0] == ADDRESS_SIZE_OVERRIDE_BYTE, bytes[1..])
    else Prefixes(extensions, addressSizeOverride, bytes)
  }

  // The bits of a VEX prefix take the place of a REX prefix.
  function PrefixesOf(bytes: seq<bv8>): Prefixes {
    TakeVex(ScanRun(NO_EXTENSIONS, false, bytes))
  }

  function TakeVex(scanned: Prefixes): Prefixes {
    if scanned.rest != [] && IsVexPrefixByte(scanned.rest[0]) then
      match ReadVexPrefix(DEFAULT_INSTRUCTION, scanned.rest)
      case Success((vex, rest)) => Prefixes(ExtensionsOf(vex.prefix), scanned.addressSizeOverride, rest)
      case Failure(_) => scanned
    else scanned
  }

  // ---- The encoded prefixes -------------------------------------------------

  // LOCK, REP and the operand-size override are emitted behind REX.
  predicate RexIsIgnored(specification: EncodingSpecification, instruction: DecodedInstruction) {
    var legacy := instruction.GetLegacyPrefixes();
    specification.prefix.LegacySpecification? && (!legacy.lockOrRep.NoLockOrRep? || legacy.operandSizeOverride)
  }

  function EffectiveExtensions(specification: EncodingSpecification, instruction: DecodedInstruction): Extensions {
    if RexIsIgnored(specification, instruction) then NO_EXTENSIONS else ExtensionsOf(instruction.prefix)
  }

  lemma ScanRex(extensions: Extensions, addressSizeOverride: bool, rex: Rex, rest: seq<bv8>)
    ensures ScanRun(extensions, addressSizeOverride, RexBytes(rex) + rest) ==
            ScanRun(if RexIsNeeded(rex) then ExtensionsOfRex(rex) else extensions, addressSizeOverride, rest)
  {
    if RexIsNeeded(rex) {
      RexByteRoundTrip(rex);
      RexByteIsOnlyRex(RexByte(rex));
      DropFront([RexByte(rex)], rest);
    } else {
      assert [] + rest == rest;
    }
  }

  // At most one byte of another prefix.
  lemma ScanOther(extensions: Extensions, addressSizeOverride: bool, bytes: seq<bv8>, rest: seq<bv8>)
    requires bytes == [] || (|bytes| == 1 && IsLegacyPrefixByte(bytes[0]) && !IsRexPrefixByte(bytes[0]))
    ensures ScanRun(extensions, addressSizeOverride, bytes + rest) ==
            if bytes == [] then ScanRun(extensions, addressSizeOverride, rest)
            else ScanRun(NO_EXTENSIONS, addressSizeOverride || bytes[0] == ADDRESS_SIZE_OVERRIDE_BYTE, rest)
  {
    if bytes == [] {
      assert [] + rest == rest;
    } else {
      DropFront(bytes, rest);
    }
  }

  lemma EncodedBytesOfPrefixes(segment: SegmentOverride, lockOrRep: LockOrRepPrefix)
    ensures |SegmentOverrideBytes(segment)| <= 1 && |LockOrRepBytes(lockOrRep)| <= 1
    ensures SegmentOverrideBytes(segment) != [] ==>
              var byte := SegmentOverrideBytes(segment)[0];
              IsLegacyPrefixByte(byte) && !IsRexPrefixByte(byte) && byte != ADDRESS_SIZE_OVERRIDE_BYTE
    ensures LockOrRepBytes(lockOrRep) != [] ==>
              var byte := LockOrRepBytes(lockOrRep)[0];
              IsLegacyPrefixByte(byte) && !IsRexPrefixByte(byte) && byte != ADDRESS_SIZE_OVERRIDE_BYTE
    ensures (LockOrRepBytes(lockOrRep) == []) == lockOrRep.NoLockOrRep?
  {
  }

  lemma ScanOverrides(instruction: DecodedInstruction, rest: seq<bv8>)
    ensures ScanRun(NO_EXTENSIONS, false,
                    SegmentOverrideBytes(instruction.segmentOverride) +
                    (AddressSizeOverrideBytes(instruction.addressSizeOverride) + rest)) ==
            ScanRun(NO_EXTENSIONS, instruction.addressSizeOverride, rest)
  {
    var sized := AddressSizeOverrideBytes(instruction.addressSizeOverride);
    EncodedBytesOfPrefixes(instruction.segmentOverride, NoLockOrRep);
    ScanOther(NO_EXTENSIONS, false, SegmentOverrideBytes(instruction.segmentOverride), sized + rest);
    ScanOther(NO_EXTENSIONS, false, sized, rest);
  }

  lemma ScanLegacy(legacy: LegacyFields, addressSizeOverride: bool, rest: seq<bv8>)
    requires rest != [] && !IsPrefixByte(rest[0])
    ensures ScanRun(NO_EXTENSIONS, addressSizeOverride, LegacyPrefixBytes(legacy) + rest) ==
            Prefixes(if !legacy.lockOrRep.NoLockOrRep? || legacy.operandSizeOverride then NO_EXTENSIONS
                     else ExtensionsOfRex(legacy.GetRex()),
                     addressSizeOverride, rest)
  {
    var sized := OperandSizeOverrideBytes(legacy.operandSizeOverride);
    var locked := LockOrRepBytes(legacy.lockOrRep);
    var rex := legacy.GetRex();
    var extensions := if RexIsNeeded(rex) then ExtensionsOfRex(rex) else NO_EXTENSIONS;
    assert LegacyPrefixBytes(legacy) + rest == RexBytes(rex) + (locked + (sized + rest));
    EncodedBytesOfPrefixes(NoSegmentOverride, legacy.lockOrRep);
    ScanRex(NO_EXTENSIONS, addressSizeOverride, rex, locked + (sized + rest));
    ScanOther(extensions, addressSizeOverride, locked, sized + rest);
    ScanOther(if locked == [] then extensions else NO_EXTENSIONS, addressSizeOverride, sized, rest);
  }

  lemma ScanStopsAtVex(specification: VexPrefixSpecification, vex: VexFields, addressSizeOverride: bool, rest: seq<bv8>)
    ensures var bytes := VexPrefixBytes(specification, vex) + rest;
            ScanRun(NO_EXTENSIONS, addressSizeOverride, bytes) == Prefixes(NO_EXTENSIONS, addressSizeOverride, bytes) &&
            IsVexPrefixByte(bytes[0])
  {
  }

  lemma VexIsRead(specification: VexPrefixSpecification, vex: VexFields, rest: seq<bv8>)
    requires IsOpcodeMap(vex.mapSelect)
    ensures match ReadVexPrefix(DEFAULT_INSTRUCTION, VexPrefixBytes(specification, vex) + rest)
            case Success((read, left)) => left == rest && ExtensionsOf(read.prefix) == ExtensionsOf(Vex(vex))
            case Failure(_) => false
  {
    VexPrefixRoundTrip(specification, vex, DEFAULT_INSTRUCTION, rest);
  }

  // What follows the segment and address-size overrides.
  function SchemePrefixes(addressSizeOverride: bool, bytes: seq<bv8>): Prefixes {
    TakeVex(ScanRun(NO_EXTENSIONS, addressSizeOverride, bytes))
  }

  lemma {:induction false} LegacySchemeIsRead(
    specification: EncodingSpecification, instruction: DecodedInstruction, rest: seq<bv8>
  )
    requires specification.prefix.LegacySpecification? && (instruction.prefix.Legacy? || instruction.prefix.NoPrefix?)
    requires rest != [] && !IsPrefixByte(rest[0])
    ensures SchemePrefixes(instruction.addressSizeOverride, EncodingSchemeBytes(specification, instruction) + rest) ==
            Prefixes(EffectiveExtensions(specification, instruction), instruction.addressSizeOverride, rest)
  {
    ScanLegacy(instruction.GetLegacyPrefixes(), instruction.addressSizeOverride, rest);
  }

  lemma {:induction false} VexSchemeIsRead(
    specification: EncodingSpecification, instruction: DecodedInstruction, rest: seq<bv8>
  )
    requires specification.prefix.VexSpecification? && instruction.prefix.Vex?
    requires IsOpcodeMap(instruction.prefix.vex.mapSelect)
    ensures SchemePrefixes(instruction.addressSizeOverride, EncodingSchemeBytes(specification, instruction) + rest) ==
            Prefixes(EffectiveExtensions(specification, instruction), instruction.addressSizeOverride, rest)
  {
    ScanStopsAtVex(specification.prefix.vex, instruction.prefix.vex, instruction.addressSizeOverride, rest);
    VexIsRead(specification.prefix.vex, instruction.prefix.vex, rest);
  }

  // The processor takes the extension bits of the instruction, unless LOCK, REP or
  // an operand-size override stands between REX and the opcode.
  lemma {:induction false} ProcessorReadsPrefixes(
    specification: EncodingSpecification, instruction: DecodedInstruction, rest: seq<bv8>
  )
    requires IsEncodable(specification, instruction) && !instruction.prefix.Evex?
    ensures PrefixesOf(EncodedBytes(specification, instruction) + rest) ==
            Prefixes(EffectiveExtensions(specification, instruction), instruction.addressSizeOverride,
                     OpcodeBytes(specification, instruction) + AfterOpcode(specification, instruction, rest))
    ensures PrefixesOf(EncodedBytes(specification, instruction) + rest).extensions == ExtensionsOf(instruction.prefix)
            <==> !RexIsIgnored(specification, instruction) || ExtensionsOf(instruction.prefix) == NO_EXTENSIONS
  {
    var opcode := OpcodeBytes(specification, instruction) + AfterOpcode(specification, instruction, rest);
    EncodedBytesInOrder(specification, instruction, rest);
    OverridesAreRead(instruction, EncodingSchemeBytes(specification, instruction), opcode);
    OpcodeStartsBytes(specification, instruction, AfterOpcode(specification, instruction, rest));
    SchemeIsRead(specification, instruction, opcode);
  }

  lemma OverridesAreRead(instruction: DecodedInstruction, scheme: seq<bv8>, rest: seq<bv8>)
    ensures PrefixesOf(SegmentOverrideBytes(instruction.segmentOverride) +
                       AddressSizeOverrideBytes(instruction.addressSizeOverride) + scheme + rest) ==
            SchemePrefixes(instruction.addressSizeOverride, scheme + rest)
  {
    var segment := SegmentOverrideBytes(instruction.segmentOverride);
    var sized := AddressSizeOverrideBytes(instruction.addressSizeOverride);
    assert segment + sized + scheme + rest == segment + (sized + (scheme + rest));
    ScanOverrides(instruction, scheme + rest);
  }

  lemma {:induction false} SchemeIsRead(
    specification: EncodingSpecification, instruction: DecodedInstruction, rest: seq<bv8>
  )
    requires IsEncodable(specification, instruction) && !instruction.prefix.Evex?
    requires specification.prefix.LegacySpecification? ==> rest != [] && !IsPrefixByte(rest[0])
    ensures SchemePrefixes(instruction.addressSizeOverride, EncodingSchemeBytes(specification, instruction) + rest) ==
            Prefixes(EffectiveExtensions(specification, instruction), instruction.addressSizeOverride, rest)
  {
    if specification.prefix.LegacySpecification? {
      LegacySchemeIsRead(specification, instruction, rest);
    } else {
      VexMapIsOpcodeMap(specification.prefix.vex, instruction);
      VexSchemeIsRead(specification, instruction, rest);
    }
  }

  // POPCNT with 64-bit operands.
  const COUNT_SPECIFICATION: EncodingSpecification :=
    EncodingSpecification(
      Opcode(0, 0, 0x0f, 0xb8), NoOperandInOpcode, FullModRm, 0,
      LegacySpecification(LegacyPrefixSpecification(PrefixIsRequired, true, false, PrefixIsNotPermitted, false)), [], 0)

  const COUNT: DecodedInstruction :=
    DEFAULT_INSTRUCTION.(
      prefix := Legacy(LegacyFields(Some(Rex(false, false, true, false)), RepPrefix, false)),
      optionalModRm := Some(ModRm(Direct, 0, 0, 0)))

  // Its mandatory prefix F3 stands behind REX.W: the processor counts in 32 bits.
  lemma {:induction false} WideCountIsNotRead(rest: seq<bv8>)
    ensures IsEncodable(COUNT_SPECIFICATION, COUNT) && ExtensionsOf(COUNT.prefix).w
    ensures EncodedBytes(COUNT_SPECIFICATION, COUNT) == [0x48, 0xf3, 0x0f, 0xb8, 0xc0]
    ensures !PrefixesOf(EncodedBytes(COUNT_SPECIFICATION, COUNT) + rest).extensions.w
  {
    assert OpcodeBytes(COUNT_SPECIFICATION, COUNT) == [0x0f, 0xb8];
    ProcessorReadsPrefixes(COUNT_SPECIFICATION, COUNT, rest);
  }
}
