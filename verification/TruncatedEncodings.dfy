// How many bytes each phase of the parser takes, and that it rejects every encoding
// that is cut short.
module TruncatedEncodings {
  import opened Sequences
  import opened Wrappers
  import opened Opcodes
  import opened X86Protos
  import opened InstructionEncoding
  import opened InstructionEncoder
  import opened Architecture
  import opened InstructionParser
  import opened RoundTripPrefixes
  import opened RoundTripOpcode
  import opened RoundTripOperands
  import opened RoundTrip
  import opened UniqueDecoding
  import opened DatabaseEntries
  import opened PrefixRuns
  import opened OperandMatching

  // ---- The operand in modrm.rm ----------------------------------------------

  // The ModR/M byte, a SIB byte unless it is a register or modrm.rm is not 4, and the
  // displacement.
  function AddressingLength(bytes: seq<bv8>): nat {
    if bytes == [] then 1
    else if Mod(bytes) == 3 then 1
    else
      (if Rm(bytes) == 4 then 2 else 1) +
      (if Mod(bytes) == 1 then 1
       else if Mod(bytes) == 2 then 4
       else if Rm(bytes) == 5 || (Rm(bytes) == 4 && |bytes| >= 2 && SibBase(bytes) == 5) then 4
       else 0)
  }

  // Reading an address takes exactly these bytes, and fails exactly if there are fewer.
  lemma {:induction false} AddressingTakes(bytes: seq<bv8>)
    ensures match ReadAddressing(bytes)
            case Success((_, _, rest)) => AddressingLength(bytes) <= |bytes| && rest == bytes[AddressingLength(bytes)..]
            case Failure(error) => error == InvalidArgument && |bytes| < AddressingLength(bytes)
  {
    if bytes != [] {
      var modrm := ModRmOf(bytes[0], 0);
      ModRmFields(bytes[0], 0);
      HighBitsAreTwo(bytes[0]);
      if HasSib(modrm) && |bytes| >= 2 {
        SibFields(bytes[1]);
      }
    }
  }

  // ---- Immediate values, code offset and suffix -----------------------------

  function SumOf(sizes: seq<nat>): nat {
    if sizes == [] then 0 else sizes[0] + SumOf(sizes[1..])
  }

  function OperandsLength(specification: EncodingSpecification): nat {
    SumOf(specification.immediateValueBytes) + specification.codeOffsetBytes +
    (if specification.prefix.VexSpecification? && specification.prefix.vex.hasVexOperandSuffix then 1 else 0)
  }

  // The values have their sizes and are the bytes in their order.
  lemma {:induction false} ValuesTake(sizes: seq<nat>, bytes: seq<bv8>)
    ensures match ReadValues(sizes, bytes)
            case Success((values, rest)) =>
              && SumOf(sizes) <= |bytes| && rest == bytes[SumOf(sizes)..]
              && Flatten(values) == bytes[..SumOf(sizes)]
              && |values| == |sizes| && forall i :: 0 <= i < |sizes| ==> |values[i]| == sizes[i]
            case Failure(error) => error == InvalidArgument && |bytes| < SumOf(sizes)
    decreases |sizes|
  {
    if sizes != [] && sizes[0] <= |bytes| {
      ValuesTake(sizes[1..], bytes[sizes[0]..]);
      var others := ReadValues(sizes[1..], bytes[sizes[0]..]);
      if others.Success? {
        var values := [bytes[..sizes[0]]] + others.value.0;
        assert values[1..] == others.value.0;
        assert bytes[..SumOf(sizes)] == bytes[..sizes[0]] + bytes[sizes[0]..][..SumOf(sizes[1..])];
      }
    }
  }

  lemma {:induction false} OperandsTake(
    specification: EncodingSpecification, instruction: DecodedInstruction, bytes: seq<bv8>
  )
    ensures match ReadOperands(specification, instruction, bytes)
            case Success((_, rest)) =>
              OperandsLength(specification) <= |bytes| && rest == bytes[OperandsLength(specification)..]
            case Failure(error) => error == InvalidArgument && |bytes| < OperandsLength(specification)
  {
    ValuesTake(specification.immediateValueBytes, bytes);
  }

  // ---- The end is in the prefixes -------------------------------------------

  function One(specification: EncodingSpecification): Database {
    OneInstruction(specification)
  }

  lemma FailedPrefixesFail(db: Database, bytes: seq<bv8>)
    requires IsWellFormedDatabase(db) && ReadPrefixes(DEFAULT_INSTRUCTION, bytes).Failure?
    ensures ReadInstruction(db, bytes).Failure?
  {
  }

  lemma FrontOfRun(run: seq<bv8>, n: nat)
    requires IsRun(run) && n <= |run|
    ensures IsRun(run[..n])
  {
  }

  lemma {:induction false} LegacyPrefixesCutShort(
    specification: EncodingSpecification, instruction: DecodedInstruction, n: nat
  )
    requires specification.prefix.LegacySpecification? && n <= |PrefixBytes(specification, instruction)|
    ensures ReadPrefixes(DEFAULT_INSTRUCTION, PrefixBytes(specification, instruction)[..n]).Failure?
  {
    ConventionalIsPermutation(specification, instruction);
    FrontOfRun(PrefixBytes(specification, instruction), n);
    PrefixesNeedOpcode(DEFAULT_INSTRUCTION, PrefixBytes(specification, instruction)[..n]);
  }

  // A VEX or EVEX prefix that has lost its end.
  lemma {:induction false} EscapeCutShort(decoded: DecodedInstruction, escape: seq<bv8>)
    requires escape != []
    requires || (escape[0] == 0xc4 && |escape| < 3) || (escape[0] == 0xc5 && |escape| < 2)
             || (escape[0] == 0x62 && |escape| < 4)
    ensures ReadPrefixes(decoded, escape).Failure?
  {
  }

  predicate IsEscape(bytes: seq<bv8>) {
    || (|bytes| == 3 && bytes[0] == 0xc4) || (|bytes| == 2 && bytes[0] == 0xc5) || (|bytes| == 4 && bytes[0] == 0x62)
  }

  lemma {:induction false} SchemeIsEscape(specification: EncodingSpecification, instruction: DecodedInstruction)
    requires IsEncodable(specification, instruction) && specification.prefix.VexSpecification?
    ensures IsEscape(EncodingSchemeBytes(specification, instruction))
  {
    assert ValidatePrefix(specification, instruction).Ok?;
  }

  lemma {:induction false} OverridesBeforeEscape(instruction: DecodedInstruction, escape: seq<bv8>)
    requires escape != [] && escape[0] in {0x62, 0xc4, 0xc5}
    ensures ReadPrefixes(DEFAULT_INSTRUCTION, OverrideBytes(instruction) + escape) ==
            ReadPrefixes(WithOverrides(instruction), escape)
  {
    EscapeStopsOverrides(DEFAULT_INSTRUCTION, escape);
    EscapeStopsOverrides(WithOverrides(instruction), escape);
    SkipEncodedOverrides(instruction, escape);
    Associate(SegmentOverrideBytes(instruction.segmentOverride),
              AddressSizeOverrideBytes(instruction.addressSizeOverride), escape);
  }

  lemma EscapeStopsOverrides(decoded: DecodedInstruction, escape: seq<bv8>)
    requires escape != [] && escape[0] in {0x62, 0xc4, 0xc5}
    ensures StopsOverrides(escape) && SkipOverrides(decoded, escape) == (decoded, escape)
  {
  }

  lemma {:induction false} VexPrefixesCutShort(
    specification: EncodingSpecification, instruction: DecodedInstruction, n: nat
  )
    requires IsEncodable(specification, instruction) && specification.prefix.VexSpecification?
    requires n < |PrefixBytes(specification, instruction)|
    ensures ReadPrefixes(DEFAULT_INSTRUCTION, PrefixBytes(specification, instruction)[..n]).Failure?
  {
    var overrides, escape := OverrideBytes(instruction), EncodingSchemeBytes(specification, instruction);
    SchemeIsEscape(specification, instruction);
    PartsOfRun(instruction);
    assert PrefixBytes(specification, instruction) == overrides + escape;
    if n <= |overrides| {
      assert (overrides + escape)[..n] == overrides[..n];
      FrontOfRun(overrides, n);
      PrefixesNeedOpcode(DEFAULT_INSTRUCTION, overrides[..n]);
    } else {
      var front := escape[..n - |overrides|];
      assert (overrides + escape)[..n] == overrides + front;
      OverridesBeforeEscape(instruction, front);
      EscapeCutShort(WithOverrides(instruction), front);
    }
  }

  // The whole prefix, and no opcode.
  lemma {:induction false} OpcodeIsMissing(specification: EncodingSpecification, instruction: DecodedInstruction)
    requires IsEncodable(specification, instruction) && IsReadable(specification)
    requires specification.prefix.VexSpecification?
    ensures IsWellFormedDatabase(One(specification))
    ensures ReadInstruction(One(specification), PrefixBytes(specification, instruction)).Failure?
  {
    OneInstructionIsWellFormed(specification, instruction);
    PrefixesRoundTrip(specification, instruction, []);
    assert PrefixBytes(specification, instruction) + [] == PrefixBytes(specification, instruction);
    PrefixesComeFirst(One(specification), PrefixBytes(specification, instruction));
  }

  lemma {:induction false} PrefixesCutShort(specification: EncodingSpecification, instruction: DecodedInstruction, n: nat)
    requires IsEncodable(specification, instruction) && IsReadable(specification)
    requires n <= |PrefixBytes(specification, instruction)|
    ensures IsWellFormedDatabase(One(specification))
    ensures ReadInstruction(One(specification), PrefixBytes(specification, instruction)[..n]).Failure?
  {
    OneInstructionIsWellFormed(specification, instruction);
    var bytes := PrefixBytes(specification, instruction);
    if specification.prefix.LegacySpecification? {
      LegacyPrefixesCutShort(specification, instruction, n);
      FailedPrefixesFail(One(specification), bytes[..n]);
    } else if n < |bytes| {
      VexPrefixesCutShort(specification, instruction, n);
      FailedPrefixesFail(One(specification), bytes[..n]);
    } else {
      assert bytes[..n] == bytes;
      OpcodeIsMissing(specification, instruction);
    }
  }

  // ---- The end is in the operands -------------------------------------------

  // The prefixes and the opcode are read, whatever follows them.
  lemma {:induction false} OpcodeIsReadBefore(
    specification: EncodingSpecification, instruction: DecodedInstruction, tail: seq<bv8>
  )
    requires IsEncodable(specification, instruction) && IsReadable(specification)
    ensures IsWellFormedDatabase(One(specification))
    ensures ReadInstruction(One(specification),
                            PrefixBytes(specification, instruction) + (OpcodeBytes(specification, instruction) + tail)) ==
            ReadAfterOpcode(One(specification), WithOpcode(specification, instruction), tail)
  {
    var db := One(specification);
    var withPrefixes := WithPrefixes(specification, instruction);
    OneInstructionIsWellFormed(specification, instruction);
    OpcodeStartsBytes(specification, instruction, tail);
    PrefixesRoundTrip(specification, instruction, OpcodeBytes(specification, instruction) + tail);
    PrefixesComeFirst(db, PrefixBytes(specification, instruction) + (OpcodeBytes(specification, instruction) + tail));
    OpcodeOfOne(specification, instruction, tail);
  }

  lemma {:induction false} OpcodeOfOne(
    specification: EncodingSpecification, instruction: DecodedInstruction, tail: seq<bv8>
  )
    requires IsEncodable(specification, instruction) && IsReadable(specification)
    ensures IsWellFormedDatabase(One(specification))
    ensures ReadOpcode(IsListed(One(specification), WithPrefixes(specification, instruction)),
                       IsOpcodePrefix(One(specification)), WithPrefixes(specification, instruction),
                       OpcodeBytes(specification, instruction) + tail) ==
            Success((WithOpcode(specification, instruction), tail))
  {
    var db, withPrefixes := One(specification), WithPrefixes(specification, instruction);
    OneInstructionIsWellFormed(specification, instruction);
    if specification.prefix.VexSpecification? {
      assert ValidatePrefix(specification, instruction).Ok?;
      MappedOpcodeRoundTrip(IsListed(db, withPrefixes), IsOpcodePrefix(db), withPrefixes,
                            specification.prefix.vex.mapSelect, RawOpcode(specification, instruction), tail);
    } else {
      ListedInOne(specification, instruction);
      NothingFollowsNoPrefix(IsListed(db, withPrefixes), IsOpcodePrefix(db), ParsedOpcode(specification, instruction), tail);
      LegacyOpcodeRoundTrip(IsListed(db, withPrefixes), IsOpcodePrefix(db), withPrefixes,
                            RawOpcode(specification, instruction), tail);
    }
  }

  lemma {:induction false} ListedInOne(specification: EncodingSpecification, instruction: DecodedInstruction)
    requires IsEncodable(specification, instruction) && IsReadable(specification)
    requires IsWellFormedDatabase(One(specification)) && !specification.prefix.VexSpecification?
    ensures var db, opcode := One(specification), ParsedOpcode(specification, instruction);
            && IsListed(db, WithPrefixes(specification, instruction))(opcode) && !IsOpcodePrefix(db)(opcode)
            && forall prefix :: prefix in ProperOpcodePrefixes(opcode) ==> IsOpcodePrefix(db)(prefix)
  {
    var db, opcode := One(specification), ParsedOpcode(specification, instruction);
    ParsedOpcodeMatches(specification, instruction);
    ParsedPrefixMatches(specification, instruction);
    LookupInOne(specification, WithOpcode(specification, instruction), false);
    assert forall prefix :: IsOpcodePrefix(db)(prefix) <==> prefix in LegacyPrefixesOf(db, 0);
    NotItsOwnPrefix(opcode);
  }

  lemma FrontIsTooShort(front: seq<bv8>, bytes: seq<bv8>)
    requires front <= bytes && |front| < AddressingLength(bytes)
    ensures |front| < AddressingLength(front)
  {
  }

  // A proper front of the bytes of an address is not an address.
  lemma {:induction false} AddressCutShort(modrm: ModRm, sib: Sib, n: nat)
    requires EscapesAreInRange(modrm, sib) && n < |AddressingBytes(modrm, sib)|
    ensures ReadAddressing(AddressingBytes(modrm, sib)[..n]).Failure?
  {
    var bytes := AddressingBytes(modrm, sib);
    AddressingRoundTrip(modrm, sib, []);
    assert bytes + [] == bytes;
    AddressingTakes(bytes);
    AddressingTakes(bytes[..n]);
    FrontIsTooShort(bytes[..n], bytes);
  }

  lemma {:induction false} OperandsCutShort(
    specification: EncodingSpecification, instruction: DecodedInstruction, decoded: DecodedInstruction, bytes: seq<bv8>
  )
    requires ValidateImmediateValues(specification, instruction).Ok?
    requires |bytes| < |ImmediateBytes(instruction)| + |VexSuffixBytes(specification, instruction)|
    ensures ReadOperands(specification, decoded, bytes).Failure?
  {
    OperandsTake(specification, decoded, bytes);
    FlattenedLength(instruction.immediateValue, specification.immediateValueBytes);
  }

  lemma {:induction false} FlattenedLength(values: seq<seq<bv8>>, sizes: seq<nat>)
    requires |values| == |sizes| && forall i :: 0 <= i < |sizes| ==> |values[i]| == sizes[i]
    ensures |Flatten(values)| == SumOf(sizes)
  {
    if sizes != [] {
      FlattenedLength(values[1..], sizes[1..]);
    }
  }

  // The bytes after the opcode, cut short in the address.
  lemma {:induction false} TailCutInAddress(
    specification: EncodingSpecification, instruction: DecodedInstruction, n: nat
  )
    requires IsEncodable(specification, instruction) && IsReadable(specification)
    requires AddressingSurvives(specification, instruction) && n < |ModRmBytes(specification, instruction)|
    ensures IsWellFormedDatabase(One(specification))
    ensures ReadAfterOpcode(One(specification), WithOpcode(specification, instruction),
                            ModRmBytes(specification, instruction)[..n]).Failure?
  {
    OneInstructionIsWellFormed(specification, instruction);
    LayoutIsFoundInOne(specification, instruction);
    FoundInOne(specification, WithOpcode(specification, instruction), false);
    AddressCutShort(instruction.GetModRm(), instruction.GetSib(), n);
  }

  lemma {:induction false} TailCutInOperands(
    specification: EncodingSpecification, instruction: DecodedInstruction, front: seq<bv8>
  )
    requires IsEncodable(specification, instruction) && IsReadable(specification)
    requires AddressingSurvives(specification, instruction)
    requires |front| < |ImmediateBytes(instruction)| + |VexSuffixBytes(specification, instruction)|
    ensures IsWellFormedDatabase(One(specification))
    ensures ReadAfterOpcode(One(specification), WithOpcode(specification, instruction),
                            ModRmBytes(specification, instruction) + front).Failure?
  {
    var withOpcode := WithOpcode(specification, instruction);
    var withModRm := WithAddressing(specification, instruction, withOpcode);
    OneInstructionIsWellFormed(specification, instruction);
    LayoutIsFoundInOne(specification, instruction);
    FoundInOne(specification, withOpcode, false);
    FoundInOne(specification, withModRm, true);
    ModRmRoundTrip(specification, specification, instruction, withOpcode, front);
    assert ValidateImmediateValues(specification, instruction).Ok?;
    OperandsCutShort(specification, instruction, withModRm, front);
  }

  lemma {:induction false} TailCutShort(
    specification: EncodingSpecification, instruction: DecodedInstruction, n: nat
  )
    requires IsEncodable(specification, instruction) && IsReadable(specification)
    requires AddressingSurvives(specification, instruction)
    requires n < |AfterOpcode(specification, instruction, [])|
    ensures IsWellFormedDatabase(One(specification))
    ensures ReadAfterOpcode(One(specification), WithOpcode(specification, instruction),
                            AfterOpcode(specification, instruction, [])[..n]).Failure?
  {
    var modrm, others := ModRmBytes(specification, instruction), AfterModRm(specification, instruction, []);
    OneInstructionIsWellFormed(specification, instruction);
    TailInOrder(specification, instruction);
    if n < |modrm| {
      assert (modrm + others)[..n] == modrm[..n];
      TailCutInAddress(specification, instruction, n);
    } else {
      assert (modrm + others)[..n] == modrm + others[..n - |modrm|];
      TailCutInOperands(specification, instruction, others[..n - |modrm|]);
    }
  }

  lemma TailInOrder(specification: EncodingSpecification, instruction: DecodedInstruction)
    ensures AfterOpcode(specification, instruction, []) ==
            ModRmBytes(specification, instruction) + AfterModRm(specification, instruction, [])
    ensures |AfterModRm(specification, instruction, [])| ==
            |ImmediateBytes(instruction)| + |VexSuffixBytes(specification, instruction)|
  {
  }

  // ---- The end is in the opcode ---------------------------------------------

  // A part of the opcode is not listed: it has fewer bytes than the opcode of the
  // specification.
  lemma ShortOpcodeDiffers(specification: EncodingSpecification, opcode: Opcode, short: Opcode)
    requires opcode.DropLastByte() == specification.opcode.DropLastByte()
    requires short in ProperOpcodePrefixes(opcode)
    ensures !OpcodeMatchesSpecification(specification, short)
  {
  }

  lemma {:induction false} ShortOpcodeIsNotFound(
    specification: EncodingSpecification, decoded: DecodedInstruction, opcode: Opcode
  )
    requires IsWellFormedDatabase(One(specification))
    requires opcode.DropLastByte() == specification.opcode.DropLastByte()
    requires decoded.opcode in ProperOpcodePrefixes(opcode)
    ensures FindSpecification(One(specification), decoded, false).None?
  {
    ShortOpcodeDiffers(specification, opcode, decoded.opcode);
    SearchFindsMatch(One(specification), decoded, false);
  }

  // Bytes whose extensions are all proper prefixes of the opcode leave the first one.
  lemma {:induction false} NothingIsListed(
    isListed: Opcode -> bool, isPrefix: Opcode -> bool, found: Opcode, afterFound: seq<bv8>, extended: Opcode,
    bytes: seq<bv8>, opcode: Opcode
  )
    requires forall short :: short in ProperOpcodePrefixes(opcode) ==> !isListed(short)
    requires AllPrefixes(extended, bytes, opcode)
    ensures ExtendOpcode(isListed, isPrefix, found, afterFound, extended, bytes) == (found, afterFound)
    decreases |bytes|
  {
    if bytes != [] && isPrefix(extended) {
      NothingIsListed(isListed, isPrefix, found, afterFound, extended.AppendByte(bytes[0]), bytes[1..], opcode);
    }
  }

  predicate AllPrefixes(extended: Opcode, bytes: seq<bv8>, opcode: Opcode)
    decreases |bytes|
  {
    bytes == [] ||
    (extended.AppendByte(bytes[0]) in ProperOpcodePrefixes(opcode) &&
     AllPrefixes(extended.AppendByte(bytes[0]), bytes[1..], opcode))
  }

  lemma {:induction false} FrontsArePrefixes(opcode: Opcode, m: nat)
    requires 0 < m < |opcode.Bytes()|
    ensures OneByte(opcode.Bytes()[0]) in ProperOpcodePrefixes(opcode)
    ensures AllPrefixes(OneByte(opcode.Bytes()[0]), opcode.Bytes()[1..m], opcode)
  {
    var bytes := opcode.Bytes();
    var first := OneByte(bytes[0]);
    if m > 1 {
      var second := first.AppendByte(bytes[1]);
      assert bytes[1..m][0] == bytes[1] && bytes[1..m][1..] == bytes[2..m];
      if m > 2 {
        assert bytes[2..m][0] == bytes[2] && bytes[2..m][1..] == bytes[3..m] == [];
      }
    }
  }

  lemma {:induction false} OpcodeCutShort(specification: EncodingSpecification, instruction: DecodedInstruction, m: nat)
    requires IsEncodable(specification, instruction) && IsReadable(specification)
    requires 0 < m < |OpcodeBytes(specification, instruction)|
    ensures IsWellFormedDatabase(One(specification))
    ensures ReadInstruction(One(specification),
                            PrefixBytes(specification, instruction) + OpcodeBytes(specification, instruction)[..m])
            .Failure?
  {
    var db, withPrefixes := One(specification), WithPrefixes(specification, instruction);
    var opcode := ParsedOpcode(specification, instruction);
    var front := OpcodeBytes(specification, instruction)[..m];
    OneInstructionIsWellFormed(specification, instruction);
    assert !specification.prefix.VexSpecification? && OpcodeBytes(specification, instruction) == opcode.Bytes();
    PrefixesRoundTrip(specification, instruction, front);
    PrefixesComeFirst(db, PrefixBytes(specification, instruction) + front);
    ShortOpcodeIsRead(specification, instruction, m);
    FrontsArePrefixes(opcode, m);
    ParsedOpcodeMatches(specification, instruction);
    ShortOpcodeIsNotFound(specification, withPrefixes.(opcode := OneByte(front[0])), opcode);
  }

  lemma {:induction false} ShortOpcodesAreNotListed(
    specification: EncodingSpecification, instruction: DecodedInstruction
  )
    requires IsEncodable(specification, instruction) && IsReadable(specification)
    requires IsWellFormedDatabase(One(specification)) && !specification.prefix.VexSpecification?
    ensures forall short :: short in ProperOpcodePrefixes(ParsedOpcode(specification, instruction)) ==>
              !IsListed(One(specification), WithPrefixes(specification, instruction))(short)
  {
    var opcode := ParsedOpcode(specification, instruction);
    ParsedOpcodeMatches(specification, instruction);
    forall short | short in ProperOpcodePrefixes(opcode)
      ensures !IsListed(One(specification), WithPrefixes(specification, instruction))(short)
    {
      ShortOpcodeIsNotFound(specification, WithPrefixes(specification, instruction).(opcode := short), opcode);
    }
  }

  lemma {:induction false} ShortOpcodeIsRead(
    specification: EncodingSpecification, instruction: DecodedInstruction, m: nat
  )
    requires IsEncodable(specification, instruction) && IsReadable(specification)
    requires IsWellFormedDatabase(One(specification)) && !specification.prefix.VexSpecification?
    requires 0 < m < |ParsedOpcode(specification, instruction).Bytes()|
    ensures var withPrefixes := WithPrefixes(specification, instruction);
            var front := ParsedOpcode(specification, instruction).Bytes()[..m];
            ReadOpcode(IsListed(One(specification), withPrefixes), IsOpcodePrefix(One(specification)), withPrefixes, front) ==
            Success((withPrefixes.(opcode := OneByte(front[0])), front[1..]))
  {
    var db, withPrefixes := One(specification), WithPrefixes(specification, instruction);
    var opcode := ParsedOpcode(specification, instruction);
    var front := opcode.Bytes()[..m];
    ShortOpcodesAreNotListed(specification, instruction);
    FrontsArePrefixes(opcode, m);
    assert front[1..] == opcode.Bytes()[1..m];
    NothingIsListed(IsListed(db, withPrefixes), IsOpcodePrefix(db), OneByte(front[0]), front[1..], OneByte(front[0]),
                    front[1..], opcode);
  }

  // ---- Every encoding that is cut short -------------------------------------

  // The first n bytes of an encoding.
  function CutBytes(specification: EncodingSpecification, instruction: DecodedInstruction, n: nat): seq<bv8> {
    var prefixes, opcode := PrefixBytes(specification, instruction), OpcodeBytes(specification, instruction);
    var tail := AfterOpcode(specification, instruction, []);
    if n <= |prefixes| then prefixes[..n]
    else if n < |prefixes| + |opcode| then prefixes + opcode[..n - |prefixes|]
    else if n < |prefixes| + |opcode| + |tail| then prefixes + (opcode + tail[..n - |prefixes| - |opcode|])
    else prefixes + (opcode + tail)
  }

  lemma {:induction false} CutInOrder(specification: EncodingSpecification, instruction: DecodedInstruction, n: nat)
    requires n < |EncodedBytes(specification, instruction)|
    ensures EncodedBytes(specification, instruction)[..n] == CutBytes(specification, instruction, n)
    ensures n < |PrefixBytes(specification, instruction)| + |OpcodeBytes(specification, instruction)| +
                |AfterOpcode(specification, instruction, [])|
  {
    EncodedInOrder(specification, instruction);
    FrontOfThree(PrefixBytes(specification, instruction), OpcodeBytes(specification, instruction),
                 AfterOpcode(specification, instruction, []), n);
  }

  predicate IsRejected(specification: EncodingSpecification, bytes: seq<bv8>) {
    IsWellFormedDatabase(One(specification)) && ReadInstruction(One(specification), bytes).Failure?
  }

  lemma {:induction false} CutInPrefixes(specification: EncodingSpecification, instruction: DecodedInstruction, n: nat)
    requires IsEncodable(specification, instruction) && IsReadable(specification)
    requires n <= |PrefixBytes(specification, instruction)|
    ensures IsRejected(specification, CutBytes(specification, instruction, n))
  {
    PrefixesCutShort(specification, instruction, n);
  }

  lemma {:induction false} CutInOpcode(
    specification: EncodingSpecification, instruction: DecodedInstruction, n: nat, k: nat
  )
    requires IsEncodable(specification, instruction) && IsReadable(specification)
    requires n == |PrefixBytes(specification, instruction)| + k
    requires 0 < k < |OpcodeBytes(specification, instruction)|
    ensures IsRejected(specification, CutBytes(specification, instruction, n))
  {
    CutAfterPrefixes(specification, instruction, n, k);
    OpcodeCutShort(specification, instruction, k);
  }

  lemma CutAfterPrefixes(specification: EncodingSpecification, instruction: DecodedInstruction, n: nat, k: nat)
    requires n == |PrefixBytes(specification, instruction)| + k
    requires 0 < k < |OpcodeBytes(specification, instruction)|
    ensures CutBytes(specification, instruction, n) ==
            PrefixBytes(specification, instruction) + OpcodeBytes(specification, instruction)[..k]
  {
  }

  lemma {:induction false} CutInOperands(
    specification: EncodingSpecification, instruction: DecodedInstruction, n: nat, k: nat
  )
    requires IsEncodable(specification, instruction) && IsReadable(specification)
    requires AddressingSurvives(specification, instruction)
    requires n == |PrefixBytes(specification, instruction)| + |OpcodeBytes(specification, instruction)| + k
    requires k < |AfterOpcode(specification, instruction, [])| && OpcodeBytes(specification, instruction) != []
    ensures IsRejected(specification, CutBytes(specification, instruction, n))
  {
    OperandsAreCutShort(specification, instruction, k);
  }

  // The parser accepts an encoding only when all of it is there.
  lemma {:induction false} TruncationIsRejected(
    specification: EncodingSpecification, instruction: DecodedInstruction, n: nat
  )
    requires IsEncodable(specification, instruction) && IsReadable(specification)
    requires AddressingSurvives(specification, instruction) && n < |EncodedBytes(specification, instruction)|
    ensures IsRejected(specification, EncodedBytes(specification, instruction)[..n])
  {
    var opcode := |PrefixBytes(specification, instruction)|;
    var operands := opcode + |OpcodeBytes(specification, instruction)|;
    CutInOrder(specification, instruction, n);
    if n <= opcode {
      CutInPrefixes(specification, instruction, n);
    } else if n < operands {
      CutInOpcode(specification, instruction, n, n - opcode);
    } else {
      CutInOperands(specification, instruction, n, n - operands);
    }
  }

  lemma EncodedInOrder(specification: EncodingSpecification, instruction: DecodedInstruction)
    ensures EncodedBytes(specification, instruction) ==
            PrefixBytes(specification, instruction) +
            (OpcodeBytes(specification, instruction) + AfterOpcode(specification, instruction, []))
  {
    EncodedBytesInOrder(specification, instruction, []);
    assert EncodedBytes(specification, instruction) + [] == EncodedBytes(specification, instruction);
  }

  lemma {:induction false} OperandsAreCutShort(
    specification: EncodingSpecification, instruction: DecodedInstruction, n: nat
  )
    requires IsEncodable(specification, instruction) && IsReadable(specification)
    requires AddressingSurvives(specification, instruction) && n < |AfterOpcode(specification, instruction, [])|
    ensures IsWellFormedDatabase(One(specification))
    ensures ReadInstruction(One(specification),
                            PrefixBytes(specification, instruction) +
                            (OpcodeBytes(specification, instruction) + AfterOpcode(specification, instruction, [])[..n]))
            .Failure?
  {
    OpcodeIsReadBefore(specification, instruction, AfterOpcode(specification, instruction, [])[..n]);
    TailCutShort(specification, instruction, n);
  }

  lemma FrontOfThree<T>(a: seq<T>, b: seq<T>, c: seq<T>, n: nat)
    requires n <= |a| + |b| + |c|
    ensures (a + (b + c))[..n] ==
            if n <= |a| then a[..n]
            else if n <= |a| + |b| then a + b[..n - |a|]
            else a + (b + c[..n - |a| - |b|])
  {
  }

  // ---- Errors ---------------------------------------------------------------

  lemma {:induction false} PrefixErrors(decoded: DecodedInstruction, bytes: seq<bv8>)
    ensures match SkipLegacyPrefixes(decoded, bytes)
            case Failure(error) => error == InvalidArgument
            case Success((_, rest)) => rest != [] && !IsRunByte(rest[0])
    decreases |bytes|
  {
    if bytes != [] {
      ByteKinds(bytes[0]);
      match LegacyPrefixStep(decoded, bytes[0])
      case NotAPrefix =>
      case Step(result) =>
        if result.Success? {
          PrefixErrors(result.value, bytes[1..]);
        }
    }
  }

  lemma {:induction false} OpcodeErrors(
    isListed: Opcode -> bool, isPrefix: Opcode -> bool, decoded: DecodedInstruction, bytes: seq<bv8>
  )
    ensures match ReadOpcode(isListed, isPrefix, decoded, bytes)
            case Failure(error) => error == InvalidArgument
            case Success(_) => bytes != []
  {
  }

  predicate IsExpectedError(db: Database, progress: Progress)
    requires IsWellFormedDatabase(db)
  {
    match progress
    case Success(_) => true
    case Failure(error) => error == InvalidArgument || error == NotFound
  }

  lemma {:induction false} AllPrefixErrors(bytes: seq<bv8>)
    ensures match ReadPrefixes(DEFAULT_INSTRUCTION, bytes)
            case Failure(error) => error == InvalidArgument
            case Success(_) => bytes != []
  {
    var (next, rest) := SkipOverrides(DEFAULT_INSTRUCTION, bytes);
    PrefixErrors(next, rest);
  }

  lemma {:induction false} AfterPrefixesErrors(db: Database, decoded: DecodedInstruction, bytes: seq<bv8>)
    requires IsWellFormedDatabase(db)
    ensures IsExpectedError(db, ReadAfterPrefixes(db, decoded, bytes))
  {
    OpcodeErrors(IsListed(db, decoded), IsOpcodePrefix(db), decoded, bytes);
    var opcode := ReadOpcode(IsListed(db, decoded), IsOpcodePrefix(db), decoded, bytes);
    if opcode.Success? {
      OperandErrors(db, opcode.value.0, opcode.value.1);
    }
  }

  // Whatever the bytes are, a failed parse reports an invalid argument, or that no
  // instruction was found. There is no instruction of no bytes.
  lemma {:induction false} ParserErrors(db: Database, bytes: seq<bv8>)
    requires IsWellFormedDatabase(db)
    ensures IsExpectedError(db, ReadInstruction(db, bytes))
    ensures bytes == [] ==> ReadInstruction(db, bytes).Failure?
  {
    AllPrefixErrors(bytes);
    var prefixes := ReadPrefixes(DEFAULT_INSTRUCTION, bytes);
    if prefixes.Success? {
      PrefixesComeFirst(db, bytes);
      AfterPrefixesErrors(db, prefixes.value.0, prefixes.value.1);
    } else {
      FailedPrefixesGiveTheirError(db, bytes);
    }
  }

  lemma FailedPrefixesGiveTheirError(db: Database, bytes: seq<bv8>)
    requires IsWellFormedDatabase(db) && ReadPrefixes(DEFAULT_INSTRUCTION, bytes).Failure?
    ensures ReadInstruction(db, bytes) == Failure(ReadPrefixes(DEFAULT_INSTRUCTION, bytes).error)
  {
  }

  // Without an entry that matches the prefixes and the opcode no instruction is found.
  lemma {:induction false} OperandErrors(db: Database, decoded: DecodedInstruction, bytes: seq<bv8>)
    requires IsWellFormedDatabase(db)
    ensures IsExpectedError(db, ReadAfterOpcode(db, decoded, bytes))
    ensures !HasMatch(db, decoded, false) ==> ReadAfterOpcode(db, decoded, bytes) == Failure(NotFound)
  {
    SearchFindsMatch(db, decoded, false);
    AddressingTakes(bytes);
    var located := Locate(db, decoded, false);
    if located.Success? {
      var addressed := ReadModRmAndSib(located.value, decoded, bytes);
      if addressed.Success? {
        RelocatedErrors(db, located.value, addressed.value.0, addressed.value.1);
      }
    }
  }

  lemma {:induction false} RelocatedErrors(
    db: Database, specification: EncodingSpecification, decoded: DecodedInstruction, bytes: seq<bv8>
  )
    requires IsWellFormedDatabase(db)
    ensures match Relocate(db, specification, decoded)
            case Failure(error) => error == NotFound && !HasMatch(db, decoded, true)
            case Success(located) => IsExpectedError(db, ReadOperands(located, decoded, bytes))
  {
    SearchFindsMatch(db, decoded, true);
    var relocated := Relocate(db, specification, decoded);
    if relocated.Success? {
      OperandsTake(relocated.value, decoded, bytes);
    }
  }
}
