// The opcode index of the instruction database (exegesis/x86/architecture.cc):
// a hash table that replaces "scan all instructions and match".
module Architecture {
  import opened Indices
  import opened Wrappers
  import opened X86Protos
  import opened InstructionEncoding
  import opened Opcodes

  // ---- The database ---------------------------------------------------------

  type Database = seq<InstructionProto>

  predicate OperandModeIsSupported(mode: OperandAddressingMode) {
    !mode.NoAddressing? && !mode.AnyAddressingWithFlexibleRegisters? &&
    !mode.AnyAddressingWithFixedRegisters? && !mode.IndirectAddressingByRsi? && !mode.IndirectAddressingByRdi?
  }

  // What the CHECKs and the fatal branches of the matcher demand of an entry.
  predicate IsWellFormedInstruction(instruction: InstructionProto) {
    && instruction.x86EncodingSpecification.Some?
    && instruction.vendorSyntax != []
    && var specification := instruction.x86EncodingSpecification.value;
       && !specification.modrmUsage.RegIgnored?
       && (specification.prefix.VexSpecification? ==>
             && !specification.prefix.vex.prefixType.UndefinedPrefixType?
             && !(specification.prefix.vex.prefixType.VexType? && specification.prefix.vex.vectorSize.VectorSize512Bit?))
       && var operands := instruction.vendorSyntax[0].operands;
          var position := ModRmRmOperandPosition(operands);
          position < |operands| ==> OperandModeIsSupported(operands[position].addressingMode)
  }

  predicate IsWellFormedDatabase(db: Database) {
    forall i :: 0 <= i < |db| ==> IsWellFormedInstruction(db[i])
  }

  function SpecificationAt(db: Database, i: nat): EncodingSpecification
    requires i < |db| && IsWellFormedDatabase(db)
  {
    db[i].x86EncodingSpecification.value
  }

  function InstructionMatches(instruction: InstructionProto, decoded: DecodedInstruction, checkModRm: bool): MatchResult
    requires IsWellFormedInstruction(instruction)
  {
    var specification := instruction.x86EncodingSpecification.value;
    PrefixesAndOpcodeMatchSpecification(specification, decoded)
    .Then(if checkModRm
          then ModRmUsageMatchesSpecification(specification, decoded, instruction.vendorSyntax[0])
          else Matches)
  }

  lemma MatcherIsNotFatal(instruction: InstructionProto, decoded: DecodedInstruction, checkModRm: bool)
    requires IsWellFormedInstruction(instruction)
    requires checkModRm ==> decoded.optionalModRm.Some?
    ensures !InstructionMatches(instruction, decoded, checkModRm).Fatal?
  {
  }

  // ---- What the lookups compute ---------------------------------------------

  // Which entries have the opcode, which ones match the decoded instruction, and
  // which ones encode an operand in the opcode.
  function HasOpcode(db: Database, opcode: Opcode): (flags: seq<bool>)
    requires IsWellFormedDatabase(db)
    ensures |flags| == |db|
    ensures forall i :: 0 <= i < |db| ==> flags[i] == (SpecificationAt(db, i).opcode == opcode)
  {
    seq(|db|, i requires 0 <= i < |db| => SpecificationAt(db, i).opcode == opcode)
  }

  function MatchFlags(db: Database, decoded: DecodedInstruction, checkModRm: bool): (flags: seq<bool>)
    requires IsWellFormedDatabase(db)
    ensures |flags| == |db|
    ensures forall i :: 0 <= i < |db| ==> flags[i] == InstructionMatches(db[i], decoded, checkModRm).Matches?
  {
    seq(|db|, i requires 0 <= i < |db| => InstructionMatches(db[i], decoded, checkModRm).Matches?)
  }

  predicate EncodesOperandInOpcode(db: Database, i: nat)
    requires IsWellFormedDatabase(db)
  {
    i < |db| && !SpecificationAt(db, i).operandInOpcode.NoOperandInOpcode?
  }

  function ListedIndices(db: Database, opcode: Opcode): (indices: seq<nat>)
    requires IsWellFormedDatabase(db)
    ensures forall k :: 0 <= k < |indices| ==> indices[k] < |db|
  {
    IndicesOf(HasOpcode(db, opcode))
  }

  function Candidates(db: Database, opcode: Opcode): (candidates: Option<seq<nat>>)
    requires IsWellFormedDatabase(db)
    ensures candidates.Some? ==> forall k :: 0 <= k < |candidates.value| ==> candidates.value[k] < |db|
  {
    var listed := ListedIndices(db, opcode);
    var masked := ListedIndices(db, opcode.WithoutOperandBits());
    if listed != [] then Some(listed)
    else if exists i :: i in masked && EncodesOperandInOpcode(db, i) then Some(masked)
    else None
  }

  function InstructionIndices(db: Database, decoded: DecodedInstruction, checkModRm: bool): (indices: seq<nat>)
    requires IsWellFormedDatabase(db)
    ensures forall k :: 0 <= k < |indices| ==> indices[k] < |db|
  {
    match Candidates(db, decoded.opcode)
    case None => []
    case Some(candidates) => Filter(candidates, MatchFlags(db, decoded, checkModRm))
  }

  function InstructionIndex(db: Database, decoded: DecodedInstruction, checkModRm: bool): (index: Option<nat>)
    requires IsWellFormedDatabase(db)
    ensures index.Some? ==> index.value < |db|
  {
    var indices := InstructionIndices(db, decoded, checkModRm);
    if indices == [] then None else Some(indices[0])
  }

  predicate IsLegacyOpcodePrefix(db: Database, prefix: Opcode)
    requires IsWellFormedDatabase(db)
  {
    exists i :: 0 <= i < |db| && prefix in LegacyPrefixesOf(db, i)
  }

  // ---- The index ------------------------------------------------------------

  class X86Architecture {
    const instructions: Database
    var instructionIndexByOpcode: map<Opcode, seq<nat>>
    var legacyOpcodePrefixes: set<Opcode>

    ghost predicate Valid()
      reads this
    {
      && IsWellFormedDatabase(instructions)
      && IndexesFirst(instructionIndexByOpcode, instructions, |instructions|)
      && HasPrefixesOfFirst(legacyOpcodePrefixes, instructions, |instructions|)
    }

    constructor (instructions: Database)
      requires IsWellFormedDatabase(instructions)
      ensures Valid() && this.instructions == instructions
    {
      this.instructions := instructions;
      instructionIndexByOpcode := map[];
      legacyOpcodePrefixes := {};
      new;
      BuildIndex();
    }

    method BuildIndex()
      requires IsWellFormedDatabase(instructions)
      requires instructionIndexByOpcode == map[] && legacyOpcodePrefixes == {}
      modifies this
      ensures Valid()
    {
      for index := 0 to |instructions|
        invariant IndexesFirst(instructionIndexByOpcode, instructions, index)
        invariant HasPrefixesOfFirst(legacyOpcodePrefixes, instructions, index)
      {
        IndexInstruction(index);
      }
    }

    method IndexInstruction(index: nat)
      requires IsWellFormedDatabase(instructions) && index < |instructions|
      requires IndexesFirst(instructionIndexByOpcode, instructions, index)
      requires HasPrefixesOfFirst(legacyOpcodePrefixes, instructions, index)
      modifies this
      ensures IndexesFirst(instructionIndexByOpcode, instructions, index + 1)
      ensures HasPrefixesOfFirst(legacyOpcodePrefixes, instructions, index + 1)
    {
      var specification := SpecificationAt(instructions, index);
      PrefixesOfOneMore(legacyOpcodePrefixes, instructions, index);
      IndexesOneMore(instructionIndexByOpcode, instructions, index);
      ListInstruction(index, specification.opcode);
      if !specification.prefix.VexSpecification? {
        InsertPrefixes(specification.opcode);
      }
    }

    method ListInstruction(index: nat, opcode: Opcode)
      modifies `instructionIndexByOpcode
      ensures instructionIndexByOpcode ==
              var listed := if opcode in old(instructionIndexByOpcode) then old(instructionIndexByOpcode)[opcode] else [];
              old(instructionIndexByOpcode)[opcode := listed + [index]]
    {
      var listed := if opcode in instructionIndexByOpcode then instructionIndexByOpcode[opcode] else [];
      instructionIndexByOpcode := instructionIndexByOpcode[opcode := listed + [index]];
    }

    method InsertPrefixes(opcode: Opcode)
      modifies `legacyOpcodePrefixes
      ensures legacyOpcodePrefixes == old(legacyOpcodePrefixes) + ProperOpcodePrefixes(opcode)
    {
      ghost var first := opcode.DropLastByte();
      ghost var second := first.DropLastByte();
      ghost var third := second.DropLastByte();
      var prefix := opcode.DropLastByte();
      ghost var dropped := 1;
      while prefix != ZERO
        invariant 1 <= dropped <= 4
        invariant dropped == 1 ==> prefix == first && legacyOpcodePrefixes == old(legacyOpcodePrefixes)
        invariant dropped == 2 ==> prefix == second && legacyOpcodePrefixes == old(legacyOpcodePrefixes) + {first}
        invariant dropped == 3 ==>
                    prefix == third && legacyOpcodePrefixes == old(legacyOpcodePrefixes) + {first, second}
        invariant dropped == 4 ==>
                    prefix == ZERO &&
                    legacyOpcodePrefixes == old(legacyOpcodePrefixes) + {first, second, third}
        invariant dropped >= 2 ==> first != ZERO
        invariant dropped >= 3 ==> second != ZERO
        invariant dropped >= 4 ==> third != ZERO
        decreases 4 - dropped
      {
        legacyOpcodePrefixes := legacyOpcodePrefixes + {prefix};
        prefix := prefix.DropLastByte();
        dropped := dropped + 1;
      }
    }

    method IsOpcodePrefix(opcode: Opcode) returns (isPrefix: bool)
      requires Valid()
      ensures isPrefix == IsLegacyOpcodePrefix(instructions, opcode)
    {
      return opcode in legacyOpcodePrefixes;
    }

    method GetCandidates(opcode: Opcode) returns (candidates: Option<seq<nat>>)
      requires Valid()
      ensures candidates == Candidates(instructions, opcode)
    {
      WholeIndex(instructions, opcode);
      WholeIndex(instructions, opcode.WithoutOperandBits());
      if opcode in instructionIndexByOpcode {
        return Some(instructionIndexByOpcode[opcode]);
      }
      candidates := GetMaskedCandidates(opcode.WithoutOperandBits());
    }

    // The instructions with this opcode if one of them has an operand in it.
    method GetMaskedCandidates(masked: Opcode) returns (candidates: Option<seq<nat>>)
      requires Valid()
      ensures candidates ==
              var listed := ListedIndices(instructions, masked);
              if exists i :: i in listed && EncodesOperandInOpcode(instructions, i) then Some(listed) else None
    {
      WholeIndex(instructions, masked);
      if masked !in instructionIndexByOpcode {
        return None;
      }
      var listed := instructionIndexByOpcode[masked];
      for k := 0 to |listed|
        invariant forall j :: 0 <= j < k ==> !EncodesOperandInOpcode(instructions, listed[j])
      {
        if EncodesOperandInOpcode(instructions, listed[k]) {
          return Some(listed);
        }
      }
      return None;
    }

    method GetInstructionIndices(decoded: DecodedInstruction, checkModRm: bool) returns (indices: seq<nat>)
      requires Valid()
      requires checkModRm ==> decoded.optionalModRm.Some?
      ensures indices == InstructionIndices(instructions, decoded, checkModRm)
    {
      indices := [];
      var candidates := GetCandidates(decoded.opcode);
      if candidates.Some? {
        ghost var flags := MatchFlags(instructions, decoded, checkModRm);
        for k := 0 to |candidates.value|
          invariant indices == Filter(candidates.value[..k], flags)
        {
          assert candidates.value[..k + 1][..k] == candidates.value[..k];
          var index := candidates.value[k];
          if InstructionMatches(instructions[index], decoded, checkModRm).Matches? {
            indices := indices + [index];
          }
        }
        assert candidates.value[..|candidates.value|] == candidates.value;
      }
    }

    method GetInstructionIndex(decoded: DecodedInstruction, checkModRm: bool) returns (index: Option<nat>)
      requires Valid()
      requires checkModRm ==> decoded.optionalModRm.Some?
      ensures index == InstructionIndex(instructions, decoded, checkModRm)
    {
      var candidates := GetCandidates(decoded.opcode);
      if candidates.Some? {
        ghost var flags := MatchFlags(instructions, decoded, checkModRm);
        for k := 0 to |candidates.value|
          invariant Filter(candidates.value[..k], flags) == []
        {
          assert candidates.value[..k + 1][..k] == candidates.value[..k];
          var candidate := candidates.value[k];
          if InstructionMatches(instructions[candidate], decoded, checkModRm).Matches? {
            FilterStartsWith(candidates.value, k + 1, flags);
            return Some(candidate);
          }
        }
        assert candidates.value[..|candidates.value|] == candidates.value;
      }
      return None;
    }
  }

  // The index after the first n instructions of the database.
  ghost predicate IndexesFirst(index: map<Opcode, seq<nat>>, db: Database, n: nat)
    requires n <= |db| && IsWellFormedDatabase(db)
  {
    forall opcode ::
      && (opcode in index <==> ListedBefore(db, opcode, n) != [])
      && (opcode in index ==> index[opcode] == ListedBefore(db, opcode, n))
  }

  function ListedBefore(db: Database, opcode: Opcode, n: nat): seq<nat>
    requires n <= |db| && IsWellFormedDatabase(db)
  {
    IndicesOf(HasOpcode(db, opcode)[..n])
  }

  lemma IndexesOneMore(index: map<Opcode, seq<nat>>, db: Database, n: nat)
    requires n < |db| && IsWellFormedDatabase(db) && IndexesFirst(index, db, n)
    ensures var opcode := SpecificationAt(db, n).opcode;
            var listed := if opcode in index then index[opcode] else [];
            IndexesFirst(index[opcode := listed + [n]], db, n + 1)
  {
    var opcode := SpecificationAt(db, n).opcode;
    var listed := if opcode in index then index[opcode] else [];
    var index' := index[opcode := listed + [n]];
    forall other: Opcode
      ensures other in index' <==> ListedBefore(db, other, n + 1) != []
      ensures other in index' ==> index'[other] == ListedBefore(db, other, n + 1)
    {
      ListedStep(db, other, n);
    }
  }

  // The legacy opcode prefixes of the first n instructions of the database.
  ghost predicate HasPrefixesOfFirst(prefixes: set<Opcode>, db: Database, n: nat)
    requires n <= |db| && IsWellFormedDatabase(db)
  {
    forall prefix :: prefix in prefixes <==> exists i :: 0 <= i < n && prefix in LegacyPrefixesOf(db, i)
  }

  function LegacyPrefixesOf(db: Database, i: nat): set<Opcode>
    requires i < |db| && IsWellFormedDatabase(db)
  {
    if SpecificationAt(db, i).prefix.VexSpecification? then {}
    else ProperOpcodePrefixes(SpecificationAt(db, i).opcode)
  }

  lemma PrefixesOfOneMore(prefixes: set<Opcode>, db: Database, n: nat)
    requires n < |db| && IsWellFormedDatabase(db) && HasPrefixesOfFirst(prefixes, db, n)
    ensures HasPrefixesOfFirst(prefixes + LegacyPrefixesOf(db, n), db, n + 1)
    ensures LegacyPrefixesOf(db, n) == {} ==> HasPrefixesOfFirst(prefixes, db, n + 1)
  {
    assert forall prefix :: (exists i :: 0 <= i < n + 1 && prefix in LegacyPrefixesOf(db, i)) <==>
      (exists i :: 0 <= i < n && prefix in LegacyPrefixesOf(db, i)) || prefix in LegacyPrefixesOf(db, n);
  }

  lemma WholeIndex(db: Database, opcode: Opcode)
    requires IsWellFormedDatabase(db)
    ensures ListedBefore(db, opcode, |db|) == ListedIndices(db, opcode)
  {
    assert HasOpcode(db, opcode)[..|db|] == HasOpcode(db, opcode);
  }

  lemma ListedStep(db: Database, opcode: Opcode, n: nat)
    requires IsWellFormedDatabase(db) && n < |db|
    ensures ListedBefore(db, opcode, n + 1) ==
            ListedBefore(db, opcode, n) + (if SpecificationAt(db, n).opcode == opcode then [n] else [])
  {
    var flags := HasOpcode(db, opcode);
    assert flags[..n + 1][..n] == flags[..n];
  }

  // ---- The index agrees with the scan ---------------------------------------

  // The lookup without an index: match every instruction of the database.
  function ScanAll(db: Database, decoded: DecodedInstruction, checkModRm: bool): seq<nat>
    requires IsWellFormedDatabase(db)
  {
    IndicesOf(MatchFlags(db, decoded, checkModRm))
  }

  // An instruction that has its operand in the opcode matches, and the exact
  // opcode is listed too: the lookup stops at the exact opcode.
  predicate MatchIsShadowed(db: Database, decoded: DecodedInstruction, checkModRm: bool)
    requires IsWellFormedDatabase(db)
  {
    && ListedIndices(db, decoded.opcode) != []
    && exists i :: 0 <= i < |db| && SpecificationAt(db, i).opcode != decoded.opcode &&
                   InstructionMatches(db[i], decoded, checkModRm).Matches?
  }

  lemma MatchingOpcode(db: Database, decoded: DecodedInstruction, checkModRm: bool, i: nat)
    requires IsWellFormedDatabase(db) && i < |db|
    requires InstructionMatches(db[i], decoded, checkModRm).Matches?
    ensures || SpecificationAt(db, i).opcode == decoded.opcode
            || (EncodesOperandInOpcode(db, i) &&
                SpecificationAt(db, i).opcode == decoded.opcode.WithoutOperandBits())
  {
  }

  function LookupIn(exact: seq<bool>, base: seq<bool>, operands: seq<bool>, matches: seq<bool>): seq<nat>
    requires |exact| == |base| == |operands| == |matches|
  {
    if IndicesOf(exact) != [] then Filter(IndicesOf(exact), matches)
    else if exists i :: i in IndicesOf(base) && operands[i] then Filter(IndicesOf(base), matches)
    else []
  }

  lemma {:induction false} LookupInIsScan(exact: seq<bool>, base: seq<bool>, operands: seq<bool>, matches: seq<bool>)
    requires |exact| == |base| == |operands| == |matches|
    requires forall i :: 0 <= i < |matches| && matches[i] ==> exact[i] || (base[i] && operands[i])
    ensures LookupIn(exact, base, operands, matches) == IndicesOf(matches) <==>
            !(IndicesOf(exact) != [] && exists i :: 0 <= i < |matches| && !exact[i] && matches[i])
  {
    IndicesOfIncreasing(exact);
    if IndicesOf(exact) != [] {
      ExactLookup(exact, matches);
    } else {
      BaseLookup(base, operands, matches);
    }
  }

  lemma {:induction false} ExactLookup(exact: seq<bool>, matches: seq<bool>)
    requires |exact| == |matches|
    ensures Filter(IndicesOf(exact), matches) == IndicesOf(matches) <==>
            forall i :: 0 <= i < |matches| && matches[i] ==> exact[i]
  {
    FilterIndices(exact, matches);
    if IndicesOf(Both(exact, matches)) == IndicesOf(matches) {
      IndicesOfInjective(Both(exact, matches), matches);
      assert forall i :: 0 <= i < |matches| && matches[i] ==> Both(exact, matches)[i];
    }
    if forall i :: 0 <= i < |matches| && matches[i] ==> exact[i] {
      assert Both(exact, matches) == matches;
    }
  }

  lemma {:induction false} BaseLookup(base: seq<bool>, operands: seq<bool>, matches: seq<bool>)
    requires |base| == |operands| == |matches|
    requires forall i :: 0 <= i < |matches| && matches[i] ==> base[i] && operands[i]
    ensures Filter(IndicesOf(base), matches) == IndicesOf(matches)
    ensures (forall i :: i in IndicesOf(base) ==> !operands[i]) ==> IndicesOf(matches) == []
  {
    FilterIndices(base, matches);
    assert Both(base, matches) == matches;
    IndicesOfIncreasing(base);
    IndicesOfIncreasing(matches);
    if IndicesOf(matches) != [] {
      assert IndicesOf(matches)[0] in IndicesOf(matches);
      assert IndicesOf(matches)[0] in IndicesOf(base);
    }
  }

  lemma IndexAgreesWithScan(db: Database, decoded: DecodedInstruction, checkModRm: bool)
    requires IsWellFormedDatabase(db)
    ensures InstructionIndices(db, decoded, checkModRm) == ScanAll(db, decoded, checkModRm)
            <==> !MatchIsShadowed(db, decoded, checkModRm)
  {
    var exact := HasOpcode(db, decoded.opcode);
    var base := HasOpcode(db, decoded.opcode.WithoutOperandBits());
    var operands := seq(|db|, i requires 0 <= i < |db| => EncodesOperandInOpcode(db, i));
    var matches := MatchFlags(db, decoded, checkModRm);
    forall i | 0 <= i < |db| && matches[i]
      ensures exact[i] || (base[i] && operands[i])
    {
      MatchingOpcode(db, decoded, checkModRm, i);
    }
    LookupInIsScan(exact, base, operands, matches);
    LookupIsLookupIn(db, decoded, checkModRm, operands);
    ShadowedFlags(db, decoded, checkModRm);
  }

  lemma LookupIsLookupIn(db: Database, decoded: DecodedInstruction, checkModRm: bool, operands: seq<bool>)
    requires IsWellFormedDatabase(db)
    requires |operands| == |db| && forall i :: 0 <= i < |db| ==> operands[i] == EncodesOperandInOpcode(db, i)
    ensures InstructionIndices(db, decoded, checkModRm) ==
            LookupIn(HasOpcode(db, decoded.opcode), HasOpcode(db, decoded.opcode.WithoutOperandBits()), operands,
                     MatchFlags(db, decoded, checkModRm))
  {
    var masked := ListedIndices(db, decoded.opcode.WithoutOperandBits());
    assert forall i :: i in masked ==> (operands[i] <==> EncodesOperandInOpcode(db, i));
  }

  lemma ShadowedFlags(db: Database, decoded: DecodedInstruction, checkModRm: bool)
    requires IsWellFormedDatabase(db)
    ensures var exact, matches := HasOpcode(db, decoded.opcode), MatchFlags(db, decoded, checkModRm);
            MatchIsShadowed(db, decoded, checkModRm) <==>
            IndicesOf(exact) != [] && exists i :: 0 <= i < |matches| && !exact[i] && matches[i]
  {
    var exact, matches := HasOpcode(db, decoded.opcode), MatchFlags(db, decoded, checkModRm);
    assert forall i :: 0 <= i < |db| ==>
      ((!exact[i] && matches[i]) <==>
       (SpecificationAt(db, i).opcode != decoded.opcode && InstructionMatches(db[i], decoded, checkModRm).Matches?));
  }

  // ---- When every lookup agrees with the scan -------------------------------

  // Some instruction has the prefixes that the specification asks for: not both F2
  // and F3. The other demands can be met together.
  predicate CanHavePrefixes(specification: EncodingSpecification) {
    specification.prefix.LegacySpecification? ==>
      !(specification.prefix.legacy.hasMandatoryRepePrefix && specification.prefix.legacy.hasMandatoryRepnePrefix)
  }

  function DemandedLegacyPrefixes(specification: LegacyPrefixSpecification): LegacyFields {
    LegacyFields(
      Some(Rex(false, false, specification.rexWPrefix.PrefixIsRequired?, false)),
      if specification.hasMandatoryRepnePrefix then RepnePrefix
      else if specification.hasMandatoryRepePrefix then RepPrefix
      else NoLockOrRep,
      specification.operandSizeOverridePrefix.PrefixIsRequired?)
  }

  function DemandedPrefix(specification: EncodingSpecification): InstructionPrefix {
    if !specification.prefix.VexSpecification? then Legacy(DemandedLegacyPrefixes(specification.GetLegacyPrefixes()))
    else
      var vex := specification.prefix.vex;
      if vex.prefixType.VexType? then
        Vex(DEFAULT_VEX.(mandatoryPrefix := vex.mandatoryPrefix, mapSelect := vex.mapSelect, w := vex.vexWUsage.VexWIsOne?,
                         use256BitVectorLength := vex.vectorSize.VectorSizeBitIsOne? || vex.vectorSize.VectorSize256Bit?))
      else
        Evex(DEFAULT_EVEX.(mandatoryPrefix := vex.mandatoryPrefix, mapSelect := vex.mapSelect,
                           w := vex.vexWUsage.VexWIsOne?,
                           vectorLengthOrRounding := if vex.vectorSize.VectorSize512Bit? then 2
                                                     else if vex.vectorSize.VectorSizeBitIsOne? then 1
                                                     else if vex.vectorSize.VectorSize256Bit? then 1
                                                     else 0))
  }

  // An instruction with the prefixes of one specification and the opcode of another
  // one.
  function MixedInstruction(prefixes: EncodingSpecification, opcode: Opcode): DecodedInstruction {
    DEFAULT_INSTRUCTION.(prefix := DemandedPrefix(prefixes), opcode := opcode, addressSizeOverride := true)
  }

  lemma MixedInstructionMatches(db: Database, i: nat, opcode: Opcode)
    requires IsWellFormedDatabase(db) && i < |db|
    requires OpcodeMatchesSpecification(SpecificationAt(db, i), opcode) && CanHavePrefixes(SpecificationAt(db, i))
    ensures InstructionMatches(db[i], MixedInstruction(SpecificationAt(db, i), opcode), false).Matches?
  {
  }

  lemma MatchingPrefixesExist(
    db: Database, decoded: DecodedInstruction, checkModRm: bool, i: nat
  )
    requires IsWellFormedDatabase(db) && i < |db|
    requires InstructionMatches(db[i], decoded, checkModRm).Matches?
    ensures CanHavePrefixes(SpecificationAt(db, i))
  {
  }

  // The j-th opcode is the opcode of the i-th instruction plus a register index
  // between 1 and 7, and the i-th instruction exists with some prefixes.
  predicate Shadows(db: Database, i: nat, j: nat)
    requires IsWellFormedDatabase(db) && i < |db| && j < |db|
  {
    && EncodesOperandInOpcode(db, i) && CanHavePrefixes(SpecificationAt(db, i))
    && SpecificationAt(db, j).opcode.WithoutOperandBits() == SpecificationAt(db, i).opcode
    && SpecificationAt(db, j).opcode != SpecificationAt(db, i).opcode
  }

  predicate NoOpcodeIsShadowed(db: Database)
    requires IsWellFormedDatabase(db)
  {
    forall i, j :: 0 <= i < |db| && 0 <= j < |db| ==> !Shadows(db, i, j)
  }

  lemma MatchIsNotShadowed(db: Database, decoded: DecodedInstruction, checkModRm: bool)
    requires IsWellFormedDatabase(db) && NoOpcodeIsShadowed(db)
    ensures !MatchIsShadowed(db, decoded, checkModRm)
  {
    IndicesOfIncreasing(HasOpcode(db, decoded.opcode));
    if ListedIndices(db, decoded.opcode) != [] {
      var j := ListedIndices(db, decoded.opcode)[0];
      assert SpecificationAt(db, j).opcode == decoded.opcode;
      forall i | 0 <= i < |db| && SpecificationAt(db, i).opcode != decoded.opcode
        ensures !InstructionMatches(db[i], decoded, checkModRm).Matches?
      {
        assert !Shadows(db, i, j);
        if InstructionMatches(db[i], decoded, checkModRm).Matches? {
          MatchingOpcode(db, decoded, checkModRm, i);
          MatchingPrefixesExist(db, decoded, checkModRm, i);
        }
      }
    }
  }

  lemma ShadowedMatchExists(db: Database, i: nat, j: nat)
    requires IsWellFormedDatabase(db) && i < |db| && j < |db| && Shadows(db, i, j)
    ensures MatchIsShadowed(db, MixedInstruction(SpecificationAt(db, i), SpecificationAt(db, j).opcode), false)
  {
    var opcode := SpecificationAt(db, j).opcode;
    MixedInstructionMatches(db, i, opcode);
    IndicesOfIncreasing(HasOpcode(db, opcode));
    assert HasOpcode(db, opcode)[j];
    assert j in ListedIndices(db, opcode);
  }

  ghost predicate EveryLookupIsAScan(db: Database)
    requires IsWellFormedDatabase(db)
  {
    forall decoded, checkModRm ::
      InstructionIndices(db, decoded, checkModRm) == ScanAll(db, decoded, checkModRm)
  }

  // Every lookup agrees with the scan exactly when no opcode of the database hides
  // an instruction that has its operand in the opcode.
  lemma EveryLookupAgrees(db: Database)
    requires IsWellFormedDatabase(db)
    ensures EveryLookupIsAScan(db) <==> NoOpcodeIsShadowed(db)
  {
    if NoOpcodeIsShadowed(db) {
      forall decoded, checkModRm
        ensures InstructionIndices(db, decoded, checkModRm) == ScanAll(db, decoded, checkModRm)
      {
        IndexAgreesWithScanEverywhere(db, decoded, checkModRm);
      }
    } else {
      var i, j :| 0 <= i < |db| && 0 <= j < |db| && Shadows(db, i, j);
      var mixed := MixedInstruction(SpecificationAt(db, i), SpecificationAt(db, j).opcode);
      ShadowedMatchExists(db, i, j);
      IndexAgreesWithScan(db, mixed, false);
      assert InstructionIndices(db, mixed, false) != ScanAll(db, mixed, false);
    }
  }

  lemma IndexAgreesWithScanEverywhere(db: Database, decoded: DecodedInstruction, checkModRm: bool)
    requires IsWellFormedDatabase(db) && NoOpcodeIsShadowed(db)
    ensures InstructionIndices(db, decoded, checkModRm) == ScanAll(db, decoded, checkModRm)
    ensures InstructionIndex(db, decoded, checkModRm) ==
            var all := ScanAll(db, decoded, checkModRm); if all == [] then None else Some(all[0])
  {
    MatchIsNotShadowed(db, decoded, checkModRm);
    IndexAgreesWithScan(db, decoded, checkModRm);
  }

  // An instruction 50+r and one whose opcode is 51: the lookup of 51 finds only the
  // second one, while both match.
  const SHADOWING_DATABASE: Database := [
    OpcodeOnly(OneByte(0x50), GeneralPurposeRegisterInOpcode), OpcodeOnly(OneByte(0x51), NoOperandInOpcode)
  ]

  function OpcodeOnly(opcode: Opcode, operand: OperandInOpcode): InstructionProto {
    NO_INSTRUCTION.(
      vendorSyntax := [InstructionFormat("", [])],
      x86EncodingSpecification := Some(EncodingSpecification(
        opcode, operand, NoModRmUsage, 0,
        LegacySpecification(
          LegacyPrefixSpecification(PrefixIsIgnored, false, false, PrefixIsIgnored, false)), [], 0)))
  }

  lemma ShadowingFlags()
    ensures IsWellFormedDatabase(SHADOWING_DATABASE)
    ensures HasOpcode(SHADOWING_DATABASE, OneByte(0x51)) == [false, true]
    ensures MatchFlags(SHADOWING_DATABASE, DEFAULT_INSTRUCTION.(opcode := OneByte(0x51)), false) == [true, true]
  {
    assert (0x51 as bv8) & 0xf8 == 0x50;
  }

  lemma IndicesOfTwo(first: bool, second: bool)
    ensures IndicesOf([first, second]) == (if first then [0] else []) + (if second then [1] else [])
  {
    var both: seq<bool> := [first, second];
    var none: seq<bool> := [first][..0];
    assert both[..1] == [first] && none == [];
    assert IndicesOf([first]) == IndicesOf(none) + (if first then [0] else []);
    assert IndicesOf(both) == IndicesOf(both[..1]) + (if second then [1] else []);
  }

  lemma RegisterOneIsShadowed()
    ensures IsWellFormedDatabase(SHADOWING_DATABASE)
    ensures var decoded := DEFAULT_INSTRUCTION.(opcode := OneByte(0x51));
            InstructionIndices(SHADOWING_DATABASE, decoded, false) == [1] &&
            ScanAll(SHADOWING_DATABASE, decoded, false) == [0, 1]
  {
    ShadowingFlags();
    IndicesOfTwo(false, true);
    IndicesOfTwo(true, true);
    FilterIndices([false, true], [true, true]);
    assert Both([false, true], [true, true]) == [false, true];
  }

  // Whatever the database holds, the lookup returns matching instructions in
  // strictly increasing order.
  lemma LookupIsSortedAndSound(db: Database, decoded: DecodedInstruction, checkModRm: bool)
    requires IsWellFormedDatabase(db)
    ensures var indices := InstructionIndices(db, decoded, checkModRm);
            && (forall i :: i in indices ==> i < |db| && InstructionMatches(db[i], decoded, checkModRm).Matches?)
            && (forall j, k :: 0 <= j < k < |indices| ==> indices[j] < indices[k])
  {
    var matches := MatchFlags(db, decoded, checkModRm);
    FilteredIncreasing(HasOpcode(db, decoded.opcode), matches);
    FilteredIncreasing(HasOpcode(db, decoded.opcode.WithoutOperandBits()), matches);
  }

  lemma {:induction false} FilteredIncreasing(flags: seq<bool>, matches: seq<bool>)
    requires |flags| == |matches|
    ensures var indices := Filter(IndicesOf(flags), matches);
            && (forall i :: i in indices ==> i < |matches| && matches[i])
            && (forall j, k :: 0 <= j < k < |indices| ==> indices[j] < indices[k])
  {
    FilterIndices(flags, matches);
    IndicesOfIncreasing(Both(flags, matches));
  }
}
