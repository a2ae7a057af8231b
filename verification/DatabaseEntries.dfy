// The round trip in a database, under conditions on the entries of the database:
// one entry fits the instruction, and the entries that the parser may take instead
// describe the same operands.
module DatabaseEntries {
  import opened Wrappers
  import opened Opcodes
  import opened X86Protos
  import opened InstructionEncoding
  import opened InstructionEncoder
  import opened Architecture
  import opened Indices
  import opened InstructionParser
  import opened RoundTripOpcode
  import opened RoundTrip
  import opened UniqueDecoding
  import opened PrefixCode

  // ---- The search of the parser ---------------------------------------------

  predicate IsMatch(db: Database, decoded: DecodedInstruction, checkModRm: bool, i: nat)
    requires IsWellFormedDatabase(db)
  {
    i < |db| && InstructionMatches(db[i], decoded, checkModRm).Matches?
  }

  function WithoutOperand(decoded: DecodedInstruction): DecodedInstruction {
    decoded.(opcode := decoded.opcode.WithoutOperandBits())
  }

  lemma OperandMatch(db: Database, decoded: DecodedInstruction, checkModRm: bool, i: nat)
    requires IsWellFormedDatabase(db) && EncodesOperandInOpcode(db, i)
    requires IsMatch(db, decoded, checkModRm, i) || IsMatch(db, WithoutOperand(decoded), checkModRm, i)
    requires SpecificationAt(db, i).opcode == decoded.opcode.WithoutOperandBits()
    ensures IsMatch(db, decoded, checkModRm, i) && IsMatch(db, WithoutOperand(decoded), checkModRm, i)
  {
  }

  lemma MaskedTwice(opcode: Opcode)
    ensures opcode.WithoutOperandBits().WithoutOperandBits() == opcode.WithoutOperandBits()
  {
  }

  lemma ExactMatchIsListed(db: Database, decoded: DecodedInstruction, checkModRm: bool, i: nat)
    requires IsWellFormedDatabase(db) && IsMatch(db, decoded, checkModRm, i)
    requires SpecificationAt(db, i).opcode == decoded.opcode
    ensures i in InstructionIndices(db, decoded, checkModRm)
  {
    var exact, matches := HasOpcode(db, decoded.opcode), MatchFlags(db, decoded, checkModRm);
    IndicesOfIncreasing(exact);
    assert exact[i] && i in ListedIndices(db, decoded.opcode);
    FilterIndices(exact, matches);
    IndicesOfIncreasing(Both(exact, matches));
    assert Both(exact, matches)[i];
  }

  lemma {:induction false} FirstWithOperandIsOne(db: Database, indices: seq<nat>)
    requires IsWellFormedDatabase(db) && forall k :: 0 <= k < |indices| ==> indices[k] < |db|
    ensures match FirstWithOperandInOpcode(db, indices)
            case Some(found) => exists i :: i in indices && EncodesOperandInOpcode(db, i) && found == SpecificationAt(db, i)
            case None => forall i :: i in indices ==> !EncodesOperandInOpcode(db, i)
  {
    if indices != [] && !EncodesOperandInOpcode(db, indices[0]) {
      FirstWithOperandIsOne(db, indices[1..]);
    }
  }

  // The specification is that of an entry that matches.
  predicate IsOfMatch(db: Database, decoded: DecodedInstruction, checkModRm: bool, found: EncodingSpecification)
    requires IsWellFormedDatabase(db)
  {
    exists i :: 0 <= i < |db| && IsMatch(db, decoded, checkModRm, i) && SpecificationAt(db, i) == found
  }

  predicate HasMatch(db: Database, decoded: DecodedInstruction, checkModRm: bool)
    requires IsWellFormedDatabase(db)
  {
    exists i :: 0 <= i < |db| && IsMatch(db, decoded, checkModRm, i)
  }

  // The second lookup, without the operand bits, makes up for a first one that
  // stopped at another opcode: whatever the database holds, the parser finds a
  // specification exactly when an entry matches, and then one of an entry that does.
  lemma SearchFindsMatch(db: Database, decoded: DecodedInstruction, checkModRm: bool)
    requires IsWellFormedDatabase(db)
    ensures match FindSpecification(db, decoded, checkModRm)
            case Some(found) => IsOfMatch(db, decoded, checkModRm, found)
            case None => !HasMatch(db, decoded, checkModRm)
  {
    var indices := InstructionIndices(db, decoded, checkModRm);
    LookupIsSortedAndSound(db, decoded, checkModRm);
    if indices != [] {
      assert indices[0] in indices && IsMatch(db, decoded, checkModRm, indices[0]);
    } else {
      SecondLookup(db, decoded, checkModRm);
    }
  }

  lemma SecondLookup(db: Database, decoded: DecodedInstruction, checkModRm: bool)
    requires IsWellFormedDatabase(db) && InstructionIndices(db, decoded, checkModRm) == []
    ensures match FirstWithOperandInOpcode(db, InstructionIndices(db, WithoutOperand(decoded), checkModRm))
            case Some(found) => IsOfMatch(db, decoded, checkModRm, found)
            case None => !HasMatch(db, decoded, checkModRm)
  {
    var masked := WithoutOperand(decoded);
    var indices := InstructionIndices(db, masked, checkModRm);
    LookupIsSortedAndSound(db, masked, checkModRm);
    FirstWithOperandIsOne(db, indices);
    MaskedTwice(decoded.opcode);
    forall i | 0 <= i < |db| && IsMatch(db, decoded, checkModRm, i)
      ensures i in indices && EncodesOperandInOpcode(db, i)
    {
      MatchingOpcode(db, decoded, checkModRm, i);
      if SpecificationAt(db, i).opcode == decoded.opcode {
        ExactMatchIsListed(db, decoded, checkModRm, i);
      } else {
        OperandMatch(db, decoded, checkModRm, i);
        ExactMatchIsListed(db, masked, checkModRm, i);
      }
    }
    forall i | i in indices && EncodesOperandInOpcode(db, i)
      ensures IsMatch(db, decoded, checkModRm, i)
    {
      MatchingOpcode(db, masked, checkModRm, i);
      OperandMatch(db, decoded, checkModRm, i);
    }
  }

  // ---- The entries ----------------------------------------------------------

  // An entry has the specification, and its first vendor syntax allows the
  // addressing mode of the instruction.
  predicate HasEntry(db: Database, specification: EncodingSpecification, instruction: DecodedInstruction)
    requires IsWellFormedDatabase(db)
  {
    exists i :: 0 <= i < |db| && IsEntry(db, specification, instruction, i)
  }

  predicate IsEntry(db: Database, specification: EncodingSpecification, instruction: DecodedInstruction, i: nat)
    requires IsWellFormedDatabase(db)
  {
    && i < |db| && SpecificationAt(db, i) == specification
    && (specification.modrmUsage.NoModRmUsage? ||
        AddressingModeMatchesSpecification(db[i].vendorSyntax[0], WithModRm(specification, instruction)).Matches?)
  }

  function WithModRm(specification: EncodingSpecification, instruction: DecodedInstruction): DecodedInstruction {
    WithAddressing(specification, instruction, WithOpcode(specification, instruction))
  }

  // Every entry that matches the prefixes and the opcode agrees on what follows.
  predicate EntriesAgree(db: Database, specification: EncodingSpecification, instruction: DecodedInstruction)
    requires IsWellFormedDatabase(db)
  {
    forall i :: 0 <= i < |db| && IsMatch(db, WithOpcode(specification, instruction), false, i) ==>
      && SpecificationAt(db, i).modrmUsage.NoModRmUsage? == specification.modrmUsage.NoModRmUsage?
      && SameOperandLayout(SpecificationAt(db, i), specification)
  }

  lemma {:induction false} EntryMatches(
    db: Database, specification: EncodingSpecification, instruction: DecodedInstruction, i: nat
  )
    requires IsWellFormedDatabase(db) && IsEntry(db, specification, instruction, i)
    requires IsEncodable(specification, instruction) && IsReadable(specification)
    ensures IsMatch(db, WithOpcode(specification, instruction), false, i)
    ensures !specification.modrmUsage.NoModRmUsage? ==> IsMatch(db, WithModRm(specification, instruction), true, i)
  {
    ParsedPrefixMatches(specification, instruction);
    if !specification.modrmUsage.NoModRmUsage? {
      ParsedModRmMatches(specification, instruction, WithOpcode(specification, instruction));
    }
  }

  lemma MatchWithoutModRm(db: Database, first: DecodedInstruction, second: DecodedInstruction, i: nat)
    requires IsWellFormedDatabase(db) && IsMatch(db, second, true, i)
    requires first.prefix == second.prefix && first.opcode == second.opcode
    requires first.addressSizeOverride == second.addressSizeOverride
    ensures IsMatch(db, first, false, i)
  {
    MatcherIgnoresAddressing(SpecificationAt(db, i), first, second);
  }

  lemma {:induction false} LayoutOfEntries(
    db: Database, specification: EncodingSpecification, instruction: DecodedInstruction
  )
    requires IsWellFormedDatabase(db) && IsEncodable(specification, instruction) && IsReadable(specification)
    requires HasEntry(db, specification, instruction) && EntriesAgree(db, specification, instruction)
    ensures LayoutIsFound(db, specification, instruction)
  {
    var withOpcode, withModRm := WithOpcode(specification, instruction), WithModRm(specification, instruction);
    var entry :| 0 <= entry < |db| && IsEntry(db, specification, instruction, entry);
    EntryMatches(db, specification, instruction, entry);
    SearchFindsMatch(db, withOpcode, false);
    if !specification.modrmUsage.NoModRmUsage? {
      SearchFindsMatch(db, withModRm, true);
      forall i | 0 <= i < |db| && IsMatch(db, withModRm, true, i)
        ensures IsMatch(db, withOpcode, false, i)
      {
        MatchWithoutModRm(db, withOpcode, withModRm, i);
      }
    }
  }

  // No entry has an opcode that continues in what follows. A VEX opcode has a
  // fixed length.
  ghost predicate IsLongestOpcode(
    db: Database, specification: EncodingSpecification, instruction: DecodedInstruction, rest: seq<bv8>
  )
    requires IsWellFormedDatabase(db)
  {
    specification.prefix.VexSpecification? ||
    NothingLonger(IsListed(db, WithPrefixes(specification, instruction)), IsOpcodePrefix(db),
                  ParsedOpcode(specification, instruction), AfterOpcode(specification, instruction, rest))
  }

  lemma {:induction false} EntryIsListed(
    db: Database, specification: EncodingSpecification, instruction: DecodedInstruction
  )
    requires IsWellFormedDatabase(db) && IsEncodable(specification, instruction) && IsReadable(specification)
    requires HasEntry(db, specification, instruction)
    ensures IsListed(db, WithPrefixes(specification, instruction))(ParsedOpcode(specification, instruction))
  {
    var entry :| 0 <= entry < |db| && IsEntry(db, specification, instruction, entry);
    EntryMatches(db, specification, instruction, entry);
    SearchFindsMatch(db, WithOpcode(specification, instruction), false);
  }

  lemma SamePrefixes(first: Opcode, second: Opcode)
    requires first.DropLastByte() == second.DropLastByte()
    ensures ProperOpcodePrefixes(first) == ProperOpcodePrefixes(second)
  {
  }

  lemma {:induction false} EntryHasPrefixes(
    db: Database, specification: EncodingSpecification, instruction: DecodedInstruction, prefix: Opcode
  )
    requires IsWellFormedDatabase(db) && IsEncodable(specification, instruction) && IsReadable(specification)
    requires HasEntry(db, specification, instruction) && !specification.prefix.VexSpecification?
    requires prefix in ProperOpcodePrefixes(ParsedOpcode(specification, instruction))
    ensures IsOpcodePrefix(db)(prefix)
  {
    var entry :| 0 <= entry < |db| && IsEntry(db, specification, instruction, entry);
    ParsedOpcodeMatches(specification, instruction);
    SamePrefixes(ParsedOpcode(specification, instruction), specification.opcode);
    assert prefix in LegacyPrefixesOf(db, entry);
  }

  // The opcode of the instruction is not a prefix of that of an entry.
  predicate IsComplete(db: Database, item: Item)
    requires IsWellFormedDatabase(db)
  {
    !IsLegacyOpcodePrefix(db, ParsedOpcode(item.specification, item.instruction))
  }

  // The rest of what it takes to find the opcode follows from the entry.
  lemma {:induction false} OpcodeOfEntry(
    db: Database, specification: EncodingSpecification, instruction: DecodedInstruction, rest: seq<bv8>
  )
    requires IsWellFormedDatabase(db) && IsEncodable(specification, instruction) && IsReadable(specification)
    requires HasEntry(db, specification, instruction)
    ensures OpcodeIsFound(db, specification, instruction, rest) <==>
            IsLongestOpcode(db, specification, instruction, rest)
    ensures IsComplete(db, Item(specification, instruction)) ==>
              IsLongestOpcode(db, specification, instruction, rest)
  {
    if !specification.prefix.VexSpecification? {
      EntryIsListed(db, specification, instruction);
      forall prefix | prefix in ProperOpcodePrefixes(ParsedOpcode(specification, instruction))
        ensures IsOpcodePrefix(db)(prefix)
      {
        EntryHasPrefixes(db, specification, instruction, prefix);
      }
    }
  }

  // ---- The round trip -------------------------------------------------------

  // An instruction of an entry is read back, whatever the order of the entries and
  // whichever of them the parser takes, exactly when no longer opcode follows.
  lemma {:induction false} EntryRoundTrip(
    db: Database, specification: EncodingSpecification, instruction: DecodedInstruction, rest: seq<bv8>
  )
    requires IsWellFormedDatabase(db) && IsEncodable(specification, instruction) && IsReadable(specification)
    requires HasEntry(db, specification, instruction) && EntriesAgree(db, specification, instruction)
    requires AddressingSurvives(specification, instruction)
    ensures ReadInstruction(db, EncodedBytes(specification, instruction) + rest) ==
            Success((Parsed(specification, instruction), rest))
            <==> IsLongestOpcode(db, specification, instruction, rest)
    ensures IsComplete(db, Item(specification, instruction)) ==>
              IsLongestOpcode(db, specification, instruction, rest)
  {
    LayoutOfEntries(db, specification, instruction);
    OpcodeOfEntry(db, specification, instruction, rest);
    DatabaseRoundTrip(db, specification, instruction, rest);
  }

  predicate IsOfEntry(db: Database, item: Item)
    requires IsWellFormedDatabase(db)
  {
    && IsEncodable(item.specification, item.instruction) && IsReadable(item.specification)
    && AddressingSurvives(item.specification, item.instruction)
    && PrefixSurvives(item.specification, item.instruction)
    && HasEntry(db, item.specification, item.instruction)
    && EntriesAgree(db, item.specification, item.instruction)
  }

  // Each opcode is the longest one, with the other items behind it.
  ghost predicate AreLongest(db: Database, items: seq<Item>, rest: seq<bv8>)
    requires IsWellFormedDatabase(db)
  {
    items == [] ||
    (IsLongestOpcode(db, items[0].specification, items[0].instruction, EncodedStream(items[1..]) + rest) &&
     AreLongest(db, items[1..], rest))
  }

  lemma {:induction false} OpcodesOfEntries(db: Database, items: seq<Item>, rest: seq<bv8>)
    requires IsWellFormedDatabase(db) && forall i :: 0 <= i < |items| ==> IsOfEntry(db, items[i])
    ensures AreFound(db, items, rest) <==> AreLongest(db, items, rest)
    ensures (forall i :: 0 <= i < |items| ==> IsComplete(db, items[i])) ==> AreLongest(db, items, rest)
  {
    if items != [] {
      assert IsOfEntry(db, items[0]);
      OpcodeOfEntry(db, items[0].specification, items[0].instruction, EncodedStream(items[1..]) + rest);
      OpcodesOfEntries(db, items[1..], rest);
    }
  }

  // The same of a concatenation of instructions of several entries.
  lemma {:induction false} EntryStreamRoundTrip(db: Database, items: seq<Item>, rest: seq<bv8>)
    requires IsWellFormedDatabase(db) && forall i :: 0 <= i < |items| ==> IsOfEntry(db, items[i])
    ensures ReadSeveral(db, |items|, EncodedStream(items) + rest) == Success((NormalForms(items), rest))
            <==> AreLongest(db, items, rest)
    ensures (forall i :: 0 <= i < |items| ==> IsComplete(db, items[i])) ==> AreLongest(db, items, rest)
  {
    forall i | 0 <= i < |items|
      ensures IsOf(db, items[i])
    {
      assert IsOfEntry(db, items[i]);
      LayoutOfEntries(db, items[i].specification, items[i].instruction);
    }
    OpcodesOfEntries(db, items, rest);
    StreamRoundTrip(db, items, rest);
  }
}
