// Whatever string is parsed, the specification satisfies what the encoder, the
// matcher and the operand allocator demand of it.
module ParsedSpecifications {
  import opened Wrappers
  import opened Scanner
  import opened X86Protos
  import opened EncodingSpecificationLanguage
  import opened RoundTripOpcode
  import opened InstructionEncoder
  import opened UniqueDecoding

  // What holds of every specification that the parser returns.
  predicate IsUsable(specification: EncodingSpecification) {
    && HasUsablePrefix(specification)
    && !specification.modrmUsage.RegIgnored?
    && specification.modrmOpcodeExtension <= 9
    && AreImmediateSizes(specification.immediateValueBytes)
    && IsCodeOffsetSize(specification.codeOffsetBytes)
  }

  predicate AreImmediateSizes(sizes: seq<nat>) {
    forall i :: 0 <= i < |sizes| ==> sizes[i] == 1 || sizes[i] == 2 || sizes[i] == 4 || sizes[i] == 8
  }

  // The code offset is absent, or has one of the sizes that the language names.
  predicate IsCodeOffsetSize(size: nat) {
    size == 0 || size == 1 || size == 2 || size == 4 || size == 6 || size == 8 || size == 10
  }

  predicate HasUsablePrefix(specification: EncodingSpecification) {
    match specification.prefix
    case NoPrefixSpecification => false
    case LegacySpecification(_) => true
    case VexSpecification(vex) =>
      && !vex.prefixType.UndefinedPrefixType?
      && (vex.vectorSize.VectorSize512Bit? ==> vex.prefixType.EvexType?)
      && IsOpcodeMap(vex.mapSelect)
      && vex.evexBInterpretations == []
  }

  // The opcode names the map of a VEX prefix.
  predicate NamesMap(specification: EncodingSpecification) {
    specification.prefix.VexSpecification? ==>
      specification.opcode == OpcodeWithMap(specification.prefix.vex.mapSelect, specification.opcode.b0)
  }

  // VSIB addressing needs a ModR/M byte.
  predicate HasModRmForVSib(specification: EncodingSpecification) {
    specification.GetVexPrefix().vsibUsage.VSibUsed? ==> !specification.modrmUsage.NoModRmUsage?
  }

  // ---- The prefix -----------------------------------------------------------

  lemma {:induction false} SuccessHasOption<A, B>(options: seq<A>, next: A -> Option<B>) returns (i: nat)
    requires FirstSuccess(options, next).Some?
    ensures i < |options| && next(options[i]) == FirstSuccess(options, next)
  {
    if next(options[0]).Some? {
      i := 0;
    } else {
      i := SuccessHasOption(options[1..], next);
      i := i + 1;
    }
  }

  lemma {:induction false} ChoicesAreTokens<T>(s: string, tokens: seq<Token<T>>)
    ensures forall i :: 0 <= i < |Choices(s, tokens)| ==>
              exists k :: 0 <= k < |tokens| && Choices(s, tokens)[i].value == tokens[k].value
  {
    if tokens != [] {
      ChoicesAreTokens(s, tokens[1..]);
      var first := if tokens[0].text <= s then [Match(tokens[0].value, s[|tokens[0].text|..])] else [];
      forall i | 0 <= i < |Choices(s, tokens)|
        ensures exists k :: 0 <= k < |tokens| && Choices(s, tokens)[i].value == tokens[k].value
      {
        if i >= |first| {
          var j :| 0 <= j < |tokens[1..]| && Choices(s, tokens[1..])[i - |first|].value == tokens[1..][j].value;
          assert tokens[1..][j] == tokens[j + 1];
        }
      }
    }
  }

  lemma MatchedMapExists(
    usage: VexOperandUsage, size: Option<VexVectorSize>, prefix: Match<MandatoryPrefix>
  )
    ensures var result := MatchMandatoryPrefix(usage, size, prefix);
            result.Some? ==> IsOpcodeMap(result.value.mapSelect)
  {
    var next := (x: Match<MapSelect>) => MatchMap(usage, size, prefix.value, x);
    var options := Field(prefix.rest, MAP_SELECT_TOKENS);
    if MatchMandatoryPrefix(usage, size, prefix).Some? {
      var i := SuccessHasOption(options, next);
      ChoicesAreTokens(SkipSpaces(SkipSpaces(prefix.rest)[1..]), MAP_SELECT_TOKENS);
      var w := SuccessHasOption(OptionalField(options[i].rest, VEX_W_USAGE_TOKENS, VexWIsIgnored),
                                (x: Match<VexWUsage>) => MatchW(usage, size, prefix.value, options[i].value, x));
    }
  }

  lemma MatchedFieldsNameMap(s: string)
    ensures MatchVexFields(s).Some? ==> IsOpcodeMap(MatchVexFields(s).value.mapSelect)
  {
    if MatchVexFields(s).Some? {
      var usages := OptionalField(s, VEX_OPERAND_USAGE_TOKENS, UndefinedVexOperandUsage);
      var i := SuccessHasOption(usages, MatchUsage);
      var sizes := OptionalField(usages[i].rest, VECTOR_SIZE_TOKENS, None);
      var j := SuccessHasOption(sizes, (x: Match<Option<VexVectorSize>>) => MatchVectorSize(usages[i].value, x));
      var prefixes := OptionalField(sizes[j].rest, MANDATORY_PREFIX_TOKENS, NoMandatoryPrefix);
      var k := SuccessHasOption(prefixes, (x: Match<MandatoryPrefix>) =>
                                            MatchMandatoryPrefix(usages[i].value, sizes[j].value, x));
      MatchedMapExists(usages[i].value, sizes[j].value, prefixes[k]);
    }
  }

  lemma ParsedPrefixIsUsable(s: string)
    requires HasVexPrefix(s) ==> NamesVectorSize(s)
    ensures var parsed := if HasVexPrefix(s) then ParseVexPrefix(s) else Success(ParseLegacyPrefixes(s));
            parsed.Success? ==>
              var base := parsed.value.0;
              && IsUsable(base) && base.modrmUsage.NoModRmUsage?
              && (base.prefix.VexSpecification? ==>
                    base.opcode == MapOpcode(base.prefix.vex.mapSelect) && base.prefix.vex.vsibUsage.VSibUnused?)
  {
    if HasVexPrefix(s) && MatchVexPrefix(s).Some? {
      MatchedFieldsNameMap(s[if "EVEX" <= s then 4 else 3..]);
    }
  }

  // ---- The opcode and the suffixes ------------------------------------------

  lemma {:induction false} CountGrows(specification: EncodingSpecification, count: nat, s: string)
    ensures ConsumeOpcodeBytes(specification, count, s).count >= count
    decreases |s|
  {
    if ConsumeOpcodeByte(s).Some? {
      OpcodeByteIsShorter(s);
      var byte := ConsumeOpcodeByte(s).value;
      CountGrows(AddOpcodeByte(specification, byte.value), count + 1, byte.rest);
    }
  }

  lemma {:induction false} NoMoreBytes(specification: EncodingSpecification, count: nat, s: string)
    requires ConsumeOpcodeBytes(specification, count, s).count == count
    ensures ConsumeOpcodeBytes(specification, count, s).specification == specification
  {
    if ConsumeOpcodeByte(s).Some? {
      var byte := ConsumeOpcodeByte(s).value;
      CountGrows(AddOpcodeByte(specification, byte.value), count + 1, byte.rest);
    }
  }

  lemma {:induction false} OpcodeBytesKeepOthers(specification: EncodingSpecification, count: nat, s: string)
    ensures var result := ConsumeOpcodeBytes(specification, count, s).specification;
            result == specification.(opcode := result.opcode, operandInOpcode := result.operandInOpcode)
    decreases |s|
  {
    var byte := ConsumeOpcodeByte(s);
    if byte.Some? {
      OpcodeByteIsShorter(s);
      OpcodeBytesKeepOthers(AddOpcodeByte(specification, byte.value.value), count + 1, byte.value.rest);
    }
  }

  lemma {:induction false} OneByteIsAppended(specification: EncodingSpecification, s: string)
    requires ConsumeOpcodeBytes(specification, 0, s).count == 1
    ensures var opcode := ConsumeOpcodeBytes(specification, 0, s).specification.opcode;
            opcode == specification.opcode.AppendByte(opcode.b0)
  {
    var byte := ConsumeOpcodeByte(s).value;
    NoMoreBytes(AddOpcodeByte(specification, byte.value), 1, byte.rest);
  }

  lemma DigitIsSmall(c: char)
    ensures DigitValue(c) <= 9
  {
  }

  lemma OneMoreImmediate(sizes: seq<nat>, c: char)
    requires AreImmediateSizes(sizes)
    ensures AreImmediateSizes(sizes + [ImmediateSize(c)])
  {
  }

  lemma SuffixIsUsable(specification: EncodingSpecification, suffix: Suffix)
    requires IsUsable(specification) && NamesMap(specification)
    ensures match AddSuffix(specification, suffix)
            case Success(next) => IsUsable(next) && NamesMap(next)
            case Failure(_) => true
  {
    match suffix
    case ModRmSuffix(c) => ModRmSuffixIsUsable(specification, c);
    case Immediate(c) => OneMoreImmediate(specification.immediateValueBytes, c);
    case CodeOffset(c) => assert IsCodeOffsetSize(CodeOffsetSize(c));
    case MemoryOperand =>
    case _ =>
      if specification.prefix.VexSpecification? {
        PrefixFlagsAreFree(specification);
      }
  }

  lemma ModRmSuffixIsUsable(specification: EncodingSpecification, c: char)
    requires IsUsable(specification) && NamesMap(specification)
    ensures var next := AddSuffix(specification, ModRmSuffix(c)).value;
            IsUsable(next) && NamesMap(next)
  {
    DigitIsSmall(c);
    ModRmIsFree(specification, DigitValue(c));
  }

  lemma ModRmIsFree(specification: EncodingSpecification, extension: bv32)
    requires IsUsable(specification) && NamesMap(specification) && extension <= 9
    ensures var full := specification.(modrmUsage := FullModRm);
            var extended := specification.(modrmUsage := OpcodeExtensionInModRm, modrmOpcodeExtension := extension);
            IsUsable(full) && NamesMap(full) && IsUsable(extended) && NamesMap(extended)
  {
  }

  lemma PrefixFlagsAreFree(specification: EncodingSpecification)
    requires specification.prefix.VexSpecification? && IsUsable(specification) && NamesMap(specification)
    ensures var vex := specification.prefix.vex;
            var withSuffix := specification.(prefix := VexSpecification(vex.(hasVexOperandSuffix := true)));
            var withVSib := specification.(prefix := VexSpecification(vex.(vsibUsage := VSibUsed)));
            IsUsable(withSuffix) && NamesMap(withSuffix) && IsUsable(withVSib) && NamesMap(withVSib)
  {
  }

  lemma {:induction false} SuffixesAreUsable(specification: EncodingSpecification, s: string)
    requires IsUsable(specification) && NamesMap(specification)
    ensures match ConsumeSuffixes(specification, s)
            case Success((next, _)) => IsUsable(next) && NamesMap(next)
            case Failure(_) => true
    decreases |s|
  {
    var suffix := ConsumeSuffix(s);
    if suffix.Some? {
      SuffixIsUsable(specification, suffix.value.value);
      var next := AddSuffix(specification, suffix.value.value);
      if next.Success? {
        SuffixesAreUsable(next.value, suffix.value.rest);
      }
    }
  }

  lemma AppendedOpcodeNamesMap(base: EncodingSpecification, byte: bv8)
    requires base.prefix.VexSpecification? && IsOpcodeMap(base.prefix.vex.mapSelect)
    ensures MapOpcode(base.prefix.vex.mapSelect).AppendByte(byte) ==
            OpcodeWithMap(base.prefix.vex.mapSelect, byte)
  {
  }

  lemma {:induction false} OpcodeIsUsable(base: EncodingSpecification, s: string)
    requires IsUsable(base)
    requires base.prefix.VexSpecification? ==> base.opcode == MapOpcode(base.prefix.vex.mapSelect)
    ensures var opcode := ConsumeOpcodeBytes(base, 0, s);
            opcode.count > 0 && (base.prefix.VexSpecification? ==> opcode.count == 1) ==>
              IsUsable(opcode.specification) && NamesMap(opcode.specification)
  {
    var opcode := ConsumeOpcodeBytes(base, 0, s);
    OpcodeBytesKeepOthers(base, 0, s);
    if base.prefix.VexSpecification? && opcode.count == 1 {
      OneByteIsAppended(base, s);
      AppendedOpcodeNamesMap(base, opcode.specification.opcode.b0);
    }
  }

  lemma BodyIsUsable(base: EncodingSpecification, s: string)
    requires IsUsable(base) && base.modrmUsage.NoModRmUsage?
    requires base.prefix.VexSpecification? ==>
               base.opcode == MapOpcode(base.prefix.vex.mapSelect) && base.prefix.vex.vsibUsage.VSibUnused?
    ensures match ParseOpcodeAndSuffixes(base, s)
            case Success(result) => IsUsable(result) && NamesMap(result) && HasModRmForVSib(result)
            case Failure(_) => true
  {
    var opcode := ConsumeOpcodeBytes(base, 0, s);
    OpcodeBytesKeepOthers(base, 0, s);
    OpcodeIsUsable(base, s);
    if opcode.count > 0 && (base.prefix.VexSpecification? ==> opcode.count == 1) {
      assert opcode.specification.prefix == base.prefix && HasModRmForVSib(opcode.specification);
      SuffixesAreUsable(opcode.specification, opcode.rest);
      var suffixes := ConsumeSuffixes(opcode.specification, opcode.rest);
      if suffixes.Success? {
        VSibModRmIsUsable(suffixes.value.0);
      }
    }
  }

  lemma VSibModRmIsUsable(specification: EncodingSpecification)
    requires IsUsable(specification) && NamesMap(specification)
    ensures var result := WithVSibModRm(specification);
            IsUsable(result) && NamesMap(result) && HasModRmForVSib(result)
  {
  }

  lemma ParsedSpecificationIsUsable(s: string)
    requires HasVexPrefix(s) ==> NamesVectorSize(s)
    ensures match ParseEncodingSpecification(s)
            case Success(specification) =>
              IsUsable(specification) && NamesMap(specification) && HasModRmForVSib(specification)
            case Failure(_) => true
  {
    ParsedPrefixIsUsable(s);
    var parsed := if HasVexPrefix(s) then ParseVexPrefix(s) else Success(ParseLegacyPrefixes(s));
    if parsed.Success? {
      BodyIsUsable(parsed.value.0, parsed.value.1);
    }
  }

  // The round trip of instructions works with a parsed specification, unless its
  // opcode extension is 8 or 9, which the language accepts.
  lemma ParsedSpecificationIsReadable(s: string)
    requires HasVexPrefix(s) ==> NamesVectorSize(s)
    requires ParseEncodingSpecification(s).Success?
    ensures var specification := ParseEncodingSpecification(s).value;
            && EvexBInterpretationsAreAllowed(specification)
            && (IsReadable(specification) <==>
                (specification.modrmUsage.OpcodeExtensionInModRm? ==> specification.modrmOpcodeExtension <= 7))
  {
    ParsedSpecificationIsUsable(s);
  }
}
