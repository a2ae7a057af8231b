// Parsing a generated encoding specification string: what comes back, and when.
module SpecificationRoundTrip {
  import opened Wrappers
  import opened Scanner
  import opened Opcodes
  import opened X86Protos
  import opened EncodingSpecificationLanguage
  import opened EncodingSpecificationGenerator
  import opened SpecificationSuffixes
  import opened SpecificationPrefixes
  import SpecificationVexPrefix

  // ---- What the language can express ----------------------------------------

  function CanonicalPrefix(specification: EncodingSpecification): PrefixSpecification {
    match specification.prefix
    case NoPrefixSpecification => LegacySpecification(NO_LEGACY_PREFIXES)
    case LegacySpecification(legacy) => LegacySpecification(CanonicalLegacy(legacy))
    case VexSpecification(vex) =>
      VexSpecification(NO_VEX_PREFIX.(
        prefixType := vex.prefixType, vectorSize := vex.vectorSize, mandatoryPrefix := vex.mandatoryPrefix,
        mapSelect := vex.mapSelect, vexWUsage := vex.vexWUsage))
  }

  function WithOpcode(specification: EncodingSpecification): EncodingSpecification {
    NO_SPECIFICATION.(prefix := CanonicalPrefix(specification), opcode := specification.opcode,
                      operandInOpcode := specification.operandInOpcode)
  }

  // The fields that the generator prints; the other ones get their defaults.
  function Canonical(specification: EncodingSpecification): EncodingSpecification {
    CanonicalModRm(specification, WithOpcode(specification))
    .(immediateValueBytes := specification.immediateValueBytes)
  }

  // The text is read as it was printed: the opcode extension has one digit, a
  // vector of 512 bits has an EVEX prefix, and the opcode does not start like one
  // of the legacy prefixes.
  predicate IsReadableText(specification: EncodingSpecification) {
    && HasShortExtension(specification)
    && (match specification.prefix
        case VexSpecification(vex) => vex.vectorSize.VectorSize512Bit? ==> vex.prefixType.EvexType?
        case _ => !IsPrefixByte(specification.opcode.Bytes()[0]))
  }

  // ---- The opcode and the suffixes ------------------------------------------

  lemma {:induction false} BytesGiveOpcode(opcode: Opcode, specification: EncodingSpecification)
    requires opcode.b3 == 0 && specification.opcode == ZERO
    ensures WithBytes(specification, opcode.Bytes()) == specification.(opcode := opcode)
  {
    var bytes := opcode.Bytes();
    UnfoldBytes(specification, bytes);
  }

  lemma {:induction false} UnfoldBytes(specification: EncodingSpecification, bytes: seq<bv8>)
    requires 1 <= |bytes| <= 3
    ensures WithBytes(specification, bytes) ==
            specification.(opcode :=
              var first := specification.opcode.AppendByte(bytes[0]);
              var second := if |bytes| > 1 then first.AppendByte(bytes[1]) else first;
              if |bytes| > 2 then second.AppendByte(bytes[2]) else second)
  {
    var first := specification.(opcode := specification.opcode.AppendByte(bytes[0]));
    assert WithBytes(specification, bytes) == WithBytes(first, bytes[1..]);
    if |bytes| > 1 {
      var second := first.(opcode := first.opcode.AppendByte(bytes[1]));
      assert bytes[1..][1..] == bytes[2..];
      assert WithBytes(first, bytes[1..]) == WithBytes(second, bytes[2..]);
      if |bytes| > 2 {
        assert bytes[2..][1..] == [];
      }
    }
  }

  lemma EmptySuffixes(specification: EncodingSpecification, result: EncodingSpecification)
    requires Reads(specification, "", result)
    ensures result == specification
  {
  }

  // Everything after the prefixes, possibly with spaces in front of it.
  lemma {:induction false} OpcodeAndSuffixesRoundTrip(
    format: InstructionFormat, specification: EncodingSpecification, base: EncodingSpecification, s: string
  )
    requires CanGenerate(format, specification) && HasShortExtension(specification)
    requires base.operandInOpcode.NoOperandInOpcode? && base.immediateValueBytes == []
    requires !base.GetVexPrefix().vsibUsage.VSibUsed?
    requires var bytes := PrintedOpcode(specification).Bytes();
             && WithBytes(base, bytes) == base.(opcode := specification.opcode)
             && (base.prefix.VexSpecification? ==> |bytes| == 1)
             && SkipSpaces(s) == OpcodeText(bytes) + AfterOpcodeText(format, specification)
    ensures ParseOpcodeAndSuffixes(base, s) ==
            Success(CanonicalModRm(specification, base.(opcode := specification.opcode,
                                                        operandInOpcode := specification.operandInOpcode))
                    .(immediateValueBytes := specification.immediateValueBytes))
  {
    var bytes := PrintedOpcode(specification).Bytes();
    var suffixes := ModRmText(specification) + ImmediatesText(specification.immediateValueBytes);
    var operandText := OperandInOpcodeText(format, specification);
    var target := base.(opcode := specification.opcode, operandInOpcode := specification.operandInOpcode);
    SuffixesEndOpcode(specification, specification.immediateValueBytes);
    OperandRoundTrip(format, specification, suffixes);
    OpcodeRoundTrip(base, 0, bytes, operandText, specification.operandInOpcode, suffixes);
    SkipToOpcode(base, s, OpcodeText(bytes) + (operandText + suffixes));
    SuffixesRoundTrip(specification, target);
    FinishParse(base, s, target, |bytes|, suffixes,
                CanonicalModRm(specification, target).(immediateValueBytes := specification.immediateValueBytes));
  }

  function AfterOpcodeText(format: InstructionFormat, specification: EncodingSpecification): string
    requires CanGenerate(format, specification)
  {
    OperandInOpcodeText(format, specification) +
    (ModRmText(specification) + ImmediatesText(specification.immediateValueBytes))
  }

  lemma {:induction false} SkipToOpcode(base: EncodingSpecification, s: string, t: string)
    requires SkipSpaces(s) == t && ConsumeOpcodeBytes(base, 0, t).count > 0
    ensures ConsumeOpcodeBytes(base, 0, s) == ConsumeOpcodeBytes(base, 0, t)
  {
    SkipNothing(t);
  }

  lemma {:induction false} FinishParse(
    base: EncodingSpecification, s: string, target: EncodingSpecification, count: nat, suffixes: string,
    result: EncodingSpecification
  )
    requires ConsumeOpcodeBytes(base, 0, s) == OpcodeBytesMatch(target, count, suffixes) && count > 0
    requires target.prefix.VexSpecification? ==> count == 1
    requires Reads(target, suffixes, result) && !result.GetVexPrefix().vsibUsage.VSibUsed?
    ensures ParseOpcodeAndSuffixes(base, s) == Success(result)
  {
    if suffixes == "" {
      EmptySuffixes(target, result);
    }
  }

  // ---- The whole text -------------------------------------------------------

  // The prefixes of a generated legacy text never look like VEX or EVEX.
  lemma LegacyTextIsNotVex(prefixes: LegacyPrefixSpecification, s: string)
    requires s != "" && !HasVexPrefix(s)
    ensures !HasVexPrefix(LegacyPrefixText(prefixes) + s)
  {
    var text := LegacyPrefixText(prefixes);
    if text == "" {
      assert text + s == s;
    } else {
      assert text[0] in {'R', 'F', '6'};
      assert (text + s)[0] == text[0];
    }
  }

  lemma {:induction false} LegacyTextInOrder(format: InstructionFormat, specification: EncodingSpecification)
    requires CanGenerate(format, specification) && !specification.prefix.VexSpecification?
    ensures SpecificationText(format, specification) ==
            LegacyPrefixText(specification.GetLegacyPrefixes()) +
            (OpcodeText(specification.opcode.Bytes()) + AfterOpcodeText(format, specification))
  {
  }

  lemma {:induction false} LegacyRoundTrip(format: InstructionFormat, specification: EncodingSpecification)
    requires CanGenerate(format, specification) && IsReadableText(specification)
    requires !specification.prefix.VexSpecification?
    ensures var text := SpecificationText(format, specification);
            !HasVexPrefix(text) && ParseEncodingSpecification(text) == Success(Canonical(specification))
  {
    var bytes := specification.opcode.Bytes();
    var body := OpcodeText(bytes) + AfterOpcodeText(format, specification);
    LegacyTextInOrder(format, specification);
    OpcodeIsNoPrefix(bytes, AfterOpcodeText(format, specification));
    LegacyTextIsNotVex(specification.GetLegacyPrefixes(), body);
    LegacyPrefixesAreRead(specification, body);
    var base := NO_SPECIFICATION.(prefix := CanonicalPrefix(specification));
    BytesGiveOpcode(specification.opcode, base);
    OpcodeAndSuffixesRoundTrip(
      format, specification, base, LegacyTokens(LegacyPrefixText(specification.GetLegacyPrefixes()) + body).rest);
  }

  lemma {:induction false} LegacyPrefixesAreRead(specification: EncodingSpecification, body: string)
    requires !specification.prefix.VexSpecification? && StartsToken(body) && ReadsPrefixes(body, [], body)
    ensures var tokens := LegacyTokens(LegacyPrefixText(specification.GetLegacyPrefixes()) + body);
            && LegacySpecification(LegacyPrefixesOf(tokens.value)) == CanonicalPrefix(specification)
            && SkipSpaces(tokens.rest) == body
  {
    var prefixes := specification.GetLegacyPrefixes();
    LegacyPrefixesRoundTrip(prefixes, body, [], body);
    assert LegacyPrefixTokens(prefixes) + [] == LegacyPrefixTokens(prefixes);
    PrintedTokensAreFound(prefixes);
  }

  lemma {:induction false} VexRoundTrip(format: InstructionFormat, specification: EncodingSpecification)
    requires CanGenerate(format, specification) && IsReadableText(specification)
    requires specification.prefix.VexSpecification?
    ensures var text := SpecificationText(format, specification);
            && HasVexPrefix(text) && NamesVectorSize(text)
            && ParseEncodingSpecification(text) == Success(Canonical(specification))
  {
    var vex := specification.prefix.vex;
    var bytes := PrintedOpcode(specification).Bytes();
    assert bytes == [specification.opcode.b0];
    var body := OpcodeText(bytes) + AfterOpcodeText(format, specification);
    SpecificationVexPrefix.VexPrefixRoundTrip(vex, body);
    var parsed := ParseVexPrefix(VexPrefixText(vex) + body);
    assert parsed.Success? && parsed.value.1 == body;
    var base := parsed.value.0;
    UnfoldBytes(base, bytes);
    HexOfPrefix(bytes[0]);
    SkipNothing(body);
    OpcodeAndSuffixesRoundTrip(format, specification, base, body);
  }

  // ---- Texts that are read differently --------------------------------------

  lemma {:induction false} DecimalStart(n: nat)
    requires n > 0
    ensures '1' <= DecimalText(n)[0] <= '9'
    ensures n >= 10 ==> |DecimalText(n)| >= 2 && '0' <= DecimalText(n)[1] <= '9'
    decreases n
  {
    if n >= 10 {
      DecimalStart(n / 10);
      SecondDigit(DecimalText(n / 10), DecimalDigit(n % 10));
    }
  }

  lemma SecondDigit(front: string, digit: char)
    requires front != ""
    ensures var text := front + [digit];
            text[0] == front[0] && |text| >= 2 && text[1] == if |front| == 1 then digit else front[1]
  {
  }

  // Only the first digit of a long opcode extension is read, and the next one is
  // left over.
  lemma {:induction false} LongExtensionIsCut(specification: EncodingSpecification, target: EncodingSpecification)
    requires !HasShortExtension(specification)
    ensures LeavesText(target, ModRmText(specification) + ImmediatesText(specification.immediateValueBytes))
  {
    var digits := DecimalText(specification.modrmOpcodeExtension as nat);
    var rest := ImmediatesText(specification.immediateValueBytes);
    SmallNumber(specification.modrmOpcodeExtension);
    DecimalStart(specification.modrmOpcodeExtension as nat);
    SplitDigits(digits, rest);
    DigitIsLeft(target, digits[0], digits[1..] + rest);
  }

  predicate LeavesText(target: EncodingSpecification, s: string) {
    s != "" && match ConsumeSuffixes(target, s)
               case Success((_, rest)) => !IsBlank(rest)
               case Failure(_) => true
  }

  lemma SplitDigits(digits: string, rest: string)
    requires |digits| >= 2
    ensures (" /" + digits) + rest == " " + ("/" + ([digits[0]] + (digits[1..] + rest)))
    ensures (digits[1..] + rest)[0] == digits[1]
  {
  }

  lemma DigitIsLeft(target: EncodingSpecification, c: char, after: string)
    requires '1' <= c <= '9' && after != "" && '0' <= after[0] <= '9'
    ensures LeavesText(target, " " + ("/" + ([c] + after)))
  {
    var t := "/" + ([c] + after);
    SpaceIsSkipped(t);
    SlashDigit(c, after);
    SkipNothing(after);
    var next := AddSuffix(target, ModRmSuffix(c)).value;
    OneSuffix(target, " " + t, ModRmSuffix(c), after, next);
    DigitIsNoSuffix(next, after);
  }

  lemma DigitIsNoSuffix(target: EncodingSpecification, s: string)
    requires s != "" && '0' <= s[0] <= '9'
    ensures ConsumeSuffixes(target, s) == Success((target, s)) && !IsBlank(s)
  {
    SkipNothing(s);
    assert ConsumeSuffix(s).None?;
  }

  lemma SlashDigit(c: char, after: string)
    requires '1' <= c <= '9'
    ensures ConsumeSuffix("/" + ([c] + after)) == Some(Match(ModRmSuffix(c), after))
  {
    var t := "/" + ([c] + after);
    SkipNothing(t);
    assert t[0] == '/' && t[1] == c && t[2..] == after;
  }

  lemma {:induction false} LongExtensionFails(
    format: InstructionFormat, specification: EncodingSpecification, base: EncodingSpecification, s: string
  )
    requires CanGenerate(format, specification) && !HasShortExtension(specification)
    requires base.operandInOpcode.NoOperandInOpcode?
    requires SkipSpaces(s) == OpcodeText(PrintedOpcode(specification).Bytes()) + AfterOpcodeText(format, specification)
    ensures ParseOpcodeAndSuffixes(base, s).Failure?
  {
    var bytes := PrintedOpcode(specification).Bytes();
    var suffixes := ModRmText(specification) + ImmediatesText(specification.immediateValueBytes);
    var operandText := OperandInOpcodeText(format, specification);
    SuffixesEndOpcode(specification, specification.immediateValueBytes);
    OperandRoundTrip(format, specification, suffixes);
    OpcodeRoundTrip(base, 0, bytes, operandText, specification.operandInOpcode, suffixes);
    SkipToOpcode(base, s, OpcodeText(bytes) + (operandText + suffixes));
    LongExtensionIsCut(specification, ConsumeOpcodeBytes(base, 0, s).specification);
  }

  // After the prefixes are read some bytes of the opcode are gone.
  ghost predicate LosesBytes(bytes: seq<bv8>, after: string, rest: string) {
    || ConsumeOpcodeByte(rest).None?
    || exists k :: 1 <= k < |bytes| && rest == OpcodeText(bytes[k..]) + after
  }

  predicate StartsSuffix(s: string) {
    s == "" || s[0] == '/' || s[0] == 'i' || s[0] == 'r'
  }

  lemma NoLegacyPrefix(s: string)
    requires StartsSuffix(s)
    ensures ConsumeLegacyPrefix(s).None?
  {
    SkipNothing(s);
  }

  lemma NothingIsRead(s: string)
    requires StartsSuffix(s)
    ensures ReadsPrefixes(s, [], s) && ReadsPrefixes(" " + s, [], s) && ConsumeOpcodeByte(s).None?
  {
    NoLegacyPrefix(s);
    NoOpcodeByte(s);
    SpaceBeforePrefixes(s, [], s);
  }

  lemma NoOpcodeByte(s: string)
    requires StartsSuffix(s)
    ensures ConsumeOpcodeByte(s).None?
  {
    SkipNothing(s);
    if s != "" {
      assert HexValue(s[0]).None?;
    }
  }

  // What follows the last opcode byte when that byte is taken for a prefix.
  lemma {:induction false} AfterLastByte(format: InstructionFormat, specification: EncodingSpecification)
    requires CanGenerate(format, specification)
    ensures NothingAfter(SkipPlus(AfterOpcodeText(format, specification)))
  {
    var suffixes := ModRmText(specification) + ImmediatesText(specification.immediateValueBytes);
    var operandText := OperandInOpcodeText(format, specification);
    if operandText == "" {
      ImmediatesStart(specification.immediateValueBytes);
      assert operandText + suffixes == suffixes;
      SuffixesAfterByte(suffixes);
    } else {
      assert operandText[2] == 'r' || operandText[2] == 'i';
      OperandAfterByte(operandText, suffixes);
    }
  }

  predicate NothingAfter(s: string) {
    ReadsPrefixes(s, [], SkipSpaces(s)) && ConsumeOpcodeByte(SkipSpaces(s)).None?
  }

  lemma SuffixesAfterByte(suffixes: string)
    requires suffixes == "" || (|suffixes| > 1 && suffixes[0] == ' ' && (suffixes[1] == '/' || suffixes[1] == 'i'))
    ensures NothingAfter(SkipPlus(suffixes))
  {
    if suffixes == "" {
      NothingIsRead("");
    } else {
      var t := suffixes[1..];
      assert suffixes == " " + t;
      SkipNothing(t);
      NothingIsRead(t);
    }
  }

  lemma OperandAfterByte(operandText: string, suffixes: string)
    requires |operandText| > 2 && operandText[..2] == " +" && (operandText[2] == 'r' || operandText[2] == 'i')
    ensures NothingAfter(SkipPlus(operandText + suffixes))
  {
    var token := operandText[2..] + suffixes;
    assert operandText + suffixes == " " + ("+" + token);
    SkipNothing("+" + token);
    assert ("+" + token)[1..] == token;
    SkipNothing(token);
    NothingIsRead(token);
  }

  lemma PrefixTokenOfByte(byte: bv8) returns (token: LegacyToken)
    requires IsPrefixByte(byte)
    ensures PrefixTokenText(token) == HexText(byte)
  {
    HexOfPrefix(byte);
    token := if byte == 0x66 then Token66 else if byte == 0x67 then Token67 else if byte == 0xf2 then TokenF2 else TokenF3;
  }

  lemma {:induction false} PrefixBytesAreLost(
    format: InstructionFormat, specification: EncodingSpecification, bytes: seq<bv8>
  )
    returns (tokens: seq<LegacyToken>, rest: string)
    requires CanGenerate(format, specification) && bytes != [] && IsPrefixByte(bytes[0])
    ensures var s := OpcodeText(bytes) + AfterOpcodeText(format, specification);
            StartsToken(s) && !HasVexPrefix(s) && ReadsPrefixes(s, tokens, rest)
    ensures LosesBytes(bytes, AfterOpcodeText(format, specification), rest)
    decreases |bytes|
  {
    var after := AfterOpcodeText(format, specification);
    var s := OpcodeText(bytes) + after;
    var token := PrefixTokenOfByte(bytes[0]);
    StartsLikeOpcode(bytes, after);
    if |bytes| == 1 {
      assert s == PrefixTokenText(token) + after;
      PrefixByteIsConsumed(token, after);
      AfterLastByte(format, specification);
      rest := SkipSpaces(SkipPlus(after));
      OnePrefix(s, token, SkipPlus(after), [], rest);
      tokens := [token];
    } else {
      var tail := OpcodeText(bytes[1..]) + after;
      assert s == PrefixTokenText(token) + " " + tail;
      if IsPrefixByte(bytes[1]) {
        tokens, rest := PrefixBytesAreLost(format, specification, bytes[1..]);
        if k :| 1 <= k < |bytes[1..]| && rest == OpcodeText(bytes[1..][k..]) + after {
          assert bytes[1..][k..] == bytes[k + 1..];
        }
      } else {
        OpcodeIsNoPrefix(bytes[1..], after);
        tokens, rest := [], tail;
      }
      PrefixByteRoundTrip(token, tail, tokens, rest);
      tokens := [token] + tokens;
    }
  }

  lemma {:induction false} StartsLikeOpcode(bytes: seq<bv8>, rest: string)
    requires bytes != []
    ensures var text := OpcodeText(bytes) + rest;
            StartsToken(text) && !HasVexPrefix(text)
  {
    var text := OpcodeText(bytes) + rest;
    HexOfPrefix(bytes[0]);
    assert text[0] == HexText(bytes[0])[0] && text[1] == HexText(bytes[0])[1];
  }

  lemma {:induction false} SuffixesKeepOpcode(specification: EncodingSpecification, s: string)
    ensures match ConsumeSuffixes(specification, s)
            case Success((result, _)) => result.opcode == specification.opcode
            case Failure(_) => true
    decreases |s|
  {
    var suffix := ConsumeSuffix(s);
    if suffix.Some? && AddSuffix(specification, suffix.value.value).Success? {
      SuffixesKeepOpcode(AddSuffix(specification, suffix.value.value).value, suffix.value.rest);
    }
  }

  // An opcode that starts with a prefix byte is not read back.
  lemma {:induction false} LostOpcodeDiffers(
    format: InstructionFormat, specification: EncodingSpecification, base: EncodingSpecification, s: string, rest: string
  )
    requires CanGenerate(format, specification) && !specification.prefix.VexSpecification?
    requires IsPrefixByte(specification.opcode.Bytes()[0])
    requires base.opcode == ZERO && base.operandInOpcode.NoOperandInOpcode?
    requires SkipSpaces(s) == rest
    requires LosesBytes(specification.opcode.Bytes(), AfterOpcodeText(format, specification), rest)
    ensures OpcodeDiffers(ParseOpcodeAndSuffixes(base, s), specification.opcode)
  {
    var bytes := specification.opcode.Bytes();
    if ConsumeOpcodeByte(rest).None? {
      SkipNothing(rest);
      assert ConsumeOpcodeByte(s).None?;
    } else {
      var k :| 1 <= k < |bytes| && rest == OpcodeText(bytes[k..]) + AfterOpcodeText(format, specification);
      ReadsRemainingBytes(format, specification, base, bytes[k..], s);
      UnfoldBytes(base, bytes[k..]);
      var parsed := ConsumeOpcodeBytes(base, 0, s);
      assert parsed.specification.opcode != specification.opcode;
      ParseKeepsOpcode(base, s);
    }
  }

  predicate OpcodeDiffers(result: Result<EncodingSpecification>, opcode: Opcode) {
    result.Success? ==> result.value.opcode != opcode
  }

  lemma {:induction false} ReadsRemainingBytes(
    format: InstructionFormat, specification: EncodingSpecification, base: EncodingSpecification,
    bytes: seq<bv8>, s: string
  )
    requires CanGenerate(format, specification) && bytes != [] && base.operandInOpcode.NoOperandInOpcode?
    requires SkipSpaces(s) == OpcodeText(bytes) + AfterOpcodeText(format, specification)
    ensures ConsumeOpcodeBytes(base, 0, s).specification.opcode == WithBytes(base, bytes).opcode
  {
    var suffixes := ModRmText(specification) + ImmediatesText(specification.immediateValueBytes);
    SuffixesEndOpcode(specification, specification.immediateValueBytes);
    OperandRoundTrip(format, specification, suffixes);
    OpcodeRoundTrip(base, 0, bytes, OperandInOpcodeText(format, specification), specification.operandInOpcode,
                    suffixes);
    SkipToOpcode(base, s, OpcodeText(bytes) + AfterOpcodeText(format, specification));
  }

  lemma {:induction false} ParseKeepsOpcode(base: EncodingSpecification, s: string)
    ensures var result := ParseOpcodeAndSuffixes(base, s);
            result.Success? ==> result.value.opcode == ConsumeOpcodeBytes(base, 0, s).specification.opcode
  {
    var parsed := ConsumeOpcodeBytes(base, 0, s);
    SuffixesKeepOpcode(parsed.specification, parsed.rest);
  }

  // ---- The round trip -------------------------------------------------------

  lemma {:induction false} LegacyTextDiffers(format: InstructionFormat, specification: EncodingSpecification)
    requires CanGenerate(format, specification) && !IsReadableText(specification)
    requires !specification.prefix.VexSpecification?
    ensures var text := SpecificationText(format, specification);
            !HasVexPrefix(text) && OpcodeDiffers(ParseEncodingSpecification(text), specification.opcode)
  {
    var bytes := specification.opcode.Bytes();
    var after := AfterOpcodeText(format, specification);
    var body := OpcodeText(bytes) + after;
    var prefixes := specification.GetLegacyPrefixes();
    LegacyTextInOrder(format, specification);
    StartsLikeOpcode(bytes, after);
    LegacyTextIsNotVex(prefixes, body);
    var parsed := ParseLegacyPrefixes(LegacyPrefixText(prefixes) + body);
    if IsPrefixByte(bytes[0]) {
      var tokens, rest := PrefixBytesAreLost(format, specification, bytes);
      LegacyPrefixesRoundTrip(prefixes, body, tokens, rest);
      LostOpcodeDiffers(format, specification, parsed.0, parsed.1, rest);
    } else {
      OpcodeIsNoPrefix(bytes, after);
      LegacyPrefixesRoundTrip(prefixes, body, [], body);
      LongExtensionFails(format, specification, parsed.0, parsed.1);
    }
  }

  lemma {:induction false} VexTextFails(format: InstructionFormat, specification: EncodingSpecification)
    requires CanGenerate(format, specification) && !IsReadableText(specification)
    requires specification.prefix.VexSpecification?
    ensures var text := SpecificationText(format, specification);
            HasVexPrefix(text) && NamesVectorSize(text) && ParseEncodingSpecification(text).Failure?
  {
    var vex := specification.prefix.vex;
    var bytes := PrintedOpcode(specification).Bytes();
    var body := OpcodeText(bytes) + AfterOpcodeText(format, specification);
    SpecificationVexPrefix.VexPrefixRoundTrip(vex, body);
    var parsed := ParseVexPrefix(VexPrefixText(vex) + body);
    if parsed.Success? {
      HexOfPrefix(bytes[0]);
      SkipNothing(body);
      LongExtensionFails(format, specification, parsed.value.0, body);
    }
  }

  // Parsing the generated text gives the specification back exactly when the
  // language can express it and the text is read as it was printed.
  lemma {:induction false} SpecificationTextRoundTrip(format: InstructionFormat, specification: EncodingSpecification)
    requires CanGenerate(format, specification)
    ensures var text := SpecificationText(format, specification);
            && (HasVexPrefix(text) ==> NamesVectorSize(text))
            && (IsReadableText(specification) ==>
                  ParseEncodingSpecification(text) == Success(Canonical(specification)))
            && (ParseEncodingSpecification(text) == Success(specification) <==>
                IsReadableText(specification) && Canonical(specification) == specification)
  {
    if specification.prefix.VexSpecification? {
      if IsReadableText(specification) {
        VexRoundTrip(format, specification);
      } else {
        VexTextFails(format, specification);
      }
    } else {
      if IsReadableText(specification) {
        LegacyRoundTrip(format, specification);
      } else {
        LegacyTextDiffers(format, specification);
      }
    }
  }

  // ---- Texts that are not read back -----------------------------------------

  predicate IsNotReadBack(specification: EncodingSpecification) {
    var format := InstructionFormat("", []);
    CanGenerate(format, specification) &&
    var text := SpecificationText(format, specification);
    (HasVexPrefix(text) ==> NamesVectorSize(text)) &&
    ParseEncodingSpecification(text) != Success(specification)
  }

  function PrintedLegacy(opcode: Opcode, extension: bv32): EncodingSpecification {
    NO_SPECIFICATION.(
      opcode := opcode, prefix := LegacySpecification(NO_LEGACY_PREFIXES),
      modrmUsage := OpcodeExtensionInModRm, modrmOpcodeExtension := extension)
  }

  const LONG_VECTOR: EncodingSpecification :=
    NO_SPECIFICATION.(
      opcode := Opcode(0, 0, 0x0f, 0x58),
      prefix := VexSpecification(NO_VEX_PREFIX.(
        prefixType := VexType, vectorSize := VectorSize512Bit, mapSelect := Map0F)))

  // An opcode that starts with 66.
  lemma PrefixByteIsNotReadBack()
    ensures IsNotReadBack(PrintedLegacy(Opcode(0, 0, 0x66, 0x90), 0))
  {
    var specification := PrintedLegacy(Opcode(0, 0, 0x66, 0x90), 0);
    assert specification.opcode.Bytes()[0] == 0x66;
    SpecificationTextRoundTrip(InstructionFormat("", []), specification);
  }

  // An opcode extension with two digits.
  lemma LongExtensionIsNotReadBack()
    ensures IsNotReadBack(PrintedLegacy(OneByte(0xff), 10))
  {
    SpecificationTextRoundTrip(InstructionFormat("", []), PrintedLegacy(OneByte(0xff), 10));
  }

  // A VEX prefix with 512 bits.
  lemma LongVectorIsNotReadBack()
    ensures IsNotReadBack(LONG_VECTOR)
  {
    SpecificationTextRoundTrip(InstructionFormat("", []), LONG_VECTOR);
  }

  // The language has the extension /8, which no ModR/M byte can hold.
  lemma {:induction false} ExtensionEightIsParsed()
    ensures var specification := PrintedLegacy(OneByte(0xff), 8);
            var format := InstructionFormat("", []);
            && CanGenerate(format, specification) && !HasVexPrefix(SpecificationText(format, specification))
            && ParseEncodingSpecification(SpecificationText(format, specification)) == Success(specification)
  {
    var format := InstructionFormat("", []);
    var specification := PrintedLegacy(OneByte(0xff), 8);
    assert specification.opcode.Bytes()[0] == 0xff;
    assert Canonical(specification) == specification;
    LegacyRoundTrip(format, specification);
  }
}
