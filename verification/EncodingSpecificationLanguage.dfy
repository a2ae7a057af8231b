// The language of encoding specifications of the Intel manuals, such as
// "REX.W + 0F B2 /r" and "VEX.128.66.0F.WIG 58 /r": the parser and the generator
// (exegesis/x86/encoding_specification.cc).
module EncodingSpecificationLanguage {
  import opened Wrappers
  import opened Scanner
  import opened Opcodes
  import opened X86Protos

  const NO_LEGACY_PREFIXES: LegacyPrefixSpecification :=
    LegacyPrefixSpecification(PrefixUsageIsUnknown, false, false, PrefixUsageIsUnknown, false)
  const NO_VEX_PREFIX: VexPrefixSpecification :=
    VexPrefixSpecification(UndefinedPrefixType, UndefinedVexOperandUsage, VectorSizeIsIgnored, NoMandatoryPrefix,
                           UndefinedOperandMap, VexWIsIgnored, false, VSibUnused, [], EvexOpmaskIsNotUsed,
                           NoEvexMasking)
  const NO_SPECIFICATION: EncodingSpecification :=
    EncodingSpecification(ZERO, NoOperandInOpcode, NoModRmUsage, 0, NoPrefixSpecification, [], 0)

  // ---- Legacy prefixes ------------------------------------------------------

  datatype LegacyToken = TokenNP | TokenNFx | Token66 | Token67 | TokenF2 | TokenF3 | TokenRex | TokenRexW

  function SkipPlus(s: string): (rest: string)
    ensures |rest| <= |s|
  {
    var t := SkipSpaces(s);
    if t != [] && t[0] == '+' then SkipSpaces(t[1..]) else s
  }

  // One prefix and the whitespace and plus sign around it.
  function ConsumeLegacyPrefix(s: string): (result: Option<Match<LegacyToken>>)
    ensures result.Some? ==> |result.value.rest| < |s|
  {
    var t := SkipSpaces(s);
    if "NP" <= t then Some(Match(TokenNP, SkipPlus(t[2..])))
    else if "NFx" <= t then Some(Match(TokenNFx, SkipPlus(t[3..])))
    else if "66" <= t then Some(Match(Token66, SkipPlus(t[2..])))
    else if "67" <= t then Some(Match(Token67, SkipPlus(t[2..])))
    else if "F2" <= t then Some(Match(TokenF2, SkipPlus(t[2..])))
    else if "F3" <= t then Some(Match(TokenF3, SkipPlus(t[2..])))
    else if "REX.R" <= t then Some(Match(TokenRex, SkipPlus(t[5..])))
    else if "REX.W" <= t then Some(Match(TokenRexW, SkipPlus(t[5..])))
    else if "REX" <= t then Some(Match(TokenRex, SkipPlus(t[3..])))
    else None
  }

  // All prefixes at the front of the string.
  function LegacyTokens(s: string): Match<seq<LegacyToken>>
    decreases |s|
  {
    match ConsumeLegacyPrefix(s)
    case None => Match([], s)
    case Some(first) =>
      var others := LegacyTokens(first.rest);
      Match([first.value] + others.value, others.rest)
  }

  datatype FoundPrefixes = FoundPrefixes(
    noAdditionalPrefixes: bool,
    operandSizeOverride: bool,
    addressSizeOverride: bool,
    repe: bool,
    repne: bool,
    rexW: bool
  )

  function FoundIn(tokens: seq<LegacyToken>): FoundPrefixes {
    FoundPrefixes(TokenNP in tokens, Token66 in tokens, Token67 in tokens, TokenF3 in tokens, TokenF2 in tokens,
                  TokenRexW in tokens)
  }

  function LegacyPrefixesOf(tokens: seq<LegacyToken>): LegacyPrefixSpecification {
    LegacyPrefixSpecification(
      if TokenRexW in tokens then PrefixIsRequired else PrefixUsageIsUnknown,
      TokenF3 in tokens,
      TokenF2 in tokens,
      if Token66 in tokens then PrefixIsRequired
      else if TokenNP in tokens then PrefixIsNotPermitted
      else PrefixUsageIsUnknown,
      Token67 in tokens)
  }

  // ---- VEX and EVEX prefixes ------------------------------------------------

  const VEX_OPERAND_USAGE_TOKENS: seq<Token<VexOperandUsage>> :=
    [Token("NDS", VexOperandIsFirstSourceRegister),
     Token("NDD", VexOperandIsDestinationRegister),
     Token("DDS", VexOperandIsSecondSourceRegister)]
  const VECTOR_SIZE_TOKENS: seq<Token<Option<VexVectorSize>>> :=
    [Token("LLIG", Some(VectorSizeIsIgnored)),
     Token("LIG", Some(VectorSizeIsIgnored)),
     Token("LZ", Some(VectorSizeBitIsZero)),
     Token("L0", Some(VectorSizeBitIsZero)),
     Token("L1", Some(VectorSizeBitIsOne)),
     Token("LIG.128", Some(VectorSize128Bit)),
     Token("128", Some(VectorSize128Bit)),
     Token("256", Some(VectorSize256Bit)),
     Token("512", Some(VectorSize512Bit))]
  const MANDATORY_PREFIX_TOKENS: seq<Token<MandatoryPrefix>> :=
    [Token("66", MandatoryOperandSizeOverride), Token("F2", MandatoryRepne), Token("F3", MandatoryRepe)]
  const MAP_SELECT_TOKENS: seq<Token<MapSelect>> :=
    [Token("0F", Map0F), Token("0F3A", Map0F3A), Token("0F38", Map0F38)]
  const VEX_W_USAGE_TOKENS: seq<Token<VexWUsage>> :=
    [Token("W0", VexWIsZero), Token("W1", VexWIsOne), Token("WIG", VexWIsIgnored)]

  // A dot with whitespace around it, and one of the tokens.
  function Field<T>(s: string, tokens: seq<Token<T>>): seq<Match<T>> {
    var t := SkipSpaces(s);
    if t != [] && t[0] == '.' then Choices(SkipSpaces(t[1..]), tokens) else []
  }

  // An optional field is skipped only when the expression does not match with it.
  function OptionalField<T>(s: string, tokens: seq<Token<T>>, absent: T): seq<Match<T>> {
    Field(s, tokens) + [Match(absent, s)]
  }

  datatype VexTokens = VexTokens(
    usage: VexOperandUsage,
    vectorSize: Option<VexVectorSize>,
    mandatoryPrefix: MandatoryPrefix,
    mapSelect: MapSelect,
    vexWUsage: VexWUsage,
    rest: string
  )

  function MatchW(
    usage: VexOperandUsage, size: Option<VexVectorSize>, prefix: MandatoryPrefix, mapSelect: MapSelect,
    w: Match<VexWUsage>
  ): Option<VexTokens>
  {
    if " " <= w.rest then Some(VexTokens(usage, size, prefix, mapSelect, w.value, w.rest[1..])) else None
  }

  function MatchMap(
    usage: VexOperandUsage, size: Option<VexVectorSize>, prefix: MandatoryPrefix, mapSelect: Match<MapSelect>
  ): Option<VexTokens>
  {
    FirstSuccess(OptionalField(mapSelect.rest, VEX_W_USAGE_TOKENS, VexWIsIgnored),
                 w => MatchW(usage, size, prefix, mapSelect.value, w))
  }

  function MatchMandatoryPrefix(
    usage: VexOperandUsage, size: Option<VexVectorSize>, prefix: Match<MandatoryPrefix>
  ): Option<VexTokens>
  {
    FirstSuccess(Field(prefix.rest, MAP_SELECT_TOKENS), mapSelect => MatchMap(usage, size, prefix.value, mapSelect))
  }

  function MatchVectorSize(usage: VexOperandUsage, size: Match<Option<VexVectorSize>>): Option<VexTokens> {
    FirstSuccess(OptionalField(size.rest, MANDATORY_PREFIX_TOKENS, NoMandatoryPrefix),
                 prefix => MatchMandatoryPrefix(usage, size.value, prefix))
  }

  function MatchUsage(usage: Match<VexOperandUsage>): Option<VexTokens> {
    FirstSuccess(OptionalField(usage.rest, VECTOR_SIZE_TOKENS, None), size => MatchVectorSize(usage.value, size))
  }

  // What follows "VEX" or "EVEX".
  function MatchVexFields(s: string): Option<VexTokens> {
    FirstSuccess(OptionalField(s, VEX_OPERAND_USAGE_TOKENS, UndefinedVexOperandUsage), MatchUsage)
  }

  function MatchVexPrefix(s: string): Option<(VexPrefixType, VexTokens)> {
    var type_ := if "EVEX" <= s then EvexType else if "VEX" <= s then VexType else UndefinedPrefixType;
    if type_.UndefinedPrefixType? then None
    else
      match MatchVexFields(s[if type_.EvexType? then 4 else 3..])
      case None => None
      case Some(tokens) => Some((type_, tokens))
  }

  function MapOpcode(mapSelect: MapSelect): Opcode {
    match mapSelect
    case Map0F38 => Opcode(0, 0, 0x0f, 0x38)
    case Map0F3A => Opcode(0, 0, 0x0f, 0x3a)
    case _ => Opcode(0, 0, 0, 0x0f)
  }

  // The table of the vector sizes has no entry for a missing size: the lookup
  // ends the process.
  predicate NamesVectorSize(s: string) {
    match MatchVexPrefix(s)
    case Some((_, tokens)) => tokens.vectorSize.Some?
    case None => true
  }

  function ParseVexPrefix(s: string): Result<(EncodingSpecification, string)>
    requires NamesVectorSize(s)
  {
    match MatchVexPrefix(s)
    case None => Failure(InvalidArgument)
    case Some((prefixType, tokens)) =>
      if tokens.vectorSize.value.VectorSize512Bit? && !prefixType.EvexType? then Failure(InvalidArgument)
      else
        var vex := NO_VEX_PREFIX.(
          prefixType := prefixType, vexOperandUsage := tokens.usage, vectorSize := tokens.vectorSize.value,
          mandatoryPrefix := tokens.mandatoryPrefix, mapSelect := tokens.mapSelect, vexWUsage := tokens.vexWUsage);
        Success((NO_SPECIFICATION.(prefix := VexSpecification(vex), opcode := MapOpcode(tokens.mapSelect)),
                 tokens.rest))
  }

  // ---- Opcode ---------------------------------------------------------------

  function HexValue(c: char): Option<bv8> {
    if c == '0' then Some(0) else if c == '1' then Some(1) else if c == '2' then Some(2)
    else if c == '3' then Some(3) else if c == '4' then Some(4) else if c == '5' then Some(5)
    else if c == '6' then Some(6) else if c == '7' then Some(7) else if c == '8' then Some(8)
    else if c == '9' then Some(9) else if c == 'A' then Some(10) else if c == 'B' then Some(11)
    else if c == 'C' then Some(12) else if c == 'D' then Some(13) else if c == 'E' then Some(14)
    else if c == 'F' then Some(15) else None
  }

  const OPCODE_OPERAND_TOKENS: seq<Token<OperandInOpcode>> :=
    [Token("i", FpStackRegisterInOpcode),
     Token("rb", GeneralPurposeRegisterInOpcode),
     Token("rw", GeneralPurposeRegisterInOpcode),
     Token("rd", GeneralPurposeRegisterInOpcode),
     Token("ro", GeneralPurposeRegisterInOpcode)]

  // A plus sign with whitespace around it, and the kind of the operand.
  function OperandSuffix(s: string): Match<OperandInOpcode> {
    var t := SkipSpaces(s);
    if t != [] && t[0] == '+' then
      var choices := Choices(SkipSpaces(t[1..]), OPCODE_OPERAND_TOKENS);
      if choices == [] then Match(NoOperandInOpcode, s) else choices[0]
    else Match(NoOperandInOpcode, s)
  }

  datatype OpcodeByte = OpcodeByte(byte: bv8, operand: OperandInOpcode)

  function ConsumeOpcodeByte(s: string): Option<Match<OpcodeByte>> {
    var t := SkipSpaces(s);
    if |t| < 2 then None
    else
      match (HexValue(t[0]), HexValue(t[1]))
      case (Some(high), Some(low)) =>
        var suffix := OperandSuffix(t[2..]);
        Some(Match(OpcodeByte((high << 4) | low, suffix.value), suffix.rest))
      case _ => None
  }

  lemma {:induction false} ChoicesAreShorter<T>(s: string, tokens: seq<Token<T>>)
    ensures forall i :: 0 <= i < |Choices(s, tokens)| ==> |Choices(s, tokens)[i].rest| <= |s|
  {
    if tokens != [] {
      ChoicesAreShorter(s, tokens[1..]);
    }
  }

  lemma OpcodeByteIsShorter(s: string)
    ensures ConsumeOpcodeByte(s).Some? ==> |ConsumeOpcodeByte(s).value.rest| < |s|
  {
    var t := SkipSpaces(s);
    if |t| >= 2 {
      var u := SkipSpaces(t[2..]);
      if u != [] {
        ChoicesAreShorter(SkipSpaces(u[1..]), OPCODE_OPERAND_TOKENS);
      }
    }
  }

  // The operand of a byte without one leaves the operand of an earlier byte.
  function AddOpcodeByte(specification: EncodingSpecification, byte: OpcodeByte): EncodingSpecification {
    specification.(
      opcode := specification.opcode.AppendByte(byte.byte),
      operandInOpcode :=
        if byte.operand.NoOperandInOpcode? then specification.operandInOpcode else byte.operand)
  }

  datatype OpcodeBytesMatch = OpcodeBytesMatch(specification: EncodingSpecification, count: nat, rest: string)

  function ConsumeOpcodeBytes(specification: EncodingSpecification, count: nat, s: string): OpcodeBytesMatch
    decreases |s|
  {
    match ConsumeOpcodeByte(s)
    case None => OpcodeBytesMatch(specification, count, s)
    case Some(first) =>
      OpcodeByteIsShorter(s);
      ConsumeOpcodeBytes(AddOpcodeByte(specification, first.value), count + 1, first.rest)
  }

  // ---- Suffixes -------------------------------------------------------------

  datatype Suffix =
    | Is4
    | Immediate(size: char)
    | ModRmSuffix(modrm: char)
    | VSib
    | MemoryOperand
    | CodeOffset(size: char)

  predicate IsModRmChar(c: char) {
    c == 'r' || '0' <= c <= '9'
  }

  // A number may have one leading zero.
  function ConsumeSlashSuffix(t: string): (result: Option<Match<Suffix>>)
    ensures result.Some? ==> |result.value.rest| < |t|
  {
    if "/is4" <= t then Some(Match(Is4, t[4..]))
    else if |t| >= 3 && t[1] == '0' && IsModRmChar(t[2]) then Some(Match(ModRmSuffix(t[2]), t[3..]))
    else if |t| >= 2 && IsModRmChar(t[1]) then Some(Match(ModRmSuffix(t[1]), t[2..]))
    else if "/vsib" <= t then Some(Match(VSib, t[5..]))
    else None
  }

  function ConsumeMemorySuffix(t: string): (result: Option<Match<Suffix>>)
    ensures result.Some? ==> |result.value.rest| < |t|
  {
    if "m64" <= t then Some(Match(MemoryOperand, t[3..]))
    else if "m128" <= t || "m256" <= t then Some(Match(MemoryOperand, t[4..]))
    else None
  }

  // The alternatives that start with different characters exclude each other.
  function ConsumeSuffix(s: string): (result: Option<Match<Suffix>>)
    ensures result.Some? ==> |result.value.rest| < |s|
  {
    var t := SkipSpaces(s);
    if |t| < 2 then None
    else if t[0] == '/' then ConsumeSlashSuffix(t)
    else if t[0] == 'i' && t[1] in {'b', 'w', 'd', 'o'} then Some(Match(Immediate(t[1]), t[2..]))
    else if t[0] == 'm' then ConsumeMemorySuffix(t)
    else if t[0] == 'c' && t[1] in {'b', 'w', 'd', 'p', 'o', 't'} then Some(Match(CodeOffset(t[1]), t[2..]))
    else None
  }

  function DigitValue(c: char): bv32 {
    if c == '0' then 0 else if c == '1' then 1 else if c == '2' then 2 else if c == '3' then 3
    else if c == '4' then 4 else if c == '5' then 5 else if c == '6' then 6 else if c == '7' then 7
    else if c == '8' then 8 else 9
  }

  function ImmediateSize(c: char): nat {
    if c == 'b' then 1 else if c == 'w' then 2 else if c == 'd' then 4 else 8
  }

  function CodeOffsetSize(c: char): nat {
    if c == 'b' then 1 else if c == 'w' then 2 else if c == 'd' then 4 else if c == 'p' then 6
    else if c == 'o' then 8 else 10
  }

  // Full ModR/M leaves an opcode extension that was read before it.
  function AddSuffix(specification: EncodingSpecification, suffix: Suffix): Result<EncodingSpecification> {
    match suffix
    case ModRmSuffix(c) =>
      Success(if c == 'r' then specification.(modrmUsage := FullModRm)
              else specification.(modrmUsage := OpcodeExtensionInModRm, modrmOpcodeExtension := DigitValue(c)))
    case Immediate(c) =>
      Success(specification.(immediateValueBytes := specification.immediateValueBytes + [ImmediateSize(c)]))
    case CodeOffset(c) => Success(specification.(codeOffsetBytes := CodeOffsetSize(c)))
    case Is4 =>
      if !specification.prefix.VexSpecification? then Failure(InvalidArgument)
      else Success(specification.(prefix := VexSpecification(specification.prefix.vex.(hasVexOperandSuffix := true))))
    case VSib =>
      if !specification.prefix.VexSpecification? then Failure(InvalidArgument)
      else Success(specification.(prefix := VexSpecification(specification.prefix.vex.(vsibUsage := VSibUsed))))
    case MemoryOperand => Success(specification)
  }

  function ConsumeSuffixes(specification: EncodingSpecification, s: string): Result<(EncodingSpecification, string)>
    decreases |s|
  {
    match ConsumeSuffix(s)
    case None => Success((specification, s))
    case Some(first) =>
      var next :- AddSuffix(specification, first.value);
      ConsumeSuffixes(next, first.rest)
  }

  // VSIB implies that the ModR/M byte is used.
  function WithVSibModRm(specification: EncodingSpecification): EncodingSpecification {
    if specification.GetVexPrefix().vsibUsage.VSibUsed? && specification.modrmUsage.NoModRmUsage?
    then specification.(modrmUsage := FullModRm)
    else specification
  }

  function ParseOpcodeAndSuffixes(specification: EncodingSpecification, s: string): Result<EncodingSpecification> {
    var opcode := ConsumeOpcodeBytes(specification, 0, s);
    if opcode.count == 0 then Failure(InvalidArgument)
    else if opcode.specification.prefix.VexSpecification? && opcode.count != 1 then Failure(InvalidArgument)
    else if opcode.rest == [] then Success(opcode.specification)
    else
      var (withSuffixes, rest) :- ConsumeSuffixes(opcode.specification, opcode.rest);
      if IsBlank(rest) then Success(WithVSibModRm(withSuffixes)) else Failure(InvalidArgument)
  }

  predicate HasVexPrefix(s: string) {
    "VEX." <= s || "EVEX" <= s
  }

  function ParseLegacyPrefixes(s: string): (EncodingSpecification, string) {
    var tokens := LegacyTokens(s);
    (NO_SPECIFICATION.(prefix := LegacySpecification(LegacyPrefixesOf(tokens.value))), tokens.rest)
  }

  function ParseEncodingSpecification(s: string): Result<EncodingSpecification>
    requires HasVexPrefix(s) ==> NamesVectorSize(s)
  {
    var (withPrefix, rest) :-
      if HasVexPrefix(s) then ParseVexPrefix(s) else Success(ParseLegacyPrefixes(s));
    ParseOpcodeAndSuffixes(withPrefix, rest)
  }

  // ---- The parser -----------------------------------------------------------

  class EncodingSpecificationParser {
    var specification: EncodingSpecification

    constructor ()
      ensures specification == NO_SPECIFICATION
    {
      specification := NO_SPECIFICATION;
    }

    method ParseFromString(s: string) returns (result: Result<EncodingSpecification>)
      requires HasVexPrefix(s) ==> NamesVectorSize(s)
      modifies this
      ensures result == ParseEncodingSpecification(s)
    {
      specification := NO_SPECIFICATION;
      var rest;
      if HasVexPrefix(s) {
        var status;
        status, rest := ParseVexOrEvexPrefix(s);
        if !status.Ok? {
          return Failure(status);
        }
      } else {
        rest := ParseLegacy(s);
      }
      var status := ParseOpcodeAndSuffixesOf(rest);
      return if status.Ok? then Success(specification) else Failure(status);
    }

    method ParseLegacy(s: string) returns (rest: string)
      requires specification == NO_SPECIFICATION
      modifies this
      ensures (specification, rest) == ParseLegacyPrefixes(s)
    {
      var found;
      found, rest := FindLegacyPrefixes(s);
      var prefixes := NO_LEGACY_PREFIXES;
      if found.noAdditionalPrefixes {
        prefixes := prefixes.(operandSizeOverridePrefix := PrefixIsNotPermitted);
      }
      if found.operandSizeOverride {
        prefixes := prefixes.(operandSizeOverridePrefix := PrefixIsRequired);
      }
      prefixes := prefixes.(hasMandatoryAddressSizeOverridePrefix := found.addressSizeOverride);
      prefixes := prefixes.(hasMandatoryRepePrefix := found.repe);
      prefixes := prefixes.(hasMandatoryRepnePrefix := found.repne);
      if found.rexW {
        prefixes := prefixes.(rexWPrefix := PrefixIsRequired);
      }
      specification := specification.(prefix := LegacySpecification(prefixes));
    }

    method FindLegacyPrefixes(s: string) returns (found: FoundPrefixes, rest: string)
      ensures found == FoundIn(LegacyTokens(s).value) && rest == LegacyTokens(s).rest
    {
      found := FoundPrefixes(false, false, false, false, false, false);
      rest := s;
      ghost var consumed: seq<LegacyToken> := [];
      assert consumed + LegacyTokens(s).value == LegacyTokens(s).value;
      var prefix := ConsumeLegacyPrefix(rest);
      while prefix.Some?
        invariant prefix == ConsumeLegacyPrefix(rest) && found == FoundIn(consumed)
        invariant LegacyTokens(s).value == consumed + LegacyTokens(rest).value
        invariant LegacyTokens(s).rest == LegacyTokens(rest).rest
        decreases |rest|
      {
        var token := prefix.value.value;
        found := FoundPrefixes(
          found.noAdditionalPrefixes || token.TokenNP?, found.operandSizeOverride || token.Token66?,
          found.addressSizeOverride || token.Token67?, found.repe || token.TokenF3?,
          found.repne || token.TokenF2?, found.rexW || token.TokenRexW?);
        assert consumed + LegacyTokens(rest).value == (consumed + [token]) + LegacyTokens(prefix.value.rest).value;
        consumed := consumed + [token];
        rest := prefix.value.rest;
        prefix := ConsumeLegacyPrefix(rest);
      }
      assert consumed + [] == consumed;
    }

    method ParseVexOrEvexPrefix(s: string) returns (status: Status, rest: string)
      requires specification == NO_SPECIFICATION && NamesVectorSize(s)
      modifies this
      ensures match ParseVexPrefix(s)
              case Failure(error) => status == error && !status.Ok?
              case Success((expected, expectedRest)) =>
                status.Ok? && specification == expected && rest == expectedRest
    {
      rest := s;
      var matched := MatchVexPrefix(s);
      if matched.None? {
        return InvalidArgument, rest;
      }
      var (prefixType, tokens) := matched.value;
      var vex := NO_VEX_PREFIX.(prefixType := prefixType);
      vex := vex.(vexOperandUsage := tokens.usage);
      vex := vex.(vectorSize := tokens.vectorSize.value);
      if vex.vectorSize.VectorSize512Bit? && !prefixType.EvexType? {
        return InvalidArgument, rest;
      }
      vex := vex.(mandatoryPrefix := tokens.mandatoryPrefix);
      vex := vex.(vexWUsage := tokens.vexWUsage);
      vex := vex.(mapSelect := tokens.mapSelect);
      specification := specification.(prefix := VexSpecification(vex));
      specification := specification.(opcode := MapOpcode(tokens.mapSelect));
      return Ok, tokens.rest;
    }

    method ParseOpcodeAndSuffixesOf(s: string) returns (status: Status)
      modifies this
      ensures match ParseOpcodeAndSuffixes(old(specification), s)
              case Failure(error) => status == error && !status.Ok?
              case Success(expected) => status.Ok? && specification == expected
    {
      var numOpcodeBytes, rest := ParseOpcodeBytes(s);
      if numOpcodeBytes == 0 {
        return InvalidArgument;
      }
      if specification.prefix.VexSpecification? && numOpcodeBytes != 1 {
        return InvalidArgument;
      }
      if rest == [] {
        return Ok;
      }
      status, rest := ParseSuffixes(rest);
      if !status.Ok? {
        return;
      }
      if specification.GetVexPrefix().vsibUsage.VSibUsed? && specification.modrmUsage.NoModRmUsage? {
        specification := specification.(modrmUsage := FullModRm);
      }
      return if IsBlank(rest) then Ok else InvalidArgument;
    }

    method ParseOpcodeBytes(s: string) returns (count: nat, rest: string)
      modifies this
      ensures OpcodeBytesMatch(specification, count, rest) == ConsumeOpcodeBytes(old(specification), 0, s)
    {
      count, rest := 0, s;
      var byte := ConsumeOpcodeByte(rest);
      while byte.Some?
        invariant byte == ConsumeOpcodeByte(rest)
        invariant ConsumeOpcodeBytes(specification, count, rest) == ConsumeOpcodeBytes(old(specification), 0, s)
        decreases |rest|
      {
        OpcodeByteIsShorter(rest);
        specification := AddOpcodeByte(specification, byte.value.value);
        count := count + 1;
        rest := byte.value.rest;
        byte := ConsumeOpcodeByte(rest);
      }
    }

    method ParseSuffixes(s: string) returns (status: Status, rest: string)
      modifies this
      ensures match ConsumeSuffixes(old(specification), s)
              case Failure(error) => status == error && !status.Ok?
              case Success((expected, expectedRest)) =>
                status.Ok? && specification == expected && rest == expectedRest
    {
      rest := s;
      var suffix := ConsumeSuffix(rest);
      while suffix.Some?
        invariant suffix == ConsumeSuffix(rest)
        invariant ConsumeSuffixes(specification, rest) == ConsumeSuffixes(old(specification), s)
        decreases |rest|
      {
        var next := AddSuffix(specification, suffix.value.value);
        if next.Failure? {
          return next.error, rest;
        }
        specification := next.value;
        rest := suffix.value.rest;
        suffix := ConsumeSuffix(rest);
      }
      return Ok, rest;
    }
  }
}
