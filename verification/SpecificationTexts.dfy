// What any text of the specification language means: prefixes, opcode and suffixes
// in the spellings of the manuals (Intel SDM volume 2A, section 3.1.1).
module SpecificationTexts {
  import opened Wrappers
  import opened Sequences
  import opened Scanner
  import opened Opcodes
  import opened X86Protos
  import opened EncodingSpecificationLanguage
  import opened EncodingSpecificationGenerator
  import opened SpecificationSuffixes
  import opened SpecificationPrefixes
  import opened SpecificationVexPrefix
  import opened SpecificationRoundTrip
  import opened SpecificationWords

  // ---- VEX and EVEX prefixes ------------------------------------------------

  datatype SizeWord = SizeLLIG | SizeLIG | SizeLZ | SizeL0 | SizeL1 | SizeLIG128 | Size128 | Size256 | Size512

  // A missing W field stands for an ignored bit.
  datatype VexHead = VexHead(
    isEvex: bool, usage: VexOperandUsage, size: SizeWord, prefix: MandatoryPrefix, mapSelect: MapSelect,
    w: Option<VexWUsage>
  )

  predicate IsVexHead(head: VexHead) {
    IsOpcodeMap(head.mapSelect) && head.usage != VexOperandIsNotUsed
  }

  function UsageText(usage: VexOperandUsage): string {
    match usage
    case VexOperandIsFirstSourceRegister => ".NDS"
    case VexOperandIsSecondSourceRegister => ".DDS"
    case VexOperandIsDestinationRegister => ".NDD"
    case _ => ""
  }

  function SizeText(size: SizeWord): string {
    match size
    case SizeLLIG => ".LLIG"
    case SizeLIG => ".LIG"
    case SizeLZ => ".LZ"
    case SizeL0 => ".L0"
    case SizeL1 => ".L1"
    case SizeLIG128 => ".LIG.128"
    case Size128 => ".128"
    case Size256 => ".256"
    case Size512 => ".512"
  }

  function SizeOf(size: SizeWord): VexVectorSize {
    match size
    case SizeLLIG => VectorSizeIsIgnored
    case SizeLIG => VectorSizeIsIgnored
    case SizeLZ => VectorSizeBitIsZero
    case SizeL0 => VectorSizeBitIsZero
    case SizeL1 => VectorSizeBitIsOne
    case SizeLIG128 => VectorSize128Bit
    case Size128 => VectorSize128Bit
    case Size256 => VectorSize256Bit
    case Size512 => VectorSize512Bit
  }

  function PrefixFieldText(prefix: MandatoryPrefix): string {
    match prefix
    case NoMandatoryPrefix => ""
    case MandatoryOperandSizeOverride => ".66"
    case MandatoryRepe => ".F3"
    case MandatoryRepne => ".F2"
  }

  function MapFieldText(mapSelect: MapSelect): string {
    match mapSelect
    case Map0F38 => ".0F38"
    case Map0F3A => ".0F3A"
    case _ => ".0F"
  }

  function WFieldText(w: Option<VexWUsage>): string {
    match w
    case None => ""
    case Some(VexWIsZero) => ".W0"
    case Some(VexWIsOne) => ".W1"
    case Some(VexWIsIgnored) => ".WIG"
  }

  function VexHeadText(head: VexHead, rest: string): string {
    (if head.isEvex then "EVEX" else "VEX") +
    (UsageText(head.usage) +
     (SizeText(head.size) +
      (PrefixFieldText(head.prefix) + (MapFieldText(head.mapSelect) + (WFieldText(head.w) + (" " + rest))))))
  }

  function TokensOf(head: VexHead, rest: string): VexTokens {
    VexTokens(head.usage, Some(SizeOf(head.size)), head.prefix, head.mapSelect,
              if head.w.Some? then head.w.value else VexWIsIgnored, rest)
  }

  // The rest starts with the opcode.
  predicate StartsOpcode(rest: string) {
    rest != "" && rest[0] != ' ' && rest[0] != '.'
  }

  // The generator spells these fields in the same way.
  lemma SameSpelling(prefix: MandatoryPrefix, mapSelect: MapSelect, w: VexWUsage)
    ensures PrefixFieldText(prefix) == MandatoryPrefixText(prefix)
    ensures IsOpcodeMap(mapSelect) ==> MapFieldText(mapSelect) == MapSelectText(mapSelect)
    ensures WFieldText(Some(w)) == VexWText(w)
  {
  }

  lemma {:induction false} WFieldIsRead(head: VexHead, size: Option<VexVectorSize>, rest: string)
    requires StartsOpcode(rest)
    ensures MatchMap(head.usage, size, head.prefix, Match(head.mapSelect, WFieldText(head.w) + (" " + rest))) ==
            Some(TokensOf(head, rest).(vectorSize := size))
  {
    if head.w.Some? {
      SameSpelling(head.prefix, head.mapSelect, head.w.value);
      ReadsW(head.usage, size, head.prefix, head.mapSelect, head.w.value, rest);
    } else {
      var text := " " + rest;
      var next := (x: Match<VexWUsage>) => MatchW(head.usage, size, head.prefix, head.mapSelect, x);
      assert WFieldText(head.w) + text == text && text[1..] == rest;
      SkipNothing(rest);
      assert Field(text, VEX_W_USAGE_TOKENS) == [];
      assert [] + [Match(VexWIsIgnored, text)] == [Match(VexWIsIgnored, text)];
      FirstOption(OptionalField(text, VEX_W_USAGE_TOKENS, VexWIsIgnored), next);
    }
  }

  // The text from the map on.
  function MapAndRest(head: VexHead, rest: string): string {
    MapFieldText(head.mapSelect) + (WFieldText(head.w) + (" " + rest))
  }

  lemma AfterMap(head: VexHead, rest: string)
    ensures var after := WFieldText(head.w) + (" " + rest); after != "" && (after[0] == '.' || after[0] == ' ')
  {
  }

  lemma {:induction false} MapFieldIsRead(head: VexHead, size: Option<VexVectorSize>, rest: string)
    requires IsVexHead(head) && StartsOpcode(rest)
    ensures MatchMandatoryPrefix(head.usage, size, Match(head.prefix, MapAndRest(head, rest))) ==
            Some(TokensOf(head, rest).(vectorSize := size))
  {
    AfterMap(head, rest);
    SameSpelling(head.prefix, head.mapSelect, VexWIsZero);
    WFieldIsRead(head, size, rest);
    ReadsMapOf(head.usage, size, head.prefix, head.mapSelect, WFieldText(head.w) + (" " + rest),
               TokensOf(head, rest).(vectorSize := size));
  }

  function PrefixAndRest(head: VexHead, rest: string): string {
    PrefixFieldText(head.prefix) + MapAndRest(head, rest)
  }

  lemma {:induction false} PrefixFieldIsRead(head: VexHead, size: Option<VexVectorSize>, rest: string)
    requires IsVexHead(head) && StartsOpcode(rest)
    ensures MatchVectorSize(head.usage, Match(size, PrefixAndRest(head, rest))) ==
            Some(TokensOf(head, rest).(vectorSize := size))
  {
    var after := WFieldText(head.w) + (" " + rest);
    SameSpelling(head.prefix, head.mapSelect, VexWIsZero);
    MapFieldIsRead(head, size, rest);
    AfterMap(head, rest);
    MapText(head.mapSelect, after);
    ReadsMandatoryPrefixOf(head.usage, size, head.prefix, MapAndRest(head, rest),
                           MapSelectText(head.mapSelect)[1..] + after, TokensOf(head, rest).(vectorSize := size));
  }

  // ---- The vector size ------------------------------------------------------

  function SizeIndex(size: SizeWord): nat {
    match size
    case SizeLLIG => 0
    case SizeLIG => 1
    case SizeLZ => 2
    case SizeL0 => 3
    case SizeL1 => 4
    case SizeLIG128 => 5
    case Size128 => 6
    case Size256 => 7
    case Size512 => 8
  }

  lemma {:induction false} SizeToken(size: SizeWord, after: string)
    requires size != SizeLIG128
    ensures var k := SizeIndex(size);
            && VECTOR_SIZE_TOKENS[k].value == Some(SizeOf(size))
            && SizeText(size) + after == "." + (VECTOR_SIZE_TOKENS[k].text + after)
            && (forall j :: 0 <= j < k ==> !(VECTOR_SIZE_TOKENS[j].text <= VECTOR_SIZE_TOKENS[k].text + after))
            && VECTOR_SIZE_TOKENS[k].text != "" && VECTOR_SIZE_TOKENS[k].text[0] != ' '
  {
    var k := SizeIndex(size);
    var text := VECTOR_SIZE_TOKENS[k].text;
    assert SizeText(size) + after == "." + (text + after);
    forall j | 0 <= j < k
      ensures !(VECTOR_SIZE_TOKENS[j].text <= text + after)
    {
      assert (text + after)[0] == text[0] && (text + after)[1] == text[1];
    }
  }

  lemma {:induction false} SizeIsRead(head: VexHead, rest: string)
    requires IsVexHead(head) && StartsOpcode(rest)
    ensures MatchUsage(Match(head.usage, SizeText(head.size) + PrefixAndRest(head, rest))) ==
            Some(TokensOf(head, rest))
  {
    var after := PrefixAndRest(head, rest);
    PrefixFieldIsRead(head, Some(SizeOf(head.size)), rest);
    if head.size == SizeLIG128 {
      StartsWithDot(head, rest);
      LongSizeIsRead(head.usage, after, TokensOf(head, rest));
    } else {
      var next := (x: Match<Option<VexVectorSize>>) => MatchVectorSize(head.usage, x);
      SizeToken(head.size, after);
      OptionalFieldIsTaken(VECTOR_SIZE_TOKENS, SizeIndex(head.size), None, after, next);
    }
  }

  lemma StartsWithDot(head: VexHead, rest: string)
    ensures PrefixAndRest(head, rest) != "" && PrefixAndRest(head, rest)[0] == '.'
  {
  }

  // "LIG" alone leaves ".128", which is no prefix and no map, so the longer word is
  // taken.
  lemma {:induction false} LongSizeIsRead(usage: VexOperandUsage, after: string, tokens: VexTokens)
    requires after != "" && after[0] == '.'
    requires MatchVectorSize(usage, Match(Some(VectorSize128Bit), after)) == Some(tokens)
    ensures MatchUsage(Match(usage, ".LIG.128" + after)) == Some(tokens)
  {
    var next := (x: Match<Option<VexVectorSize>>) => MatchVectorSize(usage, x);
    var text := "LIG.128" + after;
    assert ".LIG.128" + after == "." + text;
    DotField(text, VECTOR_SIZE_TOKENS);
    LongSizeChoices(after);
    ShortSizeFails(usage, after);
    var options := OptionalField("." + text, VECTOR_SIZE_TOKENS, None);
    assert |options| >= 2 && options[0] == Match(Some(VectorSizeIsIgnored), ".128" + after);
    assert options[1..][0] == Match(Some(VectorSize128Bit), after);
    FirstOption(options[1..], next);
  }

  lemma {:induction false} LongSizeChoices(after: string)
    requires after != ""
    ensures var choices := Choices("LIG.128" + after, VECTOR_SIZE_TOKENS);
            && |choices| >= 2 && choices[0] == Match(Some(VectorSizeIsIgnored), ".128" + after)
            && choices[1] == Match(Some(VectorSize128Bit), after)
  {
    var text, all := "LIG.128" + after, VECTOR_SIZE_TOKENS;
    LongSizeText(after);
    SecondAndSixth(text, all);
  }

  lemma LongSizeText(after: string)
    ensures var text, all := "LIG.128" + after, VECTOR_SIZE_TOKENS;
            && all[1].text <= text && text[|all[1].text|..] == ".128" + after
            && all[5].text <= text && text[|all[5].text|..] == after
            && !(all[0].text <= text) && !(all[2].text <= text) && !(all[3].text <= text) && !(all[4].text <= text)
  {
    var text := "LIG.128" + after;
    assert text[..3] == "LIG" && text[3..] == ".128" + after && text[..7] == "LIG.128" && text[7..] == after;
    assert text[0] == 'L' && text[1] == 'I';
  }

  lemma {:induction false} SecondAndSixth<T>(text: string, tokens: seq<Token<T>>)
    requires |tokens| > 5 && tokens[1].text <= text && tokens[5].text <= text
    requires !(tokens[0].text <= text) && !(tokens[2].text <= text) && !(tokens[3].text <= text)
    requires !(tokens[4].text <= text)
    ensures Choices(text, tokens) ==
            [Match(tokens[1].value, text[|tokens[1].text|..])] +
            ([Match(tokens[5].value, text[|tokens[5].text|..])] + Choices(text, tokens[6..]))
  {
    NotTaken(text, tokens, 0);
    Taken(text, tokens, 1);
    NotTaken(text, tokens, 2);
    NotTaken(text, tokens, 3);
    NotTaken(text, tokens, 4);
    Taken(text, tokens, 5);
    assert tokens[0..] == tokens;
  }

  lemma {:induction false} Taken<T>(text: string, tokens: seq<Token<T>>, k: nat)
    requires k < |tokens| && tokens[k].text <= text
    ensures Choices(text, tokens[k..]) ==
            [Match(tokens[k].value, text[|tokens[k].text|..])] + Choices(text, tokens[k + 1..])
  {
    assert tokens[k..][1..] == tokens[k + 1..];
  }

  lemma {:induction false} NotTaken<T>(text: string, tokens: seq<Token<T>>, k: nat)
    requires k < |tokens| && !(tokens[k].text <= text)
    ensures Choices(text, tokens[k..]) == Choices(text, tokens[k + 1..])
  {
    assert tokens[k..][1..] == tokens[k + 1..];
  }

  lemma {:induction false} ShortSizeFails(usage: VexOperandUsage, after: string)
    ensures MatchVectorSize(usage, Match(Some(VectorSizeIsIgnored), ".128" + after)).None?
  {
    var text := "128" + after;
    var next := (x: Match<MandatoryPrefix>) => MatchMandatoryPrefix(usage, Some(VectorSizeIsIgnored), x);
    assert ".128" + after == "." + text && text[0] == '1';
    DotField(text, MANDATORY_PREFIX_TOKENS);
    NoChoice(text, MANDATORY_PREFIX_TOKENS);
    DotField(text, MAP_SELECT_TOKENS);
    NoChoice(text, MAP_SELECT_TOKENS);
    assert next(Match(NoMandatoryPrefix, "." + text)).None?;
    assert [] + [Match(NoMandatoryPrefix, "." + text)] == [Match(NoMandatoryPrefix, "." + text)];
    OneOptionFails(Match(NoMandatoryPrefix, "." + text), next);
  }

  // ---- The whole prefix -----------------------------------------------------

  function SizeAndRest(head: VexHead, rest: string): string {
    SizeText(head.size) + PrefixAndRest(head, rest)
  }

  lemma {:induction false} UsageToken(usage: VexOperandUsage, after: string) returns (k: nat)
    requires UsageText(usage) != ""
    ensures k < |VEX_OPERAND_USAGE_TOKENS| && VEX_OPERAND_USAGE_TOKENS[k].value == usage
    ensures UsageText(usage) + after == "." + (VEX_OPERAND_USAGE_TOKENS[k].text + after)
    ensures forall j :: 0 <= j < k ==>
              !(VEX_OPERAND_USAGE_TOKENS[j].text <= VEX_OPERAND_USAGE_TOKENS[k].text + after)
    ensures VEX_OPERAND_USAGE_TOKENS[k].text != "" && VEX_OPERAND_USAGE_TOKENS[k].text[0] != ' '
  {
    k := if usage == VexOperandIsFirstSourceRegister then 0 else if usage == VexOperandIsDestinationRegister then 1 else 2;
    var text := VEX_OPERAND_USAGE_TOKENS[k].text;
    assert UsageText(usage) + after == "." + (text + after);
    forall j | 0 <= j < k
      ensures !(VEX_OPERAND_USAGE_TOKENS[j].text <= text + after)
    {
      assert (text + after)[0] == text[0] && (text + after)[2] == text[2] && (text + after)[1] == text[1];
    }
  }

  lemma NoUsage(size: SizeWord, after: string)
    ensures var text := SizeText(size)[1..] + after;
            && text != "" && text[0] != ' ' && SizeText(size) + after == "." + text
            && forall j :: 0 <= j < |VEX_OPERAND_USAGE_TOKENS| ==> !(VEX_OPERAND_USAGE_TOKENS[j].text <= text)
  {
    var text := SizeText(size)[1..] + after;
    assert SizeText(size) + after == "." + text;
    assert text[0] == SizeText(size)[1];
  }

  lemma {:induction false} UsageIsRead(usage: VexOperandUsage, after: string, tokens: VexTokens)
    requires UsageText(usage) != "" && MatchUsage(Match(usage, after)) == Some(tokens)
    ensures MatchVexFields(UsageText(usage) + after) == Some(tokens)
  {
    var k := UsageToken(usage, after);
    OptionalFieldIsTaken(VEX_OPERAND_USAGE_TOKENS, k, UndefinedVexOperandUsage, after, MatchUsage);
  }

  lemma {:induction false} UsageIsSkipped(size: SizeWord, after: string, tokens: VexTokens)
    requires MatchUsage(Match(UndefinedVexOperandUsage, SizeText(size) + after)) == Some(tokens)
    ensures MatchVexFields(SizeText(size) + after) == Some(tokens)
  {
    NoUsage(size, after);
    OptionalFieldIsSkipped(VEX_OPERAND_USAGE_TOKENS, UndefinedVexOperandUsage, SizeText(size)[1..] + after, MatchUsage);
  }

  lemma {:induction false} FieldsAreRead(head: VexHead, rest: string)
    requires IsVexHead(head) && StartsOpcode(rest)
    ensures MatchVexFields(UsageText(head.usage) + SizeAndRest(head, rest)) == Some(TokensOf(head, rest))
  {
    var after := SizeAndRest(head, rest);
    SizeIsRead(head, rest);
    if UsageText(head.usage) == "" {
      assert UsageText(head.usage) + after == after && head.usage == UndefinedVexOperandUsage;
      UsageIsSkipped(head.size, PrefixAndRest(head, rest), TokensOf(head, rest));
    } else {
      UsageIsRead(head.usage, after, TokensOf(head, rest));
    }
  }

  lemma {:induction false} HeadIsRead(head: VexHead, rest: string)
    requires IsVexHead(head) && StartsOpcode(rest)
    ensures var text := VexHeadText(head, rest);
            && HasVexPrefix(text) && NamesVectorSize(text)
            && MatchVexPrefix(text) == Some((if head.isEvex then EvexType else VexType, TokensOf(head, rest)))
  {
    var fields := UsageText(head.usage) + SizeAndRest(head, rest);
    FieldsAreRead(head, rest);
    assert fields[0] == '.';
    PrefixTypeRoundTrip(if head.isEvex then EvexType else VexType, fields);
  }

  // ---- The opcode and the suffixes ------------------------------------------

  datatype OperandWord = NoOperandWord | PlusI | PlusRb | PlusRw | PlusRd | PlusRo

  function OperandWordText(word: OperandWord): string {
    match word
    case NoOperandWord => ""
    case PlusI => "i"
    case PlusRb => "rb"
    case PlusRw => "rw"
    case PlusRd => "rd"
    case PlusRo => "ro"
  }

  function OperandOf(word: OperandWord): OperandInOpcode {
    match word
    case NoOperandWord => NoOperandInOpcode
    case PlusI => FpStackRegisterInOpcode
    case _ => GeneralPurposeRegisterInOpcode
  }

  function OperandText(word: OperandWord): string {
    if word == NoOperandWord then "" else " +" + OperandWordText(word)
  }

  lemma OperandWordIsRead(word: OperandWord, rest: string)
    requires OperandSuffix(rest) == Match(NoOperandInOpcode, rest)
    ensures OperandSuffix(OperandText(word) + rest) == Match(OperandOf(word), rest)
  {
    if word == NoOperandWord {
      assert "" + rest == rest;
    } else {
      var token := OperandWordText(word);
      assert OperandText(word) + rest == " " + ("+" + (token + rest));
      OperandSuffixRoundTrip(token, OperandOf(word), rest);
    }
  }

  datatype Body = Body(bytes: seq<bv8>, operand: OperandWord, suffixes: seq<SuffixWord>)

  predicate IsBody(body: Body) {
    body.bytes != [] && AreSuffixWords(body.suffixes)
  }

  function BodyText(body: Body): string
    requires body.bytes != []
  {
    OpcodeText(body.bytes) + (OperandText(body.operand) + SuffixesText(body.suffixes))
  }

  // The opcode bytes are appended to what the map has given; the last four of all
  // bytes count.
  function OpcodeAfter(opcode: Opcode, bytes: seq<bv8>): Opcode {
    var all := [opcode.b3, opcode.b2, opcode.b1, opcode.b0] + bytes;
    var last := |all| - 1;
    Opcode(all[last - 3], all[last - 2], all[last - 1], all[last])
  }

  // The meaning of the body, for a specification that has a prefix only. A vector SIB
  // byte without a word for the ModR/M byte implies a full one.
  function Described(prefix: PrefixSpecification, opcode: Opcode, body: Body): EncodingSpecification
    requires IsBody(body)
  {
    NumberIsSmall(body.suffixes);
    var words := body.suffixes;
    EncodingSpecification(
      OpcodeAfter(opcode, body.bytes),
      OperandOf(body.operand),
      if LastUsage(words) == NoModRmUsage && VSibWord in words then FullModRm else LastUsage(words),
      if LastNumber(words).Some? then NumberBits(LastNumber(words).value) else 0,
      if prefix.VexSpecification?
      then VexSpecification(prefix.vex.(hasVexOperandSuffix := RegisterSuffixWord in words,
                                        vsibUsage := if VSibWord in words then VSibUsed else VSibUnused))
      else prefix,
      ImmediateSizes(words),
      if LastOffset(words).Some? then LastOffset(words).value else 0)
  }

  predicate IsBlankBase(base: EncodingSpecification) {
    && base == NO_SPECIFICATION.(prefix := base.prefix, opcode := base.opcode)
    && (base.prefix.VexSpecification? ==>
          !base.prefix.vex.hasVexOperandSuffix && base.prefix.vex.vsibUsage == VSibUnused)
  }

  lemma {:induction false} DescribedByWords(base: EncodingSpecification, body: Body)
    requires IsBody(body) && IsBlankBase(base) && (NeedsVex(body.suffixes) ==> base.prefix.VexSpecification?)
    ensures var target := WithBytes(base, body.bytes).(operandInOpcode := OperandOf(body.operand));
            WithVSibModRm(WithSuffixWords(target, body.suffixes)) == Described(base.prefix, base.opcode, body)
  {
    BytesKeepPrefix(base, body.bytes);
    assert [] + ImmediateSizes(body.suffixes) == ImmediateSizes(body.suffixes);
    UsageIsWritten(body.suffixes);
  }

  lemma {:induction false} UsageIsWritten(words: seq<SuffixWord>)
    ensures LastUsage(words) in {NoModRmUsage, FullModRm, OpcodeExtensionInModRm}
  {
    if words != [] {
      UsageIsWritten(words[1..]);
    }
  }

  lemma {:induction false} BodyIsRead(base: EncodingSpecification, body: Body, s: string)
    requires IsBody(body) && IsBlankBase(base) && SkipSpaces(s) == BodyText(body)
    ensures ParseOpcodeAndSuffixes(base, s) ==
            if base.prefix.VexSpecification? && |body.bytes| != 1 then Failure(InvalidArgument)
            else if NeedsVex(body.suffixes) && !base.prefix.VexSpecification? then Failure(InvalidArgument)
            else Success(Described(base.prefix, base.opcode, body))
  {
    var words := body.suffixes;
    var target := WithBytes(base, body.bytes).(operandInOpcode := OperandOf(body.operand));
    WordsEndOpcode(words);
    OperandWordIsRead(body.operand, SuffixesText(words));
    SpecificationSuffixes.OpcodeRoundTrip(
      base, 0, body.bytes, OperandText(body.operand), OperandOf(body.operand), SuffixesText(words));
    SkipToOpcode(base, s, BodyText(body));
    BytesKeepPrefix(base, body.bytes);
    SuffixWordsAreRead(target, words);
    if !NeedsVex(words) || base.prefix.VexSpecification? {
      DescribedByWords(base, body);
      NoWordsNoText(words);
      NoWords(target);
    }
  }

  lemma NoWordsNoText(words: seq<SuffixWord>)
    ensures SuffixesText(words) == "" <==> words == []
  {
  }

  lemma {:induction false} BytesKeepPrefix(base: EncodingSpecification, bytes: seq<bv8>)
    ensures WithBytes(base, bytes) == base.(opcode := OpcodeAfter(base.opcode, bytes))
    decreases |bytes|
  {
    if bytes != [] {
      var opcode := base.opcode;
      BytesKeepPrefix(base.(opcode := opcode.AppendByte(bytes[0])), bytes[1..]);
      assert [opcode.b2, opcode.b1, opcode.b0, bytes[0]] + bytes[1..] ==
             ([opcode.b3, opcode.b2, opcode.b1, opcode.b0] + bytes)[1..];
    }
  }

  // The meaning of the prefix.
  function DescribedVex(head: VexHead): VexPrefixSpecification {
    NO_VEX_PREFIX.(
      prefixType := if head.isEvex then EvexType else VexType,
      vexOperandUsage := head.usage,
      vectorSize := SizeOf(head.size),
      mandatoryPrefix := head.prefix,
      mapSelect := head.mapSelect,
      vexWUsage := if head.w.Some? then head.w.value else VexWIsIgnored)
  }

  function OpcodeOfMap(mapSelect: MapSelect): Opcode {
    match mapSelect
    case Map0F38 => Opcode(0, 0, 0x0f, 0x38)
    case Map0F3A => Opcode(0, 0, 0x0f, 0x3a)
    case _ => Opcode(0, 0, 0, 0x0f)
  }

  lemma OpcodeStarts(body: Body)
    requires IsBody(body)
    ensures StartsOpcode(BodyText(body)) && SkipSpaces(BodyText(body)) == BodyText(body)
  {
    HexOfPrefix(body.bytes[0]);
    DigitIsNoDot(body.bytes[0]);
    assert BodyText(body)[0] == HexText(body.bytes[0])[0];
    SkipNothing(BodyText(body));
  }

  lemma DigitIsNoDot(byte: bv8)
    ensures HexText(byte)[0] != '.'
  {
  }

  // A text with a VEX or EVEX prefix means what its fields, its opcode and its
  // suffixes mean, in every spelling. 512 bits under VEX are an error, and so is an
  // opcode of more than one byte.
  lemma {:induction false} VexTextMeans(head: VexHead, body: Body)
    requires IsVexHead(head) && IsBody(body)
    ensures var text := VexHeadText(head, BodyText(body));
            && HasVexPrefix(text) && NamesVectorSize(text)
            && ParseEncodingSpecification(text) ==
               if (head.size == Size512 && !head.isEvex) || |body.bytes| != 1 then Failure(InvalidArgument)
               else Success(Described(VexSpecification(DescribedVex(head)), OpcodeOfMap(head.mapSelect), body))
  {
    OpcodeStarts(body);
    HeadIsRead(head, BodyText(body));
    var base := NO_SPECIFICATION.(prefix := VexSpecification(DescribedVex(head)), opcode := OpcodeOfMap(head.mapSelect));
    BodyIsRead(base, body, BodyText(body));
  }

  // ---- Legacy prefixes ------------------------------------------------------

  datatype LegacyWord = WordNP | WordNFx | Word66 | Word67 | WordF2 | WordF3 | WordRex | WordRexR | WordRexW

  function LegacyWordText(word: LegacyWord): string {
    match word
    case WordNP => "NP"
    case WordNFx => "NFx"
    case Word66 => "66"
    case Word67 => "67"
    case WordF2 => "F2"
    case WordF3 => "F3"
    case WordRex => "REX"
    case WordRexR => "REX.R"
    case WordRexW => "REX.W"
  }

  // Words are separated by spaces, with or without a plus sign.
  datatype Separated = Separated(word: LegacyWord, hasPlus: bool)

  function LegacyHeadText(words: seq<Separated>, rest: string): string {
    if words == [] then rest
    else LegacyWordText(words[0].word) + ((if words[0].hasPlus then " + " else " ") + LegacyHeadText(words[1..], rest))
  }

  predicate Names(words: seq<Separated>, word: LegacyWord) {
    exists i :: 0 <= i < |words| && words[i].word == word
  }

  // NP forbids 66 unless 66 is there as well. NFx, REX and REX.R say nothing here.
  function DescribedLegacy(words: seq<Separated>): LegacyPrefixSpecification {
    LegacyPrefixSpecification(
      rexWPrefix := if Names(words, WordRexW) then PrefixIsRequired else PrefixUsageIsUnknown,
      hasMandatoryRepePrefix := Names(words, WordF3),
      hasMandatoryRepnePrefix := Names(words, WordF2),
      operandSizeOverridePrefix :=
        if Names(words, Word66) then PrefixIsRequired
        else if Names(words, WordNP) then PrefixIsNotPermitted
        else PrefixUsageIsUnknown,
      hasMandatoryAddressSizeOverridePrefix := Names(words, Word67))
  }

  function TokenOf(word: LegacyWord): LegacyToken {
    match word
    case WordNP => TokenNP
    case WordNFx => TokenNFx
    case Word66 => Token66
    case Word67 => Token67
    case WordF2 => TokenF2
    case WordF3 => TokenF3
    case WordRex => TokenRex
    case WordRexR => TokenRex
    case WordRexW => TokenRexW
  }

  function TokensOfWords(words: seq<Separated>): seq<LegacyToken> {
    if words == [] then [] else [TokenOf(words[0].word)] + TokensOfWords(words[1..])
  }

  lemma {:induction false} WordIsConsumed(word: LegacyWord, after: string)
    requires after != "" && after[0] == ' '
    ensures ConsumeLegacyPrefix(LegacyWordText(word) + after) == Some(Match(TokenOf(word), SkipPlus(after)))
  {
    var text := LegacyWordText(word);
    var s := text + after;
    SkipNothing(s);
    DropFront(text, after);
    assert s[0] == text[0] && s[1] == text[1];
    assert |text| == 3 ==> s[2] == text[2] && s[3] == ' ';
    if |text| == 5 {
      assert s[..5] == text && s[4] == text[4];
      assert s[2] == 'X';
    }
  }

  lemma {:induction false} LegacyWordsAreRead(words: seq<Separated>, rest: string)
    requires StartsToken(rest) && ReadsPrefixes(rest, [], rest)
    ensures var text := LegacyHeadText(words, rest);
            StartsToken(text) && ReadsPrefixes(text, TokensOfWords(words), rest)
    decreases |words|
  {
    if words != [] {
      var tail := LegacyHeadText(words[1..], rest);
      LegacyWordsAreRead(words[1..], rest);
      OneWordIsRead(words[0], tail, TokensOfWords(words[1..]), rest);
    }
  }

  lemma WordStarts(word: LegacyWord, after: string)
    ensures StartsToken(LegacyWordText(word) + after)
  {
    assert (LegacyWordText(word) + after)[0] == LegacyWordText(word)[0];
  }

  lemma {:induction false} OneWordIsRead(first: Separated, tail: string, tokens: seq<LegacyToken>, rest: string)
    requires StartsToken(tail) && ReadsPrefixes(tail, tokens, rest)
    ensures var text := LegacyWordText(first.word) + ((if first.hasPlus then " + " else " ") + tail);
            StartsToken(text) && ReadsPrefixes(text, [TokenOf(first.word)] + tokens, rest)
  {
    if first.hasPlus {
      WordWithPlus(first.word, tail, tokens, rest);
    } else {
      WordWithSpace(first.word, tail, tokens, rest);
    }
  }

  lemma {:induction false} WordWithPlus(word: LegacyWord, tail: string, tokens: seq<LegacyToken>, rest: string)
    requires StartsToken(tail) && ReadsPrefixes(tail, tokens, rest)
    ensures var text := LegacyWordText(word) + (" + " + tail);
            StartsToken(text) && ReadsPrefixes(text, [TokenOf(word)] + tokens, rest)
  {
    var after := " + " + tail;
    assert after == " " + ("+" + (" " + tail));
    PlusIsSkipped(tail);
    WordIsConsumed(word, after);
    WordStarts(word, after);
    OnePrefix(LegacyWordText(word) + after, TokenOf(word), tail, tokens, rest);
  }

  lemma {:induction false} WordWithSpace(word: LegacyWord, tail: string, tokens: seq<LegacyToken>, rest: string)
    requires StartsToken(tail) && ReadsPrefixes(tail, tokens, rest)
    ensures var text := LegacyWordText(word) + (" " + tail);
            StartsToken(text) && ReadsPrefixes(text, [TokenOf(word)] + tokens, rest)
  {
    var after := " " + tail;
    NoPlus(tail);
    SpaceBeforePrefixes(tail, tokens, rest);
    WordIsConsumed(word, after);
    WordStarts(word, after);
    OnePrefix(LegacyWordText(word) + after, TokenOf(word), after, tokens, rest);
  }

  lemma {:induction false} TokensAreNamed(words: seq<Separated>, word: LegacyWord)
    requires word != WordRex && word != WordRexR
    ensures TokenOf(word) in TokensOfWords(words) <==> Names(words, word)
  {
    if words != [] {
      TokensAreNamed(words[1..], word);
      NamesStep(words, word);
    }
  }

  lemma NamesStep(words: seq<Separated>, word: LegacyWord)
    requires words != []
    ensures Names(words, word) <==> words[0].word == word || Names(words[1..], word)
  {
    if Names(words, word) && words[0].word != word {
      var i :| 0 <= i < |words| && words[i].word == word;
      assert words[1..][i - 1].word == word;
    }
  }

  lemma {:induction false} LegacyIsDescribed(words: seq<Separated>)
    ensures EncodingSpecificationLanguage.LegacyPrefixesOf(TokensOfWords(words)) == DescribedLegacy(words)
  {
    TokensAreNamed(words, WordNP);
    TokensAreNamed(words, Word66);
    TokensAreNamed(words, Word67);
    TokensAreNamed(words, WordF2);
    TokensAreNamed(words, WordF3);
    TokensAreNamed(words, WordRexW);
  }

  lemma LegacyHeadIsNotVex(words: seq<Separated>, rest: string)
    requires rest != "" && !HasVexPrefix(rest)
    ensures !HasVexPrefix(LegacyHeadText(words, rest))
  {
    if words != [] {
      assert LegacyHeadText(words, rest)[0] == LegacyWordText(words[0].word)[0];
    }
  }

  // The same of a text with legacy prefixes; the suffixes of VEX instructions are an
  // error there. The opcode must not start like a prefix.
  lemma {:induction false} LegacyTextMeans(words: seq<Separated>, body: Body)
    requires IsBody(body) && body.bytes[0] !in {0x66, 0x67, 0xf2, 0xf3}
    ensures var text := LegacyHeadText(words, BodyText(body));
            && !HasVexPrefix(text)
            && ParseEncodingSpecification(text) ==
               if NeedsVex(body.suffixes) then Failure(InvalidArgument)
               else Success(Described(LegacySpecification(DescribedLegacy(words)), ZERO, body))
  {
    var rest := BodyText(body);
    OpcodeIsNoPrefix(body.bytes, OperandText(body.operand) + SuffixesText(body.suffixes));
    LegacyWordsAreRead(words, rest);
    LegacyIsDescribed(words);
    LegacyHeadIsNotVex(words, rest);
    var base := NO_SPECIFICATION.(prefix := LegacySpecification(DescribedLegacy(words)));
    BodyIsRead(base, body, LegacyTokens(LegacyHeadText(words, rest)).rest);
  }

  // ---- The width of a register in the opcode --------------------------------

  function WordOfWidth(width: int): OperandWord {
    match width
    case 8 => PlusRb
    case 16 => PlusRw
    case 32 => PlusRd
    case 64 => PlusRo
    case _ => NoOperandWord
  }

  lemma {:induction false} FirstInOpcode(operands: seq<InstructionOperand>, k: nat)
    requires k < |operands| && operands[k].encoding == OpcodeEncoding
    requires forall i :: 0 <= i < k ==> operands[i].encoding != OpcodeEncoding
    ensures WidthInOpcode(operands) == Some(operands[k].dataTypeBitWidth)
    decreases k
  {
    if k > 0 {
      assert operands[0].encoding != OpcodeEncoding;
      FirstInOpcode(operands[1..], k - 1);
    }
  }

  // The generator prints the word for the width of the first operand in the opcode.
  lemma {:induction false} WidthIsPrinted(format: InstructionFormat, specification: EncodingSpecification, k: nat)
    requires CanGenerate(format, specification)
    requires specification.operandInOpcode == GeneralPurposeRegisterInOpcode
    requires k < |format.operands| && format.operands[k].encoding == OpcodeEncoding
    requires forall i :: 0 <= i < k ==> format.operands[i].encoding != OpcodeEncoding
    ensures OperandInOpcodeText(format, specification) == OperandText(WordOfWidth(format.operands[k].dataTypeBitWidth))
  {
    FirstInOpcode(format.operands, k);
  }

  // ---- Errors ---------------------------------------------------------------

  lemma {:induction false} SuffixErrors(base: EncodingSpecification, s: string)
    ensures match ConsumeSuffixes(base, s)
            case Failure(error) => error == InvalidArgument && !base.prefix.VexSpecification?
            case Success((result, _)) => result.prefix.VexSpecification? == base.prefix.VexSpecification?
    decreases |s|
  {
    var suffix := ConsumeSuffix(s);
    if suffix.Some? && AddSuffix(base, suffix.value.value).Success? {
      SuffixErrors(AddSuffix(base, suffix.value.value).value, suffix.value.rest);
    }
  }

  // Whatever the text is, a failed parse reports an invalid argument.
  lemma {:induction false} ParseErrors(s: string)
    requires HasVexPrefix(s) ==> NamesVectorSize(s)
    ensures match ParseEncodingSpecification(s)
            case Failure(error) => error == InvalidArgument
            case Success(_) => true
  {
    var head := if HasVexPrefix(s) then ParseVexPrefix(s) else Success(ParseLegacyPrefixes(s));
    if head.Success? {
      var opcode := ConsumeOpcodeBytes(head.value.0, 0, head.value.1);
      SuffixErrors(opcode.specification, opcode.rest);
    }
  }
}
