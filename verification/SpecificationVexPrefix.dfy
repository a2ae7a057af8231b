// What the parser reads from a generated VEX or EVEX prefix.
module SpecificationVexPrefix {
  import opened Wrappers
  import opened Sequences
  import opened Scanner
  import opened X86Protos
  import opened EncodingSpecificationLanguage
  import opened EncodingSpecificationGenerator
  import opened SpecificationSuffixes

  // ---- Fields ---------------------------------------------------------------

  lemma {:induction false} NoChoice<T>(text: string, tokens: seq<Token<T>>)
    requires forall j :: 0 <= j < |tokens| ==> !(tokens[j].text <= text)
    ensures Choices(text, tokens) == []
  {
    if tokens != [] {
      assert !(tokens[0].text <= text);
      NoChoice(text, tokens[1..]);
    }
  }

  lemma {:induction false} DotField<T>(text: string, tokens: seq<Token<T>>)
    requires text != "" && text[0] != ' '
    ensures Field("." + text, tokens) == Choices(text, tokens)
  {
    SkipNothing("." + text);
    SkipNothing(text);
    assert ("." + text)[1..] == text;
  }

  lemma {:induction false} FirstOption<A, B>(options: seq<A>, next: A -> Option<B>)
    requires options != [] && next(options[0]).Some?
    ensures FirstSuccess(options, next) == next(options[0])
  {
  }

  // The field has the k-th token, and the rest of the expression matches after it.
  lemma OptionalFieldIsTaken<T, B>(
    tokens: seq<Token<T>>, k: nat, absent: T, rest: string, next: Match<T> -> Option<B>
  )
    requires k < |tokens| && tokens[k].text != "" && tokens[k].text[0] != ' '
    requires forall j :: 0 <= j < k ==> !(tokens[j].text <= tokens[k].text + rest)
    requires next(Match(tokens[k].value, rest)).Some?
    ensures FirstSuccess(OptionalField("." + (tokens[k].text + rest), tokens, absent), next) ==
            next(Match(tokens[k].value, rest))
  {
    var text := tokens[k].text + rest;
    DotField(text, tokens);
    FirstChoice(text, tokens, k, rest);
    FirstOption(OptionalField("." + text, tokens, absent), next);
  }

  lemma OptionalFieldIsSkipped<T, B>(
    tokens: seq<Token<T>>, absent: T, text: string, next: Match<T> -> Option<B>
  )
    requires text != "" && text[0] != ' '
    requires forall j :: 0 <= j < |tokens| ==> !(tokens[j].text <= text)
    requires next(Match(absent, "." + text)).Some?
    ensures FirstSuccess(OptionalField("." + text, tokens, absent), next) == next(Match(absent, "." + text))
  {
    DotField(text, tokens);
    NoChoice(text, tokens);
    assert [] + [Match(absent, "." + text)] == [Match(absent, "." + text)];
    FirstOption(OptionalField("." + text, tokens, absent), next);
  }

  // ---- The fields of the prefix, the last one first -------------------------

  lemma WToken(w: VexWUsage, after: string)
    ensures exists k ::
              && 0 <= k < |VEX_W_USAGE_TOKENS| && VEX_W_USAGE_TOKENS[k].value == w
              && VexWText(w) + after == "." + (VEX_W_USAGE_TOKENS[k].text + after)
              && forall j :: 0 <= j < k ==> !(VEX_W_USAGE_TOKENS[j].text <= VEX_W_USAGE_TOKENS[k].text + after)
  {
    var k := if w.VexWIsZero? then 0 else if w.VexWIsOne? then 1 else 2;
    var token := VEX_W_USAGE_TOKENS[k];
    assert VexWText(w) + after == "." + (token.text + after);
    forall j | 0 <= j < k
      ensures !(VEX_W_USAGE_TOKENS[j].text <= token.text + after)
    {
      assert (token.text + after)[1] == token.text[1];
    }
  }

  lemma TokensHaveText()
    ensures forall k :: 0 <= k < |VEX_W_USAGE_TOKENS| ==> VEX_W_USAGE_TOKENS[k].text[..1] == "W"
  {
  }

  lemma ReadsW(
    usage: VexOperandUsage, size: Option<VexVectorSize>, prefix: MandatoryPrefix, mapSelect: MapSelect,
    w: VexWUsage, rest: string
  )
    ensures MatchMap(usage, size, prefix, Match(mapSelect, VexWText(w) + (" " + rest))) ==
            Some(VexTokens(usage, size, prefix, mapSelect, w, rest))
  {
    var after := " " + rest;
    var next := (x: Match<VexWUsage>) => MatchW(usage, size, prefix, mapSelect, x);
    assert after[1..] == rest;
    assert next(Match(w, after)) == Some(VexTokens(usage, size, prefix, mapSelect, w, rest));
    WToken(w, after);
    var k :| && 0 <= k < |VEX_W_USAGE_TOKENS| && VEX_W_USAGE_TOKENS[k].value == w
             && VexWText(w) + after == "." + (VEX_W_USAGE_TOKENS[k].text + after)
             && forall j :: 0 <= j < k ==> !(VEX_W_USAGE_TOKENS[j].text <= VEX_W_USAGE_TOKENS[k].text + after);
    TokensHaveText();
    assert VEX_W_USAGE_TOKENS[k].text[..1] == "W";
    OptionalFieldIsTaken(VEX_W_USAGE_TOKENS, k, VexWIsIgnored, after, next);
  }

  // The text after the dot of the W field starts with this letter.
  lemma WStarts(w: VexWUsage)
    ensures VexWText(w)[..2] == ".W"
  {
  }

  lemma MapChoices(mapSelect: MapSelect, after: string)
    requires mapSelect.Map0F? || mapSelect.Map0F38? || mapSelect.Map0F3A?
    requires |after| > 0 && (after[0] == '.' || after[0] == ' ')
    ensures var text := MapSelectText(mapSelect)[1..] + after;
            Choices(text, MAP_SELECT_TOKENS) ==
            if mapSelect.Map0F? then [Match(Map0F, after)]
            else [Match(Map0F, text[2..]), Match(mapSelect, after)]
  {
    var text := MapSelectText(mapSelect)[1..] + after;
    var t0, t1, t2 := Token("0F", Map0F), Token("0F3A", Map0F3A), Token("0F38", Map0F38);
    assert MAP_SELECT_TOKENS[1..] == [t1, t2] && [t1, t2][1..] == [t2] && [t2][1..] == [];
    assert text[..2] == "0F" && text[2] == (if mapSelect.Map0F? then after[0] else '3');
    assert !mapSelect.Map0F? ==> text[3] == MapSelectText(mapSelect)[4] && text[4..] == after;
    assert t1.text <= text <==> mapSelect.Map0F3A?;
    assert t2.text <= text <==> mapSelect.Map0F38?;
    assert Choices(text, [t2]) == if mapSelect.Map0F38? then [Match(Map0F38, after)] else [];
    assert Choices(text, [t1, t2]) == if mapSelect.Map0F? then [] else [Match(mapSelect, after)];
    assert mapSelect.Map0F? ==> text[2..] == after;
  }

  lemma {:induction false} SecondOption<A, B>(options: seq<A>, next: A -> Option<B>)
    requires |options| == 2 && next(options[0]).None? && next(options[1]).Some?
    ensures FirstSuccess(options, next) == next(options[1])
  {
    FirstOption(options[1..], next);
  }

  // A map of two bytes is not the map 0F followed by something else.
  lemma ShortMapFails(
    usage: VexOperandUsage, size: Option<VexVectorSize>, prefix: MandatoryPrefix, text: string
  )
    requires text != "" && text[0] != ' ' && text[0] != '.'
    ensures MatchMap(usage, size, prefix, Match(Map0F, text)).None?
  {
    var next := (x: Match<VexWUsage>) => MatchW(usage, size, prefix, Map0F, x);
    SkipNothing(text);
    assert Field(text, VEX_W_USAGE_TOKENS) == [];
    assert OptionalField(text, VEX_W_USAGE_TOKENS, VexWIsIgnored) == [Match(VexWIsIgnored, text)];
    OneOptionFails(Match(VexWIsIgnored, text), next);
  }

  lemma OneOptionFails<A, B>(option: A, next: A -> Option<B>)
    requires next(option).None?
    ensures FirstSuccess([option], next).None?
  {
    assert [option][1..] == [];
  }

  // The text of the map, the W field and the final space.
  function MapAndWText(mapSelect: MapSelect, w: VexWUsage, rest: string): string {
    MapSelectText(mapSelect) + (VexWText(w) + (" " + rest))
  }

  lemma MapTextStart(mapSelect: MapSelect, w: VexWUsage, rest: string)
    ensures var after := VexWText(w) + (" " + rest);
            var text := MapSelectText(mapSelect)[1..] + after;
            && MapAndWText(mapSelect, w, rest) == "." + text
            && after != "" && after[0] == '.' && text[0] == '0' && |text| > 2
            && (IsOpcodeMap(mapSelect) && !mapSelect.Map0F? ==> text[2] == '3')
  {
    WStarts(w);
    var after := VexWText(w) + (" " + rest);
    assert after[..2] == ".W";
    assert MapAndWText(mapSelect, w, rest) == "." + (MapSelectText(mapSelect)[1..] + after);
  }

  lemma ReadsMap(
    usage: VexOperandUsage, size: Option<VexVectorSize>, prefix: MandatoryPrefix, mapSelect: MapSelect,
    w: VexWUsage, rest: string
  )
    requires IsOpcodeMap(mapSelect)
    ensures MatchMandatoryPrefix(usage, size, Match(prefix, MapAndWText(mapSelect, w, rest))) ==
            Some(VexTokens(usage, size, prefix, mapSelect, w, rest))
  {
    MapTextStart(mapSelect, w, rest);
    ReadsW(usage, size, prefix, mapSelect, w, rest);
    ReadsMapOf(usage, size, prefix, mapSelect, VexWText(w) + (" " + rest),
               VexTokens(usage, size, prefix, mapSelect, w, rest));
  }

  lemma MapText(mapSelect: MapSelect, after: string)
    ensures var text := MapSelectText(mapSelect)[1..] + after;
            && MapSelectText(mapSelect) + after == "." + text
            && (after != "" ==> |text| > 2) && text[0] == '0'
            && (mapSelect.Map0F38? || mapSelect.Map0F3A? ==> text[2] == '3')
  {
  }

  lemma ReadsMapOf(
    usage: VexOperandUsage, size: Option<VexVectorSize>, prefix: MandatoryPrefix, mapSelect: MapSelect,
    after: string, tokens: VexTokens
  )
    requires IsOpcodeMap(mapSelect) && after != "" && (after[0] == '.' || after[0] == ' ')
    requires MatchMap(usage, size, prefix, Match(mapSelect, after)) == Some(tokens)
    ensures MatchMandatoryPrefix(usage, size, Match(prefix, MapSelectText(mapSelect) + after)) == Some(tokens)
  {
    var text := MapSelectText(mapSelect)[1..] + after;
    var next := (x: Match<MapSelect>) => MatchMap(usage, size, prefix, x);
    MapText(mapSelect, after);
    assert next(Match(mapSelect, after)) == Some(tokens);
    DotField(text, MAP_SELECT_TOKENS);
    MapChoices(mapSelect, after);
    if mapSelect.Map0F? {
      FirstOption(Choices(text, MAP_SELECT_TOKENS), next);
    } else {
      ShortMapFails(usage, size, prefix, text[2..]);
      SecondOption(Choices(text, MAP_SELECT_TOKENS), next);
    }
  }

  lemma MandatoryPrefixToken(prefix: MandatoryPrefix, after: string)
    requires !prefix.NoMandatoryPrefix?
    ensures exists k ::
              && 0 <= k < |MANDATORY_PREFIX_TOKENS| && MANDATORY_PREFIX_TOKENS[k].value == prefix
              && MandatoryPrefixText(prefix) + after == "." + (MANDATORY_PREFIX_TOKENS[k].text + after)
              && (forall j :: 0 <= j < k ==>
                   !(MANDATORY_PREFIX_TOKENS[j].text <= MANDATORY_PREFIX_TOKENS[k].text + after))
              && MANDATORY_PREFIX_TOKENS[k].text != "" && MANDATORY_PREFIX_TOKENS[k].text[0] != ' '
  {
    var k := if prefix.MandatoryOperandSizeOverride? then 0 else if prefix.MandatoryRepne? then 1 else 2;
    var token := MANDATORY_PREFIX_TOKENS[k];
    assert MandatoryPrefixText(prefix) + after == "." + (token.text + after);
    forall j | 0 <= j < k
      ensures !(MANDATORY_PREFIX_TOKENS[j].text <= token.text + after)
    {
      assert (token.text + after)[0] == token.text[0] && (token.text + after)[1] == token.text[1];
    }
  }

  lemma NoMandatoryPrefixToken(text: string)
    requires text != "" && text[0] == '0'
    ensures forall j :: 0 <= j < |MANDATORY_PREFIX_TOKENS| ==> !(MANDATORY_PREFIX_TOKENS[j].text <= text)
  {
  }

  lemma ReadsMandatoryPrefix(
    usage: VexOperandUsage, size: Option<VexVectorSize>, prefix: MandatoryPrefix, mapSelect: MapSelect,
    w: VexWUsage, rest: string
  )
    requires IsOpcodeMap(mapSelect)
    ensures MatchVectorSize(usage, Match(size, MandatoryPrefixText(prefix) + MapAndWText(mapSelect, w, rest))) ==
            Some(VexTokens(usage, size, prefix, mapSelect, w, rest))
  {
    var after := MapAndWText(mapSelect, w, rest);
    MapTextStart(mapSelect, w, rest);
    ReadsMap(usage, size, prefix, mapSelect, w, rest);
    ReadsMandatoryPrefixOf(usage, size, prefix, after, after[1..], VexTokens(usage, size, prefix, mapSelect, w, rest));
  }

  lemma ReadsMandatoryPrefixOf(
    usage: VexOperandUsage, size: Option<VexVectorSize>, prefix: MandatoryPrefix, after: string, text: string,
    tokens: VexTokens
  )
    requires after == "." + text && text != "" && text[0] == '0'
    requires MatchMandatoryPrefix(usage, size, Match(prefix, after)) == Some(tokens)
    ensures MatchVectorSize(usage, Match(size, MandatoryPrefixText(prefix) + after)) == Some(tokens)
  {
    var next := (x: Match<MandatoryPrefix>) => MatchMandatoryPrefix(usage, size, x);
    if prefix.NoMandatoryPrefix? {
      assert "" + after == after;
      NoMandatoryPrefixToken(text);
      OptionalFieldIsSkipped(MANDATORY_PREFIX_TOKENS, NoMandatoryPrefix, text, next);
    } else {
      MandatoryPrefixToken(prefix, after);
      var k :| && 0 <= k < |MANDATORY_PREFIX_TOKENS| && MANDATORY_PREFIX_TOKENS[k].value == prefix
               && MandatoryPrefixText(prefix) + after == "." + (MANDATORY_PREFIX_TOKENS[k].text + after)
               && (forall j :: 0 <= j < k ==>
                    !(MANDATORY_PREFIX_TOKENS[j].text <= MANDATORY_PREFIX_TOKENS[k].text + after))
               && MANDATORY_PREFIX_TOKENS[k].text != "" && MANDATORY_PREFIX_TOKENS[k].text[0] != ' ';
      OptionalFieldIsTaken(MANDATORY_PREFIX_TOKENS, k, NoMandatoryPrefix, after, next);
    }
  }

  function VectorSizeIndex(size: VexVectorSize): nat {
    match size
    case VectorSizeIsIgnored => 1
    case VectorSizeBitIsZero => 3
    case VectorSizeBitIsOne => 4
    case VectorSize128Bit => 6
    case VectorSize256Bit => 7
    case VectorSize512Bit => 8
  }

  lemma VectorSizeToken(size: VexVectorSize, after: string)
    ensures var k := VectorSizeIndex(size);
            && VECTOR_SIZE_TOKENS[k].value == Some(size)
            && VectorSizeText(size) + after == "." + (VECTOR_SIZE_TOKENS[k].text + after)
            && (forall j :: 0 <= j < k ==> !(VECTOR_SIZE_TOKENS[j].text <= VECTOR_SIZE_TOKENS[k].text + after))
            && VECTOR_SIZE_TOKENS[k].text != "" && VECTOR_SIZE_TOKENS[k].text[0] != ' '
  {
    var k := VectorSizeIndex(size);
    var text := VECTOR_SIZE_TOKENS[k].text;
    assert VectorSizeText(size) + after == "." + (text + after);
    forall j | 0 <= j < k
      ensures !(VECTOR_SIZE_TOKENS[j].text <= text + after)
    {
      assert (text + after)[0] == text[0] && (text + after)[1] == text[1];
    }
  }

  lemma ReadsVectorSize(
    usage: VexOperandUsage, size: VexVectorSize, prefix: MandatoryPrefix, mapSelect: MapSelect,
    w: VexWUsage, rest: string
  )
    requires IsOpcodeMap(mapSelect)
    ensures MatchUsage(Match(usage, VectorSizeText(size) +
                                    (MandatoryPrefixText(prefix) + MapAndWText(mapSelect, w, rest)))) ==
            Some(VexTokens(usage, Some(size), prefix, mapSelect, w, rest))
  {
    var after := MandatoryPrefixText(prefix) + MapAndWText(mapSelect, w, rest);
    var next := (x: Match<Option<VexVectorSize>>) => MatchVectorSize(usage, x);
    ReadsMandatoryPrefix(usage, Some(size), prefix, mapSelect, w, rest);
    VectorSizeToken(size, after);
    OptionalFieldIsTaken(VECTOR_SIZE_TOKENS, VectorSizeIndex(size), None, after, next);
  }

  lemma NoUsageToken(size: VexVectorSize, after: string)
    ensures var text := VectorSizeText(size)[1..] + after;
            && text != "" && text[0] != ' '
            && VectorSizeText(size) + after == "." + text
            && forall j :: 0 <= j < |VEX_OPERAND_USAGE_TOKENS| ==> !(VEX_OPERAND_USAGE_TOKENS[j].text <= text)
  {
    var text := VectorSizeText(size)[1..] + after;
    assert VectorSizeText(size) + after == "." + text;
    assert text[0] == VectorSizeText(size)[1];
  }

  lemma ReadsVexFields(vex: VexPrefixSpecification, rest: string)
    requires IsOpcodeMap(vex.mapSelect)
    ensures MatchVexFields(VectorSizeText(vex.vectorSize) +
                           (MandatoryPrefixText(vex.mandatoryPrefix) +
                            MapAndWText(vex.mapSelect, vex.vexWUsage, rest))) ==
            Some(VexTokens(UndefinedVexOperandUsage, Some(vex.vectorSize), vex.mandatoryPrefix, vex.mapSelect,
                           vex.vexWUsage, rest))
  {
    var after := MandatoryPrefixText(vex.mandatoryPrefix) + MapAndWText(vex.mapSelect, vex.vexWUsage, rest);
    ReadsVectorSize(UndefinedVexOperandUsage, vex.vectorSize, vex.mandatoryPrefix, vex.mapSelect, vex.vexWUsage, rest);
    NoUsageToken(vex.vectorSize, after);
    OptionalFieldIsSkipped(VEX_OPERAND_USAGE_TOKENS, UndefinedVexOperandUsage,
                           VectorSizeText(vex.vectorSize)[1..] + after, MatchUsage);
  }

  // ---- The whole prefix -----------------------------------------------------

  lemma Regroup(a: string, b: string, c: string, d: string, e: string, rest: string)
    ensures (a + (b + (c + (d + (e + " "))))) + rest == a + (b + (c + (d + (e + (" " + rest)))))
  {
  }

  lemma VexPrefixRoundTrip(vex: VexPrefixSpecification, rest: string)
    requires IsOpcodeMap(vex.mapSelect) && !vex.prefixType.UndefinedPrefixType?
    ensures var text := VexPrefixText(vex) + rest;
            && HasVexPrefix(text)
            && MatchVexPrefix(text) ==
               Some((vex.prefixType,
                     VexTokens(UndefinedVexOperandUsage, Some(vex.vectorSize), vex.mandatoryPrefix, vex.mapSelect,
                               vex.vexWUsage, rest)))
  {
    var typeText := PrefixTypeText(vex.prefixType);
    var fields := VectorSizeText(vex.vectorSize) +
                  (MandatoryPrefixText(vex.mandatoryPrefix) + MapAndWText(vex.mapSelect, vex.vexWUsage, rest));
    Regroup(typeText, VectorSizeText(vex.vectorSize), MandatoryPrefixText(vex.mandatoryPrefix),
            MapSelectText(vex.mapSelect), VexWText(vex.vexWUsage), rest);
    ReadsVexFields(vex, rest);
    PrefixTypeRoundTrip(vex.prefixType, fields);
    assert fields[0] == '.';
  }

  lemma PrefixTypeRoundTrip(prefixType: VexPrefixType, fields: string)
    requires !prefixType.UndefinedPrefixType? && fields != "" && fields[0] == '.'
    ensures var text := PrefixTypeText(prefixType) + fields;
            && ("EVEX" <= text <==> prefixType.EvexType?) && (prefixType.VexType? ==> "VEX" <= text)
            && text[|PrefixTypeText(prefixType)|..] == fields
            && HasVexPrefix(text)
  {
    var text := PrefixTypeText(prefixType) + fields;
    DropFront(PrefixTypeText(prefixType), fields);
    if prefixType.VexType? {
      assert text[0] == 'V' && text[..4] == "VEX.";
    }
  }
}
