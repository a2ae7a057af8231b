// What the parser reads from the generated prefixes.
module SpecificationPrefixes {
  import opened Wrappers
  import opened Sequences
  import opened Scanner
  import opened X86Protos
  import opened EncodingSpecificationLanguage
  import opened EncodingSpecificationGenerator
  import opened SpecificationSuffixes

  // ---- Legacy prefixes ------------------------------------------------------

  // The prefixes of the string, and what follows them after whitespace.
  predicate ReadsPrefixes(s: string, tokens: seq<LegacyToken>, rest: string) {
    LegacyTokens(s).value == tokens && SkipSpaces(LegacyTokens(s).rest) == rest
  }

  predicate StartsToken(s: string) {
    s != "" && s[0] != ' ' && s[0] != '+'
  }

  // A space in front of the prefixes is skipped.
  lemma SpaceBeforePrefixes(s: string, tokens: seq<LegacyToken>, rest: string)
    requires ReadsPrefixes(s, tokens, rest)
    ensures ReadsPrefixes(" " + s, tokens, rest)
  {
    SpaceIsSkipped(s);
    assert SkipSpaces(" " + s) == SkipSpaces(s) by {
      assert (" " + s)[1..] == s;
    }
  }

  lemma OnePrefix(
    s: string, token: LegacyToken, after: string, tokens: seq<LegacyToken>, rest: string
  )
    requires ConsumeLegacyPrefix(s) == Some(Match(token, after)) && ReadsPrefixes(after, tokens, rest)
    ensures ReadsPrefixes(s, [token] + tokens, rest)
  {
  }

  // The bytes that the generator prints in front of the opcode.
  function PrefixTokenText(token: LegacyToken): string {
    match token
    case Token66 => "66"
    case Token67 => "67"
    case TokenF2 => "F2"
    case TokenF3 => "F3"
    case _ => ""
  }

  lemma PrefixByteIsConsumed(token: LegacyToken, after: string)
    requires PrefixTokenText(token) != ""
    ensures ConsumeLegacyPrefix(PrefixTokenText(token) + after) == Some(Match(token, SkipPlus(after)))
  {
    var s := PrefixTokenText(token) + after;
    SkipNothing(s);
    assert s[2..] == after;
    assert s[..2] == PrefixTokenText(token);
    assert s[0] == PrefixTokenText(token)[0] && s[1] == PrefixTokenText(token)[1];
  }

  lemma NoPlus(rest: string)
    requires StartsToken(rest)
    ensures SkipPlus(" " + rest) == " " + rest
  {
    SkipNothing(rest);
  }

  lemma PrefixByteRoundTrip(token: LegacyToken, s: string, tokens: seq<LegacyToken>, rest: string)
    requires PrefixTokenText(token) != "" && StartsToken(s) && ReadsPrefixes(s, tokens, rest)
    ensures ReadsPrefixes(PrefixTokenText(token) + " " + s, [token] + tokens, rest)
    ensures StartsToken(PrefixTokenText(token) + " " + s)
  {
    assert PrefixTokenText(token) + " " + s == PrefixTokenText(token) + (" " + s);
    PrefixByteIsConsumed(token, " " + s);
    NoPlus(s);
    SpaceBeforePrefixes(s, tokens, rest);
    OnePrefix(PrefixTokenText(token) + " " + s, token, " " + s, tokens, rest);
  }

  lemma RexWIsConsumed(after: string)
    ensures ConsumeLegacyPrefix("REX.W" + after) == Some(Match(TokenRexW, SkipPlus(after)))
  {
    var text := "REX.W" + after;
    SkipNothing(text);
    assert text[..5] == "REX.W" && text[5..] == after;
    assert text[0] == 'R' && text[4] == 'W';
  }

  lemma PlusIsSkipped(s: string)
    requires StartsToken(s)
    ensures SkipPlus(" " + ("+" + (" " + s))) == s
  {
    SkipNothing(s);
    SkipNothing("+" + (" " + s));
    assert ("+" + (" " + s))[1..] == " " + s;
  }

  lemma RexWRoundTrip(s: string, tokens: seq<LegacyToken>, rest: string)
    requires StartsToken(s) && ReadsPrefixes(s, tokens, rest)
    ensures ReadsPrefixes("REX.W + " + s, [TokenRexW] + tokens, rest)
  {
    assert "REX.W + " + s == "REX.W" + (" " + ("+" + (" " + s)));
    RexWIsConsumed(" " + ("+" + (" " + s)));
    PlusIsSkipped(s);
    OnePrefix("REX.W + " + s, TokenRexW, s, tokens, rest);
  }

  function TokenIf(isPresent: bool, token: LegacyToken): seq<LegacyToken> {
    if isPresent then [token] else []
  }

  lemma OptionalPrefixRoundTrip(
    isPresent: bool, token: LegacyToken, s: string, tokens: seq<LegacyToken>, rest: string
  )
    requires PrefixTokenText(token) != "" && StartsToken(s) && ReadsPrefixes(s, tokens, rest)
    ensures var text := When(isPresent, PrefixTokenText(token) + " ") + s;
            StartsToken(text) && ReadsPrefixes(text, TokenIf(isPresent, token) + tokens, rest)
  {
    if isPresent {
      PrefixByteRoundTrip(token, s, tokens, rest);
    } else {
      assert "" + s == s && [] + tokens == tokens;
    }
  }

  // A prefix that may be printed in front of others.
  datatype Printed = Printed(isPresent: bool, token: LegacyToken)

  function PrintedText(prefixes: seq<Printed>, s: string): string {
    if prefixes == [] then s
    else When(prefixes[0].isPresent, PrefixTokenText(prefixes[0].token) + " ") + PrintedText(prefixes[1..], s)
  }

  function PrintedTokens(prefixes: seq<Printed>): seq<LegacyToken> {
    if prefixes == [] then [] else TokenIf(prefixes[0].isPresent, prefixes[0].token) + PrintedTokens(prefixes[1..])
  }

  lemma {:induction false} PrintedRoundTrip(prefixes: seq<Printed>, s: string, tail: seq<LegacyToken>, rest: string)
    requires forall i :: 0 <= i < |prefixes| ==> PrefixTokenText(prefixes[i].token) != ""
    requires StartsToken(s) && ReadsPrefixes(s, tail, rest)
    ensures StartsToken(PrintedText(prefixes, s))
    ensures ReadsPrefixes(PrintedText(prefixes, s), PrintedTokens(prefixes) + tail, rest)
  {
    if prefixes == [] {
      assert [] + tail == tail;
    } else {
      PrintedRoundTrip(prefixes[1..], s, tail, rest);
      OptionalPrefixRoundTrip(prefixes[0].isPresent, prefixes[0].token, PrintedText(prefixes[1..], s),
                              PrintedTokens(prefixes[1..]) + tail, rest);
      Associate(TokenIf(prefixes[0].isPresent, prefixes[0].token), PrintedTokens(prefixes[1..]), tail);
    }
  }

  // The prefixes after REX.W, in the order in which they are printed.
  function PrintedPrefixes(prefixes: LegacyPrefixSpecification): (printed: seq<Printed>)
    ensures forall i :: 0 <= i < |printed| ==> PrefixTokenText(printed[i].token) != ""
  {
    [Printed(prefixes.hasMandatoryRepnePrefix, TokenF2),
     Printed(prefixes.hasMandatoryRepePrefix, TokenF3),
     Printed(prefixes.hasMandatoryAddressSizeOverridePrefix, Token67),
     Printed(prefixes.operandSizeOverridePrefix.PrefixIsRequired?, Token66)]
  }

  lemma {:induction false} UnfoldPrinted(a: Printed, b: Printed, c: Printed, d: Printed, s: string)
    ensures PrintedText([a, b, c, d], s) ==
            When(a.isPresent, PrefixTokenText(a.token) + " ") +
            (When(b.isPresent, PrefixTokenText(b.token) + " ") +
             (When(c.isPresent, PrefixTokenText(c.token) + " ") +
              (When(d.isPresent, PrefixTokenText(d.token) + " ") + s)))
    ensures PrintedTokens([a, b, c, d]) ==
            TokenIf(a.isPresent, a.token) + TokenIf(b.isPresent, b.token) + TokenIf(c.isPresent, c.token) +
            TokenIf(d.isPresent, d.token)
  {
    assert [a, b, c, d][1..] == [b, c, d] && [b, c, d][1..] == [c, d] && [c, d][1..] == [d] && [d][1..] == [];
    assert PrintedText([d], s) == When(d.isPresent, PrefixTokenText(d.token) + " ") + s;
    assert PrintedText([c, d], s) == When(c.isPresent, PrefixTokenText(c.token) + " ") + PrintedText([d], s);
    assert PrintedText([b, c, d], s) == When(b.isPresent, PrefixTokenText(b.token) + " ") + PrintedText([c, d], s);
    assert PrintedTokens([d]) == TokenIf(d.isPresent, d.token);
    assert PrintedTokens([c, d]) == TokenIf(c.isPresent, c.token) + PrintedTokens([d]);
    assert PrintedTokens([b, c, d]) == TokenIf(b.isPresent, b.token) + PrintedTokens([c, d]);
  }

  function LegacyPrefixTokens(prefixes: LegacyPrefixSpecification): seq<LegacyToken> {
    TokenIf(prefixes.rexWPrefix.PrefixIsRequired?, TokenRexW) + PrintedTokens(PrintedPrefixes(prefixes))
  }

  lemma LegacyPrefixesRoundTrip(
    prefixes: LegacyPrefixSpecification, s: string, tail: seq<LegacyToken>, rest: string
  )
    requires StartsToken(s) && ReadsPrefixes(s, tail, rest)
    ensures ReadsPrefixes(LegacyPrefixText(prefixes) + s, LegacyPrefixTokens(prefixes) + tail, rest)
  {
    var afterRex := PrintedText(PrintedPrefixes(prefixes), s);
    var tokens := PrintedTokens(PrintedPrefixes(prefixes));
    PrintedRoundTrip(PrintedPrefixes(prefixes), s, tail, rest);
    LegacyTextInOrder(prefixes, s);
    Associate(TokenIf(prefixes.rexWPrefix.PrefixIsRequired?, TokenRexW), tokens, tail);
    if prefixes.rexWPrefix.PrefixIsRequired? {
      RexWRoundTrip(afterRex, tokens + tail, rest);
    } else {
      assert "" + afterRex == afterRex;
      assert [] + (tokens + tail) == tokens + tail;
    }
  }

  lemma {:induction false} LegacyTextInOrder(prefixes: LegacyPrefixSpecification, s: string)
    ensures LegacyPrefixText(prefixes) + s ==
            When(prefixes.rexWPrefix.PrefixIsRequired?, "REX.W + ") + PrintedText(PrintedPrefixes(prefixes), s)
  {
    var p := PrintedPrefixes(prefixes);
    UnfoldPrinted(p[0], p[1], p[2], p[3], s);
    assert PrefixTokenText(TokenF2) + " " == "F2 " && PrefixTokenText(TokenF3) + " " == "F3 ";
    assert PrefixTokenText(Token67) + " " == "67 " && PrefixTokenText(Token66) + " " == "66 ";
    Regroup(When(prefixes.rexWPrefix.PrefixIsRequired?, "REX.W + "), When(p[0].isPresent, "F2 "),
            When(p[1].isPresent, "F3 "), When(p[2].isPresent, "67 "), When(p[3].isPresent, "66 "), s);
  }

  lemma Regroup(a: string, b: string, c: string, d: string, e: string, s: string)
    ensures (a + b + c + d + e) + s == a + (b + (c + (d + (e + s))))
  {
  }

  function CanonicalUsage(usage: PrefixUsage): PrefixUsage {
    if usage.PrefixIsRequired? then PrefixIsRequired else PrefixUsageIsUnknown
  }

  // Only the prefixes that are required are printed.
  function CanonicalLegacy(prefixes: LegacyPrefixSpecification): LegacyPrefixSpecification {
    prefixes.(rexWPrefix := CanonicalUsage(prefixes.rexWPrefix),
              operandSizeOverridePrefix := CanonicalUsage(prefixes.operandSizeOverridePrefix))
  }

  lemma PrintedTokensAreFound(prefixes: LegacyPrefixSpecification)
    ensures EncodingSpecificationLanguage.LegacyPrefixesOf(LegacyPrefixTokens(prefixes)) == CanonicalLegacy(prefixes)
  {
    var p := PrintedPrefixes(prefixes);
    UnfoldPrinted(p[0], p[1], p[2], p[3], "");
    var tokens := LegacyPrefixTokens(prefixes);
    assert TokenRexW in tokens <==> prefixes.rexWPrefix.PrefixIsRequired?;
    assert TokenF2 in tokens <==> prefixes.hasMandatoryRepnePrefix;
    assert TokenF3 in tokens <==> prefixes.hasMandatoryRepePrefix;
    assert Token67 in tokens <==> prefixes.hasMandatoryAddressSizeOverridePrefix;
    assert Token66 in tokens <==> prefixes.operandSizeOverridePrefix.PrefixIsRequired?;
    assert TokenNP !in tokens;
  }

  // ---- The start of the opcode ----------------------------------------------

  // The opcode bytes that the parser takes for a prefix.
  predicate IsPrefixByte(byte: bv8) {
    byte == 0x66 || byte == 0x67 || byte == 0xf2 || byte == 0xf3
  }

  lemma HexOfPrefix(byte: bv8)
    ensures var text := HexText(byte);
            && (text == "66" <==> byte == 0x66) && (text == "67" <==> byte == 0x67)
            && (text == "F2" <==> byte == 0xf2) && (text == "F3" <==> byte == 0xf3)
            && text[0] != 'N' && text[0] != 'R' && text[0] != '+' && text[0] != ' ' && text[0] != 'V'
            && text[1] != 'V'
  {
    var text := HexText(byte);
    Nibbles(byte);
    assert text == "66" <==> text[0] == '6' && text[1] == '6';
    assert text == "67" <==> text[0] == '6' && text[1] == '7';
    assert text == "F2" <==> text[0] == 'F' && text[1] == '2';
    assert text == "F3" <==> text[0] == 'F' && text[1] == '3';
    HexDigitValue(byte >> 4, byte & 15);
  }

  lemma HexDigitValue(high: bv8, low: bv8)
    requires high < 16 && low < 16
    ensures (HexDigit(high) == '6' <==> high == 6) && (HexDigit(high) == 'F' <==> high == 15)
    ensures (HexDigit(low) == '6' <==> low == 6) && (HexDigit(low) == '7' <==> low == 7)
    ensures (HexDigit(low) == '2' <==> low == 2) && (HexDigit(low) == '3' <==> low == 3)
    ensures HexDigit(high) !in {'N', 'R', '+', ' ', 'V'} && HexDigit(low) != 'V'
  {
  }

  lemma {:induction false} OpcodeIsNoPrefix(bytes: seq<bv8>, rest: string)
    requires bytes != [] && !IsPrefixByte(bytes[0])
    ensures var text := OpcodeText(bytes) + rest;
            StartsToken(text) && ReadsPrefixes(text, [], text) && !HasVexPrefix(text)
  {
    var text := OpcodeText(bytes) + rest;
    HexOfPrefix(bytes[0]);
    SkipNothing(text);
    assert text[..2] == HexText(bytes[0]) && text[0] == HexText(bytes[0])[0] && text[1] == HexText(bytes[0])[1];
  }
}
