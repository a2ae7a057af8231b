// What the parser reads from the generated opcode and suffixes.
module SpecificationSuffixes {
  import opened Wrappers
  import opened Sequences
  import opened Scanner
  import opened X86Protos
  import opened EncodingSpecificationLanguage
  import opened EncodingSpecificationGenerator

  // ---- Opcode bytes ---------------------------------------------------------

  lemma HexDigitRoundTrip(n: bv8)
    requires n < 16
    ensures HexValue(HexDigit(n)) == Some(n) && HexDigit(n) != ' '
  {
  }

  lemma Nibbles(byte: bv8)
    ensures byte >> 4 < 16 && byte & 15 < 16 && ((byte >> 4) << 4) | (byte & 15) == byte
  {
  }

  lemma HexTextRoundTrip(byte: bv8, rest: string)
    ensures ConsumeOpcodeByte(HexText(byte) + rest) ==
            Some(Match(OpcodeByte(byte, OperandSuffix(rest).value), OperandSuffix(rest).rest))
  {
    Nibbles(byte);
    HexDigitRoundTrip(byte >> 4);
    HexDigitRoundTrip(byte & 15);
    var text := HexText(byte) + rest;
    SkipNothing(text);
    assert text[0] == HexDigit(byte >> 4) && text[1] == HexDigit(byte & 15) && text[2..] == rest;
  }

  lemma SpaceIsSkipped(s: string)
    ensures ConsumeOpcodeByte(" " + s) == ConsumeOpcodeByte(s)
    ensures ConsumeLegacyPrefix(" " + s) == ConsumeLegacyPrefix(s)
    ensures ConsumeSuffix(" " + s) == ConsumeSuffix(s)
  {
    assert (" " + s)[1..] == s;
    assert SkipSpaces(" " + s) == SkipSpaces(s);
  }

  // What may follow the last opcode byte: nothing that continues the opcode.
  predicate EndsOpcode(s: string) {
    ConsumeOpcodeByte(s).None? && OperandSuffix(s) == Match(NoOperandInOpcode, s)
  }

  function WithBytes(specification: EncodingSpecification, bytes: seq<bv8>): EncodingSpecification
    decreases |bytes|
  {
    if bytes == [] then specification
    else WithBytes(specification.(opcode := specification.opcode.AppendByte(bytes[0])), bytes[1..])
  }

  lemma {:induction false} NoSuffixBeforeByte(bytes: seq<bv8>, rest: string)
    requires bytes != []
    ensures OperandSuffix(" " + (OpcodeText(bytes) + rest)) ==
            Match(NoOperandInOpcode, " " + (OpcodeText(bytes) + rest))
  {
    var text := OpcodeText(bytes) + rest;
    Nibbles(bytes[0]);
    HexDigitRoundTrip(bytes[0] >> 4);
    assert text[0] == HexDigit(bytes[0] >> 4);
    SkipNothing(text);
  }

  // The bytes are read one by one, and the operand after the last of them.
  lemma {:induction false} OpcodeRoundTrip(
    specification: EncodingSpecification, count: nat, bytes: seq<bv8>,
    operandText: string, operand: OperandInOpcode, rest: string
  )
    requires bytes != [] && specification.operandInOpcode.NoOperandInOpcode?
    requires OperandSuffix(operandText + rest) == Match(operand, rest) && ConsumeOpcodeByte(rest).None?
    ensures ConsumeOpcodeBytes(specification, count, OpcodeText(bytes) + (operandText + rest)) ==
            OpcodeBytesMatch(WithBytes(specification, bytes).(operandInOpcode := operand), count + |bytes|, rest)
    decreases |bytes|
  {
    var next := AddOpcodeByte(specification, OpcodeByte(bytes[0], NoOperandInOpcode));
    if |bytes| == 1 {
      HexTextRoundTrip(bytes[0], operandText + rest);
      assert OpcodeText(bytes) == HexText(bytes[0]);
      assert WithBytes(specification, bytes) == next;
    } else {
      var tail := OpcodeText(bytes[1..]) + (operandText + rest);
      OpcodeTextStep(bytes, operandText + rest);
      HexTextRoundTrip(bytes[0], " " + tail);
      NoSuffixBeforeByte(bytes[1..], operandText + rest);
      OpcodeRoundTrip(next, count + 1, bytes[1..], operandText, operand, rest);
      StartsWithByte(bytes[1..], operandText + rest);
      LeadingSpace(next, count + 1, tail);
    }
  }

  lemma {:induction false} OpcodeTextStep(bytes: seq<bv8>, rest: string)
    requires |bytes| > 1
    ensures OpcodeText(bytes) + rest == HexText(bytes[0]) + (" " + (OpcodeText(bytes[1..]) + rest))
  {
  }

  lemma {:induction false} StartsWithByte(bytes: seq<bv8>, rest: string)
    requires bytes != []
    ensures ConsumeOpcodeByte(OpcodeText(bytes) + rest).Some?
  {
    var others := if |bytes| == 1 then "" else " " + OpcodeText(bytes[1..]);
    assert OpcodeText(bytes) + rest == HexText(bytes[0]) + (others + rest);
    HexTextRoundTrip(bytes[0], others + rest);
  }

  lemma {:induction false} LeadingSpace(specification: EncodingSpecification, count: nat, s: string)
    requires ConsumeOpcodeByte(s).Some?
    ensures ConsumeOpcodeBytes(specification, count, " " + s) == ConsumeOpcodeBytes(specification, count, s)
  {
    SpaceIsSkipped(s);
  }

  // ---- Suffixes -------------------------------------------------------------

  function ImmediateChar(size: nat): char {
    if size == 1 then 'b' else if size == 2 then 'w' else if size == 4 then 'd' else 'o'
  }

  lemma ImmediateRoundTrip(size: nat, rest: string)
    requires size in {1, 2, 4, 8}
    ensures ConsumeSuffix(ImmediateText(size) + rest) == Some(Match(Immediate(ImmediateChar(size)), rest))
    ensures ImmediateSize(ImmediateChar(size)) == size
  {
    var c := ImmediateChar(size);
    var t := "i" + [c] + rest;
    assert ImmediateText(size) + rest == " " + t;
    SpaceIsSkipped(t);
    SkipNothing(t);
    assert t[0] == 'i' && t[1] == c && t[2..] == rest;
  }

  lemma {:induction false} OneSuffix(
    specification: EncodingSpecification, s: string, suffix: Suffix, rest: string, next: EncodingSpecification
  )
    requires ConsumeSuffix(s) == Some(Match(suffix, rest)) && AddSuffix(specification, suffix) == Success(next)
    ensures ConsumeSuffixes(specification, s) == ConsumeSuffixes(next, rest)
  {
  }

  lemma {:induction false} NoSuffix(specification: EncodingSpecification)
    ensures ConsumeSuffixes(specification, "") == Success((specification, ""))
  {
  }

  // The suffixes of a string lead from one specification to another.
  predicate Reads(specification: EncodingSpecification, s: string, result: EncodingSpecification) {
    ConsumeSuffixes(specification, s) == Success((result, ""))
  }

  lemma ReadsImmediate(
    specification: EncodingSpecification, s: string, size: nat, rest: string, result: EncodingSpecification
  )
    requires size in {1, 2, 4, 8} && s == ImmediateText(size) + rest
    requires Reads(specification.(immediateValueBytes := specification.immediateValueBytes + [size]), rest, result)
    ensures Reads(specification, s, result)
  {
    ImmediateRoundTrip(size, rest);
    OneSuffix(specification, s, Immediate(ImmediateChar(size)), rest,
              specification.(immediateValueBytes := specification.immediateValueBytes + [size]));
  }

  lemma {:induction false} ReadsImmediates(
    specification: EncodingSpecification, sizes: seq<nat>, s: string, result: EncodingSpecification
  )
    requires forall i :: 0 <= i < |sizes| ==> sizes[i] in {1, 2, 4, 8}
    requires s == ImmediatesText(sizes)
    requires result == specification.(immediateValueBytes := specification.immediateValueBytes + sizes)
    ensures Reads(specification, s, result)
    decreases |sizes|
  {
    var before := specification.immediateValueBytes;
    if sizes == [] {
      assert before + sizes == before;
      NoSuffix(specification);
    } else {
      assert before + sizes == (before + [sizes[0]]) + sizes[1..];
      ReadsImmediates(specification.(immediateValueBytes := before + [sizes[0]]), sizes[1..],
                      ImmediatesText(sizes[1..]), result);
      ReadsImmediate(specification, s, sizes[0], ImmediatesText(sizes[1..]), result);
    }
  }

  // What follows the ModR/M suffix: nothing, or an immediate value.
  predicate StartsImmediates(s: string) {
    s == "" || " i" <= s
  }

  lemma {:induction false} ImmediatesStart(sizes: seq<nat>)
    ensures StartsImmediates(ImmediatesText(sizes))
  {
    if sizes != [] {
      assert ImmediateText(sizes[0])[..2] == " i";
    }
  }

  lemma SmallNumber(n: bv32)
    ensures n < 10 <==> (n as nat) < 10
    ensures n > 0 <==> (n as nat) > 0
  {
  }

  lemma {:induction false} DigitRoundTrip(n: bv32)
    requires n < 10
    ensures (n as nat) < 10 && DecimalText(n as nat) == [DecimalDigit(n as nat)]
    ensures var c := DecimalDigit(n as nat);
            DigitValue(c) == n && IsModRmChar(c) && c != 'r'
  {
    SmallNumber(n);
    if n == 0 {
    } else if n == 1 {
    } else if n == 2 {
    } else if n == 3 {
    } else if n == 4 {
    } else if n == 5 {
    } else if n == 6 {
    } else if n == 7 {
    } else if n == 8 {
    }
  }

  lemma ModRmSuffixRoundTrip(c: char, rest: string)
    requires IsModRmChar(c) && StartsImmediates(rest)
    ensures ConsumeSuffix(" /" + [c] + rest) == Some(Match(ModRmSuffix(c), rest))
  {
    var t := "/" + [c] + rest;
    assert " /" + [c] + rest == " " + t;
    SpaceIsSkipped(t);
    assert t[0] == '/' && t[1] == c && t[2..] == rest;
    assert !("/is4" <= t) by {
      assert "/is4"[1] == 'i';
    }
  }

  // The number of an opcode extension has one digit.
  predicate HasShortExtension(specification: EncodingSpecification) {
    specification.modrmUsage.OpcodeExtensionInModRm? ==> specification.modrmOpcodeExtension < 10
  }

  function CanonicalModRm(specification: EncodingSpecification, target: EncodingSpecification): EncodingSpecification {
    match specification.modrmUsage
    case OpcodeExtensionInModRm =>
      target.(modrmUsage := OpcodeExtensionInModRm, modrmOpcodeExtension := specification.modrmOpcodeExtension)
    case FullModRm => target.(modrmUsage := FullModRm)
    case _ => target
  }

  lemma {:induction false} ReadsModRm(
    specification: EncodingSpecification, target: EncodingSpecification, s: string, rest: string,
    result: EncodingSpecification
  )
    requires HasShortExtension(specification) && s == ModRmText(specification) + rest && StartsImmediates(rest)
    requires Reads(CanonicalModRm(specification, target), rest, result)
    ensures Reads(target, s, result)
  {
    var next := CanonicalModRm(specification, target);
    if specification.modrmUsage.OpcodeExtensionInModRm? || specification.modrmUsage.FullModRm? {
      var c := ModRmText(specification)[2];
      if specification.modrmUsage.OpcodeExtensionInModRm? {
        DigitRoundTrip(specification.modrmOpcodeExtension);
      }
      ModRmSuffixRoundTrip(c, rest);
      assert s == " /" + [c] + rest;
      OneSuffix(target, s, ModRmSuffix(c), rest, next);
    } else {
      assert s == rest;
    }
  }

  lemma {:induction false} SuffixesRoundTrip(specification: EncodingSpecification, target: EncodingSpecification)
    requires HasShortExtension(specification)
    requires forall i :: 0 <= i < |specification.immediateValueBytes| ==>
                           specification.immediateValueBytes[i] in {1, 2, 4, 8}
    requires target.immediateValueBytes == []
    ensures var sizes := specification.immediateValueBytes;
            Reads(target, ModRmText(specification) + ImmediatesText(sizes),
                  CanonicalModRm(specification, target).(immediateValueBytes := sizes))
  {
    var sizes := specification.immediateValueBytes;
    var next := CanonicalModRm(specification, target);
    assert [] + sizes == sizes;
    ImmediatesStart(sizes);
    ReadsImmediates(next, sizes, ImmediatesText(sizes), next.(immediateValueBytes := sizes));
    ReadsModRm(specification, target, ModRmText(specification) + ImmediatesText(sizes), ImmediatesText(sizes),
               next.(immediateValueBytes := sizes));
  }

  lemma SuffixEndsOpcode(first: char, rest: string)
    requires first == '/' || first == 'i'
    ensures EndsOpcode(" " + ([first] + rest))
  {
    var t := [first] + rest;
    SpaceIsSkipped(t);
    SkipNothing(t);
    NotHexDigit(t);
  }

  lemma NotHexDigit(s: string)
    requires s != "" && (s[0] == '/' || s[0] == 'i')
    ensures ConsumeOpcodeByte(s).None?
  {
    SkipNothing(s);
    assert HexValue(s[0]).None?;
  }

  lemma {:induction false} SuffixesEndOpcode(specification: EncodingSpecification, sizes: seq<nat>)
    ensures EndsOpcode(ModRmText(specification) + ImmediatesText(sizes))
  {
    ImmediatesStart(sizes);
    var text := ModRmText(specification) + ImmediatesText(sizes);
    if text != "" {
      assert text == " " + ([text[1]] + text[2..]);
      assert text[1] == '/' || text[1] == 'i';
      SuffixEndsOpcode(text[1], text[2..]);
    }
  }

  // The text of an operand after its plus sign.
  predicate IsOperandToken(text: string, operand: OperandInOpcode) {
    if operand.FpStackRegisterInOpcode? then text == "i" else text in {"rb", "rw", "rd", "ro"}
  }

  lemma OperandRoundTrip(format: InstructionFormat, specification: EncodingSpecification, rest: string)
    requires CanGenerate(format, specification) && OperandSuffix(rest) == Match(NoOperandInOpcode, rest)
    ensures OperandSuffix(OperandInOpcodeText(format, specification) + rest) ==
            Match(specification.operandInOpcode, rest)
  {
    var text := OperandInOpcodeText(format, specification);
    if specification.operandInOpcode.NoOperandInOpcode? {
      assert text + rest == rest;
    } else {
      var token := text[2..];
      assert IsOperandToken(token, specification.operandInOpcode);
      assert text + rest == " " + ("+" + (token + rest));
      OperandSuffixRoundTrip(token, specification.operandInOpcode, rest);
    }
  }

  lemma OperandSuffixRoundTrip(token: string, operand: OperandInOpcode, rest: string)
    requires !operand.NoOperandInOpcode? && IsOperandToken(token, operand)
    ensures OperandSuffix(" " + ("+" + (token + rest))) == Match(operand, rest)
  {
    SkipNothing("+" + (token + rest));
    SkipNothing(token + rest);
    assert ("+" + (token + rest))[1..] == token + rest;
    var k := if token == "i" then 0 else if token == "rb" then 1 else if token == "rw" then 2
             else if token == "rd" then 3 else 4;
    assert OPCODE_OPERAND_TOKENS[k] == Token(token, operand);
    forall j | 0 <= j < k
      ensures !(OPCODE_OPERAND_TOKENS[j].text <= token + rest)
    {
      assert (token + rest)[0] == 'r' && (token + rest)[1] == token[1];
    }
    FirstChoice(token + rest, OPCODE_OPERAND_TOKENS, k, rest);
  }

  lemma {:induction false} FirstChoice<T>(text: string, tokens: seq<Token<T>>, k: nat, rest: string)
    requires k < |tokens| && text == tokens[k].text + rest
    requires forall j :: 0 <= j < k ==> !(tokens[j].text <= text)
    ensures Choices(text, tokens) != [] && Choices(text, tokens)[0] == Match(tokens[k].value, rest)
    decreases k
  {
    if k > 0 {
      assert !(tokens[0].text <= text);
      FirstChoice(text, tokens[1..], k - 1, rest);
    } else {
      DropFront(tokens[0].text, rest);
    }
  }
}
