// The words of the specification language, as the manuals list them (Intel SDM
// volume 2A, section 3.1.1), and what a text of such words means. It covers the words
// that are never generated.
module SpecificationWords {
  import opened Wrappers
  import opened Sequences
  import opened Scanner
  import opened X86Protos
  import opened EncodingSpecificationLanguage
  import opened SpecificationSuffixes

  // ---- Suffixes -------------------------------------------------------------

  datatype SuffixWord =
    | FullWord
    | ExtensionWord(digit: nat, hasLeadingZero: bool)
    | ImmediateWord(bytes: nat)
    | CodeOffsetWord(bytes: nat)
    | RegisterSuffixWord
    | VSibWord
    | MemoryWord(bits: nat)

  predicate IsSuffixWord(word: SuffixWord) {
    match word
    case ExtensionWord(digit, _) => digit <= 9
    case ImmediateWord(bytes) => bytes in {1, 2, 4, 8}
    case CodeOffsetWord(bytes) => bytes in {1, 2, 4, 6, 8, 10}
    case MemoryWord(bits) => bits in {64, 128, 256}
    case _ => true
  }

  function DigitText(digit: nat): string {
    match digit
    case 0 => "0" case 1 => "1" case 2 => "2" case 3 => "3" case 4 => "4"
    case 5 => "5" case 6 => "6" case 7 => "7" case 8 => "8" case _ => "9"
  }

  function SuffixWordText(word: SuffixWord): string {
    match word
    case FullWord => "/r"
    case ExtensionWord(digit, hasLeadingZero) => (if hasLeadingZero then "/0" else "/") + DigitText(digit)
    case ImmediateWord(bytes) =>
      (match bytes case 1 => "ib" case 2 => "iw" case 4 => "id" case _ => "io")
    case CodeOffsetWord(bytes) =>
      (match bytes case 1 => "cb" case 2 => "cw" case 4 => "cd" case 6 => "cp" case 8 => "co" case _ => "ct")
    case RegisterSuffixWord => "/is4"
    case VSibWord => "/vsib"
    case MemoryWord(bits) => (match bits case 64 => "m64" case 128 => "m128" case _ => "m256")
  }

  function SuffixesText(words: seq<SuffixWord>): string {
    if words == [] then "" else " " + (SuffixWordText(words[0]) + SuffixesText(words[1..]))
  }

  predicate AreSuffixWords(words: seq<SuffixWord>) {
    forall i :: 0 <= i < |words| ==> IsSuffixWord(words[i])
  }

  // ---- What suffixes mean ---------------------------------------------------

  // Of several words for the ModR/M byte the last one counts, and so does the last
  // number; a vector SIB alone asks for a full ModR/M byte.
  function LastUsage(words: seq<SuffixWord>): ModRmUsage {
    if words == [] then NoModRmUsage
    else if LastUsage(words[1..]) != NoModRmUsage then LastUsage(words[1..])
    else if words[0] == FullWord then FullModRm
    else if words[0].ExtensionWord? then OpcodeExtensionInModRm
    else NoModRmUsage
  }

  function LastNumber(words: seq<SuffixWord>): Option<nat> {
    if words == [] then None
    else if LastNumber(words[1..]).Some? then LastNumber(words[1..])
    else if words[0].ExtensionWord? then Some(words[0].digit)
    else None
  }

  function LastOffset(words: seq<SuffixWord>): Option<nat> {
    if words == [] then None
    else if LastOffset(words[1..]).Some? then LastOffset(words[1..])
    else if words[0].CodeOffsetWord? then Some(words[0].bytes)
    else None
  }

  function ImmediateSizes(words: seq<SuffixWord>): seq<nat> {
    if words == [] then []
    else (if words[0].ImmediateWord? then [words[0].bytes] else []) + ImmediateSizes(words[1..])
  }

  predicate NeedsVex(words: seq<SuffixWord>) {
    RegisterSuffixWord in words || VSibWord in words
  }

  function NumberBits(number: nat): bv32
    requires number <= 9
  {
    number as bv32
  }

  // The words added to a specification that has no suffixes yet.
  function WithSuffixWords(base: EncodingSpecification, words: seq<SuffixWord>): EncodingSpecification
    requires AreSuffixWords(words)
  {
    NumberIsSmall(words);
    base.(
      modrmUsage := if LastUsage(words) == NoModRmUsage then base.modrmUsage else LastUsage(words),
      modrmOpcodeExtension :=
        if LastNumber(words).Some? then NumberBits(LastNumber(words).value) else base.modrmOpcodeExtension,
      immediateValueBytes := base.immediateValueBytes + ImmediateSizes(words),
      codeOffsetBytes := if LastOffset(words).Some? then LastOffset(words).value else base.codeOffsetBytes,
      prefix :=
        if !base.prefix.VexSpecification? then base.prefix
        else
          VexSpecification(base.prefix.vex.(
            hasVexOperandSuffix := base.prefix.vex.hasVexOperandSuffix || RegisterSuffixWord in words,
            vsibUsage := if VSibWord in words then VSibUsed else base.prefix.vex.vsibUsage)))
  }

  lemma {:induction false} NumberIsSmall(words: seq<SuffixWord>)
    requires AreSuffixWords(words)
    ensures LastNumber(words).Some? ==> LastNumber(words).value <= 9
  {
    if words != [] {
      NumberIsSmall(words[1..]);
    }
  }

  // ---- How suffixes are read ------------------------------------------------

  // The rest of a text of words starts with a space.
  predicate StartsWords(s: string) {
    s == "" || s[0] == ' '
  }

  function SuffixOf(word: SuffixWord): Suffix
    requires IsSuffixWord(word)
  {
    match word
    case FullWord => ModRmSuffix('r')
    case ExtensionWord(digit, _) => ModRmSuffix(DigitText(digit)[0])
    case ImmediateWord(bytes) => Immediate(SuffixWordText(word)[1])
    case CodeOffsetWord(bytes) => CodeOffset(SuffixWordText(word)[1])
    case RegisterSuffixWord => Is4
    case VSibWord => VSib
    case MemoryWord(_) => MemoryOperand
  }

  lemma NoSpaceInFront(word: SuffixWord, rest: string)
    requires IsSuffixWord(word)
    ensures var t := SuffixWordText(word) + rest;
            t != "" && t[0] != ' ' && SkipSpaces(" " + t) == t
            && t[|SuffixWordText(word)|..] == rest
  {
    SkipNothing(SuffixWordText(word) + rest);
    DropFront(SuffixWordText(word), rest);
  }

  lemma {:induction false} SlashWordIsRead(word: SuffixWord, rest: string)
    requires IsSuffixWord(word) && StartsWords(rest)
    requires word.FullWord? || word.ExtensionWord? || word.RegisterSuffixWord? || word.VSibWord?
    ensures ConsumeSlashSuffix(SuffixWordText(word) + rest) == Some(Match(SuffixOf(word), rest))
  {
    var text := SuffixWordText(word);
    var t := text + rest;
    DropFront(text, rest);
    assert t[0] == '/' && t[1] == text[1];
    assert |text| > 2 ==> t[2] == text[2];
    assert |text| == 2 && rest != "" ==> t[2] == ' ';
    if word.RegisterSuffixWord? {
      assert t[..4] == "/is4";
    } else if word.VSibWord? {
      assert t[..5] == "/vsib";
    } else {
      assert !("/is4" <= t) by {
        assert "/is4"[1] == 'i';
      }
      assert |text| == 2 || |text| == 3;
    }
  }

  lemma {:induction false} MemoryWordIsRead(word: SuffixWord, rest: string)
    requires IsSuffixWord(word) && word.MemoryWord?
    ensures ConsumeMemorySuffix(SuffixWordText(word) + rest) == Some(Match(MemoryOperand, rest))
  {
    var text := SuffixWordText(word);
    var t := text + rest;
    DropFront(text, rest);
    assert t[..|text|] == text && t[1] == text[1];
    assert text != "m64" ==> !("m64" <= t) by {
      assert "m64"[1] == '6';
    }
  }

  lemma {:induction false} SuffixWordIsRead(word: SuffixWord, rest: string)
    requires IsSuffixWord(word) && StartsWords(rest)
    ensures ConsumeSuffix(" " + (SuffixWordText(word) + rest)) == Some(Match(SuffixOf(word), rest))
  {
    var text := SuffixWordText(word);
    var t := text + rest;
    NoSpaceInFront(word, rest);
    assert t[0] == text[0] && t[1] == text[1];
    if text[0] == '/' {
      SlashWordIsRead(word, rest);
    } else if word.MemoryWord? {
      MemoryWordIsRead(word, rest);
    } else {
      assert |text| == 2;
    }
  }

  lemma {:induction false} DigitMeans(digit: nat)
    requires digit <= 9
    ensures |DigitText(digit)| == 1 && DigitText(digit)[0] != 'r'
    ensures DigitValue(DigitText(digit)[0]) == NumberBits(digit)
  {
  }

  lemma {:induction false} OneWord(word: SuffixWord)
    requires IsSuffixWord(word)
    ensures LastUsage([word]) ==
            if word.FullWord? then FullModRm else if word.ExtensionWord? then OpcodeExtensionInModRm else NoModRmUsage
    ensures LastNumber([word]) == if word.ExtensionWord? then Some(word.digit) else None
    ensures LastOffset([word]) == if word.CodeOffsetWord? then Some(word.bytes) else None
    ensures ImmediateSizes([word]) == if word.ImmediateWord? then [word.bytes] else []
    ensures RegisterSuffixWord in [word] <==> word == RegisterSuffixWord
    ensures VSibWord in [word] <==> word == VSibWord
  {
    assert [word][1..] == [] && [word][0] == word;
  }

  lemma SizesMean(word: SuffixWord)
    requires IsSuffixWord(word)
    ensures word.ImmediateWord? ==> ImmediateSize(SuffixWordText(word)[1]) == word.bytes
    ensures word.CodeOffsetWord? ==> CodeOffsetSize(SuffixWordText(word)[1]) == word.bytes
  {
  }

  lemma {:induction false} WordMeans(base: EncodingSpecification, word: SuffixWord)
    requires IsSuffixWord(word)
    ensures AddSuffix(base, SuffixOf(word)) ==
            if NeedsVex([word]) && !base.prefix.VexSpecification? then Failure(InvalidArgument)
            else Success(WithSuffixWords(base, [word]))
  {
    OneWord(word);
    SizesMean(word);
    if word.ExtensionWord? {
      DigitMeans(word.digit);
    }
    assert base.immediateValueBytes + [] == base.immediateValueBytes;
    if AddSuffix(base, SuffixOf(word)).Success? {
      var added, described := AddSuffix(base, SuffixOf(word)).value, WithSuffixWords(base, [word]);
      assert added.prefix == described.prefix;
      assert added == described.(prefix := added.prefix);
    }
  }

  lemma MembersMean(words: seq<SuffixWord>, word: SuffixWord)
    requires words != []
    ensures word in words <==> word == words[0] || word in words[1..]
  {
    assert words == [words[0]] + words[1..];
  }

  lemma {:induction false} PrefixOfWords(base: EncodingSpecification, words: seq<SuffixWord>)
    requires AreSuffixWords(words) && words != []
    ensures WithSuffixWords(base, words).prefix ==
            WithSuffixWords(WithSuffixWords(base, [words[0]]), words[1..]).prefix
  {
    OneWord(words[0]);
    MembersMean(words, RegisterSuffixWord);
    MembersMean(words, VSibWord);
  }

  lemma {:induction false} FieldsOfWords(base: EncodingSpecification, words: seq<SuffixWord>)
    requires AreSuffixWords(words) && words != []
    ensures var all, rest :=
              WithSuffixWords(base, words), WithSuffixWords(WithSuffixWords(base, [words[0]]), words[1..]);
            && all.modrmUsage == rest.modrmUsage && all.modrmOpcodeExtension == rest.modrmOpcodeExtension
            && all.codeOffsetBytes == rest.codeOffsetBytes
            && all.opcode == rest.opcode && all.operandInOpcode == rest.operandInOpcode
  {
    OneWord(words[0]);
  }

  lemma {:induction false} SizesOfWords(base: EncodingSpecification, words: seq<SuffixWord>)
    requires AreSuffixWords(words) && words != []
    ensures WithSuffixWords(base, words).immediateValueBytes ==
            WithSuffixWords(WithSuffixWords(base, [words[0]]), words[1..]).immediateValueBytes
  {
    OneWord(words[0]);
    Associate(base.immediateValueBytes, ImmediateSizes([words[0]]), ImmediateSizes(words[1..]));
  }

  lemma {:induction false} WordsMean(base: EncodingSpecification, words: seq<SuffixWord>)
    requires AreSuffixWords(words) && words != []
    ensures WithSuffixWords(base, words) == WithSuffixWords(WithSuffixWords(base, [words[0]]), words[1..])
  {
    PrefixOfWords(base, words);
    FieldsOfWords(base, words);
    SizesOfWords(base, words);
  }

  lemma {:induction false} NoWords(base: EncodingSpecification)
    ensures WithSuffixWords(base, []) == base
  {
    assert base.immediateValueBytes + [] == base.immediateValueBytes;
  }

  // A text of suffixes gives what they mean, and an error exactly when a suffix needs
  // a VEX prefix that is not there.
  lemma {:induction false} SuffixWordsAreRead(base: EncodingSpecification, words: seq<SuffixWord>)
    requires AreSuffixWords(words)
    ensures ConsumeSuffixes(base, SuffixesText(words)) ==
            if NeedsVex(words) && !base.prefix.VexSpecification? then Failure(InvalidArgument)
            else Success((WithSuffixWords(base, words), ""))
    decreases |words|
  {
    if words == [] {
      NoWords(base);
      NoSuffix(base);
    } else {
      var rest := SuffixesText(words[1..]);
      SuffixWordIsRead(words[0], rest);
      WordMeans(base, words[0]);
      assert words == [words[0]] + words[1..];
      var added := AddSuffix(base, SuffixOf(words[0]));
      if added.Success? {
        SuffixWordsAreRead(added.value, words[1..]);
        OneSuffix(base, SuffixesText(words), SuffixOf(words[0]), rest, added.value);
        if base.prefix.VexSpecification? || !NeedsVex(words) {
          WordsMean(base, words);
        }
      }
    }
  }

  // The words after the opcode do not continue it.
  lemma {:induction false} WordsEndOpcode(words: seq<SuffixWord>)
    requires AreSuffixWords(words)
    ensures EndsOpcode(SuffixesText(words)) && StartsWords(SuffixesText(words))
  {
    if words != [] {
      var t := SuffixWordText(words[0]) + SuffixesText(words[1..]);
      NoSpaceInFront(words[0], SuffixesText(words[1..]));
      assert t[0] == SuffixWordText(words[0])[0];
      assert t[0] in {'/', 'i', 'c', 'm'};
      assert HexValue(t[0]).None?;
    }
  }
}
