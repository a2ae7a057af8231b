// Parsing a printed assembly string gives the instruction format back.
module AssemblyRoundTrip {
  import opened Wrappers
  import opened Sequences
  import opened Scanner
  import opened X86Protos
  import opened AssemblySyntax

  // ---- What is printed so that it can be read -------------------------------

  // Every comma is in parentheses.
  predicate HidesCommas(inParenthesis: bool, s: string)
    decreases |s|
  {
    s == "" || ((s[0] == ',' ==> inParenthesis) && HidesCommas(NextState(inParenthesis, s[0]), s[1..]))
  }

  predicate IsTag(tag: string) {
    tag != "" && forall i :: 0 <= i < |tag| ==>
      !IsBrace(tag[i]) && tag[i] != ',' && tag[i] != '(' && tag[i] != ')'
  }

  predicate IsName(name: string) {
    && (forall i :: 0 <= i < |name| ==> !IsBrace(name[i]))
    && (name != "" ==> !IsAsciiWhitespace(name[0]) && !IsAsciiWhitespace(name[|name| - 1]))
    && HidesCommas(false, name) && !StateAfter(false, name)
  }

  predicate IsOperand(operand: InstructionOperand) {
    && operand == NewOperand(operand.name, operand.tags)
    && IsName(operand.name)
    && (forall i :: 0 <= i < |operand.tags| ==> IsTag(operand.tags[i]))
    && (operand.name != "" || operand.tags != [])
  }

  predicate HasNoTab(s: string) {
    forall i :: 0 <= i < |s| ==> s[i] != '\t'
  }

  predicate StartsWithPrefix(mnemonic: string) {
    "LOCK" <= mnemonic || "REP" <= mnemonic
  }

  // A mnemonic has one space, between a prefix and the rest, if it has a prefix.
  predicate IsMnemonic(mnemonic: string) {
    && mnemonic != ""
    && (forall i :: 0 <= i < |mnemonic| ==>
          mnemonic[i] != ',' && mnemonic[i] != '(' && mnemonic[i] != ')' &&
          (IsAsciiWhitespace(mnemonic[i]) ==> mnemonic[i] == ' '))
    && mnemonic[0] != ' ' && mnemonic[|mnemonic| - 1] != ' '
    && match FindSpace(mnemonic, 0)
       case None => !StartsWithPrefix(mnemonic)
       case Some(space) => StartsWithPrefix(mnemonic) && FindSpace(mnemonic, space + 1).None?
  }

  predicate IsPrintable(format: InstructionFormat) {
    && IsMnemonic(format.mnemonic)
    && (forall i :: 0 <= i < |format.operands| ==> IsOperand(format.operands[i]))
  }

  // Tabs in the first operand are read as spaces.
  predicate FirstOperandHasNoTab(format: InstructionFormat) {
    format.operands != [] ==> HasNoTab(OperandText(format.operands[0]))
  }

  // ---- The text of an operand -----------------------------------------------

  function TagsText(tags: seq<string>): string {
    if tags == [] then ""
    else if |tags| == 1 then "{" + tags[0] + "}"
    else "{" + tags[0] + "}" + " " + TagsText(tags[1..])
  }

  function OperandText(operand: InstructionOperand): string {
    operand.name + (if operand.name != "" && operand.tags != [] then " " else "") + TagsText(operand.tags)
  }

  lemma {:induction false} TagsTextOfFront(tags: seq<string>)
    requires tags != []
    ensures var last := |tags| - 1;
            TagsText(tags) ==
            (if last == 0 then "" else TagsText(tags[..last]) + " ") + ("{" + tags[last] + "}")
    decreases |tags|
  {
    var last := |tags| - 1;
    if last > 0 {
      TagsTextOfFront(tags[1..]);
      assert tags[1..][..last - 1] == tags[..last][1..];
      if last > 1 {
        assert tags[..last][0] == tags[0];
      } else {
        assert tags[..1] == [tags[0]];
      }
    }
  }

  lemma {:induction false} TagsTextEnds(tags: seq<string>)
    requires tags != []
    ensures TagsText(tags) != "" && TagsText(tags)[|TagsText(tags)| - 1] == '}' && TagsText(tags)[0] == '{'
    decreases |tags|
  {
    if |tags| > 1 {
      TagsTextEnds(tags[1..]);
    }
  }

  // Tags that are appended after a space, or after a name.
  lemma {:induction false} AppendTagsText(start: string, tags: seq<string>)
    requires start != ""
    ensures AppendTags(start, tags) ==
            start + (if tags != [] && start[|start| - 1] != ' ' then " " else "") + TagsText(tags)
    decreases |tags|
  {
    if tags == [] {
      assert start + "" + "" == start;
    } else {
      var last := |tags| - 1;
      AppendTagsText(start, tags[..last]);
      TagsTextOfFront(tags);
      if last == 0 {
        assert tags[..0] == [] && start + "" + "" == start;
        AppendOneTag(start, tags[last]);
      } else {
        var gap := if start[|start| - 1] != ' ' then " " else "";
        TagsTextEnds(tags[..last]);
        AppendNextTag(start + gap, TagsText(tags[..last]), tags[last]);
      }
    }
  }

  lemma AppendOneTag(start: string, tag: string)
    requires start != ""
    ensures AppendTag(start, tag) == start + (if start[|start| - 1] != ' ' then " " else "") + ("{" + tag + "}")
  {
    assert start + "" == start;
  }

  lemma AppendNextTag(start: string, text: string, tag: string)
    requires text != "" && text[|text| - 1] == '}'
    ensures AppendTag(start + text, tag) == start + (text + " " + ("{" + tag + "}"))
  {
    AppendOneTag(start + text, tag);
  }

  // ---- Reading an operand ---------------------------------------------------

  lemma {:induction false} ReadsToBrace(tag: string, rest: string)
    requires forall i :: 0 <= i < |tag| ==> tag[i] != '}'
    ensures BeforeClosingBrace(tag + "}" + rest) == tag
  {
    if tag == "" {
      assert ("" + "}" + rest)[0] == '}';
    } else {
      assert (tag + "}" + rest)[1..] == tag[1..] + "}" + rest;
      ReadsToBrace(tag[1..], rest);
    }
  }

  lemma {:induction false} ReadsTag(tag: string, rest: string)
    requires IsTag(tag)
    ensures ConsumeTag("{" + tag + "}" + rest) == Some(Match(tag, SkipSpaces(rest)))
    ensures ConsumeTag(" " + ("{" + tag + "}" + rest)) == Some(Match(tag, SkipSpaces(rest)))
  {
    var s := "{" + tag + "}" + rest;
    SkipNothing(s);
    assert s[0] == '{' && s[1..] == tag + "}" + rest;
    ReadsToBrace(tag, rest);
    assert s[|tag| + 2..] == rest;
  }

  lemma {:induction false} ReadsTags(tags: seq<string>)
    requires forall i :: 0 <= i < |tags| ==> IsTag(tags[i])
    ensures ConsumeTags(TagsText(tags)) == Some(tags)
    ensures tags != [] ==> ConsumeTags(" " + TagsText(tags)) == Some(tags)
    decreases |tags|
  {
    if tags != [] {
      var rest := if |tags| == 1 then "" else " " + TagsText(tags[1..]);
      assert TagsText(tags) == "{" + tags[0] + "}" + rest;
      ReadsTag(tags[0], rest);
      ReadsTags(tags[1..]);
      AfterTag(tags);
      assert [tags[0]] + tags[1..] == tags;
    }
  }

  lemma AfterTag(tags: seq<string>)
    requires tags != []
    ensures SkipSpaces(if |tags| == 1 then "" else " " + TagsText(tags[1..])) == TagsText(tags[1..])
  {
    if |tags| > 1 {
      TagsTextEnds(tags[1..]);
      SkipNothing(TagsText(tags[1..]));
    } else {
      assert tags[1..] == [];
    }
  }

  lemma {:induction false} FrontOfBrace(name: string, rest: string)
    requires (forall i :: 0 <= i < |name| ==> !IsBrace(name[i])) && (rest == "" || IsBrace(rest[0]))
    ensures BeforeBrace(name + rest) == name
  {
    if name == "" {
      assert name + rest == rest;
    } else {
      assert (name + rest)[1..] == name[1..] + rest;
      FrontOfBrace(name[1..], rest);
    }
  }

  lemma ReadsNamedOperand(space: string, operand: InstructionOperand)
    requires IsOperand(operand) && operand.name != "" && (space == "" || space == " ")
    ensures OperandOf(space + OperandText(operand)) == Some(operand)
  {
    var gap := if operand.tags == [] then "" else " ";
    assert OperandText(operand) == operand.name + gap + TagsText(operand.tags);
    if operand.tags != [] {
      TagsTextEnds(operand.tags);
    }
    ReadsName(operand.name, gap, TagsText(operand.tags));
    ReadsTags(operand.tags);
    assert "" + OperandText(operand) == OperandText(operand);
  }

  lemma ReadsName(name: string, gap: string, rest: string)
    requires IsName(name) && name != ""
    requires if rest == "" then gap == "" else gap == " " && rest[0] == '{'
    ensures ConsumeName(name + gap + rest) == Match(name, rest)
    ensures ConsumeName(" " + (name + gap + rest)) == Match(name, rest)
  {
    var text := name + gap + rest;
    assert text[0] == name[0];
    SkipNothing(text);
    FrontOfBrace(name + gap, rest);
    TrimsGap(name, gap);
    assert text[|name|..] == gap + rest;
    assert "" + rest == rest;
    SkipNothing(rest);
  }

  lemma {:induction false} TrimsGap(name: string, gap: string)
    requires name != "" && name[|name| - 1] != ' ' && (gap == "" || gap == " ")
    ensures TrimRight(name + gap) == name
  {
    assert name + "" == name;
    assert (name + " ")[..|name|] == name;
  }

  lemma ReadsTagsOnly(space: string, operand: InstructionOperand)
    requires IsOperand(operand) && operand.name == "" && (space == "" || space == " ")
    ensures OperandOf(space + OperandText(operand)) == Some(operand)
  {
    var text := TagsText(operand.tags);
    assert OperandText(operand) == "" + "" + text == text;
    TagsTextEnds(operand.tags);
    SkipNothing(text);
    ReadsTags(operand.tags);
    assert "" + text == text;
    assert BeforeBrace(text) == "";
  }

  lemma ReadsOperand(space: string, operand: InstructionOperand)
    requires IsOperand(operand) && (space == "" || space == " ")
    ensures OperandOf(space + OperandText(operand)) == Some(operand)
  {
    if operand.name == "" {
      ReadsTagsOnly(space, operand);
    } else {
      ReadsNamedOperand(space, operand);
    }
  }

  // ---- Splitting ------------------------------------------------------------

  lemma {:induction false} StateOfConcatenation(state: bool, a: string, b: string)
    ensures StateAfter(state, a + b) == StateAfter(StateAfter(state, a), b)
    ensures HidesCommas(state, a + b) <==> HidesCommas(state, a) && HidesCommas(StateAfter(state, a), b)
    decreases |a|
  {
    if a == "" {
      assert a + b == b;
    } else {
      assert (a + b)[1..] == a[1..] + b;
      StateOfConcatenation(NextState(state, a[0]), a[1..], b);
    }
  }

  lemma {:induction false} NotSplit(state: bool, s: string)
    requires HidesCommas(state, s)
    ensures SplitAtCommas(s, state) == [s]
    decreases |s|
  {
    if s != "" {
      NotSplit(NextState(state, s[0]), s[1..]);
      assert [s[0]] + s[1..] == s;
    }
  }

  // A comma outside of parentheses splits the string.
  lemma {:induction false} SplitAtComma(state: bool, a: string, b: string)
    requires !StateAfter(state, a)
    ensures SplitAtCommas(a + "," + b, state) == SplitAtCommas(a, state) + SplitAtCommas(b, false)
    decreases |a|
  {
    if a == "" {
      assert a + "," + b == "," + b;
      SplitFront(',', b, state);
    } else {
      var tail := a[1..] + "," + b;
      assert a + "," + b == [a[0]] + tail && a == [a[0]] + a[1..];
      var next := NextState(state, a[0]);
      SplitAtComma(next, a[1..], b);
      SplitFront(a[0], tail, state);
      SplitFront(a[0], a[1..], state);
      if a[0] != ',' || state {
        PrependToFirst(a[0], SplitAtCommas(a[1..], next), SplitAtCommas(b, false));
      }
    }
  }

  lemma {:induction false} SplitFront(c: char, rest: string, state: bool)
    ensures SplitAtCommas([c] + rest, state) ==
            if c == ',' && !state then [""] + SplitAtCommas(rest, state)
            else Prepend(c, SplitAtCommas(rest, NextState(state, c)))
  {
    assert ([c] + rest)[1..] == rest;
  }

  lemma PrependToFirst(c: char, first: seq<string>, second: seq<string>)
    requires first != []
    ensures Prepend(c, first + second) == Prepend(c, first) + second
  {
    assert (first + second)[1..] == first[1..] + second;
  }

  lemma {:induction false} PlainText(state: bool, s: string)
    requires forall i :: 0 <= i < |s| ==> s[i] != ',' && s[i] != '(' && s[i] != ')'
    ensures HidesCommas(state, s) && StateAfter(state, s) == state
    decreases |s|
  {
    if s != "" {
      PlainText(state, s[1..]);
    }
  }

  lemma {:induction false} TagsArePlain(tags: seq<string>)
    requires forall i :: 0 <= i < |tags| ==> IsTag(tags[i])
    ensures HidesCommas(false, TagsText(tags)) && !StateAfter(false, TagsText(tags))
    decreases |tags|
  {
    if tags != [] {
      var first := "{" + tags[0] + "}";
      PlainText(false, first);
      if |tags| > 1 {
        TagsArePlain(tags[1..]);
        PlainText(false, " ");
        StateOfConcatenation(false, first, " ");
        StateOfConcatenation(false, first + " ", TagsText(tags[1..]));
      }
    }
  }

  lemma OperandIsClosed(operand: InstructionOperand)
    requires IsOperand(operand)
    ensures HidesCommas(false, OperandText(operand)) && !StateAfter(false, OperandText(operand))
  {
    var gap := if operand.name != "" && operand.tags != [] then " " else "";
    TagsArePlain(operand.tags);
    PlainText(false, gap);
    StateOfConcatenation(false, operand.name, gap);
    StateOfConcatenation(false, operand.name + gap, TagsText(operand.tags));
  }

  // ---- The printed string ---------------------------------------------------

  // What one more operand adds to the string.
  lemma {:induction false} PrintedOperand(mnemonic: string, operands: seq<InstructionOperand>)
    requires operands != [] && IsOperand(operands[|operands| - 1])
    ensures var last := |operands| - 1;
            AppendOperands(mnemonic, operands) ==
            AppendOperands(mnemonic, operands[..last]) + (if last == 0 then " " else ", ") + OperandText(operands[last])
  {
    var last := |operands| - 1;
    var front := AppendOperands(mnemonic, operands[..last]) + (if last == 0 then " " else ", ");
    PrintedTags(front, operands[last]);
  }

  lemma {:induction false} PrintedTags(front: string, operand: InstructionOperand)
    requires front != "" && front[|front| - 1] == ' '
    requires operand.name != "" ==> operand.name[|operand.name| - 1] != ' '
    ensures AppendTags(front + operand.name, operand.tags) == front + OperandText(operand)
  {
    AppendTagsText(front + operand.name, operand.tags);
    var gap := if operand.name != "" && operand.tags != [] then " " else "";
    Associate(front, operand.name, gap);
    Associate(front, operand.name + gap, TagsText(operand.tags));
  }

  function Parts(mnemonic: string, operands: seq<InstructionOperand>): seq<string> {
    if operands == [] then [mnemonic]
    else
      var last := |operands| - 1;
      if last == 0 then [mnemonic + " " + OperandText(operands[0])]
      else Parts(mnemonic, operands[..last]) + [" " + OperandText(operands[last])]
  }

  lemma {:induction false} CodeSplits(mnemonic: string, operands: seq<InstructionOperand>)
    requires IsMnemonic(mnemonic) && forall i :: 0 <= i < |operands| ==> IsOperand(operands[i])
    ensures SplitAtCommas(AppendOperands(mnemonic, operands), false) == Parts(mnemonic, operands)
    ensures !StateAfter(false, AppendOperands(mnemonic, operands))
  {
    if operands == [] {
      PlainText(false, mnemonic);
      NotSplit(false, mnemonic);
    } else {
      var last := |operands| - 1;
      PrintedOperand(mnemonic, operands);
      SpaceAndOperand(operands[last]);
      if last == 0 {
        FirstPart(mnemonic, OperandText(operands[last]));
      } else {
        CodeSplits(mnemonic, operands[..last]);
        LaterPart(AppendOperands(mnemonic, operands[..last]), OperandText(operands[last]));
      }
    }
  }

  lemma SpaceAndOperand(operand: InstructionOperand)
    requires IsOperand(operand)
    ensures HidesCommas(false, OperandText(operand)) && !StateAfter(false, OperandText(operand))
    ensures HidesCommas(false, " " + OperandText(operand)) && !StateAfter(false, " " + OperandText(operand))
  {
    OperandIsClosed(operand);
    PlainText(false, " ");
    StateOfConcatenation(false, " ", OperandText(operand));
  }

  lemma {:induction false} LaterPart(before: string, text: string)
    requires !StateAfter(false, before) && HidesCommas(false, " " + text) && !StateAfter(false, " " + text)
    ensures SplitAtCommas(before + ", " + text, false) == SplitAtCommas(before, false) + [" " + text]
    ensures !StateAfter(false, before + ", " + text)
  {
    assert before + ", " + text == before + "," + (" " + text);
    SplitAtComma(false, before, " " + text);
    NotSplit(false, " " + text);
    StateOfConcatenation(false, before, ",");
    assert ","[1..] == "";
    StateOfConcatenation(false, before + ",", " " + text);
  }

  lemma {:induction false} FirstPart(mnemonic: string, text: string)
    requires IsMnemonic(mnemonic) && HidesCommas(false, text) && !StateAfter(false, text)
    ensures SplitAtCommas(mnemonic + " " + text, false) == [mnemonic + " " + text]
    ensures !StateAfter(false, mnemonic + " " + text)
  {
    PlainText(false, mnemonic);
    PlainText(false, " ");
    StateOfConcatenation(false, mnemonic, " ");
    StateOfConcatenation(false, mnemonic + " ", text);
    NotSplit(false, mnemonic + " " + text);
  }

  lemma {:induction false} PartsAre(mnemonic: string, operands: seq<InstructionOperand>)
    ensures |Parts(mnemonic, operands)| == if operands == [] then 1 else |operands|
    ensures Parts(mnemonic, operands)[0] ==
            if operands == [] then mnemonic else mnemonic + " " + OperandText(operands[0])
    ensures forall i :: 1 <= i < |operands| ==> Parts(mnemonic, operands)[i] == " " + OperandText(operands[i])
  {
    if |operands| > 1 {
      PartsAre(mnemonic, operands[..|operands| - 1]);
    }
  }

  lemma {:induction false} ReadsOperands(parts: seq<string>, operands: seq<InstructionOperand>)
    requires |parts| == |operands|
    requires forall i :: 0 <= i < |operands| ==> IsOperand(operands[i]) && parts[i] == " " + OperandText(operands[i])
    ensures OperandsOf(parts) == Some(operands)
    decreases |operands|
  {
    if operands != [] {
      ReadsOperand(" ", operands[0]);
      ReadsOperands(parts[1..], operands[1..]);
      assert [operands[0]] + operands[1..] == operands;
    }
  }

  // ---- The first part -------------------------------------------------------

  lemma {:induction false} NothingToStrip(s: string)
    requires s != "" && !IsAsciiWhitespace(s[0]) && !IsAsciiWhitespace(s[|s| - 1]) && HasNoTab(s)
    ensures ReplaceTabs(StripRight(StripLeft(s))) == s
  {
  }

  lemma {:induction false} FindSpaceInMnemonic(mnemonic: string, rest: string, from: nat)
    requires from <= |mnemonic|
    ensures FindSpace(mnemonic + " " + rest, from) ==
            match FindSpace(mnemonic, from) case Some(p) => Some(p) case None => Some(|mnemonic|)
    decreases |mnemonic| - from
  {
    if from < |mnemonic| {
      FindSpaceInMnemonic(mnemonic, rest, from + 1);
    }
  }

  lemma PrefixOfMnemonic(mnemonic: string, rest: string)
    ensures HasX86Prefix(mnemonic + " " + rest) <==> HasX86Prefix(mnemonic)
  {
    var s := mnemonic + " " + rest;
    assert forall i :: 0 <= i < |mnemonic| ==> s[i] == mnemonic[i];
    assert s[|mnemonic|] == ' ';
    assert "LOCK" <= s ==> |mnemonic| >= 4;
    assert "REP" <= s ==> |mnemonic| >= 3;
  }

  lemma OperandTextEnds(operand: InstructionOperand)
    requires IsOperand(operand)
    ensures var text := OperandText(operand);
            text != "" && !IsAsciiWhitespace(text[|text| - 1])
  {
    if operand.tags != [] {
      TagsTextEnds(operand.tags);
    }
  }

  lemma DelimitsMnemonic(mnemonic: string, text: string)
    requires IsMnemonic(mnemonic)
    ensures DelimitingSpace(mnemonic + " " + text) == Some(|mnemonic|)
  {
    PrefixOfMnemonic(mnemonic, text);
    FindSpaceInMnemonic(mnemonic, text, 0);
    FindsSpace(mnemonic, 0);
    if FindSpace(mnemonic, 0).Some? {
      FindSpaceInMnemonic(mnemonic, text, FindSpace(mnemonic, 0).value + 1);
    }
  }

  lemma {:induction false} FirstPartIsClean(mnemonic: string, text: string)
    requires IsMnemonic(mnemonic) && HasNoTab(text) && text != "" && !IsAsciiWhitespace(text[|text| - 1])
    ensures ReplaceTabs(StripRight(StripLeft(mnemonic + " " + text))) == mnemonic + " " + text
  {
    var part := mnemonic + " " + text;
    assert HasNoTab(mnemonic);
    assert part[0] == mnemonic[0] && part[|part| - 1] == text[|text| - 1];
    NothingToStrip(part);
  }

  lemma ReadsFirstPart(mnemonic: string, operand: InstructionOperand)
    requires IsMnemonic(mnemonic) && IsOperand(operand) && HasNoTab(OperandText(operand))
    ensures MnemonicAndOperand(mnemonic + " " + OperandText(operand)) ==
            Some(InstructionFormat(mnemonic, [operand]))
  {
    var text := OperandText(operand);
    OperandTextEnds(operand);
    FirstPartIsClean(mnemonic, text);
    DelimitsMnemonic(mnemonic, text);
    ReadsOperand("", operand);
    assert "" + text == text;
    SplitPart(mnemonic, text, operand);
  }

  lemma {:induction false} SplitPart(mnemonic: string, text: string, operand: InstructionOperand)
    requires ReplaceTabs(StripRight(StripLeft(mnemonic + " " + text))) == mnemonic + " " + text
    requires DelimitingSpace(mnemonic + " " + text) == Some(|mnemonic|) && OperandOf(text) == Some(operand)
    ensures MnemonicAndOperand(mnemonic + " " + text) == Some(InstructionFormat(mnemonic, [operand]))
  {
    var part := mnemonic + " " + text;
    assert part[..|mnemonic|] == mnemonic && part[|mnemonic| + 1..] == text;
  }

  lemma ReadsMnemonic(mnemonic: string)
    requires IsMnemonic(mnemonic)
    ensures MnemonicAndOperand(mnemonic) == Some(InstructionFormat(mnemonic, []))
  {
    assert HasNoTab(mnemonic) by {
      assert forall i :: 0 <= i < |mnemonic| && IsAsciiWhitespace(mnemonic[i]) ==> mnemonic[i] == ' ';
    }
    NothingToStrip(mnemonic);
    assert DelimitingSpace(mnemonic).None?;
  }

  lemma {:induction false} ReadsParts(
    code: string, parts: seq<string>, format: InstructionFormat, first: seq<InstructionOperand>
  )
    requires SplitAtCommas(code, false) == parts && parts != []
    requires MnemonicAndOperand(parts[0]) == Some(InstructionFormat(format.mnemonic, first))
    requires |first| <= |format.operands| && first == format.operands[..|first|]
    requires OperandsOf(parts[1..]) == Some(format.operands[|first|..])
    ensures ParsedFormat(code) == Some(format)
  {
    assert first + format.operands[|first|..] == format.operands;
  }

  lemma {:induction false} PartsAreRead(mnemonic: string, operands: seq<InstructionOperand>, parts: seq<string>)
    requires parts == Parts(mnemonic, operands)
    requires IsMnemonic(mnemonic) && forall i :: 0 <= i < |operands| ==> IsOperand(operands[i])
    requires operands != [] ==> HasNoTab(OperandText(operands[0]))
    ensures parts != []
    ensures operands == [] ==>
              MnemonicAndOperand(parts[0]) == Some(InstructionFormat(mnemonic, [])) && OperandsOf(parts[1..]) == Some([])
    ensures operands != [] ==>
              && MnemonicAndOperand(parts[0]) == Some(InstructionFormat(mnemonic, [operands[0]]))
              && OperandsOf(parts[1..]) == Some(operands[1..])
  {
    PartsAre(mnemonic, operands);
    if operands == [] {
      ReadsMnemonic(mnemonic);
    } else {
      ReadsFirstPart(mnemonic, operands[0]);
      ReadsOperands(parts[1..], operands[1..]);
    }
  }

  // ---- Tabs -----------------------------------------------------------------

  predicate AreFreeOfTabs(tags: seq<string>) {
    forall i :: 0 <= i < |tags| ==> HasNoTab(tags[i])
  }

  lemma {:induction false} SkippedSpacesHaveNoTab(s: string)
    requires HasNoTab(s)
    ensures HasNoTab(SkipSpaces(s))
  {
    if s != "" && s[0] == ' ' {
      SkippedSpacesHaveNoTab(s[1..]);
    }
  }

  lemma TagHasNoTab(s: string)
    requires HasNoTab(s) && ConsumeTag(s).Some?
    ensures HasNoTab(ConsumeTag(s).value.value) && HasNoTab(ConsumeTag(s).value.rest)
  {
    var t := SkipSpaces(s);
    SkippedSpacesHaveNoTab(s);
    var tag := BeforeClosingBrace(t[1..]);
    assert forall i :: 0 <= i < |tag| ==> tag[i] == t[1..][i] == t[i + 1];
    SkippedSpacesHaveNoTab(t[|tag| + 2..]);
  }

  lemma {:induction false} TagsHaveNoTab(s: string)
    requires HasNoTab(s) && ConsumeTags(s).Some?
    ensures AreFreeOfTabs(ConsumeTags(s).value)
    decreases |s|
  {
    if s != "" {
      TagHasNoTab(s);
      TagsHaveNoTab(ConsumeTag(s).value.rest);
    }
  }

  lemma NameHasNoTab(s: string)
    requires HasNoTab(s)
    ensures HasNoTab(ConsumeName(s).value) && HasNoTab(ConsumeName(s).rest)
  {
    var t := SkipSpaces(s);
    SkippedSpacesHaveNoTab(s);
    var front := BeforeBrace(t);
    var name := TrimRight(front);
    assert forall i :: 0 <= i < |name| ==> name[i] == front[i] == t[i];
    SkippedSpacesHaveNoTab(t[|name|..]);
  }

  lemma {:induction false} TagsTextHasNoTab(tags: seq<string>)
    requires AreFreeOfTabs(tags)
    ensures HasNoTab(TagsText(tags))
    decreases |tags|
  {
    if |tags| > 1 {
      TagsTextHasNoTab(tags[1..]);
    }
  }

  // An operand that is read from a text without tabs has none.
  lemma OperandHasNoTab(s: string)
    requires HasNoTab(s) && OperandOf(s).Some?
    ensures HasNoTab(OperandText(OperandOf(s).value))
  {
    NameHasNoTab(s);
    TagsHaveNoTab(ConsumeName(s).rest);
    TagsTextHasNoTab(OperandOf(s).value.tags);
  }

  lemma ReplacedHasNoTab(s: string, start: nat)
    requires start <= |s|
    ensures HasNoTab(ReplaceTabs(s)[start..])
  {
  }

  lemma FirstOperandIsFreeOfTabs(part: string)
    requires MnemonicAndOperand(part).Some?
    ensures var operands := MnemonicAndOperand(part).value.operands;
            |operands| <= 1 && (operands != [] ==> HasNoTab(OperandText(operands[0])))
  {
    var text := ReplaceTabs(StripRight(StripLeft(part)));
    FindsSpaceInText(text);
    if DelimitingSpace(text).Some? {
      ReplacedHasNoTab(StripRight(StripLeft(part)), DelimitingSpace(text).value + 1);
      OperandHasNoTab(text[DelimitingSpace(text).value + 1..]);
    }
  }

  lemma {:induction false} OneOperandForEachPart(parts: seq<string>)
    requires OperandsOf(parts).Some?
    ensures |OperandsOf(parts).value| == |parts|
  {
    if parts != [] {
      OneOperandForEachPart(parts[1..]);
    }
  }

  // The format that is read has no tab in the operand that stands in the first part.
  lemma {:induction false} ParsedHasNoTab(code: string, operands: seq<InstructionOperand>)
    requires ParsedFormat(code).Some? && ParsedFormat(code).value.operands == operands
    requires |SplitAtCommas(code, false)| == |operands|
    ensures HasNoTab(OperandText(operands[0]))
  {
    var parts := SplitAtCommas(code, false);
    var first := MnemonicAndOperand(parts[0]).value.operands;
    FirstOperandIsFreeOfTabs(parts[0]);
    OneOperandForEachPart(parts[1..]);
    assert |first| == 1 && operands[0] == first[0];
  }

  lemma TabFreeIsReadBack(format: InstructionFormat)
    requires IsPrintable(format) && FirstOperandHasNoTab(format)
    ensures ParsedFormat(CodeString(format)) == Some(format)
  {
    var operands := format.operands;
    var parts := Parts(format.mnemonic, operands);
    CodeSplits(format.mnemonic, operands);
    PartsAreRead(format.mnemonic, operands, parts);
    ReadsParts(CodeString(format), parts, format, if operands == [] then [] else [operands[0]]);
  }

  // Printing and parsing gives the format back exactly when no tab stands in the
  // first operand.
  lemma FormatRoundTrip(format: InstructionFormat)
    requires IsPrintable(format)
    ensures ParsedFormat(CodeString(format)) == Some(format) <==> FirstOperandHasNoTab(format)
  {
    if FirstOperandHasNoTab(format) {
      TabFreeIsReadBack(format);
    } else if ParsedFormat(CodeString(format)) == Some(format) {
      CodeSplits(format.mnemonic, format.operands);
      PartsAre(format.mnemonic, format.operands);
      ParsedHasNoTab(CodeString(format), format.operands);
    }
  }

  const TABBED_FORMAT: InstructionFormat := InstructionFormat("ADD", [NewOperand("a\tb", [])])

  lemma TabIsNotReadBack()
    ensures IsPrintable(TABBED_FORMAT) && ParsedFormat(CodeString(TABBED_FORMAT)) != Some(TABBED_FORMAT)
  {
    var name := "a\tb";
    PlainText(false, name);
    assert FindSpace("ADD", 0).None? by {
      FindsSpace("ADD", 0);
    }
    assert OperandText(TABBED_FORMAT.operands[0]) == name + "" + "" == name;
    assert OperandText(TABBED_FORMAT.operands[0])[1] == '\t';
    FormatRoundTrip(TABBED_FORMAT);
  }
}
