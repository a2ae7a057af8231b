// Assembly strings of instructions: printing and parsing
// (exegesis/util/instruction_syntax.cc).
module AssemblySyntax {
  import opened Wrappers
  import opened Sequences
  import opened Scanner
  import opened X86Protos

  // ---- Splitting at commas --------------------------------------------------

  // Whether the next character is in parentheses. They do not nest.
  function NextState(inParenthesis: bool, c: char): bool {
    if c == '(' then true else if c == ')' then false else inParenthesis
  }

  function StateAfter(inParenthesis: bool, s: string): bool
    decreases |s|
  {
    if s == "" then inParenthesis else StateAfter(NextState(inParenthesis, s[0]), s[1..])
  }

  function Prepend(c: char, parts: seq<string>): (result: seq<string>)
    requires parts != []
    ensures |result| == |parts|
  {
    [[c] + parts[0]] + parts[1..]
  }

  function SplitAtCommas(s: string, inParenthesis: bool): (parts: seq<string>)
    ensures parts != []
  {
    if s == "" then [""]
    else if s[0] == ',' && !inParenthesis then [""] + SplitAtCommas(s[1..], inParenthesis)
    else Prepend(s[0], SplitAtCommas(s[1..], NextState(inParenthesis, s[0])))
  }

  // The parts before the last one, and the last part so far.
  function JoinLast(done: seq<string>, start: string, rest: seq<string>): seq<string>
    requires rest != []
  {
    done + [start + rest[0]] + rest[1..]
  }

  method SeparateOperandsWithCommas(s: string) returns (result: seq<string>)
    ensures result == SplitAtCommas(s, false)
  {
    result := [];
    var inParenthesis := false;
    var start := 0;
    ghost var all := SplitAtCommas(s, false);
    assert s[0..0] == "" && s[0..] == s;
    assert "" + all[0] == all[0];
    assert [] + [all[0]] + all[1..] == all;
    for i := 0 to |s|
      invariant 0 <= start <= i
      invariant JoinLast(result, s[start..i], SplitAtCommas(s[i..], inParenthesis)) == SplitAtCommas(s, false)
    {
      var c := s[i];
      assert s[i..][1..] == s[i + 1..] && s[i..][0] == c;
      ghost var rest := SplitAtCommas(s[i + 1..], NextState(inParenthesis, c));
      if c == '(' {
        inParenthesis := true;
        SplitStep(result, s, start, i, rest);
      } else if c == ')' {
        inParenthesis := false;
        SplitStep(result, s, start, i, rest);
      } else if c == ',' && !inParenthesis {
        CommaStep(result, s[start..i], rest);
        assert s[i + 1..i + 1] == "";
        result := result + [s[start..i]];
        start := i + 1;
      } else {
        SplitStep(result, s, start, i, rest);
      }
    }
    assert s[start..|s|] + "" == s[start..|s|];
    assert s[|s|..] == "";
    result := result + [s[start..|s|]];
  }

  lemma CommaStep(done: seq<string>, part: string, rest: seq<string>)
    requires rest != []
    ensures JoinLast(done, part, [""] + rest) == JoinLast(done + [part], "", rest)
  {
    assert part + "" == part && "" + rest[0] == rest[0];
    assert ([""] + rest)[1..] == rest == [rest[0]] + rest[1..];
  }

  lemma SplitStep(done: seq<string>, s: string, start: nat, i: nat, rest: seq<string>)
    requires start <= i < |s| && rest != []
    ensures JoinLast(done, s[start..i], Prepend(s[i], rest)) == JoinLast(done, s[start..i + 1], rest)
  {
    assert s[start..i + 1] == s[start..i] + [s[i]];
    Associate(s[start..i], [s[i]], rest[0]);
  }

  // ---- Operands -------------------------------------------------------------

  function NewOperand(name: string, tags: seq<string>): InstructionOperand {
    NO_OPERAND.(name := name, tags := tags)
  }

  predicate IsBrace(c: char) {
    c == '{' || c == '}'
  }

  // The characters in front of the first brace.
  function BeforeBrace(s: string): (front: string)
    ensures front <= s
  {
    if s == "" || IsBrace(s[0]) then "" else [s[0]] + BeforeBrace(s[1..])
  }

  function TrimRight(s: string): (trimmed: string)
    ensures trimmed <= s
  {
    if s != "" && s[|s| - 1] == ' ' then TrimRight(s[..|s| - 1]) else s
  }

  // The name and the spaces around it; nothing if there are only spaces in front of
  // the first brace.
  function ConsumeName(s: string): Match<string> {
    var t := SkipSpaces(s);
    var name := TrimRight(BeforeBrace(t));
    if name == "" then Match("", s) else Match(name, SkipSpaces(t[|name|..]))
  }

  function BeforeClosingBrace(s: string): (front: string)
    ensures front <= s
    ensures |front| < |s| ==> s[|front|] == '}'
  {
    if s == "" || s[0] == '}' then "" else [s[0]] + BeforeClosingBrace(s[1..])
  }

  function ConsumeTag(s: string): (result: Option<Match<string>>)
    ensures result.Some? ==> |result.value.rest| < |s|
  {
    var t := SkipSpaces(s);
    if t == "" || t[0] != '{' then None
    else
      var tag := BeforeClosingBrace(t[1..]);
      if tag == "" || |tag| == |t| - 1 then None else Some(Match(tag, SkipSpaces(t[|tag| + 2..])))
  }

  // Nothing stands for a failed CHECK: something that is not a tag.
  function ConsumeTags(s: string): Option<seq<string>>
    decreases |s|
  {
    if s == "" then Some([])
    else
      match ConsumeTag(s)
      case None => None
      case Some(first) =>
        match ConsumeTags(first.rest)
        case None => None
        case Some(others) => Some([first.value] + others)
  }

  function OperandOf(source: string): Option<InstructionOperand> {
    var name := ConsumeName(source);
    match ConsumeTags(name.rest)
    case None => None
    case Some(tags) => if name.value == "" && tags == [] then None else Some(NewOperand(name.value, tags))
  }

  method ParseOperand(source: string) returns (operand: InstructionOperand)
    requires OperandOf(source).Some?
    ensures operand == OperandOf(source).value
  {
    var name := ConsumeName(source);
    operand := NewOperand(name.value, []);
    var rest := name.rest;
    assert [] + ConsumeTags(rest).value == ConsumeTags(rest).value;
    while rest != ""
      invariant operand == NewOperand(name.value, operand.tags)
      invariant ConsumeTags(rest).Some?
      invariant ConsumeTags(name.rest) == Some(operand.tags + ConsumeTags(rest).value)
      decreases |rest|
    {
      var tag := ConsumeTag(rest).value;
      assert operand.tags + ConsumeTags(rest).value == (operand.tags + [tag.value]) + ConsumeTags(tag.rest).value;
      operand := operand.(tags := operand.tags + [tag.value]);
      rest := tag.rest;
    }
    assert operand.tags + [] == operand.tags;
  }

  // ---- Parsing --------------------------------------------------------------

  function StripLeft(s: string): (stripped: string)
    ensures |stripped| <= |s|
  {
    if s != "" && IsAsciiWhitespace(s[0]) then StripLeft(s[1..]) else s
  }

  function StripRight(s: string): (stripped: string)
    ensures |stripped| <= |s|
  {
    if s != "" && IsAsciiWhitespace(s[|s| - 1]) then StripRight(s[..|s| - 1]) else s
  }

  function ReplaceTabs(s: string): (replaced: string)
    ensures |replaced| == |s|
    ensures forall i :: 0 <= i < |s| ==> replaced[i] == if s[i] == '\t' then ' ' else s[i]
  {
    seq(|s|, i requires 0 <= i < |s| => if s[i] == '\t' then ' ' else s[i])
  }

  // The position of the first space from the given position on.
  function FindSpace(s: string, from: nat): Option<nat>
    decreases |s| - from
  {
    if from >= |s| then None else if s[from] == ' ' then Some(from) else FindSpace(s, from + 1)
  }

  predicate HasX86Prefix(s: string) {
    "LOCK" <= s || "REP" <= s
  }

  function DelimitingSpace(s: string): Option<nat> {
    match FindSpace(s, 0)
    case None => None
    case Some(position) => if HasX86Prefix(s) then FindSpace(s, position + 1) else Some(position)
  }

  lemma {:induction false} FindsSpace(s: string, from: nat)
    ensures match FindSpace(s, from)
            case Some(position) => from <= position < |s| && s[position] == ' ' &&
                                   forall i :: from <= i < position ==> s[i] != ' '
            case None => forall i :: from <= i < |s| ==> s[i] != ' '
    decreases |s| - from
  {
    if from < |s| && s[from] != ' ' {
      FindsSpace(s, from + 1);
    }
  }

  function OperandsOf(parts: seq<string>): Option<seq<InstructionOperand>> {
    if parts == [] then Some([])
    else
      match OperandOf(parts[0])
      case None => None
      case Some(first) =>
        match OperandsOf(parts[1..])
        case None => None
        case Some(others) => Some([first] + others)
  }

  // The mnemonic and the first operand, if there is one.
  function MnemonicAndOperand(part: string): Option<InstructionFormat> {
    var text := ReplaceTabs(StripRight(StripLeft(part)));
    if text == "" then None
    else
      match DelimitingSpace(text)
      case None => Some(InstructionFormat(text, []))
      case Some(space) =>
        FindsSpaceInText(text);
        match OperandOf(text[space + 1..])
        case None => None
        case Some(operand) => Some(InstructionFormat(text[..space], [operand]))
  }

  lemma FindsSpaceInText(s: string)
    ensures DelimitingSpace(s).Some? ==> DelimitingSpace(s).value < |s|
  {
    FindsSpace(s, 0);
    if FindSpace(s, 0).Some? {
      FindsSpace(s, FindSpace(s, 0).value + 1);
    }
  }

  // Nothing stands for a failed CHECK.
  function ParsedFormat(code: string): Option<InstructionFormat> {
    var parts := SplitAtCommas(code, false);
    match MnemonicAndOperand(parts[0])
    case None => None
    case Some(first) =>
      match OperandsOf(parts[1..])
      case None => None
      case Some(others) => Some(first.(operands := first.operands + others))
  }

  method ParseAssemblyStringOrDie(code: string) returns (format: InstructionFormat)
    requires ParsedFormat(code).Some?
    ensures format == ParsedFormat(code).value
  {
    var parts := SeparateOperandsWithCommas(code);
    var text := ReplaceTabs(StripRight(StripLeft(parts[0])));
    var space := DelimitingSpace(text);
    if space.None? {
      format := InstructionFormat(text, []);
    } else {
      FindsSpaceInText(text);
      var operand := ParseOperand(text[space.value + 1..]);
      format := InstructionFormat(text[..space.value], [operand]);
    }
    ghost var first := format;
    assert Some(first) == MnemonicAndOperand(parts[0]);
    for i := 1 to |parts|
      invariant OperandsOf(parts[i..]).Some?
      invariant format.mnemonic == first.mnemonic
      invariant format.operands + OperandsOf(parts[i..]).value == first.operands + OperandsOf(parts[1..]).value
    {
      assert parts[i..][1..] == parts[i + 1..] && parts[i..][0] == parts[i];
      var operand := ParseOperand(parts[i]);
      assert format.operands + OperandsOf(parts[i..]).value ==
             (format.operands + [operand]) + OperandsOf(parts[i + 1..]).value;
      format := format.(operands := format.operands + [operand]);
    }
    assert parts[|parts|..] == [];
    assert format.operands + [] == format.operands;
  }

  // ---- Printing -------------------------------------------------------------

  function AppendTag(result: string, tag: string): string {
    (if result != "" && result[|result| - 1] != ' ' then result + " " else result) + "{" + tag + "}"
  }

  function AppendTags(result: string, tags: seq<string>): string {
    if tags == [] then result else AppendTag(AppendTags(result, tags[..|tags| - 1]), tags[|tags| - 1])
  }

  function AppendOperands(mnemonic: string, operands: seq<InstructionOperand>): string {
    if operands == [] then mnemonic
    else
      var last := |operands| - 1;
      AppendTags(AppendOperands(mnemonic, operands[..last]) + (if last == 0 then " " else ", ") + operands[last].name,
                 operands[last].tags)
  }

  function CodeString(format: InstructionFormat): string {
    AppendOperands(format.mnemonic, format.operands)
  }

  method ConvertToCodeString(format: InstructionFormat) returns (result: string)
    ensures result == CodeString(format)
  {
    result := format.mnemonic;
    var operands := format.operands;
    var runOnce := false;
    for i := 0 to |operands|
      invariant result == AppendOperands(format.mnemonic, operands[..i])
      invariant runOnce <==> i > 0
    {
      assert operands[..i + 1][..i] == operands[..i];
      result := result + (if runOnce then ", " else " ") + operands[i].name;
      result := PrintTags(result, operands[i].tags);
      runOnce := true;
    }
    assert operands[..|operands|] == operands;
  }

  method PrintTags(start: string, tags: seq<string>) returns (result: string)
    ensures result == AppendTags(start, tags)
  {
    result := start;
    for i := 0 to |tags|
      invariant result == AppendTags(start, tags[..i])
    {
      assert tags[..i + 1][..i] == tags[..i];
      if result != "" && result[|result| - 1] != ' ' {
        result := result + " ";
      }
      result := result + "{" + tags[i] + "}";
    }
    assert tags[..|tags|] == tags;
  }
}
