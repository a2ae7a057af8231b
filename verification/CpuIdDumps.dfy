// CPUID dumps and their text form (exegesis/base/cpuid_x86.cc).
module CpuIdDumps {
  import opened Wrappers
  import opened Sequences
  import opened Scanner

  const TWO_TO_THE_32: int := 0x1_0000_0000

  type Word = x: int | 0 <= x < TWO_TO_THE_32

  datatype Output = Output(eax: Word, ebx: Word, ecx: Word, edx: Word)
  datatype Entry = Entry(leaf: Word, subleaf: Word, output: Output)

  // ---- Entries --------------------------------------------------------------

  function EntryOrNull(entries: seq<Entry>, leaf: Word, subleaf: Word): Option<Output> {
    if entries == [] then None
    else if entries[0].leaf == leaf && entries[0].subleaf == subleaf then Some(entries[0].output)
    else EntryOrNull(entries[1..], leaf, subleaf)
  }

  // One more than the largest subleaf of the leaf; it wraps around.
  function NextSubleaf(entries: seq<Entry>, leaf: Word): Word {
    if entries == [] then 0
    else
      var next := NextSubleaf(entries[..|entries| - 1], leaf);
      var last := entries[|entries| - 1];
      if last.leaf == leaf && next <= last.subleaf then (last.subleaf + 1) % TWO_TO_THE_32 else next
  }

  function NumEntries(entries: seq<Entry>, leaf: Word): nat {
    if entries == [] then 0
    else NumEntries(entries[..|entries| - 1], leaf) + (if entries[|entries| - 1].leaf == leaf then 1 else 0)
  }

  // The subleafs of each leaf are numbered in order, from zero.
  predicate AreNumbered(entries: seq<Entry>) {
    forall i :: 0 <= i < |entries| ==> entries[i].subleaf == NumEntries(entries[..i], entries[i].leaf)
  }

  lemma NumberedFront(entries: seq<Entry>)
    requires AreNumbered(entries) && entries != []
    ensures AreNumbered(entries[..|entries| - 1])
  {
    var front := entries[..|entries| - 1];
    forall i | 0 <= i < |front|
      ensures front[i].subleaf == NumEntries(front[..i], front[i].leaf)
    {
      assert front[..i] == entries[..i];
    }
  }

  lemma {:induction false} NextOfNumbered(entries: seq<Entry>, leaf: Word)
    requires AreNumbered(entries)
    ensures NumEntries(entries, leaf) <= TWO_TO_THE_32
    ensures NextSubleaf(entries, leaf) == NumEntries(entries, leaf) % TWO_TO_THE_32
  {
    if entries != [] {
      var last := |entries| - 1;
      NumberedFront(entries);
      NextOfNumbered(entries[..last], leaf);
      assert entries[last].subleaf == NumEntries(entries[..last], entries[last].leaf);
    }
  }

  // ---- Hexadecimal numbers --------------------------------------------------

  function HexDigitValue(c: char): Option<nat> {
    if '0' <= c <= '9' then Some(c as int - '0' as int)
    else if 'A' <= c <= 'F' then Some(c as int - 'A' as int + 10)
    else if 'a' <= c <= 'f' then Some(c as int - 'a' as int + 10)
    else None
  }

  predicate IsHex(text: string) {
    forall i :: 0 <= i < |text| ==> HexDigitValue(text[i]).Some?
  }

  function HexValue(text: string): nat
    requires IsHex(text)
  {
    if text == "" then 0 else HexValue(text[..|text| - 1]) * 16 + HexDigitValue(text[|text| - 1]).value
  }

  function Digit(n: nat): char
    requires n < 16
  {
    "0123456789ABCDEF"[n]
  }

  // The last digits of the number.
  function HexDigits(n: nat, count: nat): (text: string)
    ensures |text| == count
  {
    if count == 0 then "" else HexDigits(n / 16, count - 1) + [Digit(n % 16)]
  }

  function Power(count: nat): nat {
    if count == 0 then 1 else Power(count - 1) * 16
  }

  lemma DigitRoundTrip(n: nat)
    requires n < 16
    ensures HexDigitValue(Digit(n)) == Some(n)
  {
  }

  lemma {:induction false} HexRoundTrip(n: nat, count: nat)
    requires n < Power(count)
    ensures IsHex(HexDigits(n, count)) && HexValue(HexDigits(n, count)) == n
  {
    if count > 0 {
      HexRoundTrip(n / 16, count - 1);
      DigitRoundTrip(n % 16);
      var text := HexDigits(n, count);
      assert text[..count - 1] == HexDigits(n / 16, count - 1);
    }
  }

  lemma EightDigits()
    ensures Power(8) == TWO_TO_THE_32
  {
    assert Power(4) == 0x1_0000;
    assert Power(6) == 0x100_0000;
  }

  // The hexadecimal digits at the front.
  function TakeHex(s: string): (digits: string)
    ensures digits <= s && IsHex(digits)
    ensures |digits| < |s| ==> HexDigitValue(s[|digits|]).None?
  {
    if s != [] && HexDigitValue(s[0]).Some? then [s[0]] + TakeHex(s[1..]) else ""
  }

  // A number followed by the rest of the string. A number that does not fit into
  // 32 bits does not match.
  function ConsumeWord(s: string): Option<Match<Word>> {
    var digits := TakeHex(s);
    if digits == "" || HexValue(digits) >= TWO_TO_THE_32 then None
    else
      var word: Word := HexValue(digits);
      Some(Match(word, s[|digits|..]))
  }

  // ---- Lines ----------------------------------------------------------------

  function ConsumeSpaces(s: string): Option<string> {
    if " " <= s then Some(SkipSpaces(s)) else None
  }

  function ConsumeText(s: string, text: string): Option<string> {
    if text <= s then Some(s[|text|..]) else None
  }

  datatype Line = Line(leaf: Word, output: Output)

  // The values of the registers, each one but the first after a dash.
  function ParseRegisters(s: string): Option<Match<Output>> {
    match ConsumeWord(s)
    case None => None
    case Some(eax) =>
      match ParseNextRegister(eax.rest)
      case None => None
      case Some(ebx) =>
        match ParseNextRegister(ebx.rest)
        case None => None
        case Some(ecx) =>
          match ParseNextRegister(ecx.rest)
          case None => None
          case Some(edx) => Some(Match(Output(eax.value, ebx.value, ecx.value, edx.value), edx.rest))
  }

  function ParseNextRegister(s: string): Option<Match<Word>> {
    match ConsumeText(s, "-")
    case None => None
    case Some(rest) => ConsumeWord(rest)
  }

  function ParseLeaf(s: string): Option<Match<Word>> {
    match ConsumeText(SkipSpaces(s), "CPUID")
    case None => None
    case Some(afterName) =>
      match ConsumeSpaces(afterName)
      case None => None
      case Some(number) => ConsumeWord(number)
  }

  // Text after a space at the end of the line is ignored.
  function ParseLine(line: string): Option<Line> {
    match ParseLeaf(line)
    case None => None
    case Some(leaf) =>
      match ConsumeText(leaf.rest, ":")
      case None => None
      case Some(afterColon) =>
        match ConsumeSpaces(afterColon)
        case None => None
        case Some(registers) =>
          match ParseRegisters(registers)
          case None => None
          case Some(output) =>
            if output.rest == "" || output.rest[0] == ' ' then Some(Line(leaf.value, output.value)) else None
  }

  function LineText(entry: Entry): string {
    "CPUID " + (HexDigits(entry.leaf, 8) + (": " + OutputText(entry.output)))
  }

  function OutputText(output: Output): string {
    HexDigits(output.eax, 8) + ("-" + (HexDigits(output.ebx, 8) + ("-" +
    (HexDigits(output.ecx, 8) + ("-" + HexDigits(output.edx, 8))))))
  }

  lemma {:induction false} TakesDigits(digits: string, rest: string)
    requires IsHex(digits) && (rest == "" || HexDigitValue(rest[0]).None?)
    ensures TakeHex(digits + rest) == digits
  {
    if digits == "" {
      assert digits + rest == rest;
    } else {
      assert (digits + rest)[1..] == digits[1..] + rest;
      TakesDigits(digits[1..], rest);
    }
  }

  lemma {:induction false} WordRoundTrip(word: Word, rest: string)
    requires rest == "" || HexDigitValue(rest[0]).None?
    ensures ConsumeWord(HexDigits(word, 8) + rest) == Some(Match(word, rest))
  {
    EightDigits();
    HexRoundTrip(word, 8);
    TakesDigits(HexDigits(word, 8), rest);
    DropFront(HexDigits(word, 8), rest);
  }

  lemma {:induction false} RegisterRoundTrip(word: Word, rest: string)
    requires rest == "" || HexDigitValue(rest[0]).None?
    ensures ParseNextRegister("-" + (HexDigits(word, 8) + rest)) == Some(Match(word, rest))
  {
    WordRoundTrip(word, rest);
    assert ("-" + (HexDigits(word, 8) + rest))[1..] == HexDigits(word, 8) + rest;
  }

  // What may follow a number: nothing that continues it.
  predicate EndsNumber(rest: string) {
    rest == "" || HexDigitValue(rest[0]).None?
  }

  lemma OutputInOrder(output: Output, rest: string)
    ensures OutputText(output) + rest ==
            HexDigits(output.eax, 8) + ("-" + (HexDigits(output.ebx, 8) + ("-" +
            (HexDigits(output.ecx, 8) + ("-" + (HexDigits(output.edx, 8) + rest))))))
  {
  }

  lemma {:induction false} OutputRoundTrip(output: Output, rest: string)
    requires EndsNumber(rest)
    ensures ParseRegisters(OutputText(output) + rest) == Some(Match(output, rest))
  {
    var afterEcx := "-" + (HexDigits(output.edx, 8) + rest);
    var afterEbx := "-" + (HexDigits(output.ecx, 8) + afterEcx);
    var afterEax := "-" + (HexDigits(output.ebx, 8) + afterEbx);
    OutputInOrder(output, rest);
    RegisterRoundTrip(output.edx, rest);
    RegisterRoundTrip(output.ecx, afterEcx);
    RegisterRoundTrip(output.ebx, afterEbx);
    WordRoundTrip(output.eax, afterEax);
  }

  lemma {:induction false} LeafRoundTrip(leaf: Word, rest: string)
    requires rest != "" && HexDigitValue(rest[0]).None?
    ensures ParseLeaf("CPUID " + (HexDigits(leaf, 8) + rest)) == Some(Match(leaf, rest))
  {
    var number := HexDigits(leaf, 8) + rest;
    WordRoundTrip(leaf, rest);
    StartsWithHex(leaf, rest);
    NameRoundTrip(number);
  }

  lemma {:induction false} NameRoundTrip(number: string)
    requires number != "" && number[0] != ' '
    ensures ConsumeText(SkipSpaces("CPUID " + number), "CPUID") == Some(" " + number)
    ensures ConsumeSpaces(" " + number) == Some(number)
  {
    var line := "CPUID " + number;
    SkipNothing(line);
    SkipNothing(number);
    assert line[..5] == "CPUID" && line[5..] == " " + number;
  }

  lemma ColonRoundTrip(registers: string)
    requires registers != "" && registers[0] != ' '
    ensures ConsumeText(": " + registers, ":") == Some(" " + registers)
    ensures ConsumeSpaces(" " + registers) == Some(registers)
  {
    SkipNothing(registers);
    assert (": " + registers)[1..] == " " + registers;
  }

  lemma {:induction false} LineRoundTrip(entry: Entry)
    ensures ParseLine(LineText(entry)) == Some(Line(entry.leaf, entry.output))
  {
    LineWithText(entry, "");
    assert LineText(entry) + "" == LineText(entry);
  }

  // A printed line is read back with anything behind it that starts with a space, and
  // not with anything else.
  lemma {:induction false} LineWithText(entry: Entry, rest: string)
    requires EndsNumber(rest)
    ensures ParseLine(LineText(entry) + rest) ==
            if rest == "" || rest[0] == ' ' then Some(Line(entry.leaf, entry.output)) else None
  {
    var registers := OutputText(entry.output) + rest;
    LineInOrder(entry, rest);
    LeafRoundTrip(entry.leaf, ": " + registers);
    OutputStart(entry.output);
    ColonRoundTrip(registers);
    OutputRoundTrip(entry.output, rest);
  }

  lemma LineInOrder(entry: Entry, rest: string)
    ensures LineText(entry) + rest ==
            "CPUID " + (HexDigits(entry.leaf, 8) + (": " + (OutputText(entry.output) + rest)))
  {
  }

  // Digits are read in both cases.
  lemma DigitsMean(c: char)
    ensures '0' <= c <= '9' ==> HexDigitValue(c) == Some(c as int - 48)
    ensures 'a' <= c <= 'f' ==> HexDigitValue(c) == Some(c as int - 87)
    ensures 'A' <= c <= 'F' ==> HexDigitValue(c) == Some(c as int - 55)
    ensures HexDigitValue(c).Some? ==> HexDigitValue(c).value < 16
  {
  }

  lemma OutputStart(output: Output)
    ensures OutputText(output) != "" && OutputText(output)[0] != ' '
  {
    var rest := OutputText(output)[8..];
    StartsWithHex(output.eax, rest);
    assert OutputText(output) == HexDigits(output.eax, 8) + rest;
  }

  lemma {:induction false} StartsWithHex(word: Word, rest: string)
    ensures (HexDigits(word, 8) + rest)[0] != ' '
  {
    EightDigits();
    HexRoundTrip(word, 8);
    assert (HexDigits(word, 8) + rest)[0] == HexDigits(word, 8)[0];
  }

  // ---- Dumps ----------------------------------------------------------------

  function SplitLines(source: string): (lines: seq<string>)
    ensures lines != []
  {
    if source == "" then [""]
    else
      var others := SplitLines(source[1..]);
      if source[0] == '\n' then [""] + others else [[source[0]] + others[0]] + others[1..]
  }

  function ParseLines(lines: seq<string>): (parsed: seq<Option<Line>>)
    ensures |parsed| == |lines| && forall i :: 0 <= i < |lines| ==> parsed[i] == ParseLine(lines[i])
  {
    seq(|lines|, i requires 0 <= i < |lines| => ParseLine(lines[i]))
  }

  function AddLine(entries: seq<Entry>, line: Option<Line>): seq<Entry> {
    match line
    case None => entries
    case Some(Line(leaf, output)) => entries + [Entry(leaf, NextSubleaf(entries, leaf), output)]
  }

  function AddLines(lines: seq<Option<Line>>): seq<Entry> {
    if lines == [] then [] else AddLine(AddLines(lines[..|lines| - 1]), lines[|lines| - 1])
  }

  // The CHECK of GetNextSubleaf fails for the last leaf.
  predicate HasForbiddenLeaf(lines: seq<Option<Line>>) {
    exists i :: 0 <= i < |lines| && lines[i].Some? && lines[i].value.leaf == 0xffff_ffff
  }

  function Parsed(source: string): Result<seq<Entry>> {
    var entries := AddLines(ParseLines(SplitLines(source)));
    if EntryOrNull(entries, 0, 0).None? then Failure(InvalidArgument) else Success(entries)
  }

  function Text(entries: seq<Entry>): string {
    if entries == [] then ""
    else if |entries| == 1 then LineText(entries[0])
    else Text(entries[..|entries| - 1]) + "\n" + LineText(entries[|entries| - 1])
  }

  class CpuIdDump {
    var entries: seq<Entry>

    constructor ()
      ensures entries == []
    {
      entries := [];
    }

    method FromString(source: string) returns (result: Result<seq<Entry>>)
      requires !HasForbiddenLeaf(ParseLines(SplitLines(source))) && entries == []
      modifies this
      ensures result == Parsed(source) && (result.Success? ==> entries == result.value)
    {
      var lines := SplitLines(source);
      ghost var parsed := ParseLines(lines);
      for i := 0 to |lines|
        invariant entries == AddLines(parsed[..i])
      {
        assert parsed[..i + 1][..i] == parsed[..i];
        var line := ParseLine(lines[i]);
        assert line == parsed[i];
        if line.Some? {
          var subleaf := GetNextSubleaf(line.value.leaf);
          entries := entries + [Entry(line.value.leaf, subleaf, line.value.output)];
        }
      }
      assert parsed[..|lines|] == parsed;
      var main := GetEntryOrNull(0, 0);
      return if main.None? then Failure(InvalidArgument) else Success(entries);
    }

    method GetNextSubleaf(leaf: Word) returns (next: Word)
      requires leaf < 0xffff_ffff
      ensures next == NextSubleaf(entries, leaf)
    {
      next := 0;
      for i := 0 to |entries|
        invariant next == NextSubleaf(entries[..i], leaf)
      {
        assert entries[..i + 1][..i] == entries[..i];
        if entries[i].leaf == leaf && next <= entries[i].subleaf {
          next := (entries[i].subleaf + 1) % TWO_TO_THE_32;
        }
      }
      assert entries[..|entries|] == entries;
    }

    method GetEntryOrNull(leaf: Word, subleaf: Word) returns (output: Option<Output>)
      ensures output == EntryOrNull(entries, leaf, subleaf)
    {
      for i := 0 to |entries|
        invariant EntryOrNull(entries[i..], leaf, subleaf) == EntryOrNull(entries, leaf, subleaf)
      {
        assert entries[i..][1..] == entries[i + 1..];
        if entries[i].leaf == leaf && entries[i].subleaf == subleaf {
          return Some(entries[i].output);
        }
      }
      assert entries[|entries|..] == [];
      return None;
    }

    method ToString() returns (buffer: string)
      ensures buffer == Text(entries)
    {
      buffer := "";
      for i := 0 to |entries|
        invariant buffer == Text(entries[..i])
        invariant buffer == "" <==> i == 0
      {
        assert entries[..i + 1][..i] == entries[..i];
        if buffer != "" {
          buffer := buffer + "\n";
        }
        buffer := buffer + LineText(entries[i]);
      }
      assert entries[..|entries|] == entries;
    }
  }

  // ---- What is parsed -------------------------------------------------------

  // The parser finds the entry of a leaf and a subleaf if there is one.
  lemma {:induction false} EntryIsFound(entries: seq<Entry>, leaf: Word, subleaf: Word)
    ensures EntryOrNull(entries, leaf, subleaf).Some? <==>
            exists i :: 0 <= i < |entries| && entries[i].leaf == leaf && entries[i].subleaf == subleaf
  {
    if entries != [] {
      EntryIsFound(entries[1..], leaf, subleaf);
      if i :| 0 <= i < |entries| && entries[i].leaf == leaf && entries[i].subleaf == subleaf {
        assert i > 0 ==> entries[1..][i - 1] == entries[i];
      }
      if EntryOrNull(entries[1..], leaf, subleaf).Some? {
        var i :| 0 <= i < |entries[1..]| && entries[1..][i].leaf == leaf && entries[1..][i].subleaf == subleaf;
        assert entries[i + 1] == entries[1..][i];
      }
    }
  }

  lemma {:induction false} AppendIsNumbered(entries: seq<Entry>, leaf: Word, output: Output)
    requires AreNumbered(entries) && NumEntries(entries, leaf) < TWO_TO_THE_32
    ensures AreNumbered(entries + [Entry(leaf, NextSubleaf(entries, leaf), output)])
  {
    var all := entries + [Entry(leaf, NextSubleaf(entries, leaf), output)];
    NextOfNumbered(entries, leaf);
    forall i | 0 <= i < |all|
      ensures all[i].subleaf == NumEntries(all[..i], all[i].leaf)
    {
      assert all[..i] == entries[..i];
      assert entries[..|entries|] == entries;
    }
  }

  lemma {:induction false} OneMoreEntry(entries: seq<Entry>, entry: Entry, leaf: Word)
    ensures NumEntries(entries + [entry], leaf) == NumEntries(entries, leaf) + if entry.leaf == leaf then 1 else 0
  {
    assert (entries + [entry])[..|entries|] == entries;
  }

  // The parser only builds dumps whose subleafs are numbered, as long as no leaf
  // has more entries than there are subleafs.
  lemma {:induction false} ParsedIsNumbered(lines: seq<Option<Line>>)
    requires forall leaf: Word :: NumEntries(AddLines(lines), leaf) <= TWO_TO_THE_32
    ensures AreNumbered(AddLines(lines))
  {
    if lines != [] {
      var front, last := AddLines(lines[..|lines| - 1]), lines[|lines| - 1];
      if last.None? {
        assert AddLines(lines) == front;
        ParsedIsNumbered(lines[..|lines| - 1]);
      } else {
        var entry := Entry(last.value.leaf, NextSubleaf(front, last.value.leaf), last.value.output);
        assert AddLines(lines) == front + [entry];
        forall leaf: Word
          ensures NumEntries(front, leaf) <= TWO_TO_THE_32
          ensures leaf == entry.leaf ==> NumEntries(front, leaf) < TWO_TO_THE_32
        {
          OneMoreEntry(front, entry, leaf);
          assert NumEntries(AddLines(lines), leaf) <= TWO_TO_THE_32;
        }
        ParsedIsNumbered(lines[..|lines| - 1]);
        AppendIsNumbered(front, last.value.leaf, last.value.output);
      }
    }
  }

  // ---- The round trip -------------------------------------------------------

  predicate IsOneLine(text: string) {
    forall i :: 0 <= i < |text| ==> text[i] != '\n'
  }

  lemma {:induction false} HexIsOneLine(n: nat, count: nat)
    ensures IsOneLine(HexDigits(n, count))
  {
    if count > 0 {
      HexIsOneLine(n / 16, count - 1);
    }
  }

  lemma OneLineConcatenation(a: string, b: string)
    requires IsOneLine(a) && IsOneLine(b)
    ensures IsOneLine(a + b)
  {
  }

  lemma OutputIsOneLine(output: Output)
    ensures IsOneLine(OutputText(output))
  {
    var edx, ecx := HexDigits(output.edx, 8), HexDigits(output.ecx, 8);
    var ebx, eax := HexDigits(output.ebx, 8), HexDigits(output.eax, 8);
    HexIsOneLine(output.edx, 8);
    HexIsOneLine(output.ecx, 8);
    HexIsOneLine(output.ebx, 8);
    HexIsOneLine(output.eax, 8);
    OneLineConcatenation("-", edx);
    OneLineConcatenation(ecx, "-" + edx);
    OneLineConcatenation("-", ecx + ("-" + edx));
    OneLineConcatenation(ebx, "-" + (ecx + ("-" + edx)));
    OneLineConcatenation("-", ebx + ("-" + (ecx + ("-" + edx))));
    OneLineConcatenation(eax, "-" + (ebx + ("-" + (ecx + ("-" + edx)))));
  }

  lemma {:induction false} LineIsOneLine(entry: Entry)
    ensures IsOneLine(LineText(entry))
  {
    HexIsOneLine(entry.leaf, 8);
    OutputIsOneLine(entry.output);
    OneLineConcatenation(": ", OutputText(entry.output));
    OneLineConcatenation(HexDigits(entry.leaf, 8), ": " + OutputText(entry.output));
    OneLineConcatenation("CPUID ", HexDigits(entry.leaf, 8) + (": " + OutputText(entry.output)));
  }

  lemma {:induction false} SplitOneLine(line: string)
    requires IsOneLine(line)
    ensures SplitLines(line) == [line]
  {
    if line != "" {
      SplitOneLine(line[1..]);
      assert [line[0]] + line[1..] == line;
    }
  }

  lemma {:induction false} SplitLastLine(text: string, line: string)
    requires IsOneLine(line)
    ensures SplitLines(text + "\n" + line) == SplitLines(text) + [line]
    decreases |text|
  {
    if text == "" {
      SplitOneLine(line);
      assert ("" + "\n" + line)[1..] == line;
    } else {
      assert (text + "\n" + line)[1..] == text[1..] + "\n" + line;
      SplitLastLine(text[1..], line);
    }
  }

  function Lines(entries: seq<Entry>): seq<string> {
    if entries == [] then [] else Lines(entries[..|entries| - 1]) + [LineText(entries[|entries| - 1])]
  }

  lemma {:induction false} TextHasLines(entries: seq<Entry>)
    requires entries != []
    ensures SplitLines(Text(entries)) == Lines(entries)
  {
    var last := |entries| - 1;
    LineIsOneLine(entries[last]);
    if last == 0 {
      SplitOneLine(LineText(entries[0]));
      assert entries[..0] == [];
    } else {
      TextHasLines(entries[..last]);
      SplitLastLine(Text(entries[..last]), LineText(entries[last]));
    }
  }

  lemma {:induction false} LinesAre(entries: seq<Entry>)
    ensures |Lines(entries)| == |entries|
    ensures forall i :: 0 <= i < |entries| ==> Lines(entries)[i] == LineText(entries[i])
  {
    if entries != [] {
      LinesAre(entries[..|entries| - 1]);
    }
  }

  // The lines of a dump without the numbers of the subleafs.
  function LinesOf(entries: seq<Entry>): (lines: seq<Option<Line>>)
    ensures |lines| == |entries|
    ensures forall i :: 0 <= i < |entries| ==> lines[i] == Some(Line(entries[i].leaf, entries[i].output))
  {
    seq(|entries|, i requires 0 <= i < |entries| => Some(Line(entries[i].leaf, entries[i].output)))
  }

  lemma {:induction false} TextParses(entries: seq<Entry>)
    requires entries != []
    ensures ParseLines(SplitLines(Text(entries))) == LinesOf(entries)
  {
    TextHasLines(entries);
    LinesAre(entries);
    forall i | 0 <= i < |entries|
      ensures ParseLine(Lines(entries)[i]) == Some(Line(entries[i].leaf, entries[i].output))
    {
      LineRoundTrip(entries[i]);
    }
  }

  lemma {:induction false} LastSubleaf(entries: seq<Entry>)
    requires AreNumbered(entries) && entries != []
    ensures var last := entries[|entries| - 1];
            NextSubleaf(entries[..|entries| - 1], last.leaf) == last.subleaf
  {
    var front, last := entries[..|entries| - 1], entries[|entries| - 1];
    NumberedFront(entries);
    NextOfNumbered(front, last.leaf);
    assert last.subleaf == NumEntries(front, last.leaf);
  }

  lemma {:induction false} NumberingRoundTrip(entries: seq<Entry>)
    requires AreNumbered(entries)
    ensures AddLines(LinesOf(entries)) == entries
  {
    if entries != [] {
      var front, last := entries[..|entries| - 1], entries[|entries| - 1];
      NumberedFront(entries);
      NumberingRoundTrip(front);
      LastSubleaf(entries);
      LastLine(entries);
      assert front + [last] == entries;
    }
  }

  lemma LastLine(entries: seq<Entry>)
    requires entries != []
    ensures var last := |entries| - 1;
            LinesOf(entries)[..last] == LinesOf(entries[..last]) &&
            LinesOf(entries)[last] == Some(Line(entries[last].leaf, entries[last].output))
  {
  }

  // The parser can read the text of a dump, unless the dump has the last leaf.
  lemma {:induction false} TextIsAllowed(entries: seq<Entry>)
    requires entries != []
    ensures HasForbiddenLeaf(ParseLines(SplitLines(Text(entries)))) <==>
            exists i :: 0 <= i < |entries| && entries[i].leaf == 0xffff_ffff
  {
    TextParses(entries);
  }

  // A dump is read back from its text exactly when its subleafs are numbered and
  // it has the main leaf.
  lemma {:induction false} DumpRoundTrip(entries: seq<Entry>)
    requires entries != [] && forall leaf: Word :: NumEntries(entries, leaf) <= TWO_TO_THE_32
    ensures Parsed(Text(entries)) == Success(entries) <==>
            AreNumbered(entries) && EntryOrNull(entries, 0, 0).Some?
  {
    TextParses(entries);
    if AreNumbered(entries) {
      NumberingRoundTrip(entries);
    }
    if AddLines(LinesOf(entries)) == entries {
      ParsedIsNumbered(LinesOf(entries));
    }
  }
}
