// Sorting the instruction set by vendor syntax
// (exegesis/base/cleanup_instruction_set.cc).
module SyntaxOrder {
  import opened X86Protos
  import opened Comparisons
  import opened StableSorting

  // ---- The comparisons ------------------------------------------------------

  function Names(format: InstructionFormat): (names: seq<string>)
    ensures |names| == |format.operands|
    ensures forall i :: 0 <= i < |names| ==> names[i] == format.operands[i].name
  {
    seq(|format.operands|, i requires 0 <= i < |format.operands| => format.operands[i].name)
  }

  function Tags(format: InstructionFormat): (tags: seq<seq<string>>)
    ensures |tags| == |format.operands|
    ensures forall i :: 0 <= i < |tags| ==> tags[i] == format.operands[i].tags
  {
    seq(|format.operands|, i requires 0 <= i < |format.operands| => format.operands[i].tags)
  }

  function CompareNames(a: seq<string>, b: seq<string>): int {
    CompareLists(CompareStrings, a, b)
  }

  function CompareTags(a: seq<seq<string>>, b: seq<seq<string>>): int {
    CompareLists(CompareNames, a, b)
  }

  // The first syntax; the CHECK on the number of syntaxes is a precondition of the
  // methods.
  function AnySyntax(instruction: InstructionProto): InstructionFormat {
    if instruction.vendorSyntax == [] then InstructionFormat("", []) else instruction.vendorSyntax[0]
  }

  function CompareEncodings(a: InstructionProto, b: InstructionProto): int {
    CompareStrings(a.rawEncodingSpecification, b.rawEncodingSpecification)
  }

  function CompareFromTags(a: InstructionProto, b: InstructionProto): int {
    Then(CompareTags(Tags(AnySyntax(a)), Tags(AnySyntax(b))), CompareEncodings(a, b))
  }

  function CompareFromNames(a: InstructionProto, b: InstructionProto): int {
    Then(CompareNames(Names(AnySyntax(a)), Names(AnySyntax(b))), CompareFromTags(a, b))
  }

  function CompareInstructions(a: InstructionProto, b: InstructionProto): int {
    Then(CompareStrings(AnySyntax(a).mnemonic, AnySyntax(b).mnemonic), CompareFromNames(a, b))
  }

  predicate IsLess(a: InstructionProto, b: InstructionProto) {
    CompareInstructions(a, b) < 0
  }

  // Only the sign of a comparison matters.
  predicate HasSameSign(a: int, b: int) {
    (a < 0 <==> b < 0) && (a > 0 <==> b > 0)
  }

  method CompareOperands(a: InstructionFormat, b: InstructionFormat) returns (comparison: int)
    ensures HasSameSign(comparison, CompareNames(Names(a), Names(b)))
  {
    comparison := 0;
    var numOperands := if |a.operands| < |b.operands| then |a.operands| else |b.operands|;
    var i := 0;
    assert Names(a)[0..] == Names(a) && Names(b)[0..] == Names(b);
    while comparison == 0 && i < numOperands
      invariant i <= numOperands
      invariant comparison == 0 ==> CompareNames(Names(a)[i..], Names(b)[i..]) == CompareNames(Names(a), Names(b))
      invariant comparison != 0 ==> comparison == CompareNames(Names(a), Names(b))
    {
      comparison := CompareStrings(a.operands[i].name, b.operands[i].name);
      assert Names(a)[i..][1..] == Names(a)[i + 1..] && Names(b)[i..][1..] == Names(b)[i + 1..];
      i := i + 1;
    }
    if comparison == 0 {
      comparison := |a.operands| - |b.operands|;
    }
  }

  method CompareTagsOfOperand(a: seq<string>, b: seq<string>) returns (comparison: int)
    ensures HasSameSign(comparison, CompareNames(a, b))
  {
    comparison := 0;
    var numTags := if |a| < |b| then |a| else |b|;
    var i := 0;
    assert a[0..] == a && b[0..] == b;
    while comparison == 0 && i < numTags
      invariant i <= numTags
      invariant comparison == 0 ==> CompareNames(a[i..], b[i..]) == CompareNames(a, b)
      invariant comparison != 0 ==> comparison == CompareNames(a, b)
    {
      comparison := CompareStrings(a[i], b[i]);
      assert a[i..][1..] == a[i + 1..] && b[i..][1..] == b[i + 1..];
      i := i + 1;
    }
    if comparison == 0 {
      comparison := |a| - |b|;
    }
  }

  method CompareOperandTags(a: InstructionFormat, b: InstructionFormat) returns (comparison: int)
    requires |a.operands| == |b.operands|
    ensures HasSameSign(comparison, CompareTags(Tags(a), Tags(b)))
  {
    comparison := 0;
    var i := 0;
    assert Tags(a)[0..] == Tags(a) && Tags(b)[0..] == Tags(b);
    while comparison == 0 && i < |a.operands|
      invariant i <= |a.operands|
      invariant comparison == 0 ==> CompareTags(Tags(a)[i..], Tags(b)[i..]) == CompareTags(Tags(a), Tags(b))
      invariant comparison != 0 ==> HasSameSign(comparison, CompareTags(Tags(a), Tags(b)))
    {
      comparison := CompareTagsOfOperand(a.operands[i].tags, b.operands[i].tags);
      assert Tags(a)[i..][1..] == Tags(a)[i + 1..] && Tags(b)[i..][1..] == Tags(b)[i + 1..];
      i := i + 1;
    }
  }

  // The tags are compared only for equally many operands: with the same names
  // there are.
  method LessThan(a: InstructionProto, b: InstructionProto) returns (isLess: bool)
    requires a.vendorSyntax != [] && b.vendorSyntax != []
    ensures isLess <==> IsLess(a, b)
  {
    var x, y := a.vendorSyntax[0], b.vendorSyntax[0];
    var comparison := CompareStrings(x.mnemonic, y.mnemonic);
    if comparison == 0 {
      comparison := CompareOperands(x, y);
    }
    if comparison == 0 {
      EqualListsHaveEqualLength(CompareStrings, Names(x), Names(y));
      comparison := CompareOperandTags(x, y);
    }
    if comparison == 0 {
      comparison := CompareStrings(a.rawEncodingSpecification, b.rawEncodingSpecification);
    }
    return comparison < 0;
  }

  // ---- It is a strict weak order --------------------------------------------

  lemma NamesComparison()
    ensures IsComparison(CompareNames)
  {
    StringComparison();
    ListComparison(CompareStrings);
    var lists := (a: seq<string>, b: seq<string>) => CompareLists(CompareStrings, a, b);
    assert IsComparison(lists);
    assert forall a, b :: CompareNames(a, b) == lists(a, b);
  }

  lemma TagsComparison()
    ensures IsComparison(CompareTags)
  {
    NamesComparison();
    ListComparison(CompareNames);
    var lists := (a: seq<seq<string>>, b: seq<seq<string>>) => CompareLists(CompareNames, a, b);
    assert IsComparison(lists);
    assert forall a, b :: CompareTags(a, b) == lists(a, b);
  }

  // A comparison by a part of the instruction, and then by something else.
  lemma PartThenRest<T(!new)>(
    whole: (InstructionProto, InstructionProto) -> int, compare: (T, T) -> int, part: InstructionProto -> T,
    rest: (InstructionProto, InstructionProto) -> int
  )
    requires IsComparison(compare) && IsComparison(rest)
    requires forall a, b :: whole(a, b) == Then(compare(part(a), part(b)), rest(a, b))
    ensures IsComparison(whole)
  {
    var byPart := (a: InstructionProto, b: InstructionProto) => compare(part(a), part(b));
    PartComparison(compare, part);
    SameComparison((a: InstructionProto, b: InstructionProto) => compare(part(a), part(b)), byPart);
    ThenComparison(byPart, rest);
    SameComparison((a: InstructionProto, b: InstructionProto) => Then(byPart(a, b), rest(a, b)), whole);
  }

  lemma SameComparison<T(!new)>(first: (T, T) -> int, second: (T, T) -> int)
    requires IsComparison(first) && forall a, b :: first(a, b) == second(a, b)
    ensures IsComparison(second)
  {
  }

  lemma EncodingComparison()
    ensures IsComparison(CompareEncodings)
  {
    StringComparison();
    var part := (a: InstructionProto) => a.rawEncodingSpecification;
    PartComparison(CompareStrings, part);
    SameComparison((a: InstructionProto, b: InstructionProto) => CompareStrings(part(a), part(b)), CompareEncodings);
  }

  lemma InstructionComparison()
    ensures IsComparison(CompareInstructions)
  {
    StringComparison();
    NamesComparison();
    TagsComparison();
    EncodingComparison();
    PartThenRest(CompareFromTags, CompareTags, (a: InstructionProto) => Tags(AnySyntax(a)), CompareEncodings);
    PartThenRest(CompareFromNames, CompareNames, (a: InstructionProto) => Names(AnySyntax(a)), CompareFromTags);
    PartThenRest(CompareInstructions, CompareStrings, (a: InstructionProto) => AnySyntax(a).mnemonic,
                 CompareFromNames);
  }

  lemma LessThanIsStrictWeakOrder()
    ensures IsStrictWeakOrder(IsLess)
  {
    InstructionComparison();
    ComparisonGivesOrder(CompareInstructions);
    var less := (a: InstructionProto, b: InstructionProto) => CompareInstructions(a, b) < 0;
    assert IsStrictWeakOrder(less);
    assert forall a, b :: IsLess(a, b) == less(a, b);
  }

  // ---- What the order is ----------------------------------------------------

  // Lists in the order of a dictionary: the first difference decides, and a proper
  // prefix comes first.
  predicate IsBefore<T(==)>(less: (T, T) -> bool, a: seq<T>, b: seq<T>) {
    exists k :: 0 <= k <= |a| && k < |b| && DiffersAt(less, a, b, k)
  }

  predicate DiffersAt<T(==)>(less: (T, T) -> bool, a: seq<T>, b: seq<T>, k: nat)
    requires k <= |a| && k < |b|
  {
    a[..k] == b[..k] && (k == |a| || less(a[k], b[k]))
  }

  predicate CharIsBefore(a: char, b: char) {
    a < b
  }

  predicate StringIsBefore(a: string, b: string) {
    IsBefore(CharIsBefore, a, b)
  }

  predicate NamesAreBefore(a: seq<string>, b: seq<string>) {
    IsBefore(StringIsBefore, a, b)
  }

  predicate TagsAreBefore(a: seq<seq<string>>, b: seq<seq<string>>) {
    IsBefore(NamesAreBefore, a, b)
  }

  ghost predicate Decides<T(!new)>(compare: (T, T) -> int, less: (T, T) -> bool) {
    forall x, y :: (compare(x, y) < 0 <==> less(x, y)) && (compare(x, y) == 0 <==> x == y)
  }

  lemma {:induction false} ListsAreBefore<T(!new)>(
    compare: (T, T) -> int, less: (T, T) -> bool, a: seq<T>, b: seq<T>
  )
    requires Decides(compare, less)
    ensures CompareLists(compare, a, b) < 0 <==> IsBefore(less, a, b)
    ensures CompareLists(compare, a, b) == 0 <==> a == b
  {
    if a != [] && b != [] {
      ListsAreBefore(compare, less, a[1..], b[1..]);
      assert a == [a[0]] + a[1..] && b == [b[0]] + b[1..];
      FirstDecides(compare, less, a, b);
      assert compare(a[0], b[0]) < 0 <==> less(a[0], b[0]);
    } else if b != [] {
      assert DiffersAt(less, a, b, 0);
    }
  }

  lemma {:induction false} FirstDecides<T(!new)>(
    compare: (T, T) -> int, less: (T, T) -> bool, a: seq<T>, b: seq<T>
  )
    requires Decides(compare, less) && a != [] && b != []
    ensures IsBefore(less, a, b) <==> less(a[0], b[0]) || (a[0] == b[0] && IsBefore(less, a[1..], b[1..]))
  {
    if less(a[0], b[0]) {
      assert DiffersAt(less, a, b, 0);
    }
    if a[0] == b[0] && IsBefore(less, a[1..], b[1..]) {
      var k :| 0 <= k <= |a[1..]| && k < |b[1..]| && DiffersAt(less, a[1..], b[1..], k);
      assert a[..k + 1] == [a[0]] + a[1..][..k] && b[..k + 1] == [b[0]] + b[1..][..k];
      assert DiffersAt(less, a, b, k + 1);
    }
    if IsBefore(less, a, b) && !less(a[0], b[0]) {
      var k :| 0 <= k <= |a| && k < |b| && DiffersAt(less, a, b, k);
      assert k > 0 && a[..k][0] == b[..k][0];
      assert a[1..][..k - 1] == a[..k][1..] && b[1..][..k - 1] == b[..k][1..];
      assert DiffersAt(less, a[1..], b[1..], k - 1);
    }
  }

  lemma StringsAreDecided()
    ensures Decides(CompareStrings, StringIsBefore)
  {
    forall a: string, b: string
      ensures (CompareStrings(a, b) < 0 <==> StringIsBefore(a, b)) && (CompareStrings(a, b) == 0 <==> a == b)
    {
      ListsAreBefore(CompareChars, CharIsBefore, a, b);
    }
  }

  lemma NamesAreDecided()
    ensures Decides(CompareNames, NamesAreBefore)
  {
    StringsAreDecided();
    forall a: seq<string>, b: seq<string>
      ensures (CompareNames(a, b) < 0 <==> NamesAreBefore(a, b)) && (CompareNames(a, b) == 0 <==> a == b)
    {
      ListsAreBefore(CompareStrings, StringIsBefore, a, b);
    }
  }

  // The order of the instructions: by mnemonic, then by the names of the operands,
  // then by their tags, then by the specification, each in the order of a dictionary.
  lemma OrderIsLexicographic(a: InstructionProto, b: InstructionProto)
    requires a.vendorSyntax != [] && b.vendorSyntax != []
    ensures IsLess(a, b) <==>
            var x, y := a.vendorSyntax[0], b.vendorSyntax[0];
            || StringIsBefore(x.mnemonic, y.mnemonic)
            || (x.mnemonic == y.mnemonic &&
                (|| NamesAreBefore(Names(x), Names(y))
                 || (Names(x) == Names(y) &&
                     (|| TagsAreBefore(Tags(x), Tags(y))
                      || (Tags(x) == Tags(y) &&
                          StringIsBefore(a.rawEncodingSpecification, b.rawEncodingSpecification))))))
  {
    var x, y := a.vendorSyntax[0], b.vendorSyntax[0];
    StringsAreDecided();
    NamesAreDecided();
    assert CompareStrings(x.mnemonic, y.mnemonic) < 0 <==> StringIsBefore(x.mnemonic, y.mnemonic);
    assert CompareNames(Names(x), Names(y)) < 0 <==> NamesAreBefore(Names(x), Names(y));
    ListsAreBefore(CompareNames, NamesAreBefore, Tags(x), Tags(y));
    assert CompareEncodings(a, b) < 0 <==>
      StringIsBefore(a.rawEncodingSpecification, b.rawEncodingSpecification);
  }

  // ---- Sorting --------------------------------------------------------------

  function WithSortedLeaves(instruction: InstructionProto): InstructionProto {
    instruction.(leafInstructions := StableSort(IsLess, instruction.leafInstructions))
  }

  function WithAllSortedLeaves(list: seq<InstructionProto>): (sorted: seq<InstructionProto>)
    ensures |sorted| == |list| && forall i :: 0 <= i < |list| ==> sorted[i] == WithSortedLeaves(list[i])
  {
    seq(|list|, i requires 0 <= i < |list| => WithSortedLeaves(list[i]))
  }

  function Sorted(list: seq<InstructionProto>): seq<InstructionProto> {
    WithAllSortedLeaves(StableSort(IsLess, list))
  }

  predicate HaveSyntaxes(list: seq<InstructionProto>) {
    forall i :: 0 <= i < |list| ==>
      list[i].vendorSyntax != [] &&
      forall j :: 0 <= j < |list[i].leafInstructions| ==> list[i].leafInstructions[j].vendorSyntax != []
  }

  class InstructionSet {
    var instructions: seq<InstructionProto>

    constructor (instructions: seq<InstructionProto>)
      ensures this.instructions == instructions
    {
      this.instructions := instructions;
    }

    method SortByVendorSyntax()
      requires HaveSyntaxes(instructions)
      modifies this
      ensures instructions == Sorted(old(instructions))
    {
      instructions := Sort(IsLess, instructions);
      ghost var sorted := instructions;
      for i := 0 to |instructions|
        invariant |instructions| == |sorted|
        invariant forall j :: 0 <= j < |sorted| ==>
                    instructions[j] == if j < i then WithSortedLeaves(sorted[j]) else sorted[j]
      {
        var leaves := Sort(IsLess, instructions[i].leafInstructions);
        instructions := instructions[i := instructions[i].(leafInstructions := leaves)];
      }
    }
  }

  // The leaves do not matter for the order.
  lemma LeavesDoNotMatter(a: InstructionProto, b: InstructionProto)
    ensures IsLess(WithSortedLeaves(a), WithSortedLeaves(b)) <==> IsLess(a, b)
  {
  }

  // Both levels are sorted, and the sort on each level is the stable one.
  lemma {:induction false} SortedIsSorted(list: seq<InstructionProto>)
    ensures IsSorted(IsLess, Sorted(list))
    ensures forall i :: 0 <= i < |Sorted(list)| ==> IsSorted(IsLess, Sorted(list)[i].leafInstructions)
    ensures IsStablePermutation(IsLess, list, StableSort(IsLess, list))
    ensures forall i :: 0 <= i < |Sorted(list)| ==>
              IsStablePermutation(IsLess, StableSort(IsLess, list)[i].leafInstructions,
                                  Sorted(list)[i].leafInstructions)
  {
    var sorted := StableSort(IsLess, list);
    LessThanIsStrictWeakOrder();
    SortIsSorted(IsLess, list);
    SortIsStable(IsLess, list);
    forall i, j | 0 <= i < j < |sorted|
      ensures !IsLess(Sorted(list)[j], Sorted(list)[i])
    {
      LeavesDoNotMatter(sorted[j], sorted[i]);
    }
    forall i | 0 <= i < |sorted|
      ensures IsSorted(IsLess, Sorted(list)[i].leafInstructions)
      ensures IsStablePermutation(IsLess, sorted[i].leafInstructions, Sorted(list)[i].leafInstructions)
    {
      SortIsSorted(IsLess, sorted[i].leafInstructions);
      SortIsStable(IsLess, sorted[i].leafInstructions);
    }
  }

  lemma SortingIsIdempotent(list: seq<InstructionProto>)
    ensures Sorted(Sorted(list)) == Sorted(list)
  {
    LessThanIsStrictWeakOrder();
    SortedIsSorted(list);
    SortOfSorted(IsLess, Sorted(list));
    forall i | 0 <= i < |Sorted(list)|
      ensures WithSortedLeaves(Sorted(list)[i]) == Sorted(list)[i]
    {
      SortOfSorted(IsLess, Sorted(list)[i].leafInstructions);
    }
  }
}
