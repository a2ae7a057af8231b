// Merging instructions that differ in their vendor syntax only
// (exegesis/x86/cleanup_instruction_set_merge_instructions.cc).
module VendorSyntaxMerge {
  import opened Wrappers
  import opened Sequences
  import opened Indices
  import opened X86Protos
  import Generator = EncodingSpecificationGenerator

  // ---- The merge key --------------------------------------------------------

  // The first of the syntaxes that have the most operands.
  function Longest(syntaxes: seq<InstructionFormat>): InstructionFormat
    requires syntaxes != []
  {
    var last := syntaxes[|syntaxes| - 1];
    if |syntaxes| == 1 then last
    else
      var longest := Longest(syntaxes[..|syntaxes| - 1]);
      if |last.operands| > |longest.operands| then last else longest
  }

  method GetVendorSyntaxWithMostOperandsOrDie(instruction: InstructionProto) returns (syntax: InstructionFormat)
    requires instruction.vendorSyntax != []
    ensures syntax == Longest(instruction.vendorSyntax)
  {
    var syntaxes := instruction.vendorSyntax;
    syntax := syntaxes[0];
    for i := 1 to |syntaxes|
      invariant syntax == Longest(syntaxes[..i])
    {
      assert syntaxes[..i + 1][..i] == syntaxes[..i];
      if |syntaxes[i].operands| > |syntax.operands| {
        syntax := syntaxes[i];
      }
    }
    assert syntaxes[..|syntaxes|] == syntaxes;
  }

  // No syntax has more operands, and no earlier one has as many.
  predicate IsFirstLongest(syntaxes: seq<InstructionFormat>, i: nat)
    requires i < |syntaxes|
  {
    && (forall j :: 0 <= j < i ==> |syntaxes[j].operands| < |syntaxes[i].operands|)
    && (forall j :: 0 <= j < |syntaxes| ==> |syntaxes[j].operands| <= |syntaxes[i].operands|)
  }

  lemma {:induction false} LongestHasMostOperands(syntaxes: seq<InstructionFormat>)
    requires syntaxes != []
    ensures exists i :: 0 <= i < |syntaxes| && Longest(syntaxes) == syntaxes[i] && IsFirstLongest(syntaxes, i)
  {
    if |syntaxes| == 1 {
      assert IsFirstLongest(syntaxes, 0);
    } else {
      var last, front := |syntaxes| - 1, syntaxes[..|syntaxes| - 1];
      LongestHasMostOperands(front);
      var i :| 0 <= i < last && Longest(front) == front[i] && IsFirstLongest(front, i);
      assert forall j :: 0 <= j < last ==> syntaxes[j] == front[j];
      assert IsFirstLongest(syntaxes, if |syntaxes[last].operands| > |front[i].operands| then last else i);
    }
  }

  lemma {:induction false} LongestOfBoth(first: seq<InstructionFormat>, second: seq<InstructionFormat>)
    requires first != [] && second != []
    ensures Longest(first + second) ==
            if |Longest(second).operands| > |Longest(first).operands| then Longest(second) else Longest(first)
    decreases |second|
  {
    var last := |second| - 1;
    assert (first + second)[..|first| + last] == first + second[..last];
    if |second| == 1 {
      assert first + second[..last] == first;
    } else {
      LongestOfBoth(first, second[..last]);
    }
  }

  function ModeText(operand: InstructionOperand): string {
    if operand.encoding.ModRmRmEncoding? then "\t" + Generator.DecimalText(operand.addressingMode.Number()) else ""
  }

  function ModesText(operands: seq<InstructionOperand>): string {
    if operands == [] then "" else ModesText(operands[..|operands| - 1]) + ModeText(operands[|operands| - 1])
  }

  function Key(instruction: InstructionProto): string
    requires instruction.vendorSyntax != []
  {
    instruction.rawEncodingSpecification + ModesText(Longest(instruction.vendorSyntax).operands)
  }

  method VendorSyntaxMergeKey(instruction: InstructionProto) returns (key: string)
    requires instruction.vendorSyntax != []
    ensures key == Key(instruction)
  {
    key := instruction.rawEncodingSpecification;
    var syntax := GetVendorSyntaxWithMostOperandsOrDie(instruction);
    var operands := syntax.operands;
    for i := 0 to |operands|
      invariant key == instruction.rawEncodingSpecification + ModesText(operands[..i])
    {
      ModesStep(operands, i);
      Associate(instruction.rawEncodingSpecification, ModesText(operands[..i]), ModeText(operands[i]));
      key := AppendMode(key, operands[i]);
    }
    assert operands[..|operands|] == operands;
  }

  method AppendMode(key: string, operand: InstructionOperand) returns (result: string)
    ensures result == key + ModeText(operand)
  {
    result := key;
    if operand.encoding.ModRmRmEncoding? {
      result := result + ("\t" + Generator.DecimalText(operand.addressingMode.Number()));
    }
  }

  lemma ModesStep(operands: seq<InstructionOperand>, i: nat)
    requires i < |operands|
    ensures ModesText(operands[..i + 1]) == ModesText(operands[..i]) + ModeText(operands[i])
  {
    assert operands[..i + 1][..i] == operands[..i];
  }

  // ---- What the merge returns -----------------------------------------------

  type Instructions = seq<InstructionProto>

  // The CHECK on the number of syntaxes.
  predicate HaveSyntaxes(list: Instructions) {
    forall i :: 0 <= i < |list| ==> list[i].vendorSyntax != []
  }

  function Members(list: Instructions, key: string): (members: seq<nat>)
    requires HaveSyntaxes(list)
    ensures forall k :: 0 <= k < |members| ==> members[k] < |list|
  {
    IndicesOf(seq(|list|, i requires 0 <= i < |list| => Key(list[i]) == key))
  }

  predicate IsFirst(list: Instructions, i: nat)
    requires HaveSyntaxes(list) && i < |list|
  {
    forall j :: 0 <= j < i ==> Key(list[j]) != Key(list[i])
  }

  // The first instruction of each group, in their order.
  function Firsts(list: Instructions): (firsts: seq<nat>)
    requires HaveSyntaxes(list)
    ensures forall k :: 0 <= k < |firsts| ==> firsts[k] < |list|
  {
    IndicesOf(FirstFlags(list))
  }

  function FirstFlags(list: Instructions): (flags: seq<bool>)
    requires HaveSyntaxes(list)
    ensures |flags| == |list| && forall i :: 0 <= i < |list| ==> flags[i] == IsFirst(list, i)
  {
    seq(|list|, i requires 0 <= i < |list| => IsFirst(list, i))
  }

  function SyntaxesOf(list: Instructions, indices: seq<nat>): seq<InstructionFormat>
    requires forall k :: 0 <= k < |indices| ==> indices[k] < |list|
  {
    if indices == [] then []
    else SyntaxesOf(list, indices[..|indices| - 1]) + list[indices[|indices| - 1]].vendorSyntax
  }

  // The first instruction of a group with the syntaxes of the whole group.
  function Merged(list: Instructions, i: nat): InstructionProto
    requires HaveSyntaxes(list) && i < |list|
  {
    list[i].(vendorSyntax := SyntaxesOf(list, Members(list, Key(list[i]))))
  }

  function MergedInstructions(list: Instructions): (merged: Instructions)
    requires HaveSyntaxes(list)
    ensures |merged| == |Firsts(list)|
    ensures forall k :: 0 <= k < |merged| ==> merged[k] == Merged(list, Firsts(list)[k])
  {
    seq(|Firsts(list)|, k requires 0 <= k < |Firsts(list)| => Merged(list, Firsts(list)[k]))
  }

  // The fields that the differencer compares, in the instruction and in its leaves.
  function ComparedFields(instruction: InstructionProto): InstructionProto
    decreases instruction
  {
    var leaves := instruction.leafInstructions;
    instruction.(
      description := "", encodingScheme := "", syntax := None, attSyntax := None, vendorSyntax := [],
      leafInstructions := seq(|leaves|, k requires 0 <= k < |leaves| => ComparedFields(leaves[k])))
  }

  predicate AreEquivalent(first: InstructionProto, second: InstructionProto) {
    ComparedFields(first) == ComparedFields(second)
  }

  lemma MembersAre(list: Instructions, key: string)
    requires HaveSyntaxes(list)
    ensures var members := Members(list, key);
            && (forall i :: i in members <==> 0 <= i < |list| && Key(list[i]) == key)
            && (forall j, k :: 0 <= j < k < |members| ==> members[j] < members[k])
  {
    IndicesOfIncreasing(seq(|list|, i requires 0 <= i < |list| => Key(list[i]) == key));
  }

  lemma FirstsAre(list: Instructions)
    requires HaveSyntaxes(list)
    ensures var firsts := Firsts(list);
            && (forall i :: i in firsts <==> 0 <= i < |list| && IsFirst(list, i))
            && (forall j, k :: 0 <= j < k < |firsts| ==> firsts[j] < firsts[k])
  {
    IndicesOfIncreasing(FirstFlags(list));
  }

  lemma GroupStartsWithFirst(list: Instructions, i: nat)
    requires HaveSyntaxes(list) && i < |list|
    ensures var members := Members(list, Key(list[i]));
            && members != [] && members[0] <= i && IsFirst(list, members[0]) && Key(list[members[0]]) == Key(list[i])
            && (IsFirst(list, i) <==> members[0] == i)
  {
    MembersAre(list, Key(list[i]));
    var members := Members(list, Key(list[i]));
    assert i in members;
    assert members[0] in members;
    forall j | 0 <= j < members[0]
      ensures Key(list[j]) != Key(list[members[0]])
    {
      assert j !in members;
    }
  }

  // ---- The merge ------------------------------------------------------------

  // Whether the members of the groups with these keys are equivalent to the first
  // member of their group.
  predicate AreGroupsEquivalent(list: Instructions, keys: set<string>)
    requires HaveSyntaxes(list)
  {
    forall i :: 0 <= i < |list| && Key(list[i]) in keys ==>
      IsGroupMemberEquivalent(list, Members(list, Key(list[i])), i)
  }

  predicate IsGroupMemberEquivalent(list: Instructions, members: seq<nat>, i: nat)
    requires i < |list|
  {
    members != [] && members[0] < |list| && AreEquivalent(list[members[0]], list[i])
  }

  function AllKeys(list: Instructions): set<string>
    requires HaveSyntaxes(list)
  {
    set i | 0 <= i < |list| :: Key(list[i])
  }

  // Any two instructions with the same key are equivalent.
  predicate SameKeysAreEquivalent(list: Instructions)
    requires HaveSyntaxes(list)
  {
    forall i, j :: 0 <= i < j < |list| && Key(list[i]) == Key(list[j]) ==> AreEquivalent(list[i], list[j])
  }

  lemma GroupsAreEquivalent(list: Instructions)
    requires HaveSyntaxes(list)
    ensures AreGroupsEquivalent(list, AllKeys(list)) <==> SameKeysAreEquivalent(list)
  {
    if AreGroupsEquivalent(list, AllKeys(list)) {
      forall i, j | 0 <= i < j < |list| && Key(list[i]) == Key(list[j])
        ensures AreEquivalent(list[i], list[j])
      {
        assert Key(list[i]) in AllKeys(list);
        assert IsGroupMemberEquivalent(list, Members(list, Key(list[i])), i);
        assert IsGroupMemberEquivalent(list, Members(list, Key(list[j])), j);
      }
    }
    if SameKeysAreEquivalent(list) {
      forall i | 0 <= i < |list| && Key(list[i]) in AllKeys(list)
        ensures IsGroupMemberEquivalent(list, Members(list, Key(list[i])), i)
      {
        GroupStartsWithFirst(list, i);
      }
    }
  }

  // The instructions after the groups with these keys are merged.
  ghost predicate IsMergedFor(
    before: Instructions, now: Instructions, toRemove: set<nat>, keys: set<string>
  )
    requires HaveSyntaxes(before)
  {
    && |now| == |before|
    && (forall i :: 0 <= i < |before| ==>
          now[i] == if Key(before[i]) in keys && IsFirst(before, i) then Merged(before, i) else before[i])
    && (forall i :: i in toRemove <==> 0 <= i < |before| && Key(before[i]) in keys && !IsFirst(before, i))
  }

  lemma {:induction false} OneMoreGroup(
    before: Instructions, now: Instructions, toRemove: set<nat>, keys: set<string>, key: string,
    after: Instructions, removed: set<nat>
  )
    requires HaveSyntaxes(before) && IsMergedFor(before, now, toRemove, keys) && key !in keys
    requires var group := Members(before, key);
             && group != []
             && after == now[group[0] := before[group[0]].(vendorSyntax := SyntaxesOf(before, group))]
             && removed == toRemove + (set k | 1 <= k < |group| :: group[k])
    ensures IsMergedFor(before, after, removed, keys + {key})
  {
    var group := Members(before, key);
    MembersAre(before, key);
    assert group[0] in group;
    GroupStartsWithFirst(before, group[0]);
    forall i | 0 <= i < |before|
      ensures after[i] == if Key(before[i]) in keys + {key} && IsFirst(before, i) then Merged(before, i) else before[i]
    {
      OneMoreFirst(before, now, toRemove, keys, key, i);
    }
    forall i: nat
      ensures i in removed <==> 0 <= i < |before| && Key(before[i]) in keys + {key} && !IsFirst(before, i)
    {
      OneMoreRemoved(before, key, i);
    }
  }

  // What the merging of one more group does to one instruction.
  lemma {:induction false} OneMoreFirst(
    before: Instructions, now: Instructions, toRemove: set<nat>, keys: set<string>, key: string, i: nat
  )
    requires HaveSyntaxes(before) && IsMergedFor(before, now, toRemove, keys) && key !in keys && i < |before|
    requires Members(before, key) != []
    ensures var group := Members(before, key);
            (if i == group[0] then before[i].(vendorSyntax := SyntaxesOf(before, group)) else now[i]) ==
            if Key(before[i]) in keys + {key} && IsFirst(before, i) then Merged(before, i) else before[i]
  {
    MembersAre(before, key);
    assert Members(before, key)[0] in Members(before, key);
    GroupStartsWithFirst(before, i);
  }

  lemma NothingMerged(list: Instructions)
    requires HaveSyntaxes(list)
    ensures IsMergedFor(list, list, {}, {}) && AreGroupsEquivalent(list, {})
  {
  }

  lemma OneMoreRemoved(before: Instructions, key: string, i: nat)
    requires HaveSyntaxes(before)
    ensures var group := Members(before, key);
            i in (set k | 1 <= k < |group| :: group[k]) <==>
            i < |before| && Key(before[i]) == key && !IsFirst(before, i)
  {
    var group := Members(before, key);
    MembersAre(before, key);
    if i < |before| && Key(before[i]) == key {
      GroupStartsWithFirst(before, i);
      assert i in group;
      var k :| 0 <= k < |group| && group[k] == i;
    } else {
      assert i !in group;
    }
  }

  ghost predicate AreSplit(all: set<string>, first: set<string>, second: set<string>) {
    && (forall key :: key in all <==> key in first || key in second)
    && (forall key :: key in first ==> key !in second)
  }

  lemma MoveKey(all: set<string>, first: set<string>, second: set<string>, key: string)
    requires AreSplit(all, first, second) && key in first
    ensures AreSplit(all, first - {key}, second + {key}) && key in all && key !in second
  {
  }

  function StatusOf(isEquivalent: bool): Status {
    if isEquivalent then Ok else InvalidArgument
  }

  // The groups of instructions with the same key.
  method GroupByKey(list: Instructions) returns (groups: map<string, seq<nat>>)
    requires HaveSyntaxes(list)
    ensures groups.Keys == AllKeys(list)
    ensures forall key :: key in groups ==> groups[key] == Members(list, key) != []
  {
    groups := map[];
    NoGroups(list[..0]);
    for n := 0 to |list|
      invariant AreGroups(list[..n], groups)
    {
      var key := VendorSyntaxMergeKey(list[n]);
      var group := if key in groups then groups[key] else [];
      OneMoreMember(list, n, groups, key, group);
      groups := groups[key := group + [n]];
    }
    assert list[..|list|] == list;
    KeysAreAll(list, groups);
  }

  class InstructionSet {
    var instructions: Instructions

    constructor (instructions: Instructions)
      ensures this.instructions == instructions
    {
      this.instructions := instructions;
    }

    method MergeVendorSyntax() returns (status: Status)
      requires HaveSyntaxes(instructions)
      modifies this
      ensures instructions == MergedInstructions(old(instructions))
      ensures status.Ok? || status.InvalidArgument?
      ensures status.Ok? <==> SameKeysAreEquivalent(old(instructions))
    {
      ghost var before := instructions;
      GroupsAreEquivalent(before);
      var groups := GroupByKey(instructions);
      var toRemove;
      status, toRemove := MergeGroups(groups);
      SurvivorsAreFirsts(before, instructions, toRemove);
      RemoveMerged(toRemove);
    }

    // The order in which the groups are visited is the one of a hash table.
    method MergeGroups(groups: map<string, seq<nat>>) returns (status: Status, toRemove: set<nat>)
      requires HaveSyntaxes(instructions)
      requires forall key :: key in groups ==> groups[key] == Members(instructions, key) != []
      modifies this
      ensures IsMergedFor(old(instructions), instructions, toRemove, groups.Keys)
      ensures status == StatusOf(AreGroupsEquivalent(old(instructions), groups.Keys))
    {
      ghost var before := instructions;
      toRemove := {};
      status := Ok;
      NothingMerged(before);
      var keys := groups.Keys;
      ghost var done: set<string> := {};
      while keys != {}
        invariant AreSplit(groups.Keys, keys, done)
        invariant IsMergedFor(before, instructions, toRemove, done)
        invariant status == StatusOf(AreGroupsEquivalent(before, done))
        decreases keys
      {
        var key :| key in keys;
        MoveKey(groups.Keys, keys, done, key);
        status, toRemove := MergeGroup(key, groups[key], status, toRemove, before, done);
        keys := keys - {key};
        done := done + {key};
      }
      assert done == groups.Keys;
    }

    // Merges one group, and adds its members but the first one to the ones to remove.
    method MergeGroup(
      key: string, group: seq<nat>, statusSoFar: Status, toRemoveSoFar: set<nat>,
      ghost before: Instructions, ghost done: set<string>
    )
      returns (status: Status, toRemove: set<nat>)
      requires HaveSyntaxes(before) && group == Members(before, key) != [] && key !in done
      requires IsMergedFor(before, instructions, toRemoveSoFar, done)
      requires statusSoFar == StatusOf(AreGroupsEquivalent(before, done))
      modifies this
      ensures IsMergedFor(before, instructions, toRemove, done + {key})
      ensures status == StatusOf(AreGroupsEquivalent(before, done + {key}))
    {
      ghost var now := instructions;
      GroupIsUntouched(before, instructions, toRemoveSoFar, done, key);
      OneMoreEquivalence(before, done, key);
      var isEquivalent := AppendSyntaxes(group, before);
      toRemove := toRemoveSoFar + (set k | 1 <= k < |group| :: group[k]);
      OneMoreGroup(before, now, toRemoveSoFar, done, key, instructions, toRemove);
      status := statusSoFar.Then(StatusOf(isEquivalent));
    }

    // Appends the syntaxes of the other members to the first one.
    method AppendSyntaxes(group: seq<nat>, ghost before: Instructions) returns (isEquivalent: bool)
      requires |instructions| == |before| && group != []
      requires forall k :: 0 <= k < |group| ==> group[k] < |before| && instructions[group[k]] == before[group[k]]
      requires forall j, k :: 0 <= j < k < |group| ==> group[j] < group[k]
      modifies this
      ensures instructions ==
              old(instructions)[group[0] := before[group[0]].(vendorSyntax := SyntaxesOf(before, group))]
      ensures isEquivalent <==> forall k :: 1 <= k < |group| ==> AreEquivalent(before[group[0]], before[group[k]])
    {
      var canonical := group[0];
      isEquivalent := true;
      assert SyntaxesOf(before, group[..1]) == before[canonical].vendorSyntax by {
        assert group[..1][..0] == [];
      }
      for k := 1 to |group|
        invariant instructions ==
                  old(instructions)[canonical := before[canonical].(vendorSyntax := SyntaxesOf(before, group[..k]))]
        invariant isEquivalent <==> forall j :: 1 <= j < k ==> AreEquivalent(before[canonical], before[group[j]])
      {
        var merged := instructions[group[k]];
        assert merged == before[group[k]];
        if !AreEquivalent(instructions[canonical], merged) {
          isEquivalent := false;
        }
        assert group[..k + 1][..k] == group[..k];
        var syntaxes := instructions[canonical].vendorSyntax + merged.vendorSyntax;
        instructions := instructions[canonical := instructions[canonical].(vendorSyntax := syntaxes)];
      }
      assert group[..|group|] == group;
    }

    method RemoveMerged(toRemove: set<nat>)
      modifies this
      ensures instructions == Survivors(old(instructions), toRemove)
    {
      var kept := [];
      for i := 0 to |instructions|
        invariant instructions == old(instructions)
        invariant kept == Survivors(instructions[..i], toRemove)
      {
        assert instructions[..i + 1][..i] == instructions[..i];
        if i !in toRemove {
          kept := kept + [instructions[i]];
        }
      }
      assert instructions[..|instructions|] == instructions;
      instructions := kept;
    }
  }

  function Survivors(list: Instructions, toRemove: set<nat>): Instructions {
    if list == [] then []
    else
      var last := |list| - 1;
      Survivors(list[..last], toRemove) + (if last in toRemove then [] else [list[last]])
  }

  lemma MembersStep(list: Instructions, n: nat, key: string)
    requires HaveSyntaxes(list) && n < |list|
    ensures Members(list[..n + 1], key) == Members(list[..n], key) + if Key(list[n]) == key then [n] else []
  {
    var flags := seq(n + 1, i requires 0 <= i < n + 1 => Key(list[..n + 1][i]) == key);
    var before := seq(n, i requires 0 <= i < n => Key(list[..n][i]) == key);
    assert flags[..n] == before;
    assert seq(|list[..n + 1]|, i requires 0 <= i < |list[..n + 1]| => Key(list[..n + 1][i]) == key) == flags;
    assert seq(|list[..n]|, i requires 0 <= i < |list[..n]| => Key(list[..n][i]) == key) == before;
  }

  ghost predicate AreGroups(list: Instructions, groups: map<string, seq<nat>>)
    requires HaveSyntaxes(list)
  {
    && (forall key :: key in groups <==> Members(list, key) != [])
    && (forall key :: key in groups ==> groups[key] == Members(list, key))
  }

  lemma NoGroups(list: Instructions)
    requires list == []
    ensures AreGroups(list, map[])
  {
  }

  lemma OneMoreMember(
    list: Instructions, n: nat, groups: map<string, seq<nat>>, key: string, group: seq<nat>
  )
    requires HaveSyntaxes(list) && n < |list| && AreGroups(list[..n], groups)
    requires key == Key(list[n]) && group == if key in groups then groups[key] else []
    ensures AreGroups(list[..n + 1], groups[key := group + [n]])
  {
    forall other: string
      ensures Members(list[..n + 1], other) ==
              if other == key then Members(list[..n], other) + [n] else Members(list[..n], other)
    {
      MembersStep(list, n, other);
      assert Members(list[..n], other) + [] == Members(list[..n], other);
    }
    AddToGroups(list[..n], list[..n + 1], groups, key, group, n);
  }

  lemma AddToGroups(
    before: Instructions, after: Instructions, groups: map<string, seq<nat>>, key: string, group: seq<nat>, n: nat
  )
    requires HaveSyntaxes(before) && HaveSyntaxes(after) && AreGroups(before, groups)
    requires group == if key in groups then groups[key] else []
    requires forall other :: Members(after, other) ==
               if other == key then Members(before, other) + [n] else Members(before, other)
    ensures AreGroups(after, groups[key := group + [n]])
  {
    var next := groups[key := group + [n]];
    forall k: string
      ensures k in next <==> Members(after, k) != []
      ensures k in next ==> next[k] == Members(after, k)
    {
      OneGroup(before, after, groups, key, group, n, k);
    }
  }

  lemma OneGroup(
    before: Instructions, after: Instructions, groups: map<string, seq<nat>>, key: string, group: seq<nat>, n: nat,
    k: string
  )
    requires HaveSyntaxes(before) && HaveSyntaxes(after) && AreGroups(before, groups)
    requires group == if key in groups then groups[key] else []
    requires Members(after, k) == if k == key then Members(before, k) + [n] else Members(before, k)
    ensures var next := groups[key := group + [n]];
            (k in next <==> Members(after, k) != []) && (k in next ==> next[k] == Members(after, k))
  {
    assert k in groups <==> Members(before, k) != [];
  }

  lemma KeysAreAll(list: Instructions, groups: map<string, seq<nat>>)
    requires HaveSyntaxes(list)
    requires AreGroups(list, groups)
    ensures groups.Keys == AllKeys(list)
  {
    forall key: string
      ensures key in groups <==> key in AllKeys(list)
    {
      MembersAre(list, key);
      if Members(list, key) != [] {
        assert Members(list, key)[0] in Members(list, key);
      }
      if key in AllKeys(list) {
        var i :| 0 <= i < |list| && Key(list[i]) == key;
        assert i in Members(list, key);
      }
    }
  }

  lemma GroupIsUntouched(
    before: Instructions, now: Instructions, toRemove: set<nat>, keys: set<string>, key: string
  )
    requires HaveSyntaxes(before) && IsMergedFor(before, now, toRemove, keys) && key !in keys
    ensures var group := Members(before, key);
            && (forall k :: 0 <= k < |group| ==> group[k] < |before| && now[group[k]] == before[group[k]])
            && (forall j, k :: 0 <= j < k < |group| ==> group[j] < group[k])
  {
    var group := Members(before, key);
    MembersAre(before, key);
    forall k | 0 <= k < |group|
      ensures group[k] < |before| && now[group[k]] == before[group[k]]
    {
      assert group[k] in group;
    }
  }

  lemma OneMoreEquivalence(list: Instructions, keys: set<string>, key: string)
    requires HaveSyntaxes(list)
    ensures var group := Members(list, key);
            group != [] ==>
              (AreGroupsEquivalent(list, keys + {key}) <==>
               AreGroupsEquivalent(list, keys) &&
               forall k :: 1 <= k < |group| ==> AreEquivalent(list[group[0]], list[group[k]]))
  {
    var group := Members(list, key);
    MembersAre(list, key);
    if AreGroupsEquivalent(list, keys + {key}) {
      forall k | 1 <= k < |group|
        ensures AreEquivalent(list[group[0]], list[group[k]])
      {
        assert group[k] in group;
        assert IsGroupMemberEquivalent(list, Members(list, Key(list[group[k]])), group[k]);
      }
      forall i | 0 <= i < |list| && Key(list[i]) in keys
        ensures IsGroupMemberEquivalent(list, Members(list, Key(list[i])), i)
      {
      }
    }
    if group != [] && AreGroupsEquivalent(list, keys) &&
       forall k :: 1 <= k < |group| ==> AreEquivalent(list[group[0]], list[group[k]])
    {
      forall i | 0 <= i < |list| && Key(list[i]) in keys + {key}
        ensures IsGroupMemberEquivalent(list, Members(list, Key(list[i])), i)
      {
        if Key(list[i]) == key {
          assert i in group;
          var k :| 0 <= k < |group| && group[k] == i;
        }
      }
    }
  }

  lemma {:induction false} SurvivorsByIndex(list: Instructions, toRemove: set<nat>, flags: seq<bool>)
    requires |flags| == |list| && forall i :: 0 <= i < |list| ==> flags[i] == (i !in toRemove)
    ensures var indices := IndicesOf(flags);
            Survivors(list, toRemove) == seq(|indices|, k requires 0 <= k < |indices| => list[indices[k]])
  {
    if list != [] {
      var last := |list| - 1;
      SurvivorsByIndex(list[..last], toRemove, flags[..last]);
    }
  }

  lemma {:induction false} SurvivorsAreFirsts(before: Instructions, now: Instructions, toRemove: set<nat>)
    requires HaveSyntaxes(before) && IsMergedFor(before, now, toRemove, AllKeys(before))
    ensures Survivors(now, toRemove) == MergedInstructions(before)
  {
    SurvivorsByIndex(now, toRemove, FirstFlags(before));
    FirstsAre(before);
    forall k | 0 <= k < |Firsts(before)|
      ensures now[Firsts(before)[k]] == Merged(before, Firsts(before)[k])
    {
      assert Firsts(before)[k] in Firsts(before);
    }
  }

  // ---- The keys of the result -----------------------------------------------

  predicate HasNoTab(text: string) {
    forall i :: 0 <= i < |text| ==> text[i] != '\t'
  }

  predicate HaveNoTabs(list: Instructions) {
    forall i :: 0 <= i < |list| ==> HasNoTab(list[i].rawEncodingSpecification)
  }

  lemma {:induction false} ModesStartWithTab(operands: seq<InstructionOperand>)
    ensures ModesText(operands) == "" || ModesText(operands)[0] == '\t'
  {
    if operands != [] {
      var front := operands[..|operands| - 1];
      var text := ModeText(operands[|operands| - 1]);
      ModesStartWithTab(front);
      assert text == "" || text[0] == '\t';
      assert ModesText(front) == "" ==> ModesText(operands) == text;
    }
  }

  // The number of characters before the first tab.
  function BeforeTab(text: string): nat {
    if text == "" || text[0] == '\t' then 0 else 1 + BeforeTab(text[1..])
  }

  lemma {:induction false} TabIsFound(text: string, modes: string)
    requires HasNoTab(text) && (modes == "" || modes[0] == '\t')
    ensures BeforeTab(text + modes) == |text|
  {
    if text == "" {
      assert text + modes == modes;
    } else {
      assert (text + modes)[1..] == text[1..] + modes;
      TabIsFound(text[1..], modes);
    }
  }

  lemma SplitAtTab(first: string, second: string, firstModes: string, secondModes: string)
    requires HasNoTab(first) && HasNoTab(second) && first + firstModes == second + secondModes
    requires firstModes == "" || firstModes[0] == '\t'
    requires secondModes == "" || secondModes[0] == '\t'
    ensures first == second && firstModes == secondModes
  {
    TabIsFound(first, firstModes);
    TabIsFound(second, secondModes);
    SplitEqually(first, second, firstModes, secondModes);
  }

  function Modes(instruction: InstructionProto): string
    requires instruction.vendorSyntax != []
  {
    ModesText(Longest(instruction.vendorSyntax).operands)
  }

  lemma SameKeySameParts(first: InstructionProto, second: InstructionProto)
    requires first.vendorSyntax != [] && second.vendorSyntax != [] && Key(first) == Key(second)
    requires HasNoTab(first.rawEncodingSpecification) && HasNoTab(second.rawEncodingSpecification)
    ensures first.rawEncodingSpecification == second.rawEncodingSpecification && Modes(first) == Modes(second)
  {
    ModesStartWithTab(Longest(first.vendorSyntax).operands);
    ModesStartWithTab(Longest(second.vendorSyntax).operands);
    SplitAtTab(first.rawEncodingSpecification, second.rawEncodingSpecification, Modes(first), Modes(second));
  }

  // The first member whose longest syntax has the most operands.
  function Keeper(list: Instructions, members: seq<nat>): (keeper: nat)
    requires HaveSyntaxes(list) && members != []
    requires forall k :: 0 <= k < |members| ==> members[k] < |list|
    ensures keeper < |list| && keeper in members
  {
    var last := members[|members| - 1];
    if |members| == 1 then last
    else
      var keeper := Keeper(list, members[..|members| - 1]);
      if |Longest(list[last].vendorSyntax).operands| > |Longest(list[keeper].vendorSyntax).operands| then last else keeper
  }

  // The longest syntax of a group is the longest one of this member.
  lemma {:induction false} LongestOfGroup(list: Instructions, members: seq<nat>)
    requires HaveSyntaxes(list) && members != []
    requires forall k :: 0 <= k < |members| ==> members[k] < |list|
    ensures SyntaxesOf(list, members) != []
    ensures Longest(SyntaxesOf(list, members)) == Longest(list[Keeper(list, members)].vendorSyntax)
    decreases |members|
  {
    var last := |members| - 1;
    var syntaxes := list[members[last]].vendorSyntax;
    if last == 0 {
      assert members[..0] == [] && [] + syntaxes == syntaxes;
    } else {
      LongestOfGroup(list, members[..last]);
      LongestOfBoth(SyntaxesOf(list, members[..last]), syntaxes);
    }
  }

  // The member that keeps the longest syntax has the raw specification of the first
  // one. It has, unless a raw specification contains tabs.
  predicate KeepsKey(list: Instructions, i: nat)
    requires HaveSyntaxes(list) && i < |list|
  {
    var members := Members(list, Key(list[i]));
    members != [] ==>
      list[Keeper(list, members)].rawEncodingSpecification == list[i].rawEncodingSpecification
  }

  predicate KeepsKeys(list: Instructions)
    requires HaveSyntaxes(list)
  {
    forall i :: 0 <= i < |list| ==> KeepsKey(list, i)
  }

  lemma SameWholeSameParts(first: string, second: string, firstRest: string, secondRest: string)
    requires first + firstRest == second + secondRest
    ensures first == second <==> firstRest == secondRest
  {
    if first == second || firstRest == secondRest {
      SplitEqually(first, second, firstRest, secondRest);
    }
  }

  lemma PartsDecide(first: string, a: string, b: string)
    ensures first + a == first + b <==> a == b
  {
    DropFront(first, a);
    DropFront(first, b);
  }

  // A merged instruction has the key of its group exactly when the specifications
  // agree.
  lemma KeyIsKept(list: Instructions, i: nat)
    requires HaveSyntaxes(list) && i < |list|
    ensures Merged(list, i).vendorSyntax != []
    ensures Key(Merged(list, i)) == Key(list[i]) <==> KeepsKey(list, i)
  {
    var members := Members(list, Key(list[i]));
    GroupStartsWithFirst(list, i);
    MembersAre(list, Key(list[i]));
    var keeper := Keeper(list, members);
    LongestOfGroup(list, members);
    var raw := list[i].rawEncodingSpecification;
    SameWholeSameParts(list[keeper].rawEncodingSpecification, raw, Modes(list[keeper]), Modes(list[i]));
    PartsDecide(raw, Modes(list[keeper]), Modes(list[i]));
  }

  lemma NoTabsKeepKeys(list: Instructions)
    requires HaveSyntaxes(list) && HaveNoTabs(list)
    ensures KeepsKeys(list)
  {
    forall i | 0 <= i < |list|
      ensures KeepsKey(list, i)
    {
      MembersAre(list, Key(list[i]));
      var members := Members(list, Key(list[i]));
      if members != [] {
        SameKeySameParts(list[Keeper(list, members)], list[i]);
      }
    }
  }

  predicate HaveDistinctKeys(list: Instructions)
    requires HaveSyntaxes(list)
  {
    forall j, k :: 0 <= j < k < |list| ==> Key(list[j]) != Key(list[k])
  }

  lemma MergedHaveSyntaxes(list: Instructions)
    requires HaveSyntaxes(list)
    ensures HaveSyntaxes(MergedInstructions(list))
  {
    forall k | 0 <= k < |MergedInstructions(list)|
      ensures MergedInstructions(list)[k].vendorSyntax != []
    {
      KeyIsKept(list, Firsts(list)[k]);
    }
  }

  // The key of a group after the merge: the specification of the first member with
  // the addressing modes of the one that keeps the longest syntax.
  function NewKey(list: Instructions, i: nat): string
    requires HaveSyntaxes(list) && i < |list|
  {
    GroupStartsWithFirst(list, i);
    list[i].rawEncodingSpecification + Modes(list[Keeper(list, Members(list, Key(list[i])))])
  }

  lemma KeyOfMerged(list: Instructions, i: nat)
    requires HaveSyntaxes(list) && i < |list|
    ensures Merged(list, i).vendorSyntax != [] && Key(Merged(list, i)) == NewKey(list, i)
  {
    GroupStartsWithFirst(list, i);
    LongestOfGroup(list, Members(list, Key(list[i])));
  }

  predicate HaveDistinctNewKeys(list: Instructions)
    requires HaveSyntaxes(list)
  {
    forall i, j :: 0 <= i < j < |list| && IsFirst(list, i) && IsFirst(list, j) ==> NewKey(list, i) != NewKey(list, j)
  }

  lemma KeyOfSurvivor(list: Instructions, k: nat)
    requires HaveSyntaxes(list) && HaveSyntaxes(MergedInstructions(list)) && k < |Firsts(list)|
    ensures IsFirst(list, Firsts(list)[k]) && Key(MergedInstructions(list)[k]) == NewKey(list, Firsts(list)[k])
  {
    FirstsAre(list);
    assert Firsts(list)[k] in Firsts(list);
    KeyOfMerged(list, Firsts(list)[k]);
  }

  lemma PositionOfFirst(list: Instructions, i: nat) returns (p: nat)
    requires HaveSyntaxes(list) && i < |list| && IsFirst(list, i)
    ensures p < |Firsts(list)| && Firsts(list)[p] == i
  {
    FirstsAre(list);
    assert i in Firsts(list);
    p :| 0 <= p < |Firsts(list)| && Firsts(list)[p] == i;
  }

  lemma SurvivorsDiffer(list: Instructions, p: nat, q: nat)
    requires HaveSyntaxes(list) && HaveSyntaxes(MergedInstructions(list))
    requires HaveDistinctKeys(MergedInstructions(list))
    requires p != q && p < |Firsts(list)| && q < |Firsts(list)|
    ensures NewKey(list, Firsts(list)[p]) != NewKey(list, Firsts(list)[q])
  {
    KeyOfSurvivor(list, p);
    KeyOfSurvivor(list, q);
    var merged := MergedInstructions(list);
    assert Key(merged[if p < q then p else q]) != Key(merged[if p < q then q else p]);
  }

  lemma MergedKeysAreDistinct(list: Instructions)
    requires HaveSyntaxes(list)
    ensures HaveSyntaxes(MergedInstructions(list))
    ensures HaveDistinctKeys(MergedInstructions(list)) <==> HaveDistinctNewKeys(list)
  {
    MergedHaveSyntaxes(list);
    if HaveDistinctKeys(MergedInstructions(list)) {
      forall i, j | 0 <= i < j < |list| && IsFirst(list, i) && IsFirst(list, j)
        ensures NewKey(list, i) != NewKey(list, j)
      {
        var p := PositionOfFirst(list, i);
        var q := PositionOfFirst(list, j);
        SurvivorsDiffer(list, p, q);
      }
    } else {
      var p, q :| 0 <= p < q < |MergedInstructions(list)| &&
                  Key(MergedInstructions(list)[p]) == Key(MergedInstructions(list)[q]);
      FirstsAre(list);
      KeyOfSurvivor(list, p);
      KeyOfSurvivor(list, q);
    }
  }

  // Kept keys are enough.
  lemma KeptKeysAreDistinct(list: Instructions)
    requires HaveSyntaxes(list) && KeepsKeys(list)
    ensures HaveDistinctNewKeys(list)
  {
    forall i | 0 <= i < |list|
      ensures NewKey(list, i) == Key(list[i])
    {
      assert KeepsKey(list, i);
      KeyIsKept(list, i);
      KeyOfMerged(list, i);
    }
  }

  // Merging changes nothing exactly when there is nothing to merge.
  lemma UnchangedIsDistinct(list: Instructions)
    requires HaveSyntaxes(list)
    ensures MergedInstructions(list) == list <==> HaveDistinctKeys(list)
  {
    if HaveDistinctKeys(list) {
      DistinctIsUnchanged(list);
    }
    if MergedInstructions(list) == list {
      FirstsAre(list);
      FullIsIdentity(Firsts(list));
      forall j, k | 0 <= j < k < |list|
        ensures Key(list[j]) != Key(list[k])
      {
        assert Firsts(list)[k] in Firsts(list);
      }
    }
  }

  // Increasing numbers below n, n of them.
  lemma FullIsIdentity(indices: seq<nat>)
    requires forall k :: 0 <= k < |indices| ==> indices[k] < |indices|
    requires forall j, k :: 0 <= j < k < |indices| ==> indices[j] < indices[k]
    ensures forall k :: 0 <= k < |indices| ==> indices[k] == k
  {
    forall k | 0 <= k < |indices|
      ensures indices[k] == k
    {
      AtLeast(indices, k);
      AtMost(indices, k);
    }
  }

  lemma {:induction false} AtLeast(indices: seq<nat>, k: nat)
    requires k < |indices| && forall i, j :: 0 <= i < j < |indices| ==> indices[i] < indices[j]
    ensures indices[k] >= k
  {
    if k > 0 {
      AtLeast(indices, k - 1);
    }
  }

  lemma {:induction false} AtMost(indices: seq<nat>, k: nat)
    requires k < |indices| && forall i, j :: 0 <= i < j < |indices| ==> indices[i] < indices[j]
    requires forall i :: 0 <= i < |indices| ==> indices[i] < |indices|
    ensures indices[k] <= k
    decreases |indices| - k
  {
    if k + 1 < |indices| {
      AtMost(indices, k + 1);
    }
  }

  lemma DistinctIsUnchanged(list: Instructions)
    requires HaveSyntaxes(list) && HaveDistinctKeys(list)
    ensures MergedInstructions(list) == list
  {
    FirstsAre(list);
    AllIndices(Firsts(list), |list|);
    forall i | 0 <= i < |list|
      ensures Merged(list, i) == list[i]
    {
      AloneInGroup(list, i);
    }
  }

  lemma AloneInGroup(list: Instructions, i: nat)
    requires HaveSyntaxes(list) && i < |list|
    requires forall j :: 0 <= j < |list| && j != i ==> Key(list[j]) != Key(list[i])
    ensures Members(list, Key(list[i])) == [i] && Merged(list, i) == list[i]
  {
    IndicesOfOne(seq(|list|, j requires 0 <= j < |list| => Key(list[j]) == Key(list[i])), i);
    assert [i][..0] == [] && [] + list[i].vendorSyntax == list[i].vendorSyntax;
    assert SyntaxesOf(list, [i]) == list[i].vendorSyntax;
  }

  lemma {:induction false} AllIndices(indices: seq<nat>, n: nat)
    requires forall i :: i in indices <==> 0 <= i < n
    requires forall j, k :: 0 <= j < k < |indices| ==> indices[j] < indices[k]
    ensures |indices| == n && forall k :: 0 <= k < n ==> indices[k] == k
    decreases n
  {
    assert indices != [] ==> indices[0] in indices;
    if n > 0 {
      assert n - 1 in indices;
      var last, front := |indices| - 1, indices[..|indices| - 1];
      assert indices[last] in indices;
      var k :| 0 <= k < |indices| && indices[k] == n - 1;
      assert k == last;
      forall i
        ensures i in front <==> 0 <= i < n - 1
      {
        if 0 <= i < n - 1 {
          assert i in indices;
        }
        if i in front {
          assert i in indices;
        }
      }
      AllIndices(front, n - 1);
      assert forall j :: 0 <= j < last ==> indices[j] == front[j];
    }
  }

  // A second merge changes nothing exactly when the keys of the groups differ after
  // the first one, as they do when it keeps them.
  lemma MergeIsIdempotent(list: Instructions)
    requires HaveSyntaxes(list)
    ensures HaveSyntaxes(MergedInstructions(list))
    ensures MergedInstructions(MergedInstructions(list)) == MergedInstructions(list) <==> HaveDistinctNewKeys(list)
    ensures KeepsKeys(list) ==> HaveDistinctNewKeys(list)
  {
    MergedKeysAreDistinct(list);
    UnchangedIsDistinct(MergedInstructions(list));
    if KeepsKeys(list) {
      KeptKeysAreDistinct(list);
    }
  }

  // ---- What the keys and the comparison mean --------------------------------

  // The addressing modes of the operands in modrm.rm.
  function RmModes(operands: seq<InstructionOperand>): seq<OperandAddressingMode> {
    if operands == [] then []
    else (if operands[0].encoding == ModRmRmEncoding then [operands[0].addressingMode] else []) + RmModes(operands[1..])
  }

  function TextOfModes(modes: seq<OperandAddressingMode>): string {
    if modes == [] then "" else "\t" + (Generator.DecimalText(modes[0].Number()) + TextOfModes(modes[1..]))
  }

  lemma {:induction false} ModesOfBoth(first: seq<OperandAddressingMode>, second: seq<OperandAddressingMode>)
    ensures TextOfModes(first + second) == TextOfModes(first) + TextOfModes(second)
  {
    if first == [] {
      assert [] + second == second;
    } else {
      var number := Generator.DecimalText(first[0].Number());
      ModesOfBoth(first[1..], second);
      assert (first + second)[0] == first[0] && (first + second)[1..] == first[1..] + second;
      Associate(number, TextOfModes(first[1..]), TextOfModes(second));
      Associate("\t", number + TextOfModes(first[1..]), TextOfModes(second));
    }
  }

  lemma {:induction false} RmModesOfBoth(first: seq<InstructionOperand>, second: seq<InstructionOperand>)
    ensures RmModes(first + second) == RmModes(first) + RmModes(second)
  {
    if first == [] {
      assert [] + second == second;
    } else {
      var mode := if first[0].encoding.ModRmRmEncoding? then [first[0].addressingMode] else [];
      RmModesOfBoth(first[1..], second);
      assert (first + second)[0] == first[0] && (first + second)[1..] == first[1..] + second;
      Associate(mode, RmModes(first[1..]), RmModes(second));
    }
  }

  lemma {:induction false} ModesTextIsOfModes(operands: seq<InstructionOperand>)
    ensures ModesText(operands) == TextOfModes(RmModes(operands))
  {
    if operands != [] {
      var front, last := operands[..|operands| - 1], operands[|operands| - 1];
      ModesTextIsOfModes(front);
      RmModesOfBoth(front, [last]);
      assert operands == front + [last];
      ModesOfBoth(RmModes(front), RmModes([last]));
      ModeIsOne(last);
    }
  }

  lemma ModeIsOne(operand: InstructionOperand)
    ensures TextOfModes(RmModes([operand])) == ModeText(operand)
  {
    assert [operand][1..] == [];
    if operand.encoding.ModRmRmEncoding? {
      var mode := operand.addressingMode;
      assert RmModes([operand]) == [mode];
      assert [mode][1..] == [];
      assert Generator.DecimalText(mode.Number()) + "" == Generator.DecimalText(mode.Number());
    }
  }

  lemma {:induction false} DecimalHasNoTab(n: nat)
    ensures HasNoTab(Generator.DecimalText(n))
  {
    if n >= 10 {
      DecimalHasNoTab(n / 10);
    }
  }

  lemma {:induction false} DecimalIsInjective(m: nat, n: nat)
    requires Generator.DecimalText(m) == Generator.DecimalText(n)
    ensures m == n
    decreases m
  {
    if m >= 10 && n >= 10 {
      var first, second := Generator.DecimalText(m / 10), Generator.DecimalText(n / 10);
      SplitEqually(first, second, [Generator.DecimalDigit(m % 10)], [Generator.DecimalDigit(n % 10)]);
      DecimalIsInjective(m / 10, n / 10);
      DigitIsInjective(m % 10, n % 10);
    } else if m < 10 && n < 10 {
      assert [Generator.DecimalDigit(m)][0] == [Generator.DecimalDigit(n)][0];
      DigitIsInjective(m, n);
    }
  }

  lemma DigitIsInjective(m: nat, n: nat)
    requires m < 10 && n < 10 && Generator.DecimalDigit(m) == Generator.DecimalDigit(n)
    ensures m == n
  {
  }

  lemma NumbersDiffer(first: OperandAddressingMode, second: OperandAddressingMode)
    ensures first.Number() == second.Number() <==> first == second
  {
  }

  lemma {:induction false} TextsOfModesDiffer(first: seq<OperandAddressingMode>, second: seq<OperandAddressingMode>)
    requires TextOfModes(first) == TextOfModes(second)
    ensures first == second
  {
    if first != [] && second != [] {
      var one, other := Generator.DecimalText(first[0].Number()), Generator.DecimalText(second[0].Number());
      DropFront("\t", one + TextOfModes(first[1..]));
      DropFront("\t", other + TextOfModes(second[1..]));
      DecimalHasNoTab(first[0].Number());
      DecimalHasNoTab(second[0].Number());
      SplitAtTab(one, other, TextOfModes(first[1..]), TextOfModes(second[1..]));
      DecimalIsInjective(first[0].Number(), second[0].Number());
      NumbersDiffer(first[0], second[0]);
      TextsOfModesDiffer(first[1..], second[1..]);
    }
  }

  // Without tabs in the raw specifications two instructions are merged exactly when
  // they have the same raw specification and, in the syntax with the most operands,
  // the same addressing modes of the operands in modrm.rm.
  lemma KeysMean(first: InstructionProto, second: InstructionProto)
    requires first.vendorSyntax != [] && second.vendorSyntax != []
    requires HasNoTab(first.rawEncodingSpecification) && HasNoTab(second.rawEncodingSpecification)
    ensures Key(first) == Key(second) <==>
            && first.rawEncodingSpecification == second.rawEncodingSpecification
            && RmModes(Longest(first.vendorSyntax).operands) == RmModes(Longest(second.vendorSyntax).operands)
  {
    ModesTextIsOfModes(Longest(first.vendorSyntax).operands);
    ModesTextIsOfModes(Longest(second.vendorSyntax).operands);
    if Key(first) == Key(second) {
      SameKeySameParts(first, second);
      TextsOfModesDiffer(RmModes(Longest(first.vendorSyntax).operands), RmModes(Longest(second.vendorSyntax).operands));
    }
  }

  // Descriptions, encoding schemes and syntaxes are not compared, everything else is.
  lemma {:induction false} EquivalenceMeans(first: InstructionProto, second: InstructionProto)
    ensures AreEquivalent(first, second) <==>
            && first.llvmMnemonic == second.llvmMnemonic && first.featureName == second.featureName
            && first.availableIn64Bit == second.availableIn64Bit
            && first.legacyInstruction == second.legacyInstruction
            && first.protectionMode == second.protectionMode
            && first.rawEncodingSpecification == second.rawEncodingSpecification
            && first.implicitInputOperands == second.implicitInputOperands
            && first.implicitOutputOperands == second.implicitOutputOperands
            && first.x86EncodingSpecification == second.x86EncodingSpecification
            && first.instructionGroupIndex == second.instructionGroupIndex
            && |first.leafInstructions| == |second.leafInstructions|
            && forall k :: 0 <= k < |first.leafInstructions| ==>
                 AreEquivalent(first.leafInstructions[k], second.leafInstructions[k])
  {
    var a, b := ComparedFields(first).leafInstructions, ComparedFields(second).leafInstructions;
    assert |a| == |first.leafInstructions| && |b| == |second.leafInstructions|;
    assert forall k :: 0 <= k < |a| ==> a[k] == ComparedFields(first.leafInstructions[k]);
    assert forall k :: 0 <= k < |b| ==> b[k] == ComparedFields(second.leafInstructions[k]);
    if AreEquivalent(first, second) {
      assert a == b;
    }
  }

  // ---- A tab in a specification ---------------------------------------------

  const MODE: InstructionOperand := NO_OPERAND.(addressingMode := DirectAddressing, encoding := ModRmRmEncoding)

  function WithModes(raw: string, operands: seq<InstructionOperand>): InstructionProto {
    NO_INSTRUCTION.(rawEncodingSpecification := raw, vendorSyntax := [InstructionFormat("", operands)])
  }

  // The first two have the same key, with the tab in different parts; the third one
  // has the key that the first one gets when it is merged.
  function TabbedInstructions(): Instructions {
    [WithModes("x" + ModeText(MODE), [MODE]), WithModes("x", [MODE, MODE]), WithModes("x" + ModeText(MODE), [MODE, MODE])]
  }

  lemma TabbedKeys()
    ensures var mode, list := ModeText(MODE), TabbedInstructions();
            && Key(list[0]) == Key(list[1]) == "x" + mode + mode
            && Key(list[2]) == "x" + mode + mode + mode && mode != ""
            && ModesText([MODE, MODE]) == mode + mode
  {
    var mode := ModeText(MODE);
    assert [MODE, MODE][..1] == [MODE] && [MODE][..0] == [];
    assert ModesText([MODE][..0]) == "";
    assert ModesText([MODE]) == "" + mode == mode;
    assert ModesText([MODE, MODE]) == mode + mode;
    Associate("x", mode, mode);
    Associate("x" + mode, mode, mode);
  }

  lemma TabsBreakTheMerge()
    ensures var list := TabbedInstructions();
            && HaveSyntaxes(list) && !KeepsKey(list, 0)
            && HaveSyntaxes(MergedInstructions(list))
            && MergedInstructions(MergedInstructions(list)) != MergedInstructions(list)
  {
    var list := TabbedInstructions();
    TabbedNewKeys();
    MergeIsIdempotent(list);
    assert IsFirst(list, 0) && IsFirst(list, 2) && NewKey(list, 0) == NewKey(list, 2);
  }

  // A group that gets the key of an instruction that is alone in its group.
  lemma GetsKeyOf(list: Instructions, i: nat, j: nat)
    requires HaveSyntaxes(list) && i < |list| && j < |list| && Key(list[i]) != Key(list[j])
    requires Merged(list, i).vendorSyntax != [] && Key(Merged(list, i)) == Key(list[j])
    requires forall k :: 0 <= k < |list| && k != j ==> Key(list[k]) != Key(list[j])
    ensures NewKey(list, i) == NewKey(list, j) && !KeepsKey(list, i)
  {
    KeyIsKept(list, i);
    KeyOfMerged(list, i);
    AloneInGroup(list, j);
    KeyOfMerged(list, j);
  }

  lemma TabbedFirsts()
    ensures var list := TabbedInstructions();
            && HaveSyntaxes(list) && IsFirst(list, 0) && IsFirst(list, 2)
            && forall k :: 0 <= k < 2 ==> Key(list[k]) != Key(list[2])
  {
    var list := TabbedInstructions();
    TabbedKeys();
    assert |Key(list[0])| < |Key(list[2])|;
  }

  lemma TabbedNewKeys()
    ensures var list := TabbedInstructions();
            && HaveSyntaxes(list) && IsFirst(list, 0) && IsFirst(list, 2)
            && NewKey(list, 0) == NewKey(list, 2) && !KeepsKey(list, 0)
  {
    TabbedFirsts();
    TabbedMerge();
    GetsKeyOf(TabbedInstructions(), 0, 2);
  }

  lemma MembersOfTabbed()
    ensures HaveSyntaxes(TabbedInstructions())
    ensures var list := TabbedInstructions(); Members(list, Key(list[0])) == [0, 1]
  {
    var list := TabbedInstructions();
    TabbedKeys();
    assert |Key(list[0])| < |Key(list[2])|;
    MembersAre(list, Key(list[0]));
    var members := Members(list, Key(list[0]));
    assert forall i :: i in members <==> 0 <= i < 2;
    AllIndices(members, 2);
  }

  lemma TabbedMerge()
    ensures HaveSyntaxes(TabbedInstructions())
    ensures var list := TabbedInstructions();
            Merged(list, 0).vendorSyntax != [] && Key(Merged(list, 0)) == Key(list[2])
  {
    var list := TabbedInstructions();
    MembersOfTabbed();
    LongestOfGroup(list, [0, 1]);
    assert [0, 1][..1] == [0];
    assert Keeper(list, [0]) == 0;
    assert Keeper(list, [0, 1]) == 1;
  }

  // ---- No syntax is lost ----------------------------------------------------

  function AllSyntaxes(list: Instructions): seq<InstructionFormat> {
    if list == [] then [] else AllSyntaxes(list[..|list| - 1]) + list[|list| - 1].vendorSyntax
  }

  lemma {:induction false} AppendSyntaxesAt(list: Instructions, p: nat, syntaxes: seq<InstructionFormat>)
    requires p < |list|
    ensures multiset(AllSyntaxes(list[p := list[p].(vendorSyntax := list[p].vendorSyntax + syntaxes)])) ==
            multiset(AllSyntaxes(list)) + multiset(syntaxes)
    decreases |list|
  {
    var last := |list| - 1;
    var after := list[p := list[p].(vendorSyntax := list[p].vendorSyntax + syntaxes)];
    if p < last {
      AppendSyntaxesAt(list[..last], p, syntaxes);
      assert after[..last] == list[..last][p := after[p]];
      assert after[last] == list[last];
    } else {
      assert after[..last] == list[..last];
      assert AllSyntaxes(after) == AllSyntaxes(list[..last]) + (list[last].vendorSyntax + syntaxes);
    }
  }

  lemma {:induction false} SyntaxesOfFront(list: Instructions, n: nat, indices: seq<nat>)
    requires n <= |list| && forall k :: 0 <= k < |indices| ==> indices[k] < n
    ensures SyntaxesOf(list, indices) == SyntaxesOf(list[..n], indices)
    decreases |indices|
  {
    if indices != [] {
      SyntaxesOfFront(list, n, indices[..|indices| - 1]);
    }
  }

  lemma {:induction false} IndicesStep(flags: seq<bool>, before: seq<bool>, n: nat)
    requires |flags| == n + 1 && |before| == n && forall i :: 0 <= i < n ==> flags[i] == before[i]
    ensures IndicesOf(flags) == IndicesOf(before) + if flags[n] then [n] else []
  {
    assert flags[..n] == before;
  }

  lemma FirstOfFront(list: Instructions, n: nat, i: nat)
    requires HaveSyntaxes(list) && i < n <= |list|
    ensures IsFirst(list[..n], i) <==> IsFirst(list, i)
  {
    assert forall j :: 0 <= j <= i ==> list[..n][j] == list[j];
  }

  lemma FirstsStep(list: Instructions)
    requires HaveSyntaxes(list) && list != []
    ensures var last := |list| - 1;
            Firsts(list) == Firsts(list[..last]) + if IsFirst(list, last) then [last] else []
  {
    var last := |list| - 1;
    forall i | 0 <= i < last
      ensures FirstFlags(list)[i] == FirstFlags(list[..last])[i]
    {
      FirstOfFront(list, last, i);
    }
    IndicesStep(FirstFlags(list), FirstFlags(list[..last]), last);
  }

  lemma MergedStep(list: Instructions, i: nat)
    requires HaveSyntaxes(list) && i < |list| - 1
    ensures var last := |list| - 1;
            Merged(list, i) ==
            var before := Merged(list[..last], i);
            if Key(list[last]) == Key(list[i]) then
              before.(vendorSyntax := before.vendorSyntax + list[last].vendorSyntax)
            else before
  {
    var last := |list| - 1;
    SyntaxesStep(list, last, Key(list[i]));
    assert list[..last][i] == list[i];
    assert Merged(list[..last], i).vendorSyntax == SyntaxesOf(list[..last], Members(list[..last], Key(list[i])));
  }

  // The syntaxes of a group after one more instruction.
  lemma {:induction false} SyntaxesStep(list: Instructions, last: nat, key: string)
    requires HaveSyntaxes(list) && last == |list| - 1
    ensures var before := SyntaxesOf(list[..last], Members(list[..last], key));
            SyntaxesOf(list, Members(list, key)) ==
            if Key(list[last]) == key then before + list[last].vendorSyntax else before
  {
    var members := Members(list[..last], key);
    MembersStep(list, last, key);
    assert list[..last + 1] == list;
    SyntaxesOfFront(list, last, members);
    if Key(list[last]) == key {
      OneMoreSyntaxList(list, members, last);
    } else {
      assert members + [] == members;
    }
  }

  lemma {:induction false} OneMoreSyntaxList(list: Instructions, members: seq<nat>, last: nat)
    requires last < |list| && forall k :: 0 <= k < |members| ==> members[k] < |list|
    ensures SyntaxesOf(list, members + [last]) == SyntaxesOf(list, members) + list[last].vendorSyntax
  {
    assert (members + [last])[..|members|] == members;
  }

  // The syntaxes of the result are the ones of the input, each as often.
  lemma {:induction false} SyntaxesAreConserved(list: Instructions)
    requires HaveSyntaxes(list)
    ensures multiset(AllSyntaxes(MergedInstructions(list))) == multiset(AllSyntaxes(list))
    decreases |list|
  {
    if list == [] {
      assert MergedInstructions(list) == [];
    } else {
      var last := |list| - 1;
      SyntaxesAreConserved(list[..last]);
      FirstsStep(list);
      if IsFirst(list, last) {
        NewGroup(list);
      } else {
        OldGroup(list);
      }
    }
  }

  lemma NewGroup(list: Instructions)
    requires HaveSyntaxes(list) && list != [] && IsFirst(list, |list| - 1)
    ensures MergedInstructions(list) == MergedInstructions(list[..|list| - 1]) + [list[|list| - 1]]
  {
    var last := |list| - 1;
    var front := list[..last];
    FirstsStep(list);
    AloneInGroup(list, last);
    forall k | 0 <= k < |Firsts(front)|
      ensures MergedInstructions(list)[k] == MergedInstructions(front)[k]
    {
      assert Firsts(list)[k] == Firsts(front)[k];
      MergedStep(list, Firsts(front)[k]);
    }
    Extended(MergedInstructions(list), MergedInstructions(front), list[last]);
  }

  lemma Extended<T>(all: seq<T>, front: seq<T>, last: T)
    requires |all| == |front| + 1 && all[|front|] == last
    requires forall k :: 0 <= k < |front| ==> all[k] == front[k]
    ensures all == front + [last]
  {
  }

  lemma OldGroup(list: Instructions)
    requires HaveSyntaxes(list) && list != [] && !IsFirst(list, |list| - 1)
    ensures multiset(AllSyntaxes(MergedInstructions(list))) ==
            multiset(AllSyntaxes(MergedInstructions(list[..|list| - 1]))) + multiset(list[|list| - 1].vendorSyntax)
  {
    var last := |list| - 1;
    var before, syntaxes := MergedInstructions(list[..last]), list[last].vendorSyntax;
    var p := PositionOfGroup(list);
    AppendToGroup(list, p);
    assert MergedInstructions(list) == before[p := before[p].(vendorSyntax := before[p].vendorSyntax + syntaxes)];
    AppendSyntaxesAt(before, p, syntaxes);
  }

  // The place of the group of the last instruction among the groups before it.
  lemma PositionOfGroup(list: Instructions) returns (p: nat)
    requires HaveSyntaxes(list) && list != [] && !IsFirst(list, |list| - 1)
    ensures Firsts(list) == Firsts(list[..|list| - 1])
    ensures p < |Firsts(list)| && Key(list[Firsts(list)[p]]) == Key(list[|list| - 1])
  {
    var last := |list| - 1;
    FirstsStep(list);
    assert Firsts(list) == Firsts(list[..last]) + [] == Firsts(list[..last]);
    FirstsAre(list);
    GroupStartsWithFirst(list, last);
    var first := Members(list, Key(list[last]))[0];
    assert first in Firsts(list);
    p :| 0 <= p < |Firsts(list)| && Firsts(list)[p] == first;
  }

  lemma AppendToGroup(list: Instructions, p: nat)
    requires HaveSyntaxes(list) && list != [] && Firsts(list) == Firsts(list[..|list| - 1])
    requires p < |Firsts(list)| && Key(list[Firsts(list)[p]]) == Key(list[|list| - 1])
    ensures var before := MergedInstructions(list[..|list| - 1]);
            forall k :: 0 <= k < |before| ==>
              MergedInstructions(list)[k] ==
              if k == p then before[p].(vendorSyntax := before[p].vendorSyntax + list[|list| - 1].vendorSyntax)
              else before[k]
  {
    var firsts := Firsts(list);
    forall k | 0 <= k < |firsts|
      ensures Key(list[firsts[k]]) == Key(list[|list| - 1]) <==> k == p
    {
      FirstsHaveDistinctKeys(list, k, p);
    }
    forall k | 0 <= k < |firsts|
      ensures MergedInstructions(list)[k] == Merged(list, firsts[k])
      ensures MergedInstructions(list[..|list| - 1])[k] == Merged(list[..|list| - 1], firsts[k])
      ensures firsts[k] < |list| - 1
    {
    }
    forall k | 0 <= k < |firsts| {
      MergedStep(list, firsts[k]);
    }
  }

  lemma FirstsHaveDistinctKeys(list: Instructions, j: nat, k: nat)
    requires HaveSyntaxes(list) && j < |Firsts(list)| && k < |Firsts(list)|
    ensures Key(list[Firsts(list)[j]]) == Key(list[Firsts(list)[k]]) <==> j == k
  {
    FirstsAre(list);
    assert Firsts(list)[j] in Firsts(list) && Firsts(list)[k] in Firsts(list);
    assert IsFirst(list, Firsts(list)[j]) && IsFirst(list, Firsts(list)[k]);
  }
}
