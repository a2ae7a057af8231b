// Removing the groups without instructions and numbering the others in the order
// of their keys (exegesis/x86/cleanup_instruction_set_removals.cc).
module InstructionGroups {
  import opened X86Protos
  import opened Comparisons

  datatype InstructionGroup = InstructionGroup(
    name: string, shortDescription: string, description: string, flagsAffected: seq<string>
  )

  function MakeKey(group: InstructionGroup): string {
    group.name + "-" + group.shortDescription
  }

  // ---- Renumbering ----------------------------------------------------------

  predicate HasValidIndices(groups: seq<InstructionGroup>, instructions: seq<InstructionProto>) {
    forall i :: 0 <= i < |instructions| ==> 0 <= instructions[i].instructionGroupIndex < |groups|
  }

  function KeyOf(groups: seq<InstructionGroup>, instruction: InstructionProto): string
    requires 0 <= instruction.instructionGroupIndex < |groups|
  {
    MakeKey(groups[instruction.instructionGroupIndex])
  }

  // What the CHECK demands: instructions whose groups have the same key are in the
  // same group.
  predicate IsConsistent(groups: seq<InstructionGroup>, instructions: seq<InstructionProto>)
    requires HasValidIndices(groups, instructions)
  {
    forall i, j :: 0 <= i < |instructions| && 0 <= j < |instructions| &&
                   KeyOf(groups, instructions[i]) == KeyOf(groups, instructions[j]) ==>
      instructions[i].instructionGroupIndex == instructions[j].instructionGroupIndex
  }

  // An entry of the map: the members are among the first n instructions.
  predicate IsEntry(
    groups: seq<InstructionGroup>, instructions: seq<InstructionProto>, n: nat, key: string, members: seq<nat>
  )
    requires n <= |instructions| && HasValidIndices(groups, instructions)
  {
    && members != []
    && forall k :: 0 <= k < |members| ==> members[k] < n && KeyOf(groups, instructions[members[k]]) == key
  }

  // The instruction is in the entry of its key.
  predicate IsMember(
    groups: seq<InstructionGroup>, instruction: InstructionProto, i: nat,
    keys: seq<string>, groupOf: map<string, InstructionGroup>, members: map<string, seq<nat>>
  )
    requires 0 <= instruction.instructionGroupIndex < |groups|
  {
    var key := KeyOf(groups, instruction);
    && key in keys && key in groupOf && key in members
    && groupOf[key] == groups[instruction.instructionGroupIndex]
    && i in members[key]
  }

  // The sorted map of the groups of the first n instructions.
  predicate IsGroupMap(
    groups: seq<InstructionGroup>, instructions: seq<InstructionProto>, n: nat,
    keys: seq<string>, groupOf: map<string, InstructionGroup>, members: map<string, seq<nat>>
  )
    requires n <= |instructions| && HasValidIndices(groups, instructions)
  {
    && AreIncreasing(CompareStrings, keys)
    && (forall key :: key in keys ==>
          key in groupOf && key in members && IsEntry(groups, instructions, n, key, members[key]))
    && (forall i :: 0 <= i < n ==> IsMember(groups, instructions[i], i, keys, groupOf, members))
  }

  class InstructionSet {
    var instructionGroups: seq<InstructionGroup>
    var instructions: seq<InstructionProto>

    constructor (instructionGroups: seq<InstructionGroup>, instructions: seq<InstructionProto>)
      ensures this.instructionGroups == instructionGroups && this.instructions == instructions
    {
      this.instructionGroups := instructionGroups;
      this.instructions := instructions;
    }

    // Every instruction stays in its group; every group that is left has an
    // instruction; the groups are in the strictly increasing order of their keys.
    method RemoveEmptyInstructionGroups()
      requires HasValidIndices(instructionGroups, instructions)
      requires IsConsistent(instructionGroups, instructions)
      modifies this
      ensures HasValidIndices(instructionGroups, instructions) && |instructions| == |old(instructions)|
      ensures forall i :: 0 <= i < |instructions| ==>
                && instructions[i] ==
                   old(instructions)[i].(instructionGroupIndex := instructions[i].instructionGroupIndex)
                && instructionGroups[instructions[i].instructionGroupIndex] ==
                   old(instructionGroups)[old(instructions)[i].instructionGroupIndex]
      ensures forall g :: 0 <= g < |instructionGroups| ==> HasInstruction(instructions, g)
      ensures forall g, h :: 0 <= g < h < |instructionGroups| ==>
                CompareStrings(MakeKey(instructionGroups[g]), MakeKey(instructionGroups[h])) < 0
    {
      ghost var groups, before := instructionGroups, instructions;
      var keys, groupOf, members := GroupInstructions();
      instructionGroups := [];
      for g := 0 to |keys|
        invariant |instructionGroups| == g && |instructions| == |before|
        invariant forall h :: 0 <= h < g ==> instructionGroups[h] == groupOf[keys[h]]
        invariant IsRenumbered(groups, before, instructions, keys, g)
      {
        ghost var now := instructions;
        instructionGroups := instructionGroups + [groupOf[keys[g]]];
        SetIndices(members[keys[g]], g);
        OneMoreGroup(groups, before, now, instructions, keys, g, groupOf, members);
      }
      AllRenumbered(groups, before, instructionGroups, instructions, keys, groupOf, members);
    }

    method GroupInstructions()
      returns (keys: seq<string>, groupOf: map<string, InstructionGroup>, members: map<string, seq<nat>>)
      requires HasValidIndices(instructionGroups, instructions)
      requires IsConsistent(instructionGroups, instructions)
      ensures IsGroupMap(instructionGroups, instructions, |instructions|, keys, groupOf, members)
    {
      keys, groupOf, members := [], map[], map[];
      for i := 0 to |instructions|
        invariant IsGroupMap(instructionGroups, instructions, i, keys, groupOf, members)
      {
        var group := instructionGroups[instructions[i].instructionGroupIndex];
        var key := MakeKey(group);
        AddToGroupMap(instructionGroups, instructions, i, keys, groupOf, members);
        if key !in keys {
          groupOf := groupOf[key := group];
          members := members[key := [i]];
        } else {
          members := members[key := members[key] + [i]];
        }
        keys := InsertKey(CompareStrings, keys, key);
      }
    }

    method SetIndices(members: seq<nat>, index: nat)
      requires forall k :: 0 <= k < |members| ==> members[k] < |instructions|
      modifies `instructions
      ensures |instructions| == |old(instructions)|
      ensures forall i :: 0 <= i < |instructions| ==>
                instructions[i] ==
                if i in members then old(instructions)[i].(instructionGroupIndex := index) else old(instructions)[i]
    {
      for k := 0 to |members|
        invariant |instructions| == |old(instructions)|
        invariant forall i :: 0 <= i < |instructions| ==>
                    instructions[i] ==
                    if i in members[..k] then old(instructions)[i].(instructionGroupIndex := index)
                    else old(instructions)[i]
      {
        assert members[..k + 1] == members[..k] + [members[k]];
        instructions := instructions[members[k] := instructions[members[k]].(instructionGroupIndex := index)];
      }
      assert members[..|members|] == members;
    }
  }

  lemma {:induction false} AddToGroupMap(
    groups: seq<InstructionGroup>, instructions: seq<InstructionProto>, n: nat,
    keys: seq<string>, groupOf: map<string, InstructionGroup>, members: map<string, seq<nat>>
  )
    requires n < |instructions| && HasValidIndices(groups, instructions) && IsConsistent(groups, instructions)
    requires IsGroupMap(groups, instructions, n, keys, groupOf, members)
    ensures var key := KeyOf(groups, instructions[n]);
            var group := groups[instructions[n].instructionGroupIndex];
            && (key in keys ==> key in members)
            && (if key !in keys
                then IsGroupMap(groups, instructions, n + 1, InsertKey(CompareStrings, keys, key), groupOf[key := group],
                                members[key := [n]])
                else IsGroupMap(groups, instructions, n + 1, InsertKey(CompareStrings, keys, key), groupOf,
                                members[key := members[key] + [n]]))
  {
    var key := KeyOf(groups, instructions[n]);
    StringComparison();
    StringsAreExact();
    InsertedKeys(CompareStrings, keys, key);
    InsertKeepsOrder(CompareStrings, keys, key);
    if key in keys {
      var first := members[key][0];
      assert IsEntry(groups, instructions, n, key, members[key]);
      assert IsMember(groups, instructions[first], first, keys, groupOf, members);
      OldKey(groups, instructions, n, keys, groupOf, members);
    } else {
      NewKey(groups, instructions, n, keys, groupOf, members);
    }
  }

  lemma {:induction false} NewKey(
    groups: seq<InstructionGroup>, instructions: seq<InstructionProto>, n: nat,
    keys: seq<string>, groupOf: map<string, InstructionGroup>, members: map<string, seq<nat>>
  )
    requires n < |instructions| && HasValidIndices(groups, instructions)
    requires IsGroupMap(groups, instructions, n, keys, groupOf, members)
    requires var key := KeyOf(groups, instructions[n]);
             && key !in keys && AreIncreasing(CompareStrings, InsertKey(CompareStrings, keys, key))
             && forall k :: k in InsertKey(CompareStrings, keys, key) <==> k in keys || k == key
    ensures var key := KeyOf(groups, instructions[n]);
            IsGroupMap(groups, instructions, n + 1, InsertKey(CompareStrings, keys, key),
                       groupOf[key := groups[instructions[n].instructionGroupIndex]], members[key := [n]])
  {
    forall i | 0 <= i < n
      ensures KeyOf(groups, instructions[i]) != KeyOf(groups, instructions[n])
    {
      assert IsMember(groups, instructions[i], i, keys, groupOf, members);
    }
  }

  lemma {:induction false} OldKey(
    groups: seq<InstructionGroup>, instructions: seq<InstructionProto>, n: nat,
    keys: seq<string>, groupOf: map<string, InstructionGroup>, members: map<string, seq<nat>>
  )
    requires n < |instructions| && HasValidIndices(groups, instructions)
    requires IsGroupMap(groups, instructions, n, keys, groupOf, members)
    requires var key := KeyOf(groups, instructions[n]);
             && key in keys && AreIncreasing(CompareStrings, InsertKey(CompareStrings, keys, key))
             && (forall k :: k in InsertKey(CompareStrings, keys, key) <==> k in keys || k == key)
             && groupOf[key] == groups[instructions[n].instructionGroupIndex]
    ensures var key := KeyOf(groups, instructions[n]);
            IsGroupMap(groups, instructions, n + 1, InsertKey(CompareStrings, keys, key), groupOf,
                       members[key := members[key] + [n]])
  {
    var key := KeyOf(groups, instructions[n]);
    var after := members[key := members[key] + [n]];
    forall i | 0 <= i < n + 1
      ensures IsMember(groups, instructions[i], i, InsertKey(CompareStrings, keys, key), groupOf, after)
    {
      if i < n {
        assert IsMember(groups, instructions[i], i, keys, groupOf, members);
      }
    }
    forall k | k in InsertKey(CompareStrings, keys, key)
      ensures k in groupOf && k in after && IsEntry(groups, instructions, n + 1, k, after[k])
    {
      assert IsEntry(groups, instructions, n, k, members[k]);
    }
  }

  // The group is not empty.
  predicate HasInstruction(instructions: seq<InstructionProto>, group: nat) {
    exists i :: 0 <= i < |instructions| && instructions[i].instructionGroupIndex == group
  }

  // The instructions of the first n groups have their new indices.
  predicate IsRenumbered(
    groups: seq<InstructionGroup>, before: seq<InstructionProto>, now: seq<InstructionProto>, keys: seq<string>, n: nat
  )
    requires HasValidIndices(groups, before) && n <= |keys| && |now| == |before|
  {
    && (forall i, g :: 0 <= i < |before| && 0 <= g < n && keys[g] == KeyOf(groups, before[i]) ==>
          now[i] == before[i].(instructionGroupIndex := g))
    && (forall i :: 0 <= i < |before| && KeyOf(groups, before[i]) !in keys[..n] ==> now[i] == before[i])
  }

  lemma MembersOfGroup(
    groups: seq<InstructionGroup>, before: seq<InstructionProto>, keys: seq<string>, n: nat,
    groupOf: map<string, InstructionGroup>, members: map<string, seq<nat>>, i: nat
  )
    requires HasValidIndices(groups, before) && n < |keys| && i < |before|
    requires IsGroupMap(groups, before, |before|, keys, groupOf, members)
    ensures keys[n] in members && (i in members[keys[n]] <==> KeyOf(groups, before[i]) == keys[n])
  {
    assert keys[n] in keys;
    assert IsEntry(groups, before, |before|, keys[n], members[keys[n]]);
    assert IsMember(groups, before[i], i, keys, groupOf, members);
  }

  lemma OneMoreGroup(
    groups: seq<InstructionGroup>, before: seq<InstructionProto>, now: seq<InstructionProto>,
    after: seq<InstructionProto>, keys: seq<string>, n: nat,
    groupOf: map<string, InstructionGroup>, members: map<string, seq<nat>>
  )
    requires HasValidIndices(groups, before) && n < |keys| && |now| == |before| && |after| == |before|
    requires IsGroupMap(groups, before, |before|, keys, groupOf, members)
    requires IsRenumbered(groups, before, now, keys, n)
    requires forall i :: 0 <= i < |before| ==>
               after[i] == if i in members[keys[n]] then now[i].(instructionGroupIndex := n) else now[i]
    ensures IsRenumbered(groups, before, after, keys, n + 1)
  {
    StringComparison();
    IncreasingKeysDiffer(CompareStrings, keys);
    assert keys[..n + 1] == keys[..n] + [keys[n]];
    forall i, g | 0 <= i < |before| && 0 <= g < n + 1 && keys[g] == KeyOf(groups, before[i])
      ensures after[i] == before[i].(instructionGroupIndex := g)
    {
      MembersOfGroup(groups, before, keys, n, groupOf, members, i);
    }
    forall i | 0 <= i < |before| && KeyOf(groups, before[i]) !in keys[..n + 1]
      ensures after[i] == before[i]
    {
      MembersOfGroup(groups, before, keys, n, groupOf, members, i);
    }
  }

  // The new groups and the new indices fit together.
  lemma AllRenumbered(
    groups: seq<InstructionGroup>, before: seq<InstructionProto>,
    newGroups: seq<InstructionGroup>, after: seq<InstructionProto>,
    keys: seq<string>, groupOf: map<string, InstructionGroup>, members: map<string, seq<nat>>
  )
    requires HasValidIndices(groups, before) && |newGroups| == |keys| && |after| == |before|
    requires IsGroupMap(groups, before, |before|, keys, groupOf, members)
    requires forall g :: 0 <= g < |keys| ==> newGroups[g] == groupOf[keys[g]]
    requires IsRenumbered(groups, before, after, keys, |keys|)
    ensures HasValidIndices(newGroups, after)
    ensures forall i :: 0 <= i < |after| ==>
              && after[i] == before[i].(instructionGroupIndex := after[i].instructionGroupIndex)
              && newGroups[after[i].instructionGroupIndex] == groups[before[i].instructionGroupIndex]
    ensures forall g :: 0 <= g < |newGroups| ==>
              MakeKey(newGroups[g]) == keys[g] &&
              HasInstruction(after, g)
  {
    forall i | 0 <= i < |after|
      ensures 0 <= after[i].instructionGroupIndex < |newGroups|
      ensures after[i] == before[i].(instructionGroupIndex := after[i].instructionGroupIndex)
      ensures newGroups[after[i].instructionGroupIndex] == groups[before[i].instructionGroupIndex]
    {
      assert IsMember(groups, before[i], i, keys, groupOf, members);
      var g :| 0 <= g < |keys| && keys[g] == KeyOf(groups, before[i]);
    }
    forall g | 0 <= g < |newGroups|
      ensures MakeKey(newGroups[g]) == keys[g]
      ensures HasInstruction(after, g)
    {
      assert keys[g] in keys;
      assert IsEntry(groups, before, |before|, keys[g], members[keys[g]]);
      var i := members[keys[g]][0];
      assert IsMember(groups, before[i], i, keys, groupOf, members);
      assert after[i].instructionGroupIndex == g;
    }
  }
}
