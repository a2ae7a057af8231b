// Inferring the prefix usages that the manual leaves open from the other
// instructions with the same opcode
// (exegesis/x86/cleanup_instruction_set_utils.cc).
module PrefixUsages {
  import opened Wrappers
  import opened Indices
  import opened Opcodes
  import opened X86Protos
  import opened EncodingSpecificationLanguage

  type Instructions = seq<InstructionProto>

  // The two usages that are inferred: the source passes a getter and a setter.
  datatype Field = RexWField | OperandSizeField

  // Accessing the specification of an instruction that has none adds an empty one.
  function Specification(instruction: InstructionProto): EncodingSpecification {
    if instruction.x86EncodingSpecification.Some? then instruction.x86EncodingSpecification.value
    else NO_SPECIFICATION
  }

  function WithSpecification(instruction: InstructionProto): InstructionProto {
    instruction.(x86EncodingSpecification := Some(Specification(instruction)))
  }

  function Usage(field: Field, instruction: InstructionProto): PrefixUsage {
    var prefixes := Specification(instruction).GetLegacyPrefixes();
    if field.RexWField? then prefixes.rexWPrefix else prefixes.operandSizeOverridePrefix
  }

  function WithUsage(field: Field, instruction: InstructionProto, usage: PrefixUsage): InstructionProto {
    var specification := Specification(instruction);
    var prefixes := specification.GetLegacyPrefixes();
    var updated := if field.RexWField? then prefixes.(rexWPrefix := usage)
                   else prefixes.(operandSizeOverridePrefix := usage);
    instruction.(x86EncodingSpecification := Some(specification.(prefix := LegacySpecification(updated))))
  }

  predicate IsLegacy(instruction: InstructionProto) {
    !Specification(instruction).prefix.VexSpecification?
  }

  // The opcode and the opcode extension; an instruction without an extension goes
  // with the ones that have the extension 0.
  datatype GroupKey = GroupKey(opcode: Opcode, extension: bv32)

  function Key(instruction: InstructionProto): GroupKey {
    var specification := Specification(instruction);
    GroupKey(specification.opcode,
             if specification.modrmUsage.OpcodeExtensionInModRm? then specification.modrmOpcodeExtension else 0)
  }

  predicate IsInGroup(instruction: InstructionProto, key: GroupKey) {
    IsLegacy(instruction) && Key(instruction) == key
  }

  // ---- What is inferred -----------------------------------------------------

  predicate HasKnownUsage(field: Field, list: Instructions, key: GroupKey) {
    exists i :: 0 <= i < |list| && IsInGroup(list[i], key) && !Usage(field, list[i]).PrefixUsageIsUnknown?
  }

  function InferredUsage(field: Field, list: Instructions, key: GroupKey): PrefixUsage {
    if HasKnownUsage(field, list, key) then PrefixIsNotPermitted else PrefixIsIgnored
  }

  function Inferred(field: Field, list: Instructions, i: nat): InstructionProto
    requires i < |list|
  {
    Updated(field, list[i], InferredUsage(field, list, Key(list[i])))
  }

  function Updated(field: Field, instruction: InstructionProto, usage: PrefixUsage): InstructionProto {
    if IsLegacy(instruction) && Usage(field, instruction).PrefixUsageIsUnknown?
    then WithUsage(field, instruction, usage)
    else WithSpecification(instruction)
  }

  function AllInferred(field: Field, list: Instructions): (inferred: Instructions)
    ensures |inferred| == |list| && forall i :: 0 <= i < |list| ==> inferred[i] == Inferred(field, list, i)
  {
    seq(|list|, i requires 0 <= i < |list| => Inferred(field, list, i))
  }

  // ---- The inference --------------------------------------------------------

  function Members(list: Instructions, key: GroupKey): (members: seq<nat>)
    ensures forall k :: 0 <= k < |members| ==> members[k] < |list|
  {
    IndicesOf(seq(|list|, i requires 0 <= i < |list| => IsInGroup(list[i], key)))
  }

  lemma MembersAre(list: Instructions, key: GroupKey)
    ensures forall i :: i in Members(list, key) <==> 0 <= i < |list| && IsInGroup(list[i], key)
  {
    IndicesOfIncreasing(seq(|list|, i requires 0 <= i < |list| => IsInGroup(list[i], key)));
  }

  lemma MembersStep(list: Instructions, n: nat, key: GroupKey)
    requires n < |list|
    ensures Members(list[..n + 1], key) == Members(list[..n], key) + if IsInGroup(list[n], key) then [n] else []
  {
    var flags := seq(n + 1, i requires 0 <= i < n + 1 => IsInGroup(list[..n + 1][i], key));
    var before := seq(n, i requires 0 <= i < n => IsInGroup(list[..n][i], key));
    assert seq(|list[..n + 1]|, i requires 0 <= i < |list[..n + 1]| => IsInGroup(list[..n + 1][i], key)) == flags;
    assert seq(|list[..n]|, i requires 0 <= i < |list[..n]| => IsInGroup(list[..n][i], key)) == before;
    assert flags[..n] == before;
  }

  ghost predicate AreGroups(list: Instructions, groups: map<GroupKey, seq<nat>>) {
    && (forall key :: key in groups <==> Members(list, key) != [])
    && (forall key :: key in groups ==> groups[key] == Members(list, key))
  }

  lemma OneMoreMember(list: Instructions, n: nat, groups: map<GroupKey, seq<nat>>)
    requires n < |list| && AreGroups(list[..n], groups)
    ensures var key := Key(list[n]);
            var group := if key in groups then groups[key] else [];
            AreGroups(list[..n + 1], if IsLegacy(list[n]) then groups[key := group + [n]] else groups)
  {
    forall other: GroupKey
      ensures Members(list[..n + 1], other) ==
              Members(list[..n], other) + if IsInGroup(list[n], other) then [n] else []
    {
      MembersStep(list, n, other);
    }
  }

  // The instructions after the groups with these keys are updated.
  predicate IsInferredFor(
    field: Field, before: Instructions, now: Instructions, keys: set<GroupKey>
  ) {
    && |now| == |before|
    && forall i :: 0 <= i < |before| ==>
         now[i] == if IsLegacy(before[i]) && Key(before[i]) in keys then Inferred(field, before, i)
                   else WithSpecification(before[i])
  }

  class InstructionSet {
    var instructions: Instructions

    constructor (instructions: Instructions)
      ensures this.instructions == instructions
    {
      this.instructions := instructions;
    }

    // The order in which the groups are visited is the one of a hash table.
    method AddPrefixUsageToLegacyInstructions(field: Field)
      modifies this
      ensures instructions == AllInferred(field, old(instructions))
    {
      ghost var before := instructions;
      var groups := GroupByOpcode();
      var keys := groups.Keys;
      ghost var done: set<GroupKey> := {};
      while keys != {}
        invariant AreSplit(groups.Keys, keys, done)
        invariant IsInferredFor(field, before, instructions, done)
        decreases keys
      {
        var key :| key in keys;
        MoveKey(groups.Keys, keys, done, key);
        UpdateGroup(field, key, groups[key], before, done);
        keys := keys - {key};
        done := done + {key};
      }
      EveryGroupIsDone(field, before, instructions, groups, done);
    }

    method GroupByOpcode() returns (groups: map<GroupKey, seq<nat>>)
      modifies this
      ensures AreGroups(old(instructions), groups)
      ensures |instructions| == |old(instructions)|
      ensures forall i :: 0 <= i < |instructions| ==> instructions[i] == WithSpecification(old(instructions)[i])
    {
      groups := map[];
      ghost var before := instructions;
      for n := 0 to |instructions|
        invariant |instructions| == |before|
        invariant forall i :: 0 <= i < |before| ==>
                    instructions[i] == if i < n then WithSpecification(before[i]) else before[i]
        invariant AreGroups(before[..n], groups)
      {
        OneMoreMember(before, n, groups);
        var instruction := WithSpecification(instructions[n]);
        instructions := instructions[n := instruction];
        if IsLegacy(instruction) {
          var key := Key(instruction);
          var group := if key in groups then groups[key] else [];
          groups := groups[key := group + [n]];
        }
      }
      assert before[..|before|] == before;
    }

    method UpdateGroup(
      field: Field, key: GroupKey, group: seq<nat>, ghost before: Instructions, ghost done: set<GroupKey>
    )
      requires group == Members(before, key) && key !in done
      requires IsInferredFor(field, before, instructions, done)
      modifies this
      ensures IsInferredFor(field, before, instructions, done + {key})
    {
      MembersAre(before, key);
      GroupIsUntouched(field, before, instructions, done, key);
      var hasKnownUsage := HasKnownUsageIn(field, group);
      KnownInGroup(field, before, key, group);
      ghost var now := instructions;
      SetUsages(field, group, if hasKnownUsage then PrefixIsNotPermitted else PrefixIsIgnored);
      GroupIsInferred(field, before, now, instructions, done, key);
    }

    method HasKnownUsageIn(field: Field, group: seq<nat>) returns (hasKnownUsage: bool)
      requires forall k :: 0 <= k < |group| ==> group[k] < |instructions|
      ensures hasKnownUsage <==>
              exists j :: 0 <= j < |group| && !Usage(field, instructions[group[j]]).PrefixUsageIsUnknown?
    {
      for k := 0 to |group|
        invariant forall j :: 0 <= j < k ==> Usage(field, instructions[group[j]]).PrefixUsageIsUnknown?
      {
        if !Usage(field, instructions[group[k]]).PrefixUsageIsUnknown? {
          return true;
        }
      }
      return false;
    }

    method SetUsages(field: Field, group: seq<nat>, usage: PrefixUsage)
      requires forall k :: 0 <= k < |group| ==> group[k] < |instructions|
      requires !usage.PrefixUsageIsUnknown?
      modifies this
      ensures |instructions| == |old(instructions)|
      ensures forall i :: 0 <= i < |instructions| ==>
                instructions[i] ==
                if i in group && Usage(field, old(instructions)[i]).PrefixUsageIsUnknown?
                then WithUsage(field, old(instructions)[i], usage) else old(instructions)[i]
    {
      for k := 0 to |group|
        invariant |instructions| == |old(instructions)|
        invariant forall i :: 0 <= i < |instructions| ==>
                    instructions[i] ==
                    if i in group[..k] && Usage(field, old(instructions)[i]).PrefixUsageIsUnknown?
                    then WithUsage(field, old(instructions)[i], usage) else old(instructions)[i]
      {
        var i := group[k];
        assert group[..k + 1] == group[..k] + [i];
        if Usage(field, instructions[i]).PrefixUsageIsUnknown? {
          instructions := instructions[i := WithUsage(field, instructions[i], usage)];
        }
      }
      assert group[..|group|] == group;
    }
  }

  ghost predicate AreSplit(all: set<GroupKey>, first: set<GroupKey>, second: set<GroupKey>) {
    && (forall key :: key in all <==> key in first || key in second)
    && (forall key :: key in first ==> key !in second)
  }

  lemma MoveKey(all: set<GroupKey>, first: set<GroupKey>, second: set<GroupKey>, key: GroupKey)
    requires AreSplit(all, first, second) && key in first
    ensures AreSplit(all, first - {key}, second + {key}) && key in all && key !in second
  {
  }

  lemma GroupIsUntouched(
    field: Field, before: Instructions, now: Instructions, done: set<GroupKey>, key: GroupKey
  )
    requires IsInferredFor(field, before, now, done) && key !in done
    ensures forall k :: 0 <= k < |Members(before, key)| ==>
              now[Members(before, key)[k]] == WithSpecification(before[Members(before, key)[k]])
  {
    MembersAre(before, key);
    assert forall k :: 0 <= k < |Members(before, key)| ==> Members(before, key)[k] in Members(before, key);
  }

  lemma GroupIsInferred(
    field: Field, before: Instructions, now: Instructions, after: Instructions, done: set<GroupKey>, key: GroupKey
  )
    requires IsInferredFor(field, before, now, done) && key !in done && |after| == |now|
    requires forall i :: 0 <= i < |now| ==>
               after[i] ==
               if i in Members(before, key) && Usage(field, now[i]).PrefixUsageIsUnknown?
               then WithUsage(field, now[i], InferredUsage(field, before, key)) else now[i]
    ensures IsInferredFor(field, before, after, done + {key})
  {
    MembersAre(before, key);
    forall i | 0 <= i < |before|
      ensures after[i] == if IsLegacy(before[i]) && Key(before[i]) in done + {key} then Inferred(field, before, i)
                          else WithSpecification(before[i])
    {
      if i in Members(before, key) {
        assert now[i] == WithSpecification(before[i]);
      }
    }
  }

  lemma KnownInGroup(field: Field, list: Instructions, key: GroupKey, group: seq<nat>)
    requires group == Members(list, key)
    ensures HasKnownUsage(field, list, key) <==>
            exists j :: 0 <= j < |group| && !Usage(field, list[group[j]]).PrefixUsageIsUnknown?
  {
    MembersAre(list, key);
    if i :| 0 <= i < |list| && IsInGroup(list[i], key) && !Usage(field, list[i]).PrefixUsageIsUnknown? {
      assert i in group;
    }
    if j :| 0 <= j < |group| && !Usage(field, list[group[j]]).PrefixUsageIsUnknown? {
      assert group[j] in group;
    }
  }

  lemma EveryGroupIsDone(
    field: Field, before: Instructions, now: Instructions, groups: map<GroupKey, seq<nat>>, done: set<GroupKey>
  )
    requires AreGroups(before, groups) && AreSplit(groups.Keys, {}, done) && IsInferredFor(field, before, now, done)
    ensures now == AllInferred(field, before)
  {
    forall i | 0 <= i < |before| && IsLegacy(before[i])
      ensures Key(before[i]) in done
    {
      MembersAre(before, Key(before[i]));
      assert i in Members(before, Key(before[i]));
    }
  }

  // ---- What holds afterwards ------------------------------------------------

  // No legacy instruction is left with an unknown usage; known usages stay; the
  // others become "not permitted" exactly if the group had a known usage.
  lemma UsagesAreInferred(field: Field, list: Instructions, i: nat)
    requires i < |list| && IsLegacy(list[i])
    ensures var after := AllInferred(field, list)[i];
            && IsLegacy(after) && Key(after) == Key(list[i])
            && !Usage(field, after).PrefixUsageIsUnknown?
            && (!Usage(field, list[i]).PrefixUsageIsUnknown? ==>
                  Usage(field, after) == Usage(field, list[i]) && after == WithSpecification(list[i]))
            && (Usage(field, list[i]).PrefixUsageIsUnknown? ==>
                  (Usage(field, after).PrefixIsNotPermitted? <==>
                   exists j :: 0 <= j < |list| && IsInGroup(list[j], Key(list[i])) &&
                               !Usage(field, list[j]).PrefixUsageIsUnknown?) &&
                  (Usage(field, after).PrefixIsNotPermitted? || Usage(field, after).PrefixIsIgnored?))
  {
  }

  // Nothing else changes; VEX instructions do not change at all.
  lemma OtherFieldsAreKept(field: Field, list: Instructions, i: nat)
    requires i < |list|
    ensures var after := AllInferred(field, list)[i];
            var other := if field.RexWField? then OperandSizeField else RexWField;
            && after.(x86EncodingSpecification := None) == list[i].(x86EncodingSpecification := None)
            && Usage(other, after) == Usage(other, list[i])
            && (!IsLegacy(list[i]) ==> after == list[i])
            && Specification(after).(prefix := NoPrefixSpecification) ==
               Specification(list[i]).(prefix := NoPrefixSpecification)
  {
  }

  // ---- The same, field by field ---------------------------------------------

  // Instructions with the same opcode and the same opcode extension; an extension 0
  // is no different from none.
  predicate SharesOpcode(a: EncodingSpecification, b: EncodingSpecification) {
    && a.opcode == b.opcode
    && (if a.modrmUsage == OpcodeExtensionInModRm && b.modrmUsage == OpcodeExtensionInModRm
        then a.modrmOpcodeExtension == b.modrmOpcodeExtension
        else
          && (a.modrmUsage == OpcodeExtensionInModRm ==> a.modrmOpcodeExtension == 0)
          && (b.modrmUsage == OpcodeExtensionInModRm ==> b.modrmOpcodeExtension == 0))
  }

  // The legacy prefixes of an instruction; without a specification all are unknown.
  function LegacyOf(instruction: InstructionProto): Option<LegacyPrefixSpecification> {
    match instruction.x86EncodingSpecification
    case None => Some(NO_LEGACY_PREFIXES)
    case Some(specification) =>
      match specification.prefix
      case VexSpecification(_) => None
      case LegacySpecification(legacy) => Some(legacy)
      case NoPrefixSpecification => Some(NO_LEGACY_PREFIXES)
  }

  lemma GroupsMean(a: InstructionProto, b: InstructionProto)
    ensures IsInGroup(b, Key(a)) <==> LegacyOf(b).Some? && SharesOpcode(Specification(a), Specification(b))
  {
  }

  // A REX.W usage that is open becomes "not permitted" if an instruction with this
  // opcode has a known one, and "ignored" otherwise; one that is known stays.
  lemma RexWIsInferred(list: Instructions, i: nat)
    requires i < |list| && LegacyOf(list[i]).Some?
    ensures var before, after := LegacyOf(list[i]).value, LegacyOf(AllInferred(RexWField, list)[i]);
            after == Some(before.(rexWPrefix :=
              if before.rexWPrefix != PrefixUsageIsUnknown then before.rexWPrefix
              else if exists j :: 0 <= j < |list| && LegacyOf(list[j]).Some? &&
                                  LegacyOf(list[j]).value.rexWPrefix != PrefixUsageIsUnknown &&
                                  SharesOpcode(Specification(list[i]), Specification(list[j]))
              then PrefixIsNotPermitted
              else PrefixIsIgnored))
  {
    GroupHasKnown(RexWField, list, i);
  }

  lemma OperandSizeIsInferred(list: Instructions, i: nat)
    requires i < |list| && LegacyOf(list[i]).Some?
    ensures var before, after := LegacyOf(list[i]).value, LegacyOf(AllInferred(OperandSizeField, list)[i]);
            after == Some(before.(operandSizeOverridePrefix :=
              if before.operandSizeOverridePrefix != PrefixUsageIsUnknown then before.operandSizeOverridePrefix
              else if exists j :: 0 <= j < |list| && LegacyOf(list[j]).Some? &&
                                  LegacyOf(list[j]).value.operandSizeOverridePrefix != PrefixUsageIsUnknown &&
                                  SharesOpcode(Specification(list[i]), Specification(list[j]))
              then PrefixIsNotPermitted
              else PrefixIsIgnored))
  {
    GroupHasKnown(OperandSizeField, list, i);
  }

  predicate IsKnown(field: Field, instruction: InstructionProto) {
    && LegacyOf(instruction).Some?
    && (if field == RexWField then LegacyOf(instruction).value.rexWPrefix != PrefixUsageIsUnknown
        else LegacyOf(instruction).value.operandSizeOverridePrefix != PrefixUsageIsUnknown)
  }

  lemma GroupHasKnown(field: Field, list: Instructions, i: nat)
    requires i < |list| && LegacyOf(list[i]).Some?
    ensures HasKnownUsage(field, list, Key(list[i])) <==>
            exists j :: 0 <= j < |list| && IsKnown(field, list[j]) &&
                        SharesOpcode(Specification(list[i]), Specification(list[j]))
  {
    forall j | 0 <= j < |list|
      ensures IsInGroup(list[j], Key(list[i])) && !Usage(field, list[j]).PrefixUsageIsUnknown? <==>
              IsKnown(field, list[j]) && SharesOpcode(Specification(list[i]), Specification(list[j]))
    {
      GroupsMean(list[i], list[j]);
    }
  }

  lemma InferringIsIdempotent(field: Field, list: Instructions)
    ensures AllInferred(field, AllInferred(field, list)) == AllInferred(field, list)
  {
    forall i | 0 <= i < |list|
      ensures Inferred(field, AllInferred(field, list), i) == AllInferred(field, list)[i]
    {
      if IsLegacy(list[i]) {
        UsagesAreInferred(field, list, i);
      }
    }
  }

  // The usages of one prefix do not depend on the other one, so the two
  // inferences may run in either order.
  lemma InferencesCommute(list: Instructions)
    ensures AllInferred(RexWField, AllInferred(OperandSizeField, list)) ==
            AllInferred(OperandSizeField, AllInferred(RexWField, list))
  {
    forall i | 0 <= i < |list|
      ensures Inferred(RexWField, AllInferred(OperandSizeField, list), i) ==
              Inferred(OperandSizeField, AllInferred(RexWField, list), i)
    {
      var key := Key(list[i]);
      SameGroups(RexWField, OperandSizeField, list, key);
      SameGroups(OperandSizeField, RexWField, list, key);
      OtherFieldsAreKept(OperandSizeField, list, i);
      OtherFieldsAreKept(RexWField, list, i);
      UpdatesCommute(list[i], InferredUsage(OperandSizeField, list, key), InferredUsage(RexWField, list, key));
    }
  }

  // The update of the prefixes alone.
  function UpdatedPrefix(field: Field, prefix: PrefixSpecification, usage: PrefixUsage): PrefixSpecification {
    if prefix.VexSpecification? then prefix
    else
      var legacy := if prefix.LegacySpecification? then prefix.legacy else NO_LEGACY_PREFIXES;
      if field.RexWField? && legacy.rexWPrefix.PrefixUsageIsUnknown? then
        LegacySpecification(legacy.(rexWPrefix := usage))
      else if field.OperandSizeField? && legacy.operandSizeOverridePrefix.PrefixUsageIsUnknown? then
        LegacySpecification(legacy.(operandSizeOverridePrefix := usage))
      else prefix
  }

  lemma UpdatedByPrefix(field: Field, instruction: InstructionProto, usage: PrefixUsage)
    ensures var specification := Specification(instruction);
            Updated(field, instruction, usage) ==
            instruction.(x86EncodingSpecification :=
              Some(specification.(prefix := UpdatedPrefix(field, specification.prefix, usage))))
  {
  }

  lemma PrefixUpdatesCommute(
    prefix: PrefixSpecification, operandSize: PrefixUsage, rexW: PrefixUsage
  )
    ensures UpdatedPrefix(RexWField, UpdatedPrefix(OperandSizeField, prefix, operandSize), rexW) ==
            UpdatedPrefix(OperandSizeField, UpdatedPrefix(RexWField, prefix, rexW), operandSize)
  {
  }

  lemma UpdatesCommute(instruction: InstructionProto, operandSize: PrefixUsage, rexW: PrefixUsage)
    ensures Updated(RexWField, Updated(OperandSizeField, instruction, operandSize), rexW) ==
            Updated(OperandSizeField, Updated(RexWField, instruction, rexW), operandSize)
  {
    UpdatedByPrefix(OperandSizeField, instruction, operandSize);
    UpdatedByPrefix(RexWField, instruction, rexW);
    UpdatedByPrefix(RexWField, Updated(OperandSizeField, instruction, operandSize), rexW);
    UpdatedByPrefix(OperandSizeField, Updated(RexWField, instruction, rexW), operandSize);
    PrefixUpdatesCommute(Specification(instruction).prefix, operandSize, rexW);
  }

  lemma SameGroups(field: Field, other: Field, list: Instructions, key: GroupKey)
    requires field != other
    ensures HasKnownUsage(field, AllInferred(other, list), key) <==> HasKnownUsage(field, list, key)
  {
    var after := AllInferred(other, list);
    forall i | 0 <= i < |list|
      ensures IsKnownMember(field, after[i], key) <==> IsKnownMember(field, list[i], key)
    {
      OtherFieldsAreKept(other, list, i);
    }
    assert HasKnownUsage(field, after, key) <==> exists i :: 0 <= i < |list| && IsKnownMember(field, after[i], key);
    assert HasKnownUsage(field, list, key) <==> exists i :: 0 <= i < |list| && IsKnownMember(field, list[i], key);
  }

  predicate IsKnownMember(field: Field, instruction: InstructionProto, key: GroupKey) {
    IsInGroup(instruction, key) && !Usage(field, instruction).PrefixUsageIsUnknown?
  }
}
