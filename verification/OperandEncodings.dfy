// The assignment of encodings to the operands of an instruction
// (exegesis/x86/cleanup_instruction_set_operand_info.cc), from the multiset of
// encodings that its specification offers
// (exegesis/x86/encoding_specification.cc).
module OperandEncodings {
  import opened Wrappers
  import opened X86Protos
  import opened CategoryUtil

  // ---- The encodings of a specification -------------------------------------

  function NumImmediates(specification: EncodingSpecification): nat {
    |specification.immediateValueBytes| + (if specification.codeOffsetBytes > 0 then 1 else 0)
  }

  function ModRmEncodings(usage: ModRmUsage): multiset<OperandEncoding> {
    match usage
    case FullModRm => multiset{ModRmRegEncoding} + multiset{ModRmRmEncoding}
    case OpcodeExtensionInModRm => multiset{ModRmRmEncoding}
    case _ => multiset{}
  }

  function AddIf(
    encodings: multiset<OperandEncoding>, isPresent: bool, encoding: OperandEncoding
  ): multiset<OperandEncoding>
  {
    if isPresent then encodings + multiset{encoding} else encodings
  }

  // VSIB addressing takes the place of the operand in modrm.rm.
  function AddVexEncodings(
    encodings: multiset<OperandEncoding>, vex: VexPrefixSpecification
  ): multiset<OperandEncoding>
  {
    var withV := AddIf(encodings, !vex.vexOperandUsage.VexOperandIsNotUsed?, VexVEncoding);
    var withSuffix := AddIf(withV, vex.hasVexOperandSuffix, VexSuffixEncoding);
    if vex.vsibUsage.VSibUnused? then withSuffix
    else (withSuffix + multiset{VsibEncoding})[ModRmRmEncoding := 0]
  }

  function AddImmediates(encodings: multiset<OperandEncoding>, count: nat): multiset<OperandEncoding> {
    if count == 0 then encodings else AddImmediates(encodings, count - 1) + multiset{ImmediateValueEncoding}
  }

  function AvailableEncodings(specification: EncodingSpecification): multiset<OperandEncoding> {
    var withOpcode :=
      AddIf(ModRmEncodings(specification.modrmUsage), !specification.operandInOpcode.NoOperandInOpcode?, OpcodeEncoding);
    var withVex :=
      if specification.prefix.VexSpecification? then AddVexEncodings(withOpcode, specification.prefix.vex)
      else withOpcode;
    AddImmediates(withVex, NumImmediates(specification))
  }

  // The CHECK of GetAvailableEncodings.
  predicate VSibHasModRm(specification: EncodingSpecification) {
    specification.GetVexPrefix().vsibUsage.VSibUsed? ==> !specification.modrmUsage.NoModRmUsage?
  }

  method GetAvailableEncodings(specification: EncodingSpecification)
    returns (availableEncodings: multiset<OperandEncoding>)
    requires VSibHasModRm(specification)
    ensures availableEncodings == AvailableEncodings(specification)
  {
    availableEncodings := multiset{};
    match specification.modrmUsage {
      case FullModRm =>
        availableEncodings := availableEncodings + multiset{ModRmRegEncoding};
        availableEncodings := availableEncodings + multiset{ModRmRmEncoding};
      case OpcodeExtensionInModRm =>
        availableEncodings := availableEncodings + multiset{ModRmRmEncoding};
      case _ =>
    }
    assert availableEncodings == ModRmEncodings(specification.modrmUsage);
    if !specification.operandInOpcode.NoOperandInOpcode? {
      availableEncodings := availableEncodings + multiset{OpcodeEncoding};
    }
    if specification.prefix.VexSpecification? {
      availableEncodings := AddVexEncodingsTo(availableEncodings, specification.prefix.vex);
    }
    ghost var others := availableEncodings;
    for i := 0 to NumImmediates(specification)
      invariant availableEncodings == AddImmediates(others, i)
    {
      availableEncodings := availableEncodings + multiset{ImmediateValueEncoding};
    }
  }

  method AddVexEncodingsTo(encodings: multiset<OperandEncoding>, vex: VexPrefixSpecification)
    returns (result: multiset<OperandEncoding>)
    ensures result == AddVexEncodings(encodings, vex)
  {
    result := encodings;
    if !vex.vexOperandUsage.VexOperandIsNotUsed? {
      result := result + multiset{VexVEncoding};
    }
    if vex.hasVexOperandSuffix {
      result := result + multiset{VexSuffixEncoding};
    }
    if !vex.vsibUsage.VSibUnused? {
      result := result + multiset{VsibEncoding};
      result := result[ModRmRmEncoding := 0];
    }
  }

  // How often each encoding is offered: only immediate values more than once, and
  // no abstract or implicit encoding at all.
  function Multiplicity(specification: EncodingSpecification, encoding: OperandEncoding): nat {
    var vex := specification.GetVexPrefix();
    var isVex := specification.prefix.VexSpecification?;
    match encoding
    case ModRmRegEncoding => if specification.modrmUsage.FullModRm? then 1 else 0
    case ModRmRmEncoding =>
      var hasModRm := specification.modrmUsage.FullModRm? || specification.modrmUsage.OpcodeExtensionInModRm?;
      if hasModRm && vex.vsibUsage.VSibUnused? then 1 else 0
    case OpcodeEncoding => if specification.operandInOpcode.NoOperandInOpcode? then 0 else 1
    case VexVEncoding => if isVex && !vex.vexOperandUsage.VexOperandIsNotUsed? then 1 else 0
    case VexSuffixEncoding => if vex.hasVexOperandSuffix then 1 else 0
    case VsibEncoding => if vex.vsibUsage.VSibUsed? then 1 else 0
    case ImmediateValueEncoding =>
      |specification.immediateValueBytes| + (if specification.codeOffsetBytes == 0 then 0 else 1)
    case _ => 0
  }

  lemma {:induction false} ImmediateMultiplicity(encodings: multiset<OperandEncoding>, count: nat, encoding: OperandEncoding)
    ensures AddImmediates(encodings, count)[encoding] ==
            encodings[encoding] + if encoding.ImmediateValueEncoding? then count else 0
  {
    if count > 0 {
      ImmediateMultiplicity(encodings, count - 1, encoding);
    }
  }

  function Unit(condition: bool): nat {
    if condition then 1 else 0
  }

  lemma AddIfMultiplicity(
    encodings: multiset<OperandEncoding>, isPresent: bool, added: OperandEncoding, encoding: OperandEncoding
  )
    ensures AddIf(encodings, isPresent, added)[encoding] == encodings[encoding] + Unit(isPresent && encoding == added)
  {
  }

  lemma VexMultiplicity(
    encodings: multiset<OperandEncoding>, vex: VexPrefixSpecification, encoding: OperandEncoding
  )
    ensures AddVexEncodings(encodings, vex)[encoding] ==
            (if encoding.ModRmRmEncoding? && vex.vsibUsage.VSibUsed? then 0 else encodings[encoding]) +
            Unit(encoding.VexVEncoding? && !vex.vexOperandUsage.VexOperandIsNotUsed?) +
            Unit(encoding.VexSuffixEncoding? && vex.hasVexOperandSuffix) +
            Unit(encoding.VsibEncoding? && vex.vsibUsage.VSibUsed?)
  {
    var withV := AddIf(encodings, !vex.vexOperandUsage.VexOperandIsNotUsed?, VexVEncoding);
    var withSuffix := AddIf(withV, vex.hasVexOperandSuffix, VexSuffixEncoding);
    AddIfMultiplicity(encodings, !vex.vexOperandUsage.VexOperandIsNotUsed?, VexVEncoding, encoding);
    AddIfMultiplicity(withV, vex.hasVexOperandSuffix, VexSuffixEncoding, encoding);
    AddIfMultiplicity(withSuffix, true, VsibEncoding, encoding);
  }

  lemma ModRmMultiplicity(usage: ModRmUsage, encoding: OperandEncoding)
    ensures ModRmEncodings(usage)[encoding] ==
            Unit(encoding.ModRmRegEncoding? && usage.FullModRm?) +
            Unit(encoding.ModRmRmEncoding? && (usage.FullModRm? || usage.OpcodeExtensionInModRm?))
  {
  }

  lemma MultiplicityIsSum(specification: EncodingSpecification, encoding: OperandEncoding)
    ensures var vex := specification.GetVexPrefix();
            var isVex := specification.prefix.VexSpecification?;
            Multiplicity(specification, encoding) ==
            (if encoding.ModRmRmEncoding? && vex.vsibUsage.VSibUsed? then 0
             else ModRmEncodings(specification.modrmUsage)[encoding] +
                  Unit(encoding.OpcodeEncoding? && !specification.operandInOpcode.NoOperandInOpcode?)) +
            Unit(encoding.VexVEncoding? && isVex && !vex.vexOperandUsage.VexOperandIsNotUsed?) +
            Unit(encoding.VexSuffixEncoding? && vex.hasVexOperandSuffix) +
            Unit(encoding.VsibEncoding? && vex.vsibUsage.VSibUsed?) +
            (if encoding.ImmediateValueEncoding? then NumImmediates(specification) else 0)
  {
    ModRmMultiplicity(specification.modrmUsage, encoding);
  }

  lemma AvailableMultiplicity(specification: EncodingSpecification, encoding: OperandEncoding)
    ensures AvailableEncodings(specification)[encoding] == Multiplicity(specification, encoding)
  {
    var inOpcode := !specification.operandInOpcode.NoOperandInOpcode?;
    var modrm := ModRmEncodings(specification.modrmUsage);
    var withOpcode := AddIf(modrm, inOpcode, OpcodeEncoding);
    MultiplicityIsSum(specification, encoding);
    AddIfMultiplicity(modrm, inOpcode, OpcodeEncoding, encoding);
    if specification.prefix.VexSpecification? {
      var vex := specification.prefix.vex;
      VexMultiplicity(withOpcode, vex, encoding);
      ImmediateMultiplicity(AddVexEncodings(withOpcode, vex), NumImmediates(specification), encoding);
    } else {
      ImmediateMultiplicity(withOpcode, NumImmediates(specification), encoding);
    }
  }

  // ---- Operands -------------------------------------------------------------

  predicate IsImplicitOperandEncoding(encoding: OperandEncoding) {
    encoding.ImplicitEncoding? || encoding.X86RegisterEax? || encoding.X86RegisterEbx? || encoding.X86RegisterRax? ||
    encoding.X86RegisterRbx? || encoding.X86RegisterRcx? || encoding.X86RegisterRdx?
  }

  lemma ImplicitIsACategory(encoding: OperandEncoding)
    ensures IsImplicitOperandEncoding(encoding) <==>
            InCategory(encoding.Number(), OperandEncoding.ImplicitEncoding.Number())
  {
    CategoriesOf(encoding.Number(), OperandEncoding.ImplicitEncoding.Number());
  }

  // The encodings that take a part of the binary encoding.
  predicate IsCounted(encoding: OperandEncoding) {
    !encoding.AnyEncoding? && !IsImplicitOperandEncoding(encoding)
  }

  function Counted(encoding: OperandEncoding): multiset<OperandEncoding> {
    if IsCounted(encoding) then multiset{encoding} else multiset{}
  }

  function UsedEncodings(operands: seq<InstructionOperand>): multiset<OperandEncoding> {
    if operands == [] then multiset{}
    else UsedEncodings(operands[..|operands| - 1]) + Counted(operands[|operands| - 1].encoding)
  }

  function NumUnassigned(operands: seq<InstructionOperand>): nat {
    if operands == [] then 0
    else
      NumUnassigned(operands[..|operands| - 1]) +
      (if operands[|operands| - 1].encoding.AnyEncoding? then 1 else 0)
  }

  lemma ReorderSum<T>(a: multiset<T>, b: multiset<T>, c: multiset<T>)
    ensures a + b + c == a + c + b
  {
  }

  lemma {:induction false} AssignOne(operands: seq<InstructionOperand>, i: nat, operand: InstructionOperand)
    requires i < |operands| && operands[i].encoding.AnyEncoding? && !operand.encoding.AnyEncoding?
    ensures UsedEncodings(operands[i := operand]) == UsedEncodings(operands) + Counted(operand.encoding)
    ensures NumUnassigned(operands[i := operand]) == NumUnassigned(operands) - 1
    decreases |operands|
  {
    var last := |operands| - 1;
    var front := operands[..last];
    var after := operands[i := operand];
    if i < last {
      AssignOne(front, i, operand);
      ReorderSum(UsedEncodings(front), Counted(operand.encoding), Counted(operands[last].encoding));
      assert after[..last] == front[i := operand] && after[last] == operands[last];
    } else {
      assert after[..last] == front && after[last] == operand;
      NothingAdded(UsedEncodings(front));
    }
  }

  lemma NothingAdded<T>(a: multiset<T>)
    ensures a + multiset{} == a
  {
  }

  lemma {:induction false} UnassignedExists(operands: seq<InstructionOperand>)
    ensures NumUnassigned(operands) == 0 <==>
            forall i :: 0 <= i < |operands| ==> !operands[i].encoding.AnyEncoding?
  {
    if operands != [] {
      UnassignedExists(operands[..|operands| - 1]);
      var last := operands[|operands| - 1];
      assert forall i :: 0 <= i < |operands| - 1 ==> operands[..|operands| - 1][i] == operands[i];
    }
  }

  // ---- What one operand determines ------------------------------------------

  // The tables that map the name of an operand to its properties.
  datatype Tables = Tables(
    addressingModes: map<string, OperandAddressingMode>,
    encodings: map<string, OperandEncoding>,
    valueSizes: map<string, nat>
  )

  predicate ModeIsKnown(tables: Tables, operand: InstructionOperand) {
    operand.addressingMode.AnyAddressingMode? ==> operand.name in tables.addressingModes
  }

  // The encoding that the operand has, or that its name determines.
  predicate IsDetermined(tables: Tables, operand: InstructionOperand) {
    !operand.encoding.AnyEncoding? || operand.name in tables.encodings
  }

  function Prepared(tables: Tables, operand: InstructionOperand): InstructionOperand
    requires ModeIsKnown(tables, operand)
  {
    operand.(
      addressingMode :=
        if operand.addressingMode.AnyAddressingMode? then tables.addressingModes[operand.name]
        else operand.addressingMode,
      valueSizeBits :=
        if operand.name in tables.valueSizes then tables.valueSizes[operand.name] else operand.valueSizeBits,
      encoding :=
        if operand.encoding.AnyEncoding? && operand.name in tables.encodings then tables.encodings[operand.name]
        else operand.encoding)
  }

  // What the tables say of an operand, field by field: its mode and encoding if it
  // had none, its size in any case, and nothing about the other fields. Without a
  // mode the operand stays as it is.
  predicate FollowsTables(tables: Tables, before: InstructionOperand, after: InstructionOperand) {
    && after.name == before.name && after.tags == before.tags && after.usage == before.usage
    && after.dataTypeBitWidth == before.dataTypeBitWidth
    && (if before.addressingMode == AnyAddressingMode
        then before.name in tables.addressingModes && after.addressingMode == tables.addressingModes[before.name]
        else after.addressingMode == before.addressingMode)
    && (if before.name in tables.valueSizes
        then after.valueSizeBits == tables.valueSizes[before.name]
        else after.valueSizeBits == before.valueSizeBits)
    && (before.encoding != AnyEncoding ==> after.encoding == before.encoding)
    && (before.encoding == AnyEncoding && before.name in tables.encodings ==>
          after.encoding == tables.encodings[before.name])
  }

  predicate LacksMode(tables: Tables, operand: InstructionOperand) {
    operand.addressingMode == AnyAddressingMode && operand.name !in tables.addressingModes
  }

  predicate AllFollowTables(tables: Tables, before: seq<InstructionOperand>, after: seq<InstructionOperand>) {
    && |before| == |after|
    && forall i :: 0 <= i < |before| ==> IsTreated(tables, before[i], after[i])
  }

  predicate IsTreated(tables: Tables, before: InstructionOperand, after: InstructionOperand) {
    if LacksMode(tables, before) then after == before else FollowsTables(tables, before, after)
  }

  // An operand that a table gives no encoding has none yet.
  lemma AssigningFollowsTables(
    tables: Tables, before: seq<InstructionOperand>, now: seq<InstructionOperand>, after: seq<InstructionOperand>
  )
    requires ModesAreKnown(tables, before) && HasEncodings(tables, before)
    requires AllFollowTables(tables, before, now) && OnlyAssigns(now, after)
    ensures AllFollowTables(tables, before, after)
  {
    forall i | 0 <= i < |before|
      ensures FollowsTables(tables, before[i], after[i])
    {
      assert FollowsTables(tables, before[i], now[i]);
      assert ModeIsKnown(tables, before[i]);
    }
  }

  predicate ModesAreKnown(tables: Tables, operands: seq<InstructionOperand>) {
    forall i :: 0 <= i < |operands| ==> ModeIsKnown(tables, operands[i])
  }

  function PreparedOperands(tables: Tables, operands: seq<InstructionOperand>): (prepared: seq<InstructionOperand>)
    requires ModesAreKnown(tables, operands)
    ensures |prepared| == |operands|
    ensures forall i :: 0 <= i < |operands| ==> prepared[i] == Prepared(tables, operands[i])
  {
    seq(|operands|, i requires 0 <= i < |operands| => Prepared(tables, operands[i]))
  }

  function Undetermined(tables: Tables, operands: seq<InstructionOperand>): (indices: seq<nat>)
    ensures forall k :: 0 <= k < |indices| ==> indices[k] < |operands|
  {
    if operands == [] then []
    else
      var last := |operands| - 1;
      Undetermined(tables, operands[..last]) + (if IsDetermined(tables, operands[last]) then [] else [last])
  }

  // A table may name no encoding at all; such an operand is not counted as used,
  // and the assignment fails.
  predicate HasEncodings(tables: Tables, operands: seq<InstructionOperand>) {
    forall i :: 0 <= i < |operands| && operands[i].encoding.AnyEncoding? && operands[i].name in tables.encodings ==>
      !tables.encodings[operands[i].name].AnyEncoding?
  }

  // The operands that are determined fit, and there is an encoding for each of
  // the others.
  predicate CanAssign(
    tables: Tables, specification: EncodingSpecification, operands: seq<InstructionOperand>
  ) {
    CanAssignFrom(tables, AvailableEncodings(specification), operands)
  }

  predicate CanAssignFrom(
    tables: Tables, available: multiset<OperandEncoding>, operands: seq<InstructionOperand>
  ) {
    && DeterminedFit(tables, available, operands)
    && |Undetermined(tables, operands)| <= |available - UsedEncodings(PreparedOperands(tables, operands))|
  }

  predicate DeterminedFit(
    tables: Tables, available: multiset<OperandEncoding>, operands: seq<InstructionOperand>
  ) {
    && ModesAreKnown(tables, operands) && HasEncodings(tables, operands)
    && UsedEncodings(PreparedOperands(tables, operands)) <= available
  }

  lemma PreparedStep(tables: Tables, operands: seq<InstructionOperand>, i: nat)
    requires i < |operands| && ModesAreKnown(tables, operands[..i]) && ModeIsKnown(tables, operands[i])
    ensures ModesAreKnown(tables, operands[..i + 1])
    ensures var prepared := Prepared(tables, operands[i]);
            && PreparedOperands(tables, operands[..i + 1]) == PreparedOperands(tables, operands[..i]) + [prepared]
            && UsedEncodings(PreparedOperands(tables, operands[..i + 1])) ==
               UsedEncodings(PreparedOperands(tables, operands[..i])) + Counted(prepared.encoding)
  {
    var front := PreparedOperands(tables, operands[..i]);
    var all := PreparedOperands(tables, operands[..i + 1]);
    assert all == front + [Prepared(tables, operands[i])];
    assert all[..i] == front;
  }

  // The operand does not name an encoding, or names one.
  predicate HasEncoding(tables: Tables, operand: InstructionOperand) {
    operand.encoding.AnyEncoding? && operand.name in tables.encodings ==> !tables.encodings[operand.name].AnyEncoding?
  }

  lemma HasEncodingsStep(tables: Tables, operands: seq<InstructionOperand>, i: nat)
    requires i < |operands|
    ensures HasEncodings(tables, operands[..i + 1]) <==>
            HasEncodings(tables, operands[..i]) && HasEncoding(tables, operands[i])
  {
    assert operands[..i + 1] == operands[..i] + [operands[i]];
    assert operands[..i + 1][i] == operands[i];
    assert forall j :: 0 <= j < i ==> operands[..i + 1][j] == operands[..i][j];
  }

  // One more operand fits exactly when its encoding is still available.
  lemma FitStep(
    tables: Tables, available: multiset<OperandEncoding>, operands: seq<InstructionOperand>, i: nat
  )
    requires i < |operands| && DeterminedFit(tables, available, operands[..i])
    requires ModeIsKnown(tables, operands[i])
    requires forall encoding :: encoding in available ==> IsCounted(encoding)
    ensures var encoding := Prepared(tables, operands[i]).encoding;
            var used := UsedEncodings(PreparedOperands(tables, operands[..i]));
            DeterminedFit(tables, available, operands[..i + 1]) <==>
            (IsDetermined(tables, operands[i]) ==> IsImplicitOperandEncoding(encoding) || encoding in available - used)
  {
    PreparedStep(tables, operands, i);
    HasEncodingsStep(tables, operands, i);
    FitOneMore(UsedEncodings(PreparedOperands(tables, operands[..i])), available,
               Prepared(tables, operands[i]).encoding);
  }

  lemma FitOneMore(
    used: multiset<OperandEncoding>, available: multiset<OperandEncoding>, encoding: OperandEncoding
  )
    requires used <= available
    ensures used + Counted(encoding) <= available <==>
            (IsCounted(encoding) ==> encoding in available - used)
  {
    if IsCounted(encoding) && encoding in available - used {
      assert used[encoding] < available[encoding];
    }
    if used + Counted(encoding) <= available && IsCounted(encoding) {
      assert (used + Counted(encoding))[encoding] == used[encoding] + 1 <= available[encoding];
    }
  }

  lemma FitOfFront(
    tables: Tables, available: multiset<OperandEncoding>, operands: seq<InstructionOperand>, i: nat
  )
    requires i < |operands| && DeterminedFit(tables, available, operands[..i + 1])
    ensures DeterminedFit(tables, available, operands[..i]) && ModeIsKnown(tables, operands[i])
  {
    assert operands[..i + 1][i] == operands[i];
    assert forall j :: 0 <= j < i ==> operands[..i + 1][j] == operands[..i][j];
    assert PreparedOperands(tables, operands[..i + 1])[..i] == PreparedOperands(tables, operands[..i]);
  }

  lemma {:induction false} UndeterminedAreUnassigned(tables: Tables, operands: seq<InstructionOperand>)
    requires ModesAreKnown(tables, operands) && HasEncodings(tables, operands)
    ensures NumUnassigned(PreparedOperands(tables, operands)) == |Undetermined(tables, operands)|
    ensures forall k :: 0 <= k < |Undetermined(tables, operands)| ==>
              Undetermined(tables, operands)[k] < |operands| &&
              PreparedOperands(tables, operands)[Undetermined(tables, operands)[k]].encoding.AnyEncoding?
    ensures forall j, k :: 0 <= j < k < |Undetermined(tables, operands)| ==>
              Undetermined(tables, operands)[j] < Undetermined(tables, operands)[k]
  {
    if operands != [] {
      var last := |operands| - 1;
      UndeterminedAreUnassigned(tables, operands[..last]);
      assert PreparedOperands(tables, operands)[..last] == PreparedOperands(tables, operands[..last]);
    }
  }

  // The operands differ in the encodings of those that had none.
  predicate OnlyAssigns(before: seq<InstructionOperand>, after: seq<InstructionOperand>) {
    && |before| == |after|
    && forall i :: 0 <= i < |before| ==>
         && after[i] == before[i].(encoding := after[i].encoding)
         && (!before[i].encoding.AnyEncoding? ==> after[i] == before[i])
  }

  // The encodings of the operands and the available ones make up the total.
  predicate IsConsistent(
    total: multiset<OperandEncoding>, operands: seq<InstructionOperand>, available: multiset<OperandEncoding>
  ) {
    UsedEncodings(operands) + available == total
  }

  lemma TakeOne(
    total: multiset<OperandEncoding>, operands: seq<InstructionOperand>, available: multiset<OperandEncoding>,
    i: nat, encoding: OperandEncoding
  )
    requires IsConsistent(total, operands, available) && encoding in available && IsCounted(encoding)
    requires i < |operands| && operands[i].encoding.AnyEncoding?
    ensures var after := operands[i := operands[i].(encoding := encoding)];
            && IsConsistent(total, after, available - multiset{encoding})
            && NumUnassigned(after) == NumUnassigned(operands) - 1
            && |available - multiset{encoding}| == |available| - 1
            && OnlyAssigns(operands, after)
  {
    AssignOne(operands, i, operands[i].(encoding := encoding));
    MoveBetween(UsedEncodings(operands), available, encoding);
  }

  lemma MoveBetween<T>(a: multiset<T>, b: multiset<T>, x: T)
    requires x in b
    ensures (a + multiset{x}) + (b - multiset{x}) == a + b
  {
  }

  lemma EraseKey(
    total: multiset<OperandEncoding>, operands: seq<InstructionOperand>, available: multiset<OperandEncoding>,
    encoding: OperandEncoding
  )
    requires IsConsistent(total, operands, available) && encoding in available && total[encoding] <= 1
    ensures available[encoding := 0] == available - multiset{encoding}
  {
    assert total[encoding] == UsedEncodings(operands)[encoding] + available[encoding];
  }

  // ---- The assignment -------------------------------------------------------

  // The state of the assignment after the first i of the given operands.
  datatype Progress = Progress(
    operands: seq<InstructionOperand>, available: multiset<OperandEncoding>, unassigned: seq<nat>, status: Status
  )

  predicate IsAssigned(
    tables: Tables, before: seq<InstructionOperand>, available: multiset<OperandEncoding>, i: nat, progress: Progress
  )
    requires i <= |before|
  {
    && |progress.operands| == |before| && progress.operands[i..] == before[i..]
    && AllFollowTables(tables, before[..i], progress.operands[..i])
    && (progress.status.Ok? || progress.status.InvalidArgument?)
    && (progress.status.Ok? <==> DeterminedFit(tables, available, before[..i]))
    && (progress.status.Ok? ==>
          && progress.operands[..i] == PreparedOperands(tables, before[..i])
          && progress.available == available - UsedEncodings(progress.operands[..i])
          && progress.unassigned == Undetermined(tables, before[..i]))
  }

  // What the loop does to one operand.
  function AssignNext(tables: Tables, progress: Progress, i: nat): Progress
    requires i < |progress.operands|
  {
    var operand := progress.operands[i];
    if !ModeIsKnown(tables, operand) then progress.(status := InvalidArgument)
    else
      var prepared := Prepared(tables, operand);
      var next := progress.(operands := progress.operands[i := prepared]);
      if !IsDetermined(tables, operand) then next.(unassigned := next.unassigned + [i])
      else if IsImplicitOperandEncoding(prepared.encoding) then next
      else if prepared.encoding in next.available then
        next.(available := next.available - multiset{prepared.encoding})
      else next.(status := next.status.Then(InvalidArgument))
  }

  lemma NothingRemoved<T>(a: multiset<T>)
    ensures a - multiset{} == a
  {
  }

  lemma AssignNextEffect(tables: Tables, progress: Progress, i: nat, operand: InstructionOperand)
    requires i < |progress.operands| && progress.operands[i] == operand
    requires progress.status.Ok? && ModeIsKnown(tables, operand)
    requires forall encoding :: encoding in progress.available ==> IsCounted(encoding)
    ensures var next := AssignNext(tables, progress, i);
            var encoding := Prepared(tables, operand).encoding;
            && next.operands == progress.operands[i := Prepared(tables, operand)]
            && next.status == (if IsDetermined(tables, operand) ==>
                                    IsImplicitOperandEncoding(encoding) || encoding in progress.available
                               then Ok else InvalidArgument)
            && (next.status.Ok? ==>
                  && next.available == progress.available - Counted(encoding)
                  && next.unassigned ==
                     progress.unassigned + (if IsDetermined(tables, operand) then [] else [i]))
  {
    NothingRemoved(progress.available);
    assert progress.unassigned + [] == progress.unassigned;
  }

  lemma {:induction false} UndeterminedStep(tables: Tables, operands: seq<InstructionOperand>, i: nat)
    requires i < |operands|
    ensures Undetermined(tables, operands[..i + 1]) ==
            Undetermined(tables, operands[..i]) + (if IsDetermined(tables, operands[i]) then [] else [i])
  {
    assert operands[..i + 1][..i] == operands[..i] && operands[..i + 1][i] == operands[i];
  }

  lemma NextIsAssigned(
    tables: Tables, before: seq<InstructionOperand>, available: multiset<OperandEncoding>, i: nat, progress: Progress
  )
    requires i < |before| && IsAssigned(tables, before, available, i, progress)
    requires forall encoding :: encoding in available ==> IsCounted(encoding)
    ensures IsAssigned(tables, before, available, i + 1, AssignNext(tables, progress, i))
  {
    var operand := before[i];
    var next := AssignNext(tables, progress, i);
    assert progress.operands[i] == progress.operands[i..][0] == operand;
    assert next.operands[i + 1..] == progress.operands[i..][1..] == before[i + 1..];
    NextFollowsTables(tables, before, i, progress);
    if progress.status.Ok? && ModeIsKnown(tables, operand) {
      AssignNextEffect(tables, progress, i, operand);
      FitStep(tables, available, before, i);
      PreparedStep(tables, before, i);
      UndeterminedStep(tables, before, i);
      NextIsPrepared(progress.operands, i, Prepared(tables, operand));
      RemainingStep(available, UsedEncodings(progress.operands[..i]), Prepared(tables, operand).encoding);
    } else {
      NextFails(tables, before, available, i);
    }
  }

  lemma OneIsTreated(tables: Tables, progress: Progress, i: nat)
    requires i < |progress.operands|
    ensures var after := AssignNext(tables, progress, i).operands;
            && |after| == |progress.operands| && after == progress.operands[i := after[i]]
            && IsTreated(tables, progress.operands[i], after[i])
  {
  }

  lemma AppendTreated(
    tables: Tables, before: seq<InstructionOperand>, after: seq<InstructionOperand>,
    first: InstructionOperand, second: InstructionOperand
  )
    requires AllFollowTables(tables, before, after) && IsTreated(tables, first, second)
    ensures AllFollowTables(tables, before + [first], after + [second])
  {
  }

  lemma NextFollowsTables(tables: Tables, before: seq<InstructionOperand>, i: nat, progress: Progress)
    requires i < |before| == |progress.operands| && progress.operands[i] == before[i]
    requires AllFollowTables(tables, before[..i], progress.operands[..i])
    ensures AllFollowTables(tables, before[..i + 1], AssignNext(tables, progress, i).operands[..i + 1])
  {
    var after := AssignNext(tables, progress, i).operands;
    OneIsTreated(tables, progress, i);
    AppendTreated(tables, before[..i], progress.operands[..i], before[i], after[i]);
    assert before[..i + 1] == before[..i] + [before[i]];
    assert after[..i + 1] == progress.operands[..i] + [after[i]];
  }

  lemma NextIsPrepared(operands: seq<InstructionOperand>, i: nat, prepared: InstructionOperand)
    requires i < |operands|
    ensures operands[i := prepared][..i + 1] == operands[..i] + [prepared]
  {
  }

  lemma NextFails(
    tables: Tables, before: seq<InstructionOperand>, available: multiset<OperandEncoding>, i: nat
  )
    requires i < |before|
    requires !DeterminedFit(tables, available, before[..i]) || !ModeIsKnown(tables, before[i])
    ensures !DeterminedFit(tables, available, before[..i + 1])
  {
    if DeterminedFit(tables, available, before[..i + 1]) {
      FitOfFront(tables, available, before, i);
    }
  }

  lemma RemainingStep(
    available: multiset<OperandEncoding>, used: multiset<OperandEncoding>, encoding: OperandEncoding
  )
    ensures available - (used + Counted(encoding)) == available - used - Counted(encoding)
  {
  }

  // What is reached after the first pass: the determined operands have their
  // encodings, and the others are open.
  ghost predicate HasDetermined(
    tables: Tables, before: seq<InstructionOperand>, total: multiset<OperandEncoding>, progress: Progress
  ) {
    && DeterminedFit(tables, total, before)
    && progress.operands == PreparedOperands(tables, before)
    && progress.available == total - UsedEncodings(progress.operands)
    && progress.unassigned == Undetermined(tables, before)
    && |progress.unassigned| == NumUnassigned(progress.operands)
    && IsConsistent(total, progress.operands, progress.available)
    && AreUnassigned(progress.unassigned, progress.operands)
  }

  lemma DeterminedInAll(
    tables: Tables, before: seq<InstructionOperand>, total: multiset<OperandEncoding>, progress: Progress
  )
    requires IsAssigned(tables, before, total, |before|, progress)
    ensures AllFollowTables(tables, before, progress.operands)
    ensures progress.status.Ok? <==> DeterminedFit(tables, total, before)
    ensures progress.status.Ok? ==> HasDetermined(tables, before, total, progress)
  {
    WholePrefix(before);
    WholePrefix(progress.operands);
    if progress.status.Ok? {
      UndeterminedAreUnassigned(tables, before);
    }
  }

  lemma FollowsAfter(
    tables: Tables, before: seq<InstructionOperand>, total: multiset<OperandEncoding>,
    now: seq<InstructionOperand>, after: seq<InstructionOperand>
  )
    requires DeterminedFit(tables, total, before) && AllFollowTables(tables, before, now) && OnlyAssigns(now, after)
    ensures AllFollowTables(tables, before, after)
  {
    AssigningFollowsTables(tables, before, now, after);
  }

  class OperandAssignment {
    const tables: Tables
    const encodingScheme: string
    var operands: seq<InstructionOperand>
    var availableEncodings: multiset<OperandEncoding>
    var operandsWithNoEncoding: seq<nat>

    constructor (tables: Tables, encodingScheme: string, operands: seq<InstructionOperand>)
      ensures this.tables == tables && this.encodingScheme == encodingScheme && this.operands == operands
    {
      this.tables := tables;
      this.encodingScheme := encodingScheme;
      this.operands := operands;
      availableEncodings := multiset{};
      operandsWithNoEncoding := [];
    }

    method EraseOperandEncoding(operand: InstructionOperand) returns (status: Status)
      modifies `availableEncodings
      ensures var encoding := operand.encoding;
              if IsImplicitOperandEncoding(encoding) then
                status.Ok? && availableEncodings == old(availableEncodings)
              else if encoding in old(availableEncodings) then
                status.Ok? && availableEncodings == old(availableEncodings) - multiset{encoding}
              else
                status.InvalidArgument? && availableEncodings == old(availableEncodings)
    {
      status := Ok;
      var encoding := operand.encoding;
      var isImplicit := IsInCategory(encoding.Number(), OperandEncoding.ImplicitEncoding.Number());
      ImplicitIsACategory(encoding);
      if !isImplicit {
        if encoding !in availableEncodings {
          status := InvalidArgument;
        } else {
          availableEncodings := availableEncodings - multiset{encoding};
        }
      }
    }
 
    ghost function State(status: Status): Progress
      reads this
    {
      Progress(operands, availableEncodings, operandsWithNoEncoding, status)
    }

    // Assigns what is determined by the operands themselves.
    method AssignOperandPropertiesWhereUniquelyDetermined() returns (status: Status)
      requires operandsWithNoEncoding == []
      requires forall encoding :: encoding in availableEncodings ==> IsCounted(encoding)
      modifies this
      ensures IsAssigned(tables, old(operands), old(availableEncodings), |old(operands)|, State(status))
    {
      status := Ok;
      ghost var before, available := operands, availableEncodings;
      for i := 0 to |operands|
        invariant |operands| == |before| && IsAssigned(tables, before, available, i, State(status))
      {
        NextIsAssigned(tables, before, available, i, State(status));
        status := AssignOperandProperties(i, status);
      }
    }

    method AssignOperandProperties(i: nat, statusSoFar: Status) returns (status: Status)
      requires i < |operands|
      modifies this
      ensures State(status) == AssignNext(tables, old(State(statusSoFar)), i)
    {
      status := statusSoFar;
      var operand := operands[i];
      var isKnown;
      operand, isKnown := AssignModeAndSize(operand);
      if !isKnown {
        return InvalidArgument;
      }
      var isDetermined := true;
      if operand.encoding.AnyEncoding? {
        if operand.name in tables.encodings {
          operand := operand.(encoding := tables.encodings[operand.name]);
        } else {
          isDetermined := false;
        }
      }
      assert operand == Prepared(tables, operands[i]) && isDetermined == IsDetermined(tables, operands[i]);
      operands := operands[i := operand];
      if isDetermined {
        var erased := EraseOperandEncoding(operand);
        status := status.Then(erased);
      } else {
        operandsWithNoEncoding := operandsWithNoEncoding + [i];
      }
    }

    method AssignModeAndSize(operand: InstructionOperand) returns (result: InstructionOperand, isKnown: bool)
      ensures isKnown <==> ModeIsKnown(tables, operand)
      ensures isKnown ==> result == Prepared(tables, operand).(encoding := operand.encoding)
    {
      result, isKnown := operand, true;
      if operand.addressingMode.AnyAddressingMode? {
        if operand.name !in tables.addressingModes {
          return operand, false;
        }
        result := result.(addressingMode := tables.addressingModes[operand.name]);
      }
      if operand.name in tables.valueSizes {
        result := result.(valueSizeBits := tables.valueSizes[operand.name]);
      }
    }

    // Removes all copies of the encoding; there is at most one.
    method AssignEncodingIfAvailable(i: nat, encoding: OperandEncoding, ghost total: multiset<OperandEncoding>)
      returns (isAssigned: bool)
      requires i < |operands| && operands[i].encoding.AnyEncoding?
      requires IsConsistent(total, operands, availableEncodings) && total[encoding] <= 1 && IsCounted(encoding)
      modifies `operands, `availableEncodings
      ensures IsConsistent(total, operands, availableEncodings)
      ensures isAssigned <==> encoding in old(availableEncodings)
      ensures isAssigned ==>
                && operands == old(operands)[i := old(operands)[i].(encoding := encoding)]
                && availableEncodings == old(availableEncodings)[encoding := 0]
                && |availableEncodings| == |old(availableEncodings)| - 1
                && NumUnassigned(operands) == NumUnassigned(old(operands)) - 1
      ensures !isAssigned ==> operands == old(operands) && availableEncodings == old(availableEncodings)
    {
      if encoding in availableEncodings {
        TakeOne(total, operands, availableEncodings, i, encoding);
        EraseKey(total, operands, availableEncodings, encoding);
        operands := operands[i := operands[i].(encoding := encoding)];
        availableEncodings := availableEncodings[encoding := 0];
        return true;
      }
      return false;
    }

    // Follows the letters of the encoding scheme where the encodings they stand for
    // are still available.
    method AssignEncodingByEncodingScheme(ghost total: multiset<OperandEncoding>)
      requires IsConsistent(total, operands, availableEncodings)
      requires total[ModRmRmEncoding] <= 1 && total[ModRmRegEncoding] <= 1
      requires total[VexSuffixEncoding] <= 1 && total[VexVEncoding] <= 1
      requires AreUnassigned(operandsWithNoEncoding, operands)
      modifies `operands, `availableEncodings
      ensures IsConsistent(total, operands, availableEncodings) && OnlyAssigns(old(operands), operands)
      ensures (operands, availableEncodings) ==
              FollowScheme(encodingScheme, operandsWithNoEncoding, old(operands), old(availableEncodings))
      ensures NumUnassigned(operands) - |availableEncodings| ==
              NumUnassigned(old(operands)) - |old(availableEncodings)|
    {
      ghost var before, available := operands, availableEncodings;
      if |encodingScheme| >= |operands| {
        for k := 0 to |operandsWithNoEncoding|
          invariant IsConsistent(total, operands, availableEncodings) && OnlyAssigns(before, operands)
          invariant (operands, availableEncodings) ==
                    FollowScheme(encodingScheme, operandsWithNoEncoding[..k], before, available)
          invariant NumUnassigned(operands) - |availableEncodings| == NumUnassigned(before) - |available|
          invariant forall j :: k <= j < |operandsWithNoEncoding| ==>
                      operands[operandsWithNoEncoding[j]].encoding.AnyEncoding?
        {
          ghost var now := operands;
          FollowSchemeStep(encodingScheme, operandsWithNoEncoding, k, before, available);
          AssignByLetter(operandsWithNoEncoding[k], total);
          OnlyAssignsStep(operandsWithNoEncoding, k, before, now, operands);
        }
        WholePrefix(operandsWithNoEncoding);
      }
    }

    method AssignByLetter(i: nat, ghost total: multiset<OperandEncoding>)
      requires i < |operands| <= |encodingScheme| && operands[i].encoding.AnyEncoding?
      requires IsConsistent(total, operands, availableEncodings)
      requires total[ModRmRmEncoding] <= 1 && total[ModRmRegEncoding] <= 1
      requires total[VexSuffixEncoding] <= 1 && total[VexVEncoding] <= 1
      modifies `operands, `availableEncodings
      ensures IsConsistent(total, operands, availableEncodings)
      ensures (operands, availableEncodings) ==
              FollowLetter(encodingScheme[i], i, old(operands), old(availableEncodings))
      ensures NumUnassigned(operands) - |availableEncodings| ==
              NumUnassigned(old(operands)) - |old(availableEncodings)|
    {
      var letter := encodingScheme[i];
      assert operands == operands[i := operands[i].(encoding := AnyEncoding)];
      var isAssigned;
      if letter == 'M' {
        isAssigned := AssignEncodingIfAvailable(i, ModRmRmEncoding, total);
      } else if letter == 'R' {
        isAssigned := AssignEncodingIfAvailable(i, ModRmRegEncoding, total);
        if !isAssigned {
          isAssigned := AssignEncodingIfAvailable(i, VexSuffixEncoding, total);
        }
      } else if letter == 'V' {
        isAssigned := AssignEncodingIfAvailable(i, VexVEncoding, total);
      } else if letter == 'X' {
        isAssigned := AssignEncodingIfAvailable(i, ModRmRegEncoding, total);
      }
    }

    // Takes any of the remaining encodings: the first one in the order of the hash
    // table.
    method AssignEncodingRandomlyFromAvailableEncodings(ghost total: multiset<OperandEncoding>)
      returns (status: Status)
      requires IsConsistent(total, operands, availableEncodings)
      requires forall encoding :: encoding in total ==> IsCounted(encoding)
      modifies `operands, `availableEncodings
      ensures status.Ok? <==> NumUnassigned(old(operands)) <= |old(availableEncodings)|
      ensures status.Ok? || status.InvalidArgument?
      ensures IsConsistent(total, operands, availableEncodings) && OnlyAssigns(old(operands), operands)
      ensures status.Ok? ==> forall i :: 0 <= i < |operands| ==> !operands[i].encoding.AnyEncoding?
    {
      for i := 0 to |operands|
        invariant |operands| == |old(operands)|
        invariant IsConsistent(total, operands, availableEncodings) && OnlyAssigns(old(operands), operands)
        invariant NumUnassigned(operands) - |availableEncodings| ==
                  NumUnassigned(old(operands)) - |old(availableEncodings)|
        invariant forall j :: 0 <= j < i ==> !operands[j].encoding.AnyEncoding?
      {
        var isAssigned := AssignIfOpen(i, old(operands), total);
        if !isAssigned {
          return InvalidArgument;
        }
      }
      UnassignedExists(operands);
      return Ok;
    }

    // Fails if the operand is open and nothing is available.
    method AssignIfOpen(i: nat, ghost before: seq<InstructionOperand>, ghost total: multiset<OperandEncoding>)
      returns (isAssigned: bool)
      requires i < |operands| && OnlyAssigns(before, operands)
      requires IsConsistent(total, operands, availableEncodings)
      requires forall encoding :: encoding in total ==> IsCounted(encoding)
      modifies `operands, `availableEncodings
      ensures IsConsistent(total, operands, availableEncodings) && OnlyAssigns(before, operands)
      ensures NumUnassigned(operands) - |availableEncodings| ==
              NumUnassigned(old(operands)) - |old(availableEncodings)|
      ensures |operands| == |old(operands)| && operands == old(operands)[i := operands[i]]
      ensures if isAssigned then !operands[i].encoding.AnyEncoding?
              else NumUnassigned(operands) > 0 && availableEncodings == multiset{}
    {
      if operands[i].encoding.AnyEncoding? {
        UnassignedExists(operands);
        if availableEncodings == multiset{} {
          return false;
        }
        ghost var now := operands;
        AssignAnyAvailable(i, total);
        OnlyAssignsOne(before, now, operands, i);
      }
      return true;
    }

    method AssignAnyAvailable(i: nat, ghost total: multiset<OperandEncoding>)
      requires i < |operands| && operands[i].encoding.AnyEncoding? && availableEncodings != multiset{}
      requires IsConsistent(total, operands, availableEncodings)
      requires forall encoding :: encoding in total ==> IsCounted(encoding)
      modifies `operands, `availableEncodings
      ensures IsConsistent(total, operands, availableEncodings)
      ensures exists encoding :: IsCounted(encoding) && encoding in old(availableEncodings) &&
                operands == old(operands)[i := old(operands)[i].(encoding := encoding)] &&
                availableEncodings == old(availableEncodings) - multiset{encoding}
      ensures |availableEncodings| == |old(availableEncodings)| - 1
      ensures NumUnassigned(operands) == NumUnassigned(old(operands)) - 1
    {
      var encoding :| encoding in availableEncodings;
      assert encoding in total;
      TakeOne(total, operands, availableEncodings, i, encoding);
      operands := operands[i := operands[i].(encoding := encoding)];
      availableEncodings := availableEncodings - multiset{encoding};
    }

    // Succeeds exactly when the determined encodings fit and the others suffice,
    // whatever the order of the hash table is. Then every operand has an encoding,
    // and together they use each encoding at most as often as it is available.
    method AddOperandInfoToSyntax(specification: Option<EncodingSpecification>) returns (status: Status)
      requires specification.Some? ==> VSibHasModRm(specification.value)
      requires operandsWithNoEncoding == []
      modifies this
      ensures specification.None? ==> status.FailedPrecondition? && operands == old(operands)
      ensures specification.Some? ==> AllFollowTables(tables, old(operands), operands)
      ensures specification.Some? ==>
                (status.Ok? || status.InvalidArgument?) &&
                (status.Ok? <==> CanAssign(tables, specification.value, old(operands)))
      ensures status.Ok? ==>
                && (forall i :: 0 <= i < |operands| ==> !operands[i].encoding.AnyEncoding?)
                && UsedEncodings(operands) <= AvailableEncodings(specification.value)
                && OnlyAssigns(GuidedOperands(tables, encodingScheme, AvailableEncodings(specification.value), old(operands)), operands)
                && FollowsLetters(tables, encodingScheme, AvailableEncodings(specification.value), old(operands), operands)
    {
      if specification.None? {
        return FailedPrecondition;
      }
      availableEncodings := GetAvailableEncodings(specification.value);
      AvailableIsCounted(specification.value);
      ghost var before := operands;
      status := AssignOperands();
      if status.Ok? {
        LettersAreFollowed(tables, encodingScheme, AvailableEncodings(specification.value), before, operands);
      }
    }

    // The assignment from the encodings that are available at the start.
    method AssignOperands() returns (status: Status)
      requires operandsWithNoEncoding == []
      requires forall encoding :: encoding in availableEncodings ==> IsCounted(encoding)
      requires forall encoding: OperandEncoding :: !encoding.ImmediateValueEncoding? ==> availableEncodings[encoding] <= 1
      modifies this
      ensures status.Ok? || status.InvalidArgument?
      ensures AllFollowTables(tables, old(operands), operands)
      ensures status.Ok? <==> CanAssignFrom(tables, old(availableEncodings), old(operands))
      ensures status.Ok? ==>
                && (forall i :: 0 <= i < |operands| ==> !operands[i].encoding.AnyEncoding?)
                && UsedEncodings(operands) <= old(availableEncodings)
                && OnlyAssigns(GuidedOperands(tables, encodingScheme, old(availableEncodings), old(operands)), operands)
                && TakesSingle(Undetermined(tables, old(operands)),
                               old(availableEncodings) - UsedEncodings(PreparedOperands(tables, old(operands))), operands)
    {
      ghost var before, total := operands, availableEncodings;
      status := AssignOperandPropertiesWhereUniquelyDetermined();
      DeterminedInAll(tables, before, total, State(status));
      if !status.Ok? {
        return;
      }
      ghost var now := operands;
      status := AssignOpenOperands(before, total);
      FollowsAfter(tables, before, total, now, operands);
    }

    // The second pass, over the operands that the first one has left open.
    method AssignOpenOperands(ghost before: seq<InstructionOperand>, ghost total: multiset<OperandEncoding>)
      returns (status: Status)
      requires HasDetermined(tables, before, total, State(Ok))
      requires forall encoding :: encoding in total ==> IsCounted(encoding)
      requires forall encoding: OperandEncoding :: !encoding.ImmediateValueEncoding? ==> total[encoding] <= 1
      modifies `operands, `availableEncodings
      ensures status.Ok? || status.InvalidArgument?
      ensures OnlyAssigns(old(operands), operands)
      ensures status.Ok? <==> CanAssignFrom(tables, total, before)
      ensures status.Ok? ==>
                && (forall i :: 0 <= i < |operands| ==> !operands[i].encoding.AnyEncoding?)
                && UsedEncodings(operands) <= total
                && OnlyAssigns(GuidedOperands(tables, encodingScheme, total, before), operands)
                && TakesSingle(Undetermined(tables, before), total - UsedEncodings(PreparedOperands(tables, before)), operands)
    {
      if operandsWithNoEncoding != [] {
        status := AssignRemaining(total);
      } else {
        UnassignedExists(operands);
        status := Ok;
      }
    }

    method AssignRemaining(ghost total: multiset<OperandEncoding>) returns (status: Status)
      requires operandsWithNoEncoding != [] && |operandsWithNoEncoding| == NumUnassigned(operands)
      requires IsConsistent(total, operands, availableEncodings)
      requires forall encoding :: encoding in total ==> IsCounted(encoding)
      requires forall encoding: OperandEncoding :: !encoding.ImmediateValueEncoding? ==> total[encoding] <= 1
      requires AreUnassigned(operandsWithNoEncoding, operands)
      modifies `operands, `availableEncodings
      ensures status.Ok? || status.InvalidArgument?
      ensures OnlyAssigns(old(operands), operands)
      ensures status.Ok? <==> |operandsWithNoEncoding| <= |old(availableEncodings)|
      ensures status.Ok? ==>
                OnlyAssigns(Guided(encodingScheme, operandsWithNoEncoding, old(operands), old(availableEncodings)),
                            operands)
      ensures status.Ok? ==>
                && (forall i :: 0 <= i < |operands| ==> !operands[i].encoding.AnyEncoding?)
                && UsedEncodings(operands) <= total
      ensures TakesSingle(operandsWithNoEncoding, old(availableEncodings), operands)
    {
      if |operandsWithNoEncoding| == 1 && |availableEncodings| == 1 {
        var i := operandsWithNoEncoding[0];
        var encoding :| encoding in availableEncodings;
        assert encoding in total;
        TakeOne(total, operands, availableEncodings, i, encoding);
        operands := operands[i := operands[i].(encoding := encoding)];
        UnassignedExists(operands);
        return Ok;
      } else if |operandsWithNoEncoding| <= |availableEncodings| {
        AssignEncodingByEncodingScheme(total);
        status := AssignEncodingRandomlyFromAvailableEncodings(total);
        return status;
      }
      return InvalidArgument;
    }
  }

  // What a letter of the encoding scheme assigns; nothing if the encoding it
  // stands for is taken.
  function EncodingOfLetter(letter: char, available: multiset<OperandEncoding>): OperandEncoding {
    if letter == 'M' && ModRmRmEncoding in available then ModRmRmEncoding
    else if (letter == 'R' || letter == 'X') && ModRmRegEncoding in available then ModRmRegEncoding
    else if letter == 'R' && VexSuffixEncoding in available then VexSuffixEncoding
    else if letter == 'V' && VexVEncoding in available then VexVEncoding
    else AnyEncoding
  }

  // Erasing by key takes the only copy of the encoding.
  function FollowLetter(
    letter: char, i: nat, operands: seq<InstructionOperand>, available: multiset<OperandEncoding>
  ): (seq<InstructionOperand>, multiset<OperandEncoding>)
    requires i < |operands|
  {
    var encoding := EncodingOfLetter(letter, available);
    (operands[i := operands[i].(encoding := encoding)],
     if encoding.AnyEncoding? then available else available[encoding := 0])
  }

  // The operands and the remaining encodings after following the scheme, which is
  // ignored when it is too short.
  function FollowScheme(
    scheme: string, indices: seq<nat>, operands: seq<InstructionOperand>, available: multiset<OperandEncoding>
  ): (result: (seq<InstructionOperand>, multiset<OperandEncoding>))
    requires forall k :: 0 <= k < |indices| ==> indices[k] < |operands|
    ensures |result.0| == |operands|
  {
    if indices == [] || |scheme| < |operands| then (operands, available)
    else
      var last := indices[|indices| - 1];
      var front := FollowScheme(scheme, indices[..|indices| - 1], operands, available);
      FollowLetter(scheme[last], last, front.0, front.1)
  }

  lemma {:induction false} FollowSchemeStep(
    scheme: string, indices: seq<nat>, k: nat, operands: seq<InstructionOperand>,
    available: multiset<OperandEncoding>
  )
    requires k < |indices| && |scheme| >= |operands|
    requires forall j :: 0 <= j < |indices| ==> indices[j] < |operands|
    ensures var before := FollowScheme(scheme, indices[..k], operands, available);
            FollowScheme(scheme, indices[..k + 1], operands, available) ==
            FollowLetter(scheme[indices[k]], indices[k], before.0, before.1)
  {
    assert indices[..k + 1][..k] == indices[..k];
  }

  lemma OnlyAssignsOne(
    before: seq<InstructionOperand>, now: seq<InstructionOperand>, after: seq<InstructionOperand>, i: nat
  )
    requires OnlyAssigns(before, now) && i < |now| == |after| && now[i].encoding.AnyEncoding?
    requires after == now[i := now[i].(encoding := after[i].encoding)]
    ensures OnlyAssigns(before, after)
  {
  }

  lemma OnlyAssignsStep(
    indices: seq<nat>, k: nat, before: seq<InstructionOperand>, now: seq<InstructionOperand>,
    after: seq<InstructionOperand>
  )
    requires k < |indices| && AreUnassigned(indices, before) && OnlyAssigns(before, now)
    requires forall j :: k <= j < |indices| ==> now[indices[j]].encoding.AnyEncoding?
    requires |after| == |now| &&
             after == now[indices[k] := now[indices[k]].(encoding := after[indices[k]].encoding)]
    ensures OnlyAssigns(before, after)
    ensures forall j :: k + 1 <= j < |indices| ==> after[indices[j]].encoding.AnyEncoding?
  {
    assert forall j :: k + 1 <= j < |indices| ==> indices[k] < indices[j];
  }

  // Which operands are left for the scheme.
  predicate AreUnassigned(indices: seq<nat>, operands: seq<InstructionOperand>) {
    && (forall k :: 0 <= k < |indices| ==>
          indices[k] < |operands| && operands[indices[k]].encoding.AnyEncoding?)
    && (forall j, k :: 0 <= j < k < |indices| ==> indices[j] < indices[k])
  }

  // A single operand gets the single encoding that is left, whatever its letter.
  function Guided(
    scheme: string, indices: seq<nat>, operands: seq<InstructionOperand>, available: multiset<OperandEncoding>
  ): seq<InstructionOperand>
    requires forall k :: 0 <= k < |indices| ==> indices[k] < |operands|
  {
    if |indices| == 1 && |available| == 1 then operands else FollowScheme(scheme, indices, operands, available).0
  }

  function GuidedOperands(
    tables: Tables, scheme: string, available: multiset<OperandEncoding>, operands: seq<InstructionOperand>
  ): seq<InstructionOperand>
    requires ModesAreKnown(tables, operands)
  {
    var prepared := PreparedOperands(tables, operands);
    Guided(scheme, Undetermined(tables, operands), prepared, available - UsedEncodings(prepared))
  }

  // The letter that asks for an encoding in the first place.
  predicate Wants(letter: char, encoding: OperandEncoding) {
    match encoding
    case ModRmRmEncoding => letter == 'M'
    case ModRmRegEncoding => letter == 'R' || letter == 'X'
    case VexVEncoding => letter == 'V'
    case _ => false
  }

  predicate IsFirstToWant(scheme: string, indices: seq<nat>, k: nat, encoding: OperandEncoding)
    requires k < |indices| && forall j :: 0 <= j < |indices| ==> indices[j] < |scheme|
  {
    Wants(scheme[indices[k]], encoding) && forall j :: 0 <= j < k ==> !Wants(scheme[indices[j]], encoding)
  }

  predicate IsPrimary(encoding: OperandEncoding) {
    encoding.ModRmRmEncoding? || encoding.ModRmRegEncoding? || encoding.VexVEncoding?
  }

  lemma {:induction false} LeftByScheme(
    scheme: string, indices: seq<nat>, operands: seq<InstructionOperand>, available: multiset<OperandEncoding>,
    encoding: OperandEncoding
  )
    requires IsPrimary(encoding) && |scheme| >= |operands|
    requires forall k :: 0 <= k < |indices| ==> indices[k] < |operands|
    ensures encoding in FollowScheme(scheme, indices, operands, available).1 <==>
            encoding in available && forall k :: 0 <= k < |indices| ==> !Wants(scheme[indices[k]], encoding)
  {
    if indices != [] {
      LeftByScheme(scheme, indices[..|indices| - 1], operands, available, encoding);
    }
  }

  lemma LetterGives(letter: char, available: multiset<OperandEncoding>, encoding: OperandEncoding)
    requires IsPrimary(encoding)
    ensures EncodingOfLetter(letter, available) == encoding <==> Wants(letter, encoding) && encoding in available
  {
  }

  // Among the operands that the scheme is followed for, an encoding goes to the
  // first one whose letter asks for it, if it was available, and to no other.
  lemma {:induction false} FirstToWantIsAssigned(
    scheme: string, indices: seq<nat>, operands: seq<InstructionOperand>, available: multiset<OperandEncoding>,
    encoding: OperandEncoding, k: nat
  )
    requires IsPrimary(encoding) && |scheme| >= |operands| && k < |indices|
    requires AreUnassigned(indices, operands)
    ensures FollowScheme(scheme, indices, operands, available).0[indices[k]].encoding == encoding <==>
            encoding in available && IsFirstToWant(scheme, indices, k, encoding)
  {
    var last := |indices| - 1;
    if k < last {
      FirstToWantIsAssigned(scheme, indices[..last], operands, available, encoding, k);
      FirstOfFront(scheme, indices, k, encoding);
      OthersAreKept(scheme, indices, operands, available, k);
    } else {
      LastIsAssigned(scheme, indices, operands, available, encoding);
    }
  }

  lemma FirstOfFront(scheme: string, indices: seq<nat>, k: nat, encoding: OperandEncoding)
    requires k < |indices| - 1 && forall j :: 0 <= j < |indices| ==> indices[j] < |scheme|
    ensures IsFirstToWant(scheme, indices[..|indices| - 1], k, encoding) <==>
            IsFirstToWant(scheme, indices, k, encoding)
  {
    assert forall j :: 0 <= j <= k ==> indices[..|indices| - 1][j] == indices[j];
  }

  // The last step does not change the operands of the earlier ones.
  lemma {:induction false} OthersAreKept(
    scheme: string, indices: seq<nat>, operands: seq<InstructionOperand>, available: multiset<OperandEncoding>, k: nat
  )
    requires |scheme| >= |operands| && k < |indices| - 1 && AreUnassigned(indices, operands)
    ensures FollowScheme(scheme, indices, operands, available).0[indices[k]] ==
            FollowScheme(scheme, indices[..|indices| - 1], operands, available).0[indices[k]]
  {
    assert indices[k] < indices[|indices| - 1];
  }

  lemma {:induction false} LastIsAssigned(
    scheme: string, indices: seq<nat>, operands: seq<InstructionOperand>, available: multiset<OperandEncoding>,
    encoding: OperandEncoding
  )
    requires IsPrimary(encoding) && |scheme| >= |operands| && indices != []
    requires AreUnassigned(indices, operands)
    ensures var last := |indices| - 1;
            FollowScheme(scheme, indices, operands, available).0[indices[last]].encoding == encoding <==>
            encoding in available && IsFirstToWant(scheme, indices, last, encoding)
  {
    var last := |indices| - 1;
    var front := indices[..last];
    LeftByScheme(scheme, front, operands, available, encoding);
    LetterGives(scheme[indices[last]], FollowScheme(scheme, front, operands, available).1, encoding);
    assert forall j :: 0 <= j < last ==> front[j] == indices[j];
  }

  // The operand asks for the suffix: its letter is R, and modrm.reg is not there or
  // goes to an earlier operand.
  predicate WantsSuffix(scheme: string, indices: seq<nat>, available: multiset<OperandEncoding>, k: nat)
    requires k < |indices| && forall j :: 0 <= j < |indices| ==> indices[j] < |scheme|
  {
    scheme[indices[k]] == 'R' &&
    (ModRmRegEncoding in available ==> exists j :: 0 <= j < k && Wants(scheme[indices[j]], ModRmRegEncoding))
  }

  lemma WantsSuffixInFront(scheme: string, indices: seq<nat>, available: multiset<OperandEncoding>, k: nat)
    requires k < |indices| - 1 && forall j :: 0 <= j < |indices| ==> indices[j] < |scheme|
    ensures WantsSuffix(scheme, indices[..|indices| - 1], available, k) <==> WantsSuffix(scheme, indices, available, k)
  {
    assert forall j :: 0 <= j <= k ==> indices[..|indices| - 1][j] == indices[j];
  }

  lemma {:induction false} LastWantsSuffix(
    scheme: string, indices: seq<nat>, operands: seq<InstructionOperand>, available: multiset<OperandEncoding>
  )
    requires |scheme| >= |operands| && indices != []
    requires forall k :: 0 <= k < |indices| ==> indices[k] < |operands|
    ensures var last := |indices| - 1;
            WantsSuffix(scheme, indices, available, last) <==>
            scheme[indices[last]] == 'R' &&
            ModRmRegEncoding !in FollowScheme(scheme, indices[..last], operands, available).1
  {
    var last := |indices| - 1;
    LeftByScheme(scheme, indices[..last], operands, available, ModRmRegEncoding);
    assert forall j :: 0 <= j < last ==> indices[..last][j] == indices[j];
    if j :| 0 <= j < last && Wants(scheme[indices[j]], ModRmRegEncoding) {
      assert Wants(scheme[indices[..last][j]], ModRmRegEncoding);
    }
  }

  lemma {:induction false} SuffixLeftByScheme(
    scheme: string, indices: seq<nat>, operands: seq<InstructionOperand>, available: multiset<OperandEncoding>
  )
    requires |scheme| >= |operands|
    requires forall k :: 0 <= k < |indices| ==> indices[k] < |operands|
    ensures VexSuffixEncoding in FollowScheme(scheme, indices, operands, available).1 <==>
            VexSuffixEncoding in available &&
            forall k :: 0 <= k < |indices| ==> !WantsSuffix(scheme, indices, available, k)
  {
    if indices != [] {
      var last := |indices| - 1;
      var front := indices[..last];
      SuffixLeftByScheme(scheme, front, operands, available);
      LastWantsSuffix(scheme, indices, operands, available);
      SuffixByLetter(scheme[indices[last]], FollowScheme(scheme, front, operands, available).1);
      forall k | 0 <= k < last
        ensures WantsSuffix(scheme, front, available, k) <==> WantsSuffix(scheme, indices, available, k)
      {
        WantsSuffixInFront(scheme, indices, available, k);
      }
    }
  }

  lemma SuffixByLetter(letter: char, available: multiset<OperandEncoding>)
    ensures EncodingOfLetter(letter, available) == VexSuffixEncoding <==>
            letter == 'R' && ModRmRegEncoding !in available && VexSuffixEncoding in available
    ensures EncodingOfLetter(letter, available) in
            {AnyEncoding, ModRmRmEncoding, ModRmRegEncoding, VexVEncoding, VexSuffixEncoding}
  {
  }

  // The VEX suffix goes to the first operand that asks for it and to no other, and a
  // letter gives no other encodings than these.
  lemma {:induction false} SecondRegisterIsSuffix(
    scheme: string, indices: seq<nat>, operands: seq<InstructionOperand>, available: multiset<OperandEncoding>, k: nat
  )
    requires |scheme| >= |operands| && k < |indices| && AreUnassigned(indices, operands)
    ensures var encoding := FollowScheme(scheme, indices, operands, available).0[indices[k]].encoding;
            && (encoding == VexSuffixEncoding <==>
                && VexSuffixEncoding in available && WantsSuffix(scheme, indices, available, k)
                && forall j :: 0 <= j < k ==> !WantsSuffix(scheme, indices, available, j))
            && encoding in {AnyEncoding, ModRmRmEncoding, ModRmRegEncoding, VexVEncoding, VexSuffixEncoding}
  {
    var last := |indices| - 1;
    var front := indices[..last];
    forall j | 0 <= j < last
      ensures WantsSuffix(scheme, front, available, j) <==> WantsSuffix(scheme, indices, available, j)
    {
      WantsSuffixInFront(scheme, indices, available, j);
    }
    if k < last {
      FrontIsUnassigned(indices, operands);
      SecondRegisterIsSuffix(scheme, front, operands, available, k);
      OthersAreKept(scheme, indices, operands, available, k);
    } else {
      SuffixLeftByScheme(scheme, front, operands, available);
      LastWantsSuffix(scheme, indices, operands, available);
      SuffixByLetter(scheme[indices[last]], FollowScheme(scheme, front, operands, available).1);
    }
  }

  lemma FrontIsUnassigned(indices: seq<nat>, operands: seq<InstructionOperand>)
    requires indices != [] && AreUnassigned(indices, operands)
    ensures AreUnassigned(indices[..|indices| - 1], operands)
  {
  }

  // ---- What the letters give ------------------------------------------------

  // An operand for which neither itself nor the table names an encoding.
  predicate IsOpen(tables: Tables, operand: InstructionOperand) {
    operand.encoding == AnyEncoding && operand.name !in tables.encodings
  }

  // The encoding is available, and no operand with an encoding of its own has it.
  predicate IsLeft(
    tables: Tables, available: multiset<OperandEncoding>, before: seq<InstructionOperand>,
    after: seq<InstructionOperand>, encoding: OperandEncoding
  )
    requires |before| == |after|
  {
    encoding in available &&
    forall i :: 0 <= i < |before| && !IsOpen(tables, before[i]) ==> after[i].encoding != encoding
  }

  predicate IsFirstOpenToWant(
    tables: Tables, scheme: string, before: seq<InstructionOperand>, k: nat, encoding: OperandEncoding
  )
    requires k < |before| <= |scheme|
  {
    && IsOpen(tables, before[k]) && Wants(scheme[k], encoding)
    && forall j :: 0 <= j < k && IsOpen(tables, before[j]) ==> !Wants(scheme[j], encoding)
  }

  // With a letter for each operand, an encoding that is left goes to the first open
  // operand whose letter asks for it.
  predicate FollowsLetters(
    tables: Tables, scheme: string, available: multiset<OperandEncoding>,
    before: seq<InstructionOperand>, after: seq<InstructionOperand>
  ) {
    && |before| == |after|
    && (|scheme| >= |before| ==>
          forall k, encoding ::
            && 0 <= k < |before| && IsPrimary(encoding)
            && IsFirstOpenToWant(tables, scheme, before, k, encoding)
            && IsLeft(tables, available, before, after, encoding) ==>
              after[k].encoding == encoding)
  }

  lemma {:induction false} UndeterminedAreOpen(tables: Tables, operands: seq<InstructionOperand>)
    ensures forall i :: i in Undetermined(tables, operands) <==> 0 <= i < |operands| && IsOpen(tables, operands[i])
    ensures forall j, k :: 0 <= j < k < |Undetermined(tables, operands)| ==>
              Undetermined(tables, operands)[j] < Undetermined(tables, operands)[k]
  {
    if operands != [] {
      var last := |operands| - 1;
      UndeterminedAreOpen(tables, operands[..last]);
      assert forall i :: 0 <= i < last ==> operands[..last][i] == operands[i];
    }
  }

  lemma {:induction false} NotUsed(operands: seq<InstructionOperand>, encoding: OperandEncoding)
    requires forall i :: 0 <= i < |operands| ==> operands[i].encoding != encoding
    ensures UsedEncodings(operands)[encoding] == 0
  {
    if operands != [] {
      NotUsed(operands[..|operands| - 1], encoding);
    }
  }

  lemma OnlyOne(available: multiset<OperandEncoding>, first: OperandEncoding, second: OperandEncoding)
    requires |available| == 1 && first in available && second in available
    ensures first == second
  {
    assert |available - multiset{first}| == 0;
    assert (available - multiset{first})[second] == available[second] - (if second == first then 1 else 0);
  }

  // A single open operand gets the single encoding that is left.
  predicate TakesSingle(
    indices: seq<nat>, available: multiset<OperandEncoding>, operands: seq<InstructionOperand>
  ) {
    |indices| == 1 && |available| == 1 && indices[0] < |operands| ==> operands[indices[0]].encoding in available
  }

  lemma {:induction false} LettersAreFollowed(
    tables: Tables, scheme: string, available: multiset<OperandEncoding>,
    before: seq<InstructionOperand>, after: seq<InstructionOperand>
  )
    requires ModesAreKnown(tables, before) && HasEncodings(tables, before)
    requires OnlyAssigns(GuidedOperands(tables, scheme, available, before), after) && |after| == |before|
    requires TakesSingle(Undetermined(tables, before), available - UsedEncodings(PreparedOperands(tables, before)), after)
    ensures FollowsLetters(tables, scheme, available, before, after)
  {
    if |scheme| >= |before| {
      forall k, encoding |
        && 0 <= k < |before| && IsPrimary(encoding) && IsFirstOpenToWant(tables, scheme, before, k, encoding)
        && IsLeft(tables, available, before, after, encoding)
        ensures after[k].encoding == encoding
      {
        LetterIsFollowed(tables, scheme, available, before, after, k, encoding);
      }
    }
  }

  lemma {:induction false} LetterIsFollowed(
    tables: Tables, scheme: string, available: multiset<OperandEncoding>,
    before: seq<InstructionOperand>, after: seq<InstructionOperand>, k: nat, encoding: OperandEncoding
  )
    requires ModesAreKnown(tables, before) && HasEncodings(tables, before)
    requires OnlyAssigns(GuidedOperands(tables, scheme, available, before), after)
    requires TakesSingle(Undetermined(tables, before), available - UsedEncodings(PreparedOperands(tables, before)), after)
    requires |scheme| >= |before| == |after| && k < |before| && IsPrimary(encoding)
    requires IsFirstOpenToWant(tables, scheme, before, k, encoding)
    requires IsLeft(tables, available, before, after, encoding)
    ensures after[k].encoding == encoding
  {
    var open, prepared := Undetermined(tables, before), PreparedOperands(tables, before);
    var left := available - UsedEncodings(prepared);
    UndeterminedAreOpen(tables, before);
    LeftIsLeft(tables, scheme, available, before, after, encoding);
    assert k in open;
    var p :| 0 <= p < |open| && open[p] == k;
    if |open| == 1 && |left| == 1 {
      OnlyOne(left, encoding, after[k].encoding);
    } else {
      UndeterminedAreUnassigned(tables, before);
      FirstOpenIsFirst(tables, scheme, before, p, encoding);
      FirstToWantIsAssigned(scheme, open, prepared, left, encoding, p);
    }
  }

  lemma FirstOpenIsFirst(
    tables: Tables, scheme: string, before: seq<InstructionOperand>, p: nat, encoding: OperandEncoding
  )
    requires |scheme| >= |before| && p < |Undetermined(tables, before)|
    requires IsFirstOpenToWant(tables, scheme, before, Undetermined(tables, before)[p], encoding)
    ensures IsFirstToWant(scheme, Undetermined(tables, before), p, encoding)
  {
    var open := Undetermined(tables, before);
    UndeterminedAreOpen(tables, before);
    forall j | 0 <= j < p
      ensures !Wants(scheme[open[j]], encoding)
    {
      assert open[j] in open;
    }
  }

  lemma {:induction false} LeftIsLeft(
    tables: Tables, scheme: string, available: multiset<OperandEncoding>,
    before: seq<InstructionOperand>, after: seq<InstructionOperand>, encoding: OperandEncoding
  )
    requires ModesAreKnown(tables, before) && HasEncodings(tables, before) && IsPrimary(encoding)
    requires |before| == |after| && IsLeft(tables, available, before, after, encoding)
    requires OnlyAssigns(GuidedOperands(tables, scheme, available, before), after)
    ensures encoding in available - UsedEncodings(PreparedOperands(tables, before))
  {
    var prepared := PreparedOperands(tables, before);
    forall i | 0 <= i < |before|
      ensures prepared[i].encoding != encoding
    {
      if !IsOpen(tables, before[i]) {
        GuidedKeeps(tables, scheme, available, before, i);
      }
    }
    NotUsed(prepared, encoding);
  }

  lemma {:induction false} GuidedKeeps(
    tables: Tables, scheme: string, available: multiset<OperandEncoding>, before: seq<InstructionOperand>, i: nat
  )
    requires ModesAreKnown(tables, before) && HasEncodings(tables, before)
    requires i < |before| && !IsOpen(tables, before[i])
    ensures |GuidedOperands(tables, scheme, available, before)| == |before|
    ensures GuidedOperands(tables, scheme, available, before)[i] == Prepared(tables, before[i])
    ensures Prepared(tables, before[i]).encoding != AnyEncoding
  {
    var prepared := PreparedOperands(tables, before);
    UndeterminedAreOpen(tables, before);
    assert i !in Undetermined(tables, before);
    SchemeKeepsOthers(scheme, Undetermined(tables, before), prepared, available - UsedEncodings(prepared), i);
  }

  lemma {:induction false} SchemeKeepsOthers(
    scheme: string, indices: seq<nat>, operands: seq<InstructionOperand>, available: multiset<OperandEncoding>, i: nat
  )
    requires forall k :: 0 <= k < |indices| ==> indices[k] < |operands|
    requires i < |operands| && i !in indices
    ensures FollowScheme(scheme, indices, operands, available).0[i] == operands[i]
  {
    if indices != [] {
      SchemeKeepsOthers(scheme, indices[..|indices| - 1], operands, available, i);
    }
  }

  lemma WholePrefix<T>(list: seq<T>)
    ensures list[..|list|] == list
  {
  }

  lemma AvailableIsCounted(specification: EncodingSpecification)
    ensures var available := AvailableEncodings(specification);
            && (forall encoding :: encoding in available ==> IsCounted(encoding))
            && (forall encoding: OperandEncoding :: !encoding.ImmediateValueEncoding? ==> available[encoding] <= 1)
  {
    forall encoding: OperandEncoding
      ensures AvailableEncodings(specification)[encoding] == Multiplicity(specification, encoding)
    {
      AvailableMultiplicity(specification, encoding);
    }
    MultiplicitiesAreCounted(specification, AvailableEncodings(specification));
  }

  lemma MultiplicitiesAreCounted(
    specification: EncodingSpecification, available: multiset<OperandEncoding>
  )
    requires forall encoding :: available[encoding] == Multiplicity(specification, encoding)
    ensures forall encoding :: encoding in available ==> IsCounted(encoding)
    ensures forall encoding: OperandEncoding :: !encoding.ImmediateValueEncoding? ==> available[encoding] <= 1
  {
    forall encoding: OperandEncoding
      ensures encoding in available ==> IsCounted(encoding)
      ensures !encoding.ImmediateValueEncoding? ==> available[encoding] <= 1
    {
      MultiplicityIsCounted(specification, encoding);
    }
  }

  lemma MultiplicityIsCounted(specification: EncodingSpecification, encoding: OperandEncoding)
    ensures Multiplicity(specification, encoding) > 0 ==> IsCounted(encoding)
    ensures !encoding.ImmediateValueEncoding? ==> Multiplicity(specification, encoding) <= 1
  {
  }
}
