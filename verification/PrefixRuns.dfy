// Runs of legacy prefixes in any order: what the parser reads from them, stated by
// the bytes that occur in the run (Intel SDM volume 2A, sections 2.1.1 and 2.2.1).
module PrefixRuns {
  import opened Wrappers
  import opened X86Protos
  import opened InstructionEncoder
  import opened Architecture
  import opened InstructionParser
  import opened RoundTripPrefixes
  import opened RoundTrip
  import opened UniqueDecoding
  import opened ProcessorPrefixes

  // ---- The bytes ------------------------------------------------------------

  predicate IsSegmentByte(byte: bv8) {
    byte in {0x2e, 0x36, 0x3e, 0x26, 0x64, 0x65}
  }

  predicate IsLockOrRepByte(byte: bv8) {
    byte in {0xf0, 0xf2, 0xf3}
  }

  predicate IsRexByte(byte: bv8) {
    0x40 <= byte <= 0x4f
  }

  predicate IsRunByte(byte: bv8) {
    IsSegmentByte(byte) || IsLockOrRepByte(byte) || IsRexByte(byte) || byte == 0x66 || byte == 0x67
  }

  predicate IsRun(run: seq<bv8>) {
    forall i :: 0 <= i < |run| ==> IsRunByte(run[i])
  }

  // The first byte after the prefixes.
  predicate EndsRun(rest: seq<bv8>) {
    rest != [] && !IsRunByte(rest[0]) && rest[0] !in {0x62, 0xc4, 0xc5}
  }

  function SegmentOfByte(byte: bv8): SegmentOverride {
    match byte
    case 0x2e => CsOverrideOrBranchNotTaken
    case 0x36 => SsOverride
    case 0x3e => DsOverrideOrBranchTaken
    case 0x26 => EsOverride
    case 0x64 => FsOverride
    case 0x65 => GsOverride
    case _ => NoSegmentOverride
  }

  function RexOfByte(byte: bv8): Rex {
    Rex(b := byte & 1 != 0, x := byte & 2 != 0, r := byte & 4 != 0, w := byte & 8 != 0)
  }

  // ---- What a run says ------------------------------------------------------

  predicate HasOneLockOrRep(run: seq<bv8>) {
    forall i, j :: 0 <= i < j < |run| ==> !(IsLockOrRepByte(run[i]) && IsLockOrRepByte(run[j]))
  }

  predicate HasOneRex(run: seq<bv8>) {
    forall i, j :: 0 <= i < j < |run| ==> !(IsRexByte(run[i]) && IsRexByte(run[j]))
  }

  predicate HasOneSegment(run: seq<bv8>) {
    forall i, j :: 0 <= i < j < |run| ==> !(IsSegmentByte(run[i]) && IsSegmentByte(run[j]))
  }

  // The last override wins.
  predicate IsSegmentOf(run: seq<bv8>, segment: SegmentOverride) {
    if exists i :: 0 <= i < |run| && IsSegmentByte(run[i]) then
      exists i :: 0 <= i < |run| && IsSegmentByte(run[i]) && segment == SegmentOfByte(run[i]) &&
                  forall j :: i < j < |run| ==> !IsSegmentByte(run[j])
    else segment == NoSegmentOverride
  }

  predicate IsLockOrRepOf(run: seq<bv8>, lockOrRep: LockOrRepPrefix) {
    && (0xf0 in run <==> lockOrRep == LockPrefix)
    && (0xf2 in run <==> lockOrRep == RepnePrefix)
    && (0xf3 in run <==> lockOrRep == RepPrefix)
  }

  predicate IsRexOf(run: seq<bv8>, rex: Option<Rex>) {
    && (rex.Some? ==> exists i :: 0 <= i < |run| && IsRexByte(run[i]))
    && (forall i :: 0 <= i < |run| && IsRexByte(run[i]) ==> rex == Some(RexOfByte(run[i])))
  }

  predicate ChangesLegacy(byte: bv8) {
    IsLockOrRepByte(byte) || IsRexByte(byte) || byte == 0x66
  }

  // The message has legacy prefixes only if it needs them.
  predicate NeedsLegacy(run: seq<bv8>) {
    exists i :: 0 <= i < |run| && ChangesLegacy(run[i])
  }

  predicate IsLegacyOf(run: seq<bv8>, prefix: InstructionPrefix) {
    if NeedsLegacy(run) then
      && prefix.Legacy? && IsLockOrRepOf(run, prefix.legacy.lockOrRep) && IsRexOf(run, prefix.legacy.optionalRex)
      && (0x66 in run <==> prefix.legacy.operandSizeOverride)
    else prefix == NoPrefix
  }

  predicate SaysTheRun(run: seq<bv8>, decoded: DecodedInstruction) {
    && IsSegmentOf(run, decoded.segmentOverride)
    && (0x67 in run <==> decoded.addressSizeOverride)
    && IsLegacyOf(run, decoded.prefix)
    && decoded == DEFAULT_INSTRUCTION.(segmentOverride := decoded.segmentOverride, prefix := decoded.prefix,
                                       addressSizeOverride := decoded.addressSizeOverride)
  }

  // ---- One more byte --------------------------------------------------------

  lemma ByteKinds(byte: bv8)
    ensures IsSegmentByte(byte) <==> !SegmentOverrideOf(byte).NoSegmentOverride?
    ensures IsSegmentByte(byte) ==> SegmentOverrideOf(byte) == SegmentOfByte(byte)
    ensures IsLockOrRepByte(byte) <==> !LockOrRepOf(byte).NoLockOrRep?
    ensures IsRexByte(byte) <==> IsRexPrefixByte(byte)
    ensures RexOf(byte) == RexOfByte(byte)
    ensures byte == 0xf0 <==> LockOrRepOf(byte) == LockPrefix
    ensures byte == 0xf2 <==> LockOrRepOf(byte) == RepnePrefix
    ensures byte == 0xf3 <==> LockOrRepOf(byte) == RepPrefix
  {
  }

  lemma SegmentOfMore(run: seq<bv8>, byte: bv8, segment: SegmentOverride)
    requires IsSegmentOf(run, segment)
    ensures IsSegmentOf(run + [byte], if IsSegmentByte(byte) then SegmentOfByte(byte) else segment)
  {
    var more := run + [byte];
    assert more[|run|] == byte && forall i :: 0 <= i < |run| ==> more[i] == run[i];
    if !IsSegmentByte(byte) && exists i :: 0 <= i < |run| && IsSegmentByte(run[i]) {
      var i :| 0 <= i < |run| && IsSegmentByte(run[i]) && segment == SegmentOfByte(run[i]) &&
               forall j :: i < j < |run| ==> !IsSegmentByte(run[j]);
      assert IsSegmentByte(more[i]);
    }
  }

  lemma RexOfMore(run: seq<bv8>, byte: bv8, rex: Option<Rex>)
    requires IsRexOf(run, rex) && (IsRexByte(byte) ==> rex.None?)
    ensures IsRexOf(run + [byte], if IsRexByte(byte) then Some(RexOfByte(byte)) else rex)
  {
    var more := run + [byte];
    assert more[|run|] == byte && forall i :: 0 <= i < |run| ==> more[i] == run[i];
    if rex.Some? {
      var i :| 0 <= i < |run| && IsRexByte(run[i]);
      assert IsRexByte(more[i]);
    }
  }

  lemma KindsExclude(byte: bv8)
    ensures IsRexByte(byte) ==> !IsSegmentByte(byte) && !IsLockOrRepByte(byte) && byte != 0x66 && byte != 0x67
    ensures IsLockOrRepByte(byte) ==> !IsSegmentByte(byte) && byte != 0x66 && byte != 0x67
    ensures IsSegmentByte(byte) ==> byte != 0x66 && byte != 0x67
  {
  }

  predicate Repeats(run: seq<bv8>, byte: bv8) {
    || (IsLockOrRepByte(byte) && exists i :: 0 <= i < |run| && IsLockOrRepByte(run[i]))
    || (IsRexByte(byte) && exists i :: 0 <= i < |run| && IsRexByte(run[i]))
  }

  // The legacy fields after one more byte, whether the message has them or not.
  predicate AreFieldsOf(run: seq<bv8>, legacy: LegacyFields) {
    && IsLockOrRepOf(run, legacy.lockOrRep) && IsRexOf(run, legacy.optionalRex)
    && (0x66 in run <==> legacy.operandSizeOverride)
  }

  lemma FieldsOfRun(run: seq<bv8>, decoded: DecodedInstruction)
    requires SaysTheRun(run, decoded)
    ensures AreFieldsOf(run, decoded.GetLegacyPrefixes())
    ensures !decoded.prefix.Vex?
    ensures decoded.GetLegacyPrefixes().lockOrRep.NoLockOrRep? <==>
            !exists i :: 0 <= i < |run| && IsLockOrRepByte(run[i])
    ensures decoded.GetLegacyPrefixes().optionalRex.None? <==> !exists i :: 0 <= i < |run| && IsRexByte(run[i])
  {
    if !NeedsLegacy(run) {
      assert forall byte :: byte in run ==> !IsLockOrRepByte(byte) && byte != 0x66;
    }
  }

  lemma LockOfMore(run: seq<bv8>, byte: bv8, lockOrRep: LockOrRepPrefix)
    requires IsLockOrRepOf(run, lockOrRep) && (IsLockOrRepByte(byte) ==> lockOrRep.NoLockOrRep?)
    ensures IsLockOrRepOf(run + [byte], if IsLockOrRepByte(byte) then LockOrRepOf(byte) else lockOrRep)
  {
    ByteKinds(byte);
  }

  lemma FieldsOfMore(run: seq<bv8>, byte: bv8, legacy: LegacyFields)
    requires AreFieldsOf(run, legacy)
    requires IsLockOrRepByte(byte) ==> legacy.lockOrRep.NoLockOrRep?
    requires IsRexByte(byte) ==> legacy.optionalRex.None?
    ensures AreFieldsOf(run + [byte], WithByte(legacy, byte))
  {
    LockOfMore(run, byte, legacy.lockOrRep);
    RexOfMore(run, byte, legacy.optionalRex);
  }

  function WithByte(legacy: LegacyFields, byte: bv8): LegacyFields {
    LegacyFields(
      if IsRexByte(byte) then Some(RexOfByte(byte)) else legacy.optionalRex,
      if IsLockOrRepByte(byte) then LockOrRepOf(byte) else legacy.lockOrRep,
      legacy.operandSizeOverride || byte == 0x66)
  }

  function AfterByte(decoded: DecodedInstruction, byte: bv8): DecodedInstruction {
    decoded.(
      segmentOverride := if IsSegmentByte(byte) then SegmentOfByte(byte) else decoded.segmentOverride,
      addressSizeOverride := decoded.addressSizeOverride || byte == 0x67,
      prefix := if ChangesLegacy(byte) then Legacy(WithByte(decoded.GetLegacyPrefixes(), byte)) else decoded.prefix)
  }

  lemma MoreNeedsLegacy(run: seq<bv8>, byte: bv8)
    ensures NeedsLegacy(run + [byte]) <==> NeedsLegacy(run) || ChangesLegacy(byte)
  {
    var more := run + [byte];
    assert more[|run|] == byte && forall i :: 0 <= i < |run| ==> more[i] == run[i];
    if NeedsLegacy(run) {
      var i :| 0 <= i < |run| && ChangesLegacy(run[i]);
      assert ChangesLegacy(more[i]);
    }
  }

  lemma LegacyOfMore(run: seq<bv8>, decoded: DecodedInstruction, byte: bv8)
    requires SaysTheRun(run, decoded) && !Repeats(run, byte)
    ensures IsLegacyOf(run + [byte], AfterByte(decoded, byte).prefix)
  {
    FieldsOfRun(run, decoded);
    FieldsOfMore(run, byte, decoded.GetLegacyPrefixes());
    MoreNeedsLegacy(run, byte);
    if NeedsLegacy(run) && !ChangesLegacy(byte) {
      assert WithByte(decoded.prefix.legacy, byte) == decoded.prefix.legacy;
    }
  }

  lemma SaysMore(run: seq<bv8>, decoded: DecodedInstruction, byte: bv8)
    requires SaysTheRun(run, decoded) && !Repeats(run, byte)
    ensures SaysTheRun(run + [byte], AfterByte(decoded, byte))
  {
    SegmentOfMore(run, byte, decoded.segmentOverride);
    LegacyOfMore(run, decoded, byte);
  }

  lemma StepIsAfterByte(decoded: DecodedInstruction, byte: bv8)
    requires IsRunByte(byte) && !decoded.prefix.Vex?
    ensures LegacyPrefixStep(decoded, byte) ==
            if || (IsLockOrRepByte(byte) && !decoded.GetLegacyPrefixes().lockOrRep.NoLockOrRep?)
               || (IsRexByte(byte) && decoded.GetLegacyPrefixes().optionalRex.Some?)
            then Step(Failure(InvalidArgument))
            else Step(Success(AfterByte(decoded, byte)))
  {
    ByteKinds(byte);
    KindsExclude(byte);
  }

  // ---- The whole run --------------------------------------------------------

  lemma {:induction false} FirstIsSkipped(
    done: seq<bv8>, decoded: DecodedInstruction, run: seq<bv8>, rest: seq<bv8>
  )
    requires SaysTheRun(done, decoded) && run != [] && IsRunByte(run[0])
    ensures SkipLegacyPrefixes(decoded, run + rest) ==
            if Repeats(done, run[0]) then Failure(InvalidArgument)
            else SkipLegacyPrefixes(AfterByte(decoded, run[0]), run[1..] + rest)
  {
    FieldsOfRun(done, decoded);
    StepIsAfterByte(decoded, run[0]);
    assert (run + rest)[1..] == run[1..] + rest;
  }

  lemma {:induction false} RunIsSkipped(
    done: seq<bv8>, decoded: DecodedInstruction, run: seq<bv8>, rest: seq<bv8>
  )
    requires SaysTheRun(done, decoded) && IsRun(run) && EndsRun(rest)
    ensures match SkipLegacyPrefixes(decoded, run + rest)
            case Success((read, left)) => NothingRepeats(done, run) && left == rest && SaysTheRun(done + run, read)
            case Failure(error) => !NothingRepeats(done, run) && error == InvalidArgument
    decreases |run|
  {
    if run == [] {
      assert [] + rest == rest && done + [] == done;
      NoStep(decoded, rest[0]);
    } else {
      FirstIsSkipped(done, decoded, run, rest);
      if !Repeats(done, run[0]) {
        SaysMore(done, decoded, run[0]);
        RunIsSkipped(done + [run[0]], AfterByte(decoded, run[0]), run[1..], rest);
        assert done + [run[0]] + run[1..] == done + run;
      }
    }
  }

  predicate NothingRepeats(done: seq<bv8>, run: seq<bv8>)
    decreases |run|
  {
    run == [] || (!Repeats(done, run[0]) && NothingRepeats(done + [run[0]], run[1..]))
  }

  lemma NoStep(decoded: DecodedInstruction, byte: bv8)
    requires !IsRunByte(byte)
    ensures LegacyPrefixStep(decoded, byte) == NotAPrefix
  {
    ByteKinds(byte);
  }

  predicate Once(run: seq<bv8>) {
    HasOneLockOrRep(run) && HasOneRex(run)
  }

  lemma OnceOfMore(run: seq<bv8>, byte: bv8)
    ensures Once(run + [byte]) <==> Once(run) && !Repeats(run, byte)
  {
    var more := run + [byte];
    assert more[|run|] == byte && forall i :: 0 <= i < |run| ==> more[i] == run[i];
    if Once(more) {
      assert forall i :: 0 <= i < |run| ==> !(IsLockOrRepByte(more[i]) && IsLockOrRepByte(more[|run|]));
      assert forall i :: 0 <= i < |run| ==> !(IsRexByte(more[i]) && IsRexByte(more[|run|]));
      OnceOfFront(run, more);
    }
  }

  lemma OnceOfFront(front: seq<bv8>, run: seq<bv8>)
    requires front <= run && Once(run)
    ensures Once(front)
  {
    forall i, j | 0 <= i < j < |front|
      ensures !(IsLockOrRepByte(front[i]) && IsLockOrRepByte(front[j]))
      ensures !(IsRexByte(front[i]) && IsRexByte(front[j]))
    {
      assert front[i] == run[i] && front[j] == run[j];
    }
  }

  lemma {:induction false} NothingRepeatsOnce(done: seq<bv8>, run: seq<bv8>)
    ensures Once(done) && NothingRepeats(done, run) <==> Once(done + run)
    decreases |run|
  {
    if run == [] {
      assert done + [] == done;
    } else {
      OnceOfMore(done, run[0]);
      NothingRepeatsOnce(done + [run[0]], run[1..]);
      assert done + [run[0]] + run[1..] == done + run;
      if Once(done + run) {
        OnceOfFront(done + [run[0]], done + run);
      }
    }
  }

  // The overrides at the front of the run are read by another loop, to the same
  // effect.
  lemma {:induction false} OverridesAreSteps(decoded: DecodedInstruction, run: seq<bv8>, rest: seq<bv8>)
    requires IsRun(run) && EndsRun(rest) && !decoded.prefix.Vex?
    ensures ReadPrefixes(decoded, run + rest) == SkipLegacyPrefixes(decoded, run + rest)
    decreases |run|
  {
    var bytes := run + rest;
    if run == [] {
      assert bytes == rest;
      ByteKinds(rest[0]);
    } else {
      ByteKinds(run[0]);
      KindsExclude(run[0]);
      assert bytes[0] == run[0] && bytes[1..] == run[1..] + rest;
      if IsSegmentByte(run[0]) || run[0] == 0x67 {
        OverridesAreSteps(AfterByte(decoded, run[0]), run[1..], rest);
        StepIsAfterByte(decoded, run[0]);
      }
    }
  }

  // Any run of prefixes, in any order, is accepted exactly when it has at most one of
  // LOCK, REPNE and REP and at most one REX. What is read is what the bytes say, and
  // all of the run is read.
  lemma {:induction false} RunIsRead(run: seq<bv8>, rest: seq<bv8>)
    requires IsRun(run) && EndsRun(rest)
    ensures match ReadPrefixes(DEFAULT_INSTRUCTION, run + rest)
            case Success((decoded, left)) =>
              HasOneLockOrRep(run) && HasOneRex(run) && left == rest && SaysTheRun(run, decoded)
            case Failure(error) => !(HasOneLockOrRep(run) && HasOneRex(run)) && error == InvalidArgument
  {
    OverridesAreSteps(DEFAULT_INSTRUCTION, run, rest);
    assert SaysTheRun([], DEFAULT_INSTRUCTION);
    RunIsSkipped([], DEFAULT_INSTRUCTION, run, rest);
    NothingRepeatsOnce([], run);
    assert [] + run == run;
  }

  // A run that nothing follows is an error.
  lemma {:induction false} RunNeedsOpcode(decoded: DecodedInstruction, run: seq<bv8>)
    requires IsRun(run)
    ensures SkipLegacyPrefixes(decoded, run) == Failure(InvalidArgument)
    decreases |run|
  {
    if run != [] {
      StepFailsOrGoesOn(decoded, run[0]);
      var step := LegacyPrefixStep(decoded, run[0]);
      if step.Step? && step.result.Success? {
        RunNeedsOpcode(step.result.value, run[1..]);
      }
    }
  }

  lemma StepFailsOrGoesOn(decoded: DecodedInstruction, byte: bv8)
    requires IsRunByte(byte)
    ensures match LegacyPrefixStep(decoded, byte)
            case NotAPrefix => false
            case Step(Success(_)) => true
            case Step(Failure(error)) => error == InvalidArgument
  {
    ByteKinds(byte);
  }

  lemma {:induction false} PrefixesNeedOpcode(decoded: DecodedInstruction, run: seq<bv8>)
    requires IsRun(run)
    ensures ReadPrefixes(decoded, run) == Failure(InvalidArgument)
    decreases |run|
  {
    RunNeedsOpcode(decoded, run);
    if run != [] {
      ByteKinds(run[0]);
      KindsExclude(run[0]);
      if IsSegmentByte(run[0]) {
        PrefixesNeedOpcode(decoded.(segmentOverride := SegmentOfByte(run[0])), run[1..]);
      } else if run[0] == 0x67 {
        PrefixesNeedOpcode(decoded.(addressSizeOverride := true), run[1..]);
      }
    }
  }

  // ---- The order does not matter --------------------------------------------

  lemma SameBytes<T>(first: seq<T>, second: seq<T>)
    requires multiset(first) == multiset(second)
    ensures forall item :: item in first <==> item in second
  {
    assert forall item :: item in first <==> item in multiset(first);
    assert forall item :: item in second <==> item in multiset(second);
  }

  lemma OccursAt<T>(run: seq<T>, item: T) returns (i: nat)
    requires item in run
    ensures i < |run| && run[i] == item
  {
    i :| 0 <= i < |run| && run[i] == item;
  }

  // Two runs of the same bytes with at most one segment override say the same.
  lemma SameSegment(first: seq<bv8>, second: seq<bv8>, one: SegmentOverride, other: SegmentOverride)
    requires forall byte :: byte in first <==> byte in second
    requires HasOneSegment(first) && IsSegmentOf(first, one) && IsSegmentOf(second, other)
    ensures one == other
  {
    if i :| 0 <= i < |first| && IsSegmentByte(first[i]) {
      var k := OccursAt(second, first[i]);
      var last :| 0 <= last < |first| && IsSegmentByte(first[last]) && one == SegmentOfByte(first[last]);
      var j :| 0 <= j < |second| && IsSegmentByte(second[j]) && other == SegmentOfByte(second[j]);
      var l := OccursAt(first, second[j]);
      assert l == last;
    } else {
      assert forall j :: 0 <= j < |second| ==> second[j] in first;
    }
  }

  lemma SameLegacy(first: seq<bv8>, second: seq<bv8>, one: InstructionPrefix, other: InstructionPrefix)
    requires forall byte :: byte in first <==> byte in second
    requires IsLegacyOf(first, one) && IsLegacyOf(second, other)
    ensures one == other
  {
    SameNeeds(first, second);
    SameNeeds(second, first);
    if NeedsLegacy(first) {
      SameRex(first, second, one.legacy.optionalRex, other.legacy.optionalRex);
    }
  }

  lemma SameNeeds(first: seq<bv8>, second: seq<bv8>)
    requires forall byte :: byte in first <==> byte in second
    ensures NeedsLegacy(first) ==> NeedsLegacy(second)
  {
    if NeedsLegacy(first) {
      var i :| 0 <= i < |first| && ChangesLegacy(first[i]);
      var k := OccursAt(second, first[i]);
      assert ChangesLegacy(second[k]);
    }
  }

  lemma SameRex(first: seq<bv8>, second: seq<bv8>, one: Option<Rex>, other: Option<Rex>)
    requires forall byte :: byte in first <==> byte in second
    requires IsRexOf(first, one) && IsRexOf(second, other)
    ensures one == other
  {
    if i :| 0 <= i < |first| && IsRexByte(first[i]) {
      var k := OccursAt(second, first[i]);
    } else {
      assert forall j :: 0 <= j < |second| ==> second[j] in first;
    }
  }

  lemma CountAround<T>(run: seq<T>, i: nat)
    requires i < |run|
    ensures multiset(run) == multiset(run[..i]) + multiset{run[i]} + multiset(run[i + 1..])
  {
    assert run == run[..i] + [run[i]] + run[i + 1..];
  }

  lemma {:induction false} OccursIsCounted<T>(run: seq<T>, item: T)
    ensures item in run <==> multiset(run)[item] > 0
    decreases |run|
  {
    if run != [] {
      var front, last := run[..|run| - 1], run[|run| - 1];
      assert run == front + [last];
      assert multiset(run) == multiset(front) + multiset{last};
      OccursIsCounted(front, item);
    }
  }

  lemma TwoAreCounted<T>(run: seq<T>, i: nat, j: nat)
    requires i < j < |run| && run[i] == run[j]
    ensures multiset(run)[run[i]] >= 2
  {
    CountAround(run, i);
    assert run[i + 1..][j - i - 1] == run[i] && run[i] in run[i + 1..];
    OccursIsCounted(run[i + 1..], run[i]);
  }

  lemma CountedAreTwo<T>(run: seq<T>, item: T) returns (i: nat, j: nat)
    requires multiset(run)[item] >= 2
    ensures i < j < |run| && run[i] == item && run[j] == item
  {
    OccursIsCounted(run, item);
    var k := OccursAt(run, item);
    CountAround(run, k);
    OccursIsCounted(run[..k], item);
    OccursIsCounted(run[k + 1..], item);
    if item in run[..k] {
      i := OccursAt(run[..k], item);
      j := k;
    } else {
      var l := OccursAt(run[k + 1..], item);
      i, j := k, k + 1 + l;
    }
  }

  // Two positions of one run have their counterparts in the other one.
  lemma TwoElsewhere<T>(first: seq<T>, second: seq<T>, i: nat, j: nat) returns (p: nat, q: nat)
    requires multiset(first) == multiset(second) && i < j < |second|
    ensures p < q < |first|
    ensures (first[p] == second[i] && first[q] == second[j]) || (first[p] == second[j] && first[q] == second[i])
  {
    SameBytes(first, second);
    if second[i] == second[j] {
      TwoAreCounted(second, i, j);
      p, q := CountedAreTwo(first, second[i]);
    } else {
      p := OccursAt(first, second[i]);
      q := OccursAt(first, second[j]);
      if q < p {
        p, q := q, p;
      }
    }
  }

  lemma OnceInAnyOrder(first: seq<bv8>, second: seq<bv8>)
    requires multiset(first) == multiset(second) && HasOneLockOrRep(first) && HasOneRex(first)
    ensures HasOneLockOrRep(second) && HasOneRex(second)
  {
    forall i, j | 0 <= i < j < |second|
      ensures !(IsLockOrRepByte(second[i]) && IsLockOrRepByte(second[j]))
      ensures !(IsRexByte(second[i]) && IsRexByte(second[j]))
    {
      var p, q := TwoElsewhere(first, second, i, j);
    }
  }

  // The order of the prefixes does not matter, except among segment overrides.
  lemma {:induction false} OrderDoesNotMatter(first: seq<bv8>, second: seq<bv8>, rest: seq<bv8>)
    requires IsRun(first) && EndsRun(rest) && multiset(first) == multiset(second)
    requires HasOneSegment(first) && HasOneLockOrRep(first) && HasOneRex(first)
    ensures ReadPrefixes(DEFAULT_INSTRUCTION, first + rest).Success?
    ensures ReadPrefixes(DEFAULT_INSTRUCTION, second + rest) == ReadPrefixes(DEFAULT_INSTRUCTION, first + rest)
  {
    SameBytes(first, second);
    RunIsRead(first, rest);
    forall i | 0 <= i < |second|
      ensures IsRunByte(second[i])
    {
      var k := OccursAt(first, second[i]);
    }
    RunIsRead(second, rest);
    OnceInAnyOrder(first, second);
    var one := ReadPrefixes(DEFAULT_INSTRUCTION, first + rest).value.0;
    var other := ReadPrefixes(DEFAULT_INSTRUCTION, second + rest).value.0;
    SameSegment(first, second, one.segmentOverride, other.segmentOverride);
    SameLegacy(first, second, one.prefix, other.prefix);
  }

  // ---- REX directly in front of the opcode ----------------------------------

  function OverrideBytes(instruction: DecodedInstruction): seq<bv8> {
    SegmentOverrideBytes(instruction.segmentOverride) + AddressSizeOverrideBytes(instruction.addressSizeOverride)
  }

  function LegacyBytesWithoutRex(legacy: LegacyFields): seq<bv8> {
    LockOrRepBytes(legacy.lockOrRep) + OperandSizeOverrideBytes(legacy.operandSizeOverride)
  }

  // The prefixes of a legacy instruction in the order in which assemblers emit them.
  function ConventionalPrefixBytes(instruction: DecodedInstruction): seq<bv8> {
    var legacy := instruction.GetLegacyPrefixes();
    OverrideBytes(instruction) + LegacyBytesWithoutRex(legacy) + RexBytes(legacy.GetRex())
  }

  lemma PartsOfRun(instruction: DecodedInstruction)
    ensures IsRun(OverrideBytes(instruction)) && HasOneSegment(OverrideBytes(instruction))
    ensures var other := LegacyBytesWithoutRex(instruction.GetLegacyPrefixes());
            IsRun(other) && forall i :: 0 <= i < |other| ==> !IsSegmentByte(other[i])
    ensures var rex := RexBytes(instruction.GetLegacyPrefixes().GetRex());
            IsRun(rex) && forall i :: 0 <= i < |rex| ==> !IsSegmentByte(rex[i])
  {
    var rex := instruction.GetLegacyPrefixes().GetRex();
    RexByteRoundTrip(rex);
    ByteKinds(RexByte(rex));
    KindsExclude(RexByte(rex));
  }

  lemma OneSegmentInFront(front: seq<bv8>, other: seq<bv8>)
    requires HasOneSegment(front) && forall i :: 0 <= i < |other| ==> !IsSegmentByte(other[i])
    ensures HasOneSegment(front + other)
  {
  }

  lemma {:induction false} ConventionalIsPermutation(specification: EncodingSpecification, instruction: DecodedInstruction)
    requires specification.prefix.LegacySpecification?
    ensures multiset(PrefixBytes(specification, instruction)) == multiset(ConventionalPrefixBytes(instruction))
    ensures IsRun(PrefixBytes(specification, instruction)) && HasOneSegment(PrefixBytes(specification, instruction))
  {
    var legacy := instruction.GetLegacyPrefixes();
    var rex, other := RexBytes(legacy.GetRex()), LegacyBytesWithoutRex(legacy);
    PartsOfRun(instruction);
    BytesInOrder(specification, instruction);
    SwapLast(OverrideBytes(instruction), rex, other);
    OneSegmentInFront(OverrideBytes(instruction), rex + other);
    RunsTogether(rex, other);
    RunsTogether(OverrideBytes(instruction), rex + other);
  }

  lemma BytesInOrder(specification: EncodingSpecification, instruction: DecodedInstruction)
    requires specification.prefix.LegacySpecification?
    ensures var legacy := instruction.GetLegacyPrefixes();
            var overrides, rex, other :=
              OverrideBytes(instruction), RexBytes(legacy.GetRex()), LegacyBytesWithoutRex(legacy);
            && PrefixBytes(specification, instruction) == overrides + (rex + other)
            && ConventionalPrefixBytes(instruction) == overrides + (other + rex)
  {
  }

  lemma RunsTogether(first: seq<bv8>, second: seq<bv8>)
    requires IsRun(first) && IsRun(second)
    ensures IsRun(first + second)
  {
  }

  lemma SwapLast<T>(first: seq<T>, second: seq<T>, third: seq<T>)
    ensures multiset(first + (second + third)) == multiset(first + (third + second))
  {
  }

  lemma EndsWithOpcode(rest: seq<bv8>)
    requires rest != [] && !RoundTripPrefixes.IsPrefixByte(rest[0])
    ensures EndsRun(rest)
  {
    ByteKinds(rest[0]);
  }

  // The parser reads the same from the order of the encoder and from the other one.
  lemma {:induction false} ConventionalPrefixesAreRead(
    specification: EncodingSpecification, instruction: DecodedInstruction, rest: seq<bv8>
  )
    requires IsEncodable(specification, instruction) && specification.prefix.LegacySpecification?
    requires rest != [] && !RoundTripPrefixes.IsPrefixByte(rest[0])
    ensures ReadPrefixes(DEFAULT_INSTRUCTION, ConventionalPrefixBytes(instruction) + rest) ==
            Success((WithPrefixes(specification, instruction), rest))
  {
    var encoded := PrefixBytes(specification, instruction);
    EndsWithOpcode(rest);
    ConventionalIsPermutation(specification, instruction);
    PrefixesRoundTrip(specification, instruction, rest);
    RunIsRead(encoded, rest);
    OrderDoesNotMatter(encoded, ConventionalPrefixBytes(instruction), rest);
  }

  function ConventionalBytes(
    specification: EncodingSpecification, instruction: DecodedInstruction, rest: seq<bv8>
  ): seq<bv8> {
    ConventionalPrefixBytes(instruction) +
    (OpcodeBytes(specification, instruction) + AfterOpcode(specification, instruction, rest))
  }

  // So the round trip holds with REX directly in front of the opcode as well.
  lemma {:induction false} ConventionalOrderIsRead(
    db: Database, specification: EncodingSpecification, instruction: DecodedInstruction, rest: seq<bv8>
  )
    requires IsWellFormedDatabase(db) && IsEncodable(specification, instruction)
    requires specification.prefix.LegacySpecification?
    ensures ReadInstruction(db, ConventionalBytes(specification, instruction, rest)) ==
            ReadInstruction(db, EncodedBytes(specification, instruction) + rest)
  {
    var afterOpcode := AfterOpcode(specification, instruction, rest);
    OpcodeStartsBytes(specification, instruction, afterOpcode);
    ConventionalPrefixesAreRead(specification, instruction, OpcodeBytes(specification, instruction) + afterOpcode);
    PrefixesComeFirst(db, ConventionalBytes(specification, instruction, rest));
    ReadUntilPrefixes(db, specification, instruction, rest);
  }

  lemma ScanWithoutRex(legacy: LegacyFields, addressSizeOverride: bool, rest: seq<bv8>)
    ensures ScanRun(NO_EXTENSIONS, addressSizeOverride, LegacyBytesWithoutRex(legacy) + rest) ==
            ScanRun(NO_EXTENSIONS, addressSizeOverride, rest)
  {
    var sized := OperandSizeOverrideBytes(legacy.operandSizeOverride);
    assert LegacyBytesWithoutRex(legacy) + rest == LockOrRepBytes(legacy.lockOrRep) + (sized + rest);
    EncodedBytesOfPrefixes(NoSegmentOverride, legacy.lockOrRep);
    ScanOther(NO_EXTENSIONS, addressSizeOverride, LockOrRepBytes(legacy.lockOrRep), sized + rest);
    ScanOther(NO_EXTENSIONS, addressSizeOverride, sized, rest);
  }

  // And in that order the processor takes all extension bits.
  lemma {:induction false} ProcessorReadsConventionalOrder(
    specification: EncodingSpecification, instruction: DecodedInstruction, rest: seq<bv8>
  )
    requires IsEncodable(specification, instruction) && specification.prefix.LegacySpecification?
    requires !instruction.prefix.Evex?
    ensures PrefixesOf(ConventionalBytes(specification, instruction, rest)) ==
            Prefixes(ExtensionsOf(instruction.prefix), instruction.addressSizeOverride,
                     OpcodeBytes(specification, instruction) + AfterOpcode(specification, instruction, rest))
  {
    var legacy := instruction.GetLegacyPrefixes();
    var afterOpcode := AfterOpcode(specification, instruction, rest);
    var opcode := OpcodeBytes(specification, instruction) + afterOpcode;
    var rex := RexBytes(legacy.GetRex());
    OpcodeStartsBytes(specification, instruction, afterOpcode);
    assert ConventionalBytes(specification, instruction, rest) ==
           SegmentOverrideBytes(instruction.segmentOverride) +
           (AddressSizeOverrideBytes(instruction.addressSizeOverride) + (LegacyBytesWithoutRex(legacy) + (rex + opcode)));
    ScanOverrides(instruction, LegacyBytesWithoutRex(legacy) + (rex + opcode));
    ScanWithoutRex(legacy, instruction.addressSizeOverride, rex + opcode);
    ScanRex(NO_EXTENSIONS, instruction.addressSizeOverride, legacy.GetRex(), opcode);
    ScanEnds(if RexIsNeeded(legacy.GetRex()) then ExtensionsOfRex(legacy.GetRex()) else NO_EXTENSIONS,
             instruction.addressSizeOverride, opcode);
    assert ValidatePrefix(specification, instruction).Ok?;
  }

  lemma ScanEnds(extensions: Extensions, addressSizeOverride: bool, rest: seq<bv8>)
    requires rest != [] && !RoundTripPrefixes.IsPrefixByte(rest[0])
    ensures TakeVex(ScanRun(extensions, addressSizeOverride, rest)) == Prefixes(extensions, addressSizeOverride, rest)
  {
  }
}
