// What the parser reads from the opcode bytes that the encoder emits.
module RoundTripOpcode {
  import opened Wrappers
  import opened X86Protos
  import opened Opcodes
  import opened InstructionParser

  // The values on the way from the first byte of an opcode to the opcode. Each
  // one but the last is a proper prefix.
  predicate IsPath(values: seq<Opcode>, bytes: seq<bv8>, opcode: Opcode) {
    && |values| == |bytes| > 0
    && values[0] == OneByte(bytes[0])
    && values[|values| - 1] == opcode
    && (forall i :: 0 <= i < |values| - 1 ==> values[i + 1] == values[i].AppendByte(bytes[i + 1]))
    && (forall i :: 0 <= i < |values| - 1 ==> values[i] in ProperOpcodePrefixes(opcode))
  }

  function PathTo(opcode: Opcode): seq<Opcode> {
    var first := opcode.DropLastByte();
    var second := first.DropLastByte();
    if opcode.b3 != 0 then [second.DropLastByte(), second, first, opcode]
    else if opcode.b2 != 0 then [second, first, opcode]
    else if opcode.b1 != 0 then [first, opcode]
    else [opcode]
  }

  lemma PathToOpcode(opcode: Opcode)
    ensures IsPath(PathTo(opcode), opcode.Bytes(), opcode)
  {
  }

  lemma PlaceOnPath(opcode: Opcode, prefix: Opcode) returns (q: nat)
    requires prefix in ProperOpcodePrefixes(opcode)
    ensures q < |PathTo(opcode)| - 1 && PathTo(opcode)[q] == prefix
  {
    var length := |PathTo(opcode)|;
    var first := opcode.DropLastByte();
    q := if prefix == first then length - 2 else if prefix == first.DropLastByte() then length - 3 else length - 4;
  }

  // No listed opcode continues in the bytes that follow.
  predicate NothingLonger(isListed: Opcode -> bool, isPrefix: Opcode -> bool, extended: Opcode, bytes: seq<bv8>)
    decreases |bytes|
  {
    bytes == [] || !isPrefix(extended) ||
    var next := extended.AppendByte(bytes[0]);
    !isListed(next) && NothingLonger(isListed, isPrefix, next, bytes[1..])
  }

  // The proper prefixes of the opcode are prefixes; it is listed; and it is not one
  // of the prefixes itself, or at least no longer opcode follows.
  predicate OpcodeIsRead(isListed: Opcode -> bool, isPrefix: Opcode -> bool, opcode: Opcode, rest: seq<bv8>) {
    && (forall prefix :: prefix in ProperOpcodePrefixes(opcode) ==> isPrefix(prefix))
    && (|opcode.Bytes()| > 1 ==> isListed(opcode))
    && NothingLonger(isListed, isPrefix, opcode, rest)
  }

  // The bytes either leave the opcode as it was found, or some of them are taken.
  lemma {:induction false} ExtendOrStay(
    isListed: Opcode -> bool, isPrefix: Opcode -> bool, found: Opcode, afterFound: seq<bv8>,
    extended: Opcode, bytes: seq<bv8>
  )
    ensures var result := ExtendOpcode(isListed, isPrefix, found, afterFound, extended, bytes);
            if NothingLonger(isListed, isPrefix, extended, bytes) then result == (found, afterFound)
            else |result.1| < |bytes|
    decreases |bytes|
  {
    if bytes != [] && isPrefix(extended) {
      var next := extended.AppendByte(bytes[0]);
      if isListed(next) {
        ExtendOrStay(isListed, isPrefix, next, bytes[1..], next, bytes[1..]);
      } else {
        ExtendOrStay(isListed, isPrefix, found, afterFound, next, bytes[1..]);
      }
    }
  }

  // From a position on the path, the scan ends behind the opcode exactly when the
  // rest of the path leads to it.
  lemma {:induction false} ExtendToOpcode(
    isListed: Opcode -> bool, isPrefix: Opcode -> bool, found: Opcode, afterFound: seq<bv8>,
    values: seq<Opcode>, bytes: seq<bv8>, opcode: Opcode, position: nat, rest: seq<bv8>
  )
    requires IsPath(values, bytes, opcode) && position < |bytes|
    requires if position == |bytes| - 1 then |afterFound| == |rest| ==> found == opcode && afterFound == rest
             else |afterFound| > |rest|
    requires |afterFound| >= |rest|
    ensures ExtendOpcode(isListed, isPrefix, found, afterFound, values[position], bytes[position + 1..] + rest) ==
            (opcode, rest)
            <==>
            && (forall q :: position <= q < |bytes| - 1 ==> isPrefix(values[q]))
            && (if position < |bytes| - 1 then isListed(opcode) else |afterFound| == |rest|)
            && NothingLonger(isListed, isPrefix, opcode, rest)
    decreases |bytes| - position
  {
    var unread := bytes[position + 1..] + rest;
    ExtendOrStay(isListed, isPrefix, found, afterFound, values[position], unread);
    if position == |bytes| - 1 {
      assert unread == rest;
    } else if isPrefix(values[position]) {
      var next := values[position + 1];
      assert unread[0] == bytes[position + 1];
      assert unread[1..] == bytes[position + 2..] + rest;
      assert next == values[position].AppendByte(unread[0]);
      if isListed(next) {
        assert position + 2 == |bytes| ==> unread[1..] == rest;
        ExtendToOpcode(isListed, isPrefix, next, unread[1..], values, bytes, opcode, position + 1, rest);
      } else {
        ExtendToOpcode(isListed, isPrefix, found, afterFound, values, bytes, opcode, position + 1, rest);
      }
    }
  }

  // A legacy opcode is read back, with exactly the bytes behind it left, exactly
  // when the path to it exists and nothing longer follows.
  lemma LegacyOpcodeRoundTrip(
    isListed: Opcode -> bool, isPrefix: Opcode -> bool, instruction: DecodedInstruction, opcode: Opcode, rest: seq<bv8>
  )
    requires !instruction.prefix.Vex? && !instruction.prefix.Evex?
    ensures ReadOpcode(isListed, isPrefix, instruction, opcode.Bytes() + rest) ==
            Success((instruction.(opcode := opcode), rest))
            <==> OpcodeIsRead(isListed, isPrefix, opcode, rest)
  {
    var bytes := opcode.Bytes();
    PathToOpcode(opcode);
    var values := PathTo(opcode);
    assert (bytes + rest)[1..] == bytes[1..] + rest;
    assert |bytes| == 1 ==> bytes[1..] + rest == rest;
    ExtendToOpcode(isListed, isPrefix, values[0], bytes[1..] + rest, values, bytes, opcode, 0, rest);
    forall prefix | prefix in ProperOpcodePrefixes(opcode)
      ensures exists q :: 0 <= q < |bytes| - 1 && values[q] == prefix
    {
      var q := PlaceOnPath(opcode, prefix);
    }
  }

  // An opcode that is no prefix is read whatever follows.
  lemma NothingFollowsNoPrefix(
    isListed: Opcode -> bool, isPrefix: Opcode -> bool, opcode: Opcode, rest: seq<bv8>
  )
    requires (forall prefix :: prefix in ProperOpcodePrefixes(opcode) ==> isPrefix(prefix))
    requires isListed(opcode) && !isPrefix(opcode)
    ensures OpcodeIsRead(isListed, isPrefix, opcode, rest)
  {
  }

  // A prefix has at most three bytes.
  ghost predicate AreShort(isPrefix: Opcode -> bool) {
    forall prefix :: isPrefix(prefix) ==> prefix != ZERO && prefix.b3 == 0
  }

  lemma OneByteMore(opcode: Opcode, byte: bv8)
    requires opcode != ZERO && opcode.b3 == 0
    ensures |opcode.AppendByte(byte).Bytes()| == |opcode.Bytes()| + 1
  {
  }

  // Of the scanned bytes, the opcode takes as many as it has.
  lemma {:induction false} ExtendedHasItsLength(
    isListed: Opcode -> bool, isPrefix: Opcode -> bool, found: Opcode, afterFound: seq<bv8>,
    extended: Opcode, bytes: seq<bv8>, all: seq<bv8>
  )
    requires AreShort(isPrefix)
    requires |found.Bytes()| <= |all| && afterFound == all[|found.Bytes()|..]
    requires |extended.Bytes()| <= |all| && bytes == all[|extended.Bytes()|..]
    ensures var (opcode, rest) := ExtendOpcode(isListed, isPrefix, found, afterFound, extended, bytes);
            |opcode.Bytes()| <= |all| && rest == all[|opcode.Bytes()|..]
    decreases |bytes|
  {
    if bytes != [] && isPrefix(extended) {
      var next := extended.AppendByte(bytes[0]);
      OneByteMore(extended, bytes[0]);
      if isListed(next) {
        ExtendedHasItsLength(isListed, isPrefix, next, bytes[1..], next, bytes[1..], all);
      } else {
        ExtendedHasItsLength(isListed, isPrefix, found, afterFound, next, bytes[1..], all);
      }
    }
  }

  lemma OpcodeHasItsLength(
    isListed: Opcode -> bool, isPrefix: Opcode -> bool, instruction: DecodedInstruction, bytes: seq<bv8>
  )
    requires AreShort(isPrefix)
    ensures match ReadOpcode(isListed, isPrefix, instruction, bytes)
            case Success((read, left)) =>
              && read == instruction.(opcode := read.opcode)
              && (!instruction.prefix.Vex? && !instruction.prefix.Evex? ==>
                    |read.opcode.Bytes()| <= |bytes| && left == bytes[|read.opcode.Bytes()|..])
            case Failure(_) => true
  {
    if bytes != [] && !instruction.prefix.Vex? && !instruction.prefix.Evex? {
      var first := OneByte(bytes[0]);
      ExtendedHasItsLength(isListed, isPrefix, first, bytes[1..], first, bytes[1..], bytes);
    }
  }

  // The opcode of a VEX or EVEX instruction: the map and the opcode byte.
  function OpcodeWithMap(mapSelect: MapSelect, byte: bv8): Opcode {
    var opcode := WithMap(mapSelect, byte);
    if opcode.Success? then opcode.value else OneByte(byte)
  }

  lemma MappedOpcodeRoundTrip(
    isListed: Opcode -> bool, isPrefix: Opcode -> bool,
    instruction: DecodedInstruction, mapSelect: MapSelect, opcode: Opcode, rest: seq<bv8>
  )
    requires mapSelect.Map0F? || mapSelect.Map0F38? || mapSelect.Map0F3A?
    requires match instruction.prefix
             case Vex(vex) => vex.mapSelect == mapSelect
             case Evex(evex) => evex.mapSelect == mapSelect
             case _ => false
    ensures ReadOpcode(isListed, isPrefix, instruction, opcode.LastByte().Bytes() + rest) ==
            Success((instruction.(opcode := OpcodeWithMap(mapSelect, opcode.b0)), rest))
  {
    assert ([opcode.b0] + rest)[1..] == rest;
  }

  // A map that has no opcodes is an error, and so is a missing opcode.
  lemma UnknownMapIsRejected(
    isListed: Opcode -> bool, isPrefix: Opcode -> bool, instruction: DecodedInstruction, bytes: seq<bv8>
  )
    requires || bytes == []
             || (instruction.prefix.Vex? && !IsOpcodeMap(instruction.prefix.vex.mapSelect))
             || (instruction.prefix.Evex? && !IsOpcodeMap(instruction.prefix.evex.mapSelect))
    ensures ReadOpcode(isListed, isPrefix, instruction, bytes) == Failure(InvalidArgument)
  {
  }
}
