// Opcodes: 32-bit numbers that hold up to four opcode bytes, the last one in the
// lowest byte (exegesis/base/opcode.h). The number is kept as its bytes, so a
// shift by eight bits drops or appends a byte.
module Opcodes {

  datatype Opcode = Opcode(b3: bv8, b2: bv8, b1: bv8, b0: bv8) {
    // The number shifted right by eight bits.
    function DropLastByte(): Opcode {
      Opcode(0, b3, b2, b1)
    }

    // The number shifted left by eight bits, with a byte added; the highest byte
    // is lost.
    function AppendByte(byte: bv8): Opcode {
      Opcode(b2, b1, b0, byte)
    }

    // The number with its three lowest bits cleared.
    function WithoutOperandBits(): Opcode {
      this.(b0 := b0 & 0xf8)
    }

    // The number cut to its lowest byte.
    function LastByte(): Opcode {
      Opcode(0, 0, 0, b0)
    }

    // The bytes from the first one that is not zero; at least the last one.
    function Bytes(): (bytes: seq<bv8>)
      ensures 1 <= |bytes| <= 4
    {
      if b3 != 0 then [b3, b2, b1, b0]
      else if b2 != 0 then [b2, b1, b0]
      else if b1 != 0 then [b1, b0]
      else [b0]
    }
  }

  const ZERO: Opcode := Opcode(0, 0, 0, 0)

  function OneByte(byte: bv8): Opcode {
    Opcode(0, 0, 0, byte)
  }

  // The opcodes that are left when the last one, two or three bytes are dropped,
  // as long as they are not zero.
  function ProperOpcodePrefixes(opcode: Opcode): set<Opcode> {
    var first := opcode.DropLastByte();
    var second := first.DropLastByte();
    {first, second, second.DropLastByte()} - {ZERO}
  }
}
