# Verification of the x86-64 instruction code

This project models the x86-64 part of the instruction database in Dafny and proves
properties of it. Its centre is the instruction codec: an encoder that validates a
decoded instruction against an encoding specification and emits its bytes, and a
streaming decoder that reads them back with the help of an opcode index. Around it are
the language in which encoding specifications are written, the functions that set
operands, and the transforms that prepare the database.

Code that works by changing things step by step is modelled as methods and classes with
loops. Each of them is proved equal to a function of its inputs or of the old state, and
what the code is for is proved about these functions as lemmas. `dafny verify
dfyconfig.toml` verifies everything.

## Main results

1. **Round trip** (`UniqueDecoding`, `PrefixCode`). For every specification that the
   matcher supports and every instruction that passes validation, decoding the encoding
   followed by arbitrary bytes returns the normal form and exactly those bytes, if and
   only if two checkable conditions hold. Encodings are prefix-free and injective up to
   the normal form, and a concatenation of encodings decodes one by one; no encoding that
   is cut short is accepted (`TruncatedEncodings`). In a database
   of many specifications (`DatabaseEntries`) the exact condition on the opcode is added,
   and conditions on the entries say when the layout is right.
2. **Meaning of the operands** (`ProcessorPrefixes`, `AddressMeaning`,
   `RegisterOperands`). An independent definition, after the Intel SDM, of the prefixes
   that a processor takes from bytes and of the address that ModR/M, SIB, displacement
   and extension bits denote. Exactly when the bytes that encoding gives after a setter
   denote the address or the register that was asked for, for the processor and for the
   parser; and that registers can be set in any order.
3. **Specification language** (`SpecificationTexts`, `SpecificationRoundTrip`,
   `ParsedSpecifications`). What every text of the words of the manuals means, in all
   spellings; exactly when generated text parses back; and what holds of the result of any
   parse.
4. **Operand allocation** (`OperandEncodings`). Exactly when it succeeds, for every order
   of the hash table, and that it never uses an encoding more often than it is available.
5. **Demands of a specification** (`AcceptedInstructions`, `OperandMatching`,
   `MatcherAgreement`). Exactly which instructions the encoder accepts and the matcher
   finds, demand by demand and on the emitted bytes; the addressing modes in terms of the
   addresses that the bytes denote; and where validator and matcher differ.
6. **Prefixes** (`PrefixRuns`, `VexLayouts`). What the parser reads from any run of legacy
   prefixes in any order, and from the bits of VEX and EVEX.
7. **Opcode index** (`Architecture`), **generated examples** (`EncodingExamples`,
   `ExampleMeaning`).
8. **Database transforms**: `VendorSyntaxMerge`, `PrefixUsages`, `SyntaxOrder`,
   `InstructionGroups`; and `MicroOperations`, `AssemblyRoundTrip`, `CpuIdDumps`.

## Where the code falls short of a plain statement

The model follows the code. Where a property does not hold for all inputs, a theorem
states the exact condition under which it does, and a lemma gives a concrete input for
which it does not.

- The validator does not bound modrm.rm and sib.base. With 12 in modrm.rm the encoder
  emits no SIB byte, and the byte that it emits asks for one
  (`UniqueDecoding.RegisterTwelveIsNotReadBack`, `UniqueDecoding.FramingIsLost`).
- Encoder and parser disagree about the order of the EVEX bits R and R', although the
  header of the parser promises the instruction back (exegesis/x86/instruction_parser.h:67-80),
  and a VEX suffix that is parsed replaces an EVEX prefix
  (`UniqueDecoding.EvexRBitsAreSwapped`, `RoundTrip.SuffixReplacesEvexPrefix`).
- An opmask register 8 is accepted where k0 is not allowed and is emitted as k0
  (`PrefixCode.OpmaskEightIsRejected`); an EVEX register operand of 0 is accepted as a
  shortcut when it is unused, but V' is then emitted from it, so the normal form is
  rejected (`PrefixCode.UnusedRegisterZeroIsRejected`).
- Under a legacy specification the validator accepts EVEX data, which the matcher does
  not (`MatcherAgreement.EvexPassesAsLegacy`); under an EVEX one it reads a rounding mode
  as a vector length, where the matcher does not look
  (`MatcherAgreement.RoundingModeIsRejected`).
- The index does not look behind an exact opcode: a register-in-opcode instruction is
  hidden by one whose opcode is its base plus 1 to 7 (`Architecture.RegisterOneIsShadowed`).
  The parser still finds an entry that matches whenever there is one
  (`DatabaseEntries.SearchFindsMatch`).
- The specification language accepts the extensions /8 and /9
  (`SpecificationRoundTrip.ExtensionEightIsParsed`); the generator prints an extension of
  10 or more with two digits, opcodes that start with a legacy prefix byte, and 512-bit
  VEX vectors, none of which is read back
  (`SpecificationRoundTrip.LongExtensionIsNotReadBack`, `PrefixByteIsNotReadBack`,
  `LongVectorIsNotReadBack`).
- Register indices 16 to 31 are accepted by the setters and do not read back
  (`RegisterOperands.RegisterSixteenIsNotReadBack`).
- A register in the opcode takes its fourth bit from REX.B, which its setter leaves as it
  was: register 3 set in the encoding of BSWAP with register 8 selects register 11
  (`RegisterOperands.OpcodeRegisterKeepsExtension`).
- The encoder emits REX before LOCK, REP and 66, where a processor ignores it, although
  the parser does not: [r9] becomes [rcx], and a 64-bit POPCNT one of 32 bits
  (`AddressMeaning.NinthBaseIsNotDenoted`, `ProcessorPrefixes.WideCountIsNotRead`).
- The matcher does not look at REX.X and takes r12 as an index for no index
  (`OperandMatching.IndexTwelveIsTakenForNone`).
- Generated examples are rejected by the validator for VEX specifications with the vector
  size L1, and for legacy ones with a mandatory 67 or with both F2 and F3
  (`EncodingExamples.ExamplesAreRejected`).
- The assembly parser turns a tab in the first operand into a space
  (`AssemblyRoundTrip.TabIsNotReadBack`).
- A tab also separates the parts of the merge key. With tabs in raw specifications a
  merge can change a key, and a second merge then merges again
  (`VendorSyntaxMerge.TabsBreakTheMerge`).

## Model

| member | source | states |
|---|---|---|
| `InstructionEncoder.EncodeInstruction` | exegesis/x86/instruction_encoder.cc:607-614 | An instruction that is not valid for the specification gives the first error of the five validation phases; any other one gives the concatenation of prefixes, opcode, ModR/M with SIB and displacement, immediates with code offset, and VEX suffix. |
| `AcceptedInstructions.AcceptedExactly` | exegesis/x86/instruction_encoder.cc:117-124 | When EncodeInstruction succeeds: exactly when the instruction meets every demand of the specification, each stated by itself. For a legacy prefix: REX.W and 66 each are there if required and not there if not permitted, F2, F3 and 67 are there if mandatory. For VEX and EVEX: map, mandatory prefix, W, length, register operand, EVEX.b and mask. For all: opcode, ModR/M with extension, SIB, the sizes of the values and the suffix. |
| `AcceptedInstructions.RejectedWith` | exegesis/x86/instruction_encoder.cc:137-153 | Which error it gives otherwise: an invalid argument, except for an undefined prefix type and for 512 bits under VEX. |
| `AcceptedInstructions.LegacyBytesMeetDemands` | exegesis/x86/instruction_encoder.cc:170-301 | On the bytes: among the prefix bytes of an accepted legacy instruction 66, and a byte 40 to 4F with bit 3, are there if required and absent if not permitted; F3, F2 and 67 are there if mandatory. |
| `AcceptedInstructions.VexBytesMeetDemands` | exegesis/x86/instruction_encoder.cc:355-415 | On the bytes of VEX and EVEX: the escape byte, the map number, W, the number of the mandatory prefix, the length, zeroing and the mask are those that the specification asks for, bit by bit. |
| `InstructionEncoder.InstructionEncoder.Encode` | exegesis/x86/instruction_encoder.cc:126-135 | The buffer is emptied, and at the end holds exactly the five parts in their order. |
| `InstructionEncoder.InstructionEncoder.EncodePrefix` | exegesis/x86/instruction_encoder.cc:155-168 | Appends segment override, address-size override, then the prefixes of the kind that the specification or the instruction has, and nothing else. |
| `InstructionEncoder.InstructionEncoder.EncodeLegacyPrefixes` | exegesis/x86/instruction_encoder.cc:185-245 | REX comes first and only if one of its bits is set; LOCK or REP and the operand-size override follow it. |
| `InstructionEncoder.InstructionEncoder.EncodeVexPrefix` | exegesis/x86/instruction_encoder.cc:355-388 | Appends the two-byte form exactly when neither X nor B extends a register, W is clear and the map is 0F, and the three-byte form otherwise; an unused vvvv field is written as 15. |
| `InstructionEncoder.InstructionEncoder.EncodeEvexPrefix` | exegesis/x86/instruction_encoder.cc:390-415 | Appends the four EVEX bytes; vvvv is normalised to 31 when it is unused, while V' comes from the field as it was given. |
| `InstructionEncoder.InstructionEncoder.EncodeOpcode` | exegesis/x86/instruction_encoder.cc:468-483 | Appends the bytes of the opcode from its first non-zero byte, one byte only under a VEX or EVEX specification; a zero opcode is filled in from the specification. |
| `InstructionEncoder.InstructionEncoder.EncodeModRmIfNeeded` | exegesis/x86/instruction_encoder.cc:532-563 | Appends ModR/M, a SIB byte exactly when the mode needs it, and as many low bytes of the displacement as the mode has. |
| `InstructionEncoder.InstructionEncoder.EncodeImmediateValues` | exegesis/x86/instruction_encoder.cc:595-605 | Appends the immediate values in their order and then the code offset. |
| `MatcherAgreement.ValidatorRefinesMatcher` | exegesis/x86/instruction_encoder.cc:117-124 | Every instruction that the validator accepts, with its opcode filled in, satisfies the matcher of prefixes and opcode and reaches no fatal branch of it. The one exception, stated exactly, is a prefix of a kind that the specification does not have. |
| `MatcherAgreement.ValidatorRefinesModRmMatcher` | exegesis/x86/instruction_encoding.cc:1128-1157 | For such an instruction the opcode-extension test always succeeds, so that the ModR/M matcher is the addressing-mode test, except for the usage "reg ignored", which is fatal. |
| `MatcherAgreement.EvexPassesAsLegacy` | exegesis/x86/instruction_encoder.cc:170-183 | A concrete instruction with EVEX data that is valid under a legacy specification and does not match it. |
| `MatcherAgreement.RoundingModeIsRejected` | exegesis/x86/instruction_encoding.cc:957-1013 | A concrete EVEX prefix with a rounding mode that matches and is not valid. |
| `MatcherAgreement.VexValidatorIsMatcher` | exegesis/x86/instruction_encoder.cc:303-326 | A VEX prefix is valid if and only if it matches, its register operand is in range, a vector bit that is ignored is zero, and its map is defined. |
| `MatcherAgreement.EvexValidatorIsMatcher` | exegesis/x86/instruction_encoder.cc:328-353 | An EVEX prefix is valid if and only if it matches and its register operand, vector length, map, b bit and opmask are valid; under static rounding the matcher is the weaker one. |
| `MatcherAgreement.LegacyValidatorIsMatcher` | exegesis/x86/instruction_encoder.cc:170-301 | Legacy prefixes are valid if and only if there is no VEX prefix, they match, and the operand-size override fits even under REX.W, where the matcher does not look at it. |
| `AcceptedInstructions.LegacyMatches` | exegesis/x86/instruction_encoding.cc:818-871 | What the matcher asks of legacy prefixes, demand by demand; under REX.W it does not look at 66. |
| `AcceptedInstructions.VexMatches` | exegesis/x86/instruction_encoding.cc:920-955 | What it asks of a VEX prefix, and when it is fatal. |
| `AcceptedInstructions.EvexMatches` | exegesis/x86/instruction_encoding.cc:957-1013 | What it asks of an EVEX prefix; under static rounding the length is free. |
| `AcceptedInstructions.PrefixesAndOpcodeMatch` | exegesis/x86/instruction_encoding.cc:1159-1224 | An instruction matches by prefixes and opcode exactly when its prefix is of the kind of the specification and meets those demands, and its opcode is equal, up to the low three bits if they hold an operand. |
| `OperandMatching.ModRmMatches` | exegesis/x86/instruction_encoding.cc:1128-1157 | It matches by the ModR/M byte exactly when there is none, or the extension is the value of modrm.reg, if there is one, and the addressing mode matches. |
| `OperandMatching.MatcherReadsAddress` | exegesis/x86/instruction_encoding.cc:1036-1126 | For all bytes of an operand that the parser reads: the matcher finds an addressing mode exactly when the address that these bytes denote has the base, index and displacement of that mode, is RIP-relative, has a SIB byte, or is a register. It does not look at REX.X, so that the index r12 is the one exception. |
| `OperandMatching.IndexTwelveIsTakenForNone` | exegesis/x86/instruction_encoding.cc:1036-1126 | With REX.X an index field of 4 is the register r12, as in 04 20, which is [rax + r12]; no addressing mode with an index is found for such bytes. |
| `Bits.SignExtend8RoundTrip` | exegesis/x86/instruction_parser.cc:560-600 | Sign extension of a parsed 8-bit displacement is undone by the truncation of the encoder. |
| `Bits.SignExtend32RoundTrip` | exegesis/x86/instruction_parser.cc:560-600 | The same for 32-bit displacements. |
| `Bits.SignExtend32IsSigned` | exegesis/x86/instruction_parser.cc:560-600 | A displacement with its sign bit set stands for minus its complement, in 64 bits. |
| `Bits.DWordRoundTrip` | exegesis/x86/instruction_encoder.cc:532-563 | The four bytes of a double word give it back. |
| `RoundTripPrefixes.PrefixesRoundTrip` | exegesis/x86/instruction_parser.cc:178-261 | Reading the emitted prefixes, in whatever order the encoder emits them, gives back overrides and prefix as the parser stores them, and leaves exactly what follows. |
| `RoundTripOpcode.LegacyOpcodeRoundTrip` | exegesis/x86/instruction_parser.cc:384-459 | Reading a legacy opcode byte by byte gives it back and leaves exactly what follows if and only if each proper prefix of it is an opcode prefix, it is listed if it has several bytes, and no longer listed opcode follows. An opcode that is itself a prefix of a listed one is included. |
| `RoundTripOpcode.MappedOpcodeRoundTrip` | exegesis/x86/instruction_parser.cc:384-459 | Under a VEX or EVEX prefix the opcode byte and the map give the opcode of the specification. |
| `RoundTripOperands.AddressingRoundTrip` | exegesis/x86/instruction_parser.cc:503-614 | ModR/M, SIB and displacement are read back in normal form, with nothing taken from what follows, when the escape values of modrm.rm and sib.base are not hidden by their high bits. |
| `RoundTripOperands.OperandsRoundTrip` | exegesis/x86/instruction_parser.cc:616-668 | Immediate values, code offset and VEX suffix are read back, and the rest is left. |
| `RoundTrip.DatabaseRoundTrip` | exegesis/x86/instruction_parser.h:67-80 | An encoded instruction whose layout the lookups of the parser find (the next two rows say when) is read back, with exactly the bytes behind it left, if and only if its opcode is found. That is the case for VEX and EVEX; for legacy it means that its proper prefixes are opcode prefixes, it is listed, and no longer listed opcode continues in the bytes that follow. |
| `DatabaseEntries.SearchFindsMatch` | exegesis/x86/instruction_parser.cc:461-503 | Whatever the database holds, shadowed opcodes included: the search of the parser, which repeats a failed lookup without the operand bits, finds a specification if and only if some entry matches, and then that of an entry that matches. |
| `DatabaseEntries.EntryRoundTrip` | exegesis/x86/instruction_parser.h:67-80 | The same under conditions on the entries: one entry has the specification and its first syntax allows the addressing mode, and every entry that matches the prefixes and the opcode agrees on the ModR/M byte and the operand layout. Then the instruction is read back if and only if no longer opcode continues in the bytes that follow, which cannot be when its opcode is not a prefix of that of an entry. |
| `RoundTrip.ParsedIsNormal` | exegesis/x86/instruction_parser.cc:340-382 | What the parser returns is the normal form of the instruction if and only if an EVEX prefix has R equal to R' and there is no VEX suffix beside it: encoder and parser disagree about the order of the two bits, and storing the suffix replaces an EVEX prefix. |
| `RoundTrip.SuffixReplacesEvexPrefix` | exegesis/x86/instruction_parser.cc:651-668 | A concrete EVEX instruction with equal R and R' whose prefix is replaced when its VEX suffix is parsed. |
| `UniqueDecoding.RoundTripWithSpecification` | exegesis/x86/instruction_encoder.cc:126-135 | For every specification with a prefix set that the matcher supports and every valid instruction, decoding the encoding followed by any bytes gives the normal form and exactly those bytes if and only if the escapes of the address are in range and the parser keeps the prefix. Both directions. |
| `UniqueDecoding.FramingIsLost` | exegesis/x86/instruction_encoder.cc:485-523 | With an escape out of range the parser fails or stops inside the bytes that follow, because the validator does not bound modrm.rm and sib.base. |
| `UniqueDecoding.RegisterTwelveIsNotReadBack` | exegesis/x86/instruction_encoding.cc:74-76 | A concrete valid instruction, with 12 in modrm.rm, that is not read back. |
| `UniqueDecoding.EvexRBitsAreSwapped` | exegesis/x86/instruction_encoder.cc:390-396 | A concrete valid EVEX instruction whose R and R' differ and that is not read back. |
| `PrefixCode.NormalFormEncodesTheSame` | exegesis/x86/instruction_encoder.cc:126-135 | An instruction and its normal form have the same bytes. |
| `PrefixCode.EncodingsArePrefixFree` | exegesis/x86/instruction_encoder.cc:126-135 | If two encodings under one specification, with the escapes of their addresses in range and followed by anything, are equal as byte strings, then the normal forms are equal and so is what follows: no encoding is a proper prefix of another one. |
| `PrefixCode.SameEncodingIsSameNormalForm` | exegesis/x86/instruction_encoder.cc:126-135 | Two valid instructions with escapes in range have the same bytes if and only if they have the same normal form. |
| `PrefixCode.NormalFormIsValid` | exegesis/x86/instruction_encoding.cc:298-364 | The normal form is itself valid if and only if no opmask register above 7 hides k0, no unused EVEX register operand was zero, and no filled-in opcode has operand bits set. |
| `PrefixCode.OpmaskEightIsRejected` | exegesis/x86/instruction_encoding.cc:298-340 | A concrete valid instruction with opmask register 8 whose normal form has k0 and is not valid. |
| `PrefixCode.UnusedRegisterZeroIsRejected` | exegesis/x86/instruction_encoding.cc:342-364 | A concrete valid EVEX instruction with 0 in its unused register field whose normal form is not valid. |
| `PrefixCode.MissingOpcodeIsRejected` | exegesis/x86/instruction_encoder.cc:440-466 | A concrete valid instruction without an opcode whose normal form is not valid, because the specification has operand bits set. |
| `PrefixCode.StreamRoundTrip` | exegesis/x86/instruction_parser.h:67-80 | A concatenation of encoded instructions whose escapes and prefixes survive, in a database whose lookups find their layouts, is read back one by one as their normal forms, with what follows left, if and only if each opcode is found with the other encodings behind it. |
| `DatabaseEntries.EntryStreamRoundTrip` | exegesis/x86/instruction_parser.h:67-80 | The same of instructions of several entries, under the conditions on the entries. |
| `PrefixCode.SpecificationStreamRoundTrip` | exegesis/x86/instruction_parser.h:67-80 | Under one specification any concatenation of encodings whose escapes and prefixes survive is read back one by one, without a condition on opcodes. |
| `InstructionParser.InstructionParser.ConsumeBinaryEncoding` | exegesis/x86/instruction_parser.cc:117-131 | Forgets the last instruction and returns the instruction that the streaming decoder finds with the rest of the bytes, or its error. |
| `TruncatedEncodings.TruncationIsRejected` | exegesis/x86/instruction_parser.h:67-80 | Under every supported specification: no proper front of the encoding of an instruction, wherever it ends, is accepted. |
| `TruncatedEncodings.ParserErrors` | exegesis/x86/instruction_parser.cc:117-131 | For all databases and bytes: a failed parse reports an invalid argument or that nothing was found, and no bytes are no instruction. |
| `InstructionParser.InstructionParser.ConsumePrefixes` | exegesis/x86/instruction_parser.cc:178-261 | Stores the prefixes found by scanning the run in any order, or the error of the scanner, and leaves the first byte that is no prefix. |
| `PrefixRuns.RunIsRead` | exegesis/x86/instruction_parser.cc:206-283 | For all runs of legacy prefix bytes in any order, followed by another byte: the run is accepted exactly when it has at most one of LOCK, REPNE and REP and at most one REX. Then all of it is read, and the fields are what the bytes say: 66, 67, F0, F2, F3 by their occurrence, REX by its bits, and the last segment override. |
| `PrefixRuns.OrderDoesNotMatter` | exegesis/x86/instruction_parser.cc:206-283 | Two orders of one run with at most one segment override give the same instruction. |
| `PrefixRuns.ConventionalOrderIsRead` | exegesis/x86/instruction_parser.cc:206-283 | With REX moved directly in front of the opcode, as assemblers emit it, an encoding is read like that of the encoder, in every database. |
| `PrefixRuns.ProcessorReadsConventionalOrder` | exegesis/x86/instruction_encoder.cc:185-189 | And in that order a processor takes W, R, X and B as they are. |
| `InstructionParser.InstructionParser.ConsumeVexPrefix` | exegesis/x86/instruction_parser.cc:285-338 | Stores the fields of a two- or three-byte VEX prefix. |
| `VexLayouts.VexIsReadByLayout` | exegesis/x86/instruction_parser.cc:285-338 | For all bytes: the fields are the bits of the layout in the manuals, C4 RXBmmmmm WvvvvLpp or C5 RvvvvLpp, and what follows is left; it is an error exactly if bytes are missing. |
| `InstructionParser.InstructionParser.ConsumeEvexPrefix` | exegesis/x86/instruction_parser.cc:340-382 | Stores the fields of an EVEX prefix, or gives an error for a missing byte or a wrong reserved bit. |
| `VexLayouts.EvexIsReadByLayout` | exegesis/x86/instruction_parser.cc:340-382 | The same for 62 RXBR'00mm Wvvvv1pp zL'LbV'aaa, with an error exactly if bytes are missing or a reserved bit is wrong. |
| `InstructionParser.InstructionParser.ConsumeOpcode` | exegesis/x86/instruction_parser.cc:384-459 | Stores the opcode, extended byte by byte while it is an opcode prefix and not listed for these prefixes, and the specification that the index finds for it. |
| `RoundTripOpcode.UnknownMapIsRejected` | exegesis/x86/instruction_parser.cc:384-400 | A VEX or EVEX map without opcodes is an invalid argument, and so is a missing opcode. |
| `InstructionParser.InstructionParser.ConsumeModRmAndSibIfNeeded` | exegesis/x86/instruction_parser.cc:503-614 | Stores ModR/M, SIB and the sign-extended displacement, and looks the specification up again with the ModR/M byte. |
| `TruncatedEncodings.AddressingTakes` | exegesis/x86/instruction_parser.cc:503-600 | For all bytes: ModR/M, SIB and displacement take the number of bytes that mod, rm and the SIB base ask for, what follows is left, and it is an error exactly if there are fewer. |
| `TruncatedEncodings.OperandsTake` | exegesis/x86/instruction_parser.cc:616-668 | For all bytes: the immediate values, the code offset and the suffix take the sum of their sizes, and it is an error exactly if there are fewer. |
| `Architecture.X86Architecture.BuildIndex` | exegesis/x86/architecture.cc:34-52 | Afterwards the table lists for every opcode exactly the instructions that have it, in increasing order, and the prefix set holds exactly the non-zero proper byte prefixes of the non-VEX opcodes. |
| `Architecture.X86Architecture.GetCandidates` | exegesis/x86/architecture.cc:60-83 | Returns the instructions listed under the opcode; if there are none, those under the opcode without its operand bits, provided that one of them encodes an operand in the opcode. |
| `Architecture.X86Architecture.GetInstructionIndices` | exegesis/x86/architecture.cc:120-139 | Returns the candidates that match, in their order. |
| `Architecture.X86Architecture.GetInstructionIndex` | exegesis/x86/architecture.cc:101-118 | Returns the first of them, or none. |
| `OperandMatching.ExtensionIsChecked` | exegesis/x86/architecture.cc:88-139 | An instruction that is returned by a lookup with the ModR/M byte has the value of modrm.reg as its opcode extension, if it has one. |
| `OperandMatching.ExtensionsExclude` | exegesis/x86/architecture.cc:88-139 | So instructions with different extensions are never returned together, and the first one has the right extension. |
| `Architecture.X86Architecture.IsOpcodePrefix` | exegesis/x86/architecture.cc:46-50 | Holds exactly of the non-zero proper byte prefixes of the opcodes of non-VEX instructions. |
| `Architecture.LookupIsSortedAndSound` | exegesis/x86/architecture.cc:120-139 | The result of every lookup is strictly increasing, and every instruction in it matches. |
| `Architecture.IndexAgreesWithScan` | exegesis/x86/architecture.cc:60-139 | A lookup equals the scan of all instructions with the matcher if and only if no matching instruction is hidden by other instructions listed under the exact opcode. |
| `Architecture.EveryLookupAgrees` | exegesis/x86/architecture.cc:60-139 | All lookups of a database equal the scan if and only if no listed opcode is the opcode of a register-in-opcode instruction plus 1 to 7, where that instruction can have its prefixes at all (F2 and F3 are not both mandatory). The failing lookup is built from the opcode of one instruction and the prefixes of the other. |
| `Architecture.IndexAgreesWithScanEverywhere` | exegesis/x86/architecture.cc:60-139 | In such a database the single lookup is the first element of the scan. |
| `Architecture.RegisterOneIsShadowed` | exegesis/x86/architecture.cc:60-83 | A concrete database, 50+r and 51, in which the lookup of 51 misses the first instruction. |
| `Architecture.MatcherIsNotFatal` | exegesis/x86/instruction_encoding.cc:1159-1224 | On a well-formed database the matchers never reach a fatal branch, given a ModR/M byte where it is tested. |
| `OperandSetters.MutableInstruction.SetOperandToRegister` | exegesis/x86/instruction_encoding.cc:1437-1492 | For a position in range and an index that the encoding can hold, the field and its extension bit change and nothing else; otherwise the error leaves the instruction as it was. |
| `OperandSetters.GetMemoryOperandPosition` | exegesis/x86/instruction_encoding.cc:1511-1529 | Finds the first operand in modrm.rm whose mode and the indirect category contain one another, or returns -1. |
| `OperandSetters.IndirectCategories` | exegesis/x86/instruction_encoding.cc:1494-1529 | The finite list of modes that this means. |
| `OperandSetters.MemoryOperandsAre` | exegesis/x86/instruction_encoding.cc:1511-1547 | There is a memory operand exactly if an operand in modrm.rm has an open addressing mode or one in the category of the indirect ones. |
| `OperandSetters.MutableInstruction.SetOperandToMemoryAbsolute` | exegesis/x86/instruction_encoding.cc:1549-1567 | Succeeds if and only if there is a memory operand and an absolute address can be encoded that way (no escape register, index at most 15); on failure nothing changes. |
| `OperandSetters.MutableInstruction.SetOperandToMemoryBase` | exegesis/x86/instruction_encoding.cc:1569-1587 | Succeeds if and only if there is a memory operand and [base] can be encoded that way (no escape register, index at most 15); on failure nothing changes. |
| `OperandSetters.MutableInstruction.SetOperandToMemoryBaseSib` | exegesis/x86/instruction_encoding.cc:1589-1614 | Succeeds if and only if there is a memory operand and [base] with a SIB byte can be encoded that way (no escape register, index at most 15); on failure nothing changes. |
| `OperandSetters.MutableInstruction.SetOperandToMemoryRelativeToRip` | exegesis/x86/instruction_encoding.cc:1616-1628 | Succeeds if and only if there is a memory operand and an address relative to RIP can be encoded that way (no escape register, index at most 15); on failure nothing changes. |
| `OperandSetters.MutableInstruction.SetOperandToMemoryBaseAnd8BitDisplacement` | exegesis/x86/instruction_encoding.cc:1666-1671 | Succeeds if and only if there is a memory operand and [base + disp8] can be encoded that way (no escape register, index at most 15); on failure nothing changes. |
| `OperandSetters.MutableInstruction.SetOperandToMemoryBaseAnd32BitDisplacement` | exegesis/x86/instruction_encoding.cc:1673-1678 | Succeeds if and only if there is a memory operand and [base + disp32] can be encoded that way (no escape register, index at most 15); on failure nothing changes. |
| `AddressMeaning.SettersHoldReference` | exegesis/x86/instruction_encoding.cc:1549-1678 | Whatever ModR/M, SIB, REX or VEX bits were there before, after a memory setter the fields hold the reference and a SIB is present if and only if it is required. |
| `AddressMeaning.HeldReferenceIsDenoted` | exegesis/x86/instruction_encoding.cc:53-76 | The bytes of such fields denote exactly the reference under the addressing rules of the Intel SDM, volume 2A, sections 2.1.5 and 2.2.1.2 to 2.2.1.6. |
| `AddressMeaning.EncodedOperandDenotesReference` | exegesis/x86/instruction_encoder.cc:185-189 | After a memory setter and the encoder, a processor that ignores a REX which is not directly in front of the opcode reads from the bytes [base], [base + disp8], [base + disp32], [RIP + disp32] or [abs32] as asked for, with 64 bits or with 32 under an address-size override, if and only if no LOCK, REP or 66 stands behind REX or the base register is at most 7. Otherwise it reads the same with the number of the base minus 8. |
| `AddressMeaning.NinthBaseIsNotDenoted` | exegesis/x86/instruction_encoder.cc:185-189 | The base register r9 under an operand-size override is encoded as 41 66 03 01, which denotes [rcx]. |
| `ProcessorPrefixes.WideCountIsNotRead` | exegesis/x86/instruction_encoder.cc:185-189 | POPCNT with 64-bit operands is encoded as 48 F3 0F B8 C0, in which the processor ignores REX.W. |
| `AddressMeaning.EncodedOperandIsDecoded` | exegesis/x86/instruction_encoder.cc:532-563 | With the extension bits that the parser finds, which takes REX wherever it stands, the bytes denote every reference. |
| `ProcessorPrefixes.ProcessorReadsPrefixes` | exegesis/x86/instruction_encoder.cc:155-213 | From any encoding, followed by anything, the processor takes the address size and the bits W, R, X and B, and what is left is the opcode with what follows it. The bits are those of the instruction if and only if no LOCK, REP or 66 stands behind REX or all of them are clear. |
| `AddressMeaning.SettersKeepOtherFields` | exegesis/x86/instruction_encoding.cc:1549-1678 | A memory setter leaves modrm.reg, the opcode, the immediates, the overrides and every prefix bit but X and B as they were. |
| `ProcessorPrefixes.ExtensionBitsSurvive` | exegesis/x86/instruction_encoder.cc:201-213 | W, R, X and B are read back by the parser from the emitted prefix as they were set. |
| `RegisterOperands.RegisterIsReadBack` | exegesis/x86/instruction_encoding.cc:1310-1433 | After encoding and decoding, a register operand selects the assigned index if and only if the index is at most 15 and, for a general-purpose register in the opcode, the bit B was clear before: the setter does not change it. |
| `RegisterOperands.RegisterIsReadFromBytes` | exegesis/x86/instruction_encoding.cc:1310-1433 | The same of the bytes: decoding them, followed by anything, leaves what follows and gives fields that select the index exactly in these cases, and with the extension bits that the processor takes exactly in those of the next row. |
| `RegisterOperands.ProcessorSelectsRegister` | exegesis/x86/instruction_encoder.cc:185-189 | For the processor the condition is the same, except where LOCK, REP or 66 stands behind REX: there it is that an index in the ModR/M byte is at most 7. |
| `RegisterOperands.OpcodeRegisterKeepsExtension` | exegesis/x86/instruction_encoding.cc:1362-1373 | Register 3 is set in the BSWAP of register 8; the bytes are 41 0F CB and select register 11. |
| `RegisterOperands.RegisterSixteenIsNotReadBack` | exegesis/x86/instruction_encoding.cc:1310-1328 | Register 16 in modrm.reg is accepted, and its bytes select register 8. |
| `RegisterOperands.EmittedRegisterIsSet` | exegesis/x86/instruction_encoding.cc:1310-1433 | The condition of RegisterIsReadBack, for the field and extension bit of the instruction before it is encoded. |
| `RegisterOperands.SettersCommute` | exegesis/x86/instruction_encoding.cc:1437-1492 | Two setters of different encodings of the prefix kind of the instruction give the same instruction in both orders. |
| `RegisterOperands.AnyOrderIsTheSame` | exegesis/x86/instruction_encoding.cc:1437-1492 | So do any two permutations of any number of them; hence the bytes are the same. |
| `RegisterOperands.EachRegisterIsReadFromBytes` | exegesis/x86/instruction_encoding.cc:1437-1492 | After any number of setters with distinct encodings, decoding the bytes gives each register its index if and only if the index is at most 15 and, for a general-purpose register in the opcode, the register in modrm.rm, if one was set, is at most 7, and the bit B was clear before otherwise. |
| `CategoryUtil.IsInCategory` | exegesis/util/category_util.h:31-36 | The shifting loop decides whether the category is the value without some of its last hexadecimal digits. |
| `CategoryUtil.CategoriesOf` | exegesis/util/category_util.h:31-36 | For values of up to three digits: the categories are its up to four prefixes. |
| `EncodingExamples.GenerateEncodingExamples` | exegesis/x86/instruction_encoding.cc:756-811 | Returns all examples of the parsed specification: the originals, then the variants with an extension bit, although the list grows while it is read. |
| `ExampleMeaning.OriginalsDenote` | exegesis/x86/instruction_encoding.cc:520-673 | The addresses that the examples denote, one by one and in order: a register, [rbx + 127], [rsp + 4 * rcx + 127], the same with 0x12345678, [rbx], [RIP + 0x12345678], [rsp + 4 * rcx] and [4 * rcx + 0x12345678], as far as the addressing mode of the operand in modrm.rm allows them. |
| `ExampleMeaning.BaseHolds` | exegesis/x86/instruction_encoding.cc:402-430 | The other fields: the opcode and the prefixes that the specification demands, no extension bit but W, register 6 or the extension in modrm.reg, register 8 in vvvv. |
| `ExampleMeaning.FirstInFormats` | exegesis/x86/instruction_encoding.cc:471-493 | The operand that is looked up by its encoding is the first one that has it, in the order of the syntaxes. |
| `ExampleMeaning.ValuesHaveSizes` | exegesis/x86/instruction_encoding.cc:756-811 | Immediate values have their sizes and count up from AB; the code offset has its size. |
| `EncodingExamples.GenerateModRMEncodingExamples` | exegesis/x86/instruction_encoding.cc:606-678 | Returns the examples of the addressing modes that the operand allows, in order. |
| `EncodingExamples.AppendPrefixVariations` | exegesis/x86/instruction_encoding.cc:684-753 | Appends at most one variant: B if modrm.rm or the opcode holds a register, else R, and none if the encoding has its long form already. |
| `ExampleMeaning.VariationsAdd` | exegesis/x86/instruction_encoding.cc:684-753 | A variation sets B, or R if no operand uses B, and nothing else; there is one unless the prefix has its long form already or no operand uses either. |
| `ExampleMeaning.VariationIsLonger` | exegesis/x86/instruction_encoding.cc:684-753 | What variations are for: the encoding of one with B takes exactly one byte more. |
| `EncodingExamples.EveryExampleEncodes` | exegesis/x86/instruction_encoding.cc:756-811 | The validator accepts every generated example if and only if the specification suits the operands: for legacy no mandatory 67, not both F2 and F3 and no VEX operand; for VEX a vector size other than L1; an operand that the specification encodes; clear operand bits. There is always at least one example. |
| `EncodingExamples.ExamplesAreRejected` | exegesis/x86/instruction_encoding.cc:366-397 | Concrete specifications whose example is not valid: VEX with L1, a mandatory 67, F2 together with F3. |
| `EncodingExamples.EveryExampleIsReadBack` | exegesis/x86/instruction_encoding.cc:756-811 | Every such example is decoded to its normal form and leaves the bytes that follow it, for specifications that the decoder can read: extension at most 7, opcode not starting with a prefix byte. |
| `EncodingExamples.EveryExampleMatches` | exegesis/x86/instruction_encoding.cc:606-678 | Every such example satisfies the matcher of prefixes and opcode; all of them satisfy the addressing-mode matcher if and only if there is no operand in modrm.rm or its mode is direct or plain indirect. |
| `EncodingSpecificationLanguage.EncodingSpecificationParser.ParseFromString` | exegesis/x86/encoding_specification.cc:149-160 | The scanner with its updated state computes the parse, an error included. |
| `EncodingSpecificationLanguage.EncodingSpecificationParser.ParseLegacy` | exegesis/x86/encoding_specification.cc:162-265 | The loop over legacy prefix tokens sets the usage of each prefix it has met and leaves the opcode. |
| `EncodingSpecificationLanguage.EncodingSpecificationParser.ParseVexOrEvexPrefix` | exegesis/x86/encoding_specification.cc:267-332 | Fields are taken as the regular expression takes them, with leftmost-first choice; the opcode map becomes the start of the opcode; 512 bits without EVEX is an error. |
| `EncodingSpecificationLanguage.EncodingSpecificationParser.ParseOpcodeAndSuffixesOf` | exegesis/x86/encoding_specification.cc:334-497 | At least one opcode byte, exactly one after VEX, then suffixes; anything left over is an error; VSIB implies a ModR/M byte. |
| `EncodingSpecificationGenerator.GenerateEncodingSpec` | exegesis/x86/encoding_specification.cc:627-723 | The string that is built piece by piece, with the bytes of the map stripped from a VEX opcode. |
| `SpecificationRoundTrip.SpecificationTextRoundTrip` | exegesis/x86/encoding_specification.cc:149-723 | Parsing the generated string returns the specification if and only if it has no field that is not printed and its text is readable: extension of one digit, 512 bits only with EVEX, opcode not starting with a legacy prefix byte. Readable text always gives the specification with the unprinted fields at their defaults. |
| `SpecificationTexts.VexTextMeans` | exegesis/x86/encoding_specification.cc:267-332 | For every text with a VEX or EVEX prefix in all spellings of its fields (NDS, NDD, DDS or none; LLIG, LIG, LZ, L0, L1, LIG.128, 128, 256, 512; a mandatory prefix or none; W0, W1, WIG or none), opcode bytes, a register in the opcode (+i, +rb, +rw, +rd, +ro) and any list of suffixes (/r, /0 to /9, ib to io, cb to ct, /is4, /vsib, m64 to m256): ParseFromString gives what the words mean. It is an error exactly for 512 bits under VEX and for an opcode that has not one byte. |
| `SpecificationTexts.LegacyTextMeans` | exegesis/x86/encoding_specification.cc:162-265 | The same for any list of legacy prefixes (NP, NFx, 66, 67, F2, F3, REX, REX.R, REX.W, with or without plus signs), where /is4 and /vsib are errors. |
| `SpecificationTexts.WidthIsPrinted` | exegesis/x86/encoding_specification.cc:673-698 | The generator prints +rb, +rw, +rd or +ro for the width of the first operand that is encoded in the opcode. |
| `SpecificationTexts.ParseErrors` | exegesis/x86/encoding_specification.cc:149-160 | Whatever the text is, a failed parse reports an invalid argument. |
| `SpecificationWords.SuffixWordsAreRead` | exegesis/x86/encoding_specification.cc:334-497 | What a list of suffixes adds: the last usage of the ModR/M byte, the last extension and the last code offset count, immediate values add up. |
| `SpecificationRoundTrip.PrefixByteIsNotReadBack` | exegesis/x86/encoding_specification.cc:162-265 | A concrete specification whose opcode starts with 66 and whose text is not read back. |
| `SpecificationRoundTrip.LongExtensionIsNotReadBack` | exegesis/x86/encoding_specification.cc:334-497 | The same for the opcode extension 10. |
| `SpecificationRoundTrip.LongVectorIsNotReadBack` | exegesis/x86/encoding_specification.cc:267-332 | The same for a VEX prefix with 512 bits. |
| `SpecificationRoundTrip.ExtensionEightIsParsed` | exegesis/x86/encoding_specification.cc:334-497 | A concrete text with the extension /8 that is parsed. |
| `SpecificationRoundTrip.LegacyTextDiffers` | exegesis/x86/encoding_specification.cc:162-265 | When the opcode starts with 66, 67, F2 or F3, or the extension has two digits, the parse fails or has another opcode. |
| `SpecificationRoundTrip.VexTextFails` | exegesis/x86/encoding_specification.cc:267-332 | An unreadable VEX text is rejected. |
| `ParsedSpecifications.ParsedSpecificationIsUsable` | exegesis/x86/encoding_specification.cc:149-497 | Whatever the string, a parsed specification has a prefix set with a known type and map, 512 bits only with EVEX, the opcode of its map, known immediate and code-offset sizes, and a ModR/M byte for VSIB. |
| `ParsedSpecifications.ParsedSpecificationIsReadable` | exegesis/x86/encoding_specification.cc:334-497 | So the instruction round trip applies to it if and only if its opcode extension is at most 7; the language also accepts /8 and /9. |
| `OperandEncodings.GetAvailableEncodings` | exegesis/x86/encoding_specification.cc:725-778 | Computes the multiset of encodings; VSIB replaces every operand in modrm.rm. |
| `OperandEncodings.AvailableMultiplicity` | exegesis/x86/encoding_specification.cc:725-778 | Exactly how often each encoding is available; only immediates more than once, and never an abstract or implicit one. |
| `OperandEncodings.OperandAssignment.EraseOperandEncoding` | exegesis/x86/cleanup_instruction_set_operand_info.cc:903-930 | Takes one copy of an explicit encoding, fails exactly if there is none, and does nothing for implicit ones. |
| `OperandEncodings.OperandAssignment.AssignOperandPropertiesWhereUniquelyDetermined` | exegesis/x86/cleanup_instruction_set_operand_info.cc:937-996 | Succeeds if and only if every mode and every encoding named by a table is known and the determined encodings fit into the available ones; then the remaining multiset and the list of open operands are exact. In any case every field of every operand is that of the tables, or the old one. |
| `OperandEncodings.OperandAssignment.AssignEncodingIfAvailable` | exegesis/x86/cleanup_instruction_set_operand_info.cc:1001-1012 | Erasing by key takes exactly one copy, because the encodings it is used for have multiplicity at most one. |
| `OperandEncodings.OperandAssignment.AssignEncodingByEncodingScheme` | exegesis/x86/cleanup_instruction_set_operand_info.cc:1035-1076 | Gives each open operand, in order, the encoding that its letter asks for if it is still there, does nothing when the scheme is shorter than the operands, and keeps the used and the available encodings in balance. |
| `OperandEncodings.FirstToWantIsAssigned` | exegesis/x86/cleanup_instruction_set_operand_info.cc:1035-1076 | An operand gets modrm.rm, modrm.reg or vvvv from the scheme if and only if that encoding was available and its letter is the first one to ask for it. |
| `OperandEncodings.SecondRegisterIsSuffix` | exegesis/x86/cleanup_instruction_set_operand_info.cc:1035-1076 | The VEX suffix goes to the first operand with the letter R that modrm.reg is not left for, and to no other; a letter gives no encodings but these. |
| `OperandEncodings.OperandAssignment.AssignEncodingRandomlyFromAvailableEncodings` | exegesis/x86/cleanup_instruction_set_operand_info.cc:1082-1098 | For every order of the hash table: succeeds if and only if there are enough encodings, and then leaves no operand without one. |
| `OperandEncodings.OperandAssignment.AddOperandInfoToSyntax` | exegesis/x86/cleanup_instruction_set_operand_info.cc:1245-1308 | For every choice the hash order makes: succeeds if and only if the determined encodings fit and the others suffice, so the error for missing encodings cannot come up later; on success every operand has an encoding, the used explicit ones are a sub-multiset of the available ones, and each of modrm.rm, modrm.reg and vvvv that no determined operand has goes to the first open operand whose letter asks for it. Whatever the status is, the fields follow the tables: the mode is the old one or, if there was none, that of the table; the size is that of the table if it has the name; an encoding is kept, and one that a table names is taken; name, tags, usage and width stay; and an operand without a mode is left alone. |
| `MicroOperations.OrderMicroOperations` | exegesis/itineraries/decomposition.cc:426-520 | Decrementing the histogram gives the order, without a failed CHECK; the order is called unique if and only if at most one computation mask is used. |
| `MicroOperations.SignatureCounts` | exegesis/itineraries/decomposition.cc:426-520 | Each index occurs exactly as often as the histogram says. |
| `MicroOperations.SignatureSize` | exegesis/itineraries/decomposition.cc:426-520 | The order is as long as the sum of the histogram. |
| `MicroOperations.UnpairedAtTheEnds` | exegesis/itineraries/decomposition.cc:426-520 | Unpaired address generations come only first and unpaired writes only last, not both; in between, each write follows its address generation. |
| `MicroOperations.SignaturePairs` | exegesis/itineraries/decomposition.cc:426-520 | How many adjacent pairs of an address generation and a write the order has. |
| `MicroOperations.PairsAreMaximal` | exegesis/itineraries/decomposition.cc:426-520 | No permutation of it has more. |
| `MicroOperations.CountComputationMasks` | exegesis/itineraries/decomposition.cc:426-520 | The counter is the number of computation masks in use. |
| `VendorSyntaxMerge.GetVendorSyntaxWithMostOperandsOrDie` | exegesis/util/instruction_syntax.cc:148-160 | The loop keeps the longest syntax so far. |
| `VendorSyntaxMerge.LongestHasMostOperands` | exegesis/util/instruction_syntax.cc:148-160 | It is the first one with the largest number of operands. |
| `VendorSyntaxMerge.VendorSyntaxMergeKey` | exegesis/x86/cleanup_instruction_set_merge_instructions.cc:36-54 | The raw specification and the addressing modes of the longest syntax. |
| `VendorSyntaxMerge.InstructionSet.MergeVendorSyntax` | exegesis/x86/cleanup_instruction_set_merge_instructions.cc:56-117 | For every order of the group map: each group is merged into its first instruction, the others are removed, the order is kept, and the status is an error if and only if two instructions with the same key are not equivalent. |
| `VendorSyntaxMerge.FirstsAre` | exegesis/x86/cleanup_instruction_set_merge_instructions.cc:56-117 | The survivors are exactly the first instructions with their keys, in increasing order. |
| `VendorSyntaxMerge.MembersAre` | exegesis/x86/cleanup_instruction_set_merge_instructions.cc:56-117 | A merged list holds exactly the instructions with the key, in increasing order. |
| `VendorSyntaxMerge.SyntaxesAreConserved` | exegesis/x86/cleanup_instruction_set_merge_instructions.cc:56-117 | Each input syntax occurs in the output exactly as often as in the input. |
| `VendorSyntaxMerge.LongestOfBoth` | exegesis/util/instruction_syntax.cc:148-160 | The longest syntax of a concatenation is the longest one of one of its parts. |
| `VendorSyntaxMerge.LongestOfGroup` | exegesis/x86/cleanup_instruction_set_merge_instructions.cc:56-117 | The longest syntax of a merged list is the longest one of the first member that has the most operands. |
| `VendorSyntaxMerge.KeyIsKept` | exegesis/x86/cleanup_instruction_set_merge_instructions.cc:36-117 | Merging does not change the key of a survivor if and only if that member has the raw specification of the survivor. |
| `VendorSyntaxMerge.KeysMean` | exegesis/x86/cleanup_instruction_set_merge_instructions.cc:36-54 | Without tabs in the raw specifications two instructions have the same key exactly when their raw specifications are equal and so are the addressing modes of the operands in modrm.rm of the syntaxes with the most operands. |
| `VendorSyntaxMerge.EquivalenceMeans` | exegesis/x86/cleanup_instruction_set_merge_instructions.cc:56-117 | Two instructions are equivalent exactly when all fields but the description, the encoding scheme and the three syntaxes are equal, and their leaves are equivalent one by one. |
| `VendorSyntaxMerge.NoTabsKeepKeys` | exegesis/x86/cleanup_instruction_set_merge_instructions.cc:36-54 | That is so for every group when no raw specification contains a tab. |
| `VendorSyntaxMerge.MergedKeysAreDistinct` | exegesis/x86/cleanup_instruction_set_merge_instructions.cc:36-117 | The merged instructions have distinct keys if and only if the new keys of the first members differ pairwise: the raw specification of the first member with the addressing modes of the member that keeps the longest syntax. |
| `VendorSyntaxMerge.UnchangedIsDistinct` | exegesis/x86/cleanup_instruction_set_merge_instructions.cc:56-117 | A merge changes nothing if and only if the keys are pairwise distinct. |
| `VendorSyntaxMerge.MergeIsIdempotent` | exegesis/x86/cleanup_instruction_set_merge_instructions.cc:56-117 | A second merge changes nothing if and only if the new keys of the first members of the input differ pairwise, as they do when every group keeps its key. |
| `VendorSyntaxMerge.TabsBreakTheMerge` | exegesis/x86/cleanup_instruction_set_merge_instructions.cc:36-54 | Three concrete instructions with tabs in their raw specifications: a merged key changes, and a second merge merges again. |
| `PrefixUsages.InstructionSet.AddPrefixUsageToLegacyInstructions` | exegesis/x86/cleanup_instruction_set_utils.cc:66-114 | For every order of the group map, grouping the instructions and writing into each group in place gives, for each instruction, the inference from its group. |
| `PrefixUsages.UsagesAreInferred` | exegesis/x86/cleanup_instruction_set_utils.cc:66-114 | What the inference of AddPrefixUsageToLegacyInstructions and InferencesCommute, where the proof work is, means: afterwards no legacy instruction has an unknown usage, so the unknown case of the prefix matcher is not reached; known usages stay; a filled one is "not permitted" if and only if an instruction with the same opcode and extension had a known usage, and "ignored" otherwise. |
| `PrefixUsages.RexWIsInferred` | exegesis/x86/cleanup_instruction_set_utils.cc:66-114 | An open REX.W usage becomes "not permitted" exactly if an instruction with the same opcode and the same opcode extension, where none is like 0, has a known one, and "ignored" otherwise; a known one and all other legacy fields stay. |
| `PrefixUsages.OperandSizeIsInferred` | exegesis/x86/cleanup_instruction_set_utils.cc:66-114 | The same for the operand-size override. |
| `PrefixUsages.OtherFieldsAreKept` | exegesis/x86/cleanup_instruction_set_utils.cc:66-114 | Read off the same inference: instructions with other prefixes, the other usage and every other field stay as they were. |
| `PrefixUsages.InferringIsIdempotent` | exegesis/x86/cleanup_instruction_set_utils.cc:66-114 | A second run changes nothing. |
| `PrefixUsages.InferencesCommute` | exegesis/x86/cleanup_instruction_set_utils.cc:66-114 | The inferences for the two prefixes can run in either order. |
| `SyntaxOrder.CompareOperands` | exegesis/base/cleanup_instruction_set.cc:209-227 | The loop has the sign of the lexicographic comparison of the operand names, the shorter list first. |
| `SyntaxOrder.CompareOperandTags` | exegesis/base/cleanup_instruction_set.cc:229-253 | The same for lists of lists of tags, given lists of equal length. |
| `SyntaxOrder.LessThan` | exegesis/base/cleanup_instruction_set.cc:255-281 | Compares mnemonic, operands, tags and specification; the equal length that the tags need always holds there. |
| `SyntaxOrder.OrderIsLexicographic` | exegesis/base/cleanup_instruction_set.cc:209-281 | Less than means: the mnemonic comes first in the order of a dictionary, or it is equal and the list of operand names comes first, or they are equal and the lists of tags come first, or all are equal and the specification comes first. |
| `SyntaxOrder.LessThanIsStrictWeakOrder` | exegesis/base/cleanup_instruction_set.cc:255-281 | Irreflexive and transitive, and so is incomparability, over instructions with any number of operands and tags. |
| `SyntaxOrder.InstructionSet.SortByVendorSyntax` | exegesis/base/cleanup_instruction_set.cc:285-297 | Sorts the instructions and the leaf instructions of each. |
| `SyntaxOrder.SortedIsSorted` | exegesis/base/cleanup_instruction_set.cc:285-297 | Both levels are sorted and are stable permutations of what they were. |
| `SyntaxOrder.SortingIsIdempotent` | exegesis/base/cleanup_instruction_set.cc:285-297 | Sorting twice is sorting once. |
| `StableSorting.StableSortIsUnique` | exegesis/base/cleanup_instruction_set.cc:285-297 | There is only one sorted stable permutation of a list, so the algorithm behind std::stable_sort does not matter. |
| `CpuIdDumps.CpuIdDump.FromString` | exegesis/base/cpuid_x86.cc:353-379 | Adds an entry for each line that matches as a whole; an error if there is no main leaf. |
| `CpuIdDumps.CpuIdDump.ToString` | exegesis/base/cpuid_x86.cc:549-559 | Prints the entries one per line. |
| `CpuIdDumps.CpuIdDump.GetNextSubleaf` | exegesis/base/cpuid_x86.cc:572-582 | The loop computes the successor of the largest subleaf, in 32 bits. |
| `CpuIdDumps.CpuIdDump.GetEntryOrNull` | exegesis/base/cpuid_x86.cc:561-570 | Returns the first entry with this leaf and subleaf. |
| `CpuIdDumps.EntryIsFound` | exegesis/base/cpuid_x86.cc:561-570 | An entry is found if and only if there is one. |
| `CpuIdDumps.NextOfNumbered` | exegesis/base/cpuid_x86.cc:572-582 | When the subleaves of a leaf count up from zero, the next one is the number of entries of the leaf. |
| `CpuIdDumps.ParsedIsNumbered` | exegesis/base/cpuid_x86.cc:353-379 | Any parsed dump is of that kind: the k-th entry of a leaf has subleaf k - 1. |
| `CpuIdDumps.TextIsAllowed` | exegesis/base/cpuid_x86.cc:572-573 | Parsing a printed dump violates the CHECK on leaf 0xffffffff if and only if the dump has that leaf. |
| `CpuIdDumps.LineWithText` | exegesis/base/cpuid_x86.cc:353-379 | A printed line is read back with any text behind it that starts with a space, and with no other text. |
| `CpuIdDumps.DumpRoundTrip` | exegesis/base/cpuid_x86.cc:353-379 | A printed dump is parsed back if and only if its subleaves count up from zero in each leaf and it has a main leaf. |
| `AssemblySyntax.SeparateOperandsWithCommas` | exegesis/util/instruction_syntax.cc:43-60 | The character loop splits at the commas outside of parentheses, which do not nest. |
| `AssemblySyntax.ParseOperand` | exegesis/util/instruction_syntax.cc:62-84 | Consumes a name up to a brace, and then all tags. |
| `AssemblySyntax.ParseAssemblyStringOrDie` | exegesis/util/instruction_syntax.cc:88-123 | Mnemonic with an optional LOCK or REP prefix, first operand, further operands. |
| `AssemblySyntax.ConvertToCodeString` | exegesis/util/instruction_syntax.cc:125-137 | The string that is appended piece by piece. |
| `AssemblyRoundTrip.FormatRoundTrip` | exegesis/util/instruction_syntax.cc:43-137 | For any number of operands and tags: parsing the printed string gives the format back if and only if there is no tab in the text of the first operand. The formats are those whose mnemonic has one space if and only if it has a prefix, whose names are trimmed and without braces, with commas in parentheses, and whose tags have no braces, commas and parentheses. |
| `AssemblyRoundTrip.TabIsNotReadBack` | exegesis/util/instruction_syntax.cc:101-103 | A concrete format with a tab in its operand that is not read back. |
| `InstructionGroups.InstructionSet.RemoveEmptyInstructionGroups` | exegesis/x86/cleanup_instruction_set_removals.cc:77-129 | Every index is valid and points to the same group contents as before, nothing else in an instruction changes, every remaining group has an instruction, and the groups are in strictly increasing order of their keys. |

## Left out

- LLVM wrappers, just-in-time compilation, performance counters, the CPUID of the host,
  files, flags, logging and tools: foreign calls and I/O.
- The integer program of the decomposition solver: it depends on an external solver and
  on floating point. Of that file only the ordering of micro-operations is modelled.
- One-off transforms that rewrite instructions with particular mnemonics or encodings:
  string replacements without an invariant.
- Failed CHECKs and LOG(FATAL): preconditions, or a separate outcome of the matchers so
  that its absence can be proved. In particular the VEX expression lets the vector size
  be absent while its table has no entry for that, so the parser requires it.
- The regular-expression engine: each pattern is a scanner written by hand that tries the
  alternatives in the order in which the engine tries them.
- Tables of operand names: parameters of the operand allocation, with no assumption on
  their contents.
- Serialisation, reflection and differencing of messages: values with structural equality.
- EVEX instructions in the operand setters: the code handles only legacy and VEX
  extension bits there. The theorems about the setters exclude EVEX prefixes.
- RegisterOperands.RegisterIsReadBack: registers by their index. Registers whose class
  has no fourth bit (MMX and segment registers) are not told apart from the others,
  except for the x87 stack in the opcode.
- SpecificationTexts.VexTextMeans: words with one space or plus sign between them and dots
  without spaces around them. The parser skips more spaces; the same holds of
  LegacyTextMeans.
- Handles into containers: a pointer into a list is an index into a sequence, so aliasing
  between two pointers to one instruction is not captured.
- A random choice from a hash table is an arbitrary choice, and the order of a hash table
  an arbitrary order; the theorems hold for all of them.
- `std::stable_sort`: an insertion sort in its place; the sorted stable permutation of a
  list is proved to be unique, so another stable algorithm gives the same list.
- Strings are sequences of characters that compare by their code; bytes above 127 are not
  treated separately.
- AssemblyRoundTrip.FormatRoundTrip: formats whose mnemonic, names or tags are outside
  the stated fragment, such as names with outer spaces, lose characters in ways that are
  not listed.
- An unknown prefix usage is logged as an error and accepted, as in a build where such a
  log entry does not end the process; there it would be a failed CHECK.
- The layout of fixed-size encodings in an instruction, which belongs to other
  architectures, and fields of operands that no modelled transform reads.
- CpuIdDumps.DumpRoundTrip: at most 2^32 entries in a leaf, beyond which the 32-bit
  subleaf wraps around; the same holds of ParsedIsNumbered.
- EncodingExamples.EveryExampleEncodes: specifications that a parse can return, which
  have a prefix set and do not use "reg ignored".
