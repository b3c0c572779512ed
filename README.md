# A verified model of a minimal RV32I interpreter

`src/main.c` interprets a small part of the RISC-V RV32I base integer
instruction set. Its `main` loop fetches the word of an embedded program at
`pc >> 2`. It decodes the word into opcode, register and function fields and a
12-bit immediate, using the helpers `get_bits` and `sign_extend`. It dispatches
the register-register (opcode 0x33) and register-immediate (opcode 0x13)
integer computational instructions and writes the result to `registers[rd]`.
It then advances `pc` by 4 and stops once `pc >> 2` passes the end of the
program.

This project models that core in Dafny, in five modules:

- `Bits` (bits.dfy): the C `uint32_t` arithmetic the interpreter uses, and
  `get_bits` and `sign_extend`. A `uint32_t` is an integer in [0, 2^32).
  `+`, `-` and `<<` reduce modulo 2^32, `>>` divides by a power of two, and
  `&`, `|`, `^` are defined bit by bit.
- `Decoder` (decoder.dfy): the decode of one instruction word into a record.
  It also has the R-type and I-type encodings, and round-trip lemmas between
  the two.
- `Dispatch` (dispatch.dfy): the two-level `switch` that computes the value
  written to `rd`, and one step and a run of steps on the register file.
- `Reference` (reference.dfy): an independent RV32I reference, following
  section 2.4 of the RISC-V Unprivileged ISA. It covers assembly
  instructions, their encoding, and their meaning in integer arithmetic. Its
  lemmas compare the dispatch with this reference, one instruction at a time
  and for whole programs.
- `Findings` (findings.dfy): concrete operands on which the code as written
  and RV32I disagree.
- `Interpreter` (interpreter.dfy): the machine. It is a class holding `pc` and
  the `registers` array, which `Step` and `Run` update in place. It also has
  the embedded three-instruction program.

The code departs from RV32I in several places (see "## Findings"). So the
dispatch, a step and a run take a `Dialect`:

- `AsWritten` follows the C code as written, wherever C defines its
  behaviour.
- `Corrected` is the RV32I behaviour the code evidently intends.

Where the code and the RV32I specification disagree, `AsWritten` follows the
code.

## Model

| member | source | states |
|---|---|---|
| `Bits.GetBits` | src/main.c:33-35 | for a low bound in [0, 32) and a width in [0, 32), the result is bits low..high of x moved down to bit 0, that is (x / 2^low) mod 2^width, and so is below 2^width |
| `Bits.AndLowMask` | src/main.c:34 | masking with `(1u << w) - 1u` keeps exactly the low w bits: y & (2^w - 1) = y mod 2^w |
| `Bits.SignExtend` | src/main.c:37-40 | for val < 2^bits, the result is val when bit bits-1 is clear and val - 2^bits otherwise: the two's complement value of the field |
| `Bits.XorPow2` | src/main.c:39 | `val ^ m` with m = 2^k removes m when bit k of val is set, and adds it otherwise |
| `Bits.SignExtendSteps` | src/main.c:38-39 | the uint32_t subtraction `(val ^ m) - m`, read as int32_t, is the sign-extended value of a field narrower than 32 bits |
| `Bits.Signed` | src/main.c:39 | the conversion to int32_t lies in [-2^31, 2^31) and converts back to the same uint32_t |
| `Bits.BitwiseInRange` | src/main.c:63-65 | AND, OR and XOR of two uint32_t values are again uint32_t values |
| `Decoder.Decode` | src/main.c:45-55 | each field comes from its fixed bit range: opcode 6..0, rd 11..7, funct3 14..12, rs1 19..15, rs2 24..20, funct7 31..25, immediateu 31..20, and immediatei is immediateu sign-extended from 12 bits; rd, rs1 and rs2 are below 32, so every register access is in bounds |
| `Decoder.DecodeEncode` | src/main.c:49-54 | decoding the R-type layout of any fields returns those fields, and the immediate is rs2 + 32 * funct7 |
| `Decoder.EncodeDecode` | src/main.c:45-55 | re-encoding the decoded fields of any word gives the word back, so decoding loses no bit |
| `Decoder.ImmediateRoundTrip` | src/main.c:47-48 | an I-type immediate i in [-2048, 2048) decodes to immediatei = i and immediateu = i mod 4096 |
| `Dispatch.LessUnsigned` | src/main.c:70 | the result is 1 exactly when a < b as unsigned, and 0 otherwise |
| `Dispatch.LessSigned` | src/main.c:69 | the Corrected reading of line 69, which as written repeats line 70's unsigned comparison: the result is 1 exactly when a < b as two's complement values, and 0 otherwise |
| `Dispatch.GetBitsWrapped` | src/main.c:33-35 | get_bits for any bounds, every shift count taken modulo 32; wherever C defines get_bits, it is exactly `Bits.GetBits` |
| `Dispatch.SwappedBounds` | src/main.c:84-87 | `get_bits(imm, 0, 4)` lies outside get_bits' defined arguments; with its shift by -3 taken modulo 32 it is imm >> 4, and a shift by it (again modulo 32) shifts by bits 8..4 of imm |
| `Dispatch.Execute` | src/main.c:58-98 | one step yields 32 registers; in Corrected, x0 is zero afterwards |
| `Dispatch.ExecuteFrame` | src/main.c:61-91 | one step changes no register except rd (and, in Corrected, x0) |
| `Dispatch.WritesIffImplemented` | src/main.c:58-98 | an instruction writes a register exactly when it is opcode 0x13, or opcode 0x33 with one of the ten (funct7, funct3) case labels; any other instruction leaves every register as it was |
| `Dispatch.ExecuteAllAppend` | src/main.c:44-110 | running one word sequence and then another is the same as running their concatenation |
| `Reference.DecodeAssembled` | src/main.c:45-55 | decoding the RV32I encoding of any instruction recovers its rd, rs1, rs2, funct3, funct7 and immediate |
| `Reference.RegResultAssembled` | src/main.c:60-71 | the opcode-0x33 switch computes the RV32I value of ADD, SUB, XOR, OR, AND, SLL, SRL and SLTU in both dialects, and of SRA and SLT in Corrected |
| `Reference.ImmResultAssembled` | src/main.c:76-92 | the opcode-0x13 switch computes the RV32I value of ADDI, XORI, ORI, ANDI, SLLI and SLTIU in both dialects, and of SRLI, SRAI and SLTI in Corrected, whether or not rs1 is rd |
| `Reference.AddImmediate` | src/main.c:77 | adding the immediate converted to uint32_t is adding the signed immediate modulo 2^32 |
| `Reference.ShiftImmediateFields` | src/main.c:83-87 | an SRLI immediate has bits 11..5 equal to 0, an SRAI immediate has them equal to 0100000, and bits 4..0 are the shift amount |
| `Reference.WritebackAssembled` | src/main.c:58-98 | for every instruction the dialect reads correctly, the dispatch's value for its encoding is the RV32I value |
| `Reference.CorrectedMatchesReference` | src/main.c:58-98 | with x0 = 0, one Corrected step on an encoded instruction gives exactly the RV32I register file, x0 included |
| `Reference.AsWrittenMatchesReference` | src/main.c:58-98 | one AsWritten step on any instruction other than SRA, SLT, SRLI, SRAI and SLTI writes the RV32I value to rd, even when rd is x0, and changes nothing else |
| `Reference.CorrectedRunMatchesReference` | src/main.c:44-110 | from x0 = 0, Corrected runs every encoded program to the RV32I register file |
| `Reference.AsWrittenRunMatchesReference` | src/main.c:44-110 | AsWritten runs a program to the RV32I register file when no instruction is misread and none writes x0 |
| `Findings.SraShiftsLeft` | src/main.c:68 | SRA of 8 by 1 yields 16 as written, while RV32I and Corrected yield 4 |
| `Findings.SltComparesUnsigned` | src/main.c:69 | SLT of 0xFFFFFFFF (-1) and 0 yields 0 as written, while RV32I and Corrected yield 1 |
| `Findings.SltiComparesUnsigned` | src/main.c:90 | SLTI of 0 and the immediate -1 yields 1 as written, while RV32I and Corrected yield 0 |
| `Findings.SrliFallsThrough` | src/main.c:82-90 | with rs1 other than rd, SRLI of 8 by 1 yields 0 as written (the SLTI value), while RV32I yields 4; get_bits(imm, 0, 4) is outside get_bits' defined arguments and get_bits(imm, 4, 0) is inside them |
| `Findings.SrliSameRegister` | src/main.c:82-90 | `srli x1, x1, 16` with x1 = 17 yields 1 as written, because line 90 compares the 8 that line 84 stored (shift amount 1, from bits 8..4 of 16); RV32I and Corrected yield 0, and so does the code as written when rs1 is not rd |
| `Findings.SrliSameRegisterStep` | src/main.c:82-90 | on the register file, that instruction leaves x1 = 1 as written and x1 = 0 in Corrected |
| `Findings.SraiFallsThrough` | src/main.c:82-90 | with rs1 other than rd, SRAI of 0xFFFFFFF8 (-8) by 1 yields 0 as written, while RV32I yields 0xFFFFFFFC (-4) |
| `Findings.PcWrapsOnLargeProgram` | src/main.c:106-107 | for a program of 2^30 words or more, the halt test never holds after `pc += 4`, and pc wraps from 0xFFFFFFFC to 0 |
| `Findings.ZeroRegisterWritable` | src/main.c:77 | `addi x0, x0, 1` leaves 1 in x0 as written, and 0 in Corrected |
| `Interpreter.Machine.constructor` | src/main.c:29-31 | the machine starts with pc = 0 and all 32 registers 0 |
| `Interpreter.Machine.Step` | src/main.c:45-109 | one loop iteration: the register file becomes the dispatch's step on the word at pc >> 2; pc advances by exactly 4 and stays a multiple of 4; it reports halt exactly when pc >> 2 reaches the program size |
| `Interpreter.Machine.Run` | src/main.c:44-110 | from pc = 0, the loop runs exactly the program's words in order, once each, and stops with pc = 4 * program size |
| `Interpreter.PcAdvance` | src/main.c:106-107 | below 2^32 - 4, `pc += 4` does not wrap and moves pc >> 2 on by one |
| `Interpreter.EmbeddedProgramAssembled` | src/main.c:21-26 | the three embedded words are the encodings of `addi x1, x0, 2`, `addi x2, x0, 3` and `add x3, x1, x2`, as their comments say |
| `Interpreter.EmbeddedReference` | src/main.c:21-26 | in RV32I, that program leaves x1 = 2, x2 = 3, x3 = 5 and every other register 0 |
| `Interpreter.EmbeddedRegisters` | src/main.c:21-26 | both dialects run the embedded words from zeroed registers to x1 = 2, x2 = 3, x3 = 5 and every other register 0 |
| `Interpreter.RunEmbeddedProgram` | src/main.c:21-110 | the machine built on the embedded program and run to its halt ends with x1 = 2, x2 = 3, x3 = 5 and every other register 0, in both dialects |

## Left out

- The `printf` tracing of the fetched word, of an unimplemented opcode and of the registers (src/main.c:57, 96, 101-104) is output only. An unimplemented opcode is a step that writes no register.
- The `union` at src/main.c:4-13 gives every field the same storage, so its designated initialisers would overwrite each other. The decoded instruction is a record with one field each. Every value fits its C field type: immediatei is in [-2048, 2048), immediateu is below 4096, and the byte fields are below 128.
- Compile-level defects are not modelled. These are the type name `rv32i_instruction_t` at line 46, the missing member `.raw` at line 57, and `constexpr` at lines 21, 27 and 30.
- Undefined behaviour in the C code is resolved as follows:
  - The R-type shifts by `registers[rs2]` (lines 66-68) are undefined in C from 32 on. Both dialects mask the amount to 5 bits, as RV32I does.
  - `get_bits(imm, 0, 4)` (lines 84, 87) has swapped bounds, so its mask `1u << -3` shifts by a negative count. AsWritten takes that count modulo 32, as x86's shift instructions do: the mask is 2^29 - 1, the result is imm >> 4, and the shift by it, again modulo 32, shifts by bits 8..4 of imm. The shifted value is observable only when rs1 is rd, because line 90 then compares it (`Findings.SrliSameRegister`). Corrected reads bits 4..0.
  - `(int32_t)registers[rs1] << ...` at line 68 may overflow `int`. As written, it is modelled by its two's complement bit pattern, which is that of SLL.
  - Conversions of values of 2^31 or more to `int32_t` are modelled as two's complement.
- `Bits.SignExtend` requires 1 <= bits <= 31, because `1 << (bits - 1)` overflows `int` at 32. The only call uses 12.
- `Interpreter.Machine.Run` requires pc = 0, as `main` starts. It also requires 0 < program size < 2^30. A longer program would let `pc += 4` wrap to 0, and the loop would never end (see "## Findings"). An empty `program[]` is not valid C.
- Words are mathematical integers in [0, 2^32), not bit-vectors. The C operators are written out in `Bits`.
- The globals `pc` and `registers` are fields of the `Interpreter.Machine` object, and `program` is a constant of it.

## Findings

| source | as written | input that shows it | evidently intended | confidence | as-written member | corrected member |
|---|---|---|---|---|---|---|
| src/main.c:68 | SRA computes `(int32_t)rs1 << rs2`, a left shift | `sra` with rs1 = 8, rs2 = 1 gives 16 | arithmetic right shift, giving 4 | not executed | `Findings.SraShiftsLeft` | `Reference.RegResultAssembled` |
| src/main.c:69 | SLT compares the registers as unsigned, the same code as SLTU | `slt` with rs1 = 0xFFFFFFFF (-1), rs2 = 0 gives 0 | signed comparison, giving 1 | not executed | `Findings.SltComparesUnsigned` | `Reference.RegResultAssembled` |
| src/main.c:90 | SLTI compares against the immediate converted to uint32_t | `slti` with rs1 = 0, imm = -1 gives 1 | signed comparison, giving 0 | not executed | `Findings.SltiComparesUnsigned` | `Reference.ImmResultAssembled` |
| src/main.c:82-90 | case 0x05 stores the shift in rd but has no `break`, so the SLTI assignment then stores `rs1 < imm` in rd; its shift amount `get_bits(imm, 0, 4)` has swapped bounds | `srli` by 1 with rs1 = 8 and rd another register gives 0 | logical right shift by imm[4:0], giving 4 | not executed | `Findings.SrliFallsThrough` | `Reference.ImmResultAssembled` |
| src/main.c:82-90 | line 90 reads rs1 again after line 84 or 87 has stored the shift, so when rs1 is rd it compares the shifted value, whose shift amount C leaves undefined | `srli x1, x1, 16` with x1 = 17 gives 1 (17 >> 1 = 8 < 16) | logical right shift by 16, giving 0 | not executed | `Findings.SrliSameRegister` | `Reference.ImmResultAssembled` |
| src/main.c:82-90 | the same fall-through for SRAI | `srai` by 1 with rs1 = 0xFFFFFFF8 (-8) and rd another register gives 0 | arithmetic right shift, giving 0xFFFFFFFC (-4) | not executed | `Findings.SraiFallsThrough` | `Reference.ImmResultAssembled` |
| src/main.c:61-91 | every case writes `registers[rd]`, x0 included | `addi x0, x0, 1` leaves x0 = 1 | x0 hard-wired to zero | not executed | `Findings.ZeroRegisterWritable` | `Dispatch.Execute` |
| src/main.c:106-107 | `pc += 4` on uint32_t wraps modulo 2^32, so `(pc >> 2) >= program_size` never holds when the program has 2^30 words or more | a program of 2^30 words: after the word at pc = 0xFFFFFFFC, pc becomes 0 and the program runs again | stop after the last word, which holds for programs below 2^30 words | not executed | `Findings.PcWrapsOnLargeProgram` | `Interpreter.PcAdvance` |
