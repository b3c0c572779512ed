/*
 * The dispatch of main's loop body (src/main.c:58-98): opcode 0x33 (R-type,
 * register-register) and opcode 0x13 (I-type, register-immediate) integer
 * computational instructions, each writing at most the destination register.
 *
 * The source departs from the RV32I semantics (section 2.4 of the RISC-V
 * Unprivileged ISA) in several places. Each step is therefore modelled in two
 * dialects:
 *   AsWritten  follows the C code as written wherever C defines its behaviour;
 *   Corrected  is the RV32I behaviour the code evidently intends.
 * Where the C code is undefined (a shift by 32 or more, or by a negative
 * count) the model takes the shift count modulo 32, as x86's shift
 * instructions do; the comments at each place say where this happens.
 */
module Dispatch {
  import opened Bits
  import opened Decoder

  datatype Option<T> = None | Some(value: T)

  datatype Dialect =
    | AsWritten  // src/main.c as written
    | Corrected  // RV32I, section 2.4

  const OpcodeR: nat := 0x33  // 0b0110011, the enumerator R at src/main.c:16
  const OpcodeI: nat := 0x13  // 0b0010011, the enumerator I at src/main.c:17

  /** `a < b ? 1 : 0` on uint32_t. */
  function LessUnsigned(a: Word, b: Word): (r: Word)
    ensures r <= 1 && (r == 1 <==> a < b)
  {
    if a < b then 1 else 0
  }

  /** `(int32_t)a < (int32_t)b ? 1 : 0`. */
  function LessSigned(a: Word, b: Word): (r: Word)
    ensures r <= 1 && (r == 1 <==> Signed(a) < Signed(b))
  {
    if Signed(a) < Signed(b) then 1 else 0
  }

  /** `(int32_t)a >> n`, converted back to uint32_t: an arithmetic shift, which
      rounds towards minus infinity (Dafny's `/` by a positive divisor does). */
  function ShiftRightArith(a: Word, n: nat): Word
  {
    ToWord(Signed(a) / Pow2(n))
  }

  /** The inner switch for opcode 0x33 (src/main.c:60-71): the value written to
      rd, or None when no case matches. The selector `(funct7 << 3) | funct3` is
      `funct7 * 8 + funct3`, as funct3 < 8.
      Shift amounts: the source shifts by the whole of rs2, which C leaves
      undefined from 32 on; both dialects mask it to its low 5 bits as RV32I
      does, which agrees with the source wherever the source is defined. */
  function RResult(d: Dialect, funct7: nat, funct3: nat, a: Word, b: Word): Option<Word>
  {
    BitwiseInRange(a, b);
    var shamt := b % 32;
    match funct7 * 8 + funct3
    case 0x000 => Some(Add(a, b))                     // ADD
    case 0x100 => Some(Sub(a, b))                     // SUB
    case 0x004 => Some(Xor(a, b))                     // XOR
    case 0x006 => Some(Or(a, b))                      // OR
    case 0x007 => Some(And(a, b))                     // AND
    case 0x001 => Some(Shl(a, shamt))                 // SLL
    case 0x005 => Some(Shr(a, shamt))                 // SRL
    case 0x105 =>                                     // SRA
      // As written: `(int32_t)a << b`, a LEFT shift; the model takes the two's
      // complement bit pattern, which is that of SLL.
      if d == AsWritten then Some(Shl(a, shamt)) else Some(ShiftRightArith(a, shamt))
    case 0x002 =>                                     // SLT
      // As written: an unsigned comparison, the same code as SLTU.
      if d == AsWritten then Some(LessUnsigned(a, b)) else Some(LessSigned(a, b))
    case 0x003 => Some(LessUnsigned(a, b))            // SLTU
    case _ => None
  }

  /** get_bits for any bounds, with every shift count taken modulo 32 as x86's
      shift instructions do; C leaves a count outside [0, 32) undefined. It
      agrees with GetBits wherever C defines get_bits. */
  function GetBitsWrapped(x: Word, high: int, low: int): (r: nat)
    ensures GetBitsDefined(high, low) ==> r == GetBits(x, high, low)
  {
    if GetBitsDefined(high, low) then
      assert low % 32 == low && (high - low + 1) % 32 == high - low + 1;
      And(Shr(x, low % 32), Pow2((high - low + 1) % 32) - 1)
    else
      And(Shr(x, low % 32), Pow2((high - low + 1) % 32) - 1)
  }

  /** get_bits(x, 0, 4), the shift amount read at src/main.c:84 and 87, has
      its bounds swapped: its mask `1u << (0 - 4 + 1)` shifts by -3. Taken
      modulo 32, that is 29: the mask 2^29 - 1 keeps all of x >> 4, and a
      shift by the result, again modulo 32, shifts by bits 8..4 of x. */
  lemma SwappedBounds(x: Word)
    ensures !GetBitsDefined(0, 4)
    ensures GetBitsWrapped(x, 0, 4) == x / 16
    ensures GetBitsWrapped(x, 0, 4) % 32 == GetBits(x, 8, 4)
  {
    Pow2Values();
    var h := x / 16;
    assert (0 - 4 + 1) % 32 == 29 && 4 % 32 == 4 && Shr(x, 4) == h;
    AndLowMask(h, 29);
    DivModUnique(h, Pow2(29), 0, h);
  }

  /** The inner switch for opcode 0x13 (src/main.c:76-92). `imm` is the
      sign-extended immediate; C converts it to uint32_t (`ToWord`) wherever it
      meets a register value, and `imm & 0b11111` is `imm % 32`. `a` is the
      value of rs1 and `rs1IsRd` says whether rs1 is rd.
      As written, case 0x05 (SRLI/SRAI) stores the shift in rd, has no `break`
      and falls through into case 0x02 (SLTI), which stores `rs1 < imm` in rd,
      reading rs1 afresh: when rs1 is rd it compares the shifted value. The
      shift amount is GetBitsWrapped(imm, 0, 4), taken modulo 32 as every
      undefined shift count is; Corrected reads bits 4..0 with GetBits(imm, 4, 0).
      As written, SLTI compares unsigned (the int immediate is converted to
      uint32_t), the same as SLTIU. */
  function IResult(d: Dialect, funct3: nat, imm: int, a: Word, rs1IsRd: bool): Option<Word>
  {
    var i := ToWord(imm);
    BitwiseInRange(a, i);
    match funct3
    case 0x0 => Some(Add(a, i))                       // ADDI
    case 0x4 => Some(Xor(a, i))                       // XORI
    case 0x6 => Some(Or(a, i))                        // ORI
    case 0x7 => Some(And(a, i))                       // ANDI
    case 0x1 => Some(Shl(a, imm % 32))                // SLLI
    case 0x5 =>                                       // SRLI / SRAI
      var amount := if d == AsWritten then GetBitsWrapped(i, 0, 4) % 32 else GetBits(i, 4, 0);
      var shifted :=
        if GetBits(i, 11, 5) == 0 then Shr(a, amount) else ShiftRightArith(a, amount);
      if d == AsWritten then Some(LessUnsigned(if rs1IsRd then shifted else a, i))
      else Some(shifted)
    case 0x2 =>                                       // SLTI
      if d == AsWritten then Some(LessUnsigned(a, i)) else Some(LessSigned(a, i))
    case 0x3 => Some(LessUnsigned(a, i))              // SLTIU
    case _ => None
  }

  /** The outer switch on the opcode (src/main.c:58-98): the value written to
      rd, or None (an unimplemented opcode only prints a message). */
  function Writeback(d: Dialect, regs: seq<Word>, inst: Instruction): Option<Word>
    requires |regs| == 32
  {
    if inst.opcode == OpcodeR then
      RResult(d, inst.funct7, inst.funct3, regs[inst.rs1], regs[inst.rs2])
    else if inst.opcode == OpcodeI then
      IResult(d, inst.funct3, inst.immediatei, regs[inst.rs1], inst.rs1 == inst.rd)
    else
      None
  }

  /** The register file after one instruction. As written, x0 is an ordinary
      register; Corrected forces it back to zero after every instruction, so
      that it reads as zero as RV32I requires. */
  function Execute(d: Dialect, regs: seq<Word>, inst: Instruction): (r: seq<Word>)
    requires |regs| == 32
    ensures |r| == 32
    ensures d == Corrected ==> r[0] == 0
  {
    var written :=
      match Writeback(d, regs, inst)
      case Some(v) => regs[inst.rd := v]
      case None => regs;
    if d == Corrected then written[0 := 0] else written
  }

  /** One instruction changes no register but rd (and, in Corrected, x0). */
  lemma ExecuteFrame(d: Dialect, regs: seq<Word>, inst: Instruction, i: nat)
    requires |regs| == 32 && i < 32 && i != inst.rd && !(d == Corrected && i == 0)
    ensures Execute(d, regs, inst)[i] == regs[i]
  {
  }

  /** An implemented instruction writes its value to rd; Corrected then zeroes x0. */
  lemma ExecuteWrites(d: Dialect, regs: seq<Word>, inst: Instruction, v: Word)
    requires |regs| == 32 && Writeback(d, regs, inst) == Some(v)
    ensures Execute(d, regs, inst) ==
              if d == Corrected then regs[inst.rd := v][0 := 0] else regs[inst.rd := v]
  {
  }

  /** The register file after running the instruction words of `prog` in order. */
  function ExecuteAll(d: Dialect, regs: seq<Word>, prog: seq<Word>): (r: seq<Word>)
    requires |regs| == 32
    ensures |r| == 32
  {
    if prog == [] then regs
    else Execute(d, ExecuteAll(d, regs, prog[..|prog| - 1]), Decode(prog[|prog| - 1]))
  }

  /** A one-word program runs that word. */
  lemma ExecuteAllOne(d: Dialect, regs: seq<Word>, w: Word)
    requires |regs| == 32
    ensures ExecuteAll(d, regs, [w]) == Execute(d, regs, Decode(w))
  {
    assert [w][..0] == [];
  }

  /** Running two programs one after the other is running their concatenation. */
  lemma {:induction false} ExecuteAllAppend(d: Dialect, regs: seq<Word>, p: seq<Word>, q: seq<Word>)
    requires |regs| == 32
    ensures ExecuteAll(d, ExecuteAll(d, regs, p), q) == ExecuteAll(d, regs, p + q)
    decreases |q|
  {
    if q == [] {
      assert p + q == p;
    } else {
      var n := |q| - 1;
      assert (p + q)[..|p + q| - 1] == p + q[..n];
      assert (p + q)[|p + q| - 1] == q[n];
      ExecuteAllAppend(d, regs, p, q[..n]);
    }
  }

  // ---------------------------------------------------------------------------
  // Which instructions the dispatch implements

  /** The (funct7, funct3) pairs of the opcode-0x33 cases, read off the case
      labels at src/main.c:61-70. */
  predicate RImplemented(funct7: nat, funct3: nat)
  {
    (funct7 == 0x00 && funct3 in {0, 1, 2, 3, 4, 5, 6, 7}) ||
    (funct7 == 0x20 && funct3 in {0, 5})
  }

  /** An instruction writes a register exactly when the dispatch implements it:
      every funct3 of opcode 0x13, the ten R-type cases of opcode 0x33, and
      nothing else. Any other instruction leaves the register file as it was
      (in Corrected, up to x0 being forced to zero). */
  lemma WritesIffImplemented(d: Dialect, regs: seq<Word>, inst: Instruction)
    requires |regs| == 32 && inst.funct3 < 8
    ensures Writeback(d, regs, inst).Some? <==>
              inst.opcode == OpcodeI ||
              (inst.opcode == OpcodeR && RImplemented(inst.funct7, inst.funct3))
    ensures Writeback(d, regs, inst).None? ==>
              Execute(d, regs, inst) == if d == Corrected then regs[0 := 0] else regs
  {
  }
}
