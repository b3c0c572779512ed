/*
 * An RV32I reference for the instructions the interpreter covers: the
 * assembly-level instructions of section 2.4 of the RISC-V Unprivileged ISA
 * ("Integer Computational Instructions"), their encodings (section 2.2 and the
 * RV32I opcode map), and their meaning stated in integer arithmetic, without
 * the decoder or the dispatch of src/main.c.
 *
 * The lemmas here compare one interpreter step (Dispatch.Execute on the decoded
 * word) with this reference: Corrected agrees with it on every instruction;
 * AsWritten agrees on fourteen of the nineteen and differs on SRA, SLT, SLTI,
 * SRLI and SRAI, and in that it lets x0 be written.
 */
module Reference {
  import opened Bits
  import opened Decoder
  import opened Dispatch

  datatype RegOp = ADD | SUB | XOR | OR | AND | SLL | SRL | SRA | SLT | SLTU
  datatype ImmOp = ADDI | XORI | ORI | ANDI | SLLI | SRLI | SRAI | SLTI | SLTIU

  /** An assembly instruction: `op rd, rs1, rs2` or `op rd, rs1, imm`. */
  datatype Asm =
    | RegReg(rop: RegOp, rd: Reg, rs1: Reg, rs2: Reg)
    | RegImm(iop: ImmOp, rd: Reg, rs1: Reg, imm: int)

  predicate IsShiftImm(op: ImmOp)
  {
    op == SLLI || op == SRLI || op == SRAI
  }

  /** Immediates that fit their field: a shift amount in [0, 32), any other
      immediate a 12-bit two's complement number. */
  predicate WellFormed(a: Asm)
  {
    a.RegImm? ==>
      if IsShiftImm(a.iop) then 0 <= a.imm < 32 else -0x800 <= a.imm < 0x800
  }

  /** funct3 and funct7 of the register-register instructions (RV32I opcode map). */
  function RegFunct3(op: RegOp): (f: nat)
    ensures f < 8
  {
    match op
    case ADD => 0 case SUB => 0 case SLL => 1 case SLT => 2 case SLTU => 3
    case XOR => 4 case SRL => 5 case SRA => 5 case OR => 6 case AND => 7
  }

  function RegFunct7(op: RegOp): (f: nat)
    ensures f < 0x80
  {
    if op == SUB || op == SRA then 0x20 else 0x00
  }

  function ImmFunct3(op: ImmOp): (f: nat)
    ensures f < 8
  {
    match op
    case ADDI => 0 case SLLI => 1 case SLTI => 2 case SLTIU => 3
    case XORI => 4 case SRLI => 5 case SRAI => 5 case ORI => 6 case ANDI => 7
  }

  /** The 32-bit encoding. The shift-immediates put the shift amount in
      imm[4:0] and 0000000 (SLLI, SRLI) or 0100000 (SRAI) in imm[11:5]. */
  function Assemble(a: Asm): Word
    requires WellFormed(a)
  {
    match a
    case RegReg(op, rd, rs1, rs2) =>
      Encode(OpcodeR, rd, RegFunct3(op), rs1, rs2, RegFunct7(op))
    case RegImm(op, rd, rs1, imm) =>
      if IsShiftImm(op) then
        Encode(OpcodeI, rd, ImmFunct3(op), rs1, imm, if op == SRAI then 0x20 else 0x00)
      else
        EncodeI(OpcodeI, rd, ImmFunct3(op), rs1, imm)
  }

  /** The value a register-register instruction writes to rd, from the values
      x of rs1 and y of rs2 (section 2.4). Arithmetic wraps modulo 2^32; shifts
      use the low five bits of y; `Signed` reads a register as two's complement;
      an arithmetic right shift is a division rounding towards minus infinity. */
  function RegSemantics(op: RegOp, x: Word, y: Word): Word
  {
    BitwiseInRange(x, y);
    DivAtMost(x, Pow2(y % 32));
    match op
    case ADD => (x + y) % WordModulus
    case SUB => (x - y) % WordModulus
    case XOR => Xor(x, y)
    case OR => Or(x, y)
    case AND => And(x, y)
    case SLL => (x * Pow2(y % 32)) % WordModulus
    case SRL => x / Pow2(y % 32)
    case SRA => (Signed(x) / Pow2(y % 32)) % WordModulus
    case SLT => if Signed(x) < Signed(y) then 1 else 0
    case SLTU => if x < y then 1 else 0
  }

  /** The value a register-immediate instruction writes to rd, from the value x
      of rs1 and the immediate. The bitwise operations and SLTIU use the
      immediate sign-extended to 32 bits; SLTI compares signed. */
  function ImmSemantics(op: ImmOp, x: Word, imm: int): Word
  {
    var i := imm % WordModulus;
    BitwiseInRange(x, i);
    DivAtMost(x, Pow2(imm % 32));
    match op
    case ADDI => (x + imm) % WordModulus
    case XORI => Xor(x, i)
    case ORI => Or(x, i)
    case ANDI => And(x, i)
    case SLLI => (x * Pow2(imm % 32)) % WordModulus
    case SRLI => x / Pow2(imm % 32)
    case SRAI => (Signed(x) / Pow2(imm % 32)) % WordModulus
    case SLTI => if Signed(x) < imm then 1 else 0
    case SLTIU => if x < i then 1 else 0
  }

  function Semantics(a: Asm, regs: seq<Word>): Word
    requires |regs| == 32
  {
    match a
    case RegReg(op, _, rs1, rs2) => RegSemantics(op, regs[rs1], regs[rs2])
    case RegImm(op, _, rs1, imm) => ImmSemantics(op, regs[rs1], imm)
  }

  /** The register file after the instruction: rd gets its value, unless rd is
      x0, which is hard-wired to zero. */
  function Step(regs: seq<Word>, a: Asm): (r: seq<Word>)
    requires |regs| == 32
    ensures |r| == 32 && r[0] == regs[0]
    ensures forall i :: 0 <= i < 32 && i != a.rd ==> r[i] == regs[i]
  {
    if a.rd == 0 then regs else regs[a.rd := Semantics(a, regs)]
  }

  /** The words of an assembled program, in order. */
  function AssembleAll(prog: seq<Asm>): (words: seq<Word>)
    requires forall i :: 0 <= i < |prog| ==> WellFormed(prog[i])
    ensures |words| == |prog|
    ensures forall i :: 0 <= i < |prog| ==> words[i] == Assemble(prog[i])
  {
    if prog == [] then [] else AssembleAll(prog[..|prog| - 1]) + [Assemble(prog[|prog| - 1])]
  }

  /** The register file after the instructions of `prog`, in order; x0 keeps
      its value throughout. */
  function RunReference(regs: seq<Word>, prog: seq<Asm>): (r: seq<Word>)
    requires |regs| == 32
    ensures |r| == 32 && r[0] == regs[0]
  {
    if prog == [] then regs else Step(RunReference(regs, prog[..|prog| - 1]), prog[|prog| - 1])
  }

  lemma RunReferenceSnoc(regs: seq<Word>, prog: seq<Asm>, a: Asm)
    requires |regs| == 32
    ensures RunReference(regs, prog + [a]) == Step(RunReference(regs, prog), a)
  {
    assert (prog + [a])[..|prog|] == prog;
  }

  /** The instructions whose AsWritten dispatch differs from RV32I. */
  predicate MisreadAsWritten(a: Asm)
  {
    (a.RegReg? && a.rop in {SRA, SLT}) || (a.RegImm? && a.iop in {SRLI, SRAI, SLTI})
  }

  // ---------------------------------------------------------------------------
  // One instruction

  /** Decoding an assembled instruction recovers its fields; the shift-immediates
      carry imm[11:5] above the shift amount. */
  lemma DecodeAssembled(a: Asm)
    requires WellFormed(a)
    ensures var inst := Decode(Assemble(a));
            inst.rd == a.rd && inst.rs1 == a.rs1 &&
            (a.RegReg? ==>
               inst.opcode == OpcodeR && inst.rs2 == a.rs2 &&
               inst.funct3 == RegFunct3(a.rop) && inst.funct7 == RegFunct7(a.rop)) &&
            (a.RegImm? ==>
               inst.opcode == OpcodeI && inst.funct3 == ImmFunct3(a.iop) &&
               inst.immediatei == if a.iop == SRAI then 0x400 + a.imm else a.imm)
  {
    match a
    case RegReg(op, rd, rs1, rs2) =>
      DecodeEncode(OpcodeR, rd, RegFunct3(op), rs1, rs2, RegFunct7(op));
    case RegImm(op, rd, rs1, imm) =>
      if IsShiftImm(op) {
        DecodeEncode(OpcodeI, rd, ImmFunct3(op), rs1, imm, if op == SRAI then 0x20 else 0x00);
      } else {
        ImmediateRoundTrip(OpcodeI, rd, ImmFunct3(op), rs1, imm);
      }
  }

  /** The value the dispatch computes for an assembled instruction. */
  lemma WritebackAssembled(d: Dialect, regs: seq<Word>, a: Asm)
    requires |regs| == 32 && WellFormed(a)
    requires d == Corrected || !MisreadAsWritten(a)
    ensures Writeback(d, regs, Decode(Assemble(a))) == Some(Semantics(a, regs))
  {
    DecodeAssembled(a);
    var inst := Decode(Assemble(a));
    if a.RegReg? {
      assert inst.opcode == OpcodeR;
      RegResultAssembled(d, a.rop, regs[a.rs1], regs[a.rs2]);
    } else {
      assert inst.opcode == OpcodeI;
      ImmResultAssembled(d, a.iop, regs[a.rs1], a.imm, a.rs1 == a.rd);
    }
  }

  /** The register-register dispatch computes the RV32I value of each operation
      it reads correctly. */
  lemma RegResultAssembled(d: Dialect, op: RegOp, x: Word, y: Word)
    requires d == AsWritten ==> op !in {SRA, SLT}
    ensures RResult(d, RegFunct7(op), RegFunct3(op), x, y) == Some(RegSemantics(op, x, y))
  {
  }

  /** The register-immediate dispatch computes the RV32I value of each operation
      it reads correctly, whether or not rs1 is rd. */
  lemma ImmResultAssembled(d: Dialect, op: ImmOp, x: Word, imm: int, rs1IsRd: bool)
    requires if IsShiftImm(op) then 0 <= imm < 32 else -0x800 <= imm < 0x800
    requires d == AsWritten ==> op !in {SRLI, SRAI, SLTI}
    ensures IResult(d, ImmFunct3(op), if op == SRAI then 0x400 + imm else imm, x, rs1IsRd) ==
              Some(ImmSemantics(op, x, imm))
  {
    match op
    case ADDI => AddImmediate(x, imm);
    case SLTI => SignedOfToWord(imm);
    case SRLI => ShiftImmediateFields(imm, false);
    case SRAI => ShiftImmediateFields(imm, true);
    case SLLI => DivModUnique(imm, 32, 0, imm);
    case _ =>
  }

  /** Adding the immediate converted to uint32_t is adding it modulo 2^32. */
  lemma AddImmediate(x: Word, imm: int)
    requires -0x800 <= imm < 0x800
    ensures Add(x, ToWord(imm)) == (x + imm) % WordModulus
  {
    if imm < 0 {
      DivModUnique(imm, WordModulus, -1, imm + WordModulus);
      var s := x + imm;
      if s < 0 {
        DivModUnique(s, WordModulus, -1, s + WordModulus);
        DivModUnique(s + WordModulus, WordModulus, 0, s + WordModulus);
      } else {
        DivModUnique(s, WordModulus, 0, s);
        DivModUnique(s + WordModulus, WordModulus, 1, s);
      }
    } else {
      DivModUnique(imm, WordModulus, 0, imm);
    }
  }

  /** The immediate of SRLI (imm[11:5] = 0) and SRAI (imm[11:5] = 0100000): the
      fields the corrected dispatch reads from it. */
  lemma ShiftImmediateFields(shamt: int, arith: bool)
    requires 0 <= shamt < 32
    ensures var e := ToWord(if arith then 0x400 + shamt else shamt);
            GetBits(e, 11, 5) == (if arith then 0x20 else 0) && GetBits(e, 4, 0) == shamt &&
            shamt % 32 == shamt
  {
    var e := if arith then 0x400 + shamt else shamt;
    Pow2Values();
    DivModUnique(e, WordModulus, 0, e);
    DivModUnique(e, 0x20, if arith then 0x20 else 0, shamt);
    DivModUnique(e / 0x20, 0x80, 0, e / 0x20);
    DivModUnique(e, 1, e, 0);
  }

  /** Corrected carries out every covered instruction as RV32I defines it,
      provided x0 holds zero (which Corrected itself maintains). */
  lemma CorrectedMatchesReference(regs: seq<Word>, a: Asm)
    requires |regs| == 32 && regs[0] == 0 && WellFormed(a)
    ensures Execute(Corrected, regs, Decode(Assemble(a))) == Step(regs, a)
  {
    var inst := Decode(Assemble(a));
    var v := Semantics(a, regs);
    WritebackAssembled(Corrected, regs, a);
    DecodeAssembled(a);
    ExecuteWrites(Corrected, regs, inst, v);
    if a.rd == 0 {
      assert regs[0 := v][0 := 0] == regs;
    } else {
      assert regs[a.rd := v][0 := 0] == regs[a.rd := v];
    }
  }

  /** As written, the fourteen instructions the source reads correctly write
      their RV32I value into rd, x0 included. */
  lemma AsWrittenMatchesReference(regs: seq<Word>, a: Asm)
    requires |regs| == 32 && WellFormed(a) && !MisreadAsWritten(a)
    ensures Execute(AsWritten, regs, Decode(Assemble(a))) ==
              regs[a.rd := Semantics(a, regs)]
    ensures a.rd != 0 ==> Execute(AsWritten, regs, Decode(Assemble(a))) == Step(regs, a)
  {
    WritebackAssembled(AsWritten, regs, a);
    DecodeAssembled(a);
    ExecuteWrites(AsWritten, regs, Decode(Assemble(a)), Semantics(a, regs));
  }

  // ---------------------------------------------------------------------------
  // Whole programs

  /** The instructions AsWritten carries out as RV32I does: read correctly and
      not writing x0. */
  predicate FaithfulAsWritten(a: Asm)
  {
    !MisreadAsWritten(a) && a.rd != 0
  }

  /** Corrected runs every assembled program as RV32I does, from a register file
      whose x0 is zero. */
  lemma {:induction false} CorrectedRunMatchesReference(regs: seq<Word>, prog: seq<Asm>)
    requires |regs| == 32 && regs[0] == 0
    requires forall i :: 0 <= i < |prog| ==> WellFormed(prog[i])
    ensures ExecuteAll(Corrected, regs, AssembleAll(prog)) == RunReference(regs, prog)
  {
    if prog != [] {
      var n := |prog| - 1;
      assert AssembleAll(prog)[..n] == AssembleAll(prog[..n]);
      CorrectedRunMatchesReference(regs, prog[..n]);
      CorrectedMatchesReference(RunReference(regs, prog[..n]), prog[n]);
    }
  }

  /** AsWritten runs a program as RV32I does when none of its instructions is
      misread and none writes x0. */
  lemma {:induction false} AsWrittenRunMatchesReference(regs: seq<Word>, prog: seq<Asm>)
    requires |regs| == 32
    requires forall i :: 0 <= i < |prog| ==> WellFormed(prog[i]) && FaithfulAsWritten(prog[i])
    ensures ExecuteAll(AsWritten, regs, AssembleAll(prog)) == RunReference(regs, prog)
  {
    if prog != [] {
      var n := |prog| - 1;
      assert AssembleAll(prog)[..n] == AssembleAll(prog[..n]);
      AsWrittenRunMatchesReference(regs, prog[..n]);
      AsWrittenMatchesReference(RunReference(regs, prog[..n]), prog[n]);
    }
  }
}
