/*
 * Where src/main.c as written departs from RV32I (section 2.4 of the RISC-V
 * Unprivileged ISA): for each departure, operands on which the AsWritten
 * dispatch and the RV32I reference (Reference.RegSemantics,
 * Reference.ImmSemantics, Reference.Step) disagree, while the Corrected
 * dispatch agrees with the reference. Reference.WritebackAssembled connects
 * these dispatch results to the assembled instructions, and
 * Reference.CorrectedMatchesReference shows that Corrected agrees with the
 * reference on every instruction. The last finding is about the loop itself:
 * its halt test fails for programs of 2^30 words or more.
 */
module Findings {
  import opened Bits
  import opened Decoder
  import opened Dispatch
  import opened Reference

  /** SRA (src/main.c:68) shifts left: `sra` with rs1 = 8 and rs2 = 1 yields 16
      where RV32I yields 4. */
  lemma SraShiftsLeft(x: Word, y: Word)
    requires x == 8 && y == 1
    ensures RResult(AsWritten, RegFunct7(SRA), RegFunct3(SRA), x, y) == Some(16)
    ensures RegSemantics(SRA, x, y) == 4
    ensures RResult(Corrected, RegFunct7(SRA), RegFunct3(SRA), x, y) == Some(4)
  {
    assert Pow2(1) == 2;
  }

  /** SLT (src/main.c:69) compares unsigned: `slt` with rs1 = -1 (0xFFFFFFFF)
      and rs2 = 0 yields 0 where RV32I yields 1. */
  lemma SltComparesUnsigned(x: Word, y: Word)
    requires x == 0xFFFF_FFFF && y == 0
    ensures RResult(AsWritten, RegFunct7(SLT), RegFunct3(SLT), x, y) == Some(0)
    ensures RegSemantics(SLT, x, y) == 1
    ensures RResult(Corrected, RegFunct7(SLT), RegFunct3(SLT), x, y) == Some(1)
  {
  }

  /** SLTI (src/main.c:90) compares unsigned: `slti` with rs1 = 0 and the
      immediate -1 yields 1 where RV32I yields 0. */
  lemma SltiComparesUnsigned(x: Word, imm: int)
    requires x == 0 && imm == -1
    ensures IResult(AsWritten, ImmFunct3(SLTI), imm, x, false) == Some(1)
    ensures ImmSemantics(SLTI, x, imm) == 0
    ensures IResult(Corrected, ImmFunct3(SLTI), imm, x, false) == Some(0)
  {
    assert ToWord(imm) == 0xFFFF_FFFF;
  }

  /** SRLI (src/main.c:82-85) has no `break`: after the shift is stored in rd,
      control falls into the SLTI case (line 90), whose comparison is what rd
      keeps. With rs1 other than rd, `srli` by 1 of 8 yields 0 where RV32I
      yields 4. The shift amount get_bits(imm, 0, 4) has its bounds swapped, a
      width C does not define; get_bits(imm, 4, 0) is the field meant.
      Corrected yields the RV32I value for every SRLI and SRAI
      (Reference.ImmResultAssembled). */
  lemma SrliFallsThrough(x: Word, shamt: int)
    requires x == 8 && shamt == 1
    ensures IResult(AsWritten, ImmFunct3(SRLI), shamt, x, false) == Some(0)
    ensures ImmSemantics(SRLI, x, shamt) == 4
    ensures !GetBitsDefined(0, 4) && GetBitsDefined(4, 0)
  {
    assert ImmSemantics(SRLI, x, shamt) == 4 by {
      assert Pow2(1) == 2;
    }
    assert IResult(AsWritten, ImmFunct3(SRLI), shamt, x, false) == Some(0) by {
      assert ToWord(shamt) == 1;
    }
  }

  /** When rs1 is rd, line 90 compares the value line 84 has just stored, so
      the undefined shift amount shows: `srli x1, x1, 16` with x1 = 17 first
      stores 17 >> 1 = 8 (bits 8..4 of the immediate 16 are 1), then 8 < 16,
      leaving x1 = 1. RV32I and Corrected leave 17 >> 16 = 0, and so does the
      code as written when rs1 is another register holding 17. */
  lemma SrliSameRegister(x: Word, shamt: int)
    requires x == 17 && shamt == 16
    ensures GetBitsWrapped(ToWord(shamt), 0, 4) % 32 == 1
    ensures IResult(AsWritten, ImmFunct3(SRLI), shamt, x, true) == Some(1)
    ensures IResult(AsWritten, ImmFunct3(SRLI), shamt, x, false) == Some(0)
    ensures ImmSemantics(SRLI, x, shamt) == 0
    ensures IResult(Corrected, ImmFunct3(SRLI), shamt, x, true) == Some(0)
  {
    var e := ToWord(shamt);
    assert e == 16;
    ShiftFields16(e);
    assert Pow2(1) == 2;
    DivModUnique(x, 2, 8, 1);
    assert Shr(x, 1) == 8;
    Pow2Monotone(5, 16);
    assert Pow2(5) == 32;
    DivModUnique(x, Pow2(16), 0, x);
    assert Shr(x, 16) == 0;
  }

  /** The fields of the immediate 16 that case 0x05 reads. */
  lemma ShiftFields16(e: Word)
    requires e == 16
    ensures GetBits(e, 11, 5) == 0 && GetBits(e, 4, 0) == 16 && GetBitsWrapped(e, 0, 4) % 32 == 1
  {
    Pow2Values();
    SwappedBounds(e);
    DivModUnique(e, 32, 0, 16);
    DivModUnique(e, 1, 16, 0);
  }

  /** The same instruction on the register file: as written, `srli x1, x1, 16`
      with x1 = 17 leaves x1 = 1; Corrected leaves 0. */
  lemma SrliSameRegisterStep(regs: seq<Word>, inst: Instruction)
    requires |regs| == 32 && regs[1] == 17
    requires inst.opcode == OpcodeI && inst.funct3 == 5 && inst.rd == 1 && inst.rs1 == 1
    requires inst.immediatei == 16
    ensures Execute(AsWritten, regs, inst)[1] == 1
    ensures Execute(Corrected, regs, inst)[1] == 0
  {
    SrliSameRegister(regs[1], inst.immediatei);
    assert Writeback(AsWritten, regs, inst) == Some(1);
    assert Writeback(Corrected, regs, inst) == Some(0);
  }

  /** SRAI (src/main.c:86-89) falls through in the same way: with rs1 other
      than rd, `srai` by 1 (immediate 0x401) of -8 (0xFFFFFFF8) yields 0 where
      RV32I yields -4 (0xFFFFFFFC). */
  lemma SraiFallsThrough(x: Word, shamt: int)
    requires x == 0xFFFF_FFF8 && shamt == 1
    ensures IResult(AsWritten, ImmFunct3(SRAI), 0x400 + shamt, x, false) == Some(0)
    ensures ImmSemantics(SRAI, x, shamt) == 0xFFFF_FFFC
  {
    assert ImmSemantics(SRAI, x, shamt) == 0xFFFF_FFFC by {
      assert Pow2(1) == 2;
      assert Signed(x) / Pow2(shamt) == -4;
      DivModUnique(-4, WordModulus, -1, 0xFFFF_FFFC);
    }
    assert IResult(AsWritten, ImmFunct3(SRAI), 0x400 + shamt, x, false) == Some(0) by {
      assert ToWord(0x400 + shamt) == 0x401;
    }
  }

  /** Nothing keeps x0 at zero: an instruction that decodes as
      `addi x0, x0, 1` leaves 1 in x0, which RV32I hard-wires to zero. */
  lemma ZeroRegisterWritable(regs: seq<Word>, inst: Instruction)
    requires |regs| == 32 && regs[0] == 0
    requires inst.opcode == OpcodeI && inst.funct3 == 0 && inst.rd == 0 && inst.rs1 == 0
    requires inst.immediatei == 1
    ensures Execute(AsWritten, regs, inst)[0] == 1
    ensures Execute(Corrected, regs, inst)[0] == 0
  {
    assert Writeback(AsWritten, regs, inst) == Some(1);
  }

  /** The halt test `(pc >> 2) >= program_size` (src/main.c:106-107) never holds
      for a program of 2^30 words or more: `pc += 4` wraps modulo 2^32, so
      pc >> 2 stays below 2^30. After the word at pc = 0xFFFFFFFC, pc wraps to
      0 and the loop runs the program again, for ever.
      Interpreter.PcAdvance gives the bound below which the loop stops. */
  lemma PcWrapsOnLargeProgram(pc: Word, size: nat)
    requires size >= 0x4000_0000
    ensures Add(pc, 4) / 4 < size
    ensures pc == 0xFFFF_FFFC ==> Add(pc, 4) == 0
  {
  }
}
