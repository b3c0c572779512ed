/*
 * Instruction decoding (src/main.c:45-55): the fields of the RV32I base
 * instruction formats (section 2.2 of the RISC-V Unprivileged ISA, chapter
 * "RV32I Base Integer Instruction Set") and the 12-bit I-type immediate
 * (section 2.3), pulled out of a 32-bit instruction word.
 */
module Decoder {
  import opened Bits

  /** A register index: a 5-bit field. */
  type Reg = r: nat | r < 32

  /** The decoded view of an instruction word. The source declares the fields
      as members of a C union, so that each designated initialiser would
      overwrite the one before; the model keeps them side by side, which is
      what the decoding code evidently intends. `immediatei` is the sign-extended
      12-bit immediate (an int16_t in the source), `immediateu` the same 12 bits
      unsigned (a uint16_t). */
  datatype Instruction = Instruction(
    opcode: nat,
    rd: Reg,
    funct3: nat,
    rs1: Reg,
    rs2: Reg,
    funct7: nat,
    immediatei: int,
    immediateu: nat)

  /** The decoding at src/main.c:46-55: every field is a fixed bit range of the word. */
  function Decode(raw: Word): (inst: Instruction)
    ensures inst.opcode == raw % 0x80                  // bits 6..0
    ensures inst.rd == (raw / 0x80) % 0x20             // bits 11..7
    ensures inst.funct3 == (raw / 0x1000) % 0x8        // bits 14..12
    ensures inst.rs1 == (raw / 0x8000) % 0x20          // bits 19..15
    ensures inst.rs2 == (raw / 0x10_0000) % 0x20       // bits 24..20
    ensures inst.funct7 == raw / 0x200_0000            // bits 31..25
    ensures inst.immediateu == raw / 0x10_0000         // bits 31..20
    ensures inst.immediatei ==
              if inst.immediateu < 0x800 then inst.immediateu else inst.immediateu - 0x1000
  {
    MaskedFields(raw);
    GetBitsFields(raw);
    Instruction(
      opcode := And(raw, 0x7F),
      rd := And(Shr(raw, 7), 0x1F),
      funct3 := GetBits(raw, 14, 12),
      rs1 := And(Shr(raw, 15), 0x1F),
      rs2 := GetBits(raw, 24, 20),
      funct7 := GetBits(raw, 31, 25),
      immediatei := SignExtend(GetBits(raw, 31, 20), 12),
      immediateu := GetBits(raw, 31, 20))
  }

  /** The fields the source masks by hand (src/main.c:49, 51, 52). */
  lemma MaskedFields(raw: Word)
    ensures And(raw, 0x7F) == raw % 0x80
    ensures And(Shr(raw, 7), 0x1F) == (raw / 0x80) % 0x20
    ensures And(Shr(raw, 15), 0x1F) == (raw / 0x8000) % 0x20
  {
    Pow2Values();
    AndLowMask(raw, 7);
    AndLowMask(Shr(raw, 7), 5);
    AndLowMask(Shr(raw, 15), 5);
  }

  /** The fields the source takes with get_bits (src/main.c:47-48, 50, 53-54). */
  lemma GetBitsFields(raw: Word)
    ensures GetBits(raw, 14, 12) == (raw / 0x1000) % 0x8
    ensures GetBits(raw, 24, 20) == (raw / 0x10_0000) % 0x20
    ensures GetBits(raw, 31, 25) == raw / 0x200_0000
    ensures GetBits(raw, 31, 20) == raw / 0x10_0000
    ensures SignExtend(GetBits(raw, 31, 20), 12) ==
              if raw / 0x10_0000 < 0x800 then raw / 0x10_0000 else raw / 0x10_0000 - 0x1000
  {
    Pow2Values();
    var hi := raw / 0x200_0000;
    var imm := raw / 0x10_0000;
    DivModUnique(raw, 0x200_0000, hi, raw % 0x200_0000);
    DivModUnique(hi, 0x80, 0, hi);
    DivModUnique(raw, 0x10_0000, imm, raw % 0x10_0000);
    DivModUnique(imm, 0x1000, 0, imm);
    assert GetBits(raw, 31, 20) == imm;
  }

  /** The R-type layout of section 2.2: funct7 | rs2 | rs1 | funct3 | rd | opcode. */
  function Encode(opcode: nat, rd: Reg, funct3: nat, rs1: Reg, rs2: Reg, funct7: nat): Word
    requires opcode < 0x80 && funct3 < 0x8 && funct7 < 0x80
  {
    opcode + 0x80 * rd + 0x1000 * funct3 + 0x8000 * rs1 + 0x10_0000 * rs2 + 0x200_0000 * funct7
  }

  /** The I-type layout of section 2.2: imm[11:0] | rs1 | funct3 | rd | opcode,
      with the immediate a two's complement 12-bit number. */
  function EncodeI(opcode: nat, rd: Reg, funct3: nat, rs1: Reg, imm: int): Word
    requires opcode < 0x80 && funct3 < 0x8 && -0x800 <= imm < 0x800
  {
    var imm12 := imm % 0x1000;
    Encode(opcode, rd, funct3, rs1, imm12 % 0x20, imm12 / 0x20)
  }

  /** Decoding an encoded word gives back every field. */
  lemma DecodeEncode(opcode: nat, rd: Reg, funct3: nat, rs1: Reg, rs2: Reg, funct7: nat)
    requires opcode < 0x80 && funct3 < 0x8 && funct7 < 0x80
    ensures var inst := Decode(Encode(opcode, rd, funct3, rs1, rs2, funct7));
            inst.opcode == opcode && inst.rd == rd && inst.funct3 == funct3 &&
            inst.rs1 == rs1 && inst.rs2 == rs2 && inst.funct7 == funct7 &&
            inst.immediateu == rs2 + 0x20 * funct7
  {
    var x5 := rs2 + 0x20 * funct7;
    var x4 := rs1 + 0x20 * x5;
    var x3 := funct3 + 0x8 * x4;
    var x2 := rd + 0x20 * x3;
    var raw := opcode + 0x80 * x2;
    assert raw == Encode(opcode, rd, funct3, rs1, rs2, funct7);
    DivModUnique(raw, 0x80, x2, opcode);
    DivModUnique(raw, 0x1000, x3, opcode + 0x80 * rd);
    DivModUnique(raw, 0x8000, x4, opcode + 0x80 * rd + 0x1000 * funct3);
    DivModUnique(raw, 0x10_0000, x5, raw % 0x10_0000);
    DivModUnique(raw, 0x200_0000, funct7, raw % 0x200_0000);
    DivModUnique(x2, 0x20, x3, rd);
    DivModUnique(x3, 0x8, x4, funct3);
    DivModUnique(x4, 0x20, x5, rs1);
    DivModUnique(x5, 0x20, funct7, rs2);
  }

  /** The six fields cover the whole word: re-encoding the decoded fields gives
      the word back. */
  lemma EncodeDecode(raw: Word)
    ensures var inst := Decode(raw);
            Encode(inst.opcode, inst.rd, inst.funct3, inst.rs1, inst.rs2, inst.funct7) == raw
  {
    var q1 := raw / 0x80;
    DivDiv(raw, 0x80, 0x20);
    DivDiv(raw, 0x1000, 0x8);
    DivDiv(raw, 0x8000, 0x20);
    DivDiv(raw, 0x10_0000, 0x20);
    var q2 := q1 / 0x20;
    var q3 := q2 / 0x8;
    var q4 := q3 / 0x20;
    var q5 := q4 / 0x20;
    assert raw == raw % 0x80 + 0x80 * q1;
    assert q1 == q1 % 0x20 + 0x20 * q2;
    assert q2 == q2 % 0x8 + 0x8 * q3;
    assert q3 == q3 % 0x20 + 0x20 * q4;
    assert q4 == q4 % 0x20 + 0x20 * q5;
  }

  /** Section 2.3: a 12-bit immediate encoded into bits 31..20 decodes to itself,
      both sign-extended and as the raw 12-bit field. */
  lemma ImmediateRoundTrip(opcode: nat, rd: Reg, funct3: nat, rs1: Reg, imm: int)
    requires opcode < 0x80 && funct3 < 0x8 && -0x800 <= imm < 0x800
    ensures var inst := Decode(EncodeI(opcode, rd, funct3, rs1, imm));
            inst.opcode == opcode && inst.rd == rd && inst.funct3 == funct3 &&
            inst.rs1 == rs1 && inst.immediatei == imm && inst.immediateu == imm % 0x1000
  {
    var imm12 := imm % 0x1000;
    if imm < 0 {
      DivModUnique(imm, 0x1000, -1, imm + 0x1000);
    } else {
      DivModUnique(imm, 0x1000, 0, imm);
    }
    assert imm12 == imm12 % 0x20 + 0x20 * (imm12 / 0x20);
    DecodeEncode(opcode, rd, funct3, rs1, imm12 % 0x20, imm12 / 0x20);
  }
}
