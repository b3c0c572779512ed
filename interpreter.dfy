/*
 * The machine of src/main.c: the program counter `pc` and the register file
 * `registers[32]`, which main's `for (;;)` loop updates in place, one
 * instruction per iteration, until pc runs past the program.
 */
module Interpreter {
  import opened Bits
  import opened Decoder
  import opened Dispatch
  import opened Reference

  /** The program src/main.c:21-26 embeds: addi x1, x0, 2; addi x2, x0, 3;
      add x3, x1, x2. */
  const EmbeddedProgram: seq<Word> := [0x0020_0093, 0x0030_0113, 0x0020_81B3]

  /** The embedded words are the assembly their comments name. */
  lemma EmbeddedProgramAssembled()
    ensures EmbeddedProgram == AssembleAll(EmbeddedAssembly())
  {
    var a := EmbeddedAssembly();
    assert Assemble(a[0]) == 0x0020_0093;
    assert Assemble(a[1]) == 0x0030_0113;
    assert Assemble(a[2]) == 0x0020_81B3;
  }

  function EmbeddedAssembly(): (prog: seq<Asm>)
    ensures |prog| == 3 && forall i :: 0 <= i < 3 ==> WellFormed(prog[i]) && FaithfulAsWritten(prog[i])
  {
    [RegImm(ADDI, 1, 0, 2), RegImm(ADDI, 2, 0, 3), RegReg(ADD, 3, 1, 2)]
  }

  class Machine {
    /** The instruction words, fetched at index pc >> 2. */
    const program: seq<Word>
    /** The byte address of the next instruction. */
    var pc: Word
    const registers: array<Word>

    /** The program fits the address space below pc's wrap-around (pc is
        uint32_t and advances by 4), and pc points at an instruction word or
        just past the last one. */
    predicate Valid()
      reads this
    {
      registers.Length == 32 &&
      0 < |program| < 0x4000_0000 &&
      pc % 4 == 0 && pc / 4 <= |program|
    }

    /** The machine before main's loop: pc = 0 and every register 0
        (src/main.c:29-31). */
    constructor(prog: seq<Word>)
      requires 0 < |prog| < 0x4000_0000
      ensures Valid() && fresh(registers)
      ensures program == prog && pc == 0
      ensures registers[..] == seq(32, i => 0)
    {
      program := prog;
      pc := 0;
      registers := new Word[32](i => 0);
    }

    /** One iteration of main's loop: fetch program[pc >> 2], decode it, write
        the dispatch's value to rd, advance pc by 4 modulo 2^32, and report
        whether pc has run past the program. */
    method Step(d: Dialect) returns (halt: bool)
      requires Valid() && pc / 4 < |program|
      modifies this, registers
      ensures Valid()
      ensures registers[..] == ExecuteAll(d, old(registers[..]), [program[old(pc) / 4]])
      ensures pc == old(pc) + 4 && pc == 4 * (old(pc) / 4 + 1) && pc / 4 == old(pc) / 4 + 1
      ensures halt <==> pc / 4 >= |program|
    {
      var raw := program[pc / 4];
      var inst := Decode(raw);
      ghost var before := registers[..];
      var w := Writeback(d, registers[..], inst);
      ghost var written := if w.Some? then before[inst.rd := w.value] else before;
      if w.Some? {
        registers[inst.rd] := w.value;
      }
      assert registers[..] == written;
      if d == Corrected {
        registers[0] := 0;
      }
      assert registers[..] == Execute(d, before, inst);
      ExecuteAllOne(d, before, raw);
      PcAdvance(pc, |program|);
      pc := Add(pc, 4);
      halt := pc / 4 >= |program|;
    }

    /** main's loop: step until pc runs past the program. The register file
        ends as the dispatch's run of the words from pc on. */
    method Run(d: Dialect)
      requires Valid() && pc == 0
      modifies this, registers
      ensures Valid()
      ensures registers[..] == ExecuteAll(d, old(registers[..]), program)
      ensures pc == 4 * |program|
    {
      ghost var initial := registers[..];
      ghost var k := 0;
      while true
        invariant Valid() && pc / 4 == k < |program|
        invariant registers[..] == ExecuteAll(d, initial, program[..k])
        decreases |program| - k
      {
        RunExtends(d, initial, program, k);
        var halt := Step(d);
        k := k + 1;
        if halt {
          break;
        }
      }
    }
  }

  /** `pc += 4` on uint32_t does not wrap below 4 * 2^30, and moves pc >> 2
      on by one. */
  lemma PcAdvance(pc: Word, size: nat)
    requires pc % 4 == 0 && pc / 4 < size < 0x4000_0000
    ensures Add(pc, 4) == pc + 4
    ensures pc + 4 == 4 * (pc / 4 + 1)
    ensures (pc + 4) % 4 == 0 && (pc + 4) / 4 == pc / 4 + 1
  {
    var k := pc / 4;
    assert pc == 4 * k;
    DivModUnique(4 * (k + 1), 4, k + 1, 0);
    DivModUnique(pc + 4, WordModulus, 0, pc + 4);
  }

  /** One more iteration of the loop runs one more word of the program. */
  lemma RunExtends(d: Dialect, regs: seq<Word>, prog: seq<Word>, k: nat)
    requires |regs| == 32 && k < |prog|
    ensures ExecuteAll(d, regs, prog[..k + 1]) == ExecuteAll(d, ExecuteAll(d, regs, prog[..k]), [prog[k]])
    ensures k + 1 == |prog| ==> prog[..k + 1] == prog
  {
    assert prog[..k + 1] == prog[..k] + [prog[k]];
    ExecuteAllAppend(d, regs, prog[..k], [prog[k]]);
  }

  /** The embedded program run from the initial machine: x1 = 2, x2 = 3,
      x3 = 5, every other register 0, in both dialects. */
  method RunEmbeddedProgram(d: Dialect) returns (regs: seq<Word>)
    ensures regs == seq(32, i => 0)[1 := 2][2 := 3][3 := 5]
  {
    var m := new Machine(EmbeddedProgram);
    m.Run(d);
    regs := m.registers[..];
    EmbeddedRegisters(d, seq(32, i => 0), m.program);
  }

  /** The embedded program's registers, through the reference: AsWritten
      reads each of its instructions correctly and none writes x0. */
  lemma EmbeddedRegisters(d: Dialect, zero: seq<Word>, words: seq<Word>)
    requires zero == seq(32, i => 0) && words == EmbeddedProgram
    ensures ExecuteAll(d, zero, words) == zero[1 := 2][2 := 3][3 := 5]
  {
    var prog := EmbeddedAssembly();
    EmbeddedProgramAssembled();
    if d == Corrected {
      CorrectedRunMatchesReference(zero, prog);
    } else {
      AsWrittenRunMatchesReference(zero, prog);
    }
    EmbeddedReference(zero, prog);
  }

  /** RV32I on the embedded assembly: x1 = 2, x2 = 3, x3 = x1 + x2 = 5. */
  lemma EmbeddedReference(zero: seq<Word>, prog: seq<Asm>)
    requires zero == seq(32, i => 0) && prog == EmbeddedAssembly()
    ensures RunReference(zero, prog) == zero[1 := 2][2 := 3][3 := 5]
  {
    RunReferenceSnoc(zero, [], prog[0]);
    RunReferenceSnoc(zero, [prog[0]], prog[1]);
    RunReferenceSnoc(zero, [prog[0], prog[1]], prog[2]);
    assert prog == [prog[0], prog[1]] + [prog[2]];
    assert [prog[0]] == [] + [prog[0]];
    assert [prog[0], prog[1]] == [prog[0]] + [prog[1]];
    var r1 := Step(zero, prog[0]);
    assert r1 == zero[1 := 2] by {
      assert ImmSemantics(ADDI, 0, 2) == 2;
    }
    var r2 := Step(r1, prog[1]);
    assert r2 == zero[1 := 2][2 := 3] by {
      assert ImmSemantics(ADDI, 0, 3) == 3;
    }
    assert Step(r2, prog[2]) == zero[1 := 2][2 := 3][3 := 5] by {
      assert RegSemantics(ADD, 2, 3) == 5;
    }
  }
}
