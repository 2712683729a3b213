/**
 * The MIPS subset pa2.c executes, as values: the fields of an instruction
 * word, the machine state (32 registers, the program counter, 1 MB of
 * byte-addressed memory), and the state after one instruction, computed
 * the way process_instruction computes it. The lemmas relate that
 * arithmetic to what each instruction means.
 */
module Mips {
  import opened Bytes

  /** 1 << 20 bytes of memory. */
  const MEMORY_SIZE: nat := 0x10_0000
  const NR_REGISTERS: nat := 32
  const INITIAL_PC: u32 := 0x1000
  const INITIAL_SP: u32 := 0x8000
  /** The pseudo instruction that stops a program. */
  const HALT: u32 := 0xffff_ffff
  const WORD_SIZE: nat := 4

  // ---------------------------------------------------------------------
  // Instruction fields.
  // ---------------------------------------------------------------------

  /** instr / (1 << 26). */
  function Opcode(instr: u32): nat { instr / 0x400_0000 }
  /** Bits 0-5. */
  function Funct(instr: u32): nat { instr % 0x40 }
  /** Bits 6-10. */
  function Shamt(instr: u32): nat { instr / 0x40 % 0x20 }
  /** Bits 11-15. */
  function Rd(instr: u32): nat { instr / 0x800 % 0x20 }
  /** Bits 16-20. */
  function Rt(instr: u32): nat { instr / 0x1_0000 % 0x20 }
  /** Bits 21-25. */
  function Rs(instr: u32): nat { instr / 0x20_0000 % 0x20 }
  /** Bits 0-15. */
  function Imm(instr: u32): nat { instr % 0x1_0000 }
  /** Bits 0-25. */
  function Target(instr: u32): nat { instr % 0x400_0000 }

  /**
   * A word is its fields: opcode, rs, rt, rd, shamt and funct, weighted
   * by their bit positions, and likewise opcode, rs, rt and the immediate.
   */
  lemma {:induction false} FieldsMakeWord(instr: u32)
    ensures instr == Opcode(instr) * 0x400_0000 + Rs(instr) * 0x20_0000 + Rt(instr) * 0x1_0000
                     + Rd(instr) * 0x800 + Shamt(instr) * 0x40 + Funct(instr)
    ensures instr == Opcode(instr) * 0x400_0000 + Rs(instr) * 0x20_0000 + Rt(instr) * 0x1_0000 + Imm(instr)
    ensures instr == Opcode(instr) * 0x400_0000 + Target(instr)
    ensures Opcode(instr) < 0x40
  {
    var x := instr;
    DivDiv(x, 0x40, 0x20);
    DivDiv(x, 0x800, 0x20);
    DivDiv(x, 0x1_0000, 0x20);
    DivDiv(x, 0x20_0000, 0x20);
    assert x == x / 0x40 * 0x40 + Funct(x);
    assert x / 0x40 == x / 0x800 * 0x20 + Shamt(x);
    assert x / 0x800 == x / 0x1_0000 * 0x20 + Rd(x);
    assert x / 0x1_0000 == x / 0x20_0000 * 0x20 + Rt(x);
    assert x / 0x20_0000 == Opcode(x) * 0x20 + Rs(x);
  }

  // ---------------------------------------------------------------------
  // Word arithmetic as the C code writes it.
  // ---------------------------------------------------------------------

  /** An integer stored into an `unsigned int`. */
  function Wrap(x: int): u32 { x % WORD_MODULUS }

  /** x << k on an `unsigned int`. */
  function ShiftLeft(x: u32, k: nat): u32 { Wrap(x * Pow2(k)) }

  /** x >> k on an `unsigned int`. */
  function ShiftRight(x: u32, k: nat): u32 { DivWord(x, Pow2(k)); x / Pow2(k) }

  /**
   * sra as written: a negative word is shifted right and the vacated top
   * bits are filled by adding 0xffffffff << (32 - shamt), which is not
   * defined in C for shamt == 0.
   */
  function Sra(x: u32, shamt: nat): u32
    requires shamt < 32 && (x >= 0x8000_0000 ==> shamt >= 1)
  {
    if x >= 0x8000_0000 then Wrap(ShiftRight(x, shamt) + ShiftLeft(0xffff_ffff, 32 - shamt))
    else ShiftRight(x, shamt)
  }

  /** slt as written: four cases on the sign bits of the two words. */
  function Slt(a: u32, b: u32): u32
  {
    if a >= 0x8000_0000 && b >= 0x8000_0000 then (if a < b then 1 else 0)
    else if a >= 0x8000_0000 then 1
    else if b >= 0x8000_0000 then 0
    else (if a < b then 1 else 0)
  }

  /**
   * x plus a 16-bit immediate as addi, beq and bne compute it: an
   * immediate with its sign bit set is negated as (imm ^ 0xffff) + 1,
   * which for a 16-bit imm is 0x10000 - imm, and subtracted.
   */
  function AddSigned16(x: u32, imm: nat, scale: nat): u32
    requires imm < 0x1_0000
  {
    if imm >= 0x8000 then Wrap(x - (0xffff - imm + 1) * scale) else Wrap(x + imm * scale)
  }

  /** ((pc >> 28) << 28) + (target << 2): j and jal keep the top four bits of pc. */
  function JumpTarget(pc: u32, target: nat): u32
    requires target < 0x400_0000
  {
    Wrap(ShiftLeft(ShiftRight(pc, 28), 28) + target * 4)
  }

  lemma Pow2TwentyEight()
    ensures Pow2(28) == 0x1000_0000
  {
    Pow2Sixteen();
    Pow2Eight();
    assert Pow2(4) == 16;
    Pow2Add(8, 4);
    Pow2Add(16, 12);
  }

  // ---------------------------------------------------------------------
  // Machine state and one instruction.
  // ---------------------------------------------------------------------

  datatype State = State(regs: seq<u32>, pc: u32, mem: seq<u8>)

  predicate WellSized(s: State)
  {
    |s.regs| == NR_REGISTERS && |s.mem| == MEMORY_SIZE
  }

  /** The address lw and sw use: registers[rs] plus the zero-extended immediate. */
  function EffectiveAddress(s: State, instr: u32): u32
    requires WellSized(s)
  {
    Wrap(s.regs[Rs(instr)] + Imm(instr))
  }

  /**
   * What process_instruction needs to stay within defined C: sra of a
   * negative word by 0 shifts 0xffffffff by 32, and lw and sw must stay
   * inside memory.
   */
  predicate Defined(s: State, instr: u32)
    requires WellSized(s)
  {
    && (Opcode(instr) == 0 && Funct(instr) == 0x03 ==>
          (s.regs[Rt(instr)] >= 0x8000_0000 ==> Shamt(instr) >= 1))
    && (Opcode(instr) == 0x23 || Opcode(instr) == 0x2b ==>
          EffectiveAddress(s, instr) + WORD_SIZE <= MEMORY_SIZE)
  }

  /**
   * Whether a word stays within defined C depends on the registers alone,
   * not on pc or on the bytes of memory.
   */
  lemma DefinedByRegisters(s: State, t: State, instr: u32)
    requires WellSized(s) && WellSized(t) && s.regs == t.regs
    ensures Defined(s, instr) == Defined(t, instr)
  {
  }

  /** The state after an instruction, and process_instruction's return value. */
  datatype Step = Step(next: State, processed: bool)

  /** Write register r. */
  function SetReg(s: State, r: nat, v: u32): State
    requires r < |s.regs|
  {
    s.(regs := s.regs[r := v])
  }

  /** R-format instructions, dispatched on funct. */
  function ExecuteR(s: State, instr: u32): Step
    requires WellSized(s) && Defined(s, instr) && Opcode(instr) == 0
  {
    var a, b, rd, shamt := s.regs[Rs(instr)], s.regs[Rt(instr)], Rd(instr), Shamt(instr);
    var f := Funct(instr);
    if f == 0x20 then Step(SetReg(s, rd, Wrap(a as int + b)), true)
    else if f == 0x22 then Step(SetReg(s, rd, Wrap(a as int - b)), true)
    else if f == 0x24 then Step(SetReg(s, rd, BitAnd(a, b)), true)
    else if f == 0x25 then Step(SetReg(s, rd, BitOr(a, b)), true)
    else if f == 0x27 then Step(SetReg(s, rd, BitNot(BitOr(a, b))), true)
    else if f == 0x00 then Step(SetReg(s, rd, ShiftLeft(b, shamt)), true)
    else if f == 0x02 then Step(SetReg(s, rd, ShiftRight(b, shamt)), true)
    else if f == 0x03 then Step(SetReg(s, rd, Sra(b, shamt)), true)
    else if f == 0x2a then Step(SetReg(s, rd, Slt(a, b)), true)
    else if f == 0x08 then Step(s.(pc := a), true)
    else Step(s, false)
  }

  /** I-format instructions, dispatched on opcode. */
  function ExecuteI(s: State, instr: u32): Step
    requires WellSized(s) && Defined(s, instr)
  {
    var a, b, rt, imm := s.regs[Rs(instr)], s.regs[Rt(instr)], Rt(instr), Imm(instr);
    var op := Opcode(instr);
    if op == 0x08 then Step(SetReg(s, rt, AddSigned16(a, imm, 1)), true)
    else if op == 0x0c then Step(SetReg(s, rt, BitAnd(a, imm)), true)
    else if op == 0x0d then Step(SetReg(s, rt, BitOr(a, imm)), true)
    else if op == 0x23 then Step(SetReg(s, rt, WordAt(s.mem, EffectiveAddress(s, instr))), true)
    else if op == 0x2b then Step(s.(mem := PutWord(s.mem, EffectiveAddress(s, instr), b)), true)
    else if op == 0x0a then Step(SetReg(s, rt, if a < imm then 1 else 0), true)
    else if op == 0x04 then Step(if a == b then s.(pc := AddSigned16(s.pc, imm, WORD_SIZE)) else s, true)
    else if op == 0x05 then Step(if a != b then s.(pc := AddSigned16(s.pc, imm, WORD_SIZE)) else s, true)
    else Step(s, false)
  }

  /** process_instruction. */
  function Execute(s: State, instr: u32): Step
    requires WellSized(s) && Defined(s, instr)
  {
    var op := Opcode(instr);
    if op == 0 then ExecuteR(s, instr)
    else if op == 0x02 then Step(s.(pc := JumpTarget(s.pc, Target(instr))), true)
    else if op == 0x03 then Step(SetReg(s, 31, s.pc).(pc := JumpTarget(s.pc, Target(instr))), true)
    else ExecuteI(s, instr)
  }

  /** The instruction table: opcode 0 with one of ten functs, or one of ten other opcodes. */
  predicate Listed(instr: u32)
  {
    || (Opcode(instr) == 0 && Funct(instr) in {0x20, 0x22, 0x24, 0x25, 0x27, 0x00, 0x02, 0x03, 0x2a, 0x08})
    || Opcode(instr) in {0x08, 0x0c, 0x0d, 0x23, 0x2b, 0x0a, 0x04, 0x05, 0x02, 0x03}
  }

  // ---------------------------------------------------------------------
  // What the instructions mean.
  // ---------------------------------------------------------------------

  /** Every listed instruction returns 1; halt and every unlisted word return 0 and change nothing. */
  lemma ProcessedIffListed(s: State, instr: u32)
    requires WellSized(s) && Defined(s, instr)
    ensures Execute(s, instr).processed <==> Listed(instr)
    ensures !Listed(instr) ==> Execute(s, instr).next == s
    ensures WellSized(Execute(s, instr).next)
  {
  }

  /** halt is not an instruction of the table. */
  lemma HaltStops(s: State)
    requires WellSized(s) && Defined(s, HALT)
    ensures !Execute(s, HALT).processed && Execute(s, HALT).next == s
  {
    assert Opcode(HALT) == 0x3f;
  }

  /**
   * The register-to-register instructions other than jr write rd and
   * nothing else: every other register, pc and memory are unchanged.
   */
  lemma OnlyRdChanges(s: State, instr: u32)
    requires WellSized(s) && Defined(s, instr) && Opcode(instr) == 0
    requires Funct(instr) in {0x20, 0x22, 0x24, 0x25, 0x27, 0x00, 0x02, 0x03, 0x2a}
    ensures var t := Execute(s, instr).next;
      t.pc == s.pc && t.mem == s.mem && |t.regs| == NR_REGISTERS
      && forall r :: 0 <= r < NR_REGISTERS && r != Rd(instr) ==> t.regs[r] == s.regs[r]
  {
  }

  /** Storing v into an `unsigned int` keeps a value that means v in two's complement, if v fits. */
  lemma SignedOfWrap(v: int)
    requires -0x8000_0000 <= v < 0x8000_0000
    ensures Signed(Wrap(v)) == v
  {
  }

  /** Two words that mean the same number modulo 2^32 wrap to the same word. */
  lemma WrapCongruent(x: int, y: int, k: int)
    requires x == y + k * WORD_MODULUS
    ensures Wrap(x) == Wrap(y)
  {
    DivUnique(x, WORD_MODULUS, y / WORD_MODULUS + k, y % WORD_MODULUS);
  }

  /**
   * add and sub are two's-complement addition and subtraction: when the
   * exact result fits in 32 signed bits, rd holds it.
   */
  lemma AddSubSigned(s: State, instr: u32)
    requires WellSized(s) && Defined(s, instr) && Opcode(instr) == 0
    ensures var a, b := Signed(s.regs[Rs(instr)]), Signed(s.regs[Rt(instr)]);
      var t := Execute(s, instr).next;
      && (Funct(instr) == 0x20 && -0x8000_0000 <= a + b < 0x8000_0000 ==> Signed(t.regs[Rd(instr)]) == a + b)
      && (Funct(instr) == 0x22 && -0x8000_0000 <= a - b < 0x8000_0000 ==> Signed(t.regs[Rd(instr)]) == a - b)
  {
    var x, y := s.regs[Rs(instr)], s.regs[Rt(instr)];
    var a, b := Signed(x), Signed(y);
    var kx := if x >= 0x8000_0000 then 1 else 0;
    var ky := if y >= 0x8000_0000 then 1 else 0;
    if Funct(instr) == 0x20 && -0x8000_0000 <= a + b < 0x8000_0000 {
      WrapCongruent(x as int + y, a + b, kx + ky);
      SignedOfWrap(a + b);
    }
    if Funct(instr) == 0x22 && -0x8000_0000 <= a - b < 0x8000_0000 {
      WrapCongruent(x as int - y, a - b, kx - ky);
      SignedOfWrap(a - b);
    }
  }

  /** slt writes 1 exactly when rs is less than rt as signed 32-bit integers, and 0 otherwise. */
  lemma SltIsSignedLess(a: u32, b: u32)
    ensures Slt(a, b) == 1 <==> Signed(a) < Signed(b)
    ensures Slt(a, b) == 0 <==> Signed(a) >= Signed(b)
  {
  }

  /**
   * sra of a shift between 1 and 31, and of a non-negative word by any
   * shift, is the arithmetic right shift: the two's-complement value
   * divided by 2^shamt and rounded down.
   */
  lemma SraIsArithmetic(x: u32, shamt: nat)
    requires shamt < 32 && (x >= 0x8000_0000 ==> shamt >= 1)
    ensures Sra(x, shamt) == Wrap(Signed(x) / Pow2(shamt))
  {
    if x >= 0x8000_0000 {
      var p, q := Pow2(shamt), Pow2(32 - shamt);
      assert p * q == WORD_MODULUS by {
        Pow2Add(shamt, 32 - shamt);
        Pow2ThirtyTwo();
      }
      FillBits(q);
      FillShifted(x, p, q);
    }
  }

  /**
   * A word x with its sign bit set, divided by p, plus the 2^32 - q that
   * fills the vacated bits, where p * q == 2^32: this is x - 2^32 divided
   * by p, modulo 2^32.
   */
  lemma FillShifted(x: u32, p: nat, q: nat)
    requires p >= 1 && q >= 1 && p * q == WORD_MODULUS
    ensures Wrap(x / p + (WORD_MODULUS - q)) == Wrap((x - WORD_MODULUS) / p)
  {
    var h := x / p;
    assert h < q by {
      if h >= q {
        MulLeft(q, h, p);
      }
    }
    DivUnique(x - WORD_MODULUS, p, h - q, x % p);
    WrapCongruent(h - q, h - q + WORD_MODULUS, -1);
  }

  /** 0xffffffff times a power of two q not above 2^32, modulo 2^32, is 2^32 - q. */
  lemma FillBits(q: nat)
    requires 1 <= q <= WORD_MODULUS
    ensures Wrap(0xffff_ffff * q) == WORD_MODULUS - q
  {
    if q == WORD_MODULUS {
      DivUnique(0xffff_ffff * q, WORD_MODULUS, 0xffff_ffff, 0);
    } else {
      DivUnique(0xffff_ffff * q, WORD_MODULUS, q - 1, WORD_MODULUS - q);
    }
  }

  /** The immediate of addi, beq and bne is sign-extended: the computed word is x + imm * scale, modulo 2^32. */
  lemma AddSigned16IsSignExtension(x: u32, imm: nat, scale: nat)
    requires imm < 0x1_0000
    ensures AddSigned16(x, imm, scale) == Wrap(x + SignExtend16(imm) * scale)
  {
    if imm >= 0x8000 {
      assert (0xffff - imm + 1) * scale == -((imm - 0x1_0000) * scale);
    }
  }

  /** addi writes rs plus the sign-extended immediate to rt and changes nothing else. */
  lemma AddiSignExtends(s: State, instr: u32)
    requires WellSized(s) && Defined(s, instr) && Opcode(instr) == 0x08
    ensures var t := Execute(s, instr).next;
      && t == SetReg(s, Rt(instr), Wrap(s.regs[Rs(instr)] + SignExtend16(Imm(instr))))
  {
    AddSigned16IsSignExtension(s.regs[Rs(instr)], Imm(instr), 1);
  }

  /**
   * beq and bne move pc by the sign-extended immediate times four exactly
   * when the two registers are equal (beq) or different (bne); otherwise
   * nothing changes. Registers and memory never change.
   */
  lemma BranchTaken(s: State, instr: u32)
    requires WellSized(s) && Defined(s, instr) && (Opcode(instr) == 0x04 || Opcode(instr) == 0x05)
    ensures var t, a, b := Execute(s, instr).next, s.regs[Rs(instr)], s.regs[Rt(instr)];
      var taken := if Opcode(instr) == 0x04 then a == b else a != b;
      && t.regs == s.regs && t.mem == s.mem
      && t.pc == if taken then Wrap(s.pc + 4 * SignExtend16(Imm(instr))) else s.pc
  {
    AddSigned16IsSignExtension(s.pc, Imm(instr), WORD_SIZE);
  }

  /**
   * j and jal keep the top four bits of pc and put the target, times four,
   * in the other 28; jal first saves pc in register 31.
   */
  lemma JumpKeepsRegion(s: State, instr: u32)
    requires WellSized(s) && Defined(s, instr) && (Opcode(instr) == 0x02 || Opcode(instr) == 0x03)
    ensures var t := Execute(s, instr).next;
      && t.pc / 0x1000_0000 == s.pc / 0x1000_0000
      && t.pc % 0x1000_0000 == Target(instr) * 4
      && t.mem == s.mem
      && t.regs == if Opcode(instr) == 0x03 then s.regs[31 := s.pc] else s.regs
  {
    var top := s.pc / 0x1000_0000;
    RegionBase(s.pc);
    var v := top * 0x1000_0000 + Target(instr) * 4;
    assert v < WORD_MODULUS;
    assert JumpTarget(s.pc, Target(instr)) == v;
    DivUnique(v, 0x1000_0000, top, Target(instr) * 4);
    assert Execute(s, instr).next.pc == v;
  }

  /** (pc >> 28) << 28 clears the low 28 bits of pc. */
  lemma RegionBase(pc: u32)
    ensures ShiftLeft(ShiftRight(pc, 28), 28) == pc / 0x1000_0000 * 0x1000_0000
  {
    Pow2TwentyEight();
  }

  /** jr sets pc to rs and changes nothing else. */
  lemma JrJumps(s: State, instr: u32)
    requires WellSized(s) && Defined(s, instr) && Opcode(instr) == 0 && Funct(instr) == 0x08
    ensures Execute(s, instr).next == s.(pc := s.regs[Rs(instr)])
  {
  }

  /**
   * sw writes rt big-endian into the four bytes at its address and no
   * other byte; a following lw from the same base register and immediate
   * reads that word back.
   */
  lemma StoreThenLoad(s: State, sw: u32, lw: u32)
    requires WellSized(s) && Defined(s, sw) && Opcode(sw) == 0x2b
    requires Opcode(lw) == 0x23 && Rs(lw) == Rs(sw) && Imm(lw) == Imm(sw)
    ensures var t := Execute(s, sw).next;
      && WellSized(t) && t.regs == s.regs && t.pc == s.pc
      && t.mem[EffectiveAddress(s, sw)..EffectiveAddress(s, sw) + 4] == WordBytes(s.regs[Rt(sw)])
      && (forall i :: 0 <= i < MEMORY_SIZE && !(EffectiveAddress(s, sw) <= i < EffectiveAddress(s, sw) + 4) ==> t.mem[i] == s.mem[i])
      && Defined(t, lw)
      && Execute(t, lw).next.regs[Rt(lw)] == s.regs[Rt(sw)]
  {
    var e := EffectiveAddress(s, sw);
    var t := Execute(s, sw).next;
    WordAtThenWordBytes(t.mem, e);
  }

  // ---------------------------------------------------------------------
  // Loading and running a program.
  // ---------------------------------------------------------------------

  /**
   * The words load_program lays out from INITIAL_PC on: one per line of
   * the program file, then a halt unless the last line already is one.
   * An empty file leaves the buffer the last line is re-read from
   * uninitialised, so a program has at least one line.
   */
  function ProgramWords(lines: seq<u32>): (r: seq<u32>)
    requires |lines| >= 1
    ensures |r| == if lines[|lines| - 1] == HALT then |lines| else |lines| + 1
    ensures r[..|lines|] == lines
    ensures r[|r| - 1] == HALT
  {
    if lines[|lines| - 1] == HALT then lines else lines + [HALT]
  }

  /** mem with words[k] stored big-endian at at + 4 * k. */
  function Place(mem: seq<u8>, words: seq<u32>, at: nat): (r: seq<u8>)
    requires at + 4 * |words| <= |mem|
    ensures |r| == |mem|
    ensures forall k :: 0 <= k < |words| ==> WordAt(r, at + 4 * k) == words[k]
    ensures forall j :: 0 <= j < |mem| && !(at <= j < at + 4 * |words|) ==> r[j] == mem[j]
    decreases |words|
  {
    if words == [] then mem
    else
      var r := Place(PutWord(mem, at, words[0]), words[1..], at + 4);
      assert forall k :: 1 <= k < |words| ==> WordAt(r, at + 4 * k) == words[k] by {
        forall k | 1 <= k < |words|
          ensures WordAt(r, at + 4 * k) == words[k]
        {
          assert at + 4 * k == (at + 4) + 4 * (k - 1);
        }
      }
      r
  }

  /** Placing one more word after the others is one more PutWord. */
  lemma {:induction false} PlaceSnoc(mem: seq<u8>, words: seq<u32>, w: u32, at: nat)
    requires at + 4 * (|words| + 1) <= |mem|
    ensures Place(mem, words + [w], at) == PutWord(Place(mem, words, at), at + 4 * |words|, w)
    decreases |words|
  {
    if words != [] {
      assert (words + [w])[1..] == words[1..] + [w];
      PlaceSnoc(PutWord(mem, at, words[0]), words[1..], w, at + 4);
    }
  }

  /** The program counter after the fetch: pc += 4 on an `unsigned int`. */
  function Advance(s: State): State
  {
    s.(pc := Wrap(s.pc + WORD_SIZE))
  }

  /** The word run_program fetches: the big-endian word at pc. */
  predicate CanFetch(s: State)
  {
    WellSized(s) && s.pc + WORD_SIZE <= MEMORY_SIZE
  }

  function Fetch(s: State): u32
    requires CanFetch(s)
  {
    WordAt(s.mem, s.pc)
  }

  /** How a run stopped. */
  datatype Stop = Halted | Undefined | OutOfFuel

  datatype Run = Run(last: State, stop: Stop, steps: nat)

  /**
   * run_program for at most `fuel` more instructions, `done` having run
   * already: fetch at pc, advance pc, execute, and stop when
   * process_instruction returns 0. A fetch outside memory or an
   * instruction outside defined C stops the run as Undefined.
   */
  function RunFrom(s: State, fuel: nat, done: nat): (r: Run)
    requires WellSized(s)
    ensures WellSized(r.last) && done <= r.steps <= done + fuel
    ensures r.stop == OutOfFuel ==> r.steps == done + fuel
    decreases fuel
  {
    if fuel == 0 then Run(s, OutOfFuel, done)
    else if !CanFetch(s) || !Defined(Advance(s), Fetch(s)) then Run(s, Undefined, done)
    else
      ProcessedIffListed(Advance(s), Fetch(s));
      var step := Execute(Advance(s), Fetch(s));
      if !step.processed then Run(step.next, Halted, done + 1)
      else RunFrom(step.next, fuel - 1, done + 1)
  }

  /** Writing word n after the first n words are placed places the first n + 1. */
  lemma PlacePrefix(mem: seq<u8>, words: seq<u32>, n: nat, at: nat, before: seq<u8>, after: seq<u8>)
    requires n < |words| && at + 4 * |words| <= |mem|
    requires before == Place(mem, words[..n], at)
    requires after == PutWord(before, at + 4 * n, words[n])
    ensures after == Place(mem, words[..n + 1], at)
  {
    var placed := words[..n];
    assert |placed| == n && words[..n + 1] == placed + [words[n]];
    PlaceSnoc(mem, placed, words[n], at);
  }

  /** One round of a run that can go on: fetch, advance pc, execute. */
  lemma RunFromRound(s: State, fuel: nat, done: nat)
    requires CanFetch(s) && fuel >= 1
    ensures Defined(Advance(s), Fetch(s)) == Defined(s, Fetch(s))
    ensures !Defined(s, Fetch(s)) ==> RunFrom(s, fuel, done) == Run(s, Undefined, done)
    ensures Defined(s, Fetch(s)) ==>
      var step := Execute(Advance(s), Fetch(s));
      RunFrom(s, fuel, done) ==
        if step.processed then RunFrom(step.next, fuel - 1, done + 1) else Run(step.next, Halted, done + 1)
  {
    DefinedByRegisters(Advance(s), s, Fetch(s));
  }

  /** A run that stopped before its fuel ran out stops the same way with any more fuel. */
  lemma {:induction false} MoreFuelSameRun(s: State, fuel: nat, more: nat, done: nat)
    requires WellSized(s) && fuel <= more && RunFrom(s, fuel, done).stop != OutOfFuel
    ensures RunFrom(s, more, done) == RunFrom(s, fuel, done)
    decreases fuel
  {
    if fuel > 0 && CanFetch(s) && Defined(Advance(s), Fetch(s)) {
      var step := Execute(Advance(s), Fetch(s));
      ProcessedIffListed(Advance(s), Fetch(s));
      if step.processed {
        MoreFuelSameRun(step.next, fuel - 1, more - 1, done + 1);
      }
    }
  }

  /** A run whose pc points at halt stops after one fetch, with only pc advanced. */
  lemma HaltEndsRun(s: State, fuel: nat, done: nat)
    requires CanFetch(s) && fuel >= 1 && Fetch(s) == HALT
    ensures RunFrom(s, fuel, done) == Run(Advance(s), Halted, done + 1)
  {
    assert Defined(Advance(s), HALT);
    HaltStops(Advance(s));
  }

  /**
   * After load_program, the instruction at INITIAL_PC + 4 * k is line k of
   * the file, and the word after the last line is a halt.
   */
  lemma LoadedProgramEndsInHalt(mem: seq<u8>, lines: seq<u32>)
    requires |mem| == MEMORY_SIZE && |lines| >= 1
    requires INITIAL_PC + 4 * |ProgramWords(lines)| <= MEMORY_SIZE
    ensures var m := Place(mem, ProgramWords(lines), INITIAL_PC);
      && (forall k :: 0 <= k < |lines| ==> WordAt(m, INITIAL_PC + 4 * k) == lines[k])
      && WordAt(m, INITIAL_PC + 4 * (|ProgramWords(lines)| - 1)) == HALT
  {
    var w := ProgramWords(lines);
    forall k | 0 <= k < |lines|
      ensures w[k] == lines[k]
    {
      assert w[..|lines|][k] == w[k];
    }
  }
}
