/**
 * The MIPS emulator of pa2.c as a machine whose registers, program
 * counter and memory change in place: process_instruction, load_program
 * and run_program, each proved to compute what the value-level semantics
 * in module Mips computes.
 */
module Emulator {
  import opened Bytes
  import opened Mips

  /**
   * The first 64 bytes of memory: 00 11 .. 77, de ad be ef, four zeros,
   * "hello world!!" and three zeros, "awesome computer architecture!" and
   * two zeros. Every other byte starts at zero.
   */
  const MEMORY_SEED: seq<u8> := [
    0x00, 0x11, 0x22, 0x33, 0x44, 0x55, 0x66, 0x77,
    0xde, 0xad, 0xbe, 0xef, 0x00, 0x00, 0x00, 0x00,
    0x68, 0x65, 0x6c, 0x6c, 0x6f, 0x20, 0x77, 0x6f,
    0x72, 0x6c, 0x64, 0x21, 0x21, 0x00, 0x00, 0x00,
    0x61, 0x77, 0x65, 0x73, 0x6f, 0x6d, 0x65, 0x20,
    0x63, 0x6f, 0x6d, 0x70, 0x75, 0x74, 0x65, 0x72,
    0x20, 0x61, 0x72, 0x63, 0x68, 0x69, 0x74, 0x65,
    0x63, 0x74, 0x75, 0x72, 0x65, 0x21, 0x00, 0x00
  ]

  /** s0 = 0x10, s1 = INITIAL_PC, s2 = 0x20, s3 = 3, s4..s7 as below, sp = INITIAL_SP. */
  const INITIAL_REGISTERS: seq<u32> := [
    0x0, 0x0, 0x0, 0x0, 0x0, 0x0, 0x0, 0x0,
    0x0, 0x0, 0x0, 0x0, 0x0, 0x0, 0x0, 0x0,
    0x10, 0x1000, 0x20, 0x3, 0xbadacafe, 0xcdcdcdcd, 0xffffffff, 0x7,
    0x0, 0x0, 0x0, 0x0, 0x0, 0x8000, 0x0, 0x0
  ]

  function InitialState(): State
  {
    State(INITIAL_REGISTERS, INITIAL_PC,
          seq(MEMORY_SIZE, i => if 0 <= i < |MEMORY_SEED| then MEMORY_SEED[i] else 0))
  }

  /** The weight 1 << (24 - 8 * i) of byte i, which the fetch writes 1 << 4 * (6 - 2 * i). */
  lemma ShiftWeight(i: nat)
    requires i < 4
    ensures Pow2(24 - 8 * i) == ByteWeight(i) == Pow2(4 * (6 - 2 * i))
  {
    Pow2Eight();
    Pow2Sixteen();
    if i == 0 {
      Pow2Add(8, 16);
    }
  }

  /** Byte i from the low end of a word, and the word shifted one byte further. */
  lemma ByteRadix(value: u32, i: nat)
    requires i < 4
    ensures value / Pow2(8 * i) % 0x100 == WordBytes(value)[3 - i]
    ensures value / Pow2(8 * i) / 0x100 == value / Pow2(8 * (i + 1))
  {
    Pow2Eight();
    Pow2Sixteen();
    Pow2Add(8 * i, 8);
    DivDiv(value, Pow2(8 * i), 0x100);
    if i == 3 {
      Pow2Add(8, 16);
    }
  }

  /** A byte shifted left into position i of a word does not overflow. */
  lemma ShiftedByte(b: u8, i: nat)
    requires i < 4
    ensures ShiftLeft(b, 24 - 8 * i) == b * ByteWeight(i)
  {
    ShiftWeight(i);
  }

  /** The R-format fields, peeled off the low end of the word as process_instruction does. */
  method DecodeR(instr: u32) returns (rs: nat, rt: nat, rd: nat, shamt: nat, funct: nat)
    ensures rs == Rs(instr) && rt == Rt(instr) && rd == Rd(instr)
    ensures shamt == Shamt(instr) && funct == Funct(instr)
    ensures rs < 32 && rt < 32 && rd < 32 && shamt < 32
  {
    var w := instr;
    funct := w % 0x40;
    w := w / 0x40;
    shamt := w % 0x20;
    w := w / 0x20;
    DivDiv(instr, 0x40, 0x20);
    rd := w % 0x20;
    w := w / 0x20;
    DivDiv(instr, 0x800, 0x20);
    rt := w % 0x20;
    w := w / 0x20;
    DivDiv(instr, 0x1_0000, 0x20);
    rs := w % 0x20;
  }

  /** The I-format fields: the immediate, then rt and rs. */
  method DecodeI(instr: u32) returns (rs: nat, rt: nat, imm: nat)
    ensures rs == Rs(instr) && rt == Rt(instr) && imm == Imm(instr)
    ensures rs < 32 && rt < 32 && imm < 0x1_0000
  {
    var w := instr;
    imm := w % 0x1_0000;
    w := w / 0x1_0000;
    rt := w % 0x20;
    w := w / 0x20;
    DivDiv(instr, 0x1_0000, 0x20);
    rs := w % 0x20;
  }

  class Machine {
    const registers: array<u32>
    const memory: array<u8>
    var pc: u32

    ghost predicate Valid()
      reads this
    {
      registers.Length == NR_REGISTERS && memory.Length == MEMORY_SIZE
    }

    /** The machine as a value of module Mips. */
    ghost function Snapshot(): State
      reads this, registers, memory
    {
      State(registers[..], pc, memory[..])
    }

    /** The static initialisers of registers[], memory[] and pc. */
    constructor ()
      ensures Valid() && Snapshot() == InitialState()
      ensures fresh(registers) && fresh(memory)
    {
      registers := new u32[NR_REGISTERS](i => if 0 <= i < |INITIAL_REGISTERS| then INITIAL_REGISTERS[i] else 0);
      memory := new u8[MEMORY_SIZE](i => if 0 <= i < |MEMORY_SEED| then MEMORY_SEED[i] else 0);
      pc := INITIAL_PC;
      new;
      assert registers[..] == INITIAL_REGISTERS;
      assert memory[..] == InitialState().mem;
    }

    /** process_instruction: execute one instruction; false for halt and unknown words. */
    method ProcessInstruction(instr: u32) returns (processed: bool)
      requires Valid() && Defined(Snapshot(), instr)
      modifies this, registers, memory
      ensures Valid()
      ensures Snapshot() == Execute(old(Snapshot()), instr).next
      ensures processed == Execute(old(Snapshot()), instr).processed
    {
      var opcode := instr / 0x400_0000;
      if opcode == 0 {
        processed := ExecuteRFormat(instr);
      } else if opcode == 0x02 {
        var address := instr % 0x400_0000;
        pc := Wrap(ShiftLeft(ShiftRight(pc, 28), 28) + address * 4);
        processed := true;
      } else if opcode == 0x03 {
        var address := instr % 0x400_0000;
        registers[31] := pc;
        pc := Wrap(ShiftLeft(ShiftRight(pc, 28), 28) + address * 4);
        processed := true;
      } else {
        processed := ExecuteIFormat(instr);
      }
    }

    method ExecuteRFormat(instr: u32) returns (processed: bool)
      requires Valid() && Defined(Snapshot(), instr) && Opcode(instr) == 0
      modifies this, registers
      ensures Valid()
      ensures Snapshot() == ExecuteR(old(Snapshot()), instr).next
      ensures processed == ExecuteR(old(Snapshot()), instr).processed
    {
      var rs, rt, rd, shamt, funct := DecodeR(instr);
      var a, b := registers[rs], registers[rt];
      var value: u32;
      processed := true;
      if funct == 0x20 {
        value := Wrap(a as int + b);
      } else if funct == 0x22 {
        value := Wrap(a as int - b);
      } else if funct == 0x24 {
        value := BitAnd(a, b);
      } else if funct == 0x25 {
        value := BitOr(a, b);
      } else if funct == 0x27 {
        value := BitNot(BitOr(a, b));
      } else if funct == 0x00 {
        value := ShiftLeft(b, shamt);
      } else if funct == 0x02 {
        value := ShiftRight(b, shamt);
      } else if funct == 0x03 {
        if b >= 0x8000_0000 {
          value := Wrap(ShiftRight(b, shamt) + ShiftLeft(0xffff_ffff, 32 - shamt));
        } else {
          value := ShiftRight(b, shamt);
        }
      } else if funct == 0x2a {
        if a >= 0x8000_0000 && b >= 0x8000_0000 {
          value := if a < b then 1 else 0;
        } else if a >= 0x8000_0000 {
          value := 1;
        } else if b >= 0x8000_0000 {
          value := 0;
        } else {
          value := if a < b then 1 else 0;
        }
      } else if funct == 0x08 {
        pc := a;
        return;
      } else {
        processed := false;
        return;
      }
      registers[rd] := value;
    }

    method ExecuteIFormat(instr: u32) returns (processed: bool)
      requires Valid() && Defined(Snapshot(), instr)
      requires Opcode(instr) != 0 && Opcode(instr) != 0x02 && Opcode(instr) != 0x03
      modifies this, registers, memory
      ensures Valid()
      ensures Snapshot() == ExecuteI(old(Snapshot()), instr).next
      ensures processed == ExecuteI(old(Snapshot()), instr).processed
    {
      var opcode := instr / 0x400_0000;
      var rs, rt, address := DecodeI(instr);
      var a, b := registers[rs], registers[rt];
      processed := true;
      if opcode == 0x08 {
        if address >= 0x8000 {
          registers[rt] := Wrap(a - (0xffff - address + 1));
        } else {
          registers[rt] := Wrap(a + address);
        }
      } else if opcode == 0x0c {
        registers[rt] := BitAnd(a, address);
      } else if opcode == 0x0d {
        registers[rt] := BitOr(a, address);
      } else if opcode == 0x23 {
        LoadWord(rt, Wrap(a + address));
      } else if opcode == 0x2b {
        StoreWord(Wrap(a + address), b);
      } else if opcode == 0x0a {
        registers[rt] := if a < address then 1 else 0;
      } else if opcode == 0x04 {
        if a == b {
          if address >= 0x8000 {
            pc := Wrap(pc - (0xffff - address + 1) * WORD_SIZE);
          } else {
            pc := Wrap(pc + address * WORD_SIZE);
          }
        }
      } else if opcode == 0x05 {
        if a != b {
          if address >= 0x8000 {
            pc := Wrap(pc - (0xffff - address + 1) * WORD_SIZE);
          } else {
            pc := Wrap(pc + address * WORD_SIZE);
          }
        }
      } else {
        processed := false;
      }
    }

    /** lw: clear rt, then add the four bytes at `at`, each shifted to its place. */
    method LoadWord(rt: nat, at: nat)
      requires Valid() && rt < NR_REGISTERS && at + WORD_SIZE <= MEMORY_SIZE
      modifies registers
      ensures registers[..] == old(registers[..])[rt := WordAt(memory[..], at)]
    {
      registers[rt] := 0;
      for i := 0 to WORD_SIZE
        invariant registers[rt] == WordPrefix(memory[..], at, i)
        invariant forall r :: 0 <= r < NR_REGISTERS && r != rt ==> registers[r] == old(registers[r])
      {
        ShiftedByte(memory[at + i], i);
        registers[rt] := Wrap(registers[rt] + ShiftLeft(memory[at + i], 24 - 8 * i));
      }
      WordPrefixFull(memory[..], at);
      assert registers[..] == old(registers[..])[rt := WordAt(memory[..], at)];
    }

    /** sw: byte i of memory from `at` on is value / (1 << (24 - 8 * i)), truncated to a byte. */
    method StoreWord(at: nat, value: u32)
      requires Valid() && at + WORD_SIZE <= MEMORY_SIZE
      modifies memory
      ensures memory[..] == PutWord(old(memory[..]), at, value)
    {
      for i := 0 to WORD_SIZE
        invariant forall j :: 0 <= j < MEMORY_SIZE ==>
          memory[j] == if at <= j < at + i then WordBytes(value)[j - at] else old(memory[j])
      {
        ShiftWeight(i);
        memory[at + i] := value / Pow2(24 - 8 * i) % 0x100;
      }
      assert memory[..] == PutWord(old(memory[..]), at, value);
    }

    /** The fetch of run_program: add each byte at pc times 1 << 4 * (6 - 2 * i). */
    method FetchInstruction() returns (instr: u32)
      requires Valid() && pc + WORD_SIZE <= MEMORY_SIZE
      ensures instr == WordAt(memory[..], pc)
    {
      instr := 0;
      for i := 0 to WORD_SIZE
        invariant instr == WordPrefix(memory[..], pc, i)
      {
        var temp := memory[pc + i];
        ShiftWeight(i);
        instr := Wrap(instr + temp * Pow2(4 * (6 - 2 * i)));
      }
      WordPrefixFull(memory[..], pc);
    }

    /**
     * Store `value` big-endian at `at` the way load_program does: move the
     * index past the word, then write its low byte and shift it away, four
     * times, stepping the index back.
     */
    method PutBigEndian(at: nat, value: u32)
      requires Valid() && at + WORD_SIZE <= MEMORY_SIZE
      modifies memory
      ensures memory[..] == PutWord(old(memory[..]), at, value)
    {
      var index := at + WORD_SIZE;
      var temp := value;
      for i := 0 to WORD_SIZE
        invariant index == at + WORD_SIZE - i
        invariant temp == value / Pow2(8 * i)
        invariant forall j :: 0 <= j < MEMORY_SIZE ==>
          memory[j] == if index <= j < at + WORD_SIZE then WordBytes(value)[j - at] else old(memory[j])
      {
        ByteRadix(value, i);
        index := index - 1;
        memory[index] := temp % 0x100;
        temp := temp / 0x100;
      }
      assert memory[..] == PutWord(old(memory[..]), at, value);
    }

    /**
     * load_program: the word of each line of the program file, big-endian
     * from INITIAL_PC on, then a halt unless the last line is one.
     */
    method LoadProgram(lines: seq<u32>)
      requires Valid() && |lines| >= 1
      requires INITIAL_PC + 4 * |ProgramWords(lines)| <= MEMORY_SIZE
      modifies memory
      ensures memory[..] == Place(old(memory[..]), ProgramWords(lines), INITIAL_PC)
    {
      var index := PlaceLines(lines);
      var temp := lines[|lines| - 1];
      if temp != HALT {
        AppendHalt(lines, index);
      }
    }

    /** The halt load_program adds after a program whose last line is not one. */
    method AppendHalt(ghost lines: seq<u32>, index: nat)
      requires Valid() && |lines| >= 1 && lines[|lines| - 1] != HALT
      requires index == INITIAL_PC + 4 * |lines| && index + WORD_SIZE <= MEMORY_SIZE
      modifies memory
      ensures forall m: seq<u8> :: |m| == MEMORY_SIZE && old(memory[..]) == Place(m, lines, INITIAL_PC) ==>
        memory[..] == Place(m, ProgramWords(lines), INITIAL_PC)
    {
      PutBigEndian(index, HALT);
      forall m: seq<u8> | |m| == MEMORY_SIZE && old(memory[..]) == Place(m, lines, INITIAL_PC)
        ensures memory[..] == Place(m, ProgramWords(lines), INITIAL_PC)
      {
        PlaceSnoc(m, lines, HALT, INITIAL_PC);
      }
    }

    /** The line loop of load_program; `index` ends just past the last line's word. */
    method PlaceLines(lines: seq<u32>) returns (index: nat)
      requires Valid() && INITIAL_PC + 4 * |lines| <= MEMORY_SIZE
      modifies memory
      ensures index == INITIAL_PC + 4 * |lines|
      ensures memory[..] == Place(old(memory[..]), lines, INITIAL_PC)
    {
      index := INITIAL_PC;
      for n := 0 to |lines|
        invariant index == INITIAL_PC + 4 * n
        invariant memory[..] == Place(old(memory[..]), lines[..n], INITIAL_PC)
      {
        ghost var before := memory[..];
        PutBigEndian(index, lines[n]);
        PlacePrefix(old(memory[..]), lines, n, INITIAL_PC, before, memory[..]);
        index := index + WORD_SIZE;
      }
      assert lines[..|lines|] == lines;
    }

    /** Whether process_instruction stays within defined C on this word. */
    method CheckDefined(instr: u32) returns (ok: bool)
      requires Valid()
      ensures ok == Defined(Snapshot(), instr)
    {
      var opcode := instr / 0x400_0000;
      var rs, rt, imm := DecodeI(instr);
      if opcode == 0 && instr % 0x40 == 0x03 {
        ok := registers[rt] < 0x8000_0000 || instr / 0x40 % 0x20 >= 1;
      } else if opcode == 0x23 || opcode == 0x2b {
        ok := Wrap(registers[rs] + imm) + WORD_SIZE <= MEMORY_SIZE;
      } else {
        ok := true;
      }
    }

    /** One round of run_program: fetch, pc += 4, process_instruction. */
    method Cycle() returns (processed: bool)
      requires Valid() && CanFetch(Snapshot()) && Defined(Advance(Snapshot()), Fetch(Snapshot()))
      modifies this, registers, memory
      ensures Valid()
      ensures Snapshot() == Execute(Advance(old(Snapshot())), Fetch(old(Snapshot()))).next
      ensures processed == Execute(Advance(old(Snapshot())), Fetch(old(Snapshot()))).processed
    {
      var instr := FetchInstruction();
      pc := Wrap(pc + WORD_SIZE);
      processed := ProcessInstruction(instr);
    }
  
    /**
     * run_program with a bound on the number of instructions: pc starts at
     * INITIAL_PC and each round fetches, advances pc and executes, until
     * process_instruction returns 0. A round that would leave defined C
     * stops the run as Undefined.
     */
    method RunProgram(fuel: nat) returns (stop: Stop, steps: nat)
      requires Valid()
      modifies this, registers, memory
      ensures Valid()
      ensures RunFrom(old(Snapshot()).(pc := INITIAL_PC), fuel, 0) == Run(Snapshot(), stop, steps)
    {
      pc := INITIAL_PC;
      ghost var start := Snapshot();
      steps := 0;
      while steps < fuel
        invariant Valid() && steps <= fuel
        invariant RunFrom(start, fuel, 0) == RunFrom(Snapshot(), fuel - steps, steps)
        decreases fuel - steps
      {
        var going;
        going, stop, steps := Round(fuel - steps, steps);
        if !going {
          return;
        }
      }
      stop := OutOfFuel;
    }

    /**
     * One round of run_program, or the stop that ends the run: Undefined
     * before a fetch outside memory or a word outside defined C, Halted
     * after a word process_instruction returns 0 for.
     */
    method Round(ghost fuel: nat, done: nat) returns (going: bool, stop: Stop, steps: nat)
      requires Valid() && fuel >= 1
      modifies this, registers, memory
      ensures Valid()
      ensures going ==> steps == done + 1 && RunFrom(old(Snapshot()), fuel, done) == RunFrom(Snapshot(), fuel - 1, steps)
      ensures !going ==> RunFrom(old(Snapshot()), fuel, done) == Run(Snapshot(), stop, steps)
    {
      stop := Undefined;
      going := false;
      steps := done;
      if pc + WORD_SIZE > MEMORY_SIZE {
        return;
      }
      var instr := FetchInstruction();
      RunFromRound(Snapshot(), fuel, done);
      var ok := CheckDefined(instr);
      if !ok {
        return;
      }
      going := Cycle();
      stop := Halted;
      steps := done + 1;
    }
  }
}
