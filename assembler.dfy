/**
 * The MIPS assembler of pa1.c: register names to numbers, the packing of
 * R- and I-format fields into a word, and the dispatch on the mnemonic.
 * Every function here is pure; the lemmas connect the packed words to the
 * decoder and the instruction table of the emulator in module Mips.
 */
module Assembler {
  import opened Bytes
  import Mips

  /** What Mips_num returns for a name it does not know. */
  const UNKNOWN_REGISTER: nat := 99

  /** The names Mips_num tests, in order: its k1 and k2 stand at 26 and 27. */
  const MIPS_NUM_NAMES: seq<string> := [
    "zero", "at", "v0", "v1", "a0", "a1", "a2", "a3",
    "t0", "t1", "t2", "t3", "t4", "t5", "t6", "t7",
    "s0", "s1", "s2", "s3", "s4", "s5", "s6", "s7",
    "t8", "t9", "k1", "k2", "gp", "sp", "fp", "ra"]

  /** The conventional names, with k0 and k1 at 26 and 27. */
  const REGISTER_NAMES: seq<string> := [
    "zero", "at", "v0", "v1", "a0", "a1", "a2", "a3",
    "t0", "t1", "t2", "t3", "t4", "t5", "t6", "t7",
    "s0", "s1", "s2", "s3", "s4", "s5", "s6", "s7",
    "t8", "t9", "k0", "k1", "gp", "sp", "fp", "ra"]

  /** The names the emulator prints registers under; register 0 is shortened to zr. */
  const EMULATOR_REGISTER_NAMES: seq<string> := [
    "zr", "at", "v0", "v1", "a0", "a1", "a2", "a3",
    "t0", "t1", "t2", "t3", "t4", "t5", "t6", "t7",
    "s0", "s1", "s2", "s3", "s4", "s5", "s6", "s7",
    "t8", "t9", "k0", "k1", "gp", "sp", "fp", "ra"]

  // ---------------------------------------------------------------------
  // Register names.
  // ---------------------------------------------------------------------

  /** The first k with names[k] == t, from `from` on, or |names| when there is none. */
  function IndexFrom(names: seq<string>, t: string, from: nat): (k: nat)
    requires from <= |names|
    ensures from <= k <= |names|
    ensures k < |names| ==> names[k] == t
    ensures forall j :: from <= j < k ==> names[j] != t
    decreases |names| - from
  {
    if from == |names| then |names|
    else if names[from] == t then from
    else IndexFrom(names, t, from + 1)
  }

  /** An if-chain of string comparisons: the position of the first name equal to t, else 99. */
  function Lookup(names: seq<string>, t: string): (r: nat)
    requires |names| <= UNKNOWN_REGISTER
    ensures r < |names| <==> t in names
    ensures r < |names| ==> names[r] == t
    ensures r >= |names| ==> r == UNKNOWN_REGISTER
  {
    var k := IndexFrom(names, t, 0);
    if k < |names| then k else UNKNOWN_REGISTER
  }

  /** Mips_num as written. */
  function MipsNum(t: string): (r: nat)
    ensures r < 32 <==> t in MIPS_NUM_NAMES
    ensures r < 32 ==> MIPS_NUM_NAMES[r] == t
    ensures r >= 32 ==> r == UNKNOWN_REGISTER
  {
    Lookup(MIPS_NUM_NAMES, t)
  }

  /** Mips_num with the conventional names k0 and k1 for registers 26 and 27. */
  function RegisterNumber(t: string): (r: nat)
    ensures r < 32 <==> t in REGISTER_NAMES
    ensures r < 32 ==> REGISTER_NAMES[r] == t
    ensures r >= 32 ==> r == UNKNOWN_REGISTER
  {
    Lookup(REGISTER_NAMES, t)
  }

  /** No name at a position in lo .. hi - 1 reappears later in the table. */
  predicate DistinctFrom(names: seq<string>, lo: nat, hi: nat)
  {
    forall i, j :: lo <= i < hi && i < j < |names| ==> names[i] != names[j]
  }

  // Distinct0 .. Distinct24 are one fact, RegisterNamesDistinct, cut into
  // ranges of names: each compares only the names of its range with the
  // names after them, so no single proof has to compare all 32 literals.

  lemma Distinct0()
    ensures DistinctFrom(REGISTER_NAMES, 0, 1)
  {
  }

  lemma Distinct1()
    ensures DistinctFrom(REGISTER_NAMES, 1, 4)
  {
  }

  lemma Distinct4()
    ensures DistinctFrom(REGISTER_NAMES, 4, 8)
  {
  }

  lemma Distinct8()
    ensures DistinctFrom(REGISTER_NAMES, 8, 12)
  {
  }

  lemma Distinct12()
    ensures DistinctFrom(REGISTER_NAMES, 12, 16)
  {
  }

  lemma Distinct16()
    ensures DistinctFrom(REGISTER_NAMES, 16, 24)
  {
  }

  lemma Distinct24()
    ensures DistinctFrom(REGISTER_NAMES, 24, 32)
  {
  }

  /** No two conventional names are equal. */
  lemma RegisterNamesDistinct()
    ensures DistinctFrom(REGISTER_NAMES, 0, 32)
  {
    Distinct0();
    Distinct1();
    Distinct4();
    Distinct8();
    Distinct12();
    Distinct16();
    Distinct24();
  }

  /** In a table without repeated names, the lookup of the k-th name is k. */
  lemma LookupDistinct(names: seq<string>, k: nat)
    requires |names| <= UNKNOWN_REGISTER && k < |names| && DistinctFrom(names, 0, |names|)
    ensures Lookup(names, names[k]) == k
  {
  }

  /** Each conventional name maps to its own number in 0..31; every other string maps to 99. */
  lemma RegisterNumberTable()
    ensures forall k :: 0 <= k < 32 ==> RegisterNumber(REGISTER_NAMES[k]) == k
    ensures forall t :: t !in REGISTER_NAMES ==> RegisterNumber(t) == UNKNOWN_REGISTER
  {
    RegisterNamesDistinct();
    forall k | 0 <= k < 32
      ensures RegisterNumber(REGISTER_NAMES[k]) == k
    {
      LookupDistinct(REGISTER_NAMES, k);
    }
  }

  /** Registers 1 to 31 carry the names the emulator prints them under. */
  lemma RegisterNamesMatchEmulator()
    ensures REGISTER_NAMES[1..] == EMULATOR_REGISTER_NAMES[1..]
  {
  }

  /** The corrected table numbers every register but 0 by the name the emulator prints for it. */
  lemma RegisterNumberMatchesEmulator()
    ensures forall k :: 1 <= k < 32 ==> RegisterNumber(EMULATOR_REGISTER_NAMES[k]) == k
  {
    RegisterNumberTable();
    RegisterNamesMatchEmulator();
    forall k | 1 <= k < 32
      ensures RegisterNumber(EMULATOR_REGISTER_NAMES[k]) == k
    {
      assert REGISTER_NAMES[k] == REGISTER_NAMES[1..][k - 1];
    }
  }

  /**
   * Mips_num as written cannot name the register the emulator prints as
   * k0, and the name the emulator prints for register 27 gives 26.
   */
  lemma MipsNumMisreadsKernelRegisters()
    ensures MipsNum(EMULATOR_REGISTER_NAMES[26]) == UNKNOWN_REGISTER
    ensures MipsNum(EMULATOR_REGISTER_NAMES[27]) == 26
  {
    assert EMULATOR_REGISTER_NAMES[26] == "k0" && EMULATOR_REGISTER_NAMES[27] == "k1";
    MipsNumLacksK0();
    MipsNumShiftsK1();
  }

  /**
   * Mips_num as written knows no "k0": the register the emulator prints
   * as k0 cannot be named, and the name yields 99.
   */
  lemma MipsNumLacksK0()
    ensures MipsNum("k0") == UNKNOWN_REGISTER
  {
    assert "k0" !in MIPS_NUM_NAMES;
  }

  /**
   * Mips_num as written gives "k1" the number of k0 and gives 27 to a
   * "k2" that no MIPS register is called.
   */
  lemma MipsNumShiftsK1()
    ensures MipsNum("k1") == 26 && MipsNum("k2") == 27
  {
    assert forall j :: 0 <= j < 26 ==> MIPS_NUM_NAMES[j] != "k1" && MIPS_NUM_NAMES[j] != "k2";
    assert MIPS_NUM_NAMES[26] == "k1" && MIPS_NUM_NAMES[27] == "k2";
  }

  // ---------------------------------------------------------------------
  // Numbers and packing.
  // ---------------------------------------------------------------------

  /**
   * A shift amount or immediate token: its decimal value, unless that is
   * 0, when it is read again in base 16. The library parsers are given.
   */
  function Number(t: string, atoi: string -> int, strtol16: string -> int): int
  {
    if atoi(t) == 0 then strtol16(t) else atoi(t)
  }

  /**
   * opcode * 2^26 + rs * 2^21 + rt * 2^16 + rd * 2^11 + shamt * 2^6 +
   * funct, with pow's doubles replaced by exact powers of two and the
   * long long -> int -> unsigned conversions by reduction modulo 2^32.
   */
  function PackR(opcode: int, rs: int, rt: int, rd: int, shamt: int, funct: int): u32
  {
    Mips.Wrap(opcode * 0x400_0000 + rs * 0x20_0000 + rt * 0x1_0000 + rd * 0x800 + shamt * 0x40 + funct)
  }

  /** opcode * 2^26 + rs * 2^21 + rt * 2^16 + imm, modulo 2^32. */
  function PackI(opcode: int, rs: int, rt: int, imm: int): u32
  {
    Mips.Wrap(opcode * 0x400_0000 + rs * 0x20_0000 + rt * 0x1_0000 + imm)
  }

  /** A negative immediate n is stored as 2^16 + n. */
  function Immediate16(n: int): int
  {
    if n < 0 then 0x1_0000 + n else n
  }

  predicate IsShift(mnemonic: string)
  {
    mnemonic == "sll" || mnemonic == "srl" || mnemonic == "sra"
  }

  /**
   * R_instruction: a shift takes rd, rt and the shift amount from tokens
   * 1-3 with rs = 0; anything else takes rd, rs and rt with shamt = 0.
   * Register names are looked up in `table`: MIPS_NUM_NAMES is Mips_num as
   * written, REGISTER_NAMES the corrected lookup.
   */
  function RInstruction(table: seq<string>, tokens: seq<string>, opcode: int, funct: int,
                        atoi: string -> int, strtol16: string -> int): u32
    requires |table| <= UNKNOWN_REGISTER && |tokens| >= 4
  {
    if IsShift(tokens[0]) then
      PackR(opcode, 0, Lookup(table, tokens[2]), Lookup(table, tokens[1]),
            Number(tokens[3], atoi, strtol16), funct)
    else
      PackR(opcode, Lookup(table, tokens[2]), Lookup(table, tokens[3]), Lookup(table, tokens[1]), 0, funct)
  }

  /** I_instruction: rt from token 1, rs from token 2, the immediate from token 3. */
  function IInstruction(table: seq<string>, tokens: seq<string>, opcode: int,
                        atoi: string -> int, strtol16: string -> int): u32
    requires |table| <= UNKNOWN_REGISTER && |tokens| >= 4
  {
    PackI(opcode, Lookup(table, tokens[2]), Lookup(table, tokens[1]),
          Immediate16(Number(tokens[3], atoi, strtol16)))
  }

  predicate IsIFormat(mnemonic: string)
  {
    mnemonic in ["addi", "andi", "ori", "lw", "sw", "beq", "bne"]
  }

  /** The funct translate gives an R-format mnemonic; anything unlisted is assembled as sra. */
  function RFunct(mnemonic: string): nat
  {
    if mnemonic == "add" then 0x20
    else if mnemonic == "sub" then 0x22
    else if mnemonic == "and" then 0x24
    else if mnemonic == "or" then 0x25
    else if mnemonic == "nor" then 0x27
    else if mnemonic == "sll" then 0x00
    else if mnemonic == "srl" then 0x02
    else if mnemonic == "slt" then 0x2a
    else 0x03
  }

  /** The opcode translate gives an I-format mnemonic. */
  function IOpcode(mnemonic: string): nat
  {
    if mnemonic == "addi" then 0x08
    else if mnemonic == "andi" then 0x0c
    else if mnemonic == "ori" then 0x0d
    else if mnemonic == "lw" then 0x23
    else if mnemonic == "sw" then 0x2b
    else if mnemonic == "beq" then 0x04
    else 0x05
  }

  /**
   * translate: the seven I-format mnemonics go to I_instruction, every
   * other token list to R_instruction. Every path reads tokens 0 to 3.
   */
  function Translate(table: seq<string>, tokens: seq<string>, atoi: string -> int, strtol16: string -> int): u32
    requires |table| <= UNKNOWN_REGISTER && |tokens| >= 4
  {
    if !IsIFormat(tokens[0]) then RInstruction(table, tokens, 0, RFunct(tokens[0]), atoi, strtol16)
    else IInstruction(table, tokens, IOpcode(tokens[0]), atoi, strtol16)
  }

  // ---------------------------------------------------------------------
  // The assembler and the emulator agree.
  // ---------------------------------------------------------------------

  /** When every field fits its width, the emulator's decoder recovers each field of an R word. */
  lemma {:induction false} PackRThenDecode(opcode: nat, rs: nat, rt: nat, rd: nat, shamt: nat, funct: nat)
    requires opcode < 0x40 && rs < 0x20 && rt < 0x20 && rd < 0x20 && shamt < 0x20 && funct < 0x40
    ensures var w := PackR(opcode, rs, rt, rd, shamt, funct);
      && Mips.Opcode(w) == opcode && Mips.Rs(w) == rs && Mips.Rt(w) == rt
      && Mips.Rd(w) == rd && Mips.Shamt(w) == shamt && Mips.Funct(w) == funct
  {
    var w5 := opcode;
    var w4 := w5 * 0x20 + rs;
    var w3 := w4 * 0x20 + rt;
    var w2 := w3 * 0x20 + rd;
    var w1 := w2 * 0x20 + shamt;
    var w := w1 * 0x40 + funct;
    assert w == opcode * 0x400_0000 + rs * 0x20_0000 + rt * 0x1_0000 + rd * 0x800 + shamt * 0x40 + funct;
    assert w < WORD_MODULUS;
    DivUnique(w, 0x40, w1, funct);
    DivUnique(w1, 0x20, w2, shamt);
    DivUnique(w2, 0x20, w3, rd);
    DivUnique(w3, 0x20, w4, rt);
    DivUnique(w4, 0x20, w5, rs);
    DivDiv(w, 0x40, 0x20);
    DivDiv(w, 0x800, 0x20);
    DivDiv(w, 0x1_0000, 0x20);
    DivDiv(w, 0x20_0000, 0x20);
  }

  /**
   * When the fields fit, the emulator's decoder recovers opcode, rs and rt
   * of an I word, and an immediate between -2^15 and 2^15 comes back
   * through sign extension.
   */
  lemma {:induction false} PackIThenDecode(opcode: nat, rs: nat, rt: nat, n: int)
    requires opcode < 0x40 && rs < 0x20 && rt < 0x20 && -0x8000 <= n < 0x1_0000
    ensures var w := PackI(opcode, rs, rt, Immediate16(n));
      && Mips.Opcode(w) == opcode && Mips.Rs(w) == rs && Mips.Rt(w) == rt
      && Mips.Imm(w) == Immediate16(n)
      && (n < 0x8000 ==> SignExtend16(Mips.Imm(w)) == n)
  {
    var imm := Immediate16(n);
    var w3 := opcode;
    var w2 := w3 * 0x20 + rs;
    var w1 := w2 * 0x20 + rt;
    var w := w1 * 0x1_0000 + imm;
    assert w == opcode * 0x400_0000 + rs * 0x20_0000 + rt * 0x1_0000 + imm;
    assert w < WORD_MODULUS;
    DivUnique(w, 0x1_0000, w1, imm);
    DivUnique(w1, 0x20, w2, rt);
    DivUnique(w2, 0x20, w3, rs);
    DivDiv(w, 0x1_0000, 0x20);
    DivDiv(w, 0x20_0000, 0x20);
  }

  /**
   * An R-format instruction whose register tokens are names of the table
   * and whose shift amount fits in 5 bits decodes, in the emulator, into
   * the numbers the table gives those names, the shift amount given, and
   * opcode 0 with the funct of its mnemonic.
   */
  lemma TranslateR(table: seq<string>, tokens: seq<string>, atoi: string -> int, strtol16: string -> int)
    requires |table| == 32 && |tokens| >= 4 && !IsIFormat(tokens[0])
    requires tokens[1] in table && tokens[2] in table
    requires IsShift(tokens[0]) ==> 0 <= Number(tokens[3], atoi, strtol16) < 0x20
    requires !IsShift(tokens[0]) ==> tokens[3] in table
    ensures var w := Translate(table, tokens, atoi, strtol16);
      && Mips.Opcode(w) == 0 && Mips.Funct(w) == RFunct(tokens[0])
      && Mips.Rd(w) == Lookup(table, tokens[1])
      && (IsShift(tokens[0]) ==>
            Mips.Rt(w) == Lookup(table, tokens[2]) && Mips.Rs(w) == 0
            && Mips.Shamt(w) == Number(tokens[3], atoi, strtol16))
      && (!IsShift(tokens[0]) ==>
            Mips.Rs(w) == Lookup(table, tokens[2]) && Mips.Rt(w) == Lookup(table, tokens[3])
            && Mips.Shamt(w) == 0)
  {
    if IsShift(tokens[0]) {
      PackRThenDecode(0, 0, Lookup(table, tokens[2]), Lookup(table, tokens[1]),
                      Number(tokens[3], atoi, strtol16), RFunct(tokens[0]));
    } else {
      PackRThenDecode(0, Lookup(table, tokens[2]), Lookup(table, tokens[3]), Lookup(table, tokens[1]),
                      0, RFunct(tokens[0]));
    }
  }

  /**
   * An I-format instruction whose register tokens are names of the table
   * and whose immediate lies in -2^15 .. 2^16 - 1 decodes into its opcode,
   * rt from token 1, rs from token 2, and the immediate in 16 bits.
   */
  lemma TranslateI(table: seq<string>, tokens: seq<string>, atoi: string -> int, strtol16: string -> int)
    requires |table| == 32 && |tokens| >= 4 && IsIFormat(tokens[0])
    requires tokens[1] in table && tokens[2] in table
    requires -0x8000 <= Number(tokens[3], atoi, strtol16) < 0x1_0000
    ensures var w, n := Translate(table, tokens, atoi, strtol16), Number(tokens[3], atoi, strtol16);
      && Mips.Opcode(w) == IOpcode(tokens[0])
      && Mips.Rt(w) == Lookup(table, tokens[1]) && Mips.Rs(w) == Lookup(table, tokens[2])
      && Mips.Imm(w) == Immediate16(n)
      && (n < 0x8000 ==> SignExtend16(Mips.Imm(w)) == n)
  {
    PackIThenDecode(IOpcode(tokens[0]), Lookup(table, tokens[2]), Lookup(table, tokens[1]),
                    Number(tokens[3], atoi, strtol16));
  }

  /**
   * Every word the assembler produces from names of its table and fitting
   * numbers is in the emulator's instruction table, so the emulator
   * executes it rather than stopping.
   */
  lemma AssembledIsListed(table: seq<string>, tokens: seq<string>, atoi: string -> int, strtol16: string -> int)
    requires |table| == 32 && |tokens| >= 4
    requires tokens[1] in table && tokens[2] in table
    requires !IsIFormat(tokens[0]) && IsShift(tokens[0]) ==> 0 <= Number(tokens[3], atoi, strtol16) < 0x20
    requires !IsIFormat(tokens[0]) && !IsShift(tokens[0]) ==> tokens[3] in table
    requires IsIFormat(tokens[0]) ==> -0x8000 <= Number(tokens[3], atoi, strtol16) < 0x1_0000
    ensures Mips.Listed(Translate(table, tokens, atoi, strtol16))
  {
    if IsIFormat(tokens[0]) {
      TranslateI(table, tokens, atoi, strtol16);
    } else {
      TranslateR(table, tokens, atoi, strtol16);
    }
  }

  /** "t0" and "t1" are registers 8 and 9 in both tables. */
  lemma TemporaryNumbers(table: seq<string>)
    requires table == MIPS_NUM_NAMES || table == REGISTER_NAMES
    ensures Lookup(table, "t0") == 8 && Lookup(table, "t1") == 9
  {
    assert forall j :: 0 <= j < 8 ==> table[j] != "t0" && table[j] != "t1";
    assert table[8] == "t0" && table[9] == "t1";
  }

  /** The corrected lookup gives k0 and k1 the numbers 26 and 27. */
  lemma KernelNumbers()
    ensures RegisterNumber("k0") == 26 && RegisterNumber("k1") == 27
  {
    assert forall j :: 0 <= j < 26 ==> REGISTER_NAMES[j] != "k0" && REGISTER_NAMES[j] != "k1";
    assert REGISTER_NAMES[26] == "k0" && REGISTER_NAMES[27] == "k1";
  }

  /** "add" is an R-format mnemonic, not a shift, with funct 0x20. */
  lemma AddMnemonic()
    ensures !IsIFormat("add") && !IsShift("add") && RFunct("add") == 0x20
  {
  }

  /**
   * "add k1 t0 t1" as pa1.c assembles it writes register 26, which the
   * emulator prints as k0; with the corrected lookup it writes register 27.
   */
  lemma AsWrittenAddK1(atoi: string -> int, strtol16: string -> int)
    ensures Mips.Rd(Translate(MIPS_NUM_NAMES, ["add", "k1", "t0", "t1"], atoi, strtol16)) == 26
    ensures Mips.Rd(Translate(REGISTER_NAMES, ["add", "k1", "t0", "t1"], atoi, strtol16)) == 27
  {
    var tokens := ["add", "k1", "t0", "t1"];
    assert tokens[0] == "add" && tokens[1] == "k1" && tokens[2] == "t0" && tokens[3] == "t1";
    AddMnemonic();
    TemporaryNumbers(MIPS_NUM_NAMES);
    TemporaryNumbers(REGISTER_NAMES);
    MipsNumShiftsK1();
    KernelNumbers();
    TranslateR(MIPS_NUM_NAMES, tokens, atoi, strtol16);
    TranslateR(REGISTER_NAMES, tokens, atoi, strtol16);
  }

  /**
   * "add k0 t0 t1" as pa1.c assembles it: Mips_num's 99 for "k0" spills
   * out of the 5-bit rd field into rt, so the emulator runs rd = 3 (v1)
   * and rt = 12 (t4) instead of rd = 26 and rt = 9.
   */
  lemma AsWrittenAddK0(atoi: string -> int, strtol16: string -> int)
    ensures var w := Translate(MIPS_NUM_NAMES, ["add", "k0", "t0", "t1"], atoi, strtol16);
      Mips.Rd(w) == 3 && Mips.Rs(w) == 8 && Mips.Rt(w) == 12 && Mips.Funct(w) == 0x20
    ensures var w := Translate(REGISTER_NAMES, ["add", "k0", "t0", "t1"], atoi, strtol16);
      Mips.Rd(w) == 26 && Mips.Rs(w) == 8 && Mips.Rt(w) == 9 && Mips.Funct(w) == 0x20
  {
    var tokens := ["add", "k0", "t0", "t1"];
    assert tokens[0] == "add" && tokens[1] == "k0" && tokens[2] == "t0" && tokens[3] == "t1";
    AddMnemonic();
    TemporaryNumbers(MIPS_NUM_NAMES);
    TemporaryNumbers(REGISTER_NAMES);
    MipsNumLacksK0();
    KernelNumbers();
    TranslateR(REGISTER_NAMES, tokens, atoi, strtol16);
    assert Translate(MIPS_NUM_NAMES, tokens, atoi, strtol16) == PackR(0, 8, 9, 99, 0, 0x20);
    assert PackR(0, 8, 9, 99, 0, 0x20) == PackR(0, 8, 12, 3, 0, 0x20);
    PackRThenDecode(0, 8, 12, 3, 0, 0x20);
  }
}
