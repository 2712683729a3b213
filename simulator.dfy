/**
 * pa3.c's cache simulator as an object: the cache array, the 8 KB main
 * memory and the counters, updated in place by load_word, store_word and
 * the per-command accounting of __simulate_cache. Every method is proved
 * to produce exactly the state the functions of module Cache describe.
 */
module CacheSimulator {
  import opened Bytes
  import opened CacheGeometry
  import opened Cache

  /** The bytes pa3.c places at the start of memory; the rest of memory is zero. */
  const MEMORY_SEED: seq<u8> := [
    0xde, 0xad, 0xbe, 0xef, 0xba, 0xda, 0xca, 0xfe,
    0x01, 0x23, 0x45, 0x67, 0x89, 0xab, 0xcd, 0xef,
    0x00, 0x11, 0x22, 0x33, 0x44, 0x55, 0x66, 0x77,
    0x88, 0x99, 0xaa, 0xbb, 0xcc, 0xdd, 0xee, 0xff,
    0x68, 0x65, 0x6c, 0x6c, 0x6f, 0x20, 0x77, 0x6f,
    0x72, 0x6c, 0x64, 0x21, 0x89, 0xab, 0xcd, 0xef,
    0x50, 0x52, 0x54, 0x56, 0x58, 0x5a, 0x5c, 0x5e,
    0x60, 0x62, 0x64, 0x66, 0x68, 0x6a, 0x6c, 0x6e,
    0x70, 0x72, 0x74, 0x76, 0x78, 0x7a, 0x7c, 0x7e,
    0x80, 0x82, 0x84, 0x86, 0x88, 0x8a, 0x8c, 0x8e
  ]

  /** Main memory at start-up. */
  function InitialMemory(): (m: seq<u8>)
    ensures |m| == MEMORY_SIZE && m[..|MEMORY_SEED|] == MEMORY_SEED
    ensures forall i :: |MEMORY_SEED| <= i < |m| ==> m[i] == 0
  {
    seq(MEMORY_SIZE, i => if 0 <= i < |MEMORY_SEED| then MEMORY_SEED[i] else 0)
  }

  /** `x + d` in an `unsigned int`. */
  function AddWrap(x: u32, d: nat): u32
  {
    (x + d) % WORD_MODULUS
  }

  /** The three counters of __simulate_cache. */
  datatype Counters = Counters(cycles: u32, hits: u32, misses: u32)

  /** cycles == hits * CYCLES_HIT + misses * CYCLES_MISS, in `unsigned int` arithmetic. */
  predicate Balanced(k: Counters)
  {
    k.cycles == (k.hits + CYCLES_MISS * k.misses) % WORD_MODULUS
  }

  /** The counters after an access: a hit costs CYCLES_HIT, a miss CYCLES_MISS. */
  function Charge(k: Counters, outcome: Outcome): Counters
  {
    if outcome == Hit then Counters(AddWrap(k.cycles, CYCLES_HIT), AddWrap(k.hits, 1), k.misses)
    else Counters(AddWrap(k.cycles, CYCLES_MISS), k.hits, AddWrap(k.misses, 1))
  }

  /**
   * Charging an access keeps cycles == hits + CYCLES_MISS * misses, all
   * three counted modulo 2^32.
   */
  lemma {:induction false} ChargeKeepsBalance(k: Counters, outcome: Outcome)
    requires Balanced(k)
    ensures Balanced(Charge(k, outcome))
  {
    var M := WORD_MODULUS;
    var t := k.hits + CYCLES_MISS * k.misses;
    if outcome == Hit {
      calc {
        (AddWrap(k.hits, 1) + CYCLES_MISS * k.misses) % M;
        ((k.hits + 1) % M + CYCLES_MISS * k.misses) % M;
        { ModAbsorb(k.hits + 1, CYCLES_MISS * k.misses, M); }
        (t + 1) % M;
        { ModAbsorb(t, 1, M); }
        (k.cycles + 1) % M;
      }
    } else {
      var n := k.misses + 1;
      calc {
        (k.hits + CYCLES_MISS * AddWrap(k.misses, 1)) % M;
        { ModScale(n, CYCLES_MISS, M); ModAbsorb(CYCLES_MISS * (n % M), k.hits, M); ModAbsorb(CYCLES_MISS * n, k.hits, M); }
        (k.hits + CYCLES_MISS * n) % M;
        (t + CYCLES_MISS) % M;
        { ModAbsorb(t, CYCLES_MISS, M); }
        (k.cycles + CYCLES_MISS) % M;
      }
    }
  }

  /** Reducing one summand first does not change the sum's remainder. */
  lemma ModAbsorb(a: int, b: int, M: nat)
    requires M >= 1
    ensures (a % M + b) % M == (a + b) % M
  {
    DivUnique(a + b, M, a / M + (a % M + b) / M, (a % M + b) % M);
  }

  /** Reducing a factor first does not change the product's remainder. */
  lemma ModScale(k: nat, c: nat, M: nat)
    requires M >= 1
    ensures (c * (k % M)) % M == (c * k) % M
  {
    var q := k / M;
    assert c * k == c * (k % M) + (c * q) * M by {
      assert k == q * M + k % M;
    }
    DivUnique(c * k, M, (c * (k % M)) / M + c * q, (c * (k % M)) % M);
  }

  /** A command of the simulator's prompt, once its tokens are read. */
  datatype Command =
    | Blank                        // an empty or comment-only line
    | Quit
    | Show
    | Dump(start: u32)
    | Cycles
    | Lw(addr: u32)
    | Sw(addr: u32, value: u32)
    | Usage                        // lw without an address, sw without exactly two operands
    | Help
    | Unknown

  /** An `intmax_t` stored into an `unsigned int`. */
  function ToUnsigned(n: int): u32
  {
    n % WORD_MODULUS
  }

  /**
   * The command __simulate_cache reads from the tokens of one line.
   * `number` stands for strtoimax(s, NULL, 0).
   */
  function Decode(argv: seq<string>, number: string -> int): (cmd: Command)
    ensures |argv| == 0 <==> cmd == Blank
    ensures cmd.Lw? ==> |argv| >= 2 && cmd.addr == ToUnsigned(number(argv[1]))
    ensures cmd.Sw? ==> |argv| == 3 && cmd.addr == ToUnsigned(number(argv[1])) && cmd.value == ToUnsigned(number(argv[2]))
    ensures cmd.Dump? ==> cmd.start % BYTES_PER_WORD == 0
    ensures |argv| >= 1 && argv[0] == "quit" ==> cmd == Quit
    ensures |argv| >= 1 && argv[0] == "show" ==> cmd == Show
    ensures |argv| >= 1 && argv[0] == "cycles" ==> cmd == Cycles
    ensures |argv| >= 1 && argv[0] == "help" ==> cmd == Help
    ensures |argv| >= 1 && argv[0] == "dump" ==>
      var requested := if |argv| == 1 then 0 else ToUnsigned(number(argv[1]));
      cmd.Dump? && cmd.start <= requested < cmd.start + BYTES_PER_WORD
    ensures |argv| >= 1 && argv[0] == "lw" ==>
      cmd == if |argv| == 1 then Usage else Lw(ToUnsigned(number(argv[1])))
    ensures |argv| >= 1 && argv[0] == "sw" ==>
      cmd == if |argv| != 3 then Usage else Sw(ToUnsigned(number(argv[1])), ToUnsigned(number(argv[2])))
    ensures cmd == Unknown <==>
      |argv| >= 1 && argv[0] !in {"quit", "show", "dump", "cycles", "lw", "sw", "help"}
  {
    if |argv| == 0 then Blank
    else if argv[0] == "quit" then Quit
    else if argv[0] == "show" then Show
    else if argv[0] == "dump" then
      Dump(if |argv| == 1 then 0 else ToUnsigned(number(argv[1])) / BYTES_PER_WORD * BYTES_PER_WORD)
    else if argv[0] == "cycles" then Cycles
    else if argv[0] == "lw" then
      if |argv| == 1 then Usage else Lw(ToUnsigned(number(argv[1])))
    else if argv[0] == "sw" then
      if |argv| != 3 then Usage else Sw(ToUnsigned(number(argv[1])), ToUnsigned(number(argv[2])))
    else if argv[0] == "help" then Help
    else Unknown
  }

  class Simulator {
    /** nr_words_per_block, nr_blocks and nr_ways, read at start-up. */
    const geo: Geometry
    const cache: array<Block>
    const memory: array<u8>
    /** Elapsed clock cycles. */
    var cycles: u32
    var hits: u32
    var misses: u32

    /** The cache is well formed, memory is 8 KB, and the cycle count agrees with the hit and miss counts. */
    ghost predicate Valid()
      reads this, cache, memory
    {
      && WellFormed(geo, cache[..])
      && memory.Length == MEMORY_SIZE
      && Balanced(Counters(cycles, hits, misses))
    }

    /** Start-up: memory seeded, cache allocated and reset by __init_cache, counters at zero. */
    constructor(g: Geometry)
      requires g.Valid()
      ensures Valid() && geo == g
      ensures memory[..] == InitialMemory()
      ensures cycles == 0 && hits == 0 && misses == 0
      ensures forall i :: 0 <= i < cache.Length ==> cache[i] == EmptyBlock()
      ensures fresh(cache) && fresh(memory)
    {
      geo := g;
      cache := new Block[g.nrBlocks];
      memory := new u8[MEMORY_SIZE](i => if 0 <= i < |MEMORY_SEED| then MEMORY_SEED[i] else 0);
      cycles, hits, misses := 0, 0, 0;
      new;
      InitCache();
      assert memory[..] == InitialMemory();
    }

    /**
     * __init_cache: every block becomes invalid and clean, with tag 0,
     * timestamp 0 and every data byte 0.
     */
    method InitCache()
      requires geo.Valid() && cache.Length == geo.nrBlocks
      modifies cache
      ensures forall i :: 0 <= i < cache.Length ==>
        && !cache[i].valid && !cache[i].dirty && cache[i].tag == 0 && cache[i].timestamp == 0
        && |cache[i].data| == BLOCK_CAPACITY && (forall j :: 0 <= j < BLOCK_CAPACITY ==> cache[i].data[j] == 0)
      ensures forall i :: 0 <= i < cache.Length ==> cache[i] == EmptyBlock()
      ensures WellFormed(geo, cache[..])
    {
      for i := 0 to cache.Length
        invariant forall k :: 0 <= k < i ==> cache[k] == EmptyBlock()
      {
        cache[i] := EmptyBlock();
      }
    }

    /** The search of load_word's loop: the first way of lo up to hi that holds `tag`. */
    method FindWay(tag: nat, lo: nat, hi: nat) returns (r: Option<nat>)
      requires lo <= hi <= cache.Length
      ensures r == FindHit(cache[..], tag, lo, hi)
    {
      var k := lo;
      while k < hi
        invariant lo <= k <= hi
        invariant FindHit(cache[..], tag, k, hi) == FindHit(cache[..], tag, lo, hi)
      {
        if cache[k].valid && cache[k].tag == tag {
          return Some(k);
        }
        k := k + 1;
      }
      return None;
    }

    /** The first invalid way of lo up to hi, as load_word's loop looks for it. */
    method FindInvalid(lo: nat, hi: nat) returns (r: Option<nat>)
      requires lo <= hi <= cache.Length
      ensures r == FirstInvalid(cache[..], lo, hi)
    {
      var k := lo;
      while k < hi
        invariant lo <= k <= hi
        invariant FirstInvalid(cache[..], k, hi) == FirstInvalid(cache[..], lo, hi)
      {
        if !cache[k].valid {
          return Some(k);
        }
        k := k + 1;
      }
      return None;
    }

    /** The least recently used way of lo up to hi: the first with the smallest timestamp. */
    method FindLru(lo: nat, hi: nat) returns (r: nat)
      requires lo < hi <= cache.Length
      ensures r == Lru(cache[..], lo, hi)
    {
      r := lo;
      for k := lo + 1 to hi
        invariant r == Lru(cache[..], lo, k)
      {
        if cache[k].timestamp < cache[r].timestamp {
          r := k;
        }
      }
    }

    /** The way a miss replaces. */
    method ChooseVictim(lo: nat, hi: nat) returns (w: nat)
      requires lo < hi <= cache.Length
      ensures w == Victim(cache[..], lo, hi)
    {
      var free := FindInvalid(lo, hi);
      if free.Some? {
        w := free.value;
      } else {
        w := FindLru(lo, hi);
      }
    }

    /** Write way w of set s back to memory, byte by byte, if it is valid and dirty. */
    method WriteBackWay(w: nat, s: nat)
      requires Valid() && w < cache.Length && SetOfWay(geo, w) == s
      modifies memory
      ensures memory[..] == WriteBack(geo, cache[w], s, old(memory[..]))
    {
      var b := cache[w];
      if b.valid && b.dirty {
        BlockBytesIsPow2(geo);
        var base := geo.BlockAddress(b.tag, s);
        for j := 0 to geo.BlockBytes()
          invariant forall i :: 0 <= i < memory.Length ==>
            memory[i] == if base <= i < base + j then b.data[i - base] else old(memory[i])
        {
          memory[base + j] := b.data[j];
        }
        assert memory[..] == Splice(old(memory[..]), base, b.data[..geo.BlockBytes()]);
      }
    }

    /**
     * Install addr's block in way w, as load_word does for a free way:
     * valid, tagged, stamped with the cycle count, data copied byte by byte
     * from the block-aligned address; the block is clean afterwards.
     */
    method FillWay(w: nat, tag: nat, addr: u32)
      requires Valid() && w < cache.Length && addr < MEMORY_SIZE
      modifies cache
      ensures cache[..] == old(cache[..])[w := Fill(geo, old(cache[w]), tag, cycles, memory[..], addr)]
    {
      BlockInMemory(geo, addr);
      BlockBytesIsPow2(geo);
      var base := geo.BlockBase(addr);
      var data := cache[w].data;
      ghost var old_data := data;
      for j := 0 to geo.BlockBytes()
        invariant |data| == BLOCK_CAPACITY
        invariant forall k :: 0 <= k < j ==> data[k] == memory[base + k]
        invariant forall k :: j <= k < BLOCK_CAPACITY ==> data[k] == old_data[k]
      {
        data := data[j := memory[base + j]];
      }
      assert data == memory[base..base + geo.BlockBytes()] + old_data[geo.BlockBytes()..];
      cache[w] := cache[w].(valid := true, dirty := false, tag := tag, timestamp := cycles, data := data);
    }

    /** The miss path: choose the victim of set s, write it back if dirty, refill it with addr's block. */
    method Refill(addr: u32, s: nat, lo: nat) returns (way: nat)
      requires Valid() && addr < MEMORY_SIZE && s == geo.SetOf(addr) && lo == geo.FirstWay(s)
      requires lo + geo.nrWays <= cache.Length
      modifies cache, memory
      ensures way == Victim(old(cache[..]), lo, lo + geo.nrWays) && SetOfWay(geo, way) == s
      ensures memory[..] == WriteBack(geo, old(cache[way]), s, old(memory[..]))
      ensures cache[..] == old(cache[..])[way := Fill(geo, old(cache[way]), geo.TagOf(addr), cycles, memory[..], addr)]
    {
      way := ChooseVictim(lo, lo + geo.nrWays);
      WayInSet(geo, s, way);
      WriteBackWay(way, s);
      FillWay(way, geo.TagOf(addr), addr);
    }

    /**
     * The lookup shared by load_word and store_word: restamp the way that
     * holds addr, or evict the victim and refill it.
     */
    method BringIn(addr: u32) returns (outcome: Outcome, way: nat)
      requires Valid() && addr < MEMORY_SIZE
      modifies cache, memory
      ensures outcome == Load(geo, old(cache[..]), old(memory[..]), cycles, addr).outcome
      ensures way == Load(geo, old(cache[..]), old(memory[..]), cycles, addr).way
      ensures cache[..] == Load(geo, old(cache[..]), old(memory[..]), cycles, addr).cache
      ensures memory[..] == Load(geo, old(cache[..]), old(memory[..]), cycles, addr).memory
      ensures Valid()
    {
      LoadWellFormed(geo, cache[..], memory[..], cycles, addr);
      var s := geo.SetOf(addr);
      SetInCache(geo, s);
      var lo := geo.FirstWay(s);
      var hit := FindWay(geo.TagOf(addr), lo, lo + geo.nrWays);
      if hit.Some? {
        way := hit.value;
        cache[way] := cache[way].(timestamp := cycles);
        outcome := Hit;
      } else {
        way := Refill(addr, s, lo);
        outcome := Miss;
      }
    }

    /**
     * load_word: CACHE_HIT when addr's block is in the cache, CACHE_MISS
     * otherwise; the cache and memory become those Load describes.
     */
    method LoadWord(addr: u32) returns (outcome: Outcome)
      requires Valid() && addr < MEMORY_SIZE
      modifies cache, memory
      ensures outcome == Load(geo, old(cache[..]), old(memory[..]), cycles, addr).outcome
      ensures cache[..] == Load(geo, old(cache[..]), old(memory[..]), cycles, addr).cache
      ensures memory[..] == Load(geo, old(cache[..]), old(memory[..]), cycles, addr).memory
      ensures Valid()
    {
      var way;
      outcome, way := BringIn(addr);
    }

    /**
     * store_word: bring addr's block in, then write `value` big-endian into
     * the aligned word of the cached block and mark the block dirty.
     */
    method StoreWord(addr: u32, value: u32) returns (outcome: Outcome)
      requires Valid() && addr < MEMORY_SIZE
      modifies cache, memory
      ensures outcome == Store(geo, old(cache[..]), old(memory[..]), cycles, addr, value).outcome
      ensures cache[..] == Store(geo, old(cache[..]), old(memory[..]), cycles, addr, value).cache
      ensures memory[..] == Store(geo, old(cache[..]), old(memory[..]), cycles, addr, value).memory
      ensures Valid()
    {
      StoreEffect(geo, cache[..], memory[..], cycles, addr, value);
      var way;
      outcome, way := BringIn(addr);
      cache[way] := Written(cache[way], WordOffset(geo, addr), value);
    }

    /**
     * One command of __simulate_cache. lw and sw are charged CYCLES_HIT
     * and a hit, or CYCLES_MISS and a miss; every other command leaves the
     * cache, memory and the counters as they were.
     */
    method Step(cmd: Command)
      requires Valid() && !cmd.Help?
      requires cmd.Lw? ==> cmd.addr < MEMORY_SIZE
      requires cmd.Sw? ==> cmd.addr < MEMORY_SIZE
      modifies this, cache, memory
      ensures Valid()
      ensures cmd.Lw? ==>
        && cache[..] == Load(geo, old(cache[..]), old(memory[..]), old(cycles), cmd.addr).cache
        && memory[..] == Load(geo, old(cache[..]), old(memory[..]), old(cycles), cmd.addr).memory
        && Counters(cycles, hits, misses) ==
           Charge(old(Counters(cycles, hits, misses)), Load(geo, old(cache[..]), old(memory[..]), old(cycles), cmd.addr).outcome)
      ensures cmd.Sw? ==>
        && cache[..] == Store(geo, old(cache[..]), old(memory[..]), old(cycles), cmd.addr, cmd.value).cache
        && memory[..] == Store(geo, old(cache[..]), old(memory[..]), old(cycles), cmd.addr, cmd.value).memory
        && Counters(cycles, hits, misses) ==
           Charge(old(Counters(cycles, hits, misses)), Store(geo, old(cache[..]), old(memory[..]), old(cycles), cmd.addr, cmd.value).outcome)
      ensures !(cmd.Lw? || cmd.Sw?) ==>
        cache[..] == old(cache[..]) && memory[..] == old(memory[..]) && Counters(cycles, hits, misses) == old(Counters(cycles, hits, misses))
    {
      var outcome;
      if cmd.Lw? {
        outcome := LoadWord(cmd.addr);
      } else if cmd.Sw? {
        outcome := StoreWord(cmd.addr, cmd.value);
      } else {
        return;
      }
      Account(outcome);
    }

    /** The accounting after lw and sw: one more hit or miss, and its cycles. */
    method Account(outcome: Outcome)
      requires Balanced(Counters(cycles, hits, misses))
      modifies this
      ensures Counters(cycles, hits, misses) == Charge(old(Counters(cycles, hits, misses)), outcome)
      ensures Balanced(Counters(cycles, hits, misses))
    {
      ChargeKeepsBalance(Counters(cycles, hits, misses), outcome);
      if outcome == Hit {
        hits := AddWrap(hits, 1);
        cycles := AddWrap(cycles, CYCLES_HIT);
      } else {
        misses := AddWrap(misses, 1);
        cycles := AddWrap(cycles, CYCLES_MISS);
      }
    }
  }
}
