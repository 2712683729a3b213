/**
 * The shape of pa3.c's simulated cache and the way it splits an address:
 * words per block, number of blocks, ways per set, and from these the
 * number of sets and the two shift widths computed by init_simulator.
 */
module CacheGeometry {
  import opened Bytes

  /** BYTES_PER_WORD: a 32-bit machine. */
  const BYTES_PER_WORD: nat := 4

  /** MAX_NR_WORDS_PER_BLOCK: the size of a block's data array, in words. */
  const MAX_NR_WORDS_PER_BLOCK: nat := 32

  /** The block's data array, in bytes (BYTES_PER_WORD * MAX_NR_WORDS_PER_BLOCK). */
  const BLOCK_CAPACITY: nat := 128

  /** The simulated main memory: 8 << 10 bytes. */
  const MEMORY_SIZE: nat := 8192

  /** CYCLES_HIT and CYCLES_MISS: the clock cycles charged for a hit and a miss. */
  const CYCLES_HIT: nat := 1
  const CYCLES_MISS: nat := 100

  /**
   * log2_discrete: halve until nothing is left, counting the halvings
   * after the first. It is 0 for both 0 and 1.
   */
  function Log2(n: nat): nat
  {
    if n < 2 then 0 else 1 + Log2(n / 2)
  }

  /** log2_discrete(n) is the integer part of log2(n), and log2_discrete(0) is 0. */
  lemma {:induction false} Log2Bounds(n: nat)
    ensures n == 0 ==> Log2(n) == 0
    ensures n >= 1 ==> Pow2(Log2(n)) <= n < Pow2(Log2(n) + 1)
  {
    if n >= 2 {
      Log2Bounds(n / 2);
    }
  }

  lemma {:induction false} Log2OfPow2(k: nat)
    ensures Log2(Pow2(k)) == k
  {
    if k > 0 {
      Log2OfPow2(k - 1);
      assert Pow2(k) / 2 == Pow2(k - 1);
    }
  }

  predicate IsPow2(n: nat)
  {
    n >= 1 && Pow2(Log2(n)) == n
  }

  /**
   * The three numbers read at start-up: nr_words_per_block, nr_blocks and
   * nr_ways.
   */
  datatype Geometry = Geometry(wordsPerBlock: nat, nrBlocks: nat, nrWays: nat)
  {
    /** nr_sets = nr_blocks / nr_ways. */
    function NrSets(): nat
      requires nrWays >= 1
    {
      nrBlocks / nrWays
    }

    /**
     * What the address split needs: a block of 1 to 32 words, a power of
     * two; at least one way, no more ways than blocks; a power-of-two
     * number of sets.
     */
    predicate Valid()
    {
      && 1 <= wordsPerBlock <= MAX_NR_WORDS_PER_BLOCK && IsPow2(wordsPerBlock)
      && 1 <= nrWays <= nrBlocks
      && IsPow2(NrSets())
    }

    /** The bytes in one block. */
    function BlockBytes(): nat
    {
      wordsPerBlock * BYTES_PER_WORD
    }

    /** index_bit = log2(nr_words_per_block) + log2(BYTES_PER_WORD): the block-offset width. */
    function IndexBit(): nat
    {
      Log2(wordsPerBlock) + Log2(BYTES_PER_WORD)
    }

    /** The tag width: the offset bits and then the set-index bits. */
    function TagBit(): nat
      requires nrWays >= 1
    {
      IndexBit() + Log2(NrSets())
    }

    /** tag_bit as init_simulator computes it: log2(nr_blocks) + log2(BYTES_PER_WORD). */
    function SourceTagBit(): nat
    {
      Log2(nrBlocks) + Log2(BYTES_PER_WORD)
    }

    /** The set that addr maps to: (addr >> index_bit) % nr_sets. */
    function SetOf(addr: nat): nat
      requires nrWays >= 1 && NrSets() >= 1
    {
      addr / Pow2(IndexBit()) % NrSets()
    }

    /** The tag of addr: addr >> tag_bit. */
    function TagOf(addr: nat): nat
      requires nrWays >= 1
    {
      addr / Pow2(TagBit())
    }

    /** addr with its block-offset bits cleared: (addr >> index_bit) << index_bit. */
    function BlockBase(addr: nat): nat
    {
      addr / Pow2(IndexBit()) * Pow2(IndexBit())
    }

    /** The first address of the block with this tag in this set. */
    function BlockAddress(tag: nat, setIdx: nat): nat
      requires nrWays >= 1
    {
      tag * Pow2(TagBit()) + setIdx * Pow2(IndexBit())
    }

    /** The first way of a set: ways setIdx * nr_ways up to (setIdx + 1) * nr_ways belong to it. */
    function FirstWay(setIdx: nat): nat
    {
      setIdx * nrWays
    }
  }

  lemma {:induction false} Log2Monotone(a: nat, b: nat)
    requires a <= b
    ensures Log2(a) <= Log2(b)
  {
    if a >= 2 {
      Log2Monotone(a / 2, b / 2);
    }
  }

  // Arithmetic on abstract divisors, instantiated below with powers of two.

  lemma MulCancel(a: nat, b: nat, d: nat)
    requires d >= 1 && a * d == b * d
    ensures a == b
  {
    if a < b {
      MulLeft(a + 1, b, d);
    } else if b < a {
      MulLeft(b + 1, a, d);
    }
  }

  lemma DivBelow(x: nat, d: nat, n: nat)
    requires d >= 1 && x < n * d
    ensures x / d * d <= x < x / d * d + d <= n * d
  {
    var b := x / d;
    if b >= n {
      MulLeft(n, b, d);
    }
    MulLeft(b + 1, n, d);
  }

  lemma Rebuild(x: nat, d1: nat, d2: nat)
    requires d1 >= 1 && d2 >= 1
    ensures x / d1 / d2 * (d2 * d1) + x / d1 % d2 * d1 == x / d1 * d1
  {
    var b := x / d1;
    var q, r := b / d2, b % d2;
    assert b == q * d2 + r;
    MulDistrib(q * d2, r, d1);
    assert q * d2 * d1 == q * (d2 * d1);
  }

  /** The offset width is exactly the block size: shifting by it drops the offset within a block. */
  lemma BlockBytesIsPow2(g: Geometry)
    requires g.Valid()
    ensures Pow2(g.IndexBit()) == g.BlockBytes()
    ensures g.BlockBytes() <= BLOCK_CAPACITY
    ensures g.IndexBit() <= 7
  {
    assert Log2(BYTES_PER_WORD) == 2 by {
      assert Log2(4) == 1 + Log2(2) == 2 + Log2(1);
    }
    Pow2Add(Log2(g.wordsPerBlock), 2);
    assert Pow2(2) == 4;
    Log2Monotone(g.wordsPerBlock, 32);
    assert Log2(32) == 5 by {
      assert Log2(32) == 1 + Log2(16) == 2 + Log2(8) == 3 + Log2(4) == 4 + Log2(2) == 5 + Log2(1);
    }
  }

  /** Every set lies inside the cache array: its ways are below nr_blocks. */
  lemma SetInCache(g: Geometry, setIdx: nat)
    requires g.Valid() && setIdx < g.NrSets()
    ensures g.FirstWay(setIdx) + g.nrWays <= g.nrBlocks
  {
    MulLeft(setIdx + 1, g.NrSets(), g.nrWays);
    assert g.NrSets() * g.nrWays <= g.nrBlocks;
  }

  /** The set index is below nr_sets. */
  lemma SetOfBound(g: Geometry, addr: nat)
    requires g.Valid()
    ensures g.SetOf(addr) < g.NrSets()
  {
  }

  /** A tag is addr shifted by the offset and then by the set-index bits. */
  lemma TagOfTwice(g: Geometry, addr: nat)
    requires g.Valid()
    ensures g.TagOf(addr) == addr / Pow2(g.IndexBit()) / g.NrSets()
    ensures Pow2(g.TagBit()) == g.NrSets() * Pow2(g.IndexBit())
  {
    var i, l := g.IndexBit(), Log2(g.NrSets());
    DivPow2Twice(addr, i, l);
    Pow2Add(l, i);
  }

  /**
   * Splitting an address into (tag, set) and rebuilding the block address
   * from them gives the address with its offset bits cleared.
   */
  lemma SplitRebuild(g: Geometry, addr: nat)
    requires g.Valid()
    ensures g.BlockAddress(g.TagOf(addr), g.SetOf(addr)) == g.BlockBase(addr)
  {
    TagOfTwice(g, addr);
    Rebuild(addr, Pow2(g.IndexBit()), g.NrSets());
  }

  /**
   * Two addresses have the same tag and set exactly when they lie in the
   * same block: a resident block is identified by its tag within its set.
   */
  lemma SameBlockIff(g: Geometry, a1: nat, a2: nat)
    requires g.Valid()
    ensures (g.TagOf(a1) == g.TagOf(a2) && g.SetOf(a1) == g.SetOf(a2)) <==> g.BlockBase(a1) == g.BlockBase(a2)
  {
    SplitRebuild(g, a1);
    SplitRebuild(g, a2);
    if g.BlockBase(a1) == g.BlockBase(a2) {
      var d := Pow2(g.IndexBit());
      MulCancel(a1 / d, a2 / d, d);
      TagOfTwice(g, a1);
      TagOfTwice(g, a2);
    }
  }

  /** An address inside memory lies in a block that is wholly inside memory. */
  lemma BlockInMemory(g: Geometry, addr: nat)
    requires g.Valid() && addr < MEMORY_SIZE
    ensures g.BlockBase(addr) <= addr < g.BlockBase(addr) + g.BlockBytes() <= MEMORY_SIZE
  {
    BlockBytesIsPow2(g);
    var i := g.IndexBit();
    Pow2Add(13 - i, i);
    assert Pow2(13) == MEMORY_SIZE by {
      assert Pow2(3) == 8;
      Pow2Add(3, 10);
      assert Pow2(10) == 1024 by {
        Pow2Add(5, 5);
        assert Pow2(5) == 32;
      }
    }
    DivBelow(addr, Pow2(i), Pow2(13 - i));
  }

  /** A rebuilt block address lies in memory when its tag came from an address in memory. */
  lemma RebuiltInMemory(g: Geometry, addr: nat)
    requires g.Valid() && addr < MEMORY_SIZE
    ensures g.BlockAddress(g.TagOf(addr), g.SetOf(addr)) + g.BlockBytes() <= MEMORY_SIZE
  {
    SplitRebuild(g, addr);
    BlockInMemory(g, addr);
  }

  // ---------------------------------------------------------------------
  // The tag width init_simulator computes.
  // ---------------------------------------------------------------------

  /** The source's tag of addr: addr >> (log2(nr_blocks) + 2). */
  function SourceTagOf(g: Geometry, addr: nat): nat
  {
    addr / Pow2(g.SourceTagBit())
  }

  /**
   * With one word per block and four ways in four blocks (one set), the
   * tag width init_simulator computes is four bits, two more than the
   * offset: addresses 0 and 4 then share their set and their tag although
   * they lie in different blocks, so a lookup by tag cannot tell them apart.
   */
  lemma SourceTagAliases()
    ensures var g := Geometry(1, 4, 4);
      && g.Valid()
      && g.SetOf(0) == g.SetOf(4) && SourceTagOf(g, 0) == SourceTagOf(g, 4)
      && g.BlockBase(0) != g.BlockBase(4)
  {
    var g := Geometry(1, 4, 4);
    assert Log2(4) == 2 by {
      assert Log2(4) == 1 + Log2(2) == 2 + Log2(1);
    }
    assert Log2(1) == 0;
    assert g.NrSets() == 1;
    assert g.IndexBit() == 2 && g.SourceTagBit() == 4;
    assert Pow2(2) == 4 && Pow2(4) == 16;
    assert Pow2(0) == 1;
  }

  /** The corrected width tells every two blocks apart, in every valid geometry. */
  lemma TagSeparatesBlocks(g: Geometry, a1: nat, a2: nat)
    requires g.Valid() && g.SetOf(a1) == g.SetOf(a2) && g.BlockBase(a1) != g.BlockBase(a2)
    ensures g.TagOf(a1) != g.TagOf(a2)
  {
    SameBlockIff(g, a1, a2);
  }

  /**
   * When each set has as many ways as a block has words, the source's
   * width and the corrected one agree.
   */
  lemma SourceTagBitAgrees(g: Geometry)
    requires g.Valid() && g.nrWays == g.wordsPerBlock && g.nrBlocks % g.nrWays == 0
    ensures g.SourceTagBit() == g.TagBit()
  {
    var n, m := g.NrSets(), g.nrWays;
    var w, s := Log2(m), Log2(n);
    assert g.nrBlocks == n * m;
    assert Pow2(s) == n && Pow2(w) == m;
    Pow2Add(s, w);
    Log2OfPow2(s + w);
    assert Log2(g.nrBlocks) == s + w;
  }
}
