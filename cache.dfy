/**
 * The behaviour of pa3.c's set-associative cache as values: the blocks,
 * how a set is searched, which way a miss replaces, what a write-back
 * puts into memory, and the cache and memory after a load or a store.
 * The simulator's methods are proved equal to these functions.
 */
module Cache {
  import opened Bytes
  import opened CacheGeometry

  datatype Option<T> = None | Some(value: T)

  /** CACHE_HIT and CACHE_MISS. */
  datatype Outcome = Hit | Miss

  /** struct cache_block: the data array always holds BLOCK_CAPACITY bytes. */
  datatype Block = Block(valid: bool, dirty: bool, tag: nat, timestamp: u32, data: seq<u8>)

  /** The block __init_cache installs: invalid, clean, tag 0, timestamp 0, every data byte 0. */
  function EmptyBlock(): Block
  {
    Block(false, false, 0, 0, seq(BLOCK_CAPACITY, _ => 0))
  }

  /** A block that holds the bytes tagged `tag`. */
  predicate Holds(b: Block, tag: nat)
  {
    b.valid && b.tag == tag
  }

  /** A block whose tag, read in set `s`, names a block that lies inside memory. */
  predicate InMemory(g: Geometry, tag: nat, s: nat)
    requires g.nrWays >= 1
  {
    g.BlockAddress(tag, s) + g.BlockBytes() <= MEMORY_SIZE
  }

  /** The set way `i` belongs to. */
  function SetOfWay(g: Geometry, i: nat): nat
    requires g.nrWays >= 1
  {
    i / g.nrWays
  }

  /** A valid geometry, one block per nr_blocks, and full-size data arrays. */
  ghost predicate Shaped(g: Geometry, c: seq<Block>)
  {
    && g.Valid()
    && |c| == g.nrBlocks
    && (forall i :: 0 <= i < |c| ==> |c[i].data| == BLOCK_CAPACITY)
  }

  /**
   * What holds of the cache array between two commands: one block per
   * nr_blocks, full-size data, invalid blocks are clean, a valid block's
   * tag names a block in memory, and no two valid ways of one set hold
   * the same tag.
   */
  ghost predicate WellFormed(g: Geometry, c: seq<Block>)
  {
    && Shaped(g, c)
    && (forall i :: 0 <= i < |c| && !c[i].valid ==> !c[i].dirty)
    && (forall i :: 0 <= i < |c| && c[i].valid ==> InMemory(g, c[i].tag, SetOfWay(g, i)))
    && (forall i, j :: 0 <= i < j < |c| && c[i].valid && c[j].valid && SetOfWay(g, i) == SetOfWay(g, j) ==> c[i].tag != c[j].tag)
  }

  /** Ways FirstWay(s) up to FirstWay(s) + nr_ways are exactly the ways of set s. */
  lemma WayInSet(g: Geometry, s: nat, w: nat)
    requires g.Valid() && g.FirstWay(s) <= w < g.FirstWay(s) + g.nrWays
    ensures SetOfWay(g, w) == s
  {
    DivUnique(w, g.nrWays, s, w - g.FirstWay(s));
  }

  /** No way of addr's set holds addr's block. */
  ghost predicate Absent(g: Geometry, c: seq<Block>, addr: nat)
    requires Shaped(g, c)
  {
    SetInCache(g, g.SetOf(addr));
    var lo := g.FirstWay(g.SetOf(addr));
    forall i :: lo <= i < lo + g.nrWays ==> !Holds(c[i], g.TagOf(addr))
  }

  /** Some way of addr's set is invalid. */
  ghost predicate HasFreeWay(g: Geometry, c: seq<Block>, addr: nat)
    requires Shaped(g, c)
  {
    SetInCache(g, g.SetOf(addr));
    var lo := g.FirstWay(g.SetOf(addr));
    exists i :: lo <= i < lo + g.nrWays && !c[i].valid
  }

  // ---------------------------------------------------------------------
  // Searching a set: ways k up to hi.
  // ---------------------------------------------------------------------

  /** The first way from k on, below hi, that holds `tag`. */
  function FindHit(c: seq<Block>, tag: nat, k: nat, hi: nat): (r: Option<nat>)
    requires k <= hi <= |c|
    ensures r.Some? ==> k <= r.value < hi && Holds(c[r.value], tag)
    ensures r.None? <==> forall j :: k <= j < hi ==> !Holds(c[j], tag)
    decreases hi - k
  {
    if k == hi then None
    else if Holds(c[k], tag) then Some(k)
    else FindHit(c, tag, k + 1, hi)
  }

  /** The first invalid way from k on, below hi. */
  function FirstInvalid(c: seq<Block>, k: nat, hi: nat): (r: Option<nat>)
    requires k <= hi <= |c|
    ensures r.Some? ==> k <= r.value < hi && !c[r.value].valid && forall j :: k <= j < r.value ==> c[j].valid
    ensures r.None? <==> forall j :: k <= j < hi ==> c[j].valid
    decreases hi - k
  {
    if k == hi then None
    else if !c[k].valid then Some(k)
    else FirstInvalid(c, k + 1, hi)
  }

  /**
   * The least recently used way among lo up to hi: the smallest
   * timestamp, and of several with that timestamp the lowest way.
   */
  function Lru(c: seq<Block>, lo: nat, hi: nat): (r: nat)
    requires lo < hi <= |c|
    ensures lo <= r < hi
    ensures forall j :: lo <= j < hi ==> c[r].timestamp <= c[j].timestamp
    ensures forall j :: lo <= j < r ==> c[r].timestamp < c[j].timestamp
    decreases hi - lo
  {
    if hi == lo + 1 then lo
    else
      var r := Lru(c, lo, hi - 1);
      if c[hi - 1].timestamp < c[r].timestamp then hi - 1 else r
  }

  /** The way a miss replaces: the first invalid way, or else the least recently used one. */
  function Victim(c: seq<Block>, lo: nat, hi: nat): (r: nat)
    requires lo < hi <= |c|
    ensures lo <= r < hi
    ensures (exists i :: lo <= i < hi && !c[i].valid) ==>
      !c[r].valid && forall j :: lo <= j < r ==> c[j].valid
    ensures (forall i :: lo <= i < hi ==> c[i].valid) ==>
      forall j :: lo <= j < hi ==> c[r].timestamp <= c[j].timestamp
  {
    match FirstInvalid(c, lo, hi)
    case Some(w) => w
    case None => Lru(c, lo, hi)
  }

  // ---------------------------------------------------------------------
  // Memory traffic.
  // ---------------------------------------------------------------------

  /** m with the bytes from b on replaced by `bytes`. */
  function Splice(m: seq<u8>, b: nat, bytes: seq<u8>): (r: seq<u8>)
    requires b + |bytes| <= |m|
    ensures |r| == |m|
    ensures forall i :: 0 <= i < |m| ==> r[i] == if b <= i < b + |bytes| then bytes[i - b] else m[i]
  {
    m[..b] + bytes + m[b + |bytes|..]
  }

  /**
   * Memory after way w of set s leaves the cache: a dirty block is written
   * back to the address rebuilt from its own tag and the set.
   */
  function WriteBack(g: Geometry, b: Block, s: nat, m: seq<u8>): (r: seq<u8>)
    requires g.Valid() && |m| == MEMORY_SIZE && |b.data| == BLOCK_CAPACITY
    requires b.valid ==> InMemory(g, b.tag, s)
    ensures |r| == |m|
    ensures !(b.valid && b.dirty) ==> r == m
    ensures b.valid && b.dirty ==>
      var base := g.BlockAddress(b.tag, s);
      && base + g.BlockBytes() <= |m|
      && forall i :: 0 <= i < |m| ==> r[i] == if base <= i < base + g.BlockBytes() then b.data[i - base] else m[i]
  {
    BlockBytesIsPow2(g);
    if b.valid && b.dirty then Splice(m, g.BlockAddress(b.tag, s), b.data[..g.BlockBytes()]) else m
  }

  /**
   * The block a miss installs: valid, clean, tagged, stamped with the
   * current cycle count, and holding the block of memory that contains
   * addr; the data bytes past the block size are left as they were.
   */
  function Fill(g: Geometry, b: Block, tag: nat, now: u32, m: seq<u8>, addr: nat): (r: Block)
    requires g.Valid() && |m| == MEMORY_SIZE && addr < MEMORY_SIZE && |b.data| == BLOCK_CAPACITY
    ensures |r.data| == BLOCK_CAPACITY
    ensures forall j :: 0 <= j < g.BlockBytes() && g.BlockBase(addr) + j < |m| ==> r.data[j] == m[g.BlockBase(addr) + j]
  {
    BlockInMemory(g, addr);
    BlockBytesIsPow2(g);
    var base := g.BlockBase(addr);
    Block(true, false, tag, now, m[base..base + g.BlockBytes()] + b.data[g.BlockBytes()..])
  }

  /** The byte offset, within its block, of the aligned word containing addr. */
  function WordOffset(g: Geometry, addr: nat): (r: nat)
    requires g.Valid()
    ensures r % BYTES_PER_WORD == 0 && r + BYTES_PER_WORD <= g.BlockBytes()
  {
    BlockBytesIsPow2(g);
    addr % g.BlockBytes() / BYTES_PER_WORD * BYTES_PER_WORD
  }

  // ---------------------------------------------------------------------
  // Loads and stores.
  // ---------------------------------------------------------------------

  /** The result of one access: hit or miss, the way now holding addr, the new cache and memory. */
  datatype Access = Access(outcome: Outcome, way: nat, cache: seq<Block>, memory: seq<u8>)

  /**
   * load_word: bring the block containing addr into the cache and report
   * hit or miss. On a hit, restamp the way that holds it; on a miss, write
   * the victim back if it is dirty and refill it from memory. store_word
   * performs the same access before it writes.
   */
  function Load(g: Geometry, c: seq<Block>, m: seq<u8>, now: u32, addr: nat): (r: Access)
    requires WellFormed(g, c) && |m| == MEMORY_SIZE && addr < MEMORY_SIZE
    ensures |r.cache| == |c| && |r.memory| == |m|
    ensures g.FirstWay(g.SetOf(addr)) <= r.way < g.FirstWay(g.SetOf(addr)) + g.nrWays <= |c|
    ensures Holds(r.cache[r.way], g.TagOf(addr)) && |r.cache[r.way].data| == BLOCK_CAPACITY
    ensures forall i :: 0 <= i < |c| && i != r.way ==> r.cache[i] == c[i]
  {
    var s := g.SetOf(addr);
    SetInCache(g, s);
    var lo := g.FirstWay(s);
    match FindHit(c, g.TagOf(addr), lo, lo + g.nrWays)
    case Some(w) =>
      Access(Hit, w, c[w := c[w].(timestamp := now)], m)
    case None =>
      var w := Victim(c, lo, lo + g.nrWays);
      WayInSet(g, s, w);
      var m' := WriteBack(g, c[w], s, m);
      Access(Miss, w, c[w := Fill(g, c[w], g.TagOf(addr), now, m', addr)], m')
  }

  /** A block after the word at offset `off` is overwritten with `value`. */
  function Written(b: Block, off: nat, value: u32): Block
    requires off + BYTES_PER_WORD <= |b.data|
  {
    b.(dirty := true, data := PutWord(b.data, off, value))
  }

  /**
   * store_word, write-back and write-allocate: bring the block containing
   * addr in as a load does, then overwrite the aligned word containing addr
   * in the cached copy, big-endian, and mark the block dirty.
   */
  function Store(g: Geometry, c: seq<Block>, m: seq<u8>, now: u32, addr: nat, value: u32): Access
    requires WellFormed(g, c) && |m| == MEMORY_SIZE && addr < MEMORY_SIZE
  {
    var a := Load(g, c, m, now, addr);
    LoadWellFormed(g, c, m, now, addr);
    a.(cache := a.cache[a.way := Written(a.cache[a.way], WordOffset(g, addr), value)])
  }

  // ---------------------------------------------------------------------
  // What an access does.
  // ---------------------------------------------------------------------

  /**
   * An access keeps the cache well formed and memory the same size, and
   * the way it reports lies in addr's set and holds addr's tag.
   */
  lemma LoadWellFormed(g: Geometry, c: seq<Block>, m: seq<u8>, now: u32, addr: nat)
    requires WellFormed(g, c) && |m| == MEMORY_SIZE && addr < MEMORY_SIZE
    ensures WellFormed(g, Load(g, c, m, now, addr).cache)
  {
    var a := Load(g, c, m, now, addr);
    var s, tag := g.SetOf(addr), g.TagOf(addr);
    SetInCache(g, s);
    var lo := g.FirstWay(s);
    WayInSet(g, s, a.way);
    if a.outcome == Miss {
      assert FindHit(c, tag, lo, lo + g.nrWays).None?;
      RebuiltInMemory(g, addr);
      forall i | 0 <= i < |c| && i != a.way && c[i].valid && SetOfWay(g, i) == s
        ensures c[i].tag != tag
      {
        if lo <= i < lo + g.nrWays {
          assert !Holds(c[i], tag);
        } else {
          WayOutsideSet(g, s, i);
        }
      }
    }
  }

  /** A way outside FirstWay(s) up to FirstWay(s) + nr_ways is not in set s. */
  lemma WayOutsideSet(g: Geometry, s: nat, i: nat)
    requires g.Valid() && !(g.FirstWay(s) <= i < g.FirstWay(s) + g.nrWays)
    ensures SetOfWay(g, i) != s
  {
    DivOutside(i, g.nrWays, s);
  }

  /** Two different tags in one set name two blocks that do not overlap. */
  lemma BlocksApart(g: Geometry, t1: nat, t2: nat, s: nat)
    requires g.Valid() && s < g.NrSets() && t1 < t2
    ensures g.BlockAddress(t1, s) + g.BlockBytes() <= g.BlockAddress(t2, s)
  {
    BlockBytesIsPow2(g);
    TagOfTwice(g, 0);
    SlotsApart(t1, t2, s, g.NrSets(), g.BlockBytes());
  }

  /** Slot s of row t1 ends before slot s of a later row t2, rows being n slots of width b. */
  lemma SlotsApart(t1: nat, t2: nat, s: nat, n: nat, b: nat)
    requires t1 < t2 && s < n
    ensures t1 * (n * b) + s * b + b <= t2 * (n * b) + s * b
  {
    MulLeft(s + 1, n, b);
    MulLeft(t1 + 1, t2, n * b);
    MulDistrib(s, 1, b);
    MulDistrib(t1, 1, n * b);
  }

  /** An address's block is the block its tag names in its set. */
  lemma BlockOfAddress(g: Geometry, addr: nat)
    requires g.Valid()
    ensures g.BlockAddress(g.TagOf(addr), g.SetOf(addr)) == g.BlockBase(addr)
  {
    SplitRebuild(g, addr);
  }

  /**
   * load_word on a hit: a hit happens exactly when a valid way of addr's
   * set holds addr's tag; that way is restamped with the current cycle
   * count and nothing else changes, in the cache or in memory.
   */
  lemma LoadHit(g: Geometry, c: seq<Block>, m: seq<u8>, now: u32, addr: nat)
    requires WellFormed(g, c) && |m| == MEMORY_SIZE && addr < MEMORY_SIZE
    ensures Load(g, c, m, now, addr).outcome == Hit <==>
      exists w :: g.FirstWay(g.SetOf(addr)) <= w < g.FirstWay(g.SetOf(addr)) + g.nrWays && Holds(c[w], g.TagOf(addr))
    ensures Load(g, c, m, now, addr).outcome == Hit ==>
      && Holds(c[Load(g, c, m, now, addr).way], g.TagOf(addr))
      && Load(g, c, m, now, addr).cache == c[Load(g, c, m, now, addr).way := c[Load(g, c, m, now, addr).way].(timestamp := now)]
      && Load(g, c, m, now, addr).memory == m
  {
    var s := g.SetOf(addr);
    SetInCache(g, s);
    var lo := g.FirstWay(s);
    if Load(g, c, m, now, addr).outcome != Hit {
      assert FindHit(c, g.TagOf(addr), lo, lo + g.nrWays).None?;
    }
  }

  /**
   * load_word on a miss: the way replaced is the lowest invalid way of the
   * set, or, when every way is valid, the least recently used one; a dirty
   * victim is written back to its own block, which is not addr's block,
   * and nothing else is written to memory; the way then holds addr's
   * block, valid, clean, tagged and stamped with the current cycle count.
   */
  lemma LoadMiss(g: Geometry, c: seq<Block>, m: seq<u8>, now: u32, addr: nat)
    requires WellFormed(g, c) && |m| == MEMORY_SIZE && addr < MEMORY_SIZE
    requires Load(g, c, m, now, addr).outcome == Miss
    ensures var lo, w := g.FirstWay(g.SetOf(addr)), Load(g, c, m, now, addr).way;
      (exists i :: lo <= i < lo + g.nrWays && !c[i].valid) ==>
        !c[w].valid && forall j :: lo <= j < w ==> c[j].valid
    ensures var lo, w := g.FirstWay(g.SetOf(addr)), Load(g, c, m, now, addr).way;
      (forall i :: lo <= i < lo + g.nrWays ==> c[i].valid) ==>
        && (forall j :: lo <= j < lo + g.nrWays ==> c[w].timestamp <= c[j].timestamp)
        && (forall j :: lo <= j < w ==> c[w].timestamp < c[j].timestamp)
    ensures var w := Load(g, c, m, now, addr).way;
      c[w].valid && c[w].dirty ==>
        && InMemory(g, c[w].tag, g.SetOf(addr))
        && g.BlockAddress(c[w].tag, g.SetOf(addr)) != g.BlockBase(addr)
        && Load(g, c, m, now, addr).memory == Splice(m, g.BlockAddress(c[w].tag, g.SetOf(addr)), c[w].data[..g.BlockBytes()])
    ensures var w := Load(g, c, m, now, addr).way;
      !(c[w].valid && c[w].dirty) ==> Load(g, c, m, now, addr).memory == m
    ensures var b := Load(g, c, m, now, addr).cache[Load(g, c, m, now, addr).way];
      && b.valid && !b.dirty && b.tag == g.TagOf(addr) && b.timestamp == now
      && g.BlockBase(addr) + g.BlockBytes() <= |m|
      && forall j :: 0 <= j < g.BlockBytes() ==> b.data[j] == m[g.BlockBase(addr) + j]
  {
    var s, tag := g.SetOf(addr), g.TagOf(addr);
    SetInCache(g, s);
    var lo := g.FirstWay(s);
    var a := Load(g, c, m, now, addr);
    var w := a.way;
    assert FindHit(c, tag, lo, lo + g.nrWays).None?;
    assert w == Victim(c, lo, lo + g.nrWays);
    WayInSet(g, s, w);
    BlockInMemory(g, addr);
    BlockBytesIsPow2(g);
    var base := g.BlockBase(addr);
    if c[w].valid && c[w].dirty {
      var vb := g.BlockAddress(c[w].tag, s);
      BlockOfAddress(g, addr);
      assert c[w].tag != tag;
      if c[w].tag < tag {
        BlocksApart(g, c[w].tag, tag, s);
      } else {
        BlocksApart(g, tag, c[w].tag, s);
      }
    }
  }

  /** Once load_word has brought addr's block in, loading addr again hits the same way. */
  lemma LoadThenLoadHits(g: Geometry, c: seq<Block>, m: seq<u8>, now: u32, later: u32, addr: nat)
    requires WellFormed(g, c) && |m| == MEMORY_SIZE && addr < MEMORY_SIZE
    ensures WellFormed(g, Load(g, c, m, now, addr).cache)
    ensures var a := Load(g, c, m, now, addr);
      && Load(g, a.cache, a.memory, later, addr).outcome == Hit
      && Load(g, a.cache, a.memory, later, addr).way == a.way
  {
    var a := Load(g, c, m, now, addr);
    LoadWellFormed(g, c, m, now, addr);
    HitIsUnique(g, a.cache, addr, a.way);
  }

  /** In a well-formed cache the way that holds addr's tag in addr's set is the one a lookup finds. */
  lemma HitIsUnique(g: Geometry, c: seq<Block>, addr: nat, w: nat)
    requires WellFormed(g, c)
    requires g.FirstWay(g.SetOf(addr)) <= w < g.FirstWay(g.SetOf(addr)) + g.nrWays <= |c|
    requires Holds(c[w], g.TagOf(addr))
    ensures FindHit(c, g.TagOf(addr), g.FirstWay(g.SetOf(addr)), g.FirstWay(g.SetOf(addr)) + g.nrWays) == Some(w)
  {
    var s, lo := g.SetOf(addr), g.FirstWay(g.SetOf(addr));
    var r := FindHit(c, g.TagOf(addr), lo, lo + g.nrWays);
    WayInSet(g, s, w);
    WayInSet(g, s, r.value);
  }

  /**
   * store_word: the same lookup, victim and write-back as a load; then the
   * way holding addr is valid and dirty, its word at addr's offset is the
   * stored value, big-endian, and its other bytes are those the lookup left.
   */
  lemma StoreEffect(g: Geometry, c: seq<Block>, m: seq<u8>, now: u32, addr: nat, value: u32)
    requires WellFormed(g, c) && |m| == MEMORY_SIZE && addr < MEMORY_SIZE
    ensures var a, st := Load(g, c, m, now, addr), Store(g, c, m, now, addr, value);
      && st.outcome == a.outcome && st.way == a.way && st.memory == a.memory
      && WellFormed(g, st.cache)
      && (forall i :: 0 <= i < |c| && i != st.way ==> st.cache[i] == a.cache[i])
      && Holds(st.cache[st.way], g.TagOf(addr)) && st.cache[st.way].dirty
      && st.cache[st.way].timestamp == now
      && WordAt(st.cache[st.way].data, WordOffset(g, addr)) == value
      && (forall j :: 0 <= j < BLOCK_CAPACITY && !(WordOffset(g, addr) <= j < WordOffset(g, addr) + BYTES_PER_WORD) ==>
            st.cache[st.way].data[j] == a.cache[a.way].data[j])
  {
    LoadWellFormed(g, c, m, now, addr);
    var a := Load(g, c, m, now, addr);
    if a.outcome == Hit {
      LoadHit(g, c, m, now, addr);
    } else {
      LoadMiss(g, c, m, now, addr);
    }
  }

  // ---------------------------------------------------------------------
  // Sequences of accesses.
  // ---------------------------------------------------------------------

  /** Every way of addr's set is invalid, as after __init_cache. */
  ghost predicate SetEmpty(g: Geometry, c: seq<Block>, addr: nat)
    requires Shaped(g, c)
  {
    SetInCache(g, g.SetOf(addr));
    var lo := g.FirstWay(g.SetOf(addr));
    forall i :: lo <= i < lo + g.nrWays ==> !c[i].valid
  }

  /** load_word issued after an earlier access, on the cache and memory that access left. */
  function LoadAfter(g: Geometry, prev: Access, now: u32, addr: nat): (r: Access)
    requires WellFormed(g, prev.cache) && |prev.memory| == MEMORY_SIZE && addr < MEMORY_SIZE
    ensures WellFormed(g, r.cache) && |r.memory| == MEMORY_SIZE
    ensures r == Load(g, prev.cache, prev.memory, now, addr)
  {
    LoadWellFormed(g, prev.cache, prev.memory, now, addr);
    Load(g, prev.cache, prev.memory, now, addr)
  }

  /**
   * One load into a two-way set: a way holding addr's tag is hit; otherwise
   * the miss takes the lower invalid way, or, with both valid, the way with
   * the older stamp, the lower one on a tie. Either way the way used then
   * holds addr's tag, stamped with the current cycle count.
   */
  lemma TwoWayLoad(g: Geometry, c: seq<Block>, m: seq<u8>, now: u32, addr: nat)
    requires WellFormed(g, c) && |m| == MEMORY_SIZE && addr < MEMORY_SIZE && g.nrWays == 2
    ensures g.FirstWay(g.SetOf(addr)) + 2 <= |c|
    ensures var lo, tag, l := g.FirstWay(g.SetOf(addr)), g.TagOf(addr), Load(g, c, m, now, addr);
      && (Holds(c[lo], tag) ==> l.outcome == Hit && l.way == lo)
      && (Holds(c[lo + 1], tag) ==> l.outcome == Hit && l.way == lo + 1)
      && (!Holds(c[lo], tag) && !Holds(c[lo + 1], tag) ==>
            && l.outcome == Miss
            && l.way == if !c[lo].valid then lo
                        else if !c[lo + 1].valid then lo + 1
                        else if c[lo + 1].timestamp < c[lo].timestamp then lo + 1
                        else lo)
      && Holds(l.cache[l.way], tag) && l.cache[l.way].timestamp == now
  {
    var s := g.SetOf(addr);
    SetInCache(g, s);
    var lo := g.FirstWay(s);
    LoadHit(g, c, m, now, addr);
    var l := Load(g, c, m, now, addr);
    if l.outcome == Hit {
      WayInSet(g, s, lo);
      WayInSet(g, s, lo + 1);
    } else {
      LoadMiss(g, c, m, now, addr);
    }
  }

  /**
   * Replacement over a sequence of loads: in a two-way set that starts
   * empty, loading blocks A, B, A and then a fourth block C misses, misses,
   * hits and misses, and C replaces B, the block used least recently, as
   * long as the cycle count has grown between the second and third load.
   */
  lemma LruAcrossLoads(g: Geometry, c: seq<Block>, m: seq<u8>, a: nat, b: nat, x: nat, t1: u32, t2: u32, t3: u32, t4: u32)
    requires WellFormed(g, c) && |m| == MEMORY_SIZE && a < MEMORY_SIZE && b < MEMORY_SIZE && x < MEMORY_SIZE
    requires g.nrWays == 2 && SetEmpty(g, c, a)
    requires g.SetOf(b) == g.SetOf(a) && g.SetOf(x) == g.SetOf(a)
    requires g.TagOf(a) != g.TagOf(b) && g.TagOf(x) != g.TagOf(a) && g.TagOf(x) != g.TagOf(b)
    requires t2 < t3
    ensures WellFormed(g, Load(g, c, m, t1, a).cache)
    ensures var l1 := Load(g, c, m, t1, a);
      var l2 := LoadAfter(g, l1, t2, b);
      var l3 := LoadAfter(g, l2, t3, a);
      var l4 := LoadAfter(g, l3, t4, x);
      && l1.outcome == Miss && l2.outcome == Miss && l3.outcome == Hit && l4.outcome == Miss
      && l3.way == l1.way && l4.way == l2.way != l1.way
  {
    LoadWellFormed(g, c, m, t1, a);
    var l1 := Load(g, c, m, t1, a);
    var l2 := LoadAfter(g, l1, t2, b);
    var l3 := LoadAfter(g, l2, t3, a);
    var l4 := LoadAfter(g, l3, t4, x);
    SetInCache(g, g.SetOf(a));
    var lo := g.FirstWay(g.SetOf(a));
    TwoWayLoad(g, c, m, t1, a);
    assert l1.way == lo && l1.cache[lo + 1] == c[lo + 1];
    TwoWayLoad(g, l1.cache, l1.memory, t2, b);
    assert l2.way == lo + 1 && l2.cache[lo] == l1.cache[lo];
    TwoWayLoad(g, l2.cache, l2.memory, t3, a);
    assert l3.way == lo && l3.cache[lo + 1] == l2.cache[lo + 1];
    TwoWayLoad(g, l3.cache, l3.memory, t4, x);
  }

  /**
   * Write-back across accesses: after a store of `value` at addr, a later
   * load of another block that replaces the way holding addr's block is a
   * miss and writes that block back, so memory then holds `value` at the
   * word containing addr.
   */
  lemma StoreThenEvictWritesBack(g: Geometry, c: seq<Block>, m: seq<u8>, now: u32, later: u32, addr: nat, value: u32, other: nat)
    requires WellFormed(g, c) && |m| == MEMORY_SIZE && addr < MEMORY_SIZE && other < MEMORY_SIZE
    requires g.BlockBase(other) != g.BlockBase(addr)
    ensures WellFormed(g, Store(g, c, m, now, addr, value).cache) && |Store(g, c, m, now, addr, value).memory| == MEMORY_SIZE
    ensures g.BlockBase(addr) + WordOffset(g, addr) + BYTES_PER_WORD <= MEMORY_SIZE
    ensures var st := Store(g, c, m, now, addr, value);
      var l := Load(g, st.cache, st.memory, later, other);
      l.way == st.way ==>
        l.outcome == Miss && WordAt(l.memory, g.BlockBase(addr) + WordOffset(g, addr)) == value
  {
    StoreEffect(g, c, m, now, addr, value);
    BlockInMemory(g, addr);
    var st := Store(g, c, m, now, addr, value);
    var l := Load(g, st.cache, st.memory, later, other);
    if l.way == st.way {
      var s := g.SetOf(addr);
      SetInCache(g, s);
      SetInCache(g, g.SetOf(other));
      WayInSet(g, s, st.way);
      WayInSet(g, g.SetOf(other), l.way);
      SameBlockIff(g, addr, other);
      LoadHit(g, st.cache, st.memory, later, other);
      assert l.outcome == Miss;
      LoadMiss(g, st.cache, st.memory, later, other);
      var b := st.cache[st.way];
      BlockOfAddress(g, addr);
      var base, off := g.BlockBase(addr), WordOffset(g, addr);
      assert g.BlockAddress(b.tag, g.SetOf(other)) == base;
    }
  }

  // ---------------------------------------------------------------------
  // load_word and store_word as pa3.c writes them.
  // ---------------------------------------------------------------------

  /**
   * load_word as written: scan addr's set for the first invalid way; if
   * there is one, mark it valid, tag it with the source's tag width, stamp
   * it and copy addr's block into it; report a miss in every case. A
   * valid way holding addr's block is never found, and a full set is left
   * as it is (the reported way is then the set's first way).
   */
  function LoadAsWritten(g: Geometry, c: seq<Block>, m: seq<u8>, now: u32, addr: nat): (r: Access)
    requires Shaped(g, c) && |m| == MEMORY_SIZE && addr < MEMORY_SIZE
    ensures |r.cache| == |c| && g.FirstWay(g.SetOf(addr)) <= r.way < g.FirstWay(g.SetOf(addr)) + g.nrWays <= |c|
    ensures Shaped(g, r.cache) && r.memory == m && r.outcome == Miss
    ensures forall i :: 0 <= i < |c| && i != r.way ==> r.cache[i] == c[i]
    ensures var lo := g.FirstWay(g.SetOf(addr));
      (forall i :: lo <= i < lo + g.nrWays ==> c[i].valid) ==> r.cache == c
    ensures var lo := g.FirstWay(g.SetOf(addr));
      (exists i :: lo <= i < lo + g.nrWays && !c[i].valid) ==>
        && !c[r.way].valid && (forall j :: lo <= j < r.way ==> c[j].valid)
        && Holds(r.cache[r.way], SourceTagOf(g, addr)) && r.cache[r.way].timestamp == now
        && r.cache[r.way].dirty == c[r.way].dirty
        && g.BlockBase(addr) + g.BlockBytes() <= |m|
        && forall j :: 0 <= j < g.BlockBytes() ==> r.cache[r.way].data[j] == m[g.BlockBase(addr) + j]
  {
    var s := g.SetOf(addr);
    SetInCache(g, s);
    var lo := g.FirstWay(s);
    match FirstInvalid(c, lo, lo + g.nrWays)
    case Some(w) =>
      BlockInMemory(g, addr);
      BlockBytesIsPow2(g);
      var base := g.BlockBase(addr);
      var filled := c[w].(valid := true, tag := SourceTagOf(g, addr), timestamp := now,
                          data := m[base..base + g.BlockBytes()] + c[w].data[g.BlockBytes()..]);
      Access(Miss, w, c[w := filled], m)
    case None =>
      Access(Miss, lo, c, m)
  }

  /**
   * On a cold set (no way holds addr, some way is invalid) the model does
   * what the source does: same way, same memory, same block, except that
   * the tag is taken with the corrected width.
   */
  lemma ColdFillMatchesSource(g: Geometry, c: seq<Block>, m: seq<u8>, now: u32, addr: nat)
    requires WellFormed(g, c) && |m| == MEMORY_SIZE && addr < MEMORY_SIZE
    requires Absent(g, c, addr) && HasFreeWay(g, c, addr)
    ensures var a, b := Load(g, c, m, now, addr), LoadAsWritten(g, c, m, now, addr);
      && a.outcome == b.outcome == Miss && a.way == b.way && a.memory == b.memory == m
      && a.cache == b.cache[b.way := b.cache[b.way].(tag := g.TagOf(addr))]
  {
    var s := g.SetOf(addr);
    SetInCache(g, s);
    var lo := g.FirstWay(s);
    assert FindHit(c, g.TagOf(addr), lo, lo + g.nrWays).None?;
    var w := FirstInvalid(c, lo, lo + g.nrWays).value;
    assert Victim(c, lo, lo + g.nrWays) == w;
    BlockInMemory(g, addr);
    BlockBytesIsPow2(g);
    var a, b := Load(g, c, m, now, addr), LoadAsWritten(g, c, m, now, addr);
    assert a.cache[w] == b.cache[w].(tag := g.TagOf(addr));
  }

  /**
   * The source's load_word never reports a hit: loading the same address
   * twice into a set with a free way misses both times, although after the
   * first load a valid way of the set holds addr's block under the tag the
   * source computes.
   */
  lemma AsWrittenRepeatMisses(g: Geometry, c: seq<Block>, m: seq<u8>, now: u32, later: u32, addr: nat)
    requires Shaped(g, c) && |m| == MEMORY_SIZE && addr < MEMORY_SIZE && HasFreeWay(g, c, addr)
    ensures var a := LoadAsWritten(g, c, m, now, addr);
      && Holds(a.cache[a.way], SourceTagOf(g, addr))
      && LoadAsWritten(g, a.cache, a.memory, later, addr).outcome == Miss
  {
    var s := g.SetOf(addr);
    SetInCache(g, s);
    var lo := g.FirstWay(s);
    assert FirstInvalid(c, lo, lo + g.nrWays).Some?;
  }

  /** store_word as written: a miss, and neither the cache nor memory changes. */
  function StoreAsWritten(g: Geometry, c: seq<Block>, m: seq<u8>, now: u32, addr: nat, value: u32): Access
    requires Shaped(g, c) && |m| == MEMORY_SIZE && addr < MEMORY_SIZE
  {
    SetInCache(g, g.SetOf(addr));
    Access(Miss, g.FirstWay(g.SetOf(addr)), c, m)
  }

  /**
   * store_word as written reports a miss and drops the value: storing any
   * two values leaves the same cache and memory, those it started from,
   * whereas Store leaves the value in the cached block (StoreEffect).
   */
  lemma StoreAsWrittenDropsValue(g: Geometry, c: seq<Block>, m: seq<u8>, now: u32, addr: nat, v1: u32, v2: u32)
    requires Shaped(g, c) && |m| == MEMORY_SIZE && addr < MEMORY_SIZE
    ensures var a := StoreAsWritten(g, c, m, now, addr, v1);
      && a.outcome == Miss && a.cache == c && a.memory == m
      && a == StoreAsWritten(g, c, m, now, addr, v2)
  {
  }
}
