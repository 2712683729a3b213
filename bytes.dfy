/**
 * Machine-level values shared by the emulator and the cache simulator:
 * bytes, 32-bit unsigned words, powers of two, the big-endian byte order
 * in which words are laid out in memory, and the two's-complement view of
 * a word.
 */
module Bytes {

  /** 2^32: unsigned 32-bit arithmetic is arithmetic modulo this number. */
  const WORD_MODULUS: nat := 0x1_0000_0000

  /** An `unsigned char`. */
  type u8 = x: int | 0 <= x < 0x100

  /** An `unsigned int` on a 32-bit machine. */
  type u32 = x: int | 0 <= x < 0x1_0000_0000

  function Pow2(k: nat): (r: nat)
    ensures r >= 1
  {
    if k == 0 then 1 else 2 * Pow2(k - 1)
  }

  lemma {:induction false} Pow2Add(a: nat, b: nat)
    ensures Pow2(a + b) == Pow2(a) * Pow2(b)
  {
    if a > 0 {
      Pow2Add(a - 1, b);
      assert Pow2(a + b) == 2 * Pow2(a - 1 + b);
    }
  }

  lemma {:induction false} Pow2Monotone(a: nat, b: nat)
    requires a <= b
    ensures Pow2(a) <= Pow2(b)
  {
    if a < b {
      Pow2Monotone(a, b - 1);
    }
  }

  lemma Pow2Eight()
    ensures Pow2(8) == 0x100
  {
    assert Pow2(2) == 4;
    assert Pow2(4) == 16 by { Pow2Add(2, 2); }
    Pow2Add(4, 4);
  }

  lemma Pow2Sixteen()
    ensures Pow2(16) == 0x1_0000
  {
    Pow2Eight();
    Pow2Add(8, 8);
  }

  /** 2^32 is the word modulus. */
  lemma Pow2ThirtyTwo()
    ensures Pow2(32) == WORD_MODULUS
  {
    Pow2Sixteen();
    Pow2Add(16, 16);
  }

  /** A word divided by a positive number is still a word. */
  lemma DivWord(x: u32, d: nat)
    requires d >= 1
    ensures 0 <= x / d < WORD_MODULUS
  {
    assert x / d * d <= x;
    MulLeft(1, d, x / d);
  }

  /** A natural outside [s * w, s * w + w) does not have quotient s by w. */
  lemma DivOutside(i: nat, w: nat, s: nat)
    requires w >= 1 && !(s * w <= i < s * w + w)
    ensures i / w != s
  {
    assert i / w * w <= i < i / w * w + w;
  }

  /** Dividing by 2^a and then by 2^b is dividing by 2^(a+b). */
  lemma DivPow2Twice(x: nat, a: nat, b: nat)
    ensures x / Pow2(a) / Pow2(b) == x / Pow2(a + b)
  {
    Pow2Add(a, b);
    DivDiv(x, Pow2(a), Pow2(b));
  }

  lemma DivDiv(x: nat, m: nat, n: nat)
    requires m >= 1 && n >= 1
    ensures x / m / n == x / (m * n)
  {
    var q, r2, r1 := x / m / n, (x / m) % n, x % m;
    assert x / m == q * n + r2;
    assert x == (x / m) * m + r1;
    assert x == (q * n + r2) * m + r1;
    assert (q * n + r2) * m == q * (m * n) + r2 * m by {
      MulDistrib(q * n, r2, m);
      assert (q * n) * m == q * (m * n);
    }
    assert r2 * m + r1 < m * n by {
      MulLeft(r2, n - 1, m);
      assert (n - 1) * m == n * m - m;
    }
    assert 0 <= r2 * m;
    DivUnique(x, m * n, q, r2 * m + r1);
  }

  lemma MulDistrib(a: int, b: int, c: int)
    ensures (a + b) * c == a * c + b * c
  {
  }

  lemma MulLeft(a: int, b: int, c: nat)
    requires a <= b
    ensures a * c <= b * c
  {
  }

  /** Euclidean division is determined by its quotient and remainder. */
  lemma DivUnique(x: int, d: nat, q: int, r: int)
    requires d >= 1 && 0 <= r < d && x == q * d + r
    ensures x / d == q && x % d == r
  {
    var q', r' := x / d, x % d;
    assert q' * d + r' == q * d + r;
    if q' < q {
      MulLeft(q' + 1, q, d);
      MulDistrib(q', 1, d);
    } else if q' > q {
      MulLeft(q + 1, q', d);
      MulDistrib(q, 1, d);
    }
  }

  // ---------------------------------------------------------------------
  // Big-endian words: the most significant byte at the lowest address.
  // ---------------------------------------------------------------------

  /** The four bytes of `w`, most significant first. */
  function WordBytes(w: u32): (b: seq<u8>)
    ensures |b| == 4
  {
    [w / 0x100_0000, w / 0x1_0000 % 0x100, w / 0x100 % 0x100, w % 0x100]
  }

  /** The word whose big-endian bytes are s[i], s[i+1], s[i+2], s[i+3]. */
  function WordAt(s: seq<u8>, i: nat): u32
    requires i + 4 <= |s|
  {
    s[i] as int * 0x100_0000 + s[i + 1] as int * 0x1_0000 + s[i + 2] as int * 0x100 + s[i + 3] as int
  }

  /** The weight of byte k (0 = most significant) of a big-endian word. */
  function ByteWeight(k: nat): nat
    requires k < 4
  {
    if k == 0 then 0x100_0000 else if k == 1 then 0x1_0000 else if k == 2 then 0x100 else 1
  }

  /**
   * The first n bytes of the big-endian word at s[i..], each at its
   * weight: what a loop that adds one byte at a time has summed after n
   * rounds.
   */
  function WordPrefix(s: seq<u8>, i: nat, n: nat): (r: nat)
    requires n <= 4 && i + n <= |s|
    ensures n >= 1 ==> r + ByteWeight(n - 1) <= WORD_MODULUS
  {
    if n == 0 then 0 else WordPrefix(s, i, n - 1) + s[i + n - 1] * ByteWeight(n - 1)
  }

  /** All four bytes summed at their weights are the word. */
  lemma WordPrefixFull(s: seq<u8>, i: nat)
    requires i + 4 <= |s|
    ensures WordPrefix(s, i, 4) == WordAt(s, i)
  {
    assert WordPrefix(s, i, 1) == s[i] as int * 0x100_0000;
    assert WordPrefix(s, i, 2) == s[i] as int * 0x100_0000 + s[i + 1] as int * 0x1_0000;
  }

  lemma WordBytesThenWordAt(w: u32)
    ensures WordAt(WordBytes(w), 0) == w
  {
    var high := w / 0x1_0000;
    assert w == high * 0x1_0000 + w % 0x1_0000;
    assert w % 0x1_0000 == w / 0x100 % 0x100 * 0x100 + w % 0x100;
    assert high == w / 0x100_0000 * 0x100 + high % 0x100;
  }

  lemma WordAtThenWordBytes(s: seq<u8>, i: nat)
    requires i + 4 <= |s|
    ensures WordBytes(WordAt(s, i)) == s[i..i + 4]
  {
    var w, b0, b1, b2, b3 := WordAt(s, i), s[i] as int, s[i + 1] as int, s[i + 2] as int, s[i + 3] as int;
    DivUnique(w, 0x100_0000, b0, b1 * 0x1_0000 + b2 * 0x100 + b3);
    DivUnique(w, 0x1_0000, b0 * 0x100 + b1, b2 * 0x100 + b3);
    DivUnique(b0 * 0x100 + b1, 0x100, b0, b1);
    DivUnique(w, 0x100, b0 * 0x1_0000 + b1 * 0x100 + b2, b3);
    DivUnique(b0 * 0x1_0000 + b1 * 0x100 + b2, 0x100, b0 * 0x100 + b1, b2);
    assert WordBytes(w) == [b0, b1, b2, b3];
  }

  /** `s` with the four bytes from `i` on replaced by the big-endian bytes of `w`. */
  function PutWord(s: seq<u8>, i: nat, w: u32): (r: seq<u8>)
    requires i + 4 <= |s|
    ensures |r| == |s|
    ensures WordAt(r, i) == w
    ensures forall j :: 0 <= j < |s| && !(i <= j < i + 4) ==> r[j] == s[j]
  {
    s[..i] + WordBytes(w) + s[i + 4..]
  }

  // ---------------------------------------------------------------------
  // Two's complement.
  // ---------------------------------------------------------------------

  /** The value of `w` read as a two's-complement 32-bit integer. */
  function Signed(w: u32): (v: int)
    ensures -0x8000_0000 <= v < 0x8000_0000
    ensures v % WORD_MODULUS == w
  {
    if w < 0x8000_0000 then w else w - WORD_MODULUS
  }

  /** The value of a 16-bit field read as a two's-complement 16-bit integer. */
  function SignExtend16(imm: nat): (v: int)
    requires imm < 0x1_0000
    ensures -0x8000 <= v < 0x8000
    ensures v % 0x1_0000 == imm
  {
    if imm < 0x8000 then imm else imm - 0x1_0000
  }

  // ---------------------------------------------------------------------
  // Bitwise operators on words.
  // ---------------------------------------------------------------------

  function BitAnd(a: u32, b: u32): u32
  {
    ((a as bv32) & (b as bv32)) as int
  }

  function BitOr(a: u32, b: u32): u32
  {
    ((a as bv32) | (b as bv32)) as int
  }

  function BitNot(a: u32): u32
  {
    (!(a as bv32)) as int
  }
}
