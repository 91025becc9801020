/**
 * Fixed-width unsigned machine words and the C++ operators the source applies
 * to them. Integers are unbounded in Dafny, so every wrap-around, shift,
 * complement and bitwise operation of the 64-bit `uintmax_t` is written out.
 */
module Words {

  const TWO_8: int := 0x100
  const TWO_32: int := 0x1_0000_0000
  const TWO_64: int := 0x1_0000_0000_0000_0000
  const TWO_128: int := 0x1_0000_0000_0000_0000_0000_0000_0000_0000
  /** `UINTMAX_MAX` on the supported architectures (x86, x86-64, IA-64). */
  const UINTMAX_MAX: int := TWO_64 - 1

  type u8 = x: int | 0 <= x < 0x100
  type u32 = x: int | 0 <= x < 0x1_0000_0000
  type u64 = x: int | 0 <= x < 0x1_0000_0000_0000_0000
  /** `intmax_t`: 64-bit two's complement. */
  type i64 = x: int | -0x8000_0000_0000_0000 <= x < 0x8000_0000_0000_0000

  function Pow2(k: nat): (r: nat)
    ensures r >= 1
  {
    if k == 0 then 1 else 2 * Pow2(k - 1)
  }

  lemma {:induction false} Pow2Add(a: nat, b: nat)
    ensures Pow2(a + b) == Pow2(a) * Pow2(b)
  {
    if a > 0 {
      Pow2Add(a - 1, b);
    }
  }

  lemma Pow2Values()
    ensures Pow2(1) == 2 && Pow2(3) == 8 && Pow2(4) == 16
    ensures Pow2(32) == TWO_32
  {
    assert Pow2(4) == 16;
    Pow2Add(4, 4);
    Pow2Add(8, 8);
    Pow2Add(16, 16);
  }

  /** Unsigned C++ arithmetic: the result is reduced modulo 2^64. */
  function Wrap(x: int): u64
  {
    x % TWO_64
  }

  /** A value that fits a word is not changed by wrapping. */
  lemma WrapId(x: int)
    requires 0 <= x < TWO_64
    ensures Wrap(x) == x
  {
    ModOfDecomp(x, TWO_64, 0, x);
  }

  /** The shift distances the core applies to words: 1, 3 and 4 bits per digit, and half a word. */
  predicate ShiftDistance(k: nat)
  {
    k == 1 || k == 3 || k == 4 || k == 32
  }

  /** 2^k for a shift distance, as a table (see `ScaleIsPow2`). */
  function Scale(k: nat): nat
    requires ShiftDistance(k)
  {
    if k == 1 then 2 else if k == 3 then 8 else if k == 4 then 16 else TWO_32
  }

  lemma ScaleIsPow2(k: nat)
    requires ShiftDistance(k)
    ensures Scale(k) == Pow2(k)
  {
    Pow2Values();
  }

  /** `x << k` on a 64-bit word: bits shifted past bit 63 are lost. */
  function Shl(x: u64, k: nat): u64
    requires ShiftDistance(k)
  {
    Wrap(x * Scale(k))
  }

  /** `x >> k` on a 64-bit word. */
  function Shr(x: u64, k: nat): u64
    requires ShiftDistance(k)
  {
    x / Scale(k)
  }

  /** `~x` on a 64-bit word. */
  function Not(x: u64): u64
  {
    UINTMAX_MAX - x
  }

  /** `static_cast<uint32_t>(x)` and `x & half_mask`: the low 32 bits. */
  function Low32(x: u64): u32
  {
    x % TWO_32
  }

  /** Bitwise `|` on non-negative integers, bit by bit from the least significant one. */
  function BitOr(a: nat, b: nat): nat
    decreases a + b
  {
    if a == 0 then b
    else if b == 0 then a
    else 2 * BitOr(a / 2, b / 2) + (if a % 2 == 1 || b % 2 == 1 then 1 else 0)
  }

  /** Bitwise `&` on non-negative integers. */
  function BitAnd(a: nat, b: nat): nat
    decreases a + b
  {
    if a == 0 || b == 0 then 0
    else 2 * BitAnd(a / 2, b / 2) + (if a % 2 == 1 && b % 2 == 1 then 1 else 0)
  }

  /** OR-ing a value into bits that a shift has cleared is addition. */
  lemma {:induction false} BitOrDisjoint(hi: nat, lo: nat, k: nat)
    requires lo < Pow2(k)
    ensures BitOr(hi * Pow2(k), lo) == hi * Pow2(k) + lo
  {
    if k == 0 {
      assert lo == 0;
    } else if hi * Pow2(k) != 0 && lo != 0 {
      var a := hi * Pow2(k);
      assert a == (hi * Pow2(k - 1)) * 2;
      assert a / 2 == hi * Pow2(k - 1) && a % 2 == 0;
      BitOrDisjoint(hi, lo / 2, k - 1);
    }
  }

  /** AND with a mask of k one-bits keeps the low k bits. */
  lemma {:induction false} BitAndMask(x: nat, k: nat)
    ensures BitAnd(x, Pow2(k) - 1) == x % Pow2(k)
  {
    if k == 0 {
      assert Pow2(k) - 1 == 0 && x % Pow2(k) == 0;
    } else if x == 0 {
      assert x % Pow2(k) == 0;
    } else {
      BitAndMask(x / 2, k - 1);
      MaskBit(x, k);
    }
  }

  /** One step of `BitAndMask`: from the mask of k - 1 bits on x / 2 to the mask of k bits on x. */
  lemma MaskBit(x: nat, k: nat)
    requires k > 0 && x != 0 && BitAnd(x / 2, Pow2(k - 1) - 1) == (x / 2) % Pow2(k - 1)
    ensures BitAnd(x, Pow2(k) - 1) == x % Pow2(k)
  {
    var h := Pow2(k - 1);
    assert Pow2(k) == 2 * h;
    MaskStep(x, h);
    DivModSplit(x, h);
    MaskCombine(BitAnd(x, 2 * h - 1), BitAnd(x / 2, h - 1), (x / 2) % h, x % (2 * h), x % 2);
  }

  /** The last step of `BitAndMask`, with its terms named. */
  lemma MaskCombine(masked: int, halfMasked: int, halfMod: int, modulus: int, low: int)
    requires masked == 2 * halfMasked + low && halfMasked == halfMod && modulus == 2 * halfMod + low
    ensures masked == modulus
  {
  }

  /** One bit of `x & (2h - 1)`: the lowest bit of x is kept, the rest is masked by h - 1. */
  lemma MaskStep(x: nat, h: nat)
    requires h >= 1 && x != 0
    ensures BitAnd(x, 2 * h - 1) == 2 * BitAnd(x / 2, h - 1) + x % 2
  {
    var m := 2 * h - 1;
    assert m / 2 == h - 1 && m % 2 == 1;
  }

  lemma {:induction false} BitOrCommutes(a: nat, b: nat)
    ensures BitOr(a, b) == BitOr(b, a)
    decreases a + b
  {
    if a != 0 && b != 0 {
      BitOrCommutes(a / 2, b / 2);
    }
  }

  /** A word is its high half times 2^32 plus its low half. */
  lemma SplitWord(x: u64)
    ensures Shr(x, 32) == x / TWO_32 && Shr(x, 32) < TWO_32
    ensures x == Shr(x, 32) * TWO_32 + Low32(x)
  {
  }

  /** `x << 32` keeps the low half of x, moved to the high half. */
  lemma ShlHalf(x: u64)
    ensures Shl(x, 32) == Low32(x) * TWO_32
  {
    var q := x / TWO_32;
    assert x == q * TWO_32 + Low32(x);
    assert x * TWO_32 == q * TWO_64 + Low32(x) * TWO_32;
    ModOfDecomp(x * TWO_32, TWO_64, q, Low32(x) * TWO_32);
  }

  /** `x & half_mask`, where `half_mask` is `UINTMAX_MAX >> 32`, keeps the low half: `Low32` models both. */
  lemma MaskIsLow32(x: u64)
    ensures BitAnd(x, Shr(UINTMAX_MAX, 32)) == Low32(x)
  {
    Pow2Values();
    BitAndMask(x, 32);
  }

  /** `lo | (hi << 32)` with lo < 2^32: the halves are disjoint, so the OR is a sum. */
  lemma JoinHalves(lo: nat, hi: u64)
    requires lo < TWO_32
    ensures BitOr(lo, Shl(hi, 32)) == lo + Low32(hi) * TWO_32 < TWO_64
  {
    ScaleIsPow2(32);
    ShlHalf(hi);
    BitOrCommutes(lo, Shl(hi, 32));
    BitOrDisjoint(Low32(hi), lo, 32);
  }

  /** x mod 2p, split at the lowest bit. */
  lemma DivModSplit(x: nat, p: nat)
    requires p >= 1
    ensures x % (2 * p) == 2 * ((x / 2) % p) + x % 2
  {
    var q := (x / 2) / p;
    var r := (x / 2) % p;
    assert x / 2 == q * p + r;
    assert x == q * (2 * p) + (2 * r + x % 2);
    ModOfDecomp(x, 2 * p, q, 2 * r + x % 2);
  }

  lemma {:induction false} MulGe(t: int, d: int)
    requires t >= 1 && d > 0
    ensures t * d >= d
  {
    if t > 1 {
      MulGe(t - 1, d);
      assert t * d == (t - 1) * d + d;
    }
  }

  /** Euclidean division is determined by any decomposition with a remainder in range. */
  lemma ModOfDecomp(x: int, d: int, q: int, r: int)
    requires d > 0 && 0 <= r < d && x == q * d + r
    ensures x % d == r && x / d == q
  {
    var t := x / d - q;
    assert x == (x / d) * d + x % d;
    assert t * d == r - x % d;
    if t >= 1 { MulGe(t, d); }
    if t <= -1 { MulGe(-t, d); }
  }

  lemma DivLe(x: nat, p: nat)
    requires p >= 1
    ensures x / p <= x
  {
    assert x == (x / p) * p + x % p;
    if x / p > x { MulGe(x / p, p); }
  }

  /**
   * `(r << k) | d` with d < 2^k, for the digit widths k of 1, 3 and 4 bits:
   * the 64-bit value of `r * 2^k + d`.
   */
  lemma ShiftOr(r: u64, d: nat, k: nat)
    requires k == 1 || k == 3 || k == 4
    requires d < Scale(k)
    ensures BitOr(Shl(r, k), d) == (r * Scale(k) + d) % TWO_64
  {
    var s := Scale(k);
    var t := TWO_64 / s;
    assert t * s == TWO_64;
    var q := r / t;
    var lo := r % t;
    assert r * s == q * TWO_64 + lo * s by {
      assert r == q * t + lo;
    }
    MulLe(lo, t - 1, s);
    ModOfDecomp(r * s, TWO_64, q, lo * s);
    ScaleIsPow2(k);
    BitOrDisjoint(lo, d, k);
    ModOfDecomp(r * s + d, TWO_64, q, lo * s + d);
  }

  lemma MulLe(a: int, b: int, p: nat)
    requires a <= b
    ensures a * p <= b * p
  {
    if p > 0 && a < b { MulGe(b - a, p); }
  }

  /** The remainder modulo 2^64 is determined by any decomposition. */
  lemma ModUnique(x: int, q: int, r: int)
    requires 0 <= r < TWO_64 && x == q * TWO_64 + r
    ensures x % TWO_64 == r
  {
  }

  /** `Wrap(Wrap(a) * m + d) == Wrap(a * m + d)`: reducing early does not change a wrapped result. */
  lemma WrapMulAdd(a: int, m: int, d: int)
    ensures Wrap(Wrap(Wrap(a) * m) + d) == Wrap(a * m + d)
  {
    var q := a / TWO_64;
    assert a == q * TWO_64 + a % TWO_64;
    assert a * m == (q * m) * TWO_64 + (a % TWO_64) * m;
    var y := (a % TWO_64) * m;
    assert (y % TWO_64) + d == (a * m + d) - (q * m + y / TWO_64) * TWO_64;
    ModShift(a * m + d, q * m + y / TWO_64);
  }

  /** Folding a digit into a wrapped accumulator: reducing the accumulator first does not change the result. */
  lemma FoldStep(n: int, m: int, d: int)
    ensures (Wrap(n) * m + d) % TWO_64 == Wrap(n * m + d)
  {
    var q := n / TWO_64;
    assert n == q * TWO_64 + Wrap(n);
    assert n * m + d == (Wrap(n) * m + d) + (q * m) * TWO_64;
    ModShift(n * m + d, q * m);
  }

  lemma ModShift(x: int, k: int)
    ensures (x - k * TWO_64) % TWO_64 == x % TWO_64
  {
    var r := x % TWO_64;
    assert x == (x / TWO_64) * TWO_64 + r;
    assert x - k * TWO_64 == (x / TWO_64 - k) * TWO_64 + r;
  }
}
