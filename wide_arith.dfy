/**
 * The exact double-word primitives of numeric.cpp: additions, subtractions and
 * multiplications of 64-bit words whose result is a pair of words (high, low)
 * denoting high * 2^64 + low. Each function follows the source's half-word
 * splitting operator by operator (`x & half_mask` is written `Low32(x)`, see
 * `Words.MaskIsLow32`); the lemma after it states the exact arithmetic result.
 */
module WideArith {
  import opened Words

  /** `lak::uint128_t`. */
  datatype Uint128 = Uint128(high: u64, low: u64)

  /** `lak::uintmax2_t`. */
  datatype Uintmax2 = Uintmax2(high: u64, low: u64)

  /** The number a `uint128_t` denotes. */
  function Value128(x: Uint128): (v: nat)
    ensures v < TWO_128
  {
    x.high * TWO_64 + x.low
  }

  /** The number a `uintmax2_t` denotes. */
  function Value2(x: Uintmax2): (v: nat)
    ensures v < TWO_128
  {
    x.high * TWO_64 + x.low
  }

  /** A double word is determined by the number it denotes. */
  lemma Value2Injective(x: Uintmax2, y: Uintmax2)
    requires Value2(x) == Value2(y)
    ensures x == y
  {
    ModOfDecomp(Value2(x), TWO_64, x.high, x.low);
    ModOfDecomp(Value2(y), TWO_64, y.high, y.low);
  }

  lemma Value128Injective(x: Uint128, y: Uint128)
    requires Value128(x) == Value128(y)
    ensures x == y
  {
    ModOfDecomp(Value128(x), TWO_64, x.high, x.low);
    ModOfDecomp(Value128(y), TWO_64, y.high, y.low);
  }

  /**
   * `(low & half_mask) | (high << half_shift)`: the low half of `low` under
   * the low half of `high`. The two halves are disjoint, so the OR is a sum
   * (`JoinLowIsOr`).
   */
  function JoinLow(low: u64, high: u64): u64
  {
    Low32(low) + Low32(high) * TWO_32
  }

  lemma JoinLowIsOr(low: u64, high: u64)
    ensures JoinLow(low, high) == BitOr(Low32(low), Shl(high, 32))
  {
    JoinHalves(Low32(low), high);
  }

  /**
   * The carry step shared by the additions: `low` is the (wrapped) sum of the
   * low halves, `highSum` the sum of the high halves; the carry out of `low`
   * is added to `highSum` as `mid`, and the result is `mid >> 32` over the
   * low halves of `low` and `mid` joined.
   */
  function Carry(low: u64, highSum: nat): Uintmax2
  {
    var halfShift := 32;
    var mid := Wrap(highSum + Shr(low, halfShift));
    Uintmax2(Shr(mid, halfShift), JoinLow(low, mid))
  }

  /** With at most three halves on each side, the carry step is exact and its high word is at most 2. */
  lemma CarryExact(low: u64, highSum: nat)
    requires low < 3 * TWO_32 && highSum <= 3 * (TWO_32 - 1)
    ensures Value2(Carry(low, highSum)) == highSum * TWO_32 + low
    ensures Carry(low, highSum).high <= 2
  {
    var c := low / TWO_32;
    assert c <= 2;
    assert Shr(low, 32) == c;
    var m := highSum + c;
    WrapId(m);
    assert low == c * TWO_32 + low % TWO_32;
    assert m == (m / TWO_32) * TWO_32 + m % TWO_32;
  }

  /** `add_u128`. */
  function AddU128(A: u64, B: u64): Uint128
  {
    var halfShift := 32;
    var low := Wrap(Low32(A) + Low32(B));
    var result := Carry(low, Shr(A, halfShift) + Shr(B, halfShift));
    Uint128(result.high, result.low)
  }

  /** `add_u128` is the exact sum of two words. */
  lemma AddU128Exact(A: u64, B: u64)
    ensures Value128(AddU128(A, B)) == A + B
  {
    SumHalves(A, B, 0);
    WrapId(Low32(A) + Low32(B));
    CarryExact(Wrap(Low32(A) + Low32(B)), Shr(A, 32) + Shr(B, 32));
  }

  /** `add_uintmax2(A, B, C)`; the third operand defaults to 0. */
  function AddUintmax2(A: u64, B: u64, C: u64 := 0): Uintmax2
  {
    var halfShift := 32;
    var low := Wrap(Low32(A) + Low32(B) + Low32(C));
    Carry(low, Shr(A, halfShift) + Shr(B, halfShift) + Shr(C, halfShift))
  }

  /** `add_uintmax2(A, B, C)` is the exact sum of three words, and its high word is at most 2. */
  lemma AddUintmax2Exact(A: u64, B: u64, C: u64)
    ensures Value2(AddUintmax2(A, B, C)) == A + B + C
    ensures AddUintmax2(A, B, C).high <= 2
  {
    SumHalves(A, B, C);
    WrapId(Low32(A) + Low32(B) + Low32(C));
    CarryExact(Wrap(Low32(A) + Low32(B) + Low32(C)), Shr(A, 32) + Shr(B, 32) + Shr(C, 32));
  }

  /** A sum of three words is the sum of their high halves times 2^32 plus the sum of their low halves. */
  lemma SumHalves(A: u64, B: u64, C: u64)
    ensures var sH := Shr(A, 32) + Shr(B, 32) + Shr(C, 32);
      A + B + C == sH * TWO_32 + (Low32(A) + Low32(B) + Low32(C)) && sH <= 3 * (TWO_32 - 1)
  {
    SplitWord(A);
    SplitWord(B);
    SplitWord(C);
    var a, b, c := Shr(A, 32), Shr(B, 32), Shr(C, 32);
    assert (a + b + c) * TWO_32 == a * TWO_32 + b * TWO_32 + c * TWO_32;
  }

  /** `add_uintmax2(uintmax2_t A, B, C)`: adds two words to the low word, then adds A's high word. */
  function AddUintmax2Wide(A: Uintmax2, B: u64, C: u64 := 0): Uintmax2
  {
    var result := AddUintmax2(A.low, B, C);
    Uintmax2(Wrap(result.high + A.high), result.low)
  }

  /** The high word wraps, so `add_uintmax2(uintmax2_t A, B, C)` is exact modulo 2^128. */
  lemma AddUintmax2WideExact(A: Uintmax2, B: u64, C: u64)
    ensures Value2(AddUintmax2Wide(A, B, C)) == (Value2(A) + B + C) % TWO_128
  {
    var result := AddUintmax2(A.low, B, C);
    AddUintmax2Exact(A.low, B, C);
    WideWrap(result.high + A.high, result.low);
  }

  /** (h * 2^64 + l) mod 2^128 keeps h modulo 2^64. */
  lemma WideWrap(h: nat, l: u64)
    ensures (h * TWO_64 + l) % TWO_128 == Wrap(h) * TWO_64 + l
  {
    var q := h / TWO_64;
    assert h == q * TWO_64 + Wrap(h);
    assert h * TWO_64 + l == q * TWO_128 + (Wrap(h) * TWO_64 + l);
    ModOfDecomp(h * TWO_64 + l, TWO_128, q, Wrap(h) * TWO_64 + l);
  }

  /** Reducing a summand modulo 2^128 first does not change a sum modulo 2^128. */
  lemma ModAdd128(x: int, y: int)
    ensures (x % TWO_128 + y) % TWO_128 == (x + y) % TWO_128
  {
    var q := x / TWO_128;
    assert x == q * TWO_128 + x % TWO_128;
    var s := x % TWO_128 + y;
    var t := s % TWO_128;
    assert s == (s / TWO_128) * TWO_128 + t;
    assert x + y == (q + s / TWO_128) * TWO_128 + t;
    ModOfDecomp(x + y, TWO_128, q + s / TWO_128, t);
  }

  lemma ModShift128(x: int)
    ensures (x + TWO_128) % TWO_128 == x % TWO_128
  {
    var t := x % TWO_128;
    assert x == (x / TWO_128) * TWO_128 + t;
    ModOfDecomp(x + TWO_128, TWO_128, x / TWO_128 + 1, t);
  }

  /**
   * Adding 1 to the double word (nh, nl) that complements X, then adding A:
   * the result is A - X modulo 2^128.
   */
  lemma NegateThenAdd(nh: u64, nl: u64, X: nat, A: u64)
    requires nh * TWO_64 + nl + 1 == TWO_128 - X
    ensures Value2(AddUintmax2Wide(AddUintmax2Wide(Uintmax2(nh, nl), 1), A)) == (A - X) % TWO_128
  {
    var n := Uintmax2(nh, nl);
    var negX := AddUintmax2Wide(n, 1);
    AddUintmax2WideExact(n, 1, 0);
    assert Value2(negX) == (TWO_128 - X) % TWO_128;
    AddUintmax2WideExact(negX, A, 0);
    ModAdd128(TWO_128 - X, A);
    assert Value2(AddUintmax2Wide(negX, A)) == (A - X + TWO_128) % TWO_128;
    ModShift128(A - X);
  }

  /** `sub_uintmax2(A, B)`: adds A to the two's complement of the double word (0, B). */
  function SubUintmax2(A: u64, B: u64): Uintmax2
  {
    AddUintmax2Wide(AddUintmax2Wide(Uintmax2(UINTMAX_MAX, Not(B)), 1), A)
  }

  /** `sub_uintmax2(A, B)` is A - B modulo 2^128. */
  lemma SubUintmax2Exact(A: u64, B: u64)
    ensures Value2(SubUintmax2(A, B)) == (A - B) % TWO_128
  {
    NegateThenAdd(UINTMAX_MAX, Not(B), B, A);
  }

  /** `sub_uintmax2(A, B, C)`: forms B + (~C + 1) exactly, then subtracts it from A. */
  function SubUintmax2Three(A: u64, B: u64, C: u64): Uintmax2
  {
    var BC := AddUintmax2(B, Wrap(Not(C) + 1));
    AddUintmax2Wide(AddUintmax2Wide(Uintmax2(Not(BC.high), Not(BC.low)), 1), A)
  }

  /**
   * `sub_uintmax2(A, B, C)` is A - (B + ((2^64 - C) mod 2^64)) modulo 2^128,
   * the 64-bit `~C + 1` being the two's complement of C.
   */
  lemma SubUintmax2ThreeExact(A: u64, B: u64, C: u64)
    ensures Value2(SubUintmax2Three(A, B, C)) == (A - (B + (TWO_64 - C) % TWO_64)) % TWO_128
  {
    var negC := Wrap(Not(C) + 1);
    assert negC == (TWO_64 - C) % TWO_64;
    var BC := AddUintmax2(B, negC);
    AddUintmax2Exact(B, negC, 0);
    NegateThenAdd(Not(BC.high), Not(BC.low), B + negC, A);
  }

  /** The product of two half words fits a word, so the 64-bit multiplication does not wrap. */
  lemma HalfProduct(a: u64, b: u64)
    requires a < TWO_32 && b < TWO_32
    ensures a * b < TWO_64 && Wrap(a * b) == a * b
  {
    MulLe(a, TWO_32 - 1, b);
    MulLe(b, TWO_32 - 1, TWO_32 - 1);
    WrapId(a * b);
  }

  /** Schoolbook expansion of a product of two split words. */
  lemma SplitMul(A: nat, B: nat, aH: nat, aL: nat, bH: nat, bL: nat)
    requires A == aH * TWO_32 + aL && B == bH * TWO_32 + bL
    ensures A * B == aH * bH * TWO_64 + (aL * bH + aH * bL) * TWO_32 + aL * bL
  {
    calc {
      A * B;
      (aH * TWO_32 + aL) * (bH * TWO_32 + bL);
      aH * TWO_32 * (bH * TWO_32) + aH * TWO_32 * bL + aL * (bH * TWO_32) + aL * bL;
      { assert aH * TWO_32 * (bH * TWO_32) == aH * bH * TWO_64; }
      aH * bH * TWO_64 + (aL * bH + aH * bL) * TWO_32 + aL * bL;
    }
  }

  /** A double word (h, l) below k * 2^64 has a high word below k. */
  lemma HighBelow(h: nat, l: nat, k: nat)
    ensures h * TWO_64 + l < k * TWO_64 ==> h < k
  {
    if h >= k {
      MulLe(k, h, TWO_64);
    }
  }

  /** A high word h with h * 2^64 below 2^128 is a word. */
  lemma HighBound(h: nat, l: nat, P: nat)
    ensures P == h * TWO_64 + l && P < TWO_128 ==> h < TWO_64
  {
    if h >= TWO_64 {
      MulLe(TWO_64, h, TWO_64);
    }
  }

  /** `mul_uintmax2`: splits both words into halves and multiplies half by half. */
  function MulUintmax2(A: u64, B: u64): Uintmax2
  {
    var halfShift := 32;
    var aLow: u64 := Low32(A);
    var aHigh: u64 := Shr(A, halfShift);
    var bLow: u64 := Low32(B);
    var bHigh: u64 := Shr(B, halfShift);
    Combine2(Wrap(aLow * bLow), Wrap(aLow * bHigh), Wrap(aHigh * bLow), Wrap(aHigh * bHigh))
  }

  /** The recombination of the four half-word products in `mul_uintmax2`. */
  function Combine2(low: u64, midA: u64, midB: u64, high: u64): Uintmax2
  {
    var halfShift := 32;
    Recombine2(low, AddUintmax2(midA, midB, Shr(low, halfShift)), high)
  }

  /** The result of `mul_uintmax2` from the low product, the middle sum `mid` and the high product. */
  function Recombine2(low: u64, mid: Uintmax2, high: u64): Uintmax2
  {
    var halfShift := 32;
    Uintmax2(Wrap(high + Shl(mid.high, halfShift) + Shr(mid.low, halfShift)), JoinLow(low, mid.low))
  }

  /** `mul_uintmax2` is the exact product of two words. */
  lemma MulUintmax2Exact(A: u64, B: u64)
    ensures Value2(MulUintmax2(A, B)) == A * B
  {
    SplitWord(A);
    SplitWord(B);
    var aLow: u64 := Low32(A);
    var aHigh: u64 := Shr(A, 32);
    var bLow: u64 := Low32(B);
    var bHigh: u64 := Shr(B, 32);
    HalfProduct(aLow, bLow);
    HalfProduct(aLow, bHigh);
    HalfProduct(aHigh, bLow);
    HalfProduct(aHigh, bHigh);
    SplitMul(A, B, aHigh, aLow, bHigh, bLow);
    ProductBound(A, B);
    Combine2Exact(Wrap(aLow * bLow), Wrap(aLow * bHigh), Wrap(aHigh * bLow), Wrap(aHigh * bHigh));
  }

  /**
   * Recombining half-word products p00, p01, p10 and p11 into
   * p11 * 2^64 + (p01 + p10) * 2^32 + p00 is exact whenever that sum is a
   * double word, as it is for the products of the halves of two words.
   */
  lemma Combine2Exact(p00: u64, p01: u64, p10: u64, p11: u64)
    requires p11 * TWO_64 + (p01 + p10) * TWO_32 + p00 < TWO_128
    ensures Value2(Combine2(p00, p01, p10, p11)) == p11 * TWO_64 + (p01 + p10) * TWO_32 + p00
  {
    AddUintmax2Exact(p01, p10, Shr(p00, 32));
    MulCombine(p11 * TWO_64 + (p01 + p10) * TWO_32 + p00, p11, p01, p10, p00, AddUintmax2(p01, p10, Shr(p00, 32)));
  }

  /** A product of two words is below 2^128. */
  lemma ProductBound(A: u64, B: u64)
    ensures A * B < TWO_128
  {
    MulLe(A, TWO_64 - 1, B);
    MulLe(B, TWO_64 - 1, TWO_64 - 1);
  }

  /**
   * The recombination step of `mul_uintmax2`, on the four half-word products
   * p11 = aH * bH, p01 = aL * bH, p10 = aH * bL and p00 = aL * bL, where mid
   * sums p01, p10 and the high half of p00: the high word
   * p11 + (mid.high << 32) + (mid.low >> 32) does not overflow, and with the
   * low word it makes up the product.
   */
  lemma MulCombine(P: nat, p11: u64, p01: u64, p10: u64, p00: u64, mid: Uintmax2)
    requires P < TWO_128 && P == p11 * TWO_64 + (p01 + p10) * TWO_32 + p00
    requires Value2(mid) == p01 + p10 + Shr(p00, 32) && mid.high <= 2
    ensures Value2(Recombine2(p00, mid, p11)) == P
  {
    SplitWord(p00);
    SplitWord(mid.low);
    ShlHalf(mid.high);
    ModOfDecomp(mid.high, TWO_32, 0, mid.high);
    var h := p11 + mid.high * TWO_32 + mid.low / TWO_32;
    var l := JoinLow(p00, mid.low);
    assert P == h * TWO_64 + l;
    HighBound(h, l, P);
    WrapId(h);
  }

  /** `mul_u128`: splits both words into halves and multiplies half by half. */
  function MulU128(A: u64, B: u64): Uint128
  {
    var aLow: u64 := Low32(A);
    var aHigh: u64 := Low32(Shr(A, 32));
    var bLow: u64 := Low32(B);
    var bHigh: u64 := Low32(Shr(B, 32));
    Combine128(Wrap(aLow * bLow), Wrap(aLow * bHigh), Wrap(aHigh * bLow), Wrap(aHigh * bHigh))
  }

  /** The recombination of the four half-word products in `mul_u128`. */
  function Combine128(low: u64, midA: u64, midB: u64, high: u64): Uint128
  {
    Recombine128(low, AddU128(midA, midB), high)
  }

  /** The result of `mul_u128` from the low product, the middle sum `mid` and the high product. */
  function Recombine128(low: u64, mid: Uint128, high: u64): Uint128
  {
    var low2 := AddU128(low, Shl(mid.low, 32));
    Uint128(Wrap(high + Shl(mid.high, 32) + Shr(mid.low, 32) + low2.high), low2.low)
  }

  /** `mul_u128` is the exact product of two words. */
  lemma MulU128Exact(A: u64, B: u64)
    ensures Value128(MulU128(A, B)) == A * B
  {
    SplitWord(A);
    SplitWord(B);
    var aLow: u64 := Low32(A);
    var aHigh: u64 := Low32(Shr(A, 32));
    var bLow: u64 := Low32(B);
    var bHigh: u64 := Low32(Shr(B, 32));
    ModOfDecomp(Shr(A, 32), TWO_32, 0, Shr(A, 32));
    ModOfDecomp(Shr(B, 32), TWO_32, 0, Shr(B, 32));
    HalfProduct(aLow, bLow);
    HalfProduct(aLow, bHigh);
    HalfProduct(aHigh, bLow);
    HalfProduct(aHigh, bHigh);
    SplitMul(A, B, aHigh, aLow, bHigh, bLow);
    ProductBound(A, B);
    Combine128Exact(Wrap(aLow * bLow), Wrap(aLow * bHigh), Wrap(aHigh * bLow), Wrap(aHigh * bHigh));
  }

  /**
   * Recombining half-word products p00, p01, p10 and p11 into
   * p11 * 2^64 + (p01 + p10) * 2^32 + p00 is exact whenever that sum is a
   * double word, as it is for the products of the halves of two words.
   */
  lemma Combine128Exact(p00: u64, p01: u64, p10: u64, p11: u64)
    requires p11 * TWO_64 + (p01 + p10) * TWO_32 + p00 < TWO_128
    ensures Value128(Combine128(p00, p01, p10, p11)) == p11 * TWO_64 + (p01 + p10) * TWO_32 + p00
  {
    AddU128Exact(p01, p10);
    Recombine128Exact(p11 * TWO_64 + (p01 + p10) * TWO_32 + p00, p11, p01 + p10, p00, AddU128(p01, p10));
  }

  /**
   * The recombination step of `mul_u128`, where mid is the exact sum m of the
   * middle products: low2 adds the low half of mid, shifted up, to p00; the
   * high word collects the rest and does not overflow.
   */
  lemma Recombine128Exact(P: nat, p11: u64, m: nat, p00: u64, mid: Uint128)
    requires P < TWO_128 && P == p11 * TWO_64 + m * TWO_32 + p00
    requires Value128(mid) == m < 2 * TWO_64
    ensures Value128(Recombine128(p00, mid, p11)) == P
  {
    var low2 := AddU128(p00, Shl(mid.low, 32));
    AddU128Exact(p00, Shl(mid.low, 32));
    SplitWord(mid.low);
    ShlHalf(mid.low);
    ShlHalf(mid.high);
    HighBelow(mid.high, mid.low, 2);
    ModOfDecomp(mid.high, TWO_32, 0, mid.high);
    var h := p11 + mid.high * TWO_32 + mid.low / TWO_32 + low2.high;
    assert P == h * TWO_64 + low2.low;
    HighBound(h, low2.low, P);
    WrapId(h);
  }

  /** The largest word squared: high word UINTMAX_MAX - 1, low word 1. */
  lemma MulUintmax2MaxByMax()
    ensures MulUintmax2(UINTMAX_MAX, UINTMAX_MAX) == Uintmax2(UINTMAX_MAX - 1, 1)
  {
    var r := MulUintmax2(UINTMAX_MAX, UINTMAX_MAX);
    MulUintmax2Exact(UINTMAX_MAX, UINTMAX_MAX);
    MaxSquared(r.high, r.low);
  }

  lemma MulU128MaxByMax()
    ensures MulU128(UINTMAX_MAX, UINTMAX_MAX) == Uint128(UINTMAX_MAX - 1, 1)
  {
    var r := MulU128(UINTMAX_MAX, UINTMAX_MAX);
    MulU128Exact(UINTMAX_MAX, UINTMAX_MAX);
    MaxSquared(r.high, r.low);
  }

  /** The only double word denoting UINTMAX_MAX squared. */
  lemma MaxSquared(high: u64, low: u64)
    requires high * TWO_64 + low == UINTMAX_MAX * UINTMAX_MAX
    ensures high == UINTMAX_MAX - 1 && low == 1
  {
    ModOfDecomp(high * TWO_64 + low, TWO_64, high, low);
    ModOfDecomp(UINTMAX_MAX * UINTMAX_MAX, TWO_64, UINTMAX_MAX - 1, 1);
  }

  /** Subtracting a word and adding it back is the identity: the wide add inverts the wide subtraction. */
  lemma SubThenAdd(A: u64, B: u64)
    ensures AddUintmax2Wide(SubUintmax2(A, B), B) == Uintmax2(0, A)
  {
    SubUintmax2Exact(A, B);
    UndoSub(A, B, SubUintmax2(A, B));
  }

  /** Adding B back to a double word denoting (A - B) mod 2^128 gives the single word A. */
  lemma UndoSub(A: u64, B: u64, s: Uintmax2)
    requires Value2(s) == (A - B) % TWO_128
    ensures AddUintmax2Wide(s, B) == Uintmax2(0, A)
  {
    var r := AddUintmax2Wide(s, B);
    AddUintmax2WideExact(s, B, 0);
    ModAdd128(A - B, B);
    ModOfDecomp(A, TWO_128, 0, A);
    SingleWord(r, A);
  }

  /** A double word denoting a single word has high word 0. */
  lemma SingleWord(r: Uintmax2, A: u64)
    requires Value2(r) == A
    ensures r == Uintmax2(0, A)
  {
    HighBelow(r.high, r.low, 1);
  }
}
