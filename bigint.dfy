/**
 * `lak::bigint`: a sign flag and a vector of 64-bit words, least significant
 * word first. Only the representation, the forwarding overloads, the
 * comparison wrappers and the stream rendering are defined in the header;
 * the arithmetic itself is declared there without a body, so each operation
 * is given here by the number it produces, in the normalised representation
 * (no most significant zero word, no negative zero).
 */
module BigInts {
  import opened Words
  import opened Results

  datatype BigInt = BigInt(negative: bool, data: seq<u64>)

  /** The number the words denote, least significant word first. */
  function Magnitude(data: seq<u64>): nat
  {
    if |data| == 0 then 0 else data[0] + TWO_64 * Magnitude(data[1..])
  }

  function Value(b: BigInt): int
  {
    var m: int := Magnitude(b.data);
    if b.negative then -m else m
  }

  /** No most significant zero word, and zero is never negative. */
  predicate Normalised(b: BigInt)
  {
    (|b.data| == 0 || b.data[|b.data| - 1] != 0) && (b.negative ==> |b.data| > 0)
  }

  /** The words of n, least significant first, without a most significant zero word. */
  function WordsOf(n: nat): seq<u64>
  {
    if n == 0 then [] else [n % TWO_64] + WordsOf(n / TWO_64)
  }

  /** The normalised bigint holding x. */
  function FromInt(x: int): BigInt
  {
    BigInt(x < 0, WordsOf(if x < 0 then -x else x))
  }

  lemma {:induction false} WordsOfValue(n: nat)
    ensures Magnitude(WordsOf(n)) == n
    ensures |WordsOf(n)| == 0 || WordsOf(n)[|WordsOf(n)| - 1] != 0
    ensures n > 0 <==> |WordsOf(n)| > 0
  {
    if n > 0 {
      WordsOfValue(n / TWO_64);
      assert WordsOf(n)[1..] == WordsOf(n / TWO_64);
    }
  }

  /** `FromInt` is a normalised representation of its argument. */
  lemma FromIntValue(x: int)
    ensures Value(FromInt(x)) == x && Normalised(FromInt(x))
  {
    WordsOfValue(if x < 0 then -x else x);
  }

  /** Normalised words are the words of their magnitude. */
  lemma {:induction false} WordsOfMagnitude(data: seq<u64>)
    requires |data| == 0 || data[|data| - 1] != 0
    ensures WordsOf(Magnitude(data)) == data
  {
    if |data| > 0 {
      var rest := data[1..];
      assert |rest| == 0 || rest[|rest| - 1] != 0;
      WordsOfMagnitude(rest);
      var m := Magnitude(data);
      ModOfDecomp(m, TWO_64, Magnitude(rest), data[0]);
      if |rest| == 0 {
        assert m == data[0] != 0;
      } else {
        MagnitudePositive(rest);
      }
    }
  }

  lemma MagnitudePositive(data: seq<u64>)
    requires |data| > 0 && data[|data| - 1] != 0
    ensures Magnitude(data) > 0
  {
    if |data| > 1 {
      MagnitudePositive(data[1..]);
    }
  }

  /** A normalised bigint is determined by its value. */
  lemma FromIntOfValue(b: BigInt)
    requires Normalised(b)
    ensures FromInt(Value(b)) == b
  {
    WordsOfMagnitude(b.data);
    if b.negative {
      MagnitudePositive(b.data);
    }
  }

  /** `bigint() = default`: not negative, no words; its value is 0. */
  const Zero: BigInt := BigInt(false, [])

  lemma ZeroIsDefault()
    ensures Value(Zero) == 0 && Normalised(Zero) && FromInt(0) == Zero
  {
  }

  /** `bigint(uintmax_t)` and `bigint(intmax_t)`. */
  function FromUintmax(value: u64): (r: BigInt)
    ensures Value(r) == value && Normalised(r)
  {
    FromIntValue(value);
    FromInt(value)
  }

  /** A signed word is the unsigned bigint of its magnitude with the sign flag set when it is negative. */
  function FromIntmax(value: i64): (r: BigInt)
    ensures Value(r) == value && Normalised(r)
  {
    var m := FromUintmax(if value < 0 then -(value as int) else value as int);
    BigInt(value < 0, m.data)
  }

  /** `bigint(unsigned)` and `bigint(signed)` widen, then forward. */
  function FromUnsigned(value: u32): (r: BigInt)
    ensures Value(r) == value && Normalised(r)
  {
    FromUintmax(value)
  }

  function FromSigned(value: i32): (r: BigInt)
    ensures Value(r) == value && Normalised(r)
  {
    FromIntmax(value)
  }

  type i32 = x: int | -0x8000_0000 <= x < 0x8000_0000

  /** `is_negative` (body not shown): the sign flag. `is_positive` is its negation. */
  predicate IsNegative(b: BigInt)
  {
    b.negative
  }

  predicate IsPositive(b: BigInt)
  {
    !IsNegative(b)
  }

  lemma SignOfValue(b: BigInt)
    requires Normalised(b)
    ensures IsNegative(b) <==> Value(b) < 0
    ensures IsPositive(b) <==> Value(b) >= 0
  {
    if b.negative {
      MagnitudePositive(b.data);
    }
  }

  /** The private `add`/`sub`: they change the magnitude and keep the sign flag; `sub` must not go below zero. */
  function AddMagnitude(b: BigInt, value: nat): (r: BigInt)
    ensures r.negative == b.negative && Magnitude(r.data) == Magnitude(b.data) + value
  {
    WordsOfValue(Magnitude(b.data) + value);
    BigInt(b.negative, WordsOf(Magnitude(b.data) + value))
  }

  function SubMagnitude(b: BigInt, value: nat): (r: BigInt)
    requires value <= Magnitude(b.data)
    ensures r.negative == b.negative && Magnitude(r.data) == Magnitude(b.data) - value
  {
    WordsOfValue(Magnitude(b.data) - value);
    BigInt(b.negative, WordsOf(Magnitude(b.data) - value))
  }

  /** `+=`, `-=`, `*=` with a `uintmax_t` or `intmax_t` operand. */
  function Add(b: BigInt, rhs: int): (r: BigInt)
    ensures Value(r) == Value(b) + rhs && Normalised(r)
  {
    FromIntValue(Value(b) + rhs);
    FromInt(Value(b) + rhs)
  }

  function Sub(b: BigInt, rhs: int): (r: BigInt)
    ensures Value(r) == Value(b) - rhs && Normalised(r)
  {
    FromIntValue(Value(b) - rhs);
    FromInt(Value(b) - rhs)
  }

  function Mul(b: BigInt, rhs: int): (r: BigInt)
    ensures Value(r) == Value(b) * rhs && Normalised(r)
  {
    FromIntValue(Value(b) * rhs);
    FromInt(Value(b) * rhs)
  }

  /** `<<=`: multiplication by 2^k. */
  function ShiftLeft(b: BigInt, k: nat): (r: BigInt)
    ensures Value(r) == Value(b) * Pow2(k) && Normalised(r)
  {
    FromIntValue(Value(b) * Pow2(k));
    FromInt(Value(b) * Pow2(k))
  }

  /** The `unsigned` overloads widen to `uintmax_t` and forward. */
  function AddUnsigned(b: BigInt, rhs: u32): (r: BigInt)
    ensures Value(r) == Value(b) + rhs && Normalised(r)
  {
    Add(b, rhs as u64)
  }

  function MulUnsigned(b: BigInt, rhs: u32): (r: BigInt)
    ensures Value(r) == Value(b) * rhs && Normalised(r)
  {
    Mul(b, rhs as u64)
  }

  function ShiftLeftUnsigned(b: BigInt, rhs: u32): (r: BigInt)
    ensures Value(r) == Value(b) * Pow2(rhs) && Normalised(r)
  {
    ShiftLeft(b, rhs as u64)
  }

  /** The `signed` overloads widen to `intmax_t` and forward. */
  function AddSigned(b: BigInt, rhs: i32): (r: BigInt)
    ensures Value(r) == Value(b) + rhs && Normalised(r)
  {
    Add(b, rhs as i64)
  }

  function MulSigned(b: BigInt, rhs: i32): (r: BigInt)
    ensures Value(r) == Value(b) * rhs && Normalised(r)
  {
    Mul(b, rhs as i64)
  }

  /** `to_uintmax`: the value when it fits a word. */
  function ToUintmax(b: BigInt): (r: Result<u64, ()>)
    ensures r.Ok? <==> 0 <= Value(b) < TWO_64
    ensures r.Ok? ==> r.value == Value(b)
  {
    if 0 <= Value(b) < TWO_64 then Ok(Value(b)) else Err(())
  }

  datatype Ordering = Less | Equivalent | Greater

  /** `operator<=>` against a native integer (body not shown): by value. */
  function Compare(b: BigInt, rhs: int): Ordering
  {
    if Value(b) < rhs then Less else if Value(b) > rhs then Greater else Equivalent
  }

  /** `<`, `>`, `==`, `!=` are read off the three-way comparison. */
  predicate LessThan(b: BigInt, rhs: int)
  {
    Compare(b, rhs) == Less
  }

  predicate GreaterThan(b: BigInt, rhs: int)
  {
    Compare(b, rhs) == Greater
  }

  predicate EqualTo(b: BigInt, rhs: int)
  {
    Compare(b, rhs) == Equivalent
  }

  predicate NotEqualTo(b: BigInt, rhs: int)
  {
    Compare(b, rhs) != Equivalent
  }

  lemma ComparisonWrappers(b: BigInt, rhs: int)
    ensures LessThan(b, rhs) <==> Value(b) < rhs
    ensures GreaterThan(b, rhs) <==> Value(b) > rhs
    ensures EqualTo(b, rhs) <==> Value(b) == rhs
    ensures NotEqualTo(b, rhs) <==> Value(b) != rhs
    ensures LessThan(b, rhs) || GreaterThan(b, rhs) || EqualTo(b, rhs)
  {
  }

  /** The `unsigned`/`signed` comparisons widen and forward. */
  function CompareUnsigned(b: BigInt, rhs: u32): (r: Ordering)
    ensures r == Equivalent <==> Value(b) == rhs
    ensures r == Less <==> Value(b) < rhs
  {
    Compare(b, rhs as u64)
  }

  function CompareSigned(b: BigInt, rhs: i32): (r: Ordering)
    ensures r == Equivalent <==> Value(b) == rhs
    ensures r == Less <==> Value(b) < rhs
  {
    Compare(b, rhs as i64)
  }

  /* ---- stream rendering ---- */

  /** A lower-case hex digit, as `std::hex` writes it. */
  function HexChar(d: nat): char
    requires d < 16
  {
    if d < 10 then ('0' as int + d) as char else ('a' as int + d - 10) as char
  }

  predicate IsLowerHex(c: char)
  {
    '0' <= c <= '9' || 'a' <= c <= 'f'
  }

  function HexCharValue(c: char): nat
  {
    if 'a' <= c <= 'f' then c as int - 'a' as int + 10
    else if '0' <= c <= '9' then c as int - '0' as int
    else 0
  }

  /** The last n hex digits of w, most significant first, padded with `0`. */
  function HexDigits(w: nat, n: nat): seq<char>
  {
    if n == 0 then [] else HexDigits(w / 16, n - 1) + [HexChar(w % 16)]
  }

  /** `std::setw(16) << std::hex << w` with fill `0`. */
  function HexWord(w: u64): seq<char>
  {
    HexDigits(w, 16)
  }

  /** The number a string of hex digits denotes. */
  function HexValue(s: seq<char>): nat
  {
    if |s| == 0 then 0 else HexValue(s[..|s| - 1]) * 16 + HexCharValue(s[|s| - 1])
  }

  /** One word and, unless it is word 0, the `'` after it. */
  function Piece(data: seq<u64>, k: nat): seq<char>
    requires k < |data|
  {
    HexWord(data[k]) + if k != 0 then ['\''] else []
  }

  /** Words i-1 down to 0, as the loop writes them. */
  function Pieces(data: seq<u64>, i: nat): seq<char>
    requires i <= |data|
  {
    if i == 0 then [] else Piece(data, i - 1) + Pieces(data, i - 1)
  }

  function SignChar(b: BigInt): char
  {
    if IsNegative(b) then '-' else '+'
  }

  /** What `operator<<` writes: the sign, then every word from the highest index down. */
  function Rendering(b: BigInt): seq<char>
  {
    [SignChar(b)] + Pieces(b.data, |b.data|)
  }

  /** `operator<<(std::ostream &, const bigint &)`: the stream is the returned string. */
  method Render(b: BigInt) returns (s: seq<char>)
    ensures s == Rendering(b)
  {
    s := [if IsNegative(b) then '-' else '+'];
    var i := |b.data|;
    while i > 0
      invariant 0 <= i <= |b.data|
      invariant s + Pieces(b.data, i) == Rendering(b)
    {
      ghost var written := s;
      i := i - 1;
      s := s + HexWord(b.data[i]);
      if i != 0 {
        s := s + ['\''];
      }
      assert s == written + Piece(b.data, i);
    }
  }

  lemma HexCharRoundTrip(d: nat)
    requires d < 16
    ensures IsLowerHex(HexChar(d)) && HexCharValue(HexChar(d)) == d
  {
  }

  /** x mod 16p, split at the lowest hex digit. */
  lemma HexDivModSplit(x: nat, p: nat)
    requires p >= 1
    ensures (x / 16 % p) * 16 + x % 16 == x % (16 * p)
  {
    var q := (x / 16) / p;
    var r := (x / 16) % p;
    assert x / 16 == q * p + r;
    assert x == q * (16 * p) + (r * 16 + x % 16);
    MulLe(r, p - 1, 16);
    ModOfDecomp(x, 16 * p, q, r * 16 + x % 16);
  }

  /** n padded hex digits, all of them lower-case hex. */
  lemma {:induction false} HexDigitsShape(w: nat, n: nat)
    ensures |HexDigits(w, n)| == n
    ensures forall k :: 0 <= k < n ==> IsLowerHex(HexDigits(w, n)[k])
  {
    if n > 0 {
      HexDigitsShape(w / 16, n - 1);
      HexCharRoundTrip(w % 16);
    }
  }

  /** n padded hex digits read back as w modulo 16^n. */
  lemma {:induction false} HexDigitsValue(w: nat, n: nat)
    ensures HexValue(HexDigits(w, n)) == w % Pow2(4 * n)
  {
    if n > 0 {
      HexDigitsValue(w / 16, n - 1);
      var p := Pow2(4 * (n - 1));
      assert Pow2(4 * n) == 16 * p by {
        Pow2Add(4 * (n - 1), 4);
        Pow2Values();
      }
      HexDigitStep(HexDigits(w / 16, n - 1), w, p);
    }
  }

  lemma HexDigitStep(prefix: seq<char>, w: nat, p: nat)
    requires p >= 1 && HexValue(prefix) == w / 16 % p
    ensures HexValue(prefix + [HexChar(w % 16)]) == w % (16 * p)
  {
    HexValueSnoc(prefix, HexChar(w % 16));
    HexCharRoundTrip(w % 16);
    HexDivModSplit(w, p);
  }

  lemma HexValueSnoc(p: seq<char>, c: char)
    ensures HexValue(p + [c]) == HexValue(p) * 16 + HexCharValue(c)
  {
    assert (p + [c])[..|p|] == p;
  }

  /** A word is written as exactly 16 lower-case hex digits that read back as the word. */
  lemma HexWordRoundTrip(w: u64)
    ensures |HexWord(w)| == 16
    ensures forall k :: 0 <= k < 16 ==> IsLowerHex(HexWord(w)[k])
    ensures HexValue(HexWord(w)) == w
  {
    HexDigitsShape(w, 16);
    HexDigitsValue(w, 16);
    Pow2Values();
    Pow2Add(32, 32);
    WrapId(w);
  }

  lemma {:induction false} PiecesLength(data: seq<u64>, i: nat)
    requires i <= |data|
    ensures |Pieces(data, i)| == if i == 0 then 0 else 17 * i - 1
  {
    if i > 0 {
      PiecesLength(data, i - 1);
      HexWordRoundTrip(data[i - 1]);
    }
  }

  /** One character for the sign, then 17 per word less the missing last separator. */
  lemma RenderLength(b: BigInt)
    ensures |Rendering(b)| == if |b.data| == 0 then 1 else 17 * |b.data|
  {
    PiecesLength(b.data, |b.data|);
  }

  /** The first character is `-` exactly for a negative bigint, `+` otherwise. */
  lemma RenderSign(b: BigInt)
    ensures Rendering(b)[0] == (if IsNegative(b) then '-' else '+')
    ensures Rendering(b)[0] == '-' <==> IsNegative(b)
  {
  }

  /**
   * Block j of the loop's output is word i-1-j; every block but the last
   * is followed by `'`.
   */
  lemma {:induction false} PiecesLayout(data: seq<u64>, i: nat, j: nat)
    requires j < i <= |data|
    ensures |Pieces(data, i)| == 17 * i - 1
    ensures Pieces(data, i)[17 * j..17 * j + 16] == HexWord(data[i - 1 - j])
    ensures j < i - 1 ==> Pieces(data, i)[17 * j + 16] == '\''
  {
    var word := HexWord(data[i - 1]);
    var rest := Pieces(data, i - 1);
    HexWordRoundTrip(data[i - 1]);
    PiecesLength(data, i - 1);
    if j == 0 {
      BlockFirst(word, if i - 1 != 0 then ['\''] else [], rest);
    } else {
      PiecesLayout(data, i - 1, j - 1);
      BlockShift(word + ['\''], rest, j);
    }
  }

  /** The first block of a word's piece followed by the rest. */
  lemma BlockFirst(word: seq<char>, sep: seq<char>, rest: seq<char>)
    requires |word| == 16
    ensures (word + sep + rest)[..16] == word
    ensures |sep| > 0 ==> (word + sep + rest)[16] == sep[0]
  {
    assert (word + sep + rest)[..16] == word[..16];
  }

  /** Block j behind a piece of 17 characters is block j-1 of what follows the piece. */
  lemma BlockShift(piece: seq<char>, rest: seq<char>, j: nat)
    requires |piece| == 17 && 0 < j && 17 * j + 16 <= |piece| + |rest|
    ensures (piece + rest)[17 * j..17 * j + 16] == rest[17 * (j - 1)..17 * (j - 1) + 16]
    ensures 17 * j + 16 < |piece| + |rest| ==> (piece + rest)[17 * j + 16] == rest[17 * (j - 1) + 16]
  {
    assert (piece + rest)[17 * j..17 * j + 16] == rest[17 * j - 17..17 * j - 1];
  }

  /**
   * The words appear most significant (highest index) first, zero words
   * included: characters 1+17j to 16+17j are word n-1-j, followed by `'`
   * unless it is word 0.
   */
  lemma RenderWordAt(b: BigInt, j: nat)
    requires j < |b.data|
    ensures |Rendering(b)| == 17 * |b.data|
    ensures Rendering(b)[17 * j + 1..17 * j + 17] == HexWord(b.data[|b.data| - 1 - j])
    ensures j < |b.data| - 1 ==> Rendering(b)[17 * j + 17] == '\''
  {
    var p := Pieces(b.data, |b.data|);
    PiecesLayout(b.data, |b.data|, j);
    assert Rendering(b)[17 * j + 1..17 * j + 17] == p[17 * j..17 * j + 16];
  }

  /** The rendering determines the bigint: the sign flag and every word, zero words included. */
  lemma RenderInjective(a: BigInt, b: BigInt)
    requires Rendering(a) == Rendering(b)
    ensures a == b
  {
    RenderLength(a);
    RenderLength(b);
    RenderSign(a);
    RenderSign(b);
    assert |a.data| == |b.data|;
    var n := |a.data|;
    forall k | 0 <= k < n
      ensures a.data[k] == b.data[k]
    {
      var j := n - 1 - k;
      RenderWordAt(a, j);
      RenderWordAt(b, j);
      HexWordRoundTrip(a.data[k]);
      HexWordRoundTrip(b.data[k]);
    }
  }
}
