/**
 * `lak::string_to_uintmax`, `lak::string_to_intmax` and `uintmax_max_dec_str`
 * from numeric.cpp. Each conversion is a method whose loops follow the
 * source, proved equal to a specification function; the lemmas after them
 * state what the specification accepts and which number it yields, including
 * the quirks of the decimal bound check and of the hexadecimal letters.
 */
module Numeric {
  import opened Words
  import opened Results

  /** `char8_t`: one UTF-8 code unit. */
  type Char8 = c: char | c as int < 0x100

  /** `lak::numeric_base`, an enumeration over `uint8_t`; any other byte can be cast to it. */
  type NumericBase = u8

  const BIN: NumericBase := 2
  const OCT: NumericBase := 8
  const DEC: NumericBase := 10
  const HEX: NumericBase := 16

  /** `lak::string_to_numeric_error`. */
  datatype StringToNumericError = InvalidString | InvalidBase | OutOfBounds

  /** `sizeof(uintmax_t) * CHAR_BIT`. */
  const WORD_BITS: nat := 64

  /** The decimal digits of `UINTMAX_MAX`, most significant first. */
  const MAX_DEC: seq<Char8> := "18446744073709551615"

  predicate InRange(c: Char8, lo: char, hi: char)
  {
    lo <= c <= hi
  }

  predicate AllInRange(s: seq<Char8>, lo: char, hi: char)
  {
    forall i :: 0 <= i < |s| ==> InRange(s[i], lo, hi)
  }

  /** `[0-9a-fA-F]`. */
  predicate IsHexDigit(c: Char8)
  {
    InRange(c, '0', '9') || InRange(c, 'a', 'f') || InRange(c, 'A', 'F')
  }

  /** `static_cast<uint8_t>(c - origin)`: the difference of the code units, modulo 2^8. */
  function ByteDiff(c: Char8, origin: char): u8
  {
    (c as int - origin as int) % TWO_8
  }

  /**
   * The number a character is worth in a base. In hexadecimal a letter is
   * worth its distance from `a` or `A`, so `a`..`f` are worth 0..5; any other
   * base takes the byte `c - '0'`, which is the digit for `0`..`9`.
   */
  function DigitValue(c: Char8, base: NumericBase): u8
  {
    if base == HEX && InRange(c, 'a', 'f') then ByteDiff(c, 'a')
    else if base == HEX && InRange(c, 'A', 'F') then ByteDiff(c, 'A')
    else ByteDiff(c, '0')
  }

  /** The value of a digit string read most significant digit first, without any wrap-around. */
  function Numeral(s: seq<Char8>, base: NumericBase): nat
  {
    if |s| == 0 then 0 else Numeral(s[..|s| - 1], base) * base + DigitValue(s[|s| - 1], base)
  }

  /** s is lexicographically greater than the first |s| characters of max. */
  predicate LexGreater(s: seq<Char8>, max: seq<Char8>)
    requires |s| <= |max|
  {
    |s| > 0 && (s[0] > max[0] || (s[0] == max[0] && LexGreater(s[1..], max[1..])))
  }

  /**
   * What `string_to_uintmax(integer, base)` returns: the empty string and an
   * unknown base are rejected, and every base checks a length bound of its
   * own before (or while) it checks the characters.
   */
  function UintmaxSpec(integer: seq<Char8>, base: NumericBase): Result<u64, StringToNumericError>
  {
    if |integer| == 0 then Err(InvalidString)
    else if base == BIN then BinSpec(integer)
    else if base == OCT then OctSpec(integer)
    else if base == DEC then DecSpec(integer)
    else if base == HEX then HexSpec(integer)
    else Err(InvalidBase)
  }

  /** Binary: at most 64 characters, all `0` or `1`. */
  function BinSpec(integer: seq<Char8>): Result<u64, StringToNumericError>
  {
    if |integer| > WORD_BITS then Err(OutOfBounds)
    else if !AllInRange(integer, '0', '1') then Err(InvalidString)
    else Ok(Wrap(Numeral(integer, BIN)))
  }

  /**
   * Octal: at most 21 digits, or 22 whose first digit is `0` or `1`; the
   * first character of a 22-character string is checked before the bound.
   */
  function OctSpec(integer: seq<Char8>): Result<u64, StringToNumericError>
  {
    if |integer| * 3 < WORD_BITS then
      if !AllInRange(integer, '0', '7') then Err(InvalidString)
      else Ok(Wrap(Numeral(integer, OCT)))
    else if (|integer| - 1) * 3 < WORD_BITS then
      if !InRange(integer[0], '0', '7') then Err(InvalidString)
      else if integer[0] > '1' then Err(OutOfBounds)
      else if !AllInRange(integer, '0', '7') then Err(InvalidString)
      else Ok(Wrap(Numeral(integer, OCT)))
    else Err(OutOfBounds)
  }

  /**
   * Decimal, counting 9 bits per digit: at most 7 digits; 8 characters when
   * they are not lexicographically above the first 8 digits of
   * `UINTMAX_MAX`, in which case the characters are not checked at all; any
   * longer string is out of bounds.
   */
  function DecSpec(integer: seq<Char8>): Result<u64, StringToNumericError>
  {
    if |integer| * 9 < WORD_BITS then
      if !AllInRange(integer, '0', '9') then Err(InvalidString)
      else Ok(Wrap(Numeral(integer, DEC)))
    else if (|integer| - 1) * 9 < WORD_BITS then
      if LexGreater(integer, MAX_DEC) then Err(OutOfBounds)
      else Ok(Wrap(Numeral(integer, DEC)))
    else Err(OutOfBounds)
  }

  /** Hexadecimal: at most 64 characters, all in `[0-9a-fA-F]`; the value wraps modulo 2^64. */
  function HexSpec(integer: seq<Char8>): Result<u64, StringToNumericError>
  {
    if |integer| > WORD_BITS then Err(OutOfBounds)
    else if !(forall i :: 0 <= i < |integer| ==> IsHexDigit(integer[i])) then Err(InvalidString)
    else Ok(Wrap(Numeral(integer, HEX)))
  }

  /**
   * `string_to_uintmax(integer, base)`, base `dec` by default: a length
   * check per base, a character scan, and a fold of the digits into a word.
   */
  method StringToUintmax(integer: seq<Char8>, base: NumericBase := DEC) returns (r: Result<u64, StringToNumericError>)
    ensures r == UintmaxSpec(integer, base)
  {
    if |integer| == 0 {
      return Err(InvalidString);
    }
    if base == BIN {
      r := BinToUintmax(integer);
    } else if base == OCT {
      r := OctToUintmax(integer);
    } else if base == DEC {
      r := DecToUintmax(integer);
    } else if base == HEX {
      r := HexToUintmax(integer);
    } else {
      r := Err(InvalidBase);
    }
  }

  /** The `bin` case of `string_to_uintmax`. */
  method BinToUintmax(integer: seq<Char8>) returns (r: Result<u64, StringToNumericError>)
    ensures r == BinSpec(integer)
  {
    if |integer| > WORD_BITS {
      return Err(OutOfBounds);
    }
    var valid := CheckDigits(integer, '0', '1');
    if !valid {
      return Err(InvalidString);
    }
    var result := ShiftInDigits(integer, BIN, 1);
    return Ok(result);
  }

  /** The `oct` case of `string_to_uintmax`. */
  method OctToUintmax(integer: seq<Char8>) returns (r: Result<u64, StringToNumericError>)
    ensures r == OctSpec(integer)
  {
    if |integer| * 3 < WORD_BITS {
      // every digit string of this length fits
    } else if (|integer| - 1) * 3 < WORD_BITS {
      // only the bits of the first digit that are left may be set
      var maxHighBits := WORD_BITS - (|integer| - 1) * 3;
      if !InRange(integer[0], '0', '7') {
        return Err(InvalidString);
      }
      var firstValue: u64 := ByteDiff(integer[0], '0');
      OctFirstDigitMask(firstValue);
      if BitAnd(Not(Shl(UINTMAX_MAX, maxHighBits)), firstValue) != firstValue {
        return Err(OutOfBounds);
      }
    } else {
      return Err(OutOfBounds);
    }
    var valid := CheckDigits(integer, '0', '7');
    if !valid {
      return Err(InvalidString);
    }
    var result := ShiftInDigits(integer, OCT, 3);
    return Ok(result);
  }

  /** The `dec` case of `string_to_uintmax`. */
  method DecToUintmax(integer: seq<Char8>) returns (r: Result<u64, StringToNumericError>)
    ensures r == DecSpec(integer)
  {
    var result: u64 := 0;
    var rest := integer;
    if |integer| * 9 < WORD_BITS {
      var valid := CheckDigits(integer, '0', '9');
      if !valid {
        return Err(InvalidString);
      }
    } else if (|integer| - 1) * 9 < WORD_BITS {
      var outOfBounds;
      outOfBounds, result, rest := CompareWithMaxDec(integer);
      if outOfBounds {
        return Err(OutOfBounds);
      }
    } else {
      return Err(OutOfBounds);
    }
    ghost var done := integer[..|integer| - |rest|];
    assert done + rest == integer;
    result := MultiplyInDigits(rest, result, done);
    return Ok(result);
  }

  /**
   * The bounds check of an 8-character decimal string against
   * `uintmax_max_dec_str()`.
   */
  method CompareWithMaxDec(integer: seq<Char8>) returns (outOfBounds: bool, result: u64, rest: seq<Char8>)
    requires |integer| == 8
    ensures outOfBounds == LexGreater(integer, MAX_DEC)
    ensures |rest| <= |integer| && rest == integer[|integer| - |rest|..]
    ensures result == Wrap(Numeral(integer[..|integer| - |rest|], DEC))
  {
    var max := UintmaxMaxDecStr();
    MaxDecString();
    outOfBounds, result, rest := CompareDigits(integer, max);
  }

  /**
   * While the characters of `integer` equal those of `max`, they are folded
   * into `result` and dropped from both views; a greater character is out of
   * bounds, a smaller one ends the check and leaves the rest unchecked.
   */
  method CompareDigits(integer: seq<Char8>, max: seq<Char8>) returns (outOfBounds: bool, result: u64, rest: seq<Char8>)
    requires |integer| <= |max|
    ensures outOfBounds == LexGreater(integer, max)
    ensures |rest| <= |integer| && rest == integer[|integer| - |rest|..]
    ensures result == Wrap(Numeral(integer[..|integer| - |rest|], DEC))
  {
    result := 0;
    rest := integer;
    var maxRest := max;
    while |rest| > 0
      invariant |rest| <= |integer|
      invariant rest == integer[|integer| - |rest|..]
      invariant maxRest == max[|integer| - |rest|..]
      invariant integer[..|integer| - |rest|] == max[..|integer| - |rest|]
      invariant result == Wrap(Numeral(integer[..|integer| - |rest|], DEC))
    {
      ghost var k := |integer| - |rest|;
      if rest[0] > maxRest[0] {
        LexGreaterSkip(integer, max, k);
        return true, result, rest;
      }
      if rest[0] < maxRest[0] {
        break;
      }
      NumeralStep(integer, k, DEC);
      WrapMulAdd(Numeral(integer[..k], DEC), 10, DigitValue(integer[k], DEC));
      result := Wrap(result * 10);
      result := Wrap(result + ByteDiff(rest[0], '0'));
      maxRest := maxRest[1..];
      rest := rest[1..];
      PrefixExtend(integer, max, k);
    }
    LexGreaterSkip(integer, max, |integer| - |rest|);
    outOfBounds := false;
  }

  /** The `hex` case of `string_to_uintmax`: the characters are checked as they are folded in. */
  method HexToUintmax(integer: seq<Char8>) returns (r: Result<u64, StringToNumericError>)
    ensures r == HexSpec(integer)
  {
    if |integer| > WORD_BITS {
      return Err(OutOfBounds);
    }
    var result: u64 := 0;
    var i := 0;
    while i < |integer|
      invariant 0 <= i <= |integer|
      invariant forall j :: 0 <= j < i ==> IsHexDigit(integer[j])
      invariant result == Wrap(Numeral(integer[..i], HEX))
    {
      var c := integer[i];
      ghost var before := result;
      result := Shl(result, 4);
      var digit: u8;
      if InRange(c, '0', '9') {
        digit := ByteDiff(c, '0');
      } else if InRange(c, 'a', 'f') {
        digit := ByteDiff(c, 'a');
      } else if InRange(c, 'A', 'F') {
        digit := ByteDiff(c, 'A');
      } else {
        return Err(InvalidString);
      }
      HexStep(integer, i, before);
      result := BitOr(result, digit);
      i := i + 1;
    }
    assert integer[..i] == integer;
    return Ok(result);
  }

  /** Shifting a hexadecimal digit into the wrapped value of a prefix gives the wrapped value of the longer prefix. */
  lemma HexStep(integer: seq<Char8>, i: nat, before: u64)
    requires i < |integer| && IsHexDigit(integer[i])
    requires before == Wrap(Numeral(integer[..i], HEX))
    ensures BitOr(Shl(before, 4), DigitValue(integer[i], HEX)) == Wrap(Numeral(integer[..i + 1], HEX))
  {
    var digit := DigitValue(integer[i], HEX);
    ShiftOr(before, digit, 4);
    FoldStep(Numeral(integer[..i], HEX), HEX, digit);
    NumeralStep(integer, i, HEX);
  }

  /** Two strings that agree on k characters and on the next agree on k + 1. */
  lemma PrefixExtend(a: seq<Char8>, b: seq<Char8>, k: nat)
    requires k < |a| && k < |b| && a[..k] == b[..k] && a[k] == b[k]
    ensures a[..k + 1] == b[..k + 1]
  {
    assert a[..k + 1] == a[..k] + [a[k]];
    assert b[..k + 1] == b[..k] + [b[k]];
  }

  /** In the 22-digit octal case the mask `~(UINTMAX_MAX << 1)` keeps one bit: the first digit may be 0 or 1. */
  lemma OctFirstDigitMask(v: u64)
    ensures BitAnd(Not(Shl(UINTMAX_MAX, 1)), v) == v <==> v <= 1
  {
    assert Not(Shl(UINTMAX_MAX, 1)) == 1 by {
      ModOfDecomp(UINTMAX_MAX * 2, TWO_64, 1, TWO_64 - 2);
    }
    if v > 1 {
      assert BitAnd(1, v) == v % 2;
    }
  }

  /** Past a common prefix of length k, the lexicographic comparison continues on the suffixes. */
  lemma {:induction false} LexGreaterSkip(s: seq<Char8>, max: seq<Char8>, k: nat)
    requires k <= |s| <= |max| && s[..k] == max[..k]
    ensures LexGreater(s, max) == LexGreater(s[k..], max[k..])
  {
    if k > 0 {
      assert s[0] == max[0] by { assert s[..k][0] == max[..k][0]; }
      assert s[1..][..k - 1] == max[1..][..k - 1] by {
        assert s[1..][..k - 1] == s[..k][1..];
        assert max[1..][..k - 1] == max[..k][1..];
      }
      LexGreaterSkip(s[1..], max[1..], k - 1);
      assert s[1..][k - 1..] == s[k..];
      assert max[1..][k - 1..] == max[k..];
    }
  }

  /** `intmax_t` read from the bits of a `uintmax_t` (`lak::bit_cast`): two's complement. */
  function BitCastSigned(u: u64): i64
  {
    if u < TWO_64 / 2 then u else u - TWO_64
  }

  /**
   * What `string_to_intmax(integer, base)` returns: one leading `-` or `+`
   * is dropped, the rest is converted by `string_to_uintmax`, and a result
   * whose top bit is set is out of bounds; the value is negated after a `-`.
   */
  function IntmaxSpec(integer: seq<Char8>, base: NumericBase): Result<i64, StringToNumericError>
  {
    if |integer| == 0 then Err(InvalidString)
    else
      var isNegative := integer[0] == '-';
      var digits := if isNegative || integer[0] == '+' then integer[1..] else integer;
      match UintmaxSpec(digits, base)
      case Err(e) => Err(e)
      case Ok(uresult) =>
        var result := BitCastSigned(uresult);
        if result < 0 then Err(OutOfBounds)
        else Ok(if isNegative then -result else result)
  }

  /** `string_to_intmax(integer, base)`, base `dec` by default. */
  method StringToIntmax(integer: seq<Char8>, base: NumericBase := DEC) returns (r: Result<i64, StringToNumericError>)
    ensures r == IntmaxSpec(integer, base)
  {
    if |integer| == 0 {
      return Err(InvalidString);
    }
    var isNegative := integer[0] == '-';
    var digits := integer;
    if isNegative || integer[0] == '+' {
      digits := integer[1..];
    }
    var uresult := StringToUintmax(digits, base);
    match uresult {
      case Err(e) =>
        r := Err(e);
      case Ok(u) =>
        var result := BitCastSigned(u);
        if result < 0 {
          r := Err(OutOfBounds);
        } else {
          r := Ok(if isNegative then -result else result);
        }
    }
  }

  /** One more digit folded into a prefix. */
  lemma NumeralStep(s: seq<Char8>, i: nat, base: NumericBase)
    requires i < |s|
    ensures Numeral(s[..i + 1], base) == Numeral(s[..i], base) * base + DigitValue(s[i], base)
  {
    assert s[..i + 1][..i] == s[..i];
  }

  /** One more digit appended to a digit string. */
  lemma NumeralSnoc(s: seq<Char8>, c: Char8, base: NumericBase)
    ensures Numeral(s + [c], base) == Numeral(s, base) * base + DigitValue(c, base)
  {
    assert (s + [c])[..|s|] == s;
  }

  /** The `for (c : integer) if (c < lo || c > hi) return ...` scan. */
  method CheckDigits(integer: seq<Char8>, lo: char, hi: char) returns (valid: bool)
    ensures valid == AllInRange(integer, lo, hi)
  {
    var i := 0;
    while i < |integer|
      invariant 0 <= i <= |integer|
      invariant AllInRange(integer[..i], lo, hi)
    {
      if !InRange(integer[i], lo, hi) {
        return false;
      }
      i := i + 1;
    }
    assert integer[..i] == integer;
    return true;
  }

  /** `result <<= k; result |= static_cast<uint8_t>(c - u8'0');` over every character. */
  method ShiftInDigits(integer: seq<Char8>, base: NumericBase, k: nat) returns (result: u64)
    requires (k == 1 && base == BIN) || (k == 3 && base == OCT)
    requires forall i :: 0 <= i < |integer| ==> DigitValue(integer[i], base) < base
    ensures result == Wrap(Numeral(integer, base))
  {
    result := 0;
    var i := 0;
    while i < |integer|
      invariant 0 <= i <= |integer|
      invariant result == Wrap(Numeral(integer[..i], base))
    {
      var digit := DigitValue(integer[i], base);
      ShiftOr(result, digit, k);
      FoldStep(Numeral(integer[..i], base), base, digit);
      NumeralStep(integer, i, base);
      result := BitOr(Shl(result, k), digit);
      i := i + 1;
    }
    assert integer[..i] == integer;
  }

  /** `result *= 10U; result += static_cast<uint8_t>(c - u8'0');` over every character. */
  method MultiplyInDigits(integer: seq<Char8>, start: u64, ghost done: seq<Char8>) returns (result: u64)
    requires start == Wrap(Numeral(done, DEC))
    ensures result == Wrap(Numeral(done + integer, DEC))
  {
    result := start;
    var i := 0;
    assert done + integer[..0] == done;
    while i < |integer|
      invariant 0 <= i <= |integer|
      invariant result == Wrap(Numeral(done + integer[..i], DEC))
    {
      var digit := DigitValue(integer[i], DEC);
      assert done + integer[..i + 1] == (done + integer[..i]) + [integer[i]];
      NumeralSnoc(done + integer[..i], integer[i], DEC);
      WrapMulAdd(Numeral(done + integer[..i], DEC), 10, digit);
      result := Wrap(result * 10);
      result := Wrap(result + digit);
      i := i + 1;
    }
    assert integer[..i] == integer;
  }

  /** The character of a decimal digit. */
  function DigitChar(d: nat): Char8
    requires d < 10
  {
    ('0' as int + d) as char
  }

  /** The decimal digits of n, most significant first, with no leading zero (none at all for 0). */
  function DecimalString(n: nat): seq<Char8>
  {
    if n == 0 then [] else DecimalString(n / 10) + [DigitChar(n % 10)]
  }

  function Reverse<T>(s: seq<T>): seq<T>
  {
    seq(|s|, k requires 0 <= k < |s| => s[|s| - 1 - k])
  }

  /** `lak::reverse` over a span: swaps the ends towards the middle. */
  method ReverseInPlace(a: array<Char8>)
    modifies a
    ensures a[..] == Reverse(old(a[..]))
  {
    var n := a.Length;
    var i := 0;
    while i < n / 2
      invariant 0 <= i <= n / 2
      invariant forall k :: 0 <= k < i ==> a[k] == old(a[n - 1 - k]) && a[n - 1 - k] == old(a[k])
      invariant forall k :: i <= k < n - i ==> a[k] == old(a[k])
    {
      a[i], a[n - 1 - i] := a[n - 1 - i], a[i];
      i := i + 1;
    }
  }

  /**
   * `uintmax_max_dec_str`: pushes the digits of `UINTMAX_MAX` least
   * significant first, then reverses the string in place.
   */
  method UintmaxMaxDecStr() returns (str: seq<Char8>)
    ensures str == DecimalString(UINTMAX_MAX)
  {
    var digits: seq<Char8> := [];
    var max: u64 := UINTMAX_MAX;
    while max != 0
      invariant DecimalString(max) + Reverse(digits) == DecimalString(UINTMAX_MAX)
    {
      var c := DigitChar(max % 10);
      assert Reverse(digits + [c]) == [c] + Reverse(digits);
      digits := digits + [c];
      max := max / 10;
    }
    var a := new Char8[|digits|](k requires 0 <= k < |digits| => digits[k]);
    assert a[..] == digits;
    ReverseInPlace(a);
    str := a[..];
  }

  /** The string `uintmax_max_dec_str` builds is MAX_DEC. */
  lemma MaxDecString()
    ensures DecimalString(UINTMAX_MAX) == MAX_DEC
  {
    var s: seq<Char8> := [];
    DecimalStep(1, s);
    s := s + [DigitChar(1)];
    DecimalStep(18, s);
    s := s + [DigitChar(8)];
    DecimalStep(184, s);
    s := s + [DigitChar(4)];
    DecimalStep(1844, s);
    s := s + [DigitChar(4)];
    DecimalStep(18446, s);
    s := s + [DigitChar(6)];
    DecimalStep(184467, s);
    s := s + [DigitChar(7)];
    DecimalStep(1844674, s);
    s := s + [DigitChar(4)];
    DecimalStep(18446744, s);
    s := s + [DigitChar(4)];
    DecimalStep(184467440, s);
    s := s + [DigitChar(0)];
    DecimalStep(1844674407, s);
    s := s + [DigitChar(7)];
    DecimalStep(18446744073, s);
    s := s + [DigitChar(3)];
    DecimalStep(184467440737, s);
    s := s + [DigitChar(7)];
    DecimalStep(1844674407370, s);
    s := s + [DigitChar(0)];
    DecimalStep(18446744073709, s);
    s := s + [DigitChar(9)];
    DecimalStep(184467440737095, s);
    s := s + [DigitChar(5)];
    DecimalStep(1844674407370955, s);
    s := s + [DigitChar(5)];
    DecimalStep(18446744073709551, s);
    s := s + [DigitChar(1)];
    DecimalStep(184467440737095516, s);
    s := s + [DigitChar(6)];
    DecimalStep(1844674407370955161, s);
    s := s + [DigitChar(1)];
    DecimalStep(18446744073709551615, s);
    s := s + [DigitChar(5)];
  }

  lemma DecimalStep(n: nat, s: seq<Char8>)
    requires n > 0 && DecimalString(n / 10) == s
    ensures DecimalString(n) == s + [DigitChar(n % 10)]
  {
  }
}
