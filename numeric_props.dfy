/**
 * What `string_to_uintmax` and `string_to_intmax` accept, and which number
 * they yield, stated over the specification functions of `Numeric`.
 */
module NumericProperties {
  import opened Words
  import opened Results
  import opened Numeric

  function Power(b: nat, n: nat): nat
  {
    if n == 0 then 1 else b * Power(b, n - 1)
  }

  lemma {:induction false} PowerOfTwo(n: nat)
    ensures Power(2, n) == Pow2(n)
  {
    if n > 0 {
      PowerOfTwo(n - 1);
    }
  }

  lemma {:induction false} PowerOfEight(n: nat)
    ensures Power(8, n) == Pow2(3 * n)
  {
    if n > 0 {
      PowerOfEight(n - 1);
      Pow2Add(3 * (n - 1), 3);
      Pow2Values();
    }
  }

  lemma WordPowers()
    ensures Power(2, 64) == TWO_64 && 2 * Power(8, 21) == TWO_64
  {
    PowerOfTwo(64);
    PowerOfEight(21);
    Pow2Values();
    Pow2Add(32, 32);
    Pow2Add(1, 63);
  }

  predicate DigitsBelow(s: seq<Char8>, base: NumericBase)
  {
    forall i :: 0 <= i < |s| ==> DigitValue(s[i], base) < base
  }

  /** A string of n digits, each below the base, denotes a number below base^n. */
  lemma {:induction false} NumeralBound(s: seq<Char8>, base: NumericBase)
    requires DigitsBelow(s, base)
    ensures Numeral(s, base) < Power(base, |s|)
  {
    if |s| > 0 {
      var p := s[..|s| - 1];
      assert DigitsBelow(p, base) by {
        forall i | 0 <= i < |p| ensures DigitValue(p[i], base) < base {
          assert p[i] == s[i];
        }
      }
      NumeralBound(p, base);
      BoundStep(Numeral(p, base), Power(base, |p|), base, DigitValue(s[|s| - 1], base));
    }
  }

  lemma BoundStep(n: nat, p: nat, b: nat, d: nat)
    requires n < p && d < b
    ensures n * b + d < b * p
  {
    MulLe(n, p - 1, b);
  }

  lemma FrontStep(d0: nat, p: nat, rest: nat, b: nat, d: nat)
    ensures (d0 * p + rest) * b + d == d0 * (b * p) + (rest * b + d)
  {
  }

  /** The first digit of a digit string is worth base^(n-1). */
  lemma {:induction false} NumeralFront(s: seq<Char8>, base: NumericBase)
    requires |s| > 0
    ensures Numeral(s, base) == DigitValue(s[0], base) * Power(base, |s| - 1) + Numeral(s[1..], base)
  {
    if |s| > 1 {
      var p := s[..|s| - 1];
      NumeralFront(p, base);
      assert p[1..] == s[1..][..|s| - 2];
      FrontStep(DigitValue(s[0], base), Power(base, |s| - 2), Numeral(p[1..], base), base, DigitValue(s[|s| - 1], base));
    } else {
      assert s[..0] == [];
    }
  }

  lemma {:induction false} PowerMono(b: nat, m: nat, n: nat)
    requires b >= 1 && m <= n
    ensures Power(b, m) <= Power(b, n)
  {
    if m < n {
      PowerMono(b, m, n - 1);
      MulLe(1, b, Power(b, n - 1));
    }
  }

  /** Digits in range are below the base. */
  lemma RangeDigitsBelow(s: seq<Char8>, base: NumericBase, hi: char)
    requires (base == BIN && hi == '1') || (base == OCT && hi == '7') || (base == DEC && hi == '9')
    requires AllInRange(s, '0', hi)
    ensures DigitsBelow(s, base)
  {
  }

  /**
   * Binary: a string is accepted exactly when it has 1 to 64 characters, all
   * `0` or `1`, and then the word is its exact value.
   */
  lemma BinAccepted(s: seq<Char8>)
    ensures UintmaxSpec(s, BIN).Ok? <==> 0 < |s| <= WORD_BITS && AllInRange(s, '0', '1')
    ensures UintmaxSpec(s, BIN).Ok? ==> UintmaxSpec(s, BIN).value == Numeral(s, BIN)
  {
    if 0 < |s| <= WORD_BITS && AllInRange(s, '0', '1') {
      RangeDigitsBelow(s, BIN, '1');
      NumeralBound(s, BIN);
      PowerMono(2, |s|, 64);
      WordPowers();
      WrapId(Numeral(s, BIN));
    }
  }

  /**
   * Octal: a string is accepted exactly when it has 1 to 21 octal digits, or
   * 22 whose first digit is `0` or `1`, and then the word is its exact value.
   */
  lemma OctAccepted(s: seq<Char8>)
    ensures UintmaxSpec(s, OCT).Ok? <==>
      0 < |s| && AllInRange(s, '0', '7') && (|s| <= 21 || (|s| == 22 && s[0] <= '1'))
    ensures UintmaxSpec(s, OCT).Ok? ==> UintmaxSpec(s, OCT).value == Numeral(s, OCT)
    ensures |s| >= 23 ==> UintmaxSpec(s, OCT) == Err(OutOfBounds)
  {
    if 0 < |s| && AllInRange(s, '0', '7') && (|s| <= 21 || (|s| == 22 && s[0] <= '1')) {
      OctFits(s);
      WrapId(Numeral(s, OCT));
    }
  }

  /** The octal strings the bound lets through denote numbers below 2^64. */
  lemma OctFits(s: seq<Char8>)
    requires AllInRange(s, '0', '7') && (|s| <= 21 || (|s| == 22 && s[0] <= '1'))
    ensures Numeral(s, OCT) < TWO_64
  {
    RangeDigitsBelow(s, OCT, '7');
    WordPowers();
    if |s| <= 21 {
      NumeralBound(s, OCT);
      PowerMono(8, |s|, 21);
    } else {
      NumeralFront(s, OCT);
      assert DigitsBelow(s[1..], OCT);
      NumeralBound(s[1..], OCT);
      MulLe(DigitValue(s[0], OCT), 1, Power(8, 21));
    }
  }

  /**
   * Decimal: up to 7 characters a string is accepted exactly when all are
   * digits, with its exact value; 8 characters are accepted exactly when they
   * are not lexicographically above `18446744`; 9 or more are always out of
   * bounds, although every number below 10^19 fits a word.
   */
  lemma DecAccepted(s: seq<Char8>)
    ensures |s| <= 7 ==>
      (UintmaxSpec(s, DEC).Ok? <==> 0 < |s| && AllInRange(s, '0', '9'))
    ensures |s| <= 7 && UintmaxSpec(s, DEC).Ok? ==> UintmaxSpec(s, DEC).value == Numeral(s, DEC)
    ensures |s| == 8 ==> (UintmaxSpec(s, DEC).Ok? <==> !LexGreater(s, MAX_DEC))
    ensures |s| >= 9 ==> UintmaxSpec(s, DEC) == Err(OutOfBounds)
  {
    if 0 < |s| <= 7 && AllInRange(s, '0', '9') {
      RangeDigitsBelow(s, DEC, '9');
      NumeralBound(s, DEC);
      PowerMono(10, |s|, 7);
      assert Power(10, 7) == 10000000;
      WrapId(Numeral(s, DEC));
    }
  }

  /**
   * For 8 decimal digits the lexicographic check is the numeric one: the
   * string is accepted, with its exact value, exactly when that value is at
   * most 18446744.
   */
  lemma DecEightDigits(s: seq<Char8>)
    requires |s| == 8 && AllInRange(s, '0', '9')
    ensures UintmaxSpec(s, DEC) ==
      if Numeral(s, DEC) > 18446744 then Err(OutOfBounds) else Ok(Numeral(s, DEC))
  {
    MaxDecPrefix();
    LexPrefix(s, MAX_DEC);
    LexNumeric(s, MAX_DEC[..8]);
    if Numeral(s, DEC) <= 18446744 {
      WrapId(Numeral(s, DEC));
    }
  }

  /** The first 8 characters of MAX_DEC are the digits of 18446744. */
  lemma MaxDecPrefix()
    ensures AllInRange(MAX_DEC[..8], '0', '9') && Numeral(MAX_DEC[..8], DEC) == 18446744
  {
    var p := MAX_DEC[..8];
    assert p == [] + ['1'] + ['8'] + ['4'] + ['4'] + ['6'] + ['7'] + ['4'] + ['4'];
    DecDigitStep([], '1', 0);
    DecDigitStep([] + ['1'], '8', 1);
    DecDigitStep([] + ['1'] + ['8'], '4', 18);
    DecDigitStep([] + ['1'] + ['8'] + ['4'], '4', 184);
    DecDigitStep([] + ['1'] + ['8'] + ['4'] + ['4'], '6', 1844);
    DecDigitStep([] + ['1'] + ['8'] + ['4'] + ['4'] + ['6'], '7', 18446);
    DecDigitStep([] + ['1'] + ['8'] + ['4'] + ['4'] + ['6'] + ['7'], '4', 184467);
    DecDigitStep([] + ['1'] + ['8'] + ['4'] + ['4'] + ['6'] + ['7'] + ['4'], '4', 1844674);
  }

  /** A decimal digit character is worth its distance from `0`. */
  lemma DecDigitValue(c: Char8)
    requires '0' <= c <= '9'
    ensures DigitValue(c, DEC) == c as int - '0' as int
  {
  }

  lemma DecDigitStep(p: seq<Char8>, c: Char8, v: nat)
    requires Numeral(p, DEC) == v && '0' <= c <= '9'
    ensures Numeral(p + [c], DEC) == v * 10 + (c as int - '0' as int)
  {
    NumeralSnoc(p, c, DEC);
    DecDigitValue(c);
  }

  /** LexGreater looks only at the first |s| characters of max. */
  lemma {:induction false} LexPrefix(s: seq<Char8>, max: seq<Char8>)
    requires |s| <= |max|
    ensures LexGreater(s, max) == LexGreater(s, max[..|s|])
  {
    if |s| > 0 {
      LexPrefix(s[1..], max[1..]);
      assert max[..|s|][1..] == max[1..][..|s| - 1];
    }
  }

  /** Leading digits decide a comparison of a * P + x with b * P + y when x, y < P. */
  lemma DigitCompare(a: nat, b: nat, x: nat, y: nat, p: nat)
    requires x < p && y < p
    ensures a * p + x > b * p + y <==> a > b || (a == b && x > y)
  {
    if a > b {
      MulLe(b + 1, a, p);
    } else if a < b {
      MulLe(a + 1, b, p);
    }
  }

  /**
   * On decimal digit strings of equal length, the lexicographic order is the
   * numeric order.
   */
  lemma {:induction false} LexNumeric(s: seq<Char8>, t: seq<Char8>)
    requires |s| == |t| && AllInRange(s, '0', '9') && AllInRange(t, '0', '9')
    ensures LexGreater(s, t) <==> Numeral(s, DEC) > Numeral(t, DEC)
  {
    if |s| > 0 {
      assert AllInRange(s[1..], '0', '9') && AllInRange(t[1..], '0', '9');
      LexNumeric(s[1..], t[1..]);
      NumeralFront(s, DEC);
      NumeralFront(t, DEC);
      RangeDigitsBelow(s[1..], DEC, '9');
      RangeDigitsBelow(t[1..], DEC, '9');
      NumeralBound(s[1..], DEC);
      NumeralBound(t[1..], DEC);
      DecDigitValue(s[0]);
      DecDigitValue(t[0]);
      DigitCompare(DigitValue(s[0], DEC), DigitValue(t[0], DEC),
        Numeral(s[1..], DEC), Numeral(t[1..], DEC), Power(10, |s| - 1));
    }
  }

  /**
   * An illustration of DecAccepted and DecEightDigits on three inputs: with
   * `9` bits per decimal digit, a 9-digit string is out of bounds, and so is
   * an 8-digit one above 18446744, although both numbers would fit a word.
   */
  lemma DecShortBound()
    ensures UintmaxSpec("123456789", DEC) == Err(OutOfBounds)
    ensures UintmaxSpec("20000000", DEC) == Err(OutOfBounds)
    ensures UintmaxSpec("18446744", DEC) == Ok(18446744)
  {
    DecAccepted("123456789");
    assert LexGreater("20000000", MAX_DEC);
    MaxDecPrefix();
    assert "18446744" == MAX_DEC[..8];
    DecEightDigits("18446744");
  }

  /** A number's decimal string, read back, is that number. */
  lemma {:induction false} DecimalRoundTrip(n: nat)
    ensures AllInRange(DecimalString(n), '0', '9')
    ensures Numeral(DecimalString(n), DEC) == n
  {
    if n > 0 {
      DecimalRoundTrip(n / 10);
      var c := DigitChar(n % 10);
      DecDigitValue(c);
      NumeralSnoc(DecimalString(n / 10), c, DEC);
    }
  }

  /** The bound string `uintmax_max_dec_str` returns denotes `UINTMAX_MAX`. */
  lemma MaxDecValue()
    ensures AllInRange(MAX_DEC, '0', '9') && Numeral(MAX_DEC, DEC) == UINTMAX_MAX
  {
    MaxDecString();
    DecimalRoundTrip(UINTMAX_MAX);
  }

  lemma {:induction false} PowerOfSixteen(n: nat)
    ensures Power(16, n) == Pow2(4 * n)
  {
    if n > 0 {
      PowerOfSixteen(n - 1);
      Pow2Add(4 * (n - 1), 4);
      Pow2Values();
    }
  }

  /** The value of a concatenation: the digits of p are shifted past those of q. */
  lemma {:induction false} NumeralConcat(p: seq<Char8>, q: seq<Char8>, base: NumericBase)
    ensures Numeral(p + q, base) == Numeral(p, base) * Power(base, |q|) + Numeral(q, base)
  {
    if |q| == 0 {
      assert p + q == p;
    } else {
      var q' := q[..|q| - 1];
      assert (p + q)[..|p + q| - 1] == p + q';
      NumeralConcat(p, q', base);
      FrontStep(Numeral(p, base), Power(base, |q'|), Numeral(q', base), base, DigitValue(q[|q| - 1], base));
    }
  }

  /** Hexadecimal digits, the letters included, are worth less than 16. */
  lemma HexDigitsBelow(s: seq<Char8>)
    requires forall i :: 0 <= i < |s| ==> IsHexDigit(s[i])
    ensures DigitsBelow(s, HEX)
  {
  }

  /**
   * Hexadecimal: a string is accepted exactly when it has 1 to 64 hex
   * digits; only its last 16 digits (one word's worth) reach the result.
   */
  lemma HexAccepted(s: seq<Char8>)
    ensures UintmaxSpec(s, HEX).Ok? <==>
      0 < |s| <= WORD_BITS && forall i :: 0 <= i < |s| ==> IsHexDigit(s[i])
    ensures UintmaxSpec(s, HEX).Ok? && |s| <= 16 ==> UintmaxSpec(s, HEX).value == Numeral(s, HEX)
    ensures UintmaxSpec(s, HEX).Ok? && |s| > 16 ==>
      UintmaxSpec(s, HEX).value == Numeral(s[|s| - 16..], HEX)
  {
    if UintmaxSpec(s, HEX).Ok? {
      HexDigitsBelow(s);
      HexWordPower();
      if |s| <= 16 {
        HexShort(s);
      } else {
        HexLastWord(s, s[..|s| - 16], s[|s| - 16..]);
      }
    }
  }

  lemma HexWordPower()
    ensures Power(16, 16) == TWO_64
  {
    PowerOfSixteen(16);
    Pow2Add(32, 32);
    Pow2Values();
  }

  lemma HexShort(s: seq<Char8>)
    requires |s| <= 16 && DigitsBelow(s, HEX) && Power(16, 16) == TWO_64
    ensures Wrap(Numeral(s, HEX)) == Numeral(s, HEX)
  {
    NumeralBound(s, HEX);
    PowerMono(16, |s|, 16);
    WrapId(Numeral(s, HEX));
  }

  lemma HexLastWord(s: seq<Char8>, p: seq<Char8>, q: seq<Char8>)
    requires s == p + q && |q| == 16 && DigitsBelow(q, HEX) && Power(16, 16) == TWO_64
    ensures Wrap(Numeral(s, HEX)) == Numeral(q, HEX)
  {
    NumeralConcat(p, q, HEX);
    NumeralBound(q, HEX);
    ModOfDecomp(Numeral(s, HEX), TWO_64, Numeral(p, HEX), Numeral(q, HEX));
  }

  /**
   * `a`-`f` and `A`-`F` are worth their distance from `a` or `A`, not ten
   * more: a one-letter string reads as 0 to 5, the same as the digit that
   * distance names (`f` reads like `5`).
   */
  lemma HexLetterValues(c: Char8)
    requires InRange(c, 'a', 'f') || InRange(c, 'A', 'F')
    ensures var d := if InRange(c, 'a', 'f') then c as int - 'a' as int else c as int - 'A' as int;
      0 <= d <= 5 && UintmaxSpec([c], HEX) == Ok(d) &&
      UintmaxSpec([c], HEX) == UintmaxSpec([('0' as int + d) as char], HEX)
  {
    var digit: Char8 := (c as int - (if InRange(c, 'a', 'f') then 'a' as int else 'A' as int) + '0' as int) as char;
    assert [c][..0] == [] && [digit][..0] == [];
    assert Numeral([c], HEX) == DigitValue(c, HEX) == digit as int - '0' as int;
    assert Numeral([digit], HEX) == DigitValue(digit, HEX);
    WrapId(digit as int - '0' as int);
  }

  /** A value `string_to_intmax` returns is never `INTMAX_MIN`. */
  lemma IntmaxRange(s: seq<Char8>, base: NumericBase)
    ensures IntmaxSpec(s, base).Ok? ==> -TWO_64 / 2 < IntmaxSpec(s, base).value < TWO_64 / 2
  {
  }

  /**
   * After an optional sign, digits whose unsigned value u is below 2^63 read
   * as u, or as -u after a `-`; from 2^63 up they are out of bounds, so
   * `-9223372036854775808` cannot be read.
   */
  lemma IntmaxSign(digits: seq<Char8>, base: NumericBase, u: u64)
    requires UintmaxSpec(digits, base) == Ok(u)
    ensures IntmaxSpec(['-'] + digits, base) == if u < TWO_64 / 2 then Ok(-(u as int)) else Err(OutOfBounds)
    ensures IntmaxSpec(['+'] + digits, base) == if u < TWO_64 / 2 then Ok(u) else Err(OutOfBounds)
    ensures digits[0] != '-' && digits[0] != '+' ==>
      IntmaxSpec(digits, base) == if u < TWO_64 / 2 then Ok(u) else Err(OutOfBounds)
  {
    assert (['-'] + digits)[1..] == digits;
    assert (['+'] + digits)[1..] == digits;
  }

  /** Errors of the unsigned conversion pass through unchanged. */
  lemma IntmaxError(digits: seq<Char8>, base: NumericBase)
    requires UintmaxSpec(digits, base).Err?
    ensures IntmaxSpec(['-'] + digits, base) == Err(UintmaxSpec(digits, base).error)
  {
    assert (['-'] + digits)[1..] == digits;
  }
}
