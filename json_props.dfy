/**
 * What the JSON reader accepts: whitespace, raw strings, the number grammar
 * of section 6 of RFC 8259, and the printed form of every value.
 */
module JsonProperties {
  import opened Results
  import opened Parser
  import opened Json

  /* ---- whitespace ---- */

  /** `parse_whitespace` drops exactly the longest prefix of blanks, tabs and newline characters. */
  lemma WhitespaceSkipped(s: seq<char>)
    ensures var n := |s| - |SkipWs(s)|;
      && s == s[..n] + SkipWs(s)
      && (forall k :: 0 <= k < n ==> s[k] in WHITESPACE)
      && (SkipWs(s) == [] || SkipWs(s)[0] !in WHITESPACE)
  {
    SpanInMeaning(s, WHITESPACE);
  }

  /** Text that does not start with whitespace is left alone. */
  lemma NoWhitespace(s: seq<char>)
    requires s == [] || s[0] !in WHITESPACE
    ensures SpanIn(s, WHITESPACE) == 0 && SkipWs(s) == s
  {
    SpanInUnique(s, WHITESPACE, 0);
  }

  /* ---- strings ---- */

  /**
   * The text `parse_string` keeps between the quotes, position by position:
   * a backslash always opens the pair `\"`, and a quote only ever closes one.
   */
  predicate RawAt(t: seq<char>, k: int)
    requires 0 <= k < |t|
  {
    && (t[k] == '\\' ==> k + 1 < |t| && t[k + 1] == '"')
    && (t[k] == '"' ==> k > 0 && t[k - 1] == '\\')
  }

  predicate IsRawText(t: seq<char>)
  {
    forall k :: 0 <= k < |t| ==> RawAt(t, k)
  }

  /** Dropping a leading plain character or a leading `\"` pair keeps a text raw, and only then. */
  lemma RawTextDrop(t: seq<char>, m: nat)
    requires (m == 1 && |t| >= 1 && t[0] !in BACKSLASH_QUOTE) || (m == 2 && |t| >= 2 && t[..2] == ESCAPED_QUOTE)
    ensures IsRawText(t) <==> IsRawText(t[m..])
  {
    var u := t[m..];
    if IsRawText(t) {
      forall k | 0 <= k < |u|
        ensures RawAt(u, k)
      {
        assert RawAt(t, k + m);
      }
    }
    if IsRawText(u) {
      forall k | 0 <= k < |t|
        ensures RawAt(t, k)
      {
        if k >= m {
          assert RawAt(u, k - m);
        }
      }
    }
  }

  /** `parse_string` reads a whole text exactly when the text is raw. */
  lemma {:induction false} RawTextSpan(t: seq<char>)
    ensures StringSpan(t) == |t| <==> IsRawText(t)
  {
    if |t| == 0 {
    } else if t[0] !in BACKSLASH_QUOTE {
      StringSpanPlain(t);
      RawTextDrop(t, 1);
      RawTextSpan(t[1..]);
    } else if |t| >= 2 && t[..2] == ESCAPED_QUOTE {
      StringSpanEscape(t);
      RawTextDrop(t, 2);
      RawTextSpan(t[2..]);
    } else {
      StringSpanStop(t);
      assert !RawAt(t, 0);
    }
  }

  /** A raw text is read whole, whatever follows it. */
  lemma {:induction false} SpanConcat(t: seq<char>, x: seq<char>)
    requires StringSpan(t) == |t|
    ensures StringSpan(t + x) == |t| + StringSpan(x)
  {
    if |t| == 0 {
      assert t + x == x;
    } else if t[0] !in BACKSLASH_QUOTE {
      StringSpanPlain(t);
      SpanConcat(t[1..], x);
      SpanConcatStep(t, x, 1);
    } else if |t| >= 2 && t[..2] == ESCAPED_QUOTE {
      StringSpanEscape(t);
      SpanConcat(t[2..], x);
      SpanConcatStep(t, x, 2);
    } else {
      StringSpanStop(t);
    }
  }

  /** One plain character or one `\"` pair in front of a text read whole, and of anything after it. */
  lemma SpanConcatStep(t: seq<char>, x: seq<char>, m: nat)
    requires (m == 1 && |t| >= 1 && t[0] !in BACKSLASH_QUOTE) || (m == 2 && |t| >= 2 && t[..2] == ESCAPED_QUOTE)
    requires StringSpan(t[m..] + x) == |t| - m + StringSpan(x)
    ensures StringSpan(t + x) == |t| + StringSpan(x)
  {
    var s := t + x;
    assert s[m..] == t[m..] + x;
    if m == 1 {
      assert s[0] == t[0];
      StringSpanPlain(s);
    } else {
      assert s[..2] == t[..2];
      StringSpanEscape(s);
    }
  }

  /** A text read whole as the front of a longer one is read whole on its own. */
  lemma {:induction false} SpanPrefix(t: seq<char>, x: seq<char>)
    requires StringSpan(t + x) == |t|
    ensures StringSpan(t) == |t|
  {
    var s := t + x;
    if |t| == 0 {
    } else if s[0] !in BACKSLASH_QUOTE {
      StringSpanPlain(s);
      assert s[0] == t[0] && s[1..] == t[1..] + x;
      SpanPrefix(t[1..], x);
      StringSpanPlain(t);
    } else if |s| >= 2 && s[..2] == ESCAPED_QUOTE {
      StringSpanEscape(s);
      assert |t| >= 2;
      assert s[..2] == t[..2] && s[2..] == t[2..] + x;
      SpanPrefix(t[2..], x);
      StringSpanEscape(t);
    } else {
      StringSpanStop(s);
    }
  }

  /** What `parse_string` accepts is a quoted raw text, and it is exactly what was consumed. */
  lemma StringSound(s: seq<char>)
    ensures var r := StringSpec(s);
      r.result.Ok? ==> IsRawText(r.result.value.value) && s == QUOTE + r.result.value.value + QUOTE + r.rest
  {
    var r := StringSpec(s);
    if r.result.Ok? {
      var body := s[1..];
      var n := StringSpan(body);
      var t := body[..n];
      assert body == t + body[n..];
      SpanPrefix(t, body[n..]);
      RawTextSpan(t);
      assert s == QUOTE + t + QUOTE + r.rest;
    }
  }

  /** A quoted raw text is read whole, whatever follows the closing quote. */
  lemma StringComplete(t: seq<char>, rest: seq<char>)
    requires IsRawText(t)
    ensures StringSpec(QUOTE + t + QUOTE + rest) == Parsed(Ok(JString(t)), rest)
  {
    var s := QUOTE + t + QUOTE + rest;
    var body := s[1..];
    assert body == t + (QUOTE + rest);
    RawTextSpan(t);
    StringSpanStop(QUOTE + rest);
    SpanConcat(t, QUOTE + rest);
    assert body[..|t|] == t && body[|t|..] == QUOTE + rest;
  }

  /** Between quotes, a text is read back as itself exactly when it is raw. */
  lemma StringRoundTrip(t: seq<char>, rest: seq<char>)
    ensures StringSpec(QUOTE + t + QUOTE + rest) == Parsed(Ok(JString(t)), rest) <==> IsRawText(t)
  {
    if IsRawText(t) {
      StringComplete(t, rest);
    }
    var s := QUOTE + t + QUOTE + rest;
    StringSound(s);
    if StringSpec(s) == Parsed(Ok(JString(t)), rest) {
      assert IsRawText(t);
    }
  }

  /* ---- numbers: the grammar of section 6 of RFC 8259 ---- */

  predicate AllDigits(t: seq<char>)
  {
    forall k :: 0 <= k < |t| ==> t[k] in DIGITS
  }

  /** `minus` is optional. */
  predicate IsSign(t: seq<char>)
  {
    t == [] || t == MINUS
  }

  /** `int = zero / ( digit1-9 *DIGIT )`. */
  predicate IsInteger(t: seq<char>)
  {
    t == ZERO || (|t| > 0 && t[0] in NONZERO && AllDigits(t[1..]))
  }

  /** `frac = decimal-point 1*DIGIT`, or nothing. */
  predicate IsFraction(t: seq<char>)
  {
    t == [] || (|t| >= 2 && t[0] == '.' && AllDigits(t[1..]))
  }

  /** `exp = e [ minus / plus ] 1*DIGIT`, or nothing. */
  predicate IsExponent(t: seq<char>)
  {
    || t == []
    || (&& |t| >= 2 && t[0] in EXPONENT
        && if t[1] in SIGNS then |t| >= 3 && AllDigits(t[2..]) else AllDigits(t[1..]))
  }

  /** `number = [ minus ] int [ frac ] [ exp ]`, split at i, j and k. */
  predicate IsNumberAt(t: seq<char>, i: nat, j: nat, k: nat)
  {
    && i <= j <= k <= |t|
    && IsSign(t[..i]) && IsInteger(t[i..j]) && IsFraction(t[j..k]) && IsExponent(t[k..])
  }

  predicate IsNumber(t: seq<char>)
  {
    exists i: nat, j: nat, k: nat | i <= j <= k <= |t| :: IsNumberAt(t, i, j, k)
  }

  /** The characters that could extend a number. */
  const NUMBER_CHARS: seq<char> := DIGITS + POINT + EXPONENT

  /** What may follow a number without becoming part of it. */
  predicate NumberEnd(rest: seq<char>)
  {
    rest == [] || rest[0] !in NUMBER_CHARS
  }

  lemma DigitsSpan(s: seq<char>)
    ensures AllDigits(s[..SpanIn(s, DIGITS)])
    ensures SpanIn(s, DIGITS) == |s| || s[SpanIn(s, DIGITS)] !in DIGITS
  {
    SpanInMeaning(s, DIGITS);
  }

  lemma DigitsUnique(d: seq<char>, x: seq<char>)
    requires AllDigits(d) && (x == [] || x[0] !in DIGITS)
    ensures SpanIn(d + x, DIGITS) == |d|
  {
    var s := d + x;
    if |x| > 0 {
      assert s[|d|] == x[0];
    }
    SpanInUnique(s, DIGITS, |d|);
  }

  /** What the integer stage accepts is an integer, and it is exactly what was consumed. */
  lemma IntegerSound(s: seq<char>)
    ensures var r := IntegerSpec(s);
      r.result.Ok? ==> IsInteger(r.result.value) && s == r.result.value + r.rest
  {
    if !(|s| > 0 && s[0] == '0') && CharResult(s, NONZERO).Ok? {
      var n := SpanIn(s[1..], DIGITS);
      DigitsSpan(s[1..]);
      assert s[..1 + n][1..] == s[1..][..n];
      assert s == s[..1 + n] + s[1 + n..];
    } else if |s| > 0 && s[0] == '0' {
      assert s == s[..1] + s[1..];
    }
  }

  lemma IntegerComplete(a: seq<char>, x: seq<char>)
    requires IsInteger(a) && (x == [] || x[0] !in DIGITS)
    ensures IntegerSpec(a + x) == Parsed(Ok(a), x)
  {
    var s := a + x;
    if a == ZERO {
      assert s[..1] == a && s[1..] == x;
    } else {
      assert s[0] == a[0] && s[0] != '0';
      assert s[1..] == a[1..] + x;
      DigitsUnique(a[1..], x);
      assert s[..|a|] == a && s[|a|..] == x;
    }
  }

  lemma FractionSound(s: seq<char>)
    ensures var r := FractionSpec(s);
      r.result.Ok? ==> IsFraction(r.result.value) && s == r.result.value + r.rest
  {
    if |s| > 0 && s[0] == '.' && CharResult(s[1..], DIGITS).Ok? {
      var n := SpanIn(s[2..], DIGITS);
      DigitsSpan(s[2..]);
      assert s[..2 + n][1..] == [s[1]] + s[2..][..n];
      assert s == s[..2 + n] + s[2 + n..];
    }
  }

  lemma FractionComplete(f: seq<char>, x: seq<char>)
    requires IsFraction(f) && (x == [] || (x[0] !in DIGITS && x[0] != '.'))
    ensures FractionSpec(f + x) == Parsed(Ok(f), x)
  {
    var s := f + x;
    if f == [] {
      assert s == x;
    } else {
      assert s[0] == '.' && s[1] == f[1];
      assert s[2..] == f[2..] + x;
      DigitsUnique(f[2..], x);
      assert s[..|f|] == f && s[|f|..] == x;
    }
  }

  lemma ExponentSound(s: seq<char>)
    ensures var r := ExponentSpec(s);
      r.result.Ok? ==> IsExponent(r.result.value) && s == r.result.value + r.rest
  {
    if |s| > 0 && s[0] in EXPONENT {
      var t := SkipOptional(s[1..], SIGNS);
      if CharResult(t, DIGITS).Ok? {
        var m := |s| - |t|;
        assert t == s[m..];
        var n := SpanIn(t[1..], DIGITS);
        DigitsSpan(t[1..]);
        assert t[1..] == s[m + 1..];
        ExponentSoundAt(s, m, n);
      }
    }
  }

  /** `e`, an optional sign ending before position m, a digit at m and n more digits make an exponent. */
  lemma ExponentSoundAt(s: seq<char>, m: nat, n: nat)
    requires (m == 1 || m == 2) && m + 1 + n <= |s| && s[0] in EXPONENT
    requires (m == 2 <==> s[1] in SIGNS) && s[m] in DIGITS && AllDigits(s[m + 1..][..n])
    ensures IsExponent(s[..m + 1 + n]) && s == s[..m + 1 + n] + s[m + 1 + n..]
  {
    var e := s[..m + 1 + n];
    assert e[m..] == [s[m]] + s[m + 1..][..n];
    DigitsCons(s[m], s[m + 1..][..n]);
    ExponentOfParts(e, m);
  }

  /** A digit in front of digits. */
  lemma DigitsCons(c: char, d: seq<char>)
    requires c in DIGITS && AllDigits(d)
    ensures AllDigits([c] + d)
  {
    assert forall k :: 1 <= k < |d| + 1 ==> ([c] + d)[k] == d[k - 1];
  }

  /** `e`, the sign when there is one, then digits from position m on, make an exponent. */
  lemma ExponentOfParts(e: seq<char>, m: nat)
    requires (m == 1 || m == 2) && |e| >= m + 1 && e[0] in EXPONENT
    requires (m == 2 <==> e[1] in SIGNS) && AllDigits(e[m..])
    ensures IsExponent(e)
  {
  }

  lemma ExponentComplete(e: seq<char>, x: seq<char>)
    requires IsExponent(e) && (x == [] || (x[0] !in DIGITS && x[0] !in EXPONENT))
    ensures ExponentSpec(e + x) == Parsed(Ok(e), x)
  {
    var s := e + x;
    if e == [] {
      assert s == x;
    } else {
      assert s[0] == e[0] && s[1] == e[1];
      var m := if e[1] in SIGNS then 2 else 1;
      assert SkipOptional(s[1..], SIGNS) == s[m..];
      assert s[m] == e[m];
      assert s[m + 1..] == e[m + 1..] + x;
      DigitsUnique(e[m + 1..], x);
      assert s[..|e|] == e && s[|e|..] == x;
    }
  }

  /** `parse_number` once all its stages have succeeded. */
  lemma NumberStages(s: seq<char>, integer: Parsed<seq<char>>, fraction: Parsed<seq<char>>, exponent: Parsed<seq<char>>)
    requires integer == IntegerSpec(SkipOptional(s, MINUS)) && integer.result.Ok?
    requires fraction == FractionSpec(integer.rest) && fraction.result.Ok?
    requires exponent == ExponentSpec(fraction.rest) && exponent.result.Ok?
    ensures NumberSpec(s) == Parsed(Ok(Consumed(s, exponent.rest)), exponent.rest)
  {
  }

  /** The four parts of the grammar, one after the other, make a number. */
  lemma NumberOfParts(sign: seq<char>, a: seq<char>, f: seq<char>, e: seq<char>)
    requires IsSign(sign) && IsInteger(a) && IsFraction(f) && IsExponent(e)
    ensures IsNumber(sign + a + f + e)
  {
    var t := sign + a + f + e;
    var i, j, k := |sign|, |sign| + |a|, |sign| + |a| + |f|;
    assert t[..i] == sign && t[i..j] == a && t[j..k] == f && t[k..] == e;
    assert IsNumberAt(t, i, j, k);
  }

  /** Four parts and a rest, regrouped. */
  lemma PrefixOfFour(sign: seq<char>, a: seq<char>, f: seq<char>, e: seq<char>, rest: seq<char>)
    ensures sign + (a + (f + (e + rest))) == (sign + a + f + e) + rest
  {
  }

  /** A text cut into a sign, an integer, a fraction, an exponent and a rest starts with a number. */
  lemma NumberOfSplit(s: seq<char>, sign: seq<char>, x0: seq<char>, a: seq<char>, x1: seq<char>,
                      f: seq<char>, x2: seq<char>, e: seq<char>, x3: seq<char>)
    requires s == sign + x0 && x0 == a + x1 && x1 == f + x2 && x2 == e + x3
    requires IsSign(sign) && IsInteger(a) && IsFraction(f) && IsExponent(e)
    ensures |x3| <= |s| && IsNumber(Consumed(s, x3)) && s == Consumed(s, x3) + x3
  {
    var t := sign + a + f + e;
    assert s == t + x3 by {
      PrefixOfFour(sign, a, f, e, x3);
    }
    assert Consumed(s, x3) == t;
    NumberOfParts(sign, a, f, e);
  }

  /** When all three stages succeed, what they consumed is a number of the grammar. */
  lemma StagesSound(s: seq<char>, integer: Parsed<seq<char>>, fraction: Parsed<seq<char>>, exponent: Parsed<seq<char>>)
    requires integer == IntegerSpec(SkipOptional(s, MINUS)) && integer.result.Ok?
    requires fraction == FractionSpec(integer.rest) && fraction.result.Ok?
    requires exponent == ExponentSpec(fraction.rest) && exponent.result.Ok?
    ensures |exponent.rest| <= |s|
    ensures IsNumber(Consumed(s, exponent.rest)) && s == Consumed(s, exponent.rest) + exponent.rest
  {
    var x0 := SkipOptional(s, MINUS);
    var sign := s[..|s| - |x0|];
    assert IsSign(sign) && s == sign + x0 by {
      if |s| > 0 && s[0] in MINUS {
        assert sign == MINUS;
      }
    }
    IntegerSound(x0);
    FractionSound(integer.rest);
    ExponentSound(fraction.rest);
    NumberOfSplit(s, sign, x0, integer.result.value, integer.rest, fraction.result.value, fraction.rest,
                  exponent.result.value, exponent.rest);
  }

  /** What `parse_number` accepts is a number of the grammar, and it is exactly what was consumed. */
  lemma NumberSound(s: seq<char>)
    ensures var r := NumberSpec(s);
      r.result.Ok? ==> IsNumber(r.result.value) && s == r.result.value + r.rest
  {
    var integer := IntegerSpec(SkipOptional(s, MINUS));
    if integer.result.Ok? {
      var fraction := FractionSpec(integer.rest);
      if fraction.result.Ok? {
        var exponent := ExponentSpec(fraction.rest);
        if exponent.result.Ok? {
          StagesSound(s, integer, fraction, exponent);
          NumberStages(s, integer, fraction, exponent);
        }
      }
    }
  }

  /** After the fraction of a number comes no digit and no decimal point. */
  lemma FollowsFraction(e: seq<char>, rest: seq<char>)
    requires IsExponent(e) && NumberEnd(rest)
    ensures var x := e + rest; x == [] || (x[0] !in DIGITS && x[0] != '.')
  {
    var x := e + rest;
    if e != [] {
      assert x[0] == e[0] && e[0] in EXPONENT;
    } else if rest != [] {
      assert x[0] == rest[0] && rest[0] !in NUMBER_CHARS;
      assert forall c :: c in DIGITS + POINT ==> c in NUMBER_CHARS;
    }
  }

  /** After the integer part of a number comes no digit. */
  lemma FollowsInteger(f: seq<char>, e: seq<char>, rest: seq<char>)
    requires IsFraction(f) && IsExponent(e) && NumberEnd(rest)
    ensures var x := f + (e + rest); x == [] || x[0] !in DIGITS
  {
    var x := f + (e + rest);
    FollowsFraction(e, rest);
    if f != [] {
      assert x[0] == f[0];
    } else {
      assert x == e + rest;
    }
  }

  /** Each stage reads its own part of a number of the grammar whole. */
  lemma StagesComplete(sign: seq<char>, a: seq<char>, f: seq<char>, e: seq<char>, rest: seq<char>)
    requires IsSign(sign) && IsInteger(a) && IsFraction(f) && IsExponent(e) && NumberEnd(rest)
    ensures SkipOptional(sign + (a + (f + (e + rest))), MINUS) == a + (f + (e + rest))
    ensures IntegerSpec(a + (f + (e + rest))) == Parsed(Ok(a), f + (e + rest))
    ensures FractionSpec(f + (e + rest)) == Parsed(Ok(f), e + rest)
    ensures ExponentSpec(e + rest) == Parsed(Ok(e), rest)
  {
    var x2 := e + rest;
    var x1 := f + x2;
    var x0 := a + x1;
    var s := sign + x0;
    ExponentComplete(e, rest);
    FollowsFraction(e, rest);
    FractionComplete(f, x2);
    FollowsInteger(f, e, rest);
    IntegerComplete(a, x1);
    if sign == [] {
      assert s[0] == a[0];
    } else {
      assert s[1..] == x0;
    }
  }

  /** The four parts of a number, each read whole by its stage, make the number read whole. */
  lemma NumberPartsComplete(sign: seq<char>, a: seq<char>, f: seq<char>, e: seq<char>, rest: seq<char>)
    requires IsSign(sign) && IsInteger(a) && IsFraction(f) && IsExponent(e) && NumberEnd(rest)
    ensures NumberSpec(sign + (a + (f + (e + rest)))) == Parsed(Ok(sign + a + f + e), rest)
  {
    var s := sign + (a + (f + (e + rest)));
    StagesComplete(sign, a, f, e, rest);
    NumberStages(s, IntegerSpec(a + (f + (e + rest))), FractionSpec(f + (e + rest)), ExponentSpec(e + rest));
    PrefixOfFour(sign, a, f, e, rest);
    assert Consumed(s, rest) == sign + a + f + e;
  }

  lemma SplitFour(t: seq<char>, i: nat, j: nat, k: nat, rest: seq<char>)
    requires i <= j <= k <= |t|
    ensures t == t[..i] + t[i..j] + t[j..k] + t[k..]
    ensures t + rest == t[..i] + (t[i..j] + (t[j..k] + (t[k..] + rest)))
  {
    assert t == t[..i] + t[i..j] + t[j..k] + t[k..];
  }

  /** A number split at i, j and k, followed by a character that cannot extend it, is read whole. */
  lemma NumberCompleteAt(t: seq<char>, i: nat, j: nat, k: nat, rest: seq<char>)
    requires IsNumberAt(t, i, j, k) && NumberEnd(rest)
    ensures NumberSpec(t + rest) == Parsed(Ok(t), rest)
  {
    SplitFour(t, i, j, k, rest);
    NumberPartsComplete(t[..i], t[i..j], t[j..k], t[k..], rest);
  }

  /** A number of the grammar followed by a character that cannot extend it is read whole. */
  lemma NumberComplete(t: seq<char>, rest: seq<char>)
    requires IsNumber(t) && NumberEnd(rest)
    ensures NumberSpec(t + rest) == Parsed(Ok(t), rest)
  {
    var i: nat, j: nat, k: nat :| i <= j <= k <= |t| && IsNumberAt(t, i, j, k);
    NumberCompleteAt(t, i, j, k, rest);
  }

  /** Followed by a character that cannot extend it, a text is read as a number exactly when it is one. */
  lemma NumberGrammar(t: seq<char>, rest: seq<char>)
    requires NumberEnd(rest)
    ensures NumberSpec(t + rest) == Parsed(Ok(t), rest) <==> IsNumber(t)
  {
    if IsNumber(t) {
      NumberComplete(t, rest);
    }
    NumberSound(t + rest);
  }

  /** After a leading `0` no further integer digit is read: `01` is the number `0` followed by `1`. */
  lemma LeadingZero(d: seq<char>)
    requires |d| > 0 && d[0] in DIGITS
    ensures NumberSpec(ZERO + d) == Parsed(Ok(ZERO), d)
  {
    var s := ZERO + d;
    assert SkipOptional(s, MINUS) == s;
    assert IntegerSpec(s) == Parsed(Ok(ZERO), d) by {
      assert s[..1] == ZERO && s[1..] == d;
    }
    assert FractionSpec(d) == Parsed(Ok([]), d);
    assert ExponentSpec(d) == Parsed(Ok([]), d);
    assert s[..|s| - |d|] == ZERO;
  }
}
