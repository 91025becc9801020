/**
 * What the FASM reader accepts and what it returns: the words and digit runs
 * it scans, the value a run denotes, and round trips through the text the
 * `operator<<` printers of fasm.cpp write for names, addresses and
 * annotations.
 */
module FasmProperties {
  import opened Words
  import opened Results
  import opened Parser
  import opened BigInts
  import opened Fasm
  import Json
  import JsonProperties

  /* ---- blanks ---- */

  /** `parse_non_newline_whitespace` drops spaces and tabs, and stops at anything else. */
  lemma BlankSkipped(s: seq<char>)
    ensures var n := |s| - |SkipBlank(s)|;
      && s == s[..n] + SkipBlank(s)
      && (forall k :: 0 <= k < n ==> s[k] in BLANK)
      && (SkipBlank(s) == [] || SkipBlank(s)[0] !in BLANK)
  {
    SpanInMeaning(s, BLANK);
    assert s == s[..SpanIn(s, BLANK)] + s[SpanIn(s, BLANK)..];
  }

  predicate AllBlank(b: seq<char>)
  {
    forall k :: 0 <= k < |b| ==> b[k] in BLANK
  }

  /** Blanks in front of a text that does not start with one are skipped, and nothing more. */
  lemma BlankThen(b: seq<char>, t: seq<char>)
    requires AllBlank(b) && (t == [] || t[0] !in BLANK)
    ensures SkipBlank(b + t) == t
  {
    var s := b + t;
    assert forall k :: 0 <= k < |b| ==> s[k] == b[k];
    SpanInUnique(s, BLANK, |b|);
    assert s[|b|..] == t;
  }

  /** A text that does not start with a blank is left alone by `parse_non_newline_whitespace`. */
  lemma NoBlank(s: seq<char>)
    requires s == [] || s[0] !in BLANK
    ensures SpanIn(s, BLANK) == 0 && SkipBlank(s) == s
  {
  }

  /* ---- identifiers and annotation names ---- */

  /** A whole word of the kind: a start character, then `[A-Za-z0-9_]*`. */
  predicate IsWord(w: seq<char>, kind: WordKind)
  {
    |w| > 0 && StartsWord(w[0], kind) && forall k :: 1 <= k < |w| ==> IsWordChar(w[k])
  }

  /** What may follow a word: nothing, or a character a word cannot go on with. */
  predicate EndsWord(rest: seq<char>)
  {
    rest == [] || !IsWordChar(rest[0])
  }

  /** A word is read back from its text exactly when it is a whole word and the text after it cannot extend it. */
  lemma WordRoundTrip(w: seq<char>, rest: seq<char>, kind: WordKind)
    ensures WordSpec(w + rest, kind) == Parsed(Ok(w), rest) <==> IsWord(w, kind) && EndsWord(rest)
  {
    var s := w + rest;
    if IsWord(w, kind) && EndsWord(rest) {
      var tail := s[1..];
      assert forall k :: 0 <= k < |w| - 1 ==> tail[k] == w[k + 1];
      ClassSpanUnique(tail, WordChars, |w| - 1);
      assert s[..|w|] == w && s[|w|..] == rest;
    }
    if WordSpec(s, kind) == Parsed(Ok(w), rest) {
      var n := 1 + ClassSpan(s[1..], WordChars);
      assert s[..n] == w;
      ClassSpanMeaning(s[1..], WordChars);
      forall k | 1 <= k < |w|
        ensures IsWordChar(w[k])
      {
        assert w[k] == s[1..][k - 1];
      }
      assert n == |s| || s[1..][n - 1] == rest[0];
    }
  }

  /** `parse_identifier` and `parse_annotation_name` fail, leaving the input alone, exactly when no start character comes first. */
  lemma WordFails(s: seq<char>, kind: WordKind)
    ensures WordSpec(s, kind).result.Err? <==> s == [] || !StartsWord(s[0], kind)
    ensures WordSpec(s, kind).result.Err? ==> WordSpec(s, kind).rest == s
  {
  }

  /* ---- features ---- */

  /** The text the feature printer writes: the names joined by `.`. */
  function FeatureText(names: seq<seq<char>>): (t: seq<char>)
    requires |names| > 0
    ensures |t| >= |names[0]| && t[..|names[0]|] == names[0]
    ensures |names| > 1 ==> |t| > |names[0]| && t[|names[0]|] == '.'
  {
    if |names| == 1 then names[0] else names[0] + DOT + FeatureText(names[1..])
  }

  predicate AllIdentifiers(names: seq<seq<char>>)
  {
    forall k :: 0 <= k < |names| ==> IsWord(names[k], Identifier)
  }

  /** `parse_feature` reads the printed names back, given that what follows neither extends a name nor starts another. */
  lemma {:induction false} FeatureRoundTrip(names: seq<seq<char>>, rest: seq<char>)
    requires |names| > 0 && AllIdentifiers(names)
    requires EndsWord(rest) && (rest == [] || rest[0] != '.')
    ensures FeatureSpec(FeatureText(names) + rest) == Parsed(Ok(names), rest)
  {
    var first := names[0];
    if |names| == 1 {
      WordRoundTrip(first, rest, Identifier);
      FeatureLast(FeatureText(names) + rest, first, rest);
      assert [first] == names;
    } else {
      var after := FeatureTextSplit(names, rest);
      WordRoundTrip(first, after, Identifier);
      FeatureRoundTrip(names[1..], rest);
      FeatureNext(FeatureText(names) + rest, first, after);
    }
  }

  /** The printed names, seen as the first name, then a `.` and the others. */
  lemma FeatureTextSplit(names: seq<seq<char>>, rest: seq<char>) returns (after: seq<char>)
    requires |names| > 1
    ensures FeatureText(names) + rest == names[0] + after
    ensures after == DOT + (FeatureText(names[1..]) + rest) && after[1..] == FeatureText(names[1..]) + rest
    ensures EndsWord(after) && names == [names[0]] + names[1..]
  {
    after := DOT + (FeatureText(names[1..]) + rest);
  }

  /** One pass of the loop of `parse_feature` that finds no `.` after the name. */
  lemma FeatureLast(s: seq<char>, first: seq<char>, after: seq<char>)
    requires WordSpec(s, Identifier) == Parsed(Ok(first), after) && CharResult(after, DOT).Err?
    ensures FeatureSpec(s) == Parsed(Ok([first]), after)
  {
  }

  /** One pass of the loop of `parse_feature` that finds a `.` after the name. */
  lemma FeatureNext(s: seq<char>, first: seq<char>, after: seq<char>)
    requires WordSpec(s, Identifier) == Parsed(Ok(first), after) && CharResult(after, DOT).Ok?
    ensures FeatureSpec(s) == Prepend([first], FeatureSpec(after[1..]))
  {
  }

  /* ---- digit runs ---- */

  /** The characters of t other than `_`, in order. */
  function Digits(t: seq<char>): (d: seq<char>)
    ensures |d| <= |t|
  {
    if |t| == 0 then []
    else if t[|t| - 1] == '_' then Digits(t[..|t| - 1])
    else Digits(t[..|t| - 1]) + [t[|t| - 1]]
  }

  /** `_` is a separator only: a run is worth what its digits alone are worth. */
  lemma {:induction false} UnderscoresIgnored(t: seq<char>, radix: Radix)
    ensures FoldValue(t, radix) == FoldValue(Digits(t), radix)
  {
    if |t| > 0 {
      var init := t[..|t| - 1];
      var c := t[|t| - 1];
      UnderscoresIgnored(init, radix);
      if c != '_' {
        FoldValueSnoc(Digits(init), c, radix);
      }
    }
  }

  /** A run of underscores alone (`_` on its own, say) is worth 0. */
  lemma {:induction false} UnderscoresAreZero(t: seq<char>, radix: Radix)
    requires forall k :: 0 <= k < |t| ==> t[k] == '_'
    ensures FoldValue(t, radix) == 0
  {
    if |t| > 0 {
      UnderscoresAreZero(t[..|t| - 1], radix);
    }
  }

  /** The digit of radix worth d; letters are lower case. */
  function DigitChar(d: nat, radix: Radix): (c: char)
    requires d < Base(radix)
    ensures IsDigit(c, radix) && DigitValue(c) == d
  {
    if d < 10 then ('0' as int + d) as char else ('a' as int + d - 10) as char
  }

  /** The digits of n in radix, most significant first, without leading zeros (`0` for zero). */
  function DigitsOf(n: nat, radix: Radix): (t: seq<char>)
    ensures |t| > 0 && forall k :: 0 <= k < |t| ==> IsDigit(t[k], radix)
    decreases n
  {
    if n < Base(radix) then [DigitChar(n, radix)]
    else DigitsOf(n / Base(radix), radix) + [DigitChar(n % Base(radix), radix)]
  }

  /** The fold of a run inverts `DigitsOf`. */
  lemma {:induction false} DigitsOfValue(n: nat, radix: Radix)
    ensures FoldValue(DigitsOf(n, radix), radix) == n
    decreases n
  {
    var b := Base(radix);
    if n < b {
      FoldValueSnoc([], DigitChar(n, radix), radix);
      assert [] + [DigitChar(n, radix)] == DigitsOf(n, radix);
    } else {
      DigitsOfValue(n / b, radix);
      FoldValueSnoc(DigitsOf(n / b, radix), DigitChar(n % b, radix), radix);
    }
  }

  /** A positive number's digits start with a non-zero digit. */
  lemma {:induction false} DigitsOfLead(n: nat, radix: Radix)
    requires n > 0
    ensures DigitsOf(n, radix)[0] != '0'
    decreases n
  {
    var b := Base(radix);
    if n >= b {
      DigitsOfLead(n / b, radix);
    }
  }

  /** A positive number's decimal digits start with `1` to `9`. */
  lemma DecimalLead(n: nat)
    requires n > 0
    ensures '1' <= DigitsOf(n, Dec)[0] <= '9'
  {
    DigitsOfLead(n, Dec);
    assert IsDigit(DigitsOf(n, Dec)[0], Dec);
  }

  predicate IsRun(t: seq<char>, radix: Radix)
  {
    |t| > 0 && forall k :: 0 <= k < |t| ==> InDigitRun(t[k], radix)
  }

  predicate EndsRun(rest: seq<char>, radix: Radix)
  {
    rest == [] || !InDigitRun(rest[0], radix)
  }

  /** A whole run followed by a character outside it is read as the fold of the run. */
  lemma RunRoundTrip(t: seq<char>, rest: seq<char>, radix: Radix)
    requires IsRun(t, radix) && EndsRun(rest, radix)
    ensures DigitsSpec(t + rest, radix) == Parsed(Ok(FromInt(FoldValue(t, radix))), rest)
  {
    var s := t + rest;
    assert forall k :: 0 <= k < |t| ==> s[k] == t[k];
    ClassSpanUnique(s, DigitRun(radix), |t|);
    assert s[..|t|] == t && s[|t|..] == rest;
  }

  /** What a `parse_*_value` returns is the fold of the run it consumed, which is whole. */
  lemma RunSound(s: seq<char>, radix: Radix)
    requires DigitsSpec(s, radix).result.Ok?
    ensures var r := DigitsSpec(s, radix);
      var t := s[..|s| - |r.rest|];
      && s == t + r.rest && IsRun(t, radix) && EndsRun(r.rest, radix)
      && Value(r.result.value) == FoldValue(t, radix)
  {
    var n := ClassSpan(s, DigitRun(radix));
    ClassSpanMeaning(s, DigitRun(radix));
    FromIntValue(FoldValue(s[..n], radix));
    assert s == s[..n] + s[n..];
  }

  /** Every number is read back from its digits in every radix. */
  lemma NumberRoundTrip(n: nat, rest: seq<char>, radix: Radix)
    requires EndsRun(rest, radix)
    ensures DigitsSpec(DigitsOf(n, radix) + rest, radix) == Parsed(Ok(FromInt(n)), rest)
  {
    DigitsOfValue(n, radix);
    RunRoundTrip(DigitsOf(n, radix), rest, radix);
  }

  /* ---- bases and widths ---- */

  /** The prefix that picks a radix in a width: none for decimal, else `0b`, `0o`, `0x` in either case. */
  function BasePrefix(radix: Radix, upper: bool): seq<char>
  {
    match radix
    case Dec => []
    case Bin => ['0', if upper then 'B' else 'b']
    case Oct => ['0', if upper then 'O' else 'o']
    case Hex => ['0', if upper then 'X' else 'x']
  }

  /** `parse_value_base` consumes a `0b`, `0o` or `0x` prefix and names its radix. */
  lemma ValueBasePrefix(radix: Radix, upper: bool, t: seq<char>)
    requires radix != Dec
    ensures ValueBaseSpec(BasePrefix(radix, upper) + t) == Parsed(Ok(radix), t)
  {
    assert (BasePrefix(radix, upper) + t)[2..] == t;
  }

  /** `parse_value_base` takes a leading `1`..`9` for decimal and consumes nothing. */
  lemma ValueBaseDecimal(s: seq<char>)
    requires |s| >= 2 && '1' <= s[0] <= '9'
    ensures ValueBaseSpec(s) == Parsed(Ok(Dec), s)
  {
  }

  /** What `parse_value_base` accepts: a decimal start it leaves in place, or a prefix it consumes. */
  lemma ValueBaseSound(s: seq<char>)
    requires ValueBaseSpec(s).result.Ok?
    ensures var r := ValueBaseSpec(s);
      if r.result.value == Dec then r.rest == s && |s| >= 2 && '1' <= s[0] <= '9'
      else s == BasePrefix(r.result.value, 'A' <= s[1] <= 'Z') + r.rest
  {
    assert s == s[..2] + s[2..];
  }

  /** The digits of a width and what may follow them; a decimal width has no leading zero. */
  predicate WidthDigits(radix: Radix, w: nat)
  {
    radix == Dec ==> w > 0
  }

  /** The first character of the digits of a width cannot be read as a base prefix. */
  lemma WidthDigitsStart(radix: Radix, upper: bool, w: nat, x: seq<char>) returns (t: seq<char>)
    requires WidthDigits(radix, w) && |x| > 0
    ensures t == DigitsOf(w, radix) + x
    ensures ValueBaseSpec(BasePrefix(radix, upper) + t) == Parsed(Ok(radix), t)
  {
    t := DigitsOf(w, radix) + x;
    if radix == Dec {
      DigitsOfLead(w, radix);
      assert BasePrefix(radix, upper) + t == t;
      ValueBaseDecimal(t);
    } else {
      ValueBasePrefix(radix, upper, t);
    }
  }

  /** The glue of `parse_verilog_value_width` on a base, a run that fits a word, blanks and a `'`. */
  lemma WidthOfRun(s: seq<char>, radix: Radix, t: seq<char>, w: u64, x: seq<char>, unset: u64)
    requires ValueBaseSpec(s) == Parsed(Ok(radix), t)
    requires DigitsSpec(t, radix) == Parsed(Ok(FromInt(w)), x)
    requires CharResult(SkipBlank(x), TICK).Ok?
    ensures WidthSpec(s, unset) == Parsed(Ok(w), SkipBlank(x))
  {
    FromIntValue(w);
  }

  /** A width written with any prefix, any blanks and a `'` after it is read back; the `'` is left for the value. */
  lemma WidthRoundTrip(radix: Radix, upper: bool, w: u64, blanks: seq<char>, rest: seq<char>, unset: u64)
    requires WidthDigits(radix, w) && AllBlank(blanks)
    ensures WidthSpec(BasePrefix(radix, upper) + DigitsOf(w, radix) + blanks + TICK + rest, unset) == Parsed(Ok(w), TICK + rest)
  {
    var x := WidthTextShape(radix, upper, w, blanks, rest);
    var t := WidthDigitsStart(radix, upper, w, x);
    NumberRoundTrip(w, x, radix);
    BlankThen(blanks, TICK + rest);
    WidthOfRun(BasePrefix(radix, upper) + t, radix, t, w, x, unset);
  }

  lemma WidthTextShape(radix: Radix, upper: bool, w: nat, blanks: seq<char>, rest: seq<char>) returns (x: seq<char>)
    ensures x == blanks + (TICK + rest) && |x| > 0
    ensures BasePrefix(radix, upper) + DigitsOf(w, radix) + blanks + TICK + rest == BasePrefix(radix, upper) + (DigitsOf(w, radix) + x)
  {
    x := blanks + (TICK + rest);
  }

  /** A width too large for `uintmax_t` is `integer_overflow`, and the input is restored. */
  lemma WidthOverflow(radix: Radix, upper: bool, n: nat, x: seq<char>, unset: u64)
    requires WidthDigits(radix, n) && n >= TWO_64 && |x| > 0 && EndsRun(x, radix)
    ensures var s := BasePrefix(radix, upper) + DigitsOf(n, radix) + x;
      WidthSpec(s, unset) == Parsed(Err(IntegerOverflow), s)
  {
    var t := WidthDigitsStart(radix, upper, n, x);
    assert BasePrefix(radix, upper) + DigitsOf(n, radix) + x == BasePrefix(radix, upper) + t;
    NumberRoundTrip(n, x, radix);
    WidthOfLargeRun(BasePrefix(radix, upper) + t, radix, t, n, x, unset);
  }

  /** The glue of `parse_verilog_value_width` on a base and a run too large for a word. */
  lemma WidthOfLargeRun(s: seq<char>, radix: Radix, t: seq<char>, n: nat, x: seq<char>, unset: u64)
    requires ValueBaseSpec(s) == Parsed(Ok(radix), t)
    requires DigitsSpec(t, radix) == Parsed(Ok(FromInt(n)), x) && n >= TWO_64
    ensures WidthSpec(s, unset) == Parsed(Err(IntegerOverflow), s)
  {
    FromIntValue(n);
  }

  /**
   * With no base prefix before the `'` (a value written `'b1`, say)
   * `parse_verilog_value_width` succeeds without having set its result, and
   * returns whatever the uninitialised `uintmax_t` holds.
   */
  lemma WidthUnset(s: seq<char>, unset: u64)
    requires ValueBaseSpec(s).result.Err? && CharResult(SkipBlank(s), TICK).Ok?
    ensures WidthSpec(s, unset) == Parsed(Ok(unset), SkipBlank(s))
  {
  }

  /* ---- values ---- */

  /** The letter after `'` that names a radix. */
  function RadixLetter(radix: Radix): (c: char)
    ensures c in BASE_LETTERS && LetterRadix(c) == radix
  {
    match radix
    case Bin => 'b'
    case Oct => 'o'
    case Dec => 'd'
    case Hex => 'h'
  }

  /** A sized value: a decimal width, `'`, the radix letter and the digits of the value. */
  function SizedText(w: nat, radix: Radix, n: nat): seq<char>
  {
    DigitsOf(w, Dec) + TICK + [RadixLetter(radix)] + DigitsOf(n, radix)
  }

  /** The glue of `parse_verilog_value` on a width, `'`, a letter and a run. */
  lemma ValueOfSized(s: seq<char>, w: u64, u: seq<char>, radix: Radix, n: nat, rest: seq<char>, unset: u64)
    requires WidthSpec(s, unset) == Parsed(Ok(w), TICK + u)
    requires |u| > 0 && u[0] == RadixLetter(radix)
    requires DigitsSpec(SkipBlank(u[1..]), radix) == Parsed(Ok(FromInt(n)), rest)
    ensures VerilogSpec(s, unset) == Parsed(Ok(VerilogValue(Some(w), FromInt(n))), rest)
  {
    assert (TICK + u)[1..] == u;
  }

  /** A sized value is read back with its width and its value. */
  lemma SizedRoundTrip(w: u64, radix: Radix, n: nat, rest: seq<char>, unset: u64)
    requires w > 0 && EndsRun(rest, radix)
    ensures VerilogSpec(SizedText(w, radix, n) + rest, unset) == Parsed(Ok(VerilogValue(Some(w), FromInt(n))), rest)
  {
    var u := LetterShape(radix, n, rest);
    SizedShape(w, u, radix, n, rest);
    WidthRoundTrip(Dec, false, w, [], u, unset);
    NumberRoundTrip(n, rest, radix);
    ValueOfSized(SizedText(w, radix, n) + rest, w, u, radix, n, rest, unset);
  }


  /** The letter and digits after the `'` of a value. */
  lemma LetterShape(radix: Radix, n: nat, rest: seq<char>) returns (u: seq<char>)
    ensures u == [RadixLetter(radix)] + (DigitsOf(n, radix) + rest)
    ensures |u| > 0 && u[0] == RadixLetter(radix) && SkipBlank(u[1..]) == DigitsOf(n, radix) + rest
  {
    u := [RadixLetter(radix)] + (DigitsOf(n, radix) + rest);
    assert u[1..] == DigitsOf(n, radix) + rest;
    NoBlank(u[1..]);
  }

  lemma SizedShape(w: nat, u: seq<char>, radix: Radix, n: nat, rest: seq<char>)
    requires u == [RadixLetter(radix)] + (DigitsOf(n, radix) + rest)
    ensures SizedText(w, radix, n) + rest == BasePrefix(Dec, false) + DigitsOf(w, Dec) + [] + TICK + u
  {
  }

  /** A value written `'` then the radix letter, without a width, takes the uninitialised width. */
  lemma UnsizedTickValue(radix: Radix, n: nat, rest: seq<char>, unset: u64)
    requires EndsRun(rest, radix)
    ensures VerilogSpec(TICK + [RadixLetter(radix)] + DigitsOf(n, radix) + rest, unset)
      == Parsed(Ok(VerilogValue(Some(unset), FromInt(n))), rest)
  {
    var u := LetterShape(radix, n, rest);
    var s := UnsizedShape(u, radix, n, rest);
    TickStart(s);
    WidthUnset(s, unset);
    NumberRoundTrip(n, rest, radix);
    ValueOfSized(s, unset, u, radix, n, rest, unset);
  }

  lemma UnsizedShape(u: seq<char>, radix: Radix, n: nat, rest: seq<char>) returns (s: seq<char>)
    requires u == [RadixLetter(radix)] + (DigitsOf(n, radix) + rest)
    ensures s == TICK + u && s == TICK + [RadixLetter(radix)] + DigitsOf(n, radix) + rest
    ensures |s| > 0 && s[0] == '\''
  {
    s := TICK + u;
  }

  /** A text that starts with `'` has no base prefix and no leading blank. */
  lemma TickStart(s: seq<char>)
    requires |s| > 0 && s[0] == '\''
    ensures SpanIn(s, BLANK) == 0 && SkipBlank(s) == s && ValueBaseSpec(s).result.Err?
  {
  }

  /** The glue of `parse_verilog_value` on a failed width and a bare decimal run. */
  lemma ValueOfBare(s: seq<char>, n: nat, rest: seq<char>, unset: u64)
    requires WidthSpec(s, unset).result.Err? && SpanIn(s, BLANK) == 0 && CharResult(s, TICK).Err?
    requires DigitsSpec(s, Dec) == Parsed(Ok(FromInt(n)), rest)
    ensures VerilogSpec(s, unset) == Parsed(Ok(VerilogValue(None, FromInt(n))), rest)
  {
  }

  /** `parse_verilog_value_width` fails on a decimal run not followed by blanks and a `'`. */
  lemma BareWidthFails(s: seq<char>, n: nat, rest: seq<char>, unset: u64)
    requires |s| > 0 && '1' <= s[0] <= '9'
    requires DigitsSpec(s, Dec) == Parsed(Ok(FromInt(n)), rest) && CharResult(SkipBlank(rest), TICK).Err?
    ensures WidthSpec(s, unset).result.Err?
  {
    if |s| >= 2 {
      ValueBaseDecimal(s);
    }
  }

  /** A bare positive decimal value, not followed by a `'`, is read with no width. */
  lemma BareRoundTrip(n: nat, rest: seq<char>, unset: u64)
    requires n > 0 && EndsRun(rest, Dec) && CharResult(SkipBlank(rest), TICK).Err?
    ensures VerilogSpec(DigitsOf(n, Dec) + rest, unset) == Parsed(Ok(VerilogValue(None, FromInt(n))), rest)
  {
    var d := DigitsOf(n, Dec);
    DecimalLead(n);
    var s := d + rest;
    assert s[0] == d[0];
    NumberRoundTrip(n, rest, Dec);
    NoBlank(s);
    BareWidthFails(s, n, rest, unset);
    ValueOfBare(s, n, rest, unset);
  }

  /* ---- addresses ---- */

  /** The text the address printer writes: `[address1]` or `[address1:address2]`, in decimal. */
  function AddressText(a: FeatureAddress): (t: seq<char>)
    ensures |t| >= 3 && t[0] == '[' && t[|t| - 1] == ']'
    ensures a.address2.Some? <==> exists k :: 0 <= k < |t| && t[k] == ':'
  {
    var d := DigitsOf(a.address1, Dec);
    var second := if a.address2.Some? then COLON + DigitsOf(a.address2.value, Dec) else [];
    var t := OPEN_ADDRESS + d + second + CLOSE_ADDRESS;
    assert a.address2.Some? ==> t[1 + |d|] == ':';
    assert a.address2.None? ==> forall k :: 0 <= k < |t| ==> t[k] == '[' || t[k] == ']' || IsDigit(t[k], Dec);
    t
  }

  /** One address of `parse_feature_address` is read back from its decimal digits. */
  lemma AddressRoundTrip(a: u64, rest: seq<char>)
    requires EndsRun(rest, Dec)
    ensures AddressSpec(DigitsOf(a, Dec) + rest) == Parsed(Ok(a), rest)
  {
    NumberRoundTrip(a, rest, Dec);
    FromIntValue(a);
  }

  /** The glue of `parse_feature_address` on `[`, one address and `]`. */
  lemma AddressOfOne(s: seq<char>, a: u64, x: seq<char>)
    requires CharResult(s, OPEN_ADDRESS).Ok? && AddressSpec(s[1..]) == Parsed(Ok(a), x)
    requires CharResult(x, COLON).Err? && CharResult(x, CLOSE_ADDRESS).Ok?
    ensures FeatureAddressSpec(s) == Parsed(Ok(FeatureAddress(a, None)), x[1..])
  {
  }

  /** The glue of `parse_feature_address` on `[`, an address, `:`, another and `]`. */
  lemma AddressOfTwo(s: seq<char>, a: u64, x: seq<char>, b: u64, y: seq<char>)
    requires CharResult(s, OPEN_ADDRESS).Ok? && AddressSpec(s[1..]) == Parsed(Ok(a), x)
    requires CharResult(x, COLON).Ok? && AddressSpec(x[1..]) == Parsed(Ok(b), y) && CharResult(y, CLOSE_ADDRESS).Ok?
    ensures FeatureAddressSpec(s) == Parsed(Ok(FeatureAddress(a, Some(b))), y[1..])
  {
  }

  /** The printed address with one number, cut after `[` and after the number. */
  lemma OneAddressShape(a: FeatureAddress, rest: seq<char>) returns (x: seq<char>)
    requires a.address2.None?
    ensures var s := AddressText(a) + rest;
      && x == CLOSE_ADDRESS + rest && x[1..] == rest
      && |s| > 0 && s[0] == '[' && s[1..] == DigitsOf(a.address1, Dec) + x
  {
    x := CLOSE_ADDRESS + rest;
    var s := AddressText(a) + rest;
    assert s == OPEN_ADDRESS + (DigitsOf(a.address1, Dec) + x);
  }

  /** The printed address with two numbers, cut after `[`, after the first number and after `:`. */
  lemma TwoAddressShape(a: FeatureAddress, rest: seq<char>) returns (x: seq<char>, y: seq<char>)
    requires a.address2.Some?
    ensures var s := AddressText(a) + rest;
      && y == CLOSE_ADDRESS + rest && y[1..] == rest
      && x == COLON + (DigitsOf(a.address2.value, Dec) + y) && x[1..] == DigitsOf(a.address2.value, Dec) + y
      && |s| > 0 && s[0] == '[' && s[1..] == DigitsOf(a.address1, Dec) + x
  {
    y := CLOSE_ADDRESS + rest;
    x := COLON + (DigitsOf(a.address2.value, Dec) + y);
    var s := AddressText(a) + rest;
    assert s == OPEN_ADDRESS + (DigitsOf(a.address1, Dec) + x);
  }

  /** `parse_feature_address` reads back what the address printer writes. */
  lemma FeatureAddressRoundTrip(a: FeatureAddress, rest: seq<char>)
    ensures FeatureAddressSpec(AddressText(a) + rest) == Parsed(Ok(a), rest)
  {
    var s := AddressText(a) + rest;
    if a.address2.None? {
      var x := OneAddressShape(a, rest);
      AddressRoundTrip(a.address1, x);
      AddressOfOne(s, a.address1, x);
    } else {
      var x, y := TwoAddressShape(a, rest);
      AddressRoundTrip(a.address1, x);
      AddressRoundTrip(a.address2.value, y);
      AddressOfTwo(s, a.address1, x, a.address2.value, y);
    }
  }

  /* ---- comments ---- */

  predicate NoNewline(t: seq<char>)
  {
    forall k :: 0 <= k < |t| ==> t[k] !in NEWLINES
  }

  /** `parse_comment` returns the `#` and the rest of the line, and stops at a newline character or the end. */
  lemma CommentRoundTrip(body: seq<char>, rest: seq<char>)
    requires NoNewline(body) && (rest == [] || rest[0] in NEWLINES)
    ensures CommentSpec(HASH + body + rest) == Parsed(Ok(HASH + body), rest)
  {
    var s := HASH + body + rest;
    assert s[1..] == body + rest;
    assert forall k :: 0 <= k < |body| ==> s[1..][k] == body[k];
    SpanNotInUnique(s[1..], NEWLINES, |body|);
    assert s[..1 + |body|] == HASH + body && s[1 + |body|..] == rest;
  }

  /** What `parse_comment` returns: a `#`, no newline character after it, and a newline character or nothing next. */
  lemma CommentSound(s: seq<char>)
    requires CommentSpec(s).result.Ok?
    ensures var r := CommentSpec(s);
      var c := r.result.value;
      && s == c + r.rest && |c| > 0 && c[0] == '#' && NoNewline(c[1..])
      && (r.rest == [] || r.rest[0] in NEWLINES)
  {
    var n := SpanNotIn(s[1..], NEWLINES);
    SpanNotInMeaning(s[1..], NEWLINES);
    var c := s[..1 + n];
    assert forall k :: 0 <= k < n ==> c[1..][k] == s[1..][k];
    assert s == c + s[1 + n..];
  }

  /* ---- annotations ---- */

  /** What the annotation printer puts between the name and the value: ` = "`. */
  const ASSIGN_QUOTE: seq<char> := [' ', '=', ' ', '"']

  /** The text the annotation printer writes: `name = "value"`. */
  function AnnotationText(a: Annotation): (t: seq<char>)
    ensures |t| == |a.name| + |a.value| + 5 && t[|t| - 1] == '"'
  {
    a.name + ASSIGN_QUOTE + a.value + QUOTE
  }

  /** The printed annotation holds the name, ` = "` and the value unchanged, in that order. */
  lemma AnnotationLayout(a: Annotation)
    ensures var t := AnnotationText(a);
      t[..|a.name|] == a.name && t[|a.name|..|a.name| + 4] == ASSIGN_QUOTE && t[|a.name| + 4..|t| - 1] == a.value
  {
    var t := AnnotationText(a);
    assert t == a.name + ASSIGN_QUOTE + a.value + QUOTE;
  }

  /** An annotation the reader can return: a name word and a raw value. */
  predicate IsAnnotation(a: Annotation)
  {
    IsWord(a.name, AnnotationName) && JsonProperties.IsRawText(a.value)
  }

  /** `parse_annotation_value` returns a raw text whole and stops at the `"` after it. */
  lemma AnnotationValueRoundTrip(v: seq<char>, rest: seq<char>)
    requires JsonProperties.IsRawText(v)
    ensures AnnotationValueSpec(v + (QUOTE + rest)) == Parsed(Ok(v), QUOTE + rest)
  {
    var s := v + (QUOTE + rest);
    JsonProperties.RawTextSpan(v);
    Json.StringSpanStop(QUOTE + rest);
    JsonProperties.SpanConcat(v, QUOTE + rest);
    assert s[..|v|] == v && s[|v|..] == QUOTE + rest;
  }

  /** The printed annotation, cut where `parse_annotation` moves from one step to the next. */
  lemma AnnotationShape(a: Annotation, rest: seq<char>) returns (x: seq<char>, t: seq<char>, u: seq<char>)
    ensures AnnotationText(a) + rest == a.name + x
    ensures x == [' '] + t && t == EQUALS + ([' '] + u) && u == QUOTE + (a.value + (QUOTE + rest))
    ensures t[1..] == [' '] + u && u[1..] == a.value + (QUOTE + rest)
  {
    u := QUOTE + (a.value + (QUOTE + rest));
    t := EQUALS + ([' '] + u);
    x := [' '] + t;
    assert AnnotationText(a) + rest == a.name + x;
    assert t[1..] == [' '] + u;
  }

  /** The glue of `parse_annotation` over the steps of its text. */
  lemma AnnotationOfParts(s: seq<char>, a: Annotation, x: seq<char>, t: seq<char>, u: seq<char>, rest: seq<char>)
    requires WordSpec(s, AnnotationName) == Parsed(Ok(a.name), x)
    requires SkipBlank(x) == t && CharResult(t, EQUALS).Ok?
    requires SkipBlank(t[1..]) == u && CharResult(u, QUOTE).Ok?
    requires AnnotationValueSpec(u[1..]) == Parsed(Ok(a.value), QUOTE + rest)
    ensures AnnotationSpec(s) == Parsed(Ok(a), rest)
  {
    assert (QUOTE + rest)[1..] == rest;
  }

  /** `parse_annotation` reads back what the annotation printer writes, whatever follows. */
  lemma AnnotationRoundTrip(a: Annotation, rest: seq<char>)
    requires IsAnnotation(a)
    ensures AnnotationSpec(AnnotationText(a) + rest) == Parsed(Ok(a), rest)
  {
    var x, t, u := AnnotationShape(a, rest);
    WordRoundTrip(a.name, x, AnnotationName);
    BlankThen([' '], t);
    BlankThen([' '], u);
    AnnotationValueRoundTrip(a.value, rest);
    AnnotationOfParts(AnnotationText(a) + rest, a, x, t, u, rest);
  }

  /** The annotations as the line printer lists them: separated by `, `. */
  function ItemsText(items: seq<Annotation>): (t: seq<char>)
    requires |items| > 0
    ensures |t| >= |items[0].name| && t[..|items[0].name|] == items[0].name
  {
    if |items| == 1 then AnnotationText(items[0])
    else AnnotationText(items[0]) + COMMA + [' '] + ItemsText(items[1..])
  }

  /** The text the line printer writes for annotations: `{ a, b }`. */
  function AnnotationsText(items: seq<Annotation>): (t: seq<char>)
    requires |items| > 0
    ensures |t| >= 4 && t[0] == '{' && t[1] == ' ' && t[|t| - 2] == ' ' && t[|t| - 1] == '}'
  {
    OPEN_BRACE + [' '] + ItemsText(items) + [' '] + CLOSE_BRACE
  }

  predicate AllAnnotations(items: seq<Annotation>)
  {
    forall k :: 0 <= k < |items| ==> IsAnnotation(items[k])
  }

  /** A printed annotation list starts with the first name, so with no blank. */
  lemma ItemsStart(items: seq<Annotation>, rest: seq<char>)
    requires |items| > 0 && IsAnnotation(items[0])
    ensures SkipBlank([' '] + ItemsText(items) + rest) == ItemsText(items) + rest
  {
    var t := ItemsText(items) + rest;
    assert t[0] == ItemsText(items)[0] == items[0].name[0];
    assert [' '] + ItemsText(items) + rest == [' '] + t;
    BlankThen([' '], t);
  }

  /** The printed list, seen as the first annotation, then `,` and a blank and the others. */
  lemma ItemsSplit(items: seq<Annotation>, rest: seq<char>) returns (after: seq<char>)
    requires |items| > 1
    ensures ItemsText(items) + rest == AnnotationText(items[0]) + after
    ensures after == COMMA + ([' '] + ItemsText(items[1..]) + rest)
    ensures after[1..] == [' '] + ItemsText(items[1..]) + rest
    ensures items == [items[0]] + items[1..]
  {
    after := COMMA + ([' '] + ItemsText(items[1..]) + rest);
    assert ItemsText(items) + rest == AnnotationText(items[0]) + after;
  }

  /** The glue of the loop of `parse_annotations` on its last annotation. */
  lemma ItemsLast(s: seq<char>, a: Annotation, rest: seq<char>)
    requires AnnotationSpec(SkipBlank(s)) == Parsed(Ok(a), rest) && CharResult(rest, COMMA).Err?
    ensures AnnotationItems(s) == Parsed(Ok([a]), rest)
  {
  }

  /** The glue of the loop of `parse_annotations` on an annotation followed by `,`. */
  lemma ItemsNext(s: seq<char>, a: Annotation, after: seq<char>)
    requires AnnotationSpec(SkipBlank(s)) == Parsed(Ok(a), after) && CharResult(after, COMMA).Ok?
    ensures AnnotationItems(s) == Prepend([a], AnnotationItems(after[1..]))
  {
  }

  /** The loop of `parse_annotations` reads back the printed list, up to the first character that is not `,`. */
  lemma {:induction false} ItemsRoundTrip(items: seq<Annotation>, rest: seq<char>)
    requires |items| > 0 && AllAnnotations(items) && CharResult(rest, COMMA).Err?
    ensures AnnotationItems([' '] + ItemsText(items) + rest) == Parsed(Ok(items), rest)
    decreases |items|
  {
    var s := [' '] + ItemsText(items) + rest;
    assert IsAnnotation(items[0]);
    ItemsStart(items, rest);
    if |items| == 1 {
      AnnotationRoundTrip(items[0], rest);
      ItemsLast(s, items[0], rest);
      assert [items[0]] == items;
    } else {
      var after := ItemsSplit(items, rest);
      AnnotationRoundTrip(items[0], after);
      assert AllAnnotations(items[1..]) by {
        forall k | 0 <= k < |items| - 1
          ensures IsAnnotation(items[1..][k])
        {
          assert IsAnnotation(items[k + 1]);
        }
      }
      ItemsRoundTrip(items[1..], rest);
      ItemsNext(s, items[0], after);
    }
  }

  /** The printed list, cut after its `{` and before its closing ` }`. */
  lemma AnnotationsShape(items: seq<Annotation>, rest: seq<char>) returns (close: seq<char>)
    requires |items| > 0
    ensures CharResult(close, COMMA).Err? && SkipBlank(close) == CLOSE_BRACE + rest
    ensures var s := AnnotationsText(items) + rest;
      CharResult(s, OPEN_BRACE).Ok? && s[1..] == [' '] + ItemsText(items) + close
  {
    close := [' '] + (CLOSE_BRACE + rest);
    var s := AnnotationsText(items) + rest;
    assert s == OPEN_BRACE + ([' '] + ItemsText(items) + close);
    BlankThen([' '], CLOSE_BRACE + rest);
  }

  /** The glue of `parse_annotations` on `{`, the list and `}`. */
  lemma AnnotationsOfParts(s: seq<char>, items: seq<Annotation>, close: seq<char>, rest: seq<char>)
    requires CharResult(s, OPEN_BRACE).Ok? && AnnotationItems(s[1..]) == Parsed(Ok(items), close)
    requires SkipBlank(close) == CLOSE_BRACE + rest
    ensures AnnotationsSpec(s) == Parsed(Ok(items), rest)
  {
    assert (CLOSE_BRACE + rest)[1..] == rest;
  }

  /** `parse_annotations` reads back what the line printer writes for a non-empty annotation list. */
  lemma AnnotationsRoundTrip(items: seq<Annotation>, rest: seq<char>)
    requires |items| > 0 && AllAnnotations(items)
    ensures AnnotationsSpec(AnnotationsText(items) + rest) == Parsed(Ok(items), rest)
  {
    var close := AnnotationsShape(items, rest);
    ItemsRoundTrip(items, close);
    AnnotationsOfParts(AnnotationsText(items) + rest, items, close, rest);
  }

  /* ---- lines ---- */

  /** A comment the reader can return: nothing, or `#` and no newline character. */
  predicate IsComment(c: seq<char>)
  {
    c == [] || (c[0] == '#' && NoNewline(c[1..]))
  }

  /** Where a line ends: at the end of the text or at a newline character. */
  predicate EndsLine(rest: seq<char>)
  {
    rest == [] || rest[0] in NEWLINES
  }

  /** The end of `parse_line` reads back a comment, or none, up to the end of the line. */
  lemma CommentTail(feature: Option<FasmFeature>, annotations: seq<Annotation>, c: seq<char>, rest: seq<char>)
    requires IsComment(c) && EndsLine(rest)
    ensures LineComment(feature, annotations, c + rest) == Parsed(Ok(Line(feature, annotations, c)), rest)
  {
    if c != [] {
      assert c == HASH + c[1..];
      CommentRoundTrip(c[1..], rest);
      NoBlank(rest);
    } else {
      assert c + rest == rest;
    }
  }

  /** What the line printer writes after the feature: `{ ... }`, then a blank and the comment, each when present. */
  function TailText(annotations: seq<Annotation>, c: seq<char>): (t: seq<char>)
    ensures t == [] <==> annotations == [] && c == []
    ensures annotations != [] ==> t[0] == '{'
  {
    if annotations == [] then c
    else AnnotationsText(annotations) + (if c == [] then [] else [' '] + c)
  }

  /** The glue of `parse_line` on an annotation list and what follows it. */
  lemma AnnotationsThen(feature: Option<FasmFeature>, s: seq<char>, annotations: seq<Annotation>, after: seq<char>, c: seq<char>, rest: seq<char>)
    requires CharResult(s, OPEN_BRACE).Ok? && AnnotationsSpec(s) == Parsed(Ok(annotations), after)
    requires SkipBlank(after) == c + rest
    requires LineComment(feature, annotations, c + rest) == Parsed(Ok(Line(feature, annotations, c)), rest)
    ensures LineAnnotations(feature, s) == Parsed(Ok(Line(feature, annotations, c)), rest)
  {
  }

  /** The printed tail, cut after its `}`; the blank before a comment is skipped. */
  lemma TailShape(annotations: seq<Annotation>, c: seq<char>, rest: seq<char>) returns (after: seq<char>)
    requires annotations != [] && IsComment(c) && EndsLine(rest)
    ensures TailText(annotations, c) + rest == AnnotationsText(annotations) + after
    ensures SkipBlank(after) == c + rest
  {
    var gap := if c == [] then [] else [' '] + c;
    assert TailText(annotations, c) == AnnotationsText(annotations) + gap;
    after := gap + rest;
    if c == [] {
      NoBlank(rest);
      assert after == c + rest;
    } else {
      BlankThen([' '], c + rest);
      assert after == [' '] + (c + rest);
    }
  }

  /** The end of `parse_line` reads back the annotations and comment as the line printer writes them. */
  lemma TailRoundTrip(feature: Option<FasmFeature>, annotations: seq<Annotation>, c: seq<char>, rest: seq<char>)
    requires AllAnnotations(annotations) && IsComment(c) && EndsLine(rest)
    ensures LineAnnotations(feature, TailText(annotations, c) + rest) == Parsed(Ok(Line(feature, annotations, c)), rest)
  {
    CommentTail(feature, annotations, c, rest);
    if annotations != [] {
      var after := TailShape(annotations, c, rest);
      AnnotationsRoundTrip(annotations, after);
      AnnotationsThen(feature, AnnotationsText(annotations) + after, annotations, after, c, rest);
    } else {
      assert c == [] || c[0] == '#';
    }
  }

  /** A printed tail starts with `{` or `#`, so with no blank and with a stop of `parse_line`. */
  lemma TailStart(annotations: seq<Annotation>, c: seq<char>, rest: seq<char>)
    requires IsComment(c) && EndsLine(rest)
    ensures var t := TailText(annotations, c) + rest;
      (t == [] || t[0] in LINE_STOPS) && SpanIn(t, BLANK) == 0 && SkipBlank(t) == t
  {
    var t := TailText(annotations, c) + rest;
    if annotations != [] {
      assert t[0] == '{';
    } else if c != [] {
      assert t[0] == '#';
    } else {
      assert t == rest;
    }
    NoBlank(t);
  }

  /** The text the feature printer writes for a feature without a value: the names, then the address if any. */
  function SetFeatureText(f: FasmFeature): (t: seq<char>)
    requires |f.feature| > 0
    ensures |t| >= |f.feature[0]| && t[..|f.feature[0]|] == f.feature[0]
    ensures f.address.Some? ==> |t| > 0 && t[|t| - 1] == ']'
  {
    FeatureText(f.feature) + (if f.address.Some? then AddressText(f.address.value) else [])
  }

  /** The glue of `parse_set_feature` on names, an address and no `=`. */
  lemma FeatureWithAddress(s: seq<char>, names: seq<seq<char>>, y: seq<char>, a: FeatureAddress, x: seq<char>, unset: u64)
    requires FeatureSpec(s) == Parsed(Ok(names), y) && CharResult(y, OPEN_ADDRESS).Ok?
    requires FeatureAddressSpec(y) == Parsed(Ok(a), x) && CharResult(SkipBlank(x), EQUALS).Err?
    ensures SetFeatureSpec(s, unset) == Parsed(Ok(FasmFeature(names, Some(a), None)), SkipBlank(x))
  {
  }

  /** The glue of `parse_set_feature` on names, no address and no `=`. */
  lemma FeatureWithoutAddress(s: seq<char>, names: seq<seq<char>>, x: seq<char>, unset: u64)
    requires FeatureSpec(s) == Parsed(Ok(names), x) && CharResult(x, OPEN_ADDRESS).Err?
    requires CharResult(SkipBlank(x), EQUALS).Err?
    ensures SetFeatureSpec(s, unset) == Parsed(Ok(FasmFeature(names, None, None)), SkipBlank(x))
  {
  }

  /** A feature the printer can write and the reader read back: names, and no value. */
  predicate IsBareFeature(f: FasmFeature)
  {
    |f.feature| > 0 && AllIdentifiers(f.feature) && f.value.None?
  }

  /**
   * `parse_set_feature` reads back the printed names and address of a feature
   * without a value, when a blank, a newline character or the end follows and no `=` comes next.
   */
  lemma SetFeatureRoundTrip(f: FasmFeature, x: seq<char>, unset: u64)
    requires IsBareFeature(f)
    requires (x == [] || x[0] in BLANK || x[0] in NEWLINES) && CharResult(SkipBlank(x), EQUALS).Err?
    ensures SetFeatureSpec(SetFeatureText(f) + x, unset) == Parsed(Ok(f), SkipBlank(x))
  {
    var s := SetFeatureText(f) + x;
    if f.address.Some? {
      var y := AddressText(f.address.value) + x;
      assert s == FeatureText(f.feature) + y;
      assert y[0] == '[';
      FeatureRoundTrip(f.feature, y);
      FeatureAddressRoundTrip(f.address.value, x);
      FeatureWithAddress(s, f.feature, y, f.address.value, x, unset);
    } else {
      assert s == FeatureText(f.feature) + x;
      FeatureRoundTrip(f.feature, x);
      FeatureWithoutAddress(s, f.feature, x, unset);
    }
  }

  /** A line the printer can write and the reader read back. */
  predicate IsPrintable(l: Line)
  {
    (l.feature.Some? ==> IsBareFeature(l.feature.value)) && AllAnnotations(l.annotations) && IsComment(l.comment)
  }

  /** The text the line printer writes, for a line whose feature has no value. */
  function LineText(l: Line): (t: seq<char>)
    requires l.feature.Some? ==> |l.feature.value.feature| > 0
    ensures t == [] ==> l.annotations == [] && l.comment == []
    ensures l.feature.None? && l.annotations == [] && l.comment == [] ==> t == []
  {
    var tail := TailText(l.annotations, l.comment);
    if l.feature.None? then tail
    else SetFeatureText(l.feature.value) + (if tail == [] then [] else [' '] + tail)
  }

  /** The line printer writes the comment last. */
  lemma CommentPrintedLast(l: Line)
    requires l.feature.Some? ==> |l.feature.value.feature| > 0
    ensures var t := LineText(l); |t| >= |l.comment| && t[|t| - |l.comment|..] == l.comment
  {
    var c := l.comment;
    var tail := TailText(l.annotations, c);
    if l.annotations != [] && c != [] {
      var a := AnnotationsText(l.annotations) + [' '];
      assert tail == a + c && tail[|tail| - |c|..] == c;
    }
    assert |tail| >= |c| && tail[|tail| - |c|..] == c;
    if l.feature.Some? && tail != [] {
      var h := SetFeatureText(l.feature.value) + [' '];
      assert LineText(l) == h + tail;
      assert (h + tail)[|h + tail| - |c|..] == tail[|tail| - |c|..];
    }
  }

  /** The glue of `parse_line` on a line with a feature. */
  lemma LineOfFeature(s: seq<char>, f: FasmFeature, y: seq<char>, unset: u64)
    requires SpanIn(s, BLANK) == 0 && NotCharResult(s, LINE_STOPS).Ok?
    requires SetFeatureSpec(s, unset) == Parsed(Ok(f), y) && SpanIn(y, BLANK) == 0
    ensures LineSpec(s, unset) == LineAnnotations(Some(f), y)
  {
  }

  /** The glue of `parse_line` on a line with no feature. */
  lemma LineOfTail(s: seq<char>, unset: u64)
    requires SpanIn(s, BLANK) == 0 && NotCharResult(s, LINE_STOPS).Err?
    ensures LineSpec(s, unset) == LineAnnotations(None, s)
  {
  }

  /** The printed line with a feature, cut after the feature; the blank before the tail is skipped. */
  lemma LineShape(l: Line, rest: seq<char>) returns (x: seq<char>)
    requires l.feature.Some? && IsPrintable(l) && EndsLine(rest)
    ensures LineText(l) + rest == SetFeatureText(l.feature.value) + x
    ensures x == [] || x[0] in BLANK || x[0] in NEWLINES
    ensures SkipBlank(x) == TailText(l.annotations, l.comment) + rest
  {
    var tail := TailText(l.annotations, l.comment);
    TailStart(l.annotations, l.comment, rest);
    if tail == [] {
      x := rest;
      assert tail + rest == rest;
    } else {
      x := [' '] + (tail + rest);
      BlankThen([' '], tail + rest);
    }
  }

  /** A printed feature starts with a letter or digit: no blank, and no stop of `parse_line`. */
  lemma FeatureStart(f: FasmFeature, x: seq<char>)
    requires IsBareFeature(f)
    ensures var s := SetFeatureText(f) + x; SpanIn(s, BLANK) == 0 && NotCharResult(s, LINE_STOPS).Ok?
  {
    var s := SetFeatureText(f) + x;
    assert IsWord(f.feature[0], Identifier);
    assert s[0] == f.feature[0][0];
    NoBlank(s);
  }

  /** `parse_line` reads the printed feature back and moves on to the printed tail. */
  lemma FeatureLine(l: Line, rest: seq<char>, unset: u64)
    requires l.feature.Some? && IsPrintable(l) && EndsLine(rest)
    ensures LineSpec(LineText(l) + rest, unset) == LineAnnotations(l.feature, TailText(l.annotations, l.comment) + rest)
  {
    var f := l.feature.value;
    var x := LineShape(l, rest);
    FeatureStart(f, x);
    TailStart(l.annotations, l.comment, rest);
    SetFeatureRoundTrip(f, x, unset);
    LineOfFeature(SetFeatureText(f) + x, f, TailText(l.annotations, l.comment) + rest, unset);
  }

  /** `parse_line` reads back what the line printer writes, up to the end of the line. */
  lemma LineRoundTrip(l: Line, rest: seq<char>, unset: u64)
    requires IsPrintable(l) && EndsLine(rest)
    ensures LineSpec(LineText(l) + rest, unset) == Parsed(Ok(l), rest)
  {
    TailRoundTrip(l.feature, l.annotations, l.comment, rest);
    if l.feature.None? {
      TailStart(l.annotations, l.comment, rest);
      LineOfTail(TailText(l.annotations, l.comment) + rest, unset);
    } else {
      FeatureLine(l, rest, unset);
    }
  }

  /* ---- whole files ---- */

  /** `parse` succeeds only when it has used up the whole text. */
  lemma {:induction false} LinesConsumeAll(s: seq<char>, unset: u64)
    requires LinesSpec(s, unset).result.Ok?
    ensures LinesSpec(s, unset).rest == []
    decreases |s|
  {
    if |s| > 0 {
      var line := LineSpec(s, unset);
      LinesConsumeAll(line.rest[SpanIn(line.rest, NEWLINES)..], unset);
    }
  }

  /** The line `parse_line` reads where a line is empty. */
  const EMPTY_LINE: Line := Line(None, [], [])

  /**
   * A run of newline characters, however long, stands for one empty line:
   * `parse_line` reads nothing there and `parse` skips the whole run.
   */
  lemma BlankLines(nl: seq<char>, t: seq<char>, unset: u64)
    requires |nl| > 0 && (forall k :: 0 <= k < |nl| ==> nl[k] in NEWLINES) && (t == [] || t[0] !in NEWLINES)
    ensures LinesSpec(nl + t, unset) == Prepend([EMPTY_LINE], LinesSpec(t, unset))
  {
    var s := nl + t;
    assert s[0] == nl[0];
    NoBlank(s);
    LineOfTail(s, unset);
    assert forall k :: 0 <= k < |nl| ==> s[k] == nl[k];
    SpanInUnique(s, NEWLINES, |nl|);
    assert s[|nl|..] == t;
  }

  /** A line that prints as some text. */
  predicate IsNonEmpty(l: Line)
  {
    l.feature.Some? || l.annotations != [] || l.comment != []
  }

  /** A printed non-empty line starts with a word, `{` or `#`: never with a newline character. */
  lemma LineTextStart(l: Line)
    requires IsPrintable(l) && IsNonEmpty(l)
    ensures |LineText(l)| > 0 && LineText(l)[0] !in NEWLINES
  {
    var tail := TailText(l.annotations, l.comment);
    if l.feature.Some? {
      var names := l.feature.value.feature;
      assert LineText(l)[0] == FeatureText(names)[0] == names[0][0];
    } else {
      TailStart(l.annotations, l.comment, []);
      assert tail + [] == tail;
    }
  }

  predicate AllPrintable(lines: seq<Line>)
  {
    forall k :: 0 <= k < |lines| ==> IsPrintable(lines[k]) && IsNonEmpty(lines[k])
  }

  /** The text of lines printed one per line, each followed by `\n`. */
  function LinesText(lines: seq<Line>): (t: seq<char>)
    requires AllPrintable(lines)
    ensures t == [] <==> lines == []
    ensures lines != [] ==> t[|t| - 1] == '\n'
  {
    if lines == [] then []
    else
      assert IsPrintable(lines[0]);
      LineText(lines[0]) + ['\n'] + LinesText(lines[1..])
  }

  /** The glue of `parse` on one line followed by newline characters. */
  lemma LinesNext(s: seq<char>, l: Line, after: seq<char>, unset: u64)
    requires |s| > 0 && LineSpec(s, unset) == Parsed(Ok(l), after) && |after| > 0 && after[0] in NEWLINES
    ensures LinesSpec(s, unset) == Prepend([l], LinesSpec(after[SpanIn(after, NEWLINES)..], unset))
  {
  }

  /** One `\n` before a printed line, or before the end, is a run of length one. */
  lemma NewlineThen(x: seq<char>)
    requires x == [] || x[0] !in NEWLINES
    ensures var after := ['\n'] + x; SpanIn(after, NEWLINES) == 1 && after[1..] == x
  {
    var after := ['\n'] + x;
    assert after[1..] == x;
    SpanInUnique(after, NEWLINES, 1);
  }

  /** The lines after the first are printable and non-empty too. */
  lemma PrintableTail(lines: seq<Line>)
    requires lines != [] && AllPrintable(lines)
    ensures IsPrintable(lines[0]) && IsNonEmpty(lines[0]) && AllPrintable(lines[1..])
  {
    assert IsPrintable(lines[0]) && IsNonEmpty(lines[0]);
    forall k | 0 <= k < |lines| - 1
      ensures IsPrintable(lines[1..][k]) && IsNonEmpty(lines[1..][k])
    {
      assert lines[1..][k] == lines[k + 1];
    }
  }

  /** The printed lines start with the first printed line, so never with a newline character. */
  lemma LinesTextStart(lines: seq<Line>)
    requires AllPrintable(lines)
    ensures LinesText(lines) == [] || LinesText(lines)[0] !in NEWLINES
  {
    if lines != [] {
      PrintableTail(lines);
      LineTextStart(lines[0]);
      assert LinesText(lines)[0] == LineText(lines[0])[0];
    }
  }

  /** The printed lines, seen as the first line, then `\n` and the others. */
  lemma LinesShape(lines: seq<Line>) returns (x: seq<char>)
    requires lines != [] && AllPrintable(lines)
    ensures IsPrintable(lines[0]) && AllPrintable(lines[1..]) && lines == [lines[0]] + lines[1..]
    ensures x == LinesText(lines[1..]) && LinesText(lines) == LineText(lines[0]) + (['\n'] + x)
    ensures |LineText(lines[0])| > 0 && (x == [] || x[0] !in NEWLINES)
  {
    PrintableTail(lines);
    x := LinesText(lines[1..]);
    LineTextStart(lines[0]);
    LinesTextStart(lines[1..]);
  }

  /** `parse` reads back printed lines, one per line, when none of them is empty. */
  lemma {:induction false} LinesRoundTrip(lines: seq<Line>, unset: u64)
    requires AllPrintable(lines)
    ensures LinesSpec(LinesText(lines), unset) == Parsed(Ok(lines), [])
    decreases |lines|
  {
    if lines != [] {
      var x := LinesShape(lines);
      var after := ['\n'] + x;
      LineRoundTrip(lines[0], after, unset);
      NewlineThen(x);
      LinesNext(LineText(lines[0]) + after, lines[0], after, unset);
      LinesRoundTrip(lines[1..], unset);
    }
  }
}
