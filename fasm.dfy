/**
 * `fasm_parser`: a reader of FASM, the line-oriented text that sets named
 * features of an FPGA bitstream. A line holds an optional feature setting
 * (`A.B.C[3:0] = 4'b1010`), an optional list of annotations
 * (`{ name = "value", ... }`) and an optional `#` comment.
 *
 * Each parser is specified by a function from the input to what it returns
 * and the input it leaves, and written as a method over a `BasicParser` (the
 * cursor of parser.cpp, whose primitives `fasm_parser` shares) proved equal
 * to that function. Digit runs are folded into a `BigInt` one character at a
 * time, as the source folds them into a `lak::bigint`.
 */
module Fasm {
  import opened Words
  import opened Results
  import opened Parser
  import opened BigInts
  import Json

  const BLANK: seq<char> := [' ', '\t']
  const NEWLINES: seq<char> := ['\n', '\r']
  const DOT: seq<char> := ['.']
  const TICK: seq<char> := ['\'']
  const BASE_LETTERS: seq<char> := ['b', 'o', 'd', 'h']
  const OPEN_ADDRESS: seq<char> := ['[']
  const CLOSE_ADDRESS: seq<char> := [']']
  const COLON: seq<char> := [':']
  const HASH: seq<char> := ['#']
  const EQUALS: seq<char> := ['=']
  const QUOTE: seq<char> := ['"']
  const OPEN_BRACE: seq<char> := ['{']
  const CLOSE_BRACE: seq<char> := ['}']
  const COMMA: seq<char> := [',']
  /** The characters that keep `parse_line` from reading a feature. */
  const LINE_STOPS: seq<char> := ['{', '#', '\n', '\r']

  /** The base of a digit run: binary, octal, decimal or hexadecimal. */
  datatype Radix = Bin | Oct | Dec | Hex

  /** `fasm_parser::verilog_value`: an optional bit width and the value. */
  datatype VerilogValue = VerilogValue(width: Option<u64>, value: BigInt)

  /** `fasm_parser::feature_address`: `[address1]` or `[address1:address2]`. */
  datatype FeatureAddress = FeatureAddress(address1: u64, address2: Option<u64>)

  /** `fasm_parser::annotation`: the name and the raw text between the quotes. */
  datatype Annotation = Annotation(name: seq<char>, value: seq<char>)

  /** `fasm_parser::fasm_feature`: the dotted name, an optional address and an optional value. */
  datatype FasmFeature = FasmFeature(feature: seq<seq<char>>, address: Option<FeatureAddress>, value: Option<VerilogValue>)

  /** `fasm_parser::line`; an absent comment is the empty text. */
  datatype Line = Line(feature: Option<FasmFeature>, annotations: seq<Annotation>, comment: seq<char>)

  /* ---- characters ---- */

  predicate IsAlnum(c: char)
  {
    ('a' <= c <= 'z') || ('A' <= c <= 'Z') || ('0' <= c <= '9')
  }

  /** A character after the first of an identifier or an annotation name: `[A-Za-z0-9_]`. */
  predicate IsWordChar(c: char)
  {
    IsAlnum(c) || c == '_'
  }

  predicate IsDigit(c: char, radix: Radix)
  {
    match radix
    case Bin => '0' <= c <= '1'
    case Oct => '0' <= c <= '7'
    case Dec => '0' <= c <= '9'
    case Hex => ('0' <= c <= '9') || ('a' <= c <= 'f') || ('A' <= c <= 'F')
  }

  /** The characters of a digit run: the digits of the radix and `_`. */
  predicate InDigitRun(c: char, radix: Radix)
  {
    IsDigit(c, radix) || c == '_'
  }

  function Base(radix: Radix): nat
  {
    match radix
    case Bin => 2
    case Oct => 8
    case Dec => 10
    case Hex => 16
  }

  /** The bits per digit of the radixes folded by `<<=`. */
  function Bits(radix: Radix): nat
  {
    match radix
    case Bin => 1
    case Oct => 3
    case Dec => 0
    case Hex => 4
  }

  /** What a digit adds: `c - '0'`, or `0xA + (c - 'a')` and `0xA + (c - 'A')` for the letters of hexadecimal. */
  function DigitValue(c: char): nat
  {
    if 'a' <= c <= 'f' then 10 + (c as int - 'a' as int)
    else if 'A' <= c <= 'F' then 10 + (c as int - 'A' as int)
    else if '0' <= c <= '9' then c as int - '0' as int
    else 0
  }

  /** The two runs the cursor loops of `fasm_parser` scan over. */
  datatype CharClass = WordChars | DigitRun(radix: Radix)

  predicate InClass(c: char, k: CharClass)
  {
    match k
    case WordChars => IsWordChar(c)
    case DigitRun(radix) => InDigitRun(c, radix)
  }

  /** The length of the longest prefix of s in class k (see `ClassSpanMeaning`). */
  function ClassSpan(s: seq<char>, k: CharClass): (n: nat)
    ensures n <= |s|
  {
    if |s| > 0 && InClass(s[0], k) then 1 + ClassSpan(s[1..], k) else 0
  }

  lemma {:induction false} ClassSpanMeaning(s: seq<char>, k: CharClass)
    ensures forall i :: 0 <= i < ClassSpan(s, k) ==> InClass(s[i], k)
    ensures ClassSpan(s, k) == |s| || !InClass(s[ClassSpan(s, k)], k)
  {
    if |s| > 0 && InClass(s[0], k) {
      ClassSpanMeaning(s[1..], k);
      forall i | 1 <= i < ClassSpan(s, k)
        ensures InClass(s[i], k)
      {
        assert s[i] == s[1..][i - 1];
      }
    }
  }

  /** A prefix in class k followed by a character outside it (or by nothing) is the longest one. */
  lemma {:induction false} ClassSpanUnique(s: seq<char>, k: CharClass, n: nat)
    requires n <= |s| && (forall i :: 0 <= i < n ==> InClass(s[i], k)) && (n == |s| || !InClass(s[n], k))
    ensures ClassSpan(s, k) == n
  {
    if n > 0 {
      ClassSpanUnique(s[1..], k, n - 1);
    }
  }

  /** One character of a run: `_` leaves the value alone, a digit makes it `value * base + digit`. */
  function DigitStep(value: nat, c: char, radix: Radix): nat
  {
    if c == '_' then value else value * Base(radix) + DigitValue(c)
  }

  /** The value of a digit run: `DigitStep` for each character in turn, starting from 0. */
  function FoldValue(t: seq<char>, radix: Radix): nat
  {
    if |t| == 0 then 0 else DigitStep(FoldValue(t[..|t| - 1], radix), t[|t| - 1], radix)
  }

  /** The fold over one more character. */
  lemma FoldValueSnoc(t: seq<char>, c: char, radix: Radix)
    ensures FoldValue(t + [c], radix) == DigitStep(FoldValue(t, radix), c, radix)
  {
    assert (t + [c])[..|t|] == t;
  }

  /**
   * One character of a run on the bigint: `_` leaves it alone; a decimal
   * digit is `*= 10` then `+=`, any other digit `<<=` by the bits per digit
   * then `+=`.
   */
  function FoldStep(b: BigInt, c: char, radix: Radix): (r: BigInt)
    requires Normalised(b) && Value(b) >= 0
    ensures Normalised(r)
    ensures Value(r) == DigitStep(Value(b), c, radix)
  {
    if c == '_' then b
    else
      Pow2Values();
      var scaled := if radix == Dec then Mul(b, 10) else ShiftLeft(b, Bits(radix));
      Add(scaled, DigitValue(c))
  }

  /* ---- specification of the parsers ---- */

  /** What `parse_non_newline_whitespace` leaves: the text after its leading spaces and tabs. */
  function SkipBlank(s: seq<char>): (r: seq<char>)
    ensures |r| <= |s|
  {
    s[SpanIn(s, BLANK)..]
  }

  /** The two words of the grammar: identifiers start `[A-Za-z0-9]`, annotation names also `.`. */
  datatype WordKind = Identifier | AnnotationName

  predicate StartsWord(c: char, kind: WordKind)
  {
    IsAlnum(c) || (kind == AnnotationName && c == '.')
  }

  /** `parse_identifier` and `parse_annotation_name`: a start character, then `[A-Za-z0-9_]*`. */
  function WordSpec(s: seq<char>, kind: WordKind): (r: Parsed<seq<char>>)
    ensures |r.rest| <= |s| && (r.result.Ok? ==> |r.rest| < |s|)
    ensures r.result.Err? ==> r.rest == s
  {
    if |s| == 0 then Parsed(Err(EndOfFile), s)
    else if !StartsWord(s[0], kind) then Parsed(Err(UnexpectedCharacter), s)
    else
      var n := 1 + ClassSpan(s[1..], WordChars);
      Parsed(Ok(s[..n]), s[n..])
  }

  /** `parse_feature`: identifiers separated by `.`. */
  function FeatureSpec(s: seq<char>): (r: Parsed<seq<seq<char>>>)
    ensures |r.rest| <= |s|
    decreases |s|
  {
    var ident := WordSpec(s, Identifier);
    if ident.result.Err? then Parsed(Err(ident.result.error), ident.rest)
    else if CharResult(ident.rest, DOT).Err? then Parsed(Ok([ident.result.value]), ident.rest)
    else Prepend([ident.result.value], FeatureSpec(ident.rest[1..]))
  }

  /** `parse_dec_value`, `parse_hex_value`, `parse_oct_value`, `parse_bin_value`. */
  function DigitsSpec(s: seq<char>, radix: Radix): (r: Parsed<BigInt>)
    ensures |r.rest| <= |s|
    ensures r.result.Err? ==> r.rest == s
    ensures r.result.Ok? ==> Value(r.result.value) >= 0
  {
    if |s| == 0 then Parsed(Err(EndOfFile), s)
    else if !InDigitRun(s[0], radix) then Parsed(Err(UnexpectedCharacter), s)
    else
      var n := ClassSpan(s, DigitRun(radix));
      Parsed(Ok(FromInt(FoldValue(s[..n], radix))), s[n..])
  }

  /** `parse_value_base`, with the base as a radix. */
  function ValueBaseSpec(s: seq<char>): (r: Parsed<Radix>)
    ensures |r.rest| <= |s|
    ensures r.result.Err? ==> r.rest == s
    ensures r.result.Ok? ==> s[|s| - |r.rest|..] == r.rest
  {
    if |s| < 2 then Parsed(Err(EndOfFile), s)
    else if s[0] != '0' then
      if '0' <= s[0] <= '9' then Parsed(Ok(Dec), s) else Parsed(Err(UnexpectedCharacter), s)
    else if s[1] == 'b' || s[1] == 'B' then Parsed(Ok(Bin), s[2..])
    else if s[1] == 'o' || s[1] == 'O' then Parsed(Ok(Oct), s[2..])
    else if s[1] == 'x' || s[1] == 'X' then Parsed(Ok(Hex), s[2..])
    else Parsed(Err(UnexpectedCharacter), s)
  }

  /**
   * `parse_verilog_value_width`. `unset` is what the uninitialised
   * `uintmax_t result` holds: it is returned when no base prefix comes before
   * the `'`. Every failure restores the input.
   */
  function WidthSpec(s: seq<char>, unset: u64): (r: Parsed<u64>)
    ensures |r.rest| <= |s|
    ensures r.result.Err? ==> r.rest == s
    ensures r.result.Ok? ==> |r.rest| > 0 && r.rest[0] == '\''
  {
    var base := ValueBaseSpec(s);
    if base.result.Ok? then
      var digits := DigitsSpec(base.rest, base.result.value);
      if digits.result.Err? then Parsed(Err(digits.result.error), s)
      else
        var width := ToUintmax(digits.result.value);
        if width.Err? then Parsed(Err(IntegerOverflow), s)
        else WidthTick(s, width.value, digits.rest)
    else WidthTick(s, unset, s)
  }

  /** The end of `parse_verilog_value_width`: blanks, then a `'` left in place; a failure restores s. */
  function WidthTick(s: seq<char>, width: u64, t: seq<char>): (r: Parsed<u64>)
    requires |t| <= |s|
    ensures |r.rest| <= |s|
    ensures r.result.Err? ==> r.rest == s
    ensures r.result.Ok? ==> |r.rest| > 0 && r.rest[0] == '\''
  {
    var u := SkipBlank(t);
    if CharResult(u, TICK).Err? then Parsed(Err(CharResult(u, TICK).error), s)
    else Parsed(Ok(width), u)
  }

  /** The radix a letter after `'` names; `pop_char` has let only `b`, `o`, `d` and `h` through. */
  function LetterRadix(c: char): Radix
  {
    if c == 'b' then Bin else if c == 'o' then Oct else if c == 'd' then Dec else Hex
  }

  /** `parse_verilog_value`: `[width] ' letter [blanks] digits`, or a bare decimal run. */
  function VerilogSpec(s: seq<char>, unset: u64): (r: Parsed<VerilogValue>)
    ensures |r.rest| <= |s|
  {
    var width := WidthSpec(s, unset);
    var w := if width.result.Ok? then Some(width.result.value) else None;
    var t := if width.result.Ok? then width.rest else SkipBlank(width.rest);
    if CharResult(t, TICK).Ok? then
      var u := t[1..];
      var letter := CharResult(u, BASE_LETTERS);
      if letter.Err? then Parsed(Err(letter.error), u)
      else ValueDigits(w, SkipBlank(u[1..]), LetterRadix(letter.value))
    else ValueDigits(w, t, Dec)
  }

  /** The digit run that ends `parse_verilog_value`. */
  function ValueDigits(width: Option<u64>, s: seq<char>, radix: Radix): (r: Parsed<VerilogValue>)
    ensures |r.rest| <= |s|
  {
    var digits := DigitsSpec(s, radix);
    if digits.result.Err? then Parsed(Err(digits.result.error), digits.rest)
    else Parsed(Ok(VerilogValue(width, digits.result.value)), digits.rest)
  }

  /** One address of `parse_feature_address`: a decimal run that must fit a `uintmax_t`. */
  function AddressSpec(s: seq<char>): (r: Parsed<u64>)
    ensures |r.rest| <= |s|
  {
    var digits := DigitsSpec(s, Dec);
    if digits.result.Err? then Parsed(Err(digits.result.error), digits.rest)
    else
      var address := ToUintmax(digits.result.value);
      if address.Err? then Parsed(Err(IntegerOverflow), digits.rest)
      else Parsed(Ok(address.value), digits.rest)
  }

  /** `parse_feature_address`: `[`, an address, optionally `:` and another, `]`. */
  function FeatureAddressSpec(s: seq<char>): (r: Parsed<FeatureAddress>)
    ensures |r.rest| <= |s|
  {
    if CharResult(s, OPEN_ADDRESS).Err? then Parsed(Err(CharResult(s, OPEN_ADDRESS).error), s)
    else
      var first := AddressSpec(s[1..]);
      if first.result.Err? then Parsed(Err(first.result.error), first.rest)
      else if CharResult(first.rest, COLON).Err? then
        CloseAddress(FeatureAddress(first.result.value, None), first.rest)
      else
        var second := AddressSpec(first.rest[1..]);
        if second.result.Err? then Parsed(Err(second.result.error), second.rest)
        else CloseAddress(FeatureAddress(first.result.value, Some(second.result.value)), second.rest)
  }

  function CloseAddress(address: FeatureAddress, s: seq<char>): (r: Parsed<FeatureAddress>)
    ensures |r.rest| <= |s|
  {
    if CharResult(s, CLOSE_ADDRESS).Err? then Parsed(Err(CharResult(s, CLOSE_ADDRESS).error), s)
    else Parsed(Ok(address), s[1..])
  }

  /** `parse_comment`: `#` and everything up to the end of the line, returned with the `#`. */
  function CommentSpec(s: seq<char>): (r: Parsed<seq<char>>)
    ensures |r.rest| <= |s|
    ensures r.result.Err? ==> r.rest == s
  {
    if CharResult(s, HASH).Err? then Parsed(Err(CharResult(s, HASH).error), s)
    else
      var n := 1 + SpanNotIn(s[1..], NEWLINES);
      Parsed(Ok(s[..n]), s[n..])
  }

  /** `parse_annotation_value`: the raw run of plain characters and `\"` pairs, the run a JSON string body is; it never fails. */
  function AnnotationValueSpec(s: seq<char>): (r: Parsed<seq<char>>)
    ensures |r.rest| <= |s| && r.result.Ok?
  {
    var n := Json.StringSpan(s);
    Parsed(Ok(s[..n]), s[n..])
  }

  /** `parse_annotation`: `name [blanks] = [blanks] "value"`. */
  function AnnotationSpec(s: seq<char>): (r: Parsed<Annotation>)
    ensures |r.rest| <= |s| && (r.result.Ok? ==> |r.rest| < |s|)
  {
    var name := WordSpec(s, AnnotationName);
    if name.result.Err? then Parsed(Err(name.result.error), name.rest)
    else
      var t := SkipBlank(name.rest);
      if CharResult(t, EQUALS).Err? then Parsed(Err(CharResult(t, EQUALS).error), t)
      else
        var u := SkipBlank(t[1..]);
        if CharResult(u, QUOTE).Err? then Parsed(Err(CharResult(u, QUOTE).error), u)
        else
          var value := AnnotationValueSpec(u[1..]);
          if CharResult(value.rest, QUOTE).Err? then Parsed(Err(CharResult(value.rest, QUOTE).error), value.rest)
          else Parsed(Ok(Annotation(name.result.value, value.result.value)), value.rest[1..])
  }

  /** The loop of `parse_annotations`: blanks and an annotation, as long as a `,` follows. */
  function AnnotationItems(s: seq<char>): (r: Parsed<seq<Annotation>>)
    ensures |r.rest| <= |s|
    decreases |s|
  {
    var annotation := AnnotationSpec(SkipBlank(s));
    if annotation.result.Err? then Parsed(Err(annotation.result.error), annotation.rest)
    else if CharResult(annotation.rest, COMMA).Err? then Parsed(Ok([annotation.result.value]), annotation.rest)
    else Prepend([annotation.result.value], AnnotationItems(annotation.rest[1..]))
  }

  /** `parse_annotations`: `{`, annotations separated by `,`, blanks, `}`. */
  function AnnotationsSpec(s: seq<char>): (r: Parsed<seq<Annotation>>)
    ensures |r.rest| <= |s|
  {
    if CharResult(s, OPEN_BRACE).Err? then Parsed(Err(CharResult(s, OPEN_BRACE).error), s)
    else
      var items := AnnotationItems(s[1..]);
      if items.result.Err? then items
      else
        var t := SkipBlank(items.rest);
        if CharResult(t, CLOSE_BRACE).Err? then Parsed(Err(CharResult(t, CLOSE_BRACE).error), t)
        else Parsed(Ok(items.result.value), t[1..])
  }

  /** `parse_set_feature`: a feature, an optional address, and an optional `= value`. */
  function SetFeatureSpec(s: seq<char>, unset: u64): (r: Parsed<FasmFeature>)
    ensures |r.rest| <= |s|
  {
    var feature := FeatureSpec(s);
    if feature.result.Err? then Parsed(Err(feature.result.error), feature.rest)
    else if CharResult(feature.rest, OPEN_ADDRESS).Ok? then
      var address := FeatureAddressSpec(feature.rest);
      if address.result.Err? then Parsed(Err(address.result.error), address.rest)
      else FeatureValue(feature.result.value, Some(address.result.value), address.rest, unset)
    else FeatureValue(feature.result.value, None, feature.rest, unset)
  }

  /** The end of `parse_set_feature`: blanks, then `=`, blanks and a value if an `=` is there. */
  function FeatureValue(names: seq<seq<char>>, address: Option<FeatureAddress>, s: seq<char>, unset: u64): (r: Parsed<FasmFeature>)
    ensures |r.rest| <= |s|
  {
    var t := SkipBlank(s);
    if CharResult(t, EQUALS).Err? then Parsed(Ok(FasmFeature(names, address, None)), t)
    else
      var value := VerilogSpec(SkipBlank(t[1..]), unset);
      if value.result.Err? then Parsed(Err(value.result.error), value.rest)
      else Parsed(Ok(FasmFeature(names, address, Some(value.result.value))), value.rest)
  }

  /** `parse_line`: blanks, then a feature, annotations and a comment, each optional and each followed by blanks. */
  function LineSpec(s: seq<char>, unset: u64): (r: Parsed<Line>)
    ensures |r.rest| <= |s|
  {
    var t := SkipBlank(s);
    if NotCharResult(t, LINE_STOPS).Ok? then
      var feature := SetFeatureSpec(t, unset);
      if feature.result.Err? then Parsed(Err(feature.result.error), feature.rest)
      else LineAnnotations(Some(feature.result.value), SkipBlank(feature.rest))
    else LineAnnotations(None, t)
  }

  function LineAnnotations(feature: Option<FasmFeature>, s: seq<char>): (r: Parsed<Line>)
    ensures |r.rest| <= |s|
  {
    if CharResult(s, OPEN_BRACE).Ok? then
      var annotations := AnnotationsSpec(s);
      if annotations.result.Err? then Parsed(Err(annotations.result.error), annotations.rest)
      else LineComment(feature, annotations.result.value, SkipBlank(annotations.rest))
    else LineComment(feature, [], s)
  }

  function LineComment(feature: Option<FasmFeature>, annotations: seq<Annotation>, s: seq<char>): (r: Parsed<Line>)
    ensures |r.rest| <= |s|
  {
    if CharResult(s, HASH).Ok? then
      var comment := CommentSpec(s);
      Parsed(Ok(Line(feature, annotations, comment.result.value)), SkipBlank(comment.rest))
    else Parsed(Ok(Line(feature, annotations, [])), s)
  }

  /**
   * `parse`: lines until the input is used up. After a line only newline
   * characters may follow, and a run of them is skipped.
   */
  function LinesSpec(s: seq<char>, unset: u64): (r: Parsed<seq<Line>>)
    decreases |s|
  {
    if |s| == 0 then Parsed(Ok([]), s)
    else
      var line := LineSpec(s, unset);
      if line.result.Err? then Parsed(Err(line.result.error), line.rest)
      else if NotCharResult(line.rest, NEWLINES).Ok? then Parsed(Err(UnexpectedCharacter), line.rest)
      else Prepend([line.result.value], LinesSpec(line.rest[SpanIn(line.rest, NEWLINES)..], unset))
  }

  /* ---- the reader ---- */

  /** `parse_non_newline_whitespace`: never fails; returns the blanks it consumed. */
  method ParseNonNewlineWhitespace(p: BasicParser) returns (r: seq<char>)
    modifies p
    ensures p.input == SkipBlank(old(p.input)) && old(p.input) == r + p.input
  {
    var begin := p.input;
    SkipIn(p, BLANK);
    r := Consumed(begin, p.input);
    assert begin == r + p.input;
  }

  /** `parse_identifier` and `parse_annotation_name`: peek at the start, then pop while the word goes on. */
  method ParseWord(p: BasicParser, kind: WordKind) returns (r: Result<seq<char>, ParseError>)
    modifies p
    ensures Parsed(r, p.input) == WordSpec(old(p.input), kind)
  {
    var begin := p.input;
    var c :- p.Peek();
    if !StartsWord(c, kind) {
      return Err(UnexpectedCharacter);
    }
    var _ := p.Pop();
    ghost var n: nat := 1;
    while true
      invariant n <= |begin| && p.input == begin[n..]
      invariant forall i :: 1 <= i < n ==> IsWordChar(begin[i])
      decreases |begin| - n
    {
      var next := p.Peek();
      if next.Err? || !IsWordChar(next.value) {
        break;
      }
      var _ := p.Pop();
      assert begin[n..][1..] == begin[n + 1..];
      n := n + 1;
    }
    WordOfRun(begin, kind, n);
    return Ok(Consumed(begin, p.input));
  }

  /** A start character and the word characters after it, up to the first other one, make the word. */
  lemma WordOfRun(s: seq<char>, kind: WordKind, n: nat)
    requires 0 < n <= |s| && StartsWord(s[0], kind)
    requires forall i :: 1 <= i < n ==> IsWordChar(s[i])
    requires n == |s| || !IsWordChar(s[n])
    ensures WordSpec(s, kind) == Parsed(Ok(s[..n]), s[n..])
  {
    assert forall i :: 0 <= i < n - 1 ==> s[1..][i] == s[i + 1];
    ClassSpanUnique(s[1..], WordChars, n - 1);
  }

  /** `parse_identifier`. */
  method ParseIdentifier(p: BasicParser) returns (r: Result<seq<char>, ParseError>)
    modifies p
    ensures Parsed(r, p.input) == WordSpec(old(p.input), Identifier)
  {
    r := ParseWord(p, Identifier);
  }

  /** `parse_feature`: a do-while loop that collects identifiers while a `.` follows. */
  method ParseFeature(p: BasicParser) returns (r: Result<seq<seq<char>>, ParseError>)
    modifies p
    ensures Parsed(r, p.input) == FeatureSpec(old(p.input))
  {
    ghost var start := p.input;
    var result: seq<seq<char>> := [];
    PrependNothing(FeatureSpec(start));
    while true
      invariant FeatureSpec(start) == Prepend(result, FeatureSpec(p.input))
      decreases |p.input|
    {
      ghost var here := p.input;
      var ident := ParseIdentifier(p);
      if ident.Err? {
        return Err(ident.error);
      }
      var dot := p.PopChar(DOT);
      if dot.Err? {
        return Ok(result + [ident.value]);
      }
      PrependTwice(result, ident.value, FeatureSpec(p.input));
      result := result + [ident.value];
    }
  }

  /** The loop the four `parse_*_value` functions share, over the digit run of a radix. */
  method ParseDigits(p: BasicParser, radix: Radix) returns (r: Result<BigInt, ParseError>)
    modifies p
    ensures Parsed(r, p.input) == DigitsSpec(old(p.input), radix)
  {
    var begin := p.input;
    var result := Zero;
    var c :- p.Peek();
    if !InDigitRun(c, radix) {
      return Err(UnexpectedCharacter);
    }
    result := FoldStep(result, c, radix);
    var _ := p.Pop();
    FoldValueSnoc([], c, radix);
    assert [] + [c] == [c];
    result := FoldRun(p, radix, result, [c]);
    DigitsEnd(begin, radix, result);
    return Ok(result);
  }

  /** The `for` loop of a `parse_*_value`: folds the rest of the run into b, which holds the fold of `consumed`. */
  method FoldRun(p: BasicParser, radix: Radix, b: BigInt, ghost consumed: seq<char>) returns (r: BigInt)
    modifies p
    requires Normalised(b) && Value(b) == FoldValue(consumed, radix)
    ensures p.input == old(p.input)[ClassSpan(old(p.input), DigitRun(radix))..]
    ensures Normalised(r) && Value(r) == FoldValue(consumed + old(p.input)[..ClassSpan(old(p.input), DigitRun(radix))], radix)
  {
    ghost var begin := p.input;
    ghost var i: nat := 0;
    r := b;
    assert consumed + begin[..0] == consumed;
    while true
      invariant i <= |begin| && p.input == begin[i..]
      invariant ClassSpan(begin, DigitRun(radix)) == i + ClassSpan(begin[i..], DigitRun(radix))
      invariant Normalised(r) && Value(r) == FoldValue(consumed + begin[..i], radix)
      decreases |begin| - i
    {
      var next := p.Peek();
      if next.Err? || !InDigitRun(next.value, radix) {
        break;
      }
      FoldValueSnoc(consumed + begin[..i], next.value, radix);
      RunStep(consumed, begin, i, DigitRun(radix));
      r := FoldStep(r, next.value, radix);
      var _ := p.Pop();
      i := i + 1;
    }
  }

  /** One more character of a run: the consumed text grows by it and the span after it shrinks by one. */
  lemma RunStep(consumed: seq<char>, s: seq<char>, i: nat, k: CharClass)
    requires i < |s| && InClass(s[i], k)
    ensures consumed + s[..i] + [s[i]] == consumed + s[..i + 1]
    ensures s[i..][1..] == s[i + 1..]
    ensures ClassSpan(s[i..], k) == 1 + ClassSpan(s[i + 1..], k)
  {
    assert s[..i + 1] == s[..i] + [s[i]];
    assert s[i..][1..] == s[i + 1..];
  }

  /** Where `ParseDigits` ends: its first character and the run after it, folded into b. */
  lemma DigitsEnd(s: seq<char>, radix: Radix, b: BigInt)
    requires |s| > 0 && InDigitRun(s[0], radix)
    requires Normalised(b) && Value(b) == FoldValue([s[0]] + s[1..][..ClassSpan(s[1..], DigitRun(radix))], radix)
    ensures DigitsSpec(s, radix) == Parsed(Ok(b), s[1..][ClassSpan(s[1..], DigitRun(radix))..])
  {
    var n := ClassSpan(s[1..], DigitRun(radix));
    assert [s[0]] + s[1..][..n] == s[..1 + n];
    assert s[1..][n..] == s[1 + n..];
    FromIntOfValue(b);
  }

  /** `parse_dec_value`: `result *= 10; result += c - '0'` per digit. */
  method ParseDecValue(p: BasicParser) returns (r: Result<BigInt, ParseError>)
    modifies p
    ensures Parsed(r, p.input) == DigitsSpec(old(p.input), Dec)
  {
    r := ParseDigits(p, Dec);
  }

  /** `parse_hex_value`: `result <<= 4U; result += digit` per digit. */
  method ParseHexValue(p: BasicParser) returns (r: Result<BigInt, ParseError>)
    modifies p
    ensures Parsed(r, p.input) == DigitsSpec(old(p.input), Hex)
  {
    r := ParseDigits(p, Hex);
  }

  /** `parse_oct_value`: `result <<= 3U; result += digit` per digit. */
  method ParseOctValue(p: BasicParser) returns (r: Result<BigInt, ParseError>)
    modifies p
    ensures Parsed(r, p.input) == DigitsSpec(old(p.input), Oct)
  {
    r := ParseDigits(p, Oct);
  }

  /** `parse_bin_value`: `result <<= 1U; result += digit` per digit. */
  method ParseBinValue(p: BasicParser) returns (r: Result<BigInt, ParseError>)
    modifies p
    ensures Parsed(r, p.input) == DigitsSpec(old(p.input), Bin)
  {
    r := ParseDigits(p, Bin);
  }

  /** `parse_value_base`: inspects the first two characters, and consumes them only for a `0b`, `0o` or `0x` prefix. */
  method ParseValueBase(p: BasicParser) returns (r: Result<Radix, ParseError>)
    modifies p
    ensures Parsed(r, p.input) == ValueBaseSpec(old(p.input))
  {
    if |p.input| < 2 {
      return Err(EndOfFile);
    }
    if p.input[0] != '0' {
      if '0' <= p.input[0] <= '9' {
        return Ok(Dec);
      }
      return Err(UnexpectedCharacter);
    }
    var result;
    if p.input[1] == 'b' || p.input[1] == 'B' {
      result := Bin;
    } else if p.input[1] == 'o' || p.input[1] == 'O' {
      result := Oct;
    } else if p.input[1] == 'x' || p.input[1] == 'X' {
      result := Hex;
    } else {
      return Err(UnexpectedCharacter);
    }
    p.input := p.input[2..];
    return Ok(result);
  }

  /** The `switch (base)` of `parse_verilog_value_width` and `parse_verilog_value`. */
  method ParseRadixValue(p: BasicParser, radix: Radix) returns (r: Result<BigInt, ParseError>)
    modifies p
    ensures Parsed(r, p.input) == DigitsSpec(old(p.input), radix)
  {
    match radix
    case Bin => r := ParseBinValue(p);
    case Oct => r := ParseOctValue(p);
    case Dec => r := ParseDecValue(p);
    case Hex => r := ParseHexValue(p);
  }

  /** `parse_verilog_value_width`; the `DEFER` puts the input back on every failure. */
  method ParseVerilogValueWidth(p: BasicParser, unset: u64) returns (r: Result<u64, ParseError>)
    modifies p
    ensures Parsed(r, p.input) == WidthSpec(old(p.input), unset)
  {
    var begin := p.input;
    var result := unset;
    var base := ParseValueBase(p);
    if base.Ok? {
      var value := ParseRadixValue(p, base.value);
      if value.Err? {
        p.input := begin;
        return Err(value.error);
      }
      var width := ToUintmax(value.value);
      if width.Err? {
        p.input := begin;
        return Err(IntegerOverflow);
      }
      result := width.value;
    }
    var _ := ParseNonNewlineWhitespace(p);
    var tick := p.PeekChar(TICK);
    if tick.Err? {
      p.input := begin;
      return Err(tick.error);
    }
    return Ok(result);
  }

  /** `parse_verilog_value`. */
  method ParseVerilogValue(p: BasicParser, unset: u64) returns (r: Result<VerilogValue, ParseError>)
    modifies p
    ensures Parsed(r, p.input) == VerilogSpec(old(p.input), unset)
  {
    var width: Option<u64> := None;
    var parsedWidth := ParseVerilogValueWidth(p, unset);
    if parsedWidth.Ok? {
      width := Some(parsedWidth.value);
    } else {
      var _ := ParseNonNewlineWhitespace(p);
    }
    var value;
    var tick := p.PopChar(TICK);
    if tick.Ok? {
      var letter :- p.PopChar(BASE_LETTERS);
      var _ := ParseNonNewlineWhitespace(p);
      value :- ParseRadixValue(p, LetterRadix(letter));
    } else {
      value :- ParseDecValue(p);
    }
    return Ok(VerilogValue(width, value));
  }

  /** The `parse_dec_value().and_then(to_uintmax)` of `parse_feature_address`. */
  method ParseAddress(p: BasicParser) returns (r: Result<u64, ParseError>)
    modifies p
    ensures Parsed(r, p.input) == AddressSpec(old(p.input))
  {
    var value :- ParseDecValue(p);
    var address := ToUintmax(value);
    if address.Err? {
      return Err(IntegerOverflow);
    }
    return Ok(address.value);
  }

  /** `parse_feature_address`. */
  method ParseFeatureAddress(p: BasicParser) returns (r: Result<FeatureAddress, ParseError>)
    modifies p
    ensures Parsed(r, p.input) == FeatureAddressSpec(old(p.input))
  {
    var _ :- p.PopChar(OPEN_ADDRESS);
    var address1 :- ParseAddress(p);
    var address2: Option<u64> := None;
    var colon := p.PopChar(COLON);
    if colon.Ok? {
      var second :- ParseAddress(p);
      address2 := Some(second);
    }
    var _ :- p.PopChar(CLOSE_ADDRESS);
    return Ok(FeatureAddress(address1, address2));
  }

  /** `parse_comment`. */
  method ParseComment(p: BasicParser) returns (r: Result<seq<char>, ParseError>)
    modifies p
    ensures Parsed(r, p.input) == CommentSpec(old(p.input))
  {
    var begin := p.input;
    var _ :- p.PopChar(HASH);
    SkipNotIn(p, NEWLINES);
    assert p.input == begin[1 + SpanNotIn(begin[1..], NEWLINES)..];
    return Ok(Consumed(begin, p.input));
  }

  /** `parse_annotation_name`. */
  method ParseAnnotationName(p: BasicParser) returns (r: Result<seq<char>, ParseError>)
    modifies p
    ensures Parsed(r, p.input) == WordSpec(old(p.input), AnnotationName)
  {
    r := ParseWord(p, AnnotationName);
  }

  /** `parse_annotation_value`: pops plain characters and `\"` pairs for as long as it can. */
  method ParseAnnotationValue(p: BasicParser) returns (r: seq<char>)
    modifies p
    ensures Parsed(Ok(r), p.input) == AnnotationValueSpec(old(p.input))
  {
    var begin := p.input;
    while true
      invariant IsSuffix(p.input, begin)
      invariant Json.StringSpan(begin) == |begin| - |p.input| + Json.StringSpan(p.input)
      decreases |p.input|
    {
      ghost var here := p.input;
      var plain := p.PopNotChar(Json.BACKSLASH_QUOTE);
      if plain.Err? {
        var escaped := p.PopString(Json.ESCAPED_QUOTE);
        if escaped.Err? {
          Json.StringSpanStop(here);
          break;
        }
        Json.StringSpanEscape(here);
      } else {
        Json.StringSpanPlain(here);
      }
    }
    assert begin[Json.StringSpan(begin)..] == p.input;
    return Consumed(begin, p.input);
  }

  /** `parse_annotation`. */
  method ParseAnnotation(p: BasicParser) returns (r: Result<Annotation, ParseError>)
    modifies p
    ensures Parsed(r, p.input) == AnnotationSpec(old(p.input))
  {
    var name :- ParseAnnotationName(p);
    var _ := ParseNonNewlineWhitespace(p);
    var _ :- p.PopChar(EQUALS);
    var _ := ParseNonNewlineWhitespace(p);
    var _ :- p.PopChar(QUOTE);
    var value := ParseAnnotationValue(p);
    var _ :- p.PopChar(QUOTE);
    return Ok(Annotation(name, value));
  }

  /** `parse_annotations`: a do-while loop that collects annotations while a `,` follows. */
  method ParseAnnotations(p: BasicParser) returns (r: Result<seq<Annotation>, ParseError>)
    modifies p
    ensures Parsed(r, p.input) == AnnotationsSpec(old(p.input))
  {
    var _ :- p.PopChar(OPEN_BRACE);
    ghost var start := p.input;
    var result: seq<Annotation> := [];
    PrependNothing(AnnotationItems(start));
    while true
      invariant AnnotationItems(start) == Prepend(result, AnnotationItems(p.input))
      decreases |p.input|
    {
      ghost var here := p.input;
      var _ := ParseNonNewlineWhitespace(p);
      var annotation := ParseAnnotation(p);
      if annotation.Err? {
        return Err(annotation.error);
      }
      var comma := p.PopChar(COMMA);
      if comma.Err? {
        result := result + [annotation.value];
        break;
      }
      PrependTwice(result, annotation.value, AnnotationItems(p.input));
      result := result + [annotation.value];
    }
    var _ := ParseNonNewlineWhitespace(p);
    var _ :- p.PopChar(CLOSE_BRACE);
    return Ok(result);
  }

  /** `parse_set_feature`. */
  method ParseSetFeature(p: BasicParser, unset: u64) returns (r: Result<FasmFeature, ParseError>)
    modifies p
    ensures Parsed(r, p.input) == SetFeatureSpec(old(p.input), unset)
  {
    var feature :- ParseFeature(p);
    var address: Option<FeatureAddress> := None;
    var open := p.PeekChar(OPEN_ADDRESS);
    if open.Ok? {
      var parsed :- ParseFeatureAddress(p);
      address := Some(parsed);
    }
    var _ := ParseNonNewlineWhitespace(p);
    var value: Option<VerilogValue> := None;
    var equals := p.PopChar(EQUALS);
    if equals.Ok? {
      var _ := ParseNonNewlineWhitespace(p);
      var parsed :- ParseVerilogValue(p, unset);
      value := Some(parsed);
    }
    return Ok(FasmFeature(feature, address, value));
  }

  /** `parse_line`. */
  method ParseLine(p: BasicParser, unset: u64) returns (r: Result<Line, ParseError>)
    modifies p
    ensures Parsed(r, p.input) == LineSpec(old(p.input), unset)
  {
    var _ := ParseNonNewlineWhitespace(p);
    var feature: Option<FasmFeature> := None;
    var annotations: seq<Annotation> := [];
    var comment: seq<char> := [];
    var other := p.PeekNotChar(LINE_STOPS);
    if other.Ok? {
      var parsed :- ParseSetFeature(p, unset);
      feature := Some(parsed);
      var _ := ParseNonNewlineWhitespace(p);
    }
    var brace := p.PeekChar(OPEN_BRACE);
    if brace.Ok? {
      annotations :- ParseAnnotations(p);
      var _ := ParseNonNewlineWhitespace(p);
    }
    var hash := p.PeekChar(HASH);
    if hash.Ok? {
      var parsed := ParseComment(p);
      comment := parsed.value;
      var _ := ParseNonNewlineWhitespace(p);
    }
    return Ok(Line(feature, annotations, comment));
  }

  /** `parse`: reads lines until the input is empty. */
  method Parse(p: BasicParser, unset: u64) returns (r: Result<seq<Line>, ParseError>)
    modifies p
    ensures Parsed(r, p.input) == LinesSpec(old(p.input), unset)
  {
    ghost var start := p.input;
    var result: seq<Line> := [];
    PrependNothing(LinesSpec(start, unset));
    while |p.input| > 0
      invariant LinesSpec(start, unset) == Prepend(result, LinesSpec(p.input, unset))
      decreases |p.input|
    {
      var line := ParseLine(p, unset);
      if line.Err? {
        return Err(line.error);
      }
      var other := p.PeekNotChar(NEWLINES);
      if other.Ok? {
        return Err(UnexpectedCharacter);
      }
      SkipIn(p, NEWLINES);
      PrependTwice(result, line.value, LinesSpec(p.input, unset));
      result := result + [line.value];
    }
    assert result + [] == result;
    return Ok(result);
  }
}
