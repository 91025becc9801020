/**
 * `json_parser`: a recursive descent reader of JSON text. Strings are kept
 * raw (the only escape it steps over is `\"`), numbers follow the number
 * grammar of section 6 of RFC 8259, and arrays, objects and the `:` of a
 * member are read leniently.
 */
module Json {
  import opened Results
  import opened Parser

  const WHITESPACE: seq<char> := [' ', '\t', '\n', '\r']
  const QUOTE: seq<char> := ['"']
  const BACKSLASH_QUOTE: seq<char> := ['\\', '"']
  const ESCAPED_QUOTE: seq<char> := ['\\', '"']
  const MINUS: seq<char> := ['-']
  const ZERO: seq<char> := ['0']
  const NONZERO: seq<char> := ['1', '2', '3', '4', '5', '6', '7', '8', '9']
  const DIGITS: seq<char> := ['0', '1', '2', '3', '4', '5', '6', '7', '8', '9']
  const POINT: seq<char> := ['.']
  const EXPONENT: seq<char> := ['e', 'E']
  const SIGNS: seq<char> := ['-', '+']
  const OPEN_BRACKET: seq<char> := ['[']
  const CLOSE_BRACKET: seq<char> := [']']
  const OPEN_BRACE: seq<char> := ['{']
  const CLOSE_BRACE: seq<char> := ['}']
  const COMMA: seq<char> := [',']
  const COLON: seq<char> := [':']

  /** `json_parser::string`: the raw text between the quotes. */
  datatype JString = JString(value: seq<char>)

  /** `json_parser::value_type`: a bare literal, a string, an array or an object. */
  datatype Value =
    | Literal(text: seq<char>)
    | Str(str: JString)
    | Arr(values: seq<Value>)
    | Obj(members: seq<KeyValue>)

  /** `json_parser::key_value`. */
  datatype KeyValue = KeyValue(key: JString, value: Value)

  /* ---- the accessors of `value_type` ---- */

  /** `lit()`: the literal's text, when the value is a literal. */
  function Lit(v: Value): (r: Option<seq<char>>)
    ensures forall t :: r == Some(t) <==> v == Literal(t)
  {
    if v.Literal? then Some(v.text) else None
  }

  /** `str()`: the text of the string, when the value is a string. */
  function StrValue(v: Value): (r: Option<seq<char>>)
    ensures forall t :: r == Some(t) <==> v == Str(JString(t))
  {
    if v.Str? then Some(v.str.value) else None
  }

  /** `arr()`: the elements, when the value is an array. */
  function ArrValues(v: Value): (r: Option<seq<Value>>)
    ensures forall vs :: r == Some(vs) <==> v == Arr(vs)
  {
    if v.Arr? then Some(v.values) else None
  }

  /** `obj()`: the members, when the value is an object. */
  function ObjMembers(v: Value): (r: Option<seq<KeyValue>>)
    ensures forall ms :: r == Some(ms) <==> v == Obj(ms)
  {
    if v.Obj? then Some(v.members) else None
  }

  /** Exactly one accessor of every value is non-null. */
  lemma ExactlyOneAccessor(v: Value)
    ensures Lit(v).Some? || StrValue(v).Some? || ArrValues(v).Some? || ObjMembers(v).Some?
    ensures !(Lit(v).Some? && StrValue(v).Some?) && !(Lit(v).Some? && ArrValues(v).Some?)
    ensures !(Lit(v).Some? && ObjMembers(v).Some?) && !(StrValue(v).Some? && ArrValues(v).Some?)
    ensures !(StrValue(v).Some? && ObjMembers(v).Some?) && !(ArrValues(v).Some? && ObjMembers(v).Some?)
  {
  }

  /* ---- specification of the reader ---- */

  /** What `parse_whitespace` leaves: the text after its leading whitespace. */
  function SkipWs(s: seq<char>): (r: seq<char>)
    ensures |r| <= |s|
  {
    s[SpanIn(s, WHITESPACE)..]
  }

  /**
   * The raw body of a string: characters other than `\` and `"`, and the
   * pair `\"`, as many as follow one another.
   */
  function StringSpan(s: seq<char>): (n: nat)
    ensures n <= |s|
  {
    if |s| > 0 && s[0] !in BACKSLASH_QUOTE then 1 + StringSpan(s[1..])
    else if |s| >= 2 && s[..2] == ESCAPED_QUOTE then 2 + StringSpan(s[2..])
    else 0
  }

  /** `parse_string`: `"`, the raw body, `"`. */
  function StringSpec(s: seq<char>): (r: Parsed<JString>)
    ensures |r.rest| <= |s| && (r.result.Ok? ==> |r.rest| + 2 <= |s|)
  {
    if CharResult(s, QUOTE).Err? then Parsed(Err(CharResult(s, QUOTE).error), s)
    else
      var body := s[1..];
      var n := StringSpan(body);
      var after := body[n..];
      if CharResult(after, QUOTE).Err? then Parsed(Err(CharResult(after, QUOTE).error), after)
      else Parsed(Ok(JString(body[..n])), after[1..])
  }

  /** `pop_char(cs).discard()`: what is left after an optional character. */
  function SkipOptional(s: seq<char>, cs: seq<char>): (r: seq<char>)
    ensures |r| <= |s|
  {
    if |s| > 0 && s[0] in cs then s[1..] else s
  }

  /** The integer part of a number: `0`, or a non-zero digit and the digits after it. */
  function IntegerSpec(s: seq<char>): (r: Parsed<seq<char>>)
    ensures |r.rest| <= |s|
  {
    if |s| > 0 && s[0] == '0' then Parsed(Ok(s[..1]), s[1..])
    else if CharResult(s, NONZERO).Err? then Parsed(Err(CharResult(s, NONZERO).error), s)
    else
      var n := 1 + SpanIn(s[1..], DIGITS);
      Parsed(Ok(s[..n]), s[n..])
  }

  /** The fraction of a number: nothing, or `.` and at least one digit. */
  function FractionSpec(s: seq<char>): (r: Parsed<seq<char>>)
    ensures |r.rest| <= |s|
  {
    if |s| > 0 && s[0] == '.' then
      var t := s[1..];
      if CharResult(t, DIGITS).Err? then Parsed(Err(CharResult(t, DIGITS).error), t)
      else
        var n := 2 + SpanIn(s[2..], DIGITS);
        Parsed(Ok(s[..n]), s[n..])
    else Parsed(Ok([]), s)
  }

  /** The exponent of a number: nothing, or `e`/`E`, an optional sign and at least one digit. */
  function ExponentSpec(s: seq<char>): (r: Parsed<seq<char>>)
    ensures |r.rest| <= |s|
  {
    if |s| > 0 && s[0] in EXPONENT then
      var t := SkipOptional(s[1..], SIGNS);
      if CharResult(t, DIGITS).Err? then Parsed(Err(CharResult(t, DIGITS).error), t)
      else
        var n := |s| - |t| + 1 + SpanIn(t[1..], DIGITS);
        Parsed(Ok(s[..n]), s[n..])
    else Parsed(Ok([]), s)
  }

  /** `parse_number`: an optional `-`, the integer part, the fraction and the exponent. */
  function NumberSpec(s: seq<char>): (r: Parsed<seq<char>>)
    ensures |r.rest| <= |s|
  {
    var integer := IntegerSpec(SkipOptional(s, MINUS));
    if integer.result.Err? then Parsed(Err(integer.result.error), integer.rest)
    else
      var fraction := FractionSpec(integer.rest);
      if fraction.result.Err? then Parsed(Err(fraction.result.error), fraction.rest)
      else
        var exponent := ExponentSpec(fraction.rest);
        if exponent.result.Err? then Parsed(Err(exponent.result.error), exponent.rest)
        else Parsed(Ok(Consumed(s, exponent.rest)), exponent.rest)
  }

  /** `parse_literal`: `true`, `false` or `null`, tried in that order, else a number. */
  function LiteralSpec(s: seq<char>): (r: Parsed<seq<char>>)
    ensures |r.rest| <= |s|
  {
    if StringResult(s, "true").Ok? then Parsed(Ok("true"), s[4..])
    else if StringResult(s, "false").Ok? then Parsed(Ok("false"), s[5..])
    else if StringResult(s, "null").Ok? then Parsed(Ok("null"), s[4..])
    else NumberSpec(s)
  }

  /** `parse_value`: dispatch on the first character. */
  function ValueSpec(s: seq<char>): (r: Parsed<Value>)
    ensures |r.rest| <= |s|
    decreases |s|, 2
  {
    if CharResult(s, QUOTE).Ok? then
      var r := StringSpec(s);
      Parsed(if r.result.Ok? then Ok(Str(r.result.value)) else Err(r.result.error), r.rest)
    else if CharResult(s, OPEN_BRACE).Ok? then
      var r := ObjectSpec(s);
      Parsed(if r.result.Ok? then Ok(Obj(r.result.value)) else Err(r.result.error), r.rest)
    else if CharResult(s, OPEN_BRACKET).Ok? then
      var r := ArraySpec(s);
      Parsed(if r.result.Ok? then Ok(Arr(r.result.value)) else Err(r.result.error), r.rest)
    else
      var r := LiteralSpec(s);
      Parsed(if r.result.Ok? then Ok(Literal(r.result.value)) else Err(r.result.error), r.rest)
  }

  /** `parse_array`: `[`, the elements, `]`. */
  function ArraySpec(s: seq<char>): (r: Parsed<seq<Value>>)
    ensures |r.rest| <= |s|
    decreases |s|, 1
  {
    if CharResult(s, OPEN_BRACKET).Err? then Parsed(Err(CharResult(s, OPEN_BRACKET).error), s)
    else
      var items := ArrayItems(SkipWs(s[1..]));
      if items.result.Err? then items
      else if CharResult(items.rest, CLOSE_BRACKET).Err? then
        Parsed(Err(CharResult(items.rest, CLOSE_BRACKET).error), items.rest)
      else Parsed(items.result, items.rest[1..])
  }

  /**
   * The loop of `parse_array`: nothing in front of `]`; otherwise an element,
   * and after a `,` the elements that follow. Whitespace may surround the `,`.
   */
  function ArrayItems(s: seq<char>): (r: Parsed<seq<Value>>)
    ensures |r.rest| <= |s|
    decreases |s|, 3
  {
    if CharResult(s, CLOSE_BRACKET).Ok? then Parsed(Ok([]), s)
    else
      var v := ValueSpec(s);
      if v.result.Err? then Parsed(Err(v.result.error), v.rest)
      else
        var t := SkipWs(v.rest);
        if CharResult(t, COMMA).Err? then Parsed(Ok([v.result.value]), t)
        else Prepend([v.result.value], ArrayItems(SkipWs(t[1..])))
  }

  /** `parse_key_value`: a string, an optional `:`, a value; whitespace in between. */
  function KeyValueSpec(s: seq<char>): (r: Parsed<KeyValue>)
    ensures |r.rest| <= |s|
    decreases |s|, 2
  {
    var key := StringSpec(s);
    if key.result.Err? then Parsed(Err(key.result.error), key.rest)
    else
      var v := ValueSpec(SkipWs(SkipOptional(SkipWs(key.rest), COLON)));
      if v.result.Err? then Parsed(Err(v.result.error), v.rest)
      else Parsed(Ok(KeyValue(key.result.value, v.result.value)), v.rest)
  }

  /** `parse_object`: `{`, the members, `}`. */
  function ObjectSpec(s: seq<char>): (r: Parsed<seq<KeyValue>>)
    ensures |r.rest| <= |s|
    decreases |s|, 1
  {
    if CharResult(s, OPEN_BRACE).Err? then Parsed(Err(CharResult(s, OPEN_BRACE).error), s)
    else
      var items := ObjectItems(SkipWs(s[1..]));
      if items.result.Err? then items
      else if CharResult(items.rest, CLOSE_BRACE).Err? then
        Parsed(Err(CharResult(items.rest, CLOSE_BRACE).error), items.rest)
      else Parsed(items.result, items.rest[1..])
  }

  /** The loop of `parse_object`: like the loop of `parse_array`, with members. */
  function ObjectItems(s: seq<char>): (r: Parsed<seq<KeyValue>>)
    ensures |r.rest| <= |s|
    decreases |s|, 3
  {
    if CharResult(s, CLOSE_BRACE).Ok? then Parsed(Ok([]), s)
    else
      var kv := KeyValueSpec(s);
      if kv.result.Err? then Parsed(Err(kv.result.error), kv.rest)
      else
        var t := SkipWs(kv.rest);
        if CharResult(t, COMMA).Err? then Parsed(Ok([kv.result.value]), t)
        else Prepend([kv.result.value], ObjectItems(SkipWs(t[1..])))
  }

  /** `parse`: leading whitespace, then one value; what follows it is left alone. */
  function DocumentSpec(s: seq<char>): (r: Parsed<Value>)
    ensures |r.rest| <= |s|
  {
    ValueSpec(SkipWs(s))
  }

  /* ---- one-step unfoldings of the specification ---- */

  /** A string body goes on over a character other than `\` and `"`. */
  lemma StringSpanPlain(s: seq<char>)
    requires |s| > 0 && s[0] !in BACKSLASH_QUOTE
    ensures StringSpan(s) == 1 + StringSpan(s[1..])
  {
  }

  /** A string body goes on over `\"`. */
  lemma StringSpanEscape(s: seq<char>)
    requires (|s| == 0 || s[0] in BACKSLASH_QUOTE) && |s| >= 2 && s[..2] == ESCAPED_QUOTE
    ensures StringSpan(s) == 2 + StringSpan(s[2..])
  {
  }

  /** `parse_exponent` once a digit follows the `e` and the sign: the run of digits is consumed. */
  lemma ExponentOfDigits(s: seq<char>, t: seq<char>, u: seq<char>, m: nat)
    requires |s| > 0 && s[0] in EXPONENT && t == SkipOptional(s[1..], SIGNS)
    requires CharResult(t, DIGITS).Ok? && u == t[1..] && m == SpanIn(u, DIGITS)
    ensures ExponentSpec(s).result.Ok? && ExponentSpec(s).rest == u[m..]
  {
    var k := |s| - |t|;
    assert t == s[k..];
    assert u[m..] == s[k + 1 + m..];
  }

  /** `parse_string` once the body is known: the closing `"` decides. */
  lemma StringOfBody(s: seq<char>, body: seq<char>, n: nat)
    requires CharResult(s, QUOTE).Ok? && body == s[1..] && n == StringSpan(body)
    ensures var after := body[n..];
      StringSpec(s) ==
        if CharResult(after, QUOTE).Err? then Parsed(Err(CharResult(after, QUOTE).error), after)
        else Parsed(Ok(JString(body[..n])), after[1..])
  {
  }

  /** A string body ends in front of `"`, in front of a `\` not followed by `"`, or at the end. */
  lemma StringSpanStop(s: seq<char>)
    requires (|s| == 0 || s[0] in BACKSLASH_QUOTE) && !(|s| >= 2 && s[..2] == ESCAPED_QUOTE)
    ensures StringSpan(s) == 0
  {
  }

  /** One pass of the loop of `parse_array` that is not at `]`. */
  lemma ArrayItemsStep(s: seq<char>, v: Parsed<Value>)
    requires CharResult(s, CLOSE_BRACKET).Err? && v == ValueSpec(s)
    ensures v.result.Err? ==> ArrayItems(s) == Parsed(Err(v.result.error), v.rest)
    ensures v.result.Ok? && CharResult(SkipWs(v.rest), COMMA).Err? ==>
      ArrayItems(s) == Parsed(Ok([v.result.value]), SkipWs(v.rest))
    ensures v.result.Ok? && CharResult(SkipWs(v.rest), COMMA).Ok? ==>
      ArrayItems(s) == Prepend([v.result.value], ArrayItems(SkipWs(SkipWs(v.rest)[1..])))
  {
  }

  /** One pass of the loop of `parse_object` that is not at `}`. */
  lemma ObjectItemsStep(s: seq<char>, kv: Parsed<KeyValue>)
    requires CharResult(s, CLOSE_BRACE).Err? && kv == KeyValueSpec(s)
    ensures kv.result.Err? ==> ObjectItems(s) == Parsed(Err(kv.result.error), kv.rest)
    ensures kv.result.Ok? && CharResult(SkipWs(kv.rest), COMMA).Err? ==>
      ObjectItems(s) == Parsed(Ok([kv.result.value]), SkipWs(kv.rest))
    ensures kv.result.Ok? && CharResult(SkipWs(kv.rest), COMMA).Ok? ==>
      ObjectItems(s) == Prepend([kv.result.value], ObjectItems(SkipWs(SkipWs(kv.rest)[1..])))
  {
  }

  /** A member whose key has been read. */
  lemma KeyValueStep(s: seq<char>, key: JString, keyRest: seq<char>, v: Parsed<Value>)
    requires StringSpec(s) == Parsed(Ok(key), keyRest)
    requires v == ValueSpec(SkipWs(SkipOptional(SkipWs(keyRest), COLON)))
    ensures KeyValueSpec(s) ==
      if v.result.Err? then Parsed(Err(v.result.error), v.rest)
      else Parsed(Ok(KeyValue(key, v.result.value)), v.rest)
  {
  }

  /* ---- the reader ---- */

  /** `json_parser::parse_whitespace`: returns the whitespace it consumed. */
  method ParseWhitespace(p: BasicParser) returns (r: seq<char>)
    modifies p
    ensures p.input == SkipWs(old(p.input)) && old(p.input) == r + p.input
  {
    var begin := p.input;
    SkipIn(p, WHITESPACE);
    r := Consumed(begin, p.input);
    assert begin == r + p.input;
  }

  /** `json_parser::parse_string`. */
  method ParseString(p: BasicParser) returns (r: Result<JString, ParseError>)
    modifies p
    ensures Parsed(r, p.input) == StringSpec(old(p.input))
  {
    ghost var s := p.input;
    var open := p.PopChar(QUOTE);
    if open.Err? {
      return Err(open.error);
    }
    var begin := p.input;
    ghost var i: nat := 0;
    while true
      invariant i <= |begin| && p.input == begin[i..]
      invariant StringSpan(begin) == i + StringSpan(begin[i..])
      decreases |begin| - i
    {
      var plain := p.PopNotChar(BACKSLASH_QUOTE);
      if plain.Err? {
        var escaped := p.PopString(ESCAPED_QUOTE);
        if escaped.Err? {
          StringSpanStop(begin[i..]);
          break;
        }
        StringSpanEscape(begin[i..]);
        assert begin[i..][2..] == begin[i + 2..];
        i := i + 2;
      } else {
        StringSpanPlain(begin[i..]);
        assert begin[i..][1..] == begin[i + 1..];
        i := i + 1;
      }
    }
    var value := JString(Consumed(begin, p.input));
    StringOfBody(s, begin, i);
    var close := p.PopChar(QUOTE);
    if close.Err? {
      return Err(close.error);
    }
    return Ok(value);
  }

  /** The integer part of `json_parser::parse_number`. */
  method ParseInteger(p: BasicParser) returns (r: Result<(), ParseError>)
    modifies p
    ensures r.Ok? == IntegerSpec(old(p.input)).result.Ok?
    ensures r.Err? ==> r.error == IntegerSpec(old(p.input)).result.error
    ensures p.input == IntegerSpec(old(p.input)).rest
  {
    ghost var begin := p.input;
    var zero := p.PopChar(ZERO);
    if zero.Ok? {
      return Ok(());
    }
    var first := p.PeekChar(NONZERO);
    if first.Err? {
      return Err(first.error);
    }
    ghost var i: nat := 0;
    while true
      invariant i < |begin| && p.input == begin[i..]
      invariant forall k :: 1 <= k <= i ==> begin[k] in DIGITS
      decreases |begin| - i
    {
      var _ := p.Pop();
      i := i + 1;
      var more := p.PeekChar(DIGITS);
      if more.Err? {
        break;
      }
    }
    IntegerOfRun(begin, i);
    return Ok(());
  }

  /** Where the loop of `ParseInteger` stops: after the digits that follow a non-zero first one. */
  lemma IntegerOfRun(begin: seq<char>, i: nat)
    requires 0 < i <= |begin| && begin[0] in NONZERO && (forall k :: 1 <= k < i ==> begin[k] in DIGITS)
    requires i == |begin| || begin[i] !in DIGITS
    ensures IntegerSpec(begin) == Parsed(Ok(begin[..i]), begin[i..])
  {
    var t := begin[1..];
    assert forall k :: 0 <= k < i - 1 ==> t[k] == begin[k + 1];
    SpanInUnique(t, DIGITS, i - 1);
  }

  /** The fraction of `json_parser::parse_number`. */
  method ParseFraction(p: BasicParser) returns (r: Result<(), ParseError>)
    modifies p
    ensures r.Ok? == FractionSpec(old(p.input)).result.Ok?
    ensures r.Err? ==> r.error == FractionSpec(old(p.input)).result.error
    ensures p.input == FractionSpec(old(p.input)).rest
  {
    ghost var begin := p.input;
    var point := p.PopChar(POINT);
    if point.Ok? {
      var digit := p.PopChar(DIGITS);
      if digit.Err? {
        return Err(digit.error);
      }
      assert p.input == begin[2..];
      SkipIn(p, DIGITS);
    }
    return Ok(());
  }

  /** The exponent of `json_parser::parse_number`. */
  method ParseExponent(p: BasicParser) returns (r: Result<(), ParseError>)
    modifies p
    ensures r.Ok? == ExponentSpec(old(p.input)).result.Ok?
    ensures r.Err? ==> r.error == ExponentSpec(old(p.input)).result.error
    ensures p.input == ExponentSpec(old(p.input)).rest
  {
    ghost var begin := p.input;
    var e := p.PopChar(EXPONENT);
    if e.Ok? {
      var _ := p.PopChar(SIGNS);
      ghost var t := p.input;
      var digit := p.PopChar(DIGITS);
      if digit.Err? {
        return Err(digit.error);
      }
      SkipIn(p, DIGITS);
      ExponentOfDigits(begin, t, t[1..], SpanIn(t[1..], DIGITS));
    }
    return Ok(());
  }

  /** `json_parser::parse_number`. */
  method ParseNumber(p: BasicParser) returns (r: Result<seq<char>, ParseError>)
    modifies p
    ensures Parsed(r, p.input) == NumberSpec(old(p.input))
  {
    var begin := p.input;
    var _ := p.PopChar(MINUS);
    var integer := ParseInteger(p);
    if integer.Err? {
      return Err(integer.error);
    }
    var fraction := ParseFraction(p);
    if fraction.Err? {
      return Err(fraction.error);
    }
    var exponent := ParseExponent(p);
    if exponent.Err? {
      return Err(exponent.error);
    }
    return Ok(Consumed(begin, p.input));
  }

  /** `json_parser::parse_literal`. */
  method ParseLiteral(p: BasicParser) returns (r: Result<seq<char>, ParseError>)
    modifies p
    ensures Parsed(r, p.input) == LiteralSpec(old(p.input))
  {
    var trueValue := p.PopString("true");
    if trueValue.Ok? {
      return Ok(trueValue.value);
    }
    var falseValue := p.PopString("false");
    if falseValue.Ok? {
      return Ok(falseValue.value);
    }
    var nullValue := p.PopString("null");
    if nullValue.Ok? {
      return Ok(nullValue.value);
    }
    r := ParseNumber(p);
  }

  /** `json_parser::parse_value`. */
  method ParseValue(p: BasicParser) returns (r: Result<Value, ParseError>)
    modifies p
    ensures Parsed(r, p.input) == ValueSpec(old(p.input))
    decreases |p.input|, 2
  {
    var quote := p.PeekChar(QUOTE);
    if quote.Ok? {
      var str :- ParseString(p);
      return Ok(Str(str));
    }
    var brace := p.PeekChar(OPEN_BRACE);
    if brace.Ok? {
      var members :- ParseObject(p);
      return Ok(Obj(members));
    }
    var bracket := p.PeekChar(OPEN_BRACKET);
    if bracket.Ok? {
      var values :- ParseArray(p);
      return Ok(Arr(values));
    }
    var literal :- ParseLiteral(p);
    return Ok(Literal(literal));
  }

  /** `json_parser::parse_array`. */
  method ParseArray(p: BasicParser) returns (r: Result<seq<Value>, ParseError>)
    modifies p
    ensures Parsed(r, p.input) == ArraySpec(old(p.input))
    decreases |p.input|, 1
  {
    ghost var begin := p.input;
    var open := p.PopChar(OPEN_BRACKET);
    if open.Err? {
      return Err(open.error);
    }
    var _ := ParseWhitespace(p);
    ghost var start := p.input;
    var values: seq<Value> := [];
    PrependNothing(ArrayItems(start));
    while true
      invariant ArrayItems(start) == Prepend(values, ArrayItems(p.input))
      invariant |p.input| < |begin|
      decreases |p.input|
    {
      var close := p.PeekChar(CLOSE_BRACKET);
      if close.Ok? {
        assert values + [] == values;
        break;
      }
      ghost var here := p.input;
      var v := ParseValue(p);
      ArrayItemsStep(here, Parsed(v, p.input));
      if v.Err? {
        return Err(v.error);
      }
      var _ := ParseWhitespace(p);
      var comma := p.PopChar(COMMA);
      if comma.Err? {
        values := values + [v.value];
        break;
      }
      var _ := ParseWhitespace(p);
      PrependTwice(values, v.value, ArrayItems(p.input));
      values := values + [v.value];
    }
    var close := p.PopChar(CLOSE_BRACKET);
    if close.Err? {
      return Err(close.error);
    }
    return Ok(values);
  }

  /** `json_parser::parse_key_value`. */
  method ParseKeyValue(p: BasicParser) returns (r: Result<KeyValue, ParseError>)
    modifies p
    ensures Parsed(r, p.input) == KeyValueSpec(old(p.input))
    decreases |p.input|, 2
  {
    ghost var begin := p.input;
    var key := ParseString(p);
    if key.Err? {
      return Err(key.error);
    }
    ghost var afterKey := p.input;
    var _ := ParseWhitespace(p);
    ghost var beforeColon := p.input;
    var _ := p.PopChar(COLON);
    assert p.input == SkipOptional(beforeColon, COLON);
    var _ := ParseWhitespace(p);
    ghost var valueStart := p.input;
    assert |valueStart| < |begin|;
    var value := ParseValue(p);
    KeyValueStep(begin, key.value, afterKey, Parsed(value, p.input));
    if value.Err? {
      return Err(value.error);
    }
    return Ok(KeyValue(key.value, value.value));
  }

  /** `json_parser::parse_object`. */
  method ParseObject(p: BasicParser) returns (r: Result<seq<KeyValue>, ParseError>)
    modifies p
    ensures Parsed(r, p.input) == ObjectSpec(old(p.input))
    decreases |p.input|, 1
  {
    ghost var begin := p.input;
    var open := p.PopChar(OPEN_BRACE);
    if open.Err? {
      return Err(open.error);
    }
    var _ := ParseWhitespace(p);
    ghost var start := p.input;
    var members: seq<KeyValue> := [];
    PrependNothing(ObjectItems(start));
    while true
      invariant ObjectItems(start) == Prepend(members, ObjectItems(p.input))
      invariant |p.input| < |begin|
      decreases |p.input|
    {
      var close := p.PeekChar(CLOSE_BRACE);
      if close.Ok? {
        assert members + [] == members;
        break;
      }
      ghost var here := p.input;
      var kv := ParseKeyValue(p);
      ObjectItemsStep(here, Parsed(kv, p.input));
      if kv.Err? {
        return Err(kv.error);
      }
      var _ := ParseWhitespace(p);
      var comma := p.PopChar(COMMA);
      if comma.Err? {
        members := members + [kv.value];
        break;
      }
      var _ := ParseWhitespace(p);
      PrependTwice(members, kv.value, ObjectItems(p.input));
      members := members + [kv.value];
    }
    var close := p.PopChar(CLOSE_BRACE);
    if close.Err? {
      return Err(close.error);
    }
    return Ok(members);
  }

  /** `json_parser::parse`. */
  method Parse(p: BasicParser) returns (r: Result<Value, ParseError>)
    modifies p
    ensures Parsed(r, p.input) == DocumentSpec(old(p.input))
  {
    var _ := ParseWhitespace(p);
    r := ParseValue(p);
  }

  /* ---- the printers ---- */

  /** The printed form of a string: its raw text between quotes. */
  function StringText(j: JString): seq<char>
  {
    QUOTE + j.value + QUOTE
  }

  /** The printed form of a value. */
  function ValueText(v: Value): seq<char>
    decreases v
  {
    match v
    case Literal(t) => t
    case Str(j) => StringText(j)
    case Arr(vs) => OPEN_BRACKET + ItemsText(vs) + CLOSE_BRACKET
    case Obj(ms) => OPEN_BRACE + MembersText(ms) + CLOSE_BRACE
  }

  /** Elements printed one after the other, `, ` between two of them. */
  function ItemsText(vs: seq<Value>): seq<char>
    decreases vs
  {
    if |vs| == 0 then []
    else if |vs| == 1 then ValueText(vs[0])
    else ValueText(vs[0]) + ", " + ItemsText(vs[1..])
  }

  /** The printed form of a member: key, ` : `, value. */
  function MemberText(kv: KeyValue): seq<char>
    decreases kv
  {
    StringText(kv.key) + " : " + ValueText(kv.value)
  }

  /** Members printed one after the other, `, ` between two of them. */
  function MembersText(ms: seq<KeyValue>): seq<char>
    decreases ms
  {
    if |ms| == 0 then []
    else if |ms| == 1 then MemberText(ms[0])
    else MemberText(ms[0]) + ", " + MembersText(ms[1..])
  }

  lemma {:induction false} ItemsSnoc(vs: seq<Value>, v: Value)
    requires |vs| > 0
    ensures ItemsText(vs + [v]) == ItemsText(vs) + ", " + ValueText(v)
  {
    if |vs| > 1 {
      assert (vs + [v])[1..] == vs[1..] + [v];
      ItemsSnoc(vs[1..], v);
    } else {
      assert vs + [v] == [vs[0], v];
    }
  }

  lemma {:induction false} MembersSnoc(ms: seq<KeyValue>, kv: KeyValue)
    requires |ms| > 0
    ensures MembersText(ms + [kv]) == MembersText(ms) + ", " + MemberText(kv)
  {
    if |ms| > 1 {
      assert (ms + [kv])[1..] == ms[1..] + [kv];
      MembersSnoc(ms[1..], kv);
    } else {
      assert ms + [kv] == [ms[0], kv];
    }
  }

  /** `operator<<(std::ostream &, const json_parser::string &)`: the stream is the returned string. */
  method PrintString(j: JString) returns (s: seq<char>)
    ensures s == StringText(j)
  {
    s := QUOTE + j.value + QUOTE;
  }

  /** `operator<<(std::ostream &, const json_parser::value_type &)`. */
  method PrintValue(v: Value) returns (s: seq<char>)
    ensures s == ValueText(v)
    decreases v
  {
    match v
    case Literal(t) =>
      s := t;
    case Str(j) =>
      s := PrintString(j);
    case Arr(vs) =>
      s := PrintArray(vs);
    case Obj(ms) =>
      s := PrintObject(ms);
  }

  /** `operator<<(std::ostream &, const json_parser::array &)`. */
  method PrintArray(vs: seq<Value>) returns (s: seq<char>)
    ensures s == OPEN_BRACKET + ItemsText(vs) + CLOSE_BRACKET
    decreases vs
  {
    s := OPEN_BRACKET;
    if |vs| > 0 {
      var first := PrintValue(vs[0]);
      s := s + first;
      var i := 1;
      while i < |vs|
        invariant 1 <= i <= |vs|
        invariant s == OPEN_BRACKET + ItemsText(vs[..i])
      {
        var next := PrintValue(vs[i]);
        ItemsSnoc(vs[..i], vs[i]);
        assert vs[..i + 1] == vs[..i] + [vs[i]];
        s := s + ", " + next;
        i := i + 1;
      }
      assert vs[..i] == vs;
    }
    s := s + CLOSE_BRACKET;
  }

  /** `operator<<(std::ostream &, const json_parser::key_value &)`. */
  method PrintKeyValue(kv: KeyValue) returns (s: seq<char>)
    ensures s == MemberText(kv)
    decreases kv
  {
    var key := PrintString(kv.key);
    var value := PrintValue(kv.value);
    s := key + " : " + value;
  }

  /** `operator<<(std::ostream &, const json_parser::object &)`. */
  method PrintObject(ms: seq<KeyValue>) returns (s: seq<char>)
    ensures s == OPEN_BRACE + MembersText(ms) + CLOSE_BRACE
    decreases ms
  {
    s := OPEN_BRACE;
    if |ms| > 0 {
      var first := PrintKeyValue(ms[0]);
      s := s + first;
      var i := 1;
      while i < |ms|
        invariant 1 <= i <= |ms|
        invariant s == OPEN_BRACE + MembersText(ms[..i])
      {
        var next := PrintKeyValue(ms[i]);
        MembersSnoc(ms[..i], ms[i]);
        assert ms[..i + 1] == ms[..i] + [ms[i]];
        s := s + ", " + next;
        i := i + 1;
      }
      assert ms[..i] == ms;
    }
    s := s + CLOSE_BRACE;
  }
}
