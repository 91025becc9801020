/**
 * `basic_parser`: a cursor over the input text. Every primitive either
 * inspects the first characters of `input` or drops them; a failed
 * primitive never changes `input`.
 */
module Parser {
  import opened Results

  datatype ParseError = EndOfFile | UnexpectedCharacter | IntegerOverflow

  /** `operator<<(std::ostream &, const basic_parser::error_type &)`: each code has its own message. */
  function ErrorMessage(e: ParseError): (r: string)
    ensures r == "end of file" <==> e == EndOfFile
    ensures r == "unexpected character" <==> e == UnexpectedCharacter
    ensures r == "integer overflow" <==> e == IntegerOverflow
  {
    match e
    case EndOfFile => "end of file"
    case UnexpectedCharacter => "unexpected character"
    case IntegerOverflow => "integer overflow"
  }

  /** What a parse step returned, and the input it left behind (on failure too). */
  datatype Parsed<+T> = Parsed(result: Result<T, ParseError>, rest: seq<char>)

  predicate IsSuffix(rest: seq<char>, s: seq<char>)
  {
    |rest| <= |s| && rest == s[|s| - |rest|..]
  }

  /** The text a step consumed: s up to where rest begins. */
  function Consumed(s: seq<char>, rest: seq<char>): seq<char>
    requires |rest| <= |s|
  {
    s[..|s| - |rest|]
  }

  /** A loop that collects items once one more has been collected: its error, or the items before the rest. */
  function Prepend<T>(items: seq<T>, r: Parsed<seq<T>>): Parsed<seq<T>>
  {
    if r.result.Err? then r else Parsed(Ok(items + r.result.value), r.rest)
  }

  lemma PrependNothing<T>(r: Parsed<seq<T>>)
    ensures Prepend([], r) == r
  {
    if r.result.Ok? {
      assert [] + r.result.value == r.result.value;
    }
  }

  lemma PrependTwice<T>(items: seq<T>, item: T, r: Parsed<seq<T>>)
    ensures Prepend(items, Prepend([item], r)) == Prepend(items + [item], r)
  {
    if r.result.Ok? {
      assert items + ([item] + r.result.value) == (items + [item]) + r.result.value;
    }
  }

  /** `peek_char(c)` on s: the first character when it is one of cs. */
  function CharResult(s: seq<char>, cs: seq<char>): Result<char, ParseError>
  {
    if |s| == 0 then Err(EndOfFile)
    else if s[0] in cs then Ok(s[0])
    else Err(UnexpectedCharacter)
  }

  /** `peek_not_char(c)` on s: the first character when it is none of cs. */
  function NotCharResult(s: seq<char>, cs: seq<char>): Result<char, ParseError>
  {
    if |s| == 0 then Err(EndOfFile)
    else if s[0] in cs then Err(UnexpectedCharacter)
    else Ok(s[0])
  }

  /** `peek_string(str)` on s: the first |str| characters when they are str. */
  function StringResult(s: seq<char>, str: seq<char>): Result<seq<char>, ParseError>
  {
    if |s| < |str| then Err(EndOfFile)
    else if s[..|str|] == str then Ok(s[..|str|])
    else Err(UnexpectedCharacter)
  }

  /** The length of the longest prefix of s made of characters in cs (see `SpanInMeaning`). */
  function SpanIn(s: seq<char>, cs: seq<char>): (n: nat)
    ensures n <= |s|
  {
    if |s| > 0 && s[0] in cs then 1 + SpanIn(s[1..], cs) else 0
  }

  /** The length of the longest prefix of s with no character in cs (see `SpanNotInMeaning`). */
  function SpanNotIn(s: seq<char>, cs: seq<char>): (n: nat)
    ensures n <= |s|
  {
    if |s| > 0 && s[0] !in cs then 1 + SpanNotIn(s[1..], cs) else 0
  }

  /** The span is made of characters in cs, and the next character is not one. */
  lemma {:induction false} SpanInMeaning(s: seq<char>, cs: seq<char>)
    ensures forall k :: 0 <= k < SpanIn(s, cs) ==> s[k] in cs
    ensures SpanIn(s, cs) == |s| || s[SpanIn(s, cs)] !in cs
  {
    if |s| > 0 && s[0] in cs {
      SpanInMeaning(s[1..], cs);
      forall k | 1 <= k < SpanIn(s, cs)
        ensures s[k] in cs
      {
        assert s[k] == s[1..][k - 1];
      }
    }
  }

  /** The span has no character in cs, and the next character is one. */
  lemma {:induction false} SpanNotInMeaning(s: seq<char>, cs: seq<char>)
    ensures forall k :: 0 <= k < SpanNotIn(s, cs) ==> s[k] !in cs
    ensures SpanNotIn(s, cs) == |s| || s[SpanNotIn(s, cs)] in cs
  {
    if |s| > 0 && s[0] !in cs {
      SpanNotInMeaning(s[1..], cs);
      forall k | 1 <= k < SpanNotIn(s, cs)
        ensures s[k] !in cs
      {
        assert s[k] == s[1..][k - 1];
      }
    }
  }

  /** Any prefix in cs followed by a character outside it (or nothing) is the longest one. */
  lemma {:induction false} SpanInUnique(s: seq<char>, cs: seq<char>, n: nat)
    requires n <= |s| && (forall k :: 0 <= k < n ==> s[k] in cs) && (n == |s| || s[n] !in cs)
    ensures SpanIn(s, cs) == n
  {
    if n > 0 {
      SpanInUnique(s[1..], cs, n - 1);
    }
  }

  lemma {:induction false} SpanNotInUnique(s: seq<char>, cs: seq<char>, n: nat)
    requires n <= |s| && (forall k :: 0 <= k < n ==> s[k] !in cs) && (n == |s| || s[n] in cs)
    ensures SpanNotIn(s, cs) == n
  {
    if n > 0 {
      SpanNotInUnique(s[1..], cs, n - 1);
    }
  }

  /** One more character of the span, seen from the start of the text. */
  lemma SpanInStep(s: seq<char>, cs: seq<char>, i: nat)
    requires i < |s| && s[i] in cs
    ensures SpanIn(s[i..], cs) == 1 + SpanIn(s[i + 1..], cs)
  {
    assert s[i..][1..] == s[i + 1..];
  }

  lemma SpanNotInStep(s: seq<char>, cs: seq<char>, i: nat)
    requires i < |s| && s[i] !in cs
    ensures SpanNotIn(s[i..], cs) == 1 + SpanNotIn(s[i + 1..], cs)
  {
    assert s[i..][1..] == s[i + 1..];
  }

  class BasicParser {
    var input: seq<char>

    constructor(text: seq<char>)
      ensures input == text
    {
      input := text;
    }

    /** `peek`: the first character, or `end_of_file`. */
    method Peek() returns (r: Result<char, ParseError>)
      ensures r == if |input| == 0 then Err(EndOfFile) else Ok(input[0])
    {
      if |input| == 0 {
        return Err(EndOfFile);
      }
      return Ok(input[0]);
    }

    /** `pop`: the first character, which is dropped from the input. */
    method Pop() returns (r: Result<char, ParseError>)
      modifies this
      ensures r == if |old(input)| == 0 then Err(EndOfFile) else Ok(old(input)[0])
      ensures input == if |old(input)| == 0 then old(input) else old(input)[1..]
    {
      if |input| == 0 {
        return Err(EndOfFile);
      }
      var result := input[0];
      input := input[1..];
      return Ok(result);
    }

    /** `peek_char(c)`: the first character if it is in cs; the input is left alone. */
    method PeekChar(cs: seq<char>) returns (r: Result<char, ParseError>)
      ensures r == CharResult(input, cs)
    {
      var v :- Peek();
      var i := 0;
      while i < |cs|
        invariant 0 <= i <= |cs|
        invariant v !in cs[..i]
      {
        if cs[i] == v {
          return Ok(v);
        }
        i := i + 1;
      }
      assert cs[..i] == cs;
      return Err(UnexpectedCharacter);
    }

    /** `pop_char(c)`: consumes the first character exactly when it is in cs. */
    method PopChar(cs: seq<char>) returns (r: Result<char, ParseError>)
      modifies this
      ensures r == CharResult(old(input), cs)
      ensures input == if r.Ok? then old(input)[1..] else old(input)
    {
      var v :- Peek();
      var i := 0;
      while i < |cs|
        invariant 0 <= i <= |cs|
        invariant v !in cs[..i]
      {
        if cs[i] == v {
          var _ := Pop();
          return Ok(v);
        }
        i := i + 1;
      }
      assert cs[..i] == cs;
      return Err(UnexpectedCharacter);
    }

    /** `peek_not_char(c)`: the first character if it is not in cs; the input is left alone. */
    method PeekNotChar(cs: seq<char>) returns (r: Result<char, ParseError>)
      ensures r == NotCharResult(input, cs)
    {
      var v :- Peek();
      var i := 0;
      while i < |cs|
        invariant 0 <= i <= |cs|
        invariant v !in cs[..i]
      {
        if cs[i] == v {
          return Err(UnexpectedCharacter);
        }
        i := i + 1;
      }
      assert cs[..i] == cs;
      return Ok(v);
    }

    /** `pop_not_char(c)`: consumes the first character exactly when it is not in cs. */
    method PopNotChar(cs: seq<char>) returns (r: Result<char, ParseError>)
      modifies this
      ensures r == NotCharResult(old(input), cs)
      ensures input == if r.Ok? then old(input)[1..] else old(input)
    {
      var v :- Peek();
      var i := 0;
      while i < |cs|
        invariant 0 <= i <= |cs|
        invariant v !in cs[..i]
      {
        if cs[i] == v {
          return Err(UnexpectedCharacter);
        }
        i := i + 1;
      }
      assert cs[..i] == cs;
      var _ := Pop();
      return Ok(v);
    }

    /** `peek_string(str)`: the input's first |str| characters if they spell str. */
    method PeekString(str: seq<char>) returns (r: Result<seq<char>, ParseError>)
      ensures r == StringResult(input, str)
    {
      if |input| < |str| {
        return Err(EndOfFile);
      }
      var substr := input[..|str|];
      if substr == str {
        return Ok(substr);
      }
      return Err(UnexpectedCharacter);
    }

    /** `pop_string(str)`: consumes str exactly when the input starts with it. */
    method PopString(str: seq<char>) returns (r: Result<seq<char>, ParseError>)
      modifies this
      ensures r == StringResult(old(input), str)
      ensures input == if r.Ok? then old(input)[|str|..] else old(input)
    {
      if |input| < |str| {
        return Err(EndOfFile);
      }
      var substr := input[..|str|];
      if substr == str {
        input := input[|str|..];
        return Ok(substr);
      }
      return Err(UnexpectedCharacter);
    }
  }

  /** `while (pop_char(c).is_ok());`: drops the longest prefix made of characters in cs. */
  method SkipIn(p: BasicParser, cs: seq<char>)
    modifies p
    ensures p.input == old(p.input)[SpanIn(old(p.input), cs)..]
  {
    ghost var begin := p.input;
    while true
      invariant IsSuffix(p.input, begin)
      invariant forall k :: 0 <= k < |begin| - |p.input| ==> begin[k] in cs
      decreases |p.input|
    {
      var popped := p.PopChar(cs);
      if popped.Err? {
        break;
      }
    }
    SpanInUnique(begin, cs, |begin| - |p.input|);
  }

  /** `while (pop_not_char(c).is_ok());`: drops the longest prefix with no character in cs. */
  method SkipNotIn(p: BasicParser, cs: seq<char>)
    modifies p
    ensures p.input == old(p.input)[SpanNotIn(old(p.input), cs)..]
  {
    ghost var begin := p.input;
    while true
      invariant IsSuffix(p.input, begin)
      invariant forall k :: 0 <= k < |begin| - |p.input| ==> begin[k] !in cs
      decreases |p.input|
    {
      var popped := p.PopNotChar(cs);
      if popped.Err? {
        break;
      }
    }
    SpanNotInUnique(begin, cs, |begin| - |p.input|);
  }

  /**
   * Every primitive leaves a suffix of its input, and consumes exactly the
   * characters it returns.
   */
  lemma PrimitivesConsume(s: seq<char>, cs: seq<char>, str: seq<char>)
    ensures CharResult(s, cs).Ok? ==> s == [CharResult(s, cs).value] + s[1..]
    ensures NotCharResult(s, cs).Ok? ==> s == [NotCharResult(s, cs).value] + s[1..]
    ensures StringResult(s, str).Ok? ==> StringResult(s, str).value == str && s == str + s[|str|..]
    ensures CharResult(s, cs).Ok? != NotCharResult(s, cs).Ok? <==> |s| > 0
  {
  }
}
