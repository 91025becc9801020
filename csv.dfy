/**
 * `csv_parser`: comma separated fields, lines separated by a `\n` with any
 * number of `\r` around it. There is no quoting: a field is everything up to
 * the next `,`, `\n` or `\r`.
 */
module Csv {
  import opened Results
  import opened Parser

  const SEPARATORS: seq<char> := [',', '\n', '\r']
  const NEWLINES: seq<char> := ['\n', '\r']
  const CR: seq<char> := ['\r']
  const LF: seq<char> := ['\n']
  const COMMA: seq<char> := [',']

  /** `csv_parser::line`. */
  datatype Line = Line(values: seq<seq<char>>)

  /* ---- specification ---- */

  /** `parse_value`: the longest prefix with no separator; never fails. */
  function ValueSpec(s: seq<char>): (r: Parsed<seq<char>>)
    ensures r.result.Ok? && s == r.result.value + r.rest
    ensures forall k :: 0 <= k < |r.result.value| ==> r.result.value[k] !in SEPARATORS
    ensures r.rest == [] || r.rest[0] in SEPARATORS
  {
    var n := SpanNotIn(s, SEPARATORS);
    SpanNotInMeaning(s, SEPARATORS);
    Parsed(Ok(s[..n]), s[n..])
  }

  /** `parse_newline`: `\r* \n \r*`; without the `\n` the leading `\r`s stay consumed. */
  function NewlineSpec(s: seq<char>): (r: Parsed<seq<char>>)
    ensures |r.rest| <= |s| && (r.result.Ok? ==> |r.rest| < |s|)
  {
    var a := SpanIn(s, CR);
    if a < |s| && s[a] == '\n' then
      var b := a + 1 + SpanIn(s[a + 1..], CR);
      Parsed(Ok(s[..b]), s[b..])
    else
      Parsed(Err(if a == |s| then EndOfFile else UnexpectedCharacter), s[a..])
  }

  /**
   * `parse_line`: no fields at a newline; otherwise a field, and after each
   * `,` that is not followed by a newline, another field. Never fails.
   */
  function LineSpec(s: seq<char>): (r: Parsed<Line>)
    ensures r.result.Ok? && |r.rest| <= |s|
    decreases |s|
  {
    if |s| > 0 && s[0] in NEWLINES then Parsed(Ok(Line([])), s)
    else
      var n := SpanNotIn(s, SEPARATORS);
      if n < |s| && s[n] == ',' then
        var tail := LineSpec(s[n + 1..]);
        Parsed(Ok(Line([s[..n]] + tail.result.value.values)), tail.rest)
      else
        Parsed(Ok(Line([s[..n]])), s[n..])
  }

  /** `parse`: lines until the input is empty, a newline required between two lines. */
  function FileSpec(s: seq<char>): Parsed<seq<Line>>
    decreases |s|
  {
    if |s| == 0 then Parsed(Ok([]), s)
    else
      var line := LineSpec(s);
      if |line.rest| == 0 then Parsed(Ok([line.result.value]), line.rest)
      else
        var newline := NewlineSpec(line.rest);
        if newline.result.Err? then Parsed(Err(newline.result.error), newline.rest)
        else
          var tail := FileSpec(newline.rest);
          if tail.result.Err? then tail
          else Parsed(Ok([line.result.value] + tail.result.value), tail.rest)
  }

  /** The line printer: the values joined by `,`. */
  function Join(values: seq<seq<char>>): seq<char>
  {
    if |values| == 0 then []
    else if |values| == 1 then values[0]
    else values[0] + ([','] + Join(values[1..]))
  }

  /* ---- the parser ---- */

  /** `csv_parser::parse_value`. */
  method ParseValue(p: BasicParser) returns (r: Result<seq<char>, ParseError>)
    modifies p
    ensures Parsed(r, p.input) == ValueSpec(old(p.input))
  {
    var begin := p.input;
    SkipNotIn(p, SEPARATORS);
    return Ok(Consumed(begin, p.input));
  }

  /** `csv_parser::parse_newline`. */
  method ParseNewline(p: BasicParser) returns (r: Result<seq<char>, ParseError>)
    modifies p
    ensures Parsed(r, p.input) == NewlineSpec(old(p.input))
  {
    var begin := p.input;
    SkipIn(p, CR);
    ghost var a := SpanIn(begin, CR);
    var newline := p.PopChar(LF);
    if newline.Err? {
      return Err(newline.error);
    }
    assert p.input == begin[a + 1..];
    SkipIn(p, CR);
    ghost var b := a + 1 + SpanIn(begin[a + 1..], CR);
    assert p.input == begin[b..];
    assert Consumed(begin, p.input) == begin[..b];
    return Ok(Consumed(begin, p.input));
  }

  /** `csv_parser::parse_line`. */
  method ParseLine(p: BasicParser) returns (r: Result<Line, ParseError>)
    modifies p
    ensures Parsed(r, p.input) == LineSpec(old(p.input))
  {
    ghost var target := LineSpec(p.input);
    var values: seq<seq<char>> := [];
    while true
      invariant target.rest == LineSpec(p.input).rest
      invariant target.result.value.values == values + LineSpec(p.input).result.value.values
      decreases |p.input|
    {
      var atNewline := p.PeekChar(NEWLINES);
      if atNewline.Ok? {
        LineAtNewline(p.input);
        assert values + [] == values;
        break;
      }
      var value, more := ParseField(p);
      if !more {
        values := values + [value];
        break;
      }
      ghost var next := LineSpec(p.input).result.value.values;
      assert values + ([value] + next) == (values + [value]) + next;
      values := values + [value];
    }
    return Ok(Line(values));
  }

  /**
   * One pass of the loop of `parse_line` away from a newline: a field, and
   * whether a `,` followed it.
   */
  method ParseField(p: BasicParser) returns (value: seq<char>, more: bool)
    requires |p.input| == 0 || p.input[0] !in NEWLINES
    modifies p
    ensures more ==> |p.input| < |old(p.input)|
    ensures more ==> (LineSpec(old(p.input)).rest == LineSpec(p.input).rest
      && LineSpec(old(p.input)).result.value.values == [value] + LineSpec(p.input).result.value.values)
    ensures !more ==> LineSpec(old(p.input)) == Parsed(Ok(Line([value])), p.input)
  {
    ghost var here := p.input;
    ghost var n := SpanNotIn(here, SEPARATORS);
    var parsed := ParseValue(p);
    value := parsed.value;
    var comma := p.PopChar(COMMA);
    more := comma.Ok?;
    if more {
      assert p.input == here[n + 1..];
      LineNext(here, n, p.input);
    } else {
      LineLast(here, n);
    }
  }

  /** A line that starts at a newline has no fields and consumes nothing. */
  lemma LineAtNewline(s: seq<char>)
    requires |s| > 0 && s[0] in NEWLINES
    ensures LineSpec(s) == Parsed(Ok(Line([])), s)
  {
  }

  /** A field followed by `,`: the line goes on after the comma. */
  lemma LineNext(s: seq<char>, n: nat, t: seq<char>)
    requires (|s| == 0 || s[0] !in NEWLINES) && n == SpanNotIn(s, SEPARATORS)
    requires n < |s| && s[n] == ',' && t == s[n + 1..]
    ensures LineSpec(s).result.value.values == [s[..n]] + LineSpec(t).result.value.values
    ensures LineSpec(s).rest == LineSpec(t).rest
  {
  }

  /** A field not followed by `,`: the line ends there. */
  lemma LineLast(s: seq<char>, n: nat)
    requires (|s| == 0 || s[0] !in NEWLINES) && n == SpanNotIn(s, SEPARATORS)
    requires n == |s| || s[n] != ','
    ensures LineSpec(s) == Parsed(Ok(Line([s[..n]])), s[n..])
  {
  }

  /** One iteration of `parse`: a line, then the end of the input or a newline. */
  lemma FileStep(s: seq<char>)
    requires |s| > 0
    ensures var line := LineSpec(s);
      if |line.rest| == 0 then FileSpec(s) == Parsed(Ok([line.result.value]), line.rest)
      else if NewlineSpec(line.rest).result.Err? then
        FileSpec(s) == Parsed(Err(NewlineSpec(line.rest).result.error), NewlineSpec(line.rest).rest)
      else FileSpec(s) == Prepend([line.result.value], FileSpec(NewlineSpec(line.rest).rest))
  {
  }

  /** `csv_parser::parse`. */
  method Parse(p: BasicParser) returns (r: Result<seq<Line>, ParseError>)
    modifies p
    ensures Parsed(r, p.input) == FileSpec(old(p.input))
  {
    ghost var begin := p.input;
    var lines: seq<Line> := [];
    PrependNothing(FileSpec(begin));
    while |p.input| > 0
      invariant FileSpec(begin) == Prepend(lines, FileSpec(p.input))
      decreases |p.input|
    {
      ghost var here := p.input;
      FileStep(here);
      // `parse_line` never fails, so the `RES_TRY_ASSIGN` around it never returns.
      var parsedLine := ParseLine(p);
      var line := parsedLine.value;
      lines := lines + [line];
      if |p.input| == 0 {
        assert FileSpec(begin) == Parsed(Ok(lines), p.input);
        break;
      }
      var newline := ParseNewline(p);
      if newline.Err? {
        return Err(newline.error);
      }
      PrependTwice(lines[..|lines| - 1], line, FileSpec(p.input));
      assert lines[..|lines| - 1] + [line] == lines;
    }
    if |p.input| == 0 {
      assert FileSpec(p.input) == Parsed(Ok([]), p.input);
      assert lines + [] == lines;
    }
    return Ok(lines);
  }

  /* ---- properties ---- */

  /** The separators are `,` and the two newline characters. */
  lemma SeparatorKinds(c: char)
    ensures c in NEWLINES <==> c == '\n' || c == '\r'
    ensures c in SEPARATORS <==> c == ',' || c in NEWLINES
    ensures c in CR <==> c == '\r'
  {
  }

  /** An accepted newline: `\r* \n \r*` is consumed, and no `\r` is left in front of the rest. */
  lemma NewlineAccepted(s: seq<char>)
    requires SpanIn(s, CR) < |s| && s[SpanIn(s, CR)] == '\n'
    ensures var r := NewlineSpec(s);
      && r.result.Ok? && s == r.result.value + r.rest
      && (forall k :: 0 <= k < |r.result.value| ==> (r.result.value[k] == '\n' <==> k == SpanIn(s, CR)))
      && (forall k :: 0 <= k < |r.result.value| ==> r.result.value[k] in NEWLINES)
      && (r.rest == [] || r.rest[0] != '\r')
  {
    var a := SpanIn(s, CR);
    var t := s[a + 1..];
    var c := SpanIn(t, CR);
    var b := a + 1 + c;
    var v := s[..b];
    NewlineOk(s, a, t, c, b);
    assert forall k :: 0 <= k < b ==> v[k] == (if k == a then '\n' else '\r') by {
      SpanInMeaning(s, CR);
      SpanInMeaning(t, CR);
      forall k | 0 <= k < b
        ensures v[k] == (if k == a then '\n' else '\r')
      {
        if k > a {
          assert s[k] == t[k - a - 1];
          SeparatorKinds(t[k - a - 1]);
        } else if k < a {
          SeparatorKinds(s[k]);
        }
      }
    }
    assert b == |s| || s[b] != '\r' by {
      SpanInMeaning(t, CR);
      if b < |s| {
        assert s[b] == t[c];
        SeparatorKinds(t[c]);
      }
    }
    assert s == v + s[b..];
    forall k | 0 <= k < b
      ensures v[k] in NEWLINES
    {
      SeparatorKinds(v[k]);
    }
  }

  /** The newline is accepted at the `\n` after the leading `\r`s and ends after the `\r`s that follow. */
  lemma NewlineOk(s: seq<char>, a: nat, t: seq<char>, c: nat, b: nat)
    requires a == SpanIn(s, CR) && a < |s| && s[a] == '\n'
    requires t == s[a + 1..] && c == SpanIn(t, CR) && b == a + 1 + c
    ensures NewlineSpec(s) == Parsed(Ok(s[..b]), s[b..])
  {
  }

  /** A rejected newline: only `\r`s were consumed, and the error says what stopped it. */
  lemma NewlineRejected(s: seq<char>)
    requires !(SpanIn(s, CR) < |s| && s[SpanIn(s, CR)] == '\n')
    ensures var r := NewlineSpec(s);
      && r.result == Err(if |r.rest| == 0 then EndOfFile else UnexpectedCharacter)
      && IsSuffix(r.rest, s)
      && (forall k :: 0 <= k < |s| - |r.rest| ==> s[k] == '\r')
  {
    SpanInMeaning(s, CR);
    forall k | 0 <= k < SpanIn(s, CR)
      ensures s[k] == '\r'
    {
      SeparatorKinds(s[k]);
    }
  }

  /** `\n` followed by something other than `\r` is exactly one newline. */
  lemma NewlineLF(t: seq<char>)
    requires t == [] || t[0] != '\r'
    ensures NewlineSpec(LF + t) == Parsed(Ok(LF), t)
  {
    var s := LF + t;
    SpanInUnique(s, CR, 0);
    assert s[1..] == t;
    if t != [] {
      SeparatorKinds(t[0]);
    }
    SpanInUnique(t, CR, 0);
    assert s[..1] == LF;
  }

  /**
   * A line stops at the end of the text or in front of a newline character,
   * and consumes no newline character.
   */
  lemma {:induction false} LineStops(s: seq<char>)
    ensures var r := LineSpec(s);
      && IsSuffix(r.rest, s)
      && (r.rest == [] || r.rest[0] in NEWLINES)
      && (forall k :: 0 <= k < |s| - |r.rest| ==> s[k] !in NEWLINES)
    decreases |s|
  {
    if |s| > 0 && s[0] in NEWLINES {
      LineAtNewline(s);
    } else {
      var n := SpanNotIn(s, SEPARATORS);
      FieldStops(s, n);
      if n < |s| && s[n] == ',' {
        var t := s[n + 1..];
        LineNext(s, n, t);
        LineStops(t);
        StopsAfterComma(s, n, t, LineSpec(t).rest);
      } else {
        LineLast(s, n);
        if n < |s| {
          SeparatorKinds(s[n]);
        }
      }
    }
  }

  /** The field at the start of a line holds no newline character and stops at a separator. */
  lemma FieldStops(s: seq<char>, n: nat)
    requires n == SpanNotIn(s, SEPARATORS)
    ensures forall k :: 0 <= k < n ==> s[k] !in NEWLINES
    ensures n == |s| || s[n] in SEPARATORS
  {
    SpanNotInMeaning(s, SEPARATORS);
    forall k | 0 <= k < n
      ensures s[k] !in NEWLINES
    {
      SeparatorKinds(s[k]);
    }
  }

  /** What the rest of a line after a `,` consumes, seen from the start of the line. */
  lemma StopsAfterComma(s: seq<char>, n: nat, t: seq<char>, r: seq<char>)
    requires n < |s| && s[n] == ',' && t == s[n + 1..]
    requires forall k :: 0 <= k < n ==> s[k] !in NEWLINES
    requires IsSuffix(r, t) && forall k :: 0 <= k < |t| - |r| ==> t[k] !in NEWLINES
    ensures IsSuffix(r, s) && forall k :: 0 <= k < |s| - |r| ==> s[k] !in NEWLINES
  {
    forall k | 0 <= k < |s| - |r|
      ensures s[k] !in NEWLINES
    {
      if k == n {
        SeparatorKinds(s[k]);
      } else if k > n {
        assert s[k] == t[k - n - 1];
      }
    }
    assert s[|s| - |r|..] == t[|t| - |r|..];
  }

  /** A field: a value with no separator in it. */
  predicate Field(v: seq<char>)
  {
    forall k :: 0 <= k < |v| ==> v[k] !in SEPARATORS
  }

  /**
   * Printing a line and parsing it back gives the line again, whatever
   * follows it at a newline, when its fields have no separator and, unless
   * the text ends there, its last field is not empty.
   */
  lemma {:induction false} LineRoundTrip(values: seq<seq<char>>, rest: seq<char>)
    requires |values| >= 1 && forall i :: 0 <= i < |values| ==> Field(values[i])
    requires rest == [] || (rest[0] in NEWLINES && |values[|values| - 1]| > 0)
    ensures LineSpec(Join(values) + rest) == Parsed(Ok(Line(values)), rest)
  {
    if |values| == 1 {
      LineRoundTripLast(values[0], rest);
      assert values == [values[0]];
    } else {
      var others := values[1..];
      var t := Join(others) + rest;
      JoinCons(values, rest);
      FieldsTail(values);
      LineRoundTrip(others, rest);
      FieldThenComma(values[0], t);
      assert [values[0]] + others == values;
    }
  }

  /** The printed line of two or more values, split at its first `,`. */
  lemma JoinCons(values: seq<seq<char>>, rest: seq<char>)
    requires |values| >= 2
    ensures Join(values) + rest == values[0] + ([','] + (Join(values[1..]) + rest))
  {
  }

  /** The values after the first keep the properties of a printable line. */
  lemma FieldsTail(values: seq<seq<char>>)
    requires |values| >= 2 && forall i :: 0 <= i < |values| ==> Field(values[i])
    ensures forall i :: 0 <= i < |values| - 1 ==> Field(values[1..][i])
    ensures values[1..][|values| - 2] == values[|values| - 1]
  {
    forall i | 0 <= i < |values| - 1
      ensures Field(values[1..][i])
    {
      assert values[1..][i] == values[i + 1];
    }
  }

  /** A field followed by `,`: the line goes on after the comma. */
  lemma FieldThenComma(v: seq<char>, t: seq<char>)
    requires Field(v)
    ensures LineSpec(v + ([','] + t)) == Parsed(Ok(Line([v] + LineSpec(t).result.value.values)), LineSpec(t).rest)
  {
    var s := v + ([','] + t);
    assert s[|v|] == ',';
    if |v| > 0 {
      assert s[0] == v[0];
      SeparatorKinds(v[0]);
    }
    SpanNotInUnique(s, SEPARATORS, |v|);
    assert s[..|v|] == v && s[|v| + 1..] == t;
    LineNext(s, |v|, t);
  }

  /** The last field of a printed line, followed by the end of the text or a newline. */
  lemma LineRoundTripLast(v: seq<char>, rest: seq<char>)
    requires Field(v)
    requires rest == [] || (rest[0] in NEWLINES && |v| > 0)
    ensures LineSpec(v + rest) == Parsed(Ok(Line([v])), rest)
  {
    var s := v + rest;
    if |v| == 0 {
      assert s == [];
      SpanNotInUnique(s, SEPARATORS, 0);
      LineLast(s, 0);
    } else {
      assert s[0] !in NEWLINES by {
        assert s[0] == v[0];
        SeparatorKinds(v[0]);
      }
      assert SpanNotIn(s, SEPARATORS) == |v| && (|v| == |s| || s[|v|] != ',') by {
        if |rest| > 0 {
          assert s[|v|] == rest[0];
          SeparatorKinds(rest[0]);
        }
        SpanNotInUnique(s, SEPARATORS, |v|);
      }
      LineLast(s, |v|);
      assert s[..|v|] == v && s[|v|..] == rest;
    }
  }

  /** Edge cases of `parse_line`: a trailing `,` adds an empty field, except in front of a newline. */
  lemma LineEdgeCases()
    ensures LineSpec("a,") == Parsed(Ok(Line(["a", ""])), "")
    ensures LineSpec("a,\n") == Parsed(Ok(Line(["a"])), "\n")
    ensures LineSpec("\nx") == Parsed(Ok(Line([])), "\nx")
    ensures LineSpec("") == Parsed(Ok(Line([""])), "")
  {
    SpanNotInUnique("", SEPARATORS, 0);
    LineLast("", 0);
    var s := "a,";
    SpanNotInUnique(s, SEPARATORS, 1);
    assert s[..1] == "a" && s[2..] == "";
    LineNext(s, 1, "");
    assert ["a"] + [""] == ["a", ""];
    var t := "a,\n";
    SpanNotInUnique(t, SEPARATORS, 1);
    assert t[..1] == "a" && t[2..] == "\n";
    LineNext(t, 1, "\n");
    LineAtNewline("\n");
    assert ["a"] + [] == ["a"];
    LineAtNewline("\nx");
  }

  /** `parse` succeeds only by consuming the whole text. */
  lemma {:induction false} FileConsumesAll(s: seq<char>)
    ensures FileSpec(s).result.Ok? ==> FileSpec(s).rest == []
    decreases |s|
  {
    if |s| > 0 {
      var line := LineSpec(s);
      if |line.rest| > 0 && NewlineSpec(line.rest).result.Ok? {
        FileConsumesAll(NewlineSpec(line.rest).rest);
      }
    }
  }

  /** The last line of a text. */
  lemma FileLast(s: seq<char>, line: Line)
    requires |s| > 0 && LineSpec(s) == Parsed(Ok(line), [])
    ensures FileSpec(s) == Parsed(Ok([line]), [])
  {
  }

  /** A line, a newline, and the lines after it. */
  lemma FileNext(s: seq<char>, line: Line, after: seq<char>, newline: seq<char>, t: seq<char>)
    requires |s| > 0 && LineSpec(s) == Parsed(Ok(line), after)
    requires |after| > 0 && NewlineSpec(after) == Parsed(Ok(newline), t)
    ensures FileSpec(s) == Prepend([line], FileSpec(t))
  {
  }

  /** A line followed by something that is not a newline. */
  lemma FileFails(s: seq<char>, line: Line, after: seq<char>, e: ParseError, t: seq<char>)
    requires |s| > 0 && LineSpec(s) == Parsed(Ok(line), after)
    requires |after| > 0 && NewlineSpec(after) == Parsed(Err(e), t)
    ensures FileSpec(s) == Parsed(Err(e), t)
  {
  }

  /** The lines printed one after the other, a `\n` between two of them. */
  function FileText(lines: seq<Line>): seq<char>
  {
    if |lines| == 0 then []
    else if |lines| == 1 then Join(lines[0].values)
    else Join(lines[0].values) + (LF + FileText(lines[1..]))
  }

  /** A line the parser reads back as printed: fields without separators, the last one not empty. */
  predicate Printable(line: Line)
  {
    && |line.values| >= 1
    && (forall i :: 0 <= i < |line.values| ==> Field(line.values[i]))
    && |line.values[|line.values| - 1]| > 0
  }

  /** The printed text of a printable line is not empty and does not start with `\r`. */
  lemma {:induction false} JoinStart(values: seq<seq<char>>)
    requires Printable(Line(values))
    ensures |Join(values)| > 0 && Join(values)[0] != '\r'
  {
    if |values| > 1 {
      assert Join(values) == values[0] + [','] + Join(values[1..]);
      if |values[0]| > 0 {
        assert Field(values[0]);
        assert Join(values)[0] == values[0][0];
      } else {
        assert Join(values)[0] == ',';
      }
    } else {
      assert Field(values[0]);
      assert Join(values)[0] == values[0][0];
    }
  }

  /** The printed text of printable lines starts with neither the end of the text nor `\r`. */
  lemma FileTextStart(lines: seq<Line>)
    requires |lines| > 0 && Printable(lines[0])
    ensures |FileText(lines)| > 0 && FileText(lines)[0] != '\r'
  {
    JoinStart(lines[0].values);
  }

  /** Parsing the printed lines gives the lines back. */
  lemma {:induction false} FileRoundTrip(lines: seq<Line>)
    requires forall i :: 0 <= i < |lines| ==> Printable(lines[i])
    ensures FileSpec(FileText(lines)) == Parsed(Ok(lines), [])
  {
    if |lines| == 1 {
      FileRoundTripLast(lines[0]);
      assert lines == [lines[0]];
    } else if |lines| > 1 {
      var first, others := lines[0], lines[1..];
      var t := FileText(others);
      PrintableTail(lines);
      FileTextStart(others);
      JoinStart(first.values);
      LineThenText(first, LF + t);
      NewlineLF(t);
      FileRoundTrip(others);
      FileNext(Join(first.values) + (LF + t), first, LF + t, LF, t);
      assert [first] + others == lines;
    }
  }

  /** The lines after the first are printable, and the text splits at the first `\n`. */
  lemma PrintableTail(lines: seq<Line>)
    requires |lines| > 1 && forall i :: 0 <= i < |lines| ==> Printable(lines[i])
    ensures forall i :: 0 <= i < |lines| - 1 ==> Printable(lines[1..][i])
    ensures FileText(lines) == Join(lines[0].values) + (LF + FileText(lines[1..]))
  {
    forall i | 0 <= i < |lines| - 1
      ensures Printable(lines[1..][i])
    {
      assert lines[1..][i] == lines[i + 1];
    }
  }

  /** The text of a single printable line. */
  lemma FileRoundTripLast(line: Line)
    requires Printable(line)
    ensures FileSpec(FileText([line])) == Parsed(Ok([line]), [])
  {
    var s := FileText([line]);
    assert s == Join(line.values) + [];
    JoinStart(line.values);
    LineRoundTrip(line.values, []);
    FileLast(s, line);
  }

  /** A printable line in front of a `\n` is read back up to the `\n`. */
  lemma LineThenText(line: Line, after: seq<char>)
    requires Printable(line) && |after| > 0 && after[0] == '\n'
    ensures LineSpec(Join(line.values) + after) == Parsed(Ok(line), after)
  {
    SeparatorKinds('\n');
    LineRoundTrip(line.values, after);
  }

  /**
   * A run of `\r` not followed by `\n` is an error: `unexpected_character`
   * when another character follows it, `end_of_file` at the end of the text.
   */
  lemma FileStrayReturn()
    ensures FileSpec("a\rb") == Parsed(Err(UnexpectedCharacter), "b")
    ensures FileSpec("a\r") == Parsed(Err(EndOfFile), "")
  {
    var s := "a\rb";
    assert LineSpec(s) == Parsed(Ok(Line(["a"])), "\rb") by {
      SpanNotInUnique(s, SEPARATORS, 1);
      assert s[..1] == "a" && s[1..] == "\rb";
      LineLast(s, 1);
    }
    assert NewlineSpec("\rb") == Parsed(Err(UnexpectedCharacter), "b") by {
      SpanInUnique("\rb", CR, 1);
      assert "\rb"[1..] == "b";
    }
    FileFails(s, Line(["a"]), "\rb", UnexpectedCharacter, "b");
    var e := "a\r";
    assert LineSpec(e) == Parsed(Ok(Line(["a"])), "\r") by {
      SpanNotInUnique(e, SEPARATORS, 1);
      assert e[..1] == "a" && e[1..] == "\r";
      LineLast(e, 1);
    }
    assert NewlineSpec("\r") == Parsed(Err(EndOfFile), "") by {
      SpanInUnique("\r", CR, 1);
      assert "\r"[1..] == "";
    }
    FileFails(e, Line(["a"]), "\r", EndOfFile, "");
  }

  /** `operator<<(std::ostream &, const csv_parser::line &)`: the stream is the returned string. */
  method PrintLine(line: Line) returns (s: seq<char>)
    ensures s == Join(line.values)
  {
    s := [];
    if |line.values| > 0 {
      s := line.values[0];
      var i := 1;
      while i < |line.values|
        invariant 1 <= i <= |line.values|
        invariant s == Join(line.values[..i])
      {
        JoinSnoc(line.values[..i], line.values[i]);
        assert line.values[..i + 1] == line.values[..i] + [line.values[i]];
        s := s + [','] + line.values[i];
        i := i + 1;
      }
      assert line.values[..i] == line.values;
    }
  }

  lemma {:induction false} JoinSnoc(values: seq<seq<char>>, v: seq<char>)
    requires |values| > 0
    ensures Join(values + [v]) == Join(values) + [','] + v
  {
    if |values| > 1 {
      assert (values + [v])[1..] == values[1..] + [v];
      JoinSnoc(values[1..], v);
    } else {
      assert values + [v] == [values[0], v];
    }
  }
}
