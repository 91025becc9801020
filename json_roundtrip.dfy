/**
 * The JSON reader reads back what the JSON printer writes: every value whose
 * literals are `true`, `false`, `null` or numbers of the grammar and whose
 * strings are raw texts comes back as itself.
 */
module JsonRoundTrip {
  import opened Results
  import opened Parser
  import opened Json
  import opened JsonProperties

  /** The literals the reader recognises: the three keywords and the numbers of the grammar. */
  predicate PrintableLiteral(t: seq<char>)
  {
    t == "true" || t == "false" || t == "null" || IsNumber(t)
  }

  /** A value the printer writes in a form the reader reads back. */
  predicate Printable(v: Value)
    decreases v
  {
    match v
    case Literal(t) => PrintableLiteral(t)
    case Str(j) => IsRawText(j.value)
    case Arr(vs) => forall i :: 0 <= i < |vs| ==> Printable(vs[i])
    case Obj(ms) => forall i :: 0 <= i < |ms| ==> PrintableMember(ms[i])
  }

  predicate PrintableMember(kv: KeyValue)
    decreases kv
  {
    IsRawText(kv.key.value) && Printable(kv.value)
  }

  /** The characters a literal may start with. */
  const LITERAL_STARTS: seq<char> := ['t', 'f', 'n', '-'] + DIGITS

  /** A number of the grammar starts with `-` or a digit. */
  lemma NumberStart(t: seq<char>)
    requires IsNumber(t)
    ensures |t| > 0 && t[0] in ['-'] + DIGITS
  {
    var i: nat, j: nat, k: nat :| i <= j <= k <= |t| && IsNumberAt(t, i, j, k);
    if i == 1 {
      assert t[..1] == MINUS;
    } else {
      assert t[i..j][0] == t[0];
    }
  }

  /** The printed form of a value says by its first character which reader reads it. */
  lemma ValueTextStart(v: Value)
    requires Printable(v)
    ensures |ValueText(v)| > 0
    ensures v.Literal? ==> ValueText(v)[0] in LITERAL_STARTS
    ensures v.Str? ==> ValueText(v)[0] == '"'
    ensures v.Arr? ==> ValueText(v)[0] == '['
    ensures v.Obj? ==> ValueText(v)[0] == '{'
  {
    if v.Literal? && IsNumber(v.text) {
      NumberStart(v.text);
    }
  }

  /** So the printed form of a value never starts with whitespace, `,`, `]` or `}`. */
  lemma ValueTextNotStop(v: Value)
    requires Printable(v)
    ensures |ValueText(v)| > 0
    ensures var c := ValueText(v)[0]; c !in WHITESPACE && c != ',' && c != ']' && c != '}' && c != ':'
  {
    ValueTextStart(v);
    StartNotStop(ValueText(v)[0]);
  }

  /** No character a value starts with is blank or ends a list. */
  lemma StartNotStop(c: char)
    requires c in LITERAL_STARTS || c == '"' || c == '[' || c == '{'
    ensures c !in WHITESPACE && c != ',' && c != ']' && c != '}' && c != ':'
  {
  }

  /** One blank in front of a text that does not start with whitespace is skipped. */
  lemma BlankThen(y: seq<char>)
    requires y == [] || y[0] !in WHITESPACE
    ensures SkipWs([' '] + y) == y
  {
    var s := [' '] + y;
    SpanInStep(s, WHITESPACE, 0);
    assert s[0..] == s && s[1..] == y;
    NoWhitespace(y);
  }

  /* ---- how the printed forms are put together ---- */

  /** The separator `, ` in front of a text. */
  lemma CommaBlank(y: seq<char>)
    ensures var x := [',', ' '] + y; |x| > 0 && x[0] == ',' && x[1..] == [' '] + y
  {
    var x := [',', ' '] + y;
    assert x[1..] == [' '] + y;
  }

  lemma ArrayTextSplit(vs: seq<Value>, rest: seq<char>)
    ensures ValueText(Arr(vs)) + rest == OPEN_BRACKET + (ItemsText(vs) + (CLOSE_BRACKET + rest))
  {
  }

  lemma ObjectTextSplit(ms: seq<KeyValue>, rest: seq<char>)
    ensures ValueText(Obj(ms)) + rest == OPEN_BRACE + (MembersText(ms) + (CLOSE_BRACE + rest))
  {
  }

  lemma MemberTextSplit(kv: KeyValue, rest: seq<char>)
    ensures MemberText(kv) + rest == QUOTE + (kv.key.value + (QUOTE + ([' ', ':', ' '] + (ValueText(kv.value) + rest))))
  {
  }

  /** Concatenation regrouped to the right. */
  lemma Regroup(a: seq<char>, c: seq<char>, b: seq<char>, after: seq<char>)
    ensures a + c + b + after == a + (c + (b + after))
  {
  }

  lemma ItemsTextSplit(vs: seq<Value>, after: seq<char>)
    requires |vs| > 1
    ensures ItemsText(vs) + after == ValueText(vs[0]) + ([',', ' '] + (ItemsText(vs[1..]) + after))
  {
    assert ItemsText(vs) == ValueText(vs[0]) + [',', ' '] + ItemsText(vs[1..]);
    Regroup(ValueText(vs[0]), [',', ' '], ItemsText(vs[1..]), after);
  }

  lemma MembersTextSplit(ms: seq<KeyValue>, after: seq<char>)
    requires |ms| > 1
    ensures MembersText(ms) + after == MemberText(ms[0]) + ([',', ' '] + (MembersText(ms[1..]) + after))
  {
    assert MembersText(ms) == MemberText(ms[0]) + [',', ' '] + MembersText(ms[1..]);
    Regroup(MemberText(ms[0]), [',', ' '], MembersText(ms[1..]), after);
  }

  /** The elements of an array are printed starting with the first element. */
  lemma ItemsTextStart(vs: seq<Value>)
    requires forall i :: 0 <= i < |vs| ==> Printable(vs[i])
    ensures |vs| > 0 ==> |ItemsText(vs)| > 0 && ItemsText(vs)[0] !in WHITESPACE && ItemsText(vs)[0] != ']'
  {
    if |vs| > 0 {
      ValueTextNotStop(vs[0]);
      if |vs| > 1 {
        ItemsTextSplit(vs, []);
        assert ItemsText(vs) + [] == ItemsText(vs);
      }
    }
  }

  /** The members of an object are printed starting with a key. */
  lemma MembersTextStart(ms: seq<KeyValue>)
    ensures |ms| > 0 ==> |MembersText(ms)| > 0 && MembersText(ms)[0] == '"'
  {
    if |ms| > 1 {
      MembersTextSplit(ms, []);
      assert MembersText(ms) + [] == MembersText(ms);
    }
  }

  /* ---- one reader at a time ---- */

  /** Text starting like a literal is not a string, an object or an array. */
  lemma LiteralDispatch(s: seq<char>)
    requires |s| > 0 && s[0] in LITERAL_STARTS
    ensures CharResult(s, QUOTE).Err? && CharResult(s, OPEN_BRACE).Err? && CharResult(s, OPEN_BRACKET).Err?
  {
  }

  lemma ValueOfLiteral(s: seq<char>, t: seq<char>, rest: seq<char>)
    requires CharResult(s, QUOTE).Err? && CharResult(s, OPEN_BRACE).Err? && CharResult(s, OPEN_BRACKET).Err?
    requires LiteralSpec(s) == Parsed(Ok(t), rest)
    ensures ValueSpec(s) == Parsed(Ok(Literal(t)), rest)
  {
  }

  lemma ValueOfString(s: seq<char>, j: JString, rest: seq<char>)
    requires |s| > 0 && s[0] == '"' && StringSpec(s) == Parsed(Ok(j), rest)
    ensures ValueSpec(s) == Parsed(Ok(Str(j)), rest)
  {
  }

  lemma ValueOfArray(s: seq<char>, vs: seq<Value>, rest: seq<char>)
    requires |s| > 0 && s[0] == '[' && ArraySpec(s) == Parsed(Ok(vs), rest)
    ensures ValueSpec(s) == Parsed(Ok(Arr(vs)), rest)
  {
  }

  lemma ValueOfObject(s: seq<char>, ms: seq<KeyValue>, rest: seq<char>)
    requires |s| > 0 && s[0] == '{' && ObjectSpec(s) == Parsed(Ok(ms), rest)
    ensures ValueSpec(s) == Parsed(Ok(Obj(ms)), rest)
  {
  }

  lemma KeywordRoundTrip(t: seq<char>, rest: seq<char>)
    requires t == "true" || t == "false" || t == "null"
    ensures LiteralSpec(t + rest) == Parsed(Ok(t), rest)
  {
    var s := t + rest;
    assert s[..|t|] == t && s[|t|..] == rest;
    if t == "false" {
      assert s[..4] != "true" by {
        assert s[..4][0] == 'f';
      }
    } else if t == "null" {
      assert s[..4] != "true" by {
        assert s[..4][0] == 'n';
      }
      assert |s| >= 5 ==> s[..5] != "false" by {
        if |s| >= 5 {
          assert s[..5][0] == 'n';
        }
      }
    }
  }

  lemma NumberLiteralRoundTrip(t: seq<char>, rest: seq<char>)
    requires IsNumber(t) && NumberEnd(rest)
    ensures LiteralSpec(t + rest) == Parsed(Ok(t), rest)
  {
    var s := t + rest;
    NumberStart(t);
    assert s[0] == t[0];
    assert |s| >= 4 ==> s[..4] != "true" by {
      if |s| >= 4 {
        assert s[..4][0] == s[0];
      }
    }
    assert |s| >= 5 ==> s[..5] != "false" by {
      if |s| >= 5 {
        assert s[..5][0] == s[0];
      }
    }
    assert |s| >= 4 ==> s[..4] != "null" by {
      if |s| >= 4 {
        assert s[..4][0] == s[0];
      }
    }
    NumberComplete(t, rest);
  }

  lemma LiteralRoundTrip(t: seq<char>, rest: seq<char>)
    requires PrintableLiteral(t) && NumberEnd(rest)
    ensures ValueSpec(t + rest) == Parsed(Ok(Literal(t)), rest)
  {
    if t == "true" || t == "false" || t == "null" {
      KeywordRoundTrip(t, rest);
    } else {
      NumberLiteralRoundTrip(t, rest);
    }
    ValueTextStart(Literal(t));
    assert (t + rest)[0] == t[0] && t[0] in LITERAL_STARTS;
    LiteralDispatch(t + rest);
    ValueOfLiteral(t + rest, t, rest);
  }

  lemma StrRoundTrip(j: JString, rest: seq<char>)
    requires IsRawText(j.value)
    ensures ValueSpec(StringText(j) + rest) == Parsed(Ok(Str(j)), rest)
  {
    StringComplete(j.value, rest);
    assert StringText(j) + rest == QUOTE + j.value + QUOTE + rest;
    ValueOfString(StringText(j) + rest, j, rest);
  }

  /** `[`, elements read back, `]`. */
  lemma ArrayStep(text: seq<char>, vs: seq<Value>, rest: seq<char>)
    requires ArrayItems(text + (CLOSE_BRACKET + rest)) == Parsed(Ok(vs), CLOSE_BRACKET + rest)
    requires text == [] || text[0] !in WHITESPACE
    ensures ValueSpec(OPEN_BRACKET + (text + (CLOSE_BRACKET + rest))) == Parsed(Ok(Arr(vs)), rest)
  {
    var body := text + (CLOSE_BRACKET + rest);
    var s := OPEN_BRACKET + body;
    assert s[1..] == body;
    assert SkipWs(body) == body by {
      if text != [] {
        assert body[0] == text[0];
      }
      NoWhitespace(body);
    }
    assert ArraySpec(s) == Parsed(Ok(vs), rest);
    ValueOfArray(s, vs, rest);
  }

  /** `{`, members read back, `}`. */
  lemma ObjectStep(text: seq<char>, ms: seq<KeyValue>, rest: seq<char>)
    requires ObjectItems(text + (CLOSE_BRACE + rest)) == Parsed(Ok(ms), CLOSE_BRACE + rest)
    requires text == [] || text[0] !in WHITESPACE
    ensures ValueSpec(OPEN_BRACE + (text + (CLOSE_BRACE + rest))) == Parsed(Ok(Obj(ms)), rest)
  {
    var body := text + (CLOSE_BRACE + rest);
    var s := OPEN_BRACE + body;
    assert s[1..] == body;
    assert SkipWs(body) == body by {
      if text != [] {
        assert body[0] == text[0];
      }
      NoWhitespace(body);
    }
    assert ObjectSpec(s) == Parsed(Ok(ms), rest);
    ValueOfObject(s, ms, rest);
  }

  /** The separator ` : ` the printer writes between a key and its value is skipped whole. */
  lemma ColonGap(y: seq<char>)
    requires y == [] || y[0] !in WHITESPACE
    ensures SkipWs(SkipOptional(SkipWs([' ', ':', ' '] + y), COLON)) == y
  {
    var t := [':'] + ([' '] + y);
    assert [' ', ':', ' '] + y == [' '] + t;
    BlankThen(t);
    assert SkipOptional(t, COLON) == [' '] + y;
    BlankThen(y);
  }

  /** The printed member, cut after the closing quote of its key. */
  lemma MemberShape(key: JString, y: seq<char>) returns (afterKey: seq<char>)
    ensures afterKey == [' ', ':', ' '] + y
    ensures QUOTE + (key.value + (QUOTE + afterKey)) == QUOTE + key.value + QUOTE + afterKey
  {
    afterKey := [' ', ':', ' '] + y;
  }

  /** A key read back, ` : `, a value read back. */
  lemma MemberStep(key: JString, text: seq<char>, v: Value, rest: seq<char>)
    requires IsRawText(key.value) && |text| > 0 && text[0] !in WHITESPACE
    requires ValueSpec(text + rest) == Parsed(Ok(v), rest)
    ensures KeyValueSpec(QUOTE + (key.value + (QUOTE + ([' ', ':', ' '] + (text + rest))))) == Parsed(Ok(KeyValue(key, v)), rest)
  {
    var y := text + rest;
    assert y[0] == text[0];
    var afterKey := MemberShape(key, y);
    StringComplete(key.value, afterKey);
    ColonGap(y);
    KeyValueStep(QUOTE + key.value + QUOTE + afterKey, key, afterKey, ValueSpec(y));
  }

  /* ---- the elements of an array ---- */

  lemma ItemsNone(rest: seq<char>)
    ensures ArrayItems(CLOSE_BRACKET + rest) == Parsed(Ok([]), CLOSE_BRACKET + rest)
  {
  }

  /** What a close bracket or brace, or a comma, stops: it is not whitespace, and it is not the other two. */
  lemma StopChar(s: seq<char>)
    requires |s| > 0 && s[0] in [']', '}', ',']
    ensures SpanIn(s, WHITESPACE) == 0 && SkipWs(s) == s
    ensures s[0] == ']' ==> CharResult(s, COMMA).Err? && CharResult(s, CLOSE_BRACKET).Ok?
    ensures s[0] == '}' ==> CharResult(s, COMMA).Err? && CharResult(s, CLOSE_BRACE).Ok?
    ensures s[0] == ',' ==> CharResult(s, COMMA).Ok?
  {
    NoWhitespace(s);
  }

  /** Text that does not start with `c` does not start with `c`. */
  lemma NotChar(s: seq<char>, c: char)
    requires |s| > 0 && s[0] != c
    ensures CharResult(s, [c]).Err?
  {
  }

  /** An element and then `]`. */
  lemma ItemsOne(s: seq<char>, v: Value, after: seq<char>)
    requires CharResult(s, CLOSE_BRACKET).Err? && ValueSpec(s) == Parsed(Ok(v), after)
    requires SkipWs(after) == after && CharResult(after, COMMA).Err?
    ensures ArrayItems(s) == Parsed(Ok([v]), after)
  {
    ArrayItemsStep(s, ValueSpec(s));
  }

  /** An element, `, ` and the elements after it. */
  lemma ItemsMore(s: seq<char>, v: Value, x: seq<char>, y: seq<char>, vs: seq<Value>, after: seq<char>)
    requires CharResult(s, CLOSE_BRACKET).Err? && ValueSpec(s) == Parsed(Ok(v), x)
    requires |x| > 0 && x[0] == ',' && x[1..] == [' '] + y
    requires (|y| == 0 || y[0] !in WHITESPACE) && ArrayItems(y) == Parsed(Ok(vs), after)
    ensures ArrayItems(s) == Parsed(Ok([v] + vs), after)
  {
    NoWhitespace(x);
    BlankThen(y);
    ArrayItemsStep(s, ValueSpec(s));
  }

  /* ---- the members of an object ---- */

  lemma MembersNone(rest: seq<char>)
    ensures ObjectItems(CLOSE_BRACE + rest) == Parsed(Ok([]), CLOSE_BRACE + rest)
  {
  }

  /** A member and then `}`. */
  lemma MembersOne(s: seq<char>, kv: KeyValue, after: seq<char>)
    requires CharResult(s, CLOSE_BRACE).Err? && KeyValueSpec(s) == Parsed(Ok(kv), after)
    requires SkipWs(after) == after && CharResult(after, COMMA).Err?
    ensures ObjectItems(s) == Parsed(Ok([kv]), after)
  {
    ObjectItemsStep(s, KeyValueSpec(s));
  }

  /** A member, `, ` and the members after it. */
  lemma MembersMore(s: seq<char>, kv: KeyValue, x: seq<char>, y: seq<char>, ms: seq<KeyValue>, after: seq<char>)
    requires CharResult(s, CLOSE_BRACE).Err? && KeyValueSpec(s) == Parsed(Ok(kv), x)
    requires |x| > 0 && x[0] == ',' && x[1..] == [' '] + y
    requires (|y| == 0 || y[0] !in WHITESPACE) && ObjectItems(y) == Parsed(Ok(ms), after)
    ensures ObjectItems(s) == Parsed(Ok([kv] + ms), after)
  {
    NoWhitespace(x);
    BlankThen(y);
    ObjectItemsStep(s, KeyValueSpec(s));
  }

  /* ---- the round trip ---- */

  /** Every printable value is read back from its printed form, whatever follows that cannot extend a number. */
  lemma {:induction false} ValueRoundTrip(v: Value, rest: seq<char>)
    requires Printable(v) && NumberEnd(rest)
    ensures ValueSpec(ValueText(v) + rest) == Parsed(Ok(v), rest)
    decreases v
  {
    match v
    case Literal(t) =>
      LiteralRoundTrip(t, rest);
    case Str(j) =>
      StrRoundTrip(j, rest);
    case Arr(vs) =>
      ItemsRoundTrip(vs, rest);
      ItemsTextStart(vs);
      ArrayTextSplit(vs, rest);
      ArrayStep(ItemsText(vs), vs, rest);
    case Obj(ms) =>
      MembersRoundTrip(ms, rest);
      MembersTextStart(ms);
      ObjectTextSplit(ms, rest);
      ObjectStep(MembersText(ms), ms, rest);
  }

  lemma {:induction false} MemberRoundTrip(kv: KeyValue, rest: seq<char>)
    requires PrintableMember(kv) && NumberEnd(rest)
    ensures KeyValueSpec(MemberText(kv) + rest) == Parsed(Ok(kv), rest)
    decreases kv
  {
    ValueRoundTrip(kv.value, rest);
    ValueTextNotStop(kv.value);
    MemberTextSplit(kv, rest);
    MemberStep(kv.key, ValueText(kv.value), kv.value, rest);
  }

  lemma {:induction false} ItemsRoundTrip(vs: seq<Value>, rest: seq<char>)
    requires forall i :: 0 <= i < |vs| ==> Printable(vs[i])
    ensures ArrayItems(ItemsText(vs) + (CLOSE_BRACKET + rest)) == Parsed(Ok(vs), CLOSE_BRACKET + rest)
    decreases vs
  {
    var after := CLOSE_BRACKET + rest;
    StopChar(after);
    if |vs| == 0 {
      ItemsNone(rest);
      assert ItemsText(vs) + after == after;
    } else if |vs| == 1 {
      ValueRoundTrip(vs[0], after);
      ItemsShapeLast(vs, after);
      ItemsOne(ValueText(vs[0]) + after, vs[0], after);
    } else {
      var y := ItemsText(vs[1..]) + after;
      var x := [',', ' '] + y;
      ValueRoundTrip(vs[0], x);
      ItemsRoundTrip(vs[1..], rest);
      ItemsShapeNext(vs, after);
      ItemsMore(ValueText(vs[0]) + x, vs[0], x, y, vs[1..], after);
    }
  }

  /** How the printed last element sits in front of what follows it. */
  lemma ItemsShapeLast(vs: seq<Value>, after: seq<char>)
    requires |vs| == 1 && Printable(vs[0])
    ensures CharResult(ValueText(vs[0]) + after, CLOSE_BRACKET).Err?
    ensures ItemsText(vs) + after == ValueText(vs[0]) + after && [vs[0]] == vs
  {
    var s := ValueText(vs[0]) + after;
    ValueTextNotStop(vs[0]);
    assert s[0] == ValueText(vs[0])[0];
    NotChar(s, ']');
  }

  /** How a printed element, `, ` and the elements after it sit in front of what follows them. */
  lemma ItemsShapeNext(vs: seq<Value>, after: seq<char>)
    requires |vs| > 1 && forall i :: 0 <= i < |vs| ==> Printable(vs[i])
    ensures var y := ItemsText(vs[1..]) + after; var x := [',', ' '] + y;
      && CharResult(ValueText(vs[0]) + x, CLOSE_BRACKET).Err?
      && |x| > 0 && x[0] == ',' && x[1..] == [' '] + y
      && (|y| == 0 || y[0] !in WHITESPACE)
      && ItemsText(vs) + after == ValueText(vs[0]) + x
      && [vs[0]] + vs[1..] == vs
  {
    var y := ItemsText(vs[1..]) + after;
    var x := [',', ' '] + y;
    var s := ValueText(vs[0]) + x;
    ValueTextNotStop(vs[0]);
    assert s[0] == ValueText(vs[0])[0];
    NotChar(s, ']');
    ItemsTextStart(vs[1..]);
    assert y[0] == ItemsText(vs[1..])[0];
    CommaBlank(y);
    ItemsTextSplit(vs, after);
  }

  lemma {:induction false} MembersRoundTrip(ms: seq<KeyValue>, rest: seq<char>)
    requires forall i :: 0 <= i < |ms| ==> PrintableMember(ms[i])
    ensures ObjectItems(MembersText(ms) + (CLOSE_BRACE + rest)) == Parsed(Ok(ms), CLOSE_BRACE + rest)
    decreases ms, 1
  {
    if |ms| == 0 {
      MembersNone(rest);
      assert MembersText(ms) + (CLOSE_BRACE + rest) == CLOSE_BRACE + rest;
    } else if |ms| == 1 {
      MembersRoundTripLast(ms, rest);
    } else {
      MembersRoundTripNext(ms, rest);
    }
  }

  lemma {:induction false} MembersRoundTripLast(ms: seq<KeyValue>, rest: seq<char>)
    requires |ms| == 1 && PrintableMember(ms[0])
    ensures ObjectItems(MembersText(ms) + (CLOSE_BRACE + rest)) == Parsed(Ok(ms), CLOSE_BRACE + rest)
    decreases ms, 0
  {
    var after := CLOSE_BRACE + rest;
    StopChar(after);
    MemberRoundTrip(ms[0], after);
    MembersShapeLast(ms, after);
    MembersOne(MemberText(ms[0]) + after, ms[0], after);
  }

  lemma {:induction false} MembersRoundTripNext(ms: seq<KeyValue>, rest: seq<char>)
    requires |ms| > 1 && forall i :: 0 <= i < |ms| ==> PrintableMember(ms[i])
    ensures ObjectItems(MembersText(ms) + (CLOSE_BRACE + rest)) == Parsed(Ok(ms), CLOSE_BRACE + rest)
    decreases ms, 0
  {
    var after := CLOSE_BRACE + rest;
    var y := MembersText(ms[1..]) + after;
    var x := [',', ' '] + y;
    CommaBlank(y);
    MemberRoundTrip(ms[0], x);
    MembersRoundTrip(ms[1..], rest);
    MembersShapeNext(ms, after);
    MembersMore(MemberText(ms[0]) + x, ms[0], x, y, ms[1..], after);
  }

  /** How the printed last member sits in front of what follows it. */
  lemma MembersShapeLast(ms: seq<KeyValue>, after: seq<char>)
    requires |ms| == 1
    ensures CharResult(MemberText(ms[0]) + after, CLOSE_BRACE).Err?
    ensures MembersText(ms) + after == MemberText(ms[0]) + after && [ms[0]] == ms
  {
    var s := MemberText(ms[0]) + after;
    assert s[0] == '"';
    NotChar(s, '}');
  }

  /** How a printed member, `, ` and the members after it sit in front of what follows them. */
  lemma MembersShapeNext(ms: seq<KeyValue>, after: seq<char>)
    requires |ms| > 1
    ensures var y := MembersText(ms[1..]) + after; var x := [',', ' '] + y;
      && CharResult(MemberText(ms[0]) + x, CLOSE_BRACE).Err?
      && |x| > 0 && x[0] == ',' && x[1..] == [' '] + y
      && (|y| == 0 || y[0] !in WHITESPACE)
      && MembersText(ms) + after == MemberText(ms[0]) + x
      && [ms[0]] + ms[1..] == ms
  {
    var y := MembersText(ms[1..]) + after;
    var x := [',', ' '] + y;
    var s := MemberText(ms[0]) + x;
    assert s[0] == '"';
    NotChar(s, '}');
    MembersTextStart(ms[1..]);
    assert y[0] == MembersText(ms[1..])[0];
    CommaBlank(y);
    MembersTextSplit(ms, after);
  }

  /** `parse` reads a printed document back, with or without leading whitespace. */
  lemma DocumentRoundTrip(ws: seq<char>, v: Value, rest: seq<char>)
    requires forall k :: 0 <= k < |ws| ==> ws[k] in WHITESPACE
    requires Printable(v) && NumberEnd(rest)
    ensures DocumentSpec(ws + ValueText(v) + rest) == Parsed(Ok(v), rest)
  {
    var s := ws + ValueText(v) + rest;
    ValueTextNotStop(v);
    assert s[|ws|] == ValueText(v)[0];
    SpanInUnique(s, WHITESPACE, |ws|);
    assert s[|ws|..] == ValueText(v) + rest;
    ValueRoundTrip(v, rest);
  }

  /* ---- what the reader lets through ---- */

  /** The shape of an element followed by `, ` and a closing character. */
  lemma TrailingShape(v: Value, after: seq<char>)
    requires Printable(v) && |after| > 0 && after[0] in [']', '}']
    ensures var x := [',', ' '] + after;
      && CharResult(ValueText(v) + x, CLOSE_BRACKET).Err?
      && NumberEnd(x)
      && (ValueText(v) + [',', ' ']) + after == ValueText(v) + x
      && (ValueText(v) + [',', ' '])[0] !in WHITESPACE
  {
    var x := [',', ' '] + after;
    var s := ValueText(v) + x;
    ValueTextNotStop(v);
    assert s[0] == ValueText(v)[0];
    assert (ValueText(v) + [',', ' '])[0] == ValueText(v)[0];
    NotChar(s, ']');
    assert x[0] == ',';
  }

  /** A comma before `]` is accepted: `[v, ]` reads as the array of `v` alone. */
  lemma TrailingComma(v: Value, rest: seq<char>)
    requires Printable(v)
    ensures ValueSpec(OPEN_BRACKET + ((ValueText(v) + [',', ' ']) + (CLOSE_BRACKET + rest))) == Parsed(Ok(Arr([v])), rest)
  {
    var after := CLOSE_BRACKET + rest;
    var x := [',', ' '] + after;
    StopChar(after);
    CommaBlank(after);
    TrailingShape(v, after);
    ValueRoundTrip(v, x);
    ItemsNone(rest);
    ItemsMore(ValueText(v) + x, v, x, after, [], after);
    assert [v] + [] == [v];
    ArrayStep(ValueText(v) + [',', ' '], [v], rest);
  }

  /** The shape of a member followed by `, ` and `}`. */
  lemma TrailingMemberShape(kv: KeyValue, after: seq<char>)
    requires |after| > 0 && after[0] == '}'
    ensures var x := [',', ' '] + after;
      && CharResult(MemberText(kv) + x, CLOSE_BRACE).Err?
      && NumberEnd(x)
      && (MemberText(kv) + [',', ' ']) + after == MemberText(kv) + x
      && (MemberText(kv) + [',', ' '])[0] !in WHITESPACE
  {
    var x := [',', ' '] + after;
    var s := MemberText(kv) + x;
    assert s[0] == '"';
    assert (MemberText(kv) + [',', ' '])[0] == '"';
    NotChar(s, '}');
    assert x[0] == ',';
  }

  /** A comma before `}` is accepted: `{k : v, }` reads as the object of that one member. */
  lemma ObjectTrailingComma(kv: KeyValue, rest: seq<char>)
    requires PrintableMember(kv)
    ensures ValueSpec(OPEN_BRACE + ((MemberText(kv) + [',', ' ']) + (CLOSE_BRACE + rest))) == Parsed(Ok(Obj([kv])), rest)
  {
    var after := CLOSE_BRACE + rest;
    var x := [',', ' '] + after;
    StopChar(after);
    CommaBlank(after);
    TrailingMemberShape(kv, after);
    MemberRoundTrip(kv, x);
    MembersNone(rest);
    MembersMore(MemberText(kv) + x, kv, x, after, [], after);
    assert [kv] + [] == [kv];
    ObjectStep(MemberText(kv) + [',', ' '], [kv], rest);
  }

  /** The shape of `[` and one printed element. */
  lemma UnclosedShape(v: Value)
    requires Printable(v)
    ensures ValueText(v) + [] == ValueText(v)
    ensures CharResult(ValueText(v), CLOSE_BRACKET).Err? && SkipWs(ValueText(v)) == ValueText(v)
    ensures (OPEN_BRACKET + ValueText(v))[1..] == ValueText(v) && CharResult(OPEN_BRACKET + ValueText(v), OPEN_BRACKET).Ok?
    ensures SkipWs([]) == [] && CharResult([], COMMA).Err?
  {
    ValueTextNotStop(v);
    NotChar(ValueText(v), ']');
    NoWhitespace(ValueText(v));
    NoWhitespace([]);
    assert (OPEN_BRACKET + ValueText(v))[1..] == ValueText(v);
  }

  /** `[`, elements that run to the end of the input, and no `]`. */
  lemma ArrayUnclosedStep(s: seq<char>, body: seq<char>, vs: seq<Value>)
    requires CharResult(s, OPEN_BRACKET).Ok? && s[1..] == body && SkipWs(body) == body
    requires ArrayItems(body) == Parsed(Ok(vs), [])
    ensures ArraySpec(s) == Parsed(Err(EndOfFile), [])
  {
  }

  /** Without its `]` an array is an error: the input ends where the `]` should be. */
  lemma ArrayUnclosed(v: Value)
    requires Printable(v)
    ensures ArraySpec(OPEN_BRACKET + ValueText(v)) == Parsed(Err(EndOfFile), [])
  {
    UnclosedShape(v);
    ValueRoundTrip(v, []);
    ItemsOne(ValueText(v), v, []);
    ArrayUnclosedStep(OPEN_BRACKET + ValueText(v), ValueText(v), [v]);
  }

  /** The `:` of a member may be left out: a key, a blank and a value read as a member. */
  lemma MissingColon(key: JString, v: Value, rest: seq<char>)
    requires IsRawText(key.value) && Printable(v) && NumberEnd(rest)
    ensures KeyValueSpec(QUOTE + key.value + QUOTE + ([' '] + (ValueText(v) + rest))) == Parsed(Ok(KeyValue(key, v)), rest)
  {
    var y := ValueText(v) + rest;
    var s := QUOTE + key.value + QUOTE + ([' '] + y);
    StringComplete(key.value, [' '] + y);
    ValueAfterBlank(v, rest, y);
    ValueRoundTrip(v, rest);
    KeyValueStep(s, key, [' '] + y, ValueSpec(y));
  }

  /** A blank and then a printed value: the blank is skipped, and there is no `:` to skip. */
  lemma ValueAfterBlank(v: Value, rest: seq<char>, y: seq<char>)
    requires Printable(v) && y == ValueText(v) + rest
    ensures SkipWs([' '] + y) == y && SkipOptional(y, COLON) == y
    ensures SpanIn(y, WHITESPACE) == 0 && SkipWs(y) == y
  {
    ValueTextNotStop(v);
    assert y[0] == ValueText(v)[0];
    BlankThen(y);
    NoWhitespace(y);
  }
}
