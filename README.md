# fasm2bit core in Dafny

A model of the sequential core of fasm2bit, a tool that reads FPGA assembly
(FASM) text. The model covers:

- **Fixed-width numeric conversion** (`numeric.cpp`). `string_to_uintmax` and
  `string_to_intmax` turn a digit run in base 2, 8, 10 or 16 into a 64-bit
  word, or into one of the errors `invalid_string`, `invalid_base` and
  `out_of_bounds`.
- **Double-word arithmetic** (`numeric.cpp`). `add_u128`, `mul_u128`, both
  `add_uintmax2`, both `sub_uintmax2` and `mul_uintmax2` give exact two-word
  results by splitting words into 32-bit halves.
- **`lak::bigint`** (`bigint.hpp`). A sign flag and a vector of 64-bit words.
  The model covers the forwarding overloads, the comparison wrappers and the
  debug rendering `operator<<`.
- **The cursor parser primitives** (`parser.cpp`): `peek`, `pop`,
  `peek_char`, `pop_char`, `peek_not_char`, `pop_not_char`, `peek_string`,
  `pop_string`, and the error printer.
- **Three recursive-descent readers built on those primitives**, with their
  printers:
  - the FASM line grammar (`fasm.cpp`);
  - a lenient JSON reader (`json.cpp`, `json.hpp`);
  - a CSV splitter (`csv.cpp`).

## How the model is built

- **Words.** A 64-bit word is an `int` subset type. `Words` spells out
  wrap-around modulo 2^64, the shifts, `~`, `&` and `|`.
- **Parsers.** The parser state is a class, `Parser.BasicParser`. Its single
  field `input` is the remaining text. Every parsing routine is a method that
  advances `p.input` as the C++ code advances its `input` view.
- **Specifications.** Each method is proved equal to a pure specification
  function. For example:

  `Parsed(r, p.input) == ValueSpec(old(p.input))`

  The properties (round trips, acceptance conditions, what is consumed) are
  proved as lemmas about those specification functions.
- **`string_to_uintmax`.** The loops are methods with invariants, proved
  equal to `Numeric.UintmaxSpec`. The same goes for the in-place `reverse`
  in `uintmax_max_dec_str`.

### Behaviours the model keeps as the code has them

**Decimal conversion** counts 9 bits per digit:

- At most 7 characters: accepted when they are all digits.
- Exactly 8 characters: accepted unless they are lexicographically greater
  than `18446744`, the first 8 digits of `UINTMAX_MAX`. On that path the
  characters are not checked to be digits.
- 9 or more characters: always `out_of_bounds`, including
  `"18446744073709551615"` itself.

**Hexadecimal conversion:**

- Up to 64 characters are accepted, and only the last 16 digits survive.
- A letter is worth its distance from `a` or `A`, so `f` is worth 5.

**Octal conversion:** a 22-digit string is accepted only when its first
digit is `0` or `1`. That digit is checked against the mask
`~(UINTMAX_MAX << 1)`.

**`string_to_intmax`** rejects every magnitude with the top bit set. So
`"-9223372036854775808"` is `out_of_bounds`, and `INTMAX_MIN` cannot be
read.

**FASM:**

- `parse_verilog_value_width` leaves the width uninitialised when `'`
  directly follows the blanks, as in `'b1`. The model passes one parameter,
  `unset`, for that unspecified word. By contrast `0'b1` fails, because `0`
  is not a base prefix.
- An annotation name may start with `.` but may not contain one.
- In `parse`, one run of newline characters after a line gives one line. A
  text that starts with newlines gives one empty line first.

**CSV:**

- `parse_line` never fails. `"a,"` gives the fields `a` and `""`, but
  `"a,\n"` gives only `a`.
- A run of `'\r'` not followed by `'\n'` is an `unexpected_character` error when another character follows it, and `end_of_file` at the end of the text.

### Where the code and its own comments disagree

The grammar comments above `string_to_uintmax` and `string_to_intmax`
(include/numeric.hpp:25-28 and :33-36) say which strings each base takes. The
model follows the code in each case:

- **Decimal.** The comment `dec: [0-9]+` (include/numeric.hpp:27) puts no
  limit on the number of digits. The code (source/numeric.cpp:105-128) allows
  9 bits per digit, so it takes at most 8 digits. For exactly 8 digits it
  compares them with the first 8 characters of the maximum's text, so it
  accepts `"18446744"` and rejects `"20000000"` and every longer string.
- **Hexadecimal letters.** The comment `hex: [0-9a-fA-F]+`
  (include/numeric.hpp:28) names the hex digits. The code
  (source/numeric.cpp:152-155) gives a letter the value `c - 'a'` or
  `c - 'A'`, so `a` is worth 0 and `f` is worth 5. The FASM hex reader does
  use 10..15.
- **Hexadecimal length.** The same comment implies a value that fits a word.
  The code (source/numeric.cpp:143) allows up to 64 characters, one per bit,
  and the shifts drop all but the last 16 digits.
- **Signed values.** The comments `-?[0-9]+` and the others
  (include/numeric.hpp:33-36) allow only a `-` sign. The code
  (source/numeric.cpp:174-175) also takes a `+`. It also rejects every
  magnitude with the top bit set (source/numeric.cpp:185-186), so the most
  negative signed word cannot be read.

## Model

| member | source | states |
|---|---|---|
| Parser.ErrorMessage | source/parser.cpp:87-99 | each of the three error codes maps to its own text, and no two codes share one |
| Parser.BasicParser.constructor | include/parser.hpp:9-11 | a parser starts over the whole text |
| Parser.BasicParser.Peek | source/parser.cpp:3-8 | `end_of_file` on empty input, otherwise the first character; input unchanged |
| Parser.BasicParser.Pop | source/parser.cpp:10-17 | `end_of_file` and input unchanged on empty input, otherwise the first character is returned and dropped |
| Parser.BasicParser.PeekChar | source/parser.cpp:19-26 | succeeds iff the first character is in the set, `end_of_file` on empty input; input unchanged |
| Parser.BasicParser.PopChar | source/parser.cpp:28-41 | consumes exactly one character iff it is in the set; otherwise the error and input unchanged |
| Parser.BasicParser.PeekNotChar | source/parser.cpp:43-50 | succeeds iff the first character is not in the set; input unchanged |
| Parser.BasicParser.PopNotChar | source/parser.cpp:52-60 | consumes exactly one character iff it is not in the set; otherwise input unchanged |
| Parser.BasicParser.PeekString | source/parser.cpp:62-71 | `end_of_file` when the input is shorter than the string, the prefix when it matches, otherwise `unexpected_character` |
| Parser.BasicParser.PopString | source/parser.cpp:73-85 | as `peek_string`, and a match drops exactly the string's length |
| Parser.PrimitivesConsume | source/parser.cpp:19-85 | what a successful primitive returns is exactly the text it drops, and on non-empty input exactly one of `peek_char`/`peek_not_char` succeeds |
| Parser.SkipIn | source/json.cpp:9-10 | a `while (pop_char(set))` loop drops exactly the longest prefix inside the set |
| Parser.SkipNotIn | source/csv.cpp:9-10 | a `while (pop_not_char(set))` loop drops exactly the longest prefix outside the set |
| Parser.SpanInMeaning | source/json.cpp:9-10 | every character inside the skipped prefix is in the set and the character after it is not |
| Parser.SpanNotInMeaning | source/csv.cpp:9-10 | every character inside the skipped prefix is outside the set and the character after it is in the set |
| Words.SplitWord | source/numeric.cpp:289-306 | `x >> 32` and `x & 0xFFFFFFFF` are the high and low halves of a word and recombine to it |
| Words.JoinHalves | source/numeric.cpp:273-287 | OR-ing a low half with a high half shifted left by 32 is their sum and fits a word |
| Words.MaskIsLow32 | source/numeric.cpp:308-327 | the mask `UINTMAX_MAX >> 32` keeps exactly the low 32 bits |
| WideArith.AddU128Exact | source/numeric.cpp:273-287 | `add_u128(A, B)` is exactly `A + B` as high·2^64 + low |
| WideArith.CarryExact | source/numeric.cpp:308-327 | the carry step of `add_uintmax2` recombines the half-word sums exactly, with a high word of at most 2 |
| WideArith.AddUintmax2Exact | source/numeric.cpp:308-327 | `add_uintmax2(A, B, C)` is exactly `A + B + C`, with a high word of at most 2 |
| WideArith.AddUintmax2WideExact | source/numeric.cpp:329-336 | the two-word overload is `(A.high·2^64 + A.low + B + C) mod 2^128` |
| WideArith.SubUintmax2Exact | source/numeric.cpp:338-347 | `sub_uintmax2(A, B)` is `A - B mod 2^128` |
| WideArith.SubUintmax2ThreeExact | source/numeric.cpp:349-359 | `sub_uintmax2(A, B, C)` is `A - (B + (2^64 - C) mod 2^64) mod 2^128`, the documented `A - (B + (~C + 1))` |
| WideArith.NegateThenAdd | source/numeric.cpp:338-359 | complementing both words, adding 1 and then adding A gives `A - X mod 2^128` |
| WideArith.MulUintmax2Exact | source/numeric.cpp:361-381 | `mul_uintmax2(A, B)` is exactly `A·B` |
| WideArith.Combine2Exact | source/numeric.cpp:361-381 | the four half-word partial products combine, through `add_uintmax2`, into the full product |
| WideArith.MulU128Exact | source/numeric.cpp:289-306 | `mul_u128(A, B)` is exactly `A·B` |
| WideArith.Combine128Exact | source/numeric.cpp:289-306 | the partial products of `mul_u128` combine into the full product |
| WideArith.ProductBound | source/numeric.cpp:361-381 | a product of two words fits 128 bits, so no carry is lost |
| WideArith.MulUintmax2MaxByMax | source/numeric.cpp:361-381 | max·max gives high = max − 1 and low = 1 |
| WideArith.MulU128MaxByMax | source/numeric.cpp:289-306 | max·max gives high = max − 1 and low = 1 |
| WideArith.SubThenAdd | source/numeric.cpp:329-347 | adding B back to `sub_uintmax2(A, B)` gives A again |
| WideArith.Value2Injective | include/numeric.hpp:97-110 | a two-word value `high·2^64 + low` determines both words |
| WideArith.Value128Injective | include/numeric.hpp:97-110 | a `uint128_t` value determines both words |
| Numeric.UintmaxMaxDecStr | source/numeric.cpp:13-29 | the digits built by the loop and the in-place reverse are the decimal text of `UINTMAX_MAX` |
| Numeric.ReverseInPlace | source/numeric.cpp:25 | the array afterwards holds the reverse of its old contents |
| Numeric.MaxDecString | source/numeric.cpp:13-29 | the decimal text of `UINTMAX_MAX` is `"18446744073709551615"` |
| Numeric.StringToUintmax | source/numeric.cpp:31-166 | the conversion returns what `UintmaxSpec` says: `invalid_string` on empty input, `invalid_base` for a base other than 2, 8, 10 and 16, and otherwise the per-base result |
| Numeric.BinToUintmax | source/numeric.cpp:39-58 | more than 64 characters is `out_of_bounds`, then a character outside `0`..`1` is `invalid_string`, otherwise the value of the digits |
| Numeric.CheckDigits | source/numeric.cpp:45-47 | the character scan succeeds iff every character lies in the range |
| Numeric.ShiftInDigits | source/numeric.cpp:49-56 | shifting each digit in (1 bit for binary, 3 for octal) gives the value of the digits modulo 2^64 |
| Numeric.OctToUintmax | source/numeric.cpp:60-98 | at most 21 digits as usual; 22 digits need a first digit `0` or `1`; otherwise `out_of_bounds` before any character is checked |
| Numeric.OctFirstDigitMask | source/numeric.cpp:70-80 | the test against `~(UINTMAX_MAX << 1)` passes iff the first digit's value is at most 1 |
| Numeric.DecToUintmax | source/numeric.cpp:100-138 | the 9-bits-per-digit bound: at most 7 checked digits, 8 characters compared against the first 8 digits of `UINTMAX_MAX`, 9 or more `out_of_bounds` |
| Numeric.CompareWithMaxDec | source/numeric.cpp:112-126 | the digit-by-digit comparison reports `out_of_bounds` iff the 8 characters are lexicographically above `18446744`, and folds the equal prefix it consumed |
| Numeric.CompareDigits | source/numeric.cpp:116-125 | the comparison loop reports out of bounds iff the string is lexicographically above the bound, and folds exactly the consumed prefix |
| Numeric.MultiplyInDigits | source/numeric.cpp:130-134 | the unchecked loop `result = result * 10 + (c - '0')` extends the folded value by the remaining characters, modulo 2^64 |
| Numeric.HexToUintmax | source/numeric.cpp:140-162 | more than 64 characters is `out_of_bounds`, a character outside `[0-9a-fA-F]` is `invalid_string`, otherwise the shifted-in value modulo 2^64 |
| Numeric.HexStep | source/numeric.cpp:147-158 | one step `(result << 4) \| digit` extends the folded value by one digit modulo 2^64 |
| Numeric.StringToIntmax | source/numeric.cpp:168-189 | returns what `IntmaxSpec` says: one leading sign is dropped, the rest converted, a top bit set is `out_of_bounds`, and `-` negates |
| NumericProperties.BinAccepted | source/numeric.cpp:39-58 | binary is accepted iff it has 1 to 64 characters, all `0` or `1`, and then yields their exact value |
| NumericProperties.OctAccepted | source/numeric.cpp:60-98 | octal is accepted iff it has at most 21 digits, or 22 with a first digit `0`/`1`, all in `0`..`7`; it then yields the exact value, and 23 or more characters are `out_of_bounds` |
| NumericProperties.OctFits | source/numeric.cpp:60-98 | every accepted octal string has a value below 2^64, so no bits are lost |
| NumericProperties.DecAccepted | source/numeric.cpp:100-138 | up to 7 characters: accepted iff all are digits, with the exact value; 8 characters: accepted iff not lexicographically above `18446744`; 9 or more: `out_of_bounds` |
| NumericProperties.DecEightDigits | source/numeric.cpp:112-134 | 8 digit characters give `out_of_bounds` iff their value exceeds 18446744, and otherwise that value |
| NumericProperties.LexNumeric | source/numeric.cpp:116-125 | for digit strings of one length, lexicographically greater iff numerically greater |
| NumericProperties.DecShortBound | source/numeric.cpp:100-138 | an illustration of DecAccepted and DecEightDigits: `"123456789"` and `"20000000"` are `out_of_bounds`, though both fit a word, while `"18446744"` is accepted |
| NumericProperties.DecimalRoundTrip | source/numeric.cpp:13-29 | the decimal text of n consists of digits and reads back as n |
| NumericProperties.MaxDecValue | source/numeric.cpp:13-29 | the text `"18446744073709551615"` consists of digits and denotes `UINTMAX_MAX` |
| NumericProperties.HexAccepted | source/numeric.cpp:140-162 | hexadecimal is accepted iff 1 to 64 hex characters; at most 16 give their value, longer ones the value of their last 16 |
| NumericProperties.HexLetterValues | source/numeric.cpp:152-155 | every one-letter string `a`-`f` or `A`-`F` reads as its distance from `a` or `A` (0 to 5), the same as the digit of that value |
| NumericProperties.IntmaxRange | source/numeric.cpp:168-189 | every accepted signed result lies strictly between −2^63 and 2^63, so `INTMAX_MIN` is never produced |
| NumericProperties.IntmaxSign | source/numeric.cpp:168-189 | with `-` or `+` the magnitude is accepted iff below 2^63 and negated only after `-`; an unsigned run is read as is |
| NumericProperties.IntmaxError | source/numeric.cpp:168-189 | an error of the unsigned conversion is passed through unchanged |
| BigInts.WordsOfValue | include/bigint.hpp:17-18 | the canonical words of n, least significant first, denote n and have no most significant zero word |
| BigInts.FromIntValue | include/bigint.hpp:17-18 | every integer has a normalised representation that denotes it |
| BigInts.WordsOfMagnitude | include/bigint.hpp:17-18 | a word vector without a most significant zero word is the canonical one for its value |
| BigInts.FromIntOfValue | include/bigint.hpp:17-18 | a normalised bigint is determined by its value |
| BigInts.ZeroIsDefault | include/bigint.hpp:38 | the default bigint (not negative, no words) denotes 0 and is normalised |
| BigInts.FromUintmax | include/bigint.hpp:44 | `bigint(uintmax_t)` holds the value, normalised |
| BigInts.FromIntmax | include/bigint.hpp:45 | `bigint(intmax_t)` holds the value, normalised; it is the unsigned bigint of the magnitude with the sign flag set for a negative value |
| BigInts.FromUnsigned | include/bigint.hpp:46 | `bigint(unsigned)` widens and holds the value |
| BigInts.FromSigned | include/bigint.hpp:47 | `bigint(signed)` widens and holds the value |
| BigInts.SignOfValue | include/bigint.hpp:58-59 | for a normalised bigint `is_negative` iff the value is below 0, and `is_positive` is its negation |
| BigInts.AddMagnitude | include/bigint.hpp:28 | the private `add` grows the magnitude by the operand and keeps the sign flag |
| BigInts.SubMagnitude | include/bigint.hpp:29 | the private `sub`, under its "must not overflow" precondition, shrinks the magnitude and keeps the sign flag |
| BigInts.Add | include/bigint.hpp:72-94 | `+=` with a native operand adds it to the value, normalised |
| BigInts.Sub | include/bigint.hpp:72-94 | `-=` subtracts it, normalised |
| BigInts.Mul | include/bigint.hpp:72-94 | `*=` multiplies by it, normalised |
| BigInts.ShiftLeft | include/bigint.hpp:77 | `<<= k` multiplies the value by 2^k, normalised |
| BigInts.AddUnsigned | include/bigint.hpp:132-175 | the `unsigned` `+` gives the value of the sum, normalised |
| BigInts.MulUnsigned | include/bigint.hpp:132-175 | the `unsigned` `*` gives the value of the product, normalised |
| BigInts.ShiftLeftUnsigned | include/bigint.hpp:137 | the `unsigned` `<<=` multiplies the value by 2^rhs, normalised |
| BigInts.AddSigned | include/bigint.hpp:188-204 | the `signed` `+` gives the value of the sum, normalised |
| BigInts.MulSigned | include/bigint.hpp:188-204 | the `signed` `*` gives the value of the product, normalised |
| BigInts.ToUintmax | include/bigint.hpp:54 | `to_uintmax` succeeds iff the value lies in 0..2^64−1, and then returns it |
| BigInts.ComparisonWrappers | include/bigint.hpp:96-100 | `<`, `>`, `==`, `!=` read off the three-way comparison agree with the values, and one of `<`, `>`, `==` holds |
| BigInts.CompareUnsigned | include/bigint.hpp:177-184 | the `unsigned` comparison widens: equivalent iff equal values, less iff smaller value |
| BigInts.CompareSigned | include/bigint.hpp:206-213 | the `signed` comparison widens: equivalent iff equal values, less iff smaller value |
| BigInts.Render | include/bigint.hpp:260-277 | the descending loop writes exactly the rendering: sign character, then each word from the highest index down |
| BigInts.HexWordRoundTrip | include/bigint.hpp:268-272 | each word is written as 16 lower-case zero-padded hex digits that read back as the word |
| BigInts.RenderLength | include/bigint.hpp:270-274 | the text is 1 character long for no words and 17·n for n words |
| BigInts.RenderSign | include/bigint.hpp:267 | the first character is `-` iff `is_negative`, otherwise `+` |
| BigInts.RenderWordAt | include/bigint.hpp:270-274 | the j-th block of 16 characters is the word at index n−1−j, and a `'` follows every block but the last |
| BigInts.RenderInjective | include/bigint.hpp:260-277 | two bigints with the same rendering are equal, unnormalised zero words included |
| Csv.ValueSpec | source/csv.cpp:5-13 | `parse_value` never fails: the value and the rest make up the input, the value holds no `,`/`\n`/`\r`, and the rest is empty or starts with one |
| Csv.ParseValue | source/csv.cpp:5-13 | the loop over `pop_not_char` consumes exactly what `ValueSpec` says |
| Csv.ParseNewline | source/csv.cpp:15-26 | the three loops consume and return exactly what `NewlineSpec` says |
| Csv.NewlineAccepted | source/csv.cpp:15-26 | when a `\n` follows the leading `\r`s, the result is the consumed text `\r* \n \r*` with exactly one `\n`, and no `\r` is left in front of the rest |
| Csv.NewlineRejected | source/csv.cpp:15-26 | otherwise the leading `\r`s stay consumed and the error is `end_of_file` at the end of the text, else `unexpected_character` |
| Csv.ParseLine | source/csv.cpp:28-40 | the field loop returns exactly what `LineSpec` says |
| Csv.ParseField | source/csv.cpp:33-37 | one iteration reads a field and a comma; it either continues with a shorter input or ends the line with that field |
| Csv.LineStops | source/csv.cpp:32-37 | a line consumes no newline character and stops at the end of the text or in front of `\n`/`\r` |
| Csv.LineEdgeCases | source/csv.cpp:28-40 | `"a,"` gives `a` and an empty field; `"a,\n"` gives only `a`; a leading newline gives no field and consumes nothing; `""` gives one empty field |
| Csv.Parse | source/csv.cpp:42-55 | the line loop returns exactly what `FileSpec` says |
| Csv.FileConsumesAll | source/csv.cpp:42-55 | a successful `parse` consumes the whole text |
| Csv.FileStrayReturn | source/csv.cpp:42-55 | a `\r` followed by another character, as in `"a\rb"`, is `unexpected_character`; a `\r` that ends the text, as in `"a\r"`, is `end_of_file` |
| Csv.PrintLine | source/csv.cpp:57-68 | the printer loop writes the values joined by `,` |
| Csv.LineRoundTrip | source/csv.cpp:57-68 | a printed line of separator-free fields parses back to the same fields, in front of a newline or at the end of the text |
| Csv.FileRoundTrip | source/csv.cpp:42-68 | lines printed with `\n` between them parse back to the same lines when every field is separator-free and no line ends in an empty field |
| Json.Lit | include/json.hpp:29-32 | `lit()` is non-null iff the value is a bare literal, and then gives its text |
| Json.StrValue | include/json.hpp:33-39 | `str()` is non-null iff the value is a string, and then gives the string's text |
| Json.ArrValues | include/json.hpp:40 | `arr()` is non-null iff the value is an array, and then gives its elements |
| Json.ObjMembers | include/json.hpp:41 | `obj()` is non-null iff the value is an object, and then gives its members |
| Json.ExactlyOneAccessor | include/json.hpp:27-41 | for every value exactly one of the four accessors is non-null |
| Json.ParseWhitespace | source/json.cpp:5-13 | drops exactly the longest prefix of blanks and newlines, and returns what it dropped |
| JsonProperties.WhitespaceSkipped | source/json.cpp:5-13 | the dropped prefix is all whitespace and the rest does not start with whitespace |
| Json.ParseString | source/json.cpp:15-30 | the loop consumes and returns exactly what `StringSpec` says |
| JsonProperties.StringSound | source/json.cpp:15-30 | an accepted string is a quote, raw text (every `\` followed by `"`, every inner `"` preceded by `\`), a quote, and the rest |
| JsonProperties.StringComplete | source/json.cpp:15-30 | every raw text between quotes is accepted, its text returned without unescaping |
| JsonProperties.StringRoundTrip | source/json.cpp:15-30 | a quoted text reads back as itself iff it is raw text, so any other backslash makes the string fail |
| JsonProperties.RawTextSpan | source/json.cpp:22-23 | the body loop runs to the end of a text iff the text is raw |
| Json.ParseInteger | source/json.cpp:40-47 | consumes and returns what `IntegerSpec` says: `0`, or a non-zero digit and all digits after it |
| Json.ParseFraction | source/json.cpp:49-54 | consumes what `FractionSpec` says: nothing, or `.` and at least one digit |
| Json.ParseExponent | source/json.cpp:56-62 | consumes what `ExponentSpec` says: nothing, or `e`/`E`, an optional sign and at least one digit |
| Json.ParseNumber | source/json.cpp:32-65 | returns exactly what `NumberSpec` says: the span of sign, integer, fraction and exponent |
| JsonProperties.IntegerSound | source/json.cpp:40-47 | an accepted integer part is `0` or `[1-9][0-9]*` and is a prefix of the input |
| JsonProperties.IntegerComplete | source/json.cpp:40-47 | every integer part followed by a non-digit is read exactly |
| JsonProperties.FractionSound | source/json.cpp:49-54 | an accepted fraction is empty or `.` with digits, and a prefix of the input |
| JsonProperties.FractionComplete | source/json.cpp:49-54 | every fraction followed by neither a digit nor `.` is read exactly |
| JsonProperties.ExponentSound | source/json.cpp:56-62 | an accepted exponent is empty or `e`/`E`, an optional sign and digits, and a prefix of the input |
| JsonProperties.ExponentComplete | source/json.cpp:56-62 | every exponent followed by neither a digit nor `e`/`E` is read exactly |
| JsonProperties.NumberSound | source/json.cpp:32-65 | what `parse_number` accepts is a number of the grammar of section 6 of RFC 8259, and the span it returns is the consumed text |
| JsonProperties.NumberComplete | source/json.cpp:32-65 | every number of that grammar, followed by a character that cannot extend it, is read exactly |
| JsonProperties.NumberGrammar | source/json.cpp:32-65 | in front of such a character, a text is read back as itself iff it is a number of the grammar |
| JsonProperties.LeadingZero | source/json.cpp:40-47 | after a leading `0` no digit is consumed: `0` followed by digits gives `0` and leaves the digits |
| Json.ParseLiteral | source/json.cpp:67-78 | returns what `LiteralSpec` says: `true`, `false`, `null` in that order, else a number |
| JsonRoundTrip.KeywordRoundTrip | source/json.cpp:67-78 | each keyword is read as a literal holding exactly its text, whatever follows |
| JsonRoundTrip.NumberLiteralRoundTrip | source/json.cpp:67-78 | a number of the grammar is read as a literal when no keyword matches |
| Json.ParseValue | source/json.cpp:141-163 | dispatches as `ValueSpec` says: `"` string, `{` object, `[` array, else literal |
| Json.ParseArray | source/json.cpp:80-100 | the element loop returns exactly what `ArraySpec` says |
| Json.ParseKeyValue | source/json.cpp:102-117 | returns what `KeyValueSpec` says: a string key, an optional `:` and a value, with whitespace between |
| Json.ParseObject | source/json.cpp:119-139 | the member loop returns exactly what `ObjectSpec` says |
| Json.Parse | source/json.cpp:165-169 | skips leading whitespace and reads one value, as `DocumentSpec` says; the rest of the input is left |
| Json.PrintString | source/json.cpp:212-215 | a string is printed as its raw text between quotes |
| Json.PrintValue | source/json.cpp:171-176 | a value is printed in the form of the alternative it holds |
| Json.PrintArray | source/json.cpp:184-196 | an array is printed as `[`, the elements joined by `, `, `]` |
| Json.PrintKeyValue | source/json.cpp:178-182 | a member is printed as key, ` : `, value |
| Json.PrintObject | source/json.cpp:198-210 | an object is printed as `{`, the members joined by `, `, `}` |
| JsonRoundTrip.LiteralRoundTrip | source/json.cpp:141-163 | a printed keyword or number reads back as that literal |
| JsonRoundTrip.StrRoundTrip | source/json.cpp:141-163 | a printed string of raw text reads back as that string |
| JsonRoundTrip.ValueRoundTrip | source/json.cpp:80-215 | every value whose literals are keywords or numbers and whose strings are raw reads back from its printed form, whatever follows that cannot extend a number |
| JsonRoundTrip.MemberRoundTrip | source/json.cpp:102-117 | a printed member reads back as that member |
| JsonRoundTrip.ItemsRoundTrip | source/json.cpp:80-100 | printed elements, in front of `]`, read back as the same elements in order |
| JsonRoundTrip.MembersRoundTrip | source/json.cpp:119-139 | printed members, in front of `}`, read back as the same members in order |
| JsonRoundTrip.DocumentRoundTrip | source/json.cpp:165-169 | `parse` reads a printed value back after any leading whitespace |
| JsonRoundTrip.TrailingComma | source/json.cpp:80-100 | a comma before `]` is accepted: `[v, ]` is the array of `v` alone |
| JsonRoundTrip.ObjectTrailingComma | source/json.cpp:119-139 | a comma before `}` is accepted: `{k : v, }` is the object of that one member |
| JsonRoundTrip.ArrayUnclosed | source/json.cpp:80-100 | an array without its `]` fails with `end_of_file` |
| JsonRoundTrip.MissingColon | source/json.cpp:102-117 | the `:` of a member may be left out: `"k" v` reads as the member `k` to `v` |
| Fasm.ParseNonNewlineWhitespace | source/fasm.cpp:5-14 | never fails; drops and returns exactly the leading spaces and tabs |
| FasmProperties.BlankSkipped | source/fasm.cpp:5-14 | the dropped prefix is all spaces and tabs and the rest does not start with one |
| Fasm.ParseWord | source/fasm.cpp:16-40 | the start check and the `[A-Za-z0-9_]` loop return exactly what `WordSpec` says, for identifiers and annotation names alike |
| Fasm.ParseIdentifier | source/fasm.cpp:16-40 | `parse_identifier` returns what `WordSpec` says for an identifier |
| FasmProperties.WordFails | source/fasm.cpp:16-40 | a word fails iff the input is empty or starts with a character that cannot start it, and then nothing is consumed |
| FasmProperties.WordRoundTrip | source/fasm.cpp:16-40 | a text is read as a word with a given rest iff it is a word and the rest cannot extend it |
| Fasm.ParseFeature | source/fasm.cpp:42-54 | the loop returns exactly what `FeatureSpec` says |
| FasmProperties.FeatureText | source/fasm.cpp:549-563 | the feature printer writes the first name, then `.` before each further name: the text starts with the first name, and a `.` follows it when there are more |
| FasmProperties.FeatureRoundTrip | source/fasm.cpp:42-54 | identifiers joined by `.` read back as the same identifiers, in order |
| Fasm.ParseDigits | source/fasm.cpp:56-210 | each of the four value parsers returns what `DigitsSpec` says: it needs a first run character, then folds the longest run |
| Fasm.FoldRun | source/fasm.cpp:68-81 | the loop consumes the longest run and folds exactly the consumed characters into the value |
| Fasm.FoldStep | source/fasm.cpp:73-77 | one step `value = value * base + digit` of the fold, with `_` adding nothing |
| Fasm.ParseDecValue | source/fasm.cpp:56-87 | `parse_dec_value` is the decimal instance of `DigitsSpec` |
| Fasm.ParseHexValue | source/fasm.cpp:89-144 | `parse_hex_value` is the hexadecimal instance, letters worth 10 to 15 |
| Fasm.ParseOctValue | source/fasm.cpp:146-177 | `parse_oct_value` is the octal instance |
| Fasm.ParseBinValue | source/fasm.cpp:179-210 | `parse_bin_value` is the binary instance |
| FasmProperties.RunSound | source/fasm.cpp:56-210 | what a value parser returns is the fold of a whole run that it consumed and that nothing after it extends |
| FasmProperties.UnderscoresIgnored | source/fasm.cpp:56-210 | the fold ignores `_`: a run has the value of its digits alone |
| FasmProperties.UnderscoresAreZero | source/fasm.cpp:56-87 | a run of `_` alone, such as `"_"`, is worth 0 |
| FasmProperties.NumberRoundTrip | source/fasm.cpp:56-210 | the digits of n in a radix read back as n, whatever follows that does not extend the run |
| FasmProperties.RunRoundTrip | source/fasm.cpp:56-210 | a whole run followed by something that does not extend it is consumed and folded |
| Fasm.ParseValueBase | source/fasm.cpp:212-233 | returns what `ValueBaseSpec` says: `end_of_file` below 2 characters, decimal with nothing consumed at `1`-`9`, `0b`/`0o`/`0x` in either case consumed, else `unexpected_character` |
| FasmProperties.ValueBaseSound | source/fasm.cpp:212-233 | an accepted base is decimal with the input untouched and a leading `1`-`9`, or a two-character prefix that was consumed |
| FasmProperties.ValueBasePrefix | source/fasm.cpp:212-233 | each prefix in either case is read as its radix and consumed |
| Fasm.ParseVerilogValueWidth | source/fasm.cpp:235-282 | returns what `WidthSpec` says, restoring the input on every failure |
| FasmProperties.WidthRoundTrip | source/fasm.cpp:235-282 | a prefixed width that fits a word, blanks and `'` read as that width, leaving the `'` |
| FasmProperties.WidthOverflow | source/fasm.cpp:235-282 | a width of 2^64 or more is `integer_overflow` with the input restored |
| FasmProperties.WidthUnset | source/fasm.cpp:235-282 | with no base prefix before the blanks and `'`, the width is the uninitialised word |
| FasmProperties.BareWidthFails | source/fasm.cpp:235-282 | a decimal run not followed by blanks and `'` is no width |
| Fasm.ParseVerilogValue | source/fasm.cpp:284-330 | returns what `VerilogSpec` says: a width, `'`, a radix letter and digits, or a bare decimal run |
| FasmProperties.SizedRoundTrip | source/fasm.cpp:284-330 | `w'` letter digits reads back as width `w` and the value |
| FasmProperties.UnsizedTickValue | source/fasm.cpp:284-330 | `'` letter digits without a width takes the uninitialised width |
| FasmProperties.BareRoundTrip | source/fasm.cpp:284-330 | a bare decimal run is a value without a width |
| Fasm.ParseAddress | source/fasm.cpp:339-346 | one address is a decimal run that must fit a word, else `integer_overflow` |
| Fasm.ParseFeatureAddress | source/fasm.cpp:332-361 | returns what `FeatureAddressSpec` says: `[`, an address, optionally `:` and another, `]` |
| FasmProperties.AddressText | source/fasm.cpp:535-541 | the address printer writes `[`, the first address in decimal, `:` and the second only when there is one, then `]`; the text holds a `:` exactly when there is a second address |
| FasmProperties.AddressRoundTrip | source/fasm.cpp:339-346 | the decimal digits of a word read back as that address |
| FasmProperties.FeatureAddressRoundTrip | source/fasm.cpp:332-361 | a printed `[a]` or `[a:b]` reads back as the same address |
| Fasm.ParseComment | source/fasm.cpp:363-373 | returns what `CommentSpec` says: `#` and the rest of the line, the `#` included |
| FasmProperties.CommentSound | source/fasm.cpp:363-373 | a comment is `#` and no newline character, followed by a newline character or nothing |
| FasmProperties.CommentRoundTrip | source/fasm.cpp:363-373 | `#` and a newline-free text read back as that comment |
| Fasm.ParseAnnotationName | source/fasm.cpp:375-399 | an annotation name is a word that may also start with `.` |
| Fasm.ParseAnnotationValue | source/fasm.cpp:401-409 | never fails; consumes the raw run of plain characters and `\"` pairs |
| FasmProperties.AnnotationValueRoundTrip | source/fasm.cpp:401-409 | a raw text in front of `"` reads back as itself |
| Fasm.ParseAnnotation | source/fasm.cpp:411-430 | returns what `AnnotationSpec` says: name, blanks, `=`, blanks, `"`value`"` |
| FasmProperties.AnnotationText | source/fasm.cpp:543-547 | the annotation printer writes five characters besides the name and the value, and ends with the closing `"` |
| FasmProperties.AnnotationLayout | source/fasm.cpp:543-547 | the printed annotation is the name, then ` = "`, then the value unchanged, in that order |
| FasmProperties.AnnotationRoundTrip | source/fasm.cpp:411-430 | a printed `name = "value"` reads back as the annotation |
| Fasm.ParseAnnotations | source/fasm.cpp:432-452 | the loop returns what `AnnotationsSpec` says: `{`, annotations separated by `,`, `}` |
| FasmProperties.ItemsText | source/fasm.cpp:571-580 | the annotations are written in order with `, ` between them, starting with the first name |
| FasmProperties.ItemsRoundTrip | source/fasm.cpp:432-452 | printed annotations separated by `, ` read back in order |
| FasmProperties.AnnotationsText | source/fasm.cpp:571-580 | an annotation list is written between `{ ` and ` }` |
| FasmProperties.AnnotationsRoundTrip | source/fasm.cpp:432-452 | a printed `{ ... }` list reads back as the same annotations |
| Fasm.ParseSetFeature | source/fasm.cpp:454-475 | returns what `SetFeatureSpec` says: a feature, an optional address, an optional `= value` |
| FasmProperties.SetFeatureText | source/fasm.cpp:549-563 | a feature without a value is written as its names, then its address when there is one, so the text ends with `]` when there is an address |
| FasmProperties.TailText | source/fasm.cpp:571-583 | what follows the feature: the `{ ... }` list when there are annotations, a blank, then the comment; empty exactly when there are neither annotations nor a comment, and it starts with `{` when there are annotations |
| FasmProperties.SetFeatureRoundTrip | source/fasm.cpp:454-475 | a printed feature with its address reads back as itself, and the blanks after it are dropped |
| Fasm.ParseLine | source/fasm.cpp:477-502 | returns what `LineSpec` says: blanks, then an optional feature, annotations and comment, each followed by blanks |
| FasmProperties.LineText | source/fasm.cpp:565-584 | a line without a feature value is written as its feature, its annotations and its comment, separated by one blank; an empty text means no annotations and no comment, and a line with none of the three is written as nothing |
| FasmProperties.CommentPrintedLast | source/fasm.cpp:581-583 | the line printer writes the comment last: the text ends with the comment |
| FasmProperties.LineRoundTrip | source/fasm.cpp:477-502 | a printed line without a feature value reads back as itself |
| Fasm.Parse | source/fasm.cpp:504-526 | the line loop returns what `LinesSpec` says |
| FasmProperties.LinesConsumeAll | source/fasm.cpp:504-526 | a successful `parse` consumes the whole text |
| FasmProperties.BlankLines | source/fasm.cpp:504-526 | a run of newline characters at the start gives one empty line and is skipped whole |
| FasmProperties.LinesText | source/fasm.cpp:565-584 | lines written one after another, each as the line printer writes it and followed by `\n`; the text is empty exactly when there are no lines, and otherwise ends with `\n` |
| FasmProperties.LinesRoundTrip | source/fasm.cpp:504-584 | non-empty printed lines, each followed by `\n`, read back as the same lines |

## Left out

- Stream output. Every `operator<<` is a method or function that returns the text it would write, so `std::ostream` state (`std::dec`, `std::hex`, `setw`, `setfill` and their restoration) is not modelled.
- The floating-point conversions `string_to_double`, `dec_string_to_double` and `hex_string_to_double` (source/numeric.cpp:191-271). They need floating point and `std::pow`, and one of them is not implemented.
- The static caching and the `reserve` call in `uintmax_max_dec_str`. These are allocation details; only the digits it produces are modelled.
- The bodies of the `lak::bigint` arithmetic, division, right shift, bit access, `to_intmax`, `to_double`, negation and `normalise`. They are declared in include/bigint.hpp without a body and live in a file that is not part of this model. The operations the readers use (`+=`, `-=`, `*=`, `<<=`, `to_uintmax`, comparisons) are given by the number they produce, in normalised form.
- The `bigint`-by-`bigint` operators, division and right shift. No model operation uses them and their bodies are not visible.
- The verilog value printer (source/fasm.cpp:528-533). It writes the width and `'`, and then the bigint's debug rendering (`+` and hexadecimal words) without a radix letter, which the reader cannot read back. So the line round trips cover features without a value.
- FasmProperties.LineRoundTrip: covers only lines whose feature carries no value, for the reason above.
- Csv.FileRoundTrip: requires every line to end in a non-empty field. A trailing empty field in front of a newline is not read back (`"a,\n"` gives only `a`).
- The uninitialised width of `parse_verilog_value_width` is one parameter `unset`, the same word on every call. The source may read a different indeterminate value each time.
- The `fasm_parser` primitives (include/fasm.hpp) are declared without bodies. They are given the semantics of source/parser.cpp through the shared `Parser.BasicParser`.
- The lak library (`result`, `span`, string views, `DEFER`, the `RES_TRY` macros) is replaced by a `Result` datatype, `seq<char>` and explicit restoring of `p.input`.
- The `fasm_test`, `json_test` and `csv_test` stubs only print.
- source/main.cpp, source/fasm2bit.cpp and source/database.cpp are not part of this model. They hold command-line handling, file reading and an empty database stub.
- `char8_t` text is modelled as characters below 256. No encoding is interpreted.
