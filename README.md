# barista-serde: a Dafny model of the JSON runtime

barista-serde is a Java library that serializes values to JSON and parses JSON back. This project
models its runtime core and proves properties of the model. The core has five parts:

- the parser-combinator library (`barista-serde-parsec`): the cursor `ParseState`, the
  `ParseError` record and its rendered diagram, and the combinators `maybe`, `whitespace`,
  `expect`, `between`, `composeResult` and `error`;
- the JSON parsers built on it (`barista-serde-json` and the json package of `barista-serde`):
  - quoted strings and single characters;
  - whole numbers of the four Java widths, floats and doubles;
  - booleans, `null` and optionals;
  - collections (lists and sets), maps, objects, unknown fields, and the untyped `any()`;
- the two copies of `JsonStrings`, which escape and unescape string contents;
- the serializers of `json/Serializers`;
- the byte-level fast reader `JsonReader`.

## How the model is built

- **Parsers.** A parser is a function from a text and an index to a `Step`: a result and the new
  index. A result is one of three things:
  - `Ok(value)`;
  - `Err(ParseError)`;
  - `Thrown(exception)`, a Java exception that escapes `parse`, such as a `substring` past the end
    or a bad `\u` escape.
- **The cursor.** The Java cursor is the class `ParseStates.Cursor`, with the text and a mutable
  index.
- **Parse methods.** Every Java `parse` method is a method on that cursor. Each method's
  postcondition ties its result and the cursor's new index to the parser function. So
  everything proved about the functions holds of the step-by-step code.
- **Loops.** Each loop of the source is a method with loop invariants, proved against a function
  that specifies it:
  - the collection and map loops;
  - the two counting loops of `errorString`;
  - the escape and unescape loops;
  - the `StringJoiner` loops of the serializers;
  - the loops of `JsonReader`.
- **What is proved:**
  - every parser never moves backwards and stays within the text;
  - every error carries the span the tests show;
  - maps read have distinct keys;
  - a set is the list with duplicates dropped;
  - `errorString` computes the diagram its closed form describes;
  - the round trips, with the intended decoding of escapes:
    - unescaping inverts escaping;
    - whatever the serializers write, the matching parser reads back as the same value, wherever
      the text stands before a value boundary (strings, whole numbers, floating-point values,
      optionals, collections, maps and nested `any()` values; the library has no boolean
      serializer, so for `any()` the model writes booleans as `true` and `false` itself);
    - with the decoding as written, a string that needs escaping need not read back:
      `RoundTrips.QuoteAsWrittenExample` writes `a"b` and reads back `a\b`.

## Files

| file | contents |
|---|---|
| `text.dfy` | Character classes (`Character.isWhitespace`, digits) and decimal text. |
| `parse_state.dfy` | The cursor and the `Result` type. |
| `parse_error.dfy` | `ParseError.errorString`. |
| `parsers.dfy` | The combinators of `Parsers`, with `MaybeParser`, `ExpectParser` and `BetweenParser`. |
| `json_strings.dfy` | Both `JsonStrings` copies. |
| `json_tokens.dfy` | Quoted strings and characters, the key-value separator, booleans, null and optionals. |
| `json_numbers.dfy` | `WholeNumberParser`, `DoubleParser` and `FloatParser`. |
| `json_collections.dfy` | Collections, maps and objects. |
| `json_collection_examples.dfy` | The test cases for collections and maps. |
| `json_any.dfy` | `AnyValueParser`. |
| `serializers.dfy` | The serializers. |
| `round_trips.dfy` | Round trips between the serializers and the typed parsers. |
| `any_round_trips.dfy` | Round trips between the serializers and `any()`. |
| `json_reader.dfy` | `JsonReader`. |

## Behaviour as written

The model follows the code where it departs from the library's stated intent. Each of the
following is proved on the model:

- **Whitespace.** `skipWhitespace` uses `Character.isWhitespace`, which is more than space, tab,
  CR and LF. It includes the other ASCII separators and the Unicode space separators.
  `Text.IsWhitespace` lists them.
- **Unescaping, `barista-serde-json` copy.** `unescape` switches on the backslash itself. So
  each backslash and the character after it become a lone backslash, and the character after
  that is kept without being looked at: `\n` decodes to `\`, `\nab` to `\ab`, and in `\n\n`
  the second escape is kept undecoded. The quoted-string parser is modelled with the intended
  decoding. The as-written one is kept beside it, with what it produces (see "## Findings").
- **Unescaping, `barista-serde` copy.** `unescape` steps over the character after each escape
  (see "## Findings").
- **Error diagrams.** In a `ParseError` diagram for a mark past the first line, the context line
  starts with the line break that precedes it. `ParseErrors.SecondLineDiagram` shows this.
- **Empty optionals.** The serializer writes an empty optional as the empty text, not as `null`.
  So only present optionals and `null` have a round trip.
- **`JsonReader`:**
  - `readTrue` yields false;
  - `readObject` drops the error of a value it fails to read;
  - `readObject` accepts an object that is never closed;
  - `readObject` reads past the input when the text ends after a key or a value;
  - `readArray` needs no commas;
  - on `[}`, `readArray` loops forever.

## Model

| member | source | states |
|---|---|---|
| Text.EosIsNoCharacter | barista-serde-parsec/src/main/java/barista/serde/runtime/parsec/ParseState.java:26-27 | The end-of-stream sentinel −1 is not the code of any character and is not whitespace, so `current()` can never confuse the end of the text with a character. |
| Text.Repeat | barista-serde-parsec/src/main/java/barista/serde/runtime/parsec/ParseError.java:52-55 | `repeat(n)` of a one-character string is n copies of that character. |
| Text.NatToDecimal | barista-serde/src/main/java/barista/serde/runtime/json/Serializers.java:33-35 | `String.valueOf` of a non-negative number is at least one ASCII digit, with no leading zero except for 0 itself. |
| Text.NatToDecimalValue | barista-serde/src/main/java/barista/serde/runtime/json/Serializers.java:33-35 | The digits `String.valueOf` writes spell the number back. |
| Text.IntToDecimalShape | barista-serde/src/main/java/barista/serde/runtime/json/Serializers.java:17-47 | `String.valueOf` of any Java integer is canonical: a minus sign exactly for negative numbers, then digits with no leading zero whose value is the magnitude. |
| ParseStates.Peek | barista-serde-parsec/src/main/java/barista/serde/runtime/parsec/ParseState.java:40-43 | `current()` is EOS exactly when the index is at or past the end of the text, and otherwise the code of the character under the index. |
| ParseStates.SkipWs | barista-serde-parsec/src/main/java/barista/serde/runtime/parsec/ParseState.java:45-49 | Skipping whitespace never moves backwards and, started within the text, stays within it. |
| ParseStates.SkipWsStops | barista-serde-parsec/src/main/java/barista/serde/runtime/parsec/ParseState.java:45-49 | `skipWhitespace()` stops at the first index that is past the text or holds a non-whitespace character; everything it skips is whitespace, and past the end it does not move. |
| ParseStates.NoSkipAt | barista-serde-parsec/src/main/java/barista/serde/runtime/parsec/ParseState.java:45-49 | On a non-whitespace character `skipWhitespace()` does not move. |
| ParseStates.SkipWsIdempotent | barista-serde-parsec/src/main/java/barista/serde/runtime/parsec/ParseState.java:45-49 | Skipping whitespace twice is skipping it once. |
| ParseStates.Cursor.constructor | barista-serde-parsec/src/main/java/barista/serde/runtime/parsec/ParseState.java:29-34 | A new state holds the text with the index at 0. |
| ParseStates.Cursor.Current | barista-serde-parsec/src/main/java/barista/serde/runtime/parsec/ParseState.java:40-43 | `current()` is EOS exactly at or past the end, and otherwise the code of the character under the index. |
| ParseStates.Cursor.IsEndOfStream | barista-serde-parsec/src/main/java/barista/serde/runtime/parsec/ParseState.java:51-53 | `isEndOfStream()` holds exactly when the index equals the length: an index past the end is not the end of the stream. |
| ParseStates.Cursor.SkipWhitespace | barista-serde-parsec/src/main/java/barista/serde/runtime/parsec/ParseState.java:45-49 | Moves the index to where `SkipWs` stops (forward only, within the text), after which the current character is not whitespace. |
| ParseStates.Cursor.Next | barista-serde-parsec/src/main/java/barista/serde/runtime/parsec/ParseState.java:55-62 | `next()` moves the index one step with no clamp at the end and returns the new current character. |
| ParseStates.Cursor.MarkHere | barista-serde-parsec/src/main/java/barista/serde/runtime/parsec/ParseState.java:64-67 | `mark()` records the current index. |
| ParseStates.Cursor.Rewind | barista-serde-parsec/src/main/java/barista/serde/runtime/parsec/ParseState.java:69-72 | `rewind(mark)` puts the index back exactly at the mark. |
| ParseStates.Cursor.Slice | barista-serde-parsec/src/main/java/barista/serde/runtime/parsec/ParseState.java:74-76 | `slice(mark)` has length index − mark and its k-th character is the text's character at mark + k. |
| ParseStates.Cursor.Run | barista-serde-json/src/main/java/barista/serde/runtime/json/CollectionInternalParser.java:25 | `parser.parse(state)` leaves the cursor where the parser function says and returns its result. |
| ParseStates.Cursor.Error | barista-serde-parsec/src/main/java/barista/serde/runtime/parsec/ParseState.java:85-87 | `Mark.error(message)` spans from the mark to the current index, on the whole text, with the message. |
| ParseErrors.AdjustedMark | barista-serde-parsec/src/main/java/barista/serde/runtime/parsec/ParseError.java:5-13 | A mark on a line break or at the end of the text is moved back one position (never below 0); any other mark is kept. |
| ParseErrors.ColumnAt | barista-serde-parsec/src/main/java/barista/serde/runtime/parsec/ParseError.java:15-26 | The column the first loop counts is at least 1. |
| ParseErrors.LineStartAt | barista-serde-parsec/src/main/java/barista/serde/runtime/parsec/ParseError.java:15-26 | The context start the first loop records is before the mark (strictly, when the mark is not 0). |
| ParseErrors.LineEndFrom | barista-serde-parsec/src/main/java/barista/serde/runtime/parsec/ParseError.java:28-38 | The context end the second loop records lies between the adjusted mark and the end of the text. |
| ParseErrors.Locate | barista-serde-parsec/src/main/java/barista/serde/runtime/parsec/ParseError.java:4-41 | The context line [start, end) contains the adjusted mark and lies within the text. |
| ParseErrors.ErrorString | barista-serde-parsec/src/main/java/barista/serde/runtime/parsec/ParseError.java:4-57 | The two counting loops and the string assembly produce exactly the diagram defined from the closed forms below (header, message, context line, caret line). |
| ParseErrors.LineCountsBreaks | barista-serde-parsec/src/main/java/barista/serde/runtime/parsec/ParseError.java:15-26 | The line number is one plus the number of line breaks before the adjusted mark. |
| ParseErrors.ColumnCountsFromLastBreak | barista-serde-parsec/src/main/java/barista/serde/runtime/parsec/ParseError.java:15-26 | The column is one plus the number of characters strictly between the last line break before the mark and the mark (or one plus the mark when there is no break), and the context starts at that line break itself. |
| ParseErrors.LineEndIsNextBreak | barista-serde-parsec/src/main/java/barista/serde/runtime/parsec/ParseError.java:28-34 | The context ends at the first line break at or after the adjusted mark, or at the end of the text. |
| ParseErrors.SpanIsClippedDistance | barista-serde-parsec/src/main/java/barista/serde/runtime/parsec/ParseError.java:30-38 | The end column exceeds the column by the distance from the mark to the cursor index, clipped to the end of the mark's line. |
| ParseErrors.DiagramBounds | barista-serde-parsec/src/main/java/barista/serde/runtime/parsec/ParseError.java:15-56 | Line and column are at least 1, the end column is at least the column, and the underline stays on the context line, which holds no line break after the mark. |
| ParseErrors.FirstLineLocation | barista-serde-parsec/src/main/java/barista/serde/runtime/parsec/ParseError.java:15-41 | On a one-line text, an error marked at 0 with the cursor inside the text is at line 1, column 1, ends at column index + 1, and shows the whole text. |
| ParseErrors.NoBreakBefore | barista-serde-parsec/src/main/java/barista/serde/runtime/parsec/ParseError.java:15-26 | Before any line break the line is 1, the column is the index plus one and the context starts at 0. |
| ParseErrors.OneLineLocation | barista-serde-parsec/src/main/java/barista/serde/runtime/parsec/ParseError.java:4-41 | On a one-line text, an error marked on a character sits on line 1 at column mark + 1, its end column counts up to the cursor clipped to the text, and the context is the whole text. |
| ParseErrors.ExpectStringDiagram | barista-serde-parsec/src/test/java/barista/serde/runtime/parsec/ParsersTests.java:17-28 | The diagram of the failed `expect("string")` on `stri...not`: line 1, column 1, the text, and `^--^` under its first four characters. |
| ParseErrors.EmptyInputDiagram | barista-serde-parsec/src/main/java/barista/serde/runtime/parsec/ParseError.java:5-13 | On an empty text the adjusted mark is clamped at 0: line 1, column 1, an empty context line and a lone caret. |
| ParseErrors.SecondLineDiagram | barista-serde-parsec/src/main/java/barista/serde/runtime/parsec/ParseError.java:15-41 | A mark on the second line reports line 2 and the column within that line, and the context line begins with the preceding line break. |
| Parsers.MaybeParse | barista-serde-parsec/src/main/java/barista/serde/runtime/parsec/MaybeParser.java:13-20 | Runs the parser and rewinds the cursor to the mark when the result is an error; the method agrees with `Maybe`. |
| Parsers.MaybeOutcome | barista-serde-parsec/src/main/java/barista/serde/runtime/parsec/MaybeParser.java:13-20 | `maybe(p)` returns p's result unchanged; the cursor is back at the start exactly when p reported a parse error, and is where p left it otherwise. |
| Parsers.MaybeIdempotent | barista-serde-parsec/src/main/java/barista/serde/runtime/parsec/MaybeParser.java:13-20 | `maybe(maybe(p))` behaves as `maybe(p)`. |
| Parsers.MaybePreserves | barista-serde-parsec/src/main/java/barista/serde/runtime/parsec/MaybeParser.java:13-20 | `maybe` keeps a parser that never moves backwards, and one that stays within the text, so. |
| Parsers.WhitespaceParse | barista-serde-parsec/src/main/java/barista/serde/runtime/parsec/Parsers.java:17-22 | Skips whitespace, then runs the parser; the method agrees with `Whitespace`. |
| Parsers.WhitespaceOutcome | barista-serde-parsec/src/main/java/barista/serde/runtime/parsec/Parsers.java:17-22 | `whitespace(p)` is p run at the first non-whitespace position, with its result and end position unchanged. |
| Parsers.WhitespacePreserves | barista-serde-parsec/src/main/java/barista/serde/runtime/parsec/Parsers.java:17-22 | `whitespace` keeps monotone and bounded parsers so. |
| Parsers.ExpectCharAt | barista-serde-parsec/src/main/java/barista/serde/runtime/parsec/ExpectParser.java:13-20 | `expect(char)` never moves backwards and, started within the text, stays within it. |
| Parsers.ExpectCharParse | barista-serde-parsec/src/main/java/barista/serde/runtime/parsec/ExpectParser.java:13-20 | The method agrees with `ExpectChar`. |
| Parsers.ExpectCharOutcome | barista-serde-parsec/src/main/java/barista/serde/runtime/parsec/ExpectParser.java:13-20 | `expect(ch)` succeeds with ch exactly when the first non-whitespace character is ch, and then stands right after it; otherwise it fails at that position with "Expected to find 'ch'", the whitespace consumed; at the end of the text it always fails. |
| Parsers.ExpectCharIsBounded | barista-serde-parsec/src/main/java/barista/serde/runtime/parsec/ExpectParser.java:13-20 | `expect(ch)` is monotone and bounded. |
| Parsers.ExpectStringParse | barista-serde-parsec/src/main/java/barista/serde/runtime/parsec/Parsers.java:28-42 | The loop of `expect(String)` agrees with `ExpectString`. |
| Parsers.ExpectFromOutcome | barista-serde-parsec/src/main/java/barista/serde/runtime/parsec/Parsers.java:31-40 | From the k-th character of the literal on, the loop succeeds exactly when the rest of the literal follows, and otherwise fails with the span from the mark to the first mismatch. |
| Parsers.ExpectStringOutcome | barista-serde-parsec/src/main/java/barista/serde/runtime/parsec/Parsers.java:28-42 | `expect(s)` consumes exactly the literal and returns it when the text continues with it; otherwise it fails with "Expected to find" and a span that stops at the first differing character; the cursor is left at the mismatch, not rewound. The end-of-stream branch is dead: at the end `current()` is EOS, which equals no character. |
| Parsers.ExpectStringIsBounded | barista-serde-parsec/src/main/java/barista/serde/runtime/parsec/Parsers.java:28-42 | `expect(s)` is monotone and bounded. |
| Parsers.ExpectFromAdvances | barista-serde-parsec/src/main/java/barista/serde/runtime/parsec/Parsers.java:31-39 | Started at the k-th character of the literal, the loop leaves the cursor at least k characters past the mark, so `expect(s)` never moves backwards. |
| Parsers.BetweenParse | barista-serde-parsec/src/main/java/barista/serde/runtime/parsec/BetweenParser.java:22-46 | The method agrees with `Between`. |
| Parsers.BetweenOutcome | barista-serde-parsec/src/main/java/barista/serde/runtime/parsec/BetweenParser.java:22-46 | The four cases of `between`: a failed start is returned; an end right after the start gives the default value and consumes the end; otherwise a failed body is returned; otherwise a failed end is returned; otherwise the body's value with the cursor after the end. |
| Parsers.BetweenEmpty | barista-serde-parsec/src/main/java/barista/serde/runtime/parsec/BetweenParser.java:28-33 | When the end matches right after the start, `between` yields the default value after the end. |
| Parsers.BetweenFull | barista-serde-parsec/src/main/java/barista/serde/runtime/parsec/BetweenParser.java:35-45 | When the end does not match right after the start, the body's value is returned after the end. |
| Parsers.BetweenChars | barista-serde-parsec/src/main/java/barista/serde/runtime/parsec/Parsers.java:44-47 | `between('[', p, ']')` on a text opening with the bracket and a non-empty body reads the body's value and stands after the closing character. |
| Parsers.BetweenCharsUnclosed | barista-serde-parsec/src/main/java/barista/serde/runtime/parsec/BetweenParser.java:40-43 | A body that reads up to the end of the text leaves the end parser failing there: "Expected to find" the closing character, with an empty span at the end. |
| Parsers.BetweenCharsBodyFails | barista-serde-parsec/src/main/java/barista/serde/runtime/parsec/BetweenParser.java:35-38 | A body that fails makes `between` return the body's failure unchanged. |
| Parsers.BetweenPreserves | barista-serde-parsec/src/main/java/barista/serde/runtime/parsec/BetweenParser.java:22-46 | `between` of monotone (bounded) parsers is monotone (bounded). |
| Parsers.ComposeResultParse | barista-serde-parsec/src/main/java/barista/serde/runtime/parsec/Parsers.java:52-54 | The method agrees with `ComposeResult`. |
| Parsers.ComposeResultOutcome | barista-serde-parsec/src/main/java/barista/serde/runtime/parsec/Parsers.java:52-54 | `composeResult(p, f)` moves the cursor exactly as p does, applies f to a success value, and passes errors and exceptions on unchanged. |
| Parsers.ComposeResultPreserves | barista-serde-parsec/src/main/java/barista/serde/runtime/parsec/Parsers.java:52-54 | `composeResult` keeps monotone and bounded parsers so. |
| Parsers.FailParse | barista-serde-parsec/src/main/java/barista/serde/runtime/parsec/Parsers.java:56-59 | The parser `error(message)` returns only reads the cursor, and agrees with `Fail`. |
| Parsers.FailOutcome | barista-serde-parsec/src/main/java/barista/serde/runtime/parsec/Parsers.java:56-59 | `error(message)` consumes nothing and fails with the message and an empty span at the cursor. |
| JsonStrings.ParseHex | barista-serde/src/main/java/barista/serde/runtime/JsonStrings.java:40-47 | `Integer.valueOf(t, 16)` succeeds exactly on a non-empty text that is an optional sign followed by at least one hexadecimal digit. The value is never negative without a `-` and never positive with one, and an unsigned text has the value its digits spell. |
| JsonStrings.HexString | barista-serde-json/src/main/java/barista/serde/runtime/json/JsonStrings.java:101-106 | `Integer.toHexString` writes at least one hexadecimal digit: one below 16 and two below 256, so the `"0".repeat(4 - length)` padding is never negative for a control character. |
| JsonStrings.HexStringReadsBack | barista-serde-json/src/main/java/barista/serde/runtime/json/JsonStrings.java:101-106 | The digits `Integer.toHexString` writes for any non-negative number read back through `Integer.valueOf(t, 16)` as that number. |
| JsonStrings.ControlEscape | barista-serde-json/src/main/java/barista/serde/runtime/json/JsonStrings.java:100-108 | A control character without a short escape is written as `\u00` followed by the two lower-case hexadecimal digits of its code. |
| JsonStrings.EscapeCharShape | barista-serde-json/src/main/java/barista/serde/runtime/json/JsonStrings.java:75-110 | A character is kept exactly when it needs no escape; a replacement is a backslash and at least one more character, and never contains a control character. |
| JsonStrings.EscapeLoopStep | barista-serde-json/src/main/java/barista/serde/runtime/json/JsonStrings.java:73-111 | One iteration keeps the loop invariant: the builder plus the pending unchanged run is the escaped prefix of the input. |
| JsonStrings.EscapeSplit | barista-serde-json/src/main/java/barista/serde/runtime/json/JsonStrings.java:69-120 | The loop, with its short-circuit when nothing was replaced, returns exactly the escaped form of the input (each character replaced by its escape). |
| JsonStrings.EscapeLegacy | barista-serde/src/main/java/barista/serde/runtime/JsonStrings.java:70-121 | The for-each loop with its separate index, and no short-circuit, returns the same escaped form. |
| JsonStrings.EscapedConcat | barista-serde-json/src/main/java/barista/serde/runtime/json/JsonStrings.java:69-120 | Escaping distributes over concatenation. |
| JsonStrings.EscapedLength | barista-serde-json/src/main/java/barista/serde/runtime/json/JsonStrings.java:69-120 | The escaped text is at least as long as the input, exactly as long only when no character is replaced, and then equal to the input. |
| JsonStrings.EscapedIdentity | barista-serde-json/src/main/java/barista/serde/runtime/json/JsonStrings.java:112-115 | Escaping leaves a string unchanged exactly when none of its characters needs an escape, so the short-circuit returns the right value. |
| JsonStrings.EscapedHasNoControl | barista-serde-json/src/main/java/barista/serde/runtime/json/JsonStrings.java:100-108 | The escaped text contains no character below U+0020. |
| JsonStrings.EscapeControlExample | barista-serde-json/src/test/java/barista/serde/runtime/json/JsonStringsTests.java:41 | NUL is written as `\u0000`. |
| JsonStrings.EscapeExample | barista-serde-json/src/test/java/barista/serde/runtime/json/JsonStringsTests.java:47 | Backslash, slash and quote each gain a backslash and the letters between them are kept. |
| JsonStrings.CodePointText | barista-serde/src/main/java/barista/serde/runtime/JsonStrings.java:43-46 | `Character.toString(codePoint)`, when it yields a character, yields exactly the one character with that code. |
| JsonStrings.DecodeEscape | barista-serde/src/main/java/barista/serde/runtime/JsonStrings.java:13-55 | The switch on the escape letter: a decoded escape spans at least the backslash and its letter and stays within the input; a trailing backslash, a short `\u` escape or bad hexadecimal digits raise the Java exception. |
| JsonStrings.UnescapeSplit | barista-serde-json/src/main/java/barista/serde/runtime/json/JsonStrings.java:6-67 | The loop of the `barista-serde-json` copy computes `SplitDecoding`, in which each backslash and the character after it become a lone backslash, and the character after that is kept without being examined. |
| JsonStrings.UnescapeLegacy | barista-serde/src/main/java/barista/serde/runtime/JsonStrings.java:6-67 | The loop of the `barista-serde` copy computes `LegacyDecoding`, in which the character after each escape is skipped. |
| JsonStrings.UnescapeFromShift | barista-serde/src/main/java/barista/serde/runtime/JsonStrings.java:11-58 | Decoding only looks forward: a prefix before the decoding position changes nothing. |
| JsonStrings.ControlEscapeDecodes | barista-serde/src/main/java/barista/serde/runtime/JsonStrings.java:40-48 | The `\u00XX` written for a control character decodes back to that character, spanning six characters. |
| JsonStrings.ShortEscapeDecodes | barista-serde/src/main/java/barista/serde/runtime/JsonStrings.java:16-39 | Each two-character escape written by `escape` decodes back to the character it stands for. |
| JsonStrings.DecodeEscapeExtends | barista-serde/src/main/java/barista/serde/runtime/JsonStrings.java:15-54 | A complete escape decodes the same whatever text follows it. |
| JsonStrings.EscapeCharDecodes | barista-serde/src/main/java/barista/serde/runtime/JsonStrings.java:11-58 | The escape of one character decodes back to that character, and decoding resumes right after it. |
| JsonStrings.UnescapeEscaped | barista-serde-json/src/main/java/barista/serde/runtime/json/JsonStrings.java:69-120 | Round trip: the intended decoding inverts `escape` on every string. |
| JsonStrings.NoBackslashUnchanged | barista-serde-json/src/main/java/barista/serde/runtime/json/JsonStrings.java:59-62 | On a text without a backslash all three decodings return the input, the two copies through their `read == 0` short-circuit. |
| JsonStrings.SplitDecodingCounterexamples | barista-serde-json/src/main/java/barista/serde/runtime/json/JsonStrings.java:12-17 | As written, the `barista-serde-json` copy decodes `\n` to a backslash and `\"test\"` to `\test\`, where the intended decoding gives a line feed and `"test"`. |
| JsonStrings.SplitDecodingKeepsNext | barista-serde-json/src/main/java/barista/serde/runtime/json/JsonStrings.java:11-18 | As written, the `barista-serde-json` copy keeps the character after an escape without examining it: `a\"b` decodes to `a\b`, `\nab` to `\ab`, and `\n\n` to `\\n`, its second escape left undecoded. |
| JsonStrings.LegacyDecodingCounterexamples | barista-serde/src/main/java/barista/serde/runtime/JsonStrings.java:11-58 | As written, the `barista-serde` copy decodes `\n\n` to a line feed followed by a literal `\n`, and throws on `\\\\`, where the intended decoding gives two line feeds and two backslashes. |
| JsonStrings.LegacyDecodingSingle | barista-serde/src/main/java/barista/serde/runtime/JsonStrings.java:11-64 | An input that is exactly one escape decodes, in the `barista-serde` copy, to that escape's text. |
| JsonStrings.LegacyDecodingExamples | barista-serde/src/test/java/barista/serde/runtime/JsonStringsTests.java:9-27 | The `barista-serde` copy decodes each single escape the tests list, and keeps an unknown escape such as `\k` as written. |
| JsonStrings.LegacyDecodingUnicodeExample | barista-serde/src/test/java/barista/serde/runtime/JsonStringsTests.java:21 | `\u0001` decodes to U+0001. |
| JsonTokens.ScanEndStops | barista-serde-json/src/main/java/barista/serde/runtime/json/WholeNumberParser.java:25-29 | The scan of the number parsers stops at the first value boundary at or after the start (at the latest at the end of the text), every character it passes is not a boundary, and started past the end it does not move. |
| JsonTokens.ScanToBoundary | barista-serde-json/src/main/java/barista/serde/runtime/json/DoubleParser.java:24-28 | The `while (!isValueBoundary(current)) current = next()` loop leaves the cursor exactly where `ScanEnd` stops. |
| JsonTokens.Token | barista-serde-parsec/src/main/java/barista/serde/runtime/parsec/ParseState.java:74-76 | The token between the mark and the cursor exists exactly when the cursor is within the text (otherwise `slice` throws), and is then the text between them. |
| JsonTokens.KeyValueSeparatorAt | barista-serde-json/src/main/java/barista/serde/runtime/json/KeyValueSeparatorParser.java:18-23 | The separator never moves backwards and, started within the text, stays within it. |
| JsonTokens.KeyValueSeparatorParse | barista-serde-json/src/main/java/barista/serde/runtime/json/KeyValueSeparatorParser.java:18-23 | The method (whitespace, `:`, whitespace) agrees with `KeyValueSeparatorAt`. |
| JsonTokens.KeyValueSeparatorOutcome | barista-serde-json/src/main/java/barista/serde/runtime/json/KeyValueSeparatorParser.java:18-23 | The separator succeeds exactly when the first non-whitespace character is `:`, and then consumes the whitespace on both sides of it; otherwise it fails there with "Expected to find ':'" and the whitespace before is consumed. |
| JsonTokens.KeyValueSeparatorIsBounded | barista-serde-json/src/main/java/barista/serde/runtime/json/KeyValueSeparatorParser.java:18-23 | The separator is monotone and bounded. |
| JsonTokens.KeyValueSeparatorAccepts | barista-serde/src/test/java/barista/serde/runtime/json/JsonParsersTests.java:23-28 | `:`, `   :`, `:   ` and ` : ` are accepted, each consumed entirely. |
| JsonTokens.KeyValueSeparatorRejects | barista-serde/src/test/java/barista/serde/runtime/json/JsonParsersTests.java:31-53 | `x`, the empty text and a lone space are rejected with "Expected to find ':'" at the first non-whitespace position. |
| JsonTokens.CloseFrom | barista-serde-json/src/main/java/barista/serde/runtime/json/QuotedStringParser.java:22-34 | The closing-quote scan never moves backwards and stops within the text. |
| JsonTokens.QuotedAt | barista-serde-json/src/main/java/barista/serde/runtime/json/QuotedStringParser.java:15-43 | The string parser, for any decoder, never moves backwards and, started within the text, stays within it. |
| JsonTokens.QuotedStringParse | barista-serde-json/src/main/java/barista/serde/runtime/json/QuotedStringParser.java:15-43 | The method with its escape-flag loop agrees with `QuotedAt`. |
| JsonTokens.CloseFromFirstUnescaped | barista-serde-json/src/main/java/barista/serde/runtime/json/QuotedStringParser.java:22-34 | The escape flag at each position is the parity of the run of backslashes before it, and the scan stops at the first quote preceded by an even run, or at the end of the text. |
| JsonTokens.QuotedStringTerminator | barista-serde-json/src/main/java/barista/serde/runtime/json/QuotedStringParser.java:15-43 | The closing quote is the first quote after the opening one preceded by an even run of backslashes; without one the parser fails with "Reached end of stream looking for terminal quote" spanning from after the opening quote to the end; otherwise the value is the decoding of the text between the quotes and the cursor is one past the closing quote (a decoder exception escapes with the cursor on the closing quote). |
| JsonTokens.QuotedStringNeedsQuote | barista-serde-json/src/main/java/barista/serde/runtime/json/QuotedStringParser.java:16-19 | Without an opening quote under the cursor the parser fails there and consumes nothing; it does not skip whitespace. |
| JsonTokens.QuotedIsBounded | barista-serde-json/src/main/java/barista/serde/runtime/json/QuotedStringParser.java:15-43 | The string parser is monotone and bounded for any decoder. |
| JsonTokens.QuotedStringIsBounded | barista-serde-json/src/main/java/barista/serde/runtime/json/QuotedStringParser.java:15-43 | The string parser of the grammar is monotone and bounded. |
| JsonTokens.QuotedStringPlain | barista-serde-json/src/test/java/barista/serde/runtime/json/StringParserTests.java:11-47 | `"test"` reads `test`; `test` fails at 0 for the missing quote; `"test` fails from 1 to 5 for the missing closing quote. |
| JsonTokens.QuotedStringEscapedQuotes | barista-serde-json/src/test/java/barista/serde/runtime/json/StringParserTests.java:22-25 | With the intended decoding, `"\"test\""` reads `"test"`; as written (the split copy of `unescape`) it reads `\test\`. |
| JsonTokens.EscapedQuotesAt | barista-serde-json/src/test/java/barista/serde/runtime/json/StringParserTests.java:22-25 | The same two readings of the escaped-quotes text. |
| JsonTokens.EscapeCharQuoting | barista-serde-json/src/main/java/barista/serde/runtime/json/JsonStrings.java:75-110 | A kept character is neither a quote nor a backslash; a replacement is a backslash, one more character, and then neither quotes nor backslashes. |
| JsonTokens.CloseFromSkipsPlain | barista-serde-json/src/main/java/barista/serde/runtime/json/QuotedStringParser.java:22-34 | The closing-quote scan passes over characters that are neither quotes nor backslashes. |
| JsonTokens.CloseFromSkipsEscapeChar | barista-serde-json/src/main/java/barista/serde/runtime/json/QuotedStringParser.java:22-34 | The closing-quote scan passes over the escape of any one character. |
| JsonTokens.CloseFromSkipsEscaped | barista-serde-json/src/main/java/barista/serde/runtime/json/QuotedStringParser.java:22-34 | The closing-quote scan passes over the whole escaped form of any string. |
| JsonTokens.QuotedStringReadsEscaped | barista-serde/src/main/java/barista/serde/runtime/json/Serializers.java:65-70 | Round trip: a quote, the escaped text of any string and a quote read back as that string, the cursor after the closing quote. |
| JsonTokens.QuotedCharParse | barista-serde/src/main/java/barista/serde/runtime/json/QuotedCharParser.java:14-23 | The method agrees with `QuotedCharAt`. |
| JsonTokens.QuotedCharOutcome | barista-serde/src/main/java/barista/serde/runtime/json/QuotedCharParser.java:14-23 | The character parser moves the cursor exactly as the string parser; it succeeds exactly when the decoded string has length one, with its character; a decoded string of another length fails with "Expected a single character" from the start; a string error passes unchanged. |
| JsonTokens.QuotedCharIsBounded | barista-serde/src/main/java/barista/serde/runtime/json/QuotedCharParser.java:14-23 | The character parser is monotone and bounded. |
| JsonTokens.QuotedCharExamples | barista-serde/src/test/java/barista/serde/runtime/json/CharParserTests.java:13-38 | `"a"` reads `a`, `"\n"` reads a line feed; `""` and `"ab"` fail with "Expected a single character" spanning the whole token. |
| JsonTokens.QuotedCharAsWrittenExample | barista-serde/src/test/java/barista/serde/runtime/json/CharParserTests.java:13-16 | Over the string parser as written, `"\n"` reads a backslash instead of a line feed. |
| JsonTokens.BooleanParse | barista-serde/src/main/java/barista/serde/runtime/json/BooleanParser.java:20-26 | The method agrees with `BooleanAt`. |
| JsonTokens.BooleanOutcome | barista-serde/src/main/java/barista/serde/runtime/json/BooleanParser.java:20-26 | The result is `true` (or `false`) exactly when the text continues with that literal, consuming four (five) characters and no whitespace; a token starting with `t` or `f` that is not the literal fails with that literal's expectation, anchored at its start; anything else fails with "Expected value 'true' or 'false'" and consumes nothing. |
| JsonTokens.BooleanIsBounded | barista-serde/src/main/java/barista/serde/runtime/json/BooleanParser.java:20-26 | The boolean parser is monotone and bounded. |
| JsonTokens.BooleanExamples | barista-serde/src/test/java/barista/serde/runtime/json/BooleanParserTests.java:14-43 | `true` and `false` are read; `null` and `"true"` fail at 0 with "Expected value 'true' or 'false'". |
| JsonTokens.NullParse | barista-serde/src/main/java/barista/serde/runtime/json/NullParser.java:18-20 | The method agrees with `NullAt`. |
| JsonTokens.NullOutcome | barista-serde/src/main/java/barista/serde/runtime/json/NullParser.java:18-20 | `null` is recognised exactly when the text continues with it, consuming four characters and no whitespace; otherwise the error is "Expected to find 'null'" from the start to the first mismatch. |
| JsonTokens.NullIsBounded | barista-serde/src/main/java/barista/serde/runtime/json/NullParser.java:18-20 | The null parser is monotone and bounded. |
| JsonTokens.NullExamples | barista-serde-json/src/test/java/barista/serde/runtime/json/NullParserTests.java:11-24 | `null` is read; `notnull` fails with the span of its first character. |
| JsonTokens.OptionalParse | barista-serde-json/src/main/java/barista/serde/runtime/json/OptionalParser.java:39-49 | The method agrees with `OptionalAt`. |
| JsonTokens.OptionalOutcome | barista-serde-json/src/main/java/barista/serde/runtime/json/OptionalParser.java:39-49 | Away from `n` the optional parser is the inner parser with its value mapped; at `n` the inner parser is never consulted: `null` gives the default value and anything else the null parser's error. |
| JsonTokens.OptionalOnNull | barista-serde-json/src/test/java/barista/serde/runtime/json/OptionalParserTests.java:16-22 | For any inner parser, `null` gives the empty optional, also when the optional is nested. |
| JsonTokens.OptionalNested | barista-serde-json/src/test/java/barista/serde/runtime/json/OptionalParserTests.java:45-57 | A nested optional wraps a present value twice and passes the inner parser's error unchanged. |
| JsonTokens.OptionalPreserves | barista-serde-json/src/main/java/barista/serde/runtime/json/OptionalParser.java:39-49 | The optional parser of a monotone (bounded) parser is monotone (bounded). |
| JsonTokens.OptionalExamples | barista-serde-json/src/test/java/barista/serde/runtime/json/OptionalParserTests.java:16-57 | The optional tests over strings: a present string, doubly present when nested, the inner error on `0`, and the empty optional on `null`, even over a parser that always fails. |
| JsonNumbers.ParseWhole | barista-serde-json/src/main/java/barista/serde/runtime/json/WholeNumberParser.java:30-34 | The decimal conversion (`Byte.parseByte`, `Short.parseShort`, `Integer.parseInt`, `Long.parseLong`) only ever yields a value inside the width's range. |
| JsonNumbers.ParseWholeDecimal | barista-serde-json/src/main/java/barista/serde/runtime/json/WholeNumberParser.java:30-34 | Every value inside the width, written in decimal, converts back to itself. |
| JsonNumbers.ParseWholeRejects | barista-serde-json/src/main/java/barista/serde/runtime/json/WholeNumberParser.java:30-34 | The empty text, a lone sign, a non-digit after the first character or a leading character other than a digit or sign is rejected; a run of digits converts exactly when its value does not exceed the width's maximum. |
| JsonNumbers.WholeNumberParse | barista-serde-json/src/main/java/barista/serde/runtime/json/WholeNumberParser.java:23-35 | The method (scan to the value boundary, slice, convert) agrees with `WholeNumberAt`. |
| JsonNumbers.WholeNumberOutcome | barista-serde-json/src/main/java/barista/serde/runtime/json/WholeNumberParser.java:23-35 | The cursor always ends at the value boundary; the token converts to its value, or the error "Cannot parse <width name>" spans from the start to the boundary. |
| JsonNumbers.WholeNumberIsBounded | barista-serde-json/src/main/java/barista/serde/runtime/json/WholeNumberParser.java:23-35 | The whole-number parsers never move backwards and stay within the text. |
| JsonNumbers.WholeNumberReadsDecimal | barista-serde-json/src/main/java/barista/serde/runtime/json/WholeNumberParser.java:23-35 | Every in-range value, written in decimal and followed by a value boundary, reads back as itself, consuming exactly its digits. |
| JsonNumbers.WholeNumberSmallValues | barista-serde/src/test/java/barista/serde/runtime/json/WholeNumberParserTests.java:9-25 | Every width reads `-1`, `0` and `1`. |
| JsonNumbers.WholeNumberMalformed | barista-serde/src/test/java/barista/serde/runtime/json/WholeNumberParserTests.java:81-98 | `test` and `1e10` fail as longs with the error spanning the whole token. |
| JsonNumbers.OutOfRange | barista-serde-json/src/main/java/barista/serde/runtime/json/WholeNumberParser.java:30-34 | A run of digits above the width's maximum fails over its whole text. |
| JsonNumbers.WholeNumberOutOfRange | barista-serde/src/test/java/barista/serde/runtime/json/WholeNumberParserTests.java:27-43 | `256` is out of range for a byte and `65536` for a short. |
| JsonNumbers.WholeNumberOutOfRangeInt | barista-serde/src/test/java/barista/serde/runtime/json/WholeNumberParserTests.java:45-61 | Ten times the largest int fails as an integer. |
| JsonNumbers.WholeNumberOutOfRangeLong | barista-serde/src/test/java/barista/serde/runtime/json/WholeNumberParserTests.java:63-79 | Ten times the largest long fails as a long. |
| JsonNumbers.Special | barista-serde-json/src/main/java/barista/serde/runtime/json/DoubleParser.java:12-18 | The special-literal table has an entry exactly for `-Infinity`, `-Inf`, `Infinity`, `Inf` and `NaN`. |
| JsonNumbers.SpecialAgreesWithConversion | barista-serde-json/src/main/java/barista/serde/runtime/json/DoubleParser.java:12-18 | On `Infinity`, `-Infinity` and `NaN` the table and the conversion agree; the table's `Inf` and `-Inf` are spellings the conversion alone would reject, and `+Inf` and `inf` are accepted by neither. |
| JsonNumbers.FloatingParse | barista-serde-json/src/main/java/barista/serde/runtime/json/DoubleParser.java:22-42 | The method (scan, slice, table lookup, conversion) agrees with `FloatingAt`. |
| JsonNumbers.FloatingOutcome | barista-serde-json/src/main/java/barista/serde/runtime/json/FloatParser.java:22-42 | The cursor ends at the value boundary; a token in the table yields its entry, otherwise a token the conversion accepts yields its value, otherwise the error "Cannot parse <float or double>" spans the token. |
| JsonNumbers.FloatingIsBounded | barista-serde-json/src/main/java/barista/serde/runtime/json/DoubleParser.java:22-42 | The floating-point parsers never move backwards and stay within the text. |
| JsonNumbers.ParseFloatingDecimal | barista-serde-json/src/main/java/barista/serde/runtime/json/DoubleParser.java:37-41 | Every integer written in decimal is a floating-point literal the conversion accepts. |
| JsonNumbers.ParseFloatingDecimalExamples | barista-serde-json/src/main/java/barista/serde/runtime/json/DoubleParser.java:37-41 | `0.`, `-0.` and `0.0` are accepted literals. |
| JsonNumbers.ParseFloatingExponentExample | barista-serde-json/src/main/java/barista/serde/runtime/json/DoubleParser.java:37-41 | `1e10` is an accepted literal. |
| JsonNumbers.ParseFloatingSignedExponents | barista-serde-json/src/main/java/barista/serde/runtime/json/DoubleParser.java:37-41 | Exponents may carry either sign. |
| JsonNumbers.ParseFloatingOtherExamples | barista-serde-json/src/main/java/barista/serde/runtime/json/DoubleParser.java:37-41 | `test`, `.` and `1e` are rejected and the hexadecimal `0x1p3` is accepted. |
| JsonNumbers.FloatingOnToken | barista-serde-json/src/main/java/barista/serde/runtime/json/DoubleParser.java:22-42 | On a text that is a single token the parser consumes all of it and yields the table entry or the converted value. |
| JsonNumbers.FloatingReadsZero | barista-serde/src/test/java/barista/serde/runtime/json/FloatingPointNumberTests.java:10-24 | `0` reads as a finite value at both precisions. |
| JsonNumbers.FloatingReadsExponent | barista-serde/src/test/java/barista/serde/runtime/json/FloatingPointNumberTests.java:37-51 | `1e10` reads as a finite value at both precisions. |
| JsonNumbers.FloatingReadsInfinities | barista-serde/src/test/java/barista/serde/runtime/json/FloatingPointNumberTests.java:37-51 | `-Inf` reads as negative and `Inf` as positive infinity. |
| JsonNumbers.FloatingReadsNaN | barista-serde/src/test/java/barista/serde/runtime/json/FloatingPointNumberTests.java:10-24 | `NaN` reads as not-a-number. |
| JsonNumbers.FloatingRejectsWord | barista-serde/src/test/java/barista/serde/runtime/json/FloatingPointNumberTests.java:26-35 | `test` fails with the error spanning the word. |
| JsonCollections.CollectList | barista-serde-json/src/main/java/barista/serde/runtime/json/JsonParsers.java:82-89 | Adding the items in turn to a list (`ArrayList`) keeps every item, in order. |
| JsonCollections.CollectSet | barista-serde-json/src/main/java/barista/serde/runtime/json/JsonParsers.java:82-89 | Adding the items in turn to a set (`HashSet`) keeps exactly the distinct items, each once. |
| JsonCollections.CollectionInternalParse | barista-serde-json/src/main/java/barista/serde/runtime/json/CollectionInternalParser.java:19-39 | The loop (not at the end: skip whitespace, read an item, stop on its failure, add it, skip whitespace, go on after a comma or stop) agrees with `CollectionFrom`, which `CollectionInternal` and the `collectionInternal` lambda of `JsonParsers` share. |
| JsonCollections.CollectionSetIsDedup | barista-serde-json/src/main/java/barista/serde/runtime/json/JsonParsers.java:82-89 | Reading a collection into a set gives the list the same text reads, with duplicates dropped, at the same position; failures are the same. |
| JsonCollections.CollectionSetIsDedupFrom | barista-serde-json/src/main/java/barista/serde/runtime/json/JsonParsers.java:91-113 | The same for the loop from any index with any items so far. |
| JsonCollections.CollectionFromBounds | barista-serde-json/src/main/java/barista/serde/runtime/json/CollectionInternalParser.java:19-39 | The loop never moves backwards and, over an item parser that stays within the text, stays within it. |
| JsonCollections.CollectionIsBounded | barista-serde-json/src/main/java/barista/serde/runtime/json/JsonParsers.java:82-89 | A collection parser never moves backwards and stays within the text when its item parser does. |
| JsonCollections.CollectionFromItems | barista-serde-json/src/main/java/barista/serde/runtime/json/CollectionInternalParser.java:19-39 | Every element of a collection read is an item already collected or a value the item parser reads at or after the start; a failed collection is exactly the failure of one item read at or after the start. |
| JsonCollections.CollectionFromItemRead | barista-serde-json/src/main/java/barista/serde/runtime/json/CollectionInternalParser.java:25-29 | The same once the first item has been read. |
| JsonCollections.PutLookup | barista-serde-json/src/main/java/barista/serde/runtime/json/MapInternalParser.java:47 | `put` makes `get` of its key give the new value and leaves every other key alone; it keeps the keys distinct, replaces a present key in place, and appends a new key at the end (`LinkedHashMap` order). |
| JsonCollections.AsMapLookup | barista-serde-json/src/main/java/barista/serde/runtime/json/JsonParsers.java:176-186 | The entries turned into a `HashMap` hold exactly the keys `get` finds, with the values `get` gives. |
| JsonCollections.AsMapPut | barista-serde-json/src/main/java/barista/serde/runtime/json/JsonParsers.java:176-186 | Putting an entry and then building the map is the same as updating the map. |
| JsonCollections.MapRound | barista-serde-json/src/main/java/barista/serde/runtime/json/MapInternalParser.java:28-55 | One round of the map loop never moves backwards, and goes on only after a comma that lies within the text. |
| JsonCollections.MapInternalParse | barista-serde-json/src/main/java/barista/serde/runtime/json/MapInternalParser.java:26-58 | The loop (not at the end: whitespace, key, separator, value, put, whitespace, comma or stop) agrees with `MapFrom`. |
| JsonCollections.MapRoundParse | barista-serde-json/src/main/java/barista/serde/runtime/json/MapInternalParser.java:28-55 | One round of the loop on the cursor agrees with `MapRound` and leaves the cursor after the comma or at where the round stopped. |
| JsonCollections.MapFromRound | barista-serde-json/src/main/java/barista/serde/runtime/json/MapInternalParser.java:26-58 | The loop is its first round followed, after a comma, by the loop from after the comma. |
| JsonCollections.MapRoundReads | barista-serde-json/src/main/java/barista/serde/runtime/json/MapInternalParser.java:30-55 | A round that reads a key, the separator and a value puts that entry, then goes on after a comma or stops after the value's trailing whitespace. |
| JsonCollections.ForEveryKeyMonotone | barista-serde-json/src/main/java/barista/serde/runtime/json/JsonParsers.java:115-122 | The value parser `map` hands out for every key never moves backwards when the given one does not. |
| JsonCollections.ObjectAsMapOutcome | barista-serde-json/src/main/java/barista/serde/runtime/json/JsonParsers.java:176-186 | `objectAsMap` reads what the braced entries read; its map holds exactly the keys read, each with the last value read for it; failures pass unchanged. |
| JsonCollections.ObjectOutcome | barista-serde-json/src/main/java/barista/serde/runtime/json/JsonParsers.java:145-148 | `object` applies its function to the map read, at the same position, and passes failures unchanged. |
| JsonCollections.MapRoundDistinctKeys | barista-serde-json/src/main/java/barista/serde/runtime/json/MapInternalParser.java:47 | A round keeps the keys of the entries distinct. |
| JsonCollections.MapFromDistinctKeys | barista-serde-json/src/main/java/barista/serde/runtime/json/MapInternalParser.java:26-58 | A map read by the loop has distinct keys. |
| JsonCollections.MapHasDistinctKeys | barista-serde-json/src/main/java/barista/serde/runtime/json/JsonParsers.java:115-122 | A map read by `map` has distinct keys: a repeated key replaces the earlier value. |
| JsonCollections.MapFromAdvances | barista-serde-json/src/main/java/barista/serde/runtime/json/MapInternalParser.java:26-58 | The map loop never moves backwards. |
| JsonCollections.MapFromWithin | barista-serde-json/src/main/java/barista/serde/runtime/json/MapInternalParser.java:26-58 | Over value parsers that stay within the text, the loop stays within it. |
| JsonCollections.MapIsBounded | barista-serde-json/src/main/java/barista/serde/runtime/json/JsonParsers.java:115-122 | A map parser never moves backwards and stays within the text when its value parser does. |
| JsonCollectionExamples.EmptyCollections | barista-serde/src/test/java/barista/serde/runtime/json/JsonParsersTests.java:67-78 | `[]` and `[ ]` read as the empty list. |
| JsonCollectionExamples.TwoStrings | barista-serde/src/test/java/barista/serde/runtime/json/JsonParsersTests.java:67-78 | `["a", "b"]` reads as the list of both strings. |
| JsonCollectionExamples.UnclosedCollection | barista-serde/src/test/java/barista/serde/runtime/json/JsonParsersTests.java:81-132 | `[` fails expecting `]` at the end. |
| JsonCollectionExamples.UnterminatedString | barista-serde/src/test/java/barista/serde/runtime/json/JsonParsersTests.java:81-132 | `["a` fails with the unterminated-string error spanning the string. |
| JsonCollectionExamples.TrailingComma | barista-serde/src/test/java/barista/serde/runtime/json/JsonParsersTests.java:81-132 | `["a",` fails expecting `]` after the comma. |
| JsonCollectionExamples.EmptyMaps | barista-serde/src/test/java/barista/serde/runtime/json/JsonParsersTests.java:144-152 | `{}` and `{ }` read as the empty map. |
| JsonCollectionExamples.MapErrorsAtStart | barista-serde/src/test/java/barista/serde/runtime/json/JsonParsersTests.java:155-228 | `{` fails expecting `}`, the empty text fails expecting `{`, and `{a` fails for want of a quote. |
| JsonCollectionExamples.MapErrorsInKey | barista-serde/src/test/java/barista/serde/runtime/json/JsonParsersTests.java:155-228 | An unterminated key fails over the key; a key without `:` fails expecting it. |
| JsonCollectionExamples.MapErrorsNoValue | barista-serde/src/test/java/barista/serde/runtime/json/JsonParsersTests.java:155-228 | A missing value fails for want of a quote. |
| JsonCollectionExamples.MapErrorsUnterminatedValue | barista-serde/src/test/java/barista/serde/runtime/json/JsonParsersTests.java:155-228 | An unterminated value fails at its end. |
| JsonCollectionExamples.MapErrorsUnclosed | barista-serde/src/test/java/barista/serde/runtime/json/JsonParsersTests.java:155-228 | An entry without the closing brace fails expecting `}`. |
| JsonCollectionExamples.MapErrorsTrailingComma | barista-serde/src/test/java/barista/serde/runtime/json/JsonParsersTests.java:155-228 | An entry followed by a comma and `}` fails for want of a quote. |
| JsonCollectionExamples.ObjectAsMapExamples | barista-serde-json/src/main/java/barista/serde/runtime/json/JsonParsers.java:176-186 | With the string parser for every field, `{}` reads as the empty map and `{"a":""}` as the one-entry map. |
| JsonCollectionExamples.UnknownFieldExample | barista-serde/src/test/java/barista/serde/runtime/json/JsonParsersTests.java:56-64 | `unknownField("field")` fails at its position with "Unknown field 'field'". |
| JsonAny.AnyAt | barista-serde-json/src/main/java/barista/serde/runtime/json/AnyValueParser.java:22-37 | Reading any value never moves backwards and, started within the text, stays within it, however deeply collections and maps nest. |
| JsonAny.ItemsFrom | barista-serde-json/src/main/java/barista/serde/runtime/json/CollectionInternalParser.java:19-39 | The list loop over nested values never moves backwards and stays within the text. |
| JsonAny.EntriesFrom | barista-serde-json/src/main/java/barista/serde/runtime/json/MapInternalParser.java:26-58 | The map loop over nested values never moves backwards and stays within the text. |
| JsonAny.ArrayAt | barista-serde-json/src/main/java/barista/serde/runtime/json/AnyValueParser.java:29 | A nested list never moves backwards and stays within the text. |
| JsonAny.ObjectAt | barista-serde-json/src/main/java/barista/serde/runtime/json/AnyValueParser.java:28 | A nested map never moves backwards and stays within the text. |
| JsonAny.AnyValueIsBounded | barista-serde-json/src/main/java/barista/serde/runtime/json/JsonParsers.java:205-207 | `any()` never moves backwards and stays within the text, so it is an item parser the collection and map loops accept. |
| JsonAny.ItemsAgree | barista-serde-json/src/main/java/barista/serde/runtime/json/JsonParsers.java:82-89 | The list loop over nested values is the library's collection loop with `any()` as its item parser. |
| JsonAny.EntriesAgree | barista-serde-json/src/main/java/barista/serde/runtime/json/JsonParsers.java:115-122 | The map loop over nested values is the library's map loop with the identity key function and `any()` for every key. |
| JsonAny.ArrayAgrees | barista-serde-json/src/main/java/barista/serde/runtime/json/AnyValueParser.java:29 | On `[` the value read is the library's `collection(this, ArrayList::new)`, as a list. |
| JsonAny.ObjectAgrees | barista-serde-json/src/main/java/barista/serde/runtime/json/AnyValueParser.java:28 | On `{` the value read is the library's `map(identity, this, LinkedHashMap::new)`, as entries in order. |
| JsonAny.AnyIsFixedPoint | barista-serde-json/src/main/java/barista/serde/runtime/json/AnyValueParser.java:22-37 | `any()` is the fixed point of `AnyValueParser.parse`: after whitespace it reads with the map, collection, string, null, boolean or double parser chosen by the current character, with itself inside collections and maps. |
| JsonAny.AnyValueParse | barista-serde-json/src/main/java/barista/serde/runtime/json/AnyValueParser.java:22-37 | The method on a cursor agrees with `AnyAt`. |
| JsonAny.AnyNullExample | barista-serde/src/test/java/barista/serde/runtime/json/JsonParsersTests.java:231-242 | `null` reads as the empty value. |
| JsonAny.AnyTrueExample | barista-serde/src/test/java/barista/serde/runtime/json/JsonParsersTests.java:231-242 | `true` reads as true. |
| JsonAny.AnyZeroExample | barista-serde/src/test/java/barista/serde/runtime/json/JsonParsersTests.java:231-242 | `0` reads as a number. |
| JsonAny.AnyMapExample | barista-serde/src/test/java/barista/serde/runtime/json/JsonParsersTests.java:231-242 | `{"a": "A"}` reads as the one-entry map from `a` to `A`. |
| RoundTrips.QuoteReadsBack | barista-serde/src/main/java/barista/serde/runtime/json/Serializers.java:65-70 | Every string, serialized (quoted and escaped), reads back through the string parser as itself, consuming exactly its text wherever it stands before a value boundary. |
| RoundTrips.QuoteAsWrittenExample | barista-serde-json/src/main/java/barista/serde/runtime/json/QuotedStringParser.java:15-42 | The serialized `a"b` is `"a\"b"`; the string parser with the intended decoding reads it back as `a"b`, and with the `unescape` as written it reads `a\b`. |
| RoundTrips.WholeReadsBack | barista-serde/src/main/java/barista/serde/runtime/json/Serializers.java:17-47 | Every value inside a width, serialized in decimal, reads back through that width's parser as itself. |
| RoundTrips.FloatingReadsToken | barista-serde-json/src/main/java/barista/serde/runtime/json/DoubleParser.java:22-42 | A token with no boundary inside, placed before a boundary, reads as its table entry or its converted value, consuming exactly the token. |
| RoundTrips.FloatingReadsBack | barista-serde/src/main/java/barista/serde/runtime/json/Serializers.java:49-63 | Every special value, and every finite value whose text is a literal the conversion accepts, serialized, reads back through both floating-point parsers as itself. |
| RoundTrips.FiniteIsNotSpecial | barista-serde-json/src/main/java/barista/serde/runtime/json/DoubleParser.java:32-35 | A literal the conversion reads as finite is never one of the table's special spellings. |
| RoundTrips.SpecialNames | barista-serde/src/main/java/barista/serde/runtime/json/Serializers.java:49-63 | The names written for `NaN` and the infinities are table entries for those same values and contain no boundary. |
| RoundTrips.OptionalReadsBack | barista-serde-json/src/main/java/barista/serde/runtime/json/OptionalParser.java:38-49 | A present value whose text does not start with `n` reads back through the optional parser as present. |
| RoundTrips.OptionalReadsNull | barista-serde-json/src/main/java/barista/serde/runtime/json/OptionalParser.java:38-49 | `null` reads back through the optional parser as the empty value. |
| RoundTrips.CommasTexts | barista-serde/src/main/java/barista/serde/runtime/json/Serializers.java:97-110 | Joining the item texts with commas is the same as writing each item followed by a comma before the next. |
| RoundTrips.CollectionFromReadsBack | barista-serde-json/src/main/java/barista/serde/runtime/json/CollectionInternalParser.java:19-39 | The collection loop reads the comma-joined texts of values that each read back, ending before `]`, as exactly those values in order. |
| RoundTrips.CollectionBody | barista-serde-json/src/main/java/barista/serde/runtime/json/JsonParsers.java:91-113 | The same for the loop started after the opening bracket. |
| RoundTrips.CollectionPlacedReadsBack | barista-serde-json/src/main/java/barista/serde/runtime/json/JsonParsers.java:82-89 | A bracketed, comma-joined list of texts that each read back reads as the list of those values. |
| RoundTrips.CollectionReadsBack | barista-serde/src/main/java/barista/serde/runtime/json/Serializers.java:97-110 | A serialized collection of values that each read back reads back through `collection` as the same list, and as a set it reads back as the list with duplicates dropped. |
| RoundTrips.PutAllDistinct | barista-serde-json/src/main/java/barista/serde/runtime/json/MapInternalParser.java:47 | Putting entries with distinct keys in turn keeps all of them in order. |
| RoundTrips.CommasEntryTexts | barista-serde/src/main/java/barista/serde/runtime/json/Serializers.java:116-135 | Joining the `key:value` texts with commas is the same as writing each entry followed by a comma before the next. |
| RoundTrips.MapItemComma | barista-serde-json/src/main/java/barista/serde/runtime/json/MapInternalParser.java:30-55 | An entry written as quoted key, `:` and a value that reads back, followed by a comma, is put and the loop goes on after the comma. |
| RoundTrips.MapItemLast | barista-serde-json/src/main/java/barista/serde/runtime/json/MapInternalParser.java:30-57 | The same entry followed by `}` is put and the loop ends before the brace. |
| RoundTrips.MapFromReadsBack | barista-serde-json/src/main/java/barista/serde/runtime/json/MapInternalParser.java:26-58 | The map loop reads the comma-joined entry texts, ending before `}`, as the entries put in order. |
| RoundTrips.MapBody | barista-serde-json/src/main/java/barista/serde/runtime/json/JsonParsers.java:124-129 | The same for the loop started after the opening brace. |
| RoundTrips.MapPlacedReadsBack | barista-serde-json/src/main/java/barista/serde/runtime/json/JsonParsers.java:115-122 | A braced, comma-joined list of entry texts reads as the entries put in order. |
| RoundTrips.MapReadsBack | barista-serde/src/main/java/barista/serde/runtime/json/Serializers.java:116-135 | A serialized map with string keys and values that each read back reads back through `map` as its entries put in order, and as exactly its entries when the keys are distinct. |
| Serializers.SerializeBoxed | barista-serde/src/main/java/barista/serde/runtime/json/Serializers.java:21-47 | A boxed null number is written `null`. |
| Serializers.Quote | barista-serde/src/main/java/barista/serde/runtime/json/Serializers.java:65-70 | A string is written as a quote, its escaped form, and a quote. |
| Serializers.SerializeString | barista-serde/src/main/java/barista/serde/runtime/json/Serializers.java:65-70 | A null string is written `null`; any other string quoted and escaped. |
| Serializers.SerializeOptional | barista-serde/src/main/java/barista/serde/runtime/json/Serializers.java:72-95 | An empty optional is written as the empty text, not `null`; a present one exactly as its value's serializer writes it. |
| Serializers.Texts | barista-serde/src/main/java/barista/serde/runtime/json/Serializers.java:97-110 | The item texts are the serializer's output for each item, in iteration order. |
| Serializers.SerializeCollection | barista-serde/src/main/java/barista/serde/runtime/json/Serializers.java:97-110 | The `StringJoiner` loop writes `null` for a null collection, and otherwise `[`, the item texts joined by commas in order, and `]`. |
| Serializers.EntryTexts | barista-serde/src/main/java/barista/serde/runtime/json/Serializers.java:116-135 | Each entry is written as its key's text, `:`, and its value's text, in iteration order. |
| Serializers.SerializeMap | barista-serde/src/main/java/barista/serde/runtime/json/Serializers.java:116-135 | The `StringJoiner` loop writes `null` for a null map, and otherwise `{`, the entry texts joined by commas in order, and `}`. |
| Serializers.CommasCons | barista-serde/src/main/java/barista/serde/runtime/json/Serializers.java:97-110 | Joining two or more texts is the first, a comma, and the join of the rest. |
| Serializers.SerializeExamples | barista-serde/src/test/java/barista/serde/runtime/SerializersTests.java:17-153 | Numbers in decimal, a null box as `null`, the special values by name, strings quoted, a null string as `null`, and an empty optional as nothing. |
| Serializers.SerializeListExample | barista-serde/src/test/java/barista/serde/runtime/SerializersTests.java:194-202 | A list of three strings is written `"a","b","c"` between brackets. |
| Serializers.SerializeEmptyExamples | barista-serde/src/main/java/barista/serde/runtime/json/Serializers.java:97-135 | An empty collection or map has nothing between its brackets. |
| Serializers.SerializeMapExample | barista-serde/src/test/java/barista/serde/runtime/SerializersTests.java:204-227 | The map from `a` to 1 and `b` to 2 is written `"a":1,"b":2` between braces. |
| AnyRoundTrips.Write | barista-serde/src/main/java/barista/serde/runtime/json/Serializers.java:57-135 | The text written for a value of any kind: `null` is what `serialize(String)` writes for a null reference, a number is what `serialize(Double)` writes, a string is what `serialize(String)` writes, and a list or a map is bracketed or braced. A boolean is written `true` or `false` by the model itself, since the library has no boolean serializer. |
| AnyRoundTrips.WriteArray | barista-serde/src/main/java/barista/serde/runtime/json/Serializers.java:97-110 | A nested list is written as the collection serializer writes it, with each item written the same way. |
| AnyRoundTrips.WriteObject | barista-serde/src/main/java/barista/serde/runtime/json/Serializers.java:116-135 | A nested map is written as the map serializer writes it, with quoted keys. |
| AnyRoundTrips.NullReadsBack | barista-serde-json/src/main/java/barista/serde/runtime/json/AnyValueParser.java:31 | `any()` reads `null` back as the empty value. |
| AnyRoundTrips.BoolReadsBack | barista-serde-json/src/main/java/barista/serde/runtime/json/AnyValueParser.java:32 | `any()` reads `true` and `false` back, the texts `Write` supplies for booleans. |
| AnyRoundTrips.NumberReadsBack | barista-serde-json/src/main/java/barista/serde/runtime/json/AnyValueParser.java:33 | `any()` reads a serialized number back as itself. |
| AnyRoundTrips.StringReadsBack | barista-serde-json/src/main/java/barista/serde/runtime/json/AnyValueParser.java:30 | `any()` reads a serialized string back as itself. |
| AnyRoundTrips.ArrayReadsBack | barista-serde-json/src/main/java/barista/serde/runtime/json/AnyValueParser.java:29 | `any()` reads a serialized list of values it reads back as that list. |
| AnyRoundTrips.ObjectReadsBack | barista-serde-json/src/main/java/barista/serde/runtime/json/AnyValueParser.java:28 | `any()` reads a serialized map with distinct keys, of values it reads back, as exactly its entries. |
| AnyRoundTrips.WriteReadsBack | barista-serde-json/src/main/java/barista/serde/runtime/json/AnyValueParser.java:22-37 | Every value `any()` can produce (finite numbers written as accepted literals, maps with distinct keys), serialized, reads back through `any()` as itself, at any depth. |
| AnyRoundTrips.AnyStringExample | barista-serde/src/test/java/barista/serde/runtime/json/JsonParsersTests.java:231-242 | `"test"` reads as the string `test`. |
| AnyRoundTrips.AnyListExample | barista-serde/src/test/java/barista/serde/runtime/json/JsonParsersTests.java:231-242 | `["test"]` reads as the one-string list. |
| AnyRoundTrips.AnyNestedListExample | barista-serde/src/test/java/barista/serde/runtime/json/JsonParsersTests.java:231-242 | `[["test"]]` reads as the list holding that list. |
| JsonReader.StringEnd | barista-serde-json/src/main/java/barista/serde/runtime/json/JsonReader.java:117-126 | The string scan stops at a quote, or past the input; it steps over the byte after each backslash. |
| JsonReader.StringAt | barista-serde-json/src/main/java/barista/serde/runtime/json/JsonReader.java:114-132 | `readString` never fails with a crash: it succeeds with the raw bytes between the byte it starts on and the closing quote, leaving the index on that quote, or fails with the index at the end. The starting byte is not checked and nothing is unescaped. |
| JsonReader.TrueAt | barista-serde-json/src/main/java/barista/serde/runtime/json/JsonReader.java:134-144 | `readTrue` succeeds exactly when `rue` follows within the input, leaving the index on the `e`, and its value is then false; otherwise it fails with the index at the end. |
| JsonReader.FalseAt | barista-serde-json/src/main/java/barista/serde/runtime/json/JsonReader.java:146-157 | `readFalse` succeeds exactly when `alse` follows within the input, leaving the index on the last `e`, with the value false; otherwise it fails with the index at the end. |
| JsonReader.NullAt | barista-serde-json/src/main/java/barista/serde/runtime/json/JsonReader.java:159-169 | `readNull` succeeds exactly when `ull` follows within the input, leaving the index on the last `l`, with the empty value; otherwise it fails with the index at the end. |
| JsonReader.TokenEnd | barista-serde-json/src/main/java/barista/serde/runtime/json/JsonReader.java:173-175 | The number scan stops at the first boundary byte or at the end, and passes only non-boundary bytes. |
| JsonReader.NumberAt | barista-serde-json/src/main/java/barista/serde/runtime/json/JsonReader.java:171-185 | `readNumber` leaves the index one before where the scan stopped, that is on the last byte of the number, and yields a number or fails. |
| JsonReader.SpacesEnd | barista-serde-json/src/main/java/barista/serde/runtime/json/JsonReader.java:87-91 | The whitespace loop stops at the first byte that is not a space, `\n`, `\r` or `\t`, or at the end. |
| JsonReader.AnyAt | barista-serde-json/src/main/java/barista/serde/runtime/json/JsonReader.java:18-39 | A value read successfully leaves the index on its last byte (a closing quote, a literal's last letter, `}`, `]` or a number's last byte), or at the end for an object left open. |
| JsonReader.ArrayAt | barista-serde-json/src/main/java/barista/serde/runtime/json/JsonReader.java:93-112 | An array read successfully leaves the index on its `]` and yields a list. |
| JsonReader.ObjectAt | barista-serde-json/src/main/java/barista/serde/runtime/json/JsonReader.java:41-85 | An object read successfully leaves the index on its `}` or at the end, and yields a map. |
| JsonReader.ArrayFrom | barista-serde-json/src/main/java/barista/serde/runtime/json/JsonReader.java:96-111 | The array loop either ends on `]` with a list, fails with the index at the end, crashes, or is found to diverge when an item hands back the index it started on; it never moves backwards except to the end on failure. |
| JsonReader.ObjectFrom | barista-serde-json/src/main/java/barista/serde/runtime/json/JsonReader.java:44-84 | The object loop ends on `}` or at the end of the input with a map, and never moves backwards. |
| JsonReader.EntryAt | barista-serde-json/src/main/java/barista/serde/runtime/json/JsonReader.java:50-81 | One field of the object loop either goes on after a comma within the input, or ends the loop; a successful end is on `}`. |
| JsonReader.ColonAt | barista-serde-json/src/main/java/barista/serde/runtime/json/JsonReader.java:59-72 | After a field name, the round goes on only after a comma within the input; a successful end is on `}`; a missing colon at the end of the input is a crash. |
| JsonReader.EntryClose | barista-serde-json/src/main/java/barista/serde/runtime/json/JsonReader.java:74-80 | After a value, `}` ends the object there, `,` goes on at the comma, anything else fails with the index at the end, and the end of the input is a crash. |
| JsonReader.State.constructor | barista-serde-json/src/main/java/barista/serde/runtime/json/JsonReader.java:200-203 | A new state reads the given bytes from index 0. |
| JsonReader.State.Prev | barista-serde-json/src/main/java/barista/serde/runtime/json/JsonReader.java:217-219 | `prev()` moves the index back by one. |
| JsonReader.State.Next | barista-serde-json/src/main/java/barista/serde/runtime/json/JsonReader.java:221-227 | `next(offset)` moves the index forward by the offset, without a bound check. |
| JsonReader.State.Fail | barista-serde-json/src/main/java/barista/serde/runtime/json/JsonReader.java:233-236 | `fail()` moves the index to the end, so every enclosing `hasMore()` loop stops. |
| JsonReader.Read | barista-serde-json/src/main/java/barista/serde/runtime/json/JsonReader.java:14-16 | Reading a byte array is reading any value from index 0. |
| JsonReader.Whitespace | barista-serde-json/src/main/java/barista/serde/runtime/json/JsonReader.java:87-91 | The whitespace method agrees with `SpacesEnd`. |
| JsonReader.Any | barista-serde-json/src/main/java/barista/serde/runtime/json/JsonReader.java:18-39 | The dispatching loop agrees with `AnyAt`. |
| JsonReader.ReadObject | barista-serde-json/src/main/java/barista/serde/runtime/json/JsonReader.java:41-85 | The object loop agrees with `ObjectAt`. |
| JsonReader.ReadEntry | barista-serde-json/src/main/java/barista/serde/runtime/json/JsonReader.java:52-64 | Reading a field name, the whitespace and the colon agrees with `EntryAt`. |
| JsonReader.ReadValue | barista-serde-json/src/main/java/barista/serde/runtime/json/JsonReader.java:65-72 | Reading the value after the colon agrees with `ColonAt`; a failed value is dropped. |
| JsonReader.CloseEntry | barista-serde-json/src/main/java/barista/serde/runtime/json/JsonReader.java:74-82 | What follows a value (whitespace, then `}` or `,`) agrees with `EntryClose`. |
| JsonReader.ReadArray | barista-serde-json/src/main/java/barista/serde/runtime/json/JsonReader.java:93-112 | The array loop agrees with `ArrayAt`. |
| JsonReader.ReadString | barista-serde-json/src/main/java/barista/serde/runtime/json/JsonReader.java:114-132 | The string method agrees with `StringAt`. |
| JsonReader.ReadTrue | barista-serde-json/src/main/java/barista/serde/runtime/json/JsonReader.java:134-144 | The method agrees with `TrueAt`. |
| JsonReader.ReadFalse | barista-serde-json/src/main/java/barista/serde/runtime/json/JsonReader.java:146-157 | The method agrees with `FalseAt`. |
| JsonReader.ReadNull | barista-serde-json/src/main/java/barista/serde/runtime/json/JsonReader.java:159-169 | The method agrees with `NullAt`. |
| JsonReader.ReadNumber | barista-serde-json/src/main/java/barista/serde/runtime/json/JsonReader.java:171-185 | The method agrees with `NumberAt`. |
| JsonReader.SpacesOnlyFail | barista-serde-json/src/main/java/barista/serde/runtime/json/JsonReader.java:19-38 | Empty or all-whitespace input fails, with the index at the end. |
| JsonReader.TrueReadsFalse | barista-serde-json/src/main/java/barista/serde/runtime/json/JsonReader.java:134-157 | `true` and ` false` both read as false. |
| JsonReader.NullExample | barista-serde-json/src/main/java/barista/serde/runtime/json/JsonReader.java:159-169 | `null` reads as the empty value; `nul` fails. |
| JsonReader.KeyAtEndCrashes | barista-serde-json/src/main/java/barista/serde/runtime/json/JsonReader.java:57-61 | `{"a"` reads past the input when it looks for the colon. |
| JsonReader.ValueAtEndCrashes | barista-serde-json/src/main/java/barista/serde/runtime/json/JsonReader.java:72-75 | `{"a":1` reads past the input when it looks for `}` or `,`. |
| JsonReader.UnclosedObject | barista-serde-json/src/main/java/barista/serde/runtime/json/JsonReader.java:41-85 | `{` reads as the empty map although it is never closed. |
| JsonReader.ObjectDropsValueError | barista-serde-json/src/main/java/barista/serde/runtime/json/JsonReader.java:68-71 | `{"a":x}` reads as the empty map: the failed value is dropped, not reported. |
| JsonReader.ArrayDiverges | barista-serde-json/src/main/java/barista/serde/runtime/json/JsonReader.java:93-112 | `[}` never ends: `any` hands the `}` to the number reader, which stops at once, steps back one byte and fails, and the array loop's `next()` brings it back to the same `}` forever. |
| JsonReader.SingleDigit | barista-serde-json/src/main/java/barista/serde/runtime/json/JsonReader.java:171-185 | A digit followed by a boundary reads as that number, with the index left on the digit. |
| JsonReader.ArrayWithoutCommas | barista-serde-json/src/main/java/barista/serde/runtime/json/JsonReader.java:97-98 | `[1 2]` reads as two items: commas are skipped like whitespace and never required. |
| JsonReader.ArrayLeadingComma | barista-serde-json/src/main/java/barista/serde/runtime/json/JsonReader.java:97-98 | `[,1]` reads as one item. |
| JsonReader.UnclosedArray | barista-serde-json/src/main/java/barista/serde/runtime/json/JsonReader.java:107-110 | `[1` fails, with the index at the end. |

## Left out

- The `io.github.markelliot.result.Result` library is not part of this model. It is replaced by
  the `Result` datatype. `coerce` and `mapResult` become `ParseStates.Coerce` and
  `ParseStates.MapResult`, as far as the parsers use them.
- `Parser.java` (an interface) is not modelled as a type of its own. A parser is a function
  value, and `parse(state)` is `Cursor.Run`. `JsonCharSeq` is not part of this model: the
  serializers return plain strings, and its `equals` is not modelled.
- `Parsers.whitespace()` with no argument, which `KeyValueSeparatorParser` calls, is not part of
  the `barista-serde-parsec` sources in this model. It is modelled as skipping whitespace
  (`SkipWs`), which is what its single-argument form does before running its parser.
- JsonCollections.Collection: the item parser must never move the cursor backwards. The same
  holds for `CollectionInternal`, `Map`, `MapInternal`, `ObjectAsMap` and `Object`. Every parser
  of the library is proved to be such a parser. With one that moved back, the Java loop could run
  forever, which the model does not represent.
- JsonCollections.AsMap: the order in which a `HashMap` iterates is not modelled; the result is a
  Dafny `map`. For sets, `Dedup` keeps the first occurrence of each item in order, but a
  `HashSet`'s iteration order is not claimed.
- The cast `(Object) r` in `objectAsMap` and `AnyValueParser` is the identity. Values of
  different Java types read by one object parser share one Dafny type parameter.
- JsonStrings.ParseHex: only the ASCII digits and the letters `a`-`f` and `A`-`F` are taken as
  hexadecimal digits. `Integer.valueOf(t, 16)` goes through `Character.digit`, which also accepts
  the other Unicode decimal digits (U+0660 to U+0669, for one) and the fullwidth letters
  (U+FF21 to U+FF26 and U+FF41 to U+FF46). A `\u` escape written with such digits decodes in
  the Java but is a `NumberFormatException` in `JsonStrings.DecodeEscape`, and so in
  `LegacyDecoding` and `Unescape`. The serializers only ever write ASCII digits.
- JsonNumbers.ParseWhole: only ASCII digits are accepted. Java's integer parsers also accept
  other Unicode decimal digits.
- JsonNumbers.ParseFloating: this is a recogniser of the `Double.parseDouble` grammar. It covers
  trimming, the sign, `NaN`, `Infinity`, decimal and hexadecimal literals, and the `f`/`d`
  suffix. A finite value is kept as its literal text: rounding to `float` or `double`, overflow to
  infinity, and the equality of different spellings of one number are not modelled.
- Serializers.SerializeFloating: `String.valueOf(float)` and `String.valueOf(double)` are not
  modelled. A finite value is written as the literal it is kept as.
  `RoundTrips.FloatingReadsBack` and `AnyRoundTrips.NumberReadsBack` therefore require that
  literal to be one the conversion accepts.
- Java `char` is a UTF-16 code unit; a Dafny `char` is a Unicode scalar value. A `\uD800`-`\uDFFF`
  escape, which Java decodes to a lone surrogate, is modelled as a thrown exception. Supplementary
  characters are modelled as one character rather than a surrogate pair.
- ParseErrors.ErrorString: requires the mark to lie within the text. The Java loops would index
  out of bounds otherwise.
- ParseStates.Cursor.Slice: requires the mark at or before the index, and the index within the
  text. Java's `substring` throws otherwise. The parsers reach `slice` through
  `JsonTokens.Token`, which models that throw as a `Thrown` result.
- RoundTrips.MapReadsBack: the keys are strings written by the string serializer. Java lets the
  caller pass any key serializer, and the map parser reads only quoted keys.
- The grammar's string parser decodes escapes with the intended `JsonStrings.Unescape`, not
  with the `unescape` that `QuotedStringParser.java` calls. So wherever a quoted string
  contains an escape, the members below differ from the Java as written; the as-written parser
  is `JsonTokens.QuotedStringAsWritten`, and `RoundTrips.QuoteAsWrittenExample` shows a string
  that does not read back through it. Each of these members is stated for the intended
  decoding:
- JsonTokens.QuotedStringAt and JsonTokens.QuotedString: decode with `Unescape`.
- JsonTokens.QuotedStringReadsEscaped: reads back through the intended decoding only.
- JsonTokens.QuotedCharAt and JsonTokens.QuotedCharParse: decode with `Unescape`.
- JsonCollections.MapRound and JsonCollections.MapRoundParse: keys are decoded with `Unescape`.
- JsonAny.AnyAt and JsonAny.AnyValueParse: strings and keys are decoded with `Unescape`.
- RoundTrips.QuoteReadsBack: the round trip holds with the intended decoding only.
- RoundTrips.MapReadsBack: its keys read back with the intended decoding only.
- AnyRoundTrips.StringReadsBack: the round trip holds with the intended decoding only.
- AnyRoundTrips.Write: `json/Serializers` has no boolean overload, so no serializer of the
  library writes `true` or `false`. The model writes booleans as `String.valueOf(boolean)`
  would. `AnyRoundTrips.BoolReadsBack` and the boolean case of `AnyRoundTrips.WriteReadsBack`
  read back text only this supplied writer produces.
- AnyRoundTrips.WriteReadsBack: strings and keys read back with the intended decoding only.
- AnyRoundTrips.WriteReadsBack: holds only for values that `any()` can produce: maps with
  distinct keys and finite numbers written as accepted literals.
- RoundTrips.CollectionReadsBack: holds only for lists; a `Set` iterates in an order the model
  does not fix.
- Serializers.SerializeBoxed: states only the null case. A present box is written as its
  primitive, which `RoundTrips.WholeReadsBack` covers.
- A null `Optional` or a null serializer function passed to the serializers throws in Java. This
  is not modelled: `Option` stands for a null reference only where the source writes `null`.
- JsonReader.Latin1: the reader's bytes are decoded one byte per character. `readString`'s UTF-8
  decoding of non-ASCII bytes is not modelled, and strings are returned as raw bytes.
- JsonReader.AnyAt: an `ArrayIndexOutOfBoundsException` from `current()` past the input is the
  outcome `Crash`. A loop that never ends is the outcome `Diverge`: the model detects the repeated
  index of `readArray` instead of running forever.
- `Character.isWhitespace` is modelled by its explicit list of code points, not Java's Unicode
  tables.
- Annotation processing, the generated code, the benchmarks, the build files and
  `DateTimeSerializers` are outside the runtime core and are not part of this model.
- The earlier copies of the parsers in `barista-serde/src/main/java/barista/serde/runtime/parsec/`
  and of the `barista-serde` json package are not part of this model. Only `BooleanParser`,
  `NullParser` and `QuotedCharParser` are included, because the `barista-serde-json` parsers call
  them.

## Findings

| source | as written | input that shows it | evidently intended | confidence | as-written member | corrected member |
|---|---|---|---|---|---|---|
| barista-serde-json/src/main/java/barista/serde/runtime/json/JsonStrings.java:12-19 | The switch on the escape letter dispatches on `next`, read before the index moves, which is always the backslash. Each backslash and the character after it therefore become a lone backslash, and the next character is kept without being looked at. | `\n` decodes to `\`; the quoted string `"\"test\""` reads `\test\`; `\n\n` decodes to `\\n` (`JsonStrings.SplitDecodingKeepsNext`); the serialized `a"b` reads back as `a\b` (`RoundTrips.QuoteAsWrittenExample`) | `\n` decodes to a line feed and `\"` to a quote, as the tests expect | not executed | JsonStrings.SplitDecodingCounterexamples | JsonStrings.UnescapeEscaped |
| barista-serde/src/main/java/barista/serde/runtime/JsonStrings.java:11-56 | Each branch moves the index just past the escape, and the loop's own `i++` then steps over the character there. That character is never looked at as a backslash. | `\n\n` decodes to a line feed followed by `\n`; `\\\\` runs past the end | every escape is decoded, so `\n\n` gives two line feeds | not executed | JsonStrings.LegacyDecodingCounterexamples | JsonStrings.UnescapeEscaped |
