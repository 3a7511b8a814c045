/** The token parsers of the JSON grammar: the value-boundary scan shared by the number
    parsers, the key/value separator, quoted strings and single characters, booleans, null and
    the optional wrapper.

    Each parser is a specification function over (text, index), the parser value built from it,
    and an imperative method that drives the shared cursor as the Java `parse` does. */
module JsonTokens {
  import opened Text
  import opened ParseErrors
  import opened ParseStates
  import opened Parsers
  import opened JsonStrings

  // The value boundary and the scan to it.

  /** `JsonParsers.isValueBoundary`: whitespace, a bracket, a brace, a comma, or EOS. */
  predicate IsValueBoundary(c: int) {
    || IsWhitespace(c)
    || c == Code('[') || c == Code(']') || c == Code('{') || c == Code('}') || c == Code(',')
    || c == EOS
  }

  /** Where the scan of the number parsers stops when started at index i. */
  function ScanEnd(s: string, i: nat): nat
    decreases |s| - i
  {
    if IsValueBoundary(Peek(s, i)) then i else ScanEnd(s, i + 1)
  }

  /** The scan stops at the first boundary at or after i (at the latest at the end of the
      text), and every character it passes is part of the token. */
  lemma {:induction false} ScanEndStops(s: string, i: nat)
    ensures var j := ScanEnd(s, i);
      && i <= j
      && (i <= |s| ==> j <= |s|)
      && (i >= |s| ==> j == i)
      && (forall k :: i <= k < j ==> !IsValueBoundary(Code(s[k])))
      && IsValueBoundary(Peek(s, j))
    decreases |s| - i
  {
    if !IsValueBoundary(Peek(s, i)) {
      ScanEndStops(s, i + 1);
    }
  }

  /** The scan loop of `WholeNumberParser`, `DoubleParser` and `FloatParser`. */
  method ScanToBoundary(c: Cursor)
    modifies c
    ensures c.index == ScanEnd(c.text, old(c.index))
  {
    var current := c.Current();
    while !IsValueBoundary(current)
      invariant current == c.Current()
      invariant ScanEnd(c.text, c.index) == ScanEnd(c.text, old(c.index))
      decreases |c.text| - c.index
    {
      current := c.Next();
    }
  }

  /** The token a scan from i to j examines: `slice(mark)`, which throws when the cursor
      started past the end of the text. */
  function Token(s: string, i: nat, j: nat): (r: Option<string>)
    requires i <= j
    ensures r.Some? <==> j <= |s|
    ensures r.Some? ==> r.value == s[i..j]
  {
    if j <= |s| then Some(s[i..j]) else None
  }

  // The key/value separator.

  function ToEmpty<T>(x: T): Empty {
    Empty
  }

  function KeyValueSeparatorAt(s: string, i: nat): (r: Step<Empty>)
    ensures i <= r.pos && (i <= |s| ==> r.pos <= |s|)
  {
    var colon := ExpectCharAt(':', s, SkipWs(s, i));
    Step(MapResult(colon.result, ToEmpty), SkipWs(s, colon.pos))
  }

  const KeyValueSeparator: Parser<Empty> := (s: string, i: nat) => KeyValueSeparatorAt(s, i)

  /** `KeyValueSeparatorParser.parse`: whitespace, `:`, whitespace. */
  method KeyValueSeparatorParse(c: Cursor) returns (r: Result<Empty>)
    modifies c
    ensures Step(r, c.index) == KeyValueSeparatorAt(c.text, old(c.index))
  {
    c.SkipWhitespace();
    var colon := ExpectCharParse(c, ':');
    c.SkipWhitespace();
    r := MapResult(colon, ToEmpty);
  }

  /** The separator succeeds exactly when the first non-whitespace character is `:`, and then
      consumes the whitespace on both sides of it. Otherwise it fails there with "Expected to
      find ':'", and the second whitespace skip moves nothing. */
  lemma KeyValueSeparatorOutcome(s: string, i: nat)
    ensures var j := SkipWs(s, i);
      var step := KeyValueSeparator(s, i);
      && (step.result.Ok? <==> j < |s| && s[j] == ':')
      && (step.result.Ok? ==> step == Step(Ok(Empty), SkipWs(s, j + 1)))
      && (!step.result.Ok? ==> step == Step(Err(ParseError(j, j, s, ExpectMessage(":"))), j))
  {
    var j := SkipWs(s, i);
    SkipWsIdempotent(s, i);
    ExpectCharOutcome(':', s, j);
    SkipWsStops(s, j);
  }

  lemma KeyValueSeparatorIsBounded()
    ensures Monotone(KeyValueSeparator) && Bounded(KeyValueSeparator)
  {
    forall s: string, i: nat
      ensures KeyValueSeparator(s, i).pos >= i
      ensures i <= |s| ==> KeyValueSeparator(s, i).pos <= |s|
    {
      var j := SkipWs(s, i);
      SkipWsStops(s, i);
      KeyValueSeparatorOutcome(s, i);
      if j < |s| && s[j] == ':' {
        SkipWsStops(s, j + 1);
      }
    }
  }

  /** The separators the parser tests accept: all the whitespace around the colon is consumed. */
  lemma KeyValueSeparatorAccepts()
    ensures KeyValueSeparator(":", 0) == Step(Ok(Empty), 1)
    ensures KeyValueSeparator("   :", 0) == Step(Ok(Empty), 4)
    ensures KeyValueSeparator(":   ", 0) == Step(Ok(Empty), 4)
    ensures KeyValueSeparator(" : ", 0) == Step(Ok(Empty), 3)
  {
    KeyValueSeparatorOutcome(":", 0);
    KeyValueSeparatorOutcome("   :", 0);
    KeyValueSeparatorOutcome(":   ", 0);
    KeyValueSeparatorOutcome(" : ", 0);
  }

  /** The separators the parser tests reject, with the span each error covers. */
  lemma KeyValueSeparatorRejects()
    ensures KeyValueSeparator("x", 0) == Step(Err(ParseError(0, 0, "x", "Expected to find ':'")), 0)
    ensures KeyValueSeparator("", 0) == Step(Err(ParseError(0, 0, "", "Expected to find ':'")), 0)
    ensures KeyValueSeparator(" ", 0) == Step(Err(ParseError(1, 1, " ", "Expected to find ':'")), 1)
  {
    KeyValueSeparatorOutcome("x", 0);
    KeyValueSeparatorOutcome("", 0);
    KeyValueSeparatorOutcome(" ", 0);
  }

  // Quoted strings.

  const NoQuote := "Expected a quoted string and did not find a quote"
  const NoTerminalQuote := "Reached end of stream looking for terminal quote"

  /** Where the scan for the closing quote stops, at index k with the escape flag `escaped`:
      at the first quote seen with the flag clear, or at the end of the text. */
  function CloseFrom(s: string, k: nat, escaped: bool): (e: nat)
    ensures k <= e && (k <= |s| ==> e <= |s|)
    decreases |s| - k
  {
    if k >= |s| then k
    else if !escaped && s[k] == '"' then k
    else CloseFrom(s, k + 1, if escaped then false else s[k] == '\\')
  }

  /** `QuotedStringParser.parse` with the decoder `decode` standing for `JsonStrings.unescape`:
      a quote, the text up to the closing quote, decoded, and the cursor one past the closing
      quote. A decoder exception escapes with the cursor on the closing quote. */
  function QuotedAt(decode: string -> Unescaped, s: string, i: nat): (r: Step<string>)
    ensures i <= r.pos && (i <= |s| ==> r.pos <= |s|)
  {
    if Peek(s, i) != Code('"') then Step(Err(ParseError(i, i, s, NoQuote)), i)
    else
      var k := CloseFrom(s, i + 1, false);
      if k == |s| then Step(Err(ParseError(i + 1, k, s, NoTerminalQuote)), k)
      else match decode(s[i + 1..k])
        case Unescaped(v) => Step(Ok(v), k + 1)
        case Throws(x) => Step(Thrown(x), k)
  }

  /** The string parser of the grammar, decoding with the intended `Unescape`. */
  function QuotedStringAt(s: string, i: nat): Step<string> {
    QuotedAt(Unescape, s, i)
  }

  const QuotedString: Parser<string> := (s: string, i: nat) => QuotedStringAt(s, i)

  /** The string parser as written: the decoder it calls is the split copy of `unescape`. */
  const QuotedStringAsWritten: Parser<string> := (s: string, i: nat) => QuotedAt(SplitDecoding, s, i)

  /** `QuotedStringParser.parse`. */
  method QuotedStringParse(c: Cursor, decode: string -> Unescaped) returns (r: Result<string>)
    modifies c
    ensures Step(r, c.index) == QuotedAt(decode, c.text, old(c.index))
  {
    if c.Current() != Code('"') {
      return Err(c.Error(c.MarkHere(), NoQuote));
    }
    var current := c.Next();
    var start := c.MarkHere();
    var escaped := false;
    while current != EOS
      invariant start.markIndex <= c.index <= |c.text|
      invariant current == c.Current()
      invariant CloseFrom(c.text, c.index, escaped) == CloseFrom(c.text, start.markIndex, false)
      decreases |c.text| - c.index
    {
      if !escaped {
        if current == Code('\\') {
          escaped := true;
        } else if current == Code('"') {
          break;
        }
      } else {
        escaped := false;
      }
      current := c.Next();
    }
    if c.IsEndOfStream() {
      return Err(c.Error(start, NoTerminalQuote));
    }
    var decoded := decode(c.Slice(start));
    if decoded.Throws? {
      return Thrown(decoded.exception);
    }
    r := Ok(decoded.value);
    var _ := c.Next();
  }

  /** The number of backslashes immediately before index m, not looking before lo. */
  function BackslashesBefore(s: string, lo: nat, m: nat): nat
    requires lo <= m <= |s|
    decreases m - lo
  {
    if m > lo && s[m - 1] == '\\' then BackslashesBefore(s, lo, m - 1) + 1 else 0
  }

  /** The escape flag at index k is the parity of the backslash run before k, and the scan
      stops at the first quote preceded by an even run. */
  lemma {:induction false} CloseFromFirstUnescaped(s: string, lo: nat, k: nat, escaped: bool)
    requires lo <= k <= |s|
    requires escaped == (BackslashesBefore(s, lo, k) % 2 == 1)
    requires forall m :: lo <= m < k && s[m] == '"' ==> BackslashesBefore(s, lo, m) % 2 == 1
    ensures var e := CloseFrom(s, k, escaped);
      && k <= e <= |s|
      && (e < |s| ==> s[e] == '"' && BackslashesBefore(s, lo, e) % 2 == 0)
      && (forall m :: lo <= m < e && s[m] == '"' ==> BackslashesBefore(s, lo, m) % 2 == 1)
    decreases |s| - k
  {
    if k < |s| && (escaped || s[k] != '"') {
      var run := BackslashesBefore(s, lo, k);
      var next := if escaped then false else s[k] == '\\';
      assert BackslashesBefore(s, lo, k + 1) == if s[k] == '\\' then run + 1 else 0;
      assert next == (BackslashesBefore(s, lo, k + 1) % 2 == 1);
      assert s[k] == '"' ==> run % 2 == 1;
      assert CloseFrom(s, k, escaped) == CloseFrom(s, k + 1, next);
      CloseFromFirstUnescaped(s, lo, k + 1, next);
    }
  }

  /** The closing quote is the first quote after the opening one that is preceded by an even
      run of backslashes; without one, the parser fails with an error spanning from just after
      the opening quote to the end of the text. On success the value is the decoding of the
      text between the quotes and the cursor is one past the closing quote. */
  lemma QuotedStringTerminator(decode: string -> Unescaped, s: string, i: nat)
    requires i < |s| && s[i] == '"'
    ensures var step := QuotedAt(decode, s, i);
      var k := CloseFrom(s, i + 1, false);
      && i + 1 <= k <= |s|
      && (forall m :: i + 1 <= m < k && s[m] == '"' ==> BackslashesBefore(s, i + 1, m) % 2 == 1)
      && (k < |s| ==> s[k] == '"' && BackslashesBefore(s, i + 1, k) % 2 == 0)
      && (k == |s| ==> step == Step(Err(ParseError(i + 1, |s|, s, NoTerminalQuote)), |s|))
      && (k < |s| && decode(s[i + 1..k]).Unescaped? ==>
            step == Step(Ok(decode(s[i + 1..k]).value), k + 1))
      && (k < |s| && decode(s[i + 1..k]).Throws? ==>
            step == Step(Thrown(decode(s[i + 1..k]).exception), k))
  {
    CloseFromFirstUnescaped(s, i + 1, i + 1, false);
  }

  /** Without an opening quote the parser fails where it stands and consumes nothing; it does
      not skip whitespace. */
  lemma QuotedStringNeedsQuote(decode: string -> Unescaped, s: string, i: nat)
    requires !(i < |s| && s[i] == '"')
    ensures QuotedAt(decode, s, i) == Step(Err(ParseError(i, i, s, NoQuote)), i)
  {
  }

  lemma QuotedIsBounded(decode: string -> Unescaped)
    ensures var p := (s: string, i: nat) => QuotedAt(decode, s, i);
      Monotone(p) && Bounded(p)
  {
    forall s: string, i: nat
      ensures QuotedAt(decode, s, i).pos >= i
      ensures i <= |s| ==> QuotedAt(decode, s, i).pos <= |s|
    {
      if i < |s| && s[i] == '"' {
        QuotedStringTerminator(decode, s, i);
      }
    }
  }

  lemma QuotedStringIsBounded()
    ensures Monotone(QuotedString) && Bounded(QuotedString)
  {
    QuotedIsBounded(Unescape);
    assert forall s: string, i: nat :: QuotedString(s, i) == QuotedAt(Unescape, s, i);
  }

  /** The string parser tests: a plain string, escaped quotes, a missing opening quote and a
      missing closing quote. */
  lemma QuotedStringPlain()
    ensures QuotedString("\"test\"", 0) == Step(Ok("test"), 6)
    ensures QuotedString("test", 0) == Step(Err(ParseError(0, 0, "test", NoQuote)), 0)
    ensures QuotedString("\"test", 0) == Step(Err(ParseError(1, 5, "\"test", NoTerminalQuote)), 5)
  {
    assert CloseFrom("\"test\"", 1, false) == 5;
    assert "\"test\""[1..5] == "test";
    NoBackslashUnchanged("test", 0);
    assert "test"[0..] == "test";
  }

  /** Escaped quotes between the quotes: the intended decoding gives the quotes back, the one
      the parser calls as written gives backslashes. */
  lemma QuotedStringEscapedQuotes()
    ensures QuotedString("\"\\\"test\\\"\"", 0) == Step(Ok("\"test\""), 10)
    ensures QuotedStringAsWritten("\"\\\"test\\\"\"", 0) == Step(Ok("\\test\\"), 10)
  {
    EscapedQuotesAt("\"\\\"test\\\"\"");
  }

  /** The text of the escaped-quotes example, as a variable. */
  lemma EscapedQuotesAt(s: string)
    requires s == "\"\\\"test\\\"\""
    ensures QuotedString(s, 0) == Step(Ok("\"test\""), 10)
    ensures QuotedStringAsWritten(s, 0) == Step(Ok("\\test\\"), 10)
  {
    assert CloseFrom(s, 1, false) == 9 by {
      CloseFromSkipsPlain(s, 3, 7);
      assert CloseFrom(s, 1, false) == CloseFrom(s, 3, false);
      assert CloseFrom(s, 7, false) == CloseFrom(s, 9, false);
    }
    assert s[1..9] == "\\\"test\\\"";
    SplitDecodingCounterexamples();
  }

  /** A replacement is a backslash, one more character, then only characters that are neither
      a quote nor a backslash; a kept character is neither. */
  lemma EscapeCharQuoting(c: char)
    ensures var e := EscapeChar(c);
      && (e == [c] ==> c != '"' && c != '\\')
      && (e != [c] ==> |e| >= 2 && e[0] == '\\' && forall k :: 2 <= k < |e| ==> e[k] != '"' && e[k] != '\\')
  {
    EscapeCharShape(c);
    if (c as int) < 0x20 && c != Backspace && c != FormFeed && c != '\n' && c != '\r' && c != '\t' {
      ControlEscape(c);
    }
  }

  /** The closing-quote scan passes over characters that are neither a quote nor a backslash. */
  lemma {:induction false} CloseFromSkipsPlain(s: string, k: nat, e: nat)
    requires k <= e <= |s|
    requires forall m :: k <= m < e ==> s[m] != '"' && s[m] != '\\'
    ensures CloseFrom(s, k, false) == CloseFrom(s, e, false)
    decreases e - k
  {
    if k < e {
      CloseFromSkipsPlain(s, k + 1, e);
    }
  }

  /** The closing-quote scan passes over one escaped character. */
  lemma CloseFromSkipsEscapeChar(s: string, k: nat, c: char)
    requires k + |EscapeChar(c)| <= |s| && s[k..k + |EscapeChar(c)|] == EscapeChar(c)
    ensures CloseFrom(s, k, false) == CloseFrom(s, k + |EscapeChar(c)|, false)
  {
    var e := EscapeChar(c);
    EscapeCharQuoting(c);
    assert forall m :: 0 <= m < |e| ==> s[k + m] == e[m] by {
      forall m | 0 <= m < |e| ensures s[k + m] == e[m] {
        assert s[k..k + |e|][m] == s[k + m];
      }
    }
    if e != [c] {
      assert s[k] == '\\';
      assert CloseFrom(s, k, false) == CloseFrom(s, k + 2, false);
      forall m | k + 2 <= m < k + |e| ensures s[m] != '"' && s[m] != '\\' {
        assert s[m] == e[m - k];
      }
      CloseFromSkipsPlain(s, k + 2, k + |e|);
    }
  }

  /** The closing-quote scan passes over a whole escaped string. */
  lemma {:induction false} CloseFromSkipsEscaped(s: string, k: nat, x: string)
    requires k + |Escaped(x)| <= |s| && s[k..k + |Escaped(x)|] == Escaped(x)
    ensures CloseFrom(s, k, false) == CloseFrom(s, k + |Escaped(x)|, false)
    decreases |x|
  {
    if x != [] {
      var c, rest := x[0], x[1..];
      assert x == [c] + rest;
      EscapedCons(c, rest);
      SliceSplit(s, k, EscapeChar(c), Escaped(rest));
      CloseFromSkipsEscapeChar(s, k, c);
      CloseFromSkipsEscaped(s, k + |EscapeChar(c)|, rest);
    }
  }

  lemma SliceSplit(s: string, k: nat, a: string, b: string)
    requires k + |a| + |b| <= |s| && s[k..k + |a| + |b|] == a + b
    ensures s[k..k + |a|] == a && s[k + |a|..k + |a| + |b|] == b
  {
    assert s[k..k + |a|] == (a + b)[..|a|];
    assert s[k + |a|..k + |a| + |b|] == (a + b)[|a|..];
  }

  /** What the serializer writes for a string, a quote, the escaped text and a quote, reads
      back as the string, with the cursor right after the closing quote. */
  lemma QuotedStringReadsEscaped(s: string, i: nat, x: string)
    requires i + |Escaped(x)| + 2 <= |s|
    requires s[i] == '"' && s[i + 1..i + 1 + |Escaped(x)|] == Escaped(x) && s[i + 1 + |Escaped(x)|] == '"'
    ensures QuotedString(s, i) == Step(Ok(x), i + |Escaped(x)| + 2)
  {
    CloseFromSkipsEscaped(s, i + 1, x);
    UnescapeEscaped(x);
  }

  // Single characters.

  const NotSingle := "Expected a single character"

  /** `QuotedCharParser.parse` over a string parser: a decoded string of length one gives its
      character; any other length fails from the mark at the opening quote to where the string
      parser stopped. */
  function QuotedCharWith(str: Parser<string>, s: string, i: nat): Step<char> {
    var step := str(s, i);
    match step.result
    case Ok(v) =>
      if |v| != 1 then Step(Err(ParseError(i, step.pos, s, NotSingle)), step.pos)
      else Step(Ok(v[0]), step.pos)
    case Err(e) => Step(Err(e), step.pos)
    case Thrown(x) => Step(Thrown(x), step.pos)
  }

  function QuotedCharAt(s: string, i: nat): Step<char> {
    QuotedCharWith(QuotedString, s, i)
  }

  const QuotedChar: Parser<char> := (s: string, i: nat) => QuotedCharAt(s, i)

  /** `QuotedCharParser.parse`. */
  method QuotedCharParse(c: Cursor) returns (r: Result<char>)
    modifies c
    ensures Step(r, c.index) == QuotedCharAt(c.text, old(c.index))
  {
    var start := c.MarkHere();
    var str := QuotedStringParse(c, Unescape);
    match str
    case Ok(v) =>
      if |v| != 1 {
        r := Err(c.Error(start, NotSingle));
      } else {
        r := Ok(v[0]);
      }
    case Err(e) => r := Err(e);
    case Thrown(x) => r := Thrown(x);
  }

  /** The character is checked after decoding, a string error is returned unchanged, and the
      cursor moves exactly as the string parser moves it. */
  lemma QuotedCharOutcome(s: string, i: nat)
    ensures var step := QuotedChar(s, i);
      var str := QuotedString(s, i);
      && step.pos == str.pos
      && (step.result.Ok? <==> str.result.Ok? && |str.result.value| == 1)
      && (step.result.Ok? ==> step.result.value == str.result.value[0])
      && (str.result.Ok? && |str.result.value| != 1 ==>
            step.result == Err(ParseError(i, str.pos, s, NotSingle)))
      && (str.result.Err? ==> step.result == Err(str.result.error))
  {
  }

  lemma QuotedCharIsBounded()
    ensures Monotone(QuotedChar) && Bounded(QuotedChar)
  {
    QuotedStringIsBounded();
    forall s: string, i: nat
      ensures QuotedChar(s, i).pos == QuotedString(s, i).pos
    {
    }
  }

  /** The character parser tests: `"a"`, an escaped line feed, and the empty and two-character
      strings, which fail from the opening quote to past the closing one. */
  lemma QuotedCharExamples()
    ensures QuotedChar("\"a\"", 0) == Step(Ok('a'), 3)
    ensures QuotedChar("\"\\n\"", 0) == Step(Ok('\n'), 4)
    ensures QuotedChar("\"\"", 0) == Step(Err(ParseError(0, 2, "\"\"", NotSingle)), 2)
    ensures QuotedChar("\"ab\"", 0) == Step(Err(ParseError(0, 4, "\"ab\"", NotSingle)), 4)
  {
    assert CloseFrom("\"a\"", 1, false) == 2;
    assert "\"a\""[1..2] == "a";
    NoBackslashUnchanged("a", 0);
    assert "a"[0..] == "a";
    assert CloseFrom("\"\\n\"", 1, false) == 3;
    assert "\"\\n\""[1..3] == "\\n";
    SplitDecodingCounterexamples();
    assert CloseFrom("\"\"", 1, false) == 1;
    assert "\"\""[1..1] == "";
    assert CloseFrom("\"ab\"", 1, false) == 3;
    assert "\"ab\""[1..3] == "ab";
    NoBackslashUnchanged("ab", 0);
    assert "ab"[0..] == "ab";
  }

  /** As written, the escaped line feed of the character test decodes to a backslash. */
  lemma QuotedCharAsWrittenExample()
    ensures QuotedCharWith(QuotedStringAsWritten, "\"\\n\"", 0) == Step(Ok('\\'), 4)
  {
    assert CloseFrom("\"\\n\"", 1, false) == 3;
    assert "\"\\n\""[1..3] == "\\n";
    SplitDecodingCounterexamples();
  }

  // Booleans.

  const NotBoolean := "Expected value 'true' or 'false'"

  function ToTrue(x: string): bool {
    true
  }

  function ToFalse(x: string): bool {
    false
  }

  /** `BooleanParser.TRUE` and `BooleanParser.FALSE`. */
  const TrueLiteral: Parser<bool> := ComposeResult(ExpectString("true"), ToTrue)
  const FalseLiteral: Parser<bool> := ComposeResult(ExpectString("false"), ToFalse)

  function BooleanAt(s: string, i: nat): Step<bool> {
    var current := Peek(s, i);
    if current == Code('t') then TrueLiteral(s, i)
    else if current == Code('f') then FalseLiteral(s, i)
    else Step(Err(ParseError(i, i, s, NotBoolean)), i)
  }

  const Boolean: Parser<bool> := (s: string, i: nat) => BooleanAt(s, i)

  /** `BooleanParser.parse`. */
  method BooleanParse(c: Cursor) returns (r: Result<bool>)
    modifies c
    ensures Step(r, c.index) == BooleanAt(c.text, old(c.index))
  {
    var current := c.Current();
    if current == Code('t') {
      r := c.Run(TrueLiteral);
    } else if current == Code('f') {
      r := c.Run(FalseLiteral);
    } else {
      r := Err(c.Error(c.MarkHere(), NotBoolean));
    }
  }

  /** `true` and `false` are recognised exactly, consuming four or five characters and no
      whitespace; a token starting with `t` or `f` that is not the literal fails with that
      literal's expectation, anchored where it starts; anything else fails where it stands and
      consumes nothing. */
  lemma BooleanOutcome(s: string, i: nat)
    requires i <= |s|
    ensures var step := Boolean(s, i);
      && (step.result == Ok(true) <==> i + 4 <= |s| && s[i..i + 4] == "true")
      && (step.result == Ok(false) <==> i + 5 <= |s| && s[i..i + 5] == "false")
      && (step.result == Ok(true) ==> step.pos == i + 4)
      && (step.result == Ok(false) ==> step.pos == i + 5)
      && (!step.result.Ok? ==> step.result.Err? && step.result.error.markIndex == i)
      && (i < |s| && s[i] == 't' && !step.result.Ok? ==>
            step.result.error.message == ExpectMessage("true"))
      && (i < |s| && s[i] == 'f' && !step.result.Ok? ==>
            step.result.error.message == ExpectMessage("false"))
      && (!(i < |s| && (s[i] == 't' || s[i] == 'f')) ==>
            step == Step(Err(ParseError(i, i, s, NotBoolean)), i))
  {
    ExpectStringOutcome("true", s, i);
    ExpectStringOutcome("false", s, i);
    if i + 4 <= |s| && s[i..i + 4] == "true" {
      assert s[i] == 't';
    }
    if i + 5 <= |s| && s[i..i + 5] == "false" {
      assert s[i] == 'f';
    }
  }

  lemma BooleanIsBounded()
    ensures Monotone(Boolean) && Bounded(Boolean)
  {
    ExpectStringIsBounded("true");
    ExpectStringIsBounded("false");
    forall s: string, i: nat
      ensures Boolean(s, i).pos >= i
      ensures i <= |s| ==> Boolean(s, i).pos <= |s|
    {
      assert ExpectString("true")(s, i).pos >= i;
      assert ExpectString("false")(s, i).pos >= i;
    }
  }

  /** The boolean parser tests. */
  lemma BooleanExamples()
    ensures Boolean("true", 0) == Step(Ok(true), 4)
    ensures Boolean("false", 0) == Step(Ok(false), 5)
    ensures Boolean("null", 0) == Step(Err(ParseError(0, 0, "null", NotBoolean)), 0)
    ensures Boolean("\"true\"", 0) == Step(Err(ParseError(0, 0, "\"true\"", NotBoolean)), 0)
  {
    BooleanOutcome("true", 0);
    assert "true"[0..4] == "true";
    BooleanOutcome("false", 0);
    assert "false"[0..5] == "false";
  }

  // Null.

  /** `NullParser.NULL`. */
  const NullLiteral: Parser<string> := ExpectString("null")

  function NullAt(s: string, i: nat): Step<Empty> {
    var literal := NullLiteral(s, i);
    Step(MapResult(literal.result, ToEmpty), literal.pos)
  }

  const Null: Parser<Empty> := (s: string, i: nat) => NullAt(s, i)

  /** `NullParser.parse`. */
  method NullParse(c: Cursor) returns (r: Result<Empty>)
    modifies c
    ensures Step(r, c.index) == NullAt(c.text, old(c.index))
  {
    var literal := c.Run(NullLiteral);
    r := MapResult(literal, ToEmpty);
  }

  /** `null` is recognised exactly, consuming four characters and no whitespace; otherwise
      the error is "Expected to find 'null'" from i to the first mismatch. */
  lemma NullOutcome(s: string, i: nat)
    requires i <= |s|
    ensures var step := Null(s, i);
      && (step.result.Ok? <==> i + 4 <= |s| && s[i..i + 4] == "null")
      && (step.result.Ok? ==> step == Step(Ok(Empty), i + 4))
      && (!step.result.Ok? ==>
            && step.result == Err(ParseError(i, step.pos, s, ExpectMessage("null")))
            && i <= step.pos < i + 4)
  {
    ExpectStringOutcome("null", s, i);
  }

  lemma NullIsBounded()
    ensures Monotone(Null) && Bounded(Null)
  {
    ExpectStringIsBounded("null");
    forall s: string, i: nat
      ensures Null(s, i).pos == ExpectString("null")(s, i).pos
    {
    }
  }

  /** The null parser tests: `null`, and `notnull`, which fails at its second character. */
  lemma NullExamples()
    ensures Null("null", 0) == Step(Ok(Empty), 4)
    ensures Null("notnull", 0) == Step(Err(ParseError(0, 1, "notnull", "Expected to find 'null'")), 1)
  {
    NullOutcome("null", 0);
    assert "null"[0..4] == "null";
    NullOutcome("notnull", 0);
    assert "notnull"[0..1] == "n";
  }

  // Optional values.

  /** `OptionalParser.parse`: unless the current character is `n`, the inner parser's result
      mapped through `fn`; on `n`, only the null parser runs and success gives the default.
      No whitespace is skipped before the peek. */
  function OptionalAt<T, U>(p: Parser<T>, fn: T -> U, default: U, s: string, i: nat): Step<U> {
    if Peek(s, i) != Code('n') then ComposeResultAt(p, fn, s, i)
    else
      var nullStep := NullAt(s, i);
      if !nullStep.result.Ok? then Step(Coerce(nullStep.result), nullStep.pos)
      else Step(Ok(default), nullStep.pos)
  }

  function Present<T>(x: T): Option<T> {
    Some(x)
  }

  /** `OptionalParser.of(p)`: present values and `Optional.empty()`. */
  function Optional<T>(p: Parser<T>): Parser<Option<T>> {
    (s: string, i: nat) => OptionalAt(p, Present, None, s, i)
  }

  /** `OptionalParser.parse`. */
  method OptionalParse<T, U>(c: Cursor, p: Parser<T>, fn: T -> U, default: U) returns (r: Result<U>)
    modifies c
    ensures Step(r, c.index) == OptionalAt(p, fn, default, c.text, old(c.index))
  {
    if c.Current() != Code('n') {
      var inner := c.Run(p);
      return MapResult(inner, fn);
    }
    var nullResult := NullParse(c);
    if !nullResult.Ok? {
      return Coerce(nullResult);
    }
    r := Ok(default);
  }

  /** Away from `n` the optional parser is the inner parser with its value wrapped; at `n`
      the inner parser is never consulted: `null` gives the default and anything else the
      null parser's error. */
  lemma OptionalOutcome<T, U>(p: Parser<T>, fn: T -> U, default: U, s: string, i: nat)
    requires i <= |s|
    ensures var step := OptionalAt(p, fn, default, s, i);
      && (!(i < |s| && s[i] == 'n') ==> step == ComposeResultAt(p, fn, s, i))
      && (i < |s| && s[i] == 'n' && i + 4 <= |s| && s[i..i + 4] == "null" ==>
            step == Step(Ok(default), i + 4))
      && (i < |s| && s[i] == 'n' && !(i + 4 <= |s| && s[i..i + 4] == "null") ==>
            step == Step(Err(Null(s, i).result.error), Null(s, i).pos))
  {
    NullOutcome(s, i);
  }

  /** Whatever the inner parser is, `null` gives the empty optional, and a nested optional
      gives the outer empty for `null` and a doubly present value otherwise. */
  lemma OptionalOnNull<T>(p: Parser<T>, s: string)
    requires |s| >= 4 && s[..4] == "null"
    ensures Optional(p)(s, 0) == Step(Ok(None), 4)
    ensures Optional(Optional(p))(s, 0) == Step(Ok(None), 4)
  {
    OptionalOutcome(p, Present, None, s, 0);
    assert s[0..4] == s[..4];
    OptionalOutcome(Optional(p), Present, None, s, 0);
  }

  lemma OptionalNested<T>(p: Parser<T>, s: string, i: nat)
    requires i <= |s| && !(i < |s| && s[i] == 'n')
    ensures var inner := p(s, i);
      && (inner.result.Ok? ==>
            Optional(Optional(p))(s, i) == Step(Ok(Some(Some(inner.result.value))), inner.pos))
      && (inner.result.Err? ==>
            Optional(Optional(p))(s, i) == Step(Err(inner.result.error), inner.pos))
  {
    OptionalOutcome(p, Present, None, s, i);
    OptionalOutcome(Optional(p), Present, None, s, i);
  }

  lemma OptionalPreserves<T, U>(p: Parser<T>, fn: T -> U, default: U)
    ensures var q := (s: string, i: nat) => OptionalAt(p, fn, default, s, i);
      && (Monotone(p) ==> Monotone(q))
      && (Bounded(p) ==> Bounded(q))
  {
    NullIsBounded();
    forall s: string, i: nat
      ensures Null(s, i).pos >= i && (i <= |s| ==> Null(s, i).pos <= |s|)
    {
    }
  }

  /** The optional parser tests on strings: a present string, and an error from the inner
      parser propagated unchanged through one and two optional layers. */
  lemma OptionalExamples()
    ensures Optional(QuotedString)("\"test\"", 0) == Step(Ok(Some("test")), 6)
    ensures Optional(Optional(QuotedString))("\"test\"", 0) == Step(Ok(Some(Some("test"))), 6)
    ensures Optional(QuotedString)("0", 0) == Step(Err(ParseError(0, 0, "0", NoQuote)), 0)
    ensures Optional(Optional(QuotedString))("0", 0) == Step(Err(ParseError(0, 0, "0", NoQuote)), 0)
    ensures Optional(QuotedString)("null", 0) == Step(Ok(None), 4)
    ensures Optional(Fail<int>("fail"))("null", 0) == Step(Ok(None), 4)
  {
    QuotedStringPlain();
    OptionalNested(QuotedString, "\"test\"", 0);
    OptionalOutcome(QuotedString, Present, None, "\"test\"", 0);
    OptionalNested(QuotedString, "0", 0);
    OptionalOutcome(QuotedString, Present, None, "0", 0);
    OptionalOnNull(QuotedString, "null");
    OptionalOnNull(Fail<int>("fail"), "null");
  }
}
