/** The number parsers: `WholeNumberParser` for the four Java integer widths, and
    `DoubleParser`/`FloatParser`, which differ only in their error message.

    All three scan from the cursor to the next value boundary and convert the token. The whole
    number conversion is modelled exactly (on ASCII digits). The floating-point conversion is
    modelled by which tokens it accepts; the value of an accepted finite token is kept as its
    text, standing for the nearest double or float, which is not modelled. */
module JsonNumbers {
  import opened Text
  import opened ParseErrors
  import opened ParseStates
  import opened JsonStrings
  import opened JsonTokens

  // Whole numbers.

  /** The Java integer types of `WholeNumberParser.BYTE`, `SHORT`, `INT` and `LONG`. */
  datatype Width = Byte | Short | Int | Long

  /** The name each instance uses in its error message. */
  function WidthName(w: Width): string {
    match w
    case Byte => "byte"
    case Short => "short"
    case Int => "integer"
    case Long => "long"
  }

  function MinValue(w: Width): int {
    match w
    case Byte => -0x80
    case Short => -0x8000
    case Int => -0x8000_0000
    case Long => -0x8000_0000_0000_0000
  }

  function MaxValue(w: Width): int {
    -MinValue(w) - 1
  }

  /** `Byte.parseByte`, `Short.parseShort`, `Integer.parseInt` and `Long.parseLong`: an
      optional sign, then at least one digit, with the value inside the width; anything else
      throws `NumberFormatException` (None here). */
  function ParseWhole(w: Width, t: string): (r: Option<int>)
    ensures r.Some? ==> MinValue(w) <= r.value <= MaxValue(w)
  {
    if t == [] then None
    else
      var digits := if t[0] == '-' || t[0] == '+' then t[1..] else t;
      if digits == [] || !AllDigits(digits) then None
      else
        var v := if t[0] == '-' then -(DigitsValue(digits) as int) else DigitsValue(digits) as int;
        if MinValue(w) <= v <= MaxValue(w) then Some(v) else None
  }

  /** Every value of the width reads back from its decimal text. */
  lemma ParseWholeDecimal(w: Width, n: int)
    requires MinValue(w) <= n <= MaxValue(w)
    ensures ParseWhole(w, IntToDecimal(n)) == Some(n)
  {
    IntToDecimalShape(n);
  }

  /** What the conversion rejects: the empty token, a lone sign, a character other than a
      digit after the first position or other than a digit or sign at it, and a value outside
      the width. */
  lemma ParseWholeRejects(w: Width, t: string)
    ensures t == [] || t == "-" || t == "+" ==> ParseWhole(w, t) == None
    ensures (exists k :: 1 <= k < |t| && !IsDigit(t[k])) ==> ParseWhole(w, t) == None
    ensures |t| > 0 && !IsDigit(t[0]) && t[0] != '-' && t[0] != '+' ==> ParseWhole(w, t) == None
    ensures |t| > 0 && AllDigits(t) ==>
              (ParseWhole(w, t).Some? <==> DigitsValue(t) <= MaxValue(w))
  {
    if exists k :: 1 <= k < |t| && !IsDigit(t[k]) {
      var k :| 1 <= k < |t| && !IsDigit(t[k]);
      if t[0] == '-' || t[0] == '+' {
        assert t[1..][k - 1] == t[k];
      }
    }
  }

  /** The message of a token the conversion rejects, naming the target type. */
  function CannotParse(name: string): string {
    "Cannot parse " + name + " from value"
  }

  /** `WholeNumberParser.parse`: scan to the boundary, then convert the token; the cursor stays
      on the boundary whether or not the conversion succeeds. */
  function WholeNumberAt(w: Width, s: string, i: nat): Step<int> {
    var j := ScanEnd(s, i);
    ScanEndStops(s, i);
    match Token(s, i, j)
    case None => Step(Thrown(StringIndexOutOfBounds), j)
    case Some(t) =>
      match ParseWhole(w, t)
      case Some(v) => Step(Ok(v), j)
      case None => Step(Err(ParseError(i, j, s, CannotParse(WidthName(w)))), j)
  }

  function WholeNumber(w: Width): Parser<int> {
    (s: string, i: nat) => WholeNumberAt(w, s, i)
  }

  /** `WholeNumberParser.parse`. */
  method WholeNumberParse(c: Cursor, w: Width) returns (r: Result<int>)
    modifies c
    ensures Step(r, c.index) == WholeNumberAt(w, c.text, old(c.index))
  {
    var pos := c.MarkHere();
    ScanToBoundary(c);
    ScanEndStops(c.text, pos.markIndex);
    if c.index > |c.text| {
      // `slice` throws: the cursor started past the end of the text.
      return Thrown(StringIndexOutOfBounds);
    }
    var parsed := ParseWhole(w, c.Slice(pos));
    if parsed.None? {
      return Err(c.Error(pos, CannotParse(WidthName(w))));
    }
    r := Ok(parsed.value);
  }

  /** Started within the text, the parser reads exactly the token up to the next boundary: it
      succeeds with the token's value when the token converts, and otherwise fails with the
      width's message, spanning the token. */
  lemma WholeNumberOutcome(w: Width, s: string, i: nat)
    requires i <= |s|
    ensures var j := ScanEnd(s, i);
      && i <= j <= |s|
      && WholeNumber(w)(s, i).pos == j
      && (ParseWhole(w, s[i..j]).Some? ==> WholeNumber(w)(s, i).result == Ok(ParseWhole(w, s[i..j]).value))
      && (ParseWhole(w, s[i..j]).None? ==>
            WholeNumber(w)(s, i).result
            == Err(ParseError(i, j, s, CannotParse(WidthName(w)))))
  {
    ScanEndStops(s, i);
  }

  lemma WholeNumberIsBounded(w: Width)
    ensures Monotone(WholeNumber(w)) && Bounded(WholeNumber(w))
  {
    forall s: string, i: nat
      ensures WholeNumber(w)(s, i).pos >= i
      ensures i <= |s| ==> WholeNumber(w)(s, i).pos <= |s|
    {
      ScanEndStops(s, i);
    }
  }

  /** A whole number written by the serializer and followed by a boundary reads back. */
  lemma WholeNumberReadsDecimal(w: Width, n: int, s: string, i: nat)
    requires MinValue(w) <= n <= MaxValue(w)
    requires i + |IntToDecimal(n)| <= |s| && s[i..i + |IntToDecimal(n)|] == IntToDecimal(n)
    requires IsValueBoundary(Peek(s, i + |IntToDecimal(n)|))
    ensures WholeNumber(w)(s, i) == Step(Ok(n), i + |IntToDecimal(n)|)
  {
    var d := IntToDecimal(n);
    var j := i + |d|;
    DecimalIsToken(n);
    forall k | i <= k < j ensures !IsValueBoundary(Code(s[k])) {
      assert s[k] == s[i..j][k - i];
    }
    ScanEndAt(s, i, j);
    assert Token(s, i, j) == Some(d);
    ParseWholeDecimal(w, n);
    assert WholeNumberAt(w, s, i) == Step(Ok(n), j);
  }

  /** The decimal form of a number holds no boundary character. */
  lemma DecimalIsToken(n: int)
    ensures forall k :: 0 <= k < |IntToDecimal(n)| ==> !IsValueBoundary(Code(IntToDecimal(n)[k]))
  {
    var d := IntToDecimal(n);
    IntToDecimalShape(n);
    forall k | 0 <= k < |d| ensures !IsValueBoundary(Code(d[k])) {
      if n < 0 && k > 0 {
        assert d[k] == d[1..][k - 1];
      }
    }
  }

  /** The scan ends at j when every character from i up to j is part of a token and j is a
      boundary. */
  lemma {:induction false} ScanEndAt(s: string, i: nat, j: nat)
    requires i <= j <= |s|
    requires forall k :: i <= k < j ==> !IsValueBoundary(Code(s[k]))
    requires IsValueBoundary(Peek(s, j))
    ensures ScanEnd(s, i) == j
    decreases j - i
  {
    if i < j {
      ScanEndAt(s, i + 1, j);
    }
  }

  /** The characters of the number tokens in the tests: letters, digits, signs and the point. */
  predicate IsWordChar(c: char) {
    IsDigit(c) || 'a' <= c <= 'z' || 'A' <= c <= 'Z' || c == '-' || c == '+' || c == '.'
  }

  /** A text made of one token, read from its start: the scan covers all of it. */
  lemma ScanWholeToken(t: string)
    requires forall k :: 0 <= k < |t| ==> IsWordChar(t[k])
    ensures ScanEnd(t, 0) == |t| && Token(t, 0, |t|) == Some(t)
  {
    forall k | 0 <= k < |t|
      ensures !IsValueBoundary(Code(t[k]))
    {
    }
    ScanEndAt(t, 0, |t|);
    assert t[0..|t|] == t;
  }

  /** The in-range values of the tests, for every width. */
  lemma WholeNumberSmallValues(w: Width)
    ensures WholeNumber(w)("-1", 0) == Step(Ok(-1), 2)
    ensures WholeNumber(w)("0", 0) == Step(Ok(0), 1)
    ensures WholeNumber(w)("1", 0) == Step(Ok(1), 1)
  {
    WholeNumberReadsDecimal(w, -1, "-1", 0);
    WholeNumberReadsDecimal(w, 0, "0", 0);
    WholeNumberReadsDecimal(w, 1, "1", 0);
  }

  /** Tokens that are not whole numbers fail over their whole length. */
  lemma WholeNumberMalformed()
    ensures WholeNumber(Long)("test", 0)
         == Step(Err(ParseError(0, 4, "test", CannotParse("long"))), 4)
    ensures WholeNumber(Long)("1e10", 0)
         == Step(Err(ParseError(0, 4, "1e10", CannotParse("long"))), 4)
  {
    ScanWholeToken("test");
    assert !IsDigit("test"[0]);
    assert ParseWhole(Long, "test") == None;
    ScanWholeToken("1e10");
    ParseWholeRejects(Long, "1e10");
  }

  /** A run of digits above the width, followed by a boundary, fails over its whole text. */
  lemma OutOfRange(w: Width, d: string)
    requires |d| >= 1 && AllDigits(d) && DigitsValue(d) > MaxValue(w)
    ensures WholeNumber(w)(d, 0)
         == Step(Err(ParseError(0, |d|, d, CannotParse(WidthName(w)))), |d|)
  {
    ScanWholeToken(d);
    ParseWholeRejects(w, d);
  }

  function Pow10(n: nat): (r: nat)
    ensures r >= 1
  {
    if n == 0 then 1 else 10 * Pow10(n - 1)
  }

  /** The leading digits of a number bound it from below: the digits after the first m
      can only add to their value, scaled by ten to the number of digits that follow. */
  lemma {:induction false} DigitsPrefixBound(d: string, m: nat)
    requires AllDigits(d) && m <= |d|
    ensures DigitsValue(d) >= DigitsValue(d[..m]) * Pow10(|d| - m)
    decreases |d| - m
  {
    if m == |d| {
      assert d[..m] == d;
    } else {
      DigitsPrefixBound(d, m + 1);
      var e := |d| - (m + 1);
      assert |d| - m == e + 1;
      DigitsPrefixStep(d, m);
      ScaleBound(DigitsValue(d[..m]), DigitsValue(d[..m + 1]), Pow10(e), Pow10(e + 1));
    }
  }

  /** One more leading digit multiplies the value so far by ten, then adds to it. */
  lemma DigitsPrefixStep(d: string, m: nat)
    requires AllDigits(d) && m < |d|
    ensures DigitsValue(d[..m + 1]) >= DigitsValue(d[..m]) * 10
  {
    var next := d[..m + 1];
    assert next[..|next| - 1] == d[..m];
  }

  /** A value at least ten times another, scaled by p, is at least the other scaled by 10p. */
  lemma ScaleBound(a: nat, b: nat, p: nat, q: nat)
    requires b >= a * 10 && q == 10 * p
    ensures b * p >= a * q
  {
    assert a * q == (a * 10) * p;
  }

  /** The smallest values above the byte and short widths, from the tests. */
  lemma WholeNumberOutOfRange()
    ensures WholeNumber(Byte)("256", 0)
         == Step(Err(ParseError(0, 3, "256", CannotParse("byte"))), 3)
    ensures WholeNumber(Short)("65536", 0)
         == Step(Err(ParseError(0, 5, "65536", CannotParse("short"))), 5)
  {
    DigitsPrefixBound("256", 2);
    assert "256"[..2] == "25";
    OutOfRange(Byte, "256");
    DigitsPrefixBound("65536", 2);
    assert "65536"[..2] == "65";
    OutOfRange(Short, "65536");
  }

  /** Ten times the largest integer, from the tests. */
  lemma WholeNumberOutOfRangeInt()
    ensures WholeNumber(Int)("21474836470", 0)
         == Step(Err(ParseError(0, 11, "21474836470", CannotParse("integer"))), 11)
  {
    var d := "21474836470";
    DigitsPrefixBound(d, 2);
    assert d[..2] == "21" && DigitsValue("21") == 21;
    assert Pow10(9) == 1_000_000_000;
    OutOfRange(Int, d);
  }

  lemma LongScale()
    ensures Pow10(18) == 1_000_000_000_000_000_000
  {
    assert Pow10(9) == 1_000_000_000;
    assert Pow10(12) == 1_000_000_000_000;
    assert Pow10(15) == 1_000_000_000_000_000;
  }

  /** Ten times the largest long, from the tests, is a run of digits beyond the range. */
  lemma TenTimesMaxLong()
    ensures var d := "92233720368547758070";
      |d| == 20 && AllDigits(d) && DigitsValue(d) > MaxValue(Long)
  {
    var d := "92233720368547758070";
    assert AllDigits(d);
    DigitsPrefixBound(d, 2);
    assert d[..2] == "92" && DigitsValue("92") == 92;
    LongScale();
  }

  lemma WholeNumberOutOfRangeLong()
    ensures WholeNumber(Long)("92233720368547758070", 0)
         == Step(Err(ParseError(0, 20, "92233720368547758070", CannotParse("long"))), 20)
  {
    TenTimesMaxLong();
    OutOfRange(Long, "92233720368547758070");
  }

  // Floating-point numbers.

  /** A parsed double or float: the two infinities, NaN, or a finite value, kept as the text
      it was converted from. */
  datatype Fp = Finite(literal: string) | PosInf | NegInf | NaN

  /** `DoubleParser` and `FloatParser`: the same parser but for the type and its message. */
  datatype Precision = Single | Double

  function PrecisionName(p: Precision): string {
    match p
    case Single => "float"
    case Double => "double"
  }

  /** `SPECIAL_NUMBERS`: the table consulted before any conversion, by exact string equality. */
  function Special(t: string): (r: Option<Fp>)
    ensures r.Some? <==> t in {"-Infinity", "-Inf", "Infinity", "Inf", "NaN"}
  {
    if t == "-Infinity" || t == "-Inf" then Some(NegInf)
    else if t == "Infinity" || t == "Inf" then Some(PosInf)
    else if t == "NaN" then Some(NaN)
    else None
  }

  /** `String.trim`: strips every character up to U+0020 from both ends. */
  function TrimStart(t: string): (r: string)
    ensures |r| <= |t|
  {
    if t != [] && t[0] <= ' ' then TrimStart(t[1..]) else t
  }

  function TrimEnd(t: string): (r: string)
    ensures |r| <= |t|
  {
    if t != [] && t[|t| - 1] <= ' ' then TrimEnd(t[..|t| - 1]) else t
  }

  /** The end of the run of decimal digits (or hexadecimal digits, when `hex`) from k. */
  function RunEnd(t: string, k: nat, hex: bool): (e: nat)
    ensures k <= e && (k <= |t| ==> e <= |t|)
    decreases |t| - k
  {
    if k < |t| && (if hex then IsHexDigit(t[k]) else IsDigit(t[k])) then RunEnd(t, k + 1, hex)
    else k
  }

  predicate IsTypeSuffix(c: char) {
    c == 'f' || c == 'F' || c == 'd' || c == 'D'
  }

  /** From k: nothing, or a type suffix as the last character. */
  predicate EndsAt(t: string, k: nat) {
    k == |t| || (k == |t| - 1 && IsTypeSuffix(t[k]))
  }

  /** From k: an optionally signed run of at least one decimal digit, then `EndsAt`. */
  predicate ExponentFrom(t: string, k: nat) {
    var d := if k < |t| && (t[k] == '+' || t[k] == '-') then k + 1 else k;
    var e := RunEnd(t, d, false);
    e > d && EndsAt(t, e)
  }

  /** A decimal mantissa with at least one digit and at most one point, then an optional
      exponent, then an optional type suffix (`FloatingDecimal.readJavaFormatString`). */
  predicate IsDecimalFloat(t: string) {
    var a := RunEnd(t, 0, false);
    var b := if a < |t| && t[a] == '.' then RunEnd(t, a + 1, false) else a;
    var digits := if b > a then b - 1 else a;
    digits >= 1 && (EndsAt(t, b) || (b < |t| && (t[b] == 'e' || t[b] == 'E') && ExponentFrom(t, b + 1)))
  }

  /** What follows `0x`: hexadecimal digits with at most one point and at least one digit,
      then a binary exponent `p`, then an optional type suffix (the pattern of
      `FloatingDecimal.parseHexString`). */
  predicate IsHexFloat(t: string) {
    var a := RunEnd(t, 0, true);
    var b := if a < |t| && t[a] == '.' then RunEnd(t, a + 1, true) else a;
    var digits := if b > a then b - 1 else a;
    digits >= 1 && b < |t| && (t[b] == 'p' || t[b] == 'P') && ExponentFrom(t, b + 1)
  }

  /** `Double.parseDouble` and `Float.parseFloat`, which accept the same texts: after
      trimming, an optional sign, then `NaN`, `Infinity`, a hexadecimal or a decimal literal. */
  function ParseFloating(t: string): Option<Fp> {
    var u := TrimEnd(TrimStart(t));
    if u == [] then None
    else
      var rest := if u[0] == '-' || u[0] == '+' then u[1..] else u;
      if rest == [] then None
      else if rest[0] == 'N' then (if rest == "NaN" then Some(NaN) else None)
      else if rest[0] == 'I' then
        (if rest == "Infinity" then Some(if u[0] == '-' then NegInf else PosInf) else None)
      else if |rest| >= 2 && rest[0] == '0' && (rest[1] == 'x' || rest[1] == 'X') then
        (if IsHexFloat(rest[2..]) then Some(Finite(u)) else None)
      else if IsDecimalFloat(rest) then Some(Finite(u))
      else None
  }

  /** The table adds only `Inf` and `-Inf` to what the conversion accepts: on the other three
      entries it agrees with the conversion. */
  lemma SpecialAgreesWithConversion()
    ensures ParseFloating("Infinity") == Special("Infinity") == Some(PosInf)
    ensures ParseFloating("-Infinity") == Special("-Infinity") == Some(NegInf)
    ensures ParseFloating("NaN") == Special("NaN") == Some(NaN)
    ensures ParseFloating("Inf") == None && ParseFloating("-Inf") == None
    ensures Special("+Inf") == None && ParseFloating("+Inf") == None
    ensures Special("inf") == None && ParseFloating("inf") == None
  {
    assert "-Infinity"[1..] == "Infinity";
    assert "-Inf"[1..] == "Inf";
    assert "+Inf"[1..] == "Inf";
  }

  /** `DoubleParser.parse` and `FloatParser.parse`: scan to the boundary, look the token up in
      the table, and otherwise convert it. */
  function FloatingAt(p: Precision, s: string, i: nat): Step<Fp> {
    var j := ScanEnd(s, i);
    ScanEndStops(s, i);
    match Token(s, i, j)
    case None => Step(Thrown(StringIndexOutOfBounds), j)
    case Some(t) =>
      match Special(t)
      case Some(v) => Step(Ok(v), j)
      case None =>
        match ParseFloating(t)
        case Some(v) => Step(Ok(v), j)
        case None => Step(Err(ParseError(i, j, s, CannotParse(PrecisionName(p)))), j)
  }

  function Floating(p: Precision): Parser<Fp> {
    (s: string, i: nat) => FloatingAt(p, s, i)
  }

  /** `DoubleParser.parse` (and `FloatParser.parse`). */
  method FloatingParse(c: Cursor, p: Precision) returns (r: Result<Fp>)
    modifies c
    ensures Step(r, c.index) == FloatingAt(p, c.text, old(c.index))
  {
    var pos := c.MarkHere();
    ScanToBoundary(c);
    ScanEndStops(c.text, pos.markIndex);
    if c.index > |c.text| {
      // `slice` throws: the cursor started past the end of the text.
      return Thrown(StringIndexOutOfBounds);
    }
    var numString := c.Slice(pos);
    var special := Special(numString);
    if special.Some? {
      return Ok(special.value);
    }
    var converted := ParseFloating(numString);
    if converted.None? {
      return Err(c.Error(pos, CannotParse(PrecisionName(p))));
    }
    r := Ok(converted.value);
  }

  /** Started within the text, the parser reads exactly the token up to the next boundary; the
      table wins over the conversion; a token neither accepts fails with the type's message,
      spanning the token. */
  lemma FloatingOutcome(p: Precision, s: string, i: nat)
    requires i <= |s|
    ensures var j := ScanEnd(s, i);
      var step := Floating(p)(s, i);
      && i <= j <= |s|
      && step.pos == j
      && var t := s[i..j];
      && (Special(t).Some? ==> step.result == Ok(Special(t).value))
      && (Special(t).None? && ParseFloating(t).Some? ==> step.result == Ok(ParseFloating(t).value))
      && (Special(t).None? && ParseFloating(t).None? ==>
            step.result == Err(ParseError(i, j, s, CannotParse(PrecisionName(p)))))
  {
    ScanEndStops(s, i);
  }

  lemma FloatingIsBounded(p: Precision)
    ensures Monotone(Floating(p)) && Bounded(Floating(p))
  {
    forall s: string, i: nat
      ensures Floating(p)(s, i).pos >= i
      ensures i <= |s| ==> Floating(p)(s, i).pos <= |s|
    {
      ScanEndStops(s, i);
    }
  }

  /** Every decimal integer text is a valid floating-point literal. */
  lemma ParseFloatingDecimal(n: int)
    ensures ParseFloating(IntToDecimal(n)) == Some(Finite(IntToDecimal(n)))
  {
    var d := IntToDecimal(n);
    IntToDecimalShape(n);
    assert TrimStart(d) == d;
    assert TrimEnd(d) == d;
    var rest := if d[0] == '-' then d[1..] else d;
    assert |rest| >= 1 && AllDigits(rest);
    DigitRunToEnd(rest, 0);
  }

  lemma {:induction false} DigitRunToEnd(t: string, k: nat)
    requires k <= |t| && forall m :: k <= m < |t| ==> IsDigit(t[m])
    ensures RunEnd(t, k, false) == |t|
    decreases |t| - k
  {
    if k < |t| {
      DigitRunToEnd(t, k + 1);
    }
  }

  /** Decimal literals of the floating-point tests, with a point, an exponent or both. */
  lemma ParseFloatingDecimalExamples()
    ensures ParseFloating("0.") == Some(Finite("0."))
    ensures ParseFloating("-0.") == Some(Finite("-0."))
    ensures ParseFloating("0.0") == Some(Finite("0.0"))
  {
    assert "-0."[1..] == "0.";
  }

  lemma ParseFloatingExponentExample()
    ensures ParseFloating("1e10") == Some(Finite("1e10"))
  {
    assert RunEnd("1e10", 2, false) == 4;
  }

  lemma ParseFloatingSignedExponents()
    ensures ParseFloating("1.5e-10") == Some(Finite("1.5e-10"))
    ensures ParseFloating("1.5e+10") == Some(Finite("1.5e+10"))
  {
    var t := "1.5e-10";
    assert RunEnd(t, 0, false) == 1 && RunEnd(t, 2, false) == 3;
    assert RunEnd(t, 5, false) == 7;
    var u := "1.5e+10";
    assert RunEnd(u, 0, false) == 1 && RunEnd(u, 2, false) == 3;
    assert RunEnd(u, 5, false) == 7;
  }

  /** What the conversion rejects: a word, a bare point, an exponent without digits; and a
      hexadecimal literal it accepts. */
  lemma ParseFloatingOtherExamples()
    ensures ParseFloating("test") == None
    ensures ParseFloating(".") == None && ParseFloating("1e") == None
    ensures ParseFloating("0x1p3") == Some(Finite("0x1p3"))
  {
    var h := "0x1p3"[2..];
    assert h == "1p3";
    assert RunEnd(h, 0, true) == 1 && RunEnd(h, 2, false) == 3;
  }

  /** A text made of one token, read from its start, gives the table's or the conversion's
      verdict on the whole token. */
  lemma FloatingOnToken(p: Precision, t: string)
    requires forall k :: 0 <= k < |t| ==> IsWordChar(t[k])
    ensures Floating(p)(t, 0).pos == |t|
    ensures Special(t).Some? ==> Floating(p)(t, 0).result == Ok(Special(t).value)
    ensures Special(t).None? && ParseFloating(t).Some? ==>
              Floating(p)(t, 0).result == Ok(ParseFloating(t).value)
  {
    ScanWholeToken(t);
  }

  /** The floating-point tests' zero and exponent literals, for both precisions. */
  lemma FloatingReadsZero(p: Precision)
    ensures Floating(p)("0", 0) == Step(Ok(Finite("0")), 1)
  {
    ParseFloatingDecimal(0);
    assert IntToDecimal(0) == "0";
    FloatingOnToken(p, "0");
  }

  lemma FloatingReadsExponent(p: Precision)
    ensures Floating(p)("1e10", 0) == Step(Ok(Finite("1e10")), 4)
  {
    ParseFloatingExponentExample();
    FloatingOnToken(p, "1e10");
  }

  /** The floating-point tests' special literals, for both precisions. */
  lemma FloatingReadsInfinities(p: Precision)
    ensures Floating(p)("-Inf", 0) == Step(Ok(NegInf), 4)
    ensures Floating(p)("Inf", 0) == Step(Ok(PosInf), 3)
  {
    FloatingOnToken(p, "-Inf");
    FloatingOnToken(p, "Inf");
  }

  lemma FloatingReadsNaN(p: Precision)
    ensures Floating(p)("NaN", 0) == Step(Ok(NaN), 3)
  {
    FloatingOnToken(p, "NaN");
  }

  /** "test" is rejected by both precisions, over its four characters. */
  lemma FloatingRejectsWord(p: Precision)
    ensures Floating(p)("test", 0)
         == Step(Err(ParseError(0, 4, "test", CannotParse(PrecisionName(p)))), 4)
  {
    ScanWholeToken("test");
    ParseFloatingOtherExamples();
  }
}
