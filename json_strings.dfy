/** JSON string escaping and unescaping, in the two copies the repository carries:
    `barista-serde-json`'s `runtime.json.JsonStrings` (here "split") and `barista-serde`'s
    `runtime.JsonStrings` (here "legacy").

    Escaping follows the escape table of section 7 of RFC 8259, with `/` always escaped and
    `\u00xx` written for the other control characters. Both escape loops compute `Escaped`.

    The two unescape loops differ. The split copy switches on the backslash itself, so each
    backslash and the character after it decode to a lone backslash, and the character after
    that is kept unexamined; the legacy copy switches on the escape letter but never examines
    the character right after an escape. `Unescape` is the decoding both evidently
    intend, and the one the quoted-string parser uses. */
module JsonStrings {
  import opened Text

  /** What `unescape` produces: a string, or the Java exception it throws. */
  datatype Unescaped = Unescaped(value: string) | Throws(exception: string)

  const StringIndexOutOfBounds := "StringIndexOutOfBoundsException"
  const IndexOutOfBounds := "IndexOutOfBoundsException"
  const NumberFormat := "NumberFormatException"
  const IllegalArgument := "IllegalArgumentException"
  /** `Character.toString` of a surrogate code point yields a lone UTF-16 surrogate, which is not
      a character in this model. */
  const LoneSurrogate := "lone surrogate"

  const Backspace: char := 8 as char
  const FormFeed: char := 12 as char

  // Hexadecimal text.

  predicate IsHexDigit(c: char) {
    '0' <= c <= '9' || 'a' <= c <= 'f' || 'A' <= c <= 'F'
  }

  function HexDigitValue(c: char): (d: nat)
    requires IsHexDigit(c)
    ensures d < 16
  {
    if '0' <= c <= '9' then (c as int) - ('0' as int)
    else if 'a' <= c <= 'f' then (c as int) - ('a' as int) + 10
    else (c as int) - ('A' as int) + 10
  }

  function HexDigitChar(d: nat): (c: char)
    requires d < 16
    ensures IsHexDigit(c) && HexDigitValue(c) == d
    ensures !('A' <= c <= 'F')
  {
    if d < 10 then (d + '0' as int) as char else (d - 10 + 'a' as int) as char
  }

  predicate AllHex(t: string) {
    forall k :: 0 <= k < |t| ==> IsHexDigit(t[k])
  }

  function HexDigitsValue(t: string): nat
    requires AllHex(t)
  {
    if t == [] then 0 else HexDigitsValue(t[..|t| - 1]) * 16 + HexDigitValue(t[|t| - 1])
  }

  /** `Integer.valueOf(t, 16)`: an optional sign, then at least one hexadecimal digit. Only the
      ASCII digits and letters are taken as hexadecimal digits. (Overflow cannot occur on the
      four-character texts it is applied to here.) */
  function ParseHex(t: string): (r: Option<int>)
    ensures r.Some? <==>
      && |t| > 0
      && (if t[0] == '-' || t[0] == '+' then |t| > 1 && AllHex(t[1..]) else AllHex(t))
    ensures r.Some? && t[0] != '-' ==> r.value >= 0
    ensures r.Some? && t[0] == '-' ==> r.value <= 0
    ensures r.Some? && AllHex(t) ==> r.value == HexDigitsValue(t)
  {
    if |t| == 0 then None
    else if t[0] == '-' || t[0] == '+' then
      if |t| == 1 || !AllHex(t[1..]) then None
      else
        var magnitude: int := HexDigitsValue(t[1..]);
        if t[0] == '-' then Some(-magnitude) else Some(magnitude)
    else if AllHex(t) then Some(HexDigitsValue(t))
    else None
  }

  /** `Integer.toHexString` of a non-negative number: lower-case digits, no leading zero. */
  function HexString(n: nat): (r: string)
    ensures 1 <= |r| && AllHex(r)
    ensures n < 16 ==> |r| == 1
    ensures 16 <= n < 256 ==> |r| == 2
  {
    if n < 16 then [HexDigitChar(n)] else HexString(n / 16) + [HexDigitChar(n % 16)]
  }

  /** The digits `Integer.toHexString` writes read back through `Integer.valueOf(t, 16)` as the
      number they were written for. */
  lemma {:induction false} HexStringReadsBack(n: nat)
    ensures ParseHex(HexString(n)) == Some(n)
  {
    var r := HexString(n);
    if n < 16 {
      assert r == [HexDigitChar(n)];
      assert r[..0] == [];
    } else {
      HexStringReadsBack(n / 16);
      var q := HexString(n / 16);
      assert r == q + [HexDigitChar(n % 16)];
      assert r[..|r| - 1] == q;
      assert HexDigitsValue(r) == HexDigitsValue(q) * 16 + n % 16;
    }
  }

  // Escaping.

  /** Whether `escape` replaces the character. */
  predicate NeedsEscape(c: char) {
    c == '"' || c == '\\' || c == '/' || (c as int) < 0x20
  }

  /** The replacement `escape` writes for one character. */
  function EscapeChar(c: char): string {
    if c == '"' || c == '\\' || c == '/' then ['\\', c]
    else if c == Backspace then "\\b"
    else if c == FormFeed then "\\f"
    else if c == '\n' then "\\n"
    else if c == '\r' then "\\r"
    else if c == '\t' then "\\t"
    else if (c as int) < 0x20 then
      var code := HexString(c as int);
      "\\u" + Repeat('0', 4 - |code|) + code
    else [c]
  }

  /** A control character without a short escape is written as `\u00` and two lower-case
      hexadecimal digits. */
  lemma ControlEscape(c: char)
    requires (c as int) < 0x20 && c != Backspace && c != FormFeed && c != '\n' && c != '\r' && c != '\t'
    ensures EscapeChar(c) == "\\u00" + [HexDigitChar((c as int) / 16), HexDigitChar((c as int) % 16)]
  {
    var n := c as int;
    if n < 16 {
      assert HexString(n) == [HexDigitChar(n)];
      assert Repeat('0', 3) == "000";
      assert HexDigitChar(0) == '0';
    } else {
      assert HexString(n) == HexString(n / 16) + [HexDigitChar(n % 16)];
      assert Repeat('0', 2) == "00";
    }
  }

  /** A character is kept exactly when it needs no escape; a replacement is a backslash and at
      least one more character, none of them a control character. */
  lemma EscapeCharShape(c: char)
    ensures !NeedsEscape(c) <==> EscapeChar(c) == [c]
    ensures NeedsEscape(c) ==> |EscapeChar(c)| >= 2 && EscapeChar(c)[0] == '\\'
    ensures forall k :: 0 <= k < |EscapeChar(c)| ==> (EscapeChar(c)[k] as int) >= 0x20
  {
    if (c as int) < 0x20 && c != Backspace && c != FormFeed && c != '\n' && c != '\r' && c != '\t' {
      ControlEscape(c);
    }
  }

  /** The concatenation of f over the first n characters of v. */
  function MapChars(f: char -> string, v: string, n: nat): string
    requires n <= |v|
  {
    if n == 0 then [] else MapChars(f, v, n - 1) + f(v[n - 1])
  }

  /** The escaped form of a string: each character replaced by `EscapeChar`. */
  function Escaped(v: string): string {
    MapChars(EscapeChar, v, |v|)
  }

  /** The escape loops' invariant kept across one character: the output so far plus the
      pending unchanged run is the escaped prefix. */
  lemma EscapeLoopStep(v: string, i: nat, written: nat, sb: string)
    requires written <= i < |v| && sb + v[written..i] == MapChars(EscapeChar, v, i)
    ensures NeedsEscape(v[i]) ==> sb + v[written..i] + EscapeChar(v[i]) + v[i + 1..i + 1] == MapChars(EscapeChar, v, i + 1)
    ensures !NeedsEscape(v[i]) ==> sb + v[written..i + 1] == MapChars(EscapeChar, v, i + 1)
  {
    assert v[written..i + 1] == v[written..i] + [v[i]];
  }

  /** `escape` in `barista-serde-json`: copies the unchanged runs between replacements, and
      returns the input itself when nothing was replaced. */
  method EscapeSplit(v: string) returns (r: string)
    ensures r == Escaped(v)
  {
    var sb := "";
    var written := 0;
    var i := 0;
    while i < |v|
      invariant written <= i <= |v|
      invariant sb + v[written..i] == MapChars(EscapeChar, v, i)
      invariant written == 0 ==> sb == []
    {
      var ch := v[i];
      EscapeLoopStep(v, i, written, sb);
      if NeedsEscape(ch) {
        sb := sb + v[written..i] + EscapeChar(ch);
        written := i + 1;
      }
      i := i + 1;
    }
    if written == 0 {
      assert v[0..|v|] == v;
      return v;
    }
    r := sb + v[written..|v|];
  }

  /** `escape` in `barista-serde`: the same loop over the characters with a separate index, and
      no short-circuit. */
  method EscapeLegacy(v: string) returns (r: string)
    ensures r == Escaped(v)
  {
    var sb := "";
    var written := 0;
    var index := 0;
    while index < |v|
      invariant written <= index <= |v|
      invariant sb + v[written..index] == MapChars(EscapeChar, v, index)
    {
      var ch := v[index];
      EscapeLoopStep(v, index, written, sb);
      if NeedsEscape(ch) {
        sb := sb + v[written..index] + EscapeChar(ch);
        written := index + 1;
      }
      index := index + 1;
    }
    r := sb + v[written..|v|];
  }

  /** The mapped prefix depends only on the characters in it. */
  lemma {:induction false} MapCharsAgrees(f: char -> string, v: string, w: string, n: nat)
    requires n <= |v| && n <= |w| && v[..n] == w[..n]
    ensures MapChars(f, v, n) == MapChars(f, w, n)
  {
    if n > 0 {
      assert v[..n - 1] == v[..n][..n - 1] && w[..n - 1] == w[..n][..n - 1];
      assert v[n - 1] == v[..n][n - 1] && w[n - 1] == w[..n][n - 1];
      MapCharsAgrees(f, v, w, n - 1);
    }
  }

  lemma {:induction false} MapCharsConcat(f: char -> string, a: string, b: string, k: nat)
    requires k <= |b|
    ensures MapChars(f, a + b, |a| + k) == MapChars(f, a, |a|) + MapChars(f, b, k)
  {
    if k == 0 {
      assert (a + b)[..|a|] == a[..|a|];
      MapCharsAgrees(f, a + b, a, |a|);
    } else {
      MapCharsConcat(f, a, b, k - 1);
      assert (a + b)[|a| + k - 1] == b[k - 1];
    }
  }

  /** Escaping distributes over concatenation. */
  lemma EscapedConcat(a: string, b: string)
    ensures Escaped(a + b) == Escaped(a) + Escaped(b)
  {
    MapCharsConcat(EscapeChar, a, b, |b|);
  }

  lemma EscapedSingle(c: char)
    ensures Escaped([c]) == EscapeChar(c)
  {
    assert MapChars(EscapeChar, [c], 1) == MapChars(EscapeChar, [c], 0) + EscapeChar(c);
  }

  lemma EscapedCons(c: char, rest: string)
    ensures Escaped([c] + rest) == EscapeChar(c) + Escaped(rest)
  {
    EscapedConcat([c], rest);
    EscapedSingle(c);
  }

  /** Each character escapes to at least one character, and exactly one when it needs no
      escape; so escaping leaves a string unchanged exactly when it has no character to
      replace. */
  lemma {:induction false} EscapedLength(v: string, n: nat)
    requires n <= |v|
    ensures |MapChars(EscapeChar, v, n)| >= n
    ensures |MapChars(EscapeChar, v, n)| == n <==> forall k :: 0 <= k < n ==> !NeedsEscape(v[k])
    ensures (forall k :: 0 <= k < n ==> !NeedsEscape(v[k])) ==> MapChars(EscapeChar, v, n) == v[..n]
  {
    if n > 0 {
      EscapedLength(v, n - 1);
      EscapeCharShape(v[n - 1]);
      if forall k :: 0 <= k < n ==> !NeedsEscape(v[k]) {
        assert v[..n] == v[..n - 1] + [v[n - 1]];
      }
    }
  }

  /** Escaping leaves a string unchanged exactly when it has no character to replace. */
  lemma EscapedIdentity(v: string)
    ensures Escaped(v) == v <==> forall k :: 0 <= k < |v| ==> !NeedsEscape(v[k])
  {
    EscapedLength(v, |v|);
    assert v[..|v|] == v;
  }

  /** The escaped text contains no character below U+0020. */
  lemma {:induction false} EscapedHasNoControl(v: string, n: nat)
    requires n <= |v|
    ensures forall k :: 0 <= k < |MapChars(EscapeChar, v, n)| ==> (MapChars(EscapeChar, v, n)[k] as int) >= 0x20
  {
    if n > 0 {
      EscapedHasNoControl(v, n - 1);
      EscapeCharShape(v[n - 1]);
    }
  }

  /** The NUL character is written as `\u0000`. */
  lemma EscapeControlExample()
    ensures Escaped([0 as char]) == "\\u0000"
  {
    ControlEscape(0 as char);
    assert HexDigitChar(0) == '0';
    EscapedSingle(0 as char);
  }

  /** Escaping a string of three characters is escaping each of them. */
  lemma EscapedThree(x: char, y: char, z: char)
    ensures Escaped([x, y, z]) == EscapeChar(x) + EscapeChar(y) + EscapeChar(z)
  {
    var v := [x, y, z];
    assert MapChars(EscapeChar, v, 1) == EscapeChar(x);
    assert MapChars(EscapeChar, v, 2) == EscapeChar(x) + EscapeChar(y);
  }

  /** Quote, backslash and slash each gain a backslash; other characters are kept. */
  lemma EscapeExample()
    ensures Escaped("a\\b/c\"d") == "a\\\\b\\/c\\\"d"
  {
    assert Escaped("a\\b") == "a\\\\b" by {
      EscapedThree('a', '\\', 'b');
    }
    assert Escaped("/c\"") == "\\/c\\\"" by {
      EscapedThree('/', 'c', '"');
    }
    assert Escaped("a\\b/c\"") == "a\\\\b\\/c\\\"" by {
      EscapedConcat("a\\b", "/c\"");
      assert "a\\b" + "/c\"" == "a\\b/c\"";
    }
    assert Escaped("d") == "d" by {
      EscapedSingle('d');
    }
    EscapedConcat("a\\b/c\"", "d");
    assert "a\\b/c\"" + "d" == "a\\b/c\"d";
  }

  // Decoding one escape sequence.

  /** A decoded escape: its text and how many input characters it spans, or an exception. */
  datatype EscapeStep = Decoded(text: string, length: nat) | Failed(exception: string)

  /** `Character.toString(codePoint)`. */
  function CodePointText(cp: int): (r: EscapeStep)
    ensures r.Decoded? ==> |r.text| == 1 && r.text[0] as int == cp
  {
    if cp < 0 || cp > 0x10FFFF then Failed(IllegalArgument)
    else if 0xD800 <= cp <= 0xDFFF then Failed(LoneSurrogate)
    else Decoded([cp as char], 6)
  }

  /** The escape that starts with the backslash at p, as the switch on the escape letter
      decodes it. */
  function DecodeEscape(v: string, p: nat): (r: EscapeStep)
    requires p < |v| && v[p] == '\\'
    ensures r.Decoded? ==> 2 <= r.length && p + r.length <= |v|
  {
    if p + 1 >= |v| then Failed(StringIndexOutOfBounds)
    else
      var next := v[p + 1];
      if next == '"' || next == '\\' || next == '/' then Decoded([next], 2)
      else if next == 'b' then Decoded([Backspace], 2)
      else if next == 'f' then Decoded([FormFeed], 2)
      else if next == 'n' then Decoded(['\n'], 2)
      else if next == 'r' then Decoded(['\r'], 2)
      else if next == 't' then Decoded(['\t'], 2)
      else if next == 'u' then
        if p + 6 > |v| then Failed(StringIndexOutOfBounds)
        else match ParseHex(v[p + 2..p + 6])
          case None => Failed(NumberFormat)
          case Some(cp) => CodePointText(cp)
      else Decoded(v[p..p + 2], 2)
  }

  // The split copy, as written.

  /** The split loop from index i, with the unchanged run starting at `read`. */
  function SplitFrom(v: string, i: nat, read: nat, sb: string): Unescaped
    requires read <= i
    decreases |v| - i
  {
    if i >= |v| then
      if read == 0 then Unescaped(v)
      else if read > |v| then Throws(IndexOutOfBounds)
      else Unescaped(sb + v[read..])
    else if v[i] != '\\' then SplitFrom(v, i + 1, read, sb)
    else SplitFrom(v, i + 3, i + 2, sb + v[read..i] + "\\")
  }

  function SplitDecoding(v: string): Unescaped {
    SplitFrom(v, 0, 0, [])
  }

  /** `unescape` in `barista-serde-json`. The switch is on `next`, which holds the backslash
      itself, so its first case is the only one ever taken. */
  method UnescapeSplit(v: string) returns (r: Unescaped)
    ensures r == SplitDecoding(v)
  {
    var sb := "";
    var read := 0;
    var i := 0;
    while i < |v|
      invariant read <= i
      invariant SplitFrom(v, i, read, sb) == SplitDecoding(v)
      decreases |v| - i
    {
      var next := v[i];
      if next == '\\' {
        i := i + 1;
        sb := sb + v[read..i - 1] + [next];
        i := i + 1;
        read := i;
      }
      i := i + 1;
    }
    if read == 0 {
      return Unescaped(v);
    }
    if read > |v| {
      return Throws(IndexOutOfBounds);
    }
    r := Unescaped(sb + v[read..|v|]);
  }

  // The legacy copy, as written.

  /** The legacy loop from index i: after an escape the loop's own increment skips the
      character that follows it. */
  function LegacyFrom(v: string, i: nat, read: nat, sb: string): Unescaped
    requires read <= i && read <= |v|
    decreases |v| - i
  {
    if i >= |v| then
      if read == 0 then Unescaped(v) else Unescaped(sb + v[read..])
    else if v[i] != '\\' then LegacyFrom(v, i + 1, read, sb)
    else match DecodeEscape(v, i)
      case Failed(x) => Throws(x)
      case Decoded(t, n) => LegacyFrom(v, i + n + 1, i + n, sb + v[read..i] + t)
  }

  function LegacyDecoding(v: string): Unescaped {
    LegacyFrom(v, 0, 0, [])
  }

  /** `unescape` in `barista-serde`. The switch on the escape letter is `DecodeEscape`; the
      loop appends the pending run and the decoded text, moves just past the escape, and its own
      increment then steps over one more character. */
  method UnescapeLegacy(v: string) returns (r: Unescaped)
    ensures r == LegacyDecoding(v)
  {
    var sb := "";
    var read: nat := 0;
    var i: nat := 0;
    while i < |v|
      invariant read <= i && read <= |v|
      invariant LegacyFrom(v, i, read, sb) == LegacyDecoding(v)
      decreases |v| - i
    {
      if v[i] == '\\' {
        var escape := DecodeEscape(v, i);
        if escape.Failed? {
          return Throws(escape.exception);
        }
        sb := sb + v[read..i] + escape.text;
        i := i + escape.length;
        read := i;
      }
      i := i + 1;
    }
    if read == 0 {
      return Unescaped(v);
    }
    r := Unescaped(sb + v[read..|v|]);
  }

  // The decoding both copies intend.

  function Prepend(t: string, rest: Unescaped): Unescaped {
    match rest
    case Unescaped(s) => Unescaped(t + s)
    case Throws(x) => Throws(x)
  }

  /** Decodes from index i: every backslash starts an escape, and decoding resumes right after
      it; the first malformed escape is the exception. */
  function UnescapeFrom(v: string, i: nat): Unescaped
    decreases |v| - i
  {
    if i >= |v| then Unescaped([])
    else if v[i] != '\\' then Prepend([v[i]], UnescapeFrom(v, i + 1))
    else match DecodeEscape(v, i)
      case Failed(x) => Throws(x)
      case Decoded(t, n) => Prepend(t, UnescapeFrom(v, i + n))
  }

  function Unescape(v: string): Unescaped {
    UnescapeFrom(v, 0)
  }

  /** Decoding only looks forward: what precedes the decoding position does not matter. */
  lemma {:induction false} UnescapeFromShift(a: string, b: string, j: nat)
    ensures UnescapeFrom(a + b, |a| + j) == UnescapeFrom(b, j)
    decreases |b| - j
  {
    var v := a + b;
    var i := |a| + j;
    if j < |b| {
      assert v[i] == b[j];
      if b[j] != '\\' {
        UnescapeFromShift(a, b, j + 1);
      } else {
        if j + 6 <= |b| {
          assert v[i + 2..i + 6] == b[j + 2..j + 6];
        }
        if j + 1 < |b| {
          assert v[i + 1] == b[j + 1];
          assert v[i..i + 2] == b[j..j + 2];
        }
        assert DecodeEscape(v, i) == DecodeEscape(b, j);
        if DecodeEscape(b, j).Decoded? {
          UnescapeFromShift(a, b, j + DecodeEscape(b, j).length);
        }
      }
    }
  }

  /** Four hexadecimal digits, most significant first. */
  lemma FourHexDigits(t: string)
    requires |t| == 4 && AllHex(t)
    ensures HexDigitsValue(t)
         == ((HexDigitValue(t[0]) * 16 + HexDigitValue(t[1])) * 16 + HexDigitValue(t[2])) * 16
            + HexDigitValue(t[3])
  {
    var t1, t2, t3 := t[..1], t[..2], t[..3];
    assert HexDigitsValue(t1) == HexDigitValue(t[0]) by {
      assert t1[..0] == [];
    }
    assert HexDigitsValue(t2) == HexDigitsValue(t1) * 16 + HexDigitValue(t[1]) by {
      assert t2[..1] == t1;
    }
    assert HexDigitsValue(t3) == HexDigitsValue(t2) * 16 + HexDigitValue(t[2]) by {
      assert t3[..2] == t2;
    }
    assert t[..3] == t3;
  }

  /** The four hexadecimal digits written for a control character read back as its code. */
  lemma ControlEscapeDecodes(c: char)
    requires (c as int) < 0x20 && c != Backspace && c != FormFeed && c != '\n' && c != '\r' && c != '\t'
    ensures DecodeEscape(EscapeChar(c), 0) == Decoded([c], 6)
  {
    ControlEscape(c);
    var n := c as int;
    var d1, d0 := HexDigitChar(n / 16), HexDigitChar(n % 16);
    var e := EscapeChar(c);
    var hex := e[2..6];
    assert hex == ['0', '0', d1, d0] by {
      assert e == ['\\', 'u', '0', '0', d1, d0];
    }
    FourHexDigits(hex);
    assert ParseHex(hex) == Some(n);
  }

  /** The two-character escapes read back as the character they stand for. */
  lemma ShortEscapeDecodes(c: char)
    requires NeedsEscape(c)
    requires !((c as int) < 0x20 && c != Backspace && c != FormFeed && c != '\n' && c != '\r' && c != '\t')
    ensures DecodeEscape(EscapeChar(c), 0) == Decoded([c], 2)
  {
  }

  /** A complete escape decodes the same whatever follows it. */
  lemma DecodeEscapeExtends(e: string, rest: string)
    requires |e| > 0 && e[0] == '\\' && DecodeEscape(e, 0).Decoded?
    ensures DecodeEscape(e + rest, 0) == DecodeEscape(e, 0)
  {
    var v := e + rest;
    assert v[1] == e[1];
    if e[1] == 'u' {
      assert v[2..6] == e[2..6];
    } else if !(e[1] in "\"\\/bfnrt") {
      assert v[0..2] == e[0..2];
    }
  }

  /** One escaped character decodes back to itself. */
  lemma EscapeCharDecodes(c: char, rest: string)
    ensures UnescapeFrom(EscapeChar(c) + rest, 0) == Prepend([c], UnescapeFrom(rest, 0))
  {
    var e := EscapeChar(c);
    var v := e + rest;
    EscapeCharShape(c);
    UnescapeFromShift(e, rest, 0);
    if !NeedsEscape(c) {
      assert v[0] == c;
    } else {
      if (c as int) < 0x20 && c != Backspace && c != FormFeed && c != '\n' && c != '\r' && c != '\t' {
        ControlEscapeDecodes(c);
      } else {
        ShortEscapeDecodes(c);
      }
      DecodeEscapeExtends(e, rest);
    }
  }

  /** Unescaping inverts escaping. */
  lemma {:induction false} UnescapeEscaped(s: string)
    ensures Unescape(Escaped(s)) == Unescaped(s)
    decreases |s|
  {
    if s != [] {
      EscapedCons(s[0], s[1..]);
      assert [s[0]] + s[1..] == s;
      EscapeCharDecodes(s[0], Escaped(s[1..]));
      UnescapeEscaped(s[1..]);
    }
  }

  /** Without a backslash every decoding returns its input. */
  lemma {:induction false} NoBackslashUnchanged(v: string, i: nat)
    requires forall k :: 0 <= k < |v| ==> v[k] != '\\'
    ensures i <= |v| ==> UnescapeFrom(v, i) == Unescaped(v[i..])
    ensures SplitFrom(v, i, 0, []) == Unescaped(v)
    ensures LegacyFrom(v, i, 0, []) == Unescaped(v)
    decreases |v| - i
  {
    if i < |v| {
      NoBackslashUnchanged(v, i + 1);
      assert v[i..] == [v[i]] + v[i + 1..];
    }
  }

  // The decodings the tests pin, and where the copies part.

  /** The split copy turns each backslash and the character after it into a lone backslash:
      `\n` decodes to `\`, and a quoted `\"test\"` loses its quotes. */
  lemma SplitDecodingCounterexamples()
    ensures SplitDecoding("\\n") == Unescaped("\\")
    ensures SplitDecoding("\\\"test\\\"") == Unescaped("\\test\\")
    ensures Unescape("\\n") == Unescaped("\n")
    ensures Unescape("\\\"test\\\"") == Unescaped("\"test\"")
  {
    var v := "\\\"test\\\"";
    assert v[2..6] == "test";
    assert DecodeEscape(v, 0) == Decoded(['"'], 2);
    assert DecodeEscape(v, 6) == Decoded(['"'], 2);
    assert DecodeEscape("\\n", 0) == Decoded(['\n'], 2);
  }

  /** The split copy keeps the character after an escape without looking at it: `a\"b` reads
      `a\b`, `\nab` reads `\ab`, and in `\n\n` the second escape is kept undecoded. */
  lemma SplitDecodingKeepsNext()
    ensures SplitDecoding("a\\\"b") == Unescaped("a\\b")
    ensures SplitDecoding("\\nab") == Unescaped("\\ab")
    ensures SplitDecoding("\\n\\n") == Unescaped("\\\\n")
  {
    var u := "a\\\"b";
    assert SplitFrom(u, 0, 0, []) == SplitFrom(u, 4, 3, "a\\");
    assert u[3..] == "b";
    var v := "\\nab";
    assert SplitFrom(v, 0, 0, []) == SplitFrom(v, 3, 2, "\\");
    assert v[2..] == "ab";
    var w := "\\n\\n";
    assert SplitFrom(w, 0, 0, []) == SplitFrom(w, 3, 2, "\\");
    assert w[2..] == "\\n";
  }

  /** The legacy copy skips the character after each escape: `\n\n` decodes to a line feed
      followed by a literal `\n`, and `\\\\` runs off the end. */
  lemma LegacyDecodingCounterexamples()
    ensures LegacyDecoding("\\n\\n") == Unescaped("\n\\n")
    ensures LegacyDecoding("\\\\\\\\") == Throws(StringIndexOutOfBounds)
    ensures Unescape("\\n\\n") == Unescaped("\n\n")
    ensures Unescape("\\\\\\\\") == Unescaped("\\\\")
  {
    assert DecodeEscape("\\n\\n", 0) == Decoded(['\n'], 2);
    assert DecodeEscape("\\n\\n", 2) == Decoded(['\n'], 2);
    assert "\\n\\n"[2..] == "\\n";
    assert DecodeEscape("\\\\\\\\", 0) == Decoded(['\\'], 2);
    assert DecodeEscape("\\\\\\\\", 2) == Decoded(['\\'], 2);
    assert DecodeEscape("\\\\\\\\", 3) == Failed(StringIndexOutOfBounds);
  }

  /** An input that is exactly one escape decodes, in the legacy copy, to that escape's text. */
  lemma LegacyDecodingSingle(v: string)
    requires |v| >= 2 && v[0] == '\\' && DecodeEscape(v, 0).Decoded?
    requires DecodeEscape(v, 0).length == |v|
    ensures LegacyDecoding(v) == Unescaped(DecodeEscape(v, 0).text)
  {
    var t := DecodeEscape(v, 0).text;
    assert LegacyFrom(v, 0, 0, []) == LegacyFrom(v, |v| + 1, |v|, [] + v[0..0] + t);
    assert v[|v|..] == [];
  }

  /** The legacy copy passes its tests: each escape on its own decodes as the table says. */
  lemma LegacyDecodingExamples()
    ensures LegacyDecoding("\\\"") == Unescaped("\"")
    ensures LegacyDecoding("\\\\") == Unescaped("\\")
    ensures LegacyDecoding("\\/") == Unescaped("/")
    ensures LegacyDecoding("\\b") == Unescaped([Backspace])
    ensures LegacyDecoding("\\f") == Unescaped([FormFeed])
    ensures LegacyDecoding("\\n") == Unescaped("\n")
    ensures LegacyDecoding("\\r") == Unescaped("\r")
    ensures LegacyDecoding("\\t") == Unescaped("\t")
    ensures LegacyDecoding("\\k") == Unescaped("\\k")
  {
    LegacyDecodingSingle("\\\"");
    LegacyDecodingSingle("\\\\");
    LegacyDecodingSingle("\\/");
    LegacyDecodingSingle("\\b");
    LegacyDecodingSingle("\\f");
    LegacyDecodingSingle("\\n");
    LegacyDecodingSingle("\\r");
    LegacyDecodingSingle("\\t");
    assert "\\k"[0..2] == "\\k";
    LegacyDecodingSingle("\\k");
  }

  lemma LegacyDecodingUnicodeExample()
    ensures LegacyDecoding("\\u0001") == Unescaped([1 as char])
  {
    var u := "\\u0001";
    assert u[2..6] == "0001";
    assert "0001"[..3] == "000" && "000"[..2] == "00" && "00"[..1] == "0";
    assert HexDigitsValue("0001") == 1;
    LegacyDecodingSingle(u);
  }
}
