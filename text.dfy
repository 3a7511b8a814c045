/** Character classes and decimal text shared by the parser, the error renderer and the
    serializer. A character is handled as its code (an `int`), as the Java cursor does, so that
    the end-of-stream sentinel can sit beside real characters. */
module Text {

  datatype Option<T> = None | Some(value: T)

  /** The cursor's end-of-stream sentinel (`ParseState.EOS`). */
  const EOS: int := -1

  /** The code of a character. */
  function Code(c: char): (r: int)
    ensures 0 <= r
  {
    c as int
  }

  /** `Character.isWhitespace` on a code point: the Unicode space, line and paragraph separators
      except the three no-break spaces, plus the ASCII controls U+0009-U+000D and U+001C-U+001F.
      It is false for every negative value, so in particular for EOS. */
  predicate IsWhitespace(c: int) {
    || c == 0x20
    || 0x09 <= c <= 0x0D
    || 0x1C <= c <= 0x1F
    || c == 0x1680
    || 0x2000 <= c <= 0x2006
    || 0x2008 <= c <= 0x200A
    || c == 0x2028
    || c == 0x2029
    || c == 0x205F
    || c == 0x3000
  }

  lemma EosIsNoCharacter(c: char)
    ensures Code(c) != EOS
    ensures !IsWhitespace(EOS)
  {
  }

  /** `String.repeat` on a one-character string. */
  function Repeat(c: char, n: nat): (r: string)
    ensures |r| == n
    ensures forall k :: 0 <= k < n ==> r[k] == c
  {
    if n == 0 then [] else [c] + Repeat(c, n - 1)
  }

  predicate IsDigit(c: char) {
    '0' <= c <= '9'
  }

  function DigitChar(d: nat): (c: char)
    requires d < 10
    ensures IsDigit(c) && (c as int) - ('0' as int) == d
  {
    (d + '0' as int) as char
  }

  function DigitValue(c: char): (d: nat)
    requires IsDigit(c)
    ensures d < 10
  {
    (c as int) - ('0' as int)
  }

  predicate AllDigits(s: string) {
    forall k :: 0 <= k < |s| ==> IsDigit(s[k])
  }

  /** The number a string of ASCII decimal digits spells (most significant digit first). */
  function DigitsValue(s: string): nat
    requires AllDigits(s)
  {
    if s == [] then 0 else DigitsValue(s[..|s| - 1]) * 10 + DigitValue(s[|s| - 1])
  }

  /** The decimal text of a natural number, as `String.valueOf` writes it. */
  function NatToDecimal(n: nat): (r: string)
    ensures |r| >= 1 && AllDigits(r)
    ensures r[0] == '0' ==> n == 0 && r == "0"
  {
    if n < 10 then [DigitChar(n)] else NatToDecimal(n / 10) + [DigitChar(n % 10)]
  }

  /** `String.valueOf` of a Java integer of any width: an optional minus sign, then digits. */
  function IntToDecimal(n: int): (r: string)
  {
    if n < 0 then "-" + NatToDecimal(-n) else NatToDecimal(n)
  }

  lemma {:induction false} NatToDecimalValue(n: nat)
    ensures DigitsValue(NatToDecimal(n)) == n
  {
    var r := NatToDecimal(n);
    if n >= 10 {
      NatToDecimalValue(n / 10);
      assert r[..|r| - 1] == NatToDecimal(n / 10);
    }
  }

  /** The decimal text is canonical: a minus sign exactly for negative numbers, then digits with
      no leading zero, whose value is the magnitude. */
  lemma IntToDecimalShape(n: int)
    ensures var r := IntToDecimal(n);
      && (n < 0 <==> (|r| > 0 && r[0] == '-'))
      && var digits := if n < 0 then r[1..] else r;
      && |digits| >= 1 && AllDigits(digits)
      && (digits[0] == '0' ==> n == 0)
      && DigitsValue(digits) == if n < 0 then -n else n
  {
    var r := IntToDecimal(n);
    if n < 0 {
      assert r[1..] == NatToDecimal(-n);
      NatToDecimalValue(-n);
    } else {
      NatToDecimalValue(n);
    }
  }
}
