/** The parse error record and its caret diagram (`ParseError.errorString`).

    The diagram is recomputed from the raw offsets: the mark is first adjusted back by one when
    it sits on a line break or at the end of the text, then one pass over the text before the
    adjusted mark yields the line, the column and the start of the context line, and a second
    pass from the adjusted mark yields the end of the context line and the end column. */
module ParseErrors {
  import opened Text

  /** `ParseError(markIndex, index, seq, message)`: the mark where the failing construct
      started, the cursor index when the error was raised, the whole input and the message. */
  datatype ParseError = ParseError(markIndex: nat, index: nat, input: string, message: string)

  function Max(a: int, b: int): int {
    if a >= b then a else b
  }

  /** The mark moved back by one when it lands on a line break or at the end of the text. */
  function AdjustedMark(e: ParseError): (adj: nat)
    requires e.markIndex <= |e.input|
    ensures adj <= |e.input|
    ensures ((e.markIndex < |e.input| && e.input[e.markIndex] == '\n') || e.markIndex == |e.input|)
            ==> adj == Max(e.markIndex - 1, 0)
    ensures !((e.markIndex < |e.input| && e.input[e.markIndex] == '\n') || e.markIndex == |e.input|)
            ==> adj == e.markIndex
  {
    var markAdjustment := if (e.markIndex < |e.input| && e.input[e.markIndex] == '\n')
                             || e.markIndex == |e.input| then 1 else 0;
    Max(e.markIndex - markAdjustment, 0)
  }

  // The first pass, one character at a time: the values the loop variables hold after s[..k].

  function LineAt(s: string, k: nat): nat
    requires k <= |s|
  {
    if k == 0 then 1 else LineAt(s, k - 1) + (if s[k - 1] == '\n' then 1 else 0)
  }

  function ColumnAt(s: string, k: nat): (c: nat)
    requires k <= |s|
    ensures c >= 1
  {
    if k == 0 then 1 else if s[k - 1] == '\n' then 1 else ColumnAt(s, k - 1) + 1
  }

  function LineStartAt(s: string, k: nat): (p: nat)
    requires k <= |s|
    ensures p <= k && (k > 0 ==> p < k)
  {
    if k == 0 then 0 else if s[k - 1] == '\n' then k - 1 else LineStartAt(s, k - 1)
  }

  // The second pass, from position i to the first line break.

  function LineEndFrom(s: string, i: nat): (e: nat)
    requires i <= |s|
    ensures i <= e <= |s|
    decreases |s| - i
  {
    if i == |s| then |s| else if s[i] == '\n' then i else LineEndFrom(s, i + 1)
  }

  /** How many positions of [i, line end) lie before `index`: what the second loop adds to the
      column to obtain the end column. */
  function SpanFrom(s: string, i: nat, index: nat): nat
    requires i <= |s|
    decreases |s| - i
  {
    if i == |s| || s[i] == '\n' then 0
    else (if i < index then 1 else 0) + SpanFrom(s, i + 1, index)
  }

  /** The five numbers the diagram is drawn from. */
  datatype Position = Position(line: nat, column: nat, endColumn: nat, contextStart: nat, contextEnd: nat)

  function Locate(e: ParseError): (p: Position)
    requires e.markIndex <= |e.input|
    ensures p.contextStart <= AdjustedMark(e) <= p.contextEnd <= |e.input|
  {
    var s := e.input;
    var adj := AdjustedMark(e);
    var column := ColumnAt(s, adj);
    Position(LineAt(s, adj), column, column + SpanFrom(s, adj, e.index),
             LineStartAt(s, adj), LineEndFrom(s, adj))
  }

  /** The diagnostic drawn from a position: header, message, context line, then the caret
      line. */
  function Diagram(input: string, message: string, p: Position): string
    requires p.contextStart <= p.contextEnd <= |input| && p.column >= 1
  {
    Header(p) + message + Context(input, p)
  }

  /** The text before the message: where the error is. */
  function Header(p: Position): string {
    "Parse error at line " + NatToDecimal(p.line) + ", column " + NatToDecimal(p.column) + ": "
  }

  /** The text after the message: the context line and the caret line under it. */
  function Context(input: string, p: Position): string
    requires p.contextStart <= p.contextEnd <= |input| && p.column >= 1
  {
    ":\n"
    + input[p.contextStart..p.contextEnd] + "\n"
    + Repeat(' ', p.column - 1) + "^"
    + Repeat('-', Max(p.endColumn - p.column - 2, 0))
    + (if p.endColumn > p.column then "^" else "")
    + "\n"
  }

  /** The rendered diagnostic, byte for byte. */
  function ErrorText(e: ParseError): string
    requires e.markIndex <= |e.input|
  {
    Diagram(e.input, e.message, Locate(e))
  }

  /** `errorString()`, with its two counting loops. */
  method ErrorString(e: ParseError) returns (r: string)
    requires e.markIndex <= |e.input|
    ensures r == ErrorText(e)
  {
    var s := e.input;
    var markAdjustment := 0;
    if (e.markIndex < |s| && s[e.markIndex] == '\n') || e.markIndex == |s| {
      markAdjustment := 1;
    }
    var adjustedMarkIndex: nat := Max(e.markIndex - markAdjustment, 0);

    var lineNumber, columnNumber, markStartLineCharIndex := 1, 1, 0;
    var i := 0;
    while i < adjustedMarkIndex
      invariant 0 <= i <= adjustedMarkIndex
      invariant lineNumber == LineAt(s, i)
      invariant columnNumber == ColumnAt(s, i)
      invariant markStartLineCharIndex == LineStartAt(s, i)
    {
      if s[i] == '\n' {
        lineNumber := lineNumber + 1;
        columnNumber := 1;
        markStartLineCharIndex := i;
      } else {
        columnNumber := columnNumber + 1;
      }
      i := i + 1;
    }

    var markEndLineCharIndex := |s|;
    var errorColumnNumber := columnNumber;
    i := adjustedMarkIndex;
    while i < |s|
      invariant adjustedMarkIndex <= i <= |s|
      invariant LineEndFrom(s, i) == LineEndFrom(s, adjustedMarkIndex)
      invariant errorColumnNumber + SpanFrom(s, i, e.index)
                == columnNumber + SpanFrom(s, adjustedMarkIndex, e.index)
    {
      if s[i] == '\n' {
        markEndLineCharIndex := i;
        break;
      }
      if i < e.index {
        errorColumnNumber := errorColumnNumber + 1;
      }
      i := i + 1;
    }

    assert adjustedMarkIndex == AdjustedMark(e);
    var position := Position(lineNumber, columnNumber, errorColumnNumber,
                             markStartLineCharIndex, markEndLineCharIndex);
    assert position == Locate(e);
    r := Diagram(s, e.message, position);
  }

  // Closed forms of what the loops compute.

  /** The line number is one more than the line breaks before the adjusted mark. */
  lemma {:induction false} LineCountsBreaks(s: string, k: nat)
    requires k <= |s|
    ensures LineAt(s, k) == 1 + multiset(s[..k])['\n']
    ensures LineAt(s, k) >= 1
  {
    if k > 0 {
      LineCountsBreaks(s, k - 1);
      assert s[..k] == s[..k - 1] + [s[k - 1]];
    }
  }

  /** The column counts the characters strictly between the last line break before k (or the
      start of the text) and k, plus one; the context starts at that line break. */
  lemma {:induction false} ColumnCountsFromLastBreak(s: string, k: nat)
    requires k <= |s|
    ensures ColumnAt(s, k) >= 1
    ensures var p := LineStartAt(s, k);
      || (p < k && s[p] == '\n' && (forall j :: p < j < k ==> s[j] != '\n')
          && ColumnAt(s, k) == 1 + (k - p - 1))
      || (p == 0 && (forall j :: 0 <= j < k ==> s[j] != '\n') && ColumnAt(s, k) == 1 + k)
  {
    if k > 0 {
      ColumnCountsFromLastBreak(s, k - 1);
    }
  }

  /** The context ends at the first line break at or after i, or at the end of the text. */
  lemma {:induction false} LineEndIsNextBreak(s: string, i: nat)
    requires i <= |s|
    ensures var e := LineEndFrom(s, i);
      && (forall j :: i <= j < e ==> s[j] != '\n')
      && (e == |s| || s[e] == '\n')
    decreases |s| - i
  {
    if i < |s| && s[i] != '\n' {
      LineEndIsNextBreak(s, i + 1);
    }
  }

  /** The underline covers the positions of the mark's line that lie before the cursor index. */
  lemma {:induction false} SpanIsClippedDistance(s: string, i: nat, index: nat)
    requires i <= |s|
    ensures var e := LineEndFrom(s, i);
      SpanFrom(s, i, index) == if index <= i then 0 else if index < e then index - i else e - i
    decreases |s| - i
  {
    if i < |s| && s[i] != '\n' {
      SpanIsClippedDistance(s, i + 1, index);
    }
  }

  /** Line and column are at least 1, the end column is at least the column, and the underline
      never crosses a line break: it ends within the context line. */
  lemma DiagramBounds(e: ParseError)
    requires e.markIndex <= |e.input|
    ensures var p := Locate(e);
      && p.line >= 1 && p.column >= 1
      && p.endColumn >= p.column
      && AdjustedMark(e) + (p.endColumn - p.column) <= p.contextEnd
      && (forall j :: AdjustedMark(e) <= j < p.contextEnd ==> e.input[j] != '\n')
  {
    var adj := AdjustedMark(e);
    LineCountsBreaks(e.input, adj);
    ColumnCountsFromLastBreak(e.input, adj);
    SpanIsClippedDistance(e.input, adj, e.index);
    LineEndIsNextBreak(e.input, adj);
  }

  // The diagrams the tests pin.

  /** A mark at the very start of a one-line text: line 1, column 1, the whole text as context. */
  lemma {:induction false} FirstLineLocation(input: string, index: nat)
    requires forall j :: 0 <= j < |input| ==> input[j] != '\n'
    requires 0 < index < |input|
    ensures Locate(ParseError(0, index, input, [])) == Position(1, 1, 1 + index, 0, |input|)
  {
    var e := ParseError(0, index, input, []);
    assert AdjustedMark(e) == 0;
    LineEndIsNextBreak(input, 0);
    SpanIsClippedDistance(input, 0, index);
  }

  /** Before any line break: line 1, and the column is one more than the index. */
  lemma {:induction false} NoBreakBefore(s: string, k: nat)
    requires k <= |s|
    requires forall j :: 0 <= j < k ==> s[j] != '\n'
    ensures LineAt(s, k) == 1 && ColumnAt(s, k) == k + 1 && LineStartAt(s, k) == 0
  {
    if k > 0 {
      NoBreakBefore(s, k - 1);
    }
  }

  /** On a one-line text, an error whose mark is on a character sits on line 1 at the mark's
      column; its end column counts the characters up to the cursor (clipped to the text), and
      the context is the whole text. */
  lemma OneLineLocation(e: ParseError)
    requires forall j :: 0 <= j < |e.input| ==> e.input[j] != '\n'
    requires e.markIndex < |e.input| && e.markIndex <= e.index
    ensures Locate(e) == Position(1, e.markIndex + 1,
                                  1 + (if e.index <= |e.input| then e.index else |e.input|),
                                  0, |e.input|)
  {
    assert AdjustedMark(e) == e.markIndex;
    NoBreakBefore(e.input, e.markIndex);
    LineEndIsNextBreak(e.input, e.markIndex);
    SpanIsClippedDistance(e.input, e.markIndex, e.index);
  }

  lemma ExpectStringDiagram(message: string)
    ensures ErrorText(ParseError(0, 4, "stri...not", message))
         == "Parse error at line 1, column 1: " + message + ":\nstri...not\n^--^\n"
  {
    var e := ParseError(0, 4, "stri...not", message);
    FirstLineLocation(e.input, 4);
    assert Locate(e) == Locate(ParseError(0, 4, e.input, []));
    assert Header(Locate(e)) == "Parse error at line 1, column 1: ";
    assert Repeat('-', 2) == "--";
    assert Context(e.input, Locate(e)) == ":\nstri...not\n^--^\n";
  }

  lemma EmptyInputDiagram(message: string)
    ensures ErrorText(ParseError(0, 0, "", message))
         == "Parse error at line 1, column 1: " + message + ":\n\n^\n"
  {
    var e := ParseError(0, 0, "", message);
    assert Header(Locate(e)) == "Parse error at line 1, column 1: ";
  }

  /** On a later line the context starts with the line break that precedes it. */
  lemma SecondLineDiagram(message: string)
    ensures ErrorText(ParseError(3, 3, "a\nbc", message))
         == "Parse error at line 2, column 2: " + message + ":\n\nbc\n ^\n"
  {
    var e := ParseError(3, 3, "a\nbc", message);
    assert AdjustedMark(e) == 3;
    assert Locate(e) == Position(2, 2, 2, 1, 4);
    assert Header(Locate(e)) == "Parse error at line 2, column 2: ";
    assert Context(e.input, Locate(e)) == ":\n\nbc\n ^\n";
  }
}
