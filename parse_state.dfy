/** The cursor every parser shares (`ParseState`), the result of a parse and the parser type.

    A parser is modelled by what one call of `parse(state)` does: from the text and the cursor
    index before the call it determines the result and the cursor index after the call. The
    imperative cursor methods below are proved against these functions. */
module ParseStates {
  import opened Text
  import opened ParseErrors

  /** The outcome of `parse`: a value, a parse error, or a Java exception that escapes the
      parser (the only source in this code is decoding a malformed `\u` escape). */
  datatype Result<T> = Ok(value: T) | Err(error: ParseError) | Thrown(exception: string)
  {
    /** `Result.isError()`: an escaping exception is not a result, so it is not an error. */
    predicate IsError() {
      Err?
    }
  }

  /** Re-types a result that carries no value (`Result.coerce`). */
  function Coerce<T, U>(r: Result<T>): (q: Result<U>)
    requires !r.Ok?
    ensures r.Err? ==> q == Err(r.error)
    ensures r.Thrown? ==> q == Thrown(r.exception)
  {
    match r
    case Err(e) => Err(e)
    case Thrown(x) => Thrown(x)
  }

  /** `Result.mapResult`: applies `f` to a value and passes the other outcomes on. */
  function MapResult<T, U>(r: Result<T>, f: T -> U): (q: Result<U>)
    ensures q.Ok? <==> r.Ok?
    ensures r.Ok? ==> q.value == f(r.value)
    ensures !r.Ok? ==> q == Coerce(r)
  {
    match r
    case Ok(v) => Ok(f(v))
    case Err(e) => Err(e)
    case Thrown(x) => Thrown(x)
  }

  /** The parsec package's `Empty`: the value of a parser that only recognises text. */
  datatype Empty = Empty

  /** One call of a parser: its result and the cursor index it leaves behind. */
  datatype Step<T> = Step(result: Result<T>, pos: nat)

  /** `Parser<T>`: what `parse` does, as a function of the text and the index before the call. */
  type Parser<T> = (string, nat) -> Step<T>

  /** The parser never moves the cursor backwards. */
  ghost predicate Monotone<T>(p: Parser<T>) {
    forall s: string, i: nat :: p(s, i).pos >= i
  }

  /** Started within the text, the parser leaves the cursor within the text: it never calls
      `next()` at the end of the stream. */
  ghost predicate Bounded<T>(p: Parser<T>) {
    forall s: string, i: nat :: i <= |s| ==> p(s, i).pos <= |s|
  }

  /** `current()` at index i: the character's code, or EOS past the last character. */
  function Peek(s: string, i: nat): (c: int)
    ensures c == EOS <==> i >= |s|
    ensures i < |s| ==> c == Code(s[i])
  {
    if i < |s| then Code(s[i]) else EOS
  }

  /** Where `skipWhitespace()` stops when started at index i. */
  function SkipWs(s: string, i: nat): (j: nat)
    ensures i <= j
    ensures i <= |s| ==> j <= |s|
    decreases |s| - i
  {
    if i < |s| && IsWhitespace(Code(s[i])) then SkipWs(s, i + 1) else i
  }

  /** `skipWhitespace()` stops at the first index at or after i that is past the text or holds
      a non-whitespace character; everything it skips is whitespace. */
  lemma {:induction false} SkipWsStops(s: string, i: nat)
    ensures var j := SkipWs(s, i);
      && i <= j
      && (i <= |s| ==> j <= |s|)
      && (i >= |s| ==> j == i)
      && (forall k :: i <= k < j ==> IsWhitespace(Code(s[k])))
      && !IsWhitespace(Peek(s, j))
    decreases |s| - i
  {
    if i < |s| && IsWhitespace(Code(s[i])) {
      SkipWsStops(s, i + 1);
    } else {
      EosIsNoCharacter('a');
    }
  }

  /** Skipping whitespace does not move off a character that is not whitespace. */
  lemma NoSkipAt(s: string, k: nat)
    requires k < |s| && !IsWhitespace(Code(s[k]))
    ensures SkipWs(s, k) == k
  {
  }

  /** Skipping whitespace twice is skipping it once. */
  lemma SkipWsIdempotent(s: string, i: nat)
    ensures SkipWs(s, SkipWs(s, i)) == SkipWs(s, i)
  {
    SkipWsStops(s, i);
    var j := SkipWs(s, i);
    assert !(j < |s| && IsWhitespace(Code(s[j])));
  }

  /** A position in the text (`ParseState.Mark`). */
  datatype Mark = Mark(markIndex: nat)

  /** `ParseState`: an immutable text and a mutable index into it. */
  class Cursor {
    const text: string
    var index: nat

    constructor (text: string)
      ensures this.text == text && index == 0
    {
      this.text := text;
      index := 0;
    }

    /** `current()`. */
    function Current(): (c: int)
      reads this
      ensures c == EOS <==> index >= |text|
      ensures index < |text| ==> c == Code(text[index])
    {
      Peek(text, index)
    }

    /** `isEndOfStream()`: exactly at the end (an index past the end does not count). */
    function IsEndOfStream(): (b: bool)
      reads this
      ensures b <==> index == |text|
    {
      index == |text|
    }

    /** `skipWhitespace()`. */
    method SkipWhitespace()
      modifies this
      ensures index == SkipWs(text, old(index))
      ensures old(index) <= index
      ensures old(index) <= |text| ==> index <= |text|
      ensures !IsWhitespace(Current())
    {
      SkipWsStops(text, index);
      ghost var start := index;
      while index < |text| && IsWhitespace(Code(text[index]))
        invariant start <= index
        invariant SkipWs(text, index) == SkipWs(text, start)
        decreases |text| - index
      {
        index := index + 1;
      }
    }

    /** `next()`: one step forward, with no clamp at the end, then `current()`. */
    method Next() returns (c: int)
      modifies this
      ensures index == old(index) + 1
      ensures c == Current()
    {
      index := index + 1;
      c := Current();
    }

    /** `mark()`: the cursor does not move. */
    function MarkHere(): (m: Mark)
      reads this
      ensures m.markIndex == index
    {
      Mark(index)
    }

    /** `rewind(mark)`: back to exactly the marked index. */
    method Rewind(m: Mark)
      modifies this
      ensures index == m.markIndex
    {
      index := m.markIndex;
    }

    /** `slice(mark)`: the text from the mark up to the cursor. */
    function Slice(m: Mark): (r: string)
      reads this
      requires m.markIndex <= index <= |text|
      ensures |r| == index - m.markIndex
      ensures forall k :: 0 <= k < |r| ==> r[k] == text[m.markIndex + k]
    {
      text[m.markIndex..index]
    }

    /** `Mark.error(message)`: an error spanning from the mark to the current index. */
    function Error(m: Mark, message: string): (e: ParseError)
      reads this
      ensures e.markIndex == m.markIndex && e.index == index
      ensures e.input == text && e.message == message
    {
      ParseError(m.markIndex, index, text, message)
    }

    /** `parser.parse(this)`: runs a parser on this cursor. */
    method Run<T>(p: Parser<T>) returns (r: Result<T>)
      modifies this
      ensures Step(r, index) == p(text, old(index))
    {
      var step := p(text, index);
      index := step.pos;
      r := step.result;
    }
  }
}
