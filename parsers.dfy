/** The combinators of the parsec package: `Parsers`, `MaybeParser`, `BetweenParser` and
    `ExpectParser`.

    Each combinator has a specification function over (text, index) and an imperative method
    that drives the shared cursor the way the Java `parse` does; the method's postcondition is
    that it does what the specification function says. */
module Parsers {
  import opened Text
  import opened ParseErrors
  import opened ParseStates

  // maybe(p): rewinds on failure only.

  function MaybeAt<T>(p: Parser<T>, s: string, i: nat): Step<T> {
    var step := p(s, i);
    if step.result.IsError() then Step(step.result, i) else step
  }

  function Maybe<T>(p: Parser<T>): Parser<T> {
    (s: string, i: nat) => MaybeAt(p, s, i)
  }

  /** `MaybeParser.parse`. */
  method MaybeParse<T>(c: Cursor, p: Parser<T>) returns (r: Result<T>)
    modifies c
    ensures Step(r, c.index) == MaybeAt(p, c.text, old(c.index))
  {
    var pos := c.MarkHere();
    r := c.Run(p);
    if r.IsError() {
      c.Rewind(pos);
    }
  }

  /** The result is the inner parser's; the cursor is back at the start exactly when the inner
      parser failed, and otherwise where the inner parser left it. */
  lemma MaybeOutcome<T>(p: Parser<T>, s: string, i: nat)
    ensures Maybe(p)(s, i).result == p(s, i).result
    ensures p(s, i).result.Err? ==> Maybe(p)(s, i).pos == i
    ensures !p(s, i).result.Err? ==> Maybe(p)(s, i).pos == p(s, i).pos
  {
  }

  lemma MaybeIdempotent<T>(p: Parser<T>, s: string, i: nat)
    ensures Maybe(Maybe(p))(s, i) == Maybe(p)(s, i)
  {
  }

  lemma MaybePreserves<T>(p: Parser<T>)
    ensures Monotone(p) ==> Monotone(Maybe(p))
    ensures Bounded(p) ==> Bounded(Maybe(p))
  {
  }

  // whitespace(p): skip whitespace, then p.

  function WhitespaceAt<T>(p: Parser<T>, s: string, i: nat): Step<T> {
    p(s, SkipWs(s, i))
  }

  function Whitespace<T>(p: Parser<T>): Parser<T> {
    (s: string, i: nat) => WhitespaceAt(p, s, i)
  }

  /** The parser `Parsers.whitespace(p)` returns. */
  method WhitespaceParse<T>(c: Cursor, p: Parser<T>) returns (r: Result<T>)
    modifies c
    ensures Step(r, c.index) == WhitespaceAt(p, c.text, old(c.index))
  {
    c.SkipWhitespace();
    r := c.Run(p);
  }

  /** `p` runs on the first non-whitespace position, and its result is returned unchanged. */
  lemma WhitespaceOutcome<T>(p: Parser<T>, s: string, i: nat)
    ensures var j := SkipWs(s, i);
      && i <= j && (i <= |s| ==> j <= |s|)
      && (forall k :: i <= k < j ==> IsWhitespace(Code(s[k])))
      && !IsWhitespace(Peek(s, j))
      && Whitespace(p)(s, i) == p(s, j)
  {
    SkipWsStops(s, i);
  }

  lemma WhitespacePreserves<T>(p: Parser<T>)
    ensures Monotone(p) ==> Monotone(Whitespace(p))
    ensures Bounded(p) ==> Bounded(Whitespace(p))
  {
    forall s: string, i: nat {
      SkipWsStops(s, i);
    }
  }

  // expect(char): skip whitespace, then one character.

  function ExpectMessage(expectation: string): string {
    "Expected to find '" + expectation + "'"
  }

  function ExpectCharAt(ch: char, s: string, i: nat): (r: Step<char>)
    ensures i <= r.pos && (i <= |s| ==> r.pos <= |s|)
  {
    var j := SkipWs(s, i);
    if Peek(s, j) == Code(ch) then Step(Ok(ch), j + 1)
    else Step(Err(ParseError(j, j, s, ExpectMessage([ch]))), j)
  }

  function ExpectChar(ch: char): Parser<char> {
    (s: string, i: nat) => ExpectCharAt(ch, s, i)
  }

  /** `ExpectParser.parse`. */
  method ExpectCharParse(c: Cursor, ch: char) returns (r: Result<char>)
    modifies c
    ensures Step(r, c.index) == ExpectCharAt(ch, c.text, old(c.index))
  {
    c.SkipWhitespace();
    if c.Current() == Code(ch) {
      var _ := c.Next();
      return Ok(ch);
    }
    return Err(c.Error(c.MarkHere(), ExpectMessage([ch])));
  }

  /** Succeeds exactly when the first non-whitespace character is `ch`, consuming the whitespace
      and that character; otherwise fails there, with the whitespace consumed. At the end of
      the text it always fails. */
  lemma ExpectCharOutcome(ch: char, s: string, i: nat)
    ensures var j := SkipWs(s, i);
      && (ExpectChar(ch)(s, i).result.Ok? <==> j < |s| && s[j] == ch)
      && (ExpectChar(ch)(s, i).result.Ok? ==>
            ExpectChar(ch)(s, i) == Step(Ok(ch), j + 1) && j + 1 <= |s|)
      && (!ExpectChar(ch)(s, i).result.Ok? ==>
            ExpectChar(ch)(s, i) == Step(Err(ParseError(j, j, s, ExpectMessage([ch]))), j))
    ensures SkipWs(s, i) >= |s| ==> ExpectChar(ch)(s, i).result.Err?
  {
    SkipWsStops(s, i);
  }

  lemma ExpectCharIsBounded(ch: char)
    ensures Monotone(ExpectChar(ch)) && Bounded(ExpectChar(ch))
  {
    forall s: string, i: nat
      ensures ExpectChar(ch)(s, i).pos >= i
      ensures i <= |s| ==> ExpectChar(ch)(s, i).pos <= |s|
    {
      ExpectCharOutcome(ch, s, i);
      SkipWsStops(s, i);
    }
  }

  // expect(String): a literal, with no whitespace skipping.

  /** The loop of `expect(String)` from its k-th iteration, the mark being at i. */
  function ExpectFrom(lit: string, s: string, i: nat, k: nat): Step<string>
    requires k <= |lit|
    decreases |lit| - k
  {
    if k == |lit| then Step(Ok(lit), i + k)
    else if Peek(s, i + k) != Code(lit[k]) then
      Step(Err(ParseError(i, i + k, s, ExpectMessage(lit))), i + k)
    else if i + k == |s| then
      Step(Err(ParseError(i, i + k, s, "Unexpectedly reached end of stream.")), i + k)
    else ExpectFrom(lit, s, i, k + 1)
  }

  function ExpectStringAt(lit: string, s: string, i: nat): Step<string> {
    ExpectFrom(lit, s, i, 0)
  }

  function ExpectString(lit: string): Parser<string> {
    (s: string, i: nat) => ExpectStringAt(lit, s, i)
  }

  /** The parser `Parsers.expect(String)` returns. */
  method ExpectStringParse(c: Cursor, lit: string) returns (r: Result<string>)
    modifies c
    ensures Step(r, c.index) == ExpectStringAt(lit, c.text, old(c.index))
  {
    var pos := c.MarkHere();
    for k := 0 to |lit|
      invariant c.index == pos.markIndex + k
      invariant ExpectFrom(lit, c.text, pos.markIndex, k) == ExpectStringAt(lit, c.text, pos.markIndex)
    {
      if c.Current() != Code(lit[k]) {
        return Err(c.Error(pos, ExpectMessage(lit)));
      }
      if c.IsEndOfStream() {
        // The "Unexpectedly reached end of stream." return: at the end of the text the
        // character test above has already failed, since EOS matches no character.
        assert false;
      }
      var _ := c.Next();
    }
    return Ok(lit);
  }

  /** From the k-th character on: success exactly when the rest of the literal follows; a
      failure is always the mismatch error at the first differing position, never the end of
      stream error. */
  lemma {:induction false} ExpectFromOutcome(lit: string, s: string, i: nat, k: nat)
    requires k <= |lit| && i + k <= |s| && s[i..i + k] == lit[..k]
    ensures var step := ExpectFrom(lit, s, i, k);
      && (step.result.Ok? <==> i + |lit| <= |s| && s[i..i + |lit|] == lit)
      && (step.result.Ok? ==> step == Step(Ok(lit), i + |lit|))
      && (!step.result.Ok? ==>
            && step.result == Err(ParseError(i, step.pos, s, ExpectMessage(lit)))
            && k <= step.pos - i < |lit| && step.pos <= |s|
            && s[i..step.pos] == lit[..step.pos - i]
            && (step.pos == |s| || s[step.pos] != lit[step.pos - i]))
    decreases |lit| - k
  {
    if k == |lit| {
      assert lit[..k] == lit;
    } else if Peek(s, i + k) != Code(lit[k]) {
    } else {
      assert s[i..i + k + 1] == s[i..i + k] + [s[i + k]];
      assert lit[..k + 1] == lit[..k] + [lit[k]];
      ExpectFromOutcome(lit, s, i, k + 1);
      if i + |lit| <= |s| && s[i..i + |lit|] == lit {
        assert s[i..i + k + 1] == s[i..i + |lit|][..k + 1];
      }
    }
  }

  /** `expect(s)` consumes exactly the literal and returns it, or fails with "Expected to find"
      anchored at the start, the cursor left at the first mismatch (not rewound). The "end of
      stream" branch is dead: at the end `current()` is EOS, which matches no character. */
  lemma ExpectStringOutcome(lit: string, s: string, i: nat)
    requires i <= |s|
    ensures var step := ExpectString(lit)(s, i);
      && (step.result.Ok? <==> i + |lit| <= |s| && s[i..i + |lit|] == lit)
      && (step.result.Ok? ==> step == Step(Ok(lit), i + |lit|))
      && (!step.result.Ok? ==>
            && step.result == Err(ParseError(i, step.pos, s, ExpectMessage(lit)))
            && i <= step.pos < i + |lit| && step.pos <= |s|
            && s[i..step.pos] == lit[..step.pos - i]
            && (step.pos == |s| || s[step.pos] != lit[step.pos - i]))
  {
    ExpectFromOutcome(lit, s, i, 0);
  }

  lemma ExpectStringIsBounded(lit: string)
    ensures Monotone(ExpectString(lit)) && Bounded(ExpectString(lit))
  {
    forall s: string, i: nat
      ensures ExpectString(lit)(s, i).pos >= i
      ensures i <= |s| ==> ExpectString(lit)(s, i).pos <= |s|
    {
      ExpectFromAdvances(lit, s, i, 0);
      if i <= |s| {
        ExpectStringOutcome(lit, s, i);
      }
    }
  }

  lemma {:induction false} ExpectFromAdvances(lit: string, s: string, i: nat, k: nat)
    requires k <= |lit|
    ensures ExpectFrom(lit, s, i, k).pos >= i + k
    decreases |lit| - k
  {
    if k < |lit| && Peek(s, i + k) == Code(lit[k]) && i + k != |s| {
      ExpectFromAdvances(lit, s, i, k + 1);
    }
  }

  // between(start, p, end, default).

  function BetweenAt<T, A, B>(start: Parser<A>, p: Parser<T>, end: Parser<B>, default: T,
                              s: string, i: nat): Step<T>
  {
    var started := start(s, i);
    if !started.result.Ok? then Step(Coerce(started.result), started.pos)
    else
      var probe := MaybeAt(end, s, started.pos);
      if probe.result.Thrown? then Step(Coerce(probe.result), probe.pos)
      else if probe.result.Ok? then Step(Ok(default), probe.pos)
      else
        var inner := p(s, probe.pos);
        if !inner.result.Ok? then inner
        else
          var ended := end(s, inner.pos);
          if !ended.result.Ok? then Step(Coerce(ended.result), ended.pos)
          else Step(inner.result, ended.pos)
  }

  function Between<T, A, B>(start: Parser<A>, p: Parser<T>, end: Parser<B>, default: T): Parser<T> {
    (s: string, i: nat) => BetweenAt(start, p, end, default, s, i)
  }

  /** `BetweenParser.parse`. */
  method BetweenParse<T, A, B>(c: Cursor, start: Parser<A>, p: Parser<T>, end: Parser<B>, default: T)
    returns (r: Result<T>)
    modifies c
    ensures Step(r, c.index) == BetweenAt(start, p, end, default, c.text, old(c.index))
  {
    var startResult := c.Run(start);
    if !startResult.Ok? {
      return Coerce(startResult);
    }
    var probe := MaybeParse(c, end);
    if probe.Thrown? {
      return Coerce(probe);
    }
    if !probe.IsError() {
      return Ok(default);
    }
    r := c.Run(p);
    if !r.Ok? {
      return r;
    }
    var endResult := c.Run(end);
    if !endResult.Ok? {
      return Coerce(endResult);
    }
  }

  /** The cases of `between`: a failed start is returned; an end right after the start yields
      the default and stays consumed; otherwise the probe is undone and the inner parser runs
      right after the start, and its failure, the end's failure or its value is returned. */
  lemma BetweenOutcome<T, A, B>(start: Parser<A>, p: Parser<T>, end: Parser<B>, default: T,
                                s: string, i: nat)
    ensures var step := Between(start, p, end, default)(s, i);
      var started := start(s, i);
      && (!started.result.Ok? ==> step == Step(Coerce(started.result), started.pos))
      && (started.result.Ok? && end(s, started.pos).result.Ok? ==>
            step == Step(Ok(default), end(s, started.pos).pos))
      && (started.result.Ok? && end(s, started.pos).result.Err? ==>
            var inner := p(s, started.pos);
            && (!inner.result.Ok? ==> step == inner)
            && (inner.result.Ok? && !end(s, inner.pos).result.Ok? ==>
                  step == Step(Coerce(end(s, inner.pos).result), end(s, inner.pos).pos))
            && (inner.result.Ok? && end(s, inner.pos).result.Ok? ==>
                  step == Step(inner.result, end(s, inner.pos).pos)))
  {
  }

  /** `between` over an empty body: the end matches right after the start. */
  lemma BetweenEmpty<T, A, B>(start: Parser<A>, p: Parser<T>, end: Parser<B>, default: T,
                              s: string, i: nat, j: nat)
    requires start(s, i).result.Ok? && start(s, i).pos == j && end(s, j).result.Ok?
    ensures Between(start, p, end, default)(s, i) == Step(Ok(default), end(s, j).pos)
  {
    BetweenOutcome(start, p, end, default, s, i);
  }

  /** `between` over a body: the end fails right after the start, the body reads a value and
      the end matches after it. */
  lemma BetweenFull<T, A, B>(start: Parser<A>, p: Parser<T>, end: Parser<B>, default: T,
                             s: string, i: nat, j: nat, v: T, k: nat)
    requires start(s, i).result.Ok? && start(s, i).pos == j && end(s, j).result.Err?
    requires p(s, j) == Step(Ok(v), k) && end(s, k).result.Ok?
    ensures Between(start, p, end, default)(s, i) == Step(Ok(v), end(s, k).pos)
  {
    BetweenOutcome(start, p, end, default, s, i);
  }

  /** `between` two characters at the start of the text, with no whitespace around them and a
      body that does not start with the closing character. */
  lemma BetweenChars<T>(open: char, p: Parser<T>, close: char, default: T, s: string, v: T, e: nat)
    requires !IsWhitespace(Code(open)) && !IsWhitespace(Code(close))
    requires 1 < |s| && s[0] == open
    requires SkipWs(s, 1) < |s| && s[SkipWs(s, 1)] != close
    requires p(s, 1) == Step(Ok(v), e)
    requires e < |s| && s[e] == close
    ensures Between(ExpectChar(open), p, ExpectChar(close), default)(s, 0) == Step(Ok(v), e + 1)
  {
    NoSkipAt(s, 0);
    NoSkipAt(s, e);
    assert ExpectChar(open)(s, 0) == Step(Ok(open), 1);
    assert ExpectChar(close)(s, 1).result.Err?;
    assert ExpectChar(close)(s, e) == Step(Ok(close), e + 1);
    BetweenFull(ExpectChar(open), p, ExpectChar(close), default, s, 0, 1, v, e);
  }

  /** `between` two characters at the start of the text whose body reads up to the end of the
      text: the closing character is missing there. */
  lemma BetweenCharsUnclosed<T>(open: char, p: Parser<T>, close: char, default: T, s: string, v: T)
    requires !IsWhitespace(Code(open))
    requires 1 < |s| && s[0] == open
    requires SkipWs(s, 1) < |s| && s[SkipWs(s, 1)] != close
    requires p(s, 1) == Step(Ok(v), |s|)
    ensures Between(ExpectChar(open), p, ExpectChar(close), default)(s, 0)
         == Step(Err(ParseError(|s|, |s|, s, ExpectMessage([close]))), |s|)
  {
    NoSkipAt(s, 0);
    assert ExpectChar(open)(s, 0) == Step(Ok(open), 1);
    assert ExpectChar(close)(s, 1).result.Err?;
    BetweenOutcome(ExpectChar(open), p, ExpectChar(close), default, s, 0);
  }

  /** `between` two characters at the start of the text whose body fails: the failure is the
      outcome. */
  lemma BetweenCharsBodyFails<T>(open: char, p: Parser<T>, close: char, default: T, s: string)
    requires !IsWhitespace(Code(open))
    requires 1 < |s| && s[0] == open
    requires SkipWs(s, 1) < |s| && s[SkipWs(s, 1)] != close
    requires !p(s, 1).result.Ok?
    ensures Between(ExpectChar(open), p, ExpectChar(close), default)(s, 0) == p(s, 1)
  {
    NoSkipAt(s, 0);
    assert ExpectChar(open)(s, 0) == Step(Ok(open), 1);
    assert ExpectChar(close)(s, 1).result.Err?;
    BetweenOutcome(ExpectChar(open), p, ExpectChar(close), default, s, 0);
  }

  lemma BetweenPreserves<T, A, B>(start: Parser<A>, p: Parser<T>, end: Parser<B>, default: T)
    ensures Monotone(start) && Monotone(p) && Monotone(end) ==>
              Monotone(Between(start, p, end, default))
    ensures Bounded(start) && Bounded(p) && Bounded(end) ==> Bounded(Between(start, p, end, default))
  {
    if Monotone(start) && Monotone(p) && Monotone(end) {
      forall s: string, i: nat ensures Between(start, p, end, default)(s, i).pos >= i {
        var started := start(s, i);
        var inner := p(s, started.pos);
        assert started.pos >= i && inner.pos >= started.pos && end(s, inner.pos).pos >= inner.pos;
      }
    }
    if Bounded(start) && Bounded(p) && Bounded(end) {
      forall s: string, i: nat | i <= |s| ensures Between(start, p, end, default)(s, i).pos <= |s| {
        var started := start(s, i);
        if started.result.Ok? {
          var inner := p(s, started.pos);
          assert end(s, started.pos).pos <= |s| && inner.pos <= |s|;
          assert end(s, inner.pos).pos <= |s|;
        }
      }
    }
  }

  // composeResult(p, f) and error(message).

  function ComposeResultAt<T, U>(p: Parser<T>, f: T -> U, s: string, i: nat): Step<U> {
    var step := p(s, i);
    Step(MapResult(step.result, f), step.pos)
  }

  function ComposeResult<T, U>(p: Parser<T>, f: T -> U): Parser<U> {
    (s: string, i: nat) => ComposeResultAt(p, f, s, i)
  }

  /** The parser `Parsers.composeResult(p, f)` returns. */
  method ComposeResultParse<T, U>(c: Cursor, p: Parser<T>, f: T -> U) returns (r: Result<U>)
    modifies c
    ensures Step(r, c.index) == ComposeResultAt(p, f, c.text, old(c.index))
  {
    var inner := c.Run(p);
    r := MapResult(inner, f);
  }

  /** A success value goes through f, anything else passes unchanged, and the cursor moves
      exactly as p moves it. */
  lemma ComposeResultOutcome<T, U>(p: Parser<T>, f: T -> U, s: string, i: nat)
    ensures ComposeResult(p, f)(s, i).pos == p(s, i).pos
    ensures p(s, i).result.Ok? ==> ComposeResult(p, f)(s, i).result == Ok(f(p(s, i).result.value))
    ensures p(s, i).result.Err? ==> ComposeResult(p, f)(s, i).result == Err(p(s, i).result.error)
    ensures p(s, i).result.Thrown? ==>
              ComposeResult(p, f)(s, i).result == Thrown(p(s, i).result.exception)
  {
  }

  lemma ComposeResultPreserves<T, U>(p: Parser<T>, f: T -> U)
    ensures Monotone(p) ==> Monotone(ComposeResult(p, f))
    ensures Bounded(p) ==> Bounded(ComposeResult(p, f))
  {
  }

  function FailAt<T>(message: string, s: string, i: nat): Step<T> {
    Step(Err(ParseError(i, i, s, message)), i)
  }

  function Fail<T>(message: string): Parser<T> {
    (s: string, i: nat) => FailAt(message, s, i)
  }

  /** The parser `Parsers.error(message)` returns: it only reads the cursor. */
  method FailParse<T>(c: Cursor, message: string) returns (r: Result<T>)
    ensures Step(r, c.index) == FailAt(message, c.text, c.index)
  {
    r := Err(c.Error(c.MarkHere(), message));
  }

  /** `error(message)` consumes nothing and fails with an empty span at the cursor. */
  lemma FailOutcome<T>(message: string, s: string, i: nat)
    ensures var step: Step<T> := Fail(message)(s, i);
      && step.pos == i
      && step.result.Err?
      && step.result.error.markIndex == step.result.error.index == i
      && step.result.error.message == message
  {
  }
}
