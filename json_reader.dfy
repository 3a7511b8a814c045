/** `JsonReader`: the fast scanner, a recursive descent straight over the bytes of the input
    with an index, where a failure moves the index to the end of the input (`fail()`) so that
    every enclosing loop stops. It is modelled as written, with its quirks: `true` reads as
    false, an object drops the errors of its values, an object whose key runs to the end reads
    past the input, and an array that meets `}` loops forever. */
module JsonReader {
  import opened Text
  import opened JsonNumbers
  import opened JsonCollections

  /** A byte of the input, as the unsigned value of the Java `byte` (only comparisons with
      ASCII characters are made, and a negative Java byte equals none of them). */
  type Byte = x: int | 0 <= x < 256

  /** The values the reader yields: `Optional.empty()`, a `Boolean`, a `Double`, a `String`
      (kept as its raw bytes), an `ArrayList` and a `LinkedHashMap`. */
  datatype Value =
    | RNull
    | RBool(b: bool)
    | RNumber(n: Fp)
    | RString(raw: seq<Byte>)
    | RArray(items: seq<Value>)
    | RObject(entries: seq<(seq<Byte>, Value)>)

  /** How a reader ends: a value (`Result.ok`), the unit error (`Result.error(new Error())`),
      an `ArrayIndexOutOfBoundsException` from reading past the input, or never. */
  datatype Outcome<T> = Ok(value: T) | Error | Crash | Diverge

  /** A reader's outcome and the index it leaves behind (for a crash, the index it read at;
      for a loop that never ends, the index it keeps coming back to). */
  datatype Run<T> = Run(outcome: Outcome<T>, index: int)

  /** `isWhitespace(byte)`: only space, line feed, carriage return and tab. */
  predicate IsSpace(b: int) {
    b == Code(' ') || b == Code('\n') || b == Code('\r') || b == Code('\t')
  }

  /** `isValueBoundary(byte)`: whitespace, brackets, braces and the comma. */
  predicate IsBoundary(b: int) {
    || IsSpace(b)
    || b == Code('[') || b == Code(']') || b == Code('{') || b == Code('}') || b == Code(',')
  }

  /** The bytes a loop at index i still has to look at; every loop makes it shrink. */
  function Measure(b: seq<Byte>, i: int): nat {
    if 0 <= i < |b| then |b| - i else 0
  }

  /** The bytes as the characters of the same codes, the decoding of an ASCII text. */
  function Latin1(bs: seq<Byte>): (t: string)
    ensures |t| == |bs|
  {
    if bs == [] then [] else [bs[0] as char] + Latin1(bs[1..])
  }

  /** A byte a successful reader may stop on: the closing quote, the last letter of a
      literal or the last byte of a number (none of them a boundary), `}` or `]`. */
  predicate LastByte(c: int) {
    c == Code('}') || c == Code(']') || !IsBoundary(c)
  }

  // The scanners of one kind of value. Each starts on the value's first byte.

  /** The loop of `readString` from index k: stop on a quote, step over a backslash and the
      byte after it, step over anything else, until the index is past the input. */
  function StringEnd(b: seq<Byte>, k: int): (e: int)
    requires 0 <= k
    ensures k <= e && (e < |b| ==> b[e] == Code('"'))
    decreases |b| - k
  {
    if k >= |b| then k
    else if b[k] == Code('"') then k
    else if b[k] == Code('\\') then StringEnd(b, k + 2)
    else StringEnd(b, k + 1)
  }

  /** `readString`: the bytes after the first one, whatever that one is, up to the next quote
      that is not the second byte of a backslash pair, raw; the index is left on that quote. A
      string that runs to the end fails, and the failure moves the index to the end. */
  function StringAt(b: seq<Byte>, i: int): (r: Run<seq<Byte>>)
    requires 0 <= i < |b|
    ensures r.outcome.Ok? || r.outcome.Error?
    ensures r.outcome.Ok? ==> i < r.index < |b| && b[r.index] == Code('"') && r.outcome.value == b[i + 1..r.index]
    ensures r.outcome.Error? ==> r.index == |b|
  {
    var e := StringEnd(b, i + 1);
    if e >= |b| then Run(Error, |b|) else Run(Ok(b[i + 1..e]), e)
  }

  /** `readTrue`: it succeeds exactly when the three bytes after the `t` are `rue`, leaves the
      index on the `e`, and yields `Boolean.FALSE`; a failure moves the index to the end. */
  function TrueAt(b: seq<Byte>, i: int): (r: Run<bool>)
    requires 0 <= i < |b|
    ensures r.outcome.Ok? || r.outcome.Error?
    ensures r.outcome.Ok? <==> i + 3 < |b| && b[i + 1] == Code('r') && b[i + 2] == Code('u') && b[i + 3] == Code('e')
    ensures r.outcome.Ok? ==> r.outcome.value == false && r.index == i + 3
    ensures r.outcome.Error? ==> r.index == |b|
  {
    if i + 3 < |b| && b[i + 1] == Code('r') && b[i + 2] == Code('u') && b[i + 3] == Code('e')
    then Run(Ok(false), i + 3)
    else Run(Error, |b|)
  }

  /** `readFalse`: it succeeds exactly when the four bytes after the `f` are `alse`. */
  function FalseAt(b: seq<Byte>, i: int): (r: Run<bool>)
    requires 0 <= i < |b|
    ensures r.outcome.Ok? || r.outcome.Error?
    ensures r.outcome.Ok? <==>
      i + 4 < |b| && b[i + 1] == Code('a') && b[i + 2] == Code('l') && b[i + 3] == Code('s') && b[i + 4] == Code('e')
    ensures r.outcome.Ok? ==> r.outcome.value == false && r.index == i + 4
    ensures r.outcome.Error? ==> r.index == |b|
  {
    if i + 4 < |b| && b[i + 1] == Code('a') && b[i + 2] == Code('l') && b[i + 3] == Code('s')
       && b[i + 4] == Code('e')
    then Run(Ok(false), i + 4)
    else Run(Error, |b|)
  }

  /** `readNull`: it succeeds exactly when the three bytes after the `n` are `ull`, and yields
      the empty value. */
  function NullAt(b: seq<Byte>, i: int): (r: Run<Value>)
    requires 0 <= i < |b|
    ensures r.outcome.Ok? || r.outcome.Error?
    ensures r.outcome.Ok? <==> i + 3 < |b| && b[i + 1] == Code('u') && b[i + 2] == Code('l') && b[i + 3] == Code('l')
    ensures r.outcome.Ok? ==> r.outcome.value == RNull && r.index == i + 3
    ensures r.outcome.Error? ==> r.index == |b|
  {
    if i + 3 < |b| && b[i + 1] == Code('u') && b[i + 2] == Code('l') && b[i + 3] == Code('l')
    then Run(Ok(RNull), i + 3)
    else Run(Error, |b|)
  }

  /** The loop of `readNumber` from index k: up to the first boundary or the end. */
  function TokenEnd(b: seq<Byte>, k: int): (e: int)
    requires 0 <= k <= |b|
    ensures k <= e <= |b|
    ensures forall m :: k <= m < e ==> !IsBoundary(b[m])
    ensures e < |b| ==> IsBoundary(b[e])
    decreases |b| - k
  {
    if k < |b| && !IsBoundary(b[k]) then TokenEnd(b, k + 1) else k
  }

  /** `readNumber`: the bytes up to the next boundary, converted by `Double.parseDouble`; the
      index is left one before the boundary, on the token's last byte. An empty token (the
      reader started on a boundary) is refused, and a refused token fails where it stands,
      without moving the index to the end. */
  function NumberAt(b: seq<Byte>, i: int): (r: Run<Value>)
    requires 0 <= i < |b|
    ensures r.outcome.Ok? || r.outcome.Error?
    ensures r.index == TokenEnd(b, i) - 1
    ensures r.outcome.Ok? ==> i <= r.index && r.outcome.value.RNumber?
  {
    var e := TokenEnd(b, i);
    match ParseFloating(Latin1(b[i..e]))
    case Some(v) => Run(Ok(RNumber(v)), e - 1)
    case None => Run(Error, e - 1)
  }

  /** `whitespace(state)`: the first index at or after k that is past the input or on a byte
      other than whitespace. */
  function SpacesEnd(b: seq<Byte>, k: int): (e: int)
    requires 0 <= k
    ensures k <= e && (k <= |b| ==> e <= |b|)
    ensures forall m :: k <= m < e ==> m < |b| && IsSpace(b[m])
    ensures e < |b| ==> !IsSpace(b[e])
    decreases |b| - k
  {
    if k < |b| && IsSpace(b[k]) then SpacesEnd(b, k + 1) else k
  }

  // The recursive descent.

  /** `any(state)` from index i: skip whitespace; then an object on `{`, an array on `[`, a
      string on a quote, `true` on `t`, `false` on `f`, `null` on `n` and a number on anything
      else. Past the input it fails, leaving the index there. A value that is read leaves the
      index on its last byte, except an object the input ends inside, which leaves it at the
      end. */
  function AnyAt(b: seq<Byte>, i: int): (r: Run<Value>)
    requires 0 <= i <= |b|
    ensures i - 1 <= r.index && (r.outcome.Crash? || r.index <= |b|)
    ensures r.outcome.Ok? ==>
      (0 <= r.index < |b| && LastByte(b[r.index])) || (r.index == |b| && r.outcome.value.RObject?)
    decreases Measure(b, i), 1
  {
    if i == |b| then Run(Error, i)
    else if IsSpace(b[i]) then AnyAt(b, i + 1)
    else if b[i] == Code('{') then ObjectAt(b, i)
    else if b[i] == Code('[') then ArrayAt(b, i)
    else if b[i] == Code('"') then
      var r := StringAt(b, i);
      Run(if r.outcome.Ok? then Ok(RString(r.outcome.value)) else Error, r.index)
    else if b[i] == Code('t') || b[i] == Code('f') then
      var r := if b[i] == Code('t') then TrueAt(b, i) else FalseAt(b, i);
      Run(if r.outcome.Ok? then Ok(RBool(r.outcome.value)) else Error, r.index)
    else if b[i] == Code('n') then NullAt(b, i)
    else NumberAt(b, i)
  }

  /** `readArray` on the `[` at i. */
  function ArrayAt(b: seq<Byte>, i: int): (r: Run<Value>)
    requires 0 <= i < |b|
    ensures i < r.index && (r.outcome.Crash? || r.index <= |b|)
    ensures r.outcome.Ok? ==> r.index < |b| && b[r.index] == Code(']') && r.outcome.value.RArray?
    decreases Measure(b, i), 0
  {
    ArrayFrom(b, i + 1, [])
  }

  /** The loop of `readArray` from index k with the items read so far: skip whitespace and
      commas, stop on `]`, and read a value anywhere else, adding it when it is read and
      dropping its error otherwise, then step forward. Past the input it fails. An iteration
      that ends where it began (the number reader on a `}`, which steps back onto the byte
      it started on and fails there) repeats forever. */
  function ArrayFrom(b: seq<Byte>, k: int, items: seq<Value>): (r: Run<Value>)
    requires 0 < k
    ensures (k <= r.index || r.index == |b|) && (r.outcome.Crash? || r.index <= |b|)
    ensures r.outcome.Ok? ==> r.index < |b| && b[r.index] == Code(']') && r.outcome.value.RArray?
    decreases Measure(b, k), 2
  {
    if k >= |b| then Run(Error, |b|)
    else if IsSpace(b[k]) || b[k] == Code(',') then ArrayFrom(b, k + 1, items)
    else if b[k] == Code(']') then Run(Ok(RArray(items)), k)
    else
      var item := AnyAt(b, k);
      if item.outcome.Crash? || item.outcome.Diverge? then item
      else
        var more := if item.outcome.Ok? then items + [item.outcome.value] else items;
        var next := item.index + 1;
        if next == k then Run(Diverge, k)
        else ArrayFrom(b, next, more)
  }

  /** `readObject` on the `{` at i. */
  function ObjectAt(b: seq<Byte>, i: int): (r: Run<Value>)
    requires 0 <= i < |b|
    ensures i < r.index && (r.outcome.Crash? || r.index <= |b|)
    ensures r.outcome.Ok? ==> (r.index == |b| || b[r.index] == Code('}')) && r.outcome.value.RObject?
    decreases Measure(b, i), 0
  {
    ObjectFrom(b, i + 1, [])
  }

  /** The loop of `readObject` from index k with the entries so far: skip whitespace, stop on
      `}`, read an entry anywhere else and go on after the comma that ends it. Past the input
      the entries are returned, so an object the input ends inside is read as far as it
      goes. */
  function ObjectFrom(b: seq<Byte>, k: int, entries: seq<(seq<Byte>, Value)>): (r: Run<Value>)
    requires 0 < k <= |b|
    ensures k <= r.index && (r.outcome.Crash? || r.index <= |b|)
    ensures r.outcome.Ok? ==> (r.index == |b| || b[r.index] == Code('}')) && r.outcome.value.RObject?
    decreases Measure(b, k), 2
  {
    if k == |b| then Run(Ok(RObject(entries)), k)
    else if IsSpace(b[k]) then ObjectFrom(b, k + 1, entries)
    else if b[k] == Code('}') then Run(Ok(RObject(entries)), k)
    else
      match EntryAt(b, k, entries)
      case Done(r) => r
      case More(comma, more) => ObjectFrom(b, comma + 1, more)
  }

  /** How one entry of an object ends: the object ends with it (read, failed or crashed), or
      a comma follows it, at the given index, and the entries are now those given. */
  datatype EntryEnd = Done(run: Run<Value>) | More(comma: int, entries: seq<(seq<Byte>, Value)>)

  /** One round of the `readObject` loop from the byte at k: read a key string, step past its
      quote, skip whitespace and go on at the colon. */
  function EntryAt(b: seq<Byte>, k: int, entries: seq<(seq<Byte>, Value)>): (t: EntryEnd)
    requires 0 < k < |b|
    ensures t.More? ==> k < t.comma < |b| && b[t.comma] == Code(',')
    ensures t.Done? ==> k <= t.run.index && (t.run.outcome.Crash? || t.run.index <= |b|)
    ensures t.Done? && t.run.outcome.Ok? ==>
      t.run.index < |b| && b[t.run.index] == Code('}') && t.run.outcome.value.RObject?
    decreases Measure(b, k), 1
  {
    var key := StringAt(b, k);
    if !key.outcome.Ok? then Done(Run(Error, key.index))
    else ColonAt(b, SpacesEnd(b, key.index + 1), key.outcome.value, entries)
  }

  /** The rest of the round, from where the colon should be: require it, read a value and
      put it under the key when it is read (its error is dropped), then step forward and skip
      whitespace. Looking for the colon when the input has ended reads out of bounds. */
  function ColonAt(b: seq<Byte>, colon: int, key: seq<Byte>, entries: seq<(seq<Byte>, Value)>): (t: EntryEnd)
    requires 0 < colon <= |b|
    ensures t.More? ==> colon < t.comma < |b| && b[t.comma] == Code(',')
    ensures t.Done? ==> colon <= t.run.index && (t.run.outcome.Crash? || t.run.index <= |b|)
    ensures t.Done? && t.run.outcome.Ok? ==>
      t.run.index < |b| && b[t.run.index] == Code('}') && t.run.outcome.value.RObject?
    decreases Measure(b, colon), 1
  {
    if colon == |b| then Done(Run(Crash, colon))
    else if b[colon] != Code(':') then Done(Run(Error, |b|))
    else
      var value := AnyAt(b, colon + 1);
      if value.outcome.Crash? || value.outcome.Diverge? then Done(value)
      else
        var more := if value.outcome.Ok? then Put(entries, key, value.outcome.value) else entries;
        EntryClose(b, SpacesEnd(b, value.index + 1), more)
  }

  /** How the round ends, at the first byte after the value that is not whitespace: the
      object ends on `}`, goes on at a comma, and fails on anything else. Looking at that
      byte when the input has ended reads out of bounds. */
  function EntryClose(b: seq<Byte>, after: int, entries: seq<(seq<Byte>, Value)>): (t: EntryEnd)
    ensures t.More? ==> t.comma == after && 0 <= after < |b| && b[after] == Code(',')
    ensures t.Done? ==> (t.run.index == after || t.run.index == |b|) && (t.run.outcome.Crash? || t.run.index <= |b|)
    ensures t.Done? && t.run.outcome.Ok? ==>
      0 <= t.run.index < |b| && b[t.run.index] == Code('}') && t.run.outcome.value.RObject?
  {
    if !(0 <= after < |b|) then Done(Run(Crash, after))
    else if b[after] == Code('}') then Done(Run(Ok(RObject(entries)), after))
    else if b[after] != Code(',') then Done(Run(Error, |b|))
    else More(after, entries)
  }

  // The reader itself: a cursor over the bytes, and one method per reader.

  /** `JsonReader.State`: the bytes, never written, and the index, which the readers move. */
  class State {
    const bytes: seq<Byte>
    var index: int

    constructor (bytes: seq<Byte>)
      ensures this.bytes == bytes && index == 0
    {
      this.bytes := bytes;
      index := 0;
    }

    /** `hasMore()` */
    predicate HasMore()
      reads this
    {
      index < |bytes|
    }

    /** `has(howManyMore)`: the byte that many past the index exists. */
    predicate Has(howManyMore: int)
      reads this
    {
      index + howManyMore < |bytes|
    }

    /** `current()`, which the readers only call within the input. */
    function Current(): Byte
      reads this
      requires 0 <= index < |bytes|
    {
      bytes[index]
    }

    /** `peekAt(offset)` */
    function PeekAt(offset: int): Byte
      reads this
      requires 0 <= index + offset < |bytes|
    {
      bytes[index + offset]
    }

    /** `prev()` */
    method Prev()
      modifies this
      ensures index == old(index) - 1
    {
      index := index - 1;
    }

    /** `next()` and `next(offset)` */
    method Next(offset: int)
      modifies this
      ensures index == old(index) + offset
    {
      index := index + offset;
    }

    /** `fail()`: a failure moves the index to the end, so that every enclosing loop over
        `hasMore()` stops. */
    method Fail()
      modifies this
      ensures index == |bytes|
    {
      index := |bytes|;
    }
  }

  /** `any(byte[])`: read a value from the start of the bytes. */
  method Read(bytes: seq<Byte>) returns (r: Outcome<Value>)
    ensures r == AnyAt(bytes, 0).outcome
  {
    var state := new State(bytes);
    r := Any(state);
  }

  /** `whitespace(state)` */
  method Whitespace(state: State)
    requires 0 <= state.index
    modifies state
    ensures state.index == SpacesEnd(state.bytes, old(state.index))
  {
    while state.HasMore() && IsSpace(state.Current())
      invariant old(state.index) <= state.index
      invariant SpacesEnd(state.bytes, state.index) == SpacesEnd(state.bytes, old(state.index))
      decreases |state.bytes| - state.index
    {
      state.Next(1);
    }
  }

  /** `any(state)` */
  method Any(state: State) returns (r: Outcome<Value>)
    requires 0 <= state.index <= |state.bytes|
    modifies state
    ensures Run(r, state.index) == AnyAt(state.bytes, old(state.index))
    decreases Measure(state.bytes, state.index), 1
  {
    while state.HasMore()
      invariant old(state.index) <= state.index <= |state.bytes|
      invariant AnyAt(state.bytes, state.index) == AnyAt(state.bytes, old(state.index))
      decreases |state.bytes| - state.index
    {
      var c := state.Current();
      if IsSpace(c) {
        state.Next(1);
      } else if c == Code('{') {
        r := ReadObject(state);
        return;
      } else if c == Code('[') {
        r := ReadArray(state);
        return;
      } else if c == Code('"') {
        var x := ReadString(state);
        r := if x.Ok? then Ok(RString(x.value)) else Error;
        return;
      } else if c == Code('t') {
        var x := ReadTrue(state);
        r := if x.Ok? then Ok(RBool(x.value)) else Error;
        return;
      } else if c == Code('f') {
        var x := ReadFalse(state);
        r := if x.Ok? then Ok(RBool(x.value)) else Error;
        return;
      } else if c == Code('n') {
        r := ReadNull(state);
        return;
      } else {
        r := ReadNumber(state);
        return;
      }
    }
    r := Error;
  }

  /** `readObject(state)`, building the map in place. */
  method ReadObject(state: State) returns (r: Outcome<Value>)
    requires 0 <= state.index < |state.bytes|
    modifies state
    ensures Run(r, state.index) == ObjectAt(state.bytes, old(state.index))
    decreases Measure(state.bytes, state.index), 0
  {
    state.Next(1);
    var entries: seq<(seq<Byte>, Value)> := [];
    while state.HasMore()
      invariant old(state.index) < state.index <= |state.bytes|
      invariant ObjectFrom(state.bytes, state.index, entries) == ObjectAt(state.bytes, old(state.index))
      decreases |state.bytes| - state.index
    {
      var c := state.Current();
      if IsSpace(c) {
      } else if c == Code('}') {
        break;
      } else {
        var done;
        r, entries, done := ReadEntry(state, entries);
        if done {
          return;
        }
      }
      state.Next(1);
    }
    r := Ok(RObject(entries));
  }

  /** The body of the `readObject` loop on a byte that is neither whitespace nor `}`: it
      either ends the object, with its outcome, or leaves the index on a comma. */
  method ReadEntry(state: State, entries: seq<(seq<Byte>, Value)>)
    returns (r: Outcome<Value>, more: seq<(seq<Byte>, Value)>, done: bool)
    requires 0 < state.index < |state.bytes|
    modifies state
    ensures done ==> EntryAt(state.bytes, old(state.index), entries) == Done(Run(r, state.index))
    ensures !done ==> EntryAt(state.bytes, old(state.index), entries) == More(state.index, more)
    decreases Measure(state.bytes, state.index), 1
  {
    var field := ReadString(state);
    if !field.Ok? {
      return Error, entries, true;
    }
    state.Next(1);
    Whitespace(state);
    r, more, done := ReadValue(state, field.value, entries);
  }

  /** The body of the `readObject` loop from where the colon should be. */
  method ReadValue(state: State, key: seq<Byte>, entries: seq<(seq<Byte>, Value)>)
    returns (r: Outcome<Value>, more: seq<(seq<Byte>, Value)>, done: bool)
    requires 0 < state.index <= |state.bytes|
    modifies state
    ensures done ==> ColonAt(state.bytes, old(state.index), key, entries) == Done(Run(r, state.index))
    ensures !done ==> ColonAt(state.bytes, old(state.index), key, entries) == More(state.index, more)
    decreases Measure(state.bytes, state.index), 1
  {
    if !state.HasMore() {
      // `current()` past the input
      return Crash, entries, true;
    }
    if state.Current() != Code(':') {
      state.Fail();
      return Error, entries, true;
    }
    state.Next(1);
    var value := Any(state);
    if value.Crash? || value.Diverge? {
      return value, entries, true;
    }
    more := if value.Ok? then Put(entries, key, value.value) else entries;
    state.Next(1);
    Whitespace(state);
    r, done := CloseEntry(state, more);
  }

  /** The end of the body of the `readObject` loop, after the value and its whitespace. */
  method CloseEntry(state: State, entries: seq<(seq<Byte>, Value)>) returns (r: Outcome<Value>, done: bool)
    modifies state
    ensures done ==> EntryClose(state.bytes, old(state.index), entries) == Done(Run(r, state.index))
    ensures !done ==> EntryClose(state.bytes, old(state.index), entries) == More(state.index, entries)
  {
    done := true;
    if !(0 <= state.index < |state.bytes|) {
      // `current()` past the input
      return Crash, done;
    }
    if state.Current() == Code('}') {
      return Ok(RObject(entries)), done;
    } else if state.Current() != Code(',') {
      state.Fail();
      return Error, done;
    }
    r, done := Error, false;
  }

  /** `readArray(state)`, building the list in place. Where the Java loop would come back to
      the same index with the same list for ever, the method stops and says so. */
  method ReadArray(state: State) returns (r: Outcome<Value>)
    requires 0 <= state.index < |state.bytes|
    modifies state
    ensures Run(r, state.index) == ArrayAt(state.bytes, old(state.index))
    decreases Measure(state.bytes, state.index), 0
  {
    state.Next(1);
    var items: seq<Value> := [];
    while state.HasMore()
      invariant old(state.index) < state.index
      invariant ArrayFrom(state.bytes, state.index, items) == ArrayAt(state.bytes, old(state.index))
      decreases Measure(state.bytes, state.index)
    {
      var c := state.Current();
      if IsSpace(c) || c == Code(',') {
      } else if c == Code(']') {
        break;
      } else {
        var start := state.index;
        var item := Any(state);
        if item.Crash? || item.Diverge? {
          return item;
        }
        if item.Ok? {
          items := items + [item.value];
        }
        if state.index + 1 == start {
          state.Next(1);
          return Diverge;
        }
      }
      state.Next(1);
    }
    if !state.HasMore() {
      state.Fail();
      return Error;
    }
    r := Ok(RArray(items));
  }

  /** `readString(state)` */
  method ReadString(state: State) returns (r: Outcome<seq<Byte>>)
    requires 0 <= state.index < |state.bytes|
    modifies state
    ensures Run(r, state.index) == StringAt(state.bytes, old(state.index))
  {
    state.Next(1);
    var start := state.index;
    while state.HasMore()
      invariant start <= state.index
      invariant StringEnd(state.bytes, state.index) == StringEnd(state.bytes, start)
      decreases Measure(state.bytes, state.index)
    {
      if state.Current() == Code('"') {
        break;
      } else if state.Current() == Code('\\') {
        state.Next(2);
      } else {
        state.Next(1);
      }
    }
    if !state.HasMore() {
      state.Fail();
      return Error;
    }
    r := Ok(state.bytes[start..state.index]);
  }

  /** `readTrue(state)` */
  method ReadTrue(state: State) returns (r: Outcome<bool>)
    requires 0 <= state.index < |state.bytes|
    modifies state
    ensures Run(r, state.index) == TrueAt(state.bytes, old(state.index))
  {
    if state.Has(3) && state.PeekAt(1) == Code('r') && state.PeekAt(2) == Code('u')
       && state.PeekAt(3) == Code('e')
    {
      state.Next(3);
      return Ok(false);
    }
    state.Fail();
    r := Error;
  }

  /** `readFalse(state)` */
  method ReadFalse(state: State) returns (r: Outcome<bool>)
    requires 0 <= state.index < |state.bytes|
    modifies state
    ensures Run(r, state.index) == FalseAt(state.bytes, old(state.index))
  {
    if state.Has(4) && state.PeekAt(1) == Code('a') && state.PeekAt(2) == Code('l')
       && state.PeekAt(3) == Code('s') && state.PeekAt(4) == Code('e')
    {
      state.Next(4);
      return Ok(false);
    }
    state.Fail();
    r := Error;
  }

  /** `readNull(state)` */
  method ReadNull(state: State) returns (r: Outcome<Value>)
    requires 0 <= state.index < |state.bytes|
    modifies state
    ensures Run(r, state.index) == NullAt(state.bytes, old(state.index))
  {
    if state.Has(3) && state.PeekAt(1) == Code('u') && state.PeekAt(2) == Code('l')
       && state.PeekAt(3) == Code('l')
    {
      state.Next(3);
      return Ok(RNull);
    }
    state.Fail();
    r := Error;
  }

  /** `readNumber(state)` */
  method ReadNumber(state: State) returns (r: Outcome<Value>)
    requires 0 <= state.index < |state.bytes|
    modifies state
    ensures Run(r, state.index) == NumberAt(state.bytes, old(state.index))
  {
    var start := state.index;
    while state.HasMore() && !IsBoundary(state.Current())
      invariant start <= state.index <= |state.bytes|
      invariant TokenEnd(state.bytes, state.index) == TokenEnd(state.bytes, start)
      decreases |state.bytes| - state.index
    {
      state.Next(1);
    }
    state.Prev();
    match ParseFloating(Latin1(state.bytes[start..state.index + 1]))
    case Some(v) => r := Ok(RNumber(v));
    case None => r := Error;
  }

  // What the reader does with some inputs.

  /** The bytes of an ASCII text, as UTF-8 encodes it. */
  function Ascii(t: string): (b: seq<Byte>)
    requires forall k :: 0 <= k < |t| ==> Code(t[k]) < 128
    ensures |b| == |t| && forall k :: 0 <= k < |t| ==> b[k] == Code(t[k])
  {
    seq(|t|, k requires 0 <= k < |t| => Code(t[k]))
  }

  /** Empty input, or input of whitespace only, fails with the index at the end. */
  lemma {:induction false} SpacesOnlyFail(b: seq<Byte>, i: int)
    requires 0 <= i <= |b| && forall k :: i <= k < |b| ==> IsSpace(b[k])
    ensures AnyAt(b, i) == Run(Error, |b|)
    decreases |b| - i
  {
    if i < |b| {
      SpacesOnlyFail(b, i + 1);
    }
  }

  /** `true` reads as false, and `false` as false. */
  lemma TrueReadsFalse()
    ensures AnyAt(Ascii("true"), 0) == Run(Ok(RBool(false)), 3)
    ensures AnyAt(Ascii(" false"), 0) == Run(Ok(RBool(false)), 5)
  {
  }

  lemma NullExample()
    ensures AnyAt(Ascii("null"), 0) == Run(Ok(RNull), 3)
    ensures AnyAt(Ascii("nul"), 0) == Run(Error, 3)
  {
  }

  /** A key at the end of the input, or a value at the end of the input, makes `readObject`
      look past the input. */
  lemma KeyAtEndCrashes()
    ensures AnyAt(Ascii("{\"a\""), 0) == Run(Crash, 4)
  {
    var b := Ascii("{\"a\"");
    assert b == [Code('{'), Code('"'), Code('a'), Code('"')];
    assert StringEnd(b, 2) == 3;
    assert SpacesEnd(b, 4) == 4;
    assert EntryAt(b, 1, []) == Done(Run(Crash, 4));
  }

  lemma ValueAtEndCrashes()
    ensures AnyAt(Ascii("{\"a\":1"), 0) == Run(Crash, 6)
  {
    var b := Ascii("{\"a\":1");
    assert b == [Code('{'), Code('"'), Code('a'), Code('"'), Code(':'), Code('1')];
    assert StringEnd(b, 2) == 3;
    assert SpacesEnd(b, 4) == 4;
    assert TokenEnd(b, 5) == 6;
    assert b[5..6] == [Code('1')];
    assert Latin1([Code('1')]) == "1";
    OneLiteral();
    assert AnyAt(b, 5) == Run(Ok(RNumber(Finite("1"))), 5);
    assert SpacesEnd(b, 6) == 6;
    assert EntryAt(b, 1, []) == Done(Run(Crash, 6));
  }

  /** The conversion reads `1` as itself. */
  lemma OneLiteral()
    ensures ParseFloating("1") == Some(Finite("1"))
  {
    assert RunEnd("1", 0, false) == 1;
  }

  /** An object the input ends inside is read as far as it goes. */
  lemma UnclosedObject()
    ensures AnyAt(Ascii("{"), 0) == Run(Ok(RObject([])), 1)
  {
  }

  /** A value that fails to read is left out of its object, and the object is still read. */
  lemma ObjectDropsValueError()
    ensures AnyAt(Ascii("{\"a\":x}"), 0) == Run(Ok(RObject([])), 6)
  {
    var b := Ascii("{\"a\":x}");
    assert b == [Code('{'), Code('"'), Code('a'), Code('"'), Code(':'), Code('x'), Code('}')];
    assert StringEnd(b, 2) == 3;
    assert SpacesEnd(b, 4) == 4;
    assert TokenEnd(b, 5) == 6;
    assert b[5..6] == [Code('x')];
    assert Latin1([Code('x')]) == "x";
    assert ParseFloating("x") == None;
    assert AnyAt(b, 5) == Run(Error, 5);
    assert SpacesEnd(b, 6) == 6;
    assert EntryAt(b, 1, []) == Done(Run(Ok(RObject([])), 6));
  }

  /** A `}` inside an array makes the array loop come back to it for ever. */
  lemma ArrayDiverges()
    ensures AnyAt(Ascii("[}"), 0) == Run(Diverge, 1)
  {
  }

  /** A single digit before a boundary reads as the number it writes. */
  lemma SingleDigit(b: seq<Byte>, i: int, d: char)
    requires 0 <= i && i + 1 < |b| && IsDigit(d) && b[i] == Code(d) && IsBoundary(b[i + 1])
    ensures AnyAt(b, i) == Run(Ok(RNumber(Finite([d]))), i)
  {
    assert TokenEnd(b, i) == i + 1;
    assert Latin1(b[i..i + 1]) == [d];
    assert RunEnd([d], 0, false) == 1;
  }

  /** An array needs no commas between its items, and skips a comma before the first. */
  lemma ArrayWithoutCommas()
    ensures AnyAt(Ascii("[1 2]"), 0) == Run(Ok(RArray([RNumber(Finite("1")), RNumber(Finite("2"))])), 4)
  {
    var b := Ascii("[1 2]");
    assert b == [Code('['), Code('1'), Code(' '), Code('2'), Code(']')];
    SingleDigit(b, 1, '1');
    SingleDigit(b, 3, '2');
    var one := RNumber(Finite("1"));
    var two := RNumber(Finite("2"));
    assert [] + [one] == [one] && [one] + [two] == [one, two];
    assert ArrayFrom(b, 1, []) == ArrayFrom(b, 2, [one]) == ArrayFrom(b, 3, [one]);
    assert ArrayFrom(b, 3, [one]) == ArrayFrom(b, 4, [one, two]);
  }

  lemma ArrayLeadingComma()
    ensures AnyAt(Ascii("[,1]"), 0) == Run(Ok(RArray([RNumber(Finite("1"))])), 3)
  {
    var b := Ascii("[,1]");
    assert b == [Code('['), Code(','), Code('1'), Code(']')];
    SingleDigit(b, 2, '1');
    var one := RNumber(Finite("1"));
    assert [] + [one] == [one];
    assert ArrayFrom(b, 2, []) == ArrayFrom(b, 3, [one]);
  }

  /** An array the input ends inside fails, with the index at the end. */
  lemma UnclosedArray()
    ensures AnyAt(Ascii("[1"), 0) == Run(Error, 2)
  {
  }
}
