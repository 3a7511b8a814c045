/** `AnyValueParser` (`JsonParsers.any()`): reads whatever JSON value comes next, choosing the
    parser by the first character after the whitespace, and itself as the item parser of the
    collections and maps it meets. */
module JsonAny {
  import opened Text
  import opened ParseErrors
  import opened ParseStates
  import opened Parsers
  import opened JsonStrings
  import opened JsonTokens
  import opened JsonNumbers
  import opened JsonCollections

  /** The values `any()` yields, cast to `Object`: `Optional.empty()` for `null`, a `Boolean`,
      a `Double`, a `String`, an `ArrayList` of values and a `LinkedHashMap` from strings to
      values, kept as its entries in insertion order. */
  datatype Json =
    | JNull
    | JBool(b: bool)
    | JNumber(n: Fp)
    | JString(str: string)
    | JArray(items: seq<Json>)
    | JObject(entries: seq<(string, Json)>)

  function ToNull(ignored: Empty): Json {
    JNull
  }

  function ToBool(b: bool): Json {
    JBool(b)
  }

  function ToNumber(n: Fp): Json {
    JNumber(n)
  }

  function ToString(x: string): Json {
    JString(x)
  }

  function ToArray(items: seq<Json>): Json {
    JArray(items)
  }

  function ToObject(entries: seq<(string, Json)>): Json {
    JObject(entries)
  }

  /** The characters left after index i; the measure every reading of a nested value shrinks. */
  function Remaining(s: string, i: nat): nat {
    if i <= |s| then |s| - i else 0
  }

  /** `AnyValueParser.parse` from index i: skip whitespace, then a map on `{`, a list on `[`,
      a string on a quote, `null` as the empty value on `n`, a boolean on `t` or `f`, and a
      double on anything else, the end of the text included. */
  function AnyAt(s: string, i: nat): (r: Step<Json>)
    ensures i <= r.pos
    ensures i <= |s| ==> r.pos <= |s|
    decreases Remaining(s, i), 1
  {
    var j := SkipWs(s, i);
    var c := Peek(s, j);
    if c == Code('{') then ObjectAt(s, j)
    else if c == Code('[') then ArrayAt(s, j)
    else if c == Code('"') then
      QuotedStringIsBounded();
      ComposeResultAt(QuotedString, ToString, s, j)
    else if c == Code('n') then
      NullIsBounded();
      ComposeResultAt(Null, ToNull, s, j)
    else if c == Code('t') || c == Code('f') then
      BooleanIsBounded();
      ComposeResultAt(Boolean, ToBool, s, j)
    else
      FloatingIsBounded(Double);
      ComposeResultAt(Floating(Double), ToNumber, s, j)
  }

  /** `collection(this, ArrayList::new)` from index i: `between` the brackets, with the
      collection loop over nested values inside, as a list value. */
  function ArrayAt(s: string, i: nat): (r: Step<Json>)
    ensures i <= r.pos
    ensures i <= |s| ==> r.pos <= |s|
    decreases Remaining(s, i), 0
  {
    var started := ExpectCharAt('[', s, i);
    if !started.result.Ok? then Step(Coerce(started.result), started.pos)
    else
      var probe := MaybeAt(ExpectChar(']'), s, started.pos);
      if probe.result.Ok? then Step(Ok(JArray([])), probe.pos)
      else
        var inner := ItemsFrom(s, started.pos, []);
        if !inner.result.Ok? then Step(Coerce(inner.result), inner.pos)
        else
          var ended := ExpectCharAt(']', s, inner.pos);
          if !ended.result.Ok? then Step(Coerce(ended.result), ended.pos)
          else Step(Ok(JArray(inner.result.value)), ended.pos)
  }

  /** Where a round of the list loop over nested values ends: stopped with its outcome, or
      at a comma with the items so far. */
  datatype ItemRoundEnd = ItemsStop(step: Step<seq<Json>>) | ItemsNext(comma: nat, items: seq<Json>)

  /** One round of the collection loop of `collectionInternal` with `any()` as its item
      parser: read a value, append it, skip whitespace, and go on after a comma. */
  function ItemRound(s: string, i: nat, acc: seq<Json>): (r: ItemRoundEnd)
    ensures r.ItemsStop? ==> i <= r.step.pos && (i <= |s| ==> r.step.pos <= |s|)
    ensures r.ItemsNext? ==> i <= r.comma < |s|
    decreases Remaining(s, i), 2
  {
    var item := AnyAt(s, SkipWs(s, i));
    if !item.result.Ok? then ItemsStop(Step(Coerce(item.result), item.pos))
    else
      var k := SkipWs(s, item.pos);
      if Peek(s, k) == Code(',') then ItemsNext(k, acc + [item.result.value])
      else ItemsStop(Step(Ok(acc + [item.result.value]), k))
  }

  /** The collection loop of `collectionInternal` with `any()` as its item parser. */
  function ItemsFrom(s: string, i: nat, acc: seq<Json>): (r: Step<seq<Json>>)
    ensures i <= r.pos
    ensures i <= |s| ==> r.pos <= |s|
    decreases Remaining(s, i), 3
  {
    if i == |s| then Step(Ok(acc), i)
    else
      match ItemRound(s, i, acc)
      case ItemsStop(step) => step
      case ItemsNext(comma, items) => ItemsFrom(s, comma + 1, items)
  }

  /** `map(Function.identity(), this, LinkedHashMap::new)` from index i: `between` the braces,
      with the map loop over nested values inside, as a map value. */
  function ObjectAt(s: string, i: nat): (r: Step<Json>)
    ensures i <= r.pos
    ensures i <= |s| ==> r.pos <= |s|
    decreases Remaining(s, i), 0
  {
    var started := ExpectCharAt('{', s, i);
    if !started.result.Ok? then Step(Coerce(started.result), started.pos)
    else
      var probe := MaybeAt(ExpectChar('}'), s, started.pos);
      if probe.result.Ok? then Step(Ok(JObject([])), probe.pos)
      else
        var inner := EntriesFrom(s, started.pos, []);
        if !inner.result.Ok? then Step(Coerce(inner.result), inner.pos)
        else
          var ended := ExpectCharAt('}', s, inner.pos);
          if !ended.result.Ok? then Step(Coerce(ended.result), ended.pos)
          else Step(Ok(JObject(inner.result.value)), ended.pos)
  }

  /** One round of the map loop of `MapInternalParser` with the identity key function and
      `any()` as the value parser of every key. */
  function EntryRound(s: string, i: nat, acc: seq<(string, Json)>): (r: MapRoundEnd<string, Json>)
    ensures r.Stop? ==> i <= r.step.pos && (i <= |s| ==> r.step.pos <= |s|)
    ensures r.Next? ==> i <= r.comma < |s| && s[r.comma] == ','
    decreases Remaining(s, i), 2
  {
    EntryHeadBounds(s, SkipWs(s, i));
    var str := QuotedString(s, SkipWs(s, i));
    var key := MapResult(str.result, Identity);
    if !key.Ok? then Stop(Step(Coerce(key), str.pos))
    else
      var sep := KeyValueSeparator(s, str.pos);
      if !sep.result.Ok? then Stop(Step(Coerce(sep.result), sep.pos))
      else
        var value := AnyAt(s, sep.pos);
        if !value.result.Ok? then Stop(Step(Coerce(value.result), value.pos))
        else
          var entries := Put(acc, key.value, value.result.value);
          var k := SkipWs(s, value.pos);
          if Peek(s, k) == Code(',') then Next(k, entries)
          else Stop(Step(Ok(entries), k))
  }

  /** The map loop of `MapInternalParser` with the identity key function and `any()` as the
      value parser of every key. */
  function EntriesFrom(s: string, i: nat, acc: seq<(string, Json)>): (r: Step<seq<(string, Json)>>)
    ensures i <= r.pos
    ensures i <= |s| ==> r.pos <= |s|
    decreases Remaining(s, i), 3
  {
    if i == |s| then Step(Ok(acc), i)
    else
      match EntryRound(s, i, acc)
      case Stop(step) => step
      case Next(comma, entries) => EntriesFrom(s, comma + 1, entries)
  }

  /** `AnyValueParser.INSTANCE`. */
  const AnyValue: Parser<Json> := (s: string, i: nat) => AnyAt(s, i)

  lemma AnyValueIsBounded()
    ensures Monotone(AnyValue) && Bounded(AnyValue)
  {
    forall s: string, i: nat
      ensures AnyValue(s, i).pos >= i
      ensures i <= |s| ==> AnyValue(s, i).pos <= |s|
    {
      var r := AnyAt(s, i);
    }
  }

  /** `AnyValueParser.parse` as written, with `self` standing for `this`: the same dispatch,
      but through the library's own `map`, `collection`, `string`, null, boolean and double
      parsers. */
  function AnyWith(self: Parser<Json>, s: string, i: nat): Step<Json>
    requires Monotone(self)
  {
    var j := SkipWs(s, i);
    var c := Peek(s, j);
    var valueParser :=
      if c == Code('{') then ComposeResult(Map(Identity, self), ToObject)
      else if c == Code('[') then ComposeResult(Collection(self, ListKind), ToArray)
      else if c == Code('"') then ComposeResult(QuotedString, ToString)
      else if c == Code('n') then ComposeResult(Null, ToNull)
      else if c == Code('t') || c == Code('f') then ComposeResult(Boolean, ToBool)
      else ComposeResult(Floating(Double), ToNumber);
    valueParser(s, j)
  }

  /** The list loop over nested values is the library's collection loop with `any()` as its
      item parser. */
  lemma {:induction false} ItemsAgree(s: string, i: nat, acc: seq<Json>)
    requires Monotone(AnyValue)
    ensures ItemsFrom(s, i, acc) == CollectionFrom(AnyValue, ListKind, s, i, acc)
    decreases Remaining(s, i)
  {
    if i != |s| {
      var r := ItemRound(s, i, acc);
      ItemRoundAgrees(s, i, acc);
      ItemsFromRound(s, i, acc);
      if r.ItemsNext? {
        ItemsAgree(s, r.comma + 1, r.items);
      }
    }
  }

  /** The list loop over nested values away from the end is its first round, then the rest. */
  lemma ItemsFromRound(s: string, i: nat, acc: seq<Json>)
    requires i != |s|
    ensures var r := ItemRound(s, i, acc);
      && (r.ItemsStop? ==> ItemsFrom(s, i, acc) == r.step)
      && (r.ItemsNext? ==> ItemsFrom(s, i, acc) == ItemsFrom(s, r.comma + 1, r.items))
  {
  }

  /** One round of the list loop over nested values is one round of the library's collection
      loop: both go on after the same comma with the same items, or both stop alike. */
  lemma ItemRoundAgrees(s: string, i: nat, acc: seq<Json>)
    requires Monotone(AnyValue) && i != |s|
    ensures var r := ItemRound(s, i, acc);
      && (r.ItemsStop? ==> CollectionFrom(AnyValue, ListKind, s, i, acc) == r.step)
      && (r.ItemsNext? ==> CollectionFrom(AnyValue, ListKind, s, i, acc)
                           == CollectionFrom(AnyValue, ListKind, s, r.comma + 1, r.items))
  {
    var item := AnyAt(s, SkipWs(s, i));
    assert AnyValue(s, SkipWs(s, i)) == item;
    if item.result.Ok? {
      assert Add(ListKind, acc, item.result.value) == acc + [item.result.value];
    }
  }

  /** The map loop over nested values is the library's map loop with the identity key
      function and `any()` as the value parser of every key. */
  lemma {:induction false} EntriesAgree(s: string, i: nat, acc: seq<(string, Json)>)
    requires Monotone(AnyValue)
    ensures EntriesFrom(s, i, acc) == MapFrom(Identity, ForEveryKey(AnyValue), s, i, acc)
    decreases Remaining(s, i)
  {
    if i != |s| {
      ForEveryKeyMonotone<string, Json>(AnyValue);
      var r := MapRound(Identity, ForEveryKey(AnyValue), s, i, acc);
      EntryRoundAgrees(s, i, acc);
      MapFromRound(Identity, ForEveryKey(AnyValue), s, i, acc);
      if r.Next? {
        EntriesAgree(s, r.comma + 1, r.entries);
      }
    }
  }

  /** One round of the map loop over nested values is one round of the library's map loop. */
  lemma EntryRoundAgrees(s: string, i: nat, acc: seq<(string, Json)>)
    requires Monotone(AnyValue)
    ensures forall k: string :: Monotone(ForEveryKey<string, Json>(AnyValue)(k))
    ensures EntryRound(s, i, acc) == MapRound(Identity, ForEveryKey(AnyValue), s, i, acc)
  {
    ForEveryKeyMonotone<string, Json>(AnyValue);
    EntryHeadBounds(s, SkipWs(s, i));
    var str := QuotedString(s, SkipWs(s, i));
    if str.result.Ok? {
      var sep := KeyValueSeparator(s, str.pos);
      if sep.result.Ok? {
        assert ForEveryKey(AnyValue)(str.result.value)(s, sep.pos) == AnyAt(s, sep.pos);
      }
    }
  }

  /** A list value is what `collection(any(), ArrayList::new)` reads. */
  lemma ArrayAgrees(s: string, i: nat)
    requires Monotone(AnyValue)
    ensures ArrayAt(s, i) == ComposeResultAt(Collection(AnyValue, ListKind), ToArray, s, i)
  {
    var started := ExpectCharAt('[', s, i);
    if started.result.Ok? {
      ItemsAgree(s, started.pos, []);
      assert CollectionInternal(AnyValue, ListKind)(s, started.pos) == ItemsFrom(s, started.pos, []);
    }
  }

  /** A map value is what `map(Function.identity(), any(), LinkedHashMap::new)` reads. */
  lemma ObjectAgrees(s: string, i: nat)
    requires Monotone(AnyValue)
    ensures ObjectAt(s, i) == ComposeResultAt(Map(Identity, AnyValue), ToObject, s, i)
  {
    var started := ExpectCharAt('{', s, i);
    if started.result.Ok? {
      EntriesAgree(s, started.pos, []);
      assert MapInternal(Identity, ForEveryKey(AnyValue))(s, started.pos) == EntriesFrom(s, started.pos, []);
    }
  }

  /** `any()` is the fixed point of `AnyValueParser.parse`: reading a value directly is
      reading it with the library's parsers chosen by the first character, with `any()` itself
      inside collections and maps. */
  lemma AnyIsFixedPoint(s: string, i: nat)
    ensures Monotone(AnyValue)
    ensures AnyValue(s, i) == AnyWith(AnyValue, s, i)
  {
    AnyValueIsBounded();
    var j := SkipWs(s, i);
    var c := Peek(s, j);
    if c == Code('{') {
      ObjectAgrees(s, j);
    } else if c == Code('[') {
      ArrayAgrees(s, j);
    }
  }

  /** `AnyValueParser.parse` on a cursor: skip whitespace, choose the parser by the current
      character, run it and cast its value. */
  method AnyValueParse(c: Cursor) returns (r: Result<Json>)
    modifies c
    ensures Step(r, c.index) == AnyAt(c.text, old(c.index))
  {
    AnyIsFixedPoint(c.text, c.index);
    c.SkipWhitespace();
    var current := c.Current();
    var valueParser: Parser<Json>;
    if current == Code('{') {
      valueParser := ComposeResult(Map(Identity, AnyValue), ToObject);
    } else if current == Code('[') {
      valueParser := ComposeResult(Collection(AnyValue, ListKind), ToArray);
    } else if current == Code('"') {
      valueParser := ComposeResult(QuotedString, ToString);
    } else if current == Code('n') {
      valueParser := ComposeResult(Null, ToNull);
    } else if current == Code('t') || current == Code('f') {
      valueParser := ComposeResult(Boolean, ToBool);
    } else {
      valueParser := ComposeResult(Floating(Double), ToNumber);
    }
    r := c.Run(valueParser);
  }

  /** The scalar cases of the `any()` test: `null` is the empty value, `true` a boolean and
      `0` a double. */
  lemma AnyNullExample()
    ensures AnyValue("null", 0) == Step(Ok(JNull), 4)
  {
    NullOutcome("null", 0);
    assert "null"[0..4] == "null";
  }

  lemma AnyTrueExample()
    ensures AnyValue("true", 0) == Step(Ok(JBool(true)), 4)
  {
    BooleanOutcome("true", 0);
    assert "true"[0..4] == "true";
  }

  lemma AnyZeroExample()
    ensures AnyValue("0", 0) == Step(Ok(JNumber(Finite("0"))), 1)
  {
    FloatingOutcome(Double, "0", 0);
    assert ScanEnd("0", 0) == 1;
    assert "0"[0..1] == "0";
    ParseFloatingDecimal(0);
    assert IntToDecimal(0) == "0";
  }

  /** A map loop that reads one entry and no comma after it. */
  lemma OneEntry(s: string, i: nat, key: string, a: nat, v: Json, c: nat)
    requires i != |s| && QuotedString(s, SkipWs(s, i)) == Step(Ok(key), a)
    requires KeyValueSeparator(s, a).result.Ok?
    requires AnyAt(s, KeyValueSeparator(s, a).pos) == Step(Ok(v), c)
    requires Peek(s, SkipWs(s, c)) != Code(',')
    ensures EntriesFrom(s, i, []) == Step(Ok([(key, v)]), SkipWs(s, c))
  {
    assert Put([], key, v) == [(key, v)];
  }

  /** Which parser `any()` hands the text to, by the first character after the whitespace. */
  lemma AnyDispatch(s: string, i: nat)
    ensures var j := SkipWs(s, i);
      && (Peek(s, j) == Code('{') ==> AnyAt(s, i) == ObjectAt(s, j))
      && (Peek(s, j) == Code('[') ==> AnyAt(s, i) == ArrayAt(s, j))
      && (Peek(s, j) == Code('"') ==> AnyAt(s, i) == ComposeResultAt(QuotedString, ToString, s, j))
  {
  }

  /** A map that is not empty: the loop runs right after the opening brace, and the closing
      brace must follow it. */
  lemma ObjectAfterBrace(s: string, i: nat)
    ensures var started := ExpectCharAt('{', s, i);
      started.result.Ok? && ExpectCharAt('}', s, started.pos).result.Err? ==>
      ObjectAt(s, i) == (var inner := EntriesFrom(s, started.pos, []);
        if !inner.result.Ok? then Step(Coerce(inner.result), inner.pos)
        else
          var ended := ExpectCharAt('}', s, inner.pos);
          if !ended.result.Ok? then Step(Coerce(ended.result), ended.pos)
          else Step(Ok(JObject(inner.result.value)), ended.pos))
  {
  }

  /** Braces around a map loop that succeeds. */
  lemma BracedAt(s: string, entries: seq<(string, Json)>, e: nat)
    requires ExpectCharAt('{', s, 0) == Step(Ok('{'), 1)
    requires ExpectCharAt('}', s, 1).result.Err?
    requires EntriesFrom(s, 1, []) == Step(Ok(entries), e)
    requires ExpectCharAt('}', s, e) == Step(Ok('}'), e + 1)
    ensures ObjectAt(s, 0) == Step(Ok(JObject(entries)), e + 1)
  {
    ObjectAfterBrace(s, 0);
  }

  /** The brackets of a map: `{` at 0, then no whitespace and no `}`, and `}` at e. */
  lemma BraceChars(s: string, e: nat)
    requires 1 < |s| && s[0] == '{' && s[1] != '}' && !IsWhitespace(Code(s[1]))
    requires e < |s| && s[e] == '}'
    ensures ExpectCharAt('{', s, 0) == Step(Ok('{'), 1)
    ensures ExpectCharAt('}', s, 1).result.Err?
    ensures ExpectCharAt('}', s, e) == Step(Ok('}'), e + 1)
  {
    assert SkipWs(s, 1) == 1 && SkipWs(s, e) == e;
  }

  /** A text that opens with a brace is read as a map. */
  lemma OpensObject(s: string)
    requires s != [] && s[0] == '{'
    ensures AnyValue(s, 0) == ObjectAt(s, 0)
  {
    AnyDispatch(s, 0);
  }

  /** Braces around a map loop that succeeds, with no whitespace before the first key. */
  lemma Braced(s: string, entries: seq<(string, Json)>, e: nat)
    requires 1 < |s| && s[0] == '{' && s[1] != '}' && !IsWhitespace(Code(s[1]))
    requires EntriesFrom(s, 1, []) == Step(Ok(entries), e)
    requires e < |s| && s[e] == '}'
    ensures AnyValue(s, 0) == Step(Ok(JObject(entries)), e + 1)
  {
    OpensObject(s);
    BraceChars(s, e);
    BracedAt(s, entries, e);
  }

  /** The map case of the `any()` test, with a space after the colon. */
  lemma AnyMapExample()
    ensures AnyValue("{\"a\": \"A\"}", 0) == Step(Ok(JObject([("a", JString("A"))])), 10)
  {
    AnyMapAt("{\"a\": \"A\"}");
  }

  /** `{"a": "A"}`: braces around one entry. */
  lemma AnyMapAt(s: string)
    requires s == "{\"a\": \"A\"}"
    ensures AnyValue(s, 0) == Step(Ok(JObject([("a", JString("A"))])), 10)
  {
    AnyMapEntries(s);
    assert s[1] == '"' && !IsWhitespace(Code('"'));
    Braced(s, [("a", JString("A"))], 9);
  }

  /** `{"a": "A"}`: the map loop after the opening brace reads the one entry and stops before
      the closing brace. */
  lemma AnyMapEntries(s: string)
    requires s == "{\"a\": \"A\"}"
    ensures EntriesFrom(s, 1, []) == Step(Ok([("a", JString("A"))]), 9)
  {
    assert QuotedString(s, 1) == Step(Ok("a"), 4) by {
      EscapedIdentity("a");
      assert s[2..3] == "a";
      QuotedStringReadsEscaped(s, 1, "a");
    }
    assert KeyValueSeparator(s, 4) == Step(Ok(Empty), 6) by {
      KeyValueSeparatorOutcome(s, 4);
      assert SkipWs(s, 4) == 4 && SkipWs(s, 5) == 6;
    }
    assert AnyAt(s, 6) == Step(Ok(JString("A")), 9) by {
      EscapedIdentity("A");
      assert s[7..8] == "A";
      QuotedStringReadsEscaped(s, 6, "A");
      assert SkipWs(s, 6) == 6;
    }
    assert SkipWs(s, 1) == 1 && SkipWs(s, 9) == 9;
    OneEntry(s, 1, "a", 4, JString("A"), 9);
  }
}
