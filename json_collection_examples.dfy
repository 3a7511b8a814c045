/** The collection and map cases of the `JsonParsers` tests, over the string parser. */
module JsonCollectionExamples {
  import opened Text
  import opened ParseErrors
  import opened ParseStates
  import opened Parsers
  import opened JsonStrings
  import opened JsonTokens
  import opened JsonCollections

  /** `collection(string(), factory)`: the tests' collection of strings. */
  function Strings(kind: CollectionKind): Parser<seq<string>> {
    QuotedStringIsBounded();
    Collection(QuotedString, kind)
  }

  /** `map(Function.identity(), string(), LinkedHashMap::new)`: the tests' map of strings. */
  function StringMap(): Parser<seq<(string, string)>> {
    QuotedStringIsBounded();
    Map(Identity, QuotedString)
  }

  /** A quoted string without a character to escape reads back as itself. */
  lemma ReadsPlain(s: string, i: nat, x: string)
    requires forall k :: 0 <= k < |x| ==> !NeedsEscape(x[k])
    requires i + |x| + 2 <= |s|
    requires s[i] == '"' && s[i + 1..i + 1 + |x|] == x && s[i + 1 + |x|] == '"'
    ensures QuotedString(s, i) == Step(Ok(x), i + |x| + 2)
  {
    EscapedIdentity(x);
    QuotedStringReadsEscaped(s, i, x);
  }

  /** One round of the collection loop that reads an item and then a comma. */
  lemma CollectionComma(s: string, i: nat, acc: seq<string>, x: string, j: nat)
    requires Monotone(QuotedString)
    requires i != |s| && QuotedString(s, SkipWs(s, i)) == Step(Ok(x), j)
    requires Peek(s, SkipWs(s, j)) == Code(',')
    ensures CollectionFrom(QuotedString, ListKind, s, i, acc)
         == CollectionFrom(QuotedString, ListKind, s, SkipWs(s, j) + 1, acc + [x])
  {
  }

  /** The last round of the collection loop, which reads an item and no comma after it. */
  lemma CollectionLast(s: string, i: nat, acc: seq<string>, x: string, j: nat)
    requires Monotone(QuotedString)
    requires i != |s| && QuotedString(s, SkipWs(s, i)) == Step(Ok(x), j)
    requires Peek(s, SkipWs(s, j)) != Code(',')
    ensures CollectionFrom(QuotedString, ListKind, s, i, acc) == Step(Ok(acc + [x]), SkipWs(s, j))
  {
  }

  /** The brackets around a collection with at least one item, none of them preceded by
      whitespace. */
  lemma Bracketed(kind: CollectionKind, s: string, v: seq<string>, e: nat)
    requires Monotone(QuotedString)
    requires 1 < |s| && s[0] == '[' && s[1] != ']' && !IsWhitespace(Code(s[1]))
    requires CollectionInternal(QuotedString, kind)(s, 1) == Step(Ok(v), e)
    requires e < |s| && s[e] == ']'
    ensures Strings(kind)(s, 0) == Step(Ok(v), e + 1)
  {
    var inner := CollectionInternal(QuotedString, kind);
    NoSkipAt(s, 1);
    BetweenChars('[', inner, ']', [], s, v, e);
    assert Strings(kind) == Between(ExpectChar('['), inner, ExpectChar(']'), []);
  }

  /** The braces around a map with at least one entry, none of them preceded by whitespace. */
  lemma Braced(s: string, v: seq<(string, string)>, e: nat)
    requires Monotone(QuotedString)
    requires 1 < |s| && s[0] == '{' && s[1] != '}'
    requires SkipWs(s, 1) < |s| && s[SkipWs(s, 1)] != '}'
    requires MapInternal(Identity, ForEveryKey(QuotedString))(s, 1) == Step(Ok(v), e)
    requires e < |s| && s[e] == '}'
    ensures StringMap()(s, 0) == Step(Ok(v), e + 1)
  {
    var inner := MapInternal(Identity, ForEveryKey(QuotedString));
    BetweenChars('{', inner, '}', [], s, v, e);
    assert StringMap() == Between(ExpectChar('{'), inner, ExpectChar('}'), []);
  }

  lemma EmptyCollections()
    ensures Strings(ListKind)("[]", 0) == Step(Ok([]), 2)
    ensures Strings(ListKind)("[ ]", 0) == Step(Ok([]), 3)
  {
    assert SkipWs("[ ]", 1) == 2;
  }

  /** The loop of the tests' collection of two strings reads both items. */
  lemma TwoStringsItems(s: string)
    requires s == "[\"a\", \"b\"]"
    ensures Monotone(QuotedString)
    ensures CollectionFrom(QuotedString, ListKind, s, 1, []) == Step(Ok(["a", "b"]), 9)
  {
    QuotedStringIsBounded();
    assert s[2..3] == "a";
    ReadsPlain(s, 1, "a");
    assert s[7..8] == "b";
    ReadsPlain(s, 6, "b");
    NoSkipAt(s, 1);
    NoSkipAt(s, 4);
    NoSkipAt(s, 6);
    NoSkipAt(s, 9);
    assert SkipWs(s, 5) == 6;
    CollectionComma(s, 1, [], "a", 4);
    assert [] + ["a"] == ["a"];
    CollectionLast(s, 5, ["a"], "b", 9);
    assert ["a"] + ["b"] == ["a", "b"];
  }

  lemma TwoStrings()
    ensures Strings(ListKind)("[\"a\", \"b\"]", 0) == Step(Ok(["a", "b"]), 10)
  {
    TwoStringsAt("[\"a\", \"b\"]");
  }

  lemma TwoStringsAt(s: string)
    requires s == "[\"a\", \"b\"]"
    ensures Strings(ListKind)(s, 0) == Step(Ok(["a", "b"]), 10)
  {
    TwoStringsItems(s);
    Bracketed(ListKind, s, ["a", "b"], 9);
  }

  /** The unclosed collection fails at the end, where the closing bracket was expected. */
  lemma UnclosedCollection()
    ensures Strings(ListKind)("[", 0) == Step(Err(ParseError(1, 1, "[", ExpectMessage("]"))), 1)
  {
  }

  /** An unterminated string fails from after its opening quote to the end. */
  lemma UnterminatedString()
    ensures Strings(ListKind)("[\"a", 0) == Step(Err(ParseError(2, 3, "[\"a", NoTerminalQuote)), 3)
  {
    assert CloseFrom("[\"a", 2, false) == 3;
  }

  /** After a trailing comma at the end of the text the loop stops, and the closing bracket is
      missing. */
  lemma TrailingComma()
    ensures Strings(ListKind)("[\"a\",", 0) == Step(Err(ParseError(5, 5, "[\"a\",", ExpectMessage("]"))), 5)
  {
    var s := "[\"a\",";
    QuotedStringIsBounded();
    assert s[2..3] == "a";
    ReadsPlain(s, 1, "a");
    assert SkipWs(s, 1) == 1 && SkipWs(s, 4) == 4;
    CollectionComma(s, 1, [], "a", 4);
    assert [] + ["a"] == ["a"];
    assert CollectionFrom(QuotedString, ListKind, s, 1, []) == Step(Ok(["a"]), 5);
    assert CollectionInternal(QuotedString, ListKind)(s, 1) == Step(Ok(["a"]), 5);
  }

  lemma EmptyMaps()
    ensures StringMap()("{}", 0) == Step(Ok([]), 2)
    ensures StringMap()("{ }", 0) == Step(Ok([]), 3)
  {
    assert SkipWs("{ }", 1) == 2;
  }

  /** The map error tests: each failure and where it spans. */
  lemma MapErrorsAtStart()
    ensures StringMap()("{", 0) == Step(Err(ParseError(1, 1, "{", ExpectMessage("}"))), 1)
    ensures StringMap()("", 0) == Step(Err(ParseError(0, 0, "", ExpectMessage("{"))), 0)
    ensures StringMap()("{a", 0) == Step(Err(ParseError(1, 1, "{a", NoQuote)), 1)
  {
  }

  lemma MapErrorsInKey()
    ensures StringMap()("{\"a", 0) == Step(Err(ParseError(2, 3, "{\"a", NoTerminalQuote)), 3)
    ensures StringMap()("{\"a\"", 0) == Step(Err(ParseError(4, 4, "{\"a\"", ExpectMessage(":"))), 4)
  {
    assert CloseFrom("{\"a", 2, false) == 3;
    ReadsPlain("{\"a\"", 1, "a");
  }

  lemma MapErrorsNoValue()
    ensures StringMap()("{\"a\":", 0) == Step(Err(ParseError(5, 5, "{\"a\":", NoQuote)), 5)
  {
    ReadsPlain("{\"a\":", 1, "a");
  }

  lemma MapErrorsUnterminatedValue()
    ensures StringMap()("{\"a\":\"", 0) == Step(Err(ParseError(6, 6, "{\"a\":\"", NoTerminalQuote)), 6)
  {
    ReadsPlain("{\"a\":\"", 1, "a");
  }

  /** The map loop over the entry `"a":""` standing at 1, with the closing character `close`
      at 7 or the end of the text there: it puts the entry and stops at 7 unless a comma
      follows, and goes on after the comma otherwise. */
  lemma EntryA(s: string)
    requires 7 <= |s| && s[1] == '"' && s[2] == 'a' && s[3] == '"' && s[4] == ':' && s[5] == '"'
    requires s[6] == '"'
    ensures Monotone(QuotedString)
    ensures MapRound(Identity, ForEveryKey(QuotedString), s, 1, [])
         == if Peek(s, SkipWs(s, 7)) == Code(',') then Next(SkipWs(s, 7), [("a", "")])
            else Stop(Step(Ok([("a", "")]), SkipWs(s, 7)))
  {
    QuotedStringIsBounded();
    var item := ForEveryKey(QuotedString);
    ForEveryKeyMonotone<string, string>(QuotedString);
    assert s[2..3] == "a";
    NoSkipAt(s, 1);
    ReadsPlain(s, 1, "a");
    NoSkipAt(s, 4);
    NoSkipAt(s, 5);
    assert KeyValueSeparator(s, 4) == Step(Ok(Empty), 5);
    assert s[6..6] == "";
    ReadsPlain(s, 5, "");
    assert Put([], "a", "") == [("a", "")];
    MapRoundReads(Identity, item, s, 1, [], "a", 4, "", 7);
  }

  lemma MapErrorsUnclosed()
    ensures StringMap()("{\"a\":\"\"", 0) == Step(Err(ParseError(7, 7, "{\"a\":\"\"", ExpectMessage("}"))), 7)
  {
    var s := "{\"a\":\"\"";
    var item := ForEveryKey(QuotedString);
    EntryA(s);
    MapFromRound(Identity, item, s, 1, []);
    var inner := MapInternal(Identity, item);
    assert inner(s, 1) == Step(Ok([("a", "")]), 7);
    BetweenCharsUnclosed('{', inner, '}', [], s, [("a", "")]);
    assert StringMap() == Between(ExpectChar('{'), inner, ExpectChar('}'), []);
  }

  lemma MapErrorsTrailingComma()
    ensures StringMap()("{\"a\":\"\",}", 0) == Step(Err(ParseError(8, 8, "{\"a\":\"\",}", NoQuote)), 8)
  {
    var s := "{\"a\":\"\",}";
    var item := ForEveryKey(QuotedString);
    EntryA(s);
    NoSkipAt(s, 7);
    MapFromRound(Identity, item, s, 1, []);
    NoSkipAt(s, 8);
    var inner := MapInternal(Identity, item);
    assert inner(s, 1) == MapFrom(Identity, item, s, 8, [("a", "")]);
    assert inner(s, 1) == Step(Err(ParseError(8, 8, s, NoQuote)), 8);
    BetweenCharsBodyFails('{', inner, '}', [], s);
    assert StringMap() == Between(ExpectChar('{'), inner, ExpectChar('}'), []);
  }

  /** `objectAsMap` with the string parser for every field: `{}` is the empty map, and
      `{"a":""}` the map from "a" to the empty string. */
  lemma ObjectAsMapExamples()
    ensures ObjectAsMap(ForEveryKey(QuotedString))("{}", 0) == Step(Ok(map[]), 2)
    ensures ObjectAsMap(ForEveryKey(QuotedString))("{\"a\":\"\"}", 0) == Step(Ok(map["a" := ""]), 8)
  {
    QuotedStringIsBounded();
    ForEveryKeyMonotone<string, string>(QuotedString);
    var p := ObjectAsMap(ForEveryKey(QuotedString));
    assert StringMap()("{}", 0) == Step(Ok([]), 2) by { EmptyMaps(); }
    ComposeResultOutcome(StringMap(), AsMap, "{}", 0);
    var s := "{\"a\":\"\"}";
    var item := ForEveryKey(QuotedString);
    EntryA(s);
    MapFromRound(Identity, item, s, 1, []);
    NoSkipAt(s, 1);
    Braced(s, [("a", "")], 7);
    ComposeResultOutcome(StringMap(), AsMap, s, 0);
    assert AsMap([("a", "")]) == map["a" := ""];
  }

  /** `unknownField("field")` fails where it stands. */
  lemma UnknownFieldExample()
    ensures UnknownField<int>("field")("any", 0) == Step(Err(ParseError(0, 0, "any", "Unknown field 'field'")), 0)
  {
    assert "Unknown field '" + "field" + "'" == "Unknown field 'field'";
  }
}
