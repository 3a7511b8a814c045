/** What the serializers write for a value of any kind, `any()` reads back: the nested
    collections and maps of strings, numbers and nulls. The library has no serializer for
    booleans; `Write` supplies one, writing `true` and `false` as `String.valueOf(boolean)`
    would, so that every value `any()` produces has a text. */
module AnyRoundTrips {
  import opened Text
  import opened ParseErrors
  import opened ParseStates
  import opened Parsers
  import opened JsonTokens
  import opened JsonNumbers
  import opened JsonCollections
  import opened Serializers
  import opened RoundTrips
  import opened JsonAny

  /** The text written for a value: `null` for the null reference, `serialize(Double)`,
      `serialize(String)`, and `serialize(Collection, ...)` or `serialize(Map, ...)` with this
      writer for the items and the quoting writer for keys. A boolean, for which the library
      has no serializer, is written as `String.valueOf(boolean)` would write it. */
  function Write(v: Json): (r: string)
    ensures v.JNull? ==> r == SerializeString(None)
    ensures v.JNumber? ==> r == SerializeBoxed(Some(v.n), SerializeFloating)
    ensures v.JString? ==> r == SerializeString(Some(v.str))
    ensures v.JArray? ==> |r| >= 2 && r[0] == '[' && r[|r| - 1] == ']'
    ensures v.JObject? ==> |r| >= 2 && r[0] == '{' && r[|r| - 1] == '}'
    decreases v
  {
    match v
    case JNull => NullText
    case JBool(b) => if b then "true" else "false"
    case JNumber(n) => SerializeFloating(n)
    case JString(x) => Quote(x)
    case JArray(items) =>
      "[" + Commas(seq(|items|, k requires 0 <= k < |items| => Write(items[k]))) + "]"
    case JObject(entries) =>
      "{" + Commas(seq(|entries|, k requires 0 <= k < |entries| =>
                       Quote(entries[k].0) + ":" + Write(entries[k].1))) + "}"
  }

  /** A list is written as the collection serializer writes it, with `Write` for the items. */
  lemma WriteArray(items: seq<Json>)
    ensures Write(JArray(items)) == "[" + Commas(Texts(Write, items)) + "]"
  {
    var texts := Texts(Write, items);
    var written := seq(|items|, k requires 0 <= k < |items| => Write(items[k]));
    assert Write(JArray(items)) == "[" + Commas(written) + "]";
    assert |written| == |texts|;
    forall k | 0 <= k < |items| ensures written[k] == texts[k] {
      assert written[k] == Write(items[k]);
    }
    assert written == texts;
  }

  /** A map is written as the map serializer writes it, with quoted keys and `Write` for the
      values. */
  lemma WriteObject(entries: seq<(string, Json)>)
    ensures Write(JObject(entries)) == "{" + Commas(EntryTexts(Quote, Write, entries)) + "}"
  {
    var texts := EntryTexts(Quote, Write, entries);
    var written := seq(|entries|, k requires 0 <= k < |entries| =>
                       Quote(entries[k].0) + ":" + Write(entries[k].1));
    assert Write(JObject(entries)) == "{" + Commas(written) + "}";
    assert |written| == |texts|;
    forall k | 0 <= k < |entries| ensures written[k] == texts[k] {
      assert written[k] == Quote(entries[k].0) + ":" + Write(entries[k].1);
    }
    assert written == texts;
  }

  /** The values whose text reads back as themselves: every finite number is a literal the
      conversion accepts as it is, and every map has distinct keys. */
  predicate Writable(v: Json)
    decreases v
  {
    match v
    case JNumber(n) => n.Finite? ==> FiniteLiteral(n.literal)
    case JArray(items) => forall k :: 0 <= k < |items| ==> Writable(items[k])
    case JObject(entries) =>
      DistinctKeys(entries) && forall k :: 0 <= k < |entries| ==> Writable(entries[k].1)
    case _ => true
  }

  /** A text that starts a value, placed at i, is where `any()` looks after skipping
      whitespace. */
  lemma PlacedStart(s: string, i: nat, text: string)
    requires Placed(s, i, text) && StartsValue(text)
    ensures SkipWs(s, i) == i && Peek(s, i) == Code(text[0])
  {
    PlacedAt(s, i, text, 0);
  }

  /** A literal the conversion accepts as itself starts with a sign, a digit or a point, so
      `any()` hands it to the double parser. */
  lemma FiniteStart(t: string)
    requires ParseFloating(t) == Some(Finite(t))
    ensures t != [] && (IsDigit(t[0]) || t[0] == '+' || t[0] == '-' || t[0] == '.')
  {
  }

  lemma NullReadsBack()
    ensures ReadsBack(AnyValue, JNull, Write(JNull))
  {
    forall s: string, i: nat | Placed(s, i, NullText)
      ensures AnyValue(s, i) == Step(Ok(JNull), i + 4)
    {
      PlacedStart(s, i, NullText);
      NullOutcome(s, i);
    }
  }

  lemma BoolReadsBack(b: bool)
    ensures ReadsBack(AnyValue, JBool(b), Write(JBool(b)))
  {
    var text := Write(JBool(b));
    forall s: string, i: nat | Placed(s, i, text)
      ensures AnyValue(s, i) == Step(Ok(JBool(b)), i + |text|)
    {
      PlacedStart(s, i, text);
      BooleanOutcome(s, i);
    }
  }

  lemma NumberReadsBack(n: Fp)
    requires n.Finite? ==> FiniteLiteral(n.literal)
    ensures ReadsBack(AnyValue, JNumber(n), Write(JNumber(n)))
  {
    var text := SerializeFloating(n);
    FloatingReadsBack(Double, n);
    if n.Finite? {
      FiniteStart(n.literal);
    }
    forall s: string, i: nat | Placed(s, i, text)
      ensures AnyValue(s, i) == Step(Ok(JNumber(n)), i + |text|)
    {
      PlacedStart(s, i, text);
      assert Floating(Double)(s, i) == Step(Ok(n), i + |text|);
    }
  }

  lemma StringReadsBack(x: string)
    ensures ReadsBack(AnyValue, JString(x), Write(JString(x)))
  {
    var text := Quote(x);
    QuoteReadsBack(x);
    forall s: string, i: nat | Placed(s, i, text)
      ensures AnyValue(s, i) == Step(Ok(JString(x)), i + |text|)
    {
      PlacedStart(s, i, text);
      assert QuotedString(s, i) == Step(Ok(x), i + |text|);
    }
  }

  /** Each item read back from its text makes every item read back. */
  lemma {:induction false} AllFromEach<T>(p: Parser<T>, f: T -> string, xs: seq<T>)
    requires forall k :: 0 <= k < |xs| ==> ReadsBack(p, xs[k], f(xs[k]))
    ensures AllReadBack(p, f, xs)
  {
    if xs != [] {
      AllFromEach(p, f, xs[1..]);
    }
  }

  lemma {:induction false} AllValuesFromEach<V>(p: Parser<V>, f: V -> string, entries: seq<(string, V)>)
    requires forall k :: 0 <= k < |entries| ==> ReadsBack(p, entries[k].1, f(entries[k].1))
    ensures AllValuesReadBack(p, f, entries)
  {
    if entries != [] {
      AllValuesFromEach(p, f, entries[1..]);
    }
  }

  lemma ArrayReadsBack(items: seq<Json>)
    requires forall k :: 0 <= k < |items| ==> ReadsBack(AnyValue, items[k], Write(items[k]))
    ensures ReadsBack(AnyValue, JArray(items), Write(JArray(items)))
  {
    var text := Write(JArray(items));
    AnyValueIsBounded();
    AllFromEach(AnyValue, Write, items);
    CollectionReadsBack(AnyValue, Write, items);
    WriteArray(items);
    forall s: string, i: nat | Placed(s, i, text)
      ensures AnyValue(s, i) == Step(Ok(JArray(items)), i + |text|)
    {
      PlacedStart(s, i, text);
      AnyIsFixedPoint(s, i);
      assert Collection(AnyValue, ListKind)(s, i) == Step(Ok(items), i + |text|);
    }
  }

  lemma ObjectReadsBack(entries: seq<(string, Json)>)
    requires DistinctKeys(entries)
    requires forall k :: 0 <= k < |entries| ==> ReadsBack(AnyValue, entries[k].1, Write(entries[k].1))
    ensures ReadsBack(AnyValue, JObject(entries), Write(JObject(entries)))
  {
    var text := Write(JObject(entries));
    AnyValueIsBounded();
    AllValuesFromEach(AnyValue, Write, entries);
    MapReadsBack(AnyValue, Write, entries);
    WriteObject(entries);
    forall s: string, i: nat | Placed(s, i, text)
      ensures AnyValue(s, i) == Step(Ok(JObject(entries)), i + |text|)
    {
      PlacedStart(s, i, text);
      AnyIsFixedPoint(s, i);
      assert Map(Identity, AnyValue)(s, i) == Step(Ok(entries), i + |text|);
    }
  }

  /** `any()` reads back every writable value from the text the serializers write for it,
      wherever that text stands before a boundary: nested lists and maps included. */
  lemma {:induction false} WriteReadsBack(v: Json)
    requires Writable(v)
    ensures ReadsBack(AnyValue, v, Write(v))
    decreases v
  {
    match v
    case JNull => NullReadsBack();
    case JBool(b) => BoolReadsBack(b);
    case JNumber(n) => NumberReadsBack(n);
    case JString(x) => StringReadsBack(x);
    case JArray(items) =>
      forall k | 0 <= k < |items| ensures ReadsBack(AnyValue, items[k], Write(items[k])) {
        WriteReadsBack(items[k]);
      }
      ArrayReadsBack(items);
    case JObject(entries) =>
      forall k | 0 <= k < |entries| ensures ReadsBack(AnyValue, entries[k].1, Write(entries[k].1)) {
        WriteReadsBack(entries[k].1);
      }
      ObjectReadsBack(entries);
  }

  /** A text that stands alone is placed at the start of itself. */
  lemma Alone(text: string)
    ensures Placed(text, 0, text)
  {
    assert text[0..|text|] == text;
  }

  /** The string and list cases of the `any()` test, from the text the serializers write. */
  lemma AnyStringExample()
    ensures AnyValue("\"test\"", 0) == Step(Ok(JString("test")), 6)
  {
    QuotePlain("test");
    StringReadsBack("test");
    assert Write(JString("test")) == "\"test\"";
    Alone("\"test\"");
  }

  lemma AnyListExample()
    ensures AnyValue("[\"test\"]", 0) == Step(Ok(JArray([JString("test")])), 8)
  {
    var v := JArray([JString("test")]);
    QuotePlain("test");
    WriteArray([JString("test")]);
    assert Write(v) == "[\"test\"]";
    WriteReadsBack(v);
    Alone("[\"test\"]");
  }

  lemma AnyNestedListExample()
    ensures AnyValue("[[\"test\"]]", 0) == Step(Ok(JArray([JArray([JString("test")])])), 10)
  {
    var inner := JArray([JString("test")]);
    var v := JArray([inner]);
    QuotePlain("test");
    WriteArray([JString("test")]);
    assert Write(inner) == "[\"test\"]";
    WriteArray([inner]);
    assert Write(v) == "[[\"test\"]]";
    WriteReadsBack(v);
    Alone("[[\"test\"]]");
  }
}
