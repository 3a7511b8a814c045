/** `json/Serializers`: the JSON text written for each kind of value, and the parsers of the
    same library reading that text back. */
module Serializers {
  import opened Text
  import opened ParseErrors
  import opened ParseStates
  import opened Parsers
  import opened JsonStrings
  import opened JsonTokens
  import opened JsonNumbers
  import opened JsonCollections

  /** `JsonCharSeq.NULL` and `JsonCharSeq.EMPTY`. */
  const NullText: string := "null"
  const EmptyText: string := ""

  // Scalars.

  // `serialize(byte)`, `serialize(short)`, `serialize(int)` and `serialize(long)` write
  // `String.valueOf`, the decimal form `Text.IntToDecimal`.

  /** The boxed overloads: `String.valueOf` of a null reference is `null`. */
  function SerializeBoxed<T>(v: Option<T>, serializer: T -> string): (r: string)
    ensures v.None? ==> r == NullText
  {
    match v
    case None => NullText
    case Some(x) => serializer(x)
  }

  /** `serialize(float)` and `serialize(double)`: the special values by name; a finite value is
      written as the literal it is kept as. */
  function SerializeFloating(v: Fp): string {
    match v
    case NaN => "NaN"
    case PosInf => "Infinity"
    case NegInf => "-Infinity"
    case Finite(literal) => literal
  }

  /** The quoted, escaped form of a string. */
  function Quote(x: string): (r: string)
    ensures |r| == |Escaped(x)| + 2 && r[0] == '"' && r[|r| - 1] == '"'
    ensures r[1..|r| - 1] == Escaped(x)
  {
    "\"" + Escaped(x) + "\""
  }

  /** `serialize(String)`: `null` for a null reference. */
  function SerializeString(x: Option<string>): (r: string)
    ensures x.None? ==> r == NullText
    ensures x.Some? ==> r == Quote(x.value)
  {
    SerializeBoxed(x, Quote)
  }

  /** `serialize(Optional, serializer)` and the `OptionalInt`, `OptionalLong` and
      `OptionalDouble` overloads: the value's text, or nothing at all for an empty optional. */
  function SerializeOptional<T>(o: Option<T>, serializer: T -> string): (r: string)
    ensures o.None? ==> r == EmptyText
    ensures o.Some? ==> r == serializer(o.value)
  {
    match o
    case None => EmptyText
    case Some(x) => serializer(x)
  }

  // Collections and maps.

  /** The text of each item, in order. */
  function Texts<T>(serializer: T -> string, xs: seq<T>): (r: seq<string>)
    ensures |r| == |xs| && forall k :: 0 <= k < |xs| ==> r[k] == serializer(xs[k])
  {
    if xs == [] then [] else [serializer(xs[0])] + Texts(serializer, xs[1..])
  }

  /** The parts a `StringJoiner` with separator "," holds, without its prefix and suffix. */
  function Commas(parts: seq<string>): string {
    if parts == [] then ""
    else if |parts| == 1 then parts[0]
    else Commas(parts[..|parts| - 1]) + "," + parts[|parts| - 1]
  }

  /** Read from the front: the first part, then a comma before each following one. */
  lemma {:induction false} CommasCons(parts: seq<string>)
    requires |parts| >= 2
    ensures Commas(parts) == parts[0] + "," + Commas(parts[1..])
    decreases |parts|
  {
    var last := parts[|parts| - 1];
    var init := parts[..|parts| - 1];
    if |parts| == 2 {
      assert init == [parts[0]] && parts[1..] == [last];
    } else {
      CommasCons(init);
      assert init[1..] == parts[1..][..|parts| - 2];
    }
  }

  /** `serialize(Collection, serializer)`: a `StringJoiner(",", "[", "]")` fed with each
      item's text in the collection's order; `null` for a null collection. */
  method SerializeCollection<T>(collection: Option<seq<T>>, serializer: T -> string)
    returns (r: string)
    ensures collection.None? ==> r == NullText
    ensures collection.Some? ==> r == "[" + Commas(Texts(serializer, collection.value)) + "]"
  {
    if collection.None? {
      return NullText;
    }
    var items := collection.value;
    var joined := "";
    var i := 0;
    while i < |items|
      invariant 0 <= i <= |items|
      invariant joined == Commas(Texts(serializer, items[..i]))
    {
      var texts := Texts(serializer, items[..i + 1]);
      assert texts[..i] == Texts(serializer, items[..i]);
      if i > 0 {
        joined := joined + ",";
      }
      joined := joined + serializer(items[i]);
      i := i + 1;
    }
    assert items[..i] == items;
    r := "[" + joined + "]";
  }

  /** The text of one map entry: the key's text, a colon and the value's text. */
  function EntryTexts<K, V>(keySerializer: K -> string, valueSerializer: V -> string,
                            entries: seq<(K, V)>): (r: seq<string>)
    ensures |r| == |entries|
    ensures forall k :: 0 <= k < |entries| ==>
              r[k] == keySerializer(entries[k].0) + ":" + valueSerializer(entries[k].1)
  {
    if entries == [] then []
    else
      [keySerializer(entries[0].0) + ":" + valueSerializer(entries[0].1)]
      + EntryTexts(keySerializer, valueSerializer, entries[1..])
  }

  /** `serialize(Map, keySerializer, valueSerializer)`: a `StringJoiner(",", "{", "}")` fed
      with each entry in the map's iteration order; `null` for a null map. */
  method SerializeMap<K, V>(m: Option<seq<(K, V)>>, keySerializer: K -> string,
                            valueSerializer: V -> string)
    returns (r: string)
    ensures m.None? ==> r == NullText
    ensures m.Some? ==> r == "{" + Commas(EntryTexts(keySerializer, valueSerializer, m.value)) + "}"
  {
    if m.None? {
      return NullText;
    }
    var entries := m.value;
    var joined := "";
    var i := 0;
    while i < |entries|
      invariant 0 <= i <= |entries|
      invariant joined == Commas(EntryTexts(keySerializer, valueSerializer, entries[..i]))
    {
      var texts := EntryTexts(keySerializer, valueSerializer, entries[..i + 1]);
      assert texts[..i] == EntryTexts(keySerializer, valueSerializer, entries[..i]);
      if i > 0 {
        joined := joined + ",";
      }
      joined := joined + (keySerializer(entries[i].0) + ":" + valueSerializer(entries[i].1));
      i := i + 1;
    }
    assert entries[..i] == entries;
    r := "{" + joined + "}";
  }

  /** The serializer tests. */
  lemma SerializeExamples()
    ensures IntToDecimal(-1) == "-1" && IntToDecimal(0) == "0" && IntToDecimal(1) == "1"
    ensures SerializeBoxed(None, IntToDecimal) == "null"
    ensures SerializeFloating(NaN) == "NaN" && SerializeFloating(NegInf) == "-Infinity"
    ensures SerializeFloating(PosInf) == "Infinity"
    ensures SerializeString(Some("")) == "\"\"" && SerializeString(Some("test")) == "\"test\""
    ensures SerializeString(None) == "null"
    ensures SerializeOptional(Some("test"), Quote) == "\"test\""
    ensures SerializeOptional(None, Quote) == ""
  {
    assert IntToDecimal(-1) == "-1";
    EscapedIdentity("test");
    EscapedIdentity("");
  }

  /** A string without a character to escape is written between quotes as it is. */
  lemma QuotePlain(x: string)
    requires forall k :: 0 <= k < |x| ==> !NeedsEscape(x[k])
    ensures Quote(x) == "\"" + x + "\""
  {
    EscapedIdentity(x);
  }

  /** The collection tests: what the joiner holds once fed. */
  lemma SerializeListExample()
    ensures Commas(Texts(Quote, ["a", "b", "c"])) == "\"a\",\"b\",\"c\""
  {
    var t := Texts(Quote, ["a", "b", "c"]);
    assert t == [Quote("a"), Quote("b"), Quote("c")];
    QuotePlain("a");
    QuotePlain("b");
    QuotePlain("c");
    assert t[..2][..1] == [t[0]];
    assert Commas(t[..2]) == Quote("a") + "," + Quote("b");
  }

  lemma SerializeEmptyExamples()
    ensures Commas(Texts(Quote, [])) == "" && Commas(EntryTexts(Quote, IntToDecimal, [])) == ""
  {
  }

  /** The map test: entries in the map's order, each key and value joined by a colon. */
  lemma SerializeMapExample()
    ensures Commas(EntryTexts(Quote, IntToDecimal, [("a", 1), ("b", 2)])) == "\"a\":1,\"b\":2"
  {
    var t := EntryTexts(Quote, IntToDecimal, [("a", 1), ("b", 2)]);
    assert t == [Quote("a") + ":" + IntToDecimal(1), Quote("b") + ":" + IntToDecimal(2)];
    QuotePlain("a");
    QuotePlain("b");
    assert IntToDecimal(1) == "1" && IntToDecimal(2) == "2";
    assert t[..1] == [t[0]];
  }
}
