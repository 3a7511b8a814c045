/** What the serializers write, the parsers read back: for strings, whole numbers, floating-point
    values, optionals, collections and maps, wherever the text stands in a larger text. */
module RoundTrips {
  import opened Text
  import opened ParseErrors
  import opened ParseStates
  import opened Parsers
  import opened JsonStrings
  import opened JsonTokens
  import opened JsonNumbers
  import opened JsonCollections
  import opened Serializers

  /** The text starts a value: a parser reaches it without skipping whitespace, and it does not
      close a collection or a map. */
  predicate StartsValue(text: string) {
    text != [] && !IsWhitespace(Code(text[0])) && text[0] != ']' && text[0] != '}'
  }

  /** The text stands at i in s, followed by the closing character. */
  predicate Before(s: string, i: nat, text: string, close: char) {
    i + |text| < |s| && s[i..i + |text|] == text && s[i + |text|] == close
  }

  /** The text stands at i in s, followed by a boundary or by the end of s. */
  predicate Placed(s: string, i: nat, text: string) {
    i + |text| <= |s| && s[i..i + |text|] == text && IsValueBoundary(Peek(s, i + |text|))
  }

  /** p reads the text back as x, ending just after it, wherever the text is placed. */
  ghost predicate ReadsBack<T>(p: Parser<T>, x: T, text: string) {
    && StartsValue(text)
    && forall s: string, i: nat {:trigger Placed(s, i, text)} ::
         Placed(s, i, text) ==> p(s, i) == Step(Ok(x), i + |text|)
  }

  /** p reads back every item from its text. */
  ghost predicate AllReadBack<T>(p: Parser<T>, f: T -> string, xs: seq<T>) {
    xs != [] ==> ReadsBack(p, xs[0], f(xs[0])) && AllReadBack(p, f, xs[1..])
  }

  /** The character at k of a placed text. */
  lemma PlacedAt(s: string, i: nat, text: string, k: nat)
    requires Placed(s, i, text) && k < |text|
    ensures s[i + k] == text[k]
  {
    assert s[i..i + |text|][k] == s[i + k];
  }

  // Scalars.

  /** `serialize(String)` and the string parser. */
  lemma QuoteReadsBack(x: string)
    ensures ReadsBack(QuotedString, x, Quote(x))
  {
    var text := Quote(x);
    var e := Escaped(x);
    forall s: string, i: nat | Placed(s, i, text)
      ensures QuotedString(s, i) == Step(Ok(x), i + |text|)
    {
      assert text == ['"'] + e + ['"'];
      Enclosed(s, i, '"', e, '"');
      QuotedStringReadsEscaped(s, i, x);
    }
  }

  /** With the decoding as written, the string serializer's output need not read back: `a"b` is
      written as `"a\"b"`, which the as-written string parser reads as `a\b`. */
  lemma QuoteAsWrittenExample()
    ensures Quote("a\"b") == "\"a\\\"b\""
    ensures QuotedString(Quote("a\"b"), 0) == Step(Ok("a\"b"), 6)
    ensures QuotedStringAsWritten(Quote("a\"b"), 0) == Step(Ok("a\\b"), 6)
  {
    var x := "a\"b";
    var s := "\"a\\\"b\"";
    assert Escaped(x) == "a\\\"b" by {
      assert EscapeChar('a') == "a" && EscapeChar('"') == "\\\"" && EscapeChar('b') == "b";
      EscapedConcat("a", "\"b");
      EscapedConcat("\"", "b");
    }
    assert CloseFrom(s, 1, false) == 5;
    assert s[1..5] == "a\\\"b";
    SplitDecodingKeepsNext();
    QuoteReadsBack(x);
    assert Placed(s, 0, s);
  }

  /** `serialize(int)` (and the other whole-number widths) and the whole-number parser of the
      width, for a value within it. */
  lemma WholeReadsBack(w: Width, n: int)
    requires MinValue(w) <= n <= MaxValue(w)
    ensures ReadsBack(WholeNumber(w), n, IntToDecimal(n))
  {
    DecimalIsToken(n);
    forall s: string, i: nat | Placed(s, i, IntToDecimal(n))
      ensures WholeNumber(w)(s, i) == Step(Ok(n), i + |IntToDecimal(n)|)
    {
      WholeNumberReadsDecimal(w, n, s, i);
    }
  }

  /** A literal that the conversion accepts as itself and that holds no boundary. */
  predicate FiniteLiteral(t: string) {
    && ParseFloating(t) == Some(Finite(t))
    && forall k :: 0 <= k < |t| ==> !IsValueBoundary(Code(t[k]))
  }

  /** The floating-point parser reads a placed token as the table or the conversion does. */
  lemma FloatingReadsToken(p: Precision, s: string, i: nat, t: string, v: Fp)
    requires Placed(s, i, t)
    requires forall k :: 0 <= k < |t| ==> !IsValueBoundary(Code(t[k]))
    requires Special(t) == Some(v) || (Special(t) == None && ParseFloating(t) == Some(v))
    ensures Floating(p)(s, i) == Step(Ok(v), i + |t|)
  {
    forall k | i <= k < i + |t| ensures !IsValueBoundary(Code(s[k])) {
      PlacedAt(s, i, t, k - i);
    }
    ScanEndAt(s, i, i + |t|);
    assert Token(s, i, i + |t|) == Some(t);
  }

  /** `serialize(double)` (and `float`) and the floating-point parser: the special values by
      name, and a finite value written as a literal the conversion accepts. */
  lemma FloatingReadsBack(p: Precision, v: Fp)
    requires v.Finite? ==> FiniteLiteral(v.literal)
    ensures ReadsBack(Floating(p), v, SerializeFloating(v))
  {
    var t := SerializeFloating(v);
    if v.Finite? {
      FiniteIsNotSpecial(t);
    } else {
      SpecialNames(v);
    }
    forall s: string, i: nat | Placed(s, i, t)
      ensures Floating(p)(s, i) == Step(Ok(v), i + |t|)
    {
      FloatingReadsToken(p, s, i, t, v);
    }
  }

  /** A literal the conversion accepts as a finite value is none of the table's names. */
  lemma FiniteIsNotSpecial(t: string)
    requires ParseFloating(t) == Some(Finite(t))
    ensures Special(t) == None
  {
    SpecialAgreesWithConversion();
  }

  /** The names written for the special values are in the table, hold no boundary and start
      a value. */
  lemma SpecialNames(v: Fp)
    requires !v.Finite?
    ensures var t := SerializeFloating(v);
      Special(t) == Some(v) && StartsValue(t) && forall k :: 0 <= k < |t| ==> !IsValueBoundary(Code(t[k]))
  {
  }

  /** `serialize(Optional, serializer)` and the optional parser: a present value reads back
      when its text does not start like `null`. */
  lemma OptionalReadsBack<T>(p: Parser<T>, x: T, text: string)
    requires ReadsBack(p, x, text) && text[0] != 'n'
    ensures ReadsBack(Optional(p), Some(x), text)
  {
    forall s: string, i: nat | Placed(s, i, text)
      ensures Optional(p)(s, i) == Step(Ok(Some(x)), i + |text|)
    {
      PlacedAt(s, i, text, 0);
    }
  }

  /** The optional parser reads `null`, the text of a null reference, as the empty value. */
  lemma OptionalReadsNull<T>(p: Parser<T>)
    ensures ReadsBack(Optional(p), None, NullText)
  {
    forall s: string, i: nat | Placed(s, i, NullText)
      ensures Optional(p)(s, i) == Step(Ok(None), i + 4)
    {
      PlacedAt(s, i, NullText, 0);
      NullOutcome(s, i);
    }
  }

  // Collections.

  /** The joined parts start with the first part. */
  lemma CommasHead(parts: seq<string>)
    requires parts != []
    ensures |parts[0]| <= |Commas(parts)| && Commas(parts)[..|parts[0]|] == parts[0]
  {
    if |parts| >= 2 {
      CommasCons(parts);
    }
  }

  /** A text p reads back, placed at i: p reads it there. */
  lemma ReadAt<T>(p: Parser<T>, x: T, text: string, s: string, i: nat)
    requires ReadsBack(p, x, text) && Placed(s, i, text)
    ensures p(s, i) == Step(Ok(x), i + |text|)
    ensures SkipWs(s, i) == i
  {
    PlacedAt(s, i, text, 0);
  }

  /** The parts of a text made of a first part, a comma and the rest. */
  lemma CommaSplit(s: string, i: nat, a: string, b: string)
    requires i + |a + "," + b| <= |s| && s[i..i + |a + "," + b|] == a + "," + b
    ensures s[i..i + |a|] == a && s[i + |a|] == ',' && s[i + |a| + 1..i + |a| + 1 + |b|] == b
  {
    assert a + "," + b == a + ("," + b);
    SliceSplit(s, i, a, "," + b);
    SliceSplit(s, i + |a|, ",", b);
    assert s[i + |a|] == s[i + |a|..i + |a| + 1][0];
  }

  /** The parts of a text made of a first part, a comma and the rest, followed by a closing
      character: the rest stands before the closing character too. */
  lemma CommaSplitBefore(s: string, i: nat, a: string, b: string, close: char, j: nat)
    requires Before(s, i, a + "," + b, close)
    requires j == i + |a| + 1
    ensures s[i..i + |a|] == a && s[i + |a|] == ','
    ensures Before(s, j, b, close)
  {
    CommaSplit(s, i, a, b);
  }

  /** The parts of a text between an opening and a closing character. */
  lemma Enclosed(s: string, i: nat, open: char, t: string, close: char)
    requires i + |t| + 2 <= |s| && s[i..i + |t| + 2] == [open] + t + [close]
    ensures s[i] == open && s[i + 1..i + 1 + |t|] == t && s[i + 1 + |t|] == close
  {
    assert [open] + t + [close] == [open] + (t + [close]);
    SliceSplit(s, i, [open], t + [close]);
    SliceSplit(s, i + 1, t, [close]);
    assert s[i] == s[i..i + 1][0];
    assert s[i + 1 + |t|] == s[i + 1 + |t|..i + |t| + 2][0];
  }

  /** One round of the collection loop over an item's text followed by a comma or a bracket. */
  lemma CollectionItem<T>(p: Parser<T>, x: T, tx: string, s: string, i: nat, acc: seq<T>, k: nat)
    requires Monotone(p) && ReadsBack(p, x, tx)
    requires Before(s, i, tx, ',') || Before(s, i, tx, ']')
    requires k == i + |tx|
    ensures s[k] == ',' ==>
      CollectionFrom(p, ListKind, s, i, acc) == CollectionFrom(p, ListKind, s, k + 1, acc + [x])
    ensures s[k] == ']' ==>
      CollectionFrom(p, ListKind, s, i, acc) == Step(Ok(acc + [x]), k)
  {
    assert Placed(s, i, tx);
    ReadAt(p, x, tx, s, i);
    NoSkipAt(s, k);
  }

  /** The items' texts joined by commas, built from the front as the parser reads them. */
  function FrontCommas<T>(f: T -> string, xs: seq<T>): string {
    if xs == [] then ""
    else if |xs| == 1 then f(xs[0])
    else f(xs[0]) + "," + FrontCommas(f, xs[1..])
  }

  /** What the joiner holds is the same text. */
  lemma {:induction false} CommasTexts<T>(f: T -> string, xs: seq<T>)
    ensures Commas(Texts(f, xs)) == FrontCommas(f, xs)
    decreases |xs|
  {
    if |xs| >= 2 {
      var texts := Texts(f, xs);
      CommasCons(texts);
      assert texts[1..] == Texts(f, xs[1..]);
      CommasTexts(f, xs[1..]);
    } else if |xs| == 1 {
      assert Texts(f, xs) == [f(xs[0])];
    }
  }

  /** The joined texts start like the first item's text. */
  lemma FrontCommasStart<T>(p: Parser<T>, f: T -> string, xs: seq<T>)
    requires xs != [] && AllReadBack(p, f, xs)
    ensures var t := FrontCommas(f, xs); t != [] && t[0] == f(xs[0])[0] && StartsValue(t)
  {
  }

  /** The loop of the collection parser over the items' texts, joined by commas and followed
      by a closing bracket: it reads every item and stops on the bracket. */
  lemma {:induction false} CollectionFromReadsBack<T>(p: Parser<T>, f: T -> string, xs: seq<T>,
                                                     s: string, i: nat, acc: seq<T>)
    requires Monotone(p)
    requires xs != [] && AllReadBack(p, f, xs)
    requires Before(s, i, FrontCommas(f, xs), ']')
    ensures CollectionFrom(p, ListKind, s, i, acc) == Step(Ok(acc + xs), i + |FrontCommas(f, xs)|)
    decreases |xs|
  {
    var k := i + |f(xs[0])|;
    if |xs| == 1 {
      CollectionFromLast(p, f, xs, s, i, acc, k);
    } else {
      CollectionFromComma(p, f, xs, s, i, acc, k);
      CollectionFromReadsBack(p, f, xs[1..], s, k + 1, acc + [xs[0]]);
    }
  }

  /** The collection loop reads the last item and stops on the closing bracket after it. */
  lemma CollectionFromLast<T>(p: Parser<T>, f: T -> string, xs: seq<T>, s: string, i: nat,
                              acc: seq<T>, k: nat)
    requires Monotone(p)
    requires |xs| == 1 && AllReadBack(p, f, xs)
    requires Before(s, i, FrontCommas(f, xs), ']')
    requires k == i + |f(xs[0])|
    ensures CollectionFrom(p, ListKind, s, i, acc) == Step(Ok(acc + xs), i + |FrontCommas(f, xs)|)
  {
    CollectionItem(p, xs[0], f(xs[0]), s, i, acc, k);
    assert [xs[0]] == xs;
  }

  /** The collection loop reads the first of several items and the comma after it, and goes
      on with the rest. */
  lemma CollectionFromComma<T>(p: Parser<T>, f: T -> string, xs: seq<T>, s: string, i: nat,
                               acc: seq<T>, k: nat)
    requires Monotone(p)
    requires |xs| > 1 && AllReadBack(p, f, xs)
    requires Before(s, i, FrontCommas(f, xs), ']')
    requires k == i + |f(xs[0])|
    ensures CollectionFrom(p, ListKind, s, i, acc) == CollectionFrom(p, ListKind, s, k + 1, acc + [xs[0]])
    ensures AllReadBack(p, f, xs[1..]) && Before(s, k + 1, FrontCommas(f, xs[1..]), ']')
    ensures k + 1 + |FrontCommas(f, xs[1..])| == i + |FrontCommas(f, xs)|
    ensures acc + [xs[0]] + xs[1..] == acc + xs
  {
    var tx, rest := f(xs[0]), FrontCommas(f, xs[1..]);
    assert FrontCommas(f, xs) == tx + "," + rest;
    CommaSplitBefore(s, i, tx, rest, ']', k + 1);
    CollectionItem(p, xs[0], tx, s, i, acc, k);
    assert [xs[0]] + xs[1..] == xs;
  }

  /** What the expect parsers read around a text enclosed by two characters: the opening
      one where the text is placed, the closing one after the inner text, and a mismatch on an
      inner text that starts a value. */
  lemma Brackets(s: string, i: nat, open: char, t: string, close: char, e: nat)
    requires Placed(s, i, [open] + t + [close])
    requires !IsWhitespace(Code(open)) && !IsWhitespace(Code(close))
    requires e == i + 1 + |t|
    ensures Before(s, i + 1, t, close)
    ensures ExpectChar(open)(s, i) == Step(Ok(open), i + 1)
    ensures ExpectChar(close)(s, e) == Step(Ok(close), e + 1)
    ensures StartsValue(t) && t[0] != close ==> ExpectChar(close)(s, i + 1).result.Err?
  {
    Enclosed(s, i, open, t, close);
    assert SkipWs(s, i) == i;
    assert SkipWs(s, e) == e;
    if StartsValue(t) {
      assert s[i + 1] == s[i + 1..i + 1 + |t|][0];
      assert SkipWs(s, i + 1) == i + 1;
    }
  }


  /** The body of the collection parser over the items' texts joined by commas, which end
      at e. */
  lemma CollectionBody<T>(p: Parser<T>, f: T -> string, xs: seq<T>, s: string, j: nat, e: nat)
    requires Monotone(p)
    requires xs != [] && AllReadBack(p, f, xs)
    requires Before(s, j, FrontCommas(f, xs), ']')
    requires e == j + |FrontCommas(f, xs)|
    ensures CollectionInternal(p, ListKind)(s, j) == Step(Ok(xs), e)
  {
    CollectionFromReadsBack(p, f, xs, s, j, []);
    assert [] + xs == xs;
  }

  /** The collection parser reads a placed collection text as a list of the items. */
  lemma CollectionPlacedReadsBack<T>(p: Parser<T>, f: T -> string, xs: seq<T>, s: string, i: nat)
    requires Monotone(p)
    requires AllReadBack(p, f, xs)
    requires Placed(s, i, "[" + FrontCommas(f, xs) + "]")
    ensures Collection(p, ListKind)(s, i) == Step(Ok(xs), i + |FrontCommas(f, xs)| + 2)
  {
    var t := FrontCommas(f, xs);
    var open, inner, close := ExpectChar('['), CollectionInternal(p, ListKind), ExpectChar(']');
    var e := i + 1 + |t|;
    Brackets(s, i, '[', t, ']', e);
    assert Collection(p, ListKind) == Between(open, inner, close, []);
    if xs == [] {
      assert e == i + 1;
      BetweenEmpty(open, inner, close, [], s, i, i + 1);
    } else {
      FrontCommasStart(p, f, xs);
      CollectionBody(p, f, xs, s, i + 1, e);
      BetweenFull(open, inner, close, [], s, i, i + 1, xs, e);
    }
    assert e + 1 == i + |t| + 2;
  }

  /** `serialize(Collection, serializer)` and the collection parser: a list reads back as the
      items and a set as the items without repeats, the empty collection included. */
  lemma CollectionReadsBack<T>(p: Parser<T>, f: T -> string, xs: seq<T>)
    requires Monotone(p)
    requires AllReadBack(p, f, xs)
    ensures ReadsBack(Collection(p, ListKind), xs, "[" + Commas(Texts(f, xs)) + "]")
    ensures ReadsBack(Collection(p, SetKind), Dedup(xs), "[" + Commas(Texts(f, xs)) + "]")
  {
    var text := "[" + Commas(Texts(f, xs)) + "]";
    CommasTexts(f, xs);
    forall s: string, i: nat | Placed(s, i, text)
      ensures Collection(p, ListKind)(s, i) == Step(Ok(xs), i + |text|)
      ensures Collection(p, SetKind)(s, i) == Step(Ok(Dedup(xs)), i + |text|)
    {
      CollectionPlacedReadsBack(p, f, xs, s, i);
      CollectionSetIsDedup(p, s, i);
    }
  }

  // Maps.

  /** `put` of each entry in turn, from the entries `acc`. */
  function PutAll<K(==), V>(acc: seq<(K, V)>, entries: seq<(K, V)>): seq<(K, V)>
    decreases |entries|
  {
    if entries == [] then acc else PutAll(Put(acc, entries[0].0, entries[0].1), entries[1..])
  }

  /** A key no entry holds is not found. */
  lemma {:induction false} LookupAbsent<K, V>(m: seq<(K, V)>, k: K)
    requires forall j :: 0 <= j < |m| ==> m[j].0 != k
    ensures Lookup(m, k) == None
  {
    if m != [] {
      LookupAbsent(m[1..], k);
    }
  }

  /** Entries with distinct keys, put one by one, are kept as they are and in their order. */
  lemma {:induction false} PutAllDistinct<K, V>(acc: seq<(K, V)>, entries: seq<(K, V)>)
    requires DistinctKeys(acc + entries)
    ensures PutAll(acc, entries) == acc + entries
    decreases |entries|
  {
    if entries != [] {
      var (k, v) := entries[0];
      var all := acc + entries;
      forall j | 0 <= j < |acc| ensures acc[j].0 != k {
        assert acc[j] == all[j] && entries[0] == all[|acc|];
      }
      LookupAbsent(acc, k);
      PutLookup(acc, k, v);
      assert acc + [(k, v)] + entries[1..] == all;
      PutAllDistinct(acc + [(k, v)], entries[1..]);
    }
  }

  /** The entries' texts joined by commas, built from the front as the parser reads them. */
  function FrontEntries<V>(valueSerializer: V -> string, entries: seq<(string, V)>): string {
    if entries == [] then ""
    else
      var head := Quote(entries[0].0) + ":" + valueSerializer(entries[0].1);
      if |entries| == 1 then head else head + "," + FrontEntries(valueSerializer, entries[1..])
  }

  /** What the map's joiner holds, with keys written as strings, is the same text. */
  lemma {:induction false} CommasEntryTexts<V>(valueSerializer: V -> string, entries: seq<(string, V)>)
    ensures Commas(EntryTexts(Quote, valueSerializer, entries)) == FrontEntries(valueSerializer, entries)
    decreases |entries|
  {
    var texts := EntryTexts(Quote, valueSerializer, entries);
    if |entries| >= 2 {
      CommasCons(texts);
      assert texts[1..] == EntryTexts(Quote, valueSerializer, entries[1..]);
      CommasEntryTexts(valueSerializer, entries[1..]);
    } else if |entries| == 1 {
      assert texts == [texts[0]];
    }
  }

  /** p reads back every entry's value from its text. */
  ghost predicate AllValuesReadBack<V>(p: Parser<V>, valueSerializer: V -> string,
                                       entries: seq<(string, V)>) {
    entries != [] ==>
      && ReadsBack(p, entries[0].1, valueSerializer(entries[0].1))
      && AllValuesReadBack(p, valueSerializer, entries[1..])
  }

  /** The key's text, the colon and the value's text, as they stand at i. */
  lemma EntrySplit(s: string, i: nat, key: string, tv: string)
    requires var e := Quote(key) + ":" + tv; i + |e| <= |s| && s[i..i + |e|] == e
    ensures var q := Quote(key); var a := i + |q|;
      && s[i] == '"' && s[i + 1..i + 1 + |Escaped(key)|] == Escaped(key)
      && s[i + 1 + |Escaped(key)|] == '"'
      && s[a] == ':' && s[a + 1..a + 1 + |tv|] == tv
  {
    var q := Quote(key);
    var e := q + ":" + tv;
    assert e == q + (":" + tv);
    SliceSplit(s, i, q, ":" + tv);
    SliceSplit(s, i + |q|, ":", tv);
    assert s[i + |q|] == s[i + |q|..i + |q| + 1][0];
    Enclosed(s, i, '"', Escaped(key), '"');
  }

  /** What the key and separator parsers read from an entry's text: the quoted key up to a,
      then the colon, stopping where the value's text starts. */
  lemma EntryHead(key: string, tv: string, s: string, i: nat, a: nat, close: char)
    requires StartsValue(tv)
    requires Before(s, i, Quote(key) + ":" + tv, close)
    requires a == i + |Quote(key)|
    ensures SkipWs(s, i) == i
    ensures QuotedString(s, i) == Step(Ok(key), a)
    ensures KeyValueSeparator(s, a) == Step(Ok(Empty), a + 1)
    ensures Before(s, a + 1, tv, close)
  {
    EntrySplit(s, i, key, tv);
    NoSkipAt(s, i);
    QuotedStringReadsEscaped(s, i, key);
    NoSkipAt(s, a);
    assert s[a + 1] == s[a + 1..a + 1 + |tv|][0];
    NoSkipAt(s, a + 1);
  }


  /** The value parser reads a value's text that stands before a comma or a brace. */
  lemma EntryValue<V>(p: Parser<V>, v: V, tv: string, s: string, b: nat, close: char, c: nat)
    requires ReadsBack(p, v, tv)
    requires (close == ',' || close == '}') && Before(s, b, tv, close)
    requires c == b + |tv|
    ensures p(s, b) == Step(Ok(v), c) && SkipWs(s, c) == c
  {
    assert Placed(s, b, tv);
    ReadAt(p, v, tv, s, b);
  }

  /** What each parser of the map loop reads from an entry's text followed by a comma or a
      brace: the key up to a, the separator, and the value up to c. */
  lemma EntryParts<V>(p: Parser<V>, key: string, v: V, tv: string, s: string, i: nat,
                      close: char, a: nat, c: nat)
    requires ReadsBack(p, v, tv)
    requires (close == ',' || close == '}') && Before(s, i, Quote(key) + ":" + tv, close)
    requires a == i + |Quote(key)| && c == i + |Quote(key) + ":" + tv|
    ensures SkipWs(s, i) == i
    ensures QuotedString(s, i) == Step(Ok(key), a)
    ensures KeyValueSeparator(s, a) == Step(Ok(Empty), a + 1)
    ensures p(s, a + 1) == Step(Ok(v), c)
    ensures SkipWs(s, c) == c
  {
    EntryHead(key, tv, s, i, a, close);
    assert |Quote(key) + ":" + tv| == |Quote(key)| + 1 + |tv|;
    EntryValue(p, v, tv, s, a + 1, close, c);
  }

  /** A round of the map loop over an entry's text followed by a comma: the loop goes on
      after the comma, at j, with the entry put. */
  lemma MapItemComma<V>(p: Parser<V>, key: string, v: V, tv: string, s: string, i: nat,
                        acc: seq<(string, V)>, j: nat)
    requires Monotone(p) && ReadsBack(p, v, tv)
    requires Before(s, i, Quote(key) + ":" + tv, ',')
    requires j == i + |Quote(key) + ":" + tv| + 1
    ensures MapFrom(Identity, ForEveryKey(p), s, i, acc) == MapFrom(Identity, ForEveryKey(p), s, j, Put(acc, key, v))
  {
    ForEveryKeyMonotone<string, V>(p);
    var a, c := i + |Quote(key)|, j - 1;
    EntryParts(p, key, v, tv, s, i, ',', a, c);
    MapRoundReads(Identity, ForEveryKey(p), s, i, acc, key, a, v, c);
    assert Peek(s, c) == Code(',');
    assert c + 1 == j;
  }

  /** The last round of the map loop, over an entry's text followed by a brace that stands
      at c. */
  lemma MapItemLast<V>(p: Parser<V>, key: string, v: V, tv: string, s: string, i: nat,
                       acc: seq<(string, V)>, c: nat)
    requires Monotone(p) && ReadsBack(p, v, tv)
    requires Before(s, i, Quote(key) + ":" + tv, '}')
    requires c == i + |Quote(key) + ":" + tv|
    ensures MapFrom(Identity, ForEveryKey(p), s, i, acc) == Step(Ok(Put(acc, key, v)), c)
  {
    ForEveryKeyMonotone<string, V>(p);
    var a := i + |Quote(key)|;
    EntryParts(p, key, v, tv, s, i, '}', a, c);
    MapRoundReads(Identity, ForEveryKey(p), s, i, acc, key, a, v, c);
    assert Peek(s, c) != Code(',');
  }

  /** The first entry's text followed by a comma, split off the entries' texts: the value
      reads back, and the other entries' texts stand before the brace. */
  lemma EntriesSplit<V>(p: Parser<V>, vf: V -> string, entries: seq<(string, V)>,
                        s: string, i: nat, j: nat)
    requires |entries| > 1 && AllValuesReadBack(p, vf, entries)
    requires Before(s, i, FrontEntries(vf, entries), '}')
    requires j == i + |Quote(entries[0].0) + ":" + vf(entries[0].1)| + 1
    ensures ReadsBack(p, entries[0].1, vf(entries[0].1))
    ensures Before(s, i, Quote(entries[0].0) + ":" + vf(entries[0].1), ',')
    ensures AllValuesReadBack(p, vf, entries[1..])
    ensures Before(s, j, FrontEntries(vf, entries[1..]), '}')
    ensures i + |FrontEntries(vf, entries)| == j + |FrontEntries(vf, entries[1..])|
  {
    var e := Quote(entries[0].0) + ":" + vf(entries[0].1);
    var rest := FrontEntries(vf, entries[1..]);
    assert FrontEntries(vf, entries) == e + "," + rest;
    CommaSplitBefore(s, i, e, rest, '}', j);
  }

  /** The map loop over the first entry's text followed by a comma goes on after the comma
      with the first entry put. */
  lemma MapFromComma<V>(p: Parser<V>, vf: V -> string, entries: seq<(string, V)>,
                        s: string, i: nat, acc: seq<(string, V)>, j: nat)
    requires Monotone(p)
    requires |entries| > 1 && ReadsBack(p, entries[0].1, vf(entries[0].1))
    requires Before(s, i, Quote(entries[0].0) + ":" + vf(entries[0].1), ',')
    requires j == i + |Quote(entries[0].0) + ":" + vf(entries[0].1)| + 1
    ensures MapFrom(Identity, ForEveryKey(p), s, i, acc)
         == MapFrom(Identity, ForEveryKey(p), s, j, Put(acc, entries[0].0, entries[0].1))
    ensures PutAll(acc, entries) == PutAll(Put(acc, entries[0].0, entries[0].1), entries[1..])
  {
    MapItemComma(p, entries[0].0, entries[0].1, vf(entries[0].1), s, i, acc, j);
  }

  /** The map loop over the only entry's text followed by the brace puts the entry and stops
      on the brace. */
  lemma MapFromLast<V>(p: Parser<V>, vf: V -> string, entries: seq<(string, V)>,
                       s: string, i: nat, acc: seq<(string, V)>)
    requires Monotone(p)
    requires |entries| == 1 && AllValuesReadBack(p, vf, entries)
    requires Before(s, i, FrontEntries(vf, entries), '}')
    ensures MapFrom(Identity, ForEveryKey(p), s, i, acc)
         == Step(Ok(PutAll(acc, entries)), i + |FrontEntries(vf, entries)|)
  {
    var key, v := entries[0].0, entries[0].1;
    var tv := vf(v);
    assert ReadsBack(p, v, tv);
    assert FrontEntries(vf, entries) == Quote(key) + ":" + tv;
    MapItemLast(p, key, v, tv, s, i, acc, i + |FrontEntries(vf, entries)|);
    assert PutAll(acc, entries) == Put(acc, key, v);
  }

  /** The loop of the map parser over the entries' texts, joined by commas and followed by a
      closing brace: it puts every entry in turn and stops on the brace. */
  lemma {:induction false} MapFromReadsBack<V>(p: Parser<V>, vf: V -> string, entries: seq<(string, V)>,
                                              s: string, i: nat, acc: seq<(string, V)>)
    requires Monotone(p)
    requires entries != [] && AllValuesReadBack(p, vf, entries)
    requires Before(s, i, FrontEntries(vf, entries), '}')
    ensures MapFrom(Identity, ForEveryKey(p), s, i, acc)
         == Step(Ok(PutAll(acc, entries)), i + |FrontEntries(vf, entries)|)
    decreases |entries|
  {
    if |entries| == 1 {
      MapFromLast(p, vf, entries, s, i, acc);
    } else {
      var j := i + |Quote(entries[0].0) + ":" + vf(entries[0].1)| + 1;
      EntriesSplit(p, vf, entries, s, i, j);
      MapFromComma(p, vf, entries, s, i, acc, j);
      MapFromReadsBack(p, vf, entries[1..], s, j, Put(acc, entries[0].0, entries[0].1));
    }
  }

  /** The body of the map parser over the entries' texts joined by commas, which end at e. */
  lemma MapBody<V>(p: Parser<V>, vf: V -> string, entries: seq<(string, V)>, s: string, j: nat, e: nat)
    requires Monotone(p)
    requires entries != [] && AllValuesReadBack(p, vf, entries)
    requires Before(s, j, FrontEntries(vf, entries), '}')
    requires e == j + |FrontEntries(vf, entries)|
    ensures MapInternal(Identity, ForEveryKey(p))(s, j) == Step(Ok(PutAll([], entries)), e)
  {
    MapFromReadsBack(p, vf, entries, s, j, []);
  }

  /** The map parser reads a placed map text as the entries put in turn. */
  lemma MapPlacedReadsBack<V>(p: Parser<V>, vf: V -> string, entries: seq<(string, V)>, s: string, i: nat)
    requires Monotone(p)
    requires AllValuesReadBack(p, vf, entries)
    requires Placed(s, i, "{" + FrontEntries(vf, entries) + "}")
    ensures Map(Identity, p)(s, i) == Step(Ok(PutAll([], entries)), i + |FrontEntries(vf, entries)| + 2)
  {
    var t := FrontEntries(vf, entries);
    var open, inner, close := ExpectChar('{'), MapInternal(Identity, ForEveryKey(p)), ExpectChar('}');
    var e := i + 1 + |t|;
    Brackets(s, i, '{', t, '}', e);
    assert Map(Identity, p) == Between(open, inner, close, []);
    if entries == [] {
      assert e == i + 1;
      BetweenEmpty(open, inner, close, [], s, i, i + 1);
    } else {
      assert t[0] == '"';
      MapBody(p, vf, entries, s, i + 1, e);
      BetweenFull(open, inner, close, [], s, i, i + 1, PutAll([], entries), e);
    }
    assert e + 1 == i + |t| + 2;
  }

  /** `serialize(Map, keySerializer, valueSerializer)`, with keys written as strings, and the
      map parser with the identity key function: the text reads back as the entries put in
      turn, which for a map's entries, whose keys are distinct, are the entries themselves. */
  lemma MapReadsBack<V>(p: Parser<V>, vf: V -> string, entries: seq<(string, V)>)
    requires Monotone(p)
    requires AllValuesReadBack(p, vf, entries)
    ensures ReadsBack(Map(Identity, p), PutAll([], entries), "{" + Commas(EntryTexts(Quote, vf, entries)) + "}")
    ensures DistinctKeys(entries) ==>
              ReadsBack(Map(Identity, p), entries, "{" + Commas(EntryTexts(Quote, vf, entries)) + "}")
  {
    var text := "{" + Commas(EntryTexts(Quote, vf, entries)) + "}";
    CommasEntryTexts(vf, entries);
    forall s: string, i: nat | Placed(s, i, text)
      ensures Map(Identity, p)(s, i) == Step(Ok(PutAll([], entries)), i + |text|)
    {
      MapPlacedReadsBack(p, vf, entries, s, i);
    }
    if DistinctKeys(entries) {
      assert [] + entries == entries;
      PutAllDistinct([], entries);
    }
  }
}
