/** The collection and map parsers of `JsonParsers`: `collection`, its inner loop (written both as
    the `collectionInternal` lambda and as `CollectionInternalParser`), `map`, `MapInternalParser`,
    `objectAsMap`, `object` and `unknownField`.

    The inner loops run an item parser repeatedly, so they are modelled for item parsers that
    never move the cursor backwards (`Monotone`); every parser of the grammar is one. */
module JsonCollections {
  import opened Text
  import opened ParseErrors
  import opened ParseStates
  import opened Parsers
  import opened JsonStrings
  import opened JsonTokens

  // Collections.

  /** What a `collectionFactory` supplies: a list (`ArrayList`) keeps every element; a set
      (`LinkedHashSet`) ignores an element equal to one it holds, keeping insertion order. */
  datatype CollectionKind = ListKind | SetKind

  /** `Collection.add`. */
  function Add<T(==)>(kind: CollectionKind, acc: seq<T>, x: T): seq<T> {
    if kind.SetKind? && x in acc then acc else acc + [x]
  }

  /** The collection holding the elements of xs, added in order. */
  function Collect<T(==)>(kind: CollectionKind, xs: seq<T>): seq<T> {
    if xs == [] then [] else Add(kind, Collect(kind, xs[..|xs| - 1]), xs[|xs| - 1])
  }

  /** The set of the elements of xs, in the order of their first occurrence. */
  function Dedup<T(==)>(xs: seq<T>): seq<T> {
    Collect(SetKind, xs)
  }

  /** A list holds exactly the elements added. */
  lemma {:induction false} CollectList<T>(xs: seq<T>)
    ensures Collect(ListKind, xs) == xs
  {
    if xs != [] {
      CollectList(xs[..|xs| - 1]);
      assert xs == xs[..|xs| - 1] + [xs[|xs| - 1]];
    }
  }

  /** A set holds each element added exactly once. */
  lemma {:induction false} CollectSet<T>(xs: seq<T>)
    ensures forall x :: x in Dedup(xs) <==> x in xs
    ensures forall a, b :: 0 <= a < b < |Dedup(xs)| ==> Dedup(xs)[a] != Dedup(xs)[b]
  {
    if xs != [] {
      var init := xs[..|xs| - 1];
      CollectSet(init);
      assert xs == init + [xs[|xs| - 1]];
    }
  }

  /** The loop of `collectionInternal`, from index i with the collection `acc` built so far:
      while the cursor is not exactly at the end, skip whitespace, parse an item (a failure is
      returned as is), add it, skip whitespace, and go on after a comma or stop before
      anything else. */
  function CollectionFrom<T(==)>(p: Parser<T>, kind: CollectionKind, s: string, i: nat, acc: seq<T>)
    : Step<seq<T>>
    requires Monotone(p)
    decreases |s| - i
  {
    if i == |s| then Step(Ok(acc), i)
    else
      var item := p(s, SkipWs(s, i));
      if !item.result.Ok? then Step(Coerce(item.result), item.pos)
      else
        var collection := Add(kind, acc, item.result.value);
        var k := SkipWs(s, item.pos);
        if Peek(s, k) == Code(',') then CollectionFrom(p, kind, s, k + 1, collection)
        else Step(Ok(collection), k)
  }

  /** `collectionInternal(itemParser, collectionFactory)`, and `CollectionInternalParser`. */
  function CollectionInternal<T(==)>(p: Parser<T>, kind: CollectionKind): Parser<seq<T>>
    requires Monotone(p)
  {
    (s: string, i: nat) => CollectionFrom(p, kind, s, i, [])
  }

  /** The body of the `collectionInternal` lambda and `CollectionInternalParser.parse`. */
  method CollectionInternalParse<T(==)>(c: Cursor, p: Parser<T>, kind: CollectionKind)
    returns (r: Result<seq<T>>)
    requires Monotone(p)
    modifies c
    ensures Step(r, c.index) == CollectionFrom(p, kind, c.text, old(c.index), [])
  {
    var collection := [];
    while !c.IsEndOfStream()
      invariant CollectionFrom(p, kind, c.text, c.index, collection)
             == CollectionFrom(p, kind, c.text, old(c.index), [])
      decreases |c.text| - c.index
    {
      c.SkipWhitespace();
      var item := c.Run(p);
      if !item.Ok? {
        return Coerce(item);
      }
      collection := Add(kind, collection, item.value);
      c.SkipWhitespace();
      if c.Current() == Code(',') {
        var _ := c.Next();
      } else {
        break;
      }
    }
    return Ok(collection);
  }

  /** `collection(itemParser, collectionFactory)`: the items between brackets; the empty
      collection when the closing bracket comes first. */
  function Collection<T(==)>(p: Parser<T>, kind: CollectionKind): Parser<seq<T>>
    requires Monotone(p)
  {
    Between(ExpectChar('['), CollectionInternal(p, kind), ExpectChar(']'), [])
  }

  /** A set collection reads exactly what a list collection reads, with later duplicates
      dropped; failures and the cursor are the same. */
  lemma {:induction false} CollectionSetIsDedupFrom<T>(p: Parser<T>, s: string, i: nat, acc: seq<T>)
    requires Monotone(p)
    ensures CollectionFrom(p, SetKind, s, i, Dedup(acc))
         == Step(MapResult(CollectionFrom(p, ListKind, s, i, acc).result, Dedup),
                 CollectionFrom(p, ListKind, s, i, acc).pos)
    decreases |s| - i
  {
    if i != |s| {
      var item := p(s, SkipWs(s, i));
      if item.result.Ok? {
        var x := item.result.value;
        var list := acc + [x];
        assert list[..|list| - 1] == acc;
        assert Dedup(list) == Add(SetKind, Dedup(acc), x);
        var k := SkipWs(s, item.pos);
        if Peek(s, k) == Code(',') {
          CollectionSetIsDedupFrom(p, s, k + 1, list);
        }
      }
    }
  }

  lemma CollectionSetIsDedup<T>(p: Parser<T>, s: string, i: nat)
    requires Monotone(p)
    ensures var list := Collection(p, ListKind)(s, i);
      Collection(p, SetKind)(s, i) == Step(MapResult(list.result, Dedup), list.pos)
  {
    var open, close := ExpectChar('['), ExpectChar(']');
    var listInner, setInner := CollectionInternal(p, ListKind), CollectionInternal(p, SetKind);
    BetweenOutcome(open, listInner, close, [], s, i);
    BetweenOutcome(open, setInner, close, [], s, i);
    var started := open(s, i);
    if started.result.Ok? && close(s, started.pos).result.Err? {
      assert Dedup<T>([]) == [];
      CollectionSetIsDedupFrom(p, s, started.pos, []);
      assert setInner(s, started.pos)
          == Step(MapResult(listInner(s, started.pos).result, Dedup), listInner(s, started.pos).pos);
    } else if started.result.Ok? {
      assert Dedup<T>([]) == [];
    }
  }

  /** The inner loop keeps the cursor within the text and never moves it back. */
  lemma {:induction false} CollectionFromBounds<T>(p: Parser<T>, kind: CollectionKind, s: string,
                                                      i: nat, acc: seq<T>)
    requires Monotone(p)
    ensures CollectionFrom(p, kind, s, i, acc).pos >= i
    ensures Bounded(p) && i <= |s| ==> CollectionFrom(p, kind, s, i, acc).pos <= |s|
    decreases |s| - i
  {
    if i != |s| {
      var j := SkipWs(s, i);
      SkipWsStops(s, i);
      var item := p(s, j);
      if item.result.Ok? {
        var k := SkipWs(s, item.pos);
        SkipWsStops(s, item.pos);
        if Peek(s, k) == Code(',') {
          CollectionFromBounds(p, kind, s, k + 1, Add(kind, acc, item.result.value));
        }
      }
    }
  }

  lemma CollectionIsBounded<T>(p: Parser<T>, kind: CollectionKind)
    requires Monotone(p)
    ensures Monotone(Collection(p, kind))
    ensures Bounded(p) ==> Bounded(Collection(p, kind))
  {
    forall s: string, i: nat
      ensures CollectionInternal(p, kind)(s, i).pos >= i
      ensures Bounded(p) && i <= |s| ==> CollectionInternal(p, kind)(s, i).pos <= |s|
    {
      CollectionFromBounds(p, kind, s, i, []);
    }
    ExpectCharIsBounded('[');
    ExpectCharIsBounded(']');
    BetweenPreserves(ExpectChar('['), CollectionInternal(p, kind), ExpectChar(']'), []);
  }

  /** Every element of a successfully read collection was produced by the item parser, and a
      failure is a failure of the item parser. */
  lemma {:induction false} CollectionFromItems<T>(p: Parser<T>, kind: CollectionKind, s: string,
                                                     i: nat, acc: seq<T>)
    requires Monotone(p)
    ensures var step := CollectionFrom(p, kind, s, i, acc);
      && (step.result.Ok? ==> forall x :: x in step.result.value ==>
            x in acc || exists j: nat :: i <= j && p(s, j).result == Ok(x))
      && (!step.result.Ok? ==> exists j: nat ::
            i <= j && !p(s, j).result.Ok? && step == Step(Coerce(p(s, j).result), p(s, j).pos))
    decreases |s| - i, 1
  {
    if i != |s| {
      var j := SkipWs(s, i);
      SkipWsStops(s, i);
      if p(s, j).result.Ok? {
        CollectionFromItemRead(p, kind, s, i, acc);
      } else {
        assert CollectionFrom(p, kind, s, i, acc) == Step(Coerce(p(s, j).result), p(s, j).pos);
      }
    }
  }

  /** `CollectionFromItems` for a round whose item parser succeeds. */
  lemma {:induction false} CollectionFromItemRead<T>(p: Parser<T>, kind: CollectionKind, s: string,
                                                        i: nat, acc: seq<T>)
    requires Monotone(p) && i != |s| && p(s, SkipWs(s, i)).result.Ok?
    ensures var step := CollectionFrom(p, kind, s, i, acc);
      && (step.result.Ok? ==> forall x :: x in step.result.value ==>
            x in acc || exists j: nat :: i <= j && p(s, j).result == Ok(x))
      && (!step.result.Ok? ==> exists j: nat ::
            i <= j && !p(s, j).result.Ok? && step == Step(Coerce(p(s, j).result), p(s, j).pos))
    decreases |s| - i, 0
  {
    var j := SkipWs(s, i);
    SkipWsStops(s, i);
    var item := p(s, j);
    var x := item.result.value;
    var collection := Add(kind, acc, x);
    assert forall y :: y in collection ==> y in acc || y == x;
    var k := SkipWs(s, item.pos);
    if Peek(s, k) == Code(',') {
      assert CollectionFrom(p, kind, s, i, acc) == CollectionFrom(p, kind, s, k + 1, collection);
      CollectionFromItems(p, kind, s, k + 1, collection);
    } else {
      assert CollectionFrom(p, kind, s, i, acc) == Step(Ok(collection), k);
    }
  }

  // Maps.

  /** `Map.put` on a map kept as its entries in insertion order (`LinkedHashMap`): a key already
      present keeps its place and takes the new value; a new key is appended. */
  function Put<K(==), V>(m: seq<(K, V)>, k: K, v: V): seq<(K, V)> {
    if m == [] then [(k, v)]
    else if m[0].0 == k then [(k, v)] + m[1..]
    else [m[0]] + Put(m[1..], k, v)
  }

  /** `Map.get`: the value of the first entry with the key. */
  function Lookup<K(==), V>(m: seq<(K, V)>, k: K): Option<V> {
    if m == [] then None
    else if m[0].0 == k then Some(m[0].1)
    else Lookup(m[1..], k)
  }

  predicate DistinctKeys<K(==), V>(m: seq<(K, V)>) {
    forall a, b :: 0 <= a < b < |m| ==> m[a].0 != m[b].0
  }

  /** `put` then `get` gives the value put; every other key keeps its value; keys stay distinct;
      a present key keeps the size and a new key is appended at the end. */
  lemma {:induction false} PutLookup<K, V>(m: seq<(K, V)>, k: K, v: V)
    ensures Lookup(Put(m, k, v), k) == Some(v)
    ensures forall q :: q != k ==> Lookup(Put(m, k, v), q) == Lookup(m, q)
    ensures forall e :: e in Put(m, k, v) ==> e == (k, v) || e in m
    ensures DistinctKeys(m) ==> DistinctKeys(Put(m, k, v))
    ensures Lookup(m, k).Some? ==> |Put(m, k, v)| == |m|
    ensures Lookup(m, k).None? ==> Put(m, k, v) == m + [(k, v)]
  {
    if m != [] && m[0].0 != k {
      PutLookup(m[1..], k, v);
      var r := Put(m, k, v);
      assert r == [m[0]] + Put(m[1..], k, v);
      if DistinctKeys(m) {
        forall a, b | 0 <= a < b < |r| ensures r[a].0 != r[b].0 {
          if a == 0 {
            assert r[b] in Put(m[1..], k, v);
            if r[b] != (k, v) {
              var j :| 0 <= j < |m[1..]| && m[1..][j] == r[b];
              assert m[j + 1] == r[b];
            } else {
              assert r[0].0 != k;
            }
          }
        }
      }
      if Lookup(m, k).None? {
        assert m == [m[0]] + m[1..];
      }
    }
  }

  /** The entries as a map (`HashMap`, whose iteration order is not modelled). */
  function AsMap<K(==), V>(m: seq<(K, V)>): map<K, V> {
    if m == [] then map[] else AsMap(m[1..])[m[0].0 := m[0].1]
  }

  /** The map agrees with `get`, so `put` on the entries is `put` on the map. */
  lemma {:induction false} AsMapLookup<K, V>(m: seq<(K, V)>)
    ensures forall k :: k in AsMap(m) <==> Lookup(m, k).Some?
    ensures forall k :: k in AsMap(m) ==> AsMap(m)[k] == Lookup(m, k).value
  {
    if m != [] {
      AsMapLookup(m[1..]);
    }
  }

  lemma AsMapPut<K, V>(m: seq<(K, V)>, k: K, v: V)
    ensures AsMap(Put(m, k, v)) == AsMap(m)[k := v]
  {
    AsMapLookup(m);
    AsMapLookup(Put(m, k, v));
    PutLookup(m, k, v);
  }

  /** How one round of the map loop ends: the loop stops with a step, or goes on after the
      comma at `comma` with the entries so far. */
  datatype MapRoundEnd<K, V> = Stop(step: Step<seq<(K, V)>>) | Next(comma: nat, entries: seq<(K, V)>)

  /** One round of the loop of `MapInternalParser.parse` at index i, with the entries `acc` so
      far: skip whitespace, read a quoted key and map it with `keyFn`, read the separator, read
      the value with the parser chosen for the key, put the entry and skip whitespace; go on
      after a comma or stop before anything else. Each failure stops the loop as it is. */
  function MapRound<K(==,!new), V>(keyFn: string -> K, item: K -> Parser<V>, s: string, i: nat,
                                   acc: seq<(K, V)>): (r: MapRoundEnd<K, V>)
    requires forall k :: Monotone(item(k))
    ensures r.Stop? ==> i <= r.step.pos
    ensures r.Next? ==> i <= r.comma < |s| && s[r.comma] == ','
  {
    var str := QuotedString(s, SkipWs(s, i));
    var key := MapResult(str.result, keyFn);
    if !key.Ok? then Stop(Step(Coerce(key), str.pos))
    else
      var sep := KeyValueSeparator(s, str.pos);
      if !sep.result.Ok? then Stop(Step(Coerce(sep.result), sep.pos))
      else
        var value := item(key.value)(s, sep.pos);
        assert Monotone(item(key.value));
        if !value.result.Ok? then Stop(Step(Coerce(value.result), value.pos))
        else
          var entries := Put(acc, key.value, value.result.value);
          var k := SkipWs(s, value.pos);
          if Peek(s, k) == Code(',') then Next(k, entries)
          else Stop(Step(Ok(entries), k))
  }

  /** The loop of `MapInternalParser.parse`, from index i with the entries `acc` so far: while
      the cursor is not exactly at the end, one more round. */
  function MapFrom<K(==,!new), V>(keyFn: string -> K, item: K -> Parser<V>, s: string, i: nat,
                             acc: seq<(K, V)>): Step<seq<(K, V)>>
    requires forall k :: Monotone(item(k))
    decreases |s| - i
  {
    if i == |s| then Step(Ok(acc), i)
    else
      match MapRound(keyFn, item, s, i, acc)
      case Stop(step) => step
      case Next(comma, entries) => MapFrom(keyFn, item, s, comma + 1, entries)
  }

  /** `mapInternal(keyFn, itemParser, mapFactory)`, a `MapInternalParser`. */
  function MapInternal<K(==,!new), V>(keyFn: string -> K, item: K -> Parser<V>): Parser<seq<(K, V)>>
    requires forall k :: Monotone(item(k))
  {
    (s: string, i: nat) => MapFrom(keyFn, item, s, i, [])
  }

  /** `MapInternalParser.parse`. */
  method MapInternalParse<K(==,!new), V>(c: Cursor, keyFn: string -> K, item: K -> Parser<V>)
    returns (r: Result<seq<(K, V)>>)
    requires forall k :: Monotone(item(k))
    modifies c
    ensures Step(r, c.index) == MapFrom(keyFn, item, c.text, old(c.index), [])
  {
    var entries := [];
    while !c.IsEndOfStream()
      invariant MapFrom(keyFn, item, c.text, c.index, entries)
             == MapFrom(keyFn, item, c.text, old(c.index), [])
      decreases |c.text| - c.index
    {
      ghost var i := c.index;
      var round := MapRoundParse(c, keyFn, item, entries);
      MapFromRound(keyFn, item, c.text, i, entries);
      if round.Stop? {
        return round.step.result;
      }
      entries := round.entries;
    }
    return Ok(entries);
  }

  /** Away from the end of the text, the map loop is one round and then, after a comma, the
      loop from just past it. */
  lemma MapFromRound<K(!new), V>(keyFn: string -> K, item: K -> Parser<V>, s: string, i: nat,
                                    acc: seq<(K, V)>)
    requires forall k :: Monotone(item(k))
    requires i != |s|
    ensures var r := MapRound(keyFn, item, s, i, acc);
      && (r.Stop? ==> MapFrom(keyFn, item, s, i, acc) == r.step)
      && (r.Next? ==> MapFrom(keyFn, item, s, i, acc) == MapFrom(keyFn, item, s, r.comma + 1, r.entries))
  {
  }

  /** A round of the map loop that reads a key, the separator and a value: it puts the entry
      and goes on after a comma, or stops. */
  lemma MapRoundReads<K(!new), V>(keyFn: string -> K, item: K -> Parser<V>, s: string, i: nat,
                                  acc: seq<(K, V)>, key: string, a: nat, v: V, c: nat)
    requires forall k :: Monotone(item(k))
    requires QuotedString(s, SkipWs(s, i)) == Step(Ok(key), a)
    requires KeyValueSeparator(s, a).result.Ok?
    requires item(keyFn(key))(s, KeyValueSeparator(s, a).pos) == Step(Ok(v), c)
    ensures var entries := Put(acc, keyFn(key), v);
      MapRound(keyFn, item, s, i, acc)
      == if Peek(s, SkipWs(s, c)) == Code(',') then Next(SkipWs(s, c), entries)
         else Stop(Step(Ok(entries), SkipWs(s, c)))
  {
    var sep := KeyValueSeparator(s, a);
    assert MapResult(Ok(key), keyFn) == Ok(keyFn(key));
    var value := item(keyFn(key))(s, sep.pos);
    assert value.result.Ok? && value.pos == c;
  }

  /** One pass through the body of the loop in `MapInternalParser.parse`, with the entries
      read so far; after a comma the cursor stands just past it. */
  method MapRoundParse<K(==,!new), V>(c: Cursor, keyFn: string -> K, item: K -> Parser<V>,
                                      acc: seq<(K, V)>)
    returns (round: MapRoundEnd<K, V>)
    requires forall k :: Monotone(item(k))
    modifies c
    ensures round == MapRound(keyFn, item, c.text, old(c.index), acc)
    ensures round.Stop? ==> c.index == round.step.pos
    ensures round.Next? ==> c.index == round.comma + 1
  {
    QuotedStringIsBounded();
    KeyValueSeparatorIsBounded();
    c.SkipWhitespace();
    var str := QuotedStringParse(c, Unescape);
    var key := MapResult(str, keyFn);
    if !key.Ok? {
      return Stop(Step(Coerce(key), c.index));
    }
    var sep := KeyValueSeparatorParse(c);
    if !sep.Ok? {
      return Stop(Step(Coerce(sep), c.index));
    }
    var realKey := key.value;
    var value := c.Run(item(realKey));
    if !value.Ok? {
      return Stop(Step(Coerce(value), c.index));
    }
    var entries := Put(acc, realKey, value.value);
    c.SkipWhitespace();
    if c.Current() == Code(',') {
      round := Next(c.index, entries);
      var _ := c.Next();
    } else {
      round := Stop(Step(Ok(entries), c.index));
    }
  }

  /** `map(keyFn, itemParser, mapFactory)`: the entries between braces, with one value parser
      for every key; the empty map when the closing brace comes first. */
  function Map<K(==,!new), V>(keyFn: string -> K, p: Parser<V>): Parser<seq<(K, V)>>
    requires Monotone(p)
  {
    Between(ExpectChar('{'), MapInternal(keyFn, ForEveryKey(p)), ExpectChar('}'), [])
  }

  /** The one value parser that `map` hands to the map loop for every key. */
  function ForEveryKey<K, V>(p: Parser<V>): K -> Parser<V> {
    (ignored: K) => p
  }

  /** The parser `map` hands over for every key moves forward when the value parser does. */
  lemma ForEveryKeyMonotone<K, V>(p: Parser<V>)
    requires Monotone(p)
    ensures forall k: K :: Monotone(ForEveryKey<K, V>(p)(k))
  {
  }

  function Identity<T>(x: T): T {
    x
  }

  /** `objectAsMap(fieldToParser)`: the entries between braces with string keys, each value
      read by the parser chosen for its key, as a `HashMap`; the empty map (`Map.of()`) when the
      closing brace comes first. The cast of each value to `Object` is the identity here. */
  function ObjectAsMap<V>(fieldToParser: string -> Parser<V>): Parser<map<string, V>>
    requires forall f :: Monotone(fieldToParser(f))
  {
    ComposeResult(Between(ExpectChar('{'), MapInternal(Identity, fieldToParser), ExpectChar('}'), []),
                  AsMap)
  }

  /** `object(fieldToParser, map)`: the object's fields read as a map, then turned into the
      object by `g`. */
  function Object<V, T>(fieldToParser: string -> Parser<V>, g: map<string, V> -> T): Parser<T>
    requires forall f :: Monotone(fieldToParser(f))
  {
    ComposeResult(ObjectAsMap(fieldToParser), g)
  }

  /** `unknownField(field)`: fails where it stands, naming the field. */
  function UnknownField<T>(field: string): Parser<T> {
    Fail("Unknown field '" + field + "'")
  }

  /** `objectAsMap` reads exactly what the braced entries read. On success its map holds exactly
      the entries' keys, each with the value `get` finds among the entries (the last one put);
      on failure it fails as they fail. */
  lemma ObjectAsMapOutcome<V>(fieldToParser: string -> Parser<V>, s: string, i: nat)
    requires forall f :: Monotone(fieldToParser(f))
    ensures var entries := Between(ExpectChar('{'), MapInternal(Identity, fieldToParser), ExpectChar('}'), [])(s, i);
      var r := ObjectAsMap(fieldToParser)(s, i);
      && r.pos == entries.pos
      && (entries.result.Ok? ==>
            && r.result.Ok?
            && (forall k :: k in r.result.value <==> Lookup(entries.result.value, k).Some?)
            && (forall k :: k in r.result.value ==> r.result.value[k] == Lookup(entries.result.value, k).value))
      && (!entries.result.Ok? ==> r.result == Coerce(entries.result))
  {
    var entries := Between(ExpectChar('{'), MapInternal(Identity, fieldToParser), ExpectChar('}'), [])(s, i);
    if entries.result.Ok? {
      AsMapLookup(entries.result.value);
    }
  }

  /** `object` applies `g` to the map `objectAsMap` reads, at the same position, and passes its
      failures on unchanged. */
  lemma ObjectOutcome<V, T>(fieldToParser: string -> Parser<V>, g: map<string, V> -> T, s: string, i: nat)
    requires forall f :: Monotone(fieldToParser(f))
    ensures var m := ObjectAsMap(fieldToParser)(s, i);
      var r := Object(fieldToParser, g)(s, i);
      && r.pos == m.pos
      && (m.result.Ok? ==> r.result == Ok(g(m.result.value)))
      && (!m.result.Ok? ==> r.result == Coerce(m.result))
  {
    ComposeResultOutcome(ObjectAsMap(fieldToParser), g, s, i);
  }

  /** A round keeps the keys of the entries distinct. */
  lemma MapRoundDistinctKeys<K(!new), V>(keyFn: string -> K, item: K -> Parser<V>, s: string,
                                         i: nat, acc: seq<(K, V)>)
    requires forall k :: Monotone(item(k))
    requires DistinctKeys(acc)
    ensures var r := MapRound(keyFn, item, s, i, acc);
      && (r.Stop? && r.step.result.Ok? ==> DistinctKeys(r.step.result.value))
      && (r.Next? ==> DistinctKeys(r.entries))
  {
    var str := QuotedString(s, SkipWs(s, i));
    if str.result.Ok? {
      var key := keyFn(str.result.value);
      var sep := KeyValueSeparator(s, str.pos);
      if sep.result.Ok? {
        var value := item(key)(s, sep.pos);
        if value.result.Ok? {
          PutLookup(acc, key, value.result.value);
        }
      }
    }
  }

  /** A map read successfully has distinct keys. */
  lemma {:induction false} MapFromDistinctKeys<K(!new), V>(keyFn: string -> K, item: K -> Parser<V>, s: string,
                                                    i: nat, acc: seq<(K, V)>)
    requires forall k :: Monotone(item(k))
    requires DistinctKeys(acc)
    ensures var step := MapFrom(keyFn, item, s, i, acc);
      step.result.Ok? ==> DistinctKeys(step.result.value)
    decreases |s| - i, 1
  {
    if i != |s| {
      var r := MapRound(keyFn, item, s, i, acc);
      if r.Next? {
        MapFromNextDistinctKeys(keyFn, item, s, i, acc);
      } else {
        MapFromStopDistinctKeys(keyFn, item, s, i, acc);
      }
    }
  }

  /** A map loop that goes on after its first round keeps the keys distinct. */
  lemma {:induction false} MapFromNextDistinctKeys<K(!new), V>(keyFn: string -> K, item: K -> Parser<V>,
                                                               s: string, i: nat, acc: seq<(K, V)>)
    requires forall k :: Monotone(item(k))
    requires DistinctKeys(acc) && i != |s| && MapRound(keyFn, item, s, i, acc).Next?
    ensures var step := MapFrom(keyFn, item, s, i, acc);
      step.result.Ok? ==> DistinctKeys(step.result.value)
    decreases |s| - i, 0
  {
    var r := MapRound(keyFn, item, s, i, acc);
    MapRoundDistinctKeys(keyFn, item, s, i, acc);
    MapFromRound(keyFn, item, s, i, acc);
    MapFromDistinctKeys(keyFn, item, s, r.comma + 1, r.entries);
  }

  /** A map loop that stops in its first round keeps the keys distinct. */
  lemma MapFromStopDistinctKeys<K(!new), V>(keyFn: string -> K, item: K -> Parser<V>, s: string,
                                            i: nat, acc: seq<(K, V)>)
    requires forall k :: Monotone(item(k))
    requires DistinctKeys(acc) && i != |s| && MapRound(keyFn, item, s, i, acc).Stop?
    ensures var step := MapFrom(keyFn, item, s, i, acc);
      step.result.Ok? ==> DistinctKeys(step.result.value)
  {
    MapRoundDistinctKeys(keyFn, item, s, i, acc);
    MapFromRound(keyFn, item, s, i, acc);
  }

  lemma MapHasDistinctKeys<K(!new), V>(keyFn: string -> K, p: Parser<V>, s: string, i: nat)
    requires Monotone(p)
    ensures Map(keyFn, p)(s, i).result.Ok? ==> DistinctKeys(Map(keyFn, p)(s, i).result.value)
  {
    var item := ForEveryKey(p);
    var open, close := ExpectChar('{'), ExpectChar('}');
    BetweenOutcome(open, MapInternal(keyFn, item), close, [], s, i);
    var started := open(s, i);
    if started.result.Ok? && close(s, started.pos).result.Err? {
      MapFromDistinctKeys(keyFn, item, s, started.pos, []);
    }
  }

  /** The key and the separator of an entry never move the cursor back, nor past the end. */
  lemma EntryHeadBounds(s: string, j: nat)
    ensures var str := QuotedString(s, j);
      var sep := KeyValueSeparator(s, str.pos);
      && j <= str.pos <= sep.pos
      && (j <= |s| ==> sep.pos <= |s|)
  {
    QuotedStringIsBounded();
    KeyValueSeparatorIsBounded();
  }

  /** The map loop never moves the cursor back. */
  lemma {:induction false} MapFromAdvances<K(!new), V>(keyFn: string -> K, item: K -> Parser<V>, s: string,
                                                      i: nat, acc: seq<(K, V)>)
    requires forall k :: Monotone(item(k))
    ensures MapFrom(keyFn, item, s, i, acc).pos >= i
    decreases |s| - i
  {
    if i != |s| {
      match MapRound(keyFn, item, s, i, acc)
      case Stop(_) =>
      case Next(comma, entries) => MapFromAdvances(keyFn, item, s, comma + 1, entries);
    }
  }

  /** Started within the text, a round that stops leaves the cursor within the text when the
      value parsers do. */
  lemma MapRoundWithin<K(!new), V>(keyFn: string -> K, item: K -> Parser<V>, s: string,
                                   i: nat, acc: seq<(K, V)>)
    requires forall k :: Monotone(item(k)) && Bounded(item(k))
    requires i <= |s|
    ensures var r := MapRound(keyFn, item, s, i, acc); r.Stop? ==> r.step.pos <= |s|
  {
    SkipWsStops(s, i);
    EntryHeadBounds(s, SkipWs(s, i));
    var str := QuotedString(s, SkipWs(s, i));
    if str.result.Ok? {
      var key := keyFn(str.result.value);
      var sep := KeyValueSeparator(s, str.pos);
      if sep.result.Ok? {
        var value := item(key)(s, sep.pos);
        if value.result.Ok? {
          SkipWsStops(s, value.pos);
        }
      }
    }
  }

  /** Started within the text, the map loop keeps the cursor within the text when the value
      parsers do. */
  lemma {:induction false} MapFromWithin<K(!new), V>(keyFn: string -> K, item: K -> Parser<V>, s: string,
                                                    i: nat, acc: seq<(K, V)>)
    requires forall k :: Monotone(item(k)) && Bounded(item(k))
    requires i <= |s|
    ensures MapFrom(keyFn, item, s, i, acc).pos <= |s|
    decreases |s| - i
  {
    if i != |s| {
      MapRoundWithin(keyFn, item, s, i, acc);
      match MapRound(keyFn, item, s, i, acc)
      case Stop(_) =>
      case Next(comma, entries) => MapFromWithin(keyFn, item, s, comma + 1, entries);
    }
  }

  lemma MapIsBounded<K(!new), V>(keyFn: string -> K, p: Parser<V>)
    requires Monotone(p)
    ensures Monotone(Map(keyFn, p))
    ensures Bounded(p) ==> Bounded(Map(keyFn, p))
  {
    var item := ForEveryKey(p);
    forall s: string, i: nat
      ensures MapInternal(keyFn, item)(s, i).pos >= i
      ensures Bounded(p) && i <= |s| ==> MapInternal(keyFn, item)(s, i).pos <= |s|
    {
      MapFromAdvances(keyFn, item, s, i, []);
      if Bounded(p) && i <= |s| {
        MapFromWithin(keyFn, item, s, i, []);
      }
    }
    ExpectCharIsBounded('{');
    ExpectCharIsBounded('}');
    BetweenPreserves(ExpectChar('{'), MapInternal(keyFn, item), ExpectChar('}'), []);
  }
}
