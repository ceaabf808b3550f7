/**
  The decoding rules of src/querystring.rs:15-19 and the cases of tests/querystring.rs,
  each stated for every key and value of the shape the example shows.
 */
module QueryStringExamples {
  import opened Bytes
  import opened SortedMap
  import opened QueryStrings

  /** A key decoding can produce: non-empty, without `&` or `=`. */
  predicate IsKey(key: Bytes) {
    key != [] && Free(key, AMP) && Free(key, EQ)
  }

  /** Two entries with a non-empty first key are written with one `&` between them. */
  lemma EncodedTwo(f: Fields)
    requires |f| == 2 && f[0].0 != []
    ensures Encoded(f) == EntryText(f[0]) + [AMP] + EntryText(f[1])
  {
    EncodedIsJoin(f);
    JoinCons(f);
    assert Join(f[1..]) == EntryText(f[1]) + Separated([]) == EntryText(f[1]);
  }

  /** A bare key as the last component decodes to the key with an empty value. */
  lemma LastBareKey(fields: Fields, key: Bytes)
    requires Sorted(fields) && IsKey(key)
    ensures DecodeFrom(fields, key) == Insert(fields, key, [])
  {
    PairSplits(key, key, []);
    DecodeComponent(fields, key, []);
  }

  /** The empty input and a lone `&` decode to no entries. */
  lemma NothingToDecode(s: Bytes)
    requires s == [] || s == [AMP]
    ensures Decoded(s) == []
  {
    if s != [] {
      assert s == [] + [AMP] + [];
      PairSplits([], [], []);
      DecodeComponent([], [], []);
    }
  }

  /** A bare key followed by `&` starts the map with that key and an empty value. */
  lemma FirstBareKey(key: Bytes, rest: Bytes)
    requires IsKey(key)
    ensures DecodeFrom([], key + [AMP] + rest) == DecodeFrom([(key, [])], rest)
  {
    PairSplits(key, key, []);
    DecodeComponent([], key, rest);
    var none: Fields := [];
    InsertAbove(none, key, []);
    assert none + [(key, [])] == [(key, [])];
  }

  /** An empty component, as between the two `&` of `&&`, adds nothing. */
  lemma EmptyComponentSkipped(fields: Fields, rest: Bytes)
    requires Sorted(fields)
    ensures DecodeFrom(fields, [AMP] + rest) == DecodeFrom(fields, rest)
  {
    assert [AMP] + rest == [] + [AMP] + rest;
    PairSplits([], [], []);
    DecodeComponent(fields, [], rest);
  }

  /** `key0&&key1`: bare keys get empty values, and the empty component between them is dropped. */
  lemma BareKeys(key0: Bytes, key1: Bytes, s: Bytes)
    requires IsKey(key0) && IsKey(key1) && Below(key0, key1)
    requires s == key0 + [AMP, AMP] + key1
    ensures Decoded(s) == [(key0, []), (key1, [])]
  {
    assert s == key0 + [AMP] + ([AMP] + key1);
    BareKeysSplit(key0, key1);
  }

  /** `BareKeys`, with the input cut after the first key's `&`. */
  lemma BareKeysSplit(key0: Bytes, key1: Bytes)
    requires IsKey(key0) && IsKey(key1) && Below(key0, key1)
    ensures DecodeFrom([], key0 + [AMP] + ([AMP] + key1)) == [(key0, []), (key1, [])]
  {
    var first: Fields := [(key0, [])];
    FirstBareKey(key0, [AMP] + key1);
    EmptyThenBareKey(first, key1);
    assert first + [(key1, [])] == [(key0, []), (key1, [])];
  }

  /** After a first entry, `&key` skips the empty component and appends the bare key above it. */
  lemma EmptyThenBareKey(first: Fields, key: Bytes)
    requires Sorted(first) && first != [] && Below(first[|first| - 1].0, key) && IsKey(key)
    ensures DecodeFrom(first, [AMP] + key) == first + [(key, [])]
  {
    EmptyComponentSkipped(first, key);
    LastBareKey(first, key);
    InsertAbove(first, key, []);
  }

  /** `=value0&key1=value1&`: the component with an empty key is dropped, and so is the trailing `&`. */
  lemma EmptyKeyDropped(value0: Bytes, key1: Bytes, value1: Bytes, s: Bytes)
    requires Free(value0, AMP) && IsKey(key1) && Free(value1, AMP)
    requires s == [EQ] + value0 + [AMP] + key1 + [EQ] + value1 + [AMP]
    ensures Decoded(s) == [(key1, value1)]
  {
    var c0, c1 := [EQ] + value0, key1 + [EQ] + value1;
    assert s == c0 + [AMP] + (c1 + [AMP] + []);
    assert c0 == [] + [EQ] + value0;
    PairSplits(c0, [], value0);
    DecodeComponent([], c0, c1 + [AMP] + []);
    PairSplits(c1, key1, value1);
    DecodeComponent([], c1, []);
  }

  /** `key=a&key=b`: a repeated key keeps the value of its last occurrence. */
  lemma LastDuplicateWins(key: Bytes, a: Bytes, b: Bytes, s: Bytes)
    requires IsKey(key) && Free(a, AMP) && Free(b, AMP)
    requires s == key + [EQ] + a + [AMP] + key + [EQ] + b
    ensures Decoded(s) == [(key, b)]
  {
    var c0, c1 := key + [EQ] + a, key + [EQ] + b;
    assert s == c0 + [AMP] + c1;
    PairSplits(c0, key, a);
    DecodeComponent([], c0, c1);
    PairSplits(c1, key, b);
    DecodeComponent([(key, a)], c1, []);
  }

  /** `key=a=b`: only the first `=` splits, so the value keeps the later one. */
  lemma FirstEqualsSplits(key: Bytes, a: Bytes, b: Bytes, s: Bytes)
    requires IsKey(key) && Free(a, AMP) && Free(b, AMP)
    requires s == key + [EQ] + a + [EQ] + b
    ensures Decoded(s) == [(key, a + [EQ] + b)]
  {
    var value := a + [EQ] + b;
    assert s == key + [EQ] + value;
    FreeConcat(a, [EQ], AMP);
    FreeConcat(a + [EQ], b, AMP);
    PairSplits(s, key, value);
    DecodeComponent([], s, []);
  }

  /**
    `b&a`: entries come out in ascending key order, whatever order the input gives them,
    and encoding writes them in that order.
   */
  lemma KeyOrder(key0: Bytes, key1: Bytes, s: Bytes)
    requires IsKey(key0) && IsKey(key1) && Below(key0, key1)
    requires s == key1 + [AMP] + key0
    ensures Decoded(s) == [(key0, []), (key1, [])]
    ensures Encoded(Decoded(s)) == key0 + [AMP] + key1
  {
    var first: Fields := [(key1, [])];
    var f: Fields := [(key0, []), (key1, [])];
    FirstBareKey(key1, key0);
    LastBareKey(first, key0);
    InsertBelow(first, key0, []);
    EncodedTwo(f);
  }

  /**
    `code=…&state=…` (tests/querystring.rs:36-40): two pairs in key order decode to
    themselves, and re-encoding writes the input back byte for byte.
   */
  lemma TwoPairs(key0: Bytes, value0: Bytes, key1: Bytes, value1: Bytes, s: Bytes)
    requires IsKey(key0) && IsKey(key1) && Below(key0, key1)
    requires value0 != [] && value1 != [] && Free(value0, AMP) && Free(value1, AMP)
    requires s == key0 + [EQ] + value0 + [AMP] + key1 + [EQ] + value1
    ensures Decoded(s) == [(key0, value0), (key1, value1)]
    ensures Encoded(Decoded(s)) == s
  {
    var f: Fields := [(key0, value0), (key1, value1)];
    assert WellFormedEntry(f[0]) && WellFormedEntry(f[1]);
    EncodedTwo(f);
    assert Encoded(f) == s;
    RoundTrip(f);
  }

  /**
    Why the round trip asks for non-empty keys, which `set` does not: an empty key with an
    empty value writes nothing and swallows the `&` that the next entry would get.
   */
  lemma EmptyKeyIsLost(key: Bytes, f: Fields)
    requires IsKey(key) && f == [([], []), (key, [])]
    ensures Sorted(f) && Encoded(f) == key
    ensures Decoded(Encoded(f)) == [(key, [])]
  {
    assert [] + EntryText(f[0]) == [];
    assert f[1..] == [(key, [])];
    assert [] + EntryText((key, [])) == key;
    assert Encoded(f) == EncodeFrom([], [(key, [])]) == EncodeFrom(key, []);
    LastBareKey([], key);
  }

  /** An empty key with a value writes `=value`, which decoding drops. */
  lemma EmptyKeyValueIsLost(value: Bytes, f: Fields)
    requires value != [] && Free(value, AMP) && f == [([], value)]
    ensures Encoded(f) == [EQ] + value && Decoded(Encoded(f)) == []
  {
    assert [] + EntryText(f[0]) == [EQ] + value;
    assert f[1..] == [];
    assert Encoded(f) == EncodeFrom([EQ] + value, []);
    assert [EQ] + value == [] + [EQ] + value;
    PairSplits([EQ] + value, [], value);
    DecodeComponent([], [EQ] + value, []);
  }
}
