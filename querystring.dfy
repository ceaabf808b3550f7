/**
  The query-string store of src/querystring.rs: a map from raw byte keys to raw byte
  values, read from and written to `key=value&key=value` text. No percent-decoding, no
  `+`-to-space translation and no leading-`?` handling happen here: every byte other than
  the delimiters `&` and `=` is kept as it is.
 */
module QueryStrings {
  import opened Bytes
  import opened Errors
  import opened SortedMap

  /** `b'&'`, which ends a component. */
  const AMP: Byte := 0x26
  /** `b'='`, which ends the key of a component. */
  const EQ: Byte := 0x3D

  /** No byte of `s` is `d`. */
  predicate Free(s: Bytes, d: Byte) {
    forall i | 0 <= i < |s| :: s[i] != d
  }

  lemma FreeConcat(a: Bytes, b: Bytes, d: Byte)
    ensures Free(a + b, d) <==> Free(a, d) && Free(b, d)
  {
    if Free(a + b, d) {
      forall i | 0 <= i < |a| ensures a[i] != d {
        assert a[i] == (a + b)[i];
      }
      forall i | 0 <= i < |b| ensures b[i] != d {
        assert b[i] == (a + b)[|a| + i];
      }
    }
  }

  // ---------------------------------------------------------------- splitting at a delimiter

  /** The index of the first `d` in `s`, or `|s|` when there is none. */
  function Find(s: Bytes, d: Byte): (k: nat)
    ensures k <= |s|
    ensures k < |s| ==> s[k] == d
    ensures Free(s[..k], d)
  {
    if s == [] || s[0] == d then 0
    else
      var k := 1 + Find(s[1..], d);
      assert forall i | 1 <= i < k :: s[..k][i] == s[1..][..k - 1][i - 1];
      k
  }

  lemma {:induction false} FindFirst(a: Bytes, d: Byte, b: Bytes)
    requires Free(a, d)
    ensures Find(a + [d] + b, d) == |a|
  {
    if a != [] {
      assert (a + [d] + b)[1..] == a[1..] + [d] + b;
      FindFirst(a[1..], d, b);
    }
  }

  lemma {:induction false} FindNone(a: Bytes, d: Byte)
    requires Free(a, d)
    ensures Find(a, d) == |a|
  {
    if a != [] {
      FindNone(a[1..], d);
    }
  }

  /**
    One `take_while(|&b| b != d)` over the input: the bytes before the first `d`, and what
    follows that `d`, which the `take_while` consumes. Without a `d` the whole input is
    taken and nothing is left.
   */
  function SplitFirst(s: Bytes, d: Byte): (r: (Bytes, Bytes))
    ensures Free(r.0, d)
    ensures s == r.0 + [d] + r.1 || (s == r.0 && r.1 == [])
  {
    var k := Find(s, d);
    if k < |s| then
      assert s == s[..k] + [d] + s[k + 1..];
      (s[..k], s[k + 1..])
    else
      assert s[..k] == s;
      (s, [])
  }

  /** The two properties of `SplitFirst` pin its result down. */
  lemma SplitFirstIs(s: Bytes, d: Byte, head: Bytes, tail: Bytes)
    requires Free(head, d)
    requires s == head + [d] + tail || (s == head && tail == [])
    ensures SplitFirst(s, d) == (head, tail)
  {
    if s == head + [d] + tail {
      FindFirst(head, d, tail);
      assert s[..|head|] == head && s[|head| + 1..] == tail;
    } else {
      FindNone(head, d);
    }
  }

  // ---------------------------------------------------------------- decoding, as a specification

  /** Inserts a parsed pair unless its key is empty. */
  function Add(fields: Fields, pair: (Bytes, Bytes)): (r: Fields)
    requires Sorted(fields)
    ensures Sorted(r)
  {
    if pair.0 != [] then Insert(fields, pair.0, pair.1) else fields
  }

  /**
    What the decoding loop adds to `fields` from the rest `s` of the input: while input
    remains, take one component up to `&`, split it at its first `=` and insert the pair
    unless its key is empty.
   */
  function DecodeFrom(fields: Fields, s: Bytes): (r: Fields)
    requires Sorted(fields)
    ensures Sorted(r)
    decreases |s|
  {
    if s == [] then fields
    else
      var (component, rest) := SplitFirst(s, AMP);
      DecodeFrom(Add(fields, SplitFirst(component, EQ)), rest)
  }

  /** The entries `QueryString::decode` yields for `source`. */
  function Decoded(source: Bytes): (r: Fields)
    ensures Sorted(r)
  {
    DecodeFrom([], source)
  }

  /** Decoding one component: the last one, or one ended by `&`. */
  lemma DecodeComponent(fields: Fields, component: Bytes, rest: Bytes)
    requires Sorted(fields) && Free(component, AMP)
    ensures DecodeFrom(fields, component) == Add(fields, SplitFirst(component, EQ))
    ensures DecodeFrom(fields, component + [AMP] + rest)
         == DecodeFrom(Add(fields, SplitFirst(component, EQ)), rest)
  {
    SplitFirstIs(component + [AMP] + rest, AMP, component, rest);
    if component != [] {
      SplitFirstIs(component, AMP, component, []);
    }
  }

  // ---------------------------------------------------------------- decoding, by reference

  /** `s` cut at every `d`: one more part than there are `d`s, empty parts included. */
  function Split(s: Bytes, d: Byte): (parts: seq<Bytes>)
    ensures |parts| >= 1
  {
    if s == [] then [[]]
    else
      var parts := Split(s[1..], d);
      if s[0] == d then [[]] + parts else [[s[0]] + parts[0]] + parts[1..]
  }

  lemma {:induction false} SplitFree(a: Bytes, d: Byte)
    requires Free(a, d)
    ensures Split(a, d) == [a]
  {
    if a != [] {
      SplitFree(a[1..], d);
      assert [a[0]] + a[1..] == a;
    }
  }

  lemma {:induction false} SplitAtFirst(a: Bytes, d: Byte, b: Bytes)
    requires Free(a, d)
    ensures Split(a + [d] + b, d) == [a] + Split(b, d)
  {
    if a == [] {
      assert a + [d] + b == [d] + b;
      assert ([d] + b)[1..] == b;
    } else {
      assert (a + [d] + b)[1..] == a[1..] + [d] + b;
      SplitAtFirst(a[1..], d, b);
      assert [a[0]] + a[1..] == a;
    }
  }

  /** Each part split at its first `=`, keeping the pairs whose key is not empty. */
  function Pairs(parts: seq<Bytes>): (r: Fields)
    ensures |r| <= |parts|
  {
    if parts == [] then []
    else
      var pair := SplitFirst(parts[0], EQ);
      (if pair.0 != [] then [pair] else []) + Pairs(parts[1..])
  }

  lemma {:induction false} InsertAllPairs(fields: Fields, part: Bytes, parts: seq<Bytes>)
    requires Sorted(fields)
    ensures InsertAll(fields, Pairs([part] + parts))
         == InsertAll(Add(fields, SplitFirst(part, EQ)), Pairs(parts))
  {
    var pair := SplitFirst(part, EQ);
    assert ([part] + parts)[1..] == parts;
    if pair.0 != [] {
      assert ([pair] + Pairs(parts))[1..] == Pairs(parts);
    } else {
      assert [] + Pairs(parts) == Pairs(parts);
    }
  }

  /**
    The decoding loop is "split on `&`, split each part at its first `=`, insert in order
    the pairs with a non-empty key".
   */
  lemma {:induction false} DecodeFromIsReference(fields: Fields, s: Bytes)
    requires Sorted(fields)
    ensures DecodeFrom(fields, s) == InsertAll(fields, Pairs(Split(s, AMP)))
    decreases |s|
  {
    var (component, rest) := SplitFirst(s, AMP);
    if s == component + [AMP] + rest {
      DecodeComponent(fields, component, rest);
      SplitAtFirst(component, AMP, rest);
      InsertAllPairs(fields, component, Split(rest, AMP));
      DecodeFromIsReference(Add(fields, SplitFirst(component, EQ)), rest);
    } else {
      DecodeComponent(fields, component, rest);
      SplitFree(component, AMP);
      InsertAllPairs(fields, component, []);
    }
  }

  lemma DecodedIsReference(source: Bytes)
    ensures Decoded(source) == FromPairs(Pairs(Split(source, AMP)))
  {
    DecodeFromIsReference([], source);
  }

  // ---------------------------------------------------------------- what decoding yields

  /** An entry that survives encoding and decoding unchanged. */
  predicate WellFormedEntry(e: (Bytes, Bytes)) {
    e.0 != [] && Free(e.0, AMP) && Free(e.0, EQ) && Free(e.1, AMP)
  }

  predicate WellFormed(f: Fields) {
    forall e | e in f :: WellFormedEntry(e)
  }

  lemma {:induction false} DecodeFromWellFormed(fields: Fields, s: Bytes)
    requires Sorted(fields) && WellFormed(fields)
    ensures WellFormed(DecodeFrom(fields, s))
    decreases |s|
  {
    if s != [] {
      var (component, rest) := SplitFirst(s, AMP);
      var pair := SplitFirst(component, EQ);
      if component == pair.0 + [EQ] + pair.1 {
        FreeConcat(pair.0 + [EQ], pair.1, AMP);
        FreeConcat(pair.0, [EQ], AMP);
      }
      DecodeFromWellFormed(Add(fields, pair), rest);
    }
  }

  /** Decoding keeps only non-empty keys free of `&` and `=`, and values free of `&`. */
  lemma DecodedWellFormed(source: Bytes)
    ensures WellFormed(Decoded(source))
  {
    DecodeFromWellFormed([], source);
  }

  // ---------------------------------------------------------------- encoding, as a specification

  /** One entry as text: the bare key when the value is empty, `key=value` otherwise. */
  function EntryText(e: (Bytes, Bytes)): (r: Bytes)
    ensures |r| >= |e.0| + |e.1|
    ensures r == [] <==> e == ([], [])
  {
    if e.1 == [] then e.0 else e.0 + [EQ] + e.1
  }

  /** The encoding loop: each entry is written after a `&`, unless nothing was written yet. */
  function EncodeFrom(serialized: Bytes, f: Fields): (r: Bytes)
    ensures |r| >= |serialized|
    ensures serialized != [] ==> |r| >= |serialized| + |f|
    decreases |f|
  {
    if f == [] then serialized
    else
      var delimited := if serialized != [] then serialized + [AMP] else serialized;
      EncodeFrom(delimited + EntryText(f[0]), f[1..])
  }

  /** The text `QueryString::encode` writes for the entries `f`. */
  function Encoded(f: Fields): (r: Bytes)
    ensures f != [] && EntryText(f[0]) != [] ==> |r| >= |EntryText(f[0])| + |f| - 1
  {
    EncodeFrom([], f)
  }

  /** Reference: the entries' texts in order, with one `&` between neighbours. */
  function Join(f: Fields): Bytes {
    if f == [] then [] else EntryText(f[0]) + Separated(f[1..])
  }

  /** The entries' texts, each one after a `&`. */
  function Separated(f: Fields): Bytes
    decreases |f|
  {
    if f == [] then [] else [AMP] + EntryText(f[0]) + Separated(f[1..])
  }

  /** Appending a key, then `=` and the value, appends the entry's text. */
  lemma AppendAssociates(delimited: Bytes, key: Bytes, value: Bytes)
    requires value != []
    ensures delimited + key + [EQ] + value == delimited + EntryText((key, value))
  {
  }

  /** One turn of the encoding loop: the entry at `i` is written after an `&` unless nothing was written yet. */
  lemma EncodeStep(serialized: Bytes, f: Fields, i: nat)
    requires i < |f|
    ensures EncodeFrom(serialized, f[i..])
      == EncodeFrom((if serialized != [] then serialized + [AMP] else serialized) + EntryText(f[i]), f[i + 1..])
  {
    assert f[i..][0] == f[i] && f[i..][1..] == f[i + 1..];
  }

  /** Once something is written, every further entry is written after one `&`. */
  lemma {:induction false} EncodeFromAfterText(serialized: Bytes, f: Fields)
    requires serialized != []
    ensures EncodeFrom(serialized, f) == serialized + Separated(f)
    decreases |f|
  {
    if f == [] {
      assert serialized + [] == serialized;
    } else {
      var next := serialized + [AMP] + EntryText(f[0]);
      assert f[0..] == f;
      EncodeStep(serialized, f, 0);
      EncodeFromAfterText(next, f[1..]);
      assert Separated(f) == [AMP] + EntryText(f[0]) + Separated(f[1..]);
      assert next + Separated(f[1..]) == serialized + Separated(f);
    }
  }

  /**
    Once the first entry writes something, encoding writes every entry, `key` or
    `key=value`, in order, with a single `&` between neighbours and none before or after.
   */
  lemma EncodedIsJoin(f: Fields)
    requires f != [] ==> EntryText(f[0]) != []
    ensures Encoded(f) == Join(f)
  {
    if f != [] {
      assert [] + EntryText(f[0]) == EntryText(f[0]);
      EncodeFromAfterText(EntryText(f[0]), f[1..]);
    }
  }

  /** Joining a list of two or more entries puts one `&` after the first entry's text. */
  lemma JoinCons(f: Fields)
    requires |f| > 1
    ensures Join(f) == EntryText(f[0]) + [AMP] + Join(f[1..])
  {
    assert f[1..][1..] == f[2..];
    assert Separated(f[1..]) == [AMP] + Join(f[1..]);
  }

  /** A leading entry with empty key and value writes nothing, not even the next `&`. */
  lemma EmptyHead(g: Fields)
    ensures Encoded([([], [])] + g) == Encoded(g)
  {
    var f: Fields := [([], [])] + g;
    assert [] + EntryText(f[0]) == [];
    assert f[1..] == g;
  }

  /**
    What `encode` writes for any sorted store, `set`'s empty key included: the joined
    entries, leaving out a first entry whose key and value are both empty.
   */
  lemma EncodedSorted(f: Fields)
    requires Sorted(f)
    ensures Encoded(f) == Join(if f != [] && f[0] == ([], []) then f[1..] else f)
  {
    if f != [] && f[0] == ([], []) {
      assert f == [([], [])] + f[1..];
      EmptyHead(f[1..]);
      if |f| > 1 {
        assert Below(f[0].0, f[1].0);
        assert f[1..][0] == f[1];
      }
      EncodedIsJoin(f[1..]);
    } else if f != [] {
      EncodedIsJoin(f);
    }
  }

  // ---------------------------------------------------------------- round trip

  lemma EntryTextDecodes(fields: Fields, e: (Bytes, Bytes))
    requires Sorted(fields) && WellFormedEntry(e)
    ensures Free(EntryText(e), AMP)
    ensures Add(fields, SplitFirst(EntryText(e), EQ)) == Insert(fields, e.0, e.1)
  {
    PairSplits(EntryText(e), e.0, e.1);
  }

  lemma {:induction false} DecodeJoin(g: Fields, f: Fields)
    requires Sorted(g) && Sorted(g + f) && WellFormed(f)
    ensures DecodeFrom(g, Join(f)) == g + f
    decreases |f|
  {
    if f == [] {
      assert g + f == g;
    } else {
      var e, f' := f[0], f[1..];
      assert e in f;
      assert g + f == (g + [e]) + f';
      SortedParts(g + [e], f');
      if g != [] {
        assert (g + f)[|g| - 1] == g[|g| - 1] && (g + f)[|g|] == e;
      }
      InsertAbove(g, e.0, e.1);
      EntryTextDecodes(g, e);
      if f' == [] {
        assert Join(f) == EntryText(e) + Separated([]) == EntryText(e);
        DecodeComponent(g, EntryText(e), []);
      } else {
        JoinCons(f);
        DecodeComponent(g, EntryText(e), Join(f'));
        assert DecodeFrom(g, Join(f)) == DecodeFrom(g + [e], Join(f'));
        assert forall x | x in f' :: x in f;
        DecodeJoin(g + [e], f');
      }
    }
  }

  /**
    Decoding the encoding of well-formed, sorted entries gives them back: keys non-empty
    and free of `&` and `=`, values free of `&`.
   */
  lemma RoundTrip(f: Fields)
    requires Sorted(f) && WellFormed(f)
    ensures Decoded(Encoded(f)) == f
  {
    if f != [] {
      assert f[0] in f;
    }
    EncodedIsJoin(f);
    DecodeJoin([], f);
    assert [] + f == f;
  }

  /** Re-encoding decoded entries and decoding again changes nothing. */
  lemma ReencodeIsStable(source: Bytes)
    ensures Decoded(Encoded(Decoded(source))) == Decoded(source)
  {
    DecodedWellFormed(source);
    RoundTrip(Decoded(source));
  }

  // ---------------------------------------------------------------- the store

  /** `QueryString`: the entries of its `BTreeMap`, in ascending key order. */
  class QueryString {
    var fields: Fields

    ghost predicate Valid()
      reads this
    {
      Sorted(fields)
    }

    /** `QueryString::new`: an empty store. */
    constructor ()
      ensures Valid() && fields == []
    {
      fields := [];
    }

    /** `QueryString::decode`: never fails. */
    static method Decode(source: Bytes) returns (r: Result<QueryString>)
      ensures r.Ok? && fresh(r.value) && r.value.Valid()
      ensures r.value.fields == Decoded(source)
    {
      var fields := DecodeFields(source);
      var query := new QueryString();
      query.fields := fields;
      return Ok(query);
    }

    /** `QueryString::get`: the value stored under `name`, if any. */
    function Get(name: Bytes): (r: Option<Bytes>)
      reads this
      ensures r.None? <==> name !in Keys(fields)
      ensures r.Some? ==> (name, r.value) in fields
    {
      Lookup(fields, name)
    }

    /** `QueryString::set`: any key, the empty one included, is stored or overwritten. */
    method Set(name: Bytes, value: Bytes)
      requires Valid()
      modifies this
      ensures Valid()
      ensures fields == Insert(old(fields), name, value)
      ensures Get(name) == Some(value)
      ensures forall key | key != name :: Get(key) == old(Get(key))
    {
      fields := Insert(fields, name, value);
    }

    /** `QueryString::encode`. */
    method Encode() returns (serialized: Bytes)
      ensures serialized == Encoded(fields)
    {
      serialized := [];
      assert fields[0..] == fields;
      for i := 0 to |fields|
        invariant EncodeFrom(serialized, fields[i..]) == Encoded(fields)
      {
        var (key, value) := fields[i];
        EncodeStep(serialized, fields, i);
        if serialized != [] {
          serialized := serialized + [AMP];
        }
        ghost var delimited := serialized;
        serialized := serialized + key;
        if value != [] {
          serialized := serialized + [EQ] + value;
          AppendAssociates(delimited, key, value);
        }
      }
    }

    /** `deref` and `into_iter`: the entries, in ascending key order. */
    function Entries(): (r: Fields)
      requires Valid()
      reads this
      ensures Sorted(r) && r == fields
    {
      fields
    }

    /** `from_iter`: the pairs inserted in order, so that the last value of a key wins. */
    static method FromIter(pairs: Fields) returns (query: QueryString)
      ensures fresh(query) && query.Valid()
      ensures query.fields == FromPairs(pairs)
    {
      query := new QueryString();
      query.fields := FromPairs(pairs);
    }
  }

  /** A component made of a key and a value splits back into them. */
  lemma PairSplits(component: Bytes, key: Bytes, value: Bytes)
    requires Free(key, EQ) && Free(key, AMP) && Free(value, AMP)
    requires (component == key && value == []) || component == key + [EQ] + value
    ensures Free(component, AMP) && SplitFirst(component, EQ) == (key, value)
  {
    FreeConcat(key + [EQ], value, AMP);
    FreeConcat(key, [EQ], AMP);
    SplitFirstIs(component, EQ, key, value);
  }

  /** One pass of the decoding loop, from `source[i..]` to after the `&` at `source[j]`, if any. */
  lemma DecodeStep(fields: Fields, source: Bytes, i: nat, j: nat, key: Bytes, value: Bytes)
    requires Sorted(fields) && i <= j <= |source| && (j < |source| ==> source[j] == AMP)
    requires Free(key, EQ) && Free(key, AMP) && Free(value, AMP)
    requires (source[i..j] == key && value == []) || source[i..j] == key + [EQ] + value
    ensures DecodeFrom(fields, source[i..])
         == DecodeFrom(Add(fields, (key, value)), source[if j < |source| then j + 1 else j..])
  {
    var component := source[i..j];
    PairSplits(component, key, value);
    if j < |source| {
      assert source[i..] == component + [AMP] + source[j + 1..];
      DecodeComponent(fields, component, source[j + 1..]);
    } else {
      assert source[i..] == component && source[j..] == [];
      DecodeComponent(fields, component, []);
    }
  }

  /**
    Reads the next pair from `source[i..]` (src/querystring.rs:36-38): the key runs to the
    first `=` or `&`, the value from that `=` to the next `&`. The component ends at `j`,
    at the input's end or at the `&` that the outer `take_while` consumes.
   */
  method NextPair(source: Bytes, i: nat) returns (key: Bytes, value: Bytes, j: nat)
    requires i <= |source|
    ensures i <= j <= |source| && (j < |source| ==> source[j] == AMP)
    ensures Free(key, EQ) && Free(key, AMP) && Free(value, AMP)
    ensures (source[i..j] == key && value == []) || source[i..j] == key + [EQ] + value
  {
    key := [];
    j := i;
    while j < |source| && source[j] != EQ && source[j] != AMP
      invariant i <= j <= |source|
      invariant key == source[i..j]
      invariant forall k | i <= k < j :: source[k] != EQ && source[k] != AMP
    {
      key := key + [source[j]];
      j := j + 1;
    }
    value := [];
    if j < |source| && source[j] == EQ {
      j := j + 1;
      ghost var start := j;
      while j < |source| && source[j] != AMP
        invariant start <= j <= |source|
        invariant value == source[start..j]
        invariant forall k | start <= k < j :: source[k] != AMP
      {
        value := value + [source[j]];
        j := j + 1;
      }
      assert source[i..j] == key + [EQ] + value;
    }
  }

  /**
    The loop of `QueryString::decode` (src/querystring.rs:33-44): while input remains, read
    a pair and insert it unless its key is empty.
   */
  method DecodeFields(source: Bytes) returns (fields: Fields)
    ensures fields == Decoded(source)
  {
    fields := [];
    var i := 0;
    assert source[0..] == source;
    while i < |source|
      invariant 0 <= i <= |source|
      invariant Sorted(fields)
      invariant DecodeFrom(fields, source[i..]) == Decoded(source)
      decreases |source| - i
    {
      var key, value, j := NextPair(source, i);
      DecodeStep(fields, source, i, j, key, value);
      ghost var added := Add(fields, (key, value));
      if j < |source| {
        j := j + 1;
      }
      if key != [] {
        fields := Insert(fields, key, value);
      }
      assert fields == added;
      i := j;
    }
  }
}
