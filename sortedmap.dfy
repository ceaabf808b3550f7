/**
  The ordered map `BTreeMap<Vec<u8>, Vec<u8>>` that backs `QueryString`, as a strictly
  sorted association list: keys ascend in the lexicographic byte order that `Ord` gives
  `Vec<u8>`, so iterating the list visits the entries as the map's iterator does.
 */
module SortedMap {
  import opened Bytes

  datatype Option<T> = None | Some(value: T)

  /** Key/value entries in iteration order. */
  type Fields = seq<(Bytes, Bytes)>

  // ---------------------------------------------------------------- the key order

  /** `a < b` on byte strings: the first differing byte decides, and a proper prefix comes first. */
  predicate Below(a: Bytes, b: Bytes)
    ensures Below(a, b) ==> b != [] && (a != [] ==> a[0] <= b[0])
    ensures |a| < |b| && a == b[..|a|] ==> Below(a, b)
    decreases |a|
  {
    if a == [] then b != []
    else if b == [] then false
    else if a[0] != b[0] then a[0] < b[0]
    else Below(a[1..], b[1..])
  }

  lemma {:induction false} BelowIrreflexive(a: Bytes)
    ensures !Below(a, a)
  {
    if a != [] {
      BelowIrreflexive(a[1..]);
    }
  }

  lemma {:induction false} BelowTransitive(a: Bytes, b: Bytes, c: Bytes)
    requires Below(a, b) && Below(b, c)
    ensures Below(a, c)
    decreases |a|
  {
    if a != [] && a[0] == b[0] && b[0] == c[0] {
      BelowTransitive(a[1..], b[1..], c[1..]);
    }
  }

  lemma {:induction false} BelowTotal(a: Bytes, b: Bytes)
    requires a != b
    ensures Below(a, b) || Below(b, a)
    decreases |a|
  {
    if a != [] && b != [] && a[0] == b[0] {
      assert a == [a[0]] + a[1..] && b == [b[0]] + b[1..];
      BelowTotal(a[1..], b[1..]);
    }
  }

  lemma BelowAsymmetric(a: Bytes, b: Bytes)
    requires Below(a, b)
    ensures !Below(b, a)
  {
    if Below(b, a) {
      BelowTransitive(a, b, a);
      BelowIrreflexive(a);
    }
  }

  // ---------------------------------------------------------------- the map

  /** Keys strictly ascend: each key is below the next one. */
  predicate Sorted(f: Fields) {
    forall i | 0 < i < |f| :: Below(f[i - 1].0, f[i].0)
  }

  /** In a sorted list every key is below every later key. */
  lemma {:induction false} SortedBelow(f: Fields, i: nat, j: nat)
    requires Sorted(f) && i < j < |f|
    ensures Below(f[i].0, f[j].0)
    decreases j - i
  {
    if i + 1 < j {
      SortedBelow(f, i + 1, j);
      BelowTransitive(f[i].0, f[i + 1].0, f[j].0);
    }
  }

  /** A sorted list holds each key once. */
  lemma SortedUnique(f: Fields, i: nat, j: nat)
    requires Sorted(f) && i < j < |f|
    ensures f[i].0 != f[j].0
  {
    SortedBelow(f, i, j);
    BelowIrreflexive(f[i].0);
  }

  /** The keys of the map. */
  function Keys(f: Fields): (keys: set<Bytes>)
    ensures forall i | 0 <= i < |f| :: f[i].0 in keys
  {
    if f == [] then {} else {f[0].0} + Keys(f[1..])
  }

  /** `BTreeMap::get`: the value stored under `key`, if any. */
  function Lookup(f: Fields, key: Bytes): (r: Option<Bytes>)
    ensures r.None? <==> key !in Keys(f)
    ensures r.Some? ==> (key, r.value) in f
  {
    if f == [] then None
    else if f[0].0 == key then Some(f[0].1)
    else Lookup(f[1..], key)
  }

  /** In a sorted list the value stored under each key is the one `Lookup` finds. */
  lemma {:induction false} LookupSorted(f: Fields, i: nat)
    requires Sorted(f) && i < |f|
    ensures Lookup(f, f[i].0) == Some(f[i].1)
  {
    if i > 0 {
      SortedUnique(f, 0, i);
      assert f == [f[0]] + f[1..];
      SortedParts([f[0]], f[1..]);
      assert f[1..][i - 1] == f[i];
      LookupSorted(f[1..], i - 1);
    }
  }

  /** `BTreeMap::insert`: stores `value` under `key`, replacing any earlier value, in key order. */
  function Insert(f: Fields, key: Bytes, value: Bytes): (r: Fields)
    requires Sorted(f)
    ensures Sorted(r)
    ensures Keys(r) == Keys(f) + {key}
    ensures Lookup(r, key) == Some(value)
    ensures forall k | k != key :: Lookup(r, k) == Lookup(f, k)
    ensures forall e | e in r :: e in f || e == (key, value)
    ensures r[0].0 == key || (f != [] && r[0] == f[0])
  {
    if f == [] then [(key, value)]
    else if f[0].0 == key then [(key, value)] + f[1..]
    else if Below(key, f[0].0) then [(key, value)] + f
    else
      BelowTotal(key, f[0].0);
      [f[0]] + Insert(f[1..], key, value)
  }

  /** Past a key below the new one, `Insert` keeps the head and goes on in the tail. */
  lemma InsertPast(f: Fields, key: Bytes, value: Bytes)
    requires Sorted(f) && f != [] && Below(f[0].0, key)
    ensures Sorted(f[1..])
    ensures Insert(f, key, value) == [f[0]] + Insert(f[1..], key, value)
  {
    assert f == [f[0]] + f[1..];
    SortedParts([f[0]], f[1..]);
    BelowIrreflexive(key);
    BelowAsymmetric(f[0].0, key);
  }

  /** Inserting a key below every key of the map prepends it. */
  lemma InsertBelow(f: Fields, key: Bytes, value: Bytes)
    requires Sorted(f) && (f != [] ==> Below(key, f[0].0))
    ensures Insert(f, key, value) == [(key, value)] + f
  {
    BelowIrreflexive(key);
  }

  /** Putting the head back in front of the tail with `x` appended appends `x` to the whole. */
  lemma ConsSnoc(f: Fields, x: (Bytes, Bytes))
    requires f != []
    ensures [f[0]] + (f[1..] + [x]) == f + [x]
  {
    assert f == [f[0]] + f[1..];
  }

  /** Inserting a key above every key of the map appends it. */
  lemma {:induction false} InsertAbove(f: Fields, key: Bytes, value: Bytes)
    requires Sorted(f) && (f != [] ==> Below(f[|f| - 1].0, key))
    ensures Insert(f, key, value) == f + [(key, value)]
  {
    if f != [] {
      assert Below(f[0].0, key) by {
        if |f| > 1 {
          SortedBelow(f, 0, |f| - 1);
          BelowTransitive(f[0].0, f[|f| - 1].0, key);
        }
      }
      InsertPast(f, key, value);
      var rest := f[1..];
      assert rest != [] ==> rest[|rest| - 1] == f[|f| - 1];
      InsertAbove(rest, key, value);
      ConsSnoc(f, (key, value));
    }
  }

  /** Both halves of a sorted list are sorted. */
  lemma SortedParts(a: Fields, b: Fields)
    requires Sorted(a + b)
    ensures Sorted(a) && Sorted(b)
  {
    forall i | 0 < i < |a| ensures Below(a[i - 1].0, a[i].0) {
      assert a[i - 1] == (a + b)[i - 1] && a[i] == (a + b)[i];
    }
    forall i | 0 < i < |b| ensures Below(b[i - 1].0, b[i].0) {
      assert b[i - 1] == (a + b)[|a| + i - 1] && b[i] == (a + b)[|a| + i];
    }
  }

  /** The pairs inserted one after another, first to last, into `f`. */
  function InsertAll(f: Fields, pairs: Fields): (r: Fields)
    requires Sorted(f)
    ensures Sorted(r)
    ensures Keys(r) == Keys(f) + Keys(pairs)
    decreases |pairs|
  {
    if pairs == [] then f
    else InsertAll(Insert(f, pairs[0].0, pairs[0].1), pairs[1..])
  }

  /** `collect()` of pairs into a fresh map. */
  function FromPairs(pairs: Fields): (r: Fields)
    ensures Sorted(r)
  {
    InsertAll([], pairs)
  }

  /** The value of the last pair whose key is `key`, if any. */
  function LastValue(pairs: Fields, key: Bytes): Option<Bytes>
    decreases |pairs|
  {
    if pairs == [] then None
    else
      var later := LastValue(pairs[1..], key);
      if later.Some? then later
      else if pairs[0].0 == key then Some(pairs[0].1)
      else None
  }

  /** Inserting pairs into a map: a key some pair names gets its last value, other keys keep theirs. */
  lemma {:induction false} InsertAllLastWins(f: Fields, pairs: Fields, key: Bytes)
    requires Sorted(f)
    ensures Lookup(InsertAll(f, pairs), key)
         == if LastValue(pairs, key).Some? then LastValue(pairs, key) else Lookup(f, key)
    decreases |pairs|
  {
    if pairs != [] {
      InsertAllLastWins(Insert(f, pairs[0].0, pairs[0].1), pairs[1..], key);
    }
  }

  /** The last write wins: the map built from pairs holds, for every key, its last value. */
  lemma FromPairsLastWins(pairs: Fields, key: Bytes)
    ensures Lookup(FromPairs(pairs), key) == LastValue(pairs, key)
  {
    InsertAllLastWins([], pairs, key);
  }

  /** Inserting one more pair is inserting into the map built from the others. */
  lemma {:induction false} InsertAllSnoc(f: Fields, pairs: Fields, key: Bytes, value: Bytes)
    requires Sorted(f)
    ensures InsertAll(f, pairs + [(key, value)]) == Insert(InsertAll(f, pairs), key, value)
    decreases |pairs|
  {
    if pairs == [] {
      assert pairs + [(key, value)] == [(key, value)];
    } else {
      assert (pairs + [(key, value)])[1..] == pairs[1..] + [(key, value)];
      InsertAllSnoc(Insert(f, pairs[0].0, pairs[0].1), pairs[1..], key, value);
    }
  }

  /** Building a map from pairs and then inserting a pair is building it from all of them. */
  lemma FromPairsThenInsert(pairs: Fields, key: Bytes, value: Bytes)
    ensures FromPairs(pairs + [(key, value)]) == Insert(FromPairs(pairs), key, value)
  {
    InsertAllSnoc([], pairs, key, value);
  }
}
