/**
 * Python dicts as the database wrapper and the profile editor use them: keys
 * in insertion order, one value per key.
 */
module Dicts {
  import opened Wrappers

  datatype Dict<K(==,!new), V> = Dict(keys: seq<K>, entries: map<K, V>)

  predicate Distinct<K(==,!new)>(ks: seq<K>)
  {
    forall i, j :: 0 <= i < j < |ks| ==> ks[i] != ks[j]
  }

  /** Every listed key has a value. */
  predicate Listed<K(==,!new), V>(d: Dict<K, V>)
  {
    forall i :: 0 <= i < |d.keys| ==> d.keys[i] in d.entries
  }

  /** Each key listed once, and exactly the listed keys have a value. */
  ghost predicate WellFormed<K(!new), V>(d: Dict<K, V>)
  {
    Distinct(d.keys) && Listed(d) && forall k :: k in d.entries ==> k in d.keys
  }

  function Empty<K(==,!new), V>(): (d: Dict<K, V>)
    ensures WellFormed(d)
  {
    Dict([], map[])
  }

  /** d.get(key). */
  function Lookup<K(==,!new), V>(d: Dict<K, V>, key: K): Option<V>
  {
    if key in d.entries then Some(d.entries[key]) else None
  }

  /** d[key] = value: an existing key keeps its position, a new one goes last. */
  function Set<K(==,!new), V>(d: Dict<K, V>, key: K, value: V): (e: Dict<K, V>)
    ensures e.entries == d.entries[key := value]
    ensures e.keys == if key in d.entries then d.keys else d.keys + [key]
  {
    if key in d.entries then Dict(d.keys, d.entries[key := value])
    else Dict(d.keys + [key], d.entries[key := value])
  }

  /** After assignment the key finds the new value and every other key its old one. */
  lemma SetLookup<K(!new), V>(d: Dict<K, V>, key: K, value: V)
    ensures Lookup(Set(d, key, value), key) == Some(value)
    ensures forall k :: k != key ==> Lookup(Set(d, key, value), k) == Lookup(d, k)
  {
  }

  /** Two dicts that answer every lookup alike hold the same entries. */
  lemma LookupExtensionality<K(!new), V>(a: Dict<K, V>, b: Dict<K, V>)
    requires forall k :: Lookup(a, k) == Lookup(b, k)
    ensures a.entries == b.entries
  {
    forall k | k in a.entries
      ensures k in b.entries && a.entries[k] == b.entries[k]
    {
      assert Lookup(a, k) == Lookup(b, k);
    }
    forall k | k in b.entries
      ensures k in a.entries
    {
      assert Lookup(a, k) == Lookup(b, k);
    }
  }

  /** Assignment keeps a dict well formed. */
  lemma SetWellFormed<K(!new), V>(d: Dict<K, V>, key: K, value: V)
    requires WellFormed(d)
    ensures WellFormed(Set(d, key, value))
  {
    var e := Set(d, key, value);
    if key !in d.entries {
      assert key !in d.keys;
      forall k | k in e.entries
        ensures k in e.keys
      {
        if k != key {
          assert k in d.keys;
        }
      }
    }
  }

  /** A dict display `{k1: v1, k2: v2, ...}`: the pairs assigned in order, so a repeated key keeps its first position and its last value. */
  function FromPairs<K(==,!new), V>(pairs: seq<(K, V)>): Dict<K, V>
  {
    if pairs == [] then Empty()
    else Set(FromPairs(pairs[..|pairs| - 1]), pairs[|pairs| - 1].0, pairs[|pairs| - 1].1)
  }

  /** The value the last pair with this key gives, if there is one. */
  function LastValue<K(==,!new), V>(pairs: seq<(K, V)>, key: K): Option<V>
  {
    if pairs == [] then None
    else if pairs[|pairs| - 1].0 == key then Some(pairs[|pairs| - 1].1)
    else LastValue(pairs[..|pairs| - 1], key)
  }

  /** A dict display is well formed. */
  lemma {:induction false} FromPairsWellFormed<K(!new), V>(pairs: seq<(K, V)>)
    ensures WellFormed(FromPairs(pairs))
  {
    if pairs != [] {
      var prefix := pairs[..|pairs| - 1];
      FromPairsWellFormed(prefix);
      SetWellFormed(FromPairs(prefix), pairs[|pairs| - 1].0, pairs[|pairs| - 1].1);
    }
  }

  /** In a dict display every key finds the value of its last pair. */
  lemma {:induction false} FromPairsLookup<K(!new), V>(pairs: seq<(K, V)>, key: K)
    ensures Lookup(FromPairs(pairs), key) == LastValue(pairs, key)
  {
    if pairs != [] {
      var prefix := pairs[..|pairs| - 1];
      FromPairsLookup(prefix, key);
      SetLookup(FromPairs(prefix), pairs[|pairs| - 1].0, pairs[|pairs| - 1].1);
    }
  }

  /** The keys of the pairs, in order. */
  function KeysOf<K(==,!new), V>(pairs: seq<(K, V)>): (ks: seq<K>)
    ensures |ks| == |pairs| && forall i :: 0 <= i < |pairs| ==> ks[i] == pairs[i].0
  {
    seq(|pairs|, i requires 0 <= i < |pairs| => pairs[i].0)
  }

  /** Without repeated keys, each pair is the last word on its key. */
  lemma {:induction false} LastValueDistinct<K(!new), V>(pairs: seq<(K, V)>, i: nat)
    requires Distinct(KeysOf(pairs)) && i < |pairs|
    ensures LastValue(pairs, pairs[i].0) == Some(pairs[i].1)
  {
    if i < |pairs| - 1 {
      var prefix := pairs[..|pairs| - 1];
      assert KeysOf(pairs)[i] != KeysOf(pairs)[|pairs| - 1];
      assert KeysOf(prefix) == KeysOf(pairs)[..|pairs| - 1];
      LastValueDistinct(prefix, i);
    }
  }

  /** A display without repeated keys has exactly its keys, in the order written. */
  lemma {:induction false} FromPairsDistinctKeys<K(!new), V>(pairs: seq<(K, V)>)
    requires Distinct(KeysOf(pairs))
    ensures FromPairs(pairs).keys == KeysOf(pairs)
  {
    if pairs != [] {
      var prefix, last := pairs[..|pairs| - 1], pairs[|pairs| - 1];
      assert KeysOf(prefix) == KeysOf(pairs)[..|pairs| - 1];
      FromPairsDistinctKeys(prefix);
      FromPairsWellFormed(prefix);
      forall i | 0 <= i < |prefix|
        ensures KeysOf(prefix)[i] != last.0
      {
        assert KeysOf(pairs)[i] != KeysOf(pairs)[|pairs| - 1];
      }
    }
  }

  /** A display without repeated keys lists its pairs as they are written. */
  lemma FromPairsDistinct<K(!new), V>(pairs: seq<(K, V)>)
    requires Distinct(KeysOf(pairs))
    ensures WellFormed(FromPairs(pairs))
    ensures FromPairs(pairs).keys == KeysOf(pairs)
    ensures Items(FromPairs(pairs)) == pairs
  {
    FromPairsWellFormed(pairs);
    FromPairsDistinctKeys(pairs);
    forall i | 0 <= i < |pairs|
      ensures Items(FromPairs(pairs))[i] == pairs[i]
    {
      FromPairsLookup(pairs, pairs[i].0);
      LastValueDistinct(pairs, i);
    }
  }

  /** Assigning a key the value it already has changes nothing. */
  lemma SetSame<K(!new), V>(d: Dict<K, V>, key: K, value: V)
    requires Lookup(d, key) == Some(value)
    ensures Set(d, key, value) == d
  {
    assert d.entries[key := value] == d.entries;
  }

  /** Repeating a pair that is already the last word on its key changes nothing. */
  lemma {:induction false} FromPairsRepeat<K(!new), V>(a: seq<(K, V)>, p: (K, V), b: seq<(K, V)>)
    requires LastValue(a, p.0) == Some(p.1)
    ensures FromPairs(a + [p] + b) == FromPairs(a + b)
    decreases |b|
  {
    if b == [] {
      assert a + [p] + b == a + [p] && a + b == a;
      FromPairsSnoc(a, p);
      FromPairsLookup(a, p.0);
      SetSame(FromPairs(a), p.0, p.1);
    } else {
      var b', q := b[..|b| - 1], b[|b| - 1];
      FromPairsRepeat(a, p, b');
      assert a + [p] + b == (a + [p] + b') + [q];
      assert a + b == (a + b') + [q];
      FromPairsSnoc(a + [p] + b', q);
      FromPairsSnoc(a + b', q);
    }
  }

  /** Adding a pair at the end of a display assigns it last. */
  lemma FromPairsSnoc<K(!new), V>(pairs: seq<(K, V)>, q: (K, V))
    ensures FromPairs(pairs + [q]) == Set(FromPairs(pairs), q.0, q.1)
  {
    assert (pairs + [q])[..|pairs|] == pairs;
  }

  /** d.items(), in key order. */
  function Items<K(==,!new), V>(d: Dict<K, V>): (items: seq<(K, V)>)
    requires Listed(d)
    ensures |items| == |d.keys|
    ensures forall i :: 0 <= i < |items| ==> items[i] == (d.keys[i], d.entries[d.keys[i]])
  {
    seq(|d.keys|, i requires 0 <= i < |d.keys| && Listed(d) => (d.keys[i], d.entries[d.keys[i]]))
  }
}
