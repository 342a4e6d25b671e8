/**
 * Ruby's Hash keeps its keys in insertion order, and the reconciliation
 * reports issues and tasks in that order. This module models such a hash
 * as the list of keys in insertion order beside the map from key to value,
 * together with the sequence filters that Ruby's `select`, `reject` and
 * `Array#-` perform.
 */
module OrderedHash {

  /** No element occurs twice. */
  ghost predicate Distinct<T>(s: seq<T>) {
    forall i, j :: 0 <= i < j < |s| ==> s[i] != s[j]
  }

  /** How many times `x` occurs in `s`. */
  function Count<T(==)>(s: seq<T>, x: T): (c: nat)
    ensures c <= |s|
    ensures c > 0 <==> x in s
  {
    if s == [] then 0
    else Count(s[..|s| - 1], x) + if s[|s| - 1] == x then 1 else 0
  }

  /** Counting over a sequence extended by one element. */
  lemma CountSnoc<T>(s: seq<T>, y: T, x: T)
    ensures Count(s + [y], x) == Count(s, x) + if y == x then 1 else 0
  {
    assert (s + [y])[..|s|] == s;
  }

  /** An insertion-ordered hash. */
  datatype Hash<K(==, !new), V> = Hash(keys: seq<K>, entries: map<K, V>)
  {
    /** Every key is listed exactly once, and only keys are listed. */
    ghost predicate Valid() {
      && Distinct(keys)
      && (forall k :: k in entries <==> k in keys)
    }
  }

  /** The empty hash. */
  function Empty<K(==, !new), V>(): (h: Hash<K, V>)
    ensures h.Valid() && |h.keys| == 0
  {
    Hash([], map[])
  }

  /** Storing `v` under `k`: an existing key keeps its place, a new key goes last. */
  function Put<K(==, !new), V>(h: Hash<K, V>, k: K, v: V): (r: Hash<K, V>)
    ensures k in h.entries ==> r.keys == h.keys
    ensures k !in h.entries ==> r.keys == h.keys + [k]
    ensures |r.keys| == |h.keys| + (if k in h.entries then 0 else 1)
    ensures k in r.entries && r.entries[k] == v
    ensures forall k' :: k' != k ==> (k' in r.entries <==> k' in h.entries)
    ensures forall k' :: k' != k && k' in h.entries ==> r.entries[k'] == h.entries[k']
  {
    if k in h.entries then Hash(h.keys, h.entries[k := v])
    else Hash(h.keys + [k], h.entries[k := v])
  }

  /** Put keeps a hash well formed. */
  lemma PutValid<K(!new), V>(h: Hash<K, V>, k: K, v: V)
    requires h.Valid()
    ensures Put(h, k, v).Valid()
  {
  }

  /** Storing the same value twice under a key is storing it once. */
  lemma PutPut<K(!new), V>(h: Hash<K, V>, k: K, v: V)
    ensures Put(Put(h, k, v), k, v) == Put(h, k, v)
  {
    assert Put(h, k, v).entries[k := v] == Put(h, k, v).entries;
  }

  /** The elements of `s` that lie in `keep`, in the order of `s`. */
  function Filter<K(==, !new)>(s: seq<K>, keep: set<K>): (r: seq<K>)
    ensures forall x :: x in r <==> x in s && x in keep
    ensures Distinct(s) ==> Distinct(r)
    ensures |r| <= |s|
  {
    if s == [] then []
    else
      var r := Filter(s[..|s| - 1], keep);
      if s[|s| - 1] in keep then r + [s[|s| - 1]] else r
  }

  /**
   * The elements of `a` that are not in `b`, as a set. This is the set
   * `Array#-` filters by, stated over the two lists; `Missing` below is
   * the same set stated over two hashes' domains, which is how the
   * reconciliation lemmas speak of it. `OnlyInIsFilter` relates the two.
   */
  function NotIn<K(==, !new)>(a: seq<K>, b: seq<K>): set<K> {
    set x | x in a && x !in b
  }

  /** Ruby's `a - b` on arrays: the elements of `a` not in `b`, in the order of `a`. */
  function Minus<K(==, !new)>(a: seq<K>, b: seq<K>): (r: seq<K>)
    ensures forall x :: x in r <==> x in a && x !in b
    ensures Distinct(a) ==> Distinct(r)
    ensures |r| <= |a|
  {
    Filter(a, NotIn(a, b))
  }

  /** The values stored under the keys `ks`, in the order of `ks`. */
  function Values<K(==, !new), V>(h: Hash<K, V>, ks: seq<K>): (r: seq<V>)
    requires forall k :: k in ks ==> k in h.entries
    ensures |r| == |ks|
    ensures forall i :: 0 <= i < |ks| ==> r[i] == h.entries[ks[i]]
  {
    if ks == [] then []
    else Values(h, ks[..|ks| - 1]) + [h.entries[ks[|ks| - 1]]]
  }

  /** The difference of the two key lists: the keys of `a` missing from `b`, in the order of `a`. */
  function OnlyIn<K(==, !new), V, W>(a: Hash<K, V>, b: Hash<K, W>): (ks: seq<K>)
    requires a.Valid() && b.Valid()
    ensures Distinct(ks)
    ensures forall k :: k in ks <==> k in a.entries && k !in b.entries
    ensures |ks| <= |a.keys|
  {
    Minus(a.keys, b.keys)
  }

  /** A sequence with no elements is empty. */
  lemma NothingInEmpty<K>(s: seq<K>)
    ensures (forall x :: x !in s) ==> s == []
  {
    if s != [] {
      assert s[0] in s;
    }
  }

  /** The keys of `a` that `b` lacks, as a set. */
  function Missing<K(==, !new), V, W>(a: Hash<K, V>, b: Hash<K, W>): set<K> {
    set k | k in a.entries && k !in b.entries
  }

  /** OnlyIn is the keys of `a`, in order, filtered by what `b` lacks. */
  lemma OnlyInIsFilter<K(!new), V, W>(a: Hash<K, V>, b: Hash<K, W>)
    requires a.Valid() && b.Valid()
    ensures OnlyIn(a, b) == Filter(a.keys, Missing(a, b))
  {
    FilterCongruent(a.keys, NotIn(a.keys, b.keys), Missing(a, b));
  }

  /** Looking keys up in two hashes that agree on them gives the same values. */
  lemma {:induction false} ValuesAgree<K(!new), V>(h1: Hash<K, V>, h2: Hash<K, V>, ks: seq<K>)
    requires forall k :: k in ks ==> k in h1.entries && k in h2.entries && h1.entries[k] == h2.entries[k]
    ensures Values(h1, ks) == Values(h2, ks)
  {
    if ks != [] {
      ValuesAgree(h1, h2, ks[..|ks| - 1]);
    }
  }

  /** The entries of `h` whose keys lie in `keep`, in the order of `h`. */
  function Restrict<K(==, !new), V>(h: Hash<K, V>, keep: set<K>): (r: Hash<K, V>)
    requires h.Valid()
    ensures r.Valid()
    ensures forall k :: k in r.entries <==> k in h.entries && k in keep
    ensures forall k :: k in r.entries ==> r.entries[k] == h.entries[k]
  {
    Hash(Filter(h.keys, keep), map k | k in h.entries && k in keep :: h.entries[k])
  }

  /** The elements of `s` in the order of their first occurrence, each once. */
  function Dedup<K(==, !new)>(s: seq<K>): (r: seq<K>)
    ensures Distinct(r)
    ensures forall x :: x in r <==> x in s
  {
    if s == [] then []
    else
      var r := Dedup(s[..|s| - 1]);
      if s[|s| - 1] in r then r else r + [s[|s| - 1]]
  }

  /** Filtering keeps everything when every element is to be kept. */
  lemma {:induction false} FilterAll<K(!new)>(s: seq<K>, keep: set<K>)
    requires forall x :: x in s ==> x in keep
    ensures Filter(s, keep) == s
  {
    if s != [] {
      assert s[..|s| - 1] + [s[|s| - 1]] == s;
      FilterAll(s[..|s| - 1], keep);
    }
  }

  /** Only the part of `keep` that meets `s` matters. */
  lemma {:induction false} FilterCongruent<K(!new)>(s: seq<K>, keep1: set<K>, keep2: set<K>)
    requires forall x :: x in s ==> (x in keep1 <==> x in keep2)
    ensures Filter(s, keep1) == Filter(s, keep2)
  {
    if s != [] {
      FilterCongruent(s[..|s| - 1], keep1, keep2);
    }
  }

  /** Two filters in a row are one filter by the intersection. */
  lemma {:induction false} FilterFilter<K(!new)>(s: seq<K>, keep1: set<K>, keep2: set<K>)
    ensures Filter(Filter(s, keep1), keep2) == Filter(s, keep1 * keep2)
  {
    if s != [] {
      var init, last := s[..|s| - 1], s[|s| - 1];
      FilterFilter(init, keep1, keep2);
      var f := Filter(init, keep1);
      if last in keep1 {
        assert (f + [last])[..|f|] == f;
      }
    }
  }
}
