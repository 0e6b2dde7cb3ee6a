/** The abstract contents of an ordered multi-valued dictionary: the sequence of
    its (key, value) pairs in global insertion order, and the views and
    per-key projections the container offers over that sequence. Every
    operation of the container is specified in these terms. */
module Pairs {

  /** The keys view: one key per pair, duplicates included, in global order. */
  function Keys<K, V>(s: seq<(K, V)>): seq<K> {
    seq(|s|, i requires 0 <= i < |s| => s[i].0)
  }

  /** The values view: one value per pair, in global order. */
  function Values<K, V>(s: seq<(K, V)>): seq<V> {
    seq(|s|, i requires 0 <= i < |s| => s[i].1)
  }

  /** The set of keys present in `s`. */
  function KeySet<K, V>(s: seq<(K, V)>): set<K> {
    set k | k in Keys(s)
  }

  /** The elements of a sequence, as a set. */
  function Elements<T>(s: seq<T>): set<T> {
    set x | x in s
  }

  /** What a view's reversed iterator yields. */
  function Reverse<T>(s: seq<T>): seq<T> {
    seq(|s|, i requires 0 <= i < |s| => s[|s| - 1 - i])
  }

  /** The values stored under `k`, oldest first: what getall returns for a
      present key. */
  function ValuesFor<K(==), V>(s: seq<(K, V)>, k: K): seq<V> {
    if s == [] then []
    else (if s[0].0 == k then [s[0].1] else []) + ValuesFor(s[1..], k)
  }

  /** `vs` stored under the single key `k`, in order. */
  function WithKey<K, V>(k: K, vs: seq<V>): seq<(K, V)> {
    seq(|vs|, i requires 0 <= i < |vs| => (k, vs[i]))
  }

  /** `s` without its earliest pair whose key is `k`. */
  function RemoveFirstOf<K(==), V>(s: seq<(K, V)>, k: K): seq<(K, V)> {
    if s == [] then []
    else if s[0].0 == k then s[1..]
    else [s[0]] + RemoveFirstOf(s[1..], k)
  }

  /** `s` without its latest pair whose key is `k`. */
  function RemoveLastOf<K(==), V>(s: seq<(K, V)>, k: K): seq<(K, V)> {
    if s == [] then []
    else if s[|s| - 1].0 == k then s[..|s| - 1]
    else RemoveLastOf(s[..|s| - 1], k) + [s[|s| - 1]]
  }

  /** `s` without the pairs whose key is in `ks`, the others in their order. */
  function WithoutKeys<K(==), V>(s: seq<(K, V)>, ks: set<K>): seq<(K, V)> {
    if s == [] then []
    else (if s[0].0 in ks then [] else [s[0]]) + WithoutKeys(s[1..], ks)
  }

  /** The result of `dict.fromkeys(ks)`: scan `ks` and keep each key the first
      time it is seen. */
  function Dedup<K(==)>(ks: seq<K>): (r: seq<K>)
    ensures forall i :: 0 <= i < |r| ==> r[i] in ks
    ensures forall i :: 0 <= i < |ks| ==> ks[i] in r
    ensures forall i, j :: 0 <= i < j < |r| ==> r[i] != r[j]
  {
    if ks == [] then []
    else
      var d := Dedup(ks[..|ks| - 1]);
      if ks[|ks| - 1] in d then d else d + [ks[|ks| - 1]]
  }

  /** The unique-keys view: keys in the order of their first appearance. */
  function UniqueKeys<K(==), V>(s: seq<(K, V)>): seq<K> {
    Dedup(Keys(s))
  }

  /** Position of the first occurrence of `x` in `ks`. */
  function FirstIndex<K(==)>(ks: seq<K>, x: K): (p: nat)
    requires x in ks
    ensures p < |ks| && ks[p] == x && x !in ks[..p]
  {
    if ks[0] == x then 0
    else
      var p := FirstIndex(ks[1..], x) + 1;
      assert ks[..p] == [ks[0]] + ks[1..][..p - 1];
      p
  }

  // ---------------------------------------------------------------------------
  // Lemmas about getall (ValuesFor) and the views

  lemma {:induction false} ValuesForConcat<K, V>(a: seq<(K, V)>, b: seq<(K, V)>, k: K)
    ensures ValuesFor(a + b, k) == ValuesFor(a, k) + ValuesFor(b, k)
  {
    if a == [] {
      assert a + b == b;
    } else {
      var h := if a[0].0 == k then [a[0].1] else [];
      assert (a + b)[0] == a[0];
      assert (a + b)[1..] == a[1..] + b;
      ValuesForConcat(a[1..], b, k);
      calc {
        ValuesFor(a + b, k);
        h + ValuesFor(a[1..] + b, k);
        h + (ValuesFor(a[1..], k) + ValuesFor(b, k));
        (h + ValuesFor(a[1..], k)) + ValuesFor(b, k);
      }
    }
  }

  /** A key is present (has a non-empty getall) exactly when it is in the keys
      view. */
  lemma {:induction false} ValuesForNonEmpty<K, V>(s: seq<(K, V)>, k: K)
    ensures ValuesFor(s, k) != [] <==> k in Keys(s)
  {
    if s != [] {
      ValuesForNonEmpty(s[1..], k);
      assert Keys(s) == [s[0].0] + Keys(s[1..]);
    }
  }

  /** Each key occurs in the keys view once per value getall returns for it. */
  lemma {:induction false} KeysCountValues<K, V>(s: seq<(K, V)>, k: K)
    ensures multiset(Keys(s))[k] == |ValuesFor(s, k)|
  {
    if s != [] {
      KeysCountValues(s[1..], k);
      assert Keys(s) == [s[0].0] + Keys(s[1..]);
    }
  }

  /** The keys view, the values view and the pairs determine each other. */
  lemma ViewsZip<K, V>(s: seq<(K, V)>)
    ensures |Keys(s)| == |Values(s)| == |s|
    ensures forall i :: 0 <= i < |s| ==> s[i] == (Keys(s)[i], Values(s)[i])
  {
  }

  /** A pair is present exactly when its value is among getall of its key:
      contains_item agrees with the items view. */
  lemma {:induction false} PairInValuesFor<K, V>(s: seq<(K, V)>, k: K, v: V)
    ensures (k, v) in s <==> v in ValuesFor(s, k)
  {
    if s != [] {
      PairInValuesFor(s[1..], k, v);
      assert s == [s[0]] + s[1..];
    }
  }

  /** A value is in the values view exactly when some key's getall holds it. */
  lemma ValueUnderSomeKey<K, V>(s: seq<(K, V)>, v: V)
    ensures v in Values(s) <==> exists k | k in KeySet(s) :: v in ValuesFor(s, k)
  {
    if v in Values(s) {
      var i :| 0 <= i < |s| && Values(s)[i] == v;
      assert s[i] == (s[i].0, v);
      PairInValuesFor(s, s[i].0, v);
      assert Keys(s)[i] == s[i].0;
    }
    forall k | k in KeySet(s) && v in ValuesFor(s, k)
      ensures v in Values(s)
    {
      PairInValuesFor(s, k, v);
      var i :| 0 <= i < |s| && s[i] == (k, v);
      assert Values(s)[i] == v;
    }
  }

  /** The reversed views are the views of the reversed pairs. */
  lemma ReversedViews<K, V>(s: seq<(K, V)>)
    ensures Reverse(Keys(s)) == Keys(Reverse(s))
    ensures Reverse(Values(s)) == Values(Reverse(s))
    ensures Reverse(Reverse(s)) == s
  {
  }

  lemma {:induction false} ValuesForWithKey<K, V>(k: K, vs: seq<V>, k': K)
    ensures ValuesFor(WithKey(k, vs), k') == if k' == k then vs else []
  {
    if vs != [] {
      assert WithKey(k, vs)[1..] == WithKey(k, vs[1..]);
      ValuesForWithKey(k, vs[1..], k');
    }
  }

  // ---------------------------------------------------------------------------
  // Lemmas about removing one pair of a key

  /** RemoveFirstOf deletes exactly the earliest pair with key `k`; every other
      pair keeps its relative order. */
  lemma {:induction false} RemoveFirstOfAt<K, V>(s: seq<(K, V)>, k: K, p: nat)
    requires p < |s| && s[p].0 == k
    requires forall q :: 0 <= q < p ==> s[q].0 != k
    ensures RemoveFirstOf(s, k) == s[..p] + s[p + 1..]
  {
    if p > 0 {
      RemoveFirstOfAt(s[1..], k, p - 1);
      assert s[..p] == [s[0]] + s[1..][..p - 1];
      assert s[p + 1..] == s[1..][p..];
    }
  }

  /** RemoveLastOf deletes exactly the latest pair with key `k`; every other
      pair keeps its relative order. */
  lemma {:induction false} RemoveLastOfAt<K, V>(s: seq<(K, V)>, k: K, p: nat)
    requires p < |s| && s[p].0 == k
    requires forall q :: p < q < |s| ==> s[q].0 != k
    ensures RemoveLastOf(s, k) == s[..p] + s[p + 1..]
  {
    var n := |s| - 1;
    if p < n {
      var f := s[..n];
      RemoveLastOfAt(f, k, p);
      assert f[..p] == s[..p];
      assert f[p + 1..] + [s[n]] == s[p + 1..];
    }
  }

  /** popfirst(k): getall(k) loses its first value; every other key's values
      are unchanged. */
  lemma {:induction false} RemoveFirstOfValues<K, V>(s: seq<(K, V)>, k: K, k': K)
    requires k in Keys(s)
    ensures ValuesFor(s, k) != []
    ensures ValuesFor(RemoveFirstOf(s, k), k') ==
      if k' == k then ValuesFor(s, k)[1..] else ValuesFor(s, k')
  {
    ValuesForNonEmpty(s, k);
    if s[0].0 != k {
      assert Keys(s) == [s[0].0] + Keys(s[1..]);
      RemoveFirstOfValues(s[1..], k, k');
      assert ([s[0]] + RemoveFirstOf(s[1..], k))[1..] == RemoveFirstOf(s[1..], k);
    }
  }

  /** poplast(k): getall(k) loses its last value; every other key's values are
      unchanged. */
  lemma {:induction false} RemoveLastOfValues<K, V>(s: seq<(K, V)>, k: K, k': K)
    requires k in Keys(s)
    ensures ValuesFor(s, k) != []
    ensures ValuesFor(RemoveLastOf(s, k), k') ==
      if k' == k then ValuesFor(s, k)[..|ValuesFor(s, k)| - 1] else ValuesFor(s, k')
  {
    var n := |s| - 1;
    var f, e := s[..n], s[n];
    assert s == f + [e];
    ValuesForConcat(f, [e], k);
    ValuesForConcat(f, [e], k');
    ValuesForNonEmpty(s, k);
    if e.0 != k {
      assert Keys(s) == Keys(f) + [e.0];
      RemoveLastOfValues(f, k, k');
      ValuesForConcat(RemoveLastOf(f, k), [e], k');
    }
  }

  // ---------------------------------------------------------------------------
  // Lemmas about deleting every pair of some keys

  lemma {:induction false} WithoutKeysValues<K, V>(s: seq<(K, V)>, ks: set<K>, k: K)
    ensures ValuesFor(WithoutKeys(s, ks), k) == if k in ks then [] else ValuesFor(s, k)
  {
    if s != [] {
      WithoutKeysValues(s[1..], ks, k);
      ValuesForConcat(if s[0].0 in ks then [] else [s[0]], WithoutKeys(s[1..], ks), k);
    }
  }

  /** setall(key, values): the key gets exactly `values`; every other key keeps
      its values. */
  lemma ReplaceKeyValues<K, V>(s: seq<(K, V)>, key: K, values: seq<V>, k: K)
    ensures ValuesFor(WithoutKeys(s, {key}) + WithKey(key, values), k) ==
      if k == key then values else ValuesFor(s, k)
  {
    ValuesForConcat(WithoutKeys(s, {key}), WithKey(key, values), k);
    WithoutKeysValues(s, {key}, k);
    ValuesForWithKey(key, values, k);
  }

  /** update(src): keys of `src` get exactly the values `src` gives them; every
      other key keeps its values. */
  lemma UpdateValues<K, V>(s: seq<(K, V)>, src: seq<(K, V)>, k: K)
    ensures ValuesFor(WithoutKeys(s, KeySet(src)) + src, k) ==
      if k in Keys(src) then ValuesFor(src, k) else ValuesFor(s, k)
  {
    ValuesForConcat(WithoutKeys(s, KeySet(src)), src, k);
    WithoutKeysValues(s, KeySet(src), k);
    ValuesForNonEmpty(src, k);
  }

  // ---------------------------------------------------------------------------
  // Lemmas about the unique-keys view

  /** The unique-keys view lists keys in the order of their first appearance
      in the keys view. */
  lemma {:induction false} DedupFirstAppearance<K>(ks: seq<K>)
    ensures forall i, j :: 0 <= i < j < |Dedup(ks)| ==>
      FirstIndex(ks, Dedup(ks)[i]) < FirstIndex(ks, Dedup(ks)[j])
  {
    if ks != [] {
      var n := |ks| - 1;
      var f := ks[..n];
      var d := Dedup(f);
      DedupFirstAppearance(f);
      assert ks == f + [ks[n]];
      forall y | y in f
        ensures FirstIndex(ks, y) == FirstIndex(f, y)
      {
        FirstIndexPrefix(f, ks[n], y);
      }
      if ks[n] !in d {
        forall i | 0 <= i < n
          ensures ks[i] != ks[n]
        {
          assert f[i] in d;
        }
        FirstIndexIs(ks, ks[n], n);
      }
    }
  }

  /** `reversed(dict.fromkeys(ks))`: the unique keys ordered from the latest
      first appearance back to the earliest. */
  lemma ReversedDedupOrder<K>(ks: seq<K>)
    ensures forall i, j :: 0 <= i < j < |Reverse(Dedup(ks))| ==>
      FirstIndex(ks, Reverse(Dedup(ks))[j]) < FirstIndex(ks, Reverse(Dedup(ks))[i])
  {
    var d := Dedup(ks);
    DedupFirstAppearance(ks);
    forall i, j | 0 <= i < j < |Reverse(d)|
      ensures FirstIndex(ks, Reverse(d)[j]) < FirstIndex(ks, Reverse(d)[i])
    {
      ReverseOrderAt(ks, d, i, j);
    }
  }

  /** One pair of positions of `ReversedDedupOrder`. */
  lemma ReverseOrderAt<K>(ks: seq<K>, d: seq<K>, i: nat, j: nat)
    requires i < j < |d|
    requires forall x :: 0 <= x < |d| ==> d[x] in ks
    requires FirstIndex(ks, d[|d| - 1 - j]) < FirstIndex(ks, d[|d| - 1 - i])
    ensures FirstIndex(ks, Reverse(d)[j]) < FirstIndex(ks, Reverse(d)[i])
  {
  }

  /** Reversed first-appearance order is not last-appearance order: for the
      keys [1, 2, 1] the reversed unique keys are [2, 1], while deduplicating
      the reversed keys gives [1, 2]. */
  lemma ReversedUniqueKeysExample()
    ensures Reverse(Dedup([1, 2, 1])) == [2, 1]
    ensures Dedup(Reverse([1, 2, 1])) == [1, 2]
  {
    var d := DedupOfOneTwoOne();
    var r := Reverse([1, 2, 1]);
    assert r == [1, 2, 1] by {
      assert |r| == 3 && r[0] == 1 && r[1] == 2 && r[2] == 1;
    }
    var rd := Reverse(d);
    assert rd == [2, 1] by {
      assert |rd| == 2 && rd[0] == 2 && rd[1] == 1;
    }
  }

  /** `dict.fromkeys([1, 2, 1])` is `[1, 2]`. */
  lemma DedupOfOneTwoOne() returns (d: seq<int>)
    ensures d == Dedup([1, 2, 1]) == [1, 2]
  {
    var a, b, c := [1], [1, 2], [1, 2, 1];
    assert a[..0] == [];
    assert Dedup(a) == [1];
    assert b[..1] == a;
    assert Dedup(b) == [1, 2];
    assert c[..2] == b;
    d := Dedup(c);
  }

  lemma {:induction false} FirstIndexIs<K>(ks: seq<K>, x: K, p: nat)
    requires p < |ks| && ks[p] == x
    requires forall i :: 0 <= i < p ==> ks[i] != x
    ensures FirstIndex(ks, x) == p
  {
    if p > 0 {
      FirstIndexIs(ks[1..], x, p - 1);
    }
  }

  lemma FirstIndexPrefix<K>(f: seq<K>, x: K, y: K)
    requires y in f
    ensures y in f + [x] && FirstIndex(f + [x], y) == FirstIndex(f, y)
  {
    var q := FirstIndex(f, y);
    forall i | 0 <= i < q
      ensures (f + [x])[i] != y
    {
      assert f[..q][i] == f[i];
    }
    FirstIndexIs(f + [x], y, q);
  }

  /** A sequence without duplicates has as many distinct elements as entries. */
  lemma {:induction false} DistinctCardinality<K>(r: seq<K>)
    requires forall i, j :: 0 <= i < j < |r| ==> r[i] != r[j]
    ensures |set x | x in r| == |r|
  {
    if r != [] {
      var t := r[1..];
      DistinctCardinality(t);
      assert (set x | x in r) == (set x | x in t) + {r[0]};
      forall j | 0 <= j < |t|
        ensures t[j] != r[0]
      {
        assert t[j] == r[j + 1];
      }
    }
  }

  /** Growing a prefix by one entry adds that entry to its elements. */
  lemma ElementsSnoc<T>(s: seq<T>, j: nat)
    requires j < |s|
    ensures Elements(s[..j + 1]) == Elements(s[..j]) + {s[j]}
  {
    assert s[..j + 1] == s[..j] + [s[j]];
  }

  /** The unique-keys view mentions exactly the keys present. */
  lemma UniqueKeysElements<K, V>(s: seq<(K, V)>)
    ensures Elements(UniqueKeys(s)) == KeySet(s)
  {
  }

  /** The unique-keys view has one entry per distinct key. */
  lemma UniqueKeysCount<K, V>(s: seq<(K, V)>)
    ensures |UniqueKeys(s)| == |KeySet(s)|
  {
    var d := UniqueKeys(s);
    DistinctCardinality(d);
    assert (set x | x in d) == KeySet(s);
  }
}
