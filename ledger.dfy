/** The two internal indexes of the container and how they must agree.

    The ledger (`_items`) maps a fresh integer index to a (key, value) pair and
    iterates in insertion order; since indices are handed out by a counter that
    only grows, it is a sequence of entries with strictly increasing indices.
    The bucket table (`_map`) maps each key to its sequence of (index, value)
    slots. `Restrict(L, k)` is the bucket that the ledger `L` implies for `k`:
    the ledger order restricted to that key. */
module Ledger {
  import opened Pairs

  /** `_items[index] == (key, value)` */
  datatype Entry<K, V> = Entry(index: nat, key: K, value: V)

  /** One element `(index, value)` of a bucket. */
  datatype Slot<V> = Slot(index: nat, value: V)

  /** Ledger order is ascending index order. */
  ghost predicate Increasing<K, V>(L: seq<Entry<K, V>>) {
    forall i, j :: 0 <= i < j < |L| ==> IndexAt(L, i) < IndexAt(L, j)
  }

  /** The index of the entry at position `i` of the ledger. */
  function IndexAt<K, V>(L: seq<Entry<K, V>>, i: nat): nat
    requires i < |L|
  {
    L[i].index
  }

  /** An increasing ledger stays increasing without its head, and the head's
      index is below every other. */
  lemma IncreasingTail<K, V>(L: seq<Entry<K, V>>)
    requires Increasing(L) && L != []
    ensures Increasing(L[1..])
    ensures forall e | e in L[1..] :: L[0].index < e.index
  {
    var R := L[1..];
    forall i, j | 0 <= i < j < |R|
      ensures IndexAt(R, i) < IndexAt(R, j)
    {
      assert IndexAt(L, i + 1) < IndexAt(L, j + 1);
    }
    forall e | e in R
      ensures L[0].index < e.index
    {
      var j :| 0 <= j < |R| && R[j] == e;
      assert IndexAt(L, 0) < IndexAt(L, j + 1);
    }
  }

  /** Any prefix of an increasing ledger is increasing. */
  lemma IncreasingPrefix<K, V>(L: seq<Entry<K, V>>, m: nat)
    requires Increasing(L) && m <= |L|
    ensures Increasing(L[..m])
  {
    var F := L[..m];
    forall i, j | 0 <= i < j < |F|
      ensures IndexAt(F, i) < IndexAt(F, j)
    {
      assert IndexAt(L, i) < IndexAt(L, j);
    }
  }

  /** An entry below every index of an increasing ledger may head it. */
  lemma IncreasingCons<K, V>(e: Entry<K, V>, R: seq<Entry<K, V>>)
    requires Increasing(R)
    requires forall x | x in R :: e.index < x.index
    ensures Increasing([e] + R)
  {
    var L := [e] + R;
    forall i, j | 0 <= i < j < |L|
      ensures IndexAt(L, i) < IndexAt(L, j)
    {
      assert L[j] == R[j - 1];
      if i > 0 {
        assert L[i] == R[i - 1];
        assert IndexAt(R, i - 1) < IndexAt(R, j - 1);
      } else {
        assert R[j - 1] in R;
      }
    }
  }

  /** Every index in use is below the counter. */
  ghost predicate Below<K, V>(L: seq<Entry<K, V>>, n: nat) {
    forall i :: 0 <= i < |L| ==> L[i].index < n
  }

  /** The items view: the ledger's pairs in ledger order. */
  function PairsOf<K, V>(L: seq<Entry<K, V>>): seq<(K, V)> {
    seq(|L|, i requires 0 <= i < |L| => (L[i].key, L[i].value))
  }

  /** The bucket the ledger implies for `k`. */
  function Restrict<K(==), V>(L: seq<Entry<K, V>>, k: K): seq<Slot<V>> {
    if L == [] then []
    else (if L[0].key == k then [Slot(L[0].index, L[0].value)] else []) + Restrict(L[1..], k)
  }

  /** `[v[1] for v in bucket]` */
  function SlotValues<V>(b: seq<Slot<V>>): seq<V> {
    seq(|b|, i requires 0 <= i < |b| => b[i].value)
  }

  /** The indices a bucket refers to. */
  function IndicesOf<V>(b: seq<Slot<V>>): set<nat> {
    if b == [] then {} else {b[0].index} + IndicesOf(b[1..])
  }

  /** The ledger after `del _items[i]` for every `i` in `S`. */
  function DropIndices<K, V>(L: seq<Entry<K, V>>, S: set<nat>): seq<Entry<K, V>> {
    if L == [] then []
    else (if L[0].index in S then [] else [L[0]]) + DropIndices(L[1..], S)
  }

  /** The ledger without the entries whose key is in `ks`. */
  function DropKeys<K(==), V>(L: seq<Entry<K, V>>, ks: set<K>): seq<Entry<K, V>> {
    if L == [] then []
    else (if L[0].key in ks then [] else [L[0]]) + DropKeys(L[1..], ks)
  }

  /** `enumerate(src, start)` turned into ledger entries. */
  function Enumerate<K, V>(src: seq<(K, V)>, start: nat): seq<Entry<K, V>> {
    seq(|src|, i requires 0 <= i < |src| => Entry(start + i, src[i].0, src[i].1))
  }

  /** `enumerate(values, start)` turned into bucket slots. */
  function Numbered<V>(vs: seq<V>, start: nat): seq<Slot<V>> {
    seq(|vs|, i requires 0 <= i < |vs| => Slot(start + i, vs[i]))
  }

  /** The bucket of `k`, or a fresh empty one: `defaultdict` lookup. */
  function BucketOf<K, V>(B: map<K, seq<Slot<V>>>, k: K): seq<Slot<V>> {
    if k in B then B[k] else []
  }

  /** No bucket is empty, each bucket is the ledger restricted to its key, and
      every ledger entry's key has a bucket. */
  ghost predicate Consistent<K, V>(L: seq<Entry<K, V>>, B: map<K, seq<Slot<V>>>) {
    && (forall k | k in B :: B[k] != [] && B[k] == Restrict(L, k))
    && (forall i | 0 <= i < |L| :: L[i].key in B)
  }

  /** The ledger fixes the buckets: two bucket maps consistent with the same
      ledger are the same map. */
  lemma BucketsDetermined<K, V>(L: seq<Entry<K, V>>, B1: map<K, seq<Slot<V>>>, B2: map<K, seq<Slot<V>>>)
    requires Consistent(L, B1) && Consistent(L, B2)
    ensures B1 == B2
  {
    forall k | k in B1
      ensures k in B2
    {
      RestrictNonEmpty(L, k);
      var i :| 0 <= i < |Keys(PairsOf(L))| && Keys(PairsOf(L))[i] == k;
      assert L[i].key == k;
    }
    forall k | k in B2
      ensures k in B1
    {
      RestrictNonEmpty(L, k);
      var i :| 0 <= i < |Keys(PairsOf(L))| && Keys(PairsOf(L))[i] == k;
      assert L[i].key == k;
    }
  }

  /** Sum of the lengths of the buckets of `ks`. */
  function BucketTotal<K, V>(B: map<K, seq<Slot<V>>>, ks: seq<K>): nat {
    if ks == [] then 0 else |BucketOf(B, ks[0])| + BucketTotal(B, ks[1..])
  }

  // ---------------------------------------------------------------------------
  // Consistency, and what it says about every key

  /** Every bucket, present or not, is the ledger restricted to its key. */
  lemma BucketsMatch<K, V>(L: seq<Entry<K, V>>, B: map<K, seq<Slot<V>>>)
    requires Consistent(L, B)
    ensures forall k :: BucketOf(B, k) == Restrict(L, k)
  {
    forall k
      ensures BucketOf(B, k) == Restrict(L, k)
    {
      if k !in B {
        RestrictNonEmpty(L, k);
        assert forall i | 0 <= i < |L| :: Keys(PairsOf(L))[i] == L[i].key && L[i].key in B;
      }
    }
  }

  /** Under consistency every key's bucket (absent meaning empty) is the ledger
      restricted to that key; in particular a key has a bucket exactly when it
      occurs in the ledger. */
  lemma ConsistentBuckets<K, V>(L: seq<Entry<K, V>>, B: map<K, seq<Slot<V>>>)
    requires Consistent(L, B)
    ensures forall k :: BucketOf(B, k) == Restrict(L, k)
    ensures forall k :: k in B <==> k in Keys(PairsOf(L))
  {
    BucketsMatch(L, B);
    forall k
      ensures k in B <==> k in Keys(PairsOf(L))
    {
      RestrictNonEmpty(L, k);
      assert forall i | 0 <= i < |L| :: Keys(PairsOf(L))[i] == L[i].key && L[i].key in B;
    }
  }

  lemma ConsistentIntro<K, V>(L: seq<Entry<K, V>>, B: map<K, seq<Slot<V>>>)
    requires forall k :: BucketOf(B, k) == Restrict(L, k)
    requires forall k | k in B :: B[k] != []
    ensures Consistent(L, B)
  {
    forall i | 0 <= i < |L|
      ensures L[i].key in B
    {
      RestrictNonEmpty(L, L[i].key);
      assert Keys(PairsOf(L))[i] == L[i].key;
    }
  }

  /** Giving key `k` the bucket `rest` (dropping the bucket when `rest` is
      empty) keeps the buckets consistent with a ledger in which only key
      `k`'s entries changed, to `rest`. */
  lemma ConsistentReplace<K, V>(L: seq<Entry<K, V>>, B: map<K, seq<Slot<V>>>, k: K, rest: seq<Slot<V>>,
                                L': seq<Entry<K, V>>, B': map<K, seq<Slot<V>>>)
    requires Consistent(L, B)
    requires forall k' :: Restrict(L', k') == if k' == k then rest else Restrict(L, k')
    requires B' == if rest == [] then B - {k} else B[k := rest]
    ensures Consistent(L', B')
  {
    BucketsMatch(L, B);
    forall k'
      ensures BucketOf(B', k') == Restrict(L', k')
    {
      if k' != k {
        assert BucketOf(B, k') == Restrict(L, k');
      }
    }
    ConsistentIntro(L', B');
  }

  /** What a lookup in a consistent bucket map yields: a key has a bucket
      exactly when getall of it is non-empty, and the bucket's values are
      getall of it. */
  lemma BucketValues<K, V>(L: seq<Entry<K, V>>, B: map<K, seq<Slot<V>>>, k: K)
    requires Consistent(L, B)
    ensures k in B <==> ValuesFor(PairsOf(L), k) != []
    ensures k in B ==> |B[k]| == |ValuesFor(PairsOf(L), k)|
    ensures k in B ==> SlotValues(B[k]) == ValuesFor(PairsOf(L), k)
    ensures k in B ==> B[k][0].value == ValuesFor(PairsOf(L), k)[0]
    ensures k in B ==> B[k][|B[k]| - 1].value == ValuesFor(PairsOf(L), k)[|B[k]| - 1]
  {
    ConsistentBuckets(L, B);
    assert BucketOf(B, k) == Restrict(L, k);
    RestrictValues(L, k);
    if k in B {
      assert SlotValues(B[k])[0] == B[k][0].value;
      assert SlotValues(B[k])[|B[k]| - 1] == B[k][|B[k]| - 1].value;
    }
  }

  /** Appending entries to a consistent ledger, with each key's bucket grown by
      exactly the new entries of that key, keeps the two consistent. */
  lemma ExtendConsistent<K, V>(L: seq<Entry<K, V>>, B: map<K, seq<Slot<V>>>,
                               extra: seq<Entry<K, V>>, B': map<K, seq<Slot<V>>>)
    requires Consistent(L, B)
    requires forall k :: BucketOf(B', k) == BucketOf(B, k) + Restrict(extra, k)
    requires forall k | k in B' :: B'[k] != []
    ensures Consistent(L + extra, B')
  {
    ConsistentBuckets(L, B);
    forall k
      ensures BucketOf(B', k) == Restrict(L + extra, k)
    {
      RestrictConcat(L, extra, k);
    }
    ConsistentIntro(L + extra, B');
  }

  // ---------------------------------------------------------------------------
  // Restrict and the abstract contents

  lemma {:induction false} RestrictConcat<K, V>(a: seq<Entry<K, V>>, b: seq<Entry<K, V>>, k: K)
    ensures Restrict(a + b, k) == Restrict(a, k) + Restrict(b, k)
  {
    if a == [] {
      assert a + b == b;
    } else {
      var e := a[0];
      var h := if e.key == k then [Slot(e.index, e.value)] else [];
      assert (a + b)[0] == e;
      assert (a + b)[1..] == a[1..] + b;
      RestrictConcat(a[1..], b, k);
      calc {
        Restrict(a + b, k);
        h + Restrict(a[1..] + b, k);
        h + (Restrict(a[1..], k) + Restrict(b, k));
        (h + Restrict(a[1..], k)) + Restrict(b, k);
      }
    }
  }

  lemma RestrictAppend<K, V>(L: seq<Entry<K, V>>, e: Entry<K, V>, k: K)
    ensures Restrict(L + [e], k) ==
      Restrict(L, k) + (if e.key == k then [Slot(e.index, e.value)] else [])
  {
    RestrictConcat(L, [e], k);
    assert [e][1..] == [];
  }

  /** A bucket's values are getall of its key, oldest first. */
  lemma {:induction false} RestrictValues<K, V>(L: seq<Entry<K, V>>, k: K)
    ensures |Restrict(L, k)| == |ValuesFor(PairsOf(L), k)|
    ensures SlotValues(Restrict(L, k)) == ValuesFor(PairsOf(L), k)
  {
    if L != [] {
      var e := L[0];
      var hs := if e.key == k then [Slot(e.index, e.value)] else [];
      var hv := if e.key == k then [e.value] else [];
      RestrictValues(L[1..], k);
      assert PairsOf(L)[0] == (e.key, e.value);
      assert PairsOf(L)[1..] == PairsOf(L[1..]);
      assert ValuesFor(PairsOf(L), k) == hv + ValuesFor(PairsOf(L[1..]), k);
      SlotValuesConcat(hs, Restrict(L[1..], k));
    }
  }

  lemma SlotValuesConcat<V>(a: seq<Slot<V>>, b: seq<Slot<V>>)
    ensures SlotValues(a + b) == SlotValues(a) + SlotValues(b)
  {
  }

  /** A key has a non-empty implied bucket exactly when it is in the keys
      view. */
  lemma RestrictNonEmpty<K, V>(L: seq<Entry<K, V>>, k: K)
    ensures Restrict(L, k) != [] <==> k in Keys(PairsOf(L))
  {
    RestrictValues(L, k);
    ValuesForNonEmpty(PairsOf(L), k);
  }

  lemma PairsOfConcat<K, V>(a: seq<Entry<K, V>>, b: seq<Entry<K, V>>)
    ensures PairsOf(a + b) == PairsOf(a) + PairsOf(b)
  {
  }

  /** The items view of a ledger without its first entry. */
  lemma PairsOfDrop<K, V>(L: seq<Entry<K, V>>, m: nat)
    requires m <= |L|
    ensures PairsOf(L[m..]) == PairsOf(L)[m..]
  {
  }

  /** The items view of a prefix of the ledger. */
  lemma PairsOfTake<K, V>(L: seq<Entry<K, V>>, m: nat)
    requires m <= |L|
    ensures PairsOf(L[..m]) == PairsOf(L)[..m]
  {
  }

  /** Every index a bucket refers to is that of a ledger entry. */
  lemma {:induction false} RestrictIndicesAbove<K, V>(L: seq<Entry<K, V>>, k: K, m: int)
    requires forall i :: 0 <= i < |L| ==> L[i].index > m
    ensures forall j :: 0 <= j < |Restrict(L, k)| ==> Restrict(L, k)[j].index > m
  {
    if L != [] {
      RestrictIndicesAbove(L[1..], k, m);
    }
  }

  // ---------------------------------------------------------------------------
  // The invariants of the two indexes, stated as the source states them

  /** Every ledger entry `i |-> (k, v)` has exactly one slot `(i, v)` in bucket
      `k`. */
  lemma {:induction false} EntryInBucketOnce<K, V>(L: seq<Entry<K, V>>, i: nat)
    requires Increasing(L) && i < |L|
    ensures multiset(Restrict(L, L[i].key))[Slot(L[i].index, L[i].value)] == 1
  {
    var e, R := L[0], L[1..];
    var k := L[i].key;
    var s := Slot(L[i].index, L[i].value);
    var h := if e.key == k then [Slot(e.index, e.value)] else [];
    assert Restrict(L, k) == h + Restrict(R, k);
    assert multiset(Restrict(L, k)) == multiset(h) + multiset(Restrict(R, k));
    IncreasingTail(L);
    if i == 0 {
      forall j | 0 <= j < |R|
        ensures R[j].index > e.index
      {
        assert R[j] in R;
      }
      RestrictIndicesAbove(R, k, e.index);
      assert s !in Restrict(R, k);
      assert h == [s];
    } else {
      assert R[i - 1] == L[i];
      EntryInBucketOnce(R, i - 1);
      assert L[i] in R;
      assert Slot(e.index, e.value) != s;
      assert s !in multiset(h);
    }
  }

  /** Every slot `(i, v)` in bucket `k` is the ledger entry `i |-> (k, v)`. */
  lemma {:induction false} SlotInLedger<K, V>(L: seq<Entry<K, V>>, k: K, j: nat)
    requires j < |Restrict(L, k)|
    ensures exists i :: 0 <= i < |L| && L[i] == Entry(Restrict(L, k)[j].index, k, Restrict(L, k)[j].value)
  {
    var R := L[1..];
    if L[0].key == k && j == 0 {
      assert L[0] == Entry(Restrict(L, k)[j].index, k, Restrict(L, k)[j].value);
    } else {
      var j' := if L[0].key == k then j - 1 else j;
      SlotInLedger(R, k, j');
      assert Restrict(L, k)[j] == Restrict(R, k)[j'];
      var i :| 0 <= i < |R| && R[i] == Entry(Restrict(R, k)[j'].index, k, Restrict(R, k)[j'].value);
      assert L[i + 1] == R[i];
    }
  }

  lemma {:induction false} CountDistinct<K>(ks: seq<K>, x: K)
    requires forall i, j :: 0 <= i < j < |ks| ==> ks[i] != ks[j]
    ensures multiset(ks)[x] == if x in ks then 1 else 0
  {
    if ks != [] {
      CountDistinct(ks[1..], x);
      assert ks == [ks[0]] + ks[1..];
      forall j | 0 <= j < |ks| - 1
        ensures ks[1..][j] != ks[0]
      {
        assert ks[1..][j] == ks[j + 1];
      }
    }
  }

  function RestrictTotal<K(==), V>(L: seq<Entry<K, V>>, ks: seq<K>): nat {
    if ks == [] then 0 else |Restrict(L, ks[0])| + RestrictTotal(L, ks[1..])
  }

  lemma {:induction false} RestrictTotalCons<K, V>(L: seq<Entry<K, V>>, ks: seq<K>)
    requires L != []
    ensures RestrictTotal(L, ks) == RestrictTotal(L[1..], ks) + multiset(ks)[L[0].key]
  {
    if ks != [] {
      RestrictTotalCons(L, ks[1..]);
      assert ks == [ks[0]] + ks[1..];
    }
  }

  /** Summing the implied buckets over distinct keys covering the ledger counts
      every entry once. */
  lemma {:induction false} RestrictTotalIsLength<K, V>(L: seq<Entry<K, V>>, ks: seq<K>)
    requires forall i, j :: 0 <= i < j < |ks| ==> ks[i] != ks[j]
    requires forall i :: 0 <= i < |L| ==> L[i].key in ks
    ensures RestrictTotal(L, ks) == |L|
  {
    if L == [] {
      RestrictTotalEmpty(L, ks);
    } else {
      RestrictTotalCons(L, ks);
      CountDistinct(ks, L[0].key);
      RestrictTotalIsLength(L[1..], ks);
    }
  }

  lemma {:induction false} RestrictTotalEmpty<K, V>(L: seq<Entry<K, V>>, ks: seq<K>)
    requires L == []
    ensures RestrictTotal(L, ks) == 0
  {
    if ks != [] {
      RestrictTotalEmpty(L, ks[1..]);
    }
  }

  lemma {:induction false} BucketTotalIsRestrictTotal<K, V>(L: seq<Entry<K, V>>, B: map<K, seq<Slot<V>>>, ks: seq<K>)
    requires Consistent(L, B)
    ensures BucketTotal(B, ks) == RestrictTotal(L, ks)
  {
    if ks != [] {
      BucketTotalIsRestrictTotal(L, B, ks[1..]);
      ConsistentBuckets(L, B);
    }
  }

  /** The ledger size is the sum of the bucket lengths, summed over the
      unique-keys view. */
  lemma LedgerSizeIsBucketTotal<K, V>(L: seq<Entry<K, V>>, B: map<K, seq<Slot<V>>>)
    requires Consistent(L, B)
    ensures |L| == BucketTotal(B, UniqueKeys(PairsOf(L)))
  {
    var ks := UniqueKeys(PairsOf(L));
    forall i | 0 <= i < |L|
      ensures L[i].key in ks
    {
      assert Keys(PairsOf(L))[i] == L[i].key;
    }
    RestrictTotalIsLength(L, ks);
    BucketTotalIsRestrictTotal(L, B, ks);
  }

  /** The buckets are exactly the keys of the keys view. */
  lemma BucketKeysAreKeySet<K, V>(L: seq<Entry<K, V>>, B: map<K, seq<Slot<V>>>)
    requires Consistent(L, B)
    ensures B.Keys == KeySet(PairsOf(L))
  {
    forall k
      ensures k in B <==> k in KeySet(PairsOf(L))
    {
      RestrictNonEmpty(L, k);
    }
  }

  // ---------------------------------------------------------------------------
  // Deleting ledger entries

  lemma {:induction false} DropIndicesSubseq<K, V>(L: seq<Entry<K, V>>, S: set<nat>)
    ensures forall x :: x in DropIndices(L, S) ==> x in L
    ensures Increasing(L) ==> Increasing(DropIndices(L, S))
  {
    if L != [] {
      DropIndicesSubseq(L[1..], S);
      var D := DropIndices(L[1..], S);
      if Increasing(L) {
        IncreasingTail(L);
        if L[0].index !in S {
          IncreasingCons(L[0], D);
          assert DropIndices(L, S) == [L[0]] + D;
        } else {
          assert DropIndices(L, S) == D;
        }
      }
    }
  }

  lemma BelowSubseq<K, V>(L: seq<Entry<K, V>>, S: set<nat>, n: nat)
    requires Below(L, n)
    ensures Below(DropIndices(L, S), n)
  {
    DropIndicesSubseq(L, S);
    var D := DropIndices(L, S);
    forall j | 0 <= j < |D|
      ensures D[j].index < n
    {
      assert D[j] in L;
    }
  }

  lemma {:induction false} DropIndicesStep<K, V>(L: seq<Entry<K, V>>, S: set<nat>, i: nat)
    ensures DropIndices(DropIndices(L, S), {i}) == DropIndices(L, S + {i})
  {
    if L != [] {
      DropIndicesStep(L[1..], S, i);
      var D := DropIndices(L[1..], S);
      if L[0].index !in S {
        assert ([L[0]] + D)[1..] == D;
      } else {
        assert [] + D == D;
      }
    }
  }

  lemma {:induction false} DropIndicesNone<K, V>(L: seq<Entry<K, V>>, S: set<nat>)
    requires forall i :: 0 <= i < |L| ==> L[i].index !in S
    ensures DropIndices(L, S) == L
  {
    if L != [] {
      DropIndicesNone(L[1..], S);
    }
  }

  lemma {:induction false} DropIndicesEmpty<K, V>(L: seq<Entry<K, V>>)
    ensures DropIndices(L, {}) == L
  {
    if L != [] {
      DropIndicesEmpty(L[1..]);
    }
  }

  /** In an increasing ledger, an entry's index is among those of bucket `k`
      exactly when the entry's key is `k`. */
  lemma {:induction false} IndicesOfRestrict<K, V>(L: seq<Entry<K, V>>, k: K)
    requires Increasing(L)
    ensures forall i :: 0 <= i < |L| ==> (L[i].index in IndicesOf(Restrict(L, k)) <==> L[i].key == k)
  {
    if L != [] {
      var e, R := L[0], L[1..];
      IncreasingTail(L);
      IndicesOfRestrict(R, k);
      RestrictIndicesAbove(R, k, e.index);
      var head := if e.key == k then [Slot(e.index, e.value)] else [];
      IndicesOfConcat(head, Restrict(R, k));
      IndicesOfAbove(Restrict(R, k), e.index);
      forall i | 0 <= i < |L|
        ensures L[i].index in IndicesOf(Restrict(L, k)) <==> L[i].key == k
      {
        if i > 0 {
          assert L[i] == R[i - 1];
          assert L[i].index != e.index;
        }
      }
    }
  }

  lemma {:induction false} IndicesOfConcat<V>(a: seq<Slot<V>>, b: seq<Slot<V>>)
    ensures IndicesOf(a + b) == IndicesOf(a) + IndicesOf(b)
  {
    if a == [] {
      assert a + b == b;
    } else {
      assert (a + b)[1..] == a[1..] + b;
      IndicesOfConcat(a[1..], b);
    }
  }

  lemma {:induction false} IndicesOfAbove<V>(b: seq<Slot<V>>, m: int)
    requires forall j :: 0 <= j < |b| ==> b[j].index > m
    ensures m !in IndicesOf(b)
  {
    if b != [] {
      IndicesOfAbove(b[1..], m);
    }
  }

  /** Deleting, one index at a time, exactly the ledger entries whose key is `k`
      leaves the ledger without key `k`. */
  lemma {:induction false} DropKey<K, V>(L: seq<Entry<K, V>>, k: K, S: set<nat>)
    requires forall i :: 0 <= i < |L| ==> (L[i].index in S <==> L[i].key == k)
    ensures DropIndices(L, S) == DropKeys(L, {k})
  {
    if L != [] {
      DropKey(L[1..], k, S);
    }
  }

  lemma {:induction false} DropKeysPairs<K, V>(L: seq<Entry<K, V>>, ks: set<K>)
    ensures PairsOf(DropKeys(L, ks)) == WithoutKeys(PairsOf(L), ks)
  {
    if L != [] {
      DropKeysPairs(L[1..], ks);
      var head := if L[0].key in ks then [] else [L[0]];
      PairsOfConcat(head, DropKeys(L[1..], ks));
      assert PairsOf(L)[1..] == PairsOf(L[1..]);
    }
  }

  /** Without the keys of `ks`, their implied buckets are empty and every other
      bucket is unchanged. */
  lemma {:induction false} DropKeysRestrict<K, V>(L: seq<Entry<K, V>>, ks: set<K>, k: K)
    ensures Restrict(DropKeys(L, ks), k) == if k in ks then [] else Restrict(L, k)
  {
    if L != [] {
      DropKeysRestrict(L[1..], ks, k);
      var head := if L[0].key in ks then [] else [L[0]];
      RestrictConcat(head, DropKeys(L[1..], ks), k);
    }
  }

  lemma {:induction false} DropKeysTwice<K, V>(L: seq<Entry<K, V>>, ks: set<K>, more: set<K>)
    ensures DropKeys(DropKeys(L, ks), more) == DropKeys(L, ks + more)
  {
    if L != [] {
      DropKeysTwice(L[1..], ks, more);
      var D := DropKeys(L[1..], ks);
      if L[0].key !in ks {
        assert ([L[0]] + D)[1..] == D;
      } else {
        assert [] + D == D;
      }
    }
  }

  lemma {:induction false} DropKeysEmpty<K, V>(L: seq<Entry<K, V>>)
    ensures DropKeys(L, {}) == L
  {
    if L != [] {
      DropKeysEmpty(L[1..]);
    }
  }

  lemma {:induction false} DropKeysSubseq<K, V>(L: seq<Entry<K, V>>, ks: set<K>, n: nat)
    requires Increasing(L) && Below(L, n)
    ensures Increasing(DropKeys(L, ks)) && Below(DropKeys(L, ks), n)
    ensures forall x :: x in DropKeys(L, ks) ==> x in L
  {
    if L != [] {
      var R := L[1..];
      IncreasingTail(L);
      DropKeysSubseq(R, ks, n);
      if L[0].key !in ks {
        IncreasingCons(L[0], DropKeys(R, ks));
        assert DropKeys(L, ks) == [L[0]] + DropKeys(R, ks);
      } else {
        assert DropKeys(L, ks) == DropKeys(R, ks);
      }
    }
  }

  // ---------------------------------------------------------------------------
  // Removing one entry from either end of a key's bucket

  /** The position of the earliest entry of key `k`: the head of its bucket. */
  lemma {:induction false} FirstOfKey<K, V>(L: seq<Entry<K, V>>, k: K) returns (p: nat)
    requires Restrict(L, k) != []
    ensures p < |L| && L[p].key == k
    ensures forall q :: 0 <= q < p ==> L[q].key != k
    ensures Restrict(L, k)[0] == Slot(L[p].index, L[p].value)
  {
    if L[0].key == k {
      p := 0;
    } else {
      var q := FirstOfKey(L[1..], k);
      p := q + 1;
    }
  }

  /** The position of the latest entry of key `k`: the tail of its bucket. */
  lemma {:induction false} LastOfKey<K, V>(L: seq<Entry<K, V>>, k: K) returns (p: nat)
    requires Restrict(L, k) != []
    ensures p < |L| && L[p].key == k
    ensures forall q :: p < q < |L| ==> L[q].key != k
    ensures Restrict(L, k)[|Restrict(L, k)| - 1] == Slot(L[p].index, L[p].value)
  {
    var n := |L| - 1;
    assert L == L[..n] + [L[n]];
    RestrictAppend(L[..n], L[n], k);
    if L[n].key == k {
      p := n;
    } else {
      p := LastOfKey(L[..n], k);
      assert L[..n][p] == L[p];
    }
  }

  lemma {:induction false} RestrictNone<K, V>(L: seq<Entry<K, V>>, k: K)
    requires forall q :: 0 <= q < |L| ==> L[q].key != k
    ensures Restrict(L, k) == []
  {
    if L != [] {
      RestrictNone(L[1..], k);
    }
  }

  /** Every bucket seen around position `p` of the ledger, with and without
      the entry at `p`. */
  lemma RestrictSplit<K, V>(L: seq<Entry<K, V>>, p: nat, k: K)
    requires p < |L|
    ensures Restrict(L, k) ==
            Restrict(L[..p], k) + (if L[p].key == k then [Slot(L[p].index, L[p].value)] else []) +
            Restrict(L[p + 1..], k)
    ensures Restrict(L[..p] + L[p + 1..], k) == Restrict(L[..p], k) + Restrict(L[p + 1..], k)
  {
    Around(L, p);
    RestrictAround(L[..p], L[p], L[p + 1..], k);
  }

  /** A sequence is what precedes position `p`, the element there, and what
      follows. */
  lemma Around<T>(L: seq<T>, p: nat)
    requires p < |L|
    ensures L == L[..p] + [L[p]] + L[p + 1..]
  {
    assert L[..p + 1] == L[..p] + [L[p]];
  }

  /** The buckets of a ledger with and without one entry `x` in the middle. */
  lemma RestrictAround<K, V>(A: seq<Entry<K, V>>, x: Entry<K, V>, Z: seq<Entry<K, V>>, k: K)
    ensures Restrict(A + [x] + Z, k) ==
            Restrict(A, k) + (if x.key == k then [Slot(x.index, x.value)] else []) + Restrict(Z, k)
    ensures Restrict(A + Z, k) == Restrict(A, k) + Restrict(Z, k)
  {
    RestrictConcat(A + [x], Z, k);
    RestrictAppend(A, x, k);
    RestrictConcat(A, Z, k);
  }

  /** Deleting a set of indices that holds the index of the entry at `p` and
      of no other entry deletes exactly that entry. */
  lemma {:induction false} DropOnly<K, V>(L: seq<Entry<K, V>>, p: nat, S: set<nat>)
    requires p < |L| && L[p].index in S
    requires forall i | 0 <= i < |L| && i != p :: L[i].index !in S
    ensures DropIndices(L, S) == L[..p] + L[p + 1..]
  {
    var R := L[1..];
    if p == 0 {
      forall i | 0 <= i < |R|
        ensures R[i].index !in S
      {
        assert R[i] == L[i + 1];
      }
      DropIndicesNone(R, S);
      assert L[..0] + L[1..] == R;
    } else {
      forall i | 0 <= i < |R| && i != p - 1
        ensures R[i].index !in S
      {
        assert R[i] == L[i + 1];
      }
      DropOnly(R, p - 1, S);
      assert DropIndices(L, S) == [L[0]] + DropIndices(R, S);
      assert L[..p] == [L[0]] + R[..p - 1];
      assert L[p + 1..] == R[p..];
    }
  }

  /** In an increasing ledger, deleting the index of the entry at `p` deletes
      exactly that entry. */
  lemma DropAt<K, V>(L: seq<Entry<K, V>>, p: nat)
    requires Increasing(L) && p < |L|
    ensures DropIndices(L, {L[p].index}) == L[..p] + L[p + 1..]
  {
    forall i | 0 <= i < |L| && i != p
      ensures L[i].index !in {L[p].index}
    {
      if i < p {
        assert IndexAt(L, i) < IndexAt(L, p);
      } else {
        assert IndexAt(L, p) < IndexAt(L, i);
      }
    }
    DropOnly(L, p, {L[p].index});
  }

  lemma PairsOfWithout<K, V>(L: seq<Entry<K, V>>, p: nat)
    requires p < |L|
    ensures PairsOf(L[..p] + L[p + 1..]) == PairsOf(L)[..p] + PairsOf(L)[p + 1..]
  {
  }

  /** Deleting an entry of another key leaves bucket `k` as it was. */
  lemma RestrictSkip<K, V>(L: seq<Entry<K, V>>, p: nat, k: K)
    requires p < |L| && L[p].key != k
    ensures Restrict(L[..p] + L[p + 1..], k) == Restrict(L, k)
  {
    RestrictSplit(L, p, k);
  }

  /** Every bucket once the earliest entry of key `k` (at `p`) is gone: the
      bucket of `k` loses its head, the others are as they were. */
  lemma RestrictWithoutFirst<K, V>(L: seq<Entry<K, V>>, p: nat, k: K, k': K)
    requires p < |L| && L[p].key == k
    requires forall q :: 0 <= q < p ==> L[q].key != k
    ensures Restrict(L, k) != []
    ensures Restrict(L[..p] + L[p + 1..], k') == if k' == k then Restrict(L, k)[1..] else Restrict(L, k')
  {
    RestrictSplit(L, p, k);
    var A, Z := L[..p], L[p + 1..];
    forall q | 0 <= q < |A|
      ensures A[q].key != k
    {
      assert A[q] == L[q];
    }
    RestrictNone(A, k);
    var b := Restrict(L, k);
    assert b == [Slot(L[p].index, L[p].value)] + Restrict(Z, k);
    if k' == k {
      assert Restrict(A + Z, k) == Restrict(Z, k);
      assert b[1..] == Restrict(Z, k);
    } else {
      RestrictSkip(L, p, k');
    }
  }

  /** Every bucket once the latest entry of key `k` (at `p`) is gone: the
      bucket of `k` loses its tail, the others are as they were. */
  lemma RestrictWithoutLast<K, V>(L: seq<Entry<K, V>>, p: nat, k: K, k': K)
    requires p < |L| && L[p].key == k
    requires forall q :: p < q < |L| ==> L[q].key != k
    ensures Restrict(L, k) != []
    ensures Restrict(L[..p] + L[p + 1..], k') ==
            if k' == k then Restrict(L, k)[..|Restrict(L, k)| - 1] else Restrict(L, k')
  {
    RestrictSplit(L, p, k);
    var A, Z := L[..p], L[p + 1..];
    forall q | 0 <= q < |Z|
      ensures Z[q].key != k
    {
      assert Z[q] == L[p + 1 + q];
    }
    RestrictNone(Z, k);
    var b := Restrict(L, k);
    assert b == Restrict(A, k) + [Slot(L[p].index, L[p].value)];
    if k' == k {
      assert Restrict(A + Z, k) == Restrict(A, k);
      assert b[..|b| - 1] == Restrict(A, k);
    } else {
      RestrictSkip(L, p, k');
    }
  }

  /** Deleting the entry at the head of bucket `k` from the ledger: which
      position it is, and what the ledger and every bucket become. */
  lemma DropFirstOfKey<K, V>(L: seq<Entry<K, V>>, k: K) returns (p: nat)
    requires Increasing(L) && Restrict(L, k) != []
    ensures p < |L| && L[p].key == k
    ensures Restrict(L, k)[0] == Slot(L[p].index, L[p].value)
    ensures DropIndices(L, {L[p].index}) == L[..p] + L[p + 1..]
    ensures PairsOf(DropIndices(L, {L[p].index})) == RemoveFirstOf(PairsOf(L), k)
    ensures forall k' :: Restrict(DropIndices(L, {L[p].index}), k') ==
                         (if k' == k then Restrict(L, k)[1..] else Restrict(L, k'))
  {
    p := FirstOfKey(L, k);
    DropAt(L, p);
    assert PairsOf(L[..p] + L[p + 1..]) == RemoveFirstOf(PairsOf(L), k) by {
      PairsOfWithout(L, p);
      RemoveFirstOfAt(PairsOf(L), k, p);
    }
    forall k'
      ensures Restrict(L[..p] + L[p + 1..], k') == if k' == k then Restrict(L, k)[1..] else Restrict(L, k')
    {
      RestrictWithoutFirst(L, p, k, k');
    }
  }

  /** Deleting the entry at the tail of bucket `k` from the ledger: which
      position it is, and what the ledger and every bucket become. */
  lemma DropLastOfKey<K, V>(L: seq<Entry<K, V>>, k: K) returns (p: nat)
    requires Increasing(L) && Restrict(L, k) != []
    ensures p < |L| && L[p].key == k
    ensures Restrict(L, k)[|Restrict(L, k)| - 1] == Slot(L[p].index, L[p].value)
    ensures DropIndices(L, {L[p].index}) == L[..p] + L[p + 1..]
    ensures PairsOf(DropIndices(L, {L[p].index})) == RemoveLastOf(PairsOf(L), k)
    ensures forall k' :: Restrict(DropIndices(L, {L[p].index}), k') ==
                         (if k' == k then Restrict(L, k)[..|Restrict(L, k)| - 1] else Restrict(L, k'))
  {
    p := LastOfKey(L, k);
    DropAt(L, p);
    assert PairsOf(L[..p] + L[p + 1..]) == RemoveLastOf(PairsOf(L), k) by {
      PairsOfWithout(L, p);
      RemoveLastOfAt(PairsOf(L), k, p);
    }
    forall k'
      ensures Restrict(L[..p] + L[p + 1..], k') ==
              if k' == k then Restrict(L, k)[..|Restrict(L, k)| - 1] else Restrict(L, k')
    {
      RestrictWithoutLast(L, p, k, k');
    }
  }

  // ---------------------------------------------------------------------------
  // Appending entries

  /** Appending entries with fresh, increasing indices keeps the ledger
      increasing and below the advanced counter. */
  lemma EnumerateFresh<K, V>(L: seq<Entry<K, V>>, src: seq<(K, V)>, n: nat)
    requires Increasing(L) && Below(L, n)
    ensures Increasing(L + Enumerate(src, n)) && Below(L + Enumerate(src, n), n + |src|)
    ensures PairsOf(L + Enumerate(src, n)) == PairsOf(L) + src
  {
    var M := L + Enumerate(src, n);
    forall i, j | 0 <= i < j < |M|
      ensures IndexAt(M, i) < IndexAt(M, j)
    {
      if j < |L| {
        assert IndexAt(L, i) < IndexAt(L, j);
      }
    }
  }

  lemma EnumerateStep<K, V>(src: seq<(K, V)>, start: nat, j: nat)
    requires j < |src|
    ensures Enumerate(src[..j + 1], start) ==
      Enumerate(src[..j], start) + [Entry(start + j, src[j].0, src[j].1)]
  {
  }

  /** Where the loops of `extend` end: the source's entries appended to the
      ledger, every bucket grown by its key's new entries, all consistent. */
  lemma ExtendValid<K, V>(L0: seq<Entry<K, V>>, B0: map<K, seq<Slot<V>>>, src: seq<(K, V)>,
                          start: nat, B: map<K, seq<Slot<V>>>)
    requires Increasing(L0) && Below(L0, start) && Consistent(L0, B0)
    requires B == GrowBy(B0, Enumerate(src, start))
    ensures Increasing(L0 + Enumerate(src, start)) && Below(L0 + Enumerate(src, start), start + |src|)
    ensures Consistent(L0 + Enumerate(src, start), B)
    ensures PairsOf(L0 + Enumerate(src, start)) == PairsOf(L0) + src
    ensures forall k :: BucketOf(B, k) == BucketOf(B0, k) + Restrict(Enumerate(src, start), k)
  {
    ConsistentBuckets(L0, B0);
    forall k
      ensures BucketOf(B, k) == BucketOf(B0, k) + Restrict(Enumerate(src, start), k)
      ensures k in B ==> B[k] != []
    {
      GrowByBuckets(B0, Enumerate(src, start), k);
    }
    ExtendConsistent(L0, B0, Enumerate(src, start), B);
    EnumerateFresh(L0, src, start);
  }

  /** The bucket map after the slot of each entry of `E`, in order, is
      appended to its key's bucket (a missing bucket starting empty). */
  function GrowBy<K, V>(B: map<K, seq<Slot<V>>>, E: seq<Entry<K, V>>): map<K, seq<Slot<V>>> {
    if E == [] then B
    else
      var G := GrowBy(B, E[..|E| - 1]);
      var e := E[|E| - 1];
      G[e.key := BucketOf(G, e.key) + [Slot(e.index, e.value)]]
  }

  /** Growing by one more entry appends its slot to its key's bucket. */
  lemma GrowByStep<K, V>(B: map<K, seq<Slot<V>>>, E: seq<Entry<K, V>>, e: Entry<K, V>)
    ensures GrowBy(B, E + [e]) == GrowBy(B, E)[e.key := BucketOf(GrowBy(B, E), e.key) + [Slot(e.index, e.value)]]
  {
    assert (E + [e])[..|E|] == E;
  }

  /** Growing by `E` extends every bucket by what `E` implies for its key, and
      creates no empty bucket. */
  lemma {:induction false} GrowByBuckets<K, V>(B: map<K, seq<Slot<V>>>, E: seq<Entry<K, V>>, k: K)
    ensures BucketOf(GrowBy(B, E), k) == BucketOf(B, k) + Restrict(E, k)
    ensures (k in B ==> B[k] != []) ==> (k in GrowBy(B, E) ==> GrowBy(B, E)[k] != [])
  {
    if E != [] {
      var F, e := E[..|E| - 1], E[|E| - 1];
      assert E == F + [e];
      GrowByBuckets(B, F, k);
      RestrictAppend(F, e, k);
      var G := GrowBy(B, F);
      if k == e.key {
        calc {
          BucketOf(GrowBy(B, E), k);
          BucketOf(G, k) + [Slot(e.index, e.value)];
          (BucketOf(B, k) + Restrict(F, k)) + [Slot(e.index, e.value)];
          BucketOf(B, k) + (Restrict(F, k) + [Slot(e.index, e.value)]);
        }
      } else {
        assert BucketOf(GrowBy(B, E), k) == BucketOf(G, k);
      }
    }
  }

  /** The entries `addall(k, vs)` appends imply the bucket `enumerate(vs)` for
      `k` and nothing for any other key. */
  lemma {:induction false} RestrictWithKey<K, V>(k: K, vs: seq<V>, start: nat, k': K)
    ensures Restrict(Enumerate(WithKey(k, vs), start), k') ==
      if k' == k then Numbered(vs, start) else []
  {
    if vs != [] {
      var E := Enumerate(WithKey(k, vs), start);
      var E' := Enumerate(WithKey(k, vs[1..]), start + 1);
      RestrictWithKey(k, vs[1..], start + 1, k');
      EnumerateWithKeyCons(k, vs, start);
      assert Restrict(E, k') == (if k == k' then [Slot(start, vs[0])] else []) + Restrict(E', k');
      NumberedCons(vs, start);
    }
  }

  lemma EnumerateWithKeyCons<K, V>(k: K, vs: seq<V>, start: nat)
    requires vs != []
    ensures Enumerate(WithKey(k, vs), start)[0] == Entry(start, k, vs[0])
    ensures Enumerate(WithKey(k, vs), start)[1..] == Enumerate(WithKey(k, vs[1..]), start + 1)
  {
  }

  lemma NumberedCons<V>(vs: seq<V>, start: nat)
    requires vs != []
    ensures Numbered(vs, start) == [Slot(start, vs[0])] + Numbered(vs[1..], start + 1)
  {
  }

  // ---------------------------------------------------------------------------
  // Whole-state steps shared by the container's mutators

  /** Deleting from the ledger the entries listed in a prefix of a bucket, one
      more entry at a time. */
  lemma DropIndicesPrefixStep<K, V>(L: seq<Entry<K, V>>, b: seq<Slot<V>>, j: nat)
    requires j < |b|
    ensures DropIndices(DropIndices(L, IndicesOf(b[..j])), {b[j].index}) ==
            DropIndices(L, IndicesOf(b[..j + 1]))
  {
    assert b[..j + 1] == b[..j] + [b[j]];
    IndicesOfConcat(b[..j], [b[j]]);
    assert IndicesOf([b[j]]) == {b[j].index};
    DropIndicesStep(L, IndicesOf(b[..j]), b[j].index);
  }

  /** Deleting every entry listed in key `k`'s bucket, then the bucket itself,
      removes exactly key `k` from the container and keeps it consistent. */
  lemma DropBucket<K, V>(L: seq<Entry<K, V>>, B: map<K, seq<Slot<V>>>, k: K, n: nat)
    requires Increasing(L) && Below(L, n) && Consistent(L, B)
    requires k in B
    ensures DropIndices(L, IndicesOf(B[k])) == DropKeys(L, {k})
    ensures Increasing(DropKeys(L, {k})) && Below(DropKeys(L, {k}), n)
    ensures Consistent(DropKeys(L, {k}), B - {k})
    ensures PairsOf(DropKeys(L, {k})) == WithoutKeys(PairsOf(L), {k})
  {
    ConsistentBuckets(L, B);
    assert BucketOf(B, k) == Restrict(L, k);
    IndicesOfRestrict(L, k);
    DropKey(L, k, IndicesOf(B[k]));
    DropKeysSubseq(L, {k}, n);
    DropKeysPairs(L, {k});
    forall k'
      ensures BucketOf(B - {k}, k') == Restrict(DropKeys(L, {k}), k')
    {
      DropKeysRestrict(L, {k}, k');
    }
    ConsistentIntro(DropKeys(L, {k}), B - {k});
  }

  /** Without a bucket for `k`, no entry has key `k`, so there is nothing to
      drop. */
  lemma DropAbsentKey<K, V>(L: seq<Entry<K, V>>, B: map<K, seq<Slot<V>>>, k: K)
    requires Consistent(L, B) && k !in B
    ensures DropKeys(L, {k}) == L
    ensures WithoutKeys(PairsOf(L), {k}) == PairsOf(L)
  {
    DropKey(L, k, {});
    DropIndicesEmpty(L);
    DropKeysPairs(L, {k});
  }

  /** Popping the head of key `k`'s bucket and deleting the matching ledger
      entry removes the key's first pair and keeps the container consistent;
      the popped slot is in the ledger under key `k`. */
  lemma PopHeadOfBucket<K, V>(L: seq<Entry<K, V>>, B: map<K, seq<Slot<V>>>, k: K, n: nat)
    returns (L': seq<Entry<K, V>>, B': map<K, seq<Slot<V>>>)
    requires Increasing(L) && Below(L, n) && Consistent(L, B)
    requires k in B
    ensures B[k] != []
    ensures L' == DropIndices(L, {B[k][0].index})
    ensures B' == if |B[k]| == 1 then B - {k} else B[k := B[k][1..]]
    ensures exists i :: 0 <= i < |L| && L[i] == Entry(B[k][0].index, k, B[k][0].value)
    ensures Increasing(L') && Below(L', n) && Consistent(L', B')
    ensures PairsOf(L') == RemoveFirstOf(PairsOf(L), k)
  {
    var b := B[k];
    assert b == Restrict(L, k);
    var p := DropFirstOfKey(L, k);
    var rest := b[1..];
    L' := DropIndices(L, {b[0].index});
    B' := if |b| == 1 then B - {k} else B[k := rest];
    assert L[p] == Entry(b[0].index, k, b[0].value);
    assert Increasing(L') && Below(L', n) by {
      DropIndicesSubseq(L, {b[0].index});
      BelowSubseq(L, {b[0].index}, n);
    }
    assert |b| == 1 <==> rest == [];
    ConsistentReplace(L, B, k, rest, L', B');
  }

  /** Popping the tail of key `k`'s bucket and deleting the matching ledger
      entry removes the key's last pair and keeps the container consistent;
      the popped slot is in the ledger under key `k`. */
  lemma PopTailOfBucket<K, V>(L: seq<Entry<K, V>>, B: map<K, seq<Slot<V>>>, k: K, n: nat)
    returns (L': seq<Entry<K, V>>, B': map<K, seq<Slot<V>>>)
    requires Increasing(L) && Below(L, n) && Consistent(L, B)
    requires k in B
    ensures B[k] != []
    ensures L' == DropIndices(L, {B[k][|B[k]| - 1].index})
    ensures B' == if |B[k]| == 1 then B - {k} else B[k := B[k][..|B[k]| - 1]]
    ensures exists i :: 0 <= i < |L| && L[i] == Entry(B[k][|B[k]| - 1].index, k, B[k][|B[k]| - 1].value)
    ensures Increasing(L') && Below(L', n) && Consistent(L', B')
    ensures PairsOf(L') == RemoveLastOf(PairsOf(L), k)
  {
    var b := B[k];
    assert b == Restrict(L, k);
    var rest := b[..|b| - 1];
    L' := DropIndices(L, {b[|b| - 1].index});
    B' := if |b| == 1 then B - {k} else B[k := rest];
    assert exists i :: 0 <= i < |L| && L[i] == Entry(b[|b| - 1].index, k, b[|b| - 1].value) by {
      var p := DropLastOfKey(L, k);
      assert L[p] == Entry(b[|b| - 1].index, k, b[|b| - 1].value);
    }
    assert PairsOf(L') == RemoveLastOf(PairsOf(L), k) by {
      var _ := DropLastOfKey(L, k);
    }
    assert Increasing(L') && Below(L', n) by {
      DropIndicesSubseq(L, {b[|b| - 1].index});
      BelowSubseq(L, {b[|b| - 1].index}, n);
    }
    assert forall k' :: Restrict(L', k') == if k' == k then rest else Restrict(L, k') by {
      var _ := DropLastOfKey(L, k);
    }
    assert |b| == 1 <==> rest == [];
    ConsistentReplace(L, B, k, rest, L', B');
  }

  /** `_pop` on the state: popping the head (or, when `last`, the tail) of
      key `k`'s bucket and deleting its ledger entry keeps the container
      consistent. */
  lemma PopSlot<K, V>(L: seq<Entry<K, V>>, B: map<K, seq<Slot<V>>>, k: K, n: nat, last: bool)
    returns (L': seq<Entry<K, V>>, B': map<K, seq<Slot<V>>>)
    requires Increasing(L) && Below(L, n) && Consistent(L, B)
    requires k in B
    ensures B[k] != []
    ensures var b := B[k];
            var rest := if last then b[..|b| - 1] else b[1..];
            L' == DropIndices(L, {(if last then b[|b| - 1] else b[0]).index}) &&
            B' == (if |b| == 1 then B - {k} else B[k := rest])
    ensures Increasing(L') && Below(L', n) && Consistent(L', B')
  {
    if last {
      L', B' := PopTailOfBucket(L, B, k, n);
    } else {
      L', B' := PopHeadOfBucket(L, B, k, n);
    }
  }

  /** What popping a bucket's head (or tail) means for the pairs: the key has
      values exactly when it has a bucket, the popped slot is an entry of the
      ledger, its value is the key's first (or last) value, and the pairs
      lose exactly that occurrence. */
  lemma PopSlotPairs<K, V>(L: seq<Entry<K, V>>, B: map<K, seq<Slot<V>>>, k: K, n: nat, last: bool)
    requires Increasing(L) && Below(L, n) && Consistent(L, B)
    ensures k in B <==> ValuesFor(PairsOf(L), k) != []
    ensures k in B ==>
            var b := B[k];
            var vs := ValuesFor(PairsOf(L), k);
            var popped := if last then b[|b| - 1] else b[0];
            b != [] && vs != [] &&
            (exists i :: 0 <= i < |L| && L[i] == Entry(popped.index, k, popped.value)) &&
            popped.value == (if last then vs[|vs| - 1] else vs[0]) &&
            PairsOf(DropIndices(L, {popped.index})) ==
              (if last then RemoveLastOf(PairsOf(L), k) else RemoveFirstOf(PairsOf(L), k))
  {
    BucketValues(L, B, k);
    if k in B {
      var b := B[k];
      var vs := ValuesFor(PairsOf(L), k);
      ValuesForNonEmpty(PairsOf(L), k);
      assert b[|b| - 1].value == vs[|vs| - 1] by {
        assert SlotValues(b)[|b| - 1] == b[|b| - 1].value;
      }
      if last {
        var _, _ := PopTailOfBucket(L, B, k, n);
      } else {
        var _, _ := PopHeadOfBucket(L, B, k, n);
      }
    }
  }

  /** Popping the globally first ledger entry and the head of its key's
      bucket: the bucket exists, its head is that very entry, and the
      container stays consistent. */
  lemma PopFirstEntry<K, V>(L: seq<Entry<K, V>>, B: map<K, seq<Slot<V>>>, n: nat)
    returns (B': map<K, seq<Slot<V>>>)
    requires Increasing(L) && Below(L, n) && Consistent(L, B)
    requires L != []
    ensures L[0].key in B && B[L[0].key] != []
    ensures B[L[0].key][0] == Slot(L[0].index, L[0].value)
    ensures B' == if |B[L[0].key]| == 1 then B - {L[0].key} else B[L[0].key := B[L[0].key][1..]]
    ensures Increasing(L[1..]) && Below(L[1..], n) && Consistent(L[1..], B')
  {
    ConsistentBuckets(L, B);
    var e, R := L[0], L[1..];
    IncreasingTail(L);
    assert BucketOf(B, e.key) == Restrict(L, e.key);
    var b := B[e.key];
    B' := if |b| == 1 then B - {e.key} else B[e.key := b[1..]];
    forall k
      ensures BucketOf(B', k) == Restrict(R, k)
    {
      assert BucketOf(B, k) == Restrict(L, k);
    }
    ConsistentIntro(R, B');
  }

  /** `_popitem` on the ledger and buckets: the globally first entry (or the
      last, when `last`) leaves the ledger, together with the head (or tail)
      of its key's bucket, which is that very entry; the pairs lose their
      first (or last) element and the container stays consistent. */
  lemma PopEntry<K, V>(L: seq<Entry<K, V>>, B: map<K, seq<Slot<V>>>, n: nat, last: bool)
    returns (L': seq<Entry<K, V>>, B': map<K, seq<Slot<V>>>)
    requires Increasing(L) && Below(L, n) && Consistent(L, B)
    requires L != []
    ensures var e := if last then L[|L| - 1] else L[0];
            e.key in B && B[e.key] != [] &&
            var b := B[e.key];
            (if last then b[|b| - 1] else b[0]) == Slot(e.index, e.value) &&
            B' == if |b| == 1 then B - {e.key} else B[e.key := if last then b[..|b| - 1] else b[1..]]
    ensures L' == if last then L[..|L| - 1] else L[1..]
    ensures PairsOf(L') == if last then PairsOf(L)[..|L| - 1] else PairsOf(L)[1..]
    ensures (if last then PairsOf(L)[|L| - 1] else PairsOf(L)[0]) ==
            (if last then (L[|L| - 1].key, L[|L| - 1].value) else (L[0].key, L[0].value))
    ensures Increasing(L') && Below(L', n) && Consistent(L', B')
  {
    if last {
      B' := PopLastEntry(L, B, n);
      L' := L[..|L| - 1];
      PairsOfTake(L, |L| - 1);
    } else {
      B' := PopFirstEntry(L, B, n);
      L' := L[1..];
      PairsOfDrop(L, 1);
    }
  }

  /** Popping the globally last ledger entry and the tail of its key's
      bucket: the bucket exists, its tail is that very entry, and the
      container stays consistent. */
  lemma PopLastEntry<K, V>(L: seq<Entry<K, V>>, B: map<K, seq<Slot<V>>>, n: nat)
    returns (B': map<K, seq<Slot<V>>>)
    requires Increasing(L) && Below(L, n) && Consistent(L, B)
    requires L != []
    ensures L[|L| - 1].key in B && B[L[|L| - 1].key] != []
    ensures B[L[|L| - 1].key][|B[L[|L| - 1].key]| - 1] == Slot(L[|L| - 1].index, L[|L| - 1].value)
    ensures B' == if |B[L[|L| - 1].key]| == 1 then B - {L[|L| - 1].key}
                  else B[L[|L| - 1].key := B[L[|L| - 1].key][..|B[L[|L| - 1].key]| - 1]]
    ensures Increasing(L[..|L| - 1]) && Below(L[..|L| - 1], n) && Consistent(L[..|L| - 1], B')
  {
    ConsistentBuckets(L, B);
    var F, e := L[..|L| - 1], L[|L| - 1];
    assert L == F + [e];
    IncreasingPrefix(L, |L| - 1);
    forall k
      ensures Restrict(L, k) == Restrict(F, k) + (if k == e.key then [Slot(e.index, e.value)] else [])
    {
      RestrictAppend(F, e, k);
    }
    assert BucketOf(B, e.key) == Restrict(L, e.key);
    var b := B[e.key];
    B' := if |b| == 1 then B - {e.key} else B[e.key := b[..|b| - 1]];
    forall k
      ensures BucketOf(B', k) == Restrict(F, k)
    {
      assert BucketOf(B, k) == Restrict(L, k);
    }
    ConsistentIntro(F, B');
  }
}
