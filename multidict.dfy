/** The container itself: `OrderedMultiDictBase` with the state its two
    subclasses share. A ledger of numbered entries (`_items`) gives the
    global order, the buckets (`_map`) give each key's entries, and the
    counter (`_index`) hands out fresh entry numbers. Every operation keeps
    the two structures describing the same entries. */
module MultiDict {
  import opened Wrappers
  import opened Pairs
  import opened Ledger

  /** Which container backs a bucket: `list` for OrderedMultiDict, `deque` for
      DeOrderedMultiDict. Both pop a bucket's head with the same effect; the
      choice is only observable through the type test of `__eq__`. */
  datatype Strategy = ListBuckets | DequeBuckets

  /** The two KeyErrors the container raises. */
  datatype Failure<K> = MissingKey(key: K) | DictionaryEmpty

  /** What a rich comparison method returns: NotImplemented, or a truth value. */
  datatype EqOutcome = NotImplemented | Answer(equal: bool)

  /** `bool(outcome)`: NotImplemented is truthy. */
  function Truthy(o: EqOutcome): bool {
    match o
    case NotImplemented => true
    case Answer(b) => b
  }

  /** `all(map(eq, a, b))`: pairwise equality up to the shorter length, which
      is plain equality when the lengths agree. */
  function AllEqual<T(==)>(a: seq<T>, b: seq<T>): (r: bool)
    ensures |a| == |b| ==> (r <==> a == b)
  {
    if a == [] || b == [] then true
    else a[0] == b[0] && AllEqual(a[1..], b[1..])
  }

  /** The loop of popall: walks a bucket oldest first, collecting each
      slot's value and deleting its entry from the ledger. */
  method DrainBucket<K, V>(L: seq<Entry<K, V>>, b: seq<Slot<V>>)
    returns (remaining: seq<Entry<K, V>>, values: seq<V>)
    ensures remaining == DropIndices(L, IndicesOf(b))
    ensures values == SlotValues(b)
  {
    remaining, values := L, [];
    DropIndicesEmpty(L);
    var j := 0;
    while j < |b|
      invariant 0 <= j <= |b|
      invariant values == SlotValues(b[..j])
      invariant remaining == DropIndices(L, IndicesOf(b[..j]))
    {
      DropIndicesPrefixStep(L, b, j);
      values := values + [b[j].value];
      remaining := DropIndices(remaining, {b[j].index});
      j := j + 1;
    }
    assert b[..j] == b;
  }

  class OrderedMultiDict<K(==, !new), V(==, !new)> {
    const strategy: Strategy
    /** `_items`: entries in insertion order, numbered by increasing index. */
    var ledger: seq<Entry<K, V>>
    /** `_map`: for each present key, its (index, value) slots in order. */
    var buckets: map<K, seq<Slot<V>>>
    /** `_index`: the number the next entry receives. */
    var counter: nat

    /** The ledger is ordered by entry number, every number was handed out by
        the counter, and the buckets are exactly the ledger restricted to each
        key, none of them empty. */
    ghost predicate Valid()
      reads this
    {
      Increasing(ledger) && Below(ledger, counter) && Consistent(ledger, buckets)
    }

    /** The items view: all (key, value) pairs in global order. */
    function Items(): (r: seq<(K, V)>)
      reads this
      ensures r == PairsOf(ledger) && |r| == |ledger|
    {
      PairsOf(ledger)
    }

    /** An empty container backed by buckets of the given kind. */
    constructor (strategy: Strategy)
      ensures Valid() && this.strategy == strategy
      ensures ledger == [] && buckets == map[] && counter == 0
      ensures Items() == []
    {
      this.strategy := strategy;
      ledger := [];
      buckets := map[];
      counter := 0;
    }

    /** `__init__` with an iterable of pairs: an empty container that then
        loads `src`, so its items are exactly `src`. */
    constructor FromPairs(strategy: Strategy, src: seq<(K, V)>)
      ensures Valid() && this.strategy == strategy
      ensures ledger == Enumerate(src, 0) && counter == |src|
      ensures Items() == src
    {
      this.strategy := strategy;
      ledger := [];
      buckets := map[];
      counter := 0;
      new;
      Load(src);
    }

    // -------------------------------------------------------------------------
    // Reading

    /** getall: the key's values oldest first, or the default (`[]` when none
        is given) for an absent key. */
    function GetAll(key: K, default: Option<seq<V>>): (r: seq<V>)
      reads this
      requires Valid()
      ensures key in Keys(Items()) ==> r == ValuesFor(Items(), key)
      ensures key !in Keys(Items()) ==> r == default.GetOr([])
    {
      BucketValues(ledger, buckets, key);
      ValuesForNonEmpty(Items(), key);
      if key in buckets then SlotValues(buckets[key]) else default.GetOr([])
    }

    /** getlast: the last value of getall, or the default for an absent key. */
    function GetLast(key: K, default: Option<V>): (r: Option<V>)
      reads this
      requires Valid()
      ensures ValuesFor(Items(), key) != [] ==>
                r == Some(ValuesFor(Items(), key)[|ValuesFor(Items(), key)| - 1])
      ensures ValuesFor(Items(), key) == [] ==> r == default
    {
      BucketValues(ledger, buckets, key);
      if key in buckets then Some(buckets[key][|buckets[key]| - 1].value) else default
    }

    /** get: the same as getlast. */
    function Get(key: K, default: Option<V>): (r: Option<V>)
      reads this
      requires Valid()
      ensures ValuesFor(Items(), key) != [] ==>
                r == Some(ValuesFor(Items(), key)[|ValuesFor(Items(), key)| - 1])
      ensures ValuesFor(Items(), key) == [] ==> r == default
    {
      GetLast(key, default)
    }

    /** getfirst: the first value of getall, or the default for an absent key. */
    function GetFirst(key: K, default: Option<V>): (r: Option<V>)
      reads this
      requires Valid()
      ensures ValuesFor(Items(), key) != [] ==> r == Some(ValuesFor(Items(), key)[0])
      ensures ValuesFor(Items(), key) == [] ==> r == default
    {
      BucketValues(ledger, buckets, key);
      if key in buckets then Some(buckets[key][0].value) else default
    }

    /** `d[key]`: the last value of the key, or KeyError(key). */
    function GetItem(key: K): (r: Result<V, Failure<K>>)
      reads this
      requires Valid()
      ensures ValuesFor(Items(), key) != [] ==>
                r == Ok(ValuesFor(Items(), key)[|ValuesFor(Items(), key)| - 1])
      ensures ValuesFor(Items(), key) == [] ==> r == Err(MissingKey(key))
    {
      BucketValues(ledger, buckets, key);
      if key in buckets then Ok(buckets[key][|buckets[key]| - 1].value) else Err(MissingKey(key))
    }

    /** `key in d` (also the keys and unique-keys views' `in`): a bucket exists
        exactly for the keys that have a value. */
    function Contains(key: K): (r: bool)
      reads this
      requires Valid()
      ensures r <==> key in Keys(Items())
      ensures r <==> ValuesFor(Items(), key) != []
    {
      ConsistentBuckets(ledger, buckets);
      ValuesForNonEmpty(Items(), key);
      key in buckets
    }

    /** contains_item (the items view's `in`): searches the key's bucket only,
        yet agrees with the whole items view. */
    function ContainsItem(key: K, value: V): (r: bool)
      reads this
      requires Valid()
      ensures r <==> (key, value) in Items()
    {
      ConsistentBuckets(ledger, buckets);
      RestrictValues(ledger, key);
      PairInValuesFor(Items(), key, value);
      ValuesForNonEmpty(Items(), key);
      if key in buckets then value in SlotValues(buckets[key]) else false
    }

    /** contains_value (the values view's `in`): true exactly when some key's
        getall holds the value. */
    function ContainsValue(value: V): (r: bool)
      reads this
      requires Valid()
      ensures r <==> exists k | k in KeySet(Items()) :: value in ValuesFor(Items(), k)
    {
      ValueUnderSomeKey(Items(), value);
      value in Values(Items())
    }

    /** `len(d)` (also `len` of the items, keys and values views): the ledger
        size, which is also the total size of the buckets. */
    function Length(): (r: nat)
      reads this
      requires Valid()
      ensures r == |Items()|
      ensures r == BucketTotal(buckets, UniqueKeys(Items()))
    {
      LedgerSizeIsBucketTotal(ledger, buckets);
      |ledger|
    }

    /** `bool(d)`: tested on the buckets, true exactly when there are items. */
    function IsNonEmpty(): (r: bool)
      reads this
      requires Valid()
      ensures r <==> Items() != []
    {
      BucketKeysAreKeySet(ledger, buckets);
      assert Items() != [] ==> Items()[0].0 in KeySet(Items());
      buckets != map[]
    }

    /** `len` of the unique-keys view: the number of buckets, which is the
        number of distinct keys the view yields. */
    function UniqueKeysLength(): (r: nat)
      reads this
      requires Valid()
      ensures r == |UniqueKeys(Items())|
    {
      BucketKeysAreKeySet(ledger, buckets);
      UniqueKeysCount(Items());
      |buckets.Keys|
    }

    /** The keys view (`keys()`, also `iter(d)`): one key per ledger entry,
        in ledger order, duplicates included. */
    function KeysView(): (r: seq<K>)
      reads this
      ensures |r| == |ledger|
      ensures forall i :: 0 <= i < |r| ==> r[i] == ledger[i].key
    {
      Keys(Items())
    }

    /** The values view: one value per ledger entry, in ledger order. */
    function ValuesView(): (r: seq<V>)
      reads this
      ensures |r| == |ledger|
      ensures forall i :: 0 <= i < |r| ==> r[i] == ledger[i].value
    {
      Values(Items())
    }

    /** The unique-keys view: the keys of the ledger in order of first
        appearance, each once; they are exactly the keys that have a bucket,
        although the order comes from the ledger and not from the buckets. */
    function UniqueKeysView(): (r: seq<K>)
      reads this
      requires Valid()
      ensures forall i, j :: 0 <= i < j < |r| ==> r[i] != r[j]
      ensures forall k :: k in r <==> k in buckets
      ensures forall i :: 0 <= i < |r| ==> r[i] in KeysView()
      ensures r == Dedup(KeysView())
    {
      BucketKeysAreKeySet(ledger, buckets);
      UniqueKeys(Items())
    }

    /** The unique-keys view iterated backwards (`__reversed__`): the same
        keys, from the latest first appearance back to the earliest, which is
        not the order of last appearance (`ReversedUniqueKeysExample`). */
    function UniqueKeysReversed(): (r: seq<K>)
      reads this
      requires Valid()
      ensures |r| == |UniqueKeysView()|
      ensures forall i :: 0 <= i < |r| ==> r[i] == UniqueKeysView()[|r| - 1 - i]
      ensures forall i, j :: 0 <= i < j < |r| ==>
        FirstIndex(Keys(Items()), r[j]) < FirstIndex(Keys(Items()), r[i])
    {
      ReversedDedupOrder(Keys(Items()));
      Reverse(UniqueKeys(Items()))
    }

    /** `__getstate__`: the list of items. */
    function GetState(): (r: seq<(K, V)>)
      reads this
      ensures |r| == |ledger|
      ensures forall i :: 0 <= i < |r| ==> r[i] == (ledger[i].key, ledger[i].value)
    {
      Items()
    }

    // -------------------------------------------------------------------------
    // Adding

    /** add: a fresh entry for (key, value) at the global tail and at the tail
        of the key's bucket. */
    method Add(key: K, value: V)
      requires Valid()
      modifies this
      ensures Valid()
      ensures ledger == old(ledger) + [Entry(old(counter), key, value)]
      ensures buckets == old(buckets)[key := BucketOf(old(buckets), key) + [Slot(old(counter), value)]]
      ensures counter == old(counter) + 1
      ensures Items() == old(Items()) + [(key, value)]
      ensures forall k :: ValuesFor(Items(), k) ==
                            ValuesFor(old(Items()), k) + (if k == key then [value] else [])
    {
      ghost var L0, B0 := ledger, buckets;
      var index := counter;
      counter := counter + 1;
      buckets := buckets[key := BucketOf(buckets, key) + [Slot(index, value)]];
      ledger := ledger + [Entry(index, key, value)];

      forall k
        ensures BucketOf(buckets, k) == BucketOf(B0, k) + Restrict([Entry(index, key, value)], k)
      {
        assert [Entry(index, key, value)][1..] == [];
      }
      ExtendConsistent(L0, B0, [Entry(index, key, value)], buckets);
      assert Enumerate([(key, value)], index) == [Entry(index, key, value)];
      EnumerateFresh(L0, [(key, value)], index);
      PairsOfConcat(L0, [Entry(index, key, value)]);
      assert PairsOf([Entry(index, key, value)]) == [(key, value)];
      forall k
        ensures ValuesFor(Items(), k) == ValuesFor(PairsOf(L0), k) + (if k == key then [value] else [])
      {
        ValuesForConcat(PairsOf(L0), [(key, value)], k);
        assert [(key, value)][1..] == [];
      }
    }

    /** addall: the values become fresh entries for the key, in order, at the
        global tail; an empty list changes nothing and creates no bucket. */
    method AddAll(key: K, values: seq<V>)
      requires Valid()
      modifies this
      ensures Valid()
      ensures ledger == old(ledger) + Enumerate(WithKey(key, values), old(counter))
      ensures buckets == if values == [] then old(buckets)
                         else old(buckets)[key := BucketOf(old(buckets), key) + Numbered(values, old(counter))]
      ensures counter == old(counter) + |values|
      ensures Items() == old(Items()) + WithKey(key, values)
      ensures forall k :: ValuesFor(Items(), k) ==
                            ValuesFor(old(Items()), k) + (if k == key then values else [])
    {
      ghost var L0, B0, I0 := ledger, buckets, Items();
      if values == [] {
        assert Enumerate(WithKey(key, values), counter) == [];
        assert ledger + [] == ledger;
        assert WithKey(key, values) == [];
        assert I0 + [] == I0;
        return;
      }
      var index := counter;
      ghost var start := index;
      counter := counter + |values|;
      buckets := buckets[key := BucketOf(buckets, key) + Numbered(values, index)];

      var j := 0;
      while j < |values|
        invariant 0 <= j <= |values| && index == start + j
        invariant ledger == L0 + Enumerate(WithKey(key, values[..j]), start)
        invariant buckets == B0[key := BucketOf(B0, key) + Numbered(values, start)]
        invariant counter == start + |values|
      {
        assert Enumerate(WithKey(key, values[..j + 1]), start) ==
               Enumerate(WithKey(key, values[..j]), start) + [Entry(index, key, values[j])];
        ledger := ledger + [Entry(index, key, values[j])];
        index := index + 1;
        j := j + 1;
      }
      assert values[..j] == values;

      ConsistentBuckets(L0, B0);
      EnumerateFresh(L0, WithKey(key, values), start);
      forall k
        ensures BucketOf(buckets, k) == Restrict(ledger, k)
      {
        RestrictConcat(L0, Enumerate(WithKey(key, values), start), k);
        RestrictWithKey(key, values, start, k);
      }
      ConsistentIntro(ledger, buckets);
      forall k
        ensures ValuesFor(Items(), k) == ValuesFor(I0, k) + (if k == key then values else [])
      {
        ValuesForConcat(I0, WithKey(key, values), k);
        ValuesForWithKey(key, values, k);
      }
    }

    /** setdefault: the key's last value when it is present (nothing changes);
        otherwise the default is added for the key and returned. */
    method SetDefault(key: K, default: V) returns (r: V)
      requires Valid()
      modifies this
      ensures Valid()
      ensures old(ValuesFor(Items(), key)) != [] ==>
                r == old(ValuesFor(Items(), key))[|old(ValuesFor(Items(), key))| - 1] &&
                ledger == old(ledger) && buckets == old(buckets) && counter == old(counter)
      ensures old(ValuesFor(Items(), key)) == [] ==>
                r == default &&
                ledger == old(ledger) + [Entry(old(counter), key, default)] &&
                buckets == old(buckets)[key := [Slot(old(counter), default)]] &&
                counter == old(counter) + 1 &&
                Items() == old(Items()) + [(key, default)]
      ensures ValuesFor(Items(), key) != [] && r == ValuesFor(Items(), key)[|ValuesFor(Items(), key)| - 1]
    {
      BucketValues(ledger, buckets, key);
      if key in buckets {
        r := buckets[key][|buckets[key]| - 1].value;
        assert r == ValuesFor(Items(), key)[|ValuesFor(Items(), key)| - 1];
      } else {
        assert [] + [Slot(counter, default)] == [Slot(counter, default)];
        Add(key, default);
        assert ValuesFor(Items(), key) == [] + [default];
        r := default;
      }
    }

    /** setdefaultall: the key's values when it is present (nothing changes);
        otherwise the default list is added for the key and returned, so an
        absent key with an empty list stays absent. Either way getall of the
        key afterwards is the returned list. */
    method SetDefaultAll(key: K, defaultlist: seq<V>) returns (r: seq<V>)
      requires Valid()
      modifies this
      ensures Valid()
      ensures old(ValuesFor(Items(), key)) != [] ==>
                r == old(ValuesFor(Items(), key)) &&
                ledger == old(ledger) && buckets == old(buckets) && counter == old(counter)
      ensures old(ValuesFor(Items(), key)) == [] ==>
                r == defaultlist &&
                ledger == old(ledger) + Enumerate(WithKey(key, defaultlist), old(counter)) &&
                buckets == (if defaultlist == [] then old(buckets)
                            else old(buckets)[key := Numbered(defaultlist, old(counter))]) &&
                counter == old(counter) + |defaultlist| &&
                Items() == old(Items()) + WithKey(key, defaultlist)
      ensures ValuesFor(Items(), key) == r
    {
      BucketValues(ledger, buckets, key);
      if Contains(key) {
        r := GetAll(key, None);
      } else {
        assert [] + Numbered(defaultlist, counter) == Numbered(defaultlist, counter);
        AddAll(key, defaultlist);
        assert ValuesFor(Items(), key) == [] + defaultlist;
        r := defaultlist;
      }
    }

    /** setall: the key's old entries are deleted and the new values added at
        the global tail, so getall of the key is exactly the new list. */
    method SetAll(key: K, values: seq<V>)
      requires Valid()
      modifies this
      ensures Valid()
      ensures ledger == DropKeys(old(ledger), {key}) + Enumerate(WithKey(key, values), old(counter))
      ensures buckets == if values == [] then old(buckets) - {key}
                         else (old(buckets) - {key})[key := Numbered(values, old(counter))]
      ensures counter == old(counter) + |values|
      ensures Items() == WithoutKeys(old(Items()), {key}) + WithKey(key, values)
      ensures ValuesFor(Items(), key) == values
      ensures forall k :: k != key ==> ValuesFor(Items(), k) == ValuesFor(old(Items()), k)
    {
      ghost var I0 := Items();
      var _ := TryDeleteAll(key);
      assert BucketOf(buckets, key) == [];
      assert [] + Numbered(values, counter) == Numbered(values, counter);
      AddAll(key, values);
      forall k
        ensures ValuesFor(Items(), k) == if k == key then values else ValuesFor(I0, k)
      {
        ReplaceKeyValues(I0, key, values, k);
      }
    }

    /** `d[key] = value`: setall with a single value. */
    method SetItem(key: K, value: V)
      requires Valid()
      modifies this
      ensures Valid()
      ensures ledger == DropKeys(old(ledger), {key}) + [Entry(old(counter), key, value)]
      ensures buckets == (old(buckets) - {key})[key := [Slot(old(counter), value)]]
      ensures counter == old(counter) + 1
      ensures Items() == WithoutKeys(old(Items()), {key}) + [(key, value)]
      ensures ValuesFor(Items(), key) == [value]
    {
      SetAll(key, [value]);
      assert WithKey(key, [value]) == [(key, value)];
      assert Numbered([value], old(counter)) == [Slot(old(counter), value)];
      assert Enumerate(WithKey(key, [value]), old(counter)) == [Entry(old(counter), key, value)];
    }

    // -------------------------------------------------------------------------
    // Removing

    /** _try_delete_all: deletes every entry of the key, one ledger entry per
        bucket slot, then the bucket; reports whether the key was present.
        The other entries keep their order. */
    method TryDeleteAll(key: K) returns (found: bool)
      requires Valid()
      modifies this
      ensures Valid()
      ensures found <==> old(ValuesFor(Items(), key)) != []
      ensures ledger == DropKeys(old(ledger), {key})
      ensures buckets == old(buckets) - {key}
      ensures counter == old(counter)
      ensures Items() == WithoutKeys(old(Items()), {key})
    {
      BucketValues(ledger, buckets, key);
      if key !in buckets {
        DropAbsentKey(ledger, buckets, key);
        assert buckets - {key} == buckets;
        return false;
      }
      ghost var L0 := ledger;
      DropBucket(ledger, buckets, key, counter);
      var values := buckets[key];
      var j := 0;
      DropIndicesEmpty(L0);
      while j < |values|
        invariant 0 <= j <= |values|
        invariant ledger == DropIndices(L0, IndicesOf(values[..j]))
        invariant buckets == old(buckets) && counter == old(counter)
      {
        DropIndicesPrefixStep(L0, values, j);
        ledger := DropIndices(ledger, {values[j].index});
        j := j + 1;
      }
      assert values[..j] == values;
      buckets := buckets - {key};
      found := true;
    }

    /** delete_all: like _try_delete_all, but KeyError(key) for an absent key. */
    method DeleteAll(key: K) returns (r: Result<(), Failure<K>>)
      requires Valid()
      modifies this
      ensures Valid()
      ensures r.Ok? <==> old(ValuesFor(Items(), key)) != []
      ensures r.Err? ==> r.error == MissingKey(key)
      ensures ledger == DropKeys(old(ledger), {key})
      ensures buckets == old(buckets) - {key}
      ensures counter == old(counter)
      ensures Items() == WithoutKeys(old(Items()), {key})
    {
      var found := TryDeleteAll(key);
      r := if found then Ok(()) else Err(MissingKey(key));
    }

    /** popall: the key's values oldest first, with all its entries deleted and
        the other entries in their order; for an absent key the default, or
        KeyError(key) without one, and nothing changes. */
    method PopAll(key: K, default: Option<seq<V>>) returns (r: Result<seq<V>, Failure<K>>)
      requires Valid()
      modifies this
      ensures Valid()
      ensures counter == old(counter)
      ensures old(ValuesFor(Items(), key)) != [] ==>
                r == Ok(old(ValuesFor(Items(), key))) &&
                ledger == DropKeys(old(ledger), {key}) &&
                buckets == old(buckets) - {key} &&
                Items() == WithoutKeys(old(Items()), {key})
      ensures old(ValuesFor(Items(), key)) == [] ==>
                r == (if default.Some? then Ok(default.value) else Err(MissingKey(key))) &&
                ledger == old(ledger) && buckets == old(buckets)
    {
      BucketValues(ledger, buckets, key);
      if key in buckets {
        DropBucket(ledger, buckets, key, counter);
        var remaining, result := DrainBucket(ledger, buckets[key]);
        ledger, buckets := remaining, buckets - {key};
        r := Ok(result);
      } else if default.Some? {
        r := Ok(default.value);
      } else {
        r := Err(MissingKey(key));
      }
    }

    /** _pop: takes the head of the key's bucket (or its tail, when `last`),
        deletes the matching ledger entry and, once the bucket is empty, the
        bucket itself, and returns the popped value; for a key without a
        bucket the default, or KeyError(key) without one, and nothing changes.
        What this means for the pairs is `PopSlotPairs`. */
    method PopValue(key: K, default: Option<V>, last: bool) returns (r: Result<V, Failure<K>>)
      requires Valid()
      modifies this
      ensures Valid()
      ensures counter == old(counter)
      ensures old(key in buckets) ==>
                var b := old(buckets[key]);
                b != [] &&
                var popped := if last then b[|b| - 1] else b[0];
                r == Ok(popped.value) &&
                ledger == DropIndices(old(ledger), {popped.index}) &&
                buckets == (if |b| == 1 then old(buckets) - {key}
                            else old(buckets)[key := if last then b[..|b| - 1] else b[1..]])
      ensures old(key !in buckets) ==>
                r == (if default.Some? then Ok(default.value) else Err(MissingKey(key))) &&
                ledger == old(ledger) && buckets == old(buckets)
    {
      if key in buckets {
        var values := buckets[key];
        ghost var L1, B1 := PopSlot(ledger, buckets, key, counter, last);
        var popped := if last then values[|values| - 1] else values[0];
        var rest := if last then values[..|values| - 1] else values[1..];
        ledger, buckets := DropIndices(ledger, {popped.index}), if |values| == 1 then buckets - {key} else buckets[key := rest];
        r := Ok(popped.value);
      } else if default.Some? {
        r := Ok(default.value);
      } else {
        r := Err(MissingKey(key));
      }
    }

    /** popfirst: _pop of the key's first value. */
    method PopFirst(key: K, default: Option<V>) returns (r: Result<V, Failure<K>>)
      requires Valid()
      modifies this
      ensures Valid()
      ensures counter == old(counter)
      ensures old(key in buckets) ==>
                var b := old(buckets[key]);
                b != [] &&
                ledger == DropIndices(old(ledger), {b[0].index}) &&
                buckets == (if |b| == 1 then old(buckets) - {key} else old(buckets)[key := b[1..]])
      ensures old(key !in buckets) ==> ledger == old(ledger) && buckets == old(buckets)
      ensures old(ValuesFor(Items(), key)) != [] ==>
                r == Ok(old(ValuesFor(Items(), key))[0]) &&
                Items() == RemoveFirstOf(old(Items()), key)
      ensures old(ValuesFor(Items(), key)) == [] ==>
                r == (if default.Some? then Ok(default.value) else Err(MissingKey(key))) &&
                Items() == old(Items())
    {
      PopSlotPairs(ledger, buckets, key, counter, false);
      r := PopValue(key, default, false);
    }

    /** poplast: _pop of the key's last value. */
    method PopLast(key: K, default: Option<V>) returns (r: Result<V, Failure<K>>)
      requires Valid()
      modifies this
      ensures Valid()
      ensures counter == old(counter)
      ensures old(key in buckets) ==>
                var b := old(buckets[key]);
                b != [] &&
                ledger == DropIndices(old(ledger), {b[|b| - 1].index}) &&
                buckets == (if |b| == 1 then old(buckets) - {key} else old(buckets)[key := b[..|b| - 1]])
      ensures old(key !in buckets) ==> ledger == old(ledger) && buckets == old(buckets)
      ensures old(ValuesFor(Items(), key)) != [] ==>
                r == Ok(old(ValuesFor(Items(), key))[|old(ValuesFor(Items(), key))| - 1]) &&
                Items() == RemoveLastOf(old(Items()), key)
      ensures old(ValuesFor(Items(), key)) == [] ==>
                r == (if default.Some? then Ok(default.value) else Err(MissingKey(key))) &&
                Items() == old(Items())
    {
      PopSlotPairs(ledger, buckets, key, counter, true);
      r := PopValue(key, default, true);
    }

    /** pop: the same as poplast. */
    method Pop(key: K, default: Option<V>) returns (r: Result<V, Failure<K>>)
      requires Valid()
      modifies this
      ensures Valid()
      ensures counter == old(counter)
      ensures old(key in buckets) ==>
                var b := old(buckets[key]);
                b != [] &&
                ledger == DropIndices(old(ledger), {b[|b| - 1].index}) &&
                buckets == (if |b| == 1 then old(buckets) - {key} else old(buckets)[key := b[..|b| - 1]])
      ensures old(key !in buckets) ==> ledger == old(ledger) && buckets == old(buckets)
      ensures old(ValuesFor(Items(), key)) != [] ==>
                r == Ok(old(ValuesFor(Items(), key))[|old(ValuesFor(Items(), key))| - 1]) &&
                Items() == RemoveLastOf(old(Items()), key)
      ensures old(ValuesFor(Items(), key)) == [] ==>
                r == (if default.Some? then Ok(default.value) else Err(MissingKey(key))) &&
                Items() == old(Items())
    {
      PopSlotPairs(ledger, buckets, key, counter, true);
      r := PopValue(key, default, true);
    }

    /** `del d[key]`: pop without a default, so only the key's LAST value is
        removed, and KeyError(key) for an absent key. */
    method DelItem(key: K) returns (r: Result<(), Failure<K>>)
      requires Valid()
      modifies this
      ensures Valid()
      ensures counter == old(counter)
      ensures old(key in buckets) ==>
                var b := old(buckets[key]);
                b != [] &&
                ledger == DropIndices(old(ledger), {b[|b| - 1].index}) &&
                buckets == (if |b| == 1 then old(buckets) - {key} else old(buckets)[key := b[..|b| - 1]])
      ensures old(key !in buckets) ==> ledger == old(ledger) && buckets == old(buckets)
      ensures old(ValuesFor(Items(), key)) != [] ==>
                r == Ok(()) && Items() == RemoveLastOf(old(Items()), key)
      ensures old(ValuesFor(Items(), key)) == [] ==>
                r == Err(MissingKey(key)) && Items() == old(Items())
    {
      var popped := Pop(key, None);
      r := if popped.Ok? then Ok(()) else Err(popped.error);
    }

    /** _popitem: removes and returns the globally first pair (or the last,
        when `last`) and the head (or tail) of its key's bucket, which is the
        same entry; on an empty container the default, or KeyError without
        one, and nothing changes. */
    method PopItem(default: Option<(K, V)>, last: bool) returns (r: Result<(K, V), Failure<K>>)
      requires Valid()
      modifies this
      ensures Valid()
      ensures counter == old(counter)
      ensures old(Items()) != [] ==>
                r == Ok(if last then old(Items())[|old(Items())| - 1] else old(Items())[0]) &&
                Items() == (if last then old(Items())[..|old(Items())| - 1] else old(Items())[1..]) &&
                ledger == (if last then old(ledger)[..|old(ledger)| - 1] else old(ledger)[1..])
      ensures old(Items()) != [] ==>
                var e := if last then old(ledger)[|old(ledger)| - 1] else old(ledger)[0];
                e.key in old(buckets) &&
                var b := old(buckets)[e.key];
                b != [] &&
                buckets == (if |b| == 1 then old(buckets) - {e.key}
                            else old(buckets)[e.key := if last then b[..|b| - 1] else b[1..]])
      ensures old(Items()) == [] ==>
                r == (if default.Some? then Ok(default.value) else Err(DictionaryEmpty)) &&
                ledger == old(ledger) && buckets == old(buckets)
    {
      if ledger == [] {
        r := if default.Some? then Ok(default.value) else Err(DictionaryEmpty);
        return;
      }
      var item := if last then ledger[|ledger| - 1] else ledger[0];
      ghost var L1, B1 := PopEntry(ledger, buckets, counter, last);
      var values := buckets[item.key];
      var rest := if last then values[..|values| - 1] else values[1..];
      ledger, buckets := (if last then ledger[..|ledger| - 1] else ledger[1..]),
                         (if |values| == 1 then buckets - {item.key} else buckets[item.key := rest]);
      assert ledger == L1 && buckets == B1;
      r := Ok((item.key, item.value));
    }

    /** popfirstitem: _popitem of the globally first pair. */
    method PopFirstItem(default: Option<(K, V)>) returns (r: Result<(K, V), Failure<K>>)
      requires Valid()
      modifies this
      ensures Valid()
      ensures counter == old(counter)
      ensures old(Items()) != [] ==>
                var e := old(ledger)[0];
                ledger == old(ledger)[1..] &&
                e.key in old(buckets) &&
                var b := old(buckets)[e.key];
                b != [] &&
                buckets == (if |b| == 1 then old(buckets) - {e.key} else old(buckets)[e.key := b[1..]])
      ensures old(Items()) == [] ==> ledger == old(ledger) && buckets == old(buckets)
      ensures old(Items()) != [] ==> r == Ok(old(Items())[0]) && Items() == old(Items())[1..]
      ensures old(Items()) == [] ==>
                r == (if default.Some? then Ok(default.value) else Err(DictionaryEmpty)) &&
                Items() == []
    {
      r := PopItem(default, false);
    }

    /** poplastitem: _popitem of the globally last pair. */
    method PopLastItem(default: Option<(K, V)>) returns (r: Result<(K, V), Failure<K>>)
      requires Valid()
      modifies this
      ensures Valid()
      ensures counter == old(counter)
      ensures old(Items()) != [] ==>
                var e := old(ledger)[|old(ledger)| - 1];
                ledger == old(ledger)[..|old(ledger)| - 1] &&
                e.key in old(buckets) &&
                var b := old(buckets)[e.key];
                b != [] &&
                buckets == (if |b| == 1 then old(buckets) - {e.key} else old(buckets)[e.key := b[..|b| - 1]])
      ensures old(Items()) == [] ==> ledger == old(ledger) && buckets == old(buckets)
      ensures old(Items()) != [] ==>
                r == Ok(old(Items())[|old(Items())| - 1]) && Items() == old(Items())[..|old(Items())| - 1]
      ensures old(Items()) == [] ==>
                r == (if default.Some? then Ok(default.value) else Err(DictionaryEmpty)) &&
                Items() == []
    {
      r := PopItem(default, true);
    }

    /** _extend_fast: first every pair of `src` becomes a ledger entry with
        consecutive fresh indices, then a second pass appends each one's slot
        to its key's bucket. The pairs end up at the global tail in order. */
    method ExtendFast(src: seq<(K, V)>)
      requires Valid()
      modifies this
      ensures Valid()
      ensures ledger == old(ledger) + Enumerate(src, old(counter))
      ensures forall k :: BucketOf(buckets, k) ==
                            BucketOf(old(buckets), k) + Restrict(Enumerate(src, old(counter)), k)
      ensures counter == old(counter) + |src|
      ensures Items() == old(Items()) + src
    {
      var index := counter;
      ghost var L0, B0 := ledger, buckets;
      counter := counter + |src|;
      ledger := ledger + Enumerate(src, index);

      var next := index;
      var j := 0;
      while j < |src|
        invariant 0 <= j <= |src| && next == index + j
        invariant ledger == L0 + Enumerate(src, index) && counter == index + |src|
        invariant buckets == GrowBy(B0, Enumerate(src[..j], index))
      {
        var (key, value) := src[j];
        EnumerateStep(src, index, j);
        GrowByStep(B0, Enumerate(src[..j], index), Entry(next, key, value));
        buckets := buckets[key := BucketOf(buckets, key) + [Slot(next, value)]];
        next := next + 1;
        j := j + 1;
      }
      assert src[..j] == src;
      ExtendValid(L0, B0, src, index, buckets);
    }

    /** _extend_slow: one pair at a time, its slot appended to its key's
        bucket and its entry to the ledger; the counter is advanced once, at
        the end. Same outcome as _extend_fast. */
    method ExtendSlow(src: seq<(K, V)>)
      requires Valid()
      modifies this
      ensures Valid()
      ensures ledger == old(ledger) + Enumerate(src, old(counter))
      ensures forall k :: BucketOf(buckets, k) ==
                            BucketOf(old(buckets), k) + Restrict(Enumerate(src, old(counter)), k)
      ensures counter == old(counter) + |src|
      ensures Items() == old(Items()) + src
    {
      var index := counter;
      ghost var L0, B0, start := ledger, buckets, counter;
      var j := 0;
      while j < |src|
        invariant 0 <= j <= |src| && index == start + j
        invariant ledger == L0 + Enumerate(src[..j], start) && counter == start
        invariant buckets == GrowBy(B0, Enumerate(src[..j], start))
      {
        var (key, value) := src[j];
        EnumerateStep(src, start, j);
        GrowByStep(B0, Enumerate(src[..j], start), Entry(index, key, value));
        buckets := buckets[key := BucketOf(buckets, key) + [Slot(index, value)]];
        ledger := ledger + [Entry(index, key, value)];
        index := index + 1;
        j := j + 1;
      }
      counter := index;
      assert src[..j] == src;
      ExtendValid(L0, B0, src, start, buckets);
    }

    /** extend: every pair of `src` is added at the global tail, in order;
        each key's values grow by that key's values in `src`. */
    method Extend(src: seq<(K, V)>)
      requires Valid()
      modifies this
      ensures Valid()
      ensures ledger == old(ledger) + Enumerate(src, old(counter))
      ensures forall k :: BucketOf(buckets, k) ==
                            BucketOf(old(buckets), k) + Restrict(Enumerate(src, old(counter)), k)
      ensures counter == old(counter) + |src|
      ensures Items() == old(Items()) + src
      ensures forall k :: ValuesFor(Items(), k) == ValuesFor(old(Items()), k) + ValuesFor(src, k)
    {
      ghost var I0 := Items();
      ExtendFast(src);
      forall k
        ensures ValuesFor(Items(), k) == ValuesFor(I0, k) + ValuesFor(src, k)
      {
        ValuesForConcat(I0, src, k);
      }
    }

    /** _try_telete_all_keys: deletes all entries of every key `src` mentions,
        visiting the keys once each in order of first appearance. */
    method TryDeleteAllKeys(src: seq<(K, V)>)
      requires Valid()
      modifies this
      ensures Valid()
      ensures ledger == DropKeys(old(ledger), KeySet(src))
      ensures buckets == old(buckets) - KeySet(src)
      ensures counter == old(counter)
      ensures Items() == WithoutKeys(old(Items()), KeySet(src))
    {
      var keys := UniqueKeys(src);
      ghost var L0, B0 := ledger, buckets;
      DropKeysEmpty(L0);
      assert Elements(keys[..0]) == {};
      assert B0 - {} == B0;
      var j := 0;
      while j < |keys|
        invariant 0 <= j <= |keys|
        invariant Valid()
        invariant ledger == DropKeys(L0, Elements(keys[..j]))
        invariant buckets == B0 - Elements(keys[..j])
        invariant counter == old(counter)
      {
        ghost var S := Elements(keys[..j]);
        var _ := TryDeleteAll(keys[j]);
        DropKeysTwice(L0, S, {keys[j]});
        ElementsSnoc(keys, j);
        j := j + 1;
      }
      assert keys[..j] == keys;
      UniqueKeysElements(src);
      DropKeysPairs(L0, KeySet(src));
    }

    /** update: the entries of every key `src` mentions are deleted, the other
        entries keep their order, and then `src` is added at the tail; so each
        key `src` mentions ends up with exactly its values in `src`, and every
        other key keeps its values. */
    method Update(src: seq<(K, V)>)
      requires Valid()
      modifies this
      ensures Valid()
      ensures ledger == DropKeys(old(ledger), KeySet(src)) + Enumerate(src, old(counter))
      ensures forall k :: BucketOf(buckets, k) ==
                            (if k in KeySet(src) then [] else BucketOf(old(buckets), k)) +
                            Restrict(Enumerate(src, old(counter)), k)
      ensures counter == old(counter) + |src|
      ensures Items() == WithoutKeys(old(Items()), KeySet(src)) + src
      ensures forall k :: ValuesFor(Items(), k) ==
                            if k in Keys(src) then ValuesFor(src, k) else ValuesFor(old(Items()), k)
    {
      ghost var I0, B0 := Items(), buckets;
      TryDeleteAllKeys(src);
      ghost var B1 := buckets;
      Extend(src);
      forall k
        ensures ValuesFor(Items(), k) == if k in Keys(src) then ValuesFor(src, k) else ValuesFor(I0, k)
        ensures BucketOf(B1, k) == if k in KeySet(src) then [] else BucketOf(B0, k)
      {
        UpdateValues(I0, src, k);
      }
    }

    /** _copy_from: this container takes a copy of the other's ledger, counter
        and buckets (in this container's own bucket kind). */
    method CopyFrom(other: OrderedMultiDict<K, V>)
      requires other.Valid()
      modifies this
      ensures Valid()
      ensures ledger == old(other.ledger) && buckets == old(other.buckets) && counter == old(other.counter)
      ensures Items() == old(other.Items())
    {
      ledger := other.ledger;
      counter := other.counter;
      buckets := other.buckets;
    }

    /** copy: a new container of the same kind with the same contents. */
    method Copy() returns (c: OrderedMultiDict<K, V>)
      requires Valid()
      ensures fresh(c) && c.strategy == strategy && c.Valid()
      ensures c.ledger == ledger && c.buckets == buckets && c.counter == counter
      ensures c.Items() == Items()
    {
      c := new OrderedMultiDict(strategy);
      c.CopyFrom(this);
    }

    /** _load for a source that is not a container: clear, then extend. */
    method Load(src: seq<(K, V)>)
      modifies this
      ensures Valid()
      ensures ledger == Enumerate(src, 0) && counter == |src|
      ensures Items() == src
    {
      Clear();
      Extend(src);
      assert [] + Enumerate(src, 0) == Enumerate(src, 0);
    }

    /** `__setstate__` on a constructed container: loads the given items. */
    method SetState(state: seq<(K, V)>)
      modifies this
      ensures Valid()
      ensures ledger == Enumerate(state, 0) && counter == |state|
      ensures Items() == state
    {
      Load(state);
    }

    // -------------------------------------------------------------------------
    // Comparing

    /** `__eq__`: NotImplemented for a container of the other kind; otherwise
        equal exactly when the items views are equal, tested by length first
        and then pair by pair. */
    function Eq(other: OrderedMultiDict<K, V>): (r: EqOutcome)
      reads this, other
      ensures r == NotImplemented <==> strategy != other.strategy
      ensures strategy == other.strategy ==> r == Answer(Items() == other.Items())
    {
      if strategy != other.strategy then NotImplemented
      else if |ledger| != |other.ledger| then Answer(false)
      else Answer(AllEqual(Items(), other.Items()))
    }

    /** `__ne__` as written: the negated truth value of `__eq__`, where
        NotImplemented counts as true, so a container of the other kind is
        reported as not unequal. */
    function NeAsWritten(other: OrderedMultiDict<K, V>): (r: bool)
      reads this, other
      ensures strategy != other.strategy ==> !r
      ensures strategy == other.strategy ==> (r <==> Items() != other.Items())
    {
      !Truthy(Eq(other))
    }

    /** `__ne__` as evidently intended: NotImplemented passed on, any answer
        negated. */
    function Ne(other: OrderedMultiDict<K, V>): (r: EqOutcome)
      reads this, other
      ensures r == NotImplemented <==> strategy != other.strategy
      ensures strategy == other.strategy ==> r == Answer(Items() != other.Items())
    {
      match Eq(other)
      case NotImplemented => NotImplemented
      case Answer(equal) => Answer(!equal)
    }

    /** clear: both structures empty and the counter back at zero. */
    method Clear()
      modifies this
      ensures Valid()
      ensures ledger == [] && buckets == map[] && counter == 0
      ensures Items() == []
    {
      buckets := map[];
      ledger := [];
      counter := 0;
    }
  }

  /** `a == b`: `a.__eq__(b)`, or, when that is NotImplemented, identity
      (the reflected `b.__eq__(a)` is then NotImplemented as well). Two
      containers are equal exactly when they are of the same kind and have
      the same items. */
  function EqualsOp<K(==, !new), V(==, !new)>(a: OrderedMultiDict<K, V>, b: OrderedMultiDict<K, V>): (r: bool)
    reads a, b
    ensures r <==> a.strategy == b.strategy && a.Items() == b.Items()
  {
    var forward := a.Eq(b);
    if forward.Answer? then forward.equal else a == b
  }

  /** `a != b` with `__ne__` as written: `a.__ne__(b)` always answers, so
      neither the reflected call nor the identity fallback is reached. */
  function NotEqualsOpAsWritten<K(==, !new), V(==, !new)>(a: OrderedMultiDict<K, V>, b: OrderedMultiDict<K, V>): (r: bool)
    reads a, b
    ensures r <==> a.strategy == b.strategy && a.Items() != b.Items()
  {
    a.NeAsWritten(b)
  }

  /** With `__ne__` as written, containers of different kinds are neither
      equal nor unequal: `==` and `!=` both answer false. */
  lemma NeAsWrittenDisagrees<K(!new), V(!new)>(a: OrderedMultiDict<K, V>, b: OrderedMultiDict<K, V>)
    requires a.strategy != b.strategy
    ensures !EqualsOp(a, b) && !NotEqualsOpAsWritten(a, b)
  {
  }

  /** `a != b` with `__ne__` as intended: `a.__ne__(b)`, or, when that is
      NotImplemented (and so is the reflected `b.__ne__(a)`), non-identity;
      always the negation of `a == b`. */
  function NotEqualsOp<K(==, !new), V(==, !new)>(a: OrderedMultiDict<K, V>, b: OrderedMultiDict<K, V>): (r: bool)
    reads a, b
    ensures r <==> !EqualsOp(a, b)
  {
    var forward := a.Ne(b);
    if forward.Answer? then forward.equal else a != b
  }
}
