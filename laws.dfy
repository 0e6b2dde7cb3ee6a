/** Whole-container behaviour over several calls: the documented update
    example, the pickling round trip, the independence of a copy, what
    `del d[key]` leaves behind, and how `==` and `!=` treat containers of
    the two kinds. */
module Laws {
  import opened Pairs
  import opened MultiDict

  /** The pairs of the example in the docstring of `update`. */
  lemma UpdateDocPairs(init: seq<(int, int)>, src: seq<(int, int)>)
    requires init == [(1, 1), (2, 2), (1, 11), (2, 22), (3, 3)]
    requires src == [(1, 100), (3, 300), (1, 110)]
    ensures WithoutKeys(init, KeySet(src)) + src == [(2, 2), (2, 22), (1, 100), (3, 300), (1, 110)]
  {
    assert Keys(src) == [1, 3, 1];
    assert KeySet(src) == {1, 3};
    assert WithoutKeys(init[4..], {1, 3}) == [];
    assert WithoutKeys(init[3..], {1, 3}) == [(2, 22)];
    assert WithoutKeys(init[2..], {1, 3}) == [(2, 22)];
    assert WithoutKeys(init[1..], {1, 3}) == [(2, 2), (2, 22)];
  }

  /** The example in the docstring of `update`: the entries of keys 1 and 3
      go, key 2 keeps its entries in place, and the new pairs follow in their
      order. */
  method UpdateDocExample() returns (d: OrderedMultiDict<int, int>)
    ensures d.Valid()
    ensures d.Items() == [(2, 2), (2, 22), (1, 100), (3, 300), (1, 110)]
  {
    var init := [(1, 1), (2, 2), (1, 11), (2, 22), (3, 3)];
    var src := [(1, 100), (3, 300), (1, 110)];
    d := new OrderedMultiDict.FromPairs(ListBuckets, init);
    d.Update(src);
    UpdateDocPairs(init, src);
  }

  /** `__setstate__(__getstate__(d))` into a new container of the same kind,
      built by its constructor, reproduces the items, and the two compare
      equal. */
  method StateRoundTrip<K(==, !new), V(==, !new)>(d: OrderedMultiDict<K, V>) returns (c: OrderedMultiDict<K, V>)
    requires d.Valid()
    ensures fresh(c) && c.Valid()
    ensures c.Items() == d.Items()
    ensures EqualsOp(c, d)
  {
    c := new OrderedMultiDict(d.strategy);
    c.SetState(d.GetState());
  }

  /** A copy shares no state with its original: the copy is a new object,
      and adding to it leaves the original's items as they were. */
  method CopyIsIndependent<K(==, !new), V(==, !new)>(d: OrderedMultiDict<K, V>, key: K, value: V)
    returns (c: OrderedMultiDict<K, V>)
    requires d.Valid()
    ensures fresh(c) && c.Valid() && d.Valid()
    ensures d.Items() == old(d.Items())
    ensures c.Items() == d.Items() + [(key, value)]
  {
    c := d.Copy();
    c.Add(key, value);
  }

  /** `del d[key]` removes only the key's last value: with two values the key
      is still present afterwards. */
  method DelItemKeepsEarlierValues() returns (d: OrderedMultiDict<int, int>)
    ensures d.Valid()
    ensures d.Items() == [(1, 10), (2, 20)]
    ensures d.Contains(1)
  {
    d := new OrderedMultiDict.FromPairs(ListBuckets, [(1, 10), (2, 20), (1, 11)]);
    assert ValuesFor(d.Items(), 1) == [10, 11];
    var _ := d.DelItem(1);
    assert d.Items() == [(1, 10), (2, 20)];
    assert ValuesFor(d.Items(), 1) == [10];
  }

  /** Two empty containers of different kinds, compared with `__ne__` as
      written: `==` and `!=` are both false. With `__ne__` as intended, `!=`
      is true. */
  method EmptyOfBothKinds() returns (eq: bool, neAsWritten: bool, ne: bool)
    ensures !eq && !neAsWritten && ne
  {
    var a := new OrderedMultiDict<int, int>(ListBuckets);
    var b := new OrderedMultiDict<int, int>(DequeBuckets);
    eq := EqualsOp(a, b);
    neAsWritten := NotEqualsOpAsWritten(a, b);
    ne := NotEqualsOp(a, b);
  }
}
