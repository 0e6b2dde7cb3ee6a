# Ordered multi-valued dictionary, modelled in Dafny

This project models the container engine of `better_orderedmultidict`. It covers
`OrderedMultiDictBase` with its two subclasses `OrderedMultiDict` (list buckets)
and `DeOrderedMultiDict` (deque buckets), and the items, keys, values and
unique-keys views.

A container holds three pieces of state, and every operation updates them
together:

- the ledger `_items`: (index, key, value) entries in insertion order;
- the buckets `_map`: for each key, its (index, value) slots in order;
- the counter `_index`: the number the next entry receives.

The class `MultiDict.OrderedMultiDict` keeps these as the fields `ledger`,
`buckets` and `counter`. Its invariant `Valid()` says three things:

- the ledger's indices increase, and all of them are below the counter;
- every bucket is non-empty;
- every bucket is exactly the ledger restricted to its key, and every ledger key
  has a bucket.

The abstract contents are `Items()`, the ledger's (key, value) pairs in order.
Every mutator is a method that keeps `Valid()` and states its new ledger,
buckets and counter exactly. The loading methods (`FromPairs`, `Load`,
`SetState`) state the ledger and the counter. Their buckets are then fixed by
`Valid()`, because `Ledger.BucketsDetermined` proves that only one bucket map
is consistent with a given ledger. Every mutator also states what the change
means for `Items()` and for `getall` of each key. The readers are functions whose
contracts tie the bucket lookup to the items view.

Modules:

- `Wrappers`: `Option` and `Result`.
- `Pairs`: specification functions over lists of pairs: the keys/values views,
  `getall` as `ValuesFor`, removal of a key's first or last pair,
  `dict.fromkeys` deduplication, and their lemmas.
- `Ledger`: the entry and slot types, the consistency invariant, and the lemmas
  that each mutation keeps it.
- `MultiDict`: the class, the two bucket kinds, and the comparison operators.
- `Laws`: properties that take several calls: the documented `update` example,
  the pickling round trip, the independence of a copy, `del d[key]`, and
  `==`/`!=` across the two kinds.

Interaction with the outside world is not part of this model. The model has
`__getstate__` and `__setstate__` on containers built by a constructor, but
not `pickle`, `copy.copy` or `copy.deepcopy`, which call `__setstate__` on an
object whose `__init__` never ran (see "## Left out"). Printing, `repr` and
timing are not modelled.

## Model

| member | source | states |
|---|---|---|
| MultiDict.OrderedMultiDict.constructor | src/better_orderedmultidict/_orderedmultidict.py:81-89 | a new container is valid and empty: empty ledger and buckets, counter 0, no items |
| MultiDict.OrderedMultiDict.FromPairs | src/better_orderedmultidict/_orderedmultidict.py:81-101 | `__init__` with a list of pairs: valid, the ledger numbers the pairs from 0, the counter is their number, and the items are exactly the given pairs |
| MultiDict.OrderedMultiDict.GetAll | src/better_orderedmultidict/_orderedmultidict.py:294-305 | the values under the key, oldest first, for a present key; the default (an empty list without one) for an absent key |
| MultiDict.OrderedMultiDict.GetLast | src/better_orderedmultidict/_orderedmultidict.py:269-274 | the last element of getall for a present key, otherwise the default |
| MultiDict.OrderedMultiDict.Get | src/better_orderedmultidict/_orderedmultidict.py:247-252 | the same as getlast: the last value of a present key, otherwise the default |
| MultiDict.OrderedMultiDict.GetFirst | src/better_orderedmultidict/_orderedmultidict.py:259-262 | the first element of getall for a present key, otherwise the default |
| MultiDict.OrderedMultiDict.GetItem | src/better_orderedmultidict/_orderedmultidict.py:654-657 | `d[key]` is the key's last value; an absent key gives KeyError(key) |
| MultiDict.OrderedMultiDict.Contains | src/better_orderedmultidict/_orderedmultidict.py:651-652 | the bucket test is true exactly when the key occurs in the keys view, which is exactly when getall of the key is non-empty |
| MultiDict.OrderedMultiDict.ContainsItem | src/better_orderedmultidict/_orderedmultidict.py:625-628 | searching only the key's bucket gives true exactly when the pair occurs in the items view |
| MultiDict.OrderedMultiDict.ContainsValue | src/better_orderedmultidict/_orderedmultidict.py:630-632 | true exactly when some present key's getall holds the value |
| MultiDict.OrderedMultiDict.Length | src/better_orderedmultidict/_orderedmultidict.py:645-646 | `len(d)` is the number of items and also the sum of the bucket lengths over the unique keys |
| MultiDict.OrderedMultiDict.IsNonEmpty | src/better_orderedmultidict/_orderedmultidict.py:665-666 | testing the buckets gives true exactly when there are items |
| MultiDict.OrderedMultiDict.UniqueKeysLength | src/better_orderedmultidict/_orderedmultidict.py:760-761 | the number of buckets is the length of the unique-keys view |
| MultiDict.OrderedMultiDict.KeysView | src/better_orderedmultidict/_orderedmultidict.py:729-741 | one key per ledger entry, in ledger order, duplicates kept |
| MultiDict.OrderedMultiDict.ValuesView | src/better_orderedmultidict/_orderedmultidict.py:714-726 | one value per ledger entry, in ledger order |
| MultiDict.OrderedMultiDict.UniqueKeysView | src/better_orderedmultidict/_orderedmultidict.py:744-758 | no key repeats, the keys are exactly those with a bucket, each occurs in the keys view, and the order is that of `Dedup` on the keys view, so each key appears at its first appearance (`Pairs.DedupFirstAppearance`) |
| MultiDict.OrderedMultiDict.UniqueKeysReversed | src/better_orderedmultidict/_orderedmultidict.py:756-758 | the unique-keys view iterated backwards: the unique keys in reverse, so ordered from the latest first appearance back to the earliest |
| MultiDict.OrderedMultiDict.Items | src/better_orderedmultidict/_orderedmultidict.py:700-708 | the items view (`items()`, iterated in order) is the ledger's (key, value) pairs: one per ledger entry, in ledger order |
| MultiDict.OrderedMultiDict.GetState | src/better_orderedmultidict/_orderedmultidict.py:674-675 | `__getstate__` lists every ledger entry's pair, in ledger order |
| MultiDict.OrderedMultiDict.Add | src/better_orderedmultidict/_orderedmultidict.py:334-353 | a fresh entry numbered by the old counter goes at the ledger tail and the key's bucket tail; the counter grows by one; the pair goes at the end of the items; the key's getall gains the value at its end; every other key keeps its values |
| MultiDict.OrderedMultiDict.AddAll | src/better_orderedmultidict/_orderedmultidict.py:355-378 | the values become consecutive fresh entries at the ledger tail and the bucket tail; an empty list changes nothing and creates no bucket; the key's getall gains exactly the values and the other keys are untouched |
| MultiDict.OrderedMultiDict.SetDefault | src/better_orderedmultidict/_orderedmultidict.py:307-311 | for a present key: its last value is returned and nothing changes; for an absent key: the default is added as a fresh entry and returned; afterwards the result is the key's last value |
| MultiDict.OrderedMultiDict.SetDefaultAll | src/better_orderedmultidict/_orderedmultidict.py:313-328 | for a present key: its values are returned and nothing changes; for an absent key: the list is added (an empty one adds nothing, so the key stays absent) and returned; afterwards getall of the key is the result |
| MultiDict.OrderedMultiDict.SetAll | src/better_orderedmultidict/_orderedmultidict.py:330-332 | the key's entries are deleted and the new values are added at the global tail; getall of the key is exactly the new list; every other key keeps its values |
| MultiDict.OrderedMultiDict.SetItem | src/better_orderedmultidict/_orderedmultidict.py:659-660 | `d[key] = v` is setall with one value: the key's old pairs are gone, `(key, v)` is the last item, and getall of the key is `[v]` |
| MultiDict.OrderedMultiDict.TryDeleteAll | src/better_orderedmultidict/_orderedmultidict.py:567-578 | the result is true exactly when the key was present; every entry of the key and its bucket are gone; the other entries keep their order; the counter is unchanged |
| MultiDict.OrderedMultiDict.DeleteAll | src/better_orderedmultidict/_orderedmultidict.py:554-565 | the same deletion; the result is KeyError(key) exactly when the key was absent |
| MultiDict.DrainBucket | src/better_orderedmultidict/_orderedmultidict.py:440-445 | the popall loop collects the bucket's values in order and deletes exactly the ledger entries the bucket lists |
| MultiDict.OrderedMultiDict.PopAll | src/better_orderedmultidict/_orderedmultidict.py:422-449 | for a present key: getall of the key is returned, exactly that key's entries and bucket are removed, and the other entries keep their order; for an absent key: the default or KeyError(key), with nothing changed |
| MultiDict.OrderedMultiDict.PopValue | src/better_orderedmultidict/_orderedmultidict.py:542-552 | `_pop` on the state: for a key with a bucket, the head (or, when `last`, the tail) of the bucket is popped, its value returned and its ledger entry deleted, and an emptied bucket is deleted; for an absent key, the default or KeyError(key), with nothing changed |
| MultiDict.OrderedMultiDict.PopFirst | src/better_orderedmultidict/_orderedmultidict.py:508-509 | returns the first value of getall and removes exactly the key's earliest pair from the items; the bucket's head slot and its ledger entry go, an emptied bucket goes with them, and the counter is unchanged; absent key: the default or KeyError, with ledger and buckets unchanged |
| MultiDict.OrderedMultiDict.PopLast | src/better_orderedmultidict/_orderedmultidict.py:526-530 | returns the last value of getall and removes exactly the key's latest pair; the bucket's tail slot and its ledger entry go, an emptied bucket goes with them, and the counter is unchanged; absent key: the default or KeyError, with ledger and buckets unchanged |
| MultiDict.OrderedMultiDict.Pop | src/better_orderedmultidict/_orderedmultidict.py:539-540 | the same as poplast, with the same ledger, bucket and counter clauses |
| MultiDict.OrderedMultiDict.DelItem | src/better_orderedmultidict/_orderedmultidict.py:662-663 | `del d[key]` removes only the key's latest pair, that is, the bucket's tail slot and its ledger entry, with the counter unchanged; an absent key gives KeyError(key) and the ledger and buckets are unchanged |
| MultiDict.OrderedMultiDict.PopItem | src/better_orderedmultidict/_orderedmultidict.py:477-492 | for a non-empty container: the globally first (or last) pair is returned and removed from the ledger, and its key's bucket loses its head (or tail), deleted when emptied; for an empty one: the default or KeyError, with nothing changed |
| MultiDict.OrderedMultiDict.PopFirstItem | src/better_orderedmultidict/_orderedmultidict.py:461-462 | returns and removes the first item: the ledger loses its head, and the head slot of that entry's bucket goes too (the bucket itself once emptied); the counter is unchanged; on an empty container, the default or KeyError, with nothing changed |
| MultiDict.OrderedMultiDict.PopLastItem | src/better_orderedmultidict/_orderedmultidict.py:474-475 | returns and removes the last item: the ledger loses its last entry, and the tail slot of that entry's bucket goes too (the bucket itself once emptied); the counter is unchanged; on an empty container, the default or KeyError, with nothing changed |
| MultiDict.OrderedMultiDict.ExtendFast | src/better_orderedmultidict/_orderedmultidict.py:185-199 | the pairs are numbered from the old counter and appended to the ledger; each bucket grows by its key's new slots; the counter advances by the number of pairs; the items become the old items followed by the pairs |
| MultiDict.OrderedMultiDict.ExtendSlow | src/better_orderedmultidict/_orderedmultidict.py:201-217 | the one-pair-at-a-time loop ends in the same ledger, buckets, counter and items as `_extend_fast` |
| MultiDict.OrderedMultiDict.Extend | src/better_orderedmultidict/_orderedmultidict.py:158-183 | the items become the old items followed by the source pairs, and each key's getall grows by its values in the source |
| MultiDict.OrderedMultiDict.TryDeleteAllKeys | src/better_orderedmultidict/_orderedmultidict.py:133-145 | for a list source: every key the source mentions loses all its entries and its bucket; the other entries keep their order; the counter is unchanged |
| MultiDict.OrderedMultiDict.Update | src/better_orderedmultidict/_orderedmultidict.py:114-131 | for a list source: the items become the old items without the pairs of keys the source mentions, followed by the source; each mentioned key's getall is its values in the source, and every other key keeps its values |
| MultiDict.OrderedMultiDict.CopyFrom | src/better_orderedmultidict/_orderedmultidict.py:219-224 | this container takes the other's ledger, buckets and counter, so it has the same items and is valid |
| MultiDict.OrderedMultiDict.Copy | src/better_orderedmultidict/_orderedmultidict.py:226-227 | a new container of the same kind with the same ledger, buckets, counter and items |
| MultiDict.OrderedMultiDict.Load | src/better_orderedmultidict/_orderedmultidict.py:91-101 | clear, then extend: the items are exactly the given pairs, numbered from 0 |
| MultiDict.OrderedMultiDict.SetState | src/better_orderedmultidict/_orderedmultidict.py:677-678 | `__setstate__` on a container built by a constructor loads the given list: the ledger numbers its pairs from 0, the counter is their number, and the items are exactly that list |
| MultiDict.OrderedMultiDict.Clear | src/better_orderedmultidict/_orderedmultidict.py:229-232 | both structures are empty and the counter is back at 0 |
| MultiDict.OrderedMultiDict.Eq | src/better_orderedmultidict/_orderedmultidict.py:634-640 | NotImplemented exactly for a container of the other kind; otherwise the answer is whether the items views are equal (length test, then pair by pair) |
| MultiDict.AllEqual | src/better_orderedmultidict/_orderedmultidict.py:640 | for sequences of equal length, `all(map(eq, a, b))` holds exactly when they are equal |
| MultiDict.EqualsOp | src/better_orderedmultidict/_orderedmultidict.py:634-640 | `a == b` holds exactly when both containers are of the same kind and have the same items |
| MultiDict.OrderedMultiDict.NeAsWritten | src/better_orderedmultidict/_orderedmultidict.py:642-643 | `__ne__` as written: false for a container of the other kind, otherwise true exactly when the items differ |
| MultiDict.NotEqualsOpAsWritten | src/better_orderedmultidict/_orderedmultidict.py:642-643 | `a != b` as written holds exactly when the kinds agree and the items differ |
| MultiDict.NeAsWrittenDisagrees | src/better_orderedmultidict/_orderedmultidict.py:634-643 | for containers of different kinds, `==` and `!=` as written are both false |
| MultiDict.OrderedMultiDict.Ne | src/better_orderedmultidict/_orderedmultidict.py:642-643 | `__ne__` as intended: NotImplemented exactly for the other kind, otherwise whether the items differ |
| MultiDict.NotEqualsOp | src/better_orderedmultidict/_orderedmultidict.py:642-643 | `a != b` as intended is always the negation of `a == b` |
| Ledger.EntryInBucketOnce | src/better_orderedmultidict/_orderedmultidict.py:485-491 | each ledger entry `i -> (k, v)` appears exactly once as the slot `(i, v)` in bucket `k` |
| Ledger.SlotInLedger | src/better_orderedmultidict/_orderedmultidict.py:545-547 | each slot `(i, v)` in bucket `k` is the ledger entry `i -> (k, v)` |
| Ledger.BucketValues | src/better_orderedmultidict/_orderedmultidict.py:234-241 | in a consistent container a key has a bucket exactly when getall of it is non-empty, and the bucket's values are its getall |
| Ledger.LedgerSizeIsBucketTotal | src/better_orderedmultidict/_orderedmultidict.py:645-646 | the ledger size equals the sum of the bucket lengths |
| Ledger.BucketKeysAreKeySet | src/better_orderedmultidict/_orderedmultidict.py:651-652 | the bucket keys are exactly the keys of the keys view |
| Ledger.ExtendValid | src/better_orderedmultidict/_orderedmultidict.py:185-217 | after either extend loop the ledger is the old one plus the numbered pairs, every bucket has grown by its key's new slots, the container is consistent, and the items are the old items followed by the pairs |
| Ledger.DropBucket | src/better_orderedmultidict/_orderedmultidict.py:572-576 | deleting the ledger entries a bucket lists, then the bucket, removes exactly that key's pairs and keeps the container consistent |
| Ledger.PopSlot | src/better_orderedmultidict/_orderedmultidict.py:542-550 | popping a bucket's head or tail, deleting its ledger entry and dropping an emptied bucket keeps the container consistent |
| Ledger.PopSlotPairs | src/better_orderedmultidict/_orderedmultidict.py:542-550 | a key has values exactly when it has a bucket; the popped slot is a ledger entry under that key; its value is the key's first (or last) value; deleting it removes exactly the key's earliest (or latest) pair |
| Ledger.BucketsDetermined | src/better_orderedmultidict/_orderedmultidict.py:82-83 | two bucket maps that are both consistent with the same ledger are equal, so the ledger alone determines `_map` |
| Ledger.PopEntry | src/better_orderedmultidict/_orderedmultidict.py:477-492 | `_popitem` on the ledger and buckets: the first (or last) entry's bucket has that entry as its head (or tail); removing both drops the first (or last) pair and keeps the container consistent |
| Ledger.PopFirstEntry | src/better_orderedmultidict/_orderedmultidict.py:477-491 | the globally first entry's key has a bucket whose head is that entry; removing both keeps the container consistent |
| Ledger.PopLastEntry | src/better_orderedmultidict/_orderedmultidict.py:477-491 | the globally last entry's key has a bucket whose tail is that entry; removing both keeps the container consistent |
| Pairs.Dedup | src/better_orderedmultidict/_orderedmultidict.py:752-754 | `dict.fromkeys` keeps every key of its input, adds none, and repeats none |
| Pairs.DedupFirstAppearance | src/better_orderedmultidict/_orderedmultidict.py:752-754 | the unique-keys view lists keys in the order of their first appearance |
| Pairs.ReversedDedupOrder | src/better_orderedmultidict/_orderedmultidict.py:756-758 | `reversed(dict.fromkeys(keys))` lists the keys by decreasing position of first appearance |
| Pairs.ReversedUniqueKeysExample | src/better_orderedmultidict/_orderedmultidict.py:756-758 | that order is not last-appearance order: for the keys `[1, 2, 1]` it is `[2, 1]`, while deduplicating the reversed keys gives `[1, 2]` |
| Pairs.UniqueKeysCount | src/better_orderedmultidict/_orderedmultidict.py:744-761 | the unique-keys view has one entry per distinct key |
| Pairs.ViewsZip | src/better_orderedmultidict/_orderedmultidict.py:700-741 | the keys and values views have the items' length, and the items are their pairwise zip |
| Pairs.ReversedViews | src/better_orderedmultidict/_orderedmultidict.py:710-741 | reversing a view is the view of the reversed items, and reversing twice gives the items back |
| Pairs.KeysCountValues | src/better_orderedmultidict/_orderedmultidict.py:294-305 | a key occurs in the keys view as often as getall of it has values |
| Pairs.PairInValuesFor | src/better_orderedmultidict/_orderedmultidict.py:625-628 | a pair is an item exactly when its value is in getall of its key |
| Pairs.ValuesForConcat | src/better_orderedmultidict/_orderedmultidict.py:158-171 | getall over two lists in sequence is the getall of the first followed by that of the second |
| Pairs.RemoveFirstOfValues | src/better_orderedmultidict/_orderedmultidict.py:508-509 | removing a key's earliest pair drops the first value of its getall and leaves the other keys alone |
| Pairs.RemoveLastOfValues | src/better_orderedmultidict/_orderedmultidict.py:526-530 | removing a key's latest pair drops the last value of its getall and leaves the other keys alone |
| Pairs.WithoutKeysValues | src/better_orderedmultidict/_orderedmultidict.py:133-145 | dropping the pairs of some keys empties their getall and keeps everyone else's |
| Pairs.ReplaceKeyValues | src/better_orderedmultidict/_orderedmultidict.py:330-332 | deleting a key's pairs and appending new ones makes its getall exactly the new values |
| Pairs.UpdateValues | src/better_orderedmultidict/_orderedmultidict.py:114-131 | after update, a key the source mentions has exactly its source values and any other key keeps its values |
| Laws.UpdateDocPairs | src/better_orderedmultidict/_orderedmultidict.py:121-123 | the pairs of the documented update example, with the source's string values written as numbers, give the documented result |
| Laws.UpdateDocExample | src/better_orderedmultidict/_orderedmultidict.py:114-131 | the documented example run on a container: key 2 keeps its entries in place and the new pairs follow |
| Laws.StateRoundTrip | src/better_orderedmultidict/_orderedmultidict.py:674-678 | `__setstate__(__getstate__(d))` into a fresh container of the same kind, built by its constructor, reproduces the items, and the result compares equal |
| Laws.CopyIsIndependent | src/better_orderedmultidict/_orderedmultidict.py:219-227 | a copy is a new object; after one pair is added to it, it holds the original's items followed by that pair, while the original stays valid and its items are unchanged |
| Laws.DelItemKeepsEarlierValues | src/better_orderedmultidict/_orderedmultidict.py:662-663 | `del d[1]` on `[(1, 10), (2, 20), (1, 11)]` leaves `[(1, 10), (2, 20)]`, and key 1 is still present |
| Laws.EmptyOfBothKinds | src/better_orderedmultidict/_orderedmultidict.py:634-643 | an empty OrderedMultiDict and an empty DeOrderedMultiDict: `==` is false, `!=` as written is false, `!=` as intended is true |

## Left out

- Values and keys are plain values (`!new`): Python `is` is modelled as equality, and hashing is modelled as Dafny equality.
- Source-type dispatch (`_extend`, `_try_telete_all_keys`, `_load` via `hasattr`/`isinstance`): every source is a list of pairs. The other branches are not modelled, including the `.items` branch at lines 140-141, which iterates an unbound method. `_load` from another container is `CopyFrom`.
- Keyword arguments, the `@overload` stubs and `__str__`/`__repr__` are not modelled.
- Elements that cannot be unpacked into a pair are not modelled, because a typed list of pairs has none. Both extend loops mishandle them:
  - `_extend_slow` (lines 201-217) commits the pairs before the bad element and stops there.
  - `_extend_fast` (lines 185-199) is worse. Its first part (lines 191-193) enters every element, the bad one included, into `_items` and advances `_index` before its second part (lines 195-199) unpacks anything. So `d.extend([(1, 2), (3,)])` leaves ledger entries with no bucket slot, which is the desynchronised state that `Valid()` excludes.
- The type `TT` of a default is collapsed to `V` (or `seq<V>`, or a pair). A default is an `Option`; "no default" is `None`.
- Both KeyErrors are the `Failure` values `MissingKey(key)` and `DictionaryEmpty`. The AssertionErrors on a desynchronised state are not modelled: `Valid()` rules them out, and `PopSlotPairs`, `PopFirstEntry`, `PopLastEntry` and `BucketValues` prove the asserted facts.
- List versus deque buckets, and dict versus OrderedDict ledgers: both pop a bucket's head or the ledger's first entry with the same effect. They differ only in cost, so one sequence type serves both. The kind is kept only for `__eq__`'s type test.
- Complexity and memory claims.
- Comparison with objects that are not containers of this library is not modelled. The reflected `__eq__`/`__ne__` call is collapsed: between two containers it returns the same NotImplemented.
- The items view's `__contains__` check that its argument is a 2-tuple: a typed pair always is.
- `popitem`, the one `MutableMapping` mixin method the class does not override, is not modelled.
- NeAsWritten, NotEqualsOpAsWritten: model `not NotImplemented` as on Python 3.12 and 3.13, where it is False. The DeprecationWarning it emits there, and the TypeError it raises on Python 3.14 and later, are not modelled.
- ExtendFast, ExtendSlow, FromPairs, Load, Eq, EqualsOp: the source stores each element of a source as given (`enumerate(items, index)` at line 193, `s_items[index] = item` at line 214). Only `add` and `addall` build a new tuple (lines 353 and 377). An element that unpacks but is not a tuple, such as a list or a two-character string, is therefore stored, yielded by the views, `__getstate__` and `popfirstitem`, and compared by `__eq__` as given. So `OrderedMultiDict([[1, 2]]) == OrderedMultiDict([(1, 2)])` is False (not executed), while the model, whose elements are pairs, makes them equal. The `__init__` overloads at lines 77 and 79 accept such elements: lists of `str` or of `bytes`.
- SetState, StateRoundTrip: the round trip is proved only into a container built by a constructor, where `_items`, `_map` and `_index` exist. `pickle`, `copy.copy` and `copy.deepcopy` instead build the object with `cls.__new__`, so `__init__` never runs. Their call to `__setstate__` (lines 677-678) then goes through `_load` (lines 91-101) to `clear()` (lines 229-232). That reaches `self._map.clear()` before any field exists, so it would raise AttributeError (not executed). An object with no fields is not part of this model.
- Update, TryDeleteAllKeys: the model's source is a list. With a one-shot iterable such as a generator or `iter(list)`, which the `Iterable` annotation at line 114 allows, the source behaves differently:
  - `_try_telete_all_keys` takes its last branch (lines 143-145), and `dict.fromkeys` there consumes the iterator while deleting the mentioned keys.
  - `extend` then reaches `_extend_slow` (line 183), which finds nothing left.
  - So `d.update(p for p in [(1, 9)])` deletes key 1's pairs and adds nothing (not executed). The model's promise that `src` is appended after `WithoutKeys` holds only for a source that can be iterated twice and that is neither this container nor one of its views.
  - The views read the live ledger (line 685). So `d.update(d.items())` on `d = [(1, 2)]` deletes key 1 through the last branch (line 144), then extends from the now empty view, and `d` ends empty. `d.update(d)` empties `d` in the same way through the `unique_keys` branch (line 134). The model instead appends a snapshot of the items (not executed).
  - `d.extend(d.items())` on a non-empty `d` enumerates the live view while `dict.update` grows it (lines 191-193). This would raise RuntimeError after one ledger entry has gone in with no bucket slot (not executed). The model's `Extend` takes a snapshot.
- `__iter__` and the views' iterators are the sequences they yield. Iterator objects, and mutation during iteration, are not modelled.

## Findings

| source | as written | input that shows it | evidently intended | confidence | as-written member | corrected member |
|---|---|---|---|---|---|---|
| src/better_orderedmultidict/_orderedmultidict.py:642-643 | `__ne__` negates the truth value of `__eq__`; for a container of the other kind that is `not NotImplemented`, which on Python 3.12 and 3.13 is False (with a DeprecationWarning); on 3.14 and later it raises TypeError | on 3.12/3.13, `OrderedMultiDict() != DeOrderedMultiDict()` is False, while `OrderedMultiDict() == DeOrderedMultiDict()` is also False | `!=` is the negation of `==`: pass NotImplemented on and negate only real answers | not executed | MultiDict.NotEqualsOpAsWritten, MultiDict.NeAsWrittenDisagrees, Laws.EmptyOfBothKinds | MultiDict.NotEqualsOp, MultiDict.OrderedMultiDict.Ne |
