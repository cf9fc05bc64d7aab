/** The LFU wrapper (lfuCache in lfuCache.go): a bounded cache over a storage
    backend that evicts a least frequently read key when a store would exceed
    the capacity. The storage keeps every key's value; the heap keeps one
    item per key with the number of reads of that key. lfuCache.go stores a
    pointer to the key's heap item next to the value; the model finds the
    item by its key instead, which names the same item because every key has
    exactly one item (see `Valid`). The mutex is left out: every operation
    is one indivisible transition. */
module LfuCache {
  import opened CacheErrors
  import opened LfuHeap
  import MapCache

  /** capacity, storage and heap of one lfuCache. */
  datatype Lfu<K, !V> = Lfu(capacity: int, storage: MapCache.State<K, V>, heap: Heap<K>)

  /** What `get` returns: the cache after the read and the value or error. */
  datatype Got<K, !V> = Got(cache: Lfu<K, V>, result: Result<V>)

  // ---------------------------------------------------------------------------
  // Heap contents as a multiset of (key, frequency) entries

  ghost function KeysOf<K>(m: multiset<Entry<K>>): set<K> {
    set e | e in m :: e.key
  }

  /** Every key has exactly one entry. */
  ghost predicate UniqueKeys<K>(m: multiset<Entry<K>>) {
    && (forall e :: e in m ==> m[e] == 1)
    && (forall e, f :: e in m && f in m && e.key == f.key ==> e == f)
  }

  ghost predicate NonNegative<K>(m: multiset<Entry<K>>) {
    forall e :: e in m ==> e.frequency >= 0
  }

  /** The number of reads recorded for `key`. */
  ghost function Frequency<K>(m: multiset<Entry<K>>, key: K): int
    requires key in KeysOf(m)
  {
    var e :| e in m && e.key == key; e.frequency
  }

  lemma FrequencyOfEntry<K>(m: multiset<Entry<K>>, e: Entry<K>)
    requires UniqueKeys(m) && e in m
    ensures e.key in KeysOf(m) && Frequency(m, e.key) == e.frequency
  {
  }

  lemma KeysOfAdd<K>(m: multiset<Entry<K>>, x: Entry<K>)
    ensures KeysOf(m + multiset{x}) == KeysOf(m) + {x.key}
    ensures UniqueKeys(m) && x.key !in KeysOf(m) ==> UniqueKeys(m + multiset{x})
  {
    var m' := m + multiset{x};
    assert forall k :: k in KeysOf(m') ==> k in KeysOf(m) + {x.key} by {
      forall k | k in KeysOf(m')
        ensures k in KeysOf(m) + {x.key}
      {
        var e :| e in m' && e.key == k;
        if e != x {
          assert e in m;
        }
      }
    }
    assert forall k :: k in KeysOf(m) + {x.key} ==> k in KeysOf(m') by {
      forall k | k in KeysOf(m) + {x.key}
        ensures k in KeysOf(m')
      {
        if k != x.key {
          var e :| e in m && e.key == k;
          assert e in m';
        } else {
          assert x in m';
        }
      }
    }
    if UniqueKeys(m) && x.key !in KeysOf(m) {
      assert x !in m;
      forall e, f | e in m' && f in m' && e.key == f.key
        ensures e == f
      {
        if e != x && f != x {
          assert e in m && f in m;
        }
      }
    }
  }

  lemma KeysOfRemove<K>(m: multiset<Entry<K>>, x: Entry<K>)
    requires UniqueKeys(m) && x in m
    ensures UniqueKeys(m - multiset{x})
    ensures KeysOf(m - multiset{x}) == KeysOf(m) - {x.key}
  {
    var m' := m - multiset{x};
    assert x !in m';
    forall k | k in KeysOf(m')
      ensures k in KeysOf(m) - {x.key}
    {
      var e :| e in m' && e.key == k;
      assert e in m && e != x;
    }
    forall k | k in KeysOf(m) - {x.key}
      ensures k in KeysOf(m')
    {
      var e :| e in m && e.key == k;
      assert e in m';
    }
  }

  /** With one entry per key there are as many keys as entries. */
  lemma {:induction false} KeysOfCount<K>(m: multiset<Entry<K>>)
    requires UniqueKeys(m)
    ensures |KeysOf(m)| == |m|
    decreases |m|
  {
    if m != multiset{} {
      var x :| x in m;
      var m' := m - multiset{x};
      KeysOfRemove(m, x);
      KeysOfCount(m');
      assert m == m' + multiset{x};
      assert x.key in KeysOf(m);
    } else {
      assert KeysOf(m) == {};
    }
  }

  /** A key with an entry occupies some slot of the heap. */
  lemma KeyInSlot<K>(h: Heap<K>, key: K)
    requires key in KeysOf(Entries(h))
    ensures exists p :: 0 <= p < |h| && h[p].key == key
  {
    var e :| e in Entries(h) && e.key == key;
    var p :| 0 <= p < |h| && EntrySeq(h)[p] == e;
  }

  // ---------------------------------------------------------------------------
  // The coupling invariant

  /** The number of keys a capacity allows; a capacity below one lets no key
      stay. */
  function Bound(capacity: int): nat {
    if capacity > 0 then capacity else 0
  }

  /** The heap side of the invariant for a storage holding `keys`: a min-heap
      on frequency whose items know their slots, with exactly one entry per
      stored key, no negative frequency, and at most `capacity` items. */
  ghost predicate HeapValid<K>(h: Heap<K>, keys: set<K>, capacity: int) {
    && IsHeap(h)
    && Indexed(h)
    && UniqueKeys(Entries(h))
    && KeysOf(Entries(h)) == keys
    && NonNegative(Entries(h))
    && |h| <= Bound(capacity)
  }

  /** The invariant every reachable lfuCache keeps. */
  ghost predicate Valid<K(!new), V>(c: Lfu<K, V>) {
    && MapCache.Valid(c.storage)
    && HeapValid(c.heap, c.storage.cacheMap.Keys, c.capacity)
  }

  /** NewLfu: an empty cache over a fresh in-memory backend. */
  function NewLfu<K(!new), V>(capacity: int): (c: Lfu<K, V>)
    ensures Valid(c)
    ensures c.capacity == capacity
    ensures c.storage.cacheMap == map[] && Count(c) == 0
  {
    Lfu(capacity, MapCache.NewMapCache(), [])
  }

  /** NewLfuWithCustomCache, with the in-memory backend as the supplied
      cache: refuses a backend that already holds a key. */
  method NewLfuWithCustomCache<K(!new), V>(capacity: int, storage: MapCache.State<K, V>)
    returns (r: Result<Lfu<K, V>>)
    ensures r.Err? <==> storage.cacheMap != map[]
    ensures r.Err? ==> r.error == CacheNotEmpty
    ensures r.Ok? ==> r.value.capacity == capacity && r.value.storage == storage
    ensures r.Ok? && MapCache.Valid(storage) ==> Valid(r.value)
  {
    var keys := MapCache.Keys(storage);
    if |keys| > 0 {
      assert keys[0] in storage.cacheMap;
      return Err(CacheNotEmpty);
    }
    assert storage.cacheMap.Keys == {};
    return Ok(Lfu(capacity, storage, []));
  }

  // ---------------------------------------------------------------------------
  // store

  /** store: stores the value, pushes an item of frequency 0 for the key and,
      if the heap now holds more items than the capacity, pops the root item
      and removes its key from the storage. */
  function Store<K(!new), V>(c: Lfu<K, V>, key: K, val: V): (r: Step<Lfu<K, V>>)
    ensures key in c.storage.cacheMap ==> r == Step(c, Some(AlreadyExists))
    ensures r.state.capacity == c.capacity
  {
    var stored := MapCache.Store(c.storage, key, val);
    if !stored.Succeeded() then Step(c, stored.err)
    else
      var h1 := HeapPush(c.heap, Item(key, 0, 0));
      if Len(h1) > c.capacity then
        var popped := HeapPop(h1);
        var removed := MapCache.Remove(stored.state, popped.item.key);
        Step(Lfu(c.capacity, removed.state, popped.rest), removed.err)
      else
        Step(Lfu(c.capacity, stored.state, h1), None)
  }

  /** The entries once the new key's item has been pushed. */
  ghost function Pushed<K, V>(c: Lfu<K, V>, key: K): multiset<Entry<K>> {
    Entries(c.heap) + multiset{Entry(key, 0)}
  }

  /** `after` is `c` with `key` stored and then the entry `e` evicted: `e`
      has the least frequency among the entries with the new key pushed,
      which is 0, and its key has left the storage while every other stored
      key, the new one included, keeps its value. */
  ghost predicate EvictedBy<K(!new), V>(c: Lfu<K, V>, key: K, val: V, after: Lfu<K, V>, e: Entry<K>) {
    && e in Pushed(c, key)
    && e.frequency == 0
    && (forall f :: f in Pushed(c, key) ==> e.frequency <= f.frequency)
    && Entries(after.heap) == Pushed(c, key) - multiset{e}
    && after.storage.cacheMap == c.storage.cacheMap[key := val] - {e.key}
  }

  /** A new key pushed at frequency 0 keeps one entry per key and no
      negative frequency. */
  lemma PushedEntries<K>(h: Heap<K>, keys: set<K>, capacity: int, key: K)
    requires HeapValid(h, keys, capacity) && key !in keys
    ensures var m := Entries(h) + multiset{Entry(key, 0)};
            UniqueKeys(m) && KeysOf(m) == keys + {key} && NonNegative(m)
  {
    KeysOfAdd(Entries(h), Entry(key, 0));
  }

  /** Below the capacity, pushing a new key keeps the heap side of the
      invariant. */
  lemma PushKeeps<K>(h: Heap<K>, keys: set<K>, capacity: int, key: K)
    requires HeapValid(h, keys, capacity) && key !in keys && |h| < capacity
    ensures HeapValid(HeapPush(h, Item(key, 0, 0)), keys + {key}, capacity)
  {
    PushedEntries(h, keys, capacity, key);
  }

  /** Popping a valid non-empty heap takes off an entry of least frequency,
      and the rest is a valid heap for the other keys. */
  lemma PopKeeps<K>(h: Heap<K>, keys: set<K>, capacity: int)
    requires IsHeap(h) && Indexed(h) && UniqueKeys(Entries(h)) && NonNegative(Entries(h))
    requires KeysOf(Entries(h)) == keys && 0 < |h| <= Bound(capacity) + 1
    ensures HeapPop(h).item.AsEntry() in Entries(h)
    ensures forall f :: f in Entries(h) ==> HeapPop(h).item.frequency <= f.frequency
    ensures Entries(HeapPop(h).rest) == Entries(h) - multiset{HeapPop(h).item.AsEntry()}
    ensures HeapPop(h).item.key in keys
    ensures HeapValid(HeapPop(h).rest, keys - {HeapPop(h).item.key}, capacity)
  {
    var popped := HeapPop(h);
    var e := popped.item.AsEntry();
    assert Entries(popped.rest) + multiset{e} == Entries(h);
    assert e in Entries(h);
    RootIsMinimumEntry(h);
    KeysOfRemove(Entries(h), e);
    assert Entries(popped.rest) == Entries(h) - multiset{e};
  }

  /** At the capacity, pushing a new key and popping the root takes off an
      entry of least frequency, which is 0 because the new entry has
      frequency 0 and none is negative, and keeps the heap side of the
      invariant for the keys left. */
  lemma PushPopEvictsLeast<K>(h: Heap<K>, keys: set<K>, capacity: int, key: K)
    requires HeapValid(h, keys, capacity) && key !in keys && |h| >= capacity
    ensures var m := Entries(h) + multiset{Entry(key, 0)};
            var popped := HeapPop(HeapPush(h, Item(key, 0, 0)));
            var e := popped.item.AsEntry();
            && e in m
            && e.frequency == 0
            && (forall f :: f in m ==> e.frequency <= f.frequency)
            && Entries(popped.rest) == m - multiset{e}
            && e.key in keys + {key}
            && HeapValid(popped.rest, keys + {key} - {e.key}, capacity)
  {
    var m := Entries(h) + multiset{Entry(key, 0)};
    var h1 := HeapPush(h, Item(key, 0, 0));
    PushedEntries(h, keys, capacity, key);
    assert Entries(h1) == m;
    PopKeeps(h1, keys + {key}, capacity);
    assert Entry(key, 0) in m;
  }

  /** Storing a new key in the backend and then removing a key that is now
      present succeeds twice. */
  lemma StoreThenRemoveStorage<K(!new), V>(s: MapCache.State<K, V>, key: K, val: V, gone: K)
    requires key !in s.cacheMap && (gone == key || gone in s.cacheMap)
    ensures var stored := MapCache.Store(s, key, val);
            var removed := MapCache.Remove(stored.state, gone);
            && stored.Succeeded()
            && removed.Succeeded()
            && removed.state.cacheMap == s.cacheMap[key := val] - {gone}
            && (MapCache.Valid(s) ==> MapCache.Valid(removed.state))
  {
  }

  lemma StoreRemoveSameMap<K, V>(m: map<K, V>, key: K, val: V)
    requires key !in m
    ensures m[key := val] - {key} == m
  {
  }

  lemma RemoveStoreSameMap<K, V>(m: map<K, V>, key: K, val: V)
    ensures (m - {key})[key := val] == m[key := val]
  {
  }

  lemma AddRemoveSameMultiset<T>(m: multiset<T>, x: T)
    ensures m + multiset{x} - multiset{x} == m
  {
  }

  lemma KeysOfStoreRemove<K, V>(m: map<K, V>, key: K, val: V, gone: K)
    ensures (m[key := val] - {gone}).Keys == m.Keys + {key} - {gone}
  {
  }

  /** store into a valid cache with room: the key is stored with frequency
      0 and nothing is evicted. */
  lemma StoreFillsRoom<K(!new), V>(c: Lfu<K, V>, key: K, val: V)
    requires Valid(c) && key !in c.storage.cacheMap && |c.heap| < c.capacity
    ensures var r := Store(c, key, val);
            && r.Succeeded()
            && Valid(r.state)
            && r.state.storage.cacheMap == c.storage.cacheMap[key := val]
            && Entries(r.state.heap) == Pushed(c, key)
  {
    PushKeeps(c.heap, c.storage.cacheMap.Keys, c.capacity, key);
    assert c.storage.cacheMap[key := val].Keys == c.storage.cacheMap.Keys + {key};
  }

  /** store into a full valid cache succeeds and evicts an entry of least
      frequency, 0, possibly the new key's own; the invariant, and with it
      the capacity bound, survives. */
  lemma StoreEvictsLeast<K(!new), V>(c: Lfu<K, V>, key: K, val: V)
    requires Valid(c) && key !in c.storage.cacheMap && |c.heap| >= c.capacity
    ensures var r := Store(c, key, val);
            && r.Succeeded()
            && Valid(r.state)
            && exists e :: EvictedBy(c, key, val, r.state, e)
  {
    var keys := c.storage.cacheMap.Keys;
    var popped := HeapPop(HeapPush(c.heap, Item(key, 0, 0)));
    var e := popped.item.AsEntry();
    var removed := MapCache.Remove(MapCache.Store(c.storage, key, val).state, e.key);
    PushPopEvictsLeast(c.heap, keys, c.capacity, key);
    assert && removed.Succeeded()
           && removed.state.cacheMap == c.storage.cacheMap[key := val] - {e.key}
           && MapCache.Valid(removed.state) by {
      StoreThenRemoveStorage(c.storage, key, val, e.key);
    }
    assert Store(c, key, val) == Step(Lfu(c.capacity, removed.state, popped.rest), None);
    KeysOfStoreRemove(c.storage.cacheMap, key, val, e.key);
    assert EvictedBy(c, key, val, Store(c, key, val).state, e);
  }

  /** When every stored key has been read at least once, storing a new key
      into a full cache evicts the new key itself: the store reports no
      error and leaves the stored values and the frequencies as they were. */
  lemma StoreEvictsNewKey<K(!new), V>(c: Lfu<K, V>, key: K, val: V)
    requires Valid(c) && key !in c.storage.cacheMap && |c.heap| >= c.capacity
    requires forall e :: e in Entries(c.heap) ==> e.frequency >= 1
    ensures var r := Store(c, key, val);
            && r.Succeeded()
            && r.state.storage.cacheMap == c.storage.cacheMap
            && Entries(r.state.heap) == Entries(c.heap)
  {
    StoreEvictsLeast(c, key, val);
    var r := Store(c, key, val);
    var e :| EvictedBy(c, key, val, r.state, e);
    assert e == Entry(key, 0);
    StoreRemoveSameMap(c.storage.cacheMap, key, val);
    AddRemoveSameMultiset(Entries(c.heap), e);
  }

  /** When the least frequently used key has never been read, store into a
      full cache evicts exactly that key: the new key's item, read equally
      rarely, stays below the root. */
  lemma StoreEvictsLeastFrequentlyUsedKey<K(!new), V>(c: Lfu<K, V>, key: K, val: V)
    requires Valid(c) && key !in c.storage.cacheMap && |c.heap| >= c.capacity
    requires LeastFrequentlyUsedKey(c).Some?
    requires Frequency(Entries(c.heap), LeastFrequentlyUsedKey(c).value) == 0
    ensures var r := Store(c, key, val);
            && r.Succeeded()
            && Valid(r.state)
            && r.state.storage.cacheMap
                 == c.storage.cacheMap[key := val] - {LeastFrequentlyUsedKey(c).value}
  {
    var lfu := LeastFrequentlyUsedKey(c).value;
    assert c.heap[0].frequency == 0 by {
      InEntries(c.heap, 0);
      FrequencyOfEntry(Entries(c.heap), c.heap[0].AsEntry());
    }
    PushPopTakesRoot(c.heap, Item(key, 0, 0));
    var popped := HeapPop(HeapPush(c.heap, Item(key, 0, 0)));
    var removed := MapCache.Remove(MapCache.Store(c.storage, key, val).state, lfu);
    assert Store(c, key, val) == Step(Lfu(c.capacity, removed.state, popped.rest), removed.err);
    StoreEvictsLeast(c, key, val);
    StoreThenRemoveStorage(c.storage, key, val, lfu);
  }

  /** The eviction step of store on its own: pops the root item and removes
      its key from the storage. */
  function EvictRoot<K(!new), V>(c: Lfu<K, V>): (r: Step<Lfu<K, V>>)
    requires |c.heap| > 0
    ensures r.state.capacity == c.capacity
    ensures !r.Succeeded() ==> r.state == c
  {
    var popped := HeapPop(c.heap);
    var removed := MapCache.Remove(c.storage, popped.item.key);
    if !removed.Succeeded() then Step(c, removed.err)
    else Step(Lfu(c.capacity, removed.state, popped.rest), None)
  }

  /** On a valid cache the eviction step succeeds, removes exactly the root's
      key, frees one slot and keeps the invariant. */
  lemma EvictRootKeeps<K(!new), V>(c: Lfu<K, V>)
    requires Valid(c) && |c.heap| > 0
    ensures var r := EvictRoot(c);
            && r.Succeeded()
            && Valid(r.state)
            && r.state.storage.cacheMap == c.storage.cacheMap - {c.heap[0].key}
            && |r.state.heap| == |c.heap| - 1
  {
    var keys := c.storage.cacheMap.Keys;
    PopKeeps(c.heap, keys, c.capacity);
    var popped := HeapPop(c.heap);
    var removed := MapCache.Remove(c.storage, popped.item.key);
    assert removed.state.cacheMap == c.storage.cacheMap - {c.heap[0].key};
    assert removed.state.cacheMap.Keys == keys - {popped.item.key};
  }

  /** store with the eviction moved first: a full cache evicts its root, the
      key GetLeastFrequentlyUsedKey names, before the new key's item is
      pushed, so the new key always stays. An existing key is refused before
      anything is evicted. */
  function StoreEvictingFirst<K(!new), V>(c: Lfu<K, V>, key: K, val: V): (r: Step<Lfu<K, V>>)
    ensures key in c.storage.cacheMap ==> r == Step(c, Some(AlreadyExists))
    ensures r.state.capacity == c.capacity
  {
    if key in c.storage.cacheMap || Len(c.heap) < c.capacity || Len(c.heap) == 0 then
      Store(c, key, val)
    else
      var evicted := EvictRoot(c);
      if !evicted.Succeeded() then evicted
      else Store(evicted.state, key, val)
  }

  /** The corrected store keeps the invariant, evicts the key that
      GetLeastFrequentlyUsedKey named, whatever its frequency, and keeps the
      new key. */
  lemma StoreEvictingFirstEvictsLeast<K(!new), V>(c: Lfu<K, V>, key: K, val: V)
    requires Valid(c) && key !in c.storage.cacheMap && |c.heap| >= c.capacity > 0
    ensures LeastFrequentlyUsedKey(c).Some?
    ensures var r := StoreEvictingFirst(c, key, val);
            && r.Succeeded()
            && Valid(r.state)
            && r.state.storage.cacheMap
                 == (c.storage.cacheMap - {LeastFrequentlyUsedKey(c).value})[key := val]
  {
    EvictRootKeeps(c);
    var evicted := EvictRoot(c).state;
    assert StoreEvictingFirst(c, key, val) == Store(evicted, key, val);
    StoreFillsRoom(evicted, key, val);
  }

  // ---------------------------------------------------------------------------
  // get

  /** get: reads the value, adds one to the key's frequency and rebuilds the
      heap order with heap.Init. */
  function Get<K(!new), V>(c: Lfu<K, V>, key: K): (r: Got<K, V>)
    ensures key !in c.storage.cacheMap ==> r == Got(c, Err(DoesNotExist))
    ensures key in c.storage.cacheMap ==>
              && r.result == Ok(c.storage.cacheMap[key])
              && r.cache.storage == c.storage
              && r.cache.capacity == c.capacity
              && |r.cache.heap| == |c.heap|
  {
    match MapCache.Get(c.storage, key)
    case Err(err) => Got(c, Err(err))
    case Ok(v) => Got(c.(heap := Init(Bump(c.heap, key))), Ok(v))
  }

  /** get's increment: the key's item, found by its key, is one read more
      frequent. Were the item missing, the increment in lfuCache.go would
      reach no heap slot, and here nothing changes. */
  function Bump<K(==)>(h: Heap<K>, key: K): (r: Heap<K>)
    ensures |r| == |h|
  {
    match Find(h, key, 0)
    case None => h
    case Some(p) => h[p := h[p].(frequency := h[p].frequency + 1)]
  }

  /** Slot by slot, the increment keeps every key and index, raises no
      frequency by more than one and lowers none, leaves the slots of other
      keys alone, changes nothing for a missing key, and adds one read to a
      slot of a present key. */
  lemma BumpSlots<K>(h: Heap<K>, key: K)
    ensures var r := Bump(h, key);
            && (forall p :: 0 <= p < |h| ==>
                  r[p].key == h[p].key && r[p].index == h[p].index
                  && h[p].frequency <= r[p].frequency <= h[p].frequency + 1)
            && (forall p :: 0 <= p < |h| && h[p].key != key ==> r[p] == h[p])
            && ((forall p :: 0 <= p < |h| ==> h[p].key != key) ==> r == h)
            && ((exists p :: 0 <= p < |h| && h[p].key == key) ==>
                  exists p :: 0 <= p < |h| && h[p].key == key && r[p].frequency == h[p].frequency + 1)
  {
    match Find(h, key, 0)
    case None =>
    case Some(p) =>
      var r := Bump(h, key);
      assert r[p].frequency == h[p].frequency + 1;
  }

  /** Raising one entry's frequency by one keeps one entry per key, the same
      keys, and no negative frequency. */
  lemma RaiseEntry<K>(m: multiset<Entry<K>>, x: Entry<K>)
    requires UniqueKeys(m) && NonNegative(m) && x in m
    ensures UniqueKeys(m - multiset{x} + multiset{Entry(x.key, x.frequency + 1)})
    ensures KeysOf(m - multiset{x} + multiset{Entry(x.key, x.frequency + 1)}) == KeysOf(m)
    ensures NonNegative(m - multiset{x} + multiset{Entry(x.key, x.frequency + 1)})
  {
    KeysOfRemove(m, x);
    KeysOfAdd(m - multiset{x}, Entry(x.key, x.frequency + 1));
    assert x.key in KeysOf(m);
  }

  /** The increment raises the one entry of the key by one and keeps every
      item's index. */
  lemma BumpSlot<K>(h: Heap<K>, keys: set<K>, capacity: int, key: K)
    requires HeapValid(h, keys, capacity) && key in keys
    ensures Entry(key, Frequency(Entries(h), key)) in Entries(h)
    ensures Indexed(Bump(h, key))
    ensures Entries(Bump(h, key))
              == Entries(h) - multiset{Entry(key, Frequency(Entries(h), key))}
                            + multiset{Entry(key, Frequency(Entries(h), key) + 1)}
  {
    KeyInSlot(h, key);
    var p := Find(h, key, 0).value;
    var x := h[p];
    var y := x.(frequency := x.frequency + 1);
    assert Bump(h, key) == h[p := y];
    InEntries(h, p);
    FrequencyOfEntry(Entries(h), x.AsEntry());
    IndexedUpdate(h, p, y);
    EntriesOfUpdate(h, p, y);
    assert x.AsEntry() == Entry(key, Frequency(Entries(h), key));
    assert y.AsEntry() == Entry(key, Frequency(Entries(h), key) + 1);
  }

  /** The increment alone, before the heap order is rebuilt: the key's
      entry is one read more frequent and the rest of the invariant but the
      order survives. */
  lemma BumpEntries<K>(h: Heap<K>, keys: set<K>, capacity: int, key: K)
    requires HeapValid(h, keys, capacity) && key in keys
    ensures Indexed(Bump(h, key))
    ensures UniqueKeys(Entries(Bump(h, key)))
    ensures KeysOf(Entries(Bump(h, key))) == keys
    ensures NonNegative(Entries(Bump(h, key)))
    ensures Entries(Bump(h, key))
              == Entries(h) - multiset{Entry(key, Frequency(Entries(h), key))}
                            + multiset{Entry(key, Frequency(Entries(h), key) + 1)}
  {
    BumpSlot(h, keys, capacity, key);
    var x := Entry(key, Frequency(Entries(h), key));
    RaiseEntry(Entries(h), x);
    assert Entries(Bump(h, key)) == Entries(h) - multiset{x} + multiset{Entry(x.key, x.frequency + 1)};
  }

  /** get's heap step on a valid heap keeps the heap invariant and raises the
      key's frequency by one. */
  lemma BumpKeeps<K>(h: Heap<K>, keys: set<K>, capacity: int, key: K)
    requires HeapValid(h, keys, capacity) && key in keys
    ensures var before := Entries(h);
            var after := Init(Bump(h, key));
            && HeapValid(after, keys, capacity)
            && Entries(after)
                 == before - multiset{Entry(key, Frequency(before, key))}
                           + multiset{Entry(key, Frequency(before, key) + 1)}
  {
    BumpEntries(h, keys, capacity, key);
  }

  /** get on a stored key of a valid cache raises that key's frequency by
      exactly one, leaves every other entry alone, and keeps the
      invariant. */
  lemma GetBumpsFrequency<K(!new), V>(c: Lfu<K, V>, key: K)
    requires Valid(c) && key in c.storage.cacheMap
    ensures var before := Entries(c.heap);
            var after := Get(c, key).cache;
            && Valid(after)
            && Entries(after.heap)
                 == before - multiset{Entry(key, Frequency(before, key))}
                           + multiset{Entry(key, Frequency(before, key) + 1)}
  {
    BumpKeeps(c.heap, c.storage.cacheMap.Keys, c.capacity, key);
    assert Get(c, key).cache == c.(heap := Init(Bump(c.heap, key)));
  }

  // ---------------------------------------------------------------------------
  // GetLeastFrequentlyUsedKey, count, isFull, isEmpty

  /** `key` is stored and no entry is less frequent than it. */
  ghost predicate LeastAt<K(!new), V>(c: Lfu<K, V>, key: K) {
    && key in c.storage.cacheMap
    && key in KeysOf(Entries(c.heap))
    && forall e :: e in Entries(c.heap) ==> Frequency(Entries(c.heap), key) <= e.frequency
  }

  /** GetLeastFrequentlyUsedKey: the key in the heap's root slot, or none for
      an empty cache. */
  function LeastFrequentlyUsedKey<K(!new), V>(c: Lfu<K, V>): (r: Option<K>)
    ensures Valid(c) ==> (r.None? <==> c.storage.cacheMap == map[])
    ensures Valid(c) && r.Some? ==> LeastAt(c, r.value)
    ensures r.Some? ==> 0 < |c.heap| && r.value == c.heap[0].key
  {
    if IsEmpty(c) then None
    else
      assert Valid(c) ==> LeastAt(c, c.heap[0].key) by {
        if Valid(c) {
          RootIsMinimumEntry(c.heap);
          InEntries(c.heap, 0);
          FrequencyOfEntry(Entries(c.heap), c.heap[0].AsEntry());
        }
      }
      Some(c.heap[0].key)
  }

  /** count: the number of heap items, which is the number of stored keys
      and never more than the capacity allows. */
  function Count<K(!new), V>(c: Lfu<K, V>): (n: nat)
    ensures Valid(c) ==> n == |c.storage.cacheMap| && n <= Bound(c.capacity)
  {
    assert Valid(c) ==> |c.heap| == |c.storage.cacheMap| by {
      if Valid(c) {
        KeysOfCount(Entries(c.heap));
        assert |c.storage.cacheMap.Keys| == |c.storage.cacheMap|;
      }
    }
    Len(c.heap)
  }

  /** isFull: at least `capacity` items. */
  predicate IsFull<K(!new), V>(c: Lfu<K, V>)
    ensures Valid(c) ==> (IsFull(c) <==> |c.storage.cacheMap| >= c.capacity)
  {
    Count(c) >= c.capacity
  }

  /** isEmpty: fewer than one item. */
  predicate IsEmpty<K(!new), V>(c: Lfu<K, V>)
    ensures Valid(c) ==> (IsEmpty(c) <==> c.storage.cacheMap == map[])
    ensures !IsEmpty(c) ==> |c.heap| > 0
  {
    Count(c) < 1
  }

  // ---------------------------------------------------------------------------
  // remove, replace, clear, keys

  /** remove: reads the key from the storage, removes it there, and removes
      the heap item of the key. lfuCache.go scans the whole heap for the
      item; with one item per key the first match is the only one. */
  function Remove<K(!new), V>(c: Lfu<K, V>, key: K): (r: Step<Lfu<K, V>>)
    ensures key !in c.storage.cacheMap ==> r == Step(c, Some(DoesNotExist))
    ensures r.state.capacity == c.capacity
  {
    match MapCache.Get(c.storage, key)
    case Err(err) => Step(c, Some(err))
    case Ok(_) =>
      var removed := MapCache.Remove(c.storage, key);
      if !removed.Succeeded() then Step(c.(storage := removed.state), removed.err)
      else
        match Find(c.heap, key, 0)
        case None => Step(c.(storage := removed.state), None)
        case Some(p) => Step(Lfu(c.capacity, removed.state, HeapRemove(c.heap, p).rest), None)
  }

  /** Taking the item in slot `i` out of a valid heap leaves a valid heap
      for the other keys that lacks exactly that item's entry. */
  lemma TakeOutKeeps<K>(h: Heap<K>, keys: set<K>, capacity: int, i: nat)
    requires HeapValid(h, keys, capacity) && i < |h|
    ensures Entries(HeapRemove(h, i).rest) == Entries(h) - multiset{h[i].AsEntry()}
    ensures HeapValid(HeapRemove(h, i).rest, keys - {h[i].key}, capacity)
  {
    var popped := HeapRemove(h, i);
    InEntries(h, i);
    assert Entries(popped.rest) == Entries(h) - multiset{h[i].AsEntry()};
    KeysOfRemove(Entries(h), h[i].AsEntry());
  }

  /** remove's heap step on a valid heap: the key's item is found, and
      taking it out leaves a valid heap for the remaining keys that lacks
      exactly the key's entry. */
  lemma HeapRemoveKeeps<K>(h: Heap<K>, keys: set<K>, capacity: int, key: K)
    requires HeapValid(h, keys, capacity) && key in keys
    ensures Find(h, key, 0).Some?
    ensures HeapValid(HeapRemove(h, Find(h, key, 0).value).rest, keys - {key}, capacity)
    ensures Entries(HeapRemove(h, Find(h, key, 0).value).rest)
              == Entries(h) - multiset{Entry(key, Frequency(Entries(h), key))}
  {
    KeyInSlot(h, key);
    var p := Find(h, key, 0).value;
    InEntries(h, p);
    FrequencyOfEntry(Entries(h), h[p].AsEntry());
    TakeOutKeeps(h, keys, capacity, p);
    assert h[p].AsEntry() == Entry(key, Frequency(Entries(h), key));
  }

  /** remove of a stored key of a valid cache deletes the key from the
      storage and exactly its one entry from the heap, and keeps the
      invariant. */
  lemma RemoveDeletes<K(!new), V>(c: Lfu<K, V>, key: K)
    requires Valid(c) && key in c.storage.cacheMap
    ensures var r := Remove(c, key);
            && r.Succeeded()
            && Valid(r.state)
            && r.state.storage.cacheMap == c.storage.cacheMap - {key}
            && |r.state.heap| == |c.heap| - 1
            && Entries(r.state.heap) == Entries(c.heap) - multiset{Entry(key, Frequency(Entries(c.heap), key))}
  {
    HeapRemoveKeeps(c.heap, c.storage.cacheMap.Keys, c.capacity, key);
    var popped := HeapRemove(c.heap, Find(c.heap, key, 0).value);
    var removed := MapCache.Remove(c.storage, key);
    assert Remove(c, key) == Step(Lfu(c.capacity, removed.state, popped.rest), None);
    assert (c.storage.cacheMap - {key}).Keys == c.storage.cacheMap.Keys - {key};
  }

  /** replace: remove, then store. */
  function Replace<K(!new), V>(c: Lfu<K, V>, key: K, val: V): (r: Step<Lfu<K, V>>)
    ensures key !in c.storage.cacheMap ==> r == Step(c, Some(DoesNotExist))
  {
    var removed := Remove(c, key);
    if !removed.Succeeded() then removed
    else Store(removed.state, key, val)
  }

  /** replace of a stored key of a valid cache stores the new value, resets
      the key's frequency to 0, keeps the count, and keeps the invariant:
      the removal makes room, so the store evicts nothing. */
  lemma ReplaceResetsFrequency<K(!new), V>(c: Lfu<K, V>, key: K, val: V)
    requires Valid(c) && key in c.storage.cacheMap
    ensures var r := Replace(c, key, val);
            && r.Succeeded()
            && Valid(r.state)
            && r.state.storage.cacheMap == c.storage.cacheMap[key := val]
            && Entries(r.state.heap)
                 == Entries(c.heap) - multiset{Entry(key, Frequency(Entries(c.heap), key))}
                                    + multiset{Entry(key, 0)}
            && Count(r.state) == Count(c)
  {
    KeyInSlot(c.heap, key);
    RemoveDeletes(c, key);
    var removed := Remove(c, key).state;
    StoreFillsRoom(removed, key, val);
    RemoveStoreSameMap(c.storage.cacheMap, key, val);
  }

  /** clear: empties the storage and drops the heap. lfuCache.go returns the
      storage's error first; the in-memory backend's Clear reports none. */
  method Clear<K(!new), V>(c: Lfu<K, V>) returns (r: Step<Lfu<K, V>>)
    ensures r.Succeeded()
    ensures r.state.capacity == c.capacity
    ensures r.state.storage.cacheMap == map[] && r.state.heap == []
    ensures Valid(c) ==> Valid(r.state)
  {
    var cleared := MapCache.Clear(c.storage);
    r := Step(Lfu(c.capacity, cleared.state, []), cleared.err);
    assert r.state.storage.cacheMap.Keys == {};
  }

  /** Keys: the storage's keys, as many as the count. */
  method Keys<K(!new), V>(c: Lfu<K, V>) returns (keys: seq<K>)
    ensures forall k :: k in keys <==> k in c.storage.cacheMap
    ensures forall i, j :: 0 <= i < j < |keys| ==> keys[i] != keys[j]
    ensures Valid(c) ==> |keys| == Count(c)
  {
    keys := MapCache.Keys(c.storage);
  }

  // ---------------------------------------------------------------------------
  // Properties relating several operations

  /** Every operation keeps the invariant, on success and on failure. */
  lemma OperationsKeepValid<K(!new), V>(c: Lfu<K, V>, key: K, val: V)
    requires Valid(c)
    ensures Valid(Store(c, key, val).state)
    ensures Store(c, key, val).Succeeded() <==> key !in c.storage.cacheMap
    ensures Valid(Get(c, key).cache)
    ensures Valid(Remove(c, key).state)
    ensures Valid(Replace(c, key, val).state)
  {
    if key in c.storage.cacheMap {
      GetBumpsFrequency(c, key);
      RemoveDeletes(c, key);
      ReplaceResetsFrequency(c, key, val);
    } else if |c.heap| < c.capacity {
      StoreFillsRoom(c, key, val);
    } else {
      StoreEvictsLeast(c, key, val);
    }
  }

  /** A removed key can no longer be read. */
  lemma RemoveThenGetFails<K(!new), V>(c: Lfu<K, V>, key: K)
    requires Valid(c) && key in c.storage.cacheMap
    ensures Remove(c, key).Succeeded()
    ensures Get(Remove(c, key).state, key).result == Err(DoesNotExist)
  {
    RemoveDeletes(c, key);
  }

  /** On entries alone: after the increment, a key that was read no more
      often than `lfu` is now read strictly less often. */
  lemma BumpedLosesLead<K>(before: multiset<Entry<K>>, m: multiset<Entry<K>>, lfu: K, other: K)
    requires UniqueKeys(before) && UniqueKeys(m)
    requires lfu in KeysOf(before) && other in KeysOf(before) && other != lfu
    requires Frequency(before, other) <= Frequency(before, lfu)
    requires m == before - multiset{Entry(lfu, Frequency(before, lfu))}
                         + multiset{Entry(lfu, Frequency(before, lfu) + 1)}
    ensures lfu in KeysOf(m)
    ensures Entry(other, Frequency(before, other)) in m
    ensures Frequency(before, other) < Frequency(m, lfu)
  {
    var f := Frequency(before, lfu);
    var g := Frequency(before, other);
    var e1 :| e1 in before && e1.key == lfu;
    var e2 :| e2 in before && e2.key == other;
    FrequencyOfEntry(before, e1);
    FrequencyOfEntry(before, e2);
    assert Entry(other, g) in m;
    assert Entry(lfu, f + 1) in m;
    FrequencyOfEntry(m, Entry(lfu, f + 1));
  }

  /** The root of a heap is never a key that some other entry undercuts. */
  lemma UndercutIsNotRoot<K>(h: Heap<K>, m: multiset<Entry<K>>, lfu: K, other: Entry<K>)
    requires IsHeap(h) && Entries(h) == m && UniqueKeys(m)
    requires other in m && lfu in KeysOf(m) && other.frequency < Frequency(m, lfu)
    ensures |h| > 0 ==> h[0].key != lfu
  {
    if |h| > 0 {
      RootIsMinimumEntry(h);
      InEntries(h, 0);
      FrequencyOfEntry(m, h[0].AsEntry());
    }
  }

  /** On the heap: after `lfu` is incremented and the heap is rebuilt, the
      root is not `lfu` whenever some other key was read no more often. */
  lemma BumpedRootIsNotKey<K>(h: Heap<K>, keys: set<K>, capacity: int, lfu: K, other: K)
    requires HeapValid(h, keys, capacity) && lfu in keys && other in keys && other != lfu
    requires Frequency(Entries(h), other) <= Frequency(Entries(h), lfu)
    ensures |Init(Bump(h, lfu))| > 0 ==> Init(Bump(h, lfu))[0].key != lfu
  {
    var before := Entries(h);
    BumpEntries(h, keys, capacity, lfu);
    var bumped := Bump(h, lfu);
    BumpedLosesLead(before, Entries(bumped), lfu, other);
    UndercutIsNotRoot(Init(bumped), Entries(bumped), lfu, Entry(other, Frequency(before, other)));
  }

  /** Reading the least frequently used key hands that role to another key
      whenever some other key was read no more often. */
  lemma GetMovesLeastFrequentKey<K(!new), V>(c: Lfu<K, V>, lfu: K, other: K)
    requires Valid(c) && LeastFrequentlyUsedKey(c) == Some(lfu)
    requires other in c.storage.cacheMap && other != lfu
    requires Frequency(Entries(c.heap), other) <= Frequency(Entries(c.heap), lfu)
    ensures LeastFrequentlyUsedKey(Get(c, lfu).cache) != Some(lfu)
  {
    assert LeastAt(c, lfu);
    assert Get(c, lfu).cache.heap == Init(Bump(c.heap, lfu));
    BumpedRootIsNotKey(c.heap, c.storage.cacheMap.Keys, c.capacity, lfu, other);
  }

  /** A cleared cache of positive capacity accepts a store, and the stored
      value reads back. */
  lemma ClearedCacheAcceptsStore<K(!new), V>(c: Lfu<K, V>, key: K, val: V)
    requires Valid(c) && c.storage.cacheMap == map[] && c.heap == [] && c.capacity >= 1
    ensures Store(c, key, val).Succeeded()
    ensures Count(Store(c, key, val).state) == 1
    ensures Get(Store(c, key, val).state, key).result == Ok(val)
  {
    StoreFillsRoom(c, key, val);
  }
}
