/** The eviction walk-through of lfuCache_test.go, computed on the model. */
module LfuScenario {
  import opened CacheErrors
  import opened LfuHeap
  import opened LfuCache
  import MapCache

  /** Reading key 0 of the full, never-read heap sifts it below key 1. */
  lemma FirstRead()
    ensures Init(Bump([Item(0, 0, 0), Item(1, 0, 1), Item(2, 0, 2)], 0))
            == [Item(1, 0, 0), Item(0, 1, 1), Item(2, 0, 2)]
  {
    var h := [Item(0, 0, 0), Item(1, 0, 1), Item(2, 0, 2)];
    var b := [Item(0, 1, 0), Item(1, 0, 1), Item(2, 0, 2)];
    assert Find(h, 0, 0) == Some(0);
    assert Bump(h, 0) == b;
    assert MinChild(b, 0, 3) == 1;
    var s := Swap(b, 0, 1);
    assert s == [Item(1, 0, 0), Item(0, 1, 1), Item(2, 0, 2)];
    assert SiftDown(s, 1, 3) == (s, 1);
    assert SiftDown(b, 0, 3) == (s, 1);
    assert HeapifyFrom(s, 0) == s;
    assert HeapifyFrom(b, 1) == s;
  }

  /** Reading key 1 next sifts it below key 2, the one key never read. */
  lemma SecondRead()
    ensures Init(Bump([Item(1, 0, 0), Item(0, 1, 1), Item(2, 0, 2)], 1))
            == [Item(2, 0, 0), Item(0, 1, 1), Item(1, 1, 2)]
  {
    var h := [Item(1, 0, 0), Item(0, 1, 1), Item(2, 0, 2)];
    var b := [Item(1, 1, 0), Item(0, 1, 1), Item(2, 0, 2)];
    assert Find(h, 1, 0) == Some(0);
    assert Bump(h, 1) == b;
    assert Less(b, 2, 1);
    assert MinChild(b, 0, 3) == 2;
    var s := Swap(b, 0, 2);
    assert s == [Item(2, 0, 0), Item(0, 1, 1), Item(1, 1, 2)];
    assert SiftDown(s, 2, 3) == (s, 2);
    assert SiftDown(b, 0, 3) == (s, 2);
    assert HeapifyFrom(s, 0) == s;
    assert HeapifyFrom(b, 1) == s;
  }

  /** Pushing key 3 with no reads lifts it to slot 1, not past key 2 at the
      root, which the following pop then takes. */
  lemma FourthKeyPushPop()
    ensures var h1 := HeapPush([Item(2, 0, 0), Item(0, 1, 1), Item(1, 1, 2)], Item(3, 0, 0));
            && h1 == [Item(2, 0, 0), Item(3, 0, 1), Item(1, 1, 2), Item(0, 1, 3)]
            && HeapPop(h1).item.key == 2
  {
    var h := [Item(2, 0, 0), Item(0, 1, 1), Item(1, 1, 2)];
    var p := Push(h, Item(3, 0, 0));
    assert p == [Item(2, 0, 0), Item(0, 1, 1), Item(1, 1, 2), Item(3, 0, 3)];
    var u := Swap(p, 1, 3);
    assert u == [Item(2, 0, 0), Item(3, 0, 1), Item(1, 1, 2), Item(0, 1, 3)];
    assert Up(u, 1) == u;
    assert Up(p, 3) == u;
  }

  /** While no key has been read, a store with room to spare appends the
      new key's item: an unread item is never less frequent than its
      parent, so up leaves it in the last slot. */
  lemma StoreUnreadIntoRoom<K(!new), V>(c: Lfu<K, V>, key: K, val: V)
    requires key !in c.storage.cacheMap && |c.heap| < c.capacity
    requires forall p :: 0 <= p < |c.heap| ==> c.heap[p].frequency == 0
    ensures Store(c, key, val).state.capacity == c.capacity
    ensures Store(c, key, val).state.storage.cacheMap == c.storage.cacheMap[key := val]
    ensures Store(c, key, val).state.heap == c.heap + [Item(key, 0, |c.heap|)]
  {
    var h1 := Push(c.heap, Item(key, 0, 0));
    assert h1 == c.heap + [Item(key, 0, |c.heap|)];
    assert Up(h1, |c.heap|) == h1;
  }

  /** Keys 0, 1 and 2 stored into a new cache of capacity three, in order,
      all land in the heap with no reads. */
  lemma ThreeStores()
    ensures var c3 := Store(Store(Store(NewLfu<int, int>(3), 0, 100).state, 1, 101).state, 2, 102).state;
            && c3.capacity == 3
            && c3.storage.cacheMap == map[0 := 100, 1 := 101, 2 := 102]
            && c3.heap == [Item(0, 0, 0), Item(1, 0, 1), Item(2, 0, 2)]
  {
    var c0 := NewLfu<int, int>(3);
    StoreUnreadIntoRoom(c0, 0, 100);
    var c1 := Store(c0, 0, 100).state;
    SecondStore(c1);
    ThirdStore(Store(c1, 1, 101).state);
  }

  lemma SecondStore(c: Lfu<int, int>)
    requires c.capacity == 3 && c.storage.cacheMap == map[0 := 100] && c.heap == [Item(0, 0, 0)]
    ensures var r := Store(c, 1, 101).state;
            && r.capacity == 3
            && r.storage.cacheMap == map[0 := 100, 1 := 101]
            && r.heap == [Item(0, 0, 0), Item(1, 0, 1)]
  {
    StoreUnreadIntoRoom(c, 1, 101);
  }

  lemma ThirdStore(c: Lfu<int, int>)
    requires c.capacity == 3 && c.storage.cacheMap == map[0 := 100, 1 := 101]
    requires c.heap == [Item(0, 0, 0), Item(1, 0, 1)]
    ensures var r := Store(c, 2, 102).state;
            && r.capacity == 3
            && r.storage.cacheMap == map[0 := 100, 1 := 101, 2 := 102]
            && r.heap == [Item(0, 0, 0), Item(1, 0, 1), Item(2, 0, 2)]
  {
    StoreUnreadIntoRoom(c, 2, 102);
  }

  /** Reading key 0 and then key 1 of that cache leaves key 2 at the root. */
  lemma TwoReads(c: Lfu<int, int>)
    requires c.capacity == 3
    requires c.storage.cacheMap == map[0 := 100, 1 := 101, 2 := 102]
    requires c.heap == [Item(0, 0, 0), Item(1, 0, 1), Item(2, 0, 2)]
    ensures var c5 := Get(Get(c, 0).cache, 1).cache;
            && c5.capacity == 3
            && c5.storage.cacheMap == map[0 := 100, 1 := 101, 2 := 102]
            && c5.heap == [Item(2, 0, 0), Item(0, 1, 1), Item(1, 1, 2)]
  {
    FirstRead();
    SecondRead();
  }

  /** The fourth store into that cache succeeds and evicts key 2. */
  lemma FourthStoreEvicts(c: Lfu<int, int>)
    requires c.capacity == 3
    requires c.storage.cacheMap == map[0 := 100, 1 := 101, 2 := 102]
    requires c.heap == [Item(2, 0, 0), Item(0, 1, 1), Item(1, 1, 2)]
    ensures Store(c, 3, 103).Succeeded()
    ensures Get(Store(c, 3, 103).state, 2).result == Err(DoesNotExist)
    ensures Get(Store(c, 3, 103).state, 3).result == Ok(103)
  {
    var stored := MapCache.Store(c.storage, 3, 103);
    assert 3 !in c.storage.cacheMap;
    assert 2 in stored.state.cacheMap;
    FourthKeyPushPop();
    var h1 := HeapPush(c.heap, Item(3, 0, 0));
    var removed := MapCache.Remove(stored.state, 2);
    assert Store(c, 3, 103) == Step(Lfu(3, removed.state, HeapPop(h1).rest), removed.err);
  }

  /** Three keys fill a cache of capacity three; keys 0 and 1 are read once;
      storing a fourth key then evicts key 2, the one never read, and the
      fourth key reads back while key 2 does not. */
  lemma StoreEvictsUnreadKey()
    ensures var c0 := NewLfu<int, int>(3);
            var c1 := Store(c0, 0, 100).state;
            var c2 := Store(c1, 1, 101).state;
            var c3 := Store(c2, 2, 102).state;
            var c5 := Get(Get(c3, 0).cache, 1).cache;
            var r := Store(c5, 3, 103);
            && r.Succeeded()
            && Get(r.state, 2).result == Err(DoesNotExist)
            && Get(r.state, 3).result == Ok(103)
  {
    ThreeStores();
    var c3 := Store(Store(Store(NewLfu<int, int>(3), 0, 100).state, 1, 101).state, 2, 102).state;
    TwoReads(c3);
    FourthStoreEvicts(Get(Get(c3, 0).cache, 1).cache);
  }

  /** Key 0 stored into a new cache of capacity one and read once. */
  lemma StoredAndReadOnce()
    ensures var c := Get(Store(NewLfu<int, int>(1), 0, 100).state, 0).cache;
            && Valid(c)
            && c.capacity == 1
            && c.storage.cacheMap == map[0 := 100]
            && Entries(c.heap) == multiset{Entry(0, 1)}
            && LeastFrequentlyUsedKey(c) == Some(0)
  {
    var c0 := NewLfu<int, int>(1);
    StoreFillsRoom(c0, 0, 100);
    var c1 := Store(c0, 0, 100).state;
    assert Entries(c1.heap) == multiset{Entry(0, 0)};
    FrequencyOfEntry(Entries(c1.heap), Entry(0, 0));
    GetBumpsFrequency(c1, 0);
  }

  /** GetLeastFrequentlyUsedKey names key 0, yet storing key 1 evicts key 1
      itself and keeps key 0. */
  lemma NamedKeyIsNotEvicted()
    ensures var c := Get(Store(NewLfu<int, int>(1), 0, 100).state, 0).cache;
            var r := Store(c, 1, 101);
            && LeastFrequentlyUsedKey(c) == Some(0)
            && r.Succeeded()
            && Get(r.state, 0).result == Ok(100)
            && Get(r.state, 1).result == Err(DoesNotExist)
  {
    StoredAndReadOnce();
    var c := Get(Store(NewLfu<int, int>(1), 0, 100).state, 0).cache;
    KeysOfCount(Entries(c.heap));
    StoreEvictsNewKey(c, 1, 101);
  }

  /** With the eviction moved first, the same store evicts key 0, the key
      GetLeastFrequentlyUsedKey named, and keeps key 1. */
  lemma CorrectedStoreEvictsNamedKey()
    ensures var c := Get(Store(NewLfu<int, int>(1), 0, 100).state, 0).cache;
            var r := StoreEvictingFirst(c, 1, 101);
            && r.Succeeded()
            && Get(r.state, 0).result == Err(DoesNotExist)
            && Get(r.state, 1).result == Ok(101)
  {
    StoredAndReadOnce();
    var c := Get(Store(NewLfu<int, int>(1), 0, 100).state, 0).cache;
    KeysOfCount(Entries(c.heap));
    StoreEvictingFirstEvictsLeast(c, 1, 101);
  }
}
