# apidome/cache in Dafny: the LFU wrapper, its heap, and the in-memory backends

This project models the core of the Go package `cache`:

- **`lfuCache`**, the bounded least-frequently-used wrapper (`lfuCache.go`).
  It pairs a storage backend with a min-heap of `(key, frequency, index)` items.
  - `store` pushes the new key at frequency 0 and, past the capacity, pops the root and removes that key from the storage.
  - `get` adds one to the key's frequency and rebuilds the heap with `heap.Init`.
  - `remove` takes the key out of both structures.
  - `replace` is remove followed by store.
- **`mapCache`**, the in-memory backend (`mapCache.go`). It holds a map plus one cancellation channel per key for an expiration routine or an update routine.
- **the earlier `mapCache` draft** (`cache.go`), whose `Store`/`Replace`/`Expire` take a duration and start a goroutine per key.

Modules and files:

| file | module | models |
|---|---|---|
| `cache_errors.dfy` | `CacheErrors` | the error kinds of `mapCache.go`/`lfuCache.go`; `Step(state, err)`, the state an operation leaves together with the error it returns |
| `map_cache.dfy` | `MapCache` | `mapCache.go`; a routine firing is an explicit event (`ExpirationFires`, `UpdateFires`) |
| `lfu_heap.dfy` | `LfuHeap` | `lfuHeap` and the `container/heap` algorithms it runs under (up, down, Init, Push, Pop, Remove) |
| `lfu_cache.dfy` | `LfuCache` | `lfuCache` over the in-memory backend, and its invariant `Valid` |
| `lfu_scenario.dfy` | `LfuScenario` | the eviction walk-through of `lfuCache_test.go`, computed on the model |
| `draft_cache.dfy` | `DraftCache` | `cache.go`, with its goroutine/channel protocol as explicit channel states |

## How the model is built

The heap is a `seq<Item>`, and its contents are abstracted as a multiset of `(key, frequency)` entries (`LfuHeap.Entries`).

The LFU invariant `LfuCache.Valid` has two parts:
- the backend's own invariant;
- the heap part, `HeapValid`:
  - the heap order holds;
  - every item's `index` is its slot;
  - there is exactly one entry per stored key, and the heap's keys are the storage's keys;
  - no frequency is negative;
  - there are at most `capacity` items, or none when the capacity is below one.

Every LFU operation keeps `Valid`, on success and on failure.

Go's `container/heap` package is not among the repository's files. The model follows its published algorithm step by step:
- `Init` sifts down from slot `n/2 - 1` to the root;
- `down` prefers the left child on a tie, because it compares with a strict `Less`;
- `Remove` moves the last item into the hole, then runs `down` and, if nothing moved, `up`.

On that basis, `LfuScenario` reproduces the exact eviction the test expects. The abstract statement, that some minimum-frequency entry is evicted, is proved separately in `LfuCache.StoreEvictsLeast`.

A consequence of the code worth knowing is `LfuCache.StoreEvictsNewKey`. Once every stored key has been read at least once, storing a new key into a full cache evicts the new key itself, and the call still reports success. This contradicts the comment on `GetLeastFrequentlyUsedKey` (lfuCache.go:170-171), which promises that the key it names is the one the next store pops; the promise holds only while that key has never been read (`LfuCache.StoreEvictsLeastFrequentlyUsedKey`). `LfuCache.StoreEvictingFirst` is a store that keeps the promise; the rest of the model keeps the written `store`, since it is not clear whether the comment or the code is meant.

Where a comment and the code disagree, the model follows the code. The interface comment at cache.go:27-30 says that `Expire(key, 0)` removes the key at once. In `mapCache.go:242-246`, however, `expire` refuses any `ttl <= 0` with `NonPositivePeriod` and changes nothing, and `MapCache.Expire` states that behaviour. Only the draft's own `Expire` (cache.go:154-158) deletes the key for a non-positive duration.

## Model

| member | source | states |
|---|---|---|
| `MapCache.NewMapCache` | mapCache.go:25-31 | a new backend is valid and every key reads as `DoesNotExist` |
| `MapCache.Get` | mapCache.go:60-67 | succeeds exactly for present keys, with the stored value; an absent key gives `DoesNotExist` |
| `MapCache.Store` | mapCache.go:41-50 | a present key gives `AlreadyExists` and no change; otherwise the key reads back `val` as a permanent entry; every other key (value and channels) is untouched; validity is kept |
| `MapCache.Remove` | mapCache.go:77-98 | an absent key gives `DoesNotExist` and no change; otherwise the key and both its channels are gone; every other key is untouched |
| `MapCache.Replace` | mapCache.go:108-120 | an absent key gives `DoesNotExist`; otherwise the key set is unchanged, the key reads the new value and no routine can act on it any more |
| `MapCache.StoreWithExpiration` | mapCache.go:167-203 | `ttl <= 0` gives `NonPositivePeriod` before any other check; a present key gives `AlreadyExists`; otherwise the value is stored with a fresh armed expiration channel |
| `MapCache.ReplaceWithExpiration` | mapCache.go:214-232 | `NonPositivePeriod`, then `DoesNotExist`, each with no change; otherwise the key set is unchanged, the new value is stored and the key is expiring after `ttl` |
| `MapCache.Expire` | mapCache.go:242-264 | `ttl <= 0` gives `NonPositivePeriod`, an absent key gives `DoesNotExist`; otherwise the value stays and a fresh expiration channel replaces whatever routine the key had |
| `MapCache.StoreWithUpdate` | mapCache.go:275-332 | checks a nil function, then the period, then the key, each failure changing nothing; on success the key holds the initial value under an update routine with that function |
| `MapCache.ReplaceWithUpdate` | mapCache.go:344-367 | the same checks with `DoesNotExist` last; on success the key set is unchanged and the key is updating with the given function under a fresh routine |
| `MapCache.ExpirationFires` | mapCache.go:185-197 | an armed routine deletes its key and disarms; without one nothing changes; other keys are untouched |
| `MapCache.UpdateFires` | mapCache.go:300-326 | from a valid state the routine applies its function to the current value and re-arms with a fresh channel; other keys are untouched |
| `MapCache.Clear` | mapCache.go:130-139 | no error; the map is empty; every key that was present has lost its channels; validity is kept |
| `MapCache.Keys` | mapCache.go:149-157 | exactly the present keys, each once |
| `MapCache.RemoveThenStore` | mapCache.go:77-98 | after a removal the key can be stored again and reads the new value |
| `MapCache.StoreThenRemove` | mapCache.go:41-98 | storing a fresh key and removing it gives back the original map |
| `MapCache.ExpireThenFire` | mapCache.go:185-264 | after `Expire` the value stays until the new routine fires, which deletes the key only |
| `MapCache.ReplaceCancelsExpiration` | mapCache.go:83-87 | after `Replace` an old expiration routine can no longer delete the value |
| `MapCache.UpdateFiresTwice` | mapCache.go:300-326 | two firings store `f(f(v))` |
| `MapCache.AbsentKeysHaveNoRoutine` | mapCache.go:83-95 | in a valid state an absent key is permanent and neither event changes anything |
| `LfuHeap.Len` | lfuCache.go:27-29 | the length is the number of entries |
| `LfuHeap.Less` | lfuCache.go:31-33 | items read equally often are never ordered either way, so `up` and `down` leave ties in place |
| `LfuHeap.SwapAsWritten` | lfuCache.go:35-39 | the written swap exchanges the entries, but leaves each item naming the other slot |
| `LfuHeap.SwapAsWrittenBreaksIndices` | lfuCache.go:35-39 | on a two-item heap with correct indices, the written swap makes them wrong |
| `LfuHeap.Swap` | lfuCache.go:35-39 | exchanges the two items, keeps the entries, and keeps every index equal to its slot |
| `LfuHeap.SwapsAgreeOnEntries` | lfuCache.go:35-39 | the written and corrected swaps move the same `(key, frequency)` pairs |
| `LfuHeap.Push` | lfuCache.go:41-46 | appends the item, tells it the old length as its slot, and adds exactly its entry |
| `LfuHeap.Pop` | lfuCache.go:48-56 | removes the last item, marks it with index -1, and removes exactly its entry |
| `LfuHeap.Up` | lfuCache.go:132 | keeps the entries and the indices, and leaves the slots after `j` alone |
| `LfuHeap.UpKeepsRoot` | lfuCache.go:132 | an item no less frequent than the root never climbs into the root slot |
| `LfuHeap.UpRestores` | lfuCache.go:132 | `up` turns a heap broken only at slot `j` into a heap |
| `LfuHeap.MinChild` | lfuCache.go:136 | the child `down` picks is no more frequent than its sibling |
| `LfuHeap.SiftDown` | lfuCache.go:136 | keeps the entries and the indices, leaves the slots before `i` and from `n` on alone, and an item that moves is replaced by a strictly less frequent one |
| `LfuHeap.SiftDownTakesMinChild` | lfuCache.go:136 | an item that moves is replaced by the less frequent of its children |
| `LfuHeap.SiftDownFrame` | lfuCache.go:136 | the root (unless it is `i`), the slots from `n` on, and every slot whose parent precedes `i` are unchanged |
| `LfuHeap.Down` | lfuCache.go:136 | when it reports no move, nothing changed; when it reports one, a strictly less frequent child took the slot; entries and indices are kept either way |
| `LfuHeap.DownRestores` | lfuCache.go:136 | `down` restores the order below the slot it starts from |
| `LfuHeap.HeapifyStep` | lfuCache.go:165 | when every parent from slot `k` on is ordered, sifting slot `k - 1` down orders every parent from `k - 1` on |
| `LfuHeap.HeapifyOrders` | lfuCache.go:165 | sifting down every slot from `k - 1` to the root orders the whole heap |
| `LfuHeap.Init` | lfuCache.go:165 | `heap.Init` gives a heap with the same entries and correct indices |
| `LfuHeap.HeapPush` | lfuCache.go:132 | `heap.Push` adds exactly the new entry and keeps the heap order and the indices |
| `LfuHeap.PushKeepsRoot` | lfuCache.go:131-132 | pushing an item no less frequent than the root keeps the root |
| `LfuHeap.HeapPop` | lfuCache.go:136 | `heap.Pop` takes off the root's entry and keeps the heap order and the indices |
| `LfuHeap.PushPopTakesRoot` | lfuCache.go:131-136 | pushing such an item and popping at once takes off the old root |
| `LfuHeap.DownOrUp` | lfuCache.go:203 | keeps the entries and leaves the slots from `n` on alone |
| `LfuHeap.RemoveRestores` | lfuCache.go:203 | after the last item moves into slot `i`, down-or-up restores the heap order |
| `LfuHeap.HeapRemove` | lfuCache.go:203 | `heap.Remove` takes off exactly slot `i`'s entry and keeps the heap order and the indices |
| `LfuHeap.RootIsMinimum` | lfuCache.go:31-33 | in a heap the root is no more frequent than any slot |
| `LfuHeap.RootIsMinimumEntry` | lfuCache.go:172-177 | the root is no more frequent than any entry |
| `LfuHeap.Find` | lfuCache.go:201-205 | a slot from `from` on holding the key with no earlier such slot, or none when no slot does |
| `LfuCache.NewLfu` | lfuCache.go:80-86 | a new cache is valid, empty and has count 0 |
| `LfuCache.NewLfuWithCustomCache` | lfuCache.go:89-104 | fails with `CacheNotEmpty` exactly when the backend holds a key; otherwise wraps it, and is valid if the backend is |
| `LfuCache.Store` | lfuCache.go:115-129 | a present key gives `AlreadyExists` and no change to the heap or the storage |
| `LfuCache.PushKeeps` | lfuCache.go:131-132 | below the capacity, pushing a new key at frequency 0 keeps the heap invariant for the grown key set |
| `LfuCache.PopKeeps` | lfuCache.go:135-136 | popping a valid non-empty heap takes off an entry no entry is less frequent than, and leaves a valid heap for the other keys |
| `LfuCache.PushPopEvictsLeast` | lfuCache.go:131-141 | at the capacity, push then pop takes off an entry of least frequency, 0, and keeps the heap invariant for the keys left |
| `LfuCache.StoreThenRemoveStorage` | lfuCache.go:126-140 | the backend store of a new key and the removal of the evicted key both succeed |
| `LfuCache.StoreFillsRoom` | lfuCache.go:115-144 | with room, store succeeds, adds the key at frequency 0, evicts nothing and keeps the invariant |
| `LfuCache.StoreEvictsLeast` | lfuCache.go:134-141 | when full, store succeeds and evicts one entry of least frequency, the new key's possibly, from both heap and storage; the invariant and the capacity bound survive |
| `LfuCache.StoreEvictsNewKey` | lfuCache.go:115-144 | when full and every key has been read, store reports success but leaves storage and heap as they were |
| `LfuCache.StoreEvictsLeastFrequentlyUsedKey` | lfuCache.go:170-171 | when full and the key `GetLeastFrequentlyUsedKey` names was never read, store evicts exactly that key, keeps the new one and the invariant |
| `LfuCache.EvictRoot` | lfuCache.go:134-140 | the eviction step alone keeps the capacity and, when it fails, changes nothing |
| `LfuCache.EvictRootKeeps` | lfuCache.go:134-140 | on a valid cache the eviction step succeeds, removes exactly the root's key, frees one slot and keeps the invariant |
| `LfuCache.StoreEvictingFirst` | lfuCache.go:115-144 | the corrected store refuses a present key before evicting anything, and keeps the capacity |
| `LfuCache.StoreEvictingFirstEvictsLeast` | lfuCache.go:170-171 | the corrected store into a full cache evicts exactly the key `GetLeastFrequentlyUsedKey` named, whatever its frequency, keeps the new key and the invariant |
| `LfuCache.Get` | lfuCache.go:154-158 | an absent key gives `DoesNotExist` and changes nothing; a present key gives its value and keeps the storage |
| `LfuCache.BumpSlots` | lfuCache.go:160-162 | keys and indices stay, no frequency drops or rises by more than one, slots of other keys are unchanged, a missing key changes nothing, and a present key gains one read |
| `LfuCache.BumpEntries` | lfuCache.go:160-162 | the increment raises exactly the key's entry by one and keeps one entry per key |
| `LfuCache.BumpKeeps` | lfuCache.go:160-165 | increment then `heap.Init` keeps the heap invariant |
| `LfuCache.GetBumpsFrequency` | lfuCache.go:154-168 | `get` raises only that key's frequency, by exactly one, and keeps the invariant |
| `LfuCache.LeastFrequentlyUsedKey` | lfuCache.go:172-177 | none exactly for an empty cache; otherwise the root's key, a stored key whose frequency is the least |
| `LfuCache.Count` | lfuCache.go:261-263 | the count is the number of stored keys and at most the capacity |
| `LfuCache.IsFull` | lfuCache.go:272-274 | full exactly when at least `capacity` keys are stored |
| `LfuCache.IsEmpty` | lfuCache.go:283-285 | empty exactly when no key is stored |
| `LfuCache.Remove` | lfuCache.go:188-192 | an absent key gives `DoesNotExist` and changes nothing |
| `LfuCache.TakeOutKeeps` | lfuCache.go:203 | taking any slot's item out of a valid heap removes exactly that entry and leaves a valid heap for the other keys |
| `LfuCache.HeapRemoveKeeps` | lfuCache.go:199-205 | the key's item is found, and removing it keeps the heap invariant for the other keys |
| `LfuCache.RemoveDeletes` | lfuCache.go:188-208 | `remove` deletes the key from the storage and exactly its one entry from the heap, and keeps the invariant |
| `LfuCache.Replace` | lfuCache.go:217-221 | an absent key gives `DoesNotExist` and changes nothing |
| `LfuCache.ReplaceResetsFrequency` | lfuCache.go:217-229 | `replace` stores the new value, resets the key's frequency to 0, keeps the count and the invariant |
| `LfuCache.Clear` | lfuCache.go:238-248 | empties storage and heap, and the result is valid |
| `LfuCache.Keys` | lfuCache.go:250-252 | exactly the stored keys, each once, as many as the count |
| `LfuCache.OperationsKeepValid` | lfuCache.go:115-229 | store, get, remove and replace keep the invariant; store fails exactly on a present key |
| `LfuCache.RemoveThenGetFails` | lfuCache_test.go:86-90 | a removed key reads as `DoesNotExist` |
| `LfuCache.BumpedLosesLead` | lfuCache.go:160-162 | after the increment, a key read no more often than the read key is now read strictly less often |
| `LfuCache.UndercutIsNotRoot` | lfuCache.go:172-177 | a key that another entry undercuts is never the root's key |
| `LfuCache.BumpedRootIsNotKey` | lfuCache.go:160-165 | after the increment and `heap.Init`, the read key is not at the root when another key was read as rarely |
| `LfuCache.GetMovesLeastFrequentKey` | lfuCache_test.go:65-71 | reading the least frequently used key hands that role to another key when one was read as rarely |
| `LfuCache.ClearedCacheAcceptsStore` | lfuCache_test.go:105-109 | after a clear, a store succeeds, the count is 1 and the value reads back |
| `LfuScenario.FirstRead` | lfuCache.go:160-165 | reading key 0 of three unread keys sifts it below key 1 |
| `LfuScenario.SecondRead` | lfuCache.go:160-165 | reading key 1 next sifts it below key 2 |
| `LfuScenario.FourthKeyPushPop` | lfuCache.go:131-136 | a fourth key pushed at frequency 0 stops below key 2 at the root, which is popped |
| `LfuScenario.StoreUnreadIntoRoom` | lfuCache.go:115-144 | with room and no reads, store appends the new key's item in the last slot |
| `LfuScenario.ThreeStores` | lfuCache_test.go:28-32 | three stores fill a new cache of capacity three, in slot order |
| `LfuScenario.SecondStore` | lfuCache_test.go:28-32 | the second store of the walk-through appends key 1 |
| `LfuScenario.ThirdStore` | lfuCache_test.go:28-32 | the third store appends key 2 |
| `LfuScenario.TwoReads` | lfuCache_test.go:44-48 | after reading keys 0 and 1, key 2 is at the root |
| `LfuScenario.FourthStoreEvicts` | lfuCache_test.go:50-54 | the fourth store succeeds, and key 2 then reads as `DoesNotExist` |
| `LfuScenario.StoreEvictsUnreadKey` | lfuCache_test.go:42-55 | the whole walk-through: store 0, 1, 2, read 0 and 1, and store 3; key 2 is gone and key 3 reads back |
| `LfuScenario.StoredAndReadOnce` | lfuCache.go:154-177 | key 0 stored into a cache of capacity one and read once has frequency 1 and is the named key |
| `LfuScenario.NamedKeyIsNotEvicted` | lfuCache.go:170-171 | in that cache, storing key 1 evicts key 1 and keeps key 0, the key `GetLeastFrequentlyUsedKey` named |
| `LfuScenario.CorrectedStoreEvictsNamedKey` | lfuCache.go:170-171 | the corrected store evicts key 0 instead and keeps key 1 |
| `DraftCache.IsAlreadyExistsError` | cache.go:59-62 | nil and foreign errors are rejected; the error built with the AlreadyExists type is accepted; an accepted error has that type |
| `DraftCache.IsDoesntExistError` | cache.go:64-67 | nil and foreign errors are rejected; the error built with the DoesntExist type is accepted; an accepted error has that type |
| `DraftCache.ClassifiersAreExclusive` | cache.go:59-67 | each classifier accepts exactly its own error type; no error satisfies both, and nil and foreign errors satisfy neither |
| `DraftCache.NewMapCache` | cache.go:81-86 | a new cache is empty and has no routine |
| `DraftCache.Get` | cache.go:119-128 | the stored value for a present key; otherwise a `DoesntExist` error |
| `DraftCache.KillAsWritten` | cache.go:165-171 | the written kill returns on no channel; on a waiting routine it returns with that channel closed but still in `keyChannels`; it panics on a closed channel and blocks on a fired routine's channel |
| `DraftCache.RunAsWritten` | cache.go:173-190 | after the written kill, the key has a routine waiting on a new channel |
| `DraftCache.FiresAsWritten` | cache.go:177-189 | a waiting routine deletes its key and leaves its channel behind |
| `DraftCache.StoreAsWritten` | cache.go:88-103 | a present key gives `AlreadyExists` and no change; if the store returns, the key reads `val` |
| `DraftCache.RemoveAsWritten` | cache.go:105-117 | an absent key gives `DoesntExist`; if the removal returns, the key is gone |
| `DraftCache.ReplaceAsWritten` | cache.go:130-143 | an absent key gives `DoesntExist`; a returning replace stores the value and arms a routine, whatever the duration |
| `DraftCache.ExpireAsWritten` | cache.go:145-161 | an absent key gives `DoesntExist`; a non-positive duration deletes the key and leaves its channel untouched |
| `DraftCache.ReplaceWithZeroStillExpires` | cache.go:130-143 | store with duration 0, replace with duration 0, then a firing: the replaced value is deleted |
| `DraftCache.ExpireLeavesStaleRoutine` | cache.go:154-158 | expire with 0, store again with 0, then the old routine fires: the new permanent value is deleted |
| `DraftCache.RestoreAfterRemovePanics` | cache.go:165-171 | store with a duration, remove, store with a duration: the kill sends on a closed channel |
| `DraftCache.RestoreAfterFiringDeadlocks` | cache.go:173-190 | store with a duration, firing, store with a duration: the kill waits for a receiver that has returned |
| `DraftCache.Kill` | cache.go:165-171 | the corrected kill forgets the key's channel and touches nothing else |
| `DraftCache.Run` | cache.go:173-176 | the corrected run leaves exactly one waiting routine for the key and touches no other key |
| `DraftCache.Fires` | cache.go:177-189 | a waiting routine deletes its key and, corrected, its channel; other keys read the same; validity is kept |
| `DraftCache.Store` | cache.go:88-103 | never panics; a present key gives `AlreadyExists` and no change; otherwise the key reads `val`, with a routine exactly for a positive duration |
| `DraftCache.Remove` | cache.go:105-117 | never panics; an absent key gives `DoesntExist`; otherwise key and channel are gone and other keys read the same |
| `DraftCache.Replace` | cache.go:130-143 | an absent key gives `DoesntExist`; otherwise the key reads the new value, with a routine exactly for a positive duration |
| `DraftCache.Expire` | cache.go:145-161 | an absent key gives `DoesntExist`; a positive duration keeps the value under a new routine; otherwise key and routine are gone |
| `DraftCache.ZeroDurationIsPermanent` | cache.go:11-25 | a value stored or replaced with duration 0 survives every firing |
| `DraftCache.PermanentSurvivesFiring` | cache.go:13 | a key without a routine keeps its value through any firing |
| `DraftCache.ExpireThenStoreIsPermanent` | cache.go:27-30 | after `Expire(k, 0)`, a value stored again without a duration is permanent |
| `DraftCache.StoredWithDurationExpires` | tests/cache_test.go:28-37 | a value stored with a positive duration is gone once its routine fires, with a `DoesntExist` error |
| `DraftCache.RemoveUndoesStore` | cache.go:88-117 | removing a key just stored gives back the exact earlier state |
| `DraftCache.SecondStoreKeepsFirst` | tests/cache_test.go:39-45 | a second store of a key fails with `AlreadyExists` and keeps the first value |
| `DraftCache.RemoveThenStore` | tests/cache_test.go:53-56 | after a removal the key reads as `DoesntExist` and can be stored again |
| `DraftCache.KillAgreesOnValidStates` | cache.go:165-171 | on reachable states the written kill never panics or blocks, and agrees with the corrected one on the values |
| `DraftCache.ReplaceAgreesOnPositiveDuration` | cache.go:130-143 | with a positive duration, the written and the corrected replace agree on reachable states |
| `DraftCache.StoreAgreesOnValidStates` | cache.go:88-103 | on reachable states the written store never panics or blocks, and agrees with the corrected one on the values |

## Left out

- Mutexes are left out; every operation is one indivisible transition. Goroutine scheduling and wall-clock time are left out too: a routine's timer elapsing is an explicit event. Races between a firing and a concurrent operation are therefore not modelled. One example is a draft routine that has selected its timer but waits for the mutex while a kill sends to it.
- Some definitions of `mapCache.go` are not part of this model: the `cacheChannel` type, `newCacheChannel`, `signal`, `newWrapperError` and the error-type constants. The model takes signalling `abort` to end the routine, and the routine's panic is `Err(UnexpectedError)`.
- Error messages (the `fmt.Sprintf` text) are left out; errors are told apart by kind, as callers do.
- `directoryCache.go` is filesystem I/O and `redisCache.go` a network client.
- `lruCache.go` is an empty stub.
- `internal/pkg/cache/types.go` has empty methods.
- Custom LFU backends are left out: `lfuCache` is modelled over the in-memory backend only. Its `Keys` never fails, so the error path of `NewLfuWithCustomCache` (lfuCache.go:90-93) cannot be reached and is not modelled. Likewise, `clear` (lfuCache.go:239-242) cannot fail there.
- The storage's `lfuItem` wrapper is left out. The model stores the value directly and finds the key's heap item by its key, instead of through the stored pointer. The two name the same item, because every key has exactly one item.
- `remove`'s loop over the whole heap (lfuCache.go:201-205) is modelled as removing the first match. The loop keeps running over the shifted slots after the removal, but it cannot match again: every item sits in one slot, and `Pop` clears the slot it vacates (lfuCache.go:52).
- Integer widths are left out: frequencies and durations are unbounded integers, and the 64-bit wrap-around of a frequency read 2^63 times is not modelled.
- `LfuCache.Store`: its own contract states only the `AlreadyExists` rule and the kept capacity. The success cases are stated by `StoreFillsRoom`, `StoreEvictsLeast` and `StoreEvictsNewKey`, which need the invariant.
- `LfuCache.Get`: its own contract does not state the frequency change, because that needs the invariant; `GetBumpsFrequency` states it.
- `LfuCache.Remove`: its own contract covers only the absent key; `RemoveDeletes` covers a present one.
- `LfuCache.Replace`: its own contract covers only the absent key; `ReplaceResetsFrequency` covers a present one.
- `DraftCache.Store`: that a zero duration leaves no routine is stated only from a valid state. A channel left behind by the written code is not a reachable state of the corrected cache.

## Findings

| source | as written | input that shows it | evidently intended | confidence | as-written member | corrected member |
|---|---|---|---|---|---|---|
| lfuCache.go:35-39 | `Swap` exchanges the items, then tells the item now in slot `i` that it sits in `j`, and vice versa | a heap `[a(freq 1, index 0), b(freq 0, index 1)]` that `up` swaps: afterwards `b` says 1 and `a` says 0 | each item is told the slot it now occupies (`h[i].index = i`, `h[j].index = j`) | high, not executed; no code reads `index`, so the defect is latent | `LfuHeap.SwapAsWritten`, `LfuHeap.SwapAsWrittenBreaksIndices` | `LfuHeap.Swap` (keeps `Indexed`), used by every heap operation |
| cache.go:130-143 | `Replace` calls `runExpirationRoutine` for every duration, so a zero duration arms a routine that fires at once | `Store(k, v, 0)`, `Replace(k, w, 0)`, then the routine fires: `k` is deleted | a duration of 0 keeps the value (cache.go:22-25): cancel any routine and start none | high, not executed | `DraftCache.ReplaceAsWritten`, `DraftCache.ReplaceWithZeroStillExpires` | `DraftCache.Replace`, `DraftCache.ZeroDurationIsPermanent` |
| cache.go:154-158 | `Expire(k, d <= 0)` deletes the key but leaves its routine waiting | `Store(k, v, 5)`, `Expire(k, 0)`, `Store(k, w, 0)`, then the old routine fires: the permanent `w` is deleted | stop the routine when deleting the key | high, not executed | `DraftCache.ExpireAsWritten`, `DraftCache.ExpireLeavesStaleRoutine` | `DraftCache.Expire`, `DraftCache.ExpireThenStoreIsPermanent` |
| cache.go:165-171 | `killRoutineIfExists` closes the channel but leaves it in `keyChannels`, so a later kill sends on a closed channel | `Store(k, v, 5)`, `Remove(k)`, `Store(k, v, 5)`: the send panics | delete the channel from `keyChannels` after closing it | high, not executed | `DraftCache.KillAsWritten`, `DraftCache.RestoreAfterRemovePanics` | `DraftCache.Kill`, `DraftCache.KillAgreesOnValidStates` |
| lfuCache.go:170-171 | the comment says `GetLeastFrequentlyUsedKey` names the key the next store pops, but `store` pushes the new key at frequency 0 before popping, so once the named key has been read the new key is popped instead | capacity 1: `Store(0)`, `Get(0)`; the named key is 0, yet `Store(1)` evicts 1 and keeps 0 | the store evicts the named key before pushing the new one | medium, not executed; the comment or the code may be the one meant | `LfuCache.StoreEvictsNewKey`, `LfuScenario.NamedKeyIsNotEvicted` | `LfuCache.StoreEvictingFirst`, `LfuCache.StoreEvictingFirstEvictsLeast`, `LfuScenario.CorrectedStoreEvictsNamedKey` |
| cache.go:177-189 | a routine whose timer elapsed deletes the key and returns, but its channel stays, with no receiver | `Store(k, v, 5)`, the routine fires, `Store(k, v, 5)`: the kill's unbuffered send blocks forever with the mutex held | the firing routine also deletes its channel | high, not executed | `DraftCache.FiresAsWritten`, `DraftCache.RestoreAfterFiringDeadlocks` | `DraftCache.Fires`, `DraftCache.StoredWithDurationExpires` |
