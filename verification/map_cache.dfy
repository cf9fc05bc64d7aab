/** The in-memory storage backend (mapCache.go): a map from key to value plus
    one cancellation channel per key for its expiration routine and one for
    its update routine. The mutex is left out: every operation here is one
    indivisible transition. A background routine that fires is an explicit
    event (ExpirationFires, UpdateFires) rather than the passing of time. */
module MapCache {
  import opened CacheErrors

  /** The cancellation channel of one expiration routine. `serial` tells
      installations apart (mapCache.go allocates a new channel for each one),
      `ttl` is the delay it was armed with, and `armed` turns false once the
      routine has fired. mapCache.go does not delete a fired routine's channel
      from `removeChannels`, so a disarmed timer may linger there. */
  datatype Timer = Timer(serial: nat, ttl: int, armed: bool)

  /** The cancellation channel of one update routine, with the update
      function and the period that routine captured. */
  datatype Updater<!V> = Updater(serial: nat, updateFunc: V -> V, period: int)

  /** `nextSerial` stands for the allocator of fresh channels. */
  datatype State<K, !V> = State(
    cacheMap: map<K, V>,
    removeChannels: map<K, Timer>,
    updateChannels: map<K, Updater<V>>,
    nextSerial: nat)

  /** How an entry lives: exactly one of these applies to a present key. */
  datatype Lifetime = Permanent | Expiring(ttl: int) | Updating(period: int)

  /** The invariant every reachable backend state keeps: an armed expiration
      routine or any update routine belongs to a present key, no key has both
      kinds of routine waiting, periods are positive, and every channel was
      allocated before `nextSerial`. */
  ghost predicate Valid<K(!new), V>(s: State<K, V>) {
    && (forall k :: k in s.removeChannels && s.removeChannels[k].armed ==>
          k in s.cacheMap && k !in s.updateChannels)
    && (forall k :: k in s.updateChannels ==>
          k in s.cacheMap && s.updateChannels[k].period > 0)
    && (forall k :: k in s.removeChannels ==>
          s.removeChannels[k].serial < s.nextSerial && s.removeChannels[k].ttl > 0)
    && (forall k :: k in s.updateChannels ==> s.updateChannels[k].serial < s.nextSerial)
  }

  /** No channel of `s` carries `serial`. */
  ghost predicate FreshSerial<K(!new), V>(s: State<K, V>, serial: nat) {
    && (forall k :: k in s.removeChannels ==> s.removeChannels[k].serial != serial)
    && (forall k :: k in s.updateChannels ==> s.updateChannels[k].serial != serial)
  }

  /** `s` and `t` agree on everything they hold for key `k`. */
  ghost predicate SameAt<K(!new), V>(s: State<K, V>, t: State<K, V>, k: K) {
    && Get(s, k) == Get(t, k)
    && (k in s.removeChannels <==> k in t.removeChannels)
    && (k in s.removeChannels ==> s.removeChannels[k] == t.removeChannels[k])
    && (k in s.updateChannels <==> k in t.updateChannels)
    && (k in s.updateChannels ==> s.updateChannels[k] == t.updateChannels[k])
  }

  /** The routine that can still act on the entry under `key`, if any. */
  function LifetimeOf<K(!new), V>(s: State<K, V>, key: K): Lifetime {
    if key in s.updateChannels then Updating(s.updateChannels[key].period)
    else if key in s.removeChannels && s.removeChannels[key].armed then
      Expiring(s.removeChannels[key].ttl)
    else Permanent
  }

  function NewMapCache<K(!new), V>(): (s: State<K, V>)
    ensures Valid(s)
    ensures forall k :: Get(s, k) == Err(DoesNotExist)
  {
    State(map[], map[], map[], 0)
  }

  /** Reads a value; the state is not touched, so no timer is reset. */
  function Get<K(!new), V>(s: State<K, V>, key: K): (r: Result<V>)
    ensures r.Ok? <==> key in s.cacheMap
    ensures r.Ok? ==> r.value == s.cacheMap[key]
    ensures r.Err? ==> r.error == DoesNotExist
  {
    if key !in s.cacheMap then Err(DoesNotExist) else Ok(s.cacheMap[key])
  }

  /** Stores a permanent value under a key that must be free. */
  function Store<K(!new), V>(s: State<K, V>, key: K, val: V): (r: Step<State<K, V>>)
    ensures key in s.cacheMap ==> r == Step(s, Some(AlreadyExists))
    ensures key !in s.cacheMap ==> r.Succeeded() && Get(r.state, key) == Ok(val)
    ensures forall k :: k != key ==> SameAt(s, r.state, k)
    ensures r.state.removeChannels == s.removeChannels
    ensures r.state.updateChannels == s.updateChannels
    ensures Valid(s) ==> Valid(r.state)
    ensures Valid(s) && r.Succeeded() ==> LifetimeOf(r.state, key) == Permanent
  {
    if key in s.cacheMap then Step(s, Some(AlreadyExists))
    else Step(s.(cacheMap := s.cacheMap[key := val]), None)
  }

  /** Deletes a present key together with both of its channels; signalling
      `abort` on a channel ends its routine, so deleting the channel is all
      that remains of it here. */
  function Remove<K(!new), V>(s: State<K, V>, key: K): (r: Step<State<K, V>>)
    ensures key !in s.cacheMap ==> r == Step(s, Some(DoesNotExist))
    ensures key in s.cacheMap ==> r.Succeeded()
    ensures Get(r.state, key).Err?
    ensures r.Succeeded() ==>
              key !in r.state.removeChannels && key !in r.state.updateChannels
    ensures forall k :: k != key ==> SameAt(s, r.state, k)
    ensures r.state.nextSerial == s.nextSerial
    ensures Valid(s) ==> Valid(r.state)
  {
    if key !in s.cacheMap then Step(s, Some(DoesNotExist))
    else
      Step(s.(cacheMap := s.cacheMap - {key},
              removeChannels := s.removeChannels - {key},
              updateChannels := s.updateChannels - {key}), None)
  }

  /** Remove followed by Store: the key becomes a permanent entry holding
      `val`, whatever routine it had before being cancelled. */
  function Replace<K(!new), V>(s: State<K, V>, key: K, val: V): (r: Step<State<K, V>>)
    ensures key !in s.cacheMap ==> r == Step(s, Some(DoesNotExist))
    ensures key in s.cacheMap ==>
              && r.Succeeded()
              && Get(r.state, key) == Ok(val)
              && r.state.cacheMap.Keys == s.cacheMap.Keys
              && LifetimeOf(r.state, key) == Permanent
    ensures forall k :: k != key ==> SameAt(s, r.state, k)
    ensures Valid(s) ==> Valid(r.state)
  {
    var removed := Remove(s, key);
    if !removed.Succeeded() then removed
    else Store(removed.state, key, val)
  }

  /** Stores a value that the expiration routine will delete after `ttl`. */
  function StoreWithExpiration<K(!new), V>(s: State<K, V>, key: K, val: V, ttl: int): (r: Step<State<K, V>>)
    ensures ttl <= 0 ==> r == Step(s, Some(NonPositivePeriod))
    ensures ttl > 0 && key in s.cacheMap ==> r == Step(s, Some(AlreadyExists))
    ensures ttl > 0 && key !in s.cacheMap ==>
              && r.Succeeded()
              && Get(r.state, key) == Ok(val)
              && key in r.state.removeChannels
              && r.state.removeChannels[key].ttl == ttl
              && r.state.removeChannels[key].armed
              && (Valid(s) ==> FreshSerial(s, r.state.removeChannels[key].serial))
    ensures forall k :: k != key ==> SameAt(s, r.state, k)
    ensures Valid(s) ==> Valid(r.state)
    ensures Valid(s) && r.Succeeded() ==> LifetimeOf(r.state, key) == Expiring(ttl)
  {
    if ttl <= 0 then Step(s, Some(NonPositivePeriod))
    else
      var stored := Store(s, key, val);
      if !stored.Succeeded() then stored
      else
        var t := stored.state;
        Step(t.(removeChannels := t.removeChannels[key := Timer(t.nextSerial, ttl, true)],
                nextSerial := t.nextSerial + 1), None)
  }

  /** Replaces a present key's value and arms a new expiration routine. */
  function ReplaceWithExpiration<K(!new), V>(s: State<K, V>, key: K, val: V, ttl: int): (r: Step<State<K, V>>)
    ensures ttl <= 0 ==> r == Step(s, Some(NonPositivePeriod))
    ensures ttl > 0 && key !in s.cacheMap ==> r == Step(s, Some(DoesNotExist))
    ensures ttl > 0 && key in s.cacheMap ==>
              && r.Succeeded()
              && Get(r.state, key) == Ok(val)
              && r.state.cacheMap.Keys == s.cacheMap.Keys
              && LifetimeOf(r.state, key) == Expiring(ttl)
    ensures forall k :: k != key ==> SameAt(s, r.state, k)
    ensures Valid(s) ==> Valid(r.state)
  {
    if ttl <= 0 then Step(s, Some(NonPositivePeriod))
    else
      var removed := Remove(s, key);
      if !removed.Succeeded() then removed
      else StoreWithExpiration(removed.state, key, val, ttl)
  }

  /** Re-arms the expiration of a present key, keeping its value: the old
      routine (expiration or update) is cancelled and a fresh expiration
      routine with delay `ttl` takes its place. */
  function Expire<K(!new), V>(s: State<K, V>, key: K, ttl: int): (r: Step<State<K, V>>)
    ensures ttl <= 0 ==> r == Step(s, Some(NonPositivePeriod))
    ensures ttl > 0 && key !in s.cacheMap ==> r == Step(s, Some(DoesNotExist))
    ensures ttl > 0 && key in s.cacheMap ==>
              && r.Succeeded()
              && Get(r.state, key) == Get(s, key)
              && LifetimeOf(r.state, key) == Expiring(ttl)
              && r.state.removeChannels[key].serial == s.nextSerial
              && (Valid(s) ==> FreshSerial(s, r.state.removeChannels[key].serial))
    ensures forall k :: k != key ==> SameAt(s, r.state, k)
    ensures Valid(s) ==> Valid(r.state)
  {
    if ttl <= 0 then Step(s, Some(NonPositivePeriod))
    else
      var current := Get(s, key);
      if current.Err? then Step(s, Some(current.error))
      else
        var removed := Remove(s, key);
        if !removed.Succeeded() then removed
        else StoreWithExpiration(removed.state, key, current.value, ttl)
  }

  /** Stores a value that its update routine replaces by `updateFunc` of it
      every `period`. A missing function (nil in the Go code) is checked
      first, then the period, then the key. */
  function StoreWithUpdate<K(!new), V>(s: State<K, V>, key: K, initialValue: V,
                                 updateFunc: Option<V -> V>, period: int): (r: Step<State<K, V>>)
    ensures updateFunc.None? ==> r == Step(s, Some(NilUpdateFunc))
    ensures updateFunc.Some? && period <= 0 ==> r == Step(s, Some(NonPositivePeriod))
    ensures updateFunc.Some? && period > 0 && key in s.cacheMap ==>
              r == Step(s, Some(AlreadyExists))
    ensures updateFunc.Some? && period > 0 && key !in s.cacheMap ==>
              && r.Succeeded()
              && Get(r.state, key) == Ok(initialValue)
              && LifetimeOf(r.state, key) == Updating(period)
              && r.state.updateChannels[key].updateFunc == updateFunc.value
              && (Valid(s) ==> FreshSerial(s, r.state.updateChannels[key].serial))
    ensures forall k :: k != key ==> SameAt(s, r.state, k)
    ensures Valid(s) ==> Valid(r.state)
  {
    if updateFunc.None? then Step(s, Some(NilUpdateFunc))
    else if period <= 0 then Step(s, Some(NonPositivePeriod))
    else
      var stored := Store(s, key, initialValue);
      if !stored.Succeeded() then stored
      else
        var t := stored.state;
        Step(t.(updateChannels := t.updateChannels[key := Updater(t.nextSerial, updateFunc.value, period)],
                nextSerial := t.nextSerial + 1), None)
  }

  /** Replaces a present key's value by a self-updating one, with the same
      order of checks as StoreWithUpdate and the key check last. */
  function ReplaceWithUpdate<K(!new), V>(s: State<K, V>, key: K, initialValue: V,
                                   updateFunc: Option<V -> V>, period: int): (r: Step<State<K, V>>)
    ensures updateFunc.None? ==> r == Step(s, Some(NilUpdateFunc))
    ensures updateFunc.Some? && period <= 0 ==> r == Step(s, Some(NonPositivePeriod))
    ensures updateFunc.Some? && period > 0 && key !in s.cacheMap ==>
              r == Step(s, Some(DoesNotExist))
    ensures updateFunc.Some? && period > 0 && key in s.cacheMap ==>
              && r.Succeeded()
              && Get(r.state, key) == Ok(initialValue)
              && r.state.cacheMap.Keys == s.cacheMap.Keys
              && LifetimeOf(r.state, key) == Updating(period)
              && r.state.updateChannels[key].updateFunc == updateFunc.value
              && (Valid(s) ==> FreshSerial(s, r.state.updateChannels[key].serial))
    ensures forall k :: k != key ==> SameAt(s, r.state, k)
    ensures Valid(s) ==> Valid(r.state)
  {
    if updateFunc.None? then Step(s, Some(NilUpdateFunc))
    else if period <= 0 then Step(s, Some(NonPositivePeriod))
    else
      var removed := Remove(s, key);
      if !removed.Succeeded() then removed
      else StoreWithUpdate(removed.state, key, initialValue, updateFunc, period)
  }

  /** The expiration routine of `key` receives `proceed` from its timer: it
      deletes the key's value (a no-op on an absent key) and ends, leaving
      its spent channel behind. Without an armed routine nothing happens. */
  function ExpirationFires<K(!new), V>(s: State<K, V>, key: K): (r: State<K, V>)
    ensures key in s.removeChannels && s.removeChannels[key].armed ==>
              && Get(r, key).Err?
              && key in r.removeChannels && !r.removeChannels[key].armed
    ensures !(key in s.removeChannels && s.removeChannels[key].armed) ==> r == s
    ensures key !in s.cacheMap ==> r.cacheMap == s.cacheMap
    ensures forall k :: k != key ==> SameAt(s, r, k)
    ensures Valid(s) ==> Valid(r)
  {
    if key in s.removeChannels && s.removeChannels[key].armed then
      s.(cacheMap := s.cacheMap - {key},
         removeChannels := s.removeChannels[key := s.removeChannels[key].(armed := false)])
    else s
  }

  /** The update routine of `key` receives `proceed` from its timer: it reads
      the current value, removes the key and stores it again with
      `updateFunc` applied, which installs the next routine. mapCache.go
      panics if any of these steps fails; that panic is `Err(UnexpectedError)`
      here. */
  function UpdateFires<K(!new), V>(s: State<K, V>, key: K): (r: Result<State<K, V>>)
    ensures key !in s.updateChannels ==> r == Ok(s)
    ensures Valid(s) && key in s.updateChannels ==>
              && r.Ok?
              && Get(r.value, key) == Ok(s.updateChannels[key].updateFunc(s.cacheMap[key]))
              && key in r.value.updateChannels
              && r.value.updateChannels[key].updateFunc == s.updateChannels[key].updateFunc
              && LifetimeOf(r.value, key) == LifetimeOf(s, key)
              && FreshSerial(s, r.value.updateChannels[key].serial)
              && (forall k :: k != key ==> SameAt(s, r.value, k))
              && Valid(r.value)
  {
    if key !in s.updateChannels then Ok(s)
    else
      var routine := s.updateChannels[key];
      var current := Get(s, key);
      if current.Err? then Err(UnexpectedError)
      else
        var removed := Remove(s, key);
        if !removed.Succeeded() then Err(UnexpectedError)
        else
          var restored := StoreWithUpdate(removed.state, key, routine.updateFunc(current.value),
                                          Some(routine.updateFunc), routine.period);
          if !restored.Succeeded() then Err(UnexpectedError) else Ok(restored.state)
  }

  /** Removes every key, one Remove per key, as the loop in mapCache.go does.
      It returns the first Remove error; none can occur because every
      key it visits is present. Channels left behind by fired routines of
      absent keys are not visited. */
  method Clear<K(!new), V>(s: State<K, V>) returns (r: Step<State<K, V>>)
    ensures r.Succeeded()
    ensures r.state.cacheMap == map[]
    ensures forall k :: k in s.cacheMap ==>
              k !in r.state.removeChannels && k !in r.state.updateChannels
    ensures forall k :: k !in s.cacheMap ==> SameAt(s, r.state, k)
    ensures Valid(s) ==> Valid(r.state)
  {
    var t := s;
    var todo := s.cacheMap.Keys;
    while todo != {}
      invariant t.cacheMap.Keys == todo
      invariant todo <= s.cacheMap.Keys
      invariant forall k :: k in s.cacheMap && k !in todo ==>
                  k !in t.removeChannels && k !in t.updateChannels
      invariant forall k :: k !in s.cacheMap || k in todo ==> SameAt(s, t, k)
      invariant Valid(s) ==> Valid(t)
      decreases todo
    {
      var k :| k in todo;
      t := Remove(t, k).state;
      todo := todo - {k};
    }
    assert t.cacheMap == map[];
    return Step(t, None);
  }

  /** Lists the present keys, each exactly once, in no particular order. The
      source also returns an error value, which is always nil. */
  method Keys<K(!new), V>(s: State<K, V>) returns (keys: seq<K>)
    ensures forall k :: k in keys <==> k in s.cacheMap
    ensures forall i, j :: 0 <= i < j < |keys| ==> keys[i] != keys[j]
    ensures |keys| == |s.cacheMap|
  {
    keys := [];
    var todo := s.cacheMap.Keys;
    while todo != {}
      invariant todo <= s.cacheMap.Keys
      invariant forall k :: k in keys <==> k in s.cacheMap && k !in todo
      invariant forall i, j :: 0 <= i < j < |keys| ==> keys[i] != keys[j]
      invariant |keys| + |todo| == |s.cacheMap|
      decreases todo
    {
      var k :| k in todo;
      keys := keys + [k];
      todo := todo - {k};
    }
  }

  // ---------------------------------------------------------------------------
  // Properties relating several operations

  /** A removed key can be stored again, and then reads back the new value. */
  lemma RemoveThenStore<K(!new), V>(s: State<K, V>, key: K, val: V)
    requires key in s.cacheMap
    ensures var removed := Remove(s, key);
            && removed.Succeeded()
            && Store(removed.state, key, val).Succeeded()
            && Get(Store(removed.state, key, val).state, key) == Ok(val)
  {
  }

  /** Storing a fresh key and removing it again restores every value. */
  lemma StoreThenRemove<K(!new), V>(s: State<K, V>, key: K, val: V)
    requires key !in s.cacheMap
    ensures var stored := Store(s, key, val);
            Remove(stored.state, key).state.cacheMap == s.cacheMap
  {
    var stored := Store(s, key, val);
    assert Remove(stored.state, key).state.cacheMap == s.cacheMap;
  }

  /** Expiring keeps the value until the new routine fires; then the key is
      gone and every other key is untouched. */
  lemma ExpireThenFire<K(!new), V>(s: State<K, V>, key: K, ttl: int)
    requires Valid(s) && key in s.cacheMap && ttl > 0
    ensures var armed := Expire(s, key, ttl).state;
            && Get(armed, key) == Get(s, key)
            && Get(ExpirationFires(armed, key), key) == Err(DoesNotExist)
            && (forall k :: k != key ==> Get(ExpirationFires(armed, key), k) == Get(s, k))
  {
    var armed := Expire(s, key, ttl).state;
    assert forall k :: k != key ==> SameAt(s, armed, k);
    assert forall k :: k != key ==> SameAt(armed, ExpirationFires(armed, key), k);
  }

  /** Replacing cancels a pending expiration: the old routine can no longer
      fire, so the replaced value stays. */
  lemma ReplaceCancelsExpiration<K(!new), V>(s: State<K, V>, key: K, val: V)
    requires Valid(s) && key in s.cacheMap
    ensures var replaced := Replace(s, key, val).state;
            Get(ExpirationFires(replaced, key), key) == Ok(val)
  {
  }

  /** Two firings of an update routine apply its function twice. */
  lemma UpdateFiresTwice<K(!new), V>(s: State<K, V>, key: K)
    requires Valid(s) && key in s.updateChannels
    ensures var once := UpdateFires(s, key);
            && once.Ok?
            && UpdateFires(once.value, key).Ok?
            && var f := s.updateChannels[key].updateFunc;
               Get(UpdateFires(once.value, key).value, key) == Ok(f(f(s.cacheMap[key])))
  {
    var once := UpdateFires(s, key);
    assert once.Ok? && Valid(once.value) && key in once.value.updateChannels;
  }

  /** A valid state gives each present key exactly one lifetime, and an
      absent key has no routine that could still act on it. */
  lemma AbsentKeysHaveNoRoutine<K(!new), V>(s: State<K, V>, key: K)
    requires Valid(s) && key !in s.cacheMap
    ensures LifetimeOf(s, key) == Permanent
    ensures ExpirationFires(s, key) == s
    ensures UpdateFires(s, key) == Ok(s)
  {
  }
}
