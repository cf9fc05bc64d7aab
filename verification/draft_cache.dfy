/** The first in-memory cache (mapCache in cache.go): a map from key to value
    and, per key, the channel that cancels the key's expiration routine.

    The goroutine behind a channel is in one of three states, and the way
    killRoutineIfExists treats each of them decides what an operation does:
    it sends on the channel and then closes it, so a routine still waiting
    receives and returns, a channel already closed makes the send panic, and
    a routine that already fired leaves nobody to receive, so the send blocks
    forever with the mutex held.

    Each operation appears twice: `...AsWritten` follows cache.go line by
    line, and the unsuffixed one is the evidently intended behaviour that
    the rest of this module reasons about. The mutex is left out (every
    operation is one indivisible transition) and the passing of time is the
    explicit event `Fires`. */
module DraftCache {
  import opened CacheErrors

  // ---------------------------------------------------------------------------
  // Errors

  /** An error value as a caller sees it; the draft only ever creates
      `CacheError`s, and `OtherError` stands for any error of another type. */
  datatype GoError = CacheError(errType: string) | OtherError

  const AlreadyExistsType: string := "AlreadyExists"
  const DoesntExistType: string := "DoesntExist"

  /** IsAlreadyExistsError: `err` is a cacheError of the AlreadyExists
      type; the nil error and errors of other types are not. */
  function IsAlreadyExistsError(err: Option<GoError>): (r: bool)
    ensures err.None? || err.value.OtherError? ==> !r
    ensures r ==> err.value.errType == AlreadyExistsType
    ensures err == Some(CacheError(AlreadyExistsType)) ==> r
  {
    err.Some? && err.value.CacheError? && err.value.errType == AlreadyExistsType
  }

  /** IsDoesntExistError: `err` is a cacheError of the DoesntExist type; the
      nil error and errors of other types are not. */
  function IsDoesntExistError(err: Option<GoError>): (r: bool)
    ensures err.None? || err.value.OtherError? ==> !r
    ensures r ==> err.value.errType == DoesntExistType
    ensures err == Some(CacheError(DoesntExistType)) ==> r
  {
    err.Some? && err.value.CacheError? && err.value.errType == DoesntExistType
  }

  /** The two classifiers never both accept an error, and each accepts the
      error newError builds with its type. */
  lemma ClassifiersAreExclusive(err: Option<GoError>)
    ensures !(IsAlreadyExistsError(err) && IsDoesntExistError(err))
    ensures IsAlreadyExistsError(Some(CacheError(AlreadyExistsType)))
    ensures IsDoesntExistError(Some(CacheError(DoesntExistType)))
    ensures !IsAlreadyExistsError(None) && !IsDoesntExistError(None)
    ensures !IsAlreadyExistsError(Some(OtherError)) && !IsDoesntExistError(Some(OtherError))
  {
    assert AlreadyExistsType[0] != DoesntExistType[0];
  }

  // ---------------------------------------------------------------------------
  // State

  /** The expiration goroutine behind one channel of keyChannels. */
  datatype Routine =
    | Listening   // waiting in its select; the channel is open
    | Fired       // its timer elapsed, it deleted the key and returned
    | Closed      // it received the kill signal and the channel was closed

  datatype State<K, !V> = State(cacheMap: map<K, V>, keyChannels: map<K, Routine>)

  /** What an operation comes to: it returns a state and an error, or the
      goroutine running it panics, or it blocks forever holding the mutex. */
  datatype Outcome<K, !V> =
    | Returned(state: State<K, V>, err: Option<GoError>)
    | Panicked
    | Deadlocked

  /** What Get returns. */
  datatype Fetched<V> = Fetched(value: Option<V>, err: Option<GoError>)

  /** The invariant the corrected operations keep: every channel belongs to
      a stored key and has a routine waiting on it. */
  ghost predicate Valid<K(!new), V>(s: State<K, V>) {
    forall k :: k in s.keyChannels ==> k in s.cacheMap && s.keyChannels[k] == Listening
  }

  /** A stored key with no routine that could delete it. */
  ghost predicate Permanent<K(!new), V>(s: State<K, V>, key: K) {
    key in s.cacheMap && key !in s.keyChannels
  }

  /** NewMapCache: nothing stored and no routine. */
  function NewMapCache<K(!new), V>(): (s: State<K, V>)
    ensures Valid(s)
    ensures forall k :: k !in s.cacheMap
  {
    State(map[], map[])
  }

  /** Get: the stored value, or a DoesntExist error; the state is not
      touched. */
  function Get<K(!new), V>(s: State<K, V>, key: K): (r: Fetched<V>)
    ensures r.value.Some? <==> key in s.cacheMap
    ensures r.value.Some? ==> r.value.value == s.cacheMap[key] && r.err.None?
    ensures r.value.None? ==> IsDoesntExistError(r.err)
  {
    if key !in s.cacheMap then Fetched(None, Some(CacheError(DoesntExistType)))
    else Fetched(Some(s.cacheMap[key]), None)
  }

  // ---------------------------------------------------------------------------
  // The routine protocol as written

  /** killRoutineIfExists as written: sends on the key's channel and closes
      it, but leaves the channel in keyChannels. */
  function KillAsWritten<K(!new), V>(s: State<K, V>, key: K): (r: Outcome<K, V>)
    ensures key !in s.keyChannels ==> r == Returned(s, None)
    ensures key in s.keyChannels && s.keyChannels[key] == Closed ==> r.Panicked?
    ensures key in s.keyChannels && s.keyChannels[key] == Fired ==> r.Deadlocked?
    ensures key in s.keyChannels && s.keyChannels[key] == Listening ==>
              r == Returned(s.(keyChannels := s.keyChannels[key := Closed]), None)
    ensures r.Returned? ==> r.state.cacheMap == s.cacheMap && r.err.None?
  {
    if key !in s.keyChannels then Returned(s, None)
    else match s.keyChannels[key]
      case Listening => Returned(s.(keyChannels := s.keyChannels[key := Closed]), None)
      case Closed => Panicked
      case Fired => Deadlocked
  }

  /** runExpirationRoutine as written: kills the old routine, then installs
      a new channel with a routine waiting on it. */
  function RunAsWritten<K(!new), V>(s: State<K, V>, key: K): (r: Outcome<K, V>)
    ensures r.Returned? ==> r.state.cacheMap == s.cacheMap && r.err.None?
    ensures r.Returned? ==> key in r.state.keyChannels && r.state.keyChannels[key] == Listening
    ensures !KillAsWritten(s, key).Returned? ==> r == KillAsWritten(s, key)
  {
    match KillAsWritten(s, key)
    case Returned(t, _) => Returned(t.(keyChannels := t.keyChannels[key := Listening]), None)
    case Panicked => Panicked
    case Deadlocked => Deadlocked
  }

  /** The timer of `key`'s routine elapses, as written: a waiting routine
      deletes the key and returns, leaving its channel behind. */
  function FiresAsWritten<K(!new), V>(s: State<K, V>, key: K): (r: State<K, V>)
    ensures key in s.keyChannels && s.keyChannels[key] == Listening ==>
              key !in r.cacheMap && r.keyChannels == s.keyChannels[key := Fired]
    ensures !(key in s.keyChannels && s.keyChannels[key] == Listening) ==> r == s
  {
    if key in s.keyChannels && s.keyChannels[key] == Listening then
      State(s.cacheMap - {key}, s.keyChannels[key := Fired])
    else s
  }

  function StoreAsWritten<K(!new), V>(s: State<K, V>, key: K, val: V, duration: int): (r: Outcome<K, V>)
    ensures key in s.cacheMap ==> r == Returned(s, Some(CacheError(AlreadyExistsType)))
    ensures key !in s.cacheMap && r.Returned? ==> Get(r.state, key).value == Some(val)
  {
    if key in s.cacheMap then Returned(s, Some(CacheError(AlreadyExistsType)))
    else
      var t := s.(cacheMap := s.cacheMap[key := val]);
      if duration > 0 then RunAsWritten(t, key) else Returned(t, None)
  }

  function RemoveAsWritten<K(!new), V>(s: State<K, V>, key: K): (r: Outcome<K, V>)
    ensures key !in s.cacheMap ==> r == Returned(s, Some(CacheError(DoesntExistType)))
    ensures key in s.cacheMap && r.Returned? ==> key !in r.state.cacheMap && r.err.None?
  {
    if key !in s.cacheMap then Returned(s, Some(CacheError(DoesntExistType)))
    else match KillAsWritten(s, key)
      case Returned(t, _) => Returned(t.(cacheMap := t.cacheMap - {key}), None)
      case Panicked => Panicked
      case Deadlocked => Deadlocked
  }

  /** Replace as written: installs an expiration routine whatever the
      duration, although the interface promises that a zero duration keeps
      the value. */
  function ReplaceAsWritten<K(!new), V>(s: State<K, V>, key: K, val: V, duration: int): (r: Outcome<K, V>)
    ensures key !in s.cacheMap ==> r == Returned(s, Some(CacheError(DoesntExistType)))
    ensures key in s.cacheMap && r.Returned? ==>
              Get(r.state, key).value == Some(val)
              && key in r.state.keyChannels && r.state.keyChannels[key] == Listening
  {
    if key !in s.cacheMap then Returned(s, Some(CacheError(DoesntExistType)))
    else match RunAsWritten(s, key)
      case Returned(t, _) => Returned(t.(cacheMap := t.cacheMap[key := val]), None)
      case Panicked => Panicked
      case Deadlocked => Deadlocked
  }

  /** Expire as written: a positive duration installs a new routine; any
      other deletes the key but leaves its routine running. */
  function ExpireAsWritten<K(!new), V>(s: State<K, V>, key: K, duration: int): (r: Outcome<K, V>)
    ensures key !in s.cacheMap ==> r == Returned(s, Some(CacheError(DoesntExistType)))
    ensures key in s.cacheMap && duration <= 0 ==>
              r == Returned(s.(cacheMap := s.cacheMap - {key}), None)
  {
    if key !in s.cacheMap then Returned(s, Some(CacheError(DoesntExistType)))
    else if duration > 0 then RunAsWritten(s, key)
    else Returned(s.(cacheMap := s.cacheMap - {key}), None)
  }

  // ---------------------------------------------------------------------------
  // What the code as written does on small inputs

  /** Replace with a zero duration on a permanent key arms a routine that
      then deletes the new value. */
  lemma ReplaceWithZeroStillExpires()
    ensures var s1 := StoreAsWritten(NewMapCache<int, int>(), 1, 10, 0);
            && s1.Returned?
            && var s2 := ReplaceAsWritten(s1.state, 1, 20, 0);
            && s2.Returned?
            && Get(s2.state, 1).value == Some(20)
            && Get(FiresAsWritten(s2.state, 1), 1).value.None?
  {
  }

  /** Expire with a zero duration leaves the old routine waiting; it then
      deletes a value stored again under the key with no expiration. */
  lemma ExpireLeavesStaleRoutine()
    ensures var s1 := StoreAsWritten(NewMapCache<int, int>(), 1, 10, 5);
            && s1.Returned?
            && var s2 := ExpireAsWritten(s1.state, 1, 0);
            && s2.Returned?
            && var s3 := StoreAsWritten(s2.state, 1, 30, 0);
            && s3.Returned?
            && Get(s3.state, 1).value == Some(30)
            && Get(FiresAsWritten(s3.state, 1), 1).value.None?
  {
  }

  /** A removed key stored again with a duration makes the kill signal go
      to the closed channel the removal left behind. */
  lemma RestoreAfterRemovePanics()
    ensures var s1 := StoreAsWritten(NewMapCache<int, int>(), 1, 10, 5);
            && s1.Returned?
            && var s2 := RemoveAsWritten(s1.state, 1);
            && s2.Returned?
            && StoreAsWritten(s2.state, 1, 10, 5).Panicked?
  {
  }

  /** A key stored again with a duration after its routine fired makes the
      kill signal wait for a receiver that has returned. */
  lemma RestoreAfterFiringDeadlocks()
    ensures var s1 := StoreAsWritten(NewMapCache<int, int>(), 1, 10, 5);
            && s1.Returned?
            && var s2 := FiresAsWritten(s1.state, 1);
            && StoreAsWritten(s2, 1, 10, 5).Deadlocked?
  {
  }

  // ---------------------------------------------------------------------------
  // The corrected protocol

  /** killRoutineIfExists, corrected: signals a waiting routine and forgets
      its channel. */
  function Kill<K(!new), V>(s: State<K, V>, key: K): (r: State<K, V>)
    ensures r.cacheMap == s.cacheMap
    ensures key !in r.keyChannels
    ensures forall k :: k != key ==> (k in r.keyChannels <==> k in s.keyChannels)
    ensures forall k :: k != key && k in r.keyChannels ==> r.keyChannels[k] == s.keyChannels[k]
  {
    s.(keyChannels := s.keyChannels - {key})
  }

  /** runExpirationRoutine, corrected through Kill. */
  function Run<K(!new), V>(s: State<K, V>, key: K): (r: State<K, V>)
    ensures r.cacheMap == s.cacheMap
    ensures key in r.keyChannels && r.keyChannels[key] == Listening
    ensures forall k :: k != key ==> (k in r.keyChannels <==> k in s.keyChannels)
    ensures forall k :: k != key && k in r.keyChannels ==> r.keyChannels[k] == s.keyChannels[k]
  {
    var t := Kill(s, key);
    t.(keyChannels := t.keyChannels[key := Listening])
  }

  /** The timer of `key`'s routine elapses: a waiting routine deletes the key
      and, corrected, its own channel. */
  function Fires<K(!new), V>(s: State<K, V>, key: K): (r: State<K, V>)
    ensures key in s.keyChannels && s.keyChannels[key] == Listening ==>
              key !in r.cacheMap && key !in r.keyChannels
    ensures !(key in s.keyChannels && s.keyChannels[key] == Listening) ==> r == s
    ensures forall k :: k != key ==> Get(r, k) == Get(s, k)
    ensures Valid(s) ==> Valid(r)
  {
    if key in s.keyChannels && s.keyChannels[key] == Listening then
      State(s.cacheMap - {key}, s.keyChannels - {key})
    else s
  }

  /** Store: refuses a present key; otherwise stores the value, with a
      routine exactly when the duration is positive. */
  function Store<K(!new), V>(s: State<K, V>, key: K, val: V, duration: int): (r: Outcome<K, V>)
    ensures r.Returned?
    ensures key in s.cacheMap ==> r == Returned(s, Some(CacheError(AlreadyExistsType)))
    ensures key !in s.cacheMap ==>
              && r.err.None?
              && Get(r.state, key).value == Some(val)
              && (duration > 0 ==> key in r.state.keyChannels)
              && (Valid(s) && duration <= 0 ==> key !in r.state.keyChannels)
    ensures forall k :: k != key ==> Get(r.state, k) == Get(s, k)
    ensures Valid(s) ==> Valid(r.state)
  {
    if key in s.cacheMap then Returned(s, Some(CacheError(AlreadyExistsType)))
    else
      var t := s.(cacheMap := s.cacheMap[key := val]);
      Returned(if duration > 0 then Run(t, key) else t, None)
  }

  /** Remove: refuses an absent key; otherwise stops the key's routine and
      deletes the key. */
  function Remove<K(!new), V>(s: State<K, V>, key: K): (r: Outcome<K, V>)
    ensures r.Returned?
    ensures key !in s.cacheMap ==> r == Returned(s, Some(CacheError(DoesntExistType)))
    ensures key in s.cacheMap ==>
              && r.err.None?
              && key !in r.state.cacheMap
              && key !in r.state.keyChannels
    ensures forall k :: k != key ==> Get(r.state, k) == Get(s, k)
    ensures Valid(s) ==> Valid(r.state)
  {
    if key !in s.cacheMap then Returned(s, Some(CacheError(DoesntExistType)))
    else
      var t := Kill(s, key);
      Returned(t.(cacheMap := t.cacheMap - {key}), None)
  }

  /** Replace: refuses an absent key; otherwise stores the new value, with a
      new routine when the duration is positive and permanently otherwise. */
  function Replace<K(!new), V>(s: State<K, V>, key: K, val: V, duration: int): (r: Outcome<K, V>)
    ensures r.Returned?
    ensures key !in s.cacheMap ==> r == Returned(s, Some(CacheError(DoesntExistType)))
    ensures key in s.cacheMap ==>
              && r.err.None?
              && Get(r.state, key).value == Some(val)
              && (key in r.state.keyChannels <==> duration > 0)
    ensures forall k :: k != key ==> Get(r.state, k) == Get(s, k)
    ensures Valid(s) ==> Valid(r.state)
  {
    if key !in s.cacheMap then Returned(s, Some(CacheError(DoesntExistType)))
    else
      var t := if duration > 0 then Run(s, key) else Kill(s, key);
      Returned(t.(cacheMap := t.cacheMap[key := val]), None)
  }

  /** Expire: refuses an absent key; a positive duration restarts the key's
      routine and keeps the value, any other stops the routine and deletes
      the key. */
  function Expire<K(!new), V>(s: State<K, V>, key: K, duration: int): (r: Outcome<K, V>)
    ensures r.Returned?
    ensures key !in s.cacheMap ==> r == Returned(s, Some(CacheError(DoesntExistType)))
    ensures key in s.cacheMap && duration > 0 ==>
              && r.err.None?
              && Get(r.state, key) == Get(s, key)
              && key in r.state.keyChannels
    ensures key in s.cacheMap && duration <= 0 ==>
              && r.err.None?
              && key !in r.state.cacheMap
              && key !in r.state.keyChannels
    ensures forall k :: k != key ==> Get(r.state, k) == Get(s, k)
    ensures Valid(s) ==> Valid(r.state)
  {
    if key !in s.cacheMap then Returned(s, Some(CacheError(DoesntExistType)))
    else if duration > 0 then Returned(Run(s, key), None)
    else
      var t := Kill(s, key);
      Returned(t.(cacheMap := t.cacheMap - {key}), None)
  }

  // ---------------------------------------------------------------------------
  // Properties of the corrected cache

  /** A value stored or replaced with a zero duration is permanent: no
      routine firing, for any key, deletes it. */
  lemma ZeroDurationIsPermanent<K(!new), V>(s: State<K, V>, key: K, val: V, other: K)
    requires Valid(s)
    ensures key !in s.cacheMap ==>
              var t := Store(s, key, val, 0).state;
              Permanent(t, key) && Get(Fires(t, other), key).value == Some(val)
    ensures key in s.cacheMap ==>
              var t := Replace(s, key, val, 0).state;
              Permanent(t, key) && Get(Fires(t, other), key).value == Some(val)
  {
  }

  /** A permanent key stays permanent through every firing. */
  lemma PermanentSurvivesFiring<K(!new), V>(s: State<K, V>, key: K, other: K)
    requires Permanent(s, key)
    ensures Permanent(Fires(s, other), key)
    ensures Get(Fires(s, other), key) == Get(s, key)
  {
  }

  /** Expire with a zero duration leaves no routine behind: a value stored
      again under the key without a duration stays. */
  lemma ExpireThenStoreIsPermanent<K(!new), V>(s: State<K, V>, key: K, val: V, other: K)
    requires Valid(s) && key in s.cacheMap
    ensures var t := Store(Expire(s, key, 0).state, key, val, 0);
            && t.err.None?
            && Permanent(t.state, key)
            && Get(Fires(t.state, other), key).value == Some(val)
  {
  }

  /** A value stored with a positive duration is deleted when its routine
      fires, and reading it then reports DoesntExist. */
  lemma StoredWithDurationExpires<K(!new), V>(s: State<K, V>, key: K, val: V, duration: int)
    requires Valid(s) && key !in s.cacheMap && duration > 0
    ensures var t := Fires(Store(s, key, val, duration).state, key);
            && IsDoesntExistError(Get(t, key).err)
            && Valid(t)
  {
  }

  /** Removing a key just stored gives back the state before the store. */
  lemma RemoveUndoesStore<K(!new), V>(s: State<K, V>, key: K, val: V, duration: int)
    requires Valid(s) && key !in s.cacheMap
    ensures Remove(Store(s, key, val, duration).state, key) == Returned(s, None)
  {
    var t := Remove(Store(s, key, val, duration).state, key).state;
    assert t.cacheMap == s.cacheMap;
    assert t.keyChannels == s.keyChannels;
  }

  /** A second store of a present key fails with AlreadyExists and keeps the
      first value. */
  lemma SecondStoreKeepsFirst<K(!new), V>(s: State<K, V>, key: K, val: V, val2: V, d: int, d2: int)
    requires key !in s.cacheMap
    ensures var t := Store(s, key, val, d).state;
            && IsAlreadyExistsError(Store(t, key, val2, d2).err)
            && Get(Store(t, key, val2, d2).state, key).value == Some(val)
  {
  }

  /** After a removal the key reads as absent and can be stored again. */
  lemma RemoveThenStore<K(!new), V>(s: State<K, V>, key: K, val: V, d: int)
    requires key in s.cacheMap
    ensures var t := Remove(s, key).state;
            && IsDoesntExistError(Get(t, key).err)
            && Store(t, key, val, d).err.None?
  {
  }

  /** On a state the corrected operations can reach, the kill signal as
      written always finds a routine waiting, so it neither panics nor
      blocks, and it leaves the values as the corrected Kill does. */
  lemma KillAgreesOnValidStates<K(!new), V>(s: State<K, V>, key: K)
    requires Valid(s)
    ensures KillAsWritten(s, key).Returned?
    ensures KillAsWritten(s, key).state.cacheMap == Kill(s, key).cacheMap
  {
  }

  /** With a positive duration the written and the corrected Replace agree
      on every value from a reachable state. */
  lemma ReplaceAgreesOnPositiveDuration<K(!new), V>(s: State<K, V>, key: K, val: V, duration: int)
    requires Valid(s) && duration > 0
    ensures ReplaceAsWritten(s, key, val, duration).Returned?
    ensures ReplaceAsWritten(s, key, val, duration).err == Replace(s, key, val, duration).err
    ensures ReplaceAsWritten(s, key, val, duration).state.cacheMap
            == Replace(s, key, val, duration).state.cacheMap
  {
  }

  /** The corrected operations never panic or block from a valid state, and
      the corrected and written Store agree on any state the corrected
      operations can reach: there every channel has a routine waiting. */
  lemma StoreAgreesOnValidStates<K(!new), V>(s: State<K, V>, key: K, val: V, duration: int)
    requires Valid(s)
    ensures StoreAsWritten(s, key, val, duration).Returned?
    ensures StoreAsWritten(s, key, val, duration).err == Store(s, key, val, duration).err
    ensures StoreAsWritten(s, key, val, duration).state.cacheMap
            == Store(s, key, val, duration).state.cacheMap
  {
  }
}
