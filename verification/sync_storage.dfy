/**
 The sweeping registry: every operation of the sync-map based storage that
 also runs a periodic expiration sweep. Each operation takes the registry
 state and the current time explicitly and returns the new state (for
 writes) together with what the operation reports.

 Reads filter expired entries inline; writes test only whether a key is
 physically stored, so an expired entry that has not been swept yet still
 blocks a create and can be revived by an update.
 */
module SyncStorage {
  import opened Storage

  /** The keys whose entries are live at `now`. */
  function LiveKeys(s: Store, now: int): set<string>
  {
    set k | k in s.registry && Live(s.registry[k], s.ttl, now)
  }

  predicate Distinct(keys: seq<string>)
  {
    forall i, j :: 0 <= i < j < |keys| ==> keys[i] != keys[j]
  }

  /** `a` and `b` hold the same entries under every key other than `key`. */
  ghost predicate AgreeExcept(a: map<string, Entry>, b: map<string, Entry>, key: string)
  {
    forall k :: k != key ==> (k in a <==> k in b) && (k in a ==> a[k] == b[k])
  }

  /** A new, empty registry with the given TTL (the sweeper's ticker is not
      part of the state; `ExpireObsolete` is what each tick runs). */
  function InitSyncStorage(ttl: int): (s: Store)
    ensures s.ttl == ttl
    ensures forall now :: LiveKeys(s, now) == {}
  {
    Store(ttl, map[])
  }

  /** Lists every key whose entry is live at `now`, each once, in the
      (unspecified) order the registry is enumerated. The code reads the
      clock afresh for each entry; since liveness only ever goes from live
      to expired (`ExpiryIsPermanent`), that listing holds every key live at
      its last reading and no key expired at its first, and one `now` is the
      case where all readings coincide. */
  method GetAllKeys(s: Store, now: int) returns (keys: seq<string>)
    ensures forall k :: k in keys <==> k in LiveKeys(s, now)
    ensures Distinct(keys)
    ensures LiveKeys(s, now) == {} ==> keys == []
  {
    keys := [];
    var pending := s.registry.Keys;
    while pending != {}
      invariant pending <= s.registry.Keys
      invariant forall k :: k in keys <==> k in s.registry && k !in pending && Live(s.registry[k], s.ttl, now)
      invariant Distinct(keys)
      decreases |pending|
    {
      var k :| k in pending;
      if Live(s.registry[k], s.ttl, now) {
        keys := keys + [k];
      }
      pending := pending - {k};
    }
    if keys != [] {
      assert keys[0] in keys;
    }
  }

  /** Point lookup: the stored entry if it is live, and not-found if the key
      is absent or its entry has expired. */
  function GetValueByKey(s: Store, key: string, now: int): (r: Option<Entry>)
    ensures r.Some? <==> key in LiveKeys(s, now)
    ensures r.Some? ==> r.value == s.registry[key]
  {
    if key in s.registry then FilterExpired(s.registry[key], s.ttl, now) else None
  }

  /** Removes `key` whether or not it is stored, and always reports true. */
  function DeleteValueByKey(s: Store, key: string): (r: Step<bool>)
    ensures r.out
    ensures r.store.ttl == s.ttl
    ensures key !in r.store.registry
    ensures AgreeExcept(r.store.registry, s.registry, key)
  {
    Step(Store(s.ttl, s.registry - {key}), true)
  }

  /** Reads element `index` of the sequence stored under `key`. An absent or
      expired key is a plain not-found; a live key holding something other
      than a sequence, or an index outside the sequence, is an error. */
  function GetNestedValueByKeyAndIndex(s: Store, key: string, index: int, now: int): (r: NestedResult)
    ensures r.found ==> r.err == None
    ensures r.found <==>
      && key in LiveKeys(s, now)
      && s.registry[key].entity.List?
      && 0 <= index < |s.registry[key].entity.items|
    ensures r.found ==>
      r.entry == Some(Entry(Scalar(s.registry[key].entity.items[index]), s.registry[key].lastWriteTime))
    ensures key !in LiveKeys(s, now) ==> r == NestedResult(None, false, None)
    ensures key in LiveKeys(s, now) && !s.registry[key].entity.List? ==>
      r == NestedResult(None, false, Some(NotAnArray))
    ensures key in LiveKeys(s, now) && s.registry[key].entity.List? && !r.found ==>
      r == NestedResult(None, false, Some(IndexOutOfRange))
  {
    if key in s.registry && Live(s.registry[key], s.ttl, now) then
      var parent := s.registry[key];
      match parent.entity
      case List(items) =>
        if index >= 0 && index < |items| then
          NestedResult(Some(Enpack(items[index], parent)), true, None)
        else
          NestedResult(None, false, Some(IndexOutOfRange))
      case _ => NestedResult(None, false, Some(NotAnArray))
    else
      NestedResult(None, false, None)
  }

  /** Reads `subKey` of the mapping stored under `key`. A live mapping always
      yields an entry (holding the empty string when the sub-key is missing)
      with `found` telling whether the sub-key is present; a live key holding
      something else is an error, and so is an absent or expired key. */
  function GetNestedValueByKeyAndSubkey(s: Store, key: string, subKey: string, now: int): (r: NestedResult)
    ensures r.found ==> r.err == None
    ensures r.found <==>
      && key in LiveKeys(s, now)
      && s.registry[key].entity.Dict?
      && subKey in s.registry[key].entity.entries
    ensures r.found ==>
      r.entry == Some(Entry(Scalar(s.registry[key].entity.entries[subKey]), s.registry[key].lastWriteTime))
    ensures key in LiveKeys(s, now) && s.registry[key].entity.Dict? ==>
      && r.err == None
      && r.entry.Some?
      && r.entry.value.lastWriteTime == s.registry[key].lastWriteTime
    ensures key in LiveKeys(s, now) && s.registry[key].entity.Dict? && !r.found ==>
      r.entry == Some(Entry(Scalar(""), s.registry[key].lastWriteTime))
    ensures key in LiveKeys(s, now) && !s.registry[key].entity.Dict? ==>
      r == NestedResult(None, false, Some(NotADictionary))
    ensures key !in LiveKeys(s, now) ==> r == NestedResult(None, false, Some(MapNotFound))
  {
    if key in s.registry && Live(s.registry[key], s.ttl, now) then
      var parent := s.registry[key];
      match parent.entity
      case Dict(entries) =>
        // a missing sub-key reads as the zero value, the empty string
        var element := if subKey in entries then entries[subKey] else "";
        NestedResult(Some(Enpack(element, parent)), subKey in entries, None)
      case _ => NestedResult(None, false, Some(NotADictionary))
    else
      NestedResult(None, false, Some(MapNotFound))
  }

  /** Replaces the entry under a stored key (live or not) with a fresh one
      stamped `now`; fails on a key that is not stored, changing nothing. */
  function UpdateValueByKey(s: Store, key: string, v: Value, now: int): (r: Step<Option<Error>>)
    ensures r.store.ttl == s.ttl
    ensures r.out == None <==> key in s.registry
    ensures r.out.Some? ==> r.out == Some(NoSuchEntry) && r.store == s
    ensures r.out == None ==>
      && key in r.store.registry
      && r.store.registry[key].entity == v
      && r.store.registry[key].lastWriteTime == now
    ensures AgreeExcept(r.store.registry, s.registry, key)
  {
    if key in s.registry then
      Step(Store(s.ttl, s.registry[key := NewEntry(v, now)]), None)
    else
      Step(s, Some(NoSuchEntry))
  }

  /** Creates an entry stamped `now` under a key that is not stored; fails on
      a stored key, live or expired, changing nothing. */
  function AppendNewValue(s: Store, key: string, v: Value, now: int): (r: Step<Option<Error>>)
    ensures r.store.ttl == s.ttl
    ensures r.out == None <==> key !in s.registry
    ensures r.out.Some? ==> r.out == Some(AlreadyExists) && r.store == s
    ensures r.out == None ==>
      && key in r.store.registry
      && r.store.registry[key].entity == v
      && r.store.registry[key].lastWriteTime == now
    ensures AgreeExcept(r.store.registry, s.registry, key)
  {
    if key !in s.registry then
      Step(Store(s.ttl, s.registry[key := NewEntry(v, now)]), None)
    else
      Step(s, Some(AlreadyExists))
  }

  /** The registry with every entry whose write time plus the TTL lies
      before `now` removed: the reference for what one sweep produces. The
      sweep writes its own test rather than calling the read path's
      liveness check; `SweepIsIdempotent` and `SweepIsInvisibleToReads`
      show that the two tests agree. */
  function Sweep(s: Store, now: int): Store
  {
    Store(s.ttl, map k | k in s.registry && !(s.registry[k].lastWriteTime + s.ttl < now) :: s.registry[k])
  }

  /** One sweep at `now`: first collects the keys whose entries have expired,
      then deletes each of them. */
  method ExpireObsolete(s: Store, now: int) returns (r: Store)
    ensures r.ttl == s.ttl
    ensures forall k :: k in r.registry <==> k in s.registry && !(s.registry[k].lastWriteTime + s.ttl < now)
    ensures forall k :: k in r.registry ==> r.registry[k] == s.registry[k]
    ensures r == Sweep(s, now)
  {
    var toExpire: seq<string> := [];
    var pending := s.registry.Keys;
    while pending != {}
      invariant pending <= s.registry.Keys
      invariant forall k :: k in toExpire <==> k in s.registry && k !in pending && s.registry[k].lastWriteTime + s.ttl < now
      decreases |pending|
    {
      var k :| k in pending;
      if s.registry[k].lastWriteTime + s.ttl < now {
        toExpire := toExpire + [k];
      }
      pending := pending - {k};
    }

    var registry := s.registry;
    var i := 0;
    while i < |toExpire|
      invariant 0 <= i <= |toExpire|
      invariant forall k :: k in registry <==> k in s.registry && k !in toExpire[..i]
      invariant forall k :: k in registry ==> registry[k] == s.registry[k]
    {
      assert toExpire[..i + 1] == toExpire[..i] + [toExpire[i]];
      registry := registry - {toExpire[i]};
      i := i + 1;
    }
    assert toExpire[..i] == toExpire;
    r := Store(s.ttl, registry);
    assert r.registry == Sweep(s, now).registry;
  }

  // ---------------------------------------------------------------------
  // Properties relating the operations to one another
  // ---------------------------------------------------------------------

  /** Creating an absent key and reading it back at the same instant
      returns exactly the value just written. */
  lemma AppendThenGet(s: Store, key: string, v: Value, now: int)
    requires s.ttl >= 0
    requires key !in s.registry
    ensures AppendNewValue(s, key, v, now).out == None
    ensures GetValueByKey(AppendNewValue(s, key, v, now).store, key, now) == Some(NewEntry(v, now))
  {
  }

  /** A stored entry blocks a create even after it has expired: the key is
      invisible to every read, yet the create fails and nothing changes. */
  lemma ExpiredEntryBlocksAppend(s: Store, key: string, v: Value, now: int)
    requires key in s.registry
    requires !Live(s.registry[key], s.ttl, now)
    ensures GetValueByKey(s, key, now) == None
    ensures key !in LiveKeys(s, now)
    ensures AppendNewValue(s, key, v, now) == Step(s, Some(AlreadyExists))
  {
  }

  /** A second create of the same key fails and the first value stays. */
  lemma NoDoubleCreate(s: Store, key: string, v1: Value, v2: Value, t1: int, t2: int)
    requires key !in s.registry
    ensures var s1 := AppendNewValue(s, key, v1, t1).store;
      && AppendNewValue(s1, key, v2, t2) == Step(s1, Some(AlreadyExists))
      && s1.registry[key] == NewEntry(v1, t1)
  {
  }

  /** Updating a stored key, even one whose entry has expired, makes the
      new value visible at once. */
  lemma UpdateThenGet(s: Store, key: string, v: Value, now: int)
    requires s.ttl >= 0
    requires key in s.registry
    ensures UpdateValueByKey(s, key, v, now).out == None
    ensures GetValueByKey(UpdateValueByKey(s, key, v, now).store, key, now) == Some(NewEntry(v, now))
  {
  }

  /** Updating a key that is not stored creates nothing. */
  lemma UpdateAbsentCreatesNothing(s: Store, key: string, v: Value, now: int, later: int)
    requires key !in s.registry
    ensures UpdateValueByKey(s, key, v, now) == Step(s, Some(NoSuchEntry))
    ensures GetValueByKey(UpdateValueByKey(s, key, v, now).store, key, later) == None
  {
  }

  /** After a delete the key reads as not found; deleting again changes
      nothing and still reports true. */
  lemma DeleteThenGet(s: Store, key: string, now: int)
    ensures GetValueByKey(DeleteValueByKey(s, key).store, key, now) == None
    ensures key !in LiveKeys(DeleteValueByKey(s, key).store, now)
    ensures var s1 := DeleteValueByKey(s, key).store;
      DeleteValueByKey(s1, key) == Step(s1, true)
  {
    var s1 := DeleteValueByKey(s, key).store;
    assert s1.registry - {key} == s1.registry;
  }

  /** A write to `key` is invisible to reads of every other key. */
  lemma WritesAreSingleKey(s: Store, key: string, other: string, v: Value, t: int, now: int)
    requires other != key
    ensures GetValueByKey(AppendNewValue(s, key, v, t).store, other, now) == GetValueByKey(s, other, now)
    ensures GetValueByKey(UpdateValueByKey(s, key, v, t).store, other, now) == GetValueByKey(s, other, now)
    ensures GetValueByKey(DeleteValueByKey(s, key).store, other, now) == GetValueByKey(s, other, now)
  {
  }

  /** Once the TTL of an entry that is still stored has elapsed, no read
      path shows it: the point lookup, the key listing and both nested
      getters all report it missing although no sweep has removed it. */
  lemma ExpiredIsInvisible(s: Store, key: string, index: int, subKey: string, now: int)
    requires key in s.registry
    requires now > s.registry[key].lastWriteTime + s.ttl
    ensures GetValueByKey(s, key, now) == None
    ensures key !in LiveKeys(s, now)
    ensures !GetNestedValueByKeyAndIndex(s, key, index, now).found
    ensures !GetNestedValueByKeyAndSubkey(s, key, subKey, now).found
  {
  }

  /** A nested element is readable exactly when its parent is: a nested
      read never outlives the point lookup of its key. */
  lemma NestedReadsFollowParent(s: Store, key: string, index: int, subKey: string, now: int)
    ensures GetNestedValueByKeyAndIndex(s, key, index, now).found ==> GetValueByKey(s, key, now).Some?
    ensures GetNestedValueByKeyAndSubkey(s, key, subKey, now).found ==> GetValueByKey(s, key, now).Some?
    ensures GetNestedValueByKeyAndIndex(s, key, index, now).found ==>
      GetNestedValueByKeyAndIndex(s, key, index, now).entry.value.lastWriteTime
        == GetValueByKey(s, key, now).value.lastWriteTime
    ensures GetNestedValueByKeyAndSubkey(s, key, subKey, now).found ==>
      GetNestedValueByKeyAndSubkey(s, key, subKey, now).entry.value.lastWriteTime
        == GetValueByKey(s, key, now).value.lastWriteTime
  {
  }

  /** Everything left after a sweep is live at the sweep's instant, and a
      second sweep at that instant changes nothing. */
  lemma SweepIsIdempotent(s: Store, now: int)
    ensures forall k :: k in Sweep(s, now).registry ==> Live(Sweep(s, now).registry[k], s.ttl, now)
    ensures Sweep(Sweep(s, now), now) == Sweep(s, now)
  {
    var once := Sweep(s, now);
    assert Sweep(once, now).registry == once.registry;
  }

  /** A sweep is invisible to readers: at the sweep's instant every read
      path returns what it returned before the sweep. */
  lemma SweepIsInvisibleToReads(s: Store, key: string, index: int, subKey: string, now: int)
    ensures GetValueByKey(Sweep(s, now), key, now) == GetValueByKey(s, key, now)
    ensures LiveKeys(Sweep(s, now), now) == LiveKeys(s, now)
    ensures GetNestedValueByKeyAndIndex(Sweep(s, now), key, index, now)
      == GetNestedValueByKeyAndIndex(s, key, index, now)
    ensures GetNestedValueByKeyAndSubkey(Sweep(s, now), key, subKey, now)
      == GetNestedValueByKeyAndSubkey(s, key, subKey, now)
  {
  }

  /** A sweep frees the keys of expired entries, so a create that the
      expired entry blocked succeeds afterwards. */
  lemma SweepUnblocksAppend(s: Store, key: string, v: Value, now: int)
    requires key in s.registry
    requires !Live(s.registry[key], s.ttl, now)
    ensures AppendNewValue(s, key, v, now).out == Some(AlreadyExists)
    ensures AppendNewValue(Sweep(s, now), key, v, now).out == None
  {
  }
}
