/**
 The non-sweeping registry. Its operations are the same as the sweeping
 registry's, line for line, so each one here is defined as its counterpart
 in `SyncStorage`; what differs is construction, which starts no sweeper.
 Without a sweeper, an entry leaves the registry only through a delete,
 and an expired entry keeps its key occupied until then.
 */
module SyncMapStorage {
  import opened Storage
  import SyncStorage

  /** A new, empty registry with the given TTL and no background task. */
  function InitSyncMapStorage(ttl: int): (s: Store)
    ensures s.ttl == ttl
    ensures forall key, now :: GetValueByKey(s, key, now) == None
  {
    Store(ttl, map[])
  }

  /** The TTL the registry was constructed with. */
  function GetTtl(s: Store): int
  {
    s.ttl
  }

  /** Lists every key whose entry is live at `now`, each once. */
  method GetAllKeys(s: Store, now: int) returns (keys: seq<string>)
    ensures forall k :: k in keys <==> k in s.registry && Live(s.registry[k], GetTtl(s), now)
    ensures SyncStorage.Distinct(keys)
  {
    keys := SyncStorage.GetAllKeys(s, now);
  }

  /** Point lookup through the liveness filter. */
  function GetValueByKey(s: Store, key: string, now: int): (r: Option<Entry>)
    ensures r.Some? <==> key in s.registry && Live(s.registry[key], GetTtl(s), now)
    ensures r.Some? ==> r.value == s.registry[key]
  {
    SyncStorage.GetValueByKey(s, key, now)
  }

  /** Removes `key` only, and always reports true. */
  function DeleteValueByKey(s: Store, key: string): (r: Step<bool>)
    ensures r.out
    ensures r.store.ttl == s.ttl
    ensures r.store.registry.Keys == s.registry.Keys - {key}
    ensures forall k :: k in r.store.registry ==> r.store.registry[k] == s.registry[k]
  {
    SyncStorage.DeleteValueByKey(s, key)
  }

  /** Element `index` of a live sequence; any index outside `[0, length)` is
      an error, and an absent or expired key is a plain not-found. */
  function GetNestedValueByKeyAndIndex(s: Store, key: string, index: int, now: int): (r: NestedResult)
    ensures GetValueByKey(s, key, now).None? ==> r == NestedResult(None, false, None)
    ensures GetValueByKey(s, key, now).Some? && GetValueByKey(s, key, now).value.entity.List? ==>
      var items := GetValueByKey(s, key, now).value.entity.items;
      if 0 <= index < |items| then
        r.found && r.err == None && r.entry == Some(Enpack(items[index], GetValueByKey(s, key, now).value))
      else
        r == NestedResult(None, false, Some(IndexOutOfRange))
    ensures GetValueByKey(s, key, now).Some? && !GetValueByKey(s, key, now).value.entity.List? ==>
      r == NestedResult(None, false, Some(NotAnArray))
  {
    SyncStorage.GetNestedValueByKeyAndIndex(s, key, index, now)
  }

  /** Sub-key `subKey` of a live mapping; an absent or expired key is an
      error, while a missing sub-key is a not-found without error. */
  function GetNestedValueByKeyAndSubkey(s: Store, key: string, subKey: string, now: int): (r: NestedResult)
    ensures GetValueByKey(s, key, now).None? ==> r == NestedResult(None, false, Some(MapNotFound))
    ensures GetValueByKey(s, key, now).Some? && GetValueByKey(s, key, now).value.entity.Dict? ==>
      var entries := GetValueByKey(s, key, now).value.entity.entries;
      && r.err == None
      && (r.found <==> subKey in entries)
      && (r.found ==> r.entry == Some(Enpack(entries[subKey], GetValueByKey(s, key, now).value)))
      && (!r.found ==> r.entry == Some(Enpack("", GetValueByKey(s, key, now).value)))
    ensures GetValueByKey(s, key, now).Some? && !GetValueByKey(s, key, now).value.entity.Dict? ==>
      r == NestedResult(None, false, Some(NotADictionary))
  {
    SyncStorage.GetNestedValueByKeyAndSubkey(s, key, subKey, now)
  }

  /** Overwrites a stored key with a fresh entry stamped `now`; fails on a
      key that is not stored. Either way the set of stored keys is unchanged. */
  function UpdateValueByKey(s: Store, key: string, v: Value, now: int): (r: Step<Option<Error>>)
    ensures r.out == None <==> key in s.registry
    ensures r.out.Some? ==> r == Step(s, Some(NoSuchEntry))
    ensures r.out == None ==> key in r.store.registry && r.store.registry[key] == NewEntry(v, now)
    ensures r.store.ttl == s.ttl
    ensures r.store.registry.Keys == s.registry.Keys
    ensures forall k :: k in s.registry && k != key ==> r.store.registry[k] == s.registry[k]
  {
    SyncStorage.UpdateValueByKey(s, key, v, now)
  }

  /** Creates a key that is not stored; fails on a stored key, live or not,
      and changes nothing then. A success adds exactly that key. */
  function AppendNewValue(s: Store, key: string, v: Value, now: int): (r: Step<Option<Error>>)
    ensures r.out == None <==> key !in s.registry
    ensures r.out.Some? ==> r == Step(s, Some(AlreadyExists))
    ensures r.out == None ==> key in r.store.registry && r.store.registry[key] == NewEntry(v, now)
    ensures r.store.ttl == s.ttl
    ensures r.out == None ==> r.store.registry.Keys == s.registry.Keys + {key}
    ensures forall k :: k in s.registry ==> r.store.registry[k] == s.registry[k]
  {
    SyncStorage.AppendNewValue(s, key, v, now)
  }

  // ---------------------------------------------------------------------
  // Histories of writes
  // ---------------------------------------------------------------------

  /** A write a caller can issue, with the instant it is issued at. Reads
      are pure functions of the state and cannot change it. */
  datatype Write =
    | AppendCall(key: string, value: Value, at: int)
    | UpdateCall(key: string, value: Value, at: int)
    | DeleteCall(key: string)

  function Apply(s: Store, w: Write): Store
  {
    match w
    case AppendCall(key, v, at) => AppendNewValue(s, key, v, at).store
    case UpdateCall(key, v, at) => UpdateValueByKey(s, key, v, at).store
    case DeleteCall(key) => DeleteValueByKey(s, key).store
  }

  /** The state after issuing `writes` in order, starting from `s`. */
  function Run(s: Store, writes: seq<Write>): Store
    decreases |writes|
  {
    if writes == [] then s else Run(Apply(s, writes[0]), writes[1..])
  }

  predicate DeletesKey(w: Write, key: string)
  {
    w.DeleteCall? && w.key == key
  }

  /** With no sweeper, a stored key stays stored through any history of
      writes that does not delete it, whatever the clock says. */
  lemma {:induction false} OnlyDeleteRemoves(s: Store, writes: seq<Write>, key: string)
    requires key in s.registry
    requires forall i :: 0 <= i < |writes| ==> !DeletesKey(writes[i], key)
    ensures key in Run(s, writes).registry
    ensures Run(s, writes).ttl == s.ttl
    decreases |writes|
  {
    if writes != [] {
      assert !DeletesKey(writes[0], key);
      var next := Apply(s, writes[0]);
      assert key in next.registry;
      forall i | 0 <= i < |writes[1..]|
        ensures !DeletesKey(writes[1..][i], key)
      {
        assert writes[1..][i] == writes[i + 1];
      }
      OnlyDeleteRemoves(next, writes[1..], key);
    }
  }

  /** A stored entry that no write in the history names comes out of it
      exactly as it went in. */
  lemma {:induction false} UntouchedEntryPersists(s: Store, writes: seq<Write>, key: string)
    requires key in s.registry
    requires forall i :: 0 <= i < |writes| ==> writes[i].key != key
    ensures key in Run(s, writes).registry
    ensures Run(s, writes).registry[key] == s.registry[key]
    ensures Run(s, writes).ttl == s.ttl
    decreases |writes|
  {
    if writes != [] {
      assert writes[0].key != key;
      var next := Apply(s, writes[0]);
      assert key in next.registry && next.registry[key] == s.registry[key];
      forall i | 0 <= i < |writes[1..]|
        ensures writes[1..][i].key != key
      {
        assert writes[1..][i] == writes[i + 1];
      }
      UntouchedEntryPersists(next, writes[1..], key);
    }
  }

  /** Consequently an expired entry is never collected: as long as no write
      names its key it stays invisible to reads and keeps blocking creates. */
  lemma {:induction false} ExpiredEntryStaysBlocking(s: Store, writes: seq<Write>, key: string, v: Value, now: int, later: int)
    requires key in s.registry
    requires !Live(s.registry[key], s.ttl, now)
    requires now <= later
    requires forall i :: 0 <= i < |writes| ==> writes[i].key != key
    ensures GetValueByKey(Run(s, writes), key, later) == None
    ensures AppendNewValue(Run(s, writes), key, v, later).out == Some(AlreadyExists)
  {
    UntouchedEntryPersists(s, writes, key);
    ExpiryIsPermanent(s.registry[key], s.ttl, now, later);
  }

  /** The TTL is fixed when the registry is constructed: no history of
      writes changes what `GetTtl` reports. */
  lemma {:induction false} TtlFixedAtConstruction(ttl: int, writes: seq<Write>)
    ensures GetTtl(Run(InitSyncMapStorage(ttl), writes)) == ttl
  {
    TtlUnchangedByWrites(InitSyncMapStorage(ttl), writes);
  }

  lemma {:induction false} TtlUnchangedByWrites(s: Store, writes: seq<Write>)
    ensures GetTtl(Run(s, writes)) == GetTtl(s)
    decreases |writes|
  {
    if writes != [] {
      TtlUnchangedByWrites(Apply(s, writes[0]), writes[1..]);
    }
  }
}
