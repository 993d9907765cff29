# gedis storage engine — Dafny model

A model of the storage engine of gedis, a Redis-like in-memory registry. The
registry maps string keys to entries; an entry holds a value (a scalar
string, a sequence of strings, or a string→string mapping) and the instant it
was last written. An entry is live while its last write plus the registry's
TTL does not lie strictly before the current instant. Every read filters out
entries that are not live. Writes look only at whether a key is physically
stored. The sweeping implementation also runs a periodic pass that deletes
every expired entry.

The model is functional. A registry is a value `Store(ttl, registry)`. The
clock is an explicit `now: int` argument, and the TTL is an `int` of the same
unit. Every write returns the new state together with what the operation
reports.

Files:

- `storage.dfy` (module `Storage`): the value shapes, entries and the entry
  constructors (`storage/storage.go`), together with the liveness test and
  the error kinds with their messages (`storage/sync_storage.go`).
- `sync_storage.dfy` (module `SyncStorage`): every operation of the sweeping
  registry, including one sweep, plus lemmas that relate the operations to
  one another (`storage/sync_storage.go`).
- `syncmap_storage.dfy` (module `SyncMapStorage`): the registry without a
  sweeper (`storage/syncmap_storage.go`). Its Go code repeats the sweeping
  registry's operations line for line, so each operation is defined as its
  `SyncStorage` counterpart, and `GetTtl` reads the TTL field. A semantics of write histories shows that
  without a sweeper an entry leaves only through a delete.
- `storage_scenarios.dfy` (module `StorageScenarios`): five of the seven
  scenarios of `storage/sync_storage_test.go`, stated for every non-negative
  TTL and every instant; the expiration scenario holds for every TTL. The
  other two are covered elsewhere. The empty-registry scenario (lines 11-15)
  is `SyncStorage.InitSyncStorage` together with the last ensures of
  `SyncStorage.GetAllKeys`. The read half of the background-expiration
  scenario (lines 94-106) is `SyncStorage.ExpiredIsInvisible`; its ticker is
  left out (see below).

Behaviour of the code that the model keeps, though a reader might expect
otherwise:

- An entry is still live at exactly `lastWrite + ttl`; it expires only once
  `lastWrite + ttl` lies strictly before `now`.
- Append and update test only whether the key is stored. So an expired entry
  that has not been swept blocks append, and update revives it.
- Delete always returns true, whether or not the key was stored.
- The sub-key getter reports an absent or expired key as the error
  "Map not found", while the index getter reports it as not-found without
  error.
- For a live mapping without the sub-key, the code returns a non-nil entry
  holding the empty string, with found=false and no error.

## Model

| member | source | states |
|---|---|---|
| Storage.NewEntry | storage/storage.go:11-16 | the new entry holds exactly the given value and is stamped with the current instant, so it is live at that instant for any non-negative TTL |
| Storage.Enpack | storage/storage.go:18-25 | the projected entry holds the element as a scalar and carries the parent's write time unchanged, so it is live exactly when the parent is |
| Storage.Live | storage/sync_storage.go:137-147 | the test of `notExpired`, which `filterExpired` uses to pass an entry through or report not-found: an entry is live exactly while its age `now - lastWrite` is at most the TTL, so it is still live at exactly `lastWrite + ttl` and expired one unit later |
| Storage.Message | storage/sync_storage.go:76-117 | each error kind carries the text the code gives it (lines 76, 78, 94, 97, 108 and 117), and the kind can be read back from the text, so no two kinds share a text |
| Storage.ExpiryIsPermanent | storage/sync_storage.go:144-147 | liveness is monotone in time: once expired an entry stays expired, and an entry live later was live earlier |
| SyncStorage.InitSyncStorage | storage/sync_storage.go:20-37 | a new registry has the given TTL and no live key at any instant |
| SyncStorage.GetAllKeys | storage/sync_storage.go:40-50 | the listing holds exactly the keys whose entries are live at `now`, each once; no live key gives an empty list |
| SyncStorage.GetValueByKey | storage/sync_storage.go:53-58 | found if and only if the key is stored and live at `now`, and then the result is the stored entry |
| SyncStorage.DeleteValueByKey | storage/sync_storage.go:61-64 | always reports true; afterwards the key is not stored and every other key holds what it held |
| SyncStorage.GetNestedValueByKeyAndIndex | storage/sync_storage.go:67-82 | found if and only if the key is live, holds a sequence and `0 <= index < length`; then the element comes with the parent's write time and no error. An out-of-range index (negative included) is IndexOutOfRange, a non-sequence is NotAnArray, and an absent or expired key is not-found without error |
| SyncStorage.GetNestedValueByKeyAndSubkey | storage/sync_storage.go:85-98 | found if and only if the key is live, holds a mapping and has the sub-key. A live mapping never errors and always yields an entry with the parent's write time (the empty string when the sub-key is missing). A non-mapping is NotADictionary, and an absent or expired key is MapNotFound |
| SyncStorage.UpdateValueByKey | storage/sync_storage.go:101-109 | succeeds if and only if the key is stored, live or not. It then holds the new value stamped `now`. On failure it reports NoSuchEntry and the state is unchanged. No other key changes |
| SyncStorage.AppendNewValue | storage/sync_storage.go:112-118 | succeeds if and only if the key is not stored. It then holds the new value stamped `now`. On failure it reports AlreadyExists and the state is unchanged. No other key changes |
| SyncStorage.ExpireObsolete | storage/sync_storage.go:120-135 | removes exactly the entries whose write time plus TTL lies before `now` (the sweep's own test at line 124), leaves every other entry as it was, and agrees with the reference sweep |
| SyncStorage.AppendThenGet | storage/sync_storage.go:112-116 | creating an absent key and then reading it at the same instant returns the value just written |
| SyncStorage.ExpiredEntryBlocksAppend | storage/sync_storage.go:113-117 | an expired, unswept entry is invisible to reads, yet a create of its key fails and changes nothing |
| SyncStorage.NoDoubleCreate | storage/sync_storage.go:112-118 | a second create of a key fails and the first value stays |
| SyncStorage.UpdateThenGet | storage/sync_storage.go:101-106 | updating a stored key, even an expired one, makes the new value visible at once |
| SyncStorage.UpdateAbsentCreatesNothing | storage/sync_storage.go:101-109 | updating an absent key reports NoSuchEntry, leaves the state unchanged, and the key stays unreadable |
| SyncStorage.DeleteThenGet | storage/sync_storage.go:61-64 | after a delete the key is unreadable and unlisted; a second delete changes nothing and still reports true |
| SyncStorage.WritesAreSingleKey | storage/sync_storage.go:101-118 | create, update and delete of one key never change what a read of another key returns |
| SyncStorage.ExpiredIsInvisible | storage/sync_storage.go:137-147 | once the TTL of a stored entry has elapsed, the point lookup, the listing and both nested getters all miss its key although no sweep has removed it (SweepIsInvisibleToReads covers the state after a sweep) |
| SyncStorage.NestedReadsFollowParent | storage/storage.go:18-25 | a nested element is found only when its parent key reads as found, and it carries the parent's write time |
| SyncStorage.SweepIsIdempotent | storage/sync_storage.go:120-135 | every entry left by a sweep is live at the sweep's instant, and a second sweep at that instant changes nothing |
| SyncStorage.SweepIsInvisibleToReads | storage/sync_storage.go:120-135 | at the sweep's instant, every read path returns what it returned before the sweep |
| SyncStorage.SweepUnblocksAppend | storage/sync_storage.go:120-135 | a create blocked by an expired entry succeeds after a sweep at that instant |
| SyncMapStorage.InitSyncMapStorage | storage/syncmap_storage.go:19-25 | a new registry has the given TTL and no readable key |
| SyncMapStorage.TtlFixedAtConstruction | storage/syncmap_storage.go:19-29 | after any history of writes, the TTL that `getTtl` reports is the one given at construction |
| SyncMapStorage.GetAllKeys | storage/syncmap_storage.go:32-42 | the listing holds exactly the stored keys that are live at `now`, each once |
| SyncMapStorage.GetValueByKey | storage/syncmap_storage.go:45-50 | found if and only if the key is stored and live, and then the result is the stored entry |
| SyncMapStorage.DeleteValueByKey | storage/syncmap_storage.go:53-56 | always reports true and removes only the given key |
| SyncMapStorage.GetNestedValueByKeyAndIndex | storage/syncmap_storage.go:59-74 | an in-range index of a live sequence yields the element with the parent's write time; any index outside `[0, length)` is IndexOutOfRange with no entry; an absent or expired key is not-found without error; a live non-sequence is NotAnArray with no entry |
| SyncMapStorage.GetNestedValueByKeyAndSubkey | storage/syncmap_storage.go:77-90 | an absent or expired key is MapNotFound; on a live mapping there is no error, found says whether the sub-key is present, and the entry holds the sub-key's value (the empty string when missing) with the parent's write time; a live non-mapping is NotADictionary with no entry |
| SyncMapStorage.UpdateValueByKey | storage/syncmap_storage.go:93-101 | fails with NoSuchEntry on an absent key and changes nothing; otherwise stores the new value stamped `now`. It never adds or removes a key, and no other key changes |
| SyncMapStorage.AppendNewValue | storage/syncmap_storage.go:104-110 | succeeds if and only if the key has no stored entry, and then adds exactly that key, stamped `now`; otherwise fails with AlreadyExists and changes nothing. Existing entries never change |
| SyncMapStorage.OnlyDeleteRemoves | storage/syncmap_storage.go:19-25 | with no sweeper, a stored key stays stored through any history of writes that does not delete it |
| SyncMapStorage.UntouchedEntryPersists | storage/syncmap_storage.go:19-25 | an entry that no write in a history names comes out of it unchanged |
| SyncMapStorage.ExpiredEntryStaysBlocking | storage/syncmap_storage.go:104-110 | an expired entry whose key no later write names stays unreadable and keeps blocking creates at every later instant |
| StorageScenarios.BasicCrud | storage/sync_storage_test.go:17-35 | a create, update and delete of one key read back as the value written, the value updated, and not found |
| StorageScenarios.NestedArrayOps | storage/sync_storage_test.go:37-56 | index 1 of `["Alpha","Bravo","Charlie"]` is "Bravo"; indexes 10 and -13 are IndexOutOfRange |
| StorageScenarios.NestedDictionaryOps | storage/sync_storage_test.go:58-71 | a present sub-key yields its value, as the test checks; a missing one yields not-found without error and an entry holding the empty string, which the code builds at storage/sync_storage.go:90-92 |
| StorageScenarios.ShapeMismatch | storage/sync_storage_test.go:73-91 | an index into a mapping and a sub-key into a sequence are refused with an error |
| StorageScenarios.ExpirationOnDemand | storage/sync_storage_test.go:109-133 | entries read after their TTL are absent from the listing, the point lookup and the sub-key getter before any sweep, as the test checks; a sweep, the code at storage/sync_storage.go:120-135, then removes them |

## Left out

- The sweeper's ticker goroutine (one tick per second, never stopped) is left out. `SyncStorage.ExpireObsolete` models what each tick runs, as a function of an explicit `now`.
- The sweep's log line for each expired key is left out; it has no effect on the state.
- Wall-clock time and `time.Duration` are replaced by integer `now` and `ttl` parameters. The model does not saturate or wrap around as `time.Time.Add` does at the extremes of its range.
- Concurrency of the underlying concurrent map is left out. Every operation is modelled as one atomic step, so the race between the presence test and the store in append and update is not modelled.
- Runtime type assertions on the untyped stored value are replaced by the closed `Value` datatype. The asserting branches become the NotAnArray and NotADictionary error branches; a stored value of any other shape cannot be expressed.
- The `Storage` interface (storage/storage.go:33-50) is not a member of its own. `SyncStorage` provides its whole operation set under the same names. In the files this model covers, `SyncMapStorage` defines no `expireObsolete` (storage/storage.go:49), so the model gives it none; a file outside this model could define it, as it must define the helpers named below.
- Pointer aliasing is left out. Entries and values are immutable in the model. In the code, `GetValueByKey` hands back the stored entry pointer itself (storage/sync_storage.go:55 and :137-139, storage/syncmap_storage.go:47), and `newStorableWithMeta` keeps the caller's own slice or map (storage/storage.go:13). A caller that writes through either one changes the registry. So the contracts saying a lookup returns the stored entry, and that no other key or existing entry changes, hold only for callers that never mutate what they pass in or get back. The repository's own callers never do: the HTTP layer only encodes the returned value (server/server.go:105-106) and decodes every request body into fresh values (server/io_util.go:29-39).
- SyncStorage.GetAllKeys: lists against one instant `now`. The code reads the clock afresh for each entry (storage/sync_storage.go:44 and :145). Liveness only goes from live to expired (Storage.ExpiryIsPermanent), so the code's listing contains every key live at its last clock reading and no key already expired at its first; the model is the case where all readings coincide.
- SyncStorage.GetAllKeys: does not fix the order of the listing. Go enumerates the registry in an unspecified order, so the model picks keys in an arbitrary order and states only which keys are listed and that none repeats. SyncMapStorage.GetAllKeys is the same.
- The helpers `notExpired` and `filterExpired` that syncmap_storage.go calls are not defined in any file of the repository that this model covers. The model uses the same `Storage.Live` test and `Storage.FilterExpired` that sync_storage.go defines.
- The HTTP layer, the JSON decoding in trial order, the client and process wiring are not part of this model.
