# A Dafny model of the frantic DAO core

This project models the heart of a Go data-access library. The library keeps database
entities in a multi-table in-memory cache. It also wraps primitive values in small
entity types, stamps audit trails on records, and generates DAO boilerplate from a
definition file. The model covers:

- **The cache** (`dao/cache`). The package-level `cache` value is an immutable `Cache`
  datatype made of the same parallel maps keyed by table. Every exported operation is a
  pure function from the old state to the new one, plus the error it reports. This
  covers table lifecycle, key and index registration, adding and removing records,
  lookups, hydration, synchronisation, clearing, the expiry sweep and the statistics.
  - A Go map iteration order is an explicit `order` parameter: any enumeration of the
    map's keys.
  - The hydrator and synchroniser callbacks are identifiers. What they return comes
    from oracle functions passed in as parameters.
  - `time.Now()` is a `now` parameter, read once per call (see "## Left out").
  - `int64` counters wrap around as Go's do.
- **The validators** (`dao/entities/entitiesValidators.go`). `GetStructType` is defined
  on a model of Go's run-time types, so it splits type strings exactly as the Go code
  does. This yields the partition every cached value belongs to. The field and type
  validators are modelled the same way.
- **The entity wrappers** (`dao/entities/entities.go`). These are `Bool`, `StormBool`,
  `Int` (a decimal text with wrapping 64-bit arithmetic and truncating division) and the
  currency-code setter.
- **The audit trail** (`dao/audit`). This covers the action catalogue, the action
  helpers, the user lookup, and `Audit.Action` with its stamps, sequence counter and
  update log.
- **The DAO helpers** (`dao/dao.go`). These are `GetDBNameFromPath` and
  `CheckDAOReadyState`.
- **The code generator** (`cmd/dao-gen/main.go`). This covers the flag checks and
  defaults, the output file table, the refuse-to-overwrite write loop, `lowerFirst`,
  and the line-by-line parser of the `.definition` file.

Supporting modules model the Go standard-library pieces the core relies on:

- `strings`: trimming, splitting, `Fields`, `Join`, ASCII case mapping;
- `strconv.Itoa` and `strconv.Atoi`;
- 64-bit integer wrap-around and truncating division.

Behaviour the model keeps on purpose, because the Go code does it:

- **The per-table counter moves on every call.** It is incremented on every successful
  `AddEntry`, including one that replaces a record with the same key. It is decremented
  on every successful remove, even one whose key was absent. The counter is therefore
  not the number of records (`CacheEntries.CountIsNotSize`).
- **`RegisterSynchroniser` replaces the whole synchroniser map.** At most one table
  ever has a synchroniser.
- **`Synchronise(table)` always targets the same partition.** It passes an
  `entities.Table` value to `SynchroniseForType`, and the partition of that value is
  always `"Table"`, whichever table was named (`Validators.TableValueResolvesToTable`).
- **Expiry is lazy.** `Get` returns expired records until `PurgeExpiredEntries` runs
  (`CacheProperties.ExpiryIsLazy`).
- **`AddEntry` can never create a table.** Its branch that creates a missing entry map
  cannot be reached from `Initialise`, because a registered key implies an entry map
  (`CacheEntries.AddEntryNeverCreatesTable`).
- **A parser guard is redundant.** The generator's check that a field name does not
  start with `//` never fires, because comment lines are handled earlier
  (`DaoGen.FieldGuardRedundant`).

## Model

| member | source | states |
|---|---|---|
| CacheModel.Initialise | dao/cache/cacheInit.go:13-26 | every map of the fresh cache is empty at every table; `created` is now and `updated` the zero time |
| CacheModel.DefaultExpiryIsCentury | dao/cache/cacheInit.go:9 | the default expiry is one hundred 365-day years in nanoseconds |
| CacheModel.ReadField | dao/cache/cache.go:181-197 | a key read succeeds exactly on a struct, or a non-nil pointer to one, that has the field under an exported name, and returns that field's value; a nil pointer, a missing field and an unexported field (where `Interface()` panics) each fail with their own error |
| CacheModel.Coerce | dao/cache/cache.go:452-501 | a coerced value has the target type, or is the pointee of a pointer to the target; a well-typed value always coerces to one of exactly the target type |
| CacheModel.CoerceIdentity | dao/cache/cache.go:452-501 | a value already of the target type comes back unchanged; nil never coerces |
| CacheModel.CoercePointerBridge | dao/cache/cache.go:452-501 | boxing a value into a pointer and dereferencing it back are both accepted and are inverse |
| CacheModel.InitialiseInv | dao/cache/cacheInit.go:13-26 | the initial cache satisfies the invariant: flagged or keyed tables have entry maps, records sit in their own partition, at most one synchroniser |
| CacheModel.KeyImpliesEntries | dao/cache/cache.go:113-123 | under the invariant a table with a key field has an entry map |
| CacheRegistry.IsEnabled | dao/cache/cache.go:24-31 | true exactly when the table's active flag is present and true |
| CacheRegistry.IsDisabled | dao/cache/cache.go:42-49 | always the negation of `IsEnabled`, so true for a table never seen |
| CacheRegistry.IsInitialised | dao/cache/cache.go:77-84 | reads the same flag as `IsEnabled` and always disagrees with `IsDisabled` (`IsDeInitialised`) |
| CacheRegistry.NeverSeenIsDisabled | dao/cache/cache.go:24-49 | a table with no active flag is disabled and not enabled |
| CacheRegistry.Activate | dao/cache/cache.go:61-75 | the table is reset to active, no key, no indices, no records, zero count, default expiry and nil callbacks; no other table changes |
| CacheRegistry.Disable | dao/cache/cache.go:33-40 | the table becomes inactive and loses records, indices and key, keeping count, expiry and callbacks; no other table changes |
| CacheRegistry.ActivateDisableFlags | dao/cache/cache.go:33-75 | activation enables and disabling disables, and neither leaves a key registered |
| CacheRegistry.RegisterExpiry | dao/cache/cache.go:94-103 | an inactive table is refused and nothing changes; otherwise only the table's expiry is set |
| CacheRegistry.GetExpiry | dao/cache/cache.go:105-111 | succeeds exactly on an active table, with its stored expiry |
| CacheRegistry.ExpiryRoundTrip | dao/cache/cache.go:94-111 | on an active table the expiry registered is the expiry read back |
| CacheRegistry.RegisterKey | dao/cache/cache.go:113-123 | an inactive table is refused; otherwise only the key field is set |
| CacheRegistry.RegisterKeyRegisters | dao/cache/cache.go:113-123 | registering a non-empty key on an active table makes the table keyed by it |
| CacheRegistry.RegisterIndex | dao/cache/cache.go:125-142 | an inactive table is refused; an index already present changes nothing; a new one is appended |
| CacheRegistry.RemoveIndex | dao/cache/cache.go:144-161 | an inactive table is refused; an absent index changes nothing; a present one loses its first occurrence |
| CacheRegistry.RegisterIndexIdempotent | dao/cache/cache.go:125-142 | registering the same index twice is the same as once |
| CacheRegistry.RemoveUndoesRegister | dao/cache/cache.go:125-161 | removing a freshly registered index restores the index list |
| CacheRegistry.RegisterHydrator | dao/cache/cache.go:577-591 | nil data changes nothing; otherwise only the hydrator of the data's partition is set |
| CacheRegistry.RegisterSynchroniser | dao/cache/cache.go:566-575 | the synchroniser map is replaced by one holding only this table's function |
| CacheRegistry.SecondSynchroniserReplacesFirst | dao/cache/cache.go:566-575 | registering for a second table forgets the first table's synchroniser |
| CacheRegistry.ActivateInv | dao/cache/cache.go:61-75 | activation keeps the cache invariant |
| CacheRegistry.DisableInv | dao/cache/cache.go:33-40 | disabling keeps the cache invariant |
| CacheRegistry.RegisterExpiryInv | dao/cache/cache.go:94-103 | registering an expiry keeps the cache invariant |
| CacheRegistry.RegisterKeyInv | dao/cache/cache.go:113-123 | registering a key keeps the cache invariant |
| CacheRegistry.IndexInv | dao/cache/cache.go:125-161 | index registration and removal keep the cache invariant |
| CacheRegistry.RegisterHydratorInv | dao/cache/cache.go:577-591 | registering a hydrator keeps the cache invariant |
| CacheRegistry.RegisterSynchroniserInv | dao/cache/cache.go:566-575 | registering a synchroniser keeps the single-synchroniser invariant |
| CacheEntries.KeyOf | dao/cache/cache.go:181-197 | the key read succeeds with the key field's value, or fails with the error matching the failed read, an unexported key field being the `Interface()` panic |
| CacheEntries.AddExpiry | dao/cache/cache.go:199-203 | an active table's own expiry is used, the default otherwise |
| CacheEntries.Store | dao/cache/cache.go:204-221 | files the entry under its key, increments the counter with wrap-around, stamps `updated`, and changes nothing else |
| CacheEntries.AddEntry | dao/cache/cache.go:163-222 | nil data, an unkeyed table and a failed key read are refused in that order without change; otherwise the record is stored under its key |
| CacheEntries.AddEntryNeverCreatesTable | dao/cache/cache.go:206-215 | under the invariant a storable record's table already has an entry map |
| CacheEntries.AddedIsAddable | dao/cache/cache.go:163-222 | adding keeps the key map, so the record stays storable under the same key |
| CacheEntries.ReplacementStillCounts | dao/cache/cache.go:216-219 | re-adding a key keeps the number of records but still increments the counter |
| CacheEntries.AddEntryInv | dao/cache/cache.go:163-222 | adding a record keeps the cache invariant |
| CacheEntries.AddEntries | dao/cache/cache.go:224-234 | adds the records in order and stops at the first failure |
| CacheEntries.AddEntriesAppend | dao/cache/cache.go:224-234 | adding `xs + ys` is adding `xs` and then, if that succeeded, `ys` |
| CacheEntries.AddEntriesStopsAtFailure | dao/cache/cache.go:224-234 | nothing after the first failing record is added, and its error is returned |
| CacheEntries.AddEntriesInv | dao/cache/cache.go:224-234 | adding many records keeps the cache invariant |
| CacheEntries.Delete | dao/cache/cache.go:267-269 | the key leaves the table, the counter is decremented with wrap-around, and nothing else changes |
| CacheEntries.RemoveEntry | dao/cache/cache.go:236-272 | nil data panics; an unkeyed table or a failed key read is refused without change; otherwise the record's key is deleted |
| CacheEntries.RemoveByKey | dao/cache/cache.go:274-291 | an unkeyed table is refused; otherwise the key, compared with its dynamic type, is deleted and the counter decremented whether or not it was present |
| CacheEntries.RemoveEntryIsRemoveByKey | dao/cache/cache.go:236-291 | removing a record is removing its key |
| CacheEntries.RemoveAbsentStillCounts | dao/cache/cache.go:274-291 | removing an absent key keeps the records but still decrements the counter |
| CacheEntries.AddThenRemove | dao/cache/cache.go:163-272 | adding a new record and then removing it restores the records and the counter |
| CacheEntries.RemoveInv | dao/cache/cache.go:236-291 | removing keeps the cache invariant |
| CacheEntries.Count | dao/cache/cache.go:503-512 | fails for a table with no entry map, otherwise returns the stored counter |
| CacheEntries.CountIsNotSize | dao/cache/cache.go:216-219 | adding the same record twice to an empty table leaves one record but a count of two |
| CacheEntries.AddToEmpty | dao/cache/cache.go:163-222 | adding to an empty table leaves exactly that key and a count of one |
| CacheEntries.Clear | dao/cache/cache.go:794-805 | a table without entries is refused; otherwise records and counter are emptied and everything else kept |
| CacheEntries.ClearCacheForType | dao/cache/cache.go:770-782 | nil data panics; otherwise clears the data's partition, keeping its key registration and every other table |
| CacheEntries.ClearIdempotent | dao/cache/cache.go:794-805 | clearing twice is clearing once |
| CacheEntries.ClearInv | dao/cache/cache.go:794-805 | clearing keeps the cache invariant |
| CacheEntries.ClearAllCaches | dao/cache/cache.go:784-792 | every table with an entry map is emptied and zeroed; flags, keys, indices, expiries and callbacks are kept |
| CacheEntries.ClearAllAgreesWithClear | dao/cache/cache.go:784-805 | clearing all tables does to each one what clearing it alone does |
| CacheEntries.ClearAllInv | dao/cache/cache.go:784-792 | clearing all keeps the cache invariant |
| CacheQueries.Get | dao/cache/cache.go:297-323 | fails with no entry map, no key, no record or wrong type, in that order; succeeds exactly with the coerced record filed under the key, keys comparing with their dynamic type as Go's `==` on `any` does |
| CacheQueries.Records | dao/cache/cache.go:325-350 | the table's records in visiting order |
| CacheQueries.CoerceAllSpec | dao/cache/cache.go:325-350 | coercing a list succeeds exactly when every element coerces, and keeps each coercion in place |
| CacheQueries.MatchesHold | dao/cache/cache.go:352-406 | every matched record's field holds the sought value |
| CacheQueries.MatchesExactly | dao/cache/cache.go:352-406 | a record is matched exactly when a visited key holds it and its field holds the value |
| CacheQueries.MatchesPrefix | dao/cache/cache.go:352-406 | visiting more keys only extends the matches |
| CacheQueries.FirstOnly | dao/cache/cache.go:352-406 | succeeds exactly with one coercible match; no match is "not found"; two coercible matches are "multiple records" |
| CacheQueries.GetWhere | dao/cache/cache.go:352-406 | a missing or unkeyed table is refused; an unexported filter field that some record has panics; otherwise the outcome is that of the matches in visiting order (one coercible match is returned, two are ambiguous); when no record's field holds the value, with its dynamic type, the record is not found |
| CacheQueries.FirstMatch | dao/cache/cache.go:365-405 | stopping at the second match gives the same outcome as inspecting all matches |
| CacheQueries.Select | dao/cache/cache.go:419-449 | every match, coerced, in visiting order, or a type mismatch when one does not coerce |
| CacheQueries.GetAllWhere | dao/cache/cache.go:408-450 | a missing table and an unkeyed table are refused, the latter under the caller's operation name; an unexported filter field that some record has panics; otherwise every matching record coerced, or a type mismatch; when no record's field holds the value, with its dynamic type, the result is empty |
| CacheQueries.IndexPanicsExactly | dao/cache/cache.go:372-386 | a filter panics exactly when its field name is unexported and some record has that field |
| CacheQueries.NoHolderNoMatches | dao/cache/cache.go:372-398 | when no record's field holds the value, the filter matches nothing |
| CacheQueries.GetAll | dao/cache/cache.go:325-350 | after the table checks, every record coerced, as many as the table holds, or a type mismatch |
| CacheQueries.CoerceRecords | dao/cache/cache.go:338-349 | the loop coerces the records in order and fails at the first that does not coerce |
| CacheQueries.GetAfterAdd | dao/cache/cache.go:163-323 | a record just added comes back from `Get` under its type and key |
| CacheQueries.GetAfterAddThroughPointer | dao/cache/cache.go:163-323 | a pointer to a struct, once added, comes back as the struct when read under the struct type |
| CacheMaintenance.SetActive | dao/cache/cache.go:51-59 | only the table's active flag changes |
| CacheMaintenance.HydrateTable | dao/cache/cache.go:623-659 | missing table, missing key and missing hydrator are refused; a failing hydrator turns the table off; otherwise the table is turned on and the records added |
| CacheMaintenance.AddEntriesKeepsKeys | dao/cache/cache.go:224-234 | adding records never removes a key from any table |
| CacheMaintenance.HydrateKeepsRecords | dao/cache/cache.go:623-659 | successful hydration keeps every record the table already held |
| CacheMaintenance.HydrateFailureLeavesTableOff | dao/cache/cache.go:639-646 | a failing hydrator leaves the table switched off and its records untouched |
| CacheMaintenance.HydrateInv | dao/cache/cache.go:623-659 | hydration keeps the cache invariant whatever the hydrator returns |
| CacheMaintenance.HydrateForType | dao/cache/cache.go:593-600 | nil data is refused; otherwise the data's partition is hydrated |
| CacheMaintenance.HydrateTablesAppend | dao/cache/cache.go:606-621 | hydrating two lists of tables is hydrating the first, then the second if that succeeded |
| CacheMaintenance.HydrateTablesInv | dao/cache/cache.go:606-621 | hydrating several tables keeps the cache invariant |
| CacheMaintenance.HydrateAll | dao/cache/cache.go:606-621 | hydrates every table with a non-nil hydrator in visiting order, stopping at the first failure; keys and hydrators are kept and no key is lost; on success every table with a hydrator is enabled and its hydrator succeeded; a failure needs some table with a hydrator; the invariant is kept |
| CacheMaintenance.HydrateTableFacts | dao/cache/cache.go:623-659 | hydrating one table keeps the keys, the hydrators, every record key and every other enabled table; on success the table is enabled and its hydrator returned records |
| CacheMaintenance.HydrateTablesFacts | dao/cache/cache.go:606-621 | hydrating tables in turn keeps keys, hydrators and records, leaves unvisited tables as they were, and on success has enabled every visited table with a hydrator |
| CacheMaintenance.AddEntriesKeepsSetup | dao/cache/cache.go:224-234 | adding records changes no key registration or hydrator and disables no table |
| CacheMaintenance.SkipsNil | dao/cache/cache.go:606-621 | tables whose hydrator is nil are never hydrated |
| CacheMaintenance.CallEach | dao/cache/cache.go:678-686 | calls the synchroniser on each record in order and stops at the first failure; a nil synchroniser panics when there is a record |
| CacheMaintenance.SynchroniseTable | dao/cache/cache.go:661-690 | a missing table, an unkeyed table and a missing synchroniser are refused before any call; otherwise the synchroniser is called on the records in visiting order |
| CacheMaintenance.SynchroniseCallsEveryRecord | dao/cache/cache.go:661-690 | a successful synchronisation calls the synchroniser once on every cached record |
| CacheMaintenance.Synchronise | dao/cache/cache.go:692-694 | synchronises the partition of an `entities.Table` value, which is always `"Table"` |
| CacheMaintenance.SynchroniseAll | dao/cache/cache.go:750-760 | runs the non-nil synchronisers in visiting order, each on the partition `"Table"` |
| CacheMaintenance.NoneSyncs | dao/cache/cache.go:750-760 | with no non-nil synchroniser nothing is called |
| CacheMaintenance.SynchroniseAllRunsOnce | dao/cache/cache.go:750-760 | with one non-nil synchroniser, synchronising all runs the `"Table"` partition exactly once |
| CacheMaintenance.OnlyOneRuns | dao/cache/cache.go:750-760 | tables whose synchroniser is nil contribute no calls |
| CacheMaintenance.SynchroniseEntry | dao/cache/cache.go:696-748 | nil data panics; a missing table, a missing key, a missing synchroniser entry, an unreadable key field, an uncached record and a nil synchroniser are each refused with their own error; otherwise exactly one call is made with the cached record under the data's key, a pass needs that call, and a failing call is reported as the callback's error |
| CacheMaintenance.SynchroniseEntryUsesCachedRecord | dao/cache/cache.go:696-748 | the synchroniser receives the cached record, not the argument |
| CacheHealth.Expired | dao/cache/cacheHealth.go:11-28 | the expired keys are among the table's keys |
| CacheHealth.DecrementTimesWraps | dao/cache/cacheHealth.go:11-28 | decrementing once per deleted record is subtracting their number modulo 2^64 |
| CacheHealth.PurgeExpiredEntries | dao/cache/cacheHealth.go:11-28 | the sweep keeps the set of tables and every map but entries and counts, `updated` included |
| CacheHealth.PurgeEntriesOf | dao/cache/cacheHealth.go:11-28 | after the sweep a table holds exactly its unexpired entries |
| CacheHealth.PurgeKeepsExactlyUnexpired | dao/cache/cacheHealth.go:11-28 | a key survives the sweep exactly when it was present and had not expired |
| CacheHealth.PurgeRemovesExpired | dao/cache/cacheHealth.go:11-28 | the keys the sweep removes are exactly the expired ones |
| CacheHealth.PurgeCounts | dao/cache/cacheHealth.go:11-28 | each counter drops by the number of expired entries, with wrap-around |
| CacheHealth.PurgeLeavesNothingExpired | dao/cache/cacheHealth.go:11-28 | after the sweep no entry has expired at that instant |
| CacheHealth.PurgeIdempotent | dao/cache/cacheHealth.go:11-28 | sweeping twice at the same instant is sweeping once |
| CacheHealth.PurgeInv | dao/cache/cacheHealth.go:11-28 | the sweep keeps the cache invariant |
| CacheHealth.Stats | dao/cache/cacheDebug.go:103-111 | reports the timestamps, the number of active-flag entries, and the total number of records over all tables |
| CacheProperties.AddEntriesStoresAll | dao/cache/cache.go:224-234 | when adding many records succeeds, every record was storable and its key is present afterwards |
| CacheProperties.SecondAddWins | dao/cache/cache.go:216-219 | a second record under the same key replaces the first: one key, the second record, and `Get` returns it |
| CacheProperties.DisableHidesRecords | dao/cache/cache.go:33-40 | after disabling, `Get` on the table reports that no key is defined |
| CacheProperties.ExpiryIsLazy | dao/cache/cacheHealth.go:11-28 | an expired record is returned by `Get` until the sweep, and not found after it |
| CacheProperties.AmbiguousFilter | dao/cache/cache.go:386-398 | two distinct matching records make `GetWhere` report multiple records while `GetAllWhere` returns both |
| CacheProperties.UnexportedKeyPanics | dao/cache/cache.go:193-197 | with an unexported key field, adding or removing a row panics at the key read and changes nothing |
| CacheProperties.Session | dao/cache/cache.go:61-323 | activate, key, add two rows, read, remove: each step succeeds and the counter reads 2 then 1 |
| CacheProperties.OtherKeyTypeMisses | dao/cache/cache.go:274-323 | a key of another dynamic type (an `int64` 1 against `int` keys) finds no record, removes nothing (the counter still drops, as the code does) and matches no filter |
| Validators.GetFunctionName | dao/entities/entitiesValidators.go:14-17 | the result is the last `.`-free segment of the qualified name |
| Validators.GetFunctionNameOfQualified | dao/entities/entitiesValidators.go:14-17 | a name ending in `.x`, with `x` free of dots, resolves to `x` |
| Validators.GetStructTypeQualified | dao/entities/entitiesValidators.go:19-36 | any pointer, slice or array of a package type resolves to the package type's name |
| Validators.TableValueResolvesToTable | dao/entities/entitiesValidators.go:19-36 | an `entities.Table` value resolves to `"Table"` |
| Validators.GetStructTypePlain | dao/entities/entitiesValidators.go:19-36 | a type string without `*` or `.` is its own partition name |
| Validators.PointerSharesPartition | dao/entities/entitiesValidators.go:19-36 | a pointer to a package type and the type itself share a partition |
| Validators.DoublePointerToPredeclared | dao/entities/entitiesValidators.go:19-36 | `**int` resolves to `*int`: only one pointer level is removed without a package |
| Validators.IsValidFieldInStruct | dao/entities/entitiesValidators.go:38-74 | every failure reports the requested field as invalid |
| Validators.IsValidFieldInStructSpec | dao/entities/entitiesValidators.go:38-74 | validation succeeds exactly when the inspected type is a struct declaring the field |
| Validators.IsValidFieldThroughPointers | dao/entities/entitiesValidators.go:45-49 | any number of pointers around the argument's type leaves the verdict unchanged |
| Validators.SliceLevels | dao/entities/entitiesValidators.go:51-58 | one slice level is looked through, a second one is not |
| Validators.NoTypeIsNil | dao/entities/entitiesValidators.go:76-116 | no Go type prints as `<nil>` |
| Validators.IsValidTypeForFieldSpec | dao/entities/entitiesValidators.go:76-116 | the value's type is accepted exactly when its string equals the field's declared type string |
| Entities.SetBool | dao/entities/entities.go:263-269 | stores the canonical text of the value, which reads back as the value |
| Entities.SetTrue | dao/entities/entities.go:271-273 | stores `"true"`, which reads back true |
| Entities.SetFalse | dao/entities/entities.go:275-277 | stores `"false"`, which reads back false |
| Entities.BoolOfSpec | dao/entities/entities.go:325-331 | reads true exactly from the text `"true"` |
| Entities.SetFromString | dao/entities/entities.go:279-286 | true exactly when the trimmed, lower-cased input is one of the accepted words |
| Entities.SetFromStringFoldsCase | dao/entities/entities.go:279-286 | upper-case words are accepted too |
| Entities.SetFromStringTrims | dao/entities/entities.go:279-286 | surrounding white space does not change the verdict |
| Entities.SetFromStringRejects | dao/entities/entities.go:279-286 | other words and the empty text read false |
| Entities.Toggle | dao/entities/entities.go:288-294 | the stored value flips and the text becomes canonical |
| Entities.ToggleTwice | dao/entities/entities.go:288-294 | toggling twice keeps the truth value |
| Entities.SetStormBool | dao/entities/entities.go:63-69 | stores the canonical text, which reads back as the value |
| Entities.BoolReadersAgree | dao/entities/entities.go:71-85 | `Bool` and `StormBool` read every stored text the same way |
| Entities.SetInt | dao/entities/entities.go:87-90 | stores the decimal text, which reads back as the number |
| Entities.SetIntCanonical | dao/entities/entities.go:87-102 | setting is injective and the empty text reads as zero |
| Entities.IntLessThan | dao/entities/entities.go:136-138 | panics on unparsable text; see `Entities.OrderAgreesOnSetValues` and `Entities.ComparisonsMirror` for what the comparison means |
| Entities.IntGreaterThan | dao/entities/entities.go:144-146 | panics on unparsable text; see `Entities.OrderAgreesOnSetValues` and `Entities.ComparisonsMirror` for what the comparison means |
| Entities.IntLessThanOrEqual | dao/entities/entities.go:140-142 | panics on unparsable text; see `Entities.OrderAgreesOnSetValues` and `Entities.ComparisonsMirror` for what the comparison means |
| Entities.IntGreaterThanOrEqual | dao/entities/entities.go:148-150 | panics on unparsable text; see `Entities.OrderAgreesOnSetValues` and `Entities.ComparisonsMirror` for what the comparison means |
| Entities.OrderAgreesOnSetValues | dao/entities/entities.go:132-150 | on values stored by `SetInt`, the four comparisons are the integer order of the stored numbers |
| Entities.ComparisonsMirror | dao/entities/entities.go:136-150 | `a > b` is `b < a`, `a >= b` is `b <= a`, and `<=`, `>=` are the negations of `>`, `<` whenever the text parses |
| Entities.OrderAndEqualsAgree | dao/entities/entities.go:132-150 | on stored values, `Equals` holds exactly when both `<=` and `>=` do; "07" and "7" are ordered equal though `Equals` compares text |
| Entities.EqualsIsTextual | dao/entities/entities.go:132-134 | equality compares texts: `"07"` and `"7"` are not equal though the numbers are |
| Entities.EqualsAgreesOnSetValues | dao/entities/entities.go:132-134 | on texts written by `Set`, textual equality is numeric equality |
| Entities.Add | dao/entities/entities.go:152-155 | the wrapped 64-bit sum, or a panic on unparsable text |
| Entities.Subtract | dao/entities/entities.go:157-160 | the wrapped 64-bit difference, or a panic on unparsable text |
| Entities.MultiplyBy | dao/entities/entities.go:162-165 | the wrapped 64-bit product, or a panic on unparsable text |
| Entities.DivideBy | dao/entities/entities.go:167-174 | a zero divisor panics; otherwise the quotient truncated toward zero, wrapped |
| Entities.DivideTruncates | dao/entities/entities.go:167-174 | -7 divided by 2 stores -3 |
| Entities.Increment | dao/entities/entities.go:181-184 | the wrapped successor |
| Entities.Decrement | dao/entities/entities.go:191-194 | the wrapped predecessor |
| Entities.IncrementDecrement | dao/entities/entities.go:181-194 | incrementing then decrementing keeps the number |
| Entities.IncrementWraps | dao/entities/entities.go:181-184 | the largest `int` increments to the smallest |
| Entities.IntToInt32 | dao/entities/entities.go:116-118 | the parsed value truncated to 32 bits, two's complement |
| Entities.IntToUint32 | dao/entities/entities.go:120-122 | the parsed value reduced modulo 2^32 |
| Entities.IntToUint64 | dao/entities/entities.go:108-110 | the parsed value reduced modulo 2^64 |
| Entities.SetCode | dao/entities/entities.go:367-379 | the empty code becomes `GBP`; a code that is not three bytes long panics; otherwise it is stored upper-cased |
| Entities.SetCodeStable | dao/entities/entities.go:367-379 | under ASCII case mapping, every stored code is three bytes long and storing it again changes nothing |
| Entities.SetCodeCountsBytes | dao/entities/entities.go:367-379 | the length rule counts bytes, so `"€"` passes and `"ab"` does not |
| AuditTrail.WithMessage | dao/audit/audit.go:21-24 | only the message changes |
| AuditTrail.PopMessage | dao/audit/auditHelpers.go:29-33 | returns the message and leaves the action without one |
| AuditTrail.PopAfterWithMessage | dao/audit/auditHelpers.go:29-33 | a message set and then popped comes back, and popping twice yields nothing |
| AuditTrail.Silent | dao/audit/audit.go:92-95 | only the silent flag is set |
| AuditTrail.NotSilent | dao/audit/audit.go:97-105 | only the silent flag is cleared |
| AuditTrail.IsIgnoresMessageAndFlag | dao/audit/audit.go:88-90 | `Is` compares codes only |
| AuditTrail.SilenceLastWins | dao/audit/audit.go:92-100 | the last of `Silent` and `NotSilent` decides |
| AuditTrail.ShortName | dao/audit/audit.go:119-121 | each character is the short name's character upper-cased, and no lower-case ASCII letter is left |
| AuditTrail.Text | dao/audit/audit.go:123-125 | each character is the code's character upper-cased, and no lower-case ASCII letter is left |
| AuditTrail.ShortNameIsText | dao/audit/audit.go:119-125 | across the catalogue, an action's short name and text agree exactly for every action except `SILENT` |
| AuditTrail.EraseIsDelete | dao/audit/auditInit.go:43 | `ERASE` is `DELETE` |
| AuditTrail.SilentActions | dao/audit/auditInit.go:39-59 | exactly `SILENT`, `audit` and `BACKUP` start silent |
| AuditTrail.ShortNamesAreCodes | dao/audit/auditInit.go:39-59 | each short name is its code, except `SILENT`'s |
| AuditTrail.GetIsZero | dao/audit/auditInit.go:30 | `GET` is never assigned, so it has the empty code |
| AuditTrail.CodesDistinct | dao/audit/auditInit.go:39-59 | codes are distinct except `DELETE` and its alias `ERASE` |
| AuditTrail.AuditUserCode | dao/audit/auditHelpers.go:48-70 | background means `svc_` plus host; TODO or nil means `sys_` plus host; a session user is used as is; otherwise the default user and an error |
| AuditTrail.NoUserOnlyWithoutDefault | dao/audit/auditHelpers.go:48-70 | the user is empty only for a session without user when no default is configured |
| AuditTrail.UpdateFor | dao/audit/audit.go:68-75 | the update carries the instant, user, host, action code and message |
| AuditTrail.NextSequence | dao/audit/audit.go:62-66 | 0 becomes 1, otherwise Go's wrapping `++` |
| AuditTrail.ApplyAction | dao/audit/audit.go:26-86 | exits exactly when no user is found; otherwise advances the sequence and stores the database version |
| AuditTrail.ActionStampsCreation | dao/audit/audit.go:48-53 | only `CREATE` stamps the creation fields |
| AuditTrail.ActionStampsDeletion | dao/audit/audit.go:55-60 | only `DELETE` stamps the deletion fields |
| AuditTrail.ActionLogsUpdate | dao/audit/audit.go:79-81 | exactly the logged actions append one update |
| AuditTrail.SequenceIncrements | dao/audit/audit.go:62-66 | below the `int` limit the sequence grows by one and is positive |
| AuditTrail.CreateAndDeleteAreDisjoint | dao/audit/audit.go:48-60 | `CREATE` never stamps deletion, and `ERASE` never stamps creation |
| AuditTrail.MessageBecomesNotes | dao/audit/audit.go:28-75 | the attached message becomes the logged update's notes |
| AuditTrail.SilentLeavesNoUpdate | dao/audit/audit.go:79-81 | silent actions, `SERVICE`, `SILENT`, `audit` and `BACKUP` log nothing, while `UPDATE` logs |
| AuditTrail.LoggedCount | dao/audit/audit.go:79-81 | at most one logged update per action; none exactly when no action logs, and one per action exactly when every action logs |
| AuditTrail.LoggedCountAppend | dao/audit/audit.go:79-81 | the count over two runs is the sum of their counts, and one action counts exactly when it logs |
| AuditTrail.AdvanceWraps | dao/audit/audit.go:62-66 | advancing k times is adding k modulo 2^64 |
| AuditTrail.ApplyActionsAdvance | dao/audit/audit.go:26-86 | a run of actions by a known user is recorded and advances the sequence once per action |
| AuditTrail.ApplyActionsSequence | dao/audit/audit.go:62-66 | a run advances the sequence by its length, with wrap-around |
| AuditTrail.ApplyActionsUpdates | dao/audit/audit.go:79-81 | a run appends exactly one update per logged action and keeps the earlier log |
| AuditTrail.ApplyActionsExits | dao/audit/audit.go:41-45 | with no user found every run ends the process |
| Dao.GetDBNameFromPath | dao/dao.go:38-46 | the last separator-delimited segment of the path |
| Dao.DBNameOfBareName | dao/dao.go:38-46 | a path without separator is its own name |
| Dao.DBNameAfterLastSeparator | dao/dao.go:38-46 | otherwise the name is what follows the last separator |
| Dao.DBNameOfDirectory | dao/dao.go:38-46 | a path ending in a separator gives the empty name |
| Dao.DBNameOfJoinedPath | dao/dao.go:38-46 | joining a directory and a plain file name gives back the file name |
| Dao.CheckDAOReadyState | dao/dao.go:49-54 | panics with the table and action exactly when the DAO is not ready |
| Dao.ReadyCheckIgnoresArguments | dao/dao.go:49-54 | readiness alone decides whether it panics |
| DaoGen.TagsOf | cmd/dao-gen/main.go:193-197 | the text between the first and last backtick, empty with fewer than two |
| DaoGen.TagsBetweenOutermost | cmd/dao-gen/main.go:193-197 | whatever surrounds the outermost backticks, the tags are what lies between |
| DaoGen.OneBacktickNoTags | cmd/dao-gen/main.go:193-197 | a single backtick opens no tags |
| DaoGen.ParseField | cmd/dao-gen/main.go:193-228 | a line with at least two words yields its name, the rest of the words as type, and the tags |
| DaoGen.ParseFieldRoundTrip | cmd/dao-gen/main.go:193-228 | name, type words and tags written in the input format come back from the parser |
| DaoGen.StepFacts | cmd/dao-gen/main.go:155-232 | before the marker a line is skipped; the marker opens the section; a section line is copied and parsed |
| DaoGen.RunAppend | cmd/dao-gen/main.go:155-232 | reading two parts of a file is reading the first, then the second |
| DaoGen.NothingBeforeMarker | cmd/dao-gen/main.go:163-165 | lines before the marker record nothing |
| DaoGen.SectionStartsAfterMarker | cmd/dao-gen/main.go:157-160 | the marker line opens the section and is not copied |
| DaoGen.SectionLinesCopied | cmd/dao-gen/main.go:167-231 | inside the section every line but a marker is copied verbatim |
| DaoGen.SectionIsCopied | cmd/dao-gen/main.go:155-232 | the copied text is exactly the non-marker lines after the first marker |
| DaoGen.FieldsText | cmd/dao-gen/main.go:240 | the `fields` text is the copied lines joined by newlines |
| DaoGen.BlankResetsComments | cmd/dao-gen/main.go:168-172 | a blank line empties the comment buffer and records no field |
| DaoGen.CommentBuffered | cmd/dao-gen/main.go:175-183 | a comment line buffers its non-empty text and records no field |
| DaoGen.FieldGuardRedundant | cmd/dao-gen/main.go:211 | the check that a field name does not start with `//` never fails |
| DaoGen.FieldRecorded | cmd/dao-gen/main.go:200-231 | a field line records one definition carrying the buffered comments, which are then cleared |
| DaoGen.ReadDefinitionFile | cmd/dao-gen/main.go:136-252 | an unreadable file gives four empty results; otherwise the copied section, the name and init texts, and the parsed definitions |
| DaoGen.NamesEmptyIffNoFields | cmd/dao-gen/main.go:242-249 | the name and init texts are empty exactly when no field was parsed |
| DaoGen.LowerFirst | cmd/dao-gen/main.go:281-288 | the first rune lower-cased and the rest kept; empty stays empty |
| DaoGen.LowerFirstIdempotent | cmd/dao-gen/main.go:281-288 | lower-casing the first rune twice changes nothing more; under ASCII case mapping, a first rune outside `A`-`Z` is kept |
| DaoGen.Configure | cmd/dao-gen/main.go:61-72 | a missing package or type is refused; the table defaults to the type and the namespace to `main` |
| DaoGen.ConfigureDefaults | cmd/dao-gen/main.go:61-72 | given table and namespace are kept, missing ones defaulted |
| DaoGen.FileTable | cmd/dao-gen/main.go:99-116 | ten entries, in order, the optional three governed by their flags |
| DaoGen.GeneratedFilesInOrder | cmd/dao-gen/main.go:101-116 | the six core files, the enabled optional ones, then `README.md` |
| DaoGen.GeneratedFileSet | cmd/dao-gen/main.go:101-116 | the core files and `README.md` are always generated, each optional file exactly when its flag is set |
| DaoGen.SuffixesDiffer | cmd/dao-gen/main.go:101-116 | the output names differ from one another |
| DaoGen.Generate | cmd/dao-gen/main.go:99-133 | writes the enabled files in order, refusing the first existing one unless forced |
| DaoGen.WriteAll | cmd/dao-gen/main.go:118-133 | without force, writing stops at the first name that already exists; with force, every name is written |

## Left out

- Logging, `Spew` and the timing clock: they only print.
- The database layer, the lookup helpers and the import/export helpers: they sit outside
  the core and talk to storage.
- Concurrency: the Go cache has no locking, and the model runs each operation alone.
- The state before `Initialise`: in that state the package-level maps are nil and
  writing to them panics. Every modelled state descends from `Initialise`.
- The callbacks themselves. Hydrators and synchronisers are identifiers whose results
  come from oracle parameters, so their side effects are not modelled.
- `reflect` assignability and conversion: `coerceCacheValue` is reduced to identity,
  dereference and boxing on named types. Conversions between distinct named types with
  the same underlying type are not modelled.
- The untyped-nil panic of the registry operations that take `data any`: they take the
  partition name, and only `AddEntry`, `RemoveEntry`, `ClearCacheForType`,
  `HydrateForType`, `RegisterHydrator` and `SynchroniseEntry` see nil data.
- `Update`, `FindByKey`, `Hydrate`, `DeInitialise` and `IsDeInitialised`: each only
  calls `AddEntry`, `Get`, `hydrateCacheByTable`, `Disable` or `IsDisabled`, so each is
  modelled by the member it calls.
- `FindByIndex` as a member of its own: its code repeats `GetAllWhere` and differs only in
  the operation name "findbyindex" in the missing-key error, so `CacheQueries.GetAllWhere`
  takes that name as its `op` argument.
- The function-pointer half of `GetFunctionName` (`runtime.FuncForPC`): the model
  starts from the qualified name it yields. `dao.GetFunctionName` is left out for the
  same reason.
- `Float`, `Decimal` and the amount side of `Currency`: these are floating-point and a
  decimal library.
- The HTML helpers of `Bool`: they only print.
- Unicode case mapping: `ToUpper` and `ToLower` are ASCII-only. Non-ASCII letters are
  kept as they are, and their UTF-8 length is counted correctly.
- SetCodeStable: holds only of the ASCII case mapping. Go's `strings.ToUpper` maps runes
  by Unicode rules and can change the byte length, so `SetCode("ıa")` stores `"IA"` and
  `SetCode("ɐa")` stores `"ⱯA"`. Setting either stored code again panics.
- LowerFirstIdempotent: its second clause, that a first rune outside `A`-`Z` is kept,
  holds only of the ASCII mapping. Go's `lowerFirst("Éclair")` returns `"éclair"`.
- ReadField: the fields a record holds are the ones `FieldByName` finds by name. Fields
  promoted from embedded structs, and the panic `Interface()` raises on an exported field
  reached through an unexported embedded struct, are not modelled. Field values are
  integers, strings and booleans only. So Go's panics on a key that cannot be hashed,
  and on a filter value that cannot be compared with `!=`, are not modelled.
  `Exported` tells upper-case letters apart in ASCII only.
- FindField: looks only at a struct type's declared fields. `FieldByName` in
  `IsValidFieldInStruct` and `IsValidTypeForField` also finds fields promoted from
  embedded structs, which the model's struct types do not have.
- AddEntry: the record's expiry and the cache's `updated` stamp come from one `now`.
  Go calls `time.Now()` twice, once for each (dao/cache/cache.go:216-219), so its two
  instants differ by the time between the reads.
- AddEntries: a whole batch reads the clock once, so every record of the batch expires
  at the same `now + AddExpiry`. Go's `AddEntry` reads `time.Now()` afresh for each
  record (dao/cache/cache.go:216), so records added together get distinct,
  non-decreasing expiries. In Go, a `PurgeExpiredEntries` can therefore remove only part
  of a batch, which the model cannot show. A single instant keeps the batch lemmas about
  one time value.
- HydrateTable: the hydrated records are added through `AddEntries` with one `now`, so
  the same single-instant stamping applies to them.
- HydrateForType: calls `HydrateTable` and inherits its single instant per batch.
- HydrateAll: each table's batch is stamped with the same `now` as every other table's,
  while Go reads the clock once per record across the whole loop.
- `time.Time.Add` saturation: expiry instants are unbounded integers.
- The date display format and the host name: these are parameters of the environment.
- The generator's templates, directory creation, file system and `os.Exit`: files that
  exist are a set parameter, and an exit is an error result.
- The line scanner: a definition file is its sequence of lines, with line endings
  removed, or `None` when it cannot be opened or read.
