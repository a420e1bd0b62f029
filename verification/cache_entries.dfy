/**
 * Adding, removing, counting and clearing cached records (dao/cache/cache.go:163-291,
 * 503-512, 770-805).
 *
 * The per-table counter is maintained independently of the entry map: every successful
 * add increments it, replacements included, and every remove decrements it, even when
 * the key was absent. Go's `int64` counter wraps around.
 */
module CacheEntries {
  import opened Wrappers
  import opened GoInts
  import opened GoTypes
  import opened Validators
  import opened CacheModel
  import opened CacheRegistry

  /** The key value of `data` under the table's registered key field, or the error `op` reports. */
  function KeyOf(c: Cache, data: Datum, table: Table, op: string): (r: Result<Value, CacheError>)
    requires IsKeyRegistered(c, table)
    ensures r.Success? <==> ReadField(data, c.key[table]).Success?
    ensures r.Success? ==> r.value == ReadField(data, c.key[table]).value
    ensures r.Failure? ==> r.error == ReadFailure(ReadField(data, c.key[table]).error, op, table, c.key[table])
  {
    match ReadField(data, c.key[table])
    case Success(k) => Success(k)
    case Failure(e) => Failure(ReadFailure(e, op, table, c.key[table]))
  }

  /** The expiry `AddEntry` uses: the table's own when it is active, the default otherwise. */
  function AddExpiry(c: Cache, table: Table): (d: Duration)
    ensures IsEnabled(c, table) ==> d == ExpiryOf(c, table)
    ensures !IsEnabled(c, table) ==> d == DEFAULT_EXPIRY
  {
    match GetExpiry(c, table)
    case Success(d) => d
    case Failure(_) => DEFAULT_EXPIRY
  }

  /** The conditions under which `AddEntry` stores `data`. */
  predicate Addable(c: Cache, data: Datum) {
    !data.Nil? && IsKeyRegistered(c, PartitionOf(data)) && ReadField(data, c.key[PartitionOf(data)]).Success?
  }

  /** The key value a storable `data` is filed under. */
  function AddKey(c: Cache, data: Datum): Value
    requires Addable(c, data)
  {
    ReadField(data, c.key[PartitionOf(data)]).value
  }

  /**
   * Files `e` under `k` in the table: a table without an entry map gets a fresh one, is
   * flagged active and counts one; otherwise the key is stored (replacing any record) and
   * the counter goes up by one.
   */
  function Store(c: Cache, table: Table, k: Value, e: Entry, now: Time): (r: Cache)
    ensures EntriesOf(r, table) == EntriesOf(c, table)[k := e]
    ensures table in r.entries
    ensures CountOf(r, table) == (if table in c.entries then Wrap64(CountOf(c, table) + 1) else 1)
    ensures table in c.entries ==> ViewOf(r, table).active == ViewOf(c, table).active
    ensures table !in c.entries ==> ViewOf(r, table).active == Some(true)
    ensures r.updated == now && r.created == c.created
    ensures r.key == c.key && r.indices == c.indices && r.expiry == c.expiry
    ensures r.synchroniser == c.synchroniser && r.hydrator == c.hydrator
    ensures OthersUnchanged(c, r, table)
  {
    if table !in c.entries then
      c.(entries := c.entries[table := map[k := e]],
         tablesActive := c.tablesActive[table := true],
         count := c.count[table := 1],
         updated := now)
    else
      c.(entries := c.entries[table := c.entries[table][k := e]],
         count := c.count[table := Wrap64(CountOf(c, table) + 1)],
         updated := now)
  }

  /**
   * `AddEntry` (and `Update`): files the record under its key-field value, replacing any
   * earlier record with that key, expiring at `now` plus the table's expiry. The active
   * flag is not consulted. Every error leaves the cache unchanged.
   */
  function AddEntry(c: Cache, data: Datum, now: Time): (r: Update)
    ensures data.Nil? ==> r == Update(c, Fail(NilData("add")))
    ensures !data.Nil? && !IsKeyRegistered(c, PartitionOf(data)) ==> r == Update(c, Fail(NoKeyDefined("add", PartitionOf(data))))
    ensures !data.Nil? && IsKeyRegistered(c, PartitionOf(data)) && ReadField(data, c.key[PartitionOf(data)]).Failure? ==>
      r == Update(c, Fail(ReadFailure(ReadField(data, c.key[PartitionOf(data)]).error, "add", PartitionOf(data), c.key[PartitionOf(data)])))
    ensures r.outcome.Pass? <==> Addable(c, data)
    ensures r.outcome.Pass? ==>
      r.cache == Store(c, PartitionOf(data), AddKey(c, data), Entry(data, now + AddExpiry(c, PartitionOf(data))), now)
  {
    if data.Nil? then Update(c, Fail(NilData("add")))
    else
      var table := PartitionOf(data);
      if !IsKeyRegistered(c, table) then Update(c, Fail(NoKeyDefined("add", table)))
      else
        match KeyOf(c, data, table, "add")
        case Failure(e) => Update(c, Fail(e))
        case Success(k) => Update(Store(c, table, k, Entry(data, now + AddExpiry(c, table)), now), Pass)
  }

  /** Under the invariant the branch that creates a missing entry map is never taken. */
  lemma AddEntryNeverCreatesTable(c: Cache, data: Datum)
    requires Inv(c) && Addable(c, data)
    ensures PartitionOf(data) in c.entries
  {
    KeyImpliesEntries(c, PartitionOf(data));
  }

  /** A record that was added can be added again, under the same key. */
  lemma AddedIsAddable(c: Cache, data: Datum, now: Time)
    requires Addable(c, data)
    ensures var a := AddEntry(c, data, now).cache;
      && a.key == c.key && PartitionOf(data) in a.entries
      && Addable(a, data) && AddKey(a, data) == AddKey(c, data)
  {
  }

  /** A replacement leaves the number of records alone but still increments the counter. */
  lemma ReplacementStillCounts(c: Cache, data: Datum, now: Time)
    requires Addable(c, data) && PartitionOf(data) in c.entries
    requires AddKey(c, data) in EntriesOf(c, PartitionOf(data))
    ensures |EntriesOf(AddEntry(c, data, now).cache, PartitionOf(data))| == |EntriesOf(c, PartitionOf(data))|
    ensures CountOf(AddEntry(c, data, now).cache, PartitionOf(data)) == Wrap64(CountOf(c, PartitionOf(data)) + 1)
  {
    var m := EntriesOf(c, PartitionOf(data));
    var k := AddKey(c, data);
    var e := Entry(data, now + AddExpiry(c, PartitionOf(data)));
    assert m[k := e].Keys == m.Keys;
  }

  /** Adding keeps the invariant. */
  lemma AddEntryInv(c: Cache, data: Datum, now: Time)
    requires Inv(c)
    ensures Inv(AddEntry(c, data, now).cache)
  {
    if Addable(c, data) {
      var table := PartitionOf(data);
      KeyImpliesEntries(c, table);
      var r := AddEntry(c, data, now).cache;
      var m := c.entries[table][AddKey(c, data) := Entry(data, now + AddExpiry(c, table))];
      assert r.entries == c.entries[table := m];
      assert r.synchroniser == c.synchroniser && r.tablesActive == c.tablesActive && r.key == c.key;
      WellPlacedStore(c.entries[table], table, AddKey(c, data), Entry(data, now + AddExpiry(c, table)));
      InvSetEntries(c, r, table, m);
    }
  }

  /** Storing a record of the right partition keeps a table well placed. */
  lemma WellPlacedStore(m: Entries, table: Table, k: Value, e: Entry)
    requires WellPlaced(m, table) && !e.record.Nil? && PartitionOf(e.record) == table
    ensures WellPlaced(m[k := e], table)
  {
  }

  /**
   * `AddEntries`: adds the records in order and stops at the first failure, keeping the
   * records added before it.
   */
  function AddEntries(c: Cache, data: seq<Datum>, now: Time): (r: Update)
    ensures data == [] ==> r == Update(c, Pass)
    ensures |data| == 1 ==> r == AddEntry(c, data[0], now)
    decreases |data|
  {
    if data == [] then Update(c, Pass)
    else
      var first := AddEntry(c, data[0], now);
      if first.outcome.Fail? then first
      else AddEntries(first.cache, data[1..], now)
  }

  /** Adding `xs + ys` is adding `xs` and then, if that succeeded, adding `ys`. */
  lemma {:induction false} AddEntriesAppend(c: Cache, xs: seq<Datum>, ys: seq<Datum>, now: Time)
    ensures AddEntries(c, xs + ys, now)
      == (var a := AddEntries(c, xs, now); if a.outcome.Fail? then a else AddEntries(a.cache, ys, now))
    decreases |xs|
  {
    if xs == [] {
      assert xs + ys == ys;
    } else {
      assert (xs + ys)[0] == xs[0];
      assert (xs + ys)[1..] == xs[1..] + ys;
      var first := AddEntry(c, xs[0], now);
      if first.outcome.Pass? {
        AddEntriesAppend(first.cache, xs[1..], ys, now);
      }
    }
  }

  /** Once a record fails to add, nothing after it is added and its error is the result. */
  lemma AddEntriesStopsAtFailure(c: Cache, xs: seq<Datum>, d: Datum, ys: seq<Datum>, now: Time)
    requires AddEntries(c, xs, now).outcome.Pass?
    requires AddEntry(AddEntries(c, xs, now).cache, d, now).outcome.Fail?
    ensures AddEntries(c, xs + [d] + ys, now) == AddEntry(AddEntries(c, xs, now).cache, d, now)
  {
    AddEntriesAppend(c, xs, [d] + ys, now);
    assert xs + [d] + ys == xs + ([d] + ys);
  }

  /** Adding a sequence of records keeps the invariant. */
  lemma {:induction false} AddEntriesInv(c: Cache, data: seq<Datum>, now: Time)
    requires Inv(c)
    ensures Inv(AddEntries(c, data, now).cache)
    decreases |data|
  {
    if data != [] {
      AddEntryInv(c, data[0], now);
      var first := AddEntry(c, data[0], now);
      if first.outcome.Pass? {
        AddEntriesInv(first.cache, data[1..], now);
      }
    }
  }

  /** Deletes `k` from the table's entry map, if it has one, and decrements the counter. */
  function Delete(c: Cache, table: Table, k: Value, now: Time): (r: Cache)
    ensures EntriesOf(r, table) == EntriesOf(c, table) - {k}
    ensures (table in r.entries) == (table in c.entries)
    ensures CountOf(r, table) == Wrap64(CountOf(c, table) - 1)
    ensures r.updated == now && r.created == c.created
    ensures ViewOf(r, table).(entries := None, count := None) == ViewOf(c, table).(entries := None, count := None)
    ensures OthersUnchanged(c, r, table)
  {
    var entries := if table in c.entries then c.entries[table := c.entries[table] - {k}] else c.entries;
    c.(entries := entries, count := c.count[table := Wrap64(CountOf(c, table) - 1)], updated := now)
  }

  /**
   * `RemoveEntry`: reads the key of `data` as `AddEntry` does, deletes that key and
   * decrements the counter whether or not the key was present.
   */
  function RemoveEntry(c: Cache, data: Datum, now: Time): (r: Update)
    ensures data.Nil? ==> r == Update(c, Fail(NilTypePanic))
    ensures !data.Nil? && !IsKeyRegistered(c, PartitionOf(data)) ==> r == Update(c, Fail(NoKeyDefined("remove", PartitionOf(data))))
    ensures r.outcome.Fail? ==> r.cache == c
    ensures r.outcome.Pass? <==> Addable(c, data)
    ensures r.outcome.Pass? ==> r.cache == Delete(c, PartitionOf(data), AddKey(c, data), now)
  {
    if data.Nil? then Update(c, Fail(NilTypePanic))
    else
      var table := PartitionOf(data);
      if !IsKeyRegistered(c, table) then Update(c, Fail(NoKeyDefined("remove", table)))
      else
        match KeyOf(c, data, table, "remove")
        case Failure(e) => Update(c, Fail(e))
        case Success(k) => Update(Delete(c, table, k, now), Pass)
  }

  /** `RemoveByKey`: deletes the given key value from the table; needs only a registered key. */
  function RemoveByKey(c: Cache, table: Table, k: Value, now: Time): (r: Update)
    ensures !IsKeyRegistered(c, table) ==> r == Update(c, Fail(NoKeyDefined("remove", table)))
    ensures IsKeyRegistered(c, table) ==> r == Update(Delete(c, table, k, now), Pass)
    ensures IsKeyRegistered(c, table) ==>
      && EntriesOf(r.cache, table) == EntriesOf(c, table) - {k}
      && CountOf(r.cache, table) == Wrap64(CountOf(c, table) - 1)
      && OthersUnchanged(c, r.cache, table)
  {
    if table !in c.key then Update(c, Fail(NoKeyDefined("remove", table)))
    else if !IsKeyRegistered(c, table) then Update(c, Fail(NoKeyDefined("remove", table)))
    else Update(Delete(c, table, k, now), Pass)
  }

  /** Removing a record is removing its partition's entry under its key value. */
  lemma RemoveEntryIsRemoveByKey(c: Cache, data: Datum, now: Time)
    requires Addable(c, data)
    ensures RemoveEntry(c, data, now) == RemoveByKey(c, PartitionOf(data), AddKey(c, data), now)
  {
  }

  /** Removing an absent key changes no record but still decrements the counter. */
  lemma RemoveAbsentStillCounts(c: Cache, table: Table, k: Value, now: Time)
    requires IsKeyRegistered(c, table) && k !in EntriesOf(c, table)
    ensures EntriesOf(RemoveByKey(c, table, k, now).cache, table) == EntriesOf(c, table)
    ensures CountOf(RemoveByKey(c, table, k, now).cache, table) == Wrap64(CountOf(c, table) - 1)
  {
    assert EntriesOf(c, table) - {k} == EntriesOf(c, table);
  }

  /**
   * Adding a new record and removing it again restores the table's records and, below
   * the wrap-around bound, its counter.
   */
  lemma AddThenRemove(c: Cache, data: Datum, now: Time, later: Time)
    requires Addable(c, data) && PartitionOf(data) in c.entries
    requires AddKey(c, data) !in EntriesOf(c, PartitionOf(data))
    requires CountOf(c, PartitionOf(data)) < MAX_INT64
    ensures RemoveEntry(AddEntry(c, data, now).cache, data, later).outcome.Pass?
    ensures EntriesOf(RemoveEntry(AddEntry(c, data, now).cache, data, later).cache, PartitionOf(data))
      == EntriesOf(c, PartitionOf(data))
    ensures CountOf(RemoveEntry(AddEntry(c, data, now).cache, data, later).cache, PartitionOf(data))
      == CountOf(c, PartitionOf(data))
  {
    var table := PartitionOf(data);
    var k := AddKey(c, data);
    AddedIsAddable(c, data, now);
    var m := EntriesOf(c, table);
    var e := Entry(data, now + AddExpiry(c, table));
    assert m[k := e] - {k} == m;
  }

  /** Removing keeps the invariant. */
  lemma RemoveInv(c: Cache, table: Table, k: Value, now: Time)
    requires Inv(c)
    ensures Inv(Delete(c, table, k, now))
  {
    var r := Delete(c, table, k, now);
    assert r.synchroniser == c.synchroniser && r.tablesActive == c.tablesActive && r.key == c.key;
    if table in c.entries {
      assert r.entries == c.entries[table := c.entries[table] - {k}];
      InvSetEntries(c, r, table, c.entries[table] - {k});
    } else {
      InvKeep(c, r);
    }
  }

  /** `Count`: the stored counter, not the number of records; `DoesNotExist` without an entry map. */
  function Count(c: Cache, table: Table): (r: Result<Int64, CacheError>)
    ensures table !in c.entries ==> r == Failure(DoesNotExist(table))
    ensures table in c.entries ==> r == Success(CountOf(c, table))
  {
    if table !in c.entries then Failure(DoesNotExist(table))
    else Success(CountOf(c, table))
  }

  /** After storing one key twice, `Count` reports two while the table holds one record. */
  lemma CountIsNotSize(c: Cache, data: Datum, now: Time)
    requires Addable(c, data)
    requires EntriesOf(c, PartitionOf(data)) == map[] && CountOf(c, PartitionOf(data)) == 0
    ensures var twice := AddEntry(AddEntry(c, data, now).cache, data, now).cache;
      && Count(twice, PartitionOf(data)) == Success(2)
      && |EntriesOf(twice, PartitionOf(data))| == 1
  {
    AddToEmpty(c, data, now);
    ReplacementStillCounts(AddEntry(c, data, now).cache, data, now);
  }

  /** The first record added to an empty table is its only record and counts one. */
  lemma AddToEmpty(c: Cache, data: Datum, now: Time)
    requires Addable(c, data)
    requires EntriesOf(c, PartitionOf(data)) == map[] && CountOf(c, PartitionOf(data)) == 0
    ensures var once := AddEntry(c, data, now).cache;
      && Addable(once, data) && AddKey(once, data) == AddKey(c, data)
      && PartitionOf(data) in once.entries
      && EntriesOf(once, PartitionOf(data)).Keys == {AddKey(c, data)}
      && CountOf(once, PartitionOf(data)) == 1
  {
    AddedIsAddable(c, data, now);
  }

  /**
   * `Clear` (and `ClearCacheForType` on the table its argument resolves to): empties the
   * table's records and zeroes its counter, keeping its key, flag, indices and callbacks.
   */
  function Clear(c: Cache, table: Table, now: Time): (r: Update)
    ensures table !in c.entries ==> r == Update(c, Fail(DoesNotExist(table)))
    ensures table in c.entries ==>
      && r.outcome.Pass?
      && ViewOf(r.cache, table) == ViewOf(c, table).(entries := Some(map[]), count := Some(0))
      && r.cache.updated == now && r.cache.created == c.created
      && OthersUnchanged(c, r.cache, table)
  {
    if table !in c.entries then Update(c, Fail(DoesNotExist(table)))
    else Update(c.(entries := c.entries[table := map[]], count := c.count[table := 0], updated := now), Pass)
  }

  /**
   * `ClearCacheForType`: `Clear` on the partition of `data`; a nil `data` makes
   * `GetStructType` panic before any map is read.
   */
  function ClearCacheForType(c: Cache, data: Datum, now: Time): (r: Update)
    ensures data.Nil? ==> r == Update(c, Fail(NilTypePanic))
    ensures !data.Nil? && PartitionOf(data) !in c.entries ==> r == Update(c, Fail(DoesNotExist(PartitionOf(data))))
    ensures !data.Nil? && PartitionOf(data) in c.entries ==>
      && r.outcome.Pass?
      && EntriesOf(r.cache, PartitionOf(data)) == map[] && CountOf(r.cache, PartitionOf(data)) == 0
      && IsKeyRegistered(r.cache, PartitionOf(data)) == IsKeyRegistered(c, PartitionOf(data))
      && OthersUnchanged(c, r.cache, PartitionOf(data))
  {
    if data.Nil? then Update(c, Fail(NilTypePanic)) else Clear(c, PartitionOf(data), now)
  }

  /** Clearing twice is the same as clearing once. */
  lemma ClearIdempotent(c: Cache, table: Table, now: Time)
    ensures Clear(Clear(c, table, now).cache, table, now) == Clear(c, table, now)
  {
  }

  /** Clearing keeps the invariant. */
  lemma ClearInv(c: Cache, table: Table, now: Time)
    requires Inv(c)
    ensures Inv(Clear(c, table, now).cache)
  {
    var r := Clear(c, table, now).cache;
    assert r.synchroniser == c.synchroniser && r.tablesActive == c.tablesActive && r.key == c.key;
    if table in c.entries {
      assert r.entries == c.entries[table := map[]];
      InvSetEntries(c, r, table, map[]);
    }
  }

  /** `ClearAllCaches`: every table with an entry map is emptied and its counter zeroed. */
  function ClearAllCaches(c: Cache, now: Time): (r: Cache)
    ensures r.entries.Keys == c.entries.Keys
    ensures forall t | t in r.entries :: r.entries[t] == map[] && CountOf(r, t) == 0
    ensures forall t | t !in c.entries :: CountOf(r, t) == CountOf(c, t)
    ensures r.updated == now && r.created == c.created
    ensures r.tablesActive == c.tablesActive && r.key == c.key && r.indices == c.indices
    ensures r.expiry == c.expiry && r.synchroniser == c.synchroniser && r.hydrator == c.hydrator
  {
    c.(entries := map t | t in c.entries :: map[],
       count := map t | t in c.count.Keys + c.entries.Keys :: if t in c.entries then 0 else c.count[t],
       updated := now)
  }

  /** Clearing everything agrees with `Clear` on each table that has records. */
  lemma ClearAllAgreesWithClear(c: Cache, table: Table, now: Time)
    requires table in c.entries
    ensures ViewOf(ClearAllCaches(c, now), table) == ViewOf(Clear(c, table, now).cache, table)
  {
  }

  /** Clearing everything keeps the invariant. */
  lemma ClearAllInv(c: Cache, now: Time)
    requires Inv(c)
    ensures Inv(ClearAllCaches(c, now))
  {
  }
}
