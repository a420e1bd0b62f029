/**
 * Properties of the cache that span several operations: records added in bulk are all
 * stored, a later record replaces an earlier one with the same key, disabling a table
 * hides its records, expiry is enforced only by the sweep, a filter that two records
 * satisfy is refused by `GetWhere`, and a short session from activation to removal.
 */
module CacheProperties {
  import opened Wrappers
  import opened GoInts
  import opened GoTypes
  import opened Validators
  import opened Enumerations
  import opened CacheModel
  import opened CacheRegistry
  import opened CacheEntries
  import opened CacheQueries
  import opened CacheMaintenance
  import opened CacheHealth

  /**
   * When `AddEntries` succeeds every record could be added, and every record's key is
   * present in its partition afterwards (a later record may have replaced it).
   */
  lemma {:induction false} AddEntriesStoresAll(c: Cache, data: seq<Datum>, now: Time)
    requires AddEntries(c, data, now).outcome.Pass?
    ensures forall i | 0 <= i < |data| ::
      Addable(c, data[i]) && AddKey(c, data[i]) in EntriesOf(AddEntries(c, data, now).cache, PartitionOf(data[i]))
    decreases |data|
  {
    if data != [] {
      var first := AddEntry(c, data[0], now);
      assert first.outcome.Pass?;
      AddedIsAddable(c, data[0], now);
      var rest := data[1..];
      AddEntriesStoresAll(first.cache, rest, now);
      AddEntriesKeepsKeys(first.cache, rest, now, PartitionOf(data[0]), AddKey(c, data[0]));
      forall i | 1 <= i < |data|
        ensures Addable(c, data[i]) && AddKey(c, data[i]) in EntriesOf(AddEntries(c, data, now).cache, PartitionOf(data[i]))
      {
        assert data[i] == rest[i - 1];
      }
    }
  }

  /**
   * Keys are unique within a table: adding a second record under the same key replaces
   * the first, the table gains at most that one key, and `Get` returns the second record.
   */
  lemma SecondAddWins(c: Cache, d1: Datum, d2: Datum, now1: Time, now2: Time)
    requires Addable(c, d1) && Addable(c, d2)
    requires PartitionOf(d1) == PartitionOf(d2) && AddKey(c, d1) == AddKey(c, d2)
    ensures var table, k := PartitionOf(d2), AddKey(c, d2);
      var a := AddEntry(AddEntry(c, d1, now1).cache, d2, now2).cache;
      && EntriesOf(a, table).Keys == EntriesOf(c, table).Keys + {k}
      && EntriesOf(a, table)[k].record == d2
      && Get(a, TypeOf(d2).value, k) == Success(d2)
  {
    var a1 := AddEntry(c, d1, now1).cache;
    AddStores(c, d1, now1);
    AddKeepsAddable(c, d1, d2, now1);
    AddStores(a1, d2, now2);
    GetAfterAdd(a1, d2, now2);
  }

  /** A successful add files the record under its key and leaves the key fields alone. */
  lemma AddStores(c: Cache, d: Datum, now: Time)
    requires Addable(c, d)
    ensures var a, table := AddEntry(c, d, now).cache, PartitionOf(d);
      && a.key == c.key
      && EntriesOf(a, table) == EntriesOf(c, table)[AddKey(c, d) := Entry(d, now + AddExpiry(c, table))]
  {
  }

  /** What could be added before an add still can, under the same key. */
  lemma AddKeepsAddable(c: Cache, d1: Datum, d2: Datum, now: Time)
    requires Addable(c, d1) && Addable(c, d2)
    ensures var a := AddEntry(c, d1, now).cache;
      Addable(a, d2) && AddKey(a, d2) == AddKey(c, d2)
  {
    AddStores(c, d1, now);
  }

  /**
   * A disabled table answers `Get` with "no key defined", whatever it held before:
   * disabling empties the entries and clears the key field.
   */
  lemma DisableHidesRecords(c: Cache, target: GoType, key: Value)
    ensures var table := GetStructType(target);
      && IsDisabled(Disable(c, table), table)
      && Get(Disable(c, table), target, key) == Failure(NoKeyDefined("get", table))
  {
    var table := GetStructType(target);
    assert ViewOf(Disable(c, table), table).key == Some("");
    assert ViewOf(Disable(c, table), table).entries == Some(map[]);
  }

  /**
   * Expiry is lazy: `Get` returns an expired record until the sweep runs, and after the
   * sweep the record is gone.
   */
  lemma ExpiryIsLazy(c: Cache, target: GoType, k: Value, now: Time)
    requires GetStructType(target) in c.entries && IsKeyRegistered(c, GetStructType(target))
    requires k in c.entries[GetStructType(target)]
    requires TypeOf(c.entries[GetStructType(target)][k].record) == Some(target)
    requires now > c.entries[GetStructType(target)][k].expires
    ensures Get(c, target, k) == Success(c.entries[GetStructType(target)][k].record)
    ensures Get(PurgeExpiredEntries(c, now), target, k) == Failure(RecordNotFound(GetStructType(target), k))
  {
    var table := GetStructType(target);
    CoerceIdentity(c.entries[table][k].record, target);
    PurgeEntriesOf(c, now, table);
  }

  /** Records that all have the target type come through `CoerceAll` unchanged. */
  lemma CoerceAllOfTarget(rs: seq<Datum>, target: GoType)
    requires forall i | 0 <= i < |rs| :: TypeOf(rs[i]) == Some(target)
    ensures CoerceAll(rs, target) == Some(rs)
  {
    forall i | 0 <= i < |rs|
      ensures Coerce(rs[i], target) == Some(rs[i])
    {
      CoerceIdentity(rs[i], target);
    }
    CoerceAllSpec(rs, target);
    var r := CoerceAll(rs, target).value;
    assert forall i | 0 <= i < |rs| :: Some(r[i]) == Some(rs[i]);
    assert r == rs;
  }

  /** A visited key whose record matches puts that record among the matches. */
  lemma MatchedKey(m: Entries, order: seq<Value>, index: Field, value: Value, k: Value)
    requires Enumerates(order, m)
    requires k in m && FieldIs(m[k].record, index, value)
    ensures m[k].record in Matches(m, order, index, value)
  {
    var i :| 0 <= i < |order| && order[i] == k;
    MatchesExactly(m, order, index, value, m[k].record);
  }

  /** Every match is a record of the map. */
  lemma MatchesFromMap(m: Entries, order: seq<Value>, index: Field, value: Value)
    requires KeysIn(order, m)
    ensures forall i | 0 <= i < |Matches(m, order, index, value)| ::
      exists k | k in m :: m[k].record == Matches(m, order, index, value)[i]
  {
    var ms := Matches(m, order, index, value);
    forall i | 0 <= i < |ms|
      ensures exists k | k in m :: m[k].record == ms[i]
    {
      MatchesExactly(m, order, index, value, ms[i]);
      var j :| 0 <= j < |order| && m[order[j]].record == ms[i] && FieldIs(ms[i], index, value);
      assert order[j] in m;
    }
  }

  /**
   * Two different records of the target type whose field `index` holds `value` make
   * `GetWhere` refuse the lookup, while `GetAllWhere` returns both.
   */
  lemma AmbiguousFilter(m: Entries, order: seq<Value>, target: GoType, table: Table, index: Field, value: Value, k1: Value, k2: Value)
    requires Enumerates(order, m)
    requires forall k | k in m :: TypeOf(m[k].record) == Some(target)
    requires k1 in m && k2 in m && m[k1].record != m[k2].record
    requires FieldIs(m[k1].record, index, value) && FieldIs(m[k2].record, index, value)
    ensures FirstOnly(Matches(m, order, index, value), target, table, index, value)
      == Failure(MultipleRecordsFound(table, index, value, 2))
    ensures CoerceAll(Matches(m, order, index, value), target) == Some(Matches(m, order, index, value))
    ensures m[k1].record in Matches(m, order, index, value) && m[k2].record in Matches(m, order, index, value)
  {
    var ms := Matches(m, order, index, value);
    MatchedKey(m, order, index, value, k1);
    MatchedKey(m, order, index, value, k2);
    MatchesHaveTarget(m, order, target, index, value);
    assert |ms| >= 2 by {
      TwoMembers(ms, m[k1].record, m[k2].record);
    }
    assert CoerceAll(ms, target) == Some(ms) by {
      CoerceAllOfTarget(ms, target);
    }
    CoerceIdentity(ms[0], target);
    CoerceIdentity(ms[1], target);
  }

  /** Every match of a map whose records all have the target type has that type. */
  lemma MatchesHaveTarget(m: Entries, order: seq<Value>, target: GoType, index: Field, value: Value)
    requires KeysIn(order, m)
    requires forall k | k in m :: TypeOf(m[k].record) == Some(target)
    ensures forall i | 0 <= i < |Matches(m, order, index, value)| ::
      TypeOf(Matches(m, order, index, value)[i]) == Some(target)
  {
    MatchesFromMap(m, order, index, value);
  }

  /** A sequence holding two different elements has at least two. */
  lemma TwoMembers<T>(s: seq<T>, a: T, b: T)
    requires a in s && b in s && a != b
    ensures |s| >= 2
  {
  }

  /** A record of struct type `t` whose key field `key` holds `id` as a value of type `kt`. */
  function Row(t: GoType, key: Field, kt: GoType, id: int): Datum {
    StructV(t, map[key := IntV(kt, id)])
  }

  /** A struct type declared in a package, such as `main.User`. */
  predicate PackageType(t: GoType) {
    t.Named? && t.pkg != ""
  }

  /** Every record of a package type `t` lives in the partition named after `t`. */
  lemma RowPartition(t: GoType, key: Field, kt: GoType, id: int)
    requires PackageType(t)
    ensures PartitionOf(Row(t, key, kt, id)) == t.name
  {
    GetStructTypeQualified(t);
  }

  /** After activation and key registration the table is empty and keyed by `key`. */
  lemma TableReady(c: Cache, table: Table, key: Field)
    requires key != ""
    ensures var c1 := RegisterKey(Activate(c, table), table, key);
      && c1.outcome.Pass? && IsKeyRegistered(c1.cache, table) && c1.cache.key[table] == key
      && table in c1.cache.entries && EntriesOf(c1.cache, table) == map[] && CountOf(c1.cache, table) == 0
  {
    var c0 := Activate(c, table);
    ActivateDisableFlags(c, table);
    RegisterKeyRegisters(c0, table, key);
    var c1 := RegisterKey(c0, table, key);
    assert ViewOf(c1.cache, table).entries == ViewOf(c0, table).entries;
    assert ViewOf(c1.cache, table).count == ViewOf(c0, table).count;
  }

  /** A row can be added to its table keyed by an exported field `key`, under its id. */
  lemma RowAddable(c: Cache, t: GoType, key: Field, kt: GoType, id: int)
    requires PackageType(t) && IsKeyRegistered(c, t.name) && c.key[t.name] == key && Exported(key)
    ensures Addable(c, Row(t, key, kt, id)) && AddKey(c, Row(t, key, kt, id)) == IntV(kt, id)
  {
    RowPartition(t, key, kt, id);
    assert ReadField(Row(t, key, kt, id), key) == Success(IntV(kt, id));
  }

  /** Adding a row stores it under its id, keeps the other records and increments the counter. */
  lemma AddRow(c: Cache, t: GoType, key: Field, kt: GoType, id: int, now: Time)
    requires PackageType(t) && IsKeyRegistered(c, t.name) && c.key[t.name] == key && Exported(key)
    requires t.name in c.entries
    ensures var a := AddEntry(c, Row(t, key, kt, id), now);
      && a.outcome.Pass? && a.cache.key == c.key && t.name in a.cache.entries
      && EntriesOf(a.cache, t.name) == EntriesOf(c, t.name)[IntV(kt, id) := Entry(Row(t, key, kt, id), now + AddExpiry(c, t.name))]
      && CountOf(a.cache, t.name) == Wrap64(CountOf(c, t.name) + 1)
  {
    RowAddable(c, t, key, kt, id);
    RowPartition(t, key, kt, id);
  }

  /** Adding two records whose first is accepted is adding one and then the other. */
  lemma AddEntriesPair(c: Cache, x: Datum, y: Datum, now: Time)
    requires AddEntry(c, x, now).outcome.Pass?
    ensures AddEntries(c, [x, y], now) == AddEntry(AddEntry(c, x, now).cache, y, now)
  {
    assert [x, y][0] == x && [x, y][1..] == [y];
  }

  /** Adding a readable record to its keyed table files it under its key and bumps the counter. */
  lemma AddToKeyed(c: Cache, x: Datum, table: Table, now: Time)
    requires !x.Nil? && PartitionOf(x) == table && IsKeyRegistered(c, table) && table in c.entries
    requires ReadField(x, c.key[table]).Success?
    ensures var a := AddEntry(c, x, now);
      && a.outcome.Pass? && a.cache.key == c.key && table in a.cache.entries
      && EntriesOf(a.cache, table) == EntriesOf(c, table)[ReadField(x, c.key[table]).value := Entry(x, now + AddExpiry(c, table))]
      && CountOf(a.cache, table) == Wrap64(CountOf(c, table) + 1)
  {
    assert Addable(c, x);
  }

  /**
   * Adding two records with different keys to an empty keyed table stores both and counts
   * two.
   */
  lemma AddTwo(c1: Cache, x: Datum, y: Datum, table: Table, now: Time)
    requires !x.Nil? && !y.Nil? && PartitionOf(x) == table && PartitionOf(y) == table
    requires IsKeyRegistered(c1, table) && table in c1.entries && EntriesOf(c1, table) == map[] && CountOf(c1, table) == 0
    requires ReadField(x, c1.key[table]).Success? && ReadField(y, c1.key[table]).Success?
    requires ReadField(x, c1.key[table]).value != ReadField(y, c1.key[table]).value
    ensures var c2 := AddEntries(c1, [x, y], now);
      var kx, ky := ReadField(x, c1.key[table]).value, ReadField(y, c1.key[table]).value;
      && c2.outcome.Pass? && c2.cache.key == c1.key && CountOf(c2.cache, table) == 2
      && table in c2.cache.entries
      && EntriesOf(c2.cache, table).Keys == {kx, ky}
      && EntriesOf(c2.cache, table)[kx].record == x
      && EntriesOf(c2.cache, table)[ky].record == y
  {
    AddToKeyed(c1, x, table, now);
    AddEntriesPair(c1, x, y, now);
    AddSecond(c1, AddEntry(c1, x, now).cache, x, y, table, now);
  }

  /** The second add of `AddTwo`: the table holds `x` alone, and `y` joins it. */
  lemma AddSecond(c1: Cache, a1: Cache, x: Datum, y: Datum, table: Table, now: Time)
    requires !y.Nil? && PartitionOf(y) == table && IsKeyRegistered(c1, table)
    requires a1.key == c1.key && table in a1.entries && CountOf(a1, table) == 1
    requires ReadField(x, c1.key[table]).Success? && ReadField(y, c1.key[table]).Success?
    requires ReadField(x, c1.key[table]).value != ReadField(y, c1.key[table]).value
    requires EntriesOf(a1, table).Keys == {ReadField(x, c1.key[table]).value}
    requires EntriesOf(a1, table)[ReadField(x, c1.key[table]).value].record == x
    ensures var c2 := AddEntry(a1, y, now);
      var kx, ky := ReadField(x, c1.key[table]).value, ReadField(y, c1.key[table]).value;
      && c2.outcome.Pass? && c2.cache.key == c1.key && CountOf(c2.cache, table) == 2
      && table in c2.cache.entries
      && EntriesOf(c2.cache, table).Keys == {kx, ky}
      && EntriesOf(c2.cache, table)[kx].record == x
      && EntriesOf(c2.cache, table)[ky].record == y
  {
    AddToKeyed(a1, y, table, now);
    assert Wrap64(1 + 1) == 2;
  }

  /** Adding two rows with ids 1 and 2 to the empty table stores both and counts two. */
  lemma AddTwoRows(c1: Cache, t: GoType, key: Field, kt: GoType, now: Time)
    requires PackageType(t) && IsKeyRegistered(c1, t.name) && c1.key[t.name] == key && Exported(key)
    requires t.name in c1.entries && EntriesOf(c1, t.name) == map[] && CountOf(c1, t.name) == 0
    ensures var c2 := AddEntries(c1, [Row(t, key, kt, 1), Row(t, key, kt, 2)], now);
      && c2.outcome.Pass? && c2.cache.key == c1.key && CountOf(c2.cache, t.name) == 2
      && t.name in c2.cache.entries
      && EntriesOf(c2.cache, t.name).Keys == {IntV(kt, 1), IntV(kt, 2)}
      && EntriesOf(c2.cache, t.name)[IntV(kt, 1)].record == Row(t, key, kt, 1)
      && EntriesOf(c2.cache, t.name)[IntV(kt, 2)].record == Row(t, key, kt, 2)
  {
    var ann, bob := Row(t, key, kt, 1), Row(t, key, kt, 2);
    RowAddable(c1, t, key, kt, 1);
    RowPartition(t, key, kt, 2);
    assert ReadField(bob, key) == Success(IntV(kt, 2));
    AddTwo(c1, ann, bob, t.name, now);
  }

  /** With both rows stored, removing the first leaves the second, readable, and counts one. */
  lemma RemoveFirstRow(c2: Cache, t: GoType, key: Field, kt: GoType, now: Time)
    requires PackageType(t) && IsKeyRegistered(c2, t.name) && CountOf(c2, t.name) == 2
    requires t.name in c2.entries && EntriesOf(c2, t.name).Keys == {IntV(kt, 1), IntV(kt, 2)}
    requires EntriesOf(c2, t.name)[IntV(kt, 2)].record == Row(t, key, kt, 2)
    ensures var c3 := RemoveByKey(c2, t.name, IntV(kt, 1), now);
      && c3.outcome.Pass?
      && Count(c3.cache, t.name) == Success(1)
      && Get(c3.cache, t, IntV(kt, 1)) == Failure(RecordNotFound(t.name, IntV(kt, 1)))
      && Get(c3.cache, t, IntV(kt, 2)) == Success(Row(t, key, kt, 2))
  {
    GetStructTypeQualified(t);
    assert Wrap64(2 - 1) == 1;
    CoerceIdentity(Row(t, key, kt, 2), t);
  }

  /**
   * Keys and filter values are compared together with their Go type: with the rows keyed
   * by values of type `kt`, the same number as a value of another type `u` (an `int` 1
   * against an `int64` key field) finds no record, removes none while the counter still
   * drops, and matches no record.
   */
  lemma OtherKeyTypeMisses(c2: Cache, t: GoType, key: Field, kt: GoType, u: GoType, order: seq<Value>, now: Time)
    requires PackageType(t) && IsKeyRegistered(c2, t.name) && CountOf(c2, t.name) == 2 && u != kt
    requires t.name in c2.entries && EntriesOf(c2, t.name).Keys == {IntV(kt, 1), IntV(kt, 2)}
    requires EntriesOf(c2, t.name)[IntV(kt, 1)].record == Row(t, key, kt, 1)
    requires EntriesOf(c2, t.name)[IntV(kt, 2)].record == Row(t, key, kt, 2)
    ensures Get(c2, t, IntV(u, 1)) == Failure(RecordNotFound(t.name, IntV(u, 1)))
    ensures var c3 := RemoveByKey(c2, t.name, IntV(u, 1), now);
      && c3.outcome.Pass? && EntriesOf(c3.cache, t.name) == EntriesOf(c2, t.name)
      && Count(c3.cache, t.name) == Success(1)
    ensures Matches(c2.entries[t.name], order, key, IntV(u, 1)) == []
  {
    GetStructTypeQualified(t);
    assert Wrap64(2 - 1) == 1;
    var m := c2.entries[t.name];
    assert !FieldIs(Row(t, key, kt, 1), key, IntV(u, 1));
    assert !FieldIs(Row(t, key, kt, 2), key, IntV(u, 1));
    NoHolderNoMatches(m, order, key, IntV(u, 1));
  }

  /**
   * A key field whose name is not exported (`id` rather than `ID`) is found by
   * `FieldByName`, but reading it through `Interface()` panics: adding or removing a row
   * of such a table fails that way and changes nothing.
   */
  lemma UnexportedKeyPanics(c: Cache, t: GoType, key: Field, kt: GoType, id: int, now: Time)
    requires PackageType(t) && IsKeyRegistered(c, t.name) && c.key[t.name] == key && !Exported(key)
    ensures AddEntry(c, Row(t, key, kt, id), now) == Update(c, Fail(UnexportedFieldPanic("add", t.name, key)))
    ensures RemoveEntry(c, Row(t, key, kt, id), now) == Update(c, Fail(UnexportedFieldPanic("remove", t.name, key)))
  {
    RowPartition(t, key, kt, id);
  }

  /**
   * A session on a table such as `main.User`: activate it, register its key field, add
   * two rows, read the first back, remove it by key; the counter follows each step.
   */
  lemma Session(c: Cache, t: GoType, key: Field, kt: GoType, now: Time)
    requires PackageType(t) && Exported(key)
    ensures var table := t.name;
      var c1 := RegisterKey(Activate(c, table), table, key);
      var c2 := AddEntries(c1.cache, [Row(t, key, kt, 1), Row(t, key, kt, 2)], now);
      var c3 := RemoveByKey(c2.cache, table, IntV(kt, 1), now);
      && c1.outcome.Pass? && c2.outcome.Pass? && c3.outcome.Pass?
      && Get(c2.cache, t, IntV(kt, 1)) == Success(Row(t, key, kt, 1))
      && Count(c2.cache, table) == Success(2)
      && Count(c3.cache, table) == Success(1)
      && Get(c3.cache, t, IntV(kt, 1)) == Failure(RecordNotFound(table, IntV(kt, 1)))
      && Get(c3.cache, t, IntV(kt, 2)) == Success(Row(t, key, kt, 2))
  {
    GetStructTypeQualified(t);
    TableReady(c, t.name, key);
    var c1 := RegisterKey(Activate(c, t.name), t.name, key).cache;
    AddTwoRows(c1, t, key, kt, now);
    var c2 := AddEntries(c1, [Row(t, key, kt, 1), Row(t, key, kt, 2)], now).cache;
    CoerceIdentity(Row(t, key, kt, 1), t);
    RemoveFirstRow(c2, t, key, kt, now);
  }
}
