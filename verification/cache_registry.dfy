/**
 * Lifecycle and registration of cache tables (dao/cache/cache.go:24-161, 566-591):
 * activation, disabling, expiry, key field, index list, hydrator and synchroniser.
 * The Go functions take a `data any` argument only to name its partition with
 * `GetStructType`; here they take that partition name, `table`, directly.
 */
module CacheRegistry {
  import opened Wrappers
  import opened GoTypes
  import opened Validators
  import opened CacheModel

  /** `IsEnabled`: the table's active flag, `false` for a table never seen. */
  function IsEnabled(c: Cache, table: Table): (r: bool)
    ensures r <==> ViewOf(c, table).active == Some(true)
  {
    if table !in c.tablesActive then false else c.tablesActive[table]
  }

  /** `IsDisabled`: `true` for a table never seen. */
  function IsDisabled(c: Cache, table: Table): (r: bool)
    ensures r <==> !IsEnabled(c, table)
  {
    if table !in c.tablesActive then true else !c.tablesActive[table]
  }

  /**
   * `IsInitialised`: reads the same flag as `IsEnabled`; `IsDeInitialised` is `IsDisabled`
   * under another name, so the two always disagree.
   */
  function IsInitialised(c: Cache, table: Table): (r: bool)
    ensures r <==> table in c.tablesActive && c.tablesActive[table]
    ensures r == IsEnabled(c, table) && r != IsDisabled(c, table)
  {
    table in c.tablesActive && c.tablesActive[table]
  }

  /** A table the cache has never seen is reported disabled and not enabled. */
  lemma NeverSeenIsDisabled(c: Cache, table: Table)
    requires table !in c.tablesActive
    ensures !IsEnabled(c, table) && IsDisabled(c, table)
  {
  }

  /**
   * `Activate`: the table becomes active with empty entries, indices and key, a zero
   * count, the default expiry and nil hydrator and synchroniser; no other table changes.
   */
  function Activate(c: Cache, table: Table): (r: Cache)
    ensures ViewOf(r, table)
      == View(Some(true), Some(""), Some([]), Some(map[]), Some(0), Some(DEFAULT_EXPIRY), Some(None), Some(None))
    ensures OthersUnchanged(c, r, table)
    ensures r.created == c.created && r.updated == c.updated
  {
    c.(tablesActive := c.tablesActive[table := true],
       entries := c.entries[table := map[]],
       indices := c.indices[table := []],
       key := c.key[table := ""],
       count := c.count[table := 0],
       expiry := c.expiry[table := DEFAULT_EXPIRY],
       synchroniser := c.synchroniser[table := None],
       hydrator := c.hydrator[table := None])
  }

  /**
   * `Disable` (and `DeInitialise`): the table becomes inactive and loses its entries,
   * indices and key; its count, expiry and callbacks are kept; no other table changes.
   */
  function Disable(c: Cache, table: Table): (r: Cache)
    ensures ViewOf(r, table)
      == ViewOf(c, table).(active := Some(false), key := Some(""), indices := Some([]), entries := Some(map[]))
    ensures OthersUnchanged(c, r, table)
    ensures r.created == c.created && r.updated == c.updated
  {
    c.(tablesActive := c.tablesActive[table := false],
       entries := c.entries[table := map[]],
       indices := c.indices[table := []],
       key := c.key[table := ""])
  }

  /** Activation enables a table and disabling disables it. */
  lemma ActivateDisableFlags(c: Cache, table: Table)
    ensures IsEnabled(Activate(c, table), table)
    ensures IsDisabled(Disable(c, table), table)
    ensures !IsKeyRegistered(Activate(c, table), table) && !IsKeyRegistered(Disable(c, table), table)
  {
    assert ViewOf(Activate(c, table), table).key == Some("");
    assert ViewOf(Disable(c, table), table).key == Some("");
  }

  /** `RegisterExpiry`: sets the table's expiry; on an inactive table fails and changes nothing. */
  function RegisterExpiry(c: Cache, table: Table, d: Duration): (r: Update)
    ensures !IsEnabled(c, table) ==> r == Update(c, Fail(NotEnabled("set expiry", table)))
    ensures IsEnabled(c, table) ==>
      && r.outcome.Pass?
      && ViewOf(r.cache, table) == ViewOf(c, table).(expiry := Some(d))
      && OthersUnchanged(c, r.cache, table)
    ensures r.cache.created == c.created && r.cache.updated == c.updated
  {
    if !IsEnabled(c, table) then Update(c, Fail(NotEnabled("set expiry", table)))
    else Update(c.(expiry := c.expiry[table := d]), Pass)
  }

  /** `GetExpiry`: the table's expiry (zero when never set), or `NotEnabled` on an inactive table. */
  function GetExpiry(c: Cache, table: Table): (r: Result<Duration, CacheError>)
    ensures r.Success? <==> IsEnabled(c, table)
    ensures r.Success? ==> r.value == ExpiryOf(c, table)
    ensures r.Failure? ==> r.error == NotEnabled("get expiry", table)
  {
    if !IsEnabled(c, table) then Failure(NotEnabled("get expiry", table))
    else Success(ExpiryOf(c, table))
  }

  /** Registering an expiry on an active table and reading it back gives that expiry. */
  lemma ExpiryRoundTrip(c: Cache, table: Table, d: Duration)
    requires IsEnabled(c, table)
    ensures GetExpiry(RegisterExpiry(c, table, d).cache, table) == Success(d)
  {
    assert ViewOf(RegisterExpiry(c, table, d).cache, table).active == ViewOf(c, table).active;
  }

  /** `RegisterKey`: sets the table's key field; on an inactive table fails and changes nothing. */
  function RegisterKey(c: Cache, table: Table, key: Field): (r: Update)
    ensures !IsEnabled(c, table) ==> r == Update(c, Fail(NotEnabled("add key", table)))
    ensures IsEnabled(c, table) ==>
      && r.outcome.Pass?
      && ViewOf(r.cache, table) == ViewOf(c, table).(key := Some(key))
      && OthersUnchanged(c, r.cache, table)
    ensures r.cache.created == c.created && r.cache.updated == c.updated
  {
    if !IsEnabled(c, table) then Update(c, Fail(NotEnabled("add key", table)))
    else Update(c.(key := c.key[table := key]), Pass)
  }

  /** After a successful registration of a non-empty key the table's key is registered. */
  lemma RegisterKeyRegisters(c: Cache, table: Table, key: Field)
    requires IsEnabled(c, table) && key != ""
    ensures IsKeyRegistered(RegisterKey(c, table, key).cache, table)
    ensures RegisterKey(c, table, key).cache.key[table] == key
  {
    assert ViewOf(RegisterKey(c, table, key).cache, table).key == Some(key);
  }

  /** The position of the first occurrence of `f`, or `|s|` when it does not occur. */
  function FirstIndex(s: seq<Field>, f: Field): (i: nat)
    ensures i <= |s|
    ensures i < |s| <==> f in s
    ensures i < |s| ==> s[i] == f
    ensures f !in s[..i]
  {
    if s == [] then 0
    else if s[0] == f then 0
    else
      var i := FirstIndex(s[1..], f);
      assert s[..i + 1] == [s[0]] + s[1..][..i];
      i + 1
  }

  /**
   * `RegisterIndex`: appends the field to the table's index list unless it is already
   * listed, which is a successful no-op; an inactive table fails and nothing changes.
   */
  function RegisterIndex(c: Cache, table: Table, f: Field): (r: Update)
    ensures !IsEnabled(c, table) ==> r == Update(c, Fail(NotEnabled("add index", table)))
    ensures IsEnabled(c, table) && f in IndicesOf(c, table) ==> r == Update(c, Pass)
    ensures IsEnabled(c, table) && f !in IndicesOf(c, table) ==>
      && r.outcome.Pass?
      && ViewOf(r.cache, table) == ViewOf(c, table).(indices := Some(IndicesOf(c, table) + [f]))
      && OthersUnchanged(c, r.cache, table)
  {
    if !IsEnabled(c, table) then Update(c, Fail(NotEnabled("add index", table)))
    else
      var list := IndicesOf(c, table);
      if FirstIndex(list, f) < |list| then Update(c, Pass)
      else Update(c.(indices := c.indices[table := list + [f]]), Pass)
  }

  /**
   * `RemoveIndex`: deletes the first occurrence of the field from the table's index list;
   * an absent field is a successful no-op; an inactive table fails and nothing changes.
   */
  function RemoveIndex(c: Cache, table: Table, f: Field): (r: Update)
    ensures !IsEnabled(c, table) ==> r == Update(c, Fail(NotEnabled("remove index", table)))
    ensures IsEnabled(c, table) && f !in IndicesOf(c, table) ==> r == Update(c, Pass)
    ensures IsEnabled(c, table) && f in IndicesOf(c, table) ==>
      var s := IndicesOf(c, table);
      exists i | 0 <= i < |s| :: s[i] == f && f !in s[..i]
        && r.outcome.Pass?
        && ViewOf(r.cache, table) == ViewOf(c, table).(indices := Some(s[..i] + s[i + 1..]))
        && OthersUnchanged(c, r.cache, table)
  {
    if !IsEnabled(c, table) then Update(c, Fail(NotEnabled("remove index", table)))
    else
      var list := IndicesOf(c, table);
      var i := FirstIndex(list, f);
      if i == |list| then Update(c, Pass)
      else Update(c.(indices := c.indices[table := list[..i] + list[i + 1..]]), Pass)
  }

  /** Registering an index twice is the same as registering it once. */
  lemma RegisterIndexIdempotent(c: Cache, table: Table, f: Field)
    ensures RegisterIndex(RegisterIndex(c, table, f).cache, table, f) == Update(RegisterIndex(c, table, f).cache, Pass)
      || !IsEnabled(c, table)
  {
    if IsEnabled(c, table) {
      var d := RegisterIndex(c, table, f).cache;
      assert ViewOf(d, table).active == ViewOf(c, table).active;
      assert f in IndicesOf(d, table) by {
        if f !in IndicesOf(c, table) {
          assert ViewOf(d, table).indices == Some(IndicesOf(c, table) + [f]);
          assert IndicesOf(d, table) == IndicesOf(c, table) + [f];
        }
      }
    }
  }

  /** Removing a freshly registered index restores the previous index list. */
  lemma RemoveUndoesRegister(c: Cache, table: Table, f: Field)
    requires IsEnabled(c, table) && f !in IndicesOf(c, table)
    ensures IndicesOf(RemoveIndex(RegisterIndex(c, table, f).cache, table, f).cache, table) == IndicesOf(c, table)
  {
    var s := IndicesOf(c, table);
    var d := RegisterIndex(c, table, f).cache;
    assert d == c.(indices := c.indices[table := s + [f]]);
    assert IsEnabled(d, table) && IndicesOf(d, table) == s + [f];
    RemoveAppended(s, f);
  }

  /** The first occurrence of a field appended to a list without it is the last slot. */
  lemma RemoveAppended(s: seq<Field>, f: Field)
    requires f !in s
    ensures FirstIndex(s + [f], f) == |s|
    ensures (s + [f])[..|s|] + (s + [f])[|s| + 1..] == s
  {
    assert (s + [f])[..|s|] == s;
  }

  /**
   * `RegisterHydrator`: records the hydrator for the value's partition; nil data is
   * ignored. Other tables and every other map are left alone.
   */
  function RegisterHydrator(c: Cache, data: Datum, h: Option<FuncId>): (r: Cache)
    ensures data.Nil? ==> r == c
    ensures !data.Nil? ==>
      && ViewOf(r, PartitionOf(data)) == ViewOf(c, PartitionOf(data)).(hydrator := Some(h))
      && OthersUnchanged(c, r, PartitionOf(data))
  {
    if data.Nil? then c
    else c.(hydrator := c.hydrator[PartitionOf(data) := h])
  }

  /**
   * `RegisterSynchroniser`: replaces the whole synchroniser map by one holding only this
   * table's function, so every other table loses its synchroniser.
   */
  function RegisterSynchroniser(c: Cache, table: Table, s: Option<FuncId>): (r: Cache)
    ensures forall u :: ViewOf(r, u).synchroniser == (if u == table then Some(s) else None)
    ensures forall u :: ViewOf(r, u).(synchroniser := None) == ViewOf(c, u).(synchroniser := None)
  {
    c.(synchroniser := map[table := s])
  }

  /** Registering a synchroniser for a second table removes the first table's synchroniser. */
  lemma SecondSynchroniserReplacesFirst(c: Cache, t1: Table, t2: Table, s1: Option<FuncId>, s2: Option<FuncId>)
    requires t1 != t2
    ensures t1 !in RegisterSynchroniser(RegisterSynchroniser(c, t1, s1), t2, s2).synchroniser
  {
    assert ViewOf(RegisterSynchroniser(RegisterSynchroniser(c, t1, s1), t2, s2), t1).synchroniser == None;
  }

  // ---------------------------------------------------------------- invariant

  /** Activation keeps the invariant. */
  lemma ActivateInv(c: Cache, table: Table)
    requires Inv(c)
    ensures Inv(Activate(c, table))
  {
    var a := Activate(c, table);
    assert a.entries == c.entries[table := map[]];
    assert a.synchroniser == c.synchroniser[table := None];
    InvSetEntries(c, a, table, map[]);
  }

  /** Disabling keeps the invariant. */
  lemma DisableInv(c: Cache, table: Table)
    requires Inv(c)
    ensures Inv(Disable(c, table))
  {
    var d := Disable(c, table);
    assert d.entries == c.entries[table := map[]] && d.synchroniser == c.synchroniser;
    InvSetEntries(c, d, table, map[]);
  }

  /** Registering an expiry keeps the invariant. */
  lemma RegisterExpiryInv(c: Cache, table: Table, d: Duration)
    requires Inv(c)
    ensures Inv(RegisterExpiry(c, table, d).cache)
  {
    var r := RegisterExpiry(c, table, d).cache;
    assert r.entries == c.entries && r.synchroniser == c.synchroniser;
    assert r.tablesActive == c.tablesActive && r.key == c.key;
    InvKeep(c, r);
  }

  /** Registering a key keeps the invariant: only an active table, which has entries, gets one. */
  lemma RegisterKeyInv(c: Cache, table: Table, f: Field)
    requires Inv(c)
    ensures Inv(RegisterKey(c, table, f).cache)
  {
    var r := RegisterKey(c, table, f).cache;
    assert r.entries == c.entries && r.synchroniser == c.synchroniser;
    assert r.tablesActive == c.tablesActive;
    assert r.key.Keys <= c.key.Keys + {table};
    InvKeep(c, r);
  }

  /** Registering or removing an index keeps the invariant. */
  lemma IndexInv(c: Cache, table: Table, f: Field)
    requires Inv(c)
    ensures Inv(RegisterIndex(c, table, f).cache) && Inv(RemoveIndex(c, table, f).cache)
  {
    var r := RegisterIndex(c, table, f).cache;
    assert r.entries == c.entries && r.synchroniser == c.synchroniser;
    assert r.tablesActive == c.tablesActive && r.key == c.key;
    InvKeep(c, r);
    var s := RemoveIndex(c, table, f).cache;
    assert s.entries == c.entries && s.synchroniser == c.synchroniser;
    assert s.tablesActive == c.tablesActive && s.key == c.key;
    InvKeep(c, s);
  }

  /** Registering a hydrator keeps the invariant. */
  lemma RegisterHydratorInv(c: Cache, data: Datum, h: Option<FuncId>)
    requires Inv(c)
    ensures Inv(RegisterHydrator(c, data, h))
  {
    var r := RegisterHydrator(c, data, h);
    assert r.entries == c.entries && r.synchroniser == c.synchroniser;
    assert r.tablesActive == c.tablesActive && r.key == c.key;
    InvKeep(c, r);
  }

  /** Registering a synchroniser keeps the invariant: the new map has a single entry. */
  lemma RegisterSynchroniserInv(c: Cache, table: Table, s: Option<FuncId>)
    requires Inv(c)
    ensures Inv(RegisterSynchroniser(c, table, s))
  {
    var r := RegisterSynchroniser(c, table, s);
    assert r == c.(synchroniser := map[table := s]);
  }
}
