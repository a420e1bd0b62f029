/**
 * Hydrating tables from their loaders and pushing cached records to their synchronisers
 * (dao/cache/cache.go:51-59, 593-760).
 *
 * The registered functions are opaque identifiers; what calling one returns is given as
 * an oracle parameter: `hydrate(f)` is the records or the error hydrator `f` returns, and
 * `sync(f, d)` is the outcome of calling synchroniser `f` on record `d`.
 */
module CacheMaintenance {
  import opened Wrappers
  import opened GoInts
  import opened GoTypes
  import opened Validators
  import opened Enumerations
  import opened CacheModel
  import opened CacheRegistry
  import opened CacheEntries
  import opened CacheQueries

  /** What calling hydrator `f` returns: the records it loaded, or its error message. */
  type HydrateOracle = FuncId -> Result<seq<Datum>, string>

  /** What calling synchroniser `f` on a record returns. */
  type SyncOracle = (FuncId, Datum) -> Outcome<string>

  /** `turnOffForTable` and `turnOnForTable`: set the table's active flag. */
  function SetActive(c: Cache, table: Table, on: bool): (r: Cache)
    ensures ViewOf(r, table) == ViewOf(c, table).(active := Some(on))
    ensures OthersUnchanged(c, r, table)
    ensures r.created == c.created && r.updated == c.updated
  {
    c.(tablesActive := c.tablesActive[table := on])
  }

  /**
   * `hydrateCacheByTable` (and `Hydrate`): after the table, key and hydrator checks, the
   * table is switched off while its hydrator runs. A failing hydrator leaves it off;
   * otherwise it is switched back on and the records are added in order, without clearing
   * the table first, stopping at the first record that fails to add.
   */
  function HydrateTable(c: Cache, table: Table, hydrate: HydrateOracle, now: Time): (r: Update)
    ensures table !in c.entries ==> r == Update(c, Fail(DoesNotExist(table)))
    ensures table in c.entries && !IsKeyRegistered(c, table) ==> r == Update(c, Fail(NoKeyDefined("hydrate", table)))
    ensures table in c.entries && IsKeyRegistered(c, table) && (table !in c.hydrator || c.hydrator[table].None?)
      ==> r == Update(c, Fail(NoHydrator(table)))
    ensures table in c.entries && IsKeyRegistered(c, table) && table in c.hydrator && c.hydrator[table].Some?
      && hydrate(c.hydrator[table].value).Failure?
      ==> r == Update(SetActive(c, table, false), Fail(CallbackFailed(hydrate(c.hydrator[table].value).error)))
    ensures table in c.entries && IsKeyRegistered(c, table) && table in c.hydrator && c.hydrator[table].Some?
      && hydrate(c.hydrator[table].value).Success?
      ==> r == AddEntries(SetActive(c, table, true), hydrate(c.hydrator[table].value).value, now)
  {
    if table !in c.entries then Update(c, Fail(DoesNotExist(table)))
    else if !IsKeyRegistered(c, table) then Update(c, Fail(NoKeyDefined("hydrate", table)))
    else if table !in c.hydrator || c.hydrator[table].None? then Update(c, Fail(NoHydrator(table)))
    else
      match hydrate(c.hydrator[table].value)
      case Failure(msg) => Update(SetActive(c, table, false), Fail(CallbackFailed(msg)))
      case Success(records) => AddEntries(SetActive(c, table, true), records, now)
  }

  /** Adding records never removes a key from any table: hydration does not clear. */
  lemma {:induction false} AddEntriesKeepsKeys(c: Cache, data: seq<Datum>, now: Time, t: Table, k: Value)
    requires k in EntriesOf(c, t)
    ensures k in EntriesOf(AddEntries(c, data, now).cache, t)
    decreases |data|
  {
    if data != [] {
      var first := AddEntry(c, data[0], now);
      if first.outcome.Pass? {
        var table := PartitionOf(data[0]);
        if t != table {
          assert EntriesOf(first.cache, t) == EntriesOf(c, t) by {
            assert ViewOf(first.cache, t) == ViewOf(c, t);
          }
        }
        AddEntriesKeepsKeys(first.cache, data[1..], now, t, k);
      }
    }
  }

  /** Adding records never changes the key fields or the hydrators, and switches no table off. */
  lemma {:induction false} AddEntriesKeepsSetup(c: Cache, data: seq<Datum>, now: Time)
    ensures var r := AddEntries(c, data, now).cache;
      && r.key == c.key && r.hydrator == c.hydrator
      && (forall t | IsEnabled(c, t) :: IsEnabled(r, t))
    decreases |data|
  {
    if data != [] {
      var first := AddEntry(c, data[0], now);
      if first.outcome.Pass? {
        var table := PartitionOf(data[0]);
        forall t | IsEnabled(c, t)
          ensures IsEnabled(first.cache, t)
        {
          if t != table {
            assert ViewOf(first.cache, t) == ViewOf(c, t);
          }
        }
        AddEntriesKeepsSetup(first.cache, data[1..], now);
      }
    }
  }

  /** A successful hydration keeps every record the table already held. */
  lemma HydrateKeepsRecords(c: Cache, table: Table, hydrate: HydrateOracle, now: Time, k: Value)
    requires k in EntriesOf(c, table)
    ensures HydrateTable(c, table, hydrate, now).outcome.Pass? ==> k in EntriesOf(HydrateTable(c, table, hydrate, now).cache, table)
  {
    if table in c.entries && IsKeyRegistered(c, table) && table in c.hydrator && c.hydrator[table].Some? {
      match hydrate(c.hydrator[table].value)
      case Failure(_) =>
      case Success(records) =>
        var on := SetActive(c, table, true);
        assert EntriesOf(on, table) == EntriesOf(c, table);
        AddEntriesKeepsKeys(on, records, now, table, k);
    }
  }

  /** A hydrator that fails leaves the table switched off and its records untouched. */
  lemma HydrateFailureLeavesTableOff(c: Cache, table: Table, hydrate: HydrateOracle, now: Time)
    requires table in c.entries && IsKeyRegistered(c, table) && table in c.hydrator && c.hydrator[table].Some?
    requires hydrate(c.hydrator[table].value).Failure?
    ensures IsDisabledAfter(HydrateTable(c, table, hydrate, now).cache, table)
    ensures EntriesOf(HydrateTable(c, table, hydrate, now).cache, table) == EntriesOf(c, table)
  {
  }

  /** The table's active flag is present and false. */
  predicate IsDisabledAfter(c: Cache, table: Table) {
    table in c.tablesActive && !c.tablesActive[table]
  }

  /** Hydration keeps the invariant, whatever the hydrator returns. */
  lemma HydrateInv(c: Cache, table: Table, hydrate: HydrateOracle, now: Time)
    requires Inv(c)
    ensures Inv(HydrateTable(c, table, hydrate, now).cache)
  {
    if table in c.entries && IsKeyRegistered(c, table) && table in c.hydrator && c.hydrator[table].Some? {
      InvKeep(c, SetActive(c, table, false));
      var on := SetActive(c, table, true);
      InvKeep(c, on);
      match hydrate(c.hydrator[table].value)
      case Failure(_) =>
      case Success(records) => AddEntriesInv(on, records, now);
    }
  }

  /**
   * One hydration keeps the key fields, the hydrators and every earlier record, and
   * switches no other table off; when it succeeds its table is on and its hydrator
   * returned records.
   */
  lemma HydrateTableFacts(c: Cache, table: Table, hydrate: HydrateOracle, now: Time)
    ensures var u := HydrateTable(c, table, hydrate, now);
      && u.cache.key == c.key && u.cache.hydrator == c.hydrator
      && (forall t | t != table && IsEnabled(c, t) :: IsEnabled(u.cache, t))
      && (forall t, k | k in EntriesOf(c, t) :: k in EntriesOf(u.cache, t))
      && (u.outcome.Pass? ==>
            IsEnabled(u.cache, table) && table in c.hydrator && c.hydrator[table].Some?
            && hydrate(c.hydrator[table].value).Success?)
  {
    if table in c.entries && IsKeyRegistered(c, table) && table in c.hydrator && c.hydrator[table].Some? {
      var off := SetActive(c, table, false);
      forall t | t != table && IsEnabled(c, t)
        ensures IsEnabled(off, t)
      {
        assert ViewOf(off, t) == ViewOf(c, t);
      }
      forall t, k | k in EntriesOf(c, t)
        ensures k in EntriesOf(off, t)
      {
        assert ViewOf(off, t).entries == ViewOf(c, t).entries;
      }
      match hydrate(c.hydrator[table].value)
      case Failure(_) =>
      case Success(records) =>
        var on := SetActive(c, table, true);
        assert IsEnabled(on, table);
        forall t | t != table && IsEnabled(c, t)
          ensures IsEnabled(on, t)
        {
          assert ViewOf(on, t) == ViewOf(c, t);
        }
        AddEntriesKeepsSetup(on, records, now);
        forall t, k | k in EntriesOf(c, t)
          ensures k in EntriesOf(AddEntries(on, records, now).cache, t)
        {
          assert ViewOf(on, t).entries == ViewOf(c, t).entries;
          AddEntriesKeepsKeys(on, records, now, t, k);
        }
    }
  }

  /** `HydrateForType`: nil data is refused; otherwise its partition is hydrated. */
  function HydrateForType(c: Cache, data: Datum, hydrate: HydrateOracle, now: Time): (r: Update)
    ensures data.Nil? ==> r == Update(c, Fail(NilData("hydrate")))
    ensures !data.Nil? ==> r == HydrateTable(c, PartitionOf(data), hydrate, now)
  {
    if data.Nil? then Update(c, Fail(NilData("hydrate")))
    else HydrateTable(c, PartitionOf(data), hydrate, now)
  }

  /**
   * The loop of `HydrateAll` over the hydrator map `hs` as it stood when the loop began:
   * tables with a nil hydrator are skipped, the others hydrated in turn, stopping at the
   * first failure.
   */
  function HydrateTables(c: Cache, hs: map<Table, Option<FuncId>>, order: seq<Table>,
                         hydrate: HydrateOracle, now: Time): (r: Update)
    ensures order == [] ==> r == Update(c, Pass)
    decreases |order|
  {
    if order == [] then Update(c, Pass)
    else if order[0] !in hs || hs[order[0]].None? then HydrateTables(c, hs, order[1..], hydrate, now)
    else
      var u := HydrateTable(c, order[0], hydrate, now);
      if u.outcome.Fail? then u else HydrateTables(u.cache, hs, order[1..], hydrate, now)
  }

  /** Hydrating the tables of `xs + ys` is hydrating `xs` and then, if that succeeded, `ys`. */
  lemma {:induction false} HydrateTablesAppend(c: Cache, hs: map<Table, Option<FuncId>>, xs: seq<Table>, ys: seq<Table>,
                                               hydrate: HydrateOracle, now: Time)
    ensures HydrateTables(c, hs, xs + ys, hydrate, now)
      == (var a := HydrateTables(c, hs, xs, hydrate, now);
          if a.outcome.Fail? then a else HydrateTables(a.cache, hs, ys, hydrate, now))
    decreases |xs|
  {
    if xs == [] {
      assert xs + ys == ys;
    } else {
      assert (xs + ys)[0] == xs[0];
      assert (xs + ys)[1..] == xs[1..] + ys;
      if xs[0] !in hs || hs[xs[0]].None? {
        HydrateTablesAppend(c, hs, xs[1..], ys, hydrate, now);
      } else {
        var u := HydrateTable(c, xs[0], hydrate, now);
        if u.outcome.Pass? {
          HydrateTablesAppend(u.cache, hs, xs[1..], ys, hydrate, now);
        }
      }
    }
  }

  /** Hydrating several tables keeps the invariant. */
  lemma {:induction false} HydrateTablesInv(c: Cache, hs: map<Table, Option<FuncId>>, order: seq<Table>,
                                            hydrate: HydrateOracle, now: Time)
    requires Inv(c)
    ensures Inv(HydrateTables(c, hs, order, hydrate, now).cache)
    decreases |order|
  {
    if order != [] {
      if order[0] !in hs || hs[order[0]].None? {
        HydrateTablesInv(c, hs, order[1..], hydrate, now);
      } else {
        HydrateInv(c, order[0], hydrate, now);
        var u := HydrateTable(c, order[0], hydrate, now);
        if u.outcome.Pass? {
          HydrateTablesInv(u.cache, hs, order[1..], hydrate, now);
        }
      }
    }
  }

  /**
   * Hydrating the tables of a repetition-free `order` from the snapshot `hs` of the
   * hydrators: the key fields, the hydrators and every earlier record are kept, tables
   * outside `order` stay on; a successful run leaves every listed table with a non-nil
   * hydrator on, its hydrator having returned records; a failure comes from such a table.
   */
  lemma {:induction false} HydrateTablesFacts(c: Cache, hs: map<Table, Option<FuncId>>, order: seq<Table>,
                                              hydrate: HydrateOracle, now: Time)
    requires hs == c.hydrator
    requires forall i, j | 0 <= i < j < |order| :: order[i] != order[j]
    ensures var r := HydrateTables(c, hs, order, hydrate, now);
      && r.cache.key == c.key && r.cache.hydrator == c.hydrator
      && (forall t | t !in order && IsEnabled(c, t) :: IsEnabled(r.cache, t))
      && (forall t, k | k in EntriesOf(c, t) :: k in EntriesOf(r.cache, t))
      && (r.outcome.Pass? ==> forall t | t in order && t in hs && hs[t].Some? ::
            IsEnabled(r.cache, t) && hydrate(hs[t].value).Success?)
      && (r.outcome.Fail? ==> exists t | t in order :: t in hs && hs[t].Some?)
    decreases |order|
  {
    if order != [] {
      var x, rest := order[0], order[1..];
      assert forall i, j | 0 <= i < j < |rest| :: rest[i] != rest[j] by {
        assert forall i | 0 <= i < |rest| :: rest[i] == order[i + 1];
      }
      assert x !in rest by {
        assert forall i | 0 <= i < |rest| :: rest[i] == order[i + 1];
      }
      assert forall t | t in rest :: t in order;
      if x !in hs || hs[x].None? {
        HydrateTablesFacts(c, hs, rest, hydrate, now);
      } else {
        var u := HydrateTable(c, x, hydrate, now);
        HydrateTableFacts(c, x, hydrate, now);
        if u.outcome.Pass? {
          HydrateTablesFacts(u.cache, hs, rest, hydrate, now);
        } else {
          assert x in order;
        }
      }
    }
  }

  /** `HydrateAll`: every table with a non-nil hydrator, in the map's visiting order. */
  function HydrateAll(c: Cache, order: seq<Table>, hydrate: HydrateOracle, now: Time): (r: Update)
    requires Enumerates(order, c.hydrator)
    ensures c.hydrator == map[] ==> r == Update(c, Pass)
    ensures (forall t | t in c.hydrator :: c.hydrator[t].None?) ==> r == Update(c, Pass)
    ensures r.cache.key == c.key && r.cache.hydrator == c.hydrator
    ensures forall t, k | k in EntriesOf(c, t) :: k in EntriesOf(r.cache, t)
    ensures r.outcome.Pass? ==> forall t | t in c.hydrator && c.hydrator[t].Some? ::
      IsEnabled(r.cache, t) && hydrate(c.hydrator[t].value).Success?
    ensures r.outcome.Fail? ==> exists t | t in c.hydrator :: c.hydrator[t].Some?
    ensures Inv(c) ==> Inv(r.cache)
  {
    if c.hydrator == map[] then
      assert order == [] by { EnumerationSize(order, c.hydrator); }
      Update(c, Pass)
    else
      SkipsNil(c, c.hydrator, order, hydrate, now);
      HydrateTablesFacts(c, c.hydrator, order, hydrate, now);
      var r := HydrateTables(c, c.hydrator, order, hydrate, now);
      assert Inv(c) ==> Inv(r.cache) by {
        if Inv(c) {
          HydrateTablesInv(c, c.hydrator, order, hydrate, now);
        }
      }
      r
  }

  /** Tables whose hydrator is nil are never hydrated. */
  lemma {:induction false} SkipsNil(c: Cache, hs: map<Table, Option<FuncId>>, order: seq<Table>,
                                    hydrate: HydrateOracle, now: Time)
    ensures (forall i | 0 <= i < |order| :: order[i] !in hs || hs[order[i]].None?)
      ==> HydrateTables(c, hs, order, hydrate, now) == Update(c, Pass)
    decreases |order|
  {
    if order != [] {
      SkipsNil(c, hs, order[1..], hydrate, now);
      assert forall i | 0 <= i < |order[1..]| :: order[1..][i] == order[i + 1];
    }
  }

  /** The calls a synchronisation made, in order, and how it ended. */
  datatype SyncRun = SyncRun(calls: seq<Datum>, outcome: Outcome<CacheError>)

  /**
   * The loop of `SynchroniseForType`: the synchroniser `f` is called on each record in
   * turn, stopping at the first error; calling a nil synchroniser panics.
   */
  function CallEach(rs: seq<Datum>, table: Table, f: Option<FuncId>, sync: SyncOracle): (r: SyncRun)
    ensures r.calls <= rs
    ensures r.outcome.Pass? <==> rs == [] || (f.Some? && AllPass(f.value, rs, sync))
    ensures r.outcome.Pass? ==> r.calls == rs
    ensures f.Some? && r.outcome.Fail? ==> r.calls != [] && sync(f.value, r.calls[|r.calls| - 1]).Fail?
    ensures f.None? && rs != [] ==> r == SyncRun([], Fail(NilSynchroniserCalled(table)))
    decreases |rs|
  {
    if rs == [] then SyncRun([], Pass)
    else if f.None? then SyncRun([], Fail(NilSynchroniserCalled(table)))
    else
      match sync(f.value, rs[0])
      case Fail(msg) => SyncRun([rs[0]], Fail(CallbackFailed(msg)))
      case Pass =>
        var rest := CallEach(rs[1..], table, f, sync);
        AllPassCons(f.value, rs, sync);
        PrefixCons(rs, rest.calls);
        SyncRun([rs[0]] + rest.calls, rest.outcome)
  }

  /** Putting the first record back in front of a prefix of the rest gives a prefix of the whole. */
  lemma PrefixCons(rs: seq<Datum>, calls: seq<Datum>)
    requires rs != [] && calls <= rs[1..]
    ensures [rs[0]] + calls <= rs
    ensures calls != [] ==> ([rs[0]] + calls)[|calls|] == calls[|calls| - 1]
  {
    assert rs == [rs[0]] + rs[1..];
  }

  /** The synchroniser `f` succeeds on every record of `rs`. */
  predicate AllPass(f: FuncId, rs: seq<Datum>, sync: SyncOracle) {
    forall i | 0 <= i < |rs| :: sync(f, rs[i]).Pass?
  }

  /** `f` succeeds on every record of a non-empty run iff on its first and on the rest. */
  lemma AllPassCons(f: FuncId, rs: seq<Datum>, sync: SyncOracle)
    requires rs != []
    ensures AllPass(f, rs, sync) <==> sync(f, rs[0]).Pass? && AllPass(f, rs[1..], sync)
  {
    assert forall i | 1 <= i < |rs| :: rs[1..][i - 1] == rs[i];
  }

  /**
   * `SynchroniseForType` on a resolved partition: after the table, key and synchroniser
   * checks (a present-but-nil synchroniser passes them), the synchroniser is called on
   * every cached record in visiting order. The cache itself is not changed.
   */
  function SynchroniseTable(c: Cache, table: Table, order: seq<Value>, sync: SyncOracle): (r: SyncRun)
    requires Visits(c, table, order)
    ensures table !in c.entries ==> r == SyncRun([], Fail(DoesNotExist(table)))
    ensures table in c.entries && !IsKeyRegistered(c, table) ==> r == SyncRun([], Fail(NoKeyDefined("synchronise", table)))
    ensures table in c.entries && IsKeyRegistered(c, table) && table !in c.synchroniser
      ==> r == SyncRun([], Fail(NoSynchroniser(table)))
    ensures table in c.entries && IsKeyRegistered(c, table) && table in c.synchroniser
      ==> r == CallEach(Records(c.entries[table], order), table, c.synchroniser[table], sync)
  {
    if table !in c.entries then SyncRun([], Fail(DoesNotExist(table)))
    else if !IsKeyRegistered(c, table) then SyncRun([], Fail(NoKeyDefined("synchronise", table)))
    else if table !in c.synchroniser then SyncRun([], Fail(NoSynchroniser(table)))
    else CallEach(Records(c.entries[table], order), table, c.synchroniser[table], sync)
  }

  /** A successful synchronisation calls the synchroniser once on every cached record. */
  lemma SynchroniseCallsEveryRecord(c: Cache, table: Table, order: seq<Value>, sync: SyncOracle, k: Value)
    requires Visits(c, table, order)
    requires SynchroniseTable(c, table, order, sync).outcome.Pass?
    requires k in EntriesOf(c, table)
    ensures c.entries[table][k].record in SynchroniseTable(c, table, order, sync).calls
  {
    var m := c.entries[table];
    var i :| 0 <= i < |order| && order[i] == k;
    assert Records(m, order)[i] == m[k].record;
  }

  /**
   * `Synchronise(table)`: hands the `entities.Table` value to `SynchroniseForType`,
   * which resolves the partition from the value's type, so the table named is ignored
   * and partition `"Table"` is synchronised.
   */
  function Synchronise(c: Cache, table: Table, order: seq<Value>, sync: SyncOracle): (r: SyncRun)
    requires Visits(c, "Table", order)
    ensures r == SynchroniseTable(c, "Table", order, sync)
  {
    TableValueResolvesToTable();
    SynchroniseTable(c, GetStructType(TableType), order, sync)
  }

  /** The calls of two runs one after the other. */
  function Then(a: SyncRun, b: SyncRun): (r: SyncRun)
    ensures r.calls == a.calls + b.calls && r.outcome == b.outcome
  {
    SyncRun(a.calls + b.calls, b.outcome)
  }

  /**
   * The loop of `SynchroniseAll`: for every table with a non-nil synchroniser,
   * `SynchroniseForType(table)`, which (as for `Synchronise`) always synchronises
   * partition `"Table"`; stops at the first failure.
   */
  function SyncTables(c: Cache, order: seq<Table>, records: seq<Value>, sync: SyncOracle): (r: SyncRun)
    requires Visits(c, "Table", records)
    requires KeysIn(order, c.synchroniser)
    decreases |order|
  {
    if order == [] then SyncRun([], Pass)
    else if c.synchroniser[order[0]].None? then SyncTables(c, order[1..], records, sync)
    else
      var run := Synchronise(c, order[0], records, sync);
      if run.outcome.Fail? then run else Then(run, SyncTables(c, order[1..], records, sync))
  }

  /** `SynchroniseAll` over the synchroniser map in visiting order. */
  function SynchroniseAll(c: Cache, order: seq<Table>, records: seq<Value>, sync: SyncOracle): (r: SyncRun)
    requires Enumerates(order, c.synchroniser)
    requires Visits(c, "Table", records)
    ensures (forall t | t in c.synchroniser :: c.synchroniser[t].None?) ==> r == SyncRun([], Pass)
  {
    NoneSyncs(c, order, records, sync);
    SyncTables(c, order, records, sync)
  }

  /** With no non-nil synchroniser nothing is called. */
  lemma {:induction false} NoneSyncs(c: Cache, order: seq<Table>, records: seq<Value>, sync: SyncOracle)
    requires Visits(c, "Table", records)
    requires KeysIn(order, c.synchroniser)
    ensures (forall i | 0 <= i < |order| :: c.synchroniser[order[i]].None?) ==> SyncTables(c, order, records, sync) == SyncRun([], Pass)
    decreases |order|
  {
    if order != [] {
      NoneSyncs(c, order[1..], records, sync);
      assert forall i | 0 <= i < |order[1..]| :: order[1..][i] == order[i + 1];
    }
  }

  /**
   * Since only one table keeps a non-nil synchroniser, `SynchroniseAll` synchronises
   * partition `"Table"` exactly once when some table has one.
   */
  lemma {:induction false} SynchroniseAllRunsOnce(c: Cache, order: seq<Table>, records: seq<Value>,
                                                  sync: SyncOracle, t: Table)
    requires SingleSynchroniser(c)
    requires Enumerates(order, c.synchroniser)
    requires Visits(c, "Table", records)
    requires t in c.synchroniser && c.synchroniser[t].Some?
    ensures SynchroniseAll(c, order, records, sync) == SynchroniseTable(c, "Table", records, sync)
  {
    OnlyOneRuns(c, order, records, sync, t);
  }

  lemma {:induction false} OnlyOneRuns(c: Cache, order: seq<Table>, records: seq<Value>,
                                       sync: SyncOracle, t: Table)
    requires SingleSynchroniser(c)
    requires KeysIn(order, c.synchroniser)
    requires forall i, j | 0 <= i < j < |order| :: order[i] != order[j]
    requires Visits(c, "Table", records)
    requires t in order && c.synchroniser[t].Some?
    ensures SyncTables(c, order, records, sync) == SynchroniseTable(c, "Table", records, sync)
    decreases |order|
  {
    var rest := order[1..];
    assert forall i | 0 <= i < |rest| :: rest[i] == order[i + 1];
    if order[0] == t {
      assert t !in rest;
      NoneSyncs(c, rest, records, sync);
      var run := SynchroniseTable(c, "Table", records, sync);
      assert run.calls + [] == run.calls;
    } else {
      assert c.synchroniser[order[0]].None?;
      OnlyOneRuns(c, rest, records, sync, t);
    }
  }

  /**
   * `SynchroniseEntry`: the record cached under the key value `data` carries is passed to
   * the synchroniser, after the table, key and synchroniser checks and the key read.
   */
  function SynchroniseEntry(c: Cache, data: Datum, sync: SyncOracle): (r: SyncRun)
    ensures data.Nil? ==> r == SyncRun([], Fail(NilTypePanic))
    ensures !data.Nil? && PartitionOf(data) !in c.entries ==> r == SyncRun([], Fail(DoesNotExist(PartitionOf(data))))
    ensures !data.Nil? && PartitionOf(data) in c.entries && !IsKeyRegistered(c, PartitionOf(data))
      ==> r == SyncRun([], Fail(NoKeyDefined("synchronise", PartitionOf(data))))
    ensures !data.Nil? && PartitionOf(data) in c.entries && IsKeyRegistered(c, PartitionOf(data))
      && PartitionOf(data) !in c.synchroniser
      ==> r == SyncRun([], Fail(NoSynchroniser(PartitionOf(data))))
    ensures !data.Nil? && PartitionOf(data) in c.entries && IsKeyRegistered(c, PartitionOf(data))
      && PartitionOf(data) in c.synchroniser && !Addable(c, data)
      ==> var table := PartitionOf(data);
          r == SyncRun([], Fail(ReadFailure(ReadField(data, c.key[table]).error, "synchronise", table, c.key[table])))
    ensures Addable(c, data) && PartitionOf(data) in c.entries && PartitionOf(data) in c.synchroniser
      && AddKey(c, data) !in c.entries[PartitionOf(data)]
      ==> r == SyncRun([], Fail(RecordNotFound(PartitionOf(data), AddKey(c, data))))
    ensures Addable(c, data) && PartitionOf(data) in c.entries && PartitionOf(data) in c.synchroniser
      && AddKey(c, data) in c.entries[PartitionOf(data)] && c.synchroniser[PartitionOf(data)].None?
      ==> r == SyncRun([], Fail(NilSynchroniserCalled(PartitionOf(data))))
    ensures |r.calls| <= 1
    ensures r.outcome.Pass? ==> r.calls != []
    ensures r.calls != [] && r.outcome.Fail? ==>
      var table := PartitionOf(data);
      sync(c.synchroniser[table].value, r.calls[0]).Fail?
      && r.outcome.error == CallbackFailed(sync(c.synchroniser[table].value, r.calls[0]).error)
    ensures r.calls != [] ==>
      var table := PartitionOf(data);
      && Addable(c, data) && table in c.entries && AddKey(c, data) in c.entries[table]
      && table in c.synchroniser && c.synchroniser[table].Some?
      && r.calls == [c.entries[table][AddKey(c, data)].record]
      && (r.outcome.Pass? <==> sync(c.synchroniser[table].value, r.calls[0]).Pass?)
  {
    if data.Nil? then SyncRun([], Fail(NilTypePanic))
    else
      var table := PartitionOf(data);
      if table !in c.entries then SyncRun([], Fail(DoesNotExist(table)))
      else if !IsKeyRegistered(c, table) then SyncRun([], Fail(NoKeyDefined("synchronise", table)))
      else if table !in c.synchroniser then SyncRun([], Fail(NoSynchroniser(table)))
      else
        match KeyOf(c, data, table, "synchronise")
        case Failure(e) => SyncRun([], Fail(e))
        case Success(k) =>
          if k !in c.entries[table] then SyncRun([], Fail(RecordNotFound(table, k)))
          else
            var f := c.synchroniser[table];
            if f.None? then SyncRun([], Fail(NilSynchroniserCalled(table)))
            else
              var rec := c.entries[table][k].record;
              match sync(f.value, rec)
              case Fail(msg) => SyncRun([rec], Fail(CallbackFailed(msg)))
              case Pass => SyncRun([rec], Pass)
  }

  /** Synchronising one entry calls the synchroniser on the cached record, not on the argument. */
  lemma SynchroniseEntryUsesCachedRecord(c: Cache, data: Datum, sync: SyncOracle)
    requires Addable(c, data) && PartitionOf(data) in c.entries
    requires AddKey(c, data) in c.entries[PartitionOf(data)]
    requires PartitionOf(data) in c.synchroniser && c.synchroniser[PartitionOf(data)].Some?
    ensures SynchroniseEntry(c, data, sync).calls == [c.entries[PartitionOf(data)][AddKey(c, data)].record]
  {
  }
}
