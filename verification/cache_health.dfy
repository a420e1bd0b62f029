/**
 * The expiry sweep (dao/cache/cacheHealth.go) and the cache statistics
 * (dao/cache/cacheDebug.go:103-111).
 */
module CacheHealth {
  import opened GoInts
  import opened GoTypes
  import opened Validators
  import opened Enumerations
  import opened CacheModel

  /** The keys of `m` whose entry expired strictly before `now` (`now.After(expiry)`). */
  function Expired(m: Entries, now: Time): (r: set<Value>)
    ensures r <= m.Keys
  {
    set k | k in m && now > m[k].expires
  }

  /** The entries of `m` that have not expired at `now`. */
  function Unexpired(m: Entries, now: Time): Entries {
    map k | k in m && now <= m[k].expires :: m[k]
  }

  /** `n` successive applications of Go's `--` to an `int64`. */
  function DecrementTimes(x: Int64, n: nat): Int64
    decreases n
  {
    if n == 0 then x else DecrementTimes(Wrap64(x - 1), n - 1)
  }

  /** Decrementing `n` times one by one is subtracting `n` once, modulo 2^64. */
  lemma {:induction false} DecrementTimesWraps(x: Int64, n: nat)
    ensures DecrementTimes(x, n) == Wrap64(x - n)
    decreases n
  {
    if n > 0 {
      DecrementTimesWraps(Wrap64(x - 1), n - 1);
      WrapAdd(x - 1, -(n - 1));
    }
  }

  /** The tables from which the sweep removes something. */
  function PurgedTables(c: Cache, now: Time): set<Table> {
    set t | t in c.entries && Expired(c.entries[t], now) != {}
  }

  /**
   * `PurgeExpiredEntries` with the instant `now` it reads once at the start: in every
   * table, every entry whose expiry is strictly before `now` is deleted and the table's
   * counter decremented once per deletion. Nothing else changes, `updated` included.
   */
  function PurgeExpiredEntries(c: Cache, now: Time): (r: Cache)
    ensures r.entries.Keys == c.entries.Keys
    ensures r.created == c.created && r.updated == c.updated
    ensures r.tablesActive == c.tablesActive && r.key == c.key && r.indices == c.indices
    ensures r.expiry == c.expiry && r.synchroniser == c.synchroniser && r.hydrator == c.hydrator
  {
    c.(entries := map t | t in c.entries :: Unexpired(c.entries[t], now),
       count := map t | t in c.count.Keys + PurgedTables(c, now) :: DecrementTimes(CountOf(c, t), |Expired(EntriesOf(c, t), now)|))
  }

  /** A table's entries after the sweep are its unexpired entries. */
  lemma PurgeEntriesOf(c: Cache, now: Time, t: Table)
    ensures EntriesOf(PurgeExpiredEntries(c, now), t) == Unexpired(EntriesOf(c, t), now)
  {
    if t !in c.entries {
      assert Unexpired(map[], now) == map[];
    }
  }

  /** A table's counter after the sweep is decremented once per expired entry. */
  lemma PurgeCountOf(c: Cache, now: Time, t: Table)
    ensures CountOf(PurgeExpiredEntries(c, now), t)
      == DecrementTimes(CountOf(c, t), |Expired(EntriesOf(c, t), now)|)
  {
    if t !in c.count && t !in PurgedTables(c, now) {
      assert Expired(EntriesOf(c, t), now) == {};
    }
  }

  /** An entry survives the sweep exactly when its expiry is not before `now`. */
  lemma PurgeKeepsExactlyUnexpired(c: Cache, now: Time, t: Table, k: Value)
    ensures k in EntriesOf(PurgeExpiredEntries(c, now), t)
      <==> k in EntriesOf(c, t) && now <= EntriesOf(c, t)[k].expires
    ensures k in EntriesOf(PurgeExpiredEntries(c, now), t)
      ==> EntriesOf(PurgeExpiredEntries(c, now), t)[k] == EntriesOf(c, t)[k]
  {
    PurgeEntriesOf(c, now, t);
  }

  /** Keeping the unexpired entries drops exactly the expired keys. */
  lemma UnexpiredDropsExpired(m: Entries, now: Time)
    ensures m.Keys - Unexpired(m, now).Keys == Expired(m, now)
  {
    var u := Unexpired(m, now);
    forall k | k in m.Keys - u.Keys
      ensures k in Expired(m, now)
    {
    }
  }

  /** The sweep removes exactly a table's expired keys. */
  lemma PurgeRemovesExpired(c: Cache, now: Time, t: Table)
    ensures EntriesOf(c, t).Keys - EntriesOf(PurgeExpiredEntries(c, now), t).Keys == Expired(EntriesOf(c, t), now)
  {
    PurgeEntriesOf(c, now, t);
    UnexpiredDropsExpired(EntriesOf(c, t), now);
  }

  /**
   * The counter drops by one for each removed entry, wrapping as Go's `int64` does; a
   * table that loses nothing keeps its counter.
   */
  lemma PurgeCounts(c: Cache, now: Time, t: Table)
    ensures CountOf(PurgeExpiredEntries(c, now), t) == Wrap64(CountOf(c, t) - |Expired(EntriesOf(c, t), now)|)
    ensures Expired(EntriesOf(c, t), now) == {} ==> CountOf(PurgeExpiredEntries(c, now), t) == CountOf(c, t)
  {
    PurgeCountOf(c, now, t);
    var x, n := CountOf(c, t), |Expired(EntriesOf(c, t), now)|;
    DecrementTimesWraps(x, n);
  }

  /** The unexpired part of a table has nothing left to expire. */
  lemma UnexpiredIdempotent(m: Entries, now: Time)
    ensures Unexpired(Unexpired(m, now), now) == Unexpired(m, now)
    ensures Expired(Unexpired(m, now), now) == {}
  {
  }

  /** After a sweep, no table has anything left to expire at the same instant. */
  lemma PurgeLeavesNothingExpired(c: Cache, now: Time, t: Table)
    ensures Expired(EntriesOf(PurgeExpiredEntries(c, now), t), now) == {}
    ensures Unexpired(EntriesOf(PurgeExpiredEntries(c, now), t), now) == EntriesOf(PurgeExpiredEntries(c, now), t)
  {
    PurgeEntriesOf(c, now, t);
    UnexpiredIdempotent(EntriesOf(c, t), now);
  }

  /** The counters keep their keys when nothing is purged. */
  lemma PurgeCountKeys(c: Cache, now: Time)
    ensures PurgedTables(c, now) == {} ==> PurgeExpiredEntries(c, now).count.Keys == c.count.Keys
  {
  }

  /** A second sweep at the same instant finds nothing to remove. */
  lemma PurgeIdempotent(c: Cache, now: Time)
    ensures PurgeExpiredEntries(PurgeExpiredEntries(c, now), now) == PurgeExpiredEntries(c, now)
  {
    var r := PurgeExpiredEntries(c, now);
    var rr := PurgeExpiredEntries(r, now);
    forall t | t in r.entries
      ensures rr.entries[t] == r.entries[t] && Expired(r.entries[t], now) == {}
    {
      PurgeLeavesNothingExpired(c, now, t);
    }
    assert rr.entries == r.entries;
    assert PurgedTables(r, now) == {};
    PurgeCountKeys(r, now);
    var a, b := rr.count, r.count;
    assert a.Keys == b.Keys;
    forall t | t in a
      ensures a[t] == b[t]
    {
      PurgeLeavesNothingExpired(c, now, t);
      PurgeCountOf(r, now, t);
    }
    MapsEqual(a, b);
  }

  /** The sweep keeps the invariant. */
  lemma PurgeInv(c: Cache, now: Time)
    requires Inv(c)
    ensures Inv(PurgeExpiredEntries(c, now))
  {
    var r := PurgeExpiredEntries(c, now);
    forall t | t in r.entries
      ensures WellPlaced(r.entries[t], t)
    {
      assert WellPlaced(c.entries[t], t);
    }
  }

  /** The number of records in each table. */
  function Sizes(m: map<Table, Entries>): (r: map<Table, nat>)
    ensures r.Keys == m.Keys
    ensures forall t | t in r :: r[t] == |m[t]|
  {
    map t | t in m :: |m[t]|
  }

  /**
   * `Stats`: the creation and update times as stored, the number of tables that ever had
   * an active flag (disabled ones included), and the live number of records summed over
   * the entry maps in visiting order with Go's `int64` addition — not the stored counters.
   */
  method Stats(c: Cache, order: seq<Table>) returns (created: Time, updated: Time, noTables: Int64, noCacheEntries: Int64)
    requires Enumerates(order, c.entries)
    ensures created == c.created && updated == c.updated
    ensures noTables == Wrap64(|c.tablesActive|)
    ensures noCacheEntries == Wrap64(Total(Sizes(c.entries)))
  {
    var total: Int64 := 0;
    var i := 0;
    while i < |order|
      invariant 0 <= i <= |order|
      invariant total == Wrap64(SumOver(Sizes(c.entries), order[..i]))
    {
      assert order[..i + 1][..i] == order[..i];
      WrapAdd(SumOver(Sizes(c.entries), order[..i]), |c.entries[order[i]]|);
      total := Wrap64(total + |c.entries[order[i]]|);
      i := i + 1;
    }
    assert order[..i] == order;
    SumOverEnumeration(Sizes(c.entries), order);
    return c.created, c.updated, Wrap64(|c.tablesActive|), total;
  }
}
