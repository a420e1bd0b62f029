/**
 * Reading records back out of the cache (dao/cache/cache.go:297-451, 514-563).
 *
 * The generic type parameter `T` of the Go functions is `target`; the partition read is
 * `GetStructType(target)`. Go ranges over a map in an unspecified order, so the order the
 * records are visited in is a parameter `order`, any enumeration of the table's keys.
 */
module CacheQueries {
  import opened Wrappers
  import opened GoInts
  import opened GoTypes
  import opened Validators
  import opened Enumerations
  import opened CacheModel
  import opened CacheEntries

  /** The order a table's records are visited in is an enumeration of its keys. */
  predicate Visits(c: Cache, table: Table, order: seq<Value>) {
    table in c.entries ==> Enumerates(order, c.entries[table])
  }

  /**
   * `Get` (and `FindByKey`): the record filed under `key`, coerced to `target`. The
   * errors come in this order: no entry map, no key field, no such record, wrong type.
   * Neither the active flag nor the expiry time is consulted.
   */
  function Get(c: Cache, target: GoType, key: Value): (r: Result<Datum, CacheError>)
    ensures var table := GetStructType(target);
      && (table !in c.entries ==> r == Failure(DoesNotExist(table)))
      && (table in c.entries && !IsKeyRegistered(c, table) ==> r == Failure(NoKeyDefined("get", table)))
      && (table in c.entries && IsKeyRegistered(c, table) && key !in c.entries[table] ==> r == Failure(RecordNotFound(table, key)))
      && (r.Success?
          <==> table in c.entries && IsKeyRegistered(c, table) && key in c.entries[table]
               && Coerce(c.entries[table][key].record, target).Some?)
      && (r.Success? ==> Some(r.value) == Coerce(c.entries[table][key].record, target))
      && (r.Failure? && table in c.entries && IsKeyRegistered(c, table) && key in c.entries[table]
          ==> r.error == TypeMismatch(table, target))
  {
    var table := GetStructType(target);
    if table !in c.entries then Failure(DoesNotExist(table))
    else if !IsKeyRegistered(c, table) then Failure(NoKeyDefined("get", table))
    else if key !in c.entries[table] then Failure(RecordNotFound(table, key))
    else
      match Coerce(c.entries[table][key].record, target)
      case None => Failure(TypeMismatch(table, target))
      case Some(v) => Success(v)
  }

  /** The records of `m` in the order `order` visits them. */
  function Records(m: Entries, order: seq<Value>): (r: seq<Datum>)
    requires KeysIn(order, m)
    ensures |r| == |order|
    ensures forall i | 0 <= i < |order| :: r[i] == m[order[i]].record
  {
    seq(|order|, i requires 0 <= i < |order| => m[order[i]].record)
  }

  /** Every record coerced to `target`, or `None` as soon as one does not coerce. */
  function CoerceAll(rs: seq<Datum>, target: GoType): (r: Option<seq<Datum>>)
    ensures r.Some? ==> |r.value| == |rs|
    decreases |rs|
  {
    if rs == [] then Some([])
    else
      match CoerceAll(rs[..|rs| - 1], target)
      case None => None
      case Some(init) =>
        match Coerce(rs[|rs| - 1], target)
        case None => None
        case Some(v) => Some(init + [v])
  }

  /** `CoerceAll` succeeds exactly when every record coerces, and then holds each coercion in place. */
  lemma {:induction false} CoerceAllSpec(rs: seq<Datum>, target: GoType)
    ensures CoerceAll(rs, target).Some? <==> forall i | 0 <= i < |rs| :: Coerce(rs[i], target).Some?
    ensures CoerceAll(rs, target).Some?
      ==> forall i | 0 <= i < |rs| :: Some(CoerceAll(rs, target).value[i]) == Coerce(rs[i], target)
    decreases |rs|
  {
    if rs != [] {
      var init := rs[..|rs| - 1];
      CoerceAllSpec(init, target);
      assert forall i | 0 <= i < |init| :: init[i] == rs[i];
    }
  }

  /** Whether `d`, seen through at most one pointer, is a struct whose field `index` holds `value`. */
  predicate FieldIs(d: Datum, index: Field, value: Value) {
    ReadField(d, index) == Success(value)
  }

  /**
   * Whether the filter on `index` panics. Go reads the field with `Interface()`, which
   * panics on an unexported field, so the first visited record that has the field ends
   * the call. No record can match before it, so the panic does not depend on the order.
   */
  predicate IndexPanics(m: Entries, index: Field) {
    exists k | k in m :: ReadField(m[k].record, index) == Failure(Unexported)
  }

  /** A filter panics only on an unexported field, and on one that some record has. */
  lemma IndexPanicsExactly(m: Entries, index: Field)
    ensures IndexPanics(m, index) <==> !Exported(index) && exists k | k in m :: HasField(m[k].record, index)
  {
  }

  /** One visited key's contribution to `Matches`: its record if the field holds the value. */
  function MatchAt(m: Entries, k: Value, index: Field, value: Value): (r: seq<Datum>)
    ensures |r| <= 1
  {
    if k in m && FieldIs(m[k].record, index, value) then [m[k].record] else []
  }

  /**
   * The records `order` visits whose field `index` holds `value`, in visiting order (a
   * key that is not in `m` contributes nothing; an enumeration has none).
   */
  function Matches(m: Entries, order: seq<Value>, index: Field, value: Value): (r: seq<Datum>)
    ensures |r| <= |order|
    decreases |order|
  {
    if order == [] then []
    else Matches(m, order[..|order| - 1], index, value) + MatchAt(m, order[|order| - 1], index, value)
  }

  /** Every matched record's field holds the value. */
  lemma {:induction false} MatchesHold(m: Entries, order: seq<Value>, index: Field, value: Value)
    ensures forall i | 0 <= i < |Matches(m, order, index, value)| :: FieldIs(Matches(m, order, index, value)[i], index, value)
    decreases |order|
  {
    if order != [] {
      MatchesHold(m, order[..|order| - 1], index, value);
    }
  }

  /** When no record of `m` holds the value, nothing is matched, whatever the order. */
  lemma {:induction false} NoHolderNoMatches(m: Entries, order: seq<Value>, index: Field, value: Value)
    requires forall k | k in m :: !FieldIs(m[k].record, index, value)
    ensures Matches(m, order, index, value) == []
    decreases |order|
  {
    if order != [] {
      NoHolderNoMatches(m, order[..|order| - 1], index, value);
    }
  }

  /** A record is matched exactly when some visited key holds it and its field holds the value. */
  lemma {:induction false} MatchesExactly(m: Entries, order: seq<Value>, index: Field, value: Value, d: Datum)
    requires KeysIn(order, m)
    ensures d in Matches(m, order, index, value)
      <==> exists i | 0 <= i < |order| :: m[order[i]].record == d && FieldIs(d, index, value)
    decreases |order|
  {
    if order != [] {
      var init := order[..|order| - 1];
      MatchesExactly(m, init, index, value, d);
      assert forall i | 0 <= i < |init| :: init[i] == order[i];
      if exists i | 0 <= i < |order| :: m[order[i]].record == d && FieldIs(d, index, value) {
        var i :| 0 <= i < |order| && m[order[i]].record == d && FieldIs(d, index, value);
        if i < |init| {
          assert init[i] == order[i];
        }
      }
    }
  }

  /** Visiting a longer order extends the matches found so far. */
  lemma {:induction false} MatchesPrefix(m: Entries, order: seq<Value>, j: nat, index: Field, value: Value)
    requires j <= |order|
    ensures Matches(m, order[..j], index, value) <= Matches(m, order, index, value)
    decreases |order|
  {
    if j < |order| {
      var init := order[..|order| - 1];
      assert init[..j] == order[..j];
      MatchesPrefix(m, init, j, index, value);
    } else {
      assert order[..j] == order;
    }
  }

  /** A failing element fails the whole coercion. */
  lemma CoerceAllPrefix(rs: seq<Datum>, ss: seq<Datum>, target: GoType)
    requires rs <= ss
    requires CoerceAll(rs, target).None?
    ensures CoerceAll(ss, target).None?
  {
    CoerceAllSpec(rs, target);
    CoerceAllSpec(ss, target);
    var i :| 0 <= i < |rs| && Coerce(rs[i], target).None?;
    assert ss[i] == rs[i];
  }

  /** Visiting one more key adds that key's record if it matches. */
  lemma MatchesStep(m: Entries, order: seq<Value>, i: nat, index: Field, value: Value)
    requires i < |order|
    ensures Matches(m, order[..i + 1], index, value) == Matches(m, order[..i], index, value) + MatchAt(m, order[i], index, value)
  {
    assert order[..i + 1][..i] == order[..i];
  }

  /** Coercing one more record appends its coercion, or fails. */
  lemma CoerceAllStep(rs: seq<Datum>, d: Datum, target: GoType)
    ensures CoerceAll(rs + [d], target)
      == (match CoerceAll(rs, target)
          case None => None
          case Some(init) => (match Coerce(d, target) case None => None case Some(v) => Some(init + [v])))
  {
    assert (rs + [d])[..|rs|] == rs;
  }

  /** Visiting one more key appends its record. */
  lemma RecordsStep(m: Entries, order: seq<Value>, i: nat)
    requires KeysIn(order, m) && i < |order|
    ensures Records(m, order[..i + 1]) == Records(m, order[..i]) + [m[order[i]].record]
  {
  }

  /**
   * What `GetWhere` returns for the matches `ms` in visiting order: the first match, unless
   * it does not coerce, there is none, or there is a second one (which is coerced first).
   */
  function FirstOnly(ms: seq<Datum>, target: GoType, table: Table, index: Field, value: Value): (r: Result<Datum, CacheError>)
    ensures r.Success? <==> |ms| == 1 && Coerce(ms[0], target).Some?
    ensures r.Success? ==> Some(r.value) == Coerce(ms[0], target)
    ensures |ms| == 0 ==> r == Failure(RecordNotFound(table, value))
    ensures |ms| >= 2 && Coerce(ms[0], target).Some? && Coerce(ms[1], target).Some?
      ==> r == Failure(MultipleRecordsFound(table, index, value, 2))
  {
    if |ms| == 0 then Failure(RecordNotFound(table, value))
    else if Coerce(ms[0], target).None? then Failure(TypeMismatch(table, target))
    else if |ms| == 1 then Success(Coerce(ms[0], target).value)
    else if Coerce(ms[1], target).None? then Failure(TypeMismatch(table, target))
    else Failure(MultipleRecordsFound(table, index, value, 2))
  }

  /**
   * `GetWhere`: the one record whose field `index` holds `value`. It stops at the second
   * match and refuses the ambiguous result; records that are nil, not structs or lack the
   * field are skipped, and an unexported field panics.
   */
  method GetWhere(c: Cache, target: GoType, index: Field, value: Value, order: seq<Value>)
      returns (r: Result<Datum, CacheError>)
    requires Visits(c, GetStructType(target), order)
    ensures var table := GetStructType(target);
      && (table !in c.entries ==> r == Failure(DoesNotExist(table)))
      && (table in c.entries && !IsKeyRegistered(c, table) ==> r == Failure(NoKeyDefined("getwhere", table)))
      && (table in c.entries && IsKeyRegistered(c, table) && IndexPanics(c.entries[table], index)
          ==> r == Failure(UnexportedFieldPanic("getwhere", table, index)))
      && (table in c.entries && IsKeyRegistered(c, table) && !IndexPanics(c.entries[table], index)
          ==> r == FirstOnly(Matches(c.entries[table], order, index, value), target, table, index, value))
      && (table in c.entries && IsKeyRegistered(c, table) && !IndexPanics(c.entries[table], index)
          && (forall k | k in c.entries[table] :: !FieldIs(c.entries[table][k].record, index, value))
          ==> r == Failure(RecordNotFound(table, value)))
  {
    var table := GetStructType(target);
    if table !in c.entries {
      return Failure(DoesNotExist(table));
    }
    if !IsKeyRegistered(c, table) {
      return Failure(NoKeyDefined("getwhere", table));
    }
    if IndexPanics(c.entries[table], index) {
      return Failure(UnexportedFieldPanic("getwhere", table, index));
    }
    r := FirstMatch(c.entries[table], table, target, index, value, order);
    if forall k | k in c.entries[table] :: !FieldIs(c.entries[table][k].record, index, value) {
      NoHolderNoMatches(c.entries[table], order, index, value);
    }
  }

  /**
   * The loop of `GetWhere`: collects the matches in visiting order and stops at the
   * second. Go coerces each match as it is found and returns at once on a failure; the
   * outcome is the same as coercing the (at most two) matches afterwards, in order.
   */
  method FirstMatch(m: Entries, table: Table, target: GoType, index: Field, value: Value, order: seq<Value>)
      returns (r: Result<Datum, CacheError>)
    requires KeysIn(order, m)
    ensures r == FirstOnly(Matches(m, order, index, value), target, table, index, value)
  {
    var seen: seq<Datum> := [];
    var i := 0;
    while i < |order| && |seen| < 2
      invariant 0 <= i <= |order|
      invariant seen == Matches(m, order[..i], index, value) && |seen| <= 2
    {
      var rec := m[order[i]].record;
      MatchesStep(m, order, i, index, value);
      if FieldIs(rec, index, value) {
        seen := seen + [rec];
      } else {
        assert seen + [] == seen;
      }
      i := i + 1;
    }
    if |seen| == 2 {
      MatchesPrefix(m, order, i, index, value);
      FirstOnlyOfTwo(Matches(m, order, index, value), seen, target, table, index, value);
    } else {
      assert order[..i] == order;
    }
    r := FirstOnly(seen, target, table, index, value);
  }

  /** `GetWhere`'s outcome is decided by the first two matches. */
  lemma FirstOnlyOfTwo(ms: seq<Datum>, seen: seq<Datum>, target: GoType, table: Table, index: Field, value: Value)
    requires seen <= ms && |seen| == 2
    ensures FirstOnly(ms, target, table, index, value) == FirstOnly(seen, target, table, index, value)
  {
    assert ms[0] == seen[0] && ms[1] == seen[1];
  }

  /**
   * The loop of `GetAllWhere` and `FindByIndex`: every record whose field `index`
   * holds `value`, coerced, in visiting order. Go coerces each match as it is found and
   * returns at the first that does not coerce; the outcome is the same as collecting the
   * matches and coercing them afterwards.
   */
  method Select(m: Entries, table: Table, target: GoType, index: Field, value: Value, order: seq<Value>)
      returns (r: Result<seq<Datum>, CacheError>)
    requires KeysIn(order, m)
    ensures CoerceAll(Matches(m, order, index, value), target).None? ==> r == Failure(TypeMismatch(table, target))
    ensures CoerceAll(Matches(m, order, index, value), target).Some?
      ==> r == Success(CoerceAll(Matches(m, order, index, value), target).value)
  {
    var seen: seq<Datum> := [];
    var i := 0;
    while i < |order|
      invariant 0 <= i <= |order|
      invariant seen == Matches(m, order[..i], index, value)
    {
      var rec := m[order[i]].record;
      MatchesStep(m, order, i, index, value);
      if FieldIs(rec, index, value) {
        seen := seen + [rec];
      } else {
        assert seen + [] == seen;
      }
      i := i + 1;
    }
    assert order[..i] == order;
    match CoerceAll(seen, target)
    case None => r := Failure(TypeMismatch(table, target));
    case Some(rs) => r := Success(rs);
  }

  /**
   * `GetAllWhere` and `FindByIndex`: every record whose field `index` holds `value`, after
   * the table checks. The two Go functions are the same code except for the operation
   * name `op` that a missing key reports.
   */
  method GetAllWhere(c: Cache, target: GoType, index: Field, value: Value, order: seq<Value>, op: string)
      returns (r: Result<seq<Datum>, CacheError>)
    requires op == "getwhere" || op == "findbyindex"
    requires Visits(c, GetStructType(target), order)
    ensures var table := GetStructType(target);
      && (table !in c.entries ==> r == Failure(DoesNotExist(table)))
      && (table in c.entries && !IsKeyRegistered(c, table) ==> r == Failure(NoKeyDefined(op, table)))
      && (table in c.entries && IsKeyRegistered(c, table) && IndexPanics(c.entries[table], index)
          ==> r == Failure(UnexportedFieldPanic(op, table, index)))
      && (table in c.entries && IsKeyRegistered(c, table) && !IndexPanics(c.entries[table], index) ==>
            match CoerceAll(Matches(c.entries[table], order, index, value), target)
            case None => r == Failure(TypeMismatch(table, target))
            case Some(rs) => r == Success(rs))
      && (table in c.entries && IsKeyRegistered(c, table) && !IndexPanics(c.entries[table], index)
          && (forall k | k in c.entries[table] :: !FieldIs(c.entries[table][k].record, index, value))
          ==> r == Success([]))
  {
    var table := GetStructType(target);
    if table !in c.entries {
      return Failure(DoesNotExist(table));
    }
    if !IsKeyRegistered(c, table) {
      return Failure(NoKeyDefined(op, table));
    }
    if IndexPanics(c.entries[table], index) {
      return Failure(UnexportedFieldPanic(op, table, index));
    }
    r := Select(c.entries[table], table, target, index, value, order);
    if forall k | k in c.entries[table] :: !FieldIs(c.entries[table][k].record, index, value) {
      NoHolderNoMatches(c.entries[table], order, index, value);
    }
  }

  /**
   * `GetAll`: every record of the table coerced to `target`, in visiting order; the first
   * record that does not coerce fails the call.
   */
  method GetAll(c: Cache, target: GoType, order: seq<Value>) returns (r: Result<seq<Datum>, CacheError>)
    requires Visits(c, GetStructType(target), order)
    ensures var table := GetStructType(target);
      && (table !in c.entries ==> r == Failure(DoesNotExist(table)))
      && (table in c.entries && !IsKeyRegistered(c, table) ==> r == Failure(NoKeyDefined("getall", table)))
      && (table in c.entries && IsKeyRegistered(c, table) ==>
            match CoerceAll(Records(c.entries[table], order), target)
            case None => r == Failure(TypeMismatch(table, target))
            case Some(rs) => r == Success(rs) && |rs| == |c.entries[table]|)
  {
    var table := GetStructType(target);
    if table !in c.entries {
      return Failure(DoesNotExist(table));
    }
    if !IsKeyRegistered(c, table) {
      return Failure(NoKeyDefined("getall", table));
    }
    r := CoerceRecords(c.entries[table], table, target, order);
    if r.Success? {
      EnumerationSize(order, c.entries[table]);
    }
  }

  /** The loop of `GetAll`: coerces every visited record, failing at the first that does not coerce. */
  method CoerceRecords(m: Entries, table: Table, target: GoType, order: seq<Value>)
      returns (r: Result<seq<Datum>, CacheError>)
    requires KeysIn(order, m)
    ensures CoerceAll(Records(m, order), target).None? ==> r == Failure(TypeMismatch(table, target))
    ensures CoerceAll(Records(m, order), target).Some? ==> r == Success(CoerceAll(Records(m, order), target).value)
  {
    var rtn: seq<Datum> := [];
    var i := 0;
    while i < |order|
      invariant 0 <= i <= |order|
      invariant CoerceAll(Records(m, order[..i]), target) == Some(rtn)
    {
      var rec := m[order[i]].record;
      RecordsStep(m, order, i);
      CoerceAllStep(Records(m, order[..i]), rec, target);
      var converted := Coerce(rec, target);
      if converted.None? {
        CoerceAllPrefix(Records(m, order[..i + 1]), Records(m, order), target);
        return Failure(TypeMismatch(table, target));
      }
      rtn := rtn + [converted.value];
      i := i + 1;
    }
    assert order[..i] == order;
    return Success(rtn);
  }

  /** A record just added comes back from `Get` under its own type and key. */
  lemma GetAfterAdd(c: Cache, data: Datum, now: Time)
    requires Addable(c, data)
    ensures Get(AddEntry(c, data, now).cache, TypeOf(data).value, AddKey(c, data)) == Success(data)
  {
    AddedIsAddable(c, data, now);
    CoerceIdentity(data, TypeOf(data).value);
  }

  /**
   * A pointer to a struct of a package type, once added, comes back from `Get` under the
   * struct type as the struct itself: both types name the same partition.
   */
  lemma GetAfterAddThroughPointer(c: Cache, t: GoType, s: Datum, now: Time)
    requires TypeOf(s) == Some(t) && Base(t).pkg != ""
    requires Addable(c, PtrV(t, Some(s)))
    ensures Get(AddEntry(c, PtrV(t, Some(s)), now).cache, t, AddKey(c, PtrV(t, Some(s)))) == Success(s)
  {
    var data := PtrV(t, Some(s));
    AddedIsAddable(c, data, now);
    PointerSharesPartition(t);
    CoercePointerBridge(s, t);
  }
}
