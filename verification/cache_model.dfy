/**
 * The state of the multi-table in-memory cache (dao/cache/cacheModel.go) and its
 * initialisation (dao/cache/cacheInit.go).
 *
 * The Go package keeps one global `cache` value made of parallel maps keyed by table
 * name. Here that value is an immutable datatype and every operation is a pure function
 * from the old state to the new one. Times are nanoseconds since Go's zero time;
 * callbacks are opaque identifiers, `None` standing for a present-but-nil function.
 */
module CacheModel {
  import opened Wrappers
  import opened GoInts
  import opened GoTypes
  import opened Validators

  /** `time.Duration`: a 64-bit count of nanoseconds. */
  type Duration = Int64

  /** `entities.Field`: the name of a struct field. */
  type Field = string

  /** Identity of a registered hydrator or synchroniser function. */
  type FuncId = nat

  const NANOS_PER_HOUR: int := 3_600_000_000_000

  /** `defaultCacheExpiry`: 100 * 365 * 24 hours. */
  const DEFAULT_EXPIRY: Duration := 100 * 365 * 24 * 3_600_000_000_000

  /** `dataCache`: one cached record and the instant it expires. */
  datatype Entry = Entry(record: Datum, expires: Time)

  /** `entrys`: one record per key value. */
  type Entries = map<Value, Entry>

  /** The package-level `cache` value. */
  datatype Cache = Cache(
    created: Time,
    updated: Time,
    tablesActive: map<Table, bool>,
    key: map<Table, Field>,
    indices: map<Table, seq<Field>>,
    entries: map<Table, Entries>,
    count: map<Table, Int64>,
    expiry: map<Table, Duration>,
    synchroniser: map<Table, Option<FuncId>>,
    hydrator: map<Table, Option<FuncId>>)

  /** The errors the cache operations return, and the panics they can raise. */
  datatype CacheError =
    | NotEnabled(op: string, table: Table)
    | NilData(op: string)
    | NoKeyDefined(op: string, table: Table)
    | DoesNotExist(table: Table)
    | RecordNotFound(table: Table, key: Value)
    | MultipleRecordsFound(table: Table, index: Field, value: Value, matches: nat)
    | NoHydrator(table: Table)
    | NoSynchroniser(table: Table)
    | NonStruct(op: string, table: Table)
    | KeyFieldNotFound(op: string, table: Table, field: Field)
    | TypeMismatch(table: Table, want: GoType)
    | CallbackFailed(message: string)
      /**
       * Go panics: calling a nil synchroniser, `reflect.TypeOf(nil).String()`, or
       * `Interface()` on an unexported struct field.
       */
    | NilSynchroniserCalled(table: Table)
    | NilTypePanic
    | UnexportedFieldPanic(op: string, table: Table, field: Field)

  /** A state change together with the error it reports. */
  datatype Update = Update(cache: Cache, outcome: Outcome<CacheError>)

  /** Every map of the cache at one table; `None` where the map has no entry. */
  datatype View = View(
    active: Option<bool>,
    key: Option<Field>,
    indices: Option<seq<Field>>,
    entries: Option<Entries>,
    count: Option<Int64>,
    expiry: Option<Duration>,
    synchroniser: Option<Option<FuncId>>,
    hydrator: Option<Option<FuncId>>)

  function Lookup<K, V>(m: map<K, V>, k: K): (r: Option<V>)
    ensures r.Some? <==> k in m
    ensures r.Some? ==> r.value == m[k]
  {
    if k in m then Some(m[k]) else None
  }

  /** Everything the cache holds for `table`. */
  function ViewOf(c: Cache, table: Table): View {
    View(Lookup(c.tablesActive, table), Lookup(c.key, table), Lookup(c.indices, table),
         Lookup(c.entries, table), Lookup(c.count, table), Lookup(c.expiry, table),
         Lookup(c.synchroniser, table), Lookup(c.hydrator, table))
  }

  /** No table other than `table` is changed from `c` to `d`. */
  ghost predicate OthersUnchanged(c: Cache, d: Cache, table: Table) {
    forall u | u != table :: ViewOf(d, u) == ViewOf(c, u)
  }

  /** `Initialise`: every map empty, `created` the current time, `updated` the zero time. */
  function Initialise(now: Time): (c: Cache)
    ensures c.created == now && c.updated == ZERO_TIME
    ensures forall t :: ViewOf(c, t) == View(None, None, None, None, None, None, None, None)
  {
    Cache(now, ZERO_TIME, map[], map[], map[], map[], map[], map[], map[], map[])
  }

  /** The default expiry is one hundred 365-day years. */
  lemma DefaultExpiryIsCentury()
    ensures DEFAULT_EXPIRY == 100 * 365 * 24 * NANOS_PER_HOUR
    ensures DEFAULT_EXPIRY == 3_153_600_000_000_000_000
  {
  }

  /** `isKeyRegistered`: the table has a non-empty key field. */
  predicate IsKeyRegistered(c: Cache, table: Table) {
    table in c.key && c.key[table] != ""
  }

  /** The stored counter, Go's zero value when absent. */
  function CountOf(c: Cache, table: Table): Int64 {
    if table in c.count then c.count[table] else 0
  }

  /** The stored expiry duration, Go's zero value when absent. */
  function ExpiryOf(c: Cache, table: Table): Duration {
    if table in c.expiry then c.expiry[table] else 0
  }

  /** The registered index fields, Go's nil slice when absent. */
  function IndicesOf(c: Cache, table: Table): seq<Field> {
    if table in c.indices then c.indices[table] else []
  }

  /** The entry map, empty when absent (Go's nil map reads as empty). */
  function EntriesOf(c: Cache, table: Table): Entries {
    if table in c.entries then c.entries[table] else map[]
  }

  /** The cache partition of a non-nil value: `GetStructType` of its dynamic type. */
  function PartitionOf(d: Datum): Table
    requires !d.Nil?
  {
    GetStructType(TypeOf(d).value)
  }

  /** Why reading a field from a value by reflection failed. */
  datatype ReadError = NilPointer | NotStruct | NoSuchField | Unexported

  /**
   * `reflect.ValueOf(d)`, one pointer dereference, `FieldByName(field)`, then
   * `Interface()`: a nil pointer, a value that is not a struct after one dereference or a
   * missing field fail, and an unexported field makes `Interface()` panic.
   */
  function ReadField(d: Datum, field: Field): (r: Result<Value, ReadError>)
    ensures r.Success? ==>
      || (d.StructV? && field in d.fields && d.fields[field] == r.value)
      || (d.PtrV? && d.target.Some? && d.target.value.StructV? && field in d.target.value.fields
          && d.target.value.fields[field] == r.value)
    ensures HasField(d, field) && Exported(field) ==> r.Success?
    ensures r == Failure(Unexported) <==> HasField(d, field) && !Exported(field)
    ensures r == Failure(NilPointer) <==> d.PtrV? && d.target.None?
    ensures r == Failure(NoSuchField) <==> StructBehind(d) && !HasField(d, field)
  {
    match d
    case PtrV(_, None) => Failure(NilPointer)
    case PtrV(_, Some(s)) =>
      if !s.StructV? then Failure(NotStruct)
      else if field !in s.fields then Failure(NoSuchField)
      else if !Exported(field) then Failure(Unexported)
      else Success(s.fields[field])
    case StructV(_, fs) =>
      if field !in fs then Failure(NoSuchField)
      else if !Exported(field) then Failure(Unexported)
      else Success(fs[field])
    case _ => Failure(NotStruct)
  }

  /** `d` is a struct, or a non-nil pointer to one: the values `ReadField` looks into. */
  predicate StructBehind(d: Datum) {
    d.StructV? || (d.PtrV? && d.target.Some? && d.target.value.StructV?)
  }

  /** `FieldByName` finds `field` in the struct `d` is or points at. */
  predicate HasField(d: Datum, field: Field) {
    || (d.StructV? && field in d.fields)
    || (d.PtrV? && d.target.Some? && d.target.value.StructV? && field in d.target.value.fields)
  }

  /** The error an operation named `op` reports for a failed key read on `table`. */
  function ReadFailure(e: ReadError, op: string, table: Table, field: Field): CacheError {
    match e
    case NilPointer => NilData(op)
    case NotStruct => NonStruct(op, table)
    case NoSuchField => KeyFieldNotFound(op, table, field)
    case Unexported => UnexportedFieldPanic(op, table, field)
  }

  /**
   * `coerceCacheValue`, reduced to named-type identity: the value itself when its type is
   * the target, the pointee of a non-nil pointer to the target, or a fresh pointer to the
   * value when the target is a pointer to the value's type.
   */
  function Coerce(d: Datum, target: GoType): (r: Option<Datum>)
    ensures r.Some? ==> (TypeOf(r.value) == Some(target) || (d.PtrV? && d.elemTy == target && r == d.target))
    ensures WellTyped(d) && r.Some? ==> TypeOf(r.value) == Some(target) && WellTyped(r.value)
  {
    if d.Nil? then None
    else if TypeOf(d) == Some(target) then Some(d)
    else if d.PtrV? && d.target.Some? && d.elemTy == target then d.target
    else if target.Pointer? && TypeOf(d) == Some(target.elem) then Some(PtrV(target.elem, Some(d)))
    else None
  }

  /** A value of exactly the target type comes back unchanged; nil never coerces. */
  lemma CoerceIdentity(d: Datum, target: GoType)
    ensures TypeOf(d) == Some(target) ==> Coerce(d, target) == Some(d)
    ensures d.Nil? ==> Coerce(d, target).None?
  {
  }

  /** Boxing then dereferencing gets the value back: coercion bridges pointers both ways. */
  lemma CoercePointerBridge(d: Datum, t: GoType)
    requires TypeOf(d) == Some(t)
    ensures Coerce(d, Pointer(t)) == Some(PtrV(t, Some(d)))
    ensures Coerce(PtrV(t, Some(d)), t) == Some(d)
  {
    assert TypeOf(PtrV(t, Some(d))) == Some(Pointer(t));
    PointerNotSelf(t);
    if d.PtrV? {
      PointerNotSelf(d.elemTy);
    }
  }

  /**
   * The invariant every reachable cache state keeps:
   * - a table with an active flag or a key field also has an entry map;
   * - every stored record is non-nil and lives in its own partition;
   * - at most one table has a non-nil synchroniser.
   */
  predicate Inv(c: Cache) {
    && (forall t | t in c.tablesActive :: t in c.entries)
    && (forall t | t in c.key :: t in c.entries)
    && (forall t | t in c.entries :: WellPlaced(c.entries[t], t))
    && SingleSynchroniser(c)
  }

  /** Every record of `m` is non-nil and belongs to partition `table`. */
  predicate WellPlaced(m: Entries, table: Table) {
    forall k | k in m :: !m[k].record.Nil? && PartitionOf(m[k].record) == table
  }

  /** At most one table holds a non-nil synchroniser. */
  predicate SingleSynchroniser(c: Cache) {
    forall t, u | t in c.synchroniser && u in c.synchroniser
      && c.synchroniser[t].Some? && c.synchroniser[u].Some? :: t == u
  }

  /** Every table with an active flag or a key field has an entry map. */
  predicate Backed(c: Cache) {
    && (forall t | t in c.tablesActive :: t in c.entries)
    && (forall t | t in c.key :: t in c.entries)
  }

  /** A change that keeps the entry maps and synchronisers and stays backed keeps the invariant. */
  lemma InvKeep(c: Cache, d: Cache)
    requires Inv(c) && Backed(d)
    requires d.entries == c.entries && d.synchroniser == c.synchroniser
    ensures Inv(d)
  {
  }

  /** Replacing one table's entry map by a well-placed one keeps the invariant. */
  lemma InvSetEntries(c: Cache, d: Cache, table: Table, m: Entries)
    requires Inv(c) && Backed(d) && WellPlaced(m, table)
    requires d.entries == c.entries[table := m]
    requires SingleSynchroniser(d)
    ensures Inv(d)
  {
    forall u | u in d.entries
      ensures WellPlaced(d.entries[u], u)
    {
      if u != table {
        assert d.entries[u] == c.entries[u];
      }
    }
  }

  /** The freshly initialised cache satisfies the invariant. */
  lemma InitialiseInv(now: Time)
    ensures Inv(Initialise(now))
  {
  }

  /** Under the invariant a registered key implies the table has an entry map. */
  lemma KeyImpliesEntries(c: Cache, table: Table)
    requires Inv(c) && IsKeyRegistered(c, table)
    ensures table in c.entries
  {
  }
}
