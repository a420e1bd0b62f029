/**
 * Table-name resolution and field validation of the `entities` package
 * (dao/entities/entitiesValidators.go).
 */
module Validators {
  import opened Wrappers
  import opened GoStrings
  import opened GoTypes

  /** `entities.Table`: the name of a cache partition. */
  type Table = string

  /** The errors the validators return. */
  datatype FieldError =
    | InvalidField(field: string)
    | InvalidType(field: string, got: string, want: string)

  /** `GetFunctionName`: the last `.`-separated segment of a function's qualified name. */
  function GetFunctionName(qualified: string): (r: string)
    ensures '.' !in r
    ensures '.' !in qualified ==> r == qualified
  {
    LastSegment(qualified, '.')
  }

  /** A name ending in `.x` resolves to `x`. */
  lemma GetFunctionNameOfQualified(path: string, name: string)
    requires '.' !in name
    ensures GetFunctionName(path + "." + name) == name
  {
    LastSegmentOfSuffix(path, name, '.');
  }

  /** A string that contains the separator splits into at least two segments. */
  lemma SplitHasTwo(s: string, c: char)
    requires c in s
    ensures |Split(s, c)| >= 2
  {
  }

  /** The type string `GetStructType` reads the name from: the element type's when the string has a `*`. */
  function ElementTypeString(t: GoType): string {
    var s := TypeString(t);
    if '*' in s then
      (if t.Named? then NamedTypeString(t); assert false; s else TypeString(t.elem))
    else s
  }

  /** The second `.`-separated segment of a string that has a `.`, else the string itself. */
  function SecondSegment(s: string): string {
    if '.' in s then SplitHasTwo(s, '.'); Split(s, '.')[1] else s
  }

  /** `GetStructType`: the cache partition a value of type `t` belongs to. */
  function GetStructType(t: GoType): Table {
    SecondSegment(ElementTypeString(t))
  }

  /** The type of `entities.Table` values themselves. */
  const TableType: GoType := Named("entities", "Table", None)

  /** The second segment of any type string with a qualified base is the base type's name. */
  lemma SecondSegmentOfQualified(x: GoType)
    requires Base(x).pkg != ""
    ensures SecondSegment(TypeString(x)) == Base(x).name
  {
    QualifiedShape(x);
    SecondSegmentOfJoin(Prefix(x) + Base(x).pkg, Base(x).name);
  }

  /** A type string with a qualified base has exactly one `.`, the one after the package. */
  lemma QualifiedShape(x: GoType)
    requires Base(x).pkg != ""
    ensures '.' !in Prefix(x) + Base(x).pkg && '.' !in Base(x).name
    ensures TypeString(x) == (Prefix(x) + Base(x).pkg) + "." + Base(x).name
  {
    var b := Base(x);
    NamedTypeString(b);
    TypeStringShape(x);
    assert Prefix(x) + (b.pkg + "." + b.name) == (Prefix(x) + b.pkg) + "." + b.name;
  }

  /** `a.b` with no other `.` has second segment `b`. */
  lemma SecondSegmentOfJoin(head: string, name: string)
    requires '.' !in head && '.' !in name
    ensures SecondSegment(head + "." + name) == name
  {
    var s := head + "." + name;
    assert s[|head|] == '.';
    SplitTwo(head, name, '.');
  }

  /**
   * A type whose base is package-qualified resolves to the base type's name, however
   * many pointers, slices or arrays wrap it: `pkg.T`, `*pkg.T`, `[]pkg.T`, `*[]pkg.T` all give `T`.
   */
  lemma GetStructTypeQualified(t: GoType)
    requires Base(t).pkg != ""
    ensures GetStructType(t) == Base(t).name
  {
    if '*' in TypeString(t) {
      if t.Named? {
        NamedTypeString(t);
      }
      assert Base(t.elem) == Base(t);
      SecondSegmentOfQualified(t.elem);
    } else {
      SecondSegmentOfQualified(t);
    }
  }

  /** `Synchronise(table)` resolves the partition of its `entities.Table` argument: always `"Table"`. */
  lemma TableValueResolvesToTable()
    ensures GetStructType(TableType) == "Table"
  {
    GetStructTypeQualified(TableType);
  }

  /** A type string with neither `*` nor `.` is the partition name itself. */
  lemma GetStructTypePlain(t: GoType)
    requires '*' !in TypeString(t) && '.' !in TypeString(t)
    ensures GetStructType(t) == TypeString(t)
  {
  }

  /** For a qualified base type a pointer and its element type share a partition. */
  lemma PointerSharesPartition(t: GoType)
    requires Base(t).pkg != ""
    ensures GetStructType(Pointer(t)) == GetStructType(t)
  {
    GetStructTypeQualified(t);
    GetStructTypeQualified(Pointer(t));
  }

  /** Without a package qualifier, only one pointer level is removed: `**int` resolves to `*int`. */
  lemma DoublePointerToPredeclared()
    ensures GetStructType(Pointer(Pointer(Named("", "int", None)))) == "*int"
    ensures GetStructType(Pointer(Named("", "int", None))) == "int"
  {
    assert TypeString(Pointer(Named("", "int", None))) == "*int";
    assert TypeString(Pointer(Pointer(Named("", "int", None)))) == "**int";
    assert "*int"[0] == '*' && "**int"[0] == '*';
    assert '.' !in "*int" && '.' !in "int";
  }

  /** Strips every pointer level. */
  function Deref(t: GoType): (r: GoType)
    ensures !r.Pointer?
  {
    if t.Pointer? then Deref(t.elem) else t
  }

  /** The type the validators inspect: pointers removed, then one slice or array level and its pointers. */
  function ValidationTarget(t: GoType): (r: GoType)
    ensures !r.Pointer?
  {
    var u := Deref(t);
    if u.Slice? || u.Array? then Deref(u.elem) else u
  }

  /** `reflect.Type.FieldByName` on a struct's declared fields: the first with that name. */
  function FindField(decls: seq<FieldDecl>, name: string): (r: Option<GoType>)
    ensures r.Some? <==> exists i | 0 <= i < |decls| :: decls[i].name == name
    ensures r.Some? ==> exists i | 0 <= i < |decls| :: decls[i].name == name && decls[i].ty == r.value
  {
    if decls == [] then None
    else if decls[0].name == name then Some(decls[0].ty)
    else
      var r := FindField(decls[1..], name);
      assert forall i | 1 <= i < |decls| :: decls[i] == decls[1..][i - 1];
      r
  }

  /** True when `t` is a struct type that declares a field called `field`. */
  predicate DeclaresField(t: GoType, field: string) {
    t.Named? && t.structFields.Some? && FindField(t.structFields.value, field).Some?
  }

  /** `IsValidFieldInStruct`; `data` is the dynamic type of the argument, `None` for nil. */
  function IsValidFieldInStruct(field: string, data: Option<GoType>): (r: Outcome<FieldError>)
    ensures r.Fail? ==> r.error == InvalidField(field)
  {
    if data.None? then Fail(InvalidField(field))
    else
      var t := ValidationTarget(data.value);
      if !(t.Named? && t.structFields.Some?) then Fail(InvalidField(field))
      else if FindField(t.structFields.value, field).None? then Fail(InvalidField(field))
      else Pass
  }

  /** Validation succeeds exactly when the inspected type is a struct declaring the field. */
  lemma IsValidFieldInStructSpec(field: string, data: Option<GoType>)
    ensures IsValidFieldInStruct(field, data).Pass?
        <==> data.Some? && DeclaresField(ValidationTarget(data.value), field)
  {
  }

  /** Any number of pointers around the argument's type leaves the verdict unchanged. */
  lemma {:induction false} IsValidFieldThroughPointers(field: string, t: GoType)
    ensures IsValidFieldInStruct(field, Some(Pointer(t))) == IsValidFieldInStruct(field, Some(t))
  {
    assert Deref(Pointer(t)) == Deref(t);
  }

  /** One slice level (of pointers) is looked through, but a second one is not. */
  lemma SliceLevels(field: string, s: GoType)
    requires DeclaresField(s, field)
    ensures IsValidFieldInStruct(field, Some(Slice(Pointer(s)))).Pass?
    ensures IsValidFieldInStruct(field, Some(Pointer(Slice(s)))).Pass?
    ensures IsValidFieldInStruct(field, Some(Slice(Slice(s)))).Fail?
  {
    assert Deref(s) == s;
    assert Deref(Pointer(s)) == s;
    assert Deref(Pointer(Slice(s))) == Slice(s);
  }

  /** `IsValidTypeForField`: the value's type string must equal the field's declared type string. */
  function IsValidTypeForField(field: string, data: Option<GoType>, forStruct: Option<GoType>): (r: Outcome<FieldError>)
  {
    if forStruct.None? then Fail(InvalidField(field))
    else
      var st := ValidationTarget(forStruct.value);
      if !(st.Named? && st.structFields.Some?) then Fail(InvalidField(field))
      else
        var declared := FindField(st.structFields.value, field);
        if declared.None? then Fail(InvalidField(field))
        else
          var dataType := if data.None? then "<nil>" else TypeString(data.value);
          var want := TypeString(declared.value);
          if dataType != want then Fail(InvalidType(field, dataType, want))
          else Pass
  }

  /** No Go type prints as `<nil>`: its first rune is `*`, `[` or an identifier rune. */
  lemma {:induction false} NoTypeIsNil(t: GoType)
    ensures TypeString(t) != "<nil>"
  {
    var s := TypeString(t);
    match t
    case Named(pkg, name, _) =>
      if pkg == "" {
        assert s[0] == name[0];
      } else {
        assert s[0] == pkg[0];
      }
      assert IsIdentRune(s[0]);
    case Pointer(_) =>
      assert s[0] == '*';
    case Slice(_) =>
      assert s[0] == '[';
    case Array(_, _) =>
      assert s[0] == '[';
  }

  /**
   * `IsValidTypeForField` succeeds exactly when the struct declares the field and the
   * value is non-nil with the very type string the field was declared with.
   */
  lemma IsValidTypeForFieldSpec(field: string, data: Option<GoType>, forStruct: Option<GoType>)
    ensures IsValidTypeForField(field, data, forStruct).Pass?
        <==> && forStruct.Some?
             && DeclaresField(ValidationTarget(forStruct.value), field)
             && data.Some?
             && TypeString(data.value)
                == TypeString(FindField(ValidationTarget(forStruct.value).structFields.value, field).value)
  {
    if forStruct.Some? && DeclaresField(ValidationTarget(forStruct.value), field) && data.None? {
      NoTypeIsNil(FindField(ValidationTarget(forStruct.value).structFields.value, field).value);
    }
  }
}
