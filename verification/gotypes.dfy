/**
 * The slice of Go's run-time type system the repository inspects through `reflect`:
 * named types (structs and others), pointers, slices and arrays, their `String()`
 * form, and the dynamic values the cache stores.
 */
module GoTypes {
  import opened Wrappers
  import StrConv
  import opened SeqFacts

  /** Runes allowed in a Go identifier (ASCII letters, digits and `_`). */
  predicate IsIdentRune(c: char) {
    ('a' <= c <= 'z') || ('A' <= c <= 'Z') || ('0' <= c <= '9') || c == '_'
  }

  predicate IsIdent(s: string) {
    |s| > 0 && forall i | 0 <= i < |s| :: IsIdentRune(s[i])
  }

  type Ident = s: string | IsIdent(s) witness "T"

  /**
   * Whether Go exports the name: its first letter is upper case. Only ASCII letters are
   * told apart here, as elsewhere in the model.
   */
  predicate Exported(s: string) {
    |s| > 0 && 'A' <= s[0] <= 'Z'
  }

  /** A package name as `reflect` prints it; empty for predeclared types such as `int`. */
  type PkgName = s: string | s == "" || IsIdent(s) witness ""

  /** One declared field of a struct type. */
  datatype FieldDecl = FieldDecl(name: Ident, ty: GoType)

  /**
   * A Go type. `Named` covers both predeclared and defined types; `structFields` is
   * the declared field list when the underlying type is a struct, and `None` otherwise.
   */
  datatype GoType =
    | Named(pkg: PkgName, name: Ident, structFields: Option<seq<FieldDecl>>)
    | Pointer(elem: GoType)
    | Slice(elem: GoType)
    | Array(len: nat, elem: GoType)

  /** `reflect.Type.String()`: `pkg.Name`, `*T`, `[]T`, `[n]T`. */
  function TypeString(t: GoType): string {
    match t
    case Named(pkg, name, _) => if pkg == "" then name else pkg + "." + name
    case Pointer(e) => "*" + TypeString(e)
    case Slice(e) => "[]" + TypeString(e)
    case Array(n, e) => "[" + StrConv.Itoa(n) + "]" + TypeString(e)
  }

  /** The named type at the bottom of a chain of pointers, slices and arrays. */
  function Base(t: GoType): (b: GoType)
    ensures b.Named?
  {
    if t.Named? then t else Base(t.elem)
  }

  /** The text `TypeString` puts in front of the base type's name. */
  function Prefix(t: GoType): string {
    match t
    case Named(_, _, _) => ""
    case Pointer(e) => "*" + Prefix(e)
    case Slice(e) => "[]" + Prefix(e)
    case Array(n, e) => "[" + StrConv.Itoa(n) + "]" + Prefix(e)
  }

  /** Every type string is its prefix followed by the base type's string; the prefix has no `.`. */
  lemma {:induction false} TypeStringShape(t: GoType)
    ensures TypeString(t) == Prefix(t) + TypeString(Base(t))
    ensures '.' !in Prefix(t)
  {
    PrefixNoDot(t);
    if !t.Named? {
      var e := t.elem;
      TypeStringShape(e);
      var lead := match t
        case Pointer(_) => "*"
        case Slice(_) => "[]"
        case Array(n, _) => "[" + StrConv.Itoa(n) + "]";
      assert TypeString(t) == lead + TypeString(e) && Prefix(t) == lead + Prefix(e);
      AppendAssoc(lead, Prefix(e), TypeString(Base(e)));
    }
  }

  /** The prefix of a type string has no `.`: it is made of `*`, brackets and digits. */
  lemma {:induction false} PrefixNoDot(t: GoType)
    ensures '.' !in Prefix(t)
  {
    if !t.Named? {
      PrefixNoDot(t.elem);
      if t.Array? {
        var digits := StrConv.Itoa(t.len);
        assert '.' !in digits by {
          assert forall i | 0 <= i < |digits| :: StrConv.IsDigit(digits[i]);
        }
      }
    }
  }

  /** A named type prints as identifier runes with at most one `.`, never a `*`. */
  lemma NamedTypeString(t: GoType)
    requires t.Named?
    ensures '*' !in TypeString(t)
    ensures t.pkg == "" ==> '.' !in TypeString(t)
    ensures t.pkg != "" ==> TypeString(t) == t.pkg + "." + t.name && '.' !in t.pkg && '.' !in t.name
  {
    var s := TypeString(t);
    assert forall i | 0 <= i < |s| :: IsIdentRune(s[i]) || s[i] == '.';
  }

  /** The nesting depth of a type. */
  function Depth(t: GoType): nat {
    if t.Named? then 0 else 1 + Depth(t.elem)
  }

  /** A pointer type is never its own element type, nor the element of its element. */
  lemma PointerNotSelf(t: GoType)
    ensures Pointer(t) != t && Pointer(Pointer(t)) != t
  {
    assert Depth(Pointer(t)) == Depth(t) + 1;
    assert Depth(Pointer(Pointer(t))) == Depth(t) + 2;
  }

  /**
   * Comparable field values (the key and index values of cached records) as held in an
   * `any`: each carries its dynamic type `ty`, so that, as with Go's `==` on interface
   * values, an `int` 7 and an `int64` 7 are different values.
   */
  datatype Value = IntV(ty: GoType, i: int) | StrV(ty: GoType, s: string) | BoolV(ty: GoType, b: bool)

  /**
   * A dynamic value as held in an `any`: the untyped nil, a struct value of type `ty`
   * with its field values, a (possibly nil) pointer whose element type is `elemTy`,
   * or any other non-struct, non-pointer value, of which only the type is observed.
   */
  datatype Datum =
    | Nil
    | StructV(ty: GoType, fields: map<string, Value>)
    | PtrV(elemTy: GoType, target: Option<Datum>)
    | OtherV(ty: GoType)

  /** `reflect.TypeOf`: `None` for the untyped nil. */
  function TypeOf(d: Datum): (r: Option<GoType>)
    ensures r.None? <==> d.Nil?
  {
    match d
    case Nil => None
    case StructV(ty, _) => Some(ty)
    case PtrV(e, _) => Some(Pointer(e))
    case OtherV(ty) => Some(ty)
  }

  /** Every non-nil pointer reachable from `d` points at a value of its element type, as in Go. */
  predicate WellTyped(d: Datum) {
    match d
    case PtrV(e, Some(x)) => TypeOf(x) == Some(e) && WellTyped(x)
    case _ => true
  }
}
