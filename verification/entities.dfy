/**
 * The string-encoded value wrappers of the `entities` package
 * (dao/entities/entities.go): `Bool`, `StormBool`, `Int` and the currency code of
 * `Currency`. Each wrapper stores its value as text; the receiver-mutating Go methods
 * are modelled as functions returning the receiver's new value.
 */
module Entities {
  import opened Wrappers
  import opened GoStrings
  import opened GoInts
  import StrConv

  const TRUE_TEXT: string := "true"
  const FALSE_TEXT: string := "false"

  /** A text the setters may store: exactly `"true"` or `"false"`. */
  predicate Canonical(text: string) {
    text == TRUE_TEXT || text == FALSE_TEXT
  }

  // ---------------------------------------------------------------- Bool

  datatype Bool = Bool(value: string)

  /** `Bool.Bool`: true only for the exact text `"true"`. */
  function BoolOf(b: Bool): bool {
    if b.value == "" then false else b.value == TRUE_TEXT
  }

  /** `Bool.Set`. */
  function SetBool(v: bool): (r: Bool)
    ensures Canonical(r.value)
    ensures BoolOf(r) == v
  {
    if v then Bool(TRUE_TEXT) else Bool(FALSE_TEXT)
  }

  /** `Bool.SetTrue`. */
  function SetTrue(): (r: Bool)
    ensures r == SetBool(true)
  {
    Bool(TRUE_TEXT)
  }

  /** `Bool.SetFalse`. */
  function SetFalse(): (r: Bool)
    ensures r == SetBool(false)
  {
    Bool(FALSE_TEXT)
  }

  /** `Bool.Bool` reads `true` exactly from `"true"`: the empty text and every other text read `false`. */
  lemma BoolOfSpec(b: Bool)
    ensures BoolOf(b) <==> b.value == TRUE_TEXT
  {
  }

  /** The words `SetFromString` reads as true, after trimming and lower-casing. */
  predicate TruthyWord(w: string) {
    w == "true" || w == "1" || w == "yes" || w == "y" || w == "t"
  }

  /** `Bool.SetFromString`. */
  function SetFromString(input: string): (r: Bool)
    ensures Canonical(r.value)
    ensures BoolOf(r) <==> TruthyWord(ToLower(TrimSpace(input)))
  {
    var w := ToLower(TrimSpace(input));
    if TruthyWord(w) then Bool(TRUE_TEXT) else Bool(FALSE_TEXT)
  }

  /** Case does not matter to `SetFromString`: `"YES"` reads true. */
  lemma SetFromStringFoldsCase()
    ensures BoolOf(SetFromString("YES"))
  {
    TrimSpaceOfTrimmed("YES");
    assert ToLower("YES") == "yes";
  }

  /** White space before or after the word does not matter to `SetFromString`. */
  lemma SetFromStringTrims(c: char, s: string)
    requires IsSpace(c)
    ensures SetFromString([c] + s) == SetFromString(s)
    ensures SetFromString(s + [c]) == SetFromString(s)
  {
    TrimSpaceSkipsLeadingSpace(c, s);
    TrimSpaceSkipsTrailingSpace(s, c);
  }

  /** Words outside the accepted list, and the empty text, read false. */
  lemma SetFromStringRejects()
    ensures !BoolOf(SetFromString("on"))
    ensures !BoolOf(SetFromString(""))
  {
    TrimSpaceOfTrimmed("on");
    TrimSpaceOfTrimmed("");
    TruthyLengths(ToLower(TrimSpace("on")));
    TruthyLengths(ToLower(TrimSpace("")));
  }

  /** The accepted words have one, three or four runes. */
  lemma TruthyLengths(w: string)
    ensures TruthyWord(w) ==> |w| == 1 || |w| == 3 || |w| == 4
  {
  }

  /** `Bool.Toggle`. */
  function Toggle(b: Bool): (r: Bool)
    ensures Canonical(r.value)
    ensures BoolOf(r) == !BoolOf(b)
  {
    if BoolOf(b) then Bool(FALSE_TEXT) else Bool(TRUE_TEXT)
  }

  /** Toggling twice keeps the truth value and leaves the canonical text for it. */
  lemma ToggleTwice(b: Bool)
    ensures Toggle(Toggle(b)) == SetBool(BoolOf(b))
    ensures Canonical(b.value) ==> Toggle(Toggle(b)) == b
  {
  }

  // ---------------------------------------------------------------- StormBool

  datatype StormBool = StormBool(value: string)

  /** `StormBool.Bool` (also `IsTrue`; `IsFalse` is its negation). */
  function StormBoolOf(b: StormBool): bool {
    b.value == TRUE_TEXT
  }

  /** `StormBool.Set`. */
  function SetStormBool(v: bool): (r: StormBool)
    ensures Canonical(r.value)
    ensures StormBoolOf(r) == v
  {
    if v then StormBool(TRUE_TEXT) else StormBool(FALSE_TEXT)
  }

  /** `Bool` and `StormBool` read every stored text the same way. */
  lemma BoolReadersAgree(text: string)
    ensures BoolOf(Bool(text)) == StormBoolOf(StormBool(text))
  {
  }

  // ---------------------------------------------------------------- Int

  /** An `int` held as its decimal text; the empty text reads as 0. */
  datatype Int = Int(value: string)

  /** `Int.Int` (also `Get`): `None` where Go panics on text `strconv.Atoi` rejects. */
  function IntOf(i: Int): (r: Option<Int64>)
    ensures i.value == "" ==> r == Some(0)
  {
    if i.value == "" then Some(0) else StrConv.Atoi(i.value)
  }

  /** `Int.Set`: stores `strconv.Itoa(n)`. */
  function SetInt(n: Int64): (r: Int)
    ensures IntOf(r) == Some(n)
    ensures r.value != ""
  {
    StrConv.ItoaAtoiRoundTrip(n);
    Int(StrConv.Itoa(n))
  }

  /** Setting is injective on the stored text, and the empty text reads as zero. */
  lemma SetIntCanonical(m: Int64, n: Int64)
    ensures SetInt(m) == SetInt(n) <==> m == n
    ensures IntOf(Int("")) == Some(0)
  {
    if SetInt(m) == SetInt(n) {
      StrConv.ItoaInjective(m, n);
    }
  }

  /** `Int.Equals`: compares the stored texts, not the numbers. */
  function IntEquals(a: Int, b: Int): bool {
    a.value == b.value
  }

  /** `Int.LessThan`: compares the parsed numbers; `None` where parsing panics. */
  function IntLessThan(a: Int, b: Int): (r: Option<bool>)
    ensures r.Some? <==> IntOf(a).Some? && IntOf(b).Some?
    ensures r.Some? ==> (r.value <==> IntOf(a).value < IntOf(b).value)
  {
    var x :- IntOf(a);
    var y :- IntOf(b);
    Some(x < y)
  }

  /** `Int.GreaterThan`. */
  function IntGreaterThan(a: Int, b: Int): (r: Option<bool>)
    ensures r.Some? <==> IntOf(a).Some? && IntOf(b).Some?
    ensures r.Some? ==> (r.value <==> IntOf(a).value > IntOf(b).value)
  {
    var x :- IntOf(a);
    var y :- IntOf(b);
    Some(x > y)
  }

  /** `Int.LessThanOrEqual`. */
  function IntLessThanOrEqual(a: Int, b: Int): (r: Option<bool>)
    ensures r.Some? <==> IntOf(a).Some? && IntOf(b).Some?
    ensures r.Some? ==> (r.value <==> IntOf(a).value <= IntOf(b).value)
  {
    var x :- IntOf(a);
    var y :- IntOf(b);
    Some(x <= y)
  }

  /** `Int.GreaterThanOrEqual`. */
  function IntGreaterThanOrEqual(a: Int, b: Int): (r: Option<bool>)
    ensures r.Some? <==> IntOf(a).Some? && IntOf(b).Some?
    ensures r.Some? ==> (r.value <==> IntOf(a).value >= IntOf(b).value)
  {
    var x :- IntOf(a);
    var y :- IntOf(b);
    Some(x >= y)
  }

  /** Equal texts denote equal numbers, but `"07"` and `"7"` are neither equal nor ordered. */
  lemma EqualsIsTextual()
    ensures !IntEquals(Int("07"), Int("7"))
    ensures IntOf(Int("07")) == IntOf(Int("7")) == Some(7)
    ensures IntLessThan(Int("07"), Int("7")) == Some(false)
    ensures IntGreaterThan(Int("07"), Int("7")) == Some(false)
  {
    StrConv.NonCanonicalForms();
  }

  /** Texts written by `SetInt` are equal exactly when the numbers are. */
  lemma EqualsAgreesOnSetValues(m: Int64, n: Int64)
    ensures IntEquals(SetInt(m), SetInt(n)) <==> m == n
  {
    SetIntCanonical(m, n);
  }

  /** On texts written by `SetInt` the four comparisons are the integer orderings. */
  lemma OrderAgreesOnSetValues(m: Int64, n: Int64)
    ensures IntLessThan(SetInt(m), SetInt(n)) == Some(m < n)
    ensures IntGreaterThan(SetInt(m), SetInt(n)) == Some(m > n)
    ensures IntLessThanOrEqual(SetInt(m), SetInt(n)) == Some(m <= n)
    ensures IntGreaterThanOrEqual(SetInt(m), SetInt(n)) == Some(m >= n)
  {
  }

  /**
   * The comparisons mirror each other: swapping the operands turns less into greater, and
   * less-or-equal is the negation of greater wherever both texts parse.
   */
  lemma ComparisonsMirror(a: Int, b: Int)
    ensures IntGreaterThan(a, b) == IntLessThan(b, a)
    ensures IntGreaterThanOrEqual(a, b) == IntLessThanOrEqual(b, a)
    ensures IntLessThanOrEqual(a, b).Some? ==> IntLessThanOrEqual(a, b).value == !IntGreaterThan(a, b).value
    ensures IntGreaterThanOrEqual(a, b).Some? ==> IntGreaterThanOrEqual(a, b).value == !IntLessThan(a, b).value
  {
  }

  /**
   * On texts written by `SetInt`, `Equals` holds exactly when both `LessThanOrEqual` and
   * `GreaterThanOrEqual` do; on `"07"` and `"7"` the orderings hold and `Equals` does not.
   */
  lemma OrderAndEqualsAgree(m: Int64, n: Int64)
    ensures IntEquals(SetInt(m), SetInt(n))
      <==> IntLessThanOrEqual(SetInt(m), SetInt(n)) == Some(true) && IntGreaterThanOrEqual(SetInt(m), SetInt(n)) == Some(true)
    ensures IntLessThanOrEqual(Int("07"), Int("7")) == Some(true) && IntGreaterThanOrEqual(Int("07"), Int("7")) == Some(true)
  {
    SetIntCanonical(m, n);
    StrConv.NonCanonicalForms();
  }

  /** `Int.Add` (and `IncrementBy`): the receiver becomes, and the call returns, the wrapped sum. */
  function Add(a: Int, b: Int): (r: Option<Int>)
    ensures r.Some? <==> IntOf(a).Some? && IntOf(b).Some?
    ensures r.Some? ==> IntOf(r.value) == Some(Wrap64(IntOf(a).value + IntOf(b).value))
  {
    if IntOf(a).Some? && IntOf(b).Some? then Some(SetInt(Wrap64(IntOf(a).value + IntOf(b).value)))
    else None
  }

  /** `Int.Subtract` (and `DecrementBy`): the wrapped difference. */
  function Subtract(a: Int, b: Int): (r: Option<Int>)
    ensures r.Some? <==> IntOf(a).Some? && IntOf(b).Some?
    ensures r.Some? ==> IntOf(r.value) == Some(Wrap64(IntOf(a).value - IntOf(b).value))
  {
    if IntOf(a).Some? && IntOf(b).Some? then Some(SetInt(Wrap64(IntOf(a).value - IntOf(b).value)))
    else None
  }

  /** `Int.MultiplyBy`: the wrapped product. */
  function MultiplyBy(a: Int, b: Int): (r: Option<Int>)
    ensures r.Some? <==> IntOf(a).Some? && IntOf(b).Some?
    ensures r.Some? ==> IntOf(r.value) == Some(Wrap64(IntOf(a).value * IntOf(b).value))
  {
    if IntOf(a).Some? && IntOf(b).Some? then Some(SetInt(Wrap64(IntOf(a).value * IntOf(b).value)))
    else None
  }

  /** `Int.DivideBy`: panics (`None`) on a zero divisor; otherwise the quotient truncated toward zero. */
  function DivideBy(a: Int, b: Int): (r: Option<Int>)
    ensures IntOf(b) == Some(0) ==> r.None?
    ensures r.Some? <==> IntOf(a).Some? && IntOf(b).Some? && IntOf(b).value != 0
    ensures r.Some? ==> IntOf(r.value) == Some(Wrap64(TruncDiv(IntOf(a).value, IntOf(b).value)))
  {
    var y :- IntOf(b);
    if y == 0 then None
    else
      var x :- IntOf(a);
      Some(SetInt(Wrap64(TruncDiv(x, y))))
  }

  /** Division truncates toward zero: -7 / 2 stores -3 (Dafny's Euclidean division would give -4). */
  lemma DivideTruncates()
    ensures DivideBy(SetInt(-7), SetInt(2)).Some?
    ensures IntOf(DivideBy(SetInt(-7), SetInt(2)).value) == Some(-3)
  {
  }

  /** `Int.Increment`. */
  function Increment(a: Int): (r: Option<Int>)
    ensures r.Some? <==> IntOf(a).Some?
    ensures r.Some? ==> IntOf(r.value) == Some(Wrap64(IntOf(a).value + 1))
  {
    var x :- IntOf(a);
    Some(SetInt(Wrap64(x + 1)))
  }

  /** `Int.Decrement`. */
  function Decrement(a: Int): (r: Option<Int>)
    ensures r.Some? <==> IntOf(a).Some?
    ensures r.Some? ==> IntOf(r.value) == Some(Wrap64(IntOf(a).value - 1))
  {
    var x :- IntOf(a);
    Some(SetInt(Wrap64(x - 1)))
  }

  /** Incrementing then decrementing keeps the number and leaves its canonical text. */
  lemma IncrementDecrement(a: Int)
    requires IntOf(a).Some?
    ensures Increment(a).Some? && Decrement(Increment(a).value).Some?
    ensures Decrement(Increment(a).value).value == SetInt(IntOf(a).value)
  {
    IncrementOf(a);
    DecrementOfSuccessor(IntOf(a).value);
  }

  /** Decrementing the stored wrapped successor of `n` stores `n` again. */
  lemma DecrementOfSuccessor(n: Int64)
    ensures Decrement(SetInt(Wrap64(n as int + 1))) == Some(SetInt(n))
  {
    DecrementOfSet(Wrap64(n as int + 1));
    WrapStep(n);
  }

  /** Incrementing a number stores its wrapped successor. */
  lemma IncrementOf(a: Int)
    requires IntOf(a).Some?
    ensures Increment(a) == Some(SetInt(Wrap64(IntOf(a).value + 1)))
  {
  }

  /** Decrementing a stored number stores its wrapped predecessor. */
  lemma DecrementOfSet(m: Int64)
    ensures Decrement(SetInt(m)) == Some(SetInt(Wrap64(m - 1)))
  {
  }

  /** Adding one and then subtracting one, each wrapped to 64 bits, is the identity. */
  lemma WrapStep(n: Int64)
    ensures Wrap64(Wrap64(n + 1) - 1) == n
  {
    if n == MAX_INT64 {
      assert Wrap64(n + 1) == MIN_INT64;
      assert Wrap64(MIN_INT64 - 1) == MAX_INT64;
    } else {
      assert Wrap64(n + 1) == n + 1;
    }
  }

  /** The largest `int` wraps to the smallest on `Increment`, as Go's `int` does. */
  lemma IncrementWraps()
    ensures Increment(SetInt(MAX_INT64)) == Some(SetInt(MIN_INT64))
  {
    IncrementOfSet(MAX_INT64);
    assert Wrap64(MAX_INT64 as int + 1) == MIN_INT64;
  }

  /** Incrementing a stored number stores its wrapped successor. */
  lemma IncrementOfSet(n: Int64)
    ensures Increment(SetInt(n)) == Some(SetInt(Wrap64(n as int + 1)))
  {
    IncrementOf(SetInt(n));
  }

  /** `Int.Int32`: the parsed value truncated to 32 bits. */
  function IntToInt32(a: Int): (r: Option<int>)
    ensures r.Some? <==> IntOf(a).Some?
    ensures r.Some? ==> -TWO_31 <= r.value < TWO_31 && (r.value - IntOf(a).value) % TWO_32 == 0
  {
    var x :- IntOf(a);
    Some(ToInt32(x))
  }

  /** `Int.UInt32`. */
  function IntToUint32(a: Int): (r: Option<nat>)
    ensures r.Some? <==> IntOf(a).Some?
    ensures r.Some? ==> r.value < TWO_32 && (r.value - IntOf(a).value) % TWO_32 == 0
  {
    var x :- IntOf(a);
    Some(ToUint32(x))
  }

  /** `Int.UInt64` and `Int.UInt`: negative values wrap to large unsigned ones. */
  function IntToUint64(a: Int): (r: Option<nat>)
    ensures r.Some? <==> IntOf(a).Some?
    ensures r.Some? ==> r.value < TWO_64 && (r.value - IntOf(a).value) % TWO_64 == 0
  {
    var x :- IntOf(a);
    Some(ToUint64(x))
  }

  // ---------------------------------------------------------------- Currency

  /** The floating-point amount of a currency value, kept as its opaque text. */
  datatype Float = Float(value: string)

  datatype Currency = Currency(value: Float, ccy: string)

  const DEFAULT_CCY: string := "GBP"

  /**
   * `Currency.SetCode`: the empty code becomes `"GBP"`; a code whose UTF-8 length is not
   * three bytes panics (`None`); otherwise the upper-cased code is stored.
   */
  function SetCode(c: Currency, code: string): (r: Option<Currency>)
    ensures code == "" ==> r == Some(c.(ccy := DEFAULT_CCY))
    ensures code != "" ==> (r.Some? <==> ByteLen(code) == 3)
    ensures r.Some? ==> r.value.value == c.value && r.value.ccy == ToUpper(if code == "" then DEFAULT_CCY else code)
  {
    var code' := if code == "" then DEFAULT_CCY else code;
    if ByteLen(code') != 3 then None
    else
      assert code == "" ==> ToUpper(code') == DEFAULT_CCY;
      Some(c.(ccy := ToUpper(code')))
  }

  /** Upper-casing keeps the UTF-8 length. */
  lemma {:induction false} ToUpperKeepsByteLen(s: string)
    ensures ByteLen(ToUpper(s)) == ByteLen(s)
  {
    if s != [] {
      ToUpperKeepsByteLen(s[1..]);
      assert ToUpper(s)[1..] == ToUpper(s[1..]);
    }
  }

  /** Every stored code is three bytes long, and storing it again changes nothing. */
  lemma SetCodeStable(c: Currency, code: string)
    requires SetCode(c, code).Some?
    ensures ByteLen(SetCode(c, code).value.ccy) == 3
    ensures SetCode(SetCode(c, code).value, SetCode(c, code).value.ccy) == SetCode(c, code)
  {
    var stored := SetCode(c, code).value.ccy;
    var code' := if code == "" then DEFAULT_CCY else code;
    ToUpperKeepsByteLen(code');
    ToUpperIdempotent(code');
    assert stored != "";
  }

  /** The length rule counts bytes, not runes: `"€"` is accepted, `"ab"` and `"abcd"` are not. */
  lemma SetCodeCountsBytes(c: Currency)
    ensures SetCode(c, "gbp") == Some(c.(ccy := "GBP"))
    ensures SetCode(c, "€").Some?
    ensures SetCode(c, "ab").None? && SetCode(c, "abcd").None?
  {
    assert ToUpper("gbp") == "GBP";
    assert ByteLen("€") == 3;
  }
}
