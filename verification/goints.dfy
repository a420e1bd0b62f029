/**
 * Go's fixed-width integer arithmetic on 64-bit platforms, where `int` is 64 bits:
 * two's-complement wrap-around, truncating conversions, and division that
 * truncates toward zero (unlike Dafny's Euclidean `/`). Instants of `time.Time` are
 * integers too.
 */
module GoInts {

  const TWO_63: int := 0x8000_0000_0000_0000
  const TWO_64: int := 0x1_0000_0000_0000_0000
  const TWO_31: int := 0x8000_0000
  const TWO_32: int := 0x1_0000_0000

  const MIN_INT64: int := -TWO_63
  const MAX_INT64: int := TWO_63 - 1

  /** `time.Time` as nanoseconds since `time.Time{}`. */
  type Time = int

  /** The zero `time.Time{}`. */
  const ZERO_TIME: Time := 0

  /** Values of Go's `int` (and `int64`). */
  type Int64 = x: int | MIN_INT64 <= x <= MAX_INT64

  /** The `int` Go stores after an arithmetic result `x` overflows: `x` modulo 2^64, signed. */
  function Wrap64(x: int): (r: Int64)
    ensures (r - x) % TWO_64 == 0
    ensures MIN_INT64 <= x <= MAX_INT64 ==> r == x
  {
    (x + TWO_63) % TWO_64 - TWO_63
  }

  /** Go's `int32(x)`: keeps the low 32 bits, signed. */
  function ToInt32(x: int): (r: int)
    ensures -TWO_31 <= r < TWO_31
    ensures (r - x) % TWO_32 == 0
  {
    (x + TWO_31) % TWO_32 - TWO_31
  }

  /** Go's `uint32(x)`: keeps the low 32 bits, unsigned. */
  function ToUint32(x: int): (r: nat)
    ensures r < TWO_32
    ensures (r - x) % TWO_32 == 0
  {
    x % TWO_32
  }

  /** Go's `uint64(x)` (and `uint(x)`): keeps the low 64 bits, unsigned. */
  function ToUint64(x: int): (r: nat)
    ensures r < TWO_64
    ensures (r - x) % TWO_64 == 0
  {
    x % TWO_64
  }

  function Abs(x: int): nat {
    if x < 0 then -x else x
  }

  /** Go's integer `/` before wrap-around: the quotient rounded toward zero. */
  function TruncDiv(a: int, b: int): (q: int)
    requires b != 0
    ensures Abs(a - q * b) < Abs(b)
    ensures a - q * b == 0 || (a - q * b < 0 <==> a < 0)
  {
    var m := Abs(a) / Abs(b);
    var rem := Abs(a) % Abs(b);
    var q := if (a < 0) == (b < 0) then m else -m;
    assert Abs(a) == m * Abs(b) + rem;
    assert q * b == m * Abs(b) || q * b == -(m * Abs(b)) by {
      if b < 0 {
        assert Abs(b) == -b;
      }
    }
    assert a - q * b == (if a < 0 then -rem else rem) by {
      if b < 0 {
        assert q * b == (if a < 0 then -(m * Abs(b)) else m * Abs(b));
      } else {
        assert q * b == (if a < 0 then -(m * Abs(b)) else m * Abs(b));
      }
    }
    q
  }

  /** The one quotient that overflows: the most negative `int` divided by -1 wraps to itself. */
  lemma DivOverflow()
    ensures Wrap64(TruncDiv(MIN_INT64, -1)) == MIN_INT64
  {
  }

  /** Integers that agree modulo 2^64 wrap to the same `int64`. */
  lemma WrapCongruent(x: int, y: int, k: int)
    requires x - y == k * TWO_64
    ensures Wrap64(x) == Wrap64(y)
  {
    var a, b := x + TWO_63, y + TWO_63;
    assert a == b + k * TWO_64;
    var q := b / TWO_64;
    assert b == q * TWO_64 + b % TWO_64;
    assert a == (q + k) * TWO_64 + b % TWO_64;
    DivModUnique(a, q + k, b % TWO_64);
  }

  /** `a` written as `q * 2^64 + r` with `0 <= r < 2^64` has remainder `r`. */
  lemma DivModUnique(a: int, q: int, r: int)
    requires 0 <= r < TWO_64 && a == q * TWO_64 + r
    ensures a % TWO_64 == r
  {
    var q', r' := a / TWO_64, a % TWO_64;
    assert (q - q') * TWO_64 == r' - r;
  }

  /** Wrapping after every step of a sum gives the wrapped total. */
  lemma WrapAdd(x: int, y: int)
    ensures Wrap64(Wrap64(x) + y) == Wrap64(x + y)
  {
    var w := Wrap64(x);
    var k := (w - x) / TWO_64;
    assert w - x == k * TWO_64;
    WrapCongruent(w + y, x + y, k);
  }

  /** Counting one and then `n` more, wrapping each time, is counting `n + 1` at once. */
  lemma WrapCount(start: int, next: Int64, last: Int64, n: int, total: int)
    requires next == Wrap64(start + 1) && last == Wrap64(next + n) && total == n + 1
    ensures last == Wrap64(start + total)
  {
    WrapAdd(start + 1, n);
    assert start + 1 + n == start + total;
  }
}
