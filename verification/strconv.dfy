/**
 * Go's `strconv.Itoa` and `strconv.Atoi` for a 64-bit `int`: base 10, an optional
 * leading `+` or `-`, ASCII digits only, and a range error outside `int`.
 */
module StrConv {
  import opened Wrappers
  import opened GoInts

  predicate IsDigit(c: char) {
    '0' <= c <= '9'
  }

  predicate AllDigits(s: string) {
    forall i | 0 <= i < |s| :: IsDigit(s[i])
  }

  function DigitChar(d: nat): (c: char)
    requires d < 10
    ensures IsDigit(c)
  {
    ('0' as int + d) as char
  }

  function DigitValue(c: char): (d: nat)
    requires IsDigit(c)
    ensures d < 10
  {
    c as int - '0' as int
  }

  /** The decimal digits of `n`, most significant first, without leading zeros. */
  function NatToDigits(n: nat): (s: string)
    ensures |s| >= 1 && AllDigits(s)
    ensures |s| > 1 ==> s[0] != '0'
  {
    if n < 10 then [DigitChar(n)] else NatToDigits(n / 10) + [DigitChar(n % 10)]
  }

  /** The number a run of decimal digits denotes (leading zeros allowed). */
  function DigitsValue(s: string): nat
    requires AllDigits(s)
  {
    if s == [] then 0 else 10 * DigitsValue(s[..|s| - 1]) + DigitValue(s[|s| - 1])
  }

  /** `strconv.Itoa`. */
  function Itoa(n: int): (s: string)
    ensures s != [] && (s[0] == '-' <==> n < 0)
  {
    if n < 0 then "-" + NatToDigits(-n) else NatToDigits(n)
  }

  /** `strconv.Atoi`; `None` stands for the syntax or range error Go returns. */
  function Atoi(s: string): (r: Option<Int64>)
    ensures r.Some? ==> s != []
  {
    if s == [] then None
    else
      var neg := s[0] == '-';
      var body := if s[0] == '-' || s[0] == '+' then s[1..] else s;
      if body == [] || !AllDigits(body) then None
      else
        var v: int := DigitsValue(body);
        var n := if neg then -v else v;
        if MIN_INT64 <= n <= MAX_INT64 then Some(n) else None
  }

  /** Reading back the digits of `n` gives `n`. */
  lemma {:induction false} DigitsRoundTrip(n: nat)
    ensures DigitsValue(NatToDigits(n)) == n
  {
    if n >= 10 {
      DigitsRoundTrip(n / 10);
      var s := NatToDigits(n);
      assert s[..|s| - 1] == NatToDigits(n / 10);
    }
  }

  /** `Atoi(Itoa(n)) == n` for every 64-bit `n`. */
  lemma ItoaAtoiRoundTrip(n: Int64)
    ensures Atoi(Itoa(n)) == Some(n)
  {
    if n < 0 {
      var m: nat := -(n as int);
      DigitsRoundTrip(m);
      assert Itoa(n)[1..] == NatToDigits(m);
    } else {
      DigitsRoundTrip(n);
    }
  }

  /** `Itoa` is injective: distinct numbers have distinct decimal forms. */
  lemma ItoaInjective(m: Int64, n: Int64)
    requires Itoa(m) == Itoa(n)
    ensures m == n
  {
    ItoaAtoiRoundTrip(m);
    ItoaAtoiRoundTrip(n);
  }

  /** Leading zeros and an explicit `+` are accepted, so several strings denote one number. */
  lemma NonCanonicalForms()
    ensures Atoi("07") == Some(7) && Atoi("+7") == Some(7) && Atoi("7") == Some(7)
    ensures Atoi("") == None && Atoi("-") == None && Atoi("7a") == None
  {
    assert DigitsValue("07") == 7 by { assert "07"[..1] == "0"; }
    assert DigitsValue("7") == 7;
    assert "+7"[1..] == "7";
    assert !AllDigits("7a") by { assert !IsDigit("7a"[1]); }
  }
}
