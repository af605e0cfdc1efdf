/** Converting an `int` to its decimal string, as the f-string of the retry
    warning does with `mdelay`. CPython (3.11 and the security releases
    3.7.14, 3.8.14, 3.9.14 and 3.10.7) refuses to convert an integer of more
    than 4300 decimal digits, not counting the sign, and raises `ValueError`
    instead. */
module IntStr {
  import opened Exceptions

  /** `sys.int_info.default_max_str_digits`. */
  const MaxStrDigits: nat := 4300

  function Pow(b: int, e: nat): (r: int)
    ensures b >= 0 ==> r >= 0
  {
    if e == 0 then 1 else b * Pow(b, e - 1)
  }

  /** The number of decimal digits of `n`; zero has one. */
  function Digits(n: nat): (d: nat)
    ensures d >= 1
    ensures n < 10 <==> d == 1
  {
    if n < 10 then 1 else 1 + Digits(n / 10)
  }

  /** `str(x)` (or `f"{x}"`) returns normally. */
  predicate StrAccepts(x: int) {
    Digits(if x < 0 then -x else x) <= MaxStrDigits
  }

  /** What the conversion of an integer with too many digits raises. */
  const StrDigitsError: Exception :=
    Exception({"ValueError", "Exception", "BaseException", "object"},
              "Exceeds the limit (4300 digits) for integer string conversion; use sys.set_int_max_str_digits() to increase the limit")

  /** A larger number has at least as many digits. */
  lemma {:induction false} DigitsMonotone(a: nat, b: nat)
    requires a <= b
    ensures Digits(a) <= Digits(b)
  {
    if a >= 10 {
      DigitsMonotone(a / 10, b / 10);
    }
  }

  lemma DivTenBelow(n: nat, m: nat)
    ensures n / 10 < m <==> n < 10 * m
  {
    assert n == 10 * (n / 10) + n % 10;
  }

  /** `n` has at most `k` digits exactly when it is below `10^k`. */
  lemma {:induction false} DigitsBelow(n: nat, k: nat)
    requires k >= 1
    ensures Digits(n) <= k <==> n < Pow(10, k)
  {
    if k > 1 {
      DigitsBelow(n / 10, k - 1);
      DivTenBelow(n, Pow(10, k - 1));
      if n < 10 {
        assert Pow(10, k - 1) >= 1 by { DigitsBelow(0, k - 1); }
      }
    }
  }

  /** `10^k` has `k + 1` digits. */
  lemma {:induction false} DigitsOfPower(k: nat)
    ensures Digits(Pow(10, k)) == k + 1
  {
    if k > 0 {
      DigitsOfPower(k - 1);
      DigitsBelow(0, k);
      assert Pow(10, k) / 10 == Pow(10, k - 1);
    }
  }

  /** The integers `str` converts are exactly those strictly between
      `-10^4300` and `10^4300`. */
  lemma StrRange(x: int)
    ensures StrAccepts(x) <==> -Pow(10, MaxStrDigits) < x < Pow(10, MaxStrDigits)
  {
    DigitsBelow(if x < 0 then -x else x, MaxStrDigits);
  }
}
