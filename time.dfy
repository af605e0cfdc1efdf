/** `time.sleep(seconds)` as far as the retry wrapper sees it: which lengths
    it accepts and what it raises for the others. CPython first converts the
    length to a signed 64-bit count of nanoseconds, raising `OverflowError`
    when that does not fit, and only then rejects a negative length with
    `ValueError`. */
module Time {
  import opened Exceptions
  import opened IntStr

  const NanosPerSecond: int := 1_000_000_000

  /** A value of C's signed 64-bit integer type. */
  predicate FitsInt64(n: int) {
    -0x8000_0000_0000_0000 <= n < 0x8000_0000_0000_0000
  }

  /** What `time.sleep` raises for a length outside the 64-bit nanosecond range. */
  const SleepOverflowError: Exception :=
    Exception({"OverflowError", "ArithmeticError", "Exception", "BaseException", "object"},
              "timestamp too large to convert to C _PyTime_t")

  /** What `time.sleep` raises when it is given a negative length. */
  const SleepLengthError: Exception :=
    Exception({"ValueError", "Exception", "BaseException", "object"},
              "sleep length must be non-negative")

  /** `time.sleep(seconds)` returns normally. */
  predicate SleepAccepts(seconds: int) {
    FitsInt64(seconds * NanosPerSecond) && seconds >= 0
  }

  /** The exception `time.sleep(seconds)` raises when it does not accept the
      length: the conversion is checked before the sign. */
  function SleepError(seconds: int): (e: Exception)
    requires !SleepAccepts(seconds)
    ensures e == SleepLengthError <==> -9223372036 <= seconds < 0
    ensures e == SleepOverflowError <==> seconds < -9223372036 || 9223372036 < seconds
  {
    if !FitsInt64(seconds * NanosPerSecond) then SleepOverflowError else SleepLengthError
  }

  /** The lengths `time.sleep` accepts are the whole seconds from 0 to
      9223372036, the largest whose nanosecond count fits in 64 bits. */
  lemma SleepRange(seconds: int)
    ensures SleepAccepts(seconds) <==> 0 <= seconds <= 9223372036
  {
  }

  /** Every length from -9223372036 to 9223372036 seconds, and so every
      length `time.sleep` accepts, has at most 4300 digits: the limit on
      formatting it only matters for lengths that `time.sleep` rejects. */
  lemma FormattableSleepLengths(seconds: int)
    ensures -9223372036 <= seconds <= 9223372036 ==> StrAccepts(seconds)
    ensures SleepAccepts(seconds) ==> StrAccepts(seconds)
  {
    if -9223372036 <= seconds <= 9223372036 {
      DigitsMonotone(if seconds < 0 then -seconds else seconds, 9223372036);
      assert Digits(9223372036) == 10;
    }
  }
}
