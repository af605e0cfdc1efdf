# Retry with exponential backoff

A model of the `retry(exceptions, tries=3, delay=2, backoff=2)` decorator of
the industry-sentiment data collector, and proofs about the wrapper
`f_retry` it builds around a data fetcher.

The wrapper calls the fetcher up to `tries` times, and exactly once when
`tries <= 1`. The first `tries - 1` calls are made inside a `try`. An
exception that `exceptions` matches is logged as a warning announcing the
current delay `mdelay`; then the wrapper sleeps `mdelay` seconds, decrements
`mtries` and multiplies `mdelay` by `backoff`. The last call is made outside the `try`, so its exception
propagates. An exception that `exceptions` does not match leaves at once,
on any attempt. A returned value is passed on at once.

Modelling choices:

- The wrapped function is an oracle `f(args, i)`: the `Outcome` (`Returned(v)`
  or `Raised(e)`) of the call with index `i`, made with arguments `args`.
  The index stands for whatever in the outside world (the network, the data
  source) makes one call differ from the next.
- The wrapper does not sleep or log. It returns a trace of `Event`s, in the
  order they happen: `Invoke(args)` for a call, `Warn(e, mdelay)` for the
  warning, `Sleep(mdelay)` for `time.sleep`.
- An exception is its set of classes (its MRO) and its message. An
  `except exceptions` clause tests that MRO: it matches when one of the
  classes named in `exceptions` is in it, so that the exception's class is a
  subclass of that class. A tuple of classes catches what any of them
  catches.
- `tries`, `delay` and `backoff` are unbounded integers, as Python's `int`
  is. `time.sleep` (module `Time`) does not accept every length. CPython
  first converts it to a signed 64-bit count of nanoseconds and raises
  `OverflowError` when that does not fit, that is, below -9223372036 or
  above 9223372036 seconds. It then raises `ValueError` ("sleep length must
  be non-negative") for a negative length. Either error is raised inside the
  `except` block, so it leaves the wrapper. The model has both: a caught
  exception whose sleep is rejected is warned about (when the warning can be
  built, below), and then the wrapper raises `SleepError(mdelay)`.
- The warning is an f-string, and building it converts `mdelay` to a
  decimal string before anything is logged. CPython since 3.11 (and the
  security releases 3.7.14, 3.8.14, 3.9.14 and 3.10.7) raises `ValueError`
  for an integer of more than 4300 digits (module `IntStr`). That error is
  raised inside the `except` block too. So a caught exception whose
  `mdelay` has more than 4300 digits is not warned about, nothing sleeps,
  and the wrapper raises `StrDigitsError`. Every length `time.sleep`
  accepts has at most 10 digits, so only a delay that `time.sleep` would
  reject anyway is affected.
- `Retry.CallWithRetry` is the loop of `f_retry`, line by line. It is proved
  equal to the reference functions `Retry.Result` and `Retry.Trace`. These
  are defined from `Retry.LastAttempt`, the first attempt after which the
  wrapper does not try again. The properties are lemmas about `Result` and
  `Trace`, in `RetryProperties` and `Collector`.

The decorator is defined in industry_sentiment/backend/src/collector.py.

## Model

| member | source | states |
|---|---|---|
| `Exceptions.CatchesTuple` | industry_sentiment/backend/src/collector.py:26 | `except (A, B)` catches an exception exactly when `except A` or `except B` catches it. |
| `Time.SleepError` | industry_sentiment/backend/src/collector.py:28 | A rejected `time.sleep` length raises `ValueError` exactly when it is negative but no less than -9223372036, and `OverflowError` exactly when it lies outside ±9223372036. |
| `Time.FormattableSleepLengths` | industry_sentiment/backend/src/collector.py:27-28 | Every length from -9223372036 to 9223372036, and so every length `time.sleep` accepts, can be put in the warning: the digit limit matters only for lengths that `time.sleep` would reject. |
| `IntStr.StrRange` | industry_sentiment/backend/src/collector.py:27 | `f"{mdelay}"` succeeds exactly when `mdelay` lies strictly between `-10^4300` and `10^4300`, that is, when it has at most 4300 digits, not counting the sign. |
| `IntStr.DigitsBelow` | industry_sentiment/backend/src/collector.py:27 | A number has at most `k` decimal digits exactly when it is below `10^k`. |
| `IntStr.DigitsOfPower` | industry_sentiment/backend/src/collector.py:27 | `10^k` has `k + 1` digits, so `10**4300` is the least positive integer the conversion rejects. |
| `IntStr.DigitsMonotone` | industry_sentiment/backend/src/collector.py:27 | A larger number has at least as many digits. |
| `Time.SleepRange` | industry_sentiment/backend/src/collector.py:28 | `time.sleep` accepts exactly the lengths from 0 to 9223372036 seconds. |
| `Retry.RetryDefaults` | industry_sentiment/backend/src/collector.py:15 | `retry(exceptions)` keeps `exceptions`, allows three calls, and sleeps 2 and then 4 seconds (defaults `tries=3`, `delay=2`, `backoff=2`). |
| `Retry.Delay` | industry_sentiment/backend/src/collector.py:22-30 | `mdelay` starts at `delay`, and stays non-negative when `delay` and `backoff` are. |
| `Retry.Rounds` | industry_sentiment/backend/src/collector.py:23-30 | `n` retried loop iterations produce three events each, starting with a call. Their order (call, warning, sleep) holds by definition; `RetryProperties.RoundsEvents` and `RetryProperties.RoundsWarnedDelays` state what each kind of event carries. |
| `Retry.Result` | industry_sentiment/backend/src/collector.py:21-31 | A returned value is the last call's. When the last call returns, the wrapper returns it. A raised exception is the last call's, the `ValueError` of formatting an `mdelay` of more than 4300 digits into the warning, or `time.sleep`'s `ValueError` or `OverflowError`. |
| `Retry.Trace` | industry_sentiment/backend/src/collector.py:21-31 | The wrapper starts with a call, and performs three events per retried attempt and one or two for the last attempt: two exactly when that attempt was caught, its warning was built and logged, and its sleep is rejected. When the warning cannot be built, the trace ends with the call. What the events are and how the trace ends are stated by `RetryProperties.TraceEvents` and `RetryProperties.NoSleepAfterLastCall`. |
| `Retry.CallWithRetry` | industry_sentiment/backend/src/collector.py:21-31 | The loop of `f_retry` returns exactly `Result` and performs exactly the events of `Trace`. Its three early exits are a returned value or an unmatched exception, a warning that cannot be built, and a rejected sleep. It terminates because `mtries` decreases on every iteration. |
| `Retry.Attempts` | industry_sentiment/backend/src/collector.py:22-31 | The wrapper has at least one call available, exactly `tries` calls when `tries >= 1`, and exactly one when `tries <= 1`. |
| `Retry.LastFrom` | industry_sentiment/backend/src/collector.py:23-30 | From attempt `i` on, the first attempt after which the wrapper does not retry exists among the `tries` attempts, and every attempt before it was retried. |
| `Retry.LastAttempt` | industry_sentiment/backend/src/collector.py:22-31 | The last call is among the first `tries` (or the single call), is not retried, and every earlier attempt was caught and slept through. |
| `Retry.LastAttemptIs` | industry_sentiment/backend/src/collector.py:23-31 | Any attempt that stops the loop after only retried attempts is the last call. |
| `Retry.DelayStep` | industry_sentiment/backend/src/collector.py:28-30 | The delay of the next attempt is the current delay times `backoff` (`mdelay *= backoff`). |
| `RetryProperties.TraceEvents` | industry_sentiment/backend/src/collector.py:22-31 | For last attempt `k`: `k + 1` calls, all with `args`; `k` sleeps, the `i`-th of length `Delay(p, i)`; one warning per retried exception, naming it, plus one for the last attempt when its warning is built but its sleep is rejected. |
| `RetryProperties.RoundsEvents` | industry_sentiment/backend/src/collector.py:23-30 | `n` retried attempts make `n` calls, all with `args`; the `i`-th sleep lasts `Delay(p, i)`; the `i`-th warning names the exception that attempt `i` raised. |
| `RetryProperties.TraceWarnedDelays` | industry_sentiment/backend/src/collector.py:26-30 | There is one announced delay per warning, and the `i`-th warning announces `Delay(p, i)`, the `mdelay` of its attempt. This includes the warning logged before a rejected sleep. |
| `RetryProperties.RoundsWarnedDelays` | industry_sentiment/backend/src/collector.py:26-30 | In `n` retried attempts, the `i`-th warning announces `Delay(p, i)`, the length of the sleep that follows it. |
| `RetryProperties.EveryAttemptFails` | industry_sentiment/backend/src/collector.py:22-31 | If every attempt raises a matching exception, `tries >= 1` and `time.sleep` accepts every delay before the last call, `f` is called exactly `tries` times, `tries - 1` sleeps happen, and the last call's exception propagates. |
| `RetryProperties.FirstReturnWins` | industry_sentiment/backend/src/collector.py:24-25 | If attempt `k` is the first to return and `time.sleep` accepted every earlier delay, the wrapper returns that value after `k + 1` calls and `k` sleeps; `f` is not called again. |
| `RetryProperties.UnmatchedEscapes` | industry_sentiment/backend/src/collector.py:24-27 | An exception not matched by `exceptions` at attempt `k`, after earlier delays that `time.sleep` accepted, propagates unchanged, with `k` warnings and sleeps before it, and the trace ends with that call. |
| `RetryProperties.SingleAttempt` | industry_sentiment/backend/src/collector.py:23-31 | With `tries <= 1` the trace is the single call and its outcome is passed through unchanged. |
| `RetryProperties.SleepsMatchCaughtFailures` | industry_sentiment/backend/src/collector.py:23-31 | There is one sleep fewer than calls. The warned attempts are exactly the first ones: those the `except` clause catches whose `mdelay` can be formatted. A caught attempt whose `mdelay` cannot be formatted is the last call, and the wrapper raises the conversion's `ValueError`. Warnings equal sleeps, except for one more when a rejected sleep raises `SleepError` of that delay. |
| `RetryProperties.NoSleepAfterLastCall` | industry_sentiment/backend/src/collector.py:23-31 | The trace ends with the final call, or with that call's warning when the sleep after it is rejected and raises; never with a sleep. |
| `RetryProperties.SleepDurations` | industry_sentiment/backend/src/collector.py:22-30 | The `i`-th sleep lasts `delay * backoff^i`, and each sleep is `backoff` times the previous one. |
| `RetryProperties.AttemptBound` | industry_sentiment/backend/src/collector.py:23-29 | At most `tries` calls (one when `tries <= 1`) and at most `tries - 1` sleeps, that is, loop iterations. |
| `RetryProperties.SameArguments` | industry_sentiment/backend/src/collector.py:21-31 | Every call of `f` receives the wrapper's own arguments. |
| `RetryProperties.NegativeDelayRaises` | industry_sentiment/backend/src/collector.py:26-28 | With `tries >= 2` and a delay from -9223372036 to -1, a matching first failure is warned about, then `time.sleep` raises `ValueError`, which leaves the wrapper after one call. |
| `RetryProperties.HugeDelayOverflows` | industry_sentiment/backend/src/collector.py:26-28 | With `tries >= 2` and a delay outside ±9223372036 but of at most 4300 digits, a matching first failure is warned about, then `time.sleep` raises `OverflowError`, which leaves the wrapper after one call. |
| `RetryProperties.UnformattableDelayRaises` | industry_sentiment/backend/src/collector.py:26-27 | With `tries >= 2` and a delay of more than 4300 digits, a matching first failure is not warned about and causes no sleep: the conversion's `ValueError` leaves the wrapper after one call. |
| `RetryProperties.TenToTheFiveThousandDelayRaises` | industry_sentiment/backend/src/collector.py:15-31 | `retry(Exception, tries=2, delay=10**5000)` around a call that fails once raises `ValueError` after that call, with no warning and no sleep. |
| `RetryProperties.TenBillionSecondDelayOverflows` | industry_sentiment/backend/src/collector.py:15-31 | `retry(Exception, tries=2, delay=10**10)` around a call that fails once logs the warning and raises `OverflowError`, with no second call. |
| `Collector.FetcherPolicy` | industry_sentiment/backend/src/collector.py:42-83 | `@retry(Exception, tries=3)`, the decoration at lines 42, 53, 72 and 83 of all four fetchers, catches `Exception`, allows three calls, and sleeps 2 and then 4 seconds. |
| `Collector.FetcherGivesUpAfterThree` | industry_sentiment/backend/src/collector.py:42-43 | A fetcher decorated with `retry(Exception, tries=3)` that always fails is called three times, sleeps 2 and then 4 seconds, and raises its third failure. |
| `Collector.FetcherDoesNotCatchBaseException` | industry_sentiment/backend/src/collector.py:42-43 | An exception outside the `Exception` hierarchy escapes a fetcher on the first call, with no warning and no sleep. |

## Left out

- The fetchers of `DataCollector` (`fetch_liquor_data`, `fetch_nev_sales`, `fetch_semiconductor_index`, `fetch_robot_pmi`): they call the external `akshare` and `pandas` libraries over the network. Only their retry configuration is modelled (`Collector.FetcherPolicy`).
- `DatabaseClient.save_raw_data`: PostgreSQL I/O through `psycopg2`.
- The logging setup, and the exact text of the warning. A warning is modelled by the exception and the delay it announces.
- `time.sleep` does not actually wait: only the requested length is recorded.
- `functools.wraps`: it copies the wrapped function's name and docstring and has no effect on behaviour.
- The nesting `retry(...)(f)(*args, **kwargs)`: the policy, the function and the arguments are the parameters of one method.
- Floating-point `delay` or `backoff`: both are integers here, as the defaults and the fetchers use them.
- An `exceptions` argument that is not a class or a tuple of classes, or a class, or tuple element, that is not a subclass of `BaseException` (such as `retry(object, tries=2)`). With any of these, Python's `except` raises `TypeError` when an exception reaches it. The model takes every name in `exceptions` to be an exception class.
- `str(e)` in the warning's f-string: the model takes every exception's message to be printable. An exception whose `__str__` raises makes Python raise from the f-string, before any warning is logged.
- The digit limit is CPython's default, 4300. Changing it with `sys.set_int_max_str_digits`, `PYTHONINTMAXSTRDIGITS` or `-X int_max_str_digits`, or running a CPython release that has no limit, is not modelled. The text of `StrDigitsError` is that of CPython 3.12. In 3.11 the limit in the message does not include the word "digits".
- The exception context that Python attaches to the `ValueError` or `OverflowError` of a rejected sleep, or to the `ValueError` of an unformattable delay.
- The orchestration script `industry_sentiment/backend/main.py`, the Rust compute engine and the React front end: I/O, SQL and rendering, outside this model.
- `time.sleep`'s range is CPython's, with a 64-bit nanosecond time type; other Python implementations are not modelled.
