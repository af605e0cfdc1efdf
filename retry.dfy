/** The `retry(exceptions, tries, delay, backoff)` decorator with exponential
    backoff, and the wrapper `f_retry` it puts around a function `f`.

    The wrapped function is an oracle `f(args, i)`: the outcome of the call
    with index `i` (0 for the first attempt) made with arguments `args`.
    Sleeping and logging are not performed: they are recorded, in order, as
    events of a trace that the wrapper returns. */
module Retry {
  import opened Exceptions
  import opened IntStr
  import opened Time

  /** The arguments of `retry`. */
  datatype Policy = Policy(exceptions: set<ClassName>, tries: int, delay: int, backoff: int)

  /** `retry(exceptions, tries=3, delay=2, backoff=2)`, with the same defaults. */
  function RetryPolicy(exceptions: set<ClassName>, tries: int := 3, delay: int := 2, backoff: int := 2): Policy {
    Policy(exceptions, tries, delay, backoff)
  }

  /** What the wrapper does that is visible from outside, in order:
      a call of `f`, a warning logged for a caught exception with the delay
      it announces, and a sleep of some seconds. */
  datatype Event<+A> = Invoke(args: A) | Warn(error: Exception, delay: int) | Sleep(seconds: int)

  /** The most calls the wrapper can make: `tries` when the loop runs, one
      (the unguarded final call) otherwise. */
  function Attempts(tries: int): (n: nat)
    ensures n >= 1
    ensures tries >= 1 ==> n == tries
    ensures tries <= 1 ==> n == 1
  {
    if tries > 1 then tries else 1
  }

  /** The value of `mdelay` during attempt `i`: `delay` multiplied by
      `backoff` once per earlier retry. */
  function Delay(p: Policy, i: nat): (d: int)
    ensures i == 0 ==> d == p.delay
    ensures p.delay >= 0 && p.backoff >= 0 ==> d >= 0
  {
    p.delay * Pow(p.backoff, i)
  }

  /** Attempt `i` raised an exception that the `except` clause catches:
      it matches `exceptions` and it was made inside the loop, that is,
      it is not the last of the `tries` attempts. */
  predicate Caught<A, V>(p: Policy, f: (A, nat) -> Outcome<V>, args: A, i: nat) {
    i + 1 < Attempts(p.tries) && f(args, i).Raised? && Catches(f(args, i).error, p.exceptions)
  }

  /** After attempt `i` the wrapper sleeps and tries again. */
  predicate Retries<A, V>(p: Policy, f: (A, nat) -> Outcome<V>, args: A, i: nat) {
    Caught(p, f, args, i) && SleepAccepts(Delay(p, i))
  }

  /** Attempt `i` was caught but its warning cannot be built: the f-string
      fails to convert `mdelay` to a string, so nothing is logged and the
      wrapper does not sleep. */
  predicate WarningRejected<A, V>(p: Policy, f: (A, nat) -> Outcome<V>, args: A, i: nat) {
    Caught(p, f, args, i) && !StrAccepts(Delay(p, i))
  }

  /** Attempt `i` was caught and warned about, but the sleep after it raises,
      because its length is negative or too large. */
  predicate SleepRejected<A, V>(p: Policy, f: (A, nat) -> Outcome<V>, args: A, i: nat) {
    Caught(p, f, args, i) && StrAccepts(Delay(p, i)) && !SleepAccepts(Delay(p, i))
  }

  /** The first attempt from `i` on after which the wrapper does not try again. */
  function LastFrom<A, V>(p: Policy, f: (A, nat) -> Outcome<V>, args: A, i: nat): (k: nat)
    requires i < Attempts(p.tries)
    ensures i <= k < Attempts(p.tries)
    ensures !Retries(p, f, args, k)
    ensures forall j :: i <= j < k ==> Retries(p, f, args, j)
    decreases Attempts(p.tries) - i
  {
    if Retries(p, f, args, i) then LastFrom(p, f, args, i + 1) else i
  }

  /** The index of the last call the wrapper makes. */
  function LastAttempt<A, V>(p: Policy, f: (A, nat) -> Outcome<V>, args: A): (k: nat)
    ensures k < Attempts(p.tries)
    ensures !Retries(p, f, args, k)
    ensures forall j :: 0 <= j < k ==> Retries(p, f, args, j)
  {
    LastFrom(p, f, args, 0)
  }

  /** An attempt after which the wrapper stops, all of whose predecessors
      were retried, is the last one. */
  lemma LastAttemptIs<A, V>(p: Policy, f: (A, nat) -> Outcome<V>, args: A, k: nat)
    requires forall j :: 0 <= j < k ==> Retries(p, f, args, j)
    requires !Retries(p, f, args, k)
    ensures LastAttempt(p, f, args) == k
  {
  }

  /** What the wrapper returns or raises. */
  function Result<A, V>(p: Policy, f: (A, nat) -> Outcome<V>, args: A): (r: Outcome<V>)
    ensures r.Returned? ==> r == f(args, LastAttempt(p, f, args))
    ensures f(args, LastAttempt(p, f, args)).Returned? ==> r == f(args, LastAttempt(p, f, args))
    ensures r.Raised? ==> r == f(args, LastAttempt(p, f, args)) || r.error in {StrDigitsError, SleepLengthError, SleepOverflowError}
  {
    var k := LastAttempt(p, f, args);
    if WarningRejected(p, f, args, k) then Raised(StrDigitsError)
    else if SleepRejected(p, f, args, k) then Raised(SleepError(Delay(p, k)))
    else f(args, k)
  }

  /** The events of one retried attempt: the call, the warning, the sleep. */
  function Round<A, V>(p: Policy, f: (A, nat) -> Outcome<V>, args: A, i: nat): seq<Event<A>>
    requires Retries(p, f, args, i)
  {
    [Invoke(args), Warn(f(args, i).error, Delay(p, i)), Sleep(Delay(p, i))]
  }

  /** The events of the first `n` attempts, all of them retried. */
  function Rounds<A, V>(p: Policy, f: (A, nat) -> Outcome<V>, args: A, n: nat): (t: seq<Event<A>>)
    requires forall j :: 0 <= j < n ==> Retries(p, f, args, j)
    ensures |t| == 3 * n
    ensures n > 0 ==> t[0] == Invoke(args)
  {
    if n == 0 then [] else Rounds(p, f, args, n - 1) + Round(p, f, args, n - 1)
  }

  /** The events of the last attempt `k`: its call, and its warning when the
      sleep after it is rejected. No warning is logged when building it
      fails. */
  function Final<A, V>(p: Policy, f: (A, nat) -> Outcome<V>, args: A, k: nat): seq<Event<A>> {
    [Invoke(args)] + if SleepRejected(p, f, args, k) then [Warn(f(args, k).error, Delay(p, k))] else []
  }

  /** Everything the wrapper does, in order. */
  function Trace<A, V>(p: Policy, f: (A, nat) -> Outcome<V>, args: A): (t: seq<Event<A>>)
    ensures |t| == 3 * LastAttempt(p, f, args) + (if SleepRejected(p, f, args, LastAttempt(p, f, args)) then 2 else 1)
    ensures t[0] == Invoke(args)
  {
    var k := LastAttempt(p, f, args);
    Rounds(p, f, args, k) + Final(p, f, args, k)
  }

  /** `retry(exceptions)` allows three calls, with sleeps of 2 and then 4
      seconds between them. */
  lemma RetryDefaults(exceptions: set<ClassName>)
    ensures RetryPolicy(exceptions).exceptions == exceptions
    ensures Attempts(RetryPolicy(exceptions).tries) == 3
    ensures Delay(RetryPolicy(exceptions), 0) == 2 && Delay(RetryPolicy(exceptions), 1) == 4
  {
  }

  lemma DelayStep(p: Policy, i: nat)
    ensures Delay(p, i + 1) == Delay(p, i) * p.backoff
  {
  }

  /** `f_retry(*args, **kwargs)` for the wrapper that `retry(...)` builds
      around `f`: returns what it returns or raises (as `r`), and the calls,
      warnings and sleeps it performs (as `trace`). */
  method CallWithRetry<A, V>(p: Policy, f: (A, nat) -> Outcome<V>, args: A) returns (r: Outcome<V>, trace: seq<Event<A>>)
    ensures r == Result(p, f, args)
    ensures trace == Trace(p, f, args)
  {
    var mtries, mdelay := p.tries, p.delay;
    // The index of the next call, so that the oracle can tell calls apart.
    var attempt: nat := 0;
    trace := [];
    while mtries > 1
      invariant attempt == p.tries - mtries
      invariant p.tries > 1 ==> mtries >= 1
      invariant mdelay == Delay(p, attempt)
      invariant forall j :: 0 <= j < attempt ==> Retries(p, f, args, j)
      invariant trace == Rounds(p, f, args, attempt)
      decreases mtries
    {
      trace := trace + [Invoke(args)];
      var o := f(args, attempt);
      if o.Returned? || !Catches(o.error, p.exceptions) {
        LastAttemptIs(p, f, args, attempt);
        r := o;
        return;
      }
      FormattableSleepLengths(mdelay);
      if !StrAccepts(mdelay) {
        LastAttemptIs(p, f, args, attempt);
        r := Raised(StrDigitsError);
        return;
      }
      trace := trace + [Warn(o.error, mdelay)];
      if !SleepAccepts(mdelay) {
        assert SleepRejected(p, f, args, attempt);
        LastAttemptIs(p, f, args, attempt);
        r := Raised(SleepError(mdelay));
        return;
      }
      trace := trace + [Sleep(mdelay)];
      mtries := mtries - 1;
      DelayStep(p, attempt);
      mdelay := mdelay * p.backoff;
      attempt := attempt + 1;
    }
    LastAttemptIs(p, f, args, attempt);
    trace := trace + [Invoke(args)];
    r := f(args, attempt);
  }
}
