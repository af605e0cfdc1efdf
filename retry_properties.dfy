/** What the retry wrapper promises: how many calls it makes, with which
    arguments, how long it sleeps between them, and what it returns or raises. */
module RetryProperties {
  import opened Exceptions
  import opened IntStr
  import opened Retry
  import opened Time

  /** The items that `pick` takes from each event of a trace, in order. */
  function Collect<A, T>(t: seq<Event<A>>, pick: Event<A> -> seq<T>): seq<T> {
    if t == [] then [] else pick(t[0]) + Collect(t[1..], pick)
  }

  function PickInvoke<A>(e: Event<A>): seq<A> {
    if e.Invoke? then [e.args] else []
  }

  function PickSleep<A>(e: Event<A>): seq<int> {
    if e.Sleep? then [e.seconds] else []
  }

  function PickWarn<A>(e: Event<A>): seq<Exception> {
    if e.Warn? then [e.error] else []
  }

  function PickWarnDelay<A>(e: Event<A>): seq<int> {
    if e.Warn? then [e.delay] else []
  }

  /** The arguments of every call of `f`, in order. */
  function Invocations<A>(t: seq<Event<A>>): seq<A> {
    Collect(t, PickInvoke)
  }

  /** The length of every `time.sleep`, in order. */
  function Sleeps<A>(t: seq<Event<A>>): seq<int> {
    Collect(t, PickSleep)
  }

  /** The exception named by every warning logged, in order. */
  function Warnings<A>(t: seq<Event<A>>): seq<Exception> {
    Collect(t, PickWarn)
  }

  /** The delay announced by every warning logged, in order. */
  function WarnedDelays<A>(t: seq<Event<A>>): seq<int> {
    Collect(t, PickWarnDelay)
  }

  lemma {:induction false} CollectAppend<A, T>(a: seq<Event<A>>, b: seq<Event<A>>, pick: Event<A> -> seq<T>)
    ensures Collect(a + b, pick) == Collect(a, pick) + Collect(b, pick)
  {
    if a == [] {
      assert a + b == b;
    } else {
      assert (a + b)[1..] == a[1..] + b;
      CollectAppend(a[1..], b, pick);
    }
  }

  lemma CollectPair<A, T>(a: Event<A>, b: Event<A>, pick: Event<A> -> seq<T>)
    ensures Collect([a, b], pick) == pick(a) + pick(b)
  {
    assert [a, b][1..] == [b];
    assert [b][1..] == [];
    assert Collect([b], pick) == pick(b) + Collect([], pick);
    assert Collect([b], pick) == pick(b);
  }

  lemma CollectTriple<A, T>(a: Event<A>, b: Event<A>, c: Event<A>, pick: Event<A> -> seq<T>)
    ensures Collect([a, b, c], pick) == pick(a) + pick(b) + pick(c)
  {
    assert [a, b, c][1..] == [b, c];
    CollectPair(b, c, pick);
  }

  /** The first `n` attempts, all retried, call `f` `n` times with `args`,
      warn about exactly their exceptions and sleep `Delay(p, 0)`, ...,
      `Delay(p, n - 1)`. */
  lemma {:induction false} RoundsEvents<A, V>(p: Policy, f: (A, nat) -> Outcome<V>, args: A, n: nat)
    requires forall j :: 0 <= j < n ==> Retries(p, f, args, j)
    ensures |Invocations(Rounds(p, f, args, n))| == n
    ensures forall i :: 0 <= i < n ==> Invocations(Rounds(p, f, args, n))[i] == args
    ensures |Sleeps(Rounds(p, f, args, n))| == n
    ensures forall i :: 0 <= i < n ==> Sleeps(Rounds(p, f, args, n))[i] == Delay(p, i)
    ensures |Warnings(Rounds(p, f, args, n))| == n
    ensures forall i :: 0 <= i < n ==> f(args, i) == Raised(Warnings(Rounds(p, f, args, n))[i])
  {
    if n > 0 {
      var prev, last := Rounds(p, f, args, n - 1), Round(p, f, args, n - 1);
      RoundsEvents(p, f, args, n - 1);
      CollectAppend(prev, last, PickInvoke);
      CollectAppend(prev, last, PickSleep);
      CollectAppend(prev, last, PickWarn);
      CollectTriple(last[0], last[1], last[2], PickInvoke);
      CollectTriple(last[0], last[1], last[2], PickSleep);
      CollectTriple(last[0], last[1], last[2], PickWarn);
      assert Invocations(last) == [args];
      assert Sleeps(last) == [Delay(p, n - 1)];
      assert Warnings(last) == [f(args, n - 1).error];
    }
  }

  /** The whole trace, in terms of the last attempt `k`: `k + 1` calls, all
      with `args`; `k` sleeps of `Delay(p, 0)`, ..., `Delay(p, k - 1)`; one
      warning per caught exception, the last one without a sleep after it
      when that sleep is rejected. */
  lemma TraceEvents<A, V>(p: Policy, f: (A, nat) -> Outcome<V>, args: A)
    ensures var k := LastAttempt(p, f, args);
      |Invocations(Trace(p, f, args))| == k + 1 &&
      |Sleeps(Trace(p, f, args))| == k &&
      |Warnings(Trace(p, f, args))| == k + (if SleepRejected(p, f, args, k) then 1 else 0)
    ensures forall i :: 0 <= i < |Invocations(Trace(p, f, args))| ==> Invocations(Trace(p, f, args))[i] == args
    ensures forall i :: 0 <= i < |Sleeps(Trace(p, f, args))| ==> Sleeps(Trace(p, f, args))[i] == Delay(p, i)
    ensures forall i :: 0 <= i < |Warnings(Trace(p, f, args))| ==> f(args, i) == Raised(Warnings(Trace(p, f, args))[i])
  {
    var k := LastAttempt(p, f, args);
    var rounds, final := Rounds(p, f, args, k), Final(p, f, args, k);
    RoundsEvents(p, f, args, k);
    CollectAppend(rounds, final, PickInvoke);
    CollectAppend(rounds, final, PickSleep);
    CollectAppend(rounds, final, PickWarn);
    if SleepRejected(p, f, args, k) {
      CollectPair(final[0], final[1], PickInvoke);
      CollectPair(final[0], final[1], PickSleep);
      CollectPair(final[0], final[1], PickWarn);
      assert Invocations(final) == [args];
      assert Sleeps(final) == [];
      assert Warnings(final) == [f(args, k).error];
    } else {
      assert final[1..] == [];
      assert Invocations(final) == [args];
      assert Sleeps(final) == [];
      assert Warnings(final) == [];
    }
  }

  /** The warning of retried attempt `i` announces `Delay(p, i)`, the value
      of `mdelay` it is about to sleep. */
  lemma {:induction false} RoundsWarnedDelays<A, V>(p: Policy, f: (A, nat) -> Outcome<V>, args: A, n: nat)
    requires forall j :: 0 <= j < n ==> Retries(p, f, args, j)
    ensures |WarnedDelays(Rounds(p, f, args, n))| == n
    ensures forall i :: 0 <= i < n ==> WarnedDelays(Rounds(p, f, args, n))[i] == Delay(p, i)
  {
    if n > 0 {
      var prev, last := Rounds(p, f, args, n - 1), Round(p, f, args, n - 1);
      RoundsWarnedDelays(p, f, args, n - 1);
      CollectAppend(prev, last, PickWarnDelay);
      CollectTriple(last[0], last[1], last[2], PickWarnDelay);
      assert WarnedDelays(last) == [Delay(p, n - 1)];
    }
  }

  /** Every warning of the trace, including the one before a rejected sleep,
      announces the delay of its attempt: the `i`-th announces `Delay(p, i)`. */
  lemma TraceWarnedDelays<A, V>(p: Policy, f: (A, nat) -> Outcome<V>, args: A)
    ensures |WarnedDelays(Trace(p, f, args))| == |Warnings(Trace(p, f, args))|
    ensures forall i :: 0 <= i < |WarnedDelays(Trace(p, f, args))| ==> WarnedDelays(Trace(p, f, args))[i] == Delay(p, i)
  {
    var k := LastAttempt(p, f, args);
    var rounds, final := Rounds(p, f, args, k), Final(p, f, args, k);
    TraceEvents(p, f, args);
    RoundsWarnedDelays(p, f, args, k);
    CollectAppend(rounds, final, PickWarnDelay);
    if SleepRejected(p, f, args, k) {
      CollectPair(final[0], final[1], PickWarnDelay);
      assert WarnedDelays(final) == [Delay(p, k)];
    } else {
      assert final[1..] == [];
      assert WarnedDelays(final) == [];
    }
  }

  /** When every attempt raises a matching exception, `f` is called exactly
      `tries` times and the exception of the last call propagates. */
  lemma EveryAttemptFails<A, V>(p: Policy, f: (A, nat) -> Outcome<V>, args: A)
    requires p.tries >= 1
    requires forall i :: 0 <= i < p.tries ==> f(args, i).Raised? && Catches(f(args, i).error, p.exceptions)
    requires forall j :: 0 <= j < p.tries - 1 ==> SleepAccepts(Delay(p, j))
    ensures |Invocations(Trace(p, f, args))| == p.tries
    ensures |Sleeps(Trace(p, f, args))| == p.tries - 1
    ensures Result(p, f, args) == f(args, p.tries - 1)
  {
    LastAttemptIs(p, f, args, p.tries - 1);
    TraceEvents(p, f, args);
  }

  /** When attempt `k` is the first to return, the wrapper returns its value
      after `k + 1` calls and `k` sleeps; `f` is not called again. */
  lemma FirstReturnWins<A, V>(p: Policy, f: (A, nat) -> Outcome<V>, args: A, k: nat)
    requires k < Attempts(p.tries)
    requires forall j :: 0 <= j < k ==> f(args, j).Raised? && Catches(f(args, j).error, p.exceptions)
    requires forall j :: 0 <= j < k ==> SleepAccepts(Delay(p, j))
    requires f(args, k).Returned?
    ensures Result(p, f, args) == f(args, k)
    ensures |Invocations(Trace(p, f, args))| == k + 1
    ensures |Sleeps(Trace(p, f, args))| == k
  {
    LastAttemptIs(p, f, args, k);
    TraceEvents(p, f, args);
  }

  /** An exception that `exceptions` does not match escapes from the attempt
      that raised it: no warning, no sleep and no call after it. */
  lemma UnmatchedEscapes<A, V>(p: Policy, f: (A, nat) -> Outcome<V>, args: A, k: nat, e: Exception)
    requires k < Attempts(p.tries)
    requires forall j :: 0 <= j < k ==> f(args, j).Raised? && Catches(f(args, j).error, p.exceptions)
    requires forall j :: 0 <= j < k ==> SleepAccepts(Delay(p, j))
    requires f(args, k) == Raised(e) && !Catches(e, p.exceptions)
    ensures Result(p, f, args) == Raised(e)
    ensures |Invocations(Trace(p, f, args))| == k + 1
    ensures |Sleeps(Trace(p, f, args))| == k && |Warnings(Trace(p, f, args))| == k
    ensures Trace(p, f, args)[|Trace(p, f, args)| - 1] == Invoke(args)
  {
    LastAttemptIs(p, f, args, k);
    TraceEvents(p, f, args);
  }

  /** With `tries <= 1` the loop never runs: one call, no warning, no sleep,
      and its outcome passes through unchanged. */
  lemma SingleAttempt<A, V>(p: Policy, f: (A, nat) -> Outcome<V>, args: A)
    requires p.tries <= 1
    ensures Trace(p, f, args) == [Invoke(args)]
    ensures Result(p, f, args) == f(args, 0)
  {
  }

  /** Each caught exception is warned about once and followed by one sleep,
      except that a rejected sleep ends the wrapper; the caught attempts are
      exactly the first ones, and there is one sleep fewer than calls. A caught
      attempt whose delay cannot be formatted is the last one, is not warned
      about, and the wrapper raises the conversion's `ValueError`. */
  lemma SleepsMatchCaughtFailures<A, V>(p: Policy, f: (A, nat) -> Outcome<V>, args: A)
    ensures var t := Trace(p, f, args);
      |Sleeps(t)| == |Invocations(t)| - 1 &&
      (|Warnings(t)| == |Sleeps(t)| ||
       (|Warnings(t)| == |Sleeps(t)| + 1 && !SleepAccepts(Delay(p, |Sleeps(t)|)) &&
        Result(p, f, args) == Raised(SleepError(Delay(p, |Sleeps(t)|)))))
    ensures var t := Trace(p, f, args);
      forall i :: 0 <= i < |Invocations(t)| ==>
        (i < |Warnings(t)| <==> Caught(p, f, args, i) && StrAccepts(Delay(p, i)))
    ensures var t := Trace(p, f, args);
      forall i :: 0 <= i < |Invocations(t)| && Caught(p, f, args, i) && !StrAccepts(Delay(p, i)) ==>
        i == |Warnings(t)| == |Invocations(t)| - 1 && Result(p, f, args) == Raised(StrDigitsError)
  {
    TraceEvents(p, f, args);
    var k := LastAttempt(p, f, args);
    FormattableSleepLengths(Delay(p, k));
    assert Caught(p, f, args, k) && StrAccepts(Delay(p, k)) <==> SleepRejected(p, f, args, k);
    forall i | 0 <= i < k ensures Caught(p, f, args, i) && StrAccepts(Delay(p, i)) {
      assert Retries(p, f, args, i);
      FormattableSleepLengths(Delay(p, i));
    }
  }

  /** No sleep follows the final call: the trace ends with that call, or with
      the warning after it when the sleep is rejected (which raises). */
  lemma NoSleepAfterLastCall<A, V>(p: Policy, f: (A, nat) -> Outcome<V>, args: A)
    ensures var t := Trace(p, f, args);
      |t| >= 1 &&
      (t[|t| - 1] == Invoke(args) ||
       (|t| >= 2 && t[|t| - 2] == Invoke(args) && t[|t| - 1].Warn? &&
        Result(p, f, args).Raised? && Result(p, f, args).error in {SleepLengthError, SleepOverflowError}))
  {
  }

  /** The `i`-th sleep lasts `delay * backoff^i`: each is `backoff` times the
      one before. */
  lemma SleepDurations<A, V>(p: Policy, f: (A, nat) -> Outcome<V>, args: A)
    ensures var s := Sleeps(Trace(p, f, args));
      forall i :: 0 <= i < |s| ==> s[i] == p.delay * Pow(p.backoff, i)
    ensures var s := Sleeps(Trace(p, f, args));
      forall i :: 0 <= i < |s| - 1 ==> s[i + 1] == s[i] * p.backoff
  {
    TraceEvents(p, f, args);
    forall i | 0 <= i < |Sleeps(Trace(p, f, args))| - 1
      ensures Sleeps(Trace(p, f, args))[i + 1] == Sleeps(Trace(p, f, args))[i] * p.backoff
    {
      DelayStep(p, i);
    }
  }

  /** The loop runs at most `tries - 1` times: at most `tries` calls (one when
      `tries <= 1`) and fewer sleeps than that. */
  lemma AttemptBound<A, V>(p: Policy, f: (A, nat) -> Outcome<V>, args: A)
    ensures |Invocations(Trace(p, f, args))| <= Attempts(p.tries)
    ensures |Sleeps(Trace(p, f, args))| <= Attempts(p.tries) - 1
  {
    TraceEvents(p, f, args);
  }

  /** Every call of `f` receives the same arguments: the second ensures of
      `TraceEvents`, on its own. */
  lemma SameArguments<A, V>(p: Policy, f: (A, nat) -> Outcome<V>, args: A)
    ensures forall i :: 0 <= i < |Invocations(Trace(p, f, args))| ==> Invocations(Trace(p, f, args))[i] == args
  {
    TraceEvents(p, f, args);
  }

  /** A negative `delay` makes `time.sleep` raise `ValueError` after the first
      caught exception has been warned about; that error leaves the wrapper. */
  lemma NegativeDelayRaises<A, V>(p: Policy, f: (A, nat) -> Outcome<V>, args: A, e: Exception)
    requires p.tries >= 2 && -9223372036 <= p.delay < 0
    requires f(args, 0) == Raised(e) && Catches(e, p.exceptions)
    ensures Result(p, f, args) == Raised(SleepLengthError)
    ensures Trace(p, f, args) == [Invoke(args), Warn(e, p.delay)]
  {
    FormattableSleepLengths(p.delay);
  }

  /** A `delay` whose nanosecond count does not fit in 64 bits, of either
      sign, but that still has at most 4300 digits, makes `time.sleep` raise
      `OverflowError` after the first caught exception has been warned about;
      that error leaves the wrapper. */
  lemma HugeDelayOverflows<A, V>(p: Policy, f: (A, nat) -> Outcome<V>, args: A, e: Exception)
    requires p.tries >= 2 && (p.delay < -9223372036 || 9223372036 < p.delay)
    requires StrAccepts(p.delay)
    requires f(args, 0) == Raised(e) && Catches(e, p.exceptions)
    ensures Result(p, f, args) == Raised(SleepOverflowError)
    ensures Trace(p, f, args) == [Invoke(args), Warn(e, p.delay)]
  {
  }

  /** A `delay` of more than 4300 digits cannot be put in the warning: the
      first caught exception is not logged, nothing sleeps, and the
      conversion's `ValueError` leaves the wrapper. */
  lemma UnformattableDelayRaises<A, V>(p: Policy, f: (A, nat) -> Outcome<V>, args: A, e: Exception)
    requires p.tries >= 2 && !StrAccepts(p.delay)
    requires f(args, 0) == Raised(e) && Catches(e, p.exceptions)
    ensures Result(p, f, args) == Raised(StrDigitsError)
    ensures Trace(p, f, args) == [Invoke(args)]
  {
    FormattableSleepLengths(p.delay);
  }

  /** `retry(Exception, tries=2, delay=10**5000)` around a call that fails
      once: `10**5000` has 5001 digits, so the warning is never logged and
      the wrapper raises `ValueError` after one call. */
  lemma TenToTheFiveThousandDelayRaises<A, V>(f: (A, nat) -> Outcome<V>, args: A, e: Exception)
    requires f(args, 0) == Raised(e) && "Exception" in e.mro
    ensures var p := RetryPolicy({"Exception"}, tries := 2, delay := Pow(10, 5000));
      Result(p, f, args) == Raised(StrDigitsError) && Trace(p, f, args) == [Invoke(args)]
  {
    var p := RetryPolicy({"Exception"}, tries := 2, delay := Pow(10, 5000));
    assert "Exception" in e.mro * p.exceptions;
    DigitsOfPower(5000);
    UnformattableDelayRaises(p, f, args, e);
  }

  /** `retry(Exception, tries=2, delay=10**10)` around a call that fails
      once: the warning is logged, then the sleep overflows and no second
      call is made. */
  lemma TenBillionSecondDelayOverflows<A, V>(f: (A, nat) -> Outcome<V>, args: A, e: Exception)
    requires f(args, 0) == Raised(e) && "Exception" in e.mro
    ensures var p := RetryPolicy({"Exception"}, tries := 2, delay := 10_000_000_000);
      Result(p, f, args) == Raised(SleepOverflowError) && Trace(p, f, args) == [Invoke(args), Warn(e, 10_000_000_000)]
  {
    var p := RetryPolicy({"Exception"}, tries := 2, delay := 10_000_000_000);
    assert "Exception" in e.mro * p.exceptions;
    assert Digits(10_000_000_000) == 11;
    HugeDelayOverflows(p, f, args, e);
  }
}
