/** How the data fetchers of `DataCollector` use the retry decorator: each is
    wrapped in `retry(Exception, tries=3)` with the default delay and backoff. */
module Collector {
  import opened Exceptions
  import opened IntStr
  import opened Retry
  import opened RetryProperties
  import opened Time

  /** `@retry(Exception, tries=3)`, the decoration of every fetcher: it
      catches `Exception`, allows three calls and sleeps 2, then 4 seconds. */
  function FetcherPolicy(): (p: Policy)
    ensures p.exceptions == {"Exception"}
    ensures Attempts(p.tries) == 3
    ensures Delay(p, 0) == 2 && Delay(p, 1) == 4
  {
    RetryPolicy({"Exception"}, tries := 3)
  }

  /** A fetcher that fails every time with an `Exception` is called three
      times, sleeping 2 and then 4 seconds, and the third failure propagates. */
  lemma FetcherGivesUpAfterThree<A, V>(f: (A, nat) -> Outcome<V>, args: A)
    requires forall i :: 0 <= i < 3 ==> f(args, i).Raised? && "Exception" in f(args, i).error.mro
    ensures |Invocations(Trace(FetcherPolicy(), f, args))| == 3
    ensures Sleeps(Trace(FetcherPolicy(), f, args)) == [2, 4]
    ensures Result(FetcherPolicy(), f, args) == f(args, 2)
  {
    forall i | 0 <= i < FetcherPolicy().tries
      ensures f(args, i).Raised? && Catches(f(args, i).error, FetcherPolicy().exceptions)
    {
      assert "Exception" in f(args, i).error.mro * FetcherPolicy().exceptions;
    }
    SleepRange(2);
    SleepRange(4);
    EveryAttemptFails(FetcherPolicy(), f, args);
    SleepDurations(FetcherPolicy(), f, args);
    var s := Sleeps(Trace(FetcherPolicy(), f, args));
    assert s[0] == 2 * Pow(2, 0) == 2;
    assert s[1] == 2 * Pow(2, 1) == 4;
  }

  /** An exception outside the `Exception` hierarchy (`KeyboardInterrupt`,
      `SystemExit`) escapes a fetcher on its first call, without a retry. */
  lemma FetcherDoesNotCatchBaseException<A, V>(f: (A, nat) -> Outcome<V>, args: A, e: Exception)
    requires f(args, 0) == Raised(e) && "Exception" !in e.mro
    ensures Result(FetcherPolicy(), f, args) == Raised(e)
    ensures Trace(FetcherPolicy(), f, args) == [Invoke(args)]
  {
  }
}
