/**
  The generic retry loop of package retry: Do and DoWithResult over a finite trace of
  what each attempt meets. The delay arithmetic (multiplier, cap, jitter) is abstracted
  away: only whether a wait ran to its end or was cut short by cancellation matters.
 */
module Retry {
  import opened Basics
  import opened GoErrors
  import Text

  const Millisecond: int := 1_000_000
  const Second: int := 1_000_000_000

  /**
    retry.Strategy. Delays are in nanoseconds; the float Multiplier is not part of the
    model. `retryable` is the RetryableErrors callback.
   */
  datatype Strategy = Strategy(
    maxAttempts: int,
    initialDelay: int,
    maxDelay: int,
    jitter: bool,
    retryable: Error -> bool)

  /** DefaultStrategy: three attempts, 100ms initial delay capped at 10s, jitter, every error retryable. */
  function DefaultStrategy(): (s: Strategy)
    ensures s.maxAttempts == 3
    ensures s.initialDelay == 100 * Millisecond && s.maxDelay == 10 * Second && s.jitter
    ensures forall e :: s.retryable(e)
  {
    Strategy(3, 100 * Millisecond, 10 * Second, true, (e: Error) => true)
  }

  /** The strategy Do and DoWithResult use: the given one, or DefaultStrategy for nil. */
  function Effective(strategy: Option<Strategy>): (s: Strategy)
    ensures strategy.Some? ==> s == strategy.value
    ensures strategy.None? ==> s.maxAttempts == 3 && forall e :: s.retryable(e)
  {
    if strategy.Some? then strategy.value else DefaultStrategy()
  }

  /**
    What one attempt meets: the context at the check before the call, what fn returns,
    and the context during the wait that follows a retryable failure.
   */
  datatype Try<T> = Try(before: Signal, result: Result<T, Error>, wait: Signal)

  /** How the loop ends: a (value, error) pair, or the trace ran out first. */
  datatype Outcome<T> = Finished(value: T, err: Option<Error>) | Pending

  /** `calls` counts calls of fn, `waits` counts delays that ran to their end. */
  datatype RetryRun<T> = RetryRun(outcome: Outcome<T>, calls: nat, waits: nat)

  /** The error returned once every attempt is used up; `last` is None when there was no attempt. */
  function Exhausted(maxAttempts: int, last: Option<Error>): Error
  {
    Wrapped("max attempts (" + Text.Decimal(maxAttempts) + ") reached", last)
  }

  /** The attempts still allowed when `attempt` of them have been made. */
  function Remaining(maxAttempts: int, attempt: nat): nat
  {
    if maxAttempts > attempt then maxAttempts - attempt else 0
  }

  /**
    The loop of DoWithResult from attempt number `attempt`, `lastErr` being the error of
    the previous attempt.
   */
  function Attempts<T>(s: Strategy, zero: T, attempt: nat, lastErr: Option<Error>, trace: seq<Try<T>>): (r: RetryRun<T>)
    decreases |trace|
    ensures r.calls <= |trace|
    // fn is called at most MaxAttempts times overall
    ensures r.calls <= Remaining(s.maxAttempts, attempt)
    // a wait only ever follows a call, and never the call of the final attempt
    ensures r.waits <= r.calls
    ensures r.calls == 0 ==> r.waits == 0
    ensures r.calls > 0 ==> r.waits < Remaining(s.maxAttempts, attempt)
    ensures r.outcome.Pending? ==> r.calls == |trace|
    // a wait cut short by the context ends the loop with the context's error after that one call
    ensures attempt < s.maxAttempts - 1 && |trace| > 0 && trace[0].before.Live? && trace[0].result.Err?
            && s.retryable(trace[0].result.error) && trace[0].wait.Done? ==>
              r == RetryRun(Finished(zero, Some(Context(trace[0].wait.reason))), 1, 0)
    // the zero value on every error path
    ensures r.outcome.Finished? && r.outcome.err.Some? ==> r.outcome.value == zero
    // every returned error is the context's, a non-retryable one, or the budget error
    ensures r.outcome.Finished? && r.outcome.err.Some? ==>
              var e := r.outcome.err.value;
              e.Context? || !s.retryable(e) || (e.Wrapped? && e == Exhausted(s.maxAttempts, e.inner))
  {
    if attempt >= s.maxAttempts then RetryRun(Finished(zero, Some(Exhausted(s.maxAttempts, lastErr))), 0, 0)
    else if |trace| == 0 then RetryRun(Pending, 0, 0)
    else
      var t := trace[0];
      if t.before.Done? then RetryRun(Finished(zero, Some(Context(t.before.reason))), 0, 0)
      else
        match t.result
        case Ok(v) => RetryRun(Finished(v, None), 1, 0)
        case Err(e) =>
          if !s.retryable(e) then RetryRun(Finished(zero, Some(e)), 1, 0)
          else if attempt < s.maxAttempts - 1 then
            if t.wait.Done? then RetryRun(Finished(zero, Some(Context(t.wait.reason))), 1, 0)
            else
              var rest := Attempts(s, zero, attempt + 1, Some(e), trace[1..]);
              RetryRun(rest.outcome, rest.calls + 1, rest.waits + 1)
          else
            var rest := Attempts(s, zero, attempt + 1, Some(e), trace[1..]);
            RetryRun(rest.outcome, rest.calls + 1, rest.waits)
  }

  /** DoWithResult: the loop from the first attempt with the effective strategy. */
  function DoWithResult<T>(strategy: Option<Strategy>, zero: T, trace: seq<Try<T>>): (r: RetryRun<T>)
    ensures r.calls <= Remaining(Effective(strategy).maxAttempts, 0)
    ensures r.outcome.Finished? && r.outcome.err.Some? ==> r.outcome.value == zero
  {
    Attempts(Effective(strategy), zero, 0, None, trace)
  }

  /** Do: DoWithResult for a function without a result value. */
  function Do(strategy: Option<Strategy>, trace: seq<Try<()>>): (r: RetryRun<()>)
    ensures r.calls <= Remaining(Effective(strategy).maxAttempts, 0)
  {
    DoWithResult(strategy, (), trace)
  }

  /**
    With MaxAttempts <= 0, fn is never called and the result is the budget error with a
    nil %w operand, whose text ends in `%!w(<nil>)`.
   */
  lemma NoAttemptsWhenBudgetEmpty<T>(s: Strategy, zero: T, trace: seq<Try<T>>)
    requires s.maxAttempts <= 0
    ensures var r := DoWithResult(Some(s), zero, trace);
            && r.calls == 0
            && r.outcome == Finished(zero, Some(Exhausted(s.maxAttempts, None)))
            && Message(r.outcome.err.value)
               == "max attempts (" + Text.Decimal(s.maxAttempts) + ") reached: %!w(<nil>)"
  {
  }

  /** An attempt that fails with a retryable error and whose wait is not interrupted. */
  predicate RetryableLive<T>(s: Strategy, t: Try<T>)
  {
    t.before.Live? && t.result.Err? && s.retryable(t.result.error) && t.wait.Live?
  }

  /**
    The first nil error ends the loop: after k retryable failures, a success at attempt
    k returns its value with no error, having called fn k + 1 times.
   */
  lemma {:induction false} FirstSuccessReturns<T>(s: Strategy, zero: T, attempt: nat, last: Option<Error>,
                                                  trace: seq<Try<T>>, k: nat)
    decreases k
    requires attempt + k < s.maxAttempts && k < |trace|
    requires forall i :: 0 <= i < k ==> RetryableLive(s, trace[i])
    requires trace[k].before.Live? && trace[k].result.Ok?
    ensures var r := Attempts(s, zero, attempt, last, trace);
            r.outcome == Finished(trace[k].result.value, None) && r.calls == k + 1 && r.waits == k
  {
    if k > 0 {
      assert RetryableLive(s, trace[0]);
      forall i | 0 <= i < k - 1
        ensures RetryableLive(s, trace[1..][i])
      {
        assert trace[1..][i] == trace[i + 1];
        assert RetryableLive(s, trace[i + 1]);
      }
      assert trace[1..][k - 1] == trace[k];
      FirstSuccessReturns(s, zero, attempt + 1, Some(trace[0].result.error), trace[1..], k - 1);
    }
  }

  /** An error RetryableErrors rejects is returned unchanged, right after its attempt. */
  lemma NonRetryableReturnedUnchanged<T>(s: Strategy, zero: T, attempt: nat, last: Option<Error>,
                                         trace: seq<Try<T>>)
    requires attempt < s.maxAttempts && |trace| > 0
    requires trace[0].before.Live? && trace[0].result.Err? && !s.retryable(trace[0].result.error)
    ensures var r := Attempts(s, zero, attempt, last, trace);
            r.outcome == Finished(zero, Some(trace[0].result.error)) && r.calls == 1 && r.waits == 0
  {
  }

  /**
    When every attempt fails with a retryable error and nothing is cancelled, the loop
    calls fn exactly MaxAttempts times, waits one time fewer, and returns the budget
    error wrapping the last failure.
   */
  lemma {:induction false} AllFailExhausts<T>(s: Strategy, zero: T, attempt: nat, last: Option<Error>,
                                              trace: seq<Try<T>>)
    decreases |trace|
    requires attempt < s.maxAttempts && |trace| >= s.maxAttempts - attempt
    requires forall i :: 0 <= i < |trace| ==> RetryableLive(s, trace[i])
    ensures var r := Attempts(s, zero, attempt, last, trace);
            var k := s.maxAttempts - attempt - 1;
            && RetryableLive(s, trace[k])
            && r.calls == k + 1 && r.waits == k
            && r.outcome == Finished(zero, Some(Exhausted(s.maxAttempts, Some(trace[k].result.error))))
  {
    assert RetryableLive(s, trace[0]);
    if attempt + 1 < s.maxAttempts {
      forall i | 0 <= i < |trace[1..]|
        ensures RetryableLive(s, trace[1..][i])
      {
        assert trace[1..][i] == trace[i + 1];
        assert RetryableLive(s, trace[i + 1]);
      }
      AllFailExhausts(s, zero, attempt + 1, Some(trace[0].result.error), trace[1..]);
      assert trace[1..][s.maxAttempts - attempt - 2] == trace[s.maxAttempts - attempt - 1];
    }
  }

  /** A fresh loop with budget N >= 1 whose attempts all fail retryably: N calls, N - 1 waits. */
  lemma AllFailFromStart<T>(s: Strategy, zero: T, trace: seq<Try<T>>)
    requires s.maxAttempts >= 1 && |trace| >= s.maxAttempts
    requires forall i :: 0 <= i < |trace| ==> RetryableLive(s, trace[i])
    ensures var r := DoWithResult(Some(s), zero, trace);
            var n := s.maxAttempts;
            && RetryableLive(s, trace[n - 1])
            && r.calls == n && r.waits == n - 1
            && r.outcome == Finished(zero, Some(Exhausted(n, Some(trace[n - 1].result.error))))
  {
    AllFailExhausts(s, zero, 0, None, trace);
  }

  /**
    Cancellation seen before attempt k ends the loop by then: fn has been called at most
    k times, and if attempt k is reached the result is the context error.
   */
  lemma {:induction false} CancellationStopsCalls<T>(s: Strategy, zero: T, attempt: nat, last: Option<Error>,
                                                     trace: seq<Try<T>>, k: nat)
    decreases k
    requires k < |trace| && trace[k].before.Done? && attempt + k < s.maxAttempts
    ensures var r := Attempts(s, zero, attempt, last, trace);
            && r.outcome.Finished? && r.calls <= k
            && (r.calls == k && r.waits == k && k > 0 ==> r.outcome.err == Some(Context(trace[k].before.reason)))
            && (k == 0 ==> r.outcome.err == Some(Context(trace[k].before.reason)))
  {
    if k > 0 && trace[0].before.Live? && trace[0].result.Err? && s.retryable(trace[0].result.error)
       && trace[0].wait.Live? {
      assert trace[1..][k - 1] == trace[k];
      CancellationStopsCalls(s, zero, attempt + 1, Some(trace[0].result.error), trace[1..], k - 1);
    }
  }

  /**
    Cancellation during the wait after attempt k ends the loop there: fn has been called
    at most k + 1 times, and if attempt k was reached and failed retryably, the result is
    the context error with k + 1 calls.
   */
  lemma {:induction false} CancelledWaitStopsCalls<T>(s: Strategy, zero: T, attempt: nat, last: Option<Error>,
                                                      trace: seq<Try<T>>, k: nat)
    decreases k
    requires k < |trace| && trace[k].wait.Done? && attempt + k < s.maxAttempts - 1
    ensures var r := Attempts(s, zero, attempt, last, trace);
            && r.outcome.Finished? && r.calls <= k + 1 && r.waits <= k
            && (r.waits == k && trace[k].before.Live? && trace[k].result.Err? && s.retryable(trace[k].result.error) ==>
                  r.calls == k + 1 && r.outcome.err == Some(Context(trace[k].wait.reason)))
  {
    if k > 0 && trace[0].before.Live? && trace[0].result.Err? && s.retryable(trace[0].result.error)
       && trace[0].wait.Live? {
      assert trace[1..][k - 1] == trace[k];
      CancelledWaitStopsCalls(s, zero, attempt + 1, Some(trace[0].result.error), trace[1..], k - 1);
    }
  }

  /**
    IsRetryableError: false for nil and for any error whose unwrap chain holds
    context.Canceled or context.DeadlineExceeded, true otherwise.
   */
  function IsRetryableError(err: Option<Error>): (b: bool)
    ensures b <==> err.Some? && Context(Canceled) !in Chain(err.value)
                             && Context(DeadlineExceeded) !in Chain(err.value)
  {
    if err.None? then false
    else
      IsIffOnChain(err.value, Context(Canceled));
      IsIffOnChain(err.value, Context(DeadlineExceeded));
      !(Is(err.value, Context(Canceled)) || Is(err.value, Context(DeadlineExceeded)))
  }

  /** Wrapping never makes a context error retryable. */
  lemma WrappedContextNotRetryable(prefix: string, r: ContextReason)
    ensures !IsRetryableError(Some(Wrapped(prefix, Some(Context(r)))))
  {
  }
}
