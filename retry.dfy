/**
 * The retry helpers of `src/api/client.ts`: which failures are worth
 * another attempt, and `withRetry`, which calls an operation until it
 * succeeds, fails for good or runs out of attempts, sleeping with a capped
 * exponential back-off in between.
 */
module Retry {
  import opened Options

  /** What a failed call throws: an `ApiError` with its HTTP status, a
      `DOMException` with its name, or anything else (a network failure). */
  datatype Error = ApiError(status: int) | DomException(name: string) | OtherError

  /** `isRetryableError`. */
  function IsRetryableError(err: Error): (r: bool)
    ensures err.ApiError? ==> (r <==> err.status == 429 || err.status >= 500)
    ensures !err.ApiError? ==> (r <==> err != DomException("AbortError"))
  {
    if err.ApiError? then
      if err.status == 429 then true
      else if err.status >= 500 then true
      else false
    else if err.DomException? && err.name == "AbortError" then false
    else true
  }

  /** Authentication and validation failures, the other 4xx statuses, are
      final; an aborted request is final; rate limiting, server errors and
      network failures are not. */
  lemma ClientErrorsAreFinal(status: int)
    requires 400 <= status < 500 && status != 429
    ensures !IsRetryableError(ApiError(status))
    ensures !IsRetryableError(DomException("AbortError"))
    ensures IsRetryableError(ApiError(429)) && IsRetryableError(ApiError(status + 100))
    ensures IsRetryableError(OtherError)
  {
  }

  /** `RetryOptions`. */
  datatype RetryOptions = RetryOptions(
    maxAttempts: int,
    baseDelayMs: int,
    maxDelayMs: int,
    retryOn: Option<Error -> bool>)

  /** The classifier in force: a supplied `retryOn` replaces the default. */
  function Retryable(ro: RetryOptions, err: Error): (r: bool)
    ensures ro.retryOn.None? ==> r == IsRetryableError(err)
    ensures ro.retryOn.Some? ==> r == ro.retryOn.value(err)
  {
    if ro.retryOn.Some? then ro.retryOn.value(err) else IsRetryableError(err)
  }

  function Pow2(n: nat): (p: nat)
    ensures p >= 1
  {
    if n == 0 then 1 else 2 * Pow2(n - 1)
  }

  lemma {:induction false} Pow2Monotone(m: nat, n: nat)
    requires m <= n
    ensures Pow2(m) <= Pow2(n)
    decreases n
  {
    if m < n {
      Pow2Monotone(m, n - 1);
    }
  }

  function Min(a: int, b: int): int
  {
    if a <= b then a else b
  }

  /** The pause after failed attempt `attempt` (counted from 1):
      `min(maxDelayMs, baseDelayMs * 2^(attempt - 1))`. */
  function Delay(ro: RetryOptions, attempt: nat): (d: int)
    requires attempt >= 1
    ensures d <= ro.maxDelayMs
    ensures d <= ro.baseDelayMs * Pow2(attempt - 1)
    ensures d == ro.maxDelayMs || d == ro.baseDelayMs * Pow2(attempt - 1)
  {
    Min(ro.maxDelayMs, ro.baseDelayMs * Pow2(attempt - 1))
  }

  lemma Scale(base: int, a: nat, b: nat)
    requires base >= 0 && a <= b
    ensures base * a <= base * b
  {
  }

  /** With a non-negative base the pauses never shrink. */
  lemma DelayMonotone(ro: RetryOptions, m: nat, n: nat)
    requires ro.baseDelayMs >= 0 && 1 <= m <= n
    ensures Delay(ro, m) <= Delay(ro, n)
  {
    Pow2Monotone(m - 1, n - 1);
    Scale(ro.baseDelayMs, Pow2(m - 1), Pow2(n - 1));
  }

  /** The pauses after the first `count` failed attempts. */
  function Delays(ro: RetryOptions, count: nat): (ds: seq<int>)
    ensures |ds| == count
    ensures forall k :: 0 <= k < count ==> ds[k] == Delay(ro, k + 1)
  {
    if count == 0 then [] else Delays(ro, count - 1) + [Delay(ro, count)]
  }

  /** The sleeps of one run never shrink and never exceed the cap. */
  lemma PausesNonDecreasing(ro: RetryOptions, count: nat)
    requires ro.baseDelayMs >= 0
    ensures forall i, j :: 0 <= i <= j < count ==> Delays(ro, count)[i] <= Delays(ro, count)[j] <= ro.maxDelayMs
  {
    var ds := Delays(ro, count);
    forall i, j | 0 <= i <= j < count ensures ds[i] <= ds[j] <= ro.maxDelayMs {
      DelayMonotone(ro, i + 1, j + 1);
    }
  }

  /** What one call of the operation gives. */
  datatype Outcome<T> = Success(value: T) | Failure(error: Error)

  /** Whether the loop stops after attempt `attempt` (counted from 1) with
      this outcome. */
  predicate Stops<T>(ro: RetryOptions, attempt: nat, o: Outcome<T>)
  {
    o.Success? || !Retryable(ro, o.error) || attempt >= ro.maxAttempts
  }

  /** `withRetry`: `call(k)` is what the operation gives on its call number
      `k` (from 0). The result is the outcome of the last call, a success
      or the error rethrown; `calls` is how many calls were made and
      `pauses` the sleeps between them. */
  method WithRetry<T>(call: nat -> Outcome<T>, ro: RetryOptions) returns (r: Outcome<T>, calls: nat, pauses: seq<int>)
    ensures 1 <= calls && (calls <= ro.maxAttempts || calls == 1)
    ensures r == call(calls - 1) && Stops(ro, calls, r)
    ensures forall k :: 0 <= k < calls - 1 ==> !Stops(ro, k + 1, call(k))
    ensures forall k :: 0 <= k < calls - 1 ==> call(k).Failure? && Retryable(ro, call(k).error)
    ensures pauses == Delays(ro, calls - 1)
  {
    var attempt: nat := 0;
    pauses := [];
    while true
      invariant pauses == Delays(ro, attempt)
      invariant attempt == 0 || attempt < ro.maxAttempts
      invariant forall k :: 0 <= k < attempt ==> !Stops(ro, k + 1, call(k))
      decreases (if ro.maxAttempts < 1 then 1 else ro.maxAttempts) - attempt
    {
      attempt := attempt + 1;
      var o := call(attempt - 1);
      if Stops(ro, attempt, o) {
        return o, attempt, pauses;
      }
      pauses := pauses + [Delay(ro, attempt)];
    }
  }
}
