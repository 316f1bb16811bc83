/** The retry loop of a request and the default retry strategy. */
module Client {
  import opened Bytes

  const ERROR_CURL_BASE := 200000

  /** An error: its status, and whether its message speaks of a skewed request time. */
  datatype Error = Error(status: int, timeTooSkewed: bool)

  datatype Outcome = Success | Failure(error: Error)

  datatype RetryStrategy = NoStrategy | DefaultRetryStrategy(maxRetries: int, scaleFactor: int)
  {
    predicate ShouldRetry(e: Error, attemptedRetries: int)
    {
      && DefaultRetryStrategy?
      && attemptedRetries < maxRetries
      && ((e.status == 403 && e.timeTooSkewed)
          || 499 < e.status < 599
          || e.status - ERROR_CURL_BASE in {7, 18, 23, 28, 52, 55, 56, 65})
    }

    /** One shifted left by the number of retries, as a 32-bit int, times the scale. */
    function CalcDelayTimeMs(attemptedRetries: nat, overshift: nat -> int): int
      requires DefaultRetryStrategy?
    {
      (if attemptedRetries < 31 then Pow2(attemptedRetries) else overshift(attemptedRetries)) * scaleFactor
    }
  }

  /** An attempt that ends the loop: success, requests disabled, or an error not worth another try. */
  predicate Stops(s: RetryStrategy, outcome: Outcome, enabled: bool, retry: nat)
  {
    outcome.Success? || !enabled || !s.ShouldRetry(outcome.error, retry)
  }

  function Total(waits: seq<int>): int
  {
    if waits == [] then 0 else Total(waits[..|waits| - 1]) + waits[|waits| - 1]
  }

  /**
   Attempts until one stops the loop. `outcomes` and `enabled` give the result of each attempt
   and the request switch right after it; `overshift` is what the platform makes of shifting a
   32-bit one by 31 or more; `waits` are the delays asked for, in milliseconds.
   */
  method AttemptRequest(s: RetryStrategy, outcomes: nat -> Outcome, enabled: nat -> bool, overshift: nat -> int)
      returns (result: Outcome, attempts: nat, waits: seq<int>)
    ensures 1 <= attempts && result == outcomes(attempts - 1)
    ensures forall i: nat | i < attempts - 1 ::
      && outcomes(i).Failure? && enabled(i) && s.DefaultRetryStrategy? && i < s.maxRetries
      && (|| 500 <= outcomes(i).error.status <= 598
          || (outcomes(i).error.status == 403 && outcomes(i).error.timeTooSkewed)
          || outcomes(i).error.status in {200007, 200018, 200023, 200028, 200052, 200055, 200056, 200065})
    ensures var i := attempts - 1;
      !(&& outcomes(i).Failure? && enabled(i) && s.DefaultRetryStrategy? && i < s.maxRetries
        && (|| 500 <= outcomes(i).error.status <= 598
            || (outcomes(i).error.status == 403 && outcomes(i).error.timeTooSkewed)
            || outcomes(i).error.status in {200007, 200018, 200023, 200028, 200052, 200055, 200056, 200065}))
    ensures attempts <= 1 + if s.DefaultRetryStrategy? && s.maxRetries > 0 then s.maxRetries else 0
    ensures Stops(s, outcomes(attempts - 1), enabled(attempts - 1), attempts - 1)
    ensures forall i: nat | i < attempts - 1 :: !Stops(s, outcomes(i), enabled(i), i)
    ensures |waits| == attempts - 1
    ensures forall i: nat | i < |waits| && i < 31 :: waits[i] == Pow2(i) * s.scaleFactor
    ensures s.DefaultRetryStrategy? && attempts <= 32 ==> Total(waits) == s.scaleFactor * (Pow2(attempts - 1) - 1)
  {
    hide Stops, Pow2;
    var retry := 0;
    waits := [];
    result := outcomes(0);
    assert Pow2(0) == 1 by { Pow2Step(0); }
    StopsMeaning(s, result, enabled(0), 0);
    while !Stops(s, result, enabled(retry), retry)
      invariant result == outcomes(retry) && |waits| == retry
      invariant retry > 0 ==> s.DefaultRetryStrategy? && retry <= s.maxRetries
      invariant forall i: nat | i < retry && i < 31 :: waits[i] == Pow2(i) * s.scaleFactor
      invariant forall i: nat | i < retry :: !Stops(s, outcomes(i), enabled(i), i)
      invariant s.DefaultRetryStrategy? && retry <= 31 ==> Total(waits) == s.scaleFactor * (Pow2(retry) - 1)
      decreases if s.DefaultRetryStrategy? then s.maxRetries - retry else 0
    {
      StopsMeaning(s, result, enabled(retry), retry);
      var delay := s.CalcDelayTimeMs(retry, overshift);
      DelayAdds(s.scaleFactor, Pow2(retry));
      Pow2Step(retry + 1);
      TotalMore(waits, delay);
      waits := waits + [delay];
      retry := retry + 1;
      result := outcomes(retry);
    }
    attempts := retry + 1;
    StopsMeaning(s, result, enabled(retry), retry);
    forall i: nat | i < attempts - 1 {
      StopsMeaning(s, outcomes(i), enabled(i), i);
    }
  }

  lemma TotalMore(waits: seq<int>, delay: int)
    ensures Total(waits + [delay]) == Total(waits) + delay
  {
    assert (waits + [delay])[..|waits|] == waits;
  }

  /** When the loop goes on: the failures worth another try, spelled out. */
  lemma StopsMeaning(s: RetryStrategy, outcome: Outcome, enabled: bool, retry: nat)
    ensures !Stops(s, outcome, enabled, retry) <==>
      && outcome.Failure? && enabled && s.DefaultRetryStrategy? && retry < s.maxRetries
      && (|| 500 <= outcome.error.status <= 598
          || (outcome.error.status == 403 && outcome.error.timeTooSkewed)
          || outcome.error.status in {200007, 200018, 200023, 200028, 200052, 200055, 200056, 200065})
  {
  }

  lemma DelayAdds(scale: int, p: int)
    ensures scale * (p - 1) + p * scale == scale * (2 * p - 1)
  {
  }

  /** Errors that pass with time use up every retry: maxRetries more attempts, and the last outcome is the answer. */
  method RetryToTheEnd(s: RetryStrategy, outcomes: nat -> Outcome, enabled: nat -> bool, overshift: nat -> int)
      returns (result: Outcome, attempts: nat)
    requires s.DefaultRetryStrategy? && s.maxRetries >= 0 && forall i :: enabled(i) && outcomes(i).Failure?
    requires forall i ::
      || 500 <= outcomes(i).error.status <= 598
      || (outcomes(i).error.status == 403 && outcomes(i).error.timeTooSkewed)
      || outcomes(i).error.status in {200007, 200018, 200023, 200028, 200052, 200055, 200056, 200065}
    ensures attempts == s.maxRetries + 1 && result == outcomes(s.maxRetries)
  {
    var waits;
    result, attempts, waits := AttemptRequest(s, outcomes, enabled, overshift);
  }
}
