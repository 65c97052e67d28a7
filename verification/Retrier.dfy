/** Retries with exponential backoff. */
module Retrier {
  import opened Text
  import opened Arithmetic

  datatype Error = Canceled | DeadlineExceeded | OtherError(message: string)

  /** What one attempt hands back: a response by its status, or an error, or whatever combination it likes. */
  datatype Outcome = Outcome(status: Option<int>, err: Option<Error>)

  datatype Failure = Passed(err: Error) | ContextDone | Exhausted(last: Option<Error>)

  /** The response and error that Do returns. */
  datatype Done = Done(status: Option<int>, failure: Option<Failure>)

  datatype Config = Config(maxRetries: int, initialBackoff: nat, maxBackoff: nat, multiplier: real) {
    predicate Valid() { multiplier >= 0.0 }
  }

  function MaxAttempts(cfg: Config): nat { if cfg.maxRetries <= 0 then 0 else cfg.maxRetries }

  predicate IsRetryable(err: Option<Error>, statusCode: int) {
    if err.Some? then !err.value.Canceled? && !err.value.DeadlineExceeded?
    else statusCode >= 500 || statusCode == 408 || statusCode == 429
  }

  /** No further attempt is made after this outcome. */
  predicate Final(o: Outcome) {
    !IsRetryable(o.err, if o.status.Some? then o.status.value else 0)
  }

  function PassedOn(o: Outcome): Done {
    Done(o.status, if o.err.Some? then Some(Passed(o.err.value)) else None)
  }

  function Grown(cfg: Config, backoff: nat): nat
    requires cfg.Valid()
  {
    var longer := (backoff as real * cfg.multiplier).Floor;
    if longer > cfg.maxBackoff then cfg.maxBackoff else longer
  }

  /** The pause after the `i`-th attempt. */
  function Backoff(cfg: Config, i: nat): nat
    requires cfg.Valid()
  {
    if i == 0 then cfg.initialBackoff else Grown(cfg, Backoff(cfg, i - 1))
  }

  function TotalBackoff(cfg: Config, n: nat): nat
    requires cfg.Valid()
  {
    if n == 0 then 0 else TotalBackoff(cfg, n - 1) + Backoff(cfg, n - 1)
  }

  /** What Do returns after `n` attempts, all but the last of them retried: the last outcome when it is
      final, the context's error when it ends during the pause, exhaustion when no attempt is left. */
  ghost predicate Concludes(cfg: Config, fn: nat -> Outcome, cancelled: nat -> bool, n: nat, d: Done) {
    && (forall i :: 0 <= i < n - 1 ==> !Final(fn(i)) && !cancelled(i))
    && (if n == 0 then cfg.maxRetries <= 0 && d == Done(None, Some(Exhausted(None)))
        else
          var last := fn(n - 1);
          && n <= cfg.maxRetries
          && if Final(last) then d == PassedOn(last)
             else if cancelled(n - 1) then d == Done(last.status, Some(ContextDone))
             else n == cfg.maxRetries && d == Done(last.status, Some(Exhausted(last.err))))
  }

  /** Attempt `i` has the outcome `fn(i)`; `cancelled(i)` tells whether the context ends during the pause
      after it. `paused` is the sum of the pauses entered. */
  method Do(cfg: Config, fn: nat -> Outcome, cancelled: nat -> bool) returns (d: Done, attempts: nat, paused: nat)
    requires cfg.Valid()
    ensures Concludes(cfg, fn, cancelled, attempts, d)
    ensures attempts <= MaxAttempts(cfg)
    ensures paused == TotalBackoff(cfg, if attempts > 0 && Final(fn(attempts - 1)) then attempts - 1 else attempts)
  {
    var lastErr: Option<Error>, lastStatus: Option<int> := None, None;
    var backoff := cfg.initialBackoff;
    attempts, paused := 0, 0;
    while attempts < cfg.maxRetries
      invariant 0 <= attempts <= MaxAttempts(cfg)
      invariant forall i :: 0 <= i < attempts ==> !Final(fn(i)) && !cancelled(i)
      invariant backoff == Backoff(cfg, attempts) && paused == TotalBackoff(cfg, attempts)
      invariant if attempts == 0 then lastErr == None && lastStatus == None
          else Outcome(lastStatus, lastErr) == fn(attempts - 1)
    {
      var o := fn(attempts);
      attempts := attempts + 1;
      if o.err.None? && o.status.Some? && o.status.value < 500 && o.status.value != 408 && o.status.value != 429 {
        return Done(o.status, None), attempts, paused;
      }
      lastStatus, lastErr := o.status, o.err;
      if !IsRetryable(lastErr, if o.status.Some? then o.status.value else 0) {
        return PassedOn(o), attempts, paused;
      }
      paused := paused + backoff;
      if cancelled(attempts - 1) {
        return Done(lastStatus, Some(ContextDone)), attempts, paused;
      }
      backoff := Grown(cfg, backoff);
    }
    d := Done(lastStatus, Some(Exhausted(lastErr)));
  }

  /** The conclusion is determined by the outcomes and the context alone. */
  lemma ConclusionIsUnique(cfg: Config, fn: nat -> Outcome, cancelled: nat -> bool, n: nat, d: Done, m: nat, e: Done)
    requires Concludes(cfg, fn, cancelled, n, d) && Concludes(cfg, fn, cancelled, m, e)
    ensures n == m && d == e
  {
    if n < m { Decided(cfg, fn, cancelled, n, d, m, e); }
    if m < n { Decided(cfg, fn, cancelled, m, e, n, d); }
  }

  lemma Decided(cfg: Config, fn: nat -> Outcome, cancelled: nat -> bool, n: nat, d: Done, m: nat, e: Done)
    requires Concludes(cfg, fn, cancelled, n, d) && Concludes(cfg, fn, cancelled, m, e)
    ensures n >= m
  {
  }

  /** Do reports no error exactly when its last attempt ended without one in a status that is not retried. */
  lemma SucceedsExactly(cfg: Config, fn: nat -> Outcome, cancelled: nat -> bool, n: nat, d: Done)
    requires Concludes(cfg, fn, cancelled, n, d)
    ensures d.failure.None? <==> n > 0 && fn(n - 1).err.None? && Final(fn(n - 1))
  {
  }

  /** An error other than the context's two, or a response with one of these statuses. */
  predicate Retried(o: Outcome) {
    match o.err
    case Some(Canceled) => false
    case Some(DeadlineExceeded) => false
    case Some(OtherError(_)) => true
    case None => o.status.Some? && (o.status.value == 408 || o.status.value == 429 || o.status.value >= 500)
  }

  /** Do goes on exactly after such an outcome, while attempts are left and the context lasts; what it returns is the
      last outcome, the context's error, or exhaustion. */
  lemma RetriesExactly(cfg: Config, fn: nat -> Outcome, cancelled: nat -> bool, n: nat, d: Done)
    requires Concludes(cfg, fn, cancelled, n, d)
    ensures n == 0 <==> cfg.maxRetries <= 0
    ensures n == 0 ==> d == Done(None, Some(Exhausted(None)))
    ensures forall i :: 0 <= i < n - 1 ==> Retried(fn(i)) && !cancelled(i)
    ensures n > 0 ==>
      var last := fn(n - 1);
      && d.status == last.status
      && (!Retried(last) ==> d.failure == match last.err case Some(err) => Some(Passed(err)) case None => None)
      && (Retried(last) && cancelled(n - 1) ==> d.failure == Some(ContextDone))
      && (Retried(last) && !cancelled(n - 1) ==> n == cfg.maxRetries && d.failure == Some(Exhausted(last.err)))
  {
    forall i: nat ensures Final(fn(i)) <==> !Retried(fn(i)) {}
    hide Final, Retried;
  }

  // ----- how long it may pause -----

  /** With the doubling multiplier, the first pause is the initial one, uncapped, and each later one the initial
      one doubled per attempt and capped. */
  lemma {:induction false} BackoffDoubles(cfg: Config, i: nat)
    requires cfg.multiplier == 2.0
    ensures var doubled := Doubled(cfg.initialBackoff, i);
            Backoff(cfg, i) == if i > 0 && doubled > cfg.maxBackoff then cfg.maxBackoff else doubled
  {
    if i > 0 {
      BackoffDoubles(cfg, i - 1);
      FloorOfDouble(Backoff(cfg, i - 1));
    }
  }

  lemma FloorOfDouble(b: nat)
    ensures (b as real * 2.0).Floor == 2 * b
  {
    assert b as real * 2.0 == (2 * b) as real;
  }

  /** `b` multiplied by `m`, `n` times over. */
  function Scaled(b: real, m: real, n: nat): real { if n == 0 then b else Scaled(b, m, n - 1) * m }

  /** The geometric sum b + b * m + ... + b * m^(n - 1). */
  function Geometric(b: real, m: real, n: nat): real {
    if n == 0 then 0.0 else Geometric(b, m, n - 1) + Scaled(b, m, n - 1)
  }

  /** With the multiplier the default configuration sets, the sum is b * (2^n - 1). */
  lemma {:induction false} GeometricOfTwo(b: nat, n: nat)
    ensures Scaled(b as real, 2.0, n) == Doubled(b, n) as real
    ensures Geometric(b as real, 2.0, n) == (Doubled(b, n) - b) as real == (b * (Pow2(n) - 1)) as real
  {
    if n > 0 { GeometricOfTwo(b, n - 1); }
    DoubledIsProduct(b, n);
    hide Pow2;
  }

  lemma GrownIsBounded(cfg: Config, b: nat, x: real)
    requires cfg.Valid() && b as real <= x
    ensures Grown(cfg, b) <= cfg.maxBackoff && Grown(cfg, b) as real <= x * cfg.multiplier
  {
    assert (x - b as real) * cfg.multiplier >= 0.0;
    assert b as real * cfg.multiplier <= x * cfg.multiplier;
  }

  /** No pause is longer than the multiplier allows, nor, after the first, than the maximum. */
  lemma {:induction false} BackoffIsBounded(cfg: Config, i: nat)
    requires cfg.Valid()
    ensures Backoff(cfg, i) as real <= Scaled(cfg.initialBackoff as real, cfg.multiplier, i)
    ensures i > 0 ==> Backoff(cfg, i) <= cfg.maxBackoff
  {
    hide Grown;
    if i > 0 {
      BackoffIsBounded(cfg, i - 1);
      GrownIsBounded(cfg, Backoff(cfg, i - 1), Scaled(cfg.initialBackoff as real, cfg.multiplier, i - 1));
    }
  }

  lemma {:induction false} TotalIsBounded(cfg: Config, n: nat)
    requires cfg.Valid()
    ensures TotalBackoff(cfg, n) as real <= Geometric(cfg.initialBackoff as real, cfg.multiplier, n)
    ensures n > 0 ==> TotalBackoff(cfg, n) <= cfg.initialBackoff + (n - 1) * cfg.maxBackoff
  {
    hide Backoff, Scaled;
    if n > 0 {
      TotalIsBounded(cfg, n - 1);
      BackoffIsBounded(cfg, n - 1);
      if n > 1 { NextMultiple(n - 2, cfg.maxBackoff); } else { FirstBackoff(cfg); }
    }
  }

  lemma FirstBackoff(cfg: Config)
    requires cfg.Valid()
    ensures Backoff(cfg, 0) == cfg.initialBackoff
  {
  }

  lemma {:induction false} MoreAttemptsPauseLonger(cfg: Config, m: nat, n: nat)
    requires cfg.Valid() && m <= n
    ensures TotalBackoff(cfg, m) <= TotalBackoff(cfg, n)
  {
    if m < n { MoreAttemptsPauseLonger(cfg, m, n - 1); }
  }

  /** However Do ends, it has paused no longer than both bounds for `maxRetries` attempts: the geometric sum of the
      initial backoff, and the initial backoff once and the maximum for every other attempt. */
  lemma PauseIsBounded(cfg: Config, fn: nat -> Outcome, attempts: nat, paused: nat)
    requires cfg.Valid() && attempts <= MaxAttempts(cfg)
    requires paused == TotalBackoff(cfg, if attempts > 0 && Final(fn(attempts - 1)) then attempts - 1 else attempts)
    ensures paused as real <= Geometric(cfg.initialBackoff as real, cfg.multiplier, MaxAttempts(cfg))
    ensures paused <= if MaxAttempts(cfg) == 0 then 0 else cfg.initialBackoff + (cfg.maxRetries - 1) * cfg.maxBackoff
  {
    assert TotalBackoff(cfg, 0) == 0;
    hide TotalBackoff, Final, Geometric;
    var pauses := if attempts > 0 && Final(fn(attempts - 1)) then attempts - 1 else attempts;
    MoreAttemptsPauseLonger(cfg, pauses, MaxAttempts(cfg));
    TotalIsBounded(cfg, MaxAttempts(cfg));
  }

  /** A single attempt answered with a status that is retried: Do pauses, although no attempt is left. */
  lemma LastAttemptPauses()
    ensures var cfg, fn := Config(1, 100, 1000, 2.0), (_: nat) => Outcome(Some(500), None);
            && Concludes(cfg, fn, (_: nat) => false, 1, Done(Some(500), Some(Exhausted(None))))
            && !Final(fn(0)) && TotalBackoff(cfg, 1) == 100
  {
    var cfg := Config(1, 100, 1000, 2.0);
    assert TotalBackoff(cfg, 1) == TotalBackoff(cfg, 0) + Backoff(cfg, 0);
  }
}
