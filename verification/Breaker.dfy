/** The circuit breaker as atomic sections that any number of callers interleave: the read phase of Allow,
    its locked phase, and the two Record calls. */
module Breaker {
  import opened Text
  import opened Arithmetic

  datatype Mode = Closed | Open | HalfOpen

  datatype Settings = Settings(openTimeout: int, failureThreshold: nat, successThreshold: nat) {
    predicate Valid() { openTimeout > 0 && failureThreshold > 0 && successThreshold > 0 }
  }

  const DefaultOpenTimeout := 30_000_000_000  // thirty seconds in nanoseconds

  /** Settings as the constructor takes them: what is not positive is replaced by a default. */
  function Configured(openTimeout: int, failureThreshold: int, successThreshold: int): (s: Settings)
    ensures s.Valid()
  {
    Settings(if openTimeout <= 0 then DefaultOpenTimeout else openTimeout,
             if failureThreshold <= 0 then 5 else failureThreshold,
             if successThreshold <= 0 then 2 else successThreshold)
  }

  /** `waiting` counts the callers that have read an expired Open state and wait for the lock. */
  datatype State = State(mode: Mode, failures: nat, successes: nat, lastFailure: Option<int>, waiting: nat)

  const Start := State(Closed, 0, 0, None, 0)

  /** `time.Since(lastFailure) > openTimeout`; the zero time lies further back than any timeout. */
  predicate Elapsed(cfg: Settings, lastFailure: Option<int>, now: int) {
    lastFailure.None? || now - lastFailure.value > cfg.openTimeout
  }

  datatype Op = Read(now: int) | Lock(now: int) | Success | Failure(now: int)

  /** The second check looks at the time alone, not at the mode. */
  predicate Resets(cfg: Settings, s: State, op: Op) {
    op.Lock? && s.waiting > 0 && Elapsed(cfg, s.lastFailure, op.now)
  }

  function Step(cfg: Settings, s: State, op: Op): State {
    match op
    case Read(now) => if s.mode.Open? && Elapsed(cfg, s.lastFailure, now) then s.(waiting := s.waiting + 1) else s
    case Lock(now) =>
      if s.waiting == 0 then s
      else if Elapsed(cfg, s.lastFailure, now) then s.(mode := HalfOpen, successes := 0, waiting := s.waiting - 1)
      else s.(waiting := s.waiting - 1)
    case Success =>
      if s.mode.HalfOpen? then
        if s.successes + 1 >= cfg.successThreshold then s.(mode := Closed, failures := 0, successes := 0)
        else s.(failures := 0, successes := s.successes + 1)
      else s.(failures := 0)
    case Failure(now) =>
      s.(mode := if s.failures + 1 >= cfg.failureThreshold then Open else s.mode,
         failures := s.failures + 1, successes := 0, lastFailure := Some(now))
  }

  function Run(cfg: Settings, ops: seq<Op>): State {
    if ops == [] then Start else Step(cfg, Run(cfg, ops[..|ops| - 1]), ops[|ops| - 1])
  }

  // ----- what the counters count -----

  /** Failures since the last success. */
  function FailuresInARow(ops: seq<Op>): nat {
    if ops == [] || ops[|ops| - 1].Success? then 0
    else FailuresInARow(ops[..|ops| - 1]) + if ops[|ops| - 1].Failure? then 1 else 0
  }

  /** Successes since the last failure or reset to HalfOpen. */
  function SuccessesInARow(cfg: Settings, ops: seq<Op>): nat {
    if ops == [] then 0
    else
      var init, op := ops[..|ops| - 1], ops[|ops| - 1];
      if op.Failure? || Resets(cfg, Run(cfg, init), op) then 0
      else SuccessesInARow(cfg, init) + if op.Success? then 1 else 0
  }

  ghost predicate Counted(cfg: Settings, ops: seq<Op>, s: State) {
    && s.failures == FailuresInARow(ops)
    && (s.mode.Closed? ==> s.failures < cfg.failureThreshold)
    && s.successes < cfg.successThreshold
    && s.successes == (if s.mode.HalfOpen? then SuccessesInARow(cfg, ops) else 0)
    && (s.mode.Open? ==> s.lastFailure.Some?)
  }

  /** In every interleaving the failure counter is the current run of failures and stays below the threshold
      while Closed; the success counter is the current run of successes in HalfOpen and zero elsewhere. */
  lemma {:induction false} CountersCount(cfg: Settings, ops: seq<Op>)
    requires cfg.Valid()
    ensures Counted(cfg, ops, Run(cfg, ops))
  {
    if ops != [] { CountersCount(cfg, ops[..|ops| - 1]); }
  }

  /** The transitions exactly. Open is entered by a failure that completes a run of `failureThreshold`, Closed by
      a success in HalfOpen that completes `successThreshold` successes without a failure or reset in between, and
      HalfOpen, from Open or from Closed alike, by a locked phase whose caller waits while the last failure has
      timed out: that, and nothing else, takes Closed back to HalfOpen. */
  lemma Transitions(cfg: Settings, ops: seq<Op>, op: Op)
    requires cfg.Valid()
    ensures var s, t := Run(cfg, ops), Run(cfg, ops + [op]);
            && (!s.mode.Open? ==> (t.mode.Open? <==> op.Failure? && FailuresInARow(ops + [op]) >= cfg.failureThreshold))
            && (!s.mode.Closed? ==> (t.mode.Closed?
                 <==> s.mode.HalfOpen? && op.Success? && SuccessesInARow(cfg, ops + [op]) == cfg.successThreshold))
            && (!s.mode.HalfOpen? ==> (t.mode.HalfOpen? <==> Resets(cfg, s, op)))
  {
    assert (ops + [op])[..|ops|] == ops;
    CountersCount(cfg, ops);
  }

  /** A failure in HalfOpen reopens exactly when it completes a run of `failureThreshold`; after one success
      there it need not. */
  lemma HalfOpenFailure(cfg: Settings, ops: seq<Op>, now: int)
    requires cfg.Valid() && Run(cfg, ops).mode.HalfOpen?
    ensures Run(cfg, ops + [Failure(now)]).mode.Open? <==> FailuresInARow(ops) + 1 >= cfg.failureThreshold
  {
    assert (ops + [Failure(now)])[..|ops|] == ops;
    CountersCount(cfg, ops);
  }

  // ----- the thresholds a breaker is built with -----

  function Failures(times: seq<int>): seq<Op> { seq(|times|, i requires 0 <= i < |times| => Failure(times[i])) }

  /** A breaker built with the threshold `n` stays Closed through fewer than `n` failures in a row from the start,
      and is Open from the `n`-th on. */
  lemma {:induction false} OpensAtThreshold(openTimeout: int, n: int, m: int, times: seq<int>)
    requires n > 0
    ensures var s := Run(Configured(openTimeout, n, m), Failures(times));
            s.mode == (if |times| < n then Closed else Open) && s.failures == |times| && s.waiting == 0
  {
    if times != [] {
      var init := times[..|times| - 1];
      OpensAtThreshold(openTimeout, n, m, init);
      assert Failures(times)[..|times| - 1] == Failures(init);
    }
  }

  function Successes(k: nat): seq<Op> { seq(k, _ => Success) }

  /** From HalfOpen as it is entered, a breaker built with the threshold `m` closes at the `m`-th success. */
  lemma {:induction false} ClosesAtThreshold(openTimeout: int, n: int, m: int, ops: seq<Op>, k: nat)
    requires var s := Run(Configured(openTimeout, n, m), ops); m > 0 && s.mode.HalfOpen? && s.successes == 0
    ensures var s := Run(Configured(openTimeout, n, m), ops + Successes(k));
            s.mode == (if k < m then HalfOpen else Closed) && (k < m ==> s.successes == k)
  {
    if k > 0 {
      ClosesAtThreshold(openTimeout, n, m, ops, k - 1);
      assert ops + Successes(k) == (ops + Successes(k - 1)) + [Success];
      RunOneMore(Configured(openTimeout, n, m), ops + Successes(k - 1), Success);
      hide Run;
    } else {
      assert ops + Successes(0) == ops;
    }
  }

  /** An Open breaker that has seen a failure grants exactly when more than the timeout has passed since at both
      clock readings; one in another mode always does. */
  lemma GrantsExactly(cfg: Settings, s: State, now: int, later: int)
    ensures !s.mode.Open? ==> Allowed(cfg, s, now, later)
    ensures s.mode.Open? && s.lastFailure.Some? ==>
        (Allowed(cfg, s, now, later) <==>
         now - s.lastFailure.value > cfg.openTimeout && later - s.lastFailure.value > cfg.openTimeout)
    ensures s.mode.Open? && s.lastFailure.Some? && now <= later ==>
        (AllowState(cfg, s, now, later).mode.HalfOpen? <==> now > s.lastFailure.value + cfg.openTimeout)
  {
  }

  /** A locked phase ends one wait, whatever it finds; nothing but a read of an expired Open state begins one. */
  lemma WaitsEnd(cfg: Settings, s: State, op: Op)
    ensures op.Lock? && s.waiting > 0 ==> Step(cfg, s, op).waiting == s.waiting - 1
    ensures op.Lock? && s.waiting == 0 ==> Step(cfg, s, op) == s
    ensures Step(cfg, s, op).waiting > s.waiting <==>
        op.Read? && s.mode.Open?
        && (s.lastFailure.None? || op.now - s.lastFailure.value > cfg.openTimeout)
  {
  }

  // ----- a stale caller -----

  const Two := Settings(10, 2, 2)

  lemma RunOneMore(cfg: Settings, ops: seq<Op>, op: Op)
    ensures Run(cfg, ops + [op]) == Step(cfg, Run(cfg, ops), op)
  {
    assert (ops + [op])[..|ops|] == ops;
  }

  /** Two callers read an expired Open state; the first one's probes close the breaker, then the second one's
      locked phase takes it from Closed back to HalfOpen. */
  lemma StaleCallerReopens()
    ensures exists ops :: Run(Two, ops).mode.Closed? && Run(Two, ops + [Lock(21)]).mode.HalfOpen?
  {
    var one := [Failure(0)];
    var ops := one + [Failure(0)];
    RunOneMore(Two, [], Failure(0));
    RunOneMore(Two, one, Failure(0));
    assert [] + [Failure(0)] == one;
    assert Run(Two, ops) == State(Open, 2, 0, Some(0), 0);
    hide Run, SuccessesInARow, FailuresInARow;
    RunOneMore(Two, ops, Read(20));
    ops := ops + [Read(20)];
    RunOneMore(Two, ops, Read(20));
    ops := ops + [Read(20)];
    RunOneMore(Two, ops, Lock(20));
    ops := ops + [Lock(20)];
    RunOneMore(Two, ops, Success);
    ops := ops + [Success];
    RunOneMore(Two, ops, Success);
    ops := ops + [Success];
    RunOneMore(Two, ops, Lock(21));
  }

  // ----- whole calls of Allow -----

  /** Allow with nothing in between: both phases, at the instants of its two clock readings. */
  function AllowState(cfg: Settings, s: State, now: int, later: int): State {
    var t := Step(cfg, s, Read(now));
    if t.waiting > s.waiting then Step(cfg, t, Lock(later)) else t
  }

  predicate Allowed(cfg: Settings, s: State, now: int, later: int) {
    !s.mode.Open? || (Elapsed(cfg, s.lastFailure, now) && Elapsed(cfg, s.lastFailure, later))
  }

  /** An uninterrupted Allow leaves Closed and HalfOpen alone and takes Open to HalfOpen exactly when it allows. */
  lemma UninterruptedAllow(cfg: Settings, s: State, now: int, later: int)
    requires now <= later
    ensures var t := AllowState(cfg, s, now, later);
            && t.waiting == s.waiting && t.failures == s.failures && t.lastFailure == s.lastFailure
            && (if !s.mode.Open? then t == s else t.mode == (if Allowed(cfg, s, now, later) then HalfOpen else Open))
            && (Allowed(cfg, s, now, later) <==> !t.mode.Open?)
  {
  }

  // ----- load shedding -----

  /** A call that asks at `start`, looks at the clock again at `checked` and, if allowed, has failed by `end`. */
  datatype Attempt = Attempt(start: int, checked: int, end: int)

  predicate Grants(cfg: Settings, s: State, a: Attempt) { Allowed(cfg, s, a.start, a.checked) }

  function AfterFailing(cfg: Settings, s: State, a: Attempt): State {
    var t := AllowState(cfg, s, a.start, a.checked);
    if Grants(cfg, s, a) then Step(cfg, t, Failure(a.end)) else t
  }

  function RunFailing(cfg: Settings, calls: seq<Attempt>): State {
    if calls == [] then Start else AfterFailing(cfg, RunFailing(cfg, calls[..|calls| - 1]), calls[|calls| - 1])
  }

  /** How many of the calls were allowed. */
  function Granted(cfg: Settings, calls: seq<Attempt>): nat {
    if calls == [] then 0
    else
      var init, a := calls[..|calls| - 1], calls[|calls| - 1];
      Granted(cfg, init) + if Grants(cfg, RunFailing(cfg, init), a) then 1 else 0
  }

  /** One call after another, none before `from` or starting after `until`. */
  ghost predicate OneByOne(calls: seq<Attempt>, from: int, until: int) {
    && (forall i :: 0 <= i < |calls| ==>
        from <= calls[i].start <= until && calls[i].start <= calls[i].checked <= calls[i].end)
    && (forall i, j :: 0 <= i < j < |calls| ==> calls[i].end <= calls[j].start)
  }

  ghost predicate Shed(cfg: Settings, s: State, granted: nat, from: int, last: int) {
    && s.failures == granted
    && (granted < cfg.failureThreshold ==> s.mode.Closed?)
    && (granted >= cfg.failureThreshold ==> s.mode.Open? && s.lastFailure.Some? && s.lastFailure.value <= last)
    && (granted >= cfg.failureThreshold ==>
        from + (granted - cfg.failureThreshold) * cfg.openTimeout <= s.lastFailure.value)
  }

  /** The calls beyond `failureThreshold` need that many timeouts, and a little more, to pass. */
  predicate Spaced(cfg: Settings, granted: nat, span: int)
    requires granted >= cfg.failureThreshold
  {
    (granted - cfg.failureThreshold) * cfg.openTimeout < span
  }

  lemma AttemptSheds(cfg: Settings, s: State, granted: nat, from: int, last: int, a: Attempt)
    requires cfg.Valid() && Shed(cfg, s, granted, from, last)
    requires from <= a.start <= a.checked <= a.end && last <= a.start
    ensures Shed(cfg, AfterFailing(cfg, s, a), granted + if Grants(cfg, s, a) then 1 else 0, from, a.end)
    ensures Grants(cfg, s, a) && granted >= cfg.failureThreshold ==> Spaced(cfg, granted + 1, a.start - from)
  {
    if granted >= cfg.failureThreshold {
      NextMultiple(granted - cfg.failureThreshold, cfg.openTimeout);
    }
  }

  lemma {:induction false} SheddingHolds(cfg: Settings, calls: seq<Attempt>, from: int, until: int)
    requires cfg.Valid() && OneByOne(calls, from, until)
    ensures Shed(cfg, RunFailing(cfg, calls), Granted(cfg, calls), from,
                 if calls == [] then from else calls[|calls| - 1].end)
    ensures Granted(cfg, calls) > cfg.failureThreshold ==> Spaced(cfg, Granted(cfg, calls), until - from)
  {
    if calls != [] {
      var init, a := calls[..|calls| - 1], calls[|calls| - 1];
      SheddingHolds(cfg, init, from, until);
      hide Shed, Grants, AfterFailing;
      AttemptSheds(cfg, RunFailing(cfg, init), Granted(cfg, init), from,
                   if init == [] then from else init[|init| - 1].end, a);
    }
  }

  /** `failureThreshold + floor(span / openTimeout)`. */
  function ShedLimit(cfg: Settings, span: nat): nat
    requires cfg.Valid()
  {
    cfg.failureThreshold + span / cfg.openTimeout
  }

  /** From a fresh breaker, with every upstream call failing, at most `failureThreshold + floor(D / openTimeout)`
      calls are let through in a span of `D`. */
  lemma LoadIsShed(cfg: Settings, calls: seq<Attempt>, from: int, span: nat)
    requires cfg.Valid() && OneByOne(calls, from, from + span)
    ensures Granted(cfg, calls) <= ShedLimit(cfg, span)
  {
    SheddingHolds(cfg, calls, from, from + span);
    hide Granted, RunFailing, Shed, OneByOne;
    var extra := Granted(cfg, calls) - cfg.failureThreshold;
    if extra > 0 { BelowQuotient(extra, cfg.openTimeout, span); }
  }

  // ----- the object -----

  datatype Verdict = Granting | Denying | Rechecking

  class CircuitBreaker {
    const settings: Settings
    var mode: Mode
    var failureCount: nat
    var successCount: nat
    var lastFailureTime: Option<int>
    ghost var waiting: nat

    ghost function Value(): State
      reads this
    {
      State(mode, failureCount, successCount, lastFailureTime, waiting)
    }

    constructor (openTimeout: int, failureThreshold: int, successThreshold: int)
      ensures settings == Configured(openTimeout, failureThreshold, successThreshold) && Value() == Start
      ensures settings.openTimeout == if openTimeout > 0 then openTimeout else 30_000_000_000
      ensures settings.failureThreshold == if failureThreshold > 0 then failureThreshold else 5
      ensures settings.successThreshold == if successThreshold > 0 then successThreshold else 2
    {
      settings := Configured(openTimeout, failureThreshold, successThreshold);
      mode, failureCount, successCount, lastFailureTime, waiting := Closed, 0, 0, None, 0;
    }

    /** The part of Allow before the write lock. */
    method ReadPhase(now: int) returns (v: Verdict)
      modifies this
      ensures Value() == Step(settings, old(Value()), Read(now))
      ensures v == if !old(mode).Open? then Granting else if waiting > old(waiting) then Rechecking else Denying
    {
      match mode
      case Closed => v := Granting;
      case Open =>
        if lastFailureTime.None? || now - lastFailureTime.value > settings.openTimeout {
          waiting := waiting + 1;
          v := Rechecking;
        } else {
          v := Denying;
        }
      case HalfOpen => v := Granting;
    }

    /** The part of Allow under the write lock. */
    method LockPhase(now: int) returns (allowed: bool)
      requires waiting > 0
      modifies this
      ensures Value() == Step(settings, old(Value()), Lock(now))
      ensures allowed <==> Resets(settings, old(Value()), Lock(now))
    {
      waiting := waiting - 1;
      if lastFailureTime.None? || now - lastFailureTime.value > settings.openTimeout {
        mode := HalfOpen;
        successCount := 0;
        return true;
      }
      return false;
    }

    /** Allow with no other caller in between. */
    method Allow(now: int, later: int) returns (allowed: bool)
      modifies this
      ensures Value() == AllowState(settings, old(Value()), now, later)
      ensures allowed <==> Allowed(settings, old(Value()), now, later)
    {
      var v := ReadPhase(now);
      match v
      case Granting => allowed := true;
      case Denying => allowed := false;
      case Rechecking => allowed := LockPhase(later);
    }

    method RecordSuccess()
      modifies this
      ensures Value() == Step(settings, old(Value()), Success)
    {
      failureCount := 0;
      if mode == HalfOpen {
        successCount := successCount + 1;
        if successCount >= settings.successThreshold {
          mode := Closed;
          successCount := 0;
        }
      }
    }

    method RecordFailure(now: int)
      modifies this
      ensures Value() == Step(settings, old(Value()), Failure(now))
    {
      successCount := 0;
      lastFailureTime := Some(now);
      failureCount := failureCount + 1;
      if failureCount >= settings.failureThreshold {
        mode := Open;
      }
    }
  }
}
