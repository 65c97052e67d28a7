/** The HTTP client's GetJSON: cache, breaker and retrier composed. */
module HttpClient {
  import opened Text
  import opened Arithmetic
  import opened Recency
  import LruCache
  import Retrier
  import Breaker

  datatype Config = Config(capacity: nat, ttl: int, retry: Retrier.Config, breaker: Breaker.Settings,
      maxResponseSize: int)

  /** One call and what its surroundings do: the instants it reads the clock at, the upstream's outcome per
      attempt, when the context ends, and the body (a character per byte) or a read error. */
  datatype Request = Request(url: string, asked: int, allowed: int, checked: int, recorded: int, stored: int,
                             fn: nat -> Retrier.Outcome, cancelled: nat -> bool, body: Option<string>)

  datatype Reply = Hit(text: string) | Refused | Failed(failure: Retrier.Failure) | BadStatus(status: int)
                 | ReadFailed | TooLarge | Fetched(text: string)

  datatype State = State(cache: Order<Cached>, breaker: Breaker.State)

  const Fresh := State([], Breaker.Start)

  /** The upstream answers with an error or a response. */
  ghost predicate Answers(q: Request) {
    forall i :: q.fn(i).err.None? ==> q.fn(i).status.Some?
  }

  /** What the client does with the retrier's conclusion `d`. */
  function Concluded(cfg: Config, s: State, q: Request, d: Retrier.Done): (State, Reply)
    requires d.failure.None? ==> d.status.Some?
  {
    var failed := s.(breaker := Breaker.Step(cfg.breaker, s.breaker, Breaker.Failure(q.recorded)));
    if d.failure.Some? then (failed, Failed(d.failure.value))
    else if d.status.value < 200 || d.status.value >= 300 then (failed, BadStatus(d.status.value))
    else
      var ok := s.(breaker := Breaker.Step(cfg.breaker, s.breaker, Breaker.Success));
      match q.body
      case None => (ok, ReadFailed)
      case Some(text) =>
        if |text| > cfg.maxResponseSize then (ok, TooLarge)
        else (ok.(cache := AfterSet(s.cache, cfg.capacity, q.url, Content(text), q.stored + cfg.ttl)), Fetched(text))
  }

  function Step(cfg: Config, s: State, q: Request, d: Retrier.Done): (State, Reply)
    requires d.failure.None? ==> d.status.Some?
  {
    var cache := LookedUp(s.cache, q.url, q.asked);
    match Answer<Cached>(s.cache, q.url, q.asked)
    case Some(Content(text)) => (State(cache, s.breaker), Hit(text))
    case _ =>
      var asked := State(cache, Breaker.AllowState(cfg.breaker, s.breaker, q.allowed, q.checked));
      if Breaker.Allowed(cfg.breaker, s.breaker, q.allowed, q.checked) then Concluded(cfg, asked, q, d)
      else (asked, Refused)
  }

  // ----- the object -----

  class Client {
    const config: Config
    const cache: LruCache.LRUCache<Cached>
    const circuitBreaker: Breaker.CircuitBreaker

    ghost predicate Valid()
      reads this, cache, cache.Repr
    {
      && cache.Valid() && circuitBreaker !in cache.Repr && this !in cache.Repr
      && cache.maxSize == config.capacity && cache.ttl == config.ttl
      && circuitBreaker.settings == config.breaker && config.retry.Valid()
    }

    ghost function Value(): State
      reads cache, circuitBreaker
    {
      State(cache.contents, circuitBreaker.Value())
    }

    constructor (cacheSize: int, cacheTtl: int, maxRetries: int, openTime: int, failureThreshold: int,
        successThreshold: int, maxResponseSize: int)
      ensures Valid() && fresh(cache) && fresh(cache.Repr) && fresh(circuitBreaker) && Value() == Fresh
      ensures config.retry == Retrier.Config(maxRetries, 100_000_000, 10_000_000_000, 2.0)
      ensures config.breaker.openTimeout == if openTime > 0 then openTime else 30_000_000_000
      ensures config.breaker.failureThreshold == if failureThreshold > 0 then failureThreshold else 5
      ensures config.breaker.successThreshold == if successThreshold > 0 then successThreshold else 2
      ensures config.capacity == if cacheSize > 0 then cacheSize else 1000
      ensures config.ttl == if cacheTtl > 0 then cacheTtl else 300_000_000_000
      ensures config.maxResponseSize == maxResponseSize
    {
      var c := new LruCache.LRUCache<Cached>(cacheSize, cacheTtl);
      var b := new Breaker.CircuitBreaker(openTime, failureThreshold, successThreshold);
      cache, circuitBreaker := c, b;
      config := Config(c.maxSize, c.ttl, Retrier.Config(maxRetries, 100_000_000, 10_000_000_000, 2.0), b.settings,
          maxResponseSize);
    }

    /** The cached text for the request, if there is any. */
    method Lookup(q: Request) returns (hit: Option<string>)
      requires Valid()
      modifies cache.Repr
      ensures Valid() && cache.Repr == old(cache.Repr) && circuitBreaker.Value() == old(circuitBreaker.Value())
      ensures cache.contents == LookedUp(old(cache.contents), q.url, q.asked)
      ensures hit == match Answer<Cached>(old(cache.contents), q.url, q.asked)
                     case Some(Content(text)) => Some(text)
                     case _ => None
    {
      hide LruCache.LRUCache.Valid, AfterGet, Without, Find;
      var cached := cache.Get(q.url, q.asked);
      if cached.Some? && cached.value.Content? {
        return Some(cached.value.text);
      }
      if cached.Some? {
        cache.Delete(q.url);
      }
      return None;
    }

    /** Records the outcome and caches a good body. */
    method Conclude(q: Request, d: Retrier.Done) returns (r: Reply)
      requires Valid() && (d.failure.None? ==> d.status.Some?)
      modifies cache.Repr, circuitBreaker
      ensures Valid() && fresh(cache.Repr - old(cache.Repr))
      ensures (Value(), r) == Concluded(config, old(Value()), q, d) && !r.Hit? && !r.Refused?
    {
      hide LruCache.LRUCache.Valid, AfterSet, Breaker.Step;
      if d.failure.Some? {
        circuitBreaker.RecordFailure(q.recorded);
        return Failed(d.failure.value);
      }
      if d.status.value < 200 || d.status.value >= 300 {
        circuitBreaker.RecordFailure(q.recorded);
        return BadStatus(d.status.value);
      }
      circuitBreaker.RecordSuccess();
      if q.body.None? {
        return ReadFailed;
      }
      if |q.body.value| > config.maxResponseSize {
        return TooLarge;
      }
      cache.Set(q.url, Content(q.body.value), q.stored);
      return Fetched(q.body.value);
    }

    /** GetJSON, and Get, which differs from it in a request header only. */
    method GetJSON(q: Request) returns (r: Reply, attempts: nat, ghost d: Retrier.Done)
      requires Valid() && Answers(q)
      modifies cache.Repr, circuitBreaker
      ensures Valid() && fresh(cache.Repr - old(cache.Repr))
      ensures (d.failure.None? ==> d.status.Some?) && (Value(), r) == Step(config, old(Value()), q, d)
      ensures if r.Hit? || r.Refused? then attempts == 0
              else Retrier.Concludes(config.retry, q.fn, q.cancelled, attempts, d)
      ensures attempts <= Retrier.MaxAttempts(config.retry)
    {
      hide LruCache.LRUCache.Valid, LookedUp, Concluded, Breaker.AllowState, Breaker.Allowed;
      d := Retrier.Done(None, Some(Retrier.ContextDone));
      var hit := Lookup(q);
      if hit.Some? {
        return Hit(hit.value), 0, d;
      }
      var allowed := circuitBreaker.Allow(q.allowed, q.checked);
      if !allowed {
        return Refused, 0, d;
      }
      var done, paused;
      done, attempts, paused := Retrier.Do(config.retry, q.fn, q.cancelled);
      Retrier.SucceedsExactly(config.retry, q.fn, q.cancelled, attempts, done);
      d := done;
      r := Conclude(q, done);
    }
  }

  // ----- sessions: one call after another -----

  /** A call with the retrier's conclusion and the attempts it took. */
  datatype Turn = Turn(q: Request, d: Retrier.Done, attempts: nat)

  /** No error comes without a response. */
  predicate Sensible(turns: seq<Turn>) {
    forall i :: 0 <= i < |turns| ==> turns[i].d.failure.None? ==> turns[i].d.status.Some?
  }

  function RunState(cfg: Config, turns: seq<Turn>): State
    requires Sensible(turns)
  {
    if turns == [] then Fresh
    else Step(cfg, RunState(cfg, turns[..|turns| - 1]), turns[|turns| - 1].q, turns[|turns| - 1].d).0
  }

  function ReplyOf(cfg: Config, turns: seq<Turn>, i: nat): Reply
    requires i < |turns| && Sensible(turns)
  {
    Step(cfg, RunState(cfg, turns[..i]), turns[i].q, turns[i].d).1
  }

  // ----- where cached values come from -----

  /** Turn `i` fetched what the entry holds. */
  predicate Supplied(cfg: Config, turns: seq<Turn>, item: Item<Cached>, i: nat)
    requires i < |turns| && Sensible(turns)
  {
    item.key == turns[i].q.url && item.expiry == turns[i].q.stored + cfg.ttl
    && ReplyOf(cfg, turns, i).Fetched? && item.value == Content(ReplyOf(cfg, turns, i).text)
  }

  /** An entry after a step was there before or is the one just fetched. */
  lemma StepSupplies(cfg: Config, s: State, q: Request, d: Retrier.Done, item: Item<Cached>)
    requires (d.failure.None? ==> d.status.Some?) && item in Step(cfg, s, q, d).0.cache
    ensures item in s.cache
         || (Step(cfg, s, q, d).1.Fetched?
             && item == Item(q.url, Content(Step(cfg, s, q, d).1.text), q.stored + cfg.ttl))
  {
    var looked, final := LookedUp(s.cache, q.url, q.asked), Step(cfg, s, q, d).0.cache;
    if item in looked { LookupKeeps(s.cache, q.url, q.asked, item); }
    if item in Without(looked, q.url) {
      InWithout(looked, q.url, item);
      LookupKeeps(s.cache, q.url, q.asked, item);
    }
    hide Without, Find, LookedUp, Answer, Breaker.Step, Breaker.AllowState, Breaker.Allowed;
  }

  /** Every cached entry is the text some earlier call fetched for that very URL. */
  lemma {:induction false} EntriesWereFetched(cfg: Config, turns: seq<Turn>, item: Item<Cached>) returns (i: nat)
    requires Sensible(turns)
    requires item in RunState(cfg, turns).cache
    ensures i < |turns| && Supplied(cfg, turns, item, i)
  {
    hide Step;
    var init, t := turns[..|turns| - 1], turns[|turns| - 1];
    StepSupplies(cfg, RunState(cfg, init), t.q, t.d, item);
    if item in RunState(cfg, init).cache {
      i := EntriesWereFetched(cfg, init, item);
      assert turns[..i] == init[..i];
    } else {
      i := |turns| - 1;
    }
  }

  /** A hit returns what an earlier call fetched for the same URL, no longer ago than the time to live. */
  lemma HitsWereFetched(cfg: Config, turns: seq<Turn>, q: Request, d: Retrier.Done) returns (i: nat)
    requires Sensible(turns)
    requires (d.failure.None? ==> d.status.Some?) && Step(cfg, RunState(cfg, turns), q, d).1.Hit?
    ensures i < |turns| && turns[i].q.url == q.url && q.asked <= turns[i].q.stored + cfg.ttl
    ensures ReplyOf(cfg, turns, i) == Fetched(Step(cfg, RunState(cfg, turns), q, d).1.text)
  {
    var cache := RunState(cfg, turns).cache;
    FindIsIn(cache, q.url);
    hide RunState, LookedUp, Breaker.AllowState, Breaker.Allowed, Concluded;
    i := EntriesWereFetched(cfg, turns, Find(cache, q.url).value);
  }

  /** What was fetched is served from the cache until it expires, whatever the breaker says. */
  lemma FetchedIsServed(cfg: Config, s: State, q: Request, d: Retrier.Done, again: Request, e: Retrier.Done)
    requires (d.failure.None? ==> d.status.Some?) && (e.failure.None? ==> e.status.Some?)
    requires Step(cfg, s, q, d).1.Fetched? && again.url == q.url && again.asked <= q.stored + cfg.ttl
    ensures Step(cfg, Step(cfg, s, q, d).0, again, e).1 == Hit(Step(cfg, s, q, d).1.text)
    ensures Step(cfg, Step(cfg, s, q, d).0, again, e).0.breaker == Step(cfg, s, q, d).0.breaker
  {
    hide Without, LookedUp, Breaker.Step, Breaker.AllowState, Breaker.Allowed;
  }

  // ----- what a call does, by its outcome -----

  /** A call that the cache does not answer and the breaker lets through. */
  predicate LetThrough(cfg: Config, s: State, q: Request) {
    && (Answer<Cached>(s.cache, q.url, q.asked).None? || Answer<Cached>(s.cache, q.url, q.asked).value.Other?)
    && Breaker.Allowed(cfg.breaker, s.breaker, q.allowed, q.checked)
  }

  /** No error, and a status from 200 to 299. */
  predicate Good(d: Retrier.Done) {
    d.failure.None? && d.status.Some? && 200 <= d.status.value <= 299
  }

  /** A good response counts as a success whatever becomes of its body; only a body that can be read and is small
      enough is cached, and answered. */
  lemma GoodResponse(cfg: Config, s: State, q: Request, d: Retrier.Done)
    requires LetThrough(cfg, s, q) && Good(d)
    ensures var t, r := Step(cfg, s, q, d).0, Step(cfg, s, q, d).1;
            && t.breaker == Breaker.Step(cfg.breaker, Breaker.AllowState(cfg.breaker, s.breaker, q.allowed, q.checked),
                                         Breaker.Success)
            && match q.body
               case None => r == ReadFailed && t.cache == LookedUp(s.cache, q.url, q.asked)
               case Some(text) =>
                 if |text| > cfg.maxResponseSize then r == TooLarge && t.cache == LookedUp(s.cache, q.url, q.asked)
                 else r == Fetched(text) && Find(t.cache, q.url) == Some(Item(q.url, Content(text), q.stored + cfg.ttl))
  {
    hide LookedUp, Without, Breaker.Step, Breaker.AllowState;
  }

  /** An error, or a status outside 200 to 299, counts as a failure and caches nothing. */
  lemma BadResponse(cfg: Config, s: State, q: Request, d: Retrier.Done)
    requires LetThrough(cfg, s, q) && !Good(d) && (d.failure.None? ==> d.status.Some?)
    ensures var t, r := Step(cfg, s, q, d).0, Step(cfg, s, q, d).1;
            && t.breaker == Breaker.Step(cfg.breaker, Breaker.AllowState(cfg.breaker, s.breaker, q.allowed, q.checked),
                                         Breaker.Failure(q.recorded))
            && t.cache == LookedUp(s.cache, q.url, q.asked)
            && r == match d.failure case Some(failure) => Failed(failure) case None => BadStatus(d.status.value)
  {
    hide LookedUp, Breaker.Step, Breaker.AllowState;
  }

  /** A hit leaves the breaker alone; so does a refusal, which an Open breaker alone gives, but for what Allow does. */
  lemma NoAttempt(cfg: Config, s: State, q: Request, d: Retrier.Done)
    requires !LetThrough(cfg, s, q) && (d.failure.None? ==> d.status.Some?)
    ensures var t, r := Step(cfg, s, q, d).0, Step(cfg, s, q, d).1;
            && t.cache == LookedUp(s.cache, q.url, q.asked)
            && match Answer<Cached>(s.cache, q.url, q.asked)
               case Some(Content(text)) => r == Hit(text) && t.breaker == s.breaker
               case _ => r == Refused && s.breaker.mode.Open? && t.breaker.mode.Open?
                         && (t.breaker.failures, t.breaker.lastFailure) == (s.breaker.failures, s.breaker.lastFailure)
  {
    hide LookedUp;
  }

  /** Against an upstream whose every conclusion is a good response, whatever the bodies, a fresh client's breaker stays
      Closed with no failure on record, and no call is refused. */
  lemma {:induction false} GoodUpstreamIsNeverRefused(cfg: Config, turns: seq<Turn>)
    requires Sensible(turns) && forall i :: 0 <= i < |turns| ==> Good(turns[i].d)
    ensures var b := RunState(cfg, turns).breaker; b.mode.Closed? && b.failures == 0 && b.waiting == 0
    ensures forall i :: 0 <= i < |turns| ==> !ReplyOf(cfg, turns, i).Refused?
  {
    hide *;
    if turns == [] {
      FreshIsClosed(cfg, turns);
    } else {
      var n := |turns| - 1;
      RepliesOfInit(cfg, turns);
      GoodUpstreamIsNeverRefused(cfg, turns[..n]);
      GoodTurn(cfg, RunState(cfg, turns[..n]), turns[n]);
      LastTurn(cfg, turns);
    }
  }

  lemma FreshIsClosed(cfg: Config, turns: seq<Turn>)
    requires Sensible(turns) && turns == []
    ensures var b := RunState(cfg, turns).breaker; b.mode.Closed? && b.failures == 0 && b.waiting == 0
  {
  }

  lemma RepliesOfInit(cfg: Config, turns: seq<Turn>)
    requires turns != [] && Sensible(turns)
    ensures Sensible(turns[..|turns| - 1])
    ensures forall i :: 0 <= i < |turns| - 1 ==> ReplyOf(cfg, turns[..|turns| - 1], i) == ReplyOf(cfg, turns, i)
  {
    hide Step;
    forall i | 0 <= i < |turns| - 1
      ensures ReplyOf(cfg, turns[..|turns| - 1], i) == ReplyOf(cfg, turns, i)
    {
      assert turns[..|turns| - 1][..i] == turns[..i];
    }
  }

  lemma LastTurn(cfg: Config, turns: seq<Turn>)
    requires turns != [] && Sensible(turns) && Sensible(turns[..|turns| - 1])
    ensures var n := |turns| - 1;
            var after := Step(cfg, RunState(cfg, turns[..n]), turns[n].q, turns[n].d);
            RunState(cfg, turns) == after.0 && ReplyOf(cfg, turns, n) == after.1
            && (turns[n].d.failure.None? ==> turns[n].d.status.Some?)
  {
    hide Step;
  }

  lemma GoodTurn(cfg: Config, s: State, t: Turn)
    requires Good(t.d) && s.breaker.mode.Closed? && s.breaker.failures == 0 && s.breaker.waiting == 0
    ensures var after, r := Step(cfg, s, t.q, t.d).0, Step(cfg, s, t.q, t.d).1;
            after.breaker.mode.Closed? && after.breaker.failures == 0 && after.breaker.waiting == 0 && !r.Refused?
  {
    hide LookedUp, Answer, AfterSet;
  }

  // ----- a failing upstream -----

  /** The call ended in an error or a status outside 200 to 299. */
  predicate Failing(d: Retrier.Done) {
    d.failure.Some? || (d.status.Some? && (d.status.value < 200 || d.status.value >= 300))
  }

  function Attempts(turns: seq<Turn>): seq<Breaker.Attempt> {
    seq(|turns|,
        i requires 0 <= i < |turns| => Breaker.Attempt(turns[i].q.allowed, turns[i].q.checked, turns[i].q.recorded))
  }

  /** Whatever the upstream does with this request, it is an error or a status outside 200 to 299. */
  ghost predicate AlwaysFails(q: Request) {
    forall n :: q.fn(n).err.Some?
        || (q.fn(n).status.Some? && (q.fn(n).status.value < 200 || q.fn(n).status.value >= 300))
  }

  /** A call as GetJSON makes it: no attempt on a hit or when refused, the retrier's conclusion otherwise. */
  ghost predicate Served(cfg: Config, t: Turn, reply: Reply) {
    if reply.Hit? || reply.Refused? then t.attempts == 0
    else Retrier.Concludes(cfg.retry, t.q.fn, t.q.cancelled, t.attempts, t.d)
  }

  /** A session against an upstream that fails every attempt of every call. */
  ghost predicate FailingSession(cfg: Config, turns: seq<Turn>) {
    && Sensible(turns)
    && forall i :: 0 <= i < |turns| ==> AlwaysFails(turns[i].q) && Served(cfg, turns[i], ReplyOf(cfg, turns, i))
  }

  /** Against such an upstream the retrier concludes with a failure, after at most `maxRetries` attempts. */
  lemma FailingConclusion(cfg: Config, t: Turn)
    requires AlwaysFails(t.q) && Retrier.Concludes(cfg.retry, t.q.fn, t.q.cancelled, t.attempts, t.d)
    ensures Failing(t.d) && t.attempts <= Retrier.MaxAttempts(cfg.retry)
  {
  }

  function TotalAttempts(turns: seq<Turn>): nat {
    if turns == [] then 0 else TotalAttempts(turns[..|turns| - 1]) + turns[|turns| - 1].attempts
  }

  lemma FailingStep(cfg: Config, s: State, t: Turn)
    requires s.cache == [] && (t.d.failure.None? ==> t.d.status.Some?) && cfg.breaker.Valid()
    requires AlwaysFails(t.q) && Served(cfg, t, Step(cfg, s, t.q, t.d).1)
    ensures var a, u := Breaker.Attempt(t.q.allowed, t.q.checked, t.q.recorded), Step(cfg, s, t.q, t.d);
            && u.0 == State([], Breaker.AfterFailing(cfg.breaker, s.breaker, a))
            && t.attempts <= if Breaker.Grants(cfg.breaker, s.breaker, a) then Retrier.MaxAttempts(cfg.retry) else 0
  {
    assert Find(s.cache, t.q.url) == None;
    assert LookedUp(s.cache, t.q.url, t.q.asked) == [] && Answer(s.cache, t.q.url, t.q.asked) == None;
    hide Breaker.Step, Breaker.AllowState, Breaker.Allowed, LookedUp;
    hide Answer, Failing, AlwaysFails, Retrier.MaxAttempts, Retrier.Concludes;
    var u := Step(cfg, s, t.q, t.d);
    if !u.1.Refused? {
      FailingConclusion(cfg, t);
      FailureStays(cfg, s, t);
    }
  }

  /** A failing conclusion is recorded as a failure and caches nothing. */
  lemma FailureStays(cfg: Config, s: State, t: Turn)
    requires Failing(t.d) && (t.d.failure.None? ==> t.d.status.Some?)
    ensures var after := Concluded(cfg, s, t.q, t.d);
            && after.0 == s.(breaker := Breaker.Step(cfg.breaker, s.breaker, Breaker.Failure(t.q.recorded)))
            && !after.1.Hit? && !after.1.Refused?
  {
    hide Breaker.Step;
  }

  lemma FailingPrefix(cfg: Config, turns: seq<Turn>)
    requires turns != [] && FailingSession(cfg, turns)
    ensures Sensible(turns[..|turns| - 1]) && FailingSession(cfg, turns[..|turns| - 1])
    ensures Attempts(turns)[..|turns| - 1] == Attempts(turns[..|turns| - 1])
  {
    hide AlwaysFails, Served, Step;
    RepliesOfInit(cfg, turns);
  }

  /** The last turn of a failing session: its attempts, and the breaker after it. */
  lemma FailingTurn(cfg: Config, turns: seq<Turn>)
    requires cfg.breaker.Valid() && turns != [] && FailingSession(cfg, turns)
    requires FailingSession(cfg, turns[..|turns| - 1])
    requires RunState(cfg, turns[..|turns| - 1]).cache == []
    ensures var n := |turns| - 1;
            var b, a := RunState(cfg, turns[..n]).breaker, Attempts(turns)[n];
            && RunState(cfg, turns) == State([], Breaker.AfterFailing(cfg.breaker, b, a))
            && turns[n].attempts <= if Breaker.Grants(cfg.breaker, b, a) then Retrier.MaxAttempts(cfg.retry) else 0
  {
    hide AlwaysFails, Served, Step, Breaker.Grants, Breaker.AfterFailing, Retrier.MaxAttempts;
    var n := |turns| - 1;
    FailingStep(cfg, RunState(cfg, turns[..n]), turns[n]);
  }

  lemma OneMoreAttempt(cfg: Config, turns: seq<Turn>)
    requires turns != [] && Attempts(turns)[..|turns| - 1] == Attempts(turns[..|turns| - 1])
    ensures var n := |turns| - 1;
            var before, a := Attempts(turns[..n]), Attempts(turns)[n];
            && Breaker.RunFailing(cfg.breaker, Attempts(turns))
                == Breaker.AfterFailing(cfg.breaker, Breaker.RunFailing(cfg.breaker, before), a)
            && Breaker.Granted(cfg.breaker, Attempts(turns))
                 == Breaker.Granted(cfg.breaker, before)
                     + (if Breaker.Grants(cfg.breaker, Breaker.RunFailing(cfg.breaker, before), a) then 1 else 0)
            && TotalAttempts(turns) == TotalAttempts(turns[..n]) + turns[n].attempts
  {
    hide Breaker.Grants, Breaker.AfterFailing;
  }

  lemma {:induction false} FailingRun(cfg: Config, turns: seq<Turn>)
    requires cfg.breaker.Valid() && Sensible(turns) && FailingSession(cfg, turns)
    ensures RunState(cfg, turns) == State([], Breaker.RunFailing(cfg.breaker, Attempts(turns)))
    ensures Within(TotalAttempts(turns), Breaker.Granted(cfg.breaker, Attempts(turns)), Retrier.MaxAttempts(cfg.retry))
  {
    hide *;
    if turns == [] {
      FailingNone(cfg, turns);
    } else {
      FailingPrefix(cfg, turns);
      FailingRun(cfg, turns[..|turns| - 1]);
      FailingTurn(cfg, turns);
      OneMoreAttempt(cfg, turns);
      WithinGrows(TotalAttempts(turns[..|turns| - 1]), Breaker.Granted(cfg.breaker, Attempts(turns[..|turns| - 1])),
          Retrier.MaxAttempts(cfg.retry), turns[|turns| - 1].attempts);
    }
  }

  lemma FailingNone(cfg: Config, turns: seq<Turn>)
    requires turns == []
    ensures Sensible(turns) && RunState(cfg, turns) == State([], Breaker.RunFailing(cfg.breaker, Attempts(turns)))
    ensures TotalAttempts(turns) == 0
    ensures Within(0, Breaker.Granted(cfg.breaker, Attempts(turns)), Retrier.MaxAttempts(cfg.retry))
  {
    assert Attempts(turns) == [];
  }

  /** At most `each` attempts for every one granted. */
  predicate Within(attempts: nat, granted: nat, each: nat) { attempts <= granted * each }

  lemma WithinGrows(attempts: nat, granted: nat, each: nat, more: nat)
    requires Within(attempts, granted, each)
    ensures more == 0 ==> Within(attempts + more, granted, each)
    ensures more <= each ==> Within(attempts + more, granted + 1, each)
  {
    NextMultiple(granted, each);
  }

  /** Against an upstream that always fails, a fresh client asked one call after another over a span of `D`
      makes at most `maxRetries * (failureThreshold + floor(D / openTimeout))` attempts. */
  lemma UpstreamIsSpared(cfg: Config, turns: seq<Turn>, from: int, span: nat)
    requires cfg.breaker.Valid()
    requires Sensible(turns) && FailingSession(cfg, turns) && Breaker.OneByOne(Attempts(turns), from, from + span)
    ensures Within(TotalAttempts(turns), Breaker.ShedLimit(cfg.breaker, span), Retrier.MaxAttempts(cfg.retry))
  {
    hide *;
    FailingRun(cfg, turns);
    Breaker.LoadIsShed(cfg.breaker, Attempts(turns), from, span);
    WithinMore(TotalAttempts(turns), Breaker.Granted(cfg.breaker, Attempts(turns)),
        Breaker.ShedLimit(cfg.breaker, span), Retrier.MaxAttempts(cfg.retry));
  }

  lemma WithinMore(attempts: nat, granted: nat, limit: nat, each: nat)
    requires Within(attempts, granted, each) && granted <= limit
    ensures Within(attempts, limit, each)
  {
    if granted < limit { Bigger(granted, limit, each); }
  }
}
