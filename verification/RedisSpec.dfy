/** Read-through caching of string values over a store that others may write as well, one whole call after another. */
module RedisSpec {
  import opened Text
  import opened Recency

  /** A write that reports an error may have been applied all the same. */
  datatype Outcome = Done | Failed(applied: bool)

  /** The client's string operations, and writes (or expiries) by others. A read looks the cache up and asks the
      store at `at`, and caches what it got at `stored`; `ok` says whether the store answers. */
  datatype Op =
    | Get(key: string, ttl: int, at: int, stored: int, ok: bool)
    | Set(key: string, value: string, at: int, outcome: Outcome)
    | Delete(keys: seq<string>, at: int, outcome: Outcome)
    | Outside(key: string, now: Option<string>, at: int)

  datatype Reply = Answered(text: string) | Acknowledged | Error

  datatype State = State(store: map<string, string>, cache: Order<Cached>)

  function WithoutAll(l: Order<Cached>, keys: seq<string>): Order<Cached> {
    if keys == [] then l else Without(WithoutAll(l, keys[..|keys| - 1]), keys[|keys| - 1])
  }

  function KeysOf(keys: seq<string>): set<string> { set k | k in keys }

  /** What a read returns: a missing key reads as the empty string. */
  function StoreValue(store: map<string, string>, key: string): string {
    if key in store then store[key] else ""
  }

  function Step(capacity: nat, s: State, op: Op): (State, Reply) {
    match op
    case Get(key, ttl, at, stored, ok) =>
      var cache := LookedUp(s.cache, key, at);
      (match Answer<Cached>(s.cache, key, at)
       case Some(Content(text)) => (State(s.store, cache), Answered(text))
       case _ =>
         if !ok then (State(s.store, cache), Error)
         else if key !in s.store then (State(s.store, cache), Answered(""))
         else (State(s.store, AfterSet(cache, capacity, key, Content(s.store[key]), stored + ttl)),
             Answered(s.store[key])))
    case Set(key, value, _, outcome) =>
      (match outcome
       case Done => (State(s.store[key := value], Without(s.cache, key)), Acknowledged)
       case Failed(applied) => (if applied then s.(store := s.store[key := value]) else s, Error))
    case Delete(keys, _, outcome) =>
      if keys == [] then (s, Acknowledged)
      else (match outcome
            case Done => (State(s.store - KeysOf(keys), WithoutAll(s.cache, keys)), Acknowledged)
            case Failed(applied) => (if applied then s.(store := s.store - KeysOf(keys)) else s, Error))
    case Outside(key, value, _) =>
      (s.(store := if value.Some? then s.store[key := value.value] else s.store - {key}), Acknowledged)
  }

  function Run(capacity: nat, ops: seq<Op>): State {
    if ops == [] then State(map[], []) else Step(capacity, Run(capacity, ops[..|ops| - 1]), ops[|ops| - 1]).0
  }

  function ReplyTo(capacity: nat, ops: seq<Op>, i: nat): Reply
    requires i < |ops|
  {
    Step(capacity, Run(capacity, ops[..i]), ops[i]).1
  }

  // ----- coherence while all writes go through the client -----

  predicate Matches(store: map<string, string>, item: Item<Cached>) {
    item.key in store && item.value == Content(store[item.key])
  }

  ghost predicate Coherent(s: State) {
    Distinct(s.cache) && forall item :: item in s.cache ==> Matches(s.store, item)
  }

  /** A failed write that was applied and changes what the cache holds. */
  predicate GoesStale(s: State, op: Op) {
    match op
    case Set(key, value, _, Failed(true)) =>
      (match Find(s.cache, key)
       case Some(item) => item.value != Content(value)
       case None => false)
    case Delete(keys, _, Failed(true)) => exists i :: 0 <= i < |keys| && Find(s.cache, keys[i]).Some?
    case _ => false
  }

  lemma {:induction false} WithoutAllKeeps(l: Order<Cached>, keys: seq<string>)
    requires Distinct(l)
    ensures Distinct(WithoutAll(l, keys)) && |WithoutAll(l, keys)| <= |l|
    ensures forall item :: item in WithoutAll(l, keys) ==> item in l && item.key !in keys
  {
    if keys != [] {
      var init := keys[..|keys| - 1];
      WithoutAllKeeps(l, init);
      WithoutKeeps(WithoutAll(l, init), keys[|keys| - 1]);
      assert keys == init + [keys[|keys| - 1]];
    }
  }

  lemma GetCoherent(capacity: nat, s: State, op: Op)
    requires Coherent(s) && op.Get? && capacity >= 1
    ensures Coherent(Step(capacity, s, op).0)
    ensures op.ok ==> Step(capacity, s, op).1 == Answered(StoreValue(s.store, op.key))
  {
    var looked := LookedUp(s.cache, op.key, op.at);
    FindIsIn(s.cache, op.key);
    LookupDistinct(s.cache, op.key, op.at);
    forall item | item in looked ensures Matches(s.store, item) { LookupKeeps(s.cache, op.key, op.at, item); }
    hide LookedUp;
    if op.key in s.store { FillCoherent(capacity, s.(cache := looked), op.key, op.stored + op.ttl); }
    hide AfterSet, Find, Distinct;
  }

  lemma LookupDistinct(cache: Order<Cached>, key: string, now: int)
    requires Distinct(cache)
    ensures Distinct(LookedUp(cache, key, now))
  {
    WithoutKeeps(cache, key);
    FindIsIn(cache, key);
    if Find(cache, key).Some? { AddFront(Find(cache, key).value, Without(cache, key)); }
    WithoutKeeps(AfterGet(cache, key, now), key);
    hide Without, Find;
  }

  lemma FillCoherent(capacity: nat, s: State, key: string, expiry: int)
    requires Coherent(s) && capacity >= 1 && key in s.store
    ensures Coherent(s.(cache := AfterSet(s.cache, capacity, key, Content(s.store[key]), expiry)))
  {
    WithoutKeeps(s.cache, key);
    FindIsIn(s.cache, key);
    var item := Item(key, Content(s.store[key]), expiry);
    AddFront(item, if Find(s.cache, key).Some? then Without(s.cache, key) else Evicted(s.cache, capacity));
    hide Find, Without;
  }

  lemma WriteCoherent(capacity: nat, s: State, op: Op)
    requires Coherent(s) && (op.Set? || op.Delete?)
    ensures Coherent(Step(capacity, s, op).0) <==> !GoesStale(s, op)
  {
    var t := Step(capacity, s, op).0;
    match op
    case Set(key, value, _, outcome) =>
      WithoutKeeps(s.cache, key);
      FindIsIn(s.cache, key);
      if outcome.Failed? && outcome.applied {
        if Find(s.cache, key).Some? {
          assert Matches(t.store, Find(s.cache, key).value) <==> !GoesStale(s, op);
        }
        forall item | item in s.cache && item.key == key
            ensures Some(item) == Find(s.cache, key) { FindByKey(s.cache, item); }
      }
    case Delete(keys, _, outcome) =>
      WithoutAllKeeps(s.cache, keys);
      if outcome.Failed? && outcome.applied { DeletedCoherent(s, keys); }
  }

  lemma DeletedCoherent(s: State, keys: seq<string>)
    requires Coherent(s)
    ensures Coherent(s.(store := s.store - KeysOf(keys))) <==>
        !exists i :: 0 <= i < |keys| && Find(s.cache, keys[i]).Some?
  {
    var t := s.(store := s.store - KeysOf(keys));
    forall i | 0 <= i < |keys| && Find(s.cache, keys[i]).Some? ensures !Coherent(t) {
      FindIsIn(s.cache, keys[i]);
      assert !Matches(t.store, Find(s.cache, keys[i]).value);
    }
    forall item | item in s.cache && !Matches(t.store, item)
        ensures exists i :: 0 <= i < |keys| && Find(s.cache, keys[i]).Some? {
      FindByKey(s.cache, item);
      var i :| 0 <= i < |keys| && keys[i] == item.key;
    }
    hide Find, Distinct;
  }

  /** One step of the client keeps the cache equal to the store exactly when it is not a failed write that was
      applied and changes a cached value; a read that succeeds returns the store's value. */
  lemma StepCoherence(capacity: nat, s: State, op: Op)
    requires capacity >= 1 && Coherent(s) && !op.Outside?
    ensures Coherent(Step(capacity, s, op).0) <==> !GoesStale(s, op)
    ensures op.Get? && op.ok ==> Step(capacity, s, op).1 == Answered(StoreValue(s.store, op.key))
  {
    if op.Get? { GetCoherent(capacity, s, op); } else { WriteCoherent(capacity, s, op); }
    hide Step, Coherent;
  }

  /** Only the client writes, and no failed write leaves a stale value behind. */
  ghost predicate Undisturbed(capacity: nat, ops: seq<Op>) {
    forall i :: 0 <= i < |ops| ==> !ops[i].Outside? && !GoesStale(Run(capacity, ops[..i]), ops[i])
  }

  lemma {:induction false} CacheIsCoherent(capacity: nat, ops: seq<Op>)
    requires capacity >= 1 && Undisturbed(capacity, ops)
    ensures Coherent(Run(capacity, ops))
  {
    if ops != [] {
      var init, op := ops[..|ops| - 1], ops[|ops| - 1];
      hide GoesStale, Step, Coherent;
      assert !op.Outside? && !GoesStale(Run(capacity, init), op);
      forall i | 0 <= i < |init| ensures ops[..i] == init[..i] {}
      assert Undisturbed(capacity, init);
      CacheIsCoherent(capacity, init);
      StepCoherence(capacity, Run(capacity, init), op);
    } else {
      EmptyCoherent(capacity);
    }
  }

  lemma EmptyCoherent(capacity: nat)
    ensures Coherent(Run(capacity, []))
  {
  }

  /** While all writes go through the client, every successful read returns the store's current value, the
      empty string for a missing key. */
  lemma ReadsAreCurrent(capacity: nat, ops: seq<Op>, i: nat)
    requires capacity >= 1 && Undisturbed(capacity, ops) && i < |ops| && ops[i].Get? && ops[i].ok
    ensures ReplyTo(capacity, ops, i) == Answered(StoreValue(Run(capacity, ops[..i]).store, ops[i].key))
  {
    var init := ops[..i];
    forall j | 0 <= j < i ensures init[j] == ops[j] && init[..j] == ops[..j] {}
    assert Undisturbed(capacity, init) by { hide GoesStale; }
    CacheIsCoherent(capacity, init);
    hide Step, Coherent, GoesStale, StoreValue;
    StepCoherence(capacity, Run(capacity, init), ops[i]);
  }

  // ----- what the cache is for -----

  /** What a read has fetched is answered until its time to live is over, without asking the store; a missing key is not
      remembered, and neither is a failed read. */
  lemma FetchedIsServed(capacity: nat, s: State, key: string, ttl: int, at: int, stored: int, ok: bool, later: int)
    requires match Answer<Cached>(s.cache, key, at) case Some(Content(_)) => false case _ => true
    requires Distinct(s.cache) && at <= later
    ensures var t := Step(capacity, s, Op.Get(key, ttl, at, stored, ok)).0;
      var again := Step(capacity, t, Op.Get(key, ttl, later, stored, false)).1;
      if ok && key in s.store && later <= stored + ttl then again == Answered(s.store[key]) else again == Error
  {
    FindIsIn(s.cache, key);
    FindWithout(s.cache, key, key);
    var looked := LookedUp(s.cache, key, at);
    assert Find(looked, key) == None by { LookupDistinct(s.cache, key, at); Missed(s.cache, key, at); }
    hide Without, Distinct, LookedUp;
  }

  lemma Missed(cache: Order<Cached>, key: string, at: int)
    requires Distinct(cache) && match Answer<Cached>(cache, key, at) case Some(Content(_)) => false case _ => true
    ensures Find(LookedUp(cache, key, at), key) == None
  {
    FindWithout(cache, key, key);
    if Answer<Cached>(cache, key, at) == Some(Other) {
      var item := Find(cache, key).value;
      FindIsIn(cache, key);
      assert ([item] + Without(cache, key))[1..] == Without(cache, key);
      assert Without([item] + Without(cache, key), key) == Without(cache, key);
    }
    hide Without, Distinct;
  }

  /** Writes reach the store when they succeed, or fail after having been applied, and then alone. */
  lemma WritesReachStore(capacity: nat, s: State, op: Op)
    ensures var store := Step(capacity, s, op).0.store;
      match op
      case Get(_, _, _, _, _) => store == s.store
      case Set(key, value, _, outcome) =>
        store == if outcome == Failed(false) then s.store else s.store[key := value]
      case Delete(keys, _, outcome) =>
        forall k :: k in store <==> k in s.store && (outcome == Failed(false) || k !in keys)
      case Outside(key, now, _) =>
        store == if now.Some? then s.store[key := now.value] else s.store - {key}
  {
    hide LookedUp, AfterSet, Without, Answer;
  }

  // ----- staleness with other writers -----

  /** The client itself has successfully written or deleted the key. */
  predicate Overwrites(op: Op, key: string) {
    match op
    case Set(k, _, _, Done) => k == key
    case Delete(keys, _, Done) => key in keys
    case _ => false
  }

  /** Op `j` read the entry's value from the store, and the client has not overwritten the key since. */
  ghost predicate ReadAt(capacity: nat, ops: seq<Op>, item: Item<Cached>, j: nat) {
    && j < |ops| && ops[j].Get? && ops[j].key == item.key && item.expiry == ops[j].stored + ops[j].ttl
    && Matches(Run(capacity, ops[..j]).store, item)
    && forall m :: j < m < |ops| ==> !Overwrites(ops[m], item.key)
  }

  /** An entry after a step was there before and its key not overwritten, or has just been read. */
  lemma StepEntries(capacity: nat, s: State, op: Op, item: Item<Cached>)
    requires Distinct(s.cache) && item in Step(capacity, s, op).0.cache
    ensures (item in s.cache && !Overwrites(op, item.key))
         || (op.Get? && op.key == item.key && item.expiry == op.stored + op.ttl && Matches(s.store, item))
  {
    match op
    case Get(key, _, at, _, _) =>
      var looked := LookedUp(s.cache, key, at);
      if item in looked { LookupKeeps(s.cache, key, at, item); }
      if item in Without(looked, key) {
        InWithout(looked, key, item);
        LookupKeeps(s.cache, key, at, item);
      }
      hide Without, Find, LookedUp, Answer;
    case Set(key, _, _, _) =>
      WithoutKeeps(s.cache, key);
      hide Without, Find;
    case Delete(keys, _, _) =>
      WithoutAllKeeps(s.cache, keys);
      hide WithoutAll;
    case Outside(_, _, _) =>
  }

  lemma StepDistinct(capacity: nat, s: State, op: Op)
    requires capacity >= 1 && Distinct(s.cache)
    ensures Distinct(Step(capacity, s, op).0.cache)
  {
    match op
    case Get(key, _, at, _, _) =>
      LookupDistinct(s.cache, key, at);
      var looked := LookedUp(s.cache, key, at);
      if key in s.store { FillDistinct(capacity, looked, Item(key, Content(s.store[key]), op.stored + op.ttl)); }
      hide Without, Find, LookedUp, Answer, Distinct, AfterSet;
    case Set(key, _, _, _) => WithoutKeeps(s.cache, key);
    case Delete(keys, _, _) => WithoutAllKeeps(s.cache, keys);
    case Outside(_, _, _) =>
  }

  lemma FillDistinct(capacity: nat, l: Order<Cached>, item: Item<Cached>)
    requires capacity >= 1 && Distinct(l)
    ensures Distinct(AfterSet(l, capacity, item.key, item.value, item.expiry))
  {
    WithoutKeeps(l, item.key);
    FindIsIn(l, item.key);
    if Find(l, item.key).Some? { AddFront(item, Without(l, item.key)); } else { AddFront(item, Evicted(l, capacity)); }
  }

  lemma {:induction false} RunDistinct(capacity: nat, ops: seq<Op>)
    requires capacity >= 1
    ensures Distinct(Run(capacity, ops).cache)
  {
    if ops != [] {
      RunDistinct(capacity, ops[..|ops| - 1]);
      StepDistinct(capacity, Run(capacity, ops[..|ops| - 1]), ops[|ops| - 1]);
      hide Step, Distinct;
    }
  }

  /** Whoever else writes the store, every cached value was read from it, after the client's own last write. */
  lemma {:induction false} EntriesWereRead(capacity: nat, ops: seq<Op>, item: Item<Cached>) returns (j: nat)
    requires capacity >= 1 && item in Run(capacity, ops).cache
    ensures ReadAt(capacity, ops, item, j)
  {
    hide Step, Matches, Overwrites;
    var n := |ops| - 1;
    var init, op := ops[..n], ops[n];
    RunDistinct(capacity, init);
    StepEntries(capacity, Run(capacity, init), op, item);
    if item in Run(capacity, init).cache && !Overwrites(op, item.key) {
      j := EntriesWereRead(capacity, init, item);
      assert ops[..j] == init[..j];
      assert forall m :: j < m < |init| ==> ops[m] == init[m];
    } else {
      j := n;
    }
  }

  /** A text that a read returns is the store's value at the moment of some earlier read, or of this one, taken
      no longer ago than that read's time to live and the time it needed to cache, and after the client's own
      last successful write of the key. */
  lemma AnswersAreRecent(capacity: nat, ops: seq<Op>, i: nat) returns (j: nat)
    requires capacity >= 1 && i < |ops| && ops[i].Get? && ReplyTo(capacity, ops, i).Answered?
    ensures j <= i && ops[j].Get? && ops[j].key == ops[i].key
    ensures ReplyTo(capacity, ops, i) == Answered(StoreValue(Run(capacity, ops[..j]).store, ops[i].key))
    ensures j == i || ops[i].at <= ops[j].stored + ops[j].ttl
    ensures forall m :: j < m < i ==> !Overwrites(ops[m], ops[i].key)
  {
    var s, key := Run(capacity, ops[..i]), ops[i].key;
    var hit := Answer<Cached>(s.cache, key, ops[i].at);
    hide Run, LookedUp, AfterSet;
    if hit.Some? && hit.value.Content? {
      FindIsIn(s.cache, key);
      var item := Find(s.cache, key).value;
      j := EntriesWereRead(capacity, ops[..i], item);
      assert ops[..i][..j] == ops[..j];
      assert forall m :: j < m < i ==> ops[..i][m] == ops[m];
    } else {
      j := i;
    }
  }

  // ----- a failed write that was applied -----

  const FirstSet := Op.Set("k", "a", 0, Done)
  const Reading := Op.Get("k", 10, 0, 0, true)
  const LostSet := Op.Set("k", "b", 0, Failed(true))

  /** The second write fails but is applied; the read after it still answers the first value. */
  lemma FailedWriteLeavesStale(capacity: nat)
    requires capacity >= 1
    ensures var ops := [FirstSet, Reading, LostSet, Reading];
            ReplyTo(capacity, ops, 3) == Answered("a") && StoreValue(Run(capacity, ops[..3]).store, "k") == "b"
  {
    var ops := [FirstSet, Reading, LostSet, Reading];
    assert ops[..3][..2] == ops[..2] && ops[..2][..1] == ops[..1] && ops[..1][..0] == [];
    assert ops[..3][2] == LostSet && ops[..2][1] == Reading && ops[..1][0] == FirstSet;
    assert Run(capacity, []) == State(map[], []);
    assert ops[..1] == [FirstSet];
    var one := Run(capacity, ops[..1]);
    assert one == State(map["k" := "a"], []);
    var two := Run(capacity, ops[..2]);
    assert two == State(map["k" := "a"], [Item("k", Content("a"), 10)]);
    assert Run(capacity, ops[..3]) == State(map["k" := "b"], two.cache);
  }
}
