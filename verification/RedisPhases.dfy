/** The calls of a Redis client cut where other calls may come in between: a read looks the cache up, asks the store,
    and fills the cache; a write goes to the store first and drops the cached values after. */
module RedisPhases {
  import opened Text
  import opened Recency
  import RedisSpec

  /** A read that missed, and one that has its value but has not cached it. */
  datatype Ask = Ask(key: string, ttl: int)
  datatype Fill = Fill(key: string, value: string, ttl: int)

  /** The phases, and writes (or expiries) by others. */
  datatype Op =
    | Look(key: string, ttl: int, at: int)
    | Read(key: string, ttl: int, ok: bool)
    | Cache(fill: Fill, stored: int)
    | Write(key: string, value: string, outcome: RedisSpec.Outcome)
    | Erase(keys: seq<string>, outcome: RedisSpec.Outcome)
    | Drop(key: string)
    | Outside(key: string, now: Option<string>)

  /** `asking`, `filling` and `dropping` are the calls between two of their phases. */
  datatype State = State(store: map<string, string>, cache: Order<Cached>, asking: multiset<Ask>,
                         filling: multiset<Fill>, dropping: multiset<string>)

  const Start := State(map[], [], multiset{}, multiset{}, multiset{})

  /** What a lookup answers. */
  function Hit(cache: Order<Cached>, key: string, at: int): Option<string> {
    match Answer<Cached>(cache, key, at) case Some(Content(text)) => Some(text) case _ => None
  }

  /** A phase whose call is not that far changes nothing. */
  function Step(capacity: nat, s: State, op: Op): State {
    match op
    case Look(key, ttl, at) =>
      s.(cache := LookedUp(s.cache, key, at),
         asking := if Hit(s.cache, key, at).Some? then s.asking else s.asking + multiset{Ask(key, ttl)})
    case Read(key, ttl, ok) =>
      if Ask(key, ttl) !in s.asking then s
      else
        var t := s.(asking := s.asking - multiset{Ask(key, ttl)});
        if ok && key in s.store then t.(filling := t.filling + multiset{Fill(key, s.store[key], ttl)}) else t
    case Cache(fill, stored) =>
      if fill !in s.filling then s
      else s.(cache := AfterSet(s.cache, capacity, fill.key, Content(fill.value), stored + fill.ttl),
              filling := s.filling - multiset{fill})
    case Write(key, value, outcome) =>
      (match outcome
       case Done => s.(store := s.store[key := value], dropping := s.dropping + multiset{key})
       case Failed(applied) => if applied then s.(store := s.store[key := value]) else s)
    case Erase(keys, outcome) =>
      (match outcome
       case Done => s.(store := s.store - RedisSpec.KeysOf(keys), dropping := s.dropping + multiset(keys))
       case Failed(applied) => if applied then s.(store := s.store - RedisSpec.KeysOf(keys)) else s)
    case Drop(key) =>
      if key !in s.dropping then s
      else s.(cache := Without(s.cache, key), dropping := s.dropping - multiset{key})
    case Outside(key, value) =>
      s.(store := if value.Some? then s.store[key := value.value] else s.store - {key})
  }

  function Run(capacity: nat, ops: seq<Op>): State {
    if ops == [] then Start else Step(capacity, Run(capacity, ops[..|ops| - 1]), ops[|ops| - 1])
  }

  lemma RunOneMore(capacity: nat, ops: seq<Op>, op: Op)
    ensures Run(capacity, ops + [op]) == Step(capacity, Run(capacity, ops), op)
  {
    assert (ops + [op])[..|ops|] == ops;
  }

  // ----- coherence -----

  /** The cached value is the store's, or about to be dropped. */
  predicate Good(s: State, item: Item<Cached>) {
    RedisSpec.Matches(s.store, item) || item.key in s.dropping
  }

  ghost predicate Coherent(s: State) {
    Distinct(s.cache) && forall item :: item in s.cache ==> Good(s, item)
  }

  /** The cache holds something else for the key than `now`, and nothing is about to drop it. */
  predicate Outdates(s: State, key: string, now: Option<string>) {
    key !in s.dropping && match Find(s.cache, key)
                          case None => false
                          case Some(item) => now.None? || item.value != Content(now.value)
  }

  /** A read caches what the store no longer holds, after the write's drop; or a failed write that was applied, or
      someone else's, changes what the cache holds. */
  ghost predicate GoesStale(s: State, op: Op) {
    match op
    case Cache(fill, _) =>
      fill in s.filling && fill.key !in s.dropping && !(fill.key in s.store && s.store[fill.key] == fill.value)
    case Write(key, value, Failed(true)) => Outdates(s, key, Some(value))
    case Erase(keys, Failed(true)) => exists i :: 0 <= i < |keys| && Outdates(s, keys[i], None)
    case Outside(key, now) => Outdates(s, key, now)
    case _ => false
  }

  lemma LookCoherent(capacity: nat, s: State, op: Op)
    requires op.Look? && Coherent(s)
    ensures Coherent(Step(capacity, s, op))
  {
    RedisSpec.LookupDistinct(s.cache, op.key, op.at);
    forall item | item in LookedUp(s.cache, op.key, op.at) ensures Good(s, item) {
      LookupKeeps(s.cache, op.key, op.at, item);
    }
    hide LookedUp, Distinct, Answer;
  }

  lemma CacheCoherent(capacity: nat, s: State, op: Op)
    requires op.Cache? && op.fill in s.filling && capacity >= 1 && Coherent(s)
    ensures Coherent(Step(capacity, s, op)) <==> !GoesStale(s, op)
  {
    var key := op.fill.key;
    var item := Item(key, Content(op.fill.value), op.stored + op.fill.ttl);
    RedisSpec.FillDistinct(capacity, s.cache, item);
    WithoutKeeps(s.cache, key);
    hide Without, Find, Distinct;
    var t := Step(capacity, s, op);
    assert t.cache[0] == item;
    assert Good(t, item) <==> !GoesStale(s, op);
    forall other | other in t.cache && other != item ensures Good(t, other) { assert Good(s, other); }
  }

  /** After a change of the key's value in the store alone. */
  lemma ChangeCoherent(s: State, key: string, now: Option<string>)
    requires Coherent(s)
    ensures var t := s.(store := if now.Some? then s.store[key := now.value] else s.store - {key});
            Coherent(t) <==> !Outdates(s, key, now)
  {
    var t := s.(store := if now.Some? then s.store[key := now.value] else s.store - {key});
    FindIsIn(s.cache, key);
    if Find(s.cache, key).Some? {
      var item := Find(s.cache, key).value;
      assert Good(t, item) <==> !Outdates(s, key, now);
    }
    forall item | item in s.cache && item.key == key ensures Some(item) == Find(s.cache, key) {
      FindByKey(s.cache, item);
    }
    forall item | item in s.cache && item.key != key ensures Good(t, item) { assert Good(s, item); }
    hide Find, Distinct;
  }

  lemma EraseCoherent(s: State, keys: seq<string>)
    requires Coherent(s)
    ensures Coherent(s.(store := s.store - RedisSpec.KeysOf(keys)))
       <==> !exists i :: 0 <= i < |keys| && Outdates(s, keys[i], None)
  {
    var t := s.(store := s.store - RedisSpec.KeysOf(keys));
    forall i | 0 <= i < |keys| && Outdates(s, keys[i], None) ensures !Coherent(t) {
      FindIsIn(s.cache, keys[i]);
      assert !Good(t, Find(s.cache, keys[i]).value);
    }
    forall item | item in s.cache && !Good(t, item)
      ensures exists i :: 0 <= i < |keys| && Outdates(s, keys[i], None)
    {
      FindByKey(s.cache, item);
      assert Good(s, item);
      var i :| 0 <= i < |keys| && keys[i] == item.key;
      assert Outdates(s, keys[i], None);
    }
    hide Find, Distinct, Outdates;
  }

  lemma WriteCoherent(capacity: nat, s: State, op: Op)
    requires (op.Write? || op.Erase? || op.Outside?) && Coherent(s)
    ensures Coherent(Step(capacity, s, op)) <==> !GoesStale(s, op)
  {
    hide Outdates, Distinct;
    var t := Step(capacity, s, op);
    match op
    case Write(key, value, outcome) =>
      ChangeCoherent(s, key, Some(value));
      if outcome.Done? { forall item | item in s.cache ensures Good(t, item) { assert Good(s, item); } }
    case Erase(keys, outcome) =>
      EraseCoherent(s, keys);
      if outcome.Done? { forall item | item in s.cache ensures Good(t, item) { assert Good(s, item); } }
    case Outside(key, now) => ChangeCoherent(s, key, now);
  }

  lemma DropCoherent(capacity: nat, s: State, key: string)
    requires Coherent(s)
    ensures Coherent(Step(capacity, s, Drop(key)))
  {
    WithoutKeeps(s.cache, key);
    var t := Step(capacity, s, Drop(key));
    hide Without, Distinct;
    forall item | item in t.cache ensures Good(t, item) { assert Good(s, item); }
  }

  /** One phase keeps every cached value the store's, or about to be dropped, exactly when it does not go stale. */
  lemma StepCoherence(capacity: nat, s: State, op: Op)
    requires capacity >= 1 && Coherent(s)
    ensures Coherent(Step(capacity, s, op)) <==> !GoesStale(s, op)
  {
    match op
    case Look(_, _, _) => LookCoherent(capacity, s, op);
    case Read(_, _, _) => assert forall item :: item in s.cache ==> Good(s, item);
    case Cache(fill, _) => if fill in s.filling { CacheCoherent(capacity, s, op); }
    case Drop(key) => DropCoherent(capacity, s, key);
    case _ => WriteCoherent(capacity, s, op);
    hide Coherent, GoesStale;
  }

  ghost predicate NeverStale(capacity: nat, ops: seq<Op>) {
    forall i :: 0 <= i < |ops| ==> !GoesStale(Run(capacity, ops[..i]), ops[i])
  }

  ghost predicate AlwaysCoherent(capacity: nat, ops: seq<Op>) {
    forall i :: 0 <= i <= |ops| ==> Coherent(Run(capacity, ops[..i]))
  }

  lemma NeverStaleInit(capacity: nat, ops: seq<Op>)
    requires ops != []
    ensures var n := |ops| - 1;
            NeverStale(capacity, ops) <==>
                NeverStale(capacity, ops[..n]) && !GoesStale(Run(capacity, ops[..n]), ops[n])
  {
    hide GoesStale, Run;
    var n := |ops| - 1;
    forall i | 0 <= i < n ensures ops[..n][..i] == ops[..i] && ops[..n][i] == ops[i] {}
  }

  lemma AlwaysCoherentInit(capacity: nat, ops: seq<Op>)
    requires ops != []
    ensures var n := |ops| - 1;
            AlwaysCoherent(capacity, ops) <==> AlwaysCoherent(capacity, ops[..n]) && Coherent(Run(capacity, ops))
  {
    hide Run, Coherent;
    var n := |ops| - 1;
    assert ops[..n + 1] == ops;
    forall i | 0 <= i <= n ensures ops[..n][..i] == ops[..i] {}
  }

  lemma LastIsCoherent(capacity: nat, ops: seq<Op>)
    requires AlwaysCoherent(capacity, ops)
    ensures Coherent(Run(capacity, ops))
  {
    hide Coherent, Run;
    assert ops[..|ops|] == ops;
  }

  /** In every interleaving, whoever else writes: the cache is coherent all along if and only if no phase goes stale. */
  lemma {:induction false} CacheIsCoherent(capacity: nat, ops: seq<Op>)
    requires capacity >= 1
    ensures AlwaysCoherent(capacity, ops) <==> NeverStale(capacity, ops)
  {
    hide *;
    if ops == [] {
      StartIsCoherent(capacity);
    } else {
      var n := |ops| - 1;
      CacheIsCoherent(capacity, ops[..n]);
      NeverStaleInit(capacity, ops);
      AlwaysCoherentInit(capacity, ops);
      if AlwaysCoherent(capacity, ops[..n]) {
        LastIsCoherent(capacity, ops[..n]);
        LastStep(capacity, ops);
        StepCoherence(capacity, Run(capacity, ops[..n]), ops[n]);
      }
    }
  }

  lemma StartIsCoherent(capacity: nat)
    ensures AlwaysCoherent(capacity, []) && NeverStale(capacity, [])
  {
  }

  lemma LastStep(capacity: nat, ops: seq<Op>)
    requires ops != []
    ensures Run(capacity, ops) == Step(capacity, Run(capacity, ops[..|ops| - 1]), ops[|ops| - 1])
  {
    hide Step;
  }

  /** While the cache is coherent, a hit answers the store's value, or a value some write is about to drop. */
  lemma HitsAreCurrent(s: State, key: string, at: int)
    requires Coherent(s) && Hit(s.cache, key, at).Some?
    ensures (key in s.store && s.store[key] == Hit(s.cache, key, at).value) || key in s.dropping
  {
    FindIsIn(s.cache, key);
    assert Good(s, Find(s.cache, key).value);
    hide Find, Distinct;
  }

  /** What has just been cached is answered until its time to live is over. */
  lemma CachedIsServed(capacity: nat, s: State, fill: Fill, stored: int, at: int)
    requires fill in s.filling
    ensures Hit(Step(capacity, s, Cache(fill, stored)).cache, fill.key, at)
         == if at <= stored + fill.ttl then Some(fill.value) else None
  {
  }

  /** A read of a key that is there and not refused goes on to cache its value. */
  lemma ReadGoesOn(capacity: nat, s: State, key: string, ttl: int, at: int)
    requires key in s.store && Hit(s.cache, key, at).None?
    ensures var t := Step(capacity, Step(capacity, s, Look(key, ttl, at)), Read(key, ttl, true));
      t.filling == s.filling + multiset{Fill(key, s.store[key], ttl)} && t.store == s.store && t.asking == s.asking
  {
    hide LookedUp, Answer;
    assert s.asking + multiset{Ask(key, ttl)} - multiset{Ask(key, ttl)} == s.asking;
  }

  /** Writes reach the store when they succeed, or fail after having been applied, and only those that succeed go on to
      drop what is cached. */
  lemma WritesReachStore(capacity: nat, s: State, key: string, value: string, outcome: RedisSpec.Outcome)
    ensures var t := Step(capacity, s, Write(key, value, outcome));
      && t.store == (if outcome == RedisSpec.Failed(false) then s.store else s.store[key := value])
      && t.dropping == (if outcome.Done? then s.dropping + multiset{key} else s.dropping) && t.cache == s.cache
  {
  }

  // ----- what overtakes a read -----

  predicate Holds(store: map<string, string>, key: string, value: string) {
    key in store && store[key] == value
  }

  /** Phase `j` read the value that is about to be cached. */
  ghost predicate ReadAt(capacity: nat, ops: seq<Op>, f: Fill, j: nat) {
    j < |ops| && ops[j] == Read(f.key, f.ttl, true) && Holds(Run(capacity, ops[..j]).store, f.key, f.value)
  }

  lemma FillingAfter(capacity: nat, s: State, op: Op, f: Fill)
    requires f in Step(capacity, s, op).filling
    ensures f in s.filling || (op == Read(f.key, f.ttl, true) && Holds(s.store, f.key, f.value))
    ensures f !in s.filling ==> Step(capacity, s, op).store == s.store
  {
    hide LookedUp, AfterSet, Without;
  }

  lemma {:induction false} FillsWereRead(capacity: nat, ops: seq<Op>, f: Fill) returns (j: nat)
    requires f in Run(capacity, ops).filling
    ensures ReadAt(capacity, ops, f, j)
  {
    hide Step, Holds;
    var n := |ops| - 1;
    FillingAfter(capacity, Run(capacity, ops[..n]), ops[n], f);
    if f in Run(capacity, ops[..n]).filling {
      j := FillsWereRead(capacity, ops[..n], f);
      assert ops[..n][..j] == ops[..j];
    } else {
      j := n;
    }
  }

  /** A value that is stale when it is about to be cached was changed in the store after it had been read. */
  lemma {:induction false} StaleFillsWereOvertaken(capacity: nat, ops: seq<Op>, f: Fill) returns (j: nat, m: nat)
    requires f in Run(capacity, ops).filling && !Holds(Run(capacity, ops).store, f.key, f.value)
    ensures j < m < |ops| && ReadAt(capacity, ops, f, j)
    ensures Holds(Run(capacity, ops[..m]).store, f.key, f.value)
    ensures !Holds(Run(capacity, ops[..m + 1]).store, f.key, f.value)
  {
    hide Step, Holds;
    var n := |ops| - 1;
    assert ops[..n + 1] == ops;
    FillingAfter(capacity, Run(capacity, ops[..n]), ops[n], f);
    if Holds(Run(capacity, ops[..n]).store, f.key, f.value) {
      m := n;
      j := FillsWereRead(capacity, ops[..n], f);
    } else {
      j, m := StaleFillsWereOvertaken(capacity, ops[..n], f);
      assert ops[..n][..m] == ops[..m] && ops[..n][..m + 1] == ops[..m + 1];
    }
    assert ops[..n][..j] == ops[..j];
  }

  // ----- how old an answer can be -----

  /** Phase `j` read the entry's value from the store, phase `m` cached it, and no write has dropped the key since. */
  ghost predicate CachedAt(capacity: nat, ops: seq<Op>, item: Item<Cached>, j: nat, m: nat) {
    && j < m < |ops| && ops[j].Read? && ops[j].key == item.key && RedisSpec.Matches(Run(capacity, ops[..j]).store, item)
    && ops[m].Cache? && ops[m].fill.key == item.key && item.expiry == ops[m].stored + ops[m].fill.ttl
    && forall i :: m < i < |ops| ==> !Drops(Run(capacity, ops[..i]), ops[i], item.key)
  }

  predicate Drops(s: State, op: Op, key: string) { op == Drop(key) && key in s.dropping }

  lemma StepEntries(capacity: nat, s: State, op: Op, item: Item<Cached>)
    requires Distinct(s.cache) && item in Step(capacity, s, op).cache
    ensures (item in s.cache && !Drops(s, op, item.key))
         || (op.Cache? && op.fill in s.filling && op.fill.key == item.key && item.value == Content(op.fill.value)
             && item.expiry == op.stored + op.fill.ttl)
  {
    match op
    case Look(key, _, at) =>
      LookupKeeps(s.cache, key, at, item);
      hide LookedUp;
    case Cache(fill, _) =>
      if item in Without(s.cache, fill.key) { InWithout(s.cache, fill.key, item); }
      hide Without, Find;
    case Drop(key) =>
      WithoutKeeps(s.cache, key);
      hide Without;
    case _ =>
  }

  lemma StepDistinct(capacity: nat, s: State, op: Op)
    requires capacity >= 1 && Distinct(s.cache)
    ensures Distinct(Step(capacity, s, op).cache)
  {
    hide LookedUp, AfterSet, Without, Distinct;
    match op
    case Look(key, _, at) => RedisSpec.LookupDistinct(s.cache, key, at);
    case Cache(fill, stored) =>
      RedisSpec.FillDistinct(capacity, s.cache, Item(fill.key, Content(fill.value), stored + fill.ttl));
    case Drop(key) => WithoutKeeps(s.cache, key);
    case _ =>
  }

  lemma {:induction false} RunDistinct(capacity: nat, ops: seq<Op>)
    requires capacity >= 1
    ensures Distinct(Run(capacity, ops).cache)
  {
    if ops != [] {
      RunDistinct(capacity, ops[..|ops| - 1]);
      StepDistinct(capacity, Run(capacity, ops[..|ops| - 1]), ops[|ops| - 1]);
      hide Step, Distinct;
    }
  }

  /** In every interleaving, whoever else writes, every cached value was read from the store, and its key not dropped
      since it was cached. */
  lemma {:induction false} EntriesWereCached(capacity: nat, ops: seq<Op>, item: Item<Cached>) returns (j: nat, m: nat)
    requires capacity >= 1 && item in Run(capacity, ops).cache
    ensures CachedAt(capacity, ops, item, j, m)
  {
    hide Step, Drops, Holds;
    var n := |ops| - 1;
    var init, op := ops[..n], ops[n];
    RunDistinct(capacity, init);
    StepEntries(capacity, Run(capacity, init), op, item);
    if item in Run(capacity, init).cache && !Drops(Run(capacity, init), op, item.key) {
      j, m := EntriesWereCached(capacity, init, item);
      forall i | m < i < n ensures init[..i] == ops[..i] && init[i] == ops[i] {}
    } else {
      m := n;
      j := FillsWereRead(capacity, init, op.fill);
      FillMatches(Run(capacity, init[..j]).store, op.fill, item);
    }
    assert init[..j] == ops[..j];
  }

  lemma FillMatches(store: map<string, string>, f: Fill, item: Item<Cached>)
    requires Holds(store, f.key, f.value) && f.key == item.key && item.value == Content(f.value)
    ensures RedisSpec.Matches(store, item)
  {
  }

  /** A hit answers what the store held at some earlier read, cached no longer ago than that read's time to live, and
      not dropped since. */
  lemma HitsAreRecent(capacity: nat, ops: seq<Op>, key: string, at: int) returns (j: nat, m: nat)
    requires capacity >= 1 && Hit(Run(capacity, ops).cache, key, at).Some?
    ensures j < m < |ops| && ops[j].Read? && ops[j].key == key && ops[m].Cache? && ops[m].fill.key == key
    ensures Holds(Run(capacity, ops[..j]).store, key, Hit(Run(capacity, ops).cache, key, at).value)
    ensures at <= ops[m].stored + ops[m].fill.ttl
    ensures forall i :: m < i < |ops| ==> !Drops(Run(capacity, ops[..i]), ops[i], key)
  {
    var s := Run(capacity, ops);
    hide Run, Drops;
    FindIsIn(s.cache, key);
    j, m := EntriesWereCached(capacity, ops, Find(s.cache, key).value);
  }

  // ----- calls that nothing comes in between -----

  function RunFrom(capacity: nat, s: State, ops: seq<Op>): State {
    if ops == [] then s else Step(capacity, RunFrom(capacity, s, ops[..|ops| - 1]), ops[|ops| - 1])
  }

  lemma RunFromOneMore(capacity: nat, s: State, ops: seq<Op>, op: Op)
    ensures RunFrom(capacity, s, ops + [op]) == Step(capacity, RunFrom(capacity, s, ops), op)
  {
    assert (ops + [op])[..|ops|] == ops;
  }

  function DropsOf(keys: seq<string>): seq<Op> { seq(|keys|, i requires 0 <= i < |keys| => Drop(keys[i])) }

  /** The phases of a whole call. */
  function Phases(s: RedisSpec.State, op: RedisSpec.Op): seq<Op> {
    match op
    case Get(key, ttl, at, stored, ok) =>
      if Hit(s.cache, key, at).Some? then [Look(key, ttl, at)]
      else if ok && key in s.store
      then [Look(key, ttl, at), Read(key, ttl, ok), Cache(Fill(key, s.store[key], ttl), stored)]
      else [Look(key, ttl, at), Read(key, ttl, ok)]
    case Set(key, value, _, outcome) => [Write(key, value, outcome)] + if outcome.Done? then [Drop(key)] else []
    case Delete(keys, _, outcome) =>
      if keys == [] then [] else [Erase(keys, outcome)] + if outcome.Done? then DropsOf(keys) else []
    case Outside(key, now, _) => [Outside(key, now)]
  }

  /** With the other calls wherever they are. */
  function Amid(s: RedisSpec.State, t: State): State { t.(store := s.store, cache := s.cache) }

  /** Uninterrupted, the phases of a call make the step of the whole call. */
  lemma CallIsItsPhases(capacity: nat, s: RedisSpec.State, t: State, op: RedisSpec.Op)
    ensures RunFrom(capacity, Amid(s, t), Phases(s, op)) == Amid(RedisSpec.Step(capacity, s, op).0, t)
  {
    match op
    case Get(_, _, _, _, _) => GetIsItsPhases(capacity, s, t, op);
    case Set(_, _, _, _) => SetIsItsPhases(capacity, s, t, op);
    case Delete(_, _, _) => DeleteIsItsPhases(capacity, s, t, op);
    case Outside(key, now, _) =>
      RunFromOneMore(capacity, Amid(s, t), [], Outside(key, now));
      assert [] + [Outside(key, now)] == [Outside(key, now)];
  }

  lemma SetIsItsPhases(capacity: nat, s: RedisSpec.State, t: State, op: RedisSpec.Op)
    requires op.Set?
    ensures RunFrom(capacity, Amid(s, t), Phases(s, op)) == Amid(RedisSpec.Step(capacity, s, op).0, t)
  {
    var start, write := Amid(s, t), Write(op.key, op.value, op.outcome);
    AmidIs(s, t);
    SetParts(capacity, s, start, op);
    assert RunFrom(capacity, start, []) == start;
    hide RunFrom, Step, RedisSpec.Step;
    RunFromOneMore(capacity, start, [], write);
    RunFromOneMore(capacity, start, [write], Drop(op.key));
    assert [] + [write] == [write] && [write] + [] == [write] && [write] + [Drop(op.key)] == [write, Drop(op.key)];
  }

  /** The phases of a write add up to the whole. */
  lemma SetParts(capacity: nat, s: RedisSpec.State, t: State, op: RedisSpec.Op)
    requires op.Set? && s == SpecOf(t)
    ensures var written := Step(capacity, t, Write(op.key, op.value, op.outcome));
            var whole := RedisSpec.Step(capacity, s, op);
            if op.outcome.Done? then
              && op.key in written.dropping && whole.1 == RedisSpec.Acknowledged
              && Step(capacity, written, Drop(op.key)) == Amid(whole.0, t)
            else
              written == Amid(whole.0, t) && whole.1 == RedisSpec.Error
  {
    hide Without;
    assert t.dropping + multiset{op.key} - multiset{op.key} == t.dropping;
  }

  lemma DeleteIsItsPhases(capacity: nat, s: RedisSpec.State, t: State, op: RedisSpec.Op)
    requires op.Delete?
    ensures RunFrom(capacity, Amid(s, t), Phases(s, op)) == Amid(RedisSpec.Step(capacity, s, op).0, t)
  {
    var start, keys := Amid(s, t), op.keys;
    AmidIs(s, t);
    DeleteParts(capacity, s, start, op);
    assert RunFrom(capacity, start, []) == start;
    hide RunFrom, Step, RedisSpec.Step, Dropped;
    if keys != [] {
      var erase := Erase(keys, op.outcome);
      RunFromOneMore(capacity, start, [], erase);
      assert [] + [erase] == [erase] && [erase] + [] == [erase];
      assert DropsOf(keys)[..|keys|] == DropsOf(keys);
      if op.outcome.Done? { DropsInTurn(capacity, start, keys, |keys|); }
    }
  }

  /** The phases of a deletion add up to the whole. */
  lemma DeleteParts(capacity: nat, s: RedisSpec.State, t: State, op: RedisSpec.Op)
    requires op.Delete? && s == SpecOf(t)
    ensures op.keys == [] ==> RedisSpec.Step(capacity, s, op) == (s, RedisSpec.Acknowledged)
    ensures var erased, whole := Step(capacity, t, Erase(op.keys, op.outcome)), RedisSpec.Step(capacity, s, op);
            op.keys != [] ==>
              if op.outcome.Done? then
                && erased == Dropped(t, op.keys, 0) && whole.1 == RedisSpec.Acknowledged
                && Dropped(t, op.keys, |op.keys|) == Amid(whole.0, t)
              else
                erased == Amid(whole.0, t) && whole.1 == RedisSpec.Error
  {
    hide Without;
    assert op.keys[0..] == op.keys && op.keys[..0] == [];
    assert op.keys[|op.keys|..] == [] && op.keys[..|op.keys|] == op.keys;
  }

  lemma StillDropping(t: State, keys: seq<string>, i: nat)
    requires i < |keys|
    ensures keys[i] in Dropped(t, keys, i).dropping
  {
    assert keys[i] in keys[i..];
  }

  function SpecOf(t: State): RedisSpec.State { RedisSpec.State(t.store, t.cache) }

  lemma AmidIs(s: RedisSpec.State, t: State)
    ensures SpecOf(Amid(s, t)) == s && Amid(s, t) == State(s.store, s.cache, t.asking, t.filling, t.dropping)
  {
  }

  /** A read that hits is over with its lookup. */
  lemma HitIsWhole(capacity: nat, t: State, op: RedisSpec.Op)
    requires op.Get? && Hit(t.cache, op.key, op.at).Some?
    ensures var whole := RedisSpec.Step(capacity, SpecOf(t), op);
            && whole.1 == RedisSpec.Answered(Hit(t.cache, op.key, op.at).value)
            && Step(capacity, t, Look(op.key, op.ttl, op.at)) == Amid(whole.0, t)
  {
    hide LookedUp, AfterSet, Answer;
  }

  /** A read that misses asks the store. */
  lemma MissAsks(capacity: nat, t: State, op: RedisSpec.Op)
    requires op.Get? && Hit(t.cache, op.key, op.at).None?
    ensures Step(capacity, t, Look(op.key, op.ttl, op.at))
         == t.(cache := LookedUp(t.cache, op.key, op.at), asking := t.asking + multiset{Ask(op.key, op.ttl)})
  {
    hide LookedUp, Answer;
  }

  /** What it finds in the store is cached, everything else is answered at once. */
  lemma MissReads(capacity: nat, t: State, op: RedisSpec.Op)
    requires op.Get? && Hit(t.cache, op.key, op.at).None?
    ensures var looked := Step(capacity, t, Look(op.key, op.ttl, op.at));
            var read := Step(capacity, looked, Read(op.key, op.ttl, op.ok));
            var whole := RedisSpec.Step(capacity, SpecOf(t), op);
            && Ask(op.key, op.ttl) in looked.asking && looked.store == t.store
            && if op.ok && op.key in t.store then
                 var fill := Fill(op.key, t.store[op.key], op.ttl);
                 && fill in read.filling && whole.1 == RedisSpec.Answered(t.store[op.key])
                 && Step(capacity, read, Cache(fill, op.stored)) == Amid(whole.0, t)
               else
                 read == Amid(whole.0, t) && whole.1 == if op.ok then RedisSpec.Answered("") else RedisSpec.Error
  {
    MissAsks(capacity, t, op);
    hide LookedUp, AfterSet, Answer;
    var asked := multiset{Ask(op.key, op.ttl)};
    assert t.asking + asked - asked == t.asking;
    if op.key in t.store {
      var fill := multiset{Fill(op.key, t.store[op.key], op.ttl)};
      assert t.filling + fill - fill == t.filling;
    }
  }

  lemma GetIsItsPhases(capacity: nat, s: RedisSpec.State, t: State, op: RedisSpec.Op)
    requires op.Get?
    ensures RunFrom(capacity, Amid(s, t), Phases(s, op)) == Amid(RedisSpec.Step(capacity, s, op).0, t)
  {
    var start, look, read := Amid(s, t), Look(op.key, op.ttl, op.at), Read(op.key, op.ttl, op.ok);
    RunFromOneMore(capacity, start, [], look);
    RunFromOneMore(capacity, start, [look], read);
    assert [] + [look] == [look] && [look] + [read] == [look, read];
    assert RunFrom(capacity, start, []) == start;
    hide RunFrom, Step, RedisSpec.Step, Hit;
    if Hit(s.cache, op.key, op.at).Some? {
      HitIsWhole(capacity, start, op);
    } else {
      MissReads(capacity, start, op);
    }
    if op.key in s.store {
      var fill := Cache(Fill(op.key, s.store[op.key], op.ttl), op.stored);
      RunFromOneMore(capacity, start, [look, read], fill);
      assert [look, read] + [fill] == [look, read, fill];
    }
  }

  function Dropped(start: State, keys: seq<string>, i: nat): State
    requires i <= |keys|
  {
    State(start.store - RedisSpec.KeysOf(keys), RedisSpec.WithoutAll(start.cache, keys[..i]), start.asking,
          start.filling, start.dropping + multiset(keys[i..]))
  }

  lemma DropsNext(capacity: nat, start: State, keys: seq<string>, i: nat)
    requires i < |keys|
    ensures Step(capacity, Dropped(start, keys, i), Drop(keys[i])) == Dropped(start, keys, i + 1)
  {
    hide Without;
    assert keys[i..] == [keys[i]] + keys[i + 1..] && keys[..i + 1][..i] == keys[..i];
    assert start.dropping + multiset(keys[i..]) - multiset{keys[i]} == start.dropping + multiset(keys[i + 1..]);
  }

  lemma ErasedIsDropped(capacity: nat, start: State, keys: seq<string>)
    ensures RunFrom(capacity, start, [Erase(keys, RedisSpec.Done)]) == Dropped(start, keys, 0)
  {
    var erase := Erase(keys, RedisSpec.Done);
    RunFromOneMore(capacity, start, [], erase);
    assert [] + [erase] == [erase] && keys[0..] == keys && keys[..0] == [];
  }

  lemma {:induction false} DropsInTurn(capacity: nat, start: State, keys: seq<string>, i: nat)
    requires i <= |keys|
    ensures RunFrom(capacity, start, [Erase(keys, RedisSpec.Done)] + DropsOf(keys)[..i]) == Dropped(start, keys, i)
  {
    hide Dropped, Step, RunFrom;
    var erase, drops := Erase(keys, RedisSpec.Done), DropsOf(keys);
    if i == 0 {
      assert [erase] + drops[..0] == [erase];
      ErasedIsDropped(capacity, start, keys);
    } else {
      DropsInTurn(capacity, start, keys, i - 1);
      RunFromOneMore(capacity, start, [erase] + drops[..i - 1], drops[i - 1]);
      assert [erase] + drops[..i] == [erase] + drops[..i - 1] + [drops[i - 1]];
      DropsNext(capacity, start, keys, i - 1);
    }
  }

  // ----- a read that is overtaken -----

  const Stale := Fill("k", "a", 10)

  /** The cache answers "a" while the store holds "b", and nothing is about to drop it. */
  predicate AnswersOld(s: State) {
    s.store == map["k" := "b"] && s.dropping == multiset{} && Hit(s.cache, "k", 10) == Some("a")
  }

  /** A read has its value when a write replaces it in the store and drops it from the cache; then the read caches
      it. */
  lemma OvertakenReadIsCached(capacity: nat)
    requires capacity >= 1
    ensures exists ops :: AnswersOld(Run(capacity, ops)) && !AlwaysCoherent(capacity, ops)
  {
    hide Step, Run, AnswersOld, AlwaysCoherent, Coherent;
    var read := [Write("k", "a", RedisSpec.Done), Drop("k"), Look("k", 10, 0), Read("k", 10, true)];
    ReadAhead(capacity, read);
    var write, fill := Write("k", "b", RedisSpec.Done), Cache(Stale, 0);
    var ops := read + [write] + [Drop("k")] + [fill];
    RunOneMore(capacity, read, write);
    RunOneMore(capacity, read + [write], Drop("k"));
    RunOneMore(capacity, read + [write] + [Drop("k")], fill);
    Overtaken(capacity);
    NotAlways(capacity, ops);
  }

  lemma NotAlways(capacity: nat, ops: seq<Op>)
    requires !Coherent(Run(capacity, ops))
    ensures !AlwaysCoherent(capacity, ops)
  {
    hide Coherent, Run;
    if AlwaysCoherent(capacity, ops) { LastIsCoherent(capacity, ops); }
  }

  lemma Overtaken(capacity: nat)
    requires capacity >= 1
    ensures var s := State(map["k" := "a"], [], multiset{}, multiset{Stale}, multiset{});
            var t := Step(capacity, Step(capacity, s, Write("k", "b", RedisSpec.Done)), Drop("k"));
            var u := Step(capacity, t, Cache(Stale, 0));
            AnswersOld(u) && !Coherent(u)
  {
    var s := State(map["k" := "a"], [], multiset{}, multiset{Stale}, multiset{});
    var t := Step(capacity, Step(capacity, s, Write("k", "b", RedisSpec.Done)), Drop("k"));
    assert t == State(map["k" := "b"], [], multiset{}, multiset{Stale}, multiset{});
    var u := Step(capacity, t, Cache(Stale, 0));
    assert u == State(map["k" := "b"], [Item("k", Content("a"), 10)], multiset{}, multiset{}, multiset{});
    assert u.cache[0] in u.cache && !Good(u, u.cache[0]);
  }

  lemma ReadAhead(capacity: nat, ops: seq<Op>)
    requires ops == [Write("k", "a", RedisSpec.Done), Drop("k"), Look("k", 10, 0), Read("k", 10, true)]
    ensures Run(capacity, ops) == State(map["k" := "a"], [], multiset{}, multiset{Stale}, multiset{})
  {
    var write, look, read := Write("k", "a", RedisSpec.Done), Look("k", 10, 0), Read("k", 10, true);
    assert ops == [] + [write] + [Drop("k")] + [look] + [read];
    RunOneMore(capacity, [], write);
    RunOneMore(capacity, [] + [write], Drop("k"));
    RunOneMore(capacity, [] + [write] + [Drop("k")], look);
    RunOneMore(capacity, [] + [write] + [Drop("k")] + [look], read);
    assert Run(capacity, []) == Start;
    hide Run;
    ReadsAhead(capacity);
  }

  lemma ReadsAhead(capacity: nat)
    ensures var written := Step(capacity, Step(capacity, Start, Write("k", "a", RedisSpec.Done)), Drop("k"));
            Step(capacity, Step(capacity, written, Look("k", 10, 0)), Read("k", 10, true))
            == State(map["k" := "a"], [], multiset{}, multiset{Stale}, multiset{})
  {
    var written := Step(capacity, Step(capacity, Start, Write("k", "a", RedisSpec.Done)), Drop("k"));
    assert written == State(map["k" := "a"], [], multiset{}, multiset{}, multiset{});
    var looked := Step(capacity, written, Look("k", 10, 0));
    assert looked == State(map["k" := "a"], [], multiset{Ask("k", 10)}, multiset{}, multiset{});
  }
}
