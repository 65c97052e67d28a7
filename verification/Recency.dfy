/** The LRU cache as a list of entries, most recently used first. */
module Recency {
  import opened Text

  datatype Item<V> = Item(key: string, value: V, expiry: int)

  type Order<V> = seq<Item<V>>

  function Find<V>(l: Order<V>, key: string): Option<Item<V>> {
    if l == [] then None else if l[0].key == key then Some(l[0]) else Find(l[1..], key)
  }

  function Without<V>(l: Order<V>, key: string): Order<V> {
    if l == [] then [] else if l[0].key == key then l[1..] else [l[0]] + Without(l[1..], key)
  }

  ghost predicate Distinct<V>(l: Order<V>) {
    forall i, j :: 0 <= i < j < |l| ==> l[i].key != l[j].key
  }

  // ----- the operations -----

  datatype Call<V> = Set(key: string, value: V, ttl: int) | Get(key: string) | Delete(key: string) | Clear

  datatype Timed<V> = Timed(now: int, call: Call<V>)

  /** A hit moves to the front, an expired entry is dropped: `now.After(expiry)`. */
  function AfterGet<V>(l: Order<V>, key: string, now: int): Order<V> {
    match Find(l, key)
    case None => l
    case Some(item) => if now > item.expiry then Without(l, key) else [item] + Without(l, key)
  }

  function Answer<V>(l: Order<V>, key: string, now: int): Option<V> {
    match Find(l, key)
    case None => None
    case Some(item) => if now > item.expiry then None else Some(item.value)
  }

  /** Room for a new key: the back entry goes when the cache is full. */
  function Evicted<V>(l: Order<V>, capacity: nat): Order<V> {
    if |l| >= capacity && l != [] then l[..|l| - 1] else l
  }

  function AfterSet<V>(l: Order<V>, capacity: nat, key: string, value: V, expiry: int): Order<V> {
    [Item(key, value, expiry)] + if Find(l, key).Some? then Without(l, key) else Evicted(l, capacity)
  }

  function After<V>(l: Order<V>, capacity: nat, t: Timed<V>): Order<V> {
    match t.call
    case Set(key, value, ttl) => AfterSet(l, capacity, key, value, t.now + ttl)
    case Get(key) => AfterGet(l, key, t.now)
    case Delete(key) => Without(l, key)
    case Clear => []
  }

  function RunFrom<V>(l: Order<V>, capacity: nat, trace: seq<Timed<V>>): Order<V> {
    if trace == [] then l else After(RunFrom(l, capacity, trace[..|trace| - 1]), capacity, trace[|trace| - 1])
  }

  function Run<V>(capacity: nat, trace: seq<Timed<V>>): Order<V> {
    RunFrom([], capacity, trace)
  }

  // ----- lookups of text -----

  /** Cached values are untyped in the code; the clients store only text, and remove what is not. */
  datatype Cached = Content(text: string) | Other

  /** The cache after a client's lookup. */
  function LookedUp(cache: Order<Cached>, key: string, now: int): Order<Cached> {
    var after := AfterGet(cache, key, now);
    if Answer(cache, key, now) == Some(Other) then Without(after, key) else after
  }

  lemma {:induction false} InWithout<V>(l: Order<V>, key: string, item: Item<V>)
    requires item in Without(l, key)
    ensures item in l
  {
    if l[0].key != key && item != l[0] { InWithout(l[1..], key, item); }
  }

  lemma LookupKeeps(cache: Order<Cached>, key: string, now: int, item: Item<Cached>)
    requires item in LookedUp(cache, key, now)
    ensures item in cache
  {
    var after := AfterGet(cache, key, now);
    if item !in after { InWithout(after, key, item); }
    FindIsIn(cache, key);
    if item in Without(cache, key) { InWithout(cache, key, item); }
    hide Without, Find;
  }

  // ----- basic facts -----

  lemma {:induction false} FindIsIn<V>(l: Order<V>, key: string)
    ensures Find(l, key).Some? ==> Find(l, key).value in l && Find(l, key).value.key == key
    ensures Find(l, key).None? ==> forall i :: 0 <= i < |l| ==> l[i].key != key
  {
    if l != [] { FindIsIn(l[1..], key); }
  }

  lemma {:induction false} WithoutKeeps<V>(l: Order<V>, key: string)
    requires Distinct(l)
    ensures var r := Without(l, key);
            && |r| == (if Find(l, key).Some? then |l| - 1 else |l|)
            && Distinct(r)
            && (forall i :: 0 <= i < |r| ==> r[i] in l && r[i].key != key)
            && (forall item :: item in l && item.key != key ==> item in r)
  {
    if l != [] {
      WithoutKeeps(l[1..], key);
      var r := Without(l[1..], key);
      if l[0].key != key {
        forall i | 0 <= i < |r| ensures r[i].key != l[0].key {
          var j :| 0 <= j < |l[1..]| && l[1..][j] == r[i];
          assert l[j + 1] == r[i];
        }
        AddFront(l[0], r);
      }
    }
  }

  lemma {:induction false} FindByKey<V>(l: Order<V>, item: Item<V>)
    requires Distinct(l) && item in l
    ensures Find(l, item.key) == Some(item)
  {
    if l[0] != item {
      assert item in l[1..];
      FindByKey(l[1..], item);
    }
  }

  lemma {:induction false} WithoutAbsent<V>(l: Order<V>, key: string)
    requires Find(l, key).None?
    ensures Without(l, key) == l
  {
    if l != [] { WithoutAbsent(l[1..], key); }
  }

  lemma AddFront<V>(item: Item<V>, l: Order<V>)
    requires Distinct(l) && forall i :: 0 <= i < |l| ==> l[i].key != item.key
    ensures Distinct([item] + l)
  {
  }

  /** Every call keeps the keys distinct and the size within the capacity. */
  lemma AfterKeepsValid<V>(l: Order<V>, capacity: nat, t: Timed<V>)
    requires 1 <= capacity && Distinct(l) && |l| <= capacity
    ensures Distinct(After(l, capacity, t)) && |After(l, capacity, t)| <= capacity
  {
    match t.call
    case Clear =>
    case Delete(key) => WithoutKeeps(l, key);
    case Get(key) =>
      WithoutKeeps(l, key);
      FindIsIn(l, key);
      if Find(l, key).Some? { AddFront(Find(l, key).value, Without(l, key)); }
    case Set(key, value, ttl) =>
      WithoutKeeps(l, key);
      FindIsIn(l, key);
      var item := Item(key, value, t.now + ttl);
      if Find(l, key).Some? { AddFront(item, Without(l, key)); } else { AddFront(item, Evicted(l, capacity)); }
  }

  lemma {:induction false} RunIsValid<V>(l: Order<V>, capacity: nat, trace: seq<Timed<V>>)
    requires 1 <= capacity && Distinct(l) && |l| <= capacity
    ensures Distinct(RunFrom(l, capacity, trace)) && |RunFrom(l, capacity, trace)| <= capacity
  {
    if trace != [] {
      RunIsValid(l, capacity, trace[..|trace| - 1]);
      AfterKeepsValid(RunFrom(l, capacity, trace[..|trace| - 1]), capacity, trace[|trace| - 1]);
    }
  }

  // ----- inclusion: a larger cache holds what a smaller one holds -----

  /** `small` is a subsequence of `large`: same order, equal entries. */
  ghost predicate Within<V>(small: Order<V>, large: Order<V>) {
    if small == [] then true
    else if large == [] then false
    else if small[0] == large[0] then Within(small[1..], large[1..])
    else Within(small, large[1..])
  }

  lemma {:induction false} WithinHolds<V>(small: Order<V>, large: Order<V>)
    requires Within(small, large)
    ensures |small| <= |large| && forall i :: 0 <= i < |small| ==> small[i] in large
  {
    if small != [] {
      if small[0] == large[0] { WithinHolds(small[1..], large[1..]); } else { WithinHolds(small, large[1..]); }
    }
  }

  lemma {:induction false} WithinWithout<V>(small: Order<V>, large: Order<V>, key: string)
    requires Within(small, large) && Distinct(large)
    ensures Within(Without(small, key), Without(large, key))
  {
    if small != [] {
      if small[0] == large[0] {
        WithinWithout(small[1..], large[1..], key);
      } else {
        WithinWithout(small, large[1..], key);
        if large[0].key == key {
          WithinHolds(small, large[1..]);
          FindIsIn(small, key);
          WithoutAbsent(small, key);
        } else {
          WithinAfterHead(Without(small, key), large[0], Without(large[1..], key));
        }
      }
    }
  }

  lemma {:induction false} WithinAfterHead<V>(small: Order<V>, head: Item<V>, large: Order<V>)
    requires Within(small, large)
    ensures Within(small, [head] + large)
    decreases |large|, 1
  {
    if small != [] && small[0] == head {
      WithinTail(small, large);
    }
  }

  lemma {:induction false} WithinTail<V>(small: Order<V>, large: Order<V>)
    requires small != [] && Within(small, large)
    ensures Within(small[1..], large)
    decreases |large|, 0
  {
    if small[0] == large[0] {
      WithinAfterHead(small[1..], large[0], large[1..]);
      assert [large[0]] + large[1..] == large;
    } else {
      WithinTail(small, large[1..]);
      WithinAfterHead(small[1..], large[0], large[1..]);
      assert [large[0]] + large[1..] == large;
    }
  }

  lemma {:induction false} WithinInit<V>(small: Order<V>, large: Order<V>)
    requires small != [] && Within(small, large)
    ensures Within(small[..|small| - 1], large)
  {
    if |small| > 1 {
      if small[0] == large[0] {
        WithinInit(small[1..], large[1..]);
        assert small[..|small| - 1][1..] == small[1..][..|small[1..]| - 1];
      } else {
        WithinInit(small, large[1..]);
      }
    }
  }

  lemma {:induction false} WithinInits<V>(small: Order<V>, large: Order<V>)
    requires small != [] && Within(small, large)
    ensures Within(small[..|small| - 1], large[..|large| - 1])
  {
    if |small| > 1 {
      var init := large[..|large| - 1];
      if small[0] == large[0] {
        WithinHolds(small[1..], large[1..]);
        WithinInits(small[1..], large[1..]);
        assert init[1..] == large[1..][..|large[1..]| - 1];
        assert small[..|small| - 1][1..] == small[1..][..|small[1..]| - 1];
      } else {
        WithinHolds(small, large[1..]);
        WithinInits(small, large[1..]);
        assert init[1..] == large[1..][..|large[1..]| - 1];
      }
    }
  }

  lemma WithinFind<V>(small: Order<V>, large: Order<V>, key: string)
    requires Within(small, large) && Distinct(large)
    ensures Find(small, key).Some? ==> Find(large, key) == Find(small, key)
  {
    FindIsIn(small, key);
    WithinHolds(small, large);
    if Find(small, key).Some? { FindByKey(large, Find(small, key).value); }
  }

  ghost predicate Included<V>(small: Order<V>, large: Order<V>, n: nat, m: nat) {
    && Within(small, large) && Distinct(small) && Distinct(large)
    && |small| <= n && |large| <= m && |large| - |small| <= m - n
  }

  lemma IncludedAfterSet<V>(small: Order<V>, large: Order<V>, n: nat, m: nat, key: string, value: V, expiry: int)
    requires 1 <= n <= m && Included(small, large, n, m)
    ensures Within(AfterSet(small, n, key, value, expiry), AfterSet(large, m, key, value, expiry))
    ensures |AfterSet(large, m, key, value, expiry)| - |AfterSet(small, n, key, value, expiry)| <= m - n
  {
    WithinFind(small, large, key);
    WithinWithout(small, large, key);
    WithoutKeeps(small, key);
    WithoutKeeps(large, key);
    WithinHolds(small, large);
    if Find(small, key).None? {
      WithoutAbsent(small, key);
      if small != [] {
        WithinInit(small, Without(large, key));
        WithinInit(small, large);
        WithinInits(small, large);
      }
    }
  }

  /** One call keeps the inclusion, and a hit in the small cache is the same hit in the large one. */
  lemma IncludedAfter<V>(small: Order<V>, large: Order<V>, n: nat, m: nat, t: Timed<V>)
    requires 1 <= n <= m && Included(small, large, n, m)
    ensures Included(After(small, n, t), After(large, m, t), n, m)
    ensures t.call.Get? ==> Answer(small, t.call.key, t.now) in {None, Answer(large, t.call.key, t.now)}
  {
    AfterKeepsValid(small, n, t);
    AfterKeepsValid(large, m, t);
    match t.call
    case Clear =>
    case Set(key, value, ttl) => IncludedAfterSet(small, large, n, m, key, value, t.now + ttl);
    case Delete(key) =>
      WithinWithout(small, large, key);
      WithinFind(small, large, key);
      WithoutKeeps(small, key);
      WithoutKeeps(large, key);
    case Get(key) =>
      WithinWithout(small, large, key);
      WithinFind(small, large, key);
      WithoutKeeps(small, key);
      WithoutKeeps(large, key);
      if Find(small, key).None? {
        WithoutAbsent(small, key);
        if Find(large, key).Some? { WithinAfterHead(small, Find(large, key).value, Without(large, key)); }
      }
  }

  /** The LRU inclusion property, over any trace on one clock. */
  lemma {:induction false} Inclusion<V>(n: nat, m: nat, trace: seq<Timed<V>>)
    requires 1 <= n <= m
    ensures Included(Run(n, trace), Run(m, trace), n, m)
  {
    if trace != [] {
      var before := trace[..|trace| - 1];
      Inclusion(n, m, before);
      IncludedAfter(Run(n, before), Run(m, before), n, m, trace[|trace| - 1]);
    }
  }

  /** Hence a larger cache answers whatever a smaller one answers, with the same value. */
  lemma LargerCacheHits<V>(n: nat, m: nat, trace: seq<Timed<V>>, key: string, now: int)
    requires 1 <= n <= m && Answer(Run(n, trace), key, now).Some?
    ensures Answer(Run(m, trace), key, now) == Answer(Run(n, trace), key, now)
  {
    Inclusion(n, m, trace);
    IncludedAfter(Run(n, trace), Run(m, trace), n, m, Timed(now, Get(key)));
  }

  // ----- what calls leave to be answered -----

  lemma {:induction false} FindWithout<V>(l: Order<V>, key: string, other: string)
    requires Distinct(l)
    ensures Find(Without(l, key), other) == if other == key then None else Find(l, other)
  {
    if l != [] && l[0].key != key { FindWithout(l[1..], key, other); }
    if l != [] && l[0].key == key && other == key { Absent(l[1..], key); }
  }

  lemma {:induction false} Absent<V>(l: Order<V>, key: string)
    requires forall i :: 0 <= i < |l| ==> l[i].key != key
    ensures Find(l, key) == None
  {
    if l != [] { Absent(l[1..], key); }
  }

  lemma {:induction false} FindInit<V>(l: Order<V>, key: string)
    requires Distinct(l) && l != []
    ensures Find(l[..|l| - 1], key) == if key == l[|l| - 1].key then None else Find(l, key)
  {
    if l[0].key != key && |l| > 1 {
      assert l[..|l| - 1][1..] == l[1..][..|l[1..]| - 1];
      FindInit(l[1..], key);
    }
  }

  /** A value is answered until its time to live is over, and not after; a deleted or cleared key never. */
  lemma WritesAnswer<V>(l: Order<V>, capacity: nat, now: int, key: string, value: V, ttl: int, later: int)
    requires Distinct(l)
    ensures Answer(After(l, capacity, Timed(now, Set(key, value, ttl))), key, later)
         == if later <= now + ttl then Some(value) else None
    ensures Answer(After(l, capacity, Timed(now, Delete(key))), key, later) == None
    ensures Answer(After(l, capacity, Timed(now, Clear)), key, later) == None
  {
    FindWithout(l, key, key);
  }

  lemma FindAdded<V>(item: Item<V>, l: Order<V>, key: string)
    ensures Find([item] + l, key) == if item.key == key then Some(item) else Find(l, key)
  {
    assert ([item] + l)[1..] == l;
  }

  /** No lookup, and no deletion of another key, changes what a key answers from then on. */
  lemma LookupsKeepAnswers<V>(l: Order<V>, capacity: nat, now: int, other: string, key: string, later: int)
    requires Distinct(l) && now <= later
    ensures Answer(After(l, capacity, Timed(now, Get(other))), key, later) == Answer(l, key, later)
    ensures other != key ==> Answer(After(l, capacity, Timed(now, Delete(other))), key, later) == Answer(l, key, later)
  {
    FindWithout(l, other, key);
    FindIsIn(l, other);
    if Find(l, other).Some? { FindAdded(Find(l, other).value, Without(l, other), key); }
    hide Without, Distinct, Find;
  }

  /** A write of another key does so only for the least recently used key, when the other is new to a full cache. */
  lemma WritesKeepAnswers<V>(l: Order<V>, capacity: nat, now: int, other: string, value: V, ttl: int, key: string,
                             later: int)
    requires Distinct(l) && other != key
    ensures Answer(After(l, capacity, Timed(now, Set(other, value, ttl))), key, later) ==
        if Find(l, other).None? && |l| >= capacity && l != [] && l[|l| - 1].key == key then None
        else Answer(l, key, later)
  {
    FindWithout(l, other, key);
    if l != [] { FindInit(l, key); }
    var rest := if Find(l, other).Some? then Without(l, other) else Evicted(l, capacity);
    FindAdded(Item(other, value, now + ttl), rest, key);
    hide Without, Distinct, Find;
  }

  // ----- survival: what is not evicted -----

  /** The calls leave `key` alone: no deletion, no overwriting, and no lookup after its expiry. */
  predicate LeavesAlone<V>(t: Timed<V>, key: string, expiry: int) {
    match t.call
    case Clear => false
    case Set(k, _, _) => k != key
    case Delete(k) => k != key
    case Get(k) => k == key ==> t.now <= expiry
  }

  /** The other keys a trace sets or looks up. */
  function Touched<V>(trace: seq<Timed<V>>, key: string): set<string> {
    if trace == [] then {}
    else Touched(trace[..|trace| - 1], key) + TouchedBy(trace[|trace| - 1], key)
  }

  function TouchedBy<V>(t: Timed<V>, key: string): set<string> {
    match t.call
    case Set(k, _, _) => {k} - {key}
    case Get(k) => {k} - {key}
    case _ => {}
  }

  /** `item` is held, with only keys of `ahead` in front of it. */
  ghost predicate Held<V>(l: Order<V>, item: Item<V>, ahead: set<string>) {
    exists p :: 0 <= p < |l| && l[p] == item && forall i :: 0 <= i < p ==> l[i].key in ahead
  }

  lemma HeldMeans<V>(l: Order<V>, item: Item<V>, ahead: set<string>) returns (p: nat)
    requires Held(l, item, ahead)
    ensures p < |l| && l[p] == item && forall i :: 0 <= i < p ==> l[i].key in ahead
  {
    p :| 0 <= p < |l| && l[p] == item && forall i :: 0 <= i < p ==> l[i].key in ahead;
  }

  lemma HeldBehind<V>(head: Item<V>, l: Order<V>, item: Item<V>, ahead: set<string>)
    requires Held(l, item, ahead)
    ensures Held([head] + l, item, ahead + {head.key})
  {
    var p := HeldMeans(l, item, ahead);
    assert ([head] + l)[p + 1] == item;
  }

  lemma {:induction false} HeldWithout<V>(l: Order<V>, key: string, item: Item<V>, ahead: set<string>)
    requires Held(l, item, ahead) && item.key != key
    ensures Held(Without(l, key), item, ahead)
  {
    var p := HeldMeans(l, item, ahead);
    if l[0].key == key {
      assert l[1..][p - 1] == item;
    } else if p == 0 {
      assert Without(l, key)[0] == item;
    } else {
      assert l[1..][p - 1] == item && forall i :: 0 <= i < p - 1 ==> l[1..][i].key in ahead;
      HeldWithout(l[1..], key, item, ahead);
      var q := HeldMeans(Without(l[1..], key), item, ahead);
      assert Without(l, key)[q + 1] == item;
    }
  }

  lemma {:induction false} DistinctKeysFit<V>(l: Order<V>, p: nat, keys: set<string>)
    requires Distinct(l) && p <= |l| && forall i :: 0 <= i < p ==> l[i].key in keys
    ensures p <= |keys|
  {
    if p > 0 {
      DistinctKeysFit(l, p - 1, keys - {l[p - 1].key});
    }
  }

  lemma HeldAfterEviction<V>(l: Order<V>, capacity: nat, key: string, item: Item<V>, ahead: set<string>)
    requires Distinct(l) && Held(l, item, ahead) && Find(l, key).None? && |ahead + {key}| < capacity
    ensures Held(Evicted(l, capacity), item, ahead)
  {
    var p := HeldMeans(l, item, ahead);
    FindIsIn(l, key);
    DistinctKeysFit(l, p, ahead - {key});
    assert |ahead + {key}| == |ahead - {key}| + 1 by { assert ahead + {key} == (ahead - {key}) + {key}; }
    assert Evicted(l, capacity)[p] == item;
  }

  lemma HeldAfter<V>(l: Order<V>, capacity: nat, t: Timed<V>, item: Item<V>, ahead: set<string>)
    requires 1 <= capacity && Distinct(l) && |l| <= capacity && Held(l, item, ahead)
    requires LeavesAlone(t, item.key, item.expiry) && |ahead + TouchedBy(t, item.key)| < capacity
    ensures Held(After(l, capacity, t), item, ahead + TouchedBy(t, item.key))
  {
    hide Held, Without, Find, Distinct, AfterGet, AfterSet;
    var touched := TouchedBy(t, item.key);
    match t.call
    case Delete(key) =>
      HeldWithout(l, key, item, ahead);
      HeldMore(Without(l, key), item, ahead, touched);
    case Get(key) => HeldAfterGet(l, key, t.now, item, ahead);
    case Set(key, value, ttl) =>
      assert touched == {key};
      HeldAfterSet(l, capacity, Item(key, value, t.now + ttl), item, ahead);
  }

  lemma HeldAfterGet<V>(l: Order<V>, key: string, now: int, item: Item<V>, ahead: set<string>)
    requires Distinct(l) && Held(l, item, ahead) && (key == item.key ==> now <= item.expiry)
    ensures Held(AfterGet(l, key, now), item, ahead + ({key} - {item.key}))
  {
    var p := HeldMeans(l, item, ahead);
    var touched := {key} - {item.key};
    FindByKey(l, item);
    if key == item.key {
      assert AfterGet(l, key, now)[0] == item;
    } else {
      HeldWithout(l, key, item, ahead);
      FindIsIn(l, key);
      assert touched == {key};
      hide Held, Without, Find, Distinct;
      HeldMore(l, item, ahead, touched);
      HeldMore(Without(l, key), item, ahead, touched);
      if Find(l, key).Some? { HeldBehind(Find(l, key).value, Without(l, key), item, ahead); }
    }
  }

  lemma HeldAfterSet<V>(l: Order<V>, capacity: nat, added: Item<V>, item: Item<V>, ahead: set<string>)
    requires Distinct(l) && Held(l, item, ahead) && added.key != item.key && |ahead + {added.key}| < capacity
    ensures Held(AfterSet(l, capacity, added.key, added.value, added.expiry), item, ahead + {added.key})
  {
    hide Held, Without, Find, Distinct;
    if Find(l, added.key).Some? {
      HeldWithout(l, added.key, item, ahead);
      HeldBehind(added, Without(l, added.key), item, ahead);
    } else {
      HeldAfterEviction(l, capacity, added.key, item, ahead);
      HeldBehind(added, Evicted(l, capacity), item, ahead);
    }
  }

  lemma HeldMore<V>(l: Order<V>, item: Item<V>, ahead: set<string>, more: set<string>)
    requires Held(l, item, ahead)
    ensures Held(l, item, ahead + more)
  {
    var p := HeldMeans(l, item, ahead);
  }

  lemma {:induction false} HeldThroughout<V>(l: Order<V>, capacity: nat, trace: seq<Timed<V>>, item: Item<V>)
    requires 1 <= capacity && Distinct(l) && |l| <= capacity && l != [] && l[0] == item
    requires forall i :: 0 <= i < |trace| ==> LeavesAlone(trace[i], item.key, item.expiry)
    requires |Touched(trace, item.key)| < capacity
    ensures Held(RunFrom(l, capacity, trace), item, Touched(trace, item.key))
  {
    if trace == [] {
      assert l[0] == item;
    } else {
      var before := trace[..|trace| - 1];
      SubsetSize(Touched(before, item.key), Touched(trace, item.key));
      HeldThroughout(l, capacity, before, item);
      RunIsValid(l, capacity, before);
      HeldAfter(RunFrom(l, capacity, before), capacity, trace[|trace| - 1], item, Touched(before, item.key));
    }
  }

  lemma SubsetSize(a: set<string>, b: set<string>)
    requires a <= b
    ensures |a| <= |b|
  {
    assert b == a + (b - a);
  }

  /** A value that is set, neither deleted nor overwritten, and not yet expired is still answered
      as long as fewer than `capacity` distinct other keys have been set or looked up since. */
  lemma {:induction false} Survival<V>(l: Order<V>, capacity: nat, now: int, key: string, value: V, ttl: int,
      trace: seq<Timed<V>>, later: int)
    requires 1 <= capacity && Distinct(l) && |l| <= capacity
    requires later <= now + ttl && forall i :: 0 <= i < |trace| ==> LeavesAlone(trace[i], key, now + ttl)
    requires |Touched(trace, key)| < capacity
    ensures var start := After(l, capacity, Timed(now, Set(key, value, ttl)));
            Answer(RunFrom(start, capacity, trace), key, later) == Some(value)
  {
    var start := After(l, capacity, Timed(now, Set(key, value, ttl)));
    var item := Item(key, value, now + ttl);
    AfterKeepsValid(l, capacity, Timed(now, Set(key, value, ttl)));
    HeldThroughout(start, capacity, trace, item);
    RunIsValid(start, capacity, trace);
    var p := HeldMeans(RunFrom(start, capacity, trace), item, Touched(trace, key));
    FindByKey(RunFrom(start, capacity, trace), item);
  }

  /** The same from a lookup that hits: using an entry protects it as setting it does. */
  lemma {:induction false} SurvivalAfterHit<V>(l: Order<V>, capacity: nat, now: int, key: string, trace: seq<Timed<V>>,
      later: int)
    requires 1 <= capacity && Distinct(l) && |l| <= capacity && Answer(l, key, now).Some?
    requires later <= Find(l, key).value.expiry
    requires forall i :: 0 <= i < |trace| ==> LeavesAlone(trace[i], key, Find(l, key).value.expiry)
    requires |Touched(trace, key)| < capacity
    ensures var start := After(l, capacity, Timed(now, Get(key)));
            Answer(RunFrom(start, capacity, trace), key, later) == Answer(l, key, now)
  {
    var start := After(l, capacity, Timed(now, Get(key)));
    var item := Find(l, key).value;
    FindIsIn(l, key);
    AfterKeepsValid(l, capacity, Timed(now, Get(key)));
    HeldThroughout(start, capacity, trace, item);
    RunIsValid(start, capacity, trace);
    var p := HeldMeans(RunFrom(start, capacity, trace), item, Touched(trace, key));
    FindByKey(RunFrom(start, capacity, trace), item);
  }
}
