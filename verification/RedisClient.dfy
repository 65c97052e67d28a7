/** The Redis client over its cache: each phase makes the step of `RedisPhases` that stands for it, and each whole call
    the step of `RedisSpec`. */
module RedisClient {
  import opened Text
  import opened Recency
  import opened RedisSpec
  import RedisPhases
  import LruCache

  class Client {
    const cache: LruCache.LRUCache<Cached>
    /** The server's string keys. */
    var store: map<string, string>
    /** The calls between two of their phases. */
    ghost var asking: multiset<RedisPhases.Ask>
    ghost var filling: multiset<RedisPhases.Fill>
    ghost var dropping: multiset<string>

    ghost predicate Valid()
      reads this, cache, cache.Repr
    {
      cache.Valid() && this !in cache.Repr
    }

    ghost function Value(): State
      reads this, cache
    {
      State(store, cache.contents)
    }

    ghost function Abstract(): RedisPhases.State
      reads this, cache
    {
      RedisPhases.State(store, cache.contents, asking, filling, dropping)
    }

    constructor (cacheSize: int, cacheTtl: int, store: map<string, string>)
      ensures Valid() && fresh(cache) && fresh(cache.Repr)
      ensures Abstract() == RedisPhases.State(store, [], multiset{}, multiset{}, multiset{})
    {
      this.store := store;
      asking, filling, dropping := multiset{}, multiset{}, multiset{};
      var c := new LruCache.LRUCache<Cached>(cacheSize, cacheTtl);
      cache := c;
    }

    lemma Shows()
      ensures Abstract() == RedisPhases.State(store, cache.contents, asking, filling, dropping)
      ensures Value() == RedisPhases.SpecOf(Abstract()) && Value() == State(store, cache.contents)
    {
    }

    // ----- reading -----

    /** Looks the cache up; an entry that is no text is dropped. */
    method LookPhase(key: string, ttl: int, at: int) returns (hit: Option<string>)
      requires Valid()
      modifies this`asking, cache.Repr
      ensures Valid() && cache.Repr == old(cache.Repr)
      ensures Abstract() == RedisPhases.Step(cache.maxSize, old(Abstract()), RedisPhases.Look(key, ttl, at))
      ensures hit == RedisPhases.Hit(old(cache.contents), key, at)
    {
      hide LruCache.LRUCache.Valid, AfterGet, Without, Find;
      var cached := cache.Get(key, at);
      if cached.Some? {
        if cached.value.Content? {
          return Some(cached.value.text);
        }
        cache.Delete(key);
      }
      asking := asking + multiset{RedisPhases.Ask(key, ttl)};
      return None;
    }

    /** Asks the store. */
    method ReadPhase(key: string, ttl: int, ok: bool) returns (value: Option<string>)
      requires Valid() && RedisPhases.Ask(key, ttl) in asking
      modifies this`asking, this`filling
      ensures Valid() && Abstract() == RedisPhases.Step(cache.maxSize, old(Abstract()), RedisPhases.Read(key, ttl, ok))
      ensures value == if ok && key in store then Some(store[key]) else None
    {
      hide LruCache.LRUCache.Valid;
      asking := asking - multiset{RedisPhases.Ask(key, ttl)};
      if !ok || key !in store {
        return None;
      }
      filling := filling + multiset{RedisPhases.Fill(key, store[key], ttl)};
      return Some(store[key]);
    }

    /** Caches what was read. */
    method FillPhase(key: string, value: string, ttl: int, stored: int)
      requires Valid() && RedisPhases.Fill(key, value, ttl) in filling
      modifies this`filling, cache.Repr
      ensures Valid() && fresh(cache.Repr - old(cache.Repr))
      ensures var fill := RedisPhases.Fill(key, value, ttl);
              Abstract() == RedisPhases.Step(cache.maxSize, old(Abstract()), RedisPhases.Cache(fill, stored))
    {
      hide LruCache.LRUCache.Valid, AfterSet;
      filling := filling - multiset{RedisPhases.Fill(key, value, ttl)};
      cache.SetWithTTL(key, Content(value), ttl, stored);
    }

    /** The whole call. */
    method GetWithTTL(key: string, ttl: int, at: int, stored: int, ok: bool) returns (r: Reply)
      requires Valid()
      modifies this`asking, this`filling, cache.Repr
      ensures Valid() && fresh(cache.Repr - old(cache.Repr))
      ensures (Value(), r) == Step(cache.maxSize, old(Value()), Op.Get(key, ttl, at, stored, ok))
      ensures Abstract() == RedisPhases.Amid(Value(), old(Abstract()))
    {
      hide *;
      Shows();
      ghost var t, op := Abstract(), Op.Get(key, ttl, at, stored, ok);
      if RedisPhases.Hit(t.cache, key, at).Some? {
        RedisPhases.HitIsWhole(cache.maxSize, t, op);
      } else {
        RedisPhases.MissReads(cache.maxSize, t, op);
      }
      RedisPhases.AmidIs(Step(cache.maxSize, Value(), op).0, t);
      var hit := LookPhase(key, ttl, at);
      Shows();
      if hit.Some? {
        return Answered(hit.value);
      }
      var value := ReadPhase(key, ttl, ok);
      Shows();
      if !ok {
        return Error;
      }
      if value.None? {
        return Answered("");
      }
      FillPhase(key, value.value, ttl, stored);
      Shows();
      return Answered(value.value);
    }

    // ----- writing -----

    /** Writes the store; a write that succeeds is to drop the key. */
    method WritePhase(key: string, value: string, outcome: Outcome) returns (ok: bool)
      requires Valid()
      modifies this`store, this`dropping
      ensures Valid() && ok == outcome.Done?
      ensures Abstract() == RedisPhases.Step(cache.maxSize, old(Abstract()), RedisPhases.Write(key, value, outcome))
    {
      hide LruCache.LRUCache.Valid;
      if outcome.Done? || outcome.applied {
        store := store[key := value];
      }
      if outcome.Done? {
        dropping := dropping + multiset{key};
      }
      return outcome.Done?;
    }

    /** Deletes the keys from the store. */
    method ErasePhase(keys: seq<string>, outcome: Outcome) returns (ok: bool)
      requires Valid()
      modifies this`store, this`dropping
      ensures Valid() && ok == outcome.Done?
      ensures Abstract() == RedisPhases.Step(cache.maxSize, old(Abstract()), RedisPhases.Erase(keys, outcome))
    {
      hide LruCache.LRUCache.Valid;
      if outcome.Done? || outcome.applied {
        store := store - KeysOf(keys);
      }
      if outcome.Done? {
        dropping := dropping + multiset(keys);
      }
      return outcome.Done?;
    }

    /** Drops the cached value. */
    method DropPhase(key: string)
      requires Valid() && key in dropping
      modifies this`dropping, cache.Repr
      ensures Valid() && cache.Repr == old(cache.Repr)
      ensures Abstract() == RedisPhases.Step(cache.maxSize, old(Abstract()), RedisPhases.Drop(key))
    {
      hide LruCache.LRUCache.Valid, Without;
      dropping := dropping - multiset{key};
      cache.Delete(key);
    }

    method Set(key: string, value: string, at: int, outcome: Outcome) returns (r: Reply)
      requires Valid()
      modifies this`store, this`dropping, cache.Repr
      ensures Valid() && cache.Repr == old(cache.Repr)
      ensures (Value(), r) == Step(cache.maxSize, old(Value()), Op.Set(key, value, at, outcome))
      ensures Abstract() == RedisPhases.Amid(Value(), old(Abstract()))
    {
      hide *;
      Shows();
      ghost var s, t, op := Value(), Abstract(), Op.Set(key, value, at, outcome);
      RedisPhases.AmidIs(Step(cache.maxSize, s, op).0, t);
      RedisPhases.SetParts(cache.maxSize, s, t, op);
      var ok := WritePhase(key, value, outcome);
      Shows();
      if !ok {
        return Error;
      }
      DropPhase(key);
      Shows();
      return Acknowledged;
    }

    method Delete(keys: seq<string>, at: int, outcome: Outcome) returns (r: Reply)
      requires Valid()
      modifies this`store, this`dropping, cache.Repr
      ensures Valid() && cache.Repr == old(cache.Repr)
      ensures (Value(), r) == Step(cache.maxSize, old(Value()), Op.Delete(keys, at, outcome))
      ensures Abstract() == RedisPhases.Amid(Value(), old(Abstract()))
    {
      hide *;
      Shows();
      ghost var s, t, op := Value(), Abstract(), Op.Delete(keys, at, outcome);
      RedisPhases.AmidIs(Step(cache.maxSize, s, op).0, t);
      RedisPhases.AmidIs(s, t);
      RedisPhases.DeleteParts(cache.maxSize, s, t, op);
      if keys == [] {
        return Acknowledged;
      }
      var ok := ErasePhase(keys, outcome);
      Shows();
      if !ok {
        return Error;
      }
      for i := 0 to |keys|
        invariant Valid() && cache.Repr == old(cache.Repr)
        invariant Abstract() == RedisPhases.Dropped(t, keys, i)
      {
        RedisPhases.DropsNext(cache.maxSize, t, keys, i);
        RedisPhases.StillDropping(t, keys, i);
        Shows();
        DropPhase(keys[i]);
      }
      Shows();
      return Acknowledged;
    }
  }
}
