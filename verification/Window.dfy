/** `aggregate.window` over its mutable windows and timers; each method is one locked section of the code,
    and makes the step of `WindowSpec` that stands for it. */
module WindowTransforms {
  import opened Text
  import opened Event
  import opened Aggregate
  import opened WindowSpec
  import WindowResults
  import CountTransforms

  class WindowState {
    var startTime: int
    var endTime: int
    var events: seq<Event>
    var aggregates: map<string, CountTransforms.AggregateState>
    ghost const key: string

    constructor (startTime: int, endTime: int, ghost key: string)
      ensures Valid() && this.key == key && Value() == Window(startTime, endTime, [], map[])
    {
      this.startTime, this.endTime, this.key := startTime, endTime, key;
      events, aggregates := [], map[];
    }

    /** Every aggregate object belongs to this window and to one name. */
    ghost predicate Valid()
      reads this
    {
      forall n :: n in aggregates ==> aggregates[n].owner == this && aggregates[n].name == n
    }

    ghost function Folds(): Fold
      reads this, aggregates.Values
    {
      map n | n in aggregates :: aggregates[n].Value()
    }

    ghost function Value(): Window
      reads this, aggregates.Values
    {
      Window(startTime, endTime, events, Folds())
    }

    method Bumped(fn: Function, a: CountTransforms.AggregateState, x: real)
      modifies a
      ensures a.Value() == Bump(fn, old(a.Value()), x)
    {
      match fn
      case Count => a.count := a.count + 1;
      case Sum => a.sum, a.count := a.sum + x, a.count + 1;
      case Avg => a.sum, a.count := a.sum + x, a.count + 1;
      case Min =>
        if a.min.None? || x < a.min.value { a.min := Some(x); }
        a.count := a.count + 1;
      case Max =>
        if a.max.None? || x > a.max.value { a.max := Some(x); }
        a.count := a.count + 1;
    }

    /** One step of the aggregation loop: the first number creates the state, later ones update it. */
    method UpdateOne(agg: Aggregation, ev: Event)
      requires Valid()
      modifies this`aggregates, aggregates.Values
      ensures Valid() && Folds() == Updated(agg, old(Folds()), ev)
      ensures forall n :: n in aggregates ==>
          (n in old(aggregates) && aggregates[n] == old(aggregates)[n]) || fresh(aggregates[n])
    {
      var v := GetField(ev, agg.field);
      if v.None? {
        return;
      }
      var x := WindowNumeric(v.value);
      if x.None? {
        return;
      }
      if agg.name !in aggregates {
        var a := new CountTransforms.AggregateState.First(this, agg.name, x.value);
        aggregates := aggregates[agg.name := a];
        return;
      }
      Bumped(agg.function_, aggregates[agg.name], x.value);
    }

    method UpdateAggregations(aggs: seq<Aggregation>)
      requires Valid() && events != []
      modifies this`aggregates, aggregates.Values
      ensures Valid() && Folds() == UpdatedAll(aggs, old(Folds()), events[|events| - 1])
      ensures forall n :: n in aggregates ==>
          (n in old(aggregates) && aggregates[n] == old(aggregates)[n]) || fresh(aggregates[n])
    {
      hide Updated, Folds, Valid;
      var ev := events[|events| - 1];
      for i := 0 to |aggs|
        invariant Valid() && Folds() == UpdatedAll(aggs[..i], old(Folds()), ev)
        invariant forall n :: n in aggregates ==>
            (n in old(aggregates) && aggregates[n] == old(aggregates)[n]) || fresh(aggregates[n])
      {
        UpdateOne(aggs[i], ev);
        assert aggs[..i + 1][..i] == aggs[..i];
      }
      assert aggs[..|aggs|] == aggs;
    }

    method Add(aggs: seq<Aggregation>, ev: Event)
      requires Valid()
      modifies this`events, this`aggregates, aggregates.Values
      ensures Valid()
      ensures Value() == Window(startTime, endTime, old(events) + [ev], UpdatedAll(aggs, old(Folds()), ev))
      ensures forall n :: n in aggregates ==>
          (n in old(aggregates) && aggregates[n] == old(aggregates)[n]) || fresh(aggregates[n])
    {
      events := events + [ev];
      assert Folds() == old(Folds());
      UpdateAggregations(aggs);
    }
  }

  /** The event that emitting the window of `key` produces. */
  function EmittedEvent(cfg: Config, s: State, key: string, now: int): Option<Event> {
    if key in s.windows then Some(WindowResults.ResultEvent(cfg, Closed(key, s.windows[key], now, false))) else None
  }

  // The steps of `WindowSpec`, cut where the methods are cut.

  function Absorbed(cfg: Config, s: State, key: string, ev: Event): State
    requires key in s.windows
  {
    s.(windows := s.windows[key := Grown(cfg, s.windows[key], ev)])
  }

  function Queued(cfg: Config, s: State, key: string): State
    requires key in s.windows
  {
    s.(pending := if cfg.maxEvents > 0 && |s.windows[key].events| >= cfg.maxEvents
                  then s.pending + multiset{key} else s.pending)
  }

  function ClosedOut(s: State, c: Closed): State {
    s.(windows := s.windows - {c.key}, closed := s.closed + [c])
  }

  /** A late emit and a callback that finds its context alive both emit the key's present window. */
  lemma EmitSteps(cfg: Config, s: State, key: string, now: int)
    ensures var t := s.(pending := s.pending - multiset{key});
            && (key in s.pending ==> Step(cfg, s, EmitPending(key, now)) == Emitted(t, key, now))
            && EmittedEvent(cfg, t, key, now) == EmittedEvent(cfg, s, key, now)
    ensures var t := s.(callbacks := s.callbacks - multiset{key});
            && (key in s.callbacks ==> Step(cfg, s, Callback(key, true, now)) == t
                                       && Step(cfg, s, Callback(key, false, now)) == Emitted(t, key, now))
            && EmittedEvent(cfg, t, key, now) == EmittedEvent(cfg, s, key, now)
  {
    hide Emitted, WindowResults.ResultEvent;
  }

  /** The windows are closed out and their events built, in some order, except those of `keys`. */
  ghost predicate Built(cfg: Config, windows: map<string, Window>, now: int, keys: set<string>, order: seq<string>,
                        forced: seq<Closed>, results: seq<Event>) {
    && (forall i, j :: 0 <= i < j < |order| ==> order[i] != order[j])
    && (forall k :: k in order <==> k in windows && k !in keys)
    && forced == ForcedAll(order, windows, now)
    && |results| == |forced| == |order|
    && forall i :: 0 <= i < |results| ==> results[i] == WindowResults.ResultEvent(cfg, forced[i])
  }

  lemma NoneBuilt(cfg: Config, windows: map<string, Window>, now: int)
    ensures Built(cfg, windows, now, windows.Keys, [], [], [])
  {
  }

  lemma OneMoreBuilt(cfg: Config, windows: map<string, Window>, now: int, keys: set<string>, order: seq<string>,
                     forced: seq<Closed>, results: seq<Event>, key: string, e: Event)
    requires Built(cfg, windows, now, keys, order, forced, results) && key in keys && keys <= windows.Keys
    requires e == WindowResults.ResultEvent(cfg, Closed(key, windows[key], now, true))
    ensures var c := Closed(key, windows[key], now, true);
            Built(cfg, windows, now, keys - {key}, order + [key], forced + [c], results + [e])
  {
    hide WindowResults.ResultEvent;
    assert (order + [key])[..|order|] == order;
  }

  lemma AllBuilt(cfg: Config, windows: map<string, Window>, now: int, order: seq<string>, forced: seq<Closed>,
                 results: seq<Event>)
    requires Built(cfg, windows, now, {}, order, forced, results)
    ensures IsOrderOf(order, windows) && forced == ForcedAll(order, windows, now)
    ensures |results| == |forced| == |order|
    ensures forall i :: 0 <= i < |results| ==> results[i] == WindowResults.ResultEvent(cfg, forced[i])
  {
    hide WindowResults.ResultEvent;
  }

  lemma Reschedule(s: State, key: string)
    ensures var t := Unscheduled(s, key);
            Scheduled(s, key) == t.(entries := t.entries[key := t.nextTimer], armed := t.armed[t.nextTimer := key],
                                    nextTimer := t.nextTimer + 1)
  {
  }

  lemma StepsCompose(cfg: Config, s: State, key: string, ev: Event, now: int)
    ensures key in Opened(cfg, s, key, now).windows
    ensures key in s.windows ==>
        Emitted(s, key, now) == Unscheduled(ClosedOut(s, Closed(key, s.windows[key], now, false)), key)
    ensures Accepted(cfg, s, key, ev, now) == Queued(cfg, Absorbed(cfg, Opened(cfg, s, key, now), key, ev), key)
  {
    hide UpdatedAll;
  }

  datatype Reply = KeyMissing | KeyNotString | Kept | Full(key: string)

  class WindowTransform {
    const config: Config
    var windows: map<string, WindowState>
    var entries: map<string, nat>
    /** The runtime's timers: those that have neither fired nor been stopped, by handle. */
    var armed: map<nat, string>
    var nextTimer: nat
    /** Fired timers yet to run, Execute calls yet to emit, and what has been closed out. */
    ghost var callbacks: multiset<string>
    ghost var pending: multiset<string>
    ghost var closed: seq<Closed>
    ghost var Repr: set<object>

    ghost predicate Valid()
      reads this`windows, this`Repr, Repr
    {
      && this !in Repr
      && forall k :: k in windows ==>
        windows[k] in Repr && windows[k].aggregates.Values <= Repr && windows[k].key == k && windows[k].Valid()
    }

    ghost function Windows(): map<string, Window>
      requires Valid()
      reads this`windows, this`Repr, Repr
    {
      map k | k in windows :: windows[k].Value()
    }

    ghost function Abstract(): State
      requires Valid()
      reads this, Repr
    {
      State(Windows(), entries, armed, nextTimer, callbacks, pending, closed)
    }

    constructor (config: Config)
      ensures Valid() && fresh(Repr) && this.config == config && Abstract() == Start
    {
      this.config := config;
      windows, entries, armed, nextTimer := map[], map[], map[], 0;
      callbacks, pending, closed, Repr := multiset{}, multiset{}, [], {};
    }

    /** Cancels and forgets the timer of `key`, if there is one. */
    method Unschedule(key: string)
      requires Valid()
      modifies this`entries, this`armed
      ensures Valid() && Windows() == old(Windows()) && Abstract() == Unscheduled(old(Abstract()), key)
    {
      assert this !in Repr;
      hide Valid, Windows;
      if key in entries {
        armed := armed - {entries[key]};
        entries := entries - {key};
      }
    }

    method ScheduleWindowTimeout(key: string)
      requires Valid()
      modifies this`entries, this`armed, this`nextTimer
      ensures Valid() && Windows() == old(Windows()) && Abstract() == Scheduled(old(Abstract()), key)
    {
      assert this !in Repr;
      hide Valid, Windows, Scheduled, Unscheduled;
      Reschedule(Abstract(), key);
      Unschedule(key);
      armed := armed[nextTimer := key];
      entries := entries[key := nextTimer];
      nextTimer := nextTimer + 1;
    }

    /** A new empty window for `key`. */
    method Open(key: string, now: int)
      requires Valid() && key !in windows
      modifies this`windows, this`Repr
      ensures Valid() && fresh(Repr - old(Repr)) && windows.Keys == old(windows.Keys) + {key}
      ensures Windows() == old(Windows())[key := Window(now, now + config.maxDuration, [], map[])]
    {
      var w := new WindowState(now, now + config.maxDuration, key);
      Enter(key, w);
    }

    method Enter(key: string, w: WindowState)
      requires Valid() && key !in windows && w.key == key && w.Valid() && w.aggregates == map[]
      modifies this`windows, this`Repr
      ensures Valid() && Repr == old(Repr) + {w} && windows == old(windows)[key := w]
      ensures Windows() == old(Windows())[key := w.Value()]
    {
      hide WindowState.Valid, WindowState.Folds;
      ghost var was := Windows();
      windows := windows[key := w];
      Repr := Repr + {w};
      assert Valid();
      forall k | k in was ensures k in Windows() && Windows()[k] == was[k] {
        assert windows[k].Value() == old(windows[k].Value());
      }
      assert Windows() == was[key := w.Value()];
    }

    /** The state in which `key` has a window. */
    method WindowFor(key: string, now: int)
      requires Valid()
      modifies this`windows, this`Repr, this`entries, this`armed, this`nextTimer
      ensures Valid() && fresh(Repr - old(Repr)) && key in windows
      ensures Abstract() == Opened(config, old(Abstract()), key, now)
    {
      assert this !in Repr;
      hide Scheduled, Valid, Windows;
      Shows(key);
      if key in windows {
        return;
      }
      Open(key, now);
      if config.maxDuration > 0 {
        ScheduleWindowTimeout(key);
      }
    }

    lemma Shows(key: string)
      requires Valid()
      ensures key in Windows() <==> key in windows
      ensures this !in Repr
      ensures key in windows ==>
          Windows()[key] == windows[key].Value() && windows[key] in Repr && windows[key].aggregates.Values <= Repr
    {
      hide WindowState.Folds, WindowState.Valid;
    }

    lemma Separate(key: string, other: string)
      requires Valid() && key in windows && other in windows && key != other
      ensures windows[key] != windows[other] && windows[key].aggregates.Values !! windows[other].aggregates.Values
    {
    }

    /** Appends the event to the window of `key` and updates its aggregates. */
    method Absorb(key: string, ev: Event)
      requires Valid() && key in windows && key in Abstract().windows
      modifies this`Repr, windows[key], windows[key].aggregates.Values
      ensures Valid() && fresh(Repr - old(Repr)) && key in windows
      ensures Abstract() == Absorbed(config, old(Abstract()), key, ev)
    {
      hide *;
      AllShown();
      ghost var s, was := Abstract(), Windows();
      var state := windows[key];
      forall k | k in windows && k != key
          ensures windows[k] != state && windows[k].aggregates.Values !! state.aggregates.Values {
        Separate(key, k);
      }
      state.Add(config.aggs, ev);
      Repr := Repr + state.aggregates.Values;
      forall k | k in windows && k != key ensures windows[k].Value() == was[k] && windows[k].Valid() {
        assert windows[k].Value() == old(windows[k].Value());
      }
      OneShown(s, key, ev);
    }

    lemma OneShown(s: State, key: string, ev: Event)
      requires this !in Repr && key in windows && windows[key].Valid() && s.windows.Keys == windows.Keys
      requires forall k :: k in windows ==>
            windows[k] in Repr && windows[k].aggregates.Values <= Repr && windows[k].key == k
      requires forall k :: k in windows && k != key ==> windows[k].Value() == s.windows[k] && windows[k].Valid()
      requires var w := s.windows[key];
          windows[key].Value() == Window(w.start, w.end, w.events + [ev], UpdatedAll(config.aggs, w.aggregates, ev))
      requires s == State(s.windows, entries, armed, nextTimer, callbacks, pending, closed)
      ensures Valid() && Abstract() == Absorbed(config, s, key, ev)
    {
      hide WindowState.Folds, WindowState.Valid, UpdatedAll;
    }

    /** A full window is left for its caller to emit. */
    method Queue(key: string) returns (full: bool)
      requires Valid() && key in windows && key in Abstract().windows
      modifies this`pending
      ensures Valid() && pending == if full then old(pending) + multiset{key} else old(pending)
      ensures Abstract() == Queued(config, old(Abstract()), key)
    {
      Shows(key);
      hide Valid, Windows;
      full := config.maxEvents > 0 && |windows[key].events| >= config.maxEvents;
      pending := if full then pending + multiset{key} else pending;
    }

    /** The locked part of Execute. */
    method Accept(ev: Event, now: int) returns (r: Reply)
      requires Valid()
      modifies this, Repr
      ensures Valid() && fresh(Repr - old(Repr))
      ensures Abstract() == Step(config, old(Abstract()), Arrive(ev, now))
      ensures (r.KeyMissing? || r.KeyNotString?) <==> KeyOf(config, ev).None?
      ensures pending == if r.Full? then old(pending) + multiset{r.key} else old(pending)
      ensures r.Full? ==> KeyOf(config, ev) == Some(r.key)
    {
      var keyValue := GetField(ev, config.keyField);
      if keyValue.None? {
        return KeyMissing;
      }
      if !keyValue.value.Str? {
        return KeyNotString;
      }
      r := AcceptFor(keyValue.value.s, ev, now);
    }

    method AcceptFor(key: string, ev: Event, now: int) returns (r: Reply)
      requires Valid()
      modifies this, Repr
      ensures Valid() && fresh(Repr - old(Repr)) && (r == Kept || r == Full(key))
      ensures Abstract() == Accepted(config, old(Abstract()), key, ev, now)
      ensures pending == if r.Full? then old(pending) + multiset{key} else old(pending)
    {
      hide WindowState.Folds, WindowState.Valid, Opened, Accepted, Absorbed, Queued;
      StepsCompose(config, Abstract(), key, ev, now);
      WindowFor(key, now);
      Shows(key);
      hide Valid, Windows, Abstract;
      Absorb(key, ev);
      var full := Queue(key);
      r := if full then Full(key) else Kept;
    }

    /** The value an aggregation shows in a result. */
    method Presentation(agg: Aggregation, state: WindowState, forced: bool) returns (v: Option<Value>)
      ensures v == WindowResults.Shown(agg, state.Folds(), forced)
    {
      if agg.name !in state.aggregates || state.aggregates[agg.name].count == 0 {
        return None;
      }
      var a := state.aggregates[agg.name];
      assert state.Folds()[agg.name] == a.Value();
      match agg.function_
      case Count => v := Some(Num(Int, a.count as real));
      case Sum => v := Some(Num(Float64, a.sum));
      case Avg => v := Some(Num(Float64, a.sum / (a.count as real)));
      case Min => v := Some(WindowResults.PointerValue(a.min, forced));
      case Max => v := Some(WindowResults.PointerValue(a.max, forced));
    }

    /** Builds the result event of a window. */
    method BuildResult(key: string, state: WindowState, now: int, forced: bool) returns (e: Event)
      ensures e == WindowResults.ResultEvent(config, Closed(key, state.Value(), now, forced))
    {
      hide SetField, WindowResults.Shown, WindowState.Folds;
      ghost var c := Closed(key, state.Value(), now, forced);
      ghost var values := WindowResults.ShownAll(config.aggs, c.window.aggregates, forced);
      e := Event(Some(map[]), Metadata("", 0, 0, None), now, None);
      e := SetField(e, WindowKey, Str(key));
      e := SetField(e, WindowStart, Time(state.startTime));
      e := SetField(e, WindowEnd, Time(state.endTime));
      e := SetField(e, EventCount, Num(Int, |state.events| as real));
      for i := 0 to |config.aggs|
        invariant e == WithAggregates(WindowResults.ResultBase(c), config.aggs[..i], values[..i])
      {
        var agg := config.aggs[i];
        assert config.aggs[..i + 1][..i] == config.aggs[..i] && values[..i + 1][..i] == values[..i];
        var v := Presentation(agg, state, forced);
        if v.Some? {
          e := SetField(e, agg.name, v.value);
        }
      }
      assert config.aggs[..|config.aggs|] == config.aggs && values[..|values|] == values;
    }

    /** Takes the window of `key` out of the map and puts it on record. */
    method CloseOut(key: string, ghost c: Closed)
      requires Valid() && key in windows && c.key == key
      modifies this`windows, this`closed
      ensures Valid() && Abstract() == ClosedOut(old(Abstract()), c)
    {
      hide WindowState.Folds, WindowState.Valid;
      windows := windows - {key};
      assert Windows() == old(Windows()) - {key};
      closed := closed + [c];
    }

    /** The locked part of emitWindowResults; what it returns is handed to the emit function after unlocking. */
    method EmitWindowResults(key: string, now: int) returns (r: Option<Event>)
      requires Valid()
      modifies this`windows, this`closed, this`entries, this`armed
      ensures Valid() && Abstract() == Emitted(old(Abstract()), key, now)
      ensures r == EmittedEvent(config, old(Abstract()), key, now)
    {
      Shows(key);
      if key !in windows {
        return None;
      }
      r := EmitOpen(key, now, Closed(key, windows[key].Value(), now, false));
    }

    method EmitOpen(key: string, now: int, ghost c: Closed) returns (r: Option<Event>)
      requires Valid() && key in windows && key in Abstract().windows
      requires c == Closed(key, Abstract().windows[key], now, false)
      requires windows[key].Value() == c.window
      modifies this`windows, this`closed, this`entries, this`armed
      ensures Valid() && Abstract() == Emitted(old(Abstract()), key, now)
      ensures r == Some(WindowResults.ResultEvent(config, c))
    {
      hide *;
      var e := BuildResult(key, windows[key], now, false);
      Release(key, c);
      r := Some(e);
    }

    /** The window of `key` and its timer go. */
    method Release(key: string, ghost c: Closed)
      requires Valid() && key in windows && key in Abstract().windows
      requires c == Closed(key, Abstract().windows[key], c.at, false)
      modifies this`windows, this`closed, this`entries, this`armed
      ensures Valid() && Abstract() == Emitted(old(Abstract()), key, c.at)
    {
      hide Unscheduled, Emitted, ClosedOut, WindowState.Folds, WindowState.Valid, Valid, Windows, Abstract;
      StepsCompose(config, Abstract(), key, Event(None, Metadata("", 0, 0, None), 0, None), c.at);
      CloseOut(key, c);
      Unschedule(key);
    }

    /** An Execute call that has filled a window and left the lock goes on to emit. */
    method EmitFull(key: string, now: int) returns (r: Option<Event>)
      requires Valid() && key in pending
      modifies this`windows, this`closed, this`entries, this`armed, this`pending
      ensures Valid() && Repr == old(Repr)
      ensures Abstract() == Step(config, old(Abstract()), EmitPending(key, now))
      ensures r == EmittedEvent(config, old(Abstract()), key, now)
    {
      hide *;
      AllShown();
      EmitSteps(config, Abstract(), key, now);
      pending := pending - multiset{key};
      AllShown();
      r := EmitWindowResults(key, now);
    }

    /** A timer callback that finds its context alive emits, otherwise it does nothing. */
    method RunCallback(key: string, cancelled: bool, now: int) returns (r: Option<Event>)
      requires Valid() && key in callbacks
      modifies this`windows, this`closed, this`entries, this`armed, this`callbacks
      ensures Valid() && Repr == old(Repr)
      ensures Abstract() == Step(config, old(Abstract()), Callback(key, cancelled, now))
      ensures r == if cancelled then None else EmittedEvent(config, old(Abstract()), key, now)
    {
      hide *;
      AllShown();
      EmitSteps(config, Abstract(), key, now);
      callbacks := callbacks - multiset{key};
      AllShown();
      if cancelled {
        return None;
      }
      r := EmitWindowResults(key, now);
    }

    /** Execute when nothing runs beside it. */
    method Execute(ev: Event, now: int) returns (r: Reply)
      requires Valid()
      modifies this, Repr
      ensures Valid() && fresh(Repr - old(Repr))
      ensures var s := Step(config, old(Abstract()), Arrive(ev, now));
              Abstract() == if r.Full? then Step(config, s, EmitPending(r.key, now)) else s
    {
      assert this !in Repr;
      hide Step, KeyOf, Valid, Windows;
      r := Accept(ev, now);
      if r.Full? {
        var _ := EmitFull(r.key, now);
      }
    }

    method StopAll()
      requires Valid()
      modifies this`entries, this`armed
      ensures Valid() && Abstract() == AllStopped(old(Abstract()))
      ensures Windows() == old(Windows())
    {
      assert this !in Repr;
      hide Valid, Windows;
      armed := armed - entries.Values;
      entries := map[];
    }

    /** Closes out every window in the order the map happens to yield its keys, and stops every timer. */
    method ForceEmitAllWindows(now: int) returns (results: seq<Event>, ghost order: seq<string>)
      requires Valid()
      modifies this
      ensures Valid() && Repr == old(Repr)
      ensures IsOrderOf(order, old(Windows()))
      ensures Abstract() == Step(config, old(Abstract()), ForceEmitAll(order, now))
      ensures |results| == |order| && |closed| == |old(closed)| + |order|
      ensures forall i :: 0 <= i < |results| ==>
          results[i] == WindowResults.ResultEvent(config, closed[|old(closed)| + i])
    {
      hide WindowState.Folds, WindowState.Valid, WindowResults.ResultEvent;
      ghost var forced;
      results, order, forced := BuildAll(now);
      windows := map[];
      closed := closed + forced;
      StopAll();
    }

    method BuildAll(now: int) returns (results: seq<Event>, ghost order: seq<string>, ghost forced: seq<Closed>)
      requires Valid()
      ensures IsOrderOf(order, Windows()) && forced == ForcedAll(order, Windows(), now)
      ensures |results| == |forced| == |order|
      ensures forall i :: 0 <= i < |results| ==> results[i] == WindowResults.ResultEvent(config, forced[i])
    {
      hide *;
      AllShown();
      ghost var shown := Windows();
      results, order, forced := [], [], [];
      NoneBuilt(config, shown, now);
      var keys := windows.Keys;
      while keys != {}
        invariant keys <= windows.Keys && Built(config, shown, now, keys, order, forced, results)
      {
        var key :| key in keys;
        var e := BuildResult(key, windows[key], now, true);
        ghost var c := Closed(key, windows[key].Value(), now, true);
        OneMoreBuilt(config, shown, now, keys, order, forced, results, key, e);
        results, order, forced := results + [e], order + [key], forced + [c];
        keys := keys - {key};
      }
      AllBuilt(config, shown, now, order, forced, results);
    }

    lemma AllShown()
      requires Valid()
      ensures this !in Repr && Windows().Keys == windows.Keys
      ensures forall k :: k in windows ==>
          windows[k] in Repr && windows[k].aggregates.Values <= Repr && windows[k].key == k && windows[k].Valid()
          && Windows()[k] == windows[k].Value()
              == Window(windows[k].startTime, windows[k].endTime, windows[k].events, windows[k].Folds())
      ensures Abstract() == State(Windows(), entries, armed, nextTimer, callbacks, pending, closed)
    {
      hide WindowState.Folds, WindowState.Valid;
    }

    /** Stop takes only the timer lock: windows stay, and fired callbacks still run. */
    method StopTimers()
      requires Valid()
      modifies this`entries, this`armed
      ensures Valid() && Abstract() == Step(config, old(Abstract()), Op.Stop)
    {
      StopAll();
    }
  }
}
