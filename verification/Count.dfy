/** `aggregate.count` over its map of mutable window states, kept in step with `CountSpec`. */
module CountTransforms {
  import opened Text
  import opened Event
  import opened Aggregate
  import opened CountSpec

  class AggregateState {
    var sum: real
    var count: nat
    var min: Option<real>
    var max: Option<real>
    ghost const owner: object
    ghost const name: string

    constructor (ghost owner: object, ghost name: string)
      ensures this.owner == owner && this.name == name && Value() == Zero
    {
      this.owner, this.name := owner, name;
      sum, count, min, max := 0.0, 0, None, None;
    }

    /** The state after the first number. */
    constructor First(ghost owner: object, ghost name: string, x: real)
      ensures this.owner == owner && this.name == name && Value() == Running(x, 1, Some(x), Some(x))
    {
      this.owner, this.name := owner, name;
      sum, count, min, max := x, 1, Some(x), Some(x);
    }

    function Value(): Running
      reads this
    {
      Running(sum, count, min, max)
    }

    method Add(fn: Function, x: real)
      modifies this
      ensures Value() == Bump(fn, old(Value()), x)
    {
      match fn
      case Sum => sum, count := sum + x, count + 1;
      case Avg => sum, count := sum + x, count + 1;
      case Count => count := count + 1;
      case Min => if min.None? || x < min.value { min := Some(x); }
      case Max => if max.None? || x > max.value { max := Some(x); }
    }
  }

  class CountWindowState {
    var startTime: int
    var eventCount: nat
    var aggregates: map<string, AggregateState>
    var lastSeen: int
    ghost const key: string

    constructor (startTime: int, ghost key: string)
      ensures this.startTime == startTime && this.key == key && eventCount == 0 && aggregates == map[] && lastSeen == 0
    {
      this.startTime, this.key := startTime, key;
      eventCount, aggregates, lastSeen := 0, map[], 0;
    }

    /** Every aggregate object belongs to this window and to one name. */
    ghost predicate Valid()
      reads this
    {
      forall n :: n in aggregates ==> aggregates[n].owner == this && aggregates[n].name == n
    }

    /** Every aggregation has its state. */
    ghost predicate Covers(aggs: seq<Aggregation>)
      reads this
    {
      forall i :: 0 <= i < |aggs| ==> aggs[i].name in aggregates
    }

    ghost function Folds(): Fold
      reads this, aggregates.Values
    {
      map n | n in aggregates :: aggregates[n].Value()
    }

    ghost function Value(): Window
      reads this, aggregates.Values
    {
      Window(startTime, eventCount, Folds(), lastSeen)
    }

    /** Gives every aggregation a zero state. */
    method Initialize(aggs: seq<Aggregation>)
      requires aggregates == map[]
      modifies this`aggregates
      ensures Valid() && Folds() == FreshFold(aggs) && forall n :: n in aggregates ==> fresh(aggregates[n])
    {
      for i := 0 to |aggs|
        invariant Valid() && forall n :: n in aggregates ==> fresh(aggregates[n])
        invariant Folds() == FreshFold(aggs[..i])
      {
        var a := new AggregateState(this, aggs[i].name);
        aggregates := aggregates[aggs[i].name := a];
        assert Folds() == FreshFold(aggs[..i])[aggs[i].name := Zero];
        FreshFoldGrows(aggs, i);
      }
      assert aggs[..|aggs|] == aggs;
    }

    /** One step of the aggregation loop. */
    method UpdateOne(agg: Aggregation, ev: Event)
      requires Valid() && agg.name in aggregates
      modifies aggregates.Values
      ensures Folds() == Updated(agg, old(Folds()), ev)
    {
      var v := GetField(ev, agg.field);
      if v.None? {
        return;
      }
      var x := CountNumeric(v.value);
      if x.None? {
        return;
      }
      aggregates[agg.name].Add(agg.function_, x.value);
    }

    /** One more event, seen at `now`. */
    method CountEvent(aggs: seq<Aggregation>, ev: Event, now: int)
      requires Valid() && Covers(aggs)
      modifies this, aggregates.Values
      ensures aggregates == old(aggregates) && Covers(aggs)
      ensures Value() == Window(old(startTime), old(eventCount) + 1, UpdatedAll(aggs, old(Folds()), ev), now)
    {
      lastSeen := now;
      eventCount := eventCount + 1;
      assert Folds() == old(Folds());
      UpdateAggregationsIncremental(aggs, ev);
    }

    method UpdateAggregationsIncremental(aggs: seq<Aggregation>, ev: Event)
      requires Valid() && Covers(aggs)
      modifies aggregates.Values
      ensures Folds() == UpdatedAll(aggs, old(Folds()), ev)
    {
      hide Updated;
      for i := 0 to |aggs|
        invariant Folds() == UpdatedAll(aggs[..i], old(Folds()), ev)
      {
        UpdateOne(aggs[i], ev);
        assert aggs[..i + 1][..i] == aggs[..i];
      }
      assert aggs[..|aggs|] == aggs;
    }
  }

  lemma FreshFoldGrows(aggs: seq<Aggregation>, i: nat)
    requires i < |aggs|
    ensures FreshFold(aggs[..i + 1]) == FreshFold(aggs[..i])[aggs[i].name := Zero]
  {
    assert aggs[..i + 1][..i] == aggs[..i];
    forall n | n in FreshFold(aggs[..i]) ensures n in FreshFold(aggs[..i + 1]) {
      var j :| 0 <= j < i && aggs[..i][j].name == n;
      assert aggs[..i + 1][j].name == n;
    }
    assert aggs[..i + 1][i].name == aggs[i].name;
  }

  lemma FreshFoldHas(aggs: seq<Aggregation>, i: nat)
    requires i < |aggs|
    ensures aggs[i].name in FreshFold(aggs)
  {
  }

  lemma MissingStep(cfg: Config, s: State, ev: Event, now: int)
    requires GetField(ev, cfg.keyField) == None
    ensures KeyOf(cfg, ev) == None && Step(cfg, s, Arrive(ev, now)) == s
  {
  }

  /** The window of `key`, found or opened, one event on. */
  function Grown(cfg: Config, s: State, key: string, ev: Event, now: int): Window {
    var w := Opened(cfg, s.windows, key, ev);
    Window(w.start, w.count + 1, UpdatedAll(cfg.aggs, w.folds, ev), now)
  }

  lemma CountedIn(cfg: Config, s: State, key: string, ev: Event, now: int, w: Window)
    requires w == Opened(cfg, s.windows, key, ev)
    ensures var grown := Window(w.start, w.count + 1, UpdatedAll(cfg.aggs, w.folds, ev), now);
            grown == Grown(cfg, s, key, ev, now) && s.windows[key := w][key := grown] == s.windows[key := grown]
  {
    hide Opened, UpdatedAll;
  }

  lemma ArrivalStep(cfg: Config, s: State, key: string, ev: Event, now: int, w: Window)
    requires KeyOf(cfg, ev) == Some(key) && w == Grown(cfg, s, key, ev, now)
    ensures var windows, out := s.windows[key := w], Output(key, w.start, w.count, w.folds, ev.timestamp);
            Step(cfg, s, Arrive(ev, now))
            == if w.count >= cfg.count then State(windows - {key}, s.outputs + [out]) else State(windows, s.outputs)
  {
    hide Opened, UpdatedAll, KeyOf;
    assert s.windows[key := w] - {key} == s.windows - {key};
  }

  lemma AllNamesIn(aggs: seq<Aggregation>, w: CountWindowState)
    requires w.Folds() == FreshFold(aggs)
    ensures w.Covers(aggs)
  {
    forall i | 0 <= i < |aggs| ensures aggs[i].name in w.aggregates {
      FreshFoldHas(aggs, i);
      assert aggs[i].name in w.Folds();
    }
  }

  datatype Reply = KeyMissing | Absorbed | Result(e: Event)

  class CountTransform {
    const config: Config
    var windows: map<string, CountWindowState>
    /** What has been emitted so far, oldest first. */
    ghost var outputs: seq<Output>
    ghost var Repr: set<object>

    ghost predicate Valid()
      reads this, Repr
    {
      && this in Repr
      && forall k :: k in windows ==>
        && windows[k] in Repr && windows[k].aggregates.Values <= Repr
        && windows[k].key == k && windows[k].Valid()
        && windows[k].Covers(config.aggs)
    }

    ghost function Abstract(): State
      requires Valid()
      reads this, Repr
    {
      State(map k | k in windows :: windows[k].Value(), outputs)
    }

    constructor (config: Config)
      ensures Valid() && fresh(Repr) && this.config == config && Abstract() == Run(config, [])
    {
      this.config := config;
      windows, outputs, Repr := map[], [], {this};
    }

    /** The window of `key`, opened when there is none. */
    method WindowFor(key: string, ev: Event) returns (w: CountWindowState)
      requires Valid()
      modifies this
      ensures Valid() && fresh(Repr - old(Repr)) && key in windows && w == windows[key]
      ensures var s := old(Abstract());
          Abstract() == s.(windows := s.windows[key := Opened(config, s.windows, key, ev)])
      ensures key in old(windows) ==> w == old(windows)[key]
      ensures key !in old(windows) ==> fresh(w) && fresh(w.aggregates.Values)
      ensures outputs == old(outputs)
    {
      if key in windows {
        w := windows[key];
        assert Abstract() == Abstract().(windows := Abstract().windows[key := w.Value()]);
        return;
      }
      w := new CountWindowState(ev.timestamp, key);
      w.Initialize(config.aggs);
      Open(key, w, ev.timestamp);
    }

    method Open(key: string, w: CountWindowState, start: int)
      requires Valid() && key !in windows && w.key == key && w.Valid()
      requires w.Value() == Window(start, 0, FreshFold(config.aggs), 0)
      modifies this
      ensures Valid() && Repr == old(Repr) + {w} + w.aggregates.Values && windows == old(windows)[key := w]
      ensures Abstract()
          == old(Abstract()).(windows := old(Abstract()).windows[key := Window(start, 0, FreshFold(config.aggs), 0)])
      ensures outputs == old(outputs)
    {
      AllNamesIn(config.aggs, w);
      Enter(key, w);
    }

    method Enter(key: string, w: CountWindowState)
      requires Valid() && key !in windows && w.key == key && w.Valid() && w.Covers(config.aggs)
      modifies this
      ensures Valid() && Repr == old(Repr) + {w} + w.aggregates.Values && windows == old(windows)[key := w]
      ensures Abstract() == old(Abstract()).(windows := old(Abstract()).windows[key := w.Value()])
      ensures outputs == old(outputs)
    {
      hide FreshFold, CountWindowState.Folds, CountWindowState.Valid, CountWindowState.Covers;
      windows := windows[key := w];
      Repr := Repr + {w} + w.aggregates.Values;
      ghost var was, now := old(Abstract()).windows, Abstract().windows;
      forall k | k in was ensures k in now && now[k] == was[k] {
        assert windows[k].Value() == old(windows[k].Value());
      }
      assert now == was[key := w.Value()];
    }

    /** The full window leaves the map and its result is on record. */
    method Close(key: string, ghost out: Output)
      requires Valid() && key in windows
      modifies this
      ensures Valid() && Repr == old(Repr) && outputs == old(outputs) + [out]
      ensures Abstract() == State(old(Abstract()).windows - {key}, old(outputs) + [out])
    {
      windows := windows - {key};
      outputs := outputs + [out];
    }

    lemma Separate(key: string, other: string)
      requires Valid() && key in windows && other in windows && key != other
      ensures windows[key] != windows[other] && windows[key].aggregates.Values !! windows[other].aggregates.Values
    {
    }

    method Execute(ev: Event, now: int) returns (r: Reply)
      requires Valid()
      modifies Repr
      ensures Valid() && fresh(Repr - old(Repr))
      ensures Abstract() == Step(config, old(Abstract()), Arrive(ev, now))
      ensures r.KeyMissing? <==> KeyOf(config, ev).None?
      ensures if r.Result?
          then outputs != [] && outputs[..|outputs| - 1] == old(outputs)
              && r.e == ResultEvent(config, outputs[|outputs| - 1])
              else outputs == old(outputs)
    {
      var keyValue := GetField(ev, config.keyField);
      if keyValue.None? {
        MissingStep(config, Abstract(), ev, now);
        return KeyMissing;
      }
      r := ExecuteFor(config.format(keyValue.value), ev, now);
    }

    method ExecuteFor(key: string, ev: Event, now: int) returns (r: Reply)
      requires Valid() && KeyOf(config, ev) == Some(key)
      modifies Repr
      ensures Valid() && fresh(Repr - old(Repr)) && !r.KeyMissing?
      ensures Abstract() == Step(config, old(Abstract()), Arrive(ev, now))
      ensures if r.Result?
          then outputs != [] && outputs[..|outputs| - 1] == old(outputs)
              && r.e == ResultEvent(config, outputs[|outputs| - 1])
              else outputs == old(outputs)
    {
      hide Opened, UpdatedAll, ResultEvent, KeyOf, Step, CountWindowState.Folds;
      ghost var s := Abstract();
      assert s.outputs == outputs;
      var state := CountIn(key, ev, now);
      ArrivalStep(config, s, key, ev, now, state.Value());
      hide Valid, CountWindowState.Valid, Abstract;
      if state.eventCount < config.count {
        return Absorbed;
      }
      ghost var out := Output(key, state.startTime, state.eventCount, state.Folds(), ev.timestamp);
      var e := BuildResult(key, state, ev);
      Close(key, out);
      r := Reply.Result(e);
    }

    /** Finds or opens the window of `key` and counts the event into it. */
    method CountIn(key: string, ev: Event, now: int) returns (state: CountWindowState)
      requires Valid()
      modifies Repr
      ensures Valid() && fresh(Repr - old(Repr)) && key in windows && state == windows[key] && outputs == old(outputs)
      ensures state.Value() == Grown(config, old(Abstract()), key, ev, now)
      ensures Abstract()
          == old(Abstract()).(windows := old(Abstract()).windows[key := Grown(config, old(Abstract()), key, ev, now)])
    {
      hide *;
      OwnsItself();
      ghost var s := Abstract();
      state := WindowFor(key, ev);
      Owned(key);
      ghost var w := state.Value();
      Absorb(key, state, ev, now);
      CountedIn(config, s, key, ev, now, w);
    }

    lemma OwnsItself()
      requires Valid()
      ensures this in Repr
    {
    }

    lemma Owned(key: string)
      requires Valid() && key in windows
      ensures windows[key] in Repr && windows[key].aggregates.Values <= Repr
      ensures key in Abstract().windows && Abstract().windows[key] == windows[key].Value()
    {
    }

    /** Counts the event into its window. */
    method Absorb(key: string, state: CountWindowState, ev: Event, now: int)
      requires Valid() && key in windows && windows[key] == state
      modifies state, state.aggregates.Values
      ensures Valid() && state.aggregates == old(state.aggregates)
      ensures state.Value()
          == (var w := old(state.Value()); Window(w.start, w.count + 1, UpdatedAll(config.aggs, w.folds, ev), now))
      ensures Abstract() == old(Abstract()).(windows := old(Abstract()).windows[key := state.Value()])
    {
      hide UpdatedAll, CountWindowState.Folds, CountWindowState.Covers;
      forall k | k in windows && k != key
          ensures windows[k] != state && windows[k].aggregates.Values !! state.aggregates.Values {
        Separate(key, k);
      }
      state.CountEvent(config.aggs, ev, now);
      forall k | k in windows && k != key ensures windows[k].Value() == old(windows[k].Value()) {
      }
    }

    /** The value an aggregation shows in a result, none for the nil interface. */
    method Presentation(fn: Function, a: AggregateState) returns (v: Option<Value>)
      ensures v == Presented(fn, a.Value())
    {
      match fn
      case Sum => v := Some(Num(Float64, a.sum));
      case Count => v := Some(Num(Int, a.count as real));
      case Avg => v := Some(Num(Float64, if a.count > 0 then a.sum / (a.count as real) else 0.0));
      case Min => if a.min.Some? { v := Some(Num(Float64, a.min.value)); } else { v := None; }
      case Max => if a.max.Some? { v := Some(Num(Float64, a.max.value)); } else { v := None; }
    }

    /** Builds the result event of a full window. */
    method BuildResult(key: string, state: CountWindowState, ev: Event) returns (e: Event)
      ensures e == ResultEvent(config, Output(key, state.startTime, state.eventCount, state.Folds(), ev.timestamp))
    {
      hide SetField, Presented;
      ghost var o := Output(key, state.startTime, state.eventCount, state.Folds(), ev.timestamp);
      ghost var values := PresentedAll(config.aggs, o.folds);
      e := Event(Some(map[]), Metadata("", 0, 0, None), ev.timestamp, None);
      e := SetField(e, WindowKey, Str(key));
      e := SetField(e, WindowStart, Time(state.startTime));
      e := SetField(e, EventCount, Num(Int, state.eventCount as real));
      for i := 0 to |config.aggs|
        invariant e == WithAggregates(ResultBase(o), config.aggs[..i], values[..i])
      {
        var agg := config.aggs[i];
        assert config.aggs[..i + 1][..i] == config.aggs[..i] && values[..i + 1][..i] == values[..i];
        if agg.name in state.aggregates {
          var v := Presentation(agg.function_, state.aggregates[agg.name]);
          if v.Some? {
            e := SetField(e, agg.name, v.value);
          }
        }
      }
      assert config.aggs[..|config.aggs|] == config.aggs && values[..|values|] == values;
    }

    /** One turn of the eviction loop: windows idle for longer than the timeout are dropped. */
    method EvictIdle(now: int)
      requires Valid()
      modifies this
      ensures Valid() && Repr == old(Repr)
      ensures Abstract() == Step(config, old(Abstract()), Sweep(now))
    {
      hide CountWindowState.Valid, CountWindowState.Folds, CountWindowState.Covers;
      var keys := windows.Keys;
      while keys != {}
        invariant Valid() && Repr == old(Repr) && outputs == old(outputs)
        invariant keys <= old(windows).Keys
        invariant forall k :: k in windows <==>
            k in old(windows) && (k in keys || now - old(windows)[k].lastSeen <= config.idleTimeout)
        invariant forall k :: k in windows ==> windows[k] == old(windows)[k]
      {
        var key :| key in keys;
        if now - windows[key].lastSeen > config.idleTimeout {
          windows := windows - {key};
        }
        keys := keys - {key};
      }
    }
  }
}
