/** What the result events of both aggregations show, field by field, in terms of the window's events alone. */
module ResultLaws {
  import opened Text
  import opened Event
  import opened Aggregate
  import CountSpec
  import WindowSpec
  import WindowResults

  // ----- numbers and totals -----

  /** `aggregate.count` counts signed integers and floats as numbers, `aggregate.window` unsigned integers as well;
      neither counts anything else. */
  lemma WhatIsNumeric(v: Value, x: real)
    ensures CountNumeric(v) == Some(x) <==>
        v in {Num(Int, x), Num(Int32, x), Num(Int64, x), Num(Float32, x), Num(Float64, x)}
    ensures WindowNumeric(v) == Some(x) <==>
        v in {Num(Int, x), Num(Int32, x), Num(Int64, x), Num(Uint, x), Num(Uint32, x), Num(Uint64, x), Num(Float32, x),
              Num(Float64, x)}
  {
  }

  /** The numbers of a window are those of its events, in order. */
  lemma {:induction false} NumbersConcat(a: seq<Event>, b: seq<Event>, field: string, numeric: Value -> Option<real>)
    ensures Numbers(a + b, field, numeric) == Numbers(a, field, numeric) + Numbers(b, field, numeric)
    decreases |b|
  {
    if b == [] {
      assert a + b == a;
    } else {
      assert (a + b)[..|a + b| - 1] == a + b[..|b| - 1];
      NumbersConcat(a, b[..|b| - 1], field, numeric);
      hide NumberOf;
    }
  }

  lemma NumbersOfOne(e: Event, field: string, numeric: Value -> Option<real>)
    ensures Numbers([e], field, numeric) ==
      match GetField(e, field)
      case None => []
      case Some(v) => if numeric(v).Some? then [numeric(v).value] else []
  {
    assert [e][..0] == [];
  }

  lemma {:induction false} TotalConcat(a: seq<real>, b: seq<real>)
    ensures Total(a + b) == Total(a) + Total(b)
    decreases |b|
  {
    if b == [] {
      assert a + b == a;
    } else {
      assert (a + b)[..|a + b| - 1] == a + b[..|b| - 1];
      TotalConcat(a, b[..|b| - 1]);
    }
  }

  lemma TotalOfOne(x: real)
    ensures Total([x]) == x && Total([]) == 0.0
  {
    assert [x][..0] == [];
  }

  // ----- the fixed fields -----

  function CountResult(cfg: CountSpec.Config, k: string, events: seq<Event>): Event
    requires events != []
  {
    CountSpec.ResultEvent(cfg, CountSpec.BatchOutput(cfg, k, events))
  }

  /** A result of `aggregate.count` bears the last event's time, and shows the key, the first event's time and the
      number of events, each unless an aggregation's output name clashes with it. */
  lemma CountResultShows(cfg: CountSpec.Config, k: string, events: seq<Event>)
    requires events != []
    ensures var r := CountResult(cfg, k, events);
      && r.timestamp == events[|events| - 1].timestamp && r.headers == None
      && (ClearField(cfg.aggs, "window_key") ==> GetField(r, "window_key") == Some(Str(k)))
      && (ClearField(cfg.aggs, "window_start") ==> GetField(r, "window_start") == Some(Time(events[0].timestamp)))
      && (ClearField(cfg.aggs, "event_count") ==> GetField(r, "event_count") == Some(Num(Int, |events| as real)))
  {
    hide ClearField, GetField;
    var o := CountSpec.BatchOutput(cfg, k, events);
    CountSpec.ResultFields(cfg, o);
    AggregatesKeepEnvelope(CountSpec.ResultBase(o), cfg.aggs, CountSpec.PresentedAll(cfg.aggs, o.folds));
  }

  lemma {:induction false} AggregatesKeepEnvelope(e: Event, aggs: seq<Aggregation>, values: seq<Option<Value>>)
    requires |aggs| == |values|
    ensures var r := WithAggregates(e, aggs, values);
            r.timestamp == e.timestamp && r.headers == e.headers && r.metadata == e.metadata
  {
    if aggs != [] { AggregatesKeepEnvelope(e, aggs[..|aggs| - 1], values[..|aggs| - 1]); }
  }

  /** A result of `aggregate.window` bears the instant it was emitted at, and shows the key, the window's span and its
      number of events. */
  lemma WindowResultShows(cfg: WindowSpec.Config, c: WindowSpec.Closed)
    ensures var r := WindowResults.ResultEvent(cfg, c);
      && r.timestamp == c.at && r.headers == None
      && (ClearField(cfg.aggs, "window_key") ==> GetField(r, "window_key") == Some(Str(c.key)))
      && (ClearField(cfg.aggs, "window_start") ==> GetField(r, "window_start") == Some(Time(c.window.start)))
      && (ClearField(cfg.aggs, "window_end") ==> GetField(r, "window_end") == Some(Time(c.window.end)))
      && (ClearField(cfg.aggs, "event_count") ==>
          GetField(r, "event_count") == Some(Num(Int, |c.window.events| as real)))
  {
    hide ClearField, GetField;
    WindowResults.ResultFields(cfg, c);
    AggregatesKeepEnvelope(WindowResults.ResultBase(c), cfg.aggs,
                           WindowResults.ShownAll(cfg.aggs, c.window.aggregates, c.forced));
  }

  // ----- the aggregates -----

  /** `m` is the least of the numbers, or the greatest. */
  predicate IsLeast(m: real, xs: seq<real>) { m in xs && forall i :: 0 <= i < |xs| ==> m <= xs[i] }

  predicate IsGreatest(m: real, xs: seq<real>) { m in xs && forall i :: 0 <= i < |xs| ==> xs[i] <= m }

  /** What `aggregate.count` shows under a clear name: sum, number, mean (zero for none), least or greatest of the
      numbers, the last two only if there are any. */
  lemma CountAggregateShows(cfg: CountSpec.Config, k: string, events: seq<Event>, i: nat)
    requires i < |cfg.aggs| && ClearName(cfg.aggs, i, ["window_key", "window_start", "event_count"]) && events != []
    ensures var agg, xs := cfg.aggs[i], Numbers(events, cfg.aggs[i].field, CountNumeric);
      var shown := GetField(CountResult(cfg, k, events), agg.name);
      match agg.function_
      case Sum => shown == Some(Num(Float64, Total(xs)))
      case Count => shown == Some(Num(Int, |xs| as real))
      case Avg => shown == Some(Num(Float64, if xs == [] then 0.0 else Total(xs) / (|xs| as real)))
      case Min => if xs == [] then shown == None else exists m :: IsLeast(m, xs) && shown == Some(Num(Float64, m))
      case Max => if xs == [] then shown == None else exists m :: IsGreatest(m, xs) && shown == Some(Num(Float64, m))
  {
    hide ClearName, GetField, CountResult, Numbers, Total, Least, Greatest;
    var agg, xs := cfg.aggs[i], Numbers(events, cfg.aggs[i].field, CountNumeric);
    CountSpec.ResultAggregates(cfg, k, events, i);
    assert CountResult(cfg, k, events) == CountSpec.ResultEvent(cfg, CountSpec.BatchOutput(cfg, k, events)) by {
      CountResultIs(cfg, k, events);
    }
    LeastIsLeast(xs);
    GreatestIsGreatest(xs);
    if xs != [] { assert IsLeast(Least(xs).value, xs) && IsGreatest(Greatest(xs).value, xs); }
  }

  lemma CountResultIs(cfg: CountSpec.Config, k: string, events: seq<Event>)
    requires events != []
    ensures CountResult(cfg, k, events) == CountSpec.ResultEvent(cfg, CountSpec.BatchOutput(cfg, k, events))
  {
  }

  /** What `aggregate.window` shows under a clear name: nothing without numbers; else the same, least and greatest as
      pointers unless the window was forced out. */
  lemma WindowAggregateShows(cfg: WindowSpec.Config, c: WindowSpec.Closed, i: nat)
    requires i < |cfg.aggs| && ClearName(cfg.aggs, i, ["window_key", "window_start", "window_end", "event_count"])
    requires WindowSpec.Sound(cfg, c.window)
    ensures var agg, xs := cfg.aggs[i], Numbers(c.window.events, cfg.aggs[i].field, WindowNumeric);
      var shown := GetField(WindowResults.ResultEvent(cfg, c), agg.name);
      if xs == [] then shown == None
      else
        match agg.function_
        case Sum => shown == Some(Num(Float64, Total(xs)))
        case Count => shown == Some(Num(Int, |xs| as real))
        case Avg => shown == Some(Num(Float64, Total(xs) / (|xs| as real)))
        case Min => exists m :: IsLeast(m, xs) && shown == Some(if c.forced then Num(Float64, m) else NumRef(m))
        case Max => exists m :: IsGreatest(m, xs) && shown == Some(if c.forced then Num(Float64, m) else NumRef(m))
  {
    hide ClearName, GetField, WindowResults.ResultEvent, WindowSpec.Sound, Numbers, Total, Least, Greatest;
    var agg, xs := cfg.aggs[i], Numbers(c.window.events, cfg.aggs[i].field, WindowNumeric);
    WindowResults.ResultAggregates(cfg, c, i);
    LeastIsLeast(xs);
    GreatestIsGreatest(xs);
    if xs != [] { assert IsLeast(Least(xs).value, xs) && IsGreatest(Greatest(xs).value, xs); }
  }
}
