/** What `aggregate.window` emits: the meaning of its running aggregates, sequential runs, two interleavings
    that break the event limit, and the agreement with `aggregate.count`. */
module WindowResults {
  import opened Text
  import opened Event
  import opened Aggregate
  import opened WindowSpec
  import Arithmetic
  import CountSpec

  // ----- what the running aggregates mean -----

  function RunningOf(fn: Function, xs: seq<real>): Running
    requires xs != []
  {
    var x := xs[0];
    match fn
    case Count => Running(x, |xs|, Some(x), Some(x))
    case Sum => Running(Total(xs), |xs|, Some(x), Some(x))
    case Avg => Running(Total(xs), |xs|, Some(x), Some(x))
    case Min => Running(x, |xs|, Least(xs), Some(x))
    case Max => Running(x, |xs|, Some(x), Greatest(xs))
  }

  lemma FirstIsBatch(fn: Function, x: real)
    ensures First(x) == RunningOf(fn, [x])
  {
    assert [x][..0] == [] && Total([]) == 0.0 && Least([]) == None && Greatest([]) == None;
    assert Total([x]) == Total([x][..0]) + x;
    assert Least([x]) == Some(x) && Greatest([x]) == Some(x);
  }

  lemma BumpIsBatch(fn: Function, xs: seq<real>, x: real)
    requires xs != []
    ensures Bump(fn, RunningOf(fn, xs), x) == RunningOf(fn, xs + [x])
  {
    assert (xs + [x])[..|xs|] == xs;
  }

  /** No other aggregation that reads a field shares the output name, and with it the running state. */
  ghost predicate NumbersAlone(aggs: seq<Aggregation>, i: nat)
    requires i < |aggs|
  {
    forall j :: 0 <= j < |aggs| && j != i && aggs[j].name == aggs[i].name ==> aggs[j].field == ""
  }

  lemma {:induction false} OthersKept(aggs: seq<Aggregation>, f: Fold, e: Event, name: string)
    requires forall i :: 0 <= i < |aggs| && aggs[i].name == name ==> aggs[i].field == ""
    ensures (name in UpdatedAll(aggs, f, e) <==> name in f) && (name in f ==> UpdatedAll(aggs, f, e)[name] == f[name])
  {
    if aggs != [] { OthersKept(aggs[..|aggs| - 1], f, e, name); }
  }

  /** Two folds agree on a name. */
  predicate SameAt(f: Fold, g: Fold, name: string) {
    (name in f <==> name in g) && (name in f ==> f[name] == g[name])
  }

  lemma {:induction false} OneUpdated(aggs: seq<Aggregation>, f: Fold, e: Event, i: nat)
    requires i < |aggs| && NumbersAlone(aggs, i)
    ensures SameAt(UpdatedAll(aggs, f, e), Updated(aggs[i], f, e), aggs[i].name)
  {
    var n := |aggs| - 1;
    if i == n {
      OthersKept(aggs[..n], f, e, aggs[n].name);
    } else {
      OneUpdated(aggs[..n], f, e, i);
    }
  }

  /** A running aggregate is there exactly when the window holds numbers for it, and is their batch aggregate. */
  predicate MeansBatch(f: Fold, agg: Aggregation, xs: seq<real>) {
    if xs == [] then agg.name !in f else agg.name in f && f[agg.name] == RunningOf(agg.function_, xs)
  }

  lemma UpdatedMeansBatch(f: Fold, agg: Aggregation, e: Event, xs: seq<real>)
    requires MeansBatch(f, agg, xs)
    ensures MeansBatch(Updated(agg, f, e), agg, xs + NumberOf(e, agg.field, WindowNumeric))
  {
    hide GetField, RunningOf, Bump, First, WindowNumeric;
    var more := NumberOf(e, agg.field, WindowNumeric);
    if more == [] {
      assert xs + more == xs;
    } else if xs == [] {
      assert xs + more == [more[0]];
      FirstIsBatch(agg.function_, more[0]);
    } else {
      BumpIsBatch(agg.function_, xs, more[0]);
    }
  }

  lemma {:induction false} FoldMeansBatch(aggs: seq<Aggregation>, events: seq<Event>, i: nat)
    requires i < |aggs| && NumbersAlone(aggs, i)
    ensures MeansBatch(FoldAll(aggs, events), aggs[i], Numbers(events, aggs[i].field, WindowNumeric))
  {
    if events != [] {
      var init, e := events[..|events| - 1], events[|events| - 1];
      FoldMeansBatch(aggs, init, i);
      OneUpdated(aggs, FoldAll(aggs, init), e, i);
      UpdatedMeansBatch(FoldAll(aggs, init), aggs[i], e, Numbers(init, aggs[i].field, WindowNumeric));
      hide UpdatedAll, Updated, RunningOf, NumbersAlone;
    }
  }

  // ----- the emitted event -----

  /** A normal emit stores the min and max pointers themselves, a forced one what they point to. */
  function PointerValue(p: Option<real>, forced: bool): Value {
    match p case None => Nil case Some(x) => if forced then Num(Float64, x) else NumRef(x)
  }

  function Shown(agg: Aggregation, f: Fold, forced: bool): Option<Value> {
    if agg.name in f && f[agg.name].count > 0 then
      var r := f[agg.name];
      match agg.function_
      case Count => Some(Num(Int, r.count as real))
      case Sum => Some(Num(Float64, r.sum))
      case Avg => Some(Num(Float64, r.sum / (r.count as real)))
      case Min => Some(PointerValue(r.min, forced))
      case Max => Some(PointerValue(r.max, forced))
    else None
  }

  function ShownAll(aggs: seq<Aggregation>, f: Fold, forced: bool): (r: seq<Option<Value>>)
    ensures |r| == |aggs|
  {
    seq(|aggs|, i requires 0 <= i < |aggs| => Shown(aggs[i], f, forced))
  }

  function ResultBase(c: Closed): Event {
    var empty := Event(Some(map[]), Metadata("", 0, 0, None), c.at, None);
    SetField(SetField(SetField(SetField(empty, WindowKey, Str(c.key)), WindowStart, Time(c.window.start)),
                      WindowEnd, Time(c.window.end)), EventCount, Num(Int, |c.window.events| as real))
  }

  function ResultEvent(cfg: Config, c: Closed): Event {
    WithAggregates(ResultBase(c), cfg.aggs, ShownAll(cfg.aggs, c.window.aggregates, c.forced))
  }

  /** The batch value of a window's numbers as this transform shows it: nothing when there are none. */
  function WindowValue(fn: Function, xs: seq<real>, forced: bool): Option<Value> {
    if xs == [] then None
    else match BatchValue(fn, xs)
         case Some(Num(kind, x)) => Some(if (fn == Min || fn == Max) && !forced then NumRef(x) else Num(kind, x))
         case other => other
  }

  lemma ShownIsBatch(agg: Aggregation, f: Fold, xs: seq<real>, forced: bool)
    requires MeansBatch(f, agg, xs)
    ensures Shown(agg, f, forced) == WindowValue(agg.function_, xs, forced)
  {
    LeastIsLeast(xs);
    GreatestIsGreatest(xs);
    hide Total, Least, Greatest;
  }

  lemma FixedFieldsApart(i: nat, j: nat)
    requires i < 4 && j < 4 && i != j
    ensures Apart(PathOf(FixedField(i)), PathOf(FixedField(j)))
  {
    assert WindowKey[7] == 'k' && WindowStart[7] == 's' && WindowEnd[7] == 'e' && EventCount[0] == 'e'
        && WindowKey[0] == 'w';
    assert WindowStart[0] == 'w' && WindowEnd[0] == 'w';
    CountSpec.NamesWithoutDotsApart(FixedField(i), FixedField(j));
    hide Apart, PathOf;
  }

  function FixedField(i: nat): (s: string)
    requires i < 4
    ensures '.' !in s
  {
    if i == 0 then WindowKey else if i == 1 then WindowStart else if i == 2 then WindowEnd else EventCount
  }

  lemma ResultBaseFields(c: Closed)
    ensures GetField(ResultBase(c), WindowKey) == Some(Str(c.key))
    ensures GetField(ResultBase(c), WindowStart) == Some(Time(c.window.start))
    ensures GetField(ResultBase(c), WindowEnd) == Some(Time(c.window.end))
    ensures GetField(ResultBase(c), EventCount) == Some(Num(Int, |c.window.events| as real))
  {
    var n := Num(Int, |c.window.events| as real);
    var empty := Event(Some(map[]), Metadata("", 0, 0, None), c.at, None);
    var one := SetField(empty, WindowKey, Str(c.key));
    var two := SetField(one, WindowStart, Time(c.window.start));
    var three := SetField(two, WindowEnd, Time(c.window.end));
    FixedFieldsApart(1, 0);
    FixedFieldsApart(2, 0);
    FixedFieldsApart(3, 0);
    FixedFieldsApart(2, 1);
    FixedFieldsApart(3, 1);
    FixedFieldsApart(3, 2);
    FieldLaws(empty, WindowKey, Str(c.key), WindowKey);
    FieldLaws(one, WindowStart, Time(c.window.start), WindowKey);
    FieldLaws(two, WindowEnd, Time(c.window.end), WindowKey);
    FieldLaws(two, WindowEnd, Time(c.window.end), WindowStart);
    FieldLaws(three, EventCount, n, WindowKey);
    FieldLaws(three, EventCount, n, WindowStart);
    FieldLaws(three, EventCount, n, WindowEnd);
    hide Apart, PathOf, GetField, SetField;
  }

  const WindowFields := [WindowKey, WindowStart, WindowEnd, EventCount]

  lemma AbsentInBase(aggs: seq<Aggregation>, c: Closed, i: nat)
    requires i < |aggs| && ClearName(aggs, i, WindowFields)
    ensures GetField(ResultBase(c), aggs[i].name) == None
  {
    var name := aggs[i].name;
    var empty := Event(Some(map[]), Metadata("", 0, 0, None), c.at, None);
    var one := SetField(empty, WindowKey, Str(c.key));
    var two := SetField(one, WindowStart, Time(c.window.start));
    var three := SetField(two, WindowEnd, Time(c.window.end));
    assert WindowFields[0] == WindowKey && WindowFields[1] == WindowStart && WindowFields[2] == WindowEnd;
    assert WindowFields[3] == EventCount;
    FieldLaws(empty, WindowKey, Str(c.key), name);
    FieldLaws(one, WindowStart, Time(c.window.start), name);
    FieldLaws(two, WindowEnd, Time(c.window.end), name);
    FieldLaws(three, EventCount, Num(Int, |c.window.events| as real), name);
    hide Apart, PathOf;
  }

  /** Key, span and size of the window stand in its result, each untouched by aggregates whose names stay clear
      of it. */
  lemma ResultFields(cfg: Config, c: Closed)
    ensures ClearField(cfg.aggs, WindowKey) ==> GetField(ResultEvent(cfg, c), WindowKey) == Some(Str(c.key))
    ensures ClearField(cfg.aggs, WindowStart) ==>
        GetField(ResultEvent(cfg, c), WindowStart) == Some(Time(c.window.start))
    ensures ClearField(cfg.aggs, WindowEnd) ==> GetField(ResultEvent(cfg, c), WindowEnd) == Some(Time(c.window.end))
    ensures ClearField(cfg.aggs, EventCount) ==>
        GetField(ResultEvent(cfg, c), EventCount) == Some(Num(Int, |c.window.events| as real))
  {
    ResultBaseFields(c);
    hide ClearField, GetField, ResultBase;
    forall path | ClearField(cfg.aggs, path)
      ensures GetField(ResultEvent(cfg, c), path) == GetField(ResultBase(c), path)
    {
      OthersUntouched(ResultBase(c), cfg.aggs, ShownAll(cfg.aggs, c.window.aggregates, c.forced), path);
    }
  }

  /** An aggregate of an emitted window with a clear name is the batch value over that window's events, whichever
      step closed it. */
  lemma ResultAggregates(cfg: Config, c: Closed, i: nat)
    requires i < |cfg.aggs| && ClearName(cfg.aggs, i, WindowFields) && Sound(cfg, c.window)
    ensures GetField(ResultEvent(cfg, c), cfg.aggs[i].name)
         == WindowValue(cfg.aggs[i].function_, Numbers(c.window.events, cfg.aggs[i].field, WindowNumeric), c.forced)
  {
    hide ClearName, GetField, FoldAll, Shown;
    hide WindowValue, Numbers, ResultBase, WithAggregates, MeansBatch;
    var agg := cfg.aggs[i];
    AbsentInBase(cfg.aggs, c, i);
    CountSpec.ClearNameIsAlone(cfg.aggs, i, WindowFields);
    FoldMeansBatch(cfg.aggs, c.window.events, i);
    AggregatesAnswer(ResultBase(c), cfg.aggs, ShownAll(cfg.aggs, c.window.aggregates, c.forced), i);
    ShownIsBatch(agg, c.window.aggregates, Numbers(c.window.events, agg.field, WindowNumeric), c.forced);
  }

  /** In every interleaving, every emitted event shows the batch values of the events its window holds. */
  lemma EveryResultIsBatch(cfg: Config, ops: seq<Op>, j: nat, i: nat)
    requires i < |cfg.aggs| && ClearName(cfg.aggs, i, WindowFields) && j < |Run(cfg, ops).closed|
    ensures var c := Run(cfg, ops).closed[j];
            GetField(ResultEvent(cfg, c), cfg.aggs[i].name) ==
            WindowValue(cfg.aggs[i].function_, Numbers(c.window.events, cfg.aggs[i].field, WindowNumeric), c.forced)
  {
    hide ClearName, Run, ResultEvent, Sound;
    WindowsAreSound(cfg, ops);
    ResultAggregates(cfg, Run(cfg, ops).closed[j], i);
  }

  // ----- sequential runs -----

  /** One whole call of Execute, and the instant at which it emits if it does. */
  datatype Call = Call(e: Event, now: int, emitted: int)

  function CallOps(cfg: Config, c: Call): seq<Op> {
    match KeyOf(cfg, c.e)
    case None => [Arrive(c.e, c.now)]
    case Some(k) => [Arrive(c.e, c.now), EmitPending(k, c.emitted)]
  }

  function Sequential(cfg: Config, calls: seq<Call>): seq<Op> {
    if calls == [] then [] else Sequential(cfg, calls[..|calls| - 1]) + CallOps(cfg, calls[|calls| - 1])
  }

  lemma RunOneMore(cfg: Config, ops: seq<Op>, op: Op)
    ensures Run(cfg, ops + [op]) == Step(cfg, Run(cfg, ops), op)
  {
    assert (ops + [op])[..|ops|] == ops;
  }

  lemma RunCall(cfg: Config, ops: seq<Op>, c: Call)
    ensures Run(cfg, ops + CallOps(cfg, c)) == match KeyOf(cfg, c.e)
      case None => Run(cfg, ops)
      case Some(k) => Step(cfg, Accepted(cfg, Run(cfg, ops), k, c.e, c.now), EmitPending(k, c.emitted))
  {
    hide Accepted, Emitted, KeyOf;
    RunOneMore(cfg, ops, Arrive(c.e, c.now));
    match KeyOf(cfg, c.e)
    case None =>
    case Some(k) =>
      RunOneMore(cfg, ops + [Arrive(c.e, c.now)], EmitPending(k, c.emitted));
      assert ops + CallOps(cfg, c) == (ops + [Arrive(c.e, c.now)]) + [EmitPending(k, c.emitted)];
  }

  ghost predicate Settled(cfg: Config, s: State) {
    && s.pending == multiset{}
    && (forall k :: k in s.windows ==> |s.windows[k].events| < cfg.maxEvents)
    && (forall i :: 0 <= i < |s.closed| ==> |s.closed[i].window.events| == cfg.maxEvents)
  }

  lemma CallSettles(cfg: Config, s: State, k: string, c: Call)
    requires cfg.maxEvents > 0 && Settled(cfg, s)
    ensures Settled(cfg, Step(cfg, Accepted(cfg, s, k, c.e, c.now), EmitPending(k, c.emitted)))
  {
    var t := Accepted(cfg, s, k, c.e, c.now);
    OpenedKeeps(cfg, s, k, c.now);
    AcceptedKeeps(cfg, s, k, c.e, c.now);
    EmittedKeeps(t.(pending := t.pending - multiset{k}), k, c.emitted);
    hide Accepted, Emitted, Opened;
  }

  /** Run sequentially, no window ever holds `maxEvents` between calls and every closed one holds exactly that many. */
  lemma {:induction false} SequentialSettles(cfg: Config, calls: seq<Call>)
    requires cfg.maxEvents > 0
    ensures Settled(cfg, Run(cfg, Sequential(cfg, calls)))
  {
    if calls != [] {
      var init, c := calls[..|calls| - 1], calls[|calls| - 1];
      SequentialSettles(cfg, init);
      hide Settled, Step, KeyOf, Accepted, CallOps, Run;
      RunCall(cfg, Sequential(cfg, init), c);
      if KeyOf(cfg, c.e).Some? { CallSettles(cfg, Run(cfg, Sequential(cfg, init)), KeyOf(cfg, c.e).value, c); }
    } else {
      assert Run(cfg, []) == Start;
    }
  }

  /** The windows of `k` that were closed out, oldest first. */
  function ClosedOf(closed: seq<Closed>, k: string): seq<Closed> {
    if closed == [] then []
    else ClosedOf(closed[..|closed| - 1], k) + if closed[|closed| - 1].key == k then [closed[|closed| - 1]] else []
  }

  function Segments(closed: seq<Closed>): seq<CountSpec.Segment> {
    seq(|closed|, i requires 0 <= i < |closed| => CountSpec.Emitted(closed[i].window.events))
  }

  lemma {:induction false} SegmentsHoldClosedEvents(closed: seq<Closed>, k: string)
    ensures CountSpec.AllEvents(Segments(ClosedOf(closed, k))) == ClosedEvents(closed, k)
    ensures forall i :: 0 <= i < |ClosedOf(closed, k)| ==> ClosedOf(closed, k)[i] in closed
  {
    if closed != [] {
      var init, last := closed[..|closed| - 1], closed[|closed| - 1];
      SegmentsHoldClosedEvents(init, k);
      var cs := ClosedOf(init, k);
      if last.key == k {
        CountSpec.ClosedOneMore(Segments(cs), CountSpec.Emitted(last.window.events));
        assert Segments(cs + [last]) == Segments(cs) + [CountSpec.Emitted(last.window.events)];
      } else {
        assert cs + [] == cs && ClosedEvents(init, k) + [] == ClosedEvents(init, k);
      }
    }
  }

  lemma SegmentsAreFull(cfg: Config, s: State, k: string)
    requires cfg.maxEvents > 0 && Settled(cfg, s)
    ensures |OpenEvents(s, k)| < cfg.maxEvents
    ensures forall segment :: segment in Segments(ClosedOf(s.closed, k)) ==>
        segment.Emitted? && |segment.events| == cfg.maxEvents
  {
    SegmentsHoldClosedEvents(s.closed, k);
  }

  lemma FullWindowsAreChunks(cfg: Config, s: State, k: string, events: seq<Event>)
    requires cfg.maxEvents > 0 && Settled(cfg, s) && Held(s, k) == events
    ensures var n: nat, closed := cfg.maxEvents, ClosedOf(s.closed, k);
            && |closed| == |events| / n
            && forall i: nat :: i < |closed| ==>
                i * n + n <= |events| && closed[i].window.events == CountSpec.Chunk(events, i, n)
  {
    var n: nat, closed := cfg.maxEvents, ClosedOf(s.closed, k);
    var segments := Segments(closed);
    var ccfg := CountSpec.Config("", n, [], 0, v => "");
    hide ClosedEvents, ClosedOf, Settled, OpenEvents, CountSpec.AllEvents, CountSpec.BatchOutputs;
    SegmentsHoldClosedEvents(s.closed, k);
    SegmentsAreFull(cfg, s, k);
    CountSpec.FullSegments(ccfg, k, segments);
    Arithmetic.Quotient(|events|, |segments|, n, |OpenEvents(s, k)|);
    forall i: nat | i < |closed|
        ensures i * n + n <= |events| && closed[i].window.events == CountSpec.Chunk(events, i, n) {
      CountSpec.SegmentAt(ccfg, segments, i);
      assert CountSpec.Chunk(events, i, n) == CountSpec.Chunk(CountSpec.AllEvents(segments), i, n);
    }
  }

  /** Run sequentially, the closed windows of a key are exactly the consecutive chunks of `maxEvents` of its events. */
  lemma SequentialChunks(cfg: Config, calls: seq<Call>, k: string)
    requires cfg.maxEvents > 0
    ensures var ops := Sequential(cfg, calls);
            var n: nat, closed, events := cfg.maxEvents, ClosedOf(Run(cfg, ops).closed, k), EventsOf(cfg, ops, k);
            && |closed| == |events| / n
            && forall i: nat :: i < |closed| ==>
                i * n + n <= |events| && closed[i].window.events == CountSpec.Chunk(events, i, n)
  {
    hide Run, Sequential, EventsOf, Held, Settled, ClosedOf;
    var ops := Sequential(cfg, calls);
    SequentialSettles(cfg, calls);
    EventsConserved(cfg, ops, k);
    FullWindowsAreChunks(cfg, Run(cfg, ops), k, EventsOf(cfg, ops, k));
  }

  // ----- agreement with aggregate.count -----

  /** The same keys, limits and aggregations. */
  predicate SameSettings(ccfg: CountSpec.Config, wcfg: Config) {
    ccfg.keyField == wcfg.keyField && ccfg.count == wcfg.maxEvents && ccfg.count > 0 && ccfg.aggs == wcfg.aggs
  }

  /** The key field is absent or a string, which `%v` prints as it is. */
  predicate StringKeyed(ccfg: CountSpec.Config, e: Event) {
    match GetField(e, ccfg.keyField) case None => true case Some(v) => v.Str? && ccfg.format(v) == v.s
  }

  function Arrivals(calls: seq<Call>): seq<CountSpec.Op> {
    seq(|calls|, i requires 0 <= i < |calls| => CountSpec.Arrive(calls[i].e, calls[i].now))
  }

  lemma {:induction false} SameEvents(ccfg: CountSpec.Config, wcfg: Config, calls: seq<Call>, k: string)
    requires SameSettings(ccfg, wcfg) && forall i :: 0 <= i < |calls| ==> StringKeyed(ccfg, calls[i].e)
    ensures CountSpec.EventsOf(ccfg, Arrivals(calls), k) == EventsOf(wcfg, Sequential(wcfg, calls), k)
  {
    if calls != [] {
      var init, c := calls[..|calls| - 1], calls[|calls| - 1];
      SameEvents(ccfg, wcfg, init, k);
      assert Arrivals(calls)[..|calls| - 1] == Arrivals(init);
      assert StringKeyed(ccfg, c.e);
      hide GetField;
      CallEvents(wcfg, Sequential(wcfg, init), c, k);
    }
  }

  lemma CallEvents(cfg: Config, ops: seq<Op>, c: Call, k: string)
    ensures EventsOf(cfg, ops + CallOps(cfg, c), k)
            == EventsOf(cfg, ops, k) + if KeyOf(cfg, c.e) == Some(k) then [c.e] else []
  {
    hide KeyOf;
    var one := ops + [Arrive(c.e, c.now)];
    assert one[..|ops|] == ops;
    match KeyOf(cfg, c.e)
    case None =>
    case Some(j) =>
      var two := one + [EmitPending(j, c.emitted)];
      assert two[..|one|] == one && ops + CallOps(cfg, c) == two;
      assert EventsOf(cfg, one, k) + [] == EventsOf(cfg, one, k);
  }

  /** Follows a pointer to a number. */
  function Deref(v: Option<Value>): Option<Value> {
    match v case Some(NumRef(x)) => Some(Num(Float64, x)) case other => other
  }

  /** The two transforms show the same aggregate exactly when there are numbers to aggregate, or the
      aggregate is a min or max, which neither shows without numbers. */
  lemma SameAggregate(fn: Function, xs: seq<real>, forced: bool)
    ensures Deref(WindowValue(fn, xs, forced)) == BatchValue(fn, xs) <==> xs != [] || fn == Min || fn == Max
  {
    LeastIsLeast(xs);
    GreatestIsGreatest(xs);
    hide Total, Least, Greatest;
    if xs == [] { assert Least(xs).None? && Greatest(xs).None?; }
  }

  /** On the same string-keyed calls, both close the same windows of a key, in order and with equal counts, as long as
      no timer fires in between. */
  lemma CountAgreesWithWindow(ccfg: CountSpec.Config, wcfg: Config, calls: seq<Call>, k: string)
    requires SameSettings(ccfg, wcfg) && forall i :: 0 <= i < |calls| ==> StringKeyed(ccfg, calls[i].e)
    ensures var outs, closed := CountSpec.OutputsOf(CountSpec.Run(ccfg, Arrivals(calls)).outputs, k),
                                ClosedOf(Run(wcfg, Sequential(wcfg, calls)).closed, k);
            && |outs| == |closed|
            && forall i :: 0 <= i < |outs| ==>
                 && closed[i].window.events != [] && outs[i].count == |closed[i].window.events|
                 && outs[i] == CountSpec.BatchOutput(ccfg, k, closed[i].window.events)
  {
    hide CountSpec.OutputsOf, CountSpec.Run, ClosedOf, Run, Sequential;
    hide EventsOf, CountSpec.EventsOf, StringKeyed, CountSpec.FoldAll, CountSpec.Chunk;
    SameEvents(ccfg, wcfg, calls, k);
    CountSpec.OneResultPerChunk(ccfg, Arrivals(calls), k);
    SequentialChunks(wcfg, calls, k);
  }

  /** No aggregated field of the events holds an unsigned integer, which `aggregate.count` skips. */
  predicate NoUnsigned(aggs: seq<Aggregation>, events: seq<Event>) {
    forall i, j :: 0 <= i < |events| && 0 <= j < |aggs| ==>
      match GetField(events[i], aggs[j].field)
      case Some(Num(kind, _)) => kind != Uint && kind != Uint32 && kind != Uint64
      case _ => true
  }

  lemma {:induction false} SameNumbers(aggs: seq<Aggregation>, events: seq<Event>, j: nat)
    requires NoUnsigned(aggs, events) && j < |aggs|
    ensures Numbers(events, aggs[j].field, CountNumeric) == Numbers(events, aggs[j].field, WindowNumeric)
  {
    if events != [] {
      var n := |events| - 1;
      SameNumbers(aggs, events[..n], j);
      assert match GetField(events[n], aggs[j].field)
             case Some(Num(kind, _)) => kind != Uint && kind != Uint32 && kind != Uint64
             case _ => true;
      hide GetField, NoUnsigned;
    }
  }

  /** The result events of the two transforms for the same window show the same aggregate, up to following a
      pointer, exactly when the window holds a number for it or the aggregate is a min or max. */
  lemma ResultsAgree(ccfg: CountSpec.Config, wcfg: Config, c: Closed, j: nat)
    requires SameSettings(ccfg, wcfg) && Sound(wcfg, c.window) && NoUnsigned(wcfg.aggs, c.window.events)
    requires j < |wcfg.aggs| && ClearName(wcfg.aggs, j, WindowFields)
    ensures var agg, o := wcfg.aggs[j], CountSpec.BatchOutput(ccfg, c.key, c.window.events);
            Deref(GetField(ResultEvent(wcfg, c), agg.name)) == GetField(CountSpec.ResultEvent(ccfg, o), agg.name)
            <==>
            Numbers(c.window.events, agg.field, WindowNumeric) != [] || agg.function_ == Min || agg.function_ == Max
  {
    hide Deref, GetField, ResultEvent, CountSpec.ResultEvent, CountSpec.BatchOutput;
    hide Numbers, WindowValue, BatchValue, NoUnsigned, FoldAll;
    var agg := wcfg.aggs[j];
    FewerFixedFields(wcfg.aggs, j);
    hide ClearName;
    ResultAggregates(wcfg, c, j);
    CountSpec.ResultAggregates(ccfg, c.key, c.window.events, j);
    SameNumbers(wcfg.aggs, c.window.events, j);
    SameAggregate(agg.function_, Numbers(c.window.events, agg.field, WindowNumeric), c.forced);
  }

  lemma FewerFixedFields(aggs: seq<Aggregation>, j: nat)
    requires j < |aggs| && ClearName(aggs, j, WindowFields)
    ensures ClearName(aggs, j, CountSpec.CountFields)
  {
    hide Apart, PathOf;
    assert WindowFields[0] == CountSpec.CountFields[0] && WindowFields[1] == CountSpec.CountFields[1]
        && WindowFields[3] == CountSpec.CountFields[2];
  }

  // ----- interleavings that break the limit -----

  const Limit := Config("k", 2, 0, [])
  const Sample := Event(Some(map["k" := Str("a")]), Metadata("", 0, 0, None), 0, None)

  /** The size of the open window of "a", the emits pending for it, and the sizes of its closed windows. */
  predicate Looks(s: State, open: nat, waiting: nat, sizes: seq<nat>) {
    && s.windows.Keys == (if open == 0 then {} else {"a"}) && |OpenEvents(s, "a")| == open && s.pending["a"] == waiting
    && |s.closed| == |sizes| && forall i :: 0 <= i < |sizes| ==> |s.closed[i].window.events| == sizes[i]
  }

  lemma SampleKey()
    ensures KeyOf(Limit, Sample) == Some("a")
  {
    CountSpec.DotFreePath("k");
  }

  lemma LooksAfterArrive(s: State, open: nat, waiting: nat, sizes: seq<nat>)
    requires Looks(s, open, waiting, sizes)
    ensures Looks(Step(Limit, s, Arrive(Sample, 0)), open + 1, if open + 1 >= 2 then waiting + 1 else waiting, sizes)
  {
    SampleKey();
    OpenedKeeps(Limit, s, "a", 0);
    AcceptedKeeps(Limit, s, "a", Sample, 0);
    hide KeyOf, Accepted, Opened;
  }

  lemma LooksAfterEmit(s: State, open: nat, waiting: nat, sizes: seq<nat>)
    requires Looks(s, open, waiting, sizes) && open > 0 && waiting > 0
    ensures Looks(Step(Limit, s, EmitPending("a", 0)), 0, waiting - 1, sizes + [open])
  {
    EmittedKeeps(s.(pending := s.pending - multiset{"a"}), "a", 0);
    hide Emitted;
  }

  /** Three calls overlap, so three events fit where the limit is two; the second emit then closes a newer
      window after one event. */
  lemma OverlappingCallsBreakTheLimit()
    ensures exists ops :: Looks(Run(Limit, ops), 0, 0, [3, 1])
  {
    hide Looks, Step, Run;
    var a, m := Arrive(Sample, 0), EmitPending("a", 0);
    var ops := [];
    assert Looks(Run(Limit, ops), 0, 0, []) by { EmptyLooks(); }
    LooksAfterArrive(Run(Limit, ops), 0, 0, []);
    RunOneMore(Limit, ops, a);
    ops := ops + [a];
    LooksAfterArrive(Run(Limit, ops), 1, 0, []);
    RunOneMore(Limit, ops, a);
    ops := ops + [a];
    LooksAfterArrive(Run(Limit, ops), 2, 1, []);
    RunOneMore(Limit, ops, a);
    ops := ops + [a];
    LooksAfterEmit(Run(Limit, ops), 3, 2, []);
    RunOneMore(Limit, ops, m);
    ops := ops + [m];
    LooksAfterArrive(Run(Limit, ops), 0, 1, [] + [3]);
    RunOneMore(Limit, ops, a);
    ops := ops + [a];
    LooksAfterEmit(Run(Limit, ops), 1, 1, [] + [3]);
    RunOneMore(Limit, ops, m);
    ops := ops + [m];
    assert [] + [3] + [1] == [3, 1];
  }

  lemma EmptyLooks()
    ensures Looks(Run(Limit, []), 0, 0, [])
  {
  }
}
