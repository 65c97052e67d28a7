/** `aggregate.count` as steps on values, and the batch computation it amounts to. */
module CountSpec {
  import opened Text
  import opened Event
  import opened Aggregate
  import opened Arithmetic

  /** `count` is positive once configured; `format` is `%v`. */
  datatype Config = Config(keyField: string, count: nat, aggs: seq<Aggregation>, idleTimeout: int,
      format: Value -> string)

  function KeyOf(cfg: Config, e: Event): Option<string> {
    match GetField(e, cfg.keyField) case None => None case Some(v) => Some(cfg.format(v))
  }

  // ----- the running state -----

  datatype Window = Window(start: int, count: nat, folds: Fold, lastSeen: int)

  datatype Output = Output(key: string, start: int, count: nat, folds: Fold, timestamp: int)

  datatype State = State(windows: map<string, Window>, outputs: seq<Output>)

  function Bump(fn: Function, r: Running, x: real): Running {
    match fn
    case Sum => r.(sum := r.sum + x, count := r.count + 1)
    case Avg => r.(sum := r.sum + x, count := r.count + 1)
    case Count => r.(count := r.count + 1)
    case Min => if r.min.None? || x < r.min.value then r.(min := Some(x)) else r
    case Max => if r.max.None? || x > r.max.value then r.(max := Some(x)) else r
  }

  function Updated(agg: Aggregation, f: Fold, e: Event): Fold {
    match GetField(e, agg.field)
    case None => f
    case Some(v) =>
      match CountNumeric(v)
      case None => f
      case Some(x) => if agg.name in f then f[agg.name := Bump(agg.function_, f[agg.name], x)] else f
  }

  function UpdatedAll(aggs: seq<Aggregation>, f: Fold, e: Event): Fold {
    if aggs == [] then f else Updated(aggs[|aggs| - 1], UpdatedAll(aggs[..|aggs| - 1], f, e), e)
  }

  function FreshFold(aggs: seq<Aggregation>): Fold {
    map i | 0 <= i < |aggs| :: aggs[i].name := Zero
  }

  // ----- steps: events and idle sweeps -----

  datatype Op = Arrive(e: Event, now: int) | Sweep(now: int)

  function Opened(cfg: Config, windows: map<string, Window>, k: string, e: Event): Window {
    if k in windows then windows[k] else Window(e.timestamp, 0, FreshFold(cfg.aggs), 0)
  }

  function Accepted(cfg: Config, s: State, k: string, e: Event, now: int): State {
    var w := Opened(cfg, s.windows, k, e);
    var folds := UpdatedAll(cfg.aggs, w.folds, e);
    if w.count + 1 >= cfg.count
    then State(s.windows - {k}, s.outputs + [Output(k, w.start, w.count + 1, folds, e.timestamp)])
    else s.(windows := s.windows[k := Window(w.start, w.count + 1, folds, now)])
  }

  function Step(cfg: Config, s: State, op: Op): State {
    match op
    case Arrive(e, now) => (match KeyOf(cfg, e) case None => s case Some(k) => Accepted(cfg, s, k, e, now))
    case Sweep(now) =>
      s.(windows := map k | k in s.windows && now - s.windows[k].lastSeen <= cfg.idleTimeout :: s.windows[k])
  }

  function Run(cfg: Config, ops: seq<Op>): State {
    if ops == [] then State(map[], []) else Step(cfg, Run(cfg, ops[..|ops| - 1]), ops[|ops| - 1])
  }

  // ----- the batch view, key by key -----

  datatype Segment = Emitted(events: seq<Event>) | Swept(events: seq<Event>)

  /** What became of the events of one key: closed segments, oldest first, and the open one. */
  datatype History = History(closed: seq<Segment>, open: seq<Event>, lastSeen: int)

  function HistoryStep(cfg: Config, h: History, k: string, op: Op): History {
    match op
    case Arrive(e, now) =>
      if KeyOf(cfg, e) != Some(k) then h
      else if |h.open| + 1 >= cfg.count then History(h.closed + [Emitted(h.open + [e])], [], now)
      else History(h.closed, h.open + [e], now)
    case Sweep(now) =>
      if h.open != [] && now - h.lastSeen > cfg.idleTimeout
      then History(h.closed + [Swept(h.open)], [], h.lastSeen) else h
  }

  function HistoryOf(cfg: Config, ops: seq<Op>, k: string): History {
    if ops == [] then History([], [], 0) else HistoryStep(cfg, HistoryOf(cfg, ops[..|ops| - 1], k), k, ops[|ops| - 1])
  }

  /** The events of key `k`, in order of arrival. */
  function EventsOf(cfg: Config, ops: seq<Op>, k: string): seq<Event> {
    if ops == [] then []
    else
      var last := ops[|ops| - 1];
      EventsOf(cfg, ops[..|ops| - 1], k) + if last.Arrive? && KeyOf(cfg, last.e) == Some(k) then [last.e] else []
  }

  function AllEvents(closed: seq<Segment>): seq<Event> {
    if closed == [] then [] else AllEvents(closed[..|closed| - 1]) + closed[|closed| - 1].events
  }

  /** A history accounts for exactly `events`: emitted segments are full, swept and open ones shorter. */
  ghost predicate Accounts(cfg: Config, h: History, events: seq<Event>) {
    && AllEvents(h.closed) + h.open == events
    && |h.open| < cfg.count
    && forall i :: 0 <= i < |h.closed| ==> Sized(cfg, h.closed[i])
  }

  predicate Sized(cfg: Config, s: Segment) {
    if s.Emitted? then |s.events| == cfg.count else 1 <= |s.events| < cfg.count
  }

  /** Nothing is lost, duplicated or reordered: the segments of a key's history are its events, cut into
      full windows where they were emitted and shorter ones where they were swept away. */
  lemma {:induction false} HistoryConserves(cfg: Config, ops: seq<Op>, k: string)
    requires cfg.count >= 1
    ensures Accounts(cfg, HistoryOf(cfg, ops, k), EventsOf(cfg, ops, k))
  {
    if ops != [] {
      var init, op := ops[..|ops| - 1], ops[|ops| - 1];
      HistoryConserves(cfg, init, k);
      var h, events := HistoryOf(cfg, init, k), EventsOf(cfg, init, k);
      hide Accounts, HistoryStep, KeyOf;
      if op.Arrive? && KeyOf(cfg, op.e) == Some(k) {
        ArrivalAccounted(cfg, h, k, op, events);
      } else {
        OthersAccounted(cfg, h, k, op, events);
        assert events + [] == events;
      }
    }
  }

  lemma ArrivalAccounted(cfg: Config, h: History, k: string, op: Op, events: seq<Event>)
    requires Accounts(cfg, h, events) && op.Arrive? && KeyOf(cfg, op.e) == Some(k)
    ensures Accounts(cfg, HistoryStep(cfg, h, k, op), events + [op.e])
  {
    hide KeyOf, AllEvents;
    var open, before := h.open + [op.e], AllEvents(h.closed);
    ClosedOneMore(h.closed, Emitted(open));
    assert before + open == before + h.open + [op.e];
    if |open| >= cfg.count {
      assert AllEvents(h.closed + [Emitted(open)]) + [] == events + [op.e];
      assert Sized(cfg, Emitted(open));
    }
  }

  lemma OthersAccounted(cfg: Config, h: History, k: string, op: Op, events: seq<Event>)
    requires Accounts(cfg, h, events) && (op.Arrive? ==> KeyOf(cfg, op.e) != Some(k))
    ensures Accounts(cfg, HistoryStep(cfg, h, k, op), events)
  {
    hide KeyOf;
    ClosedOneMore(h.closed, Swept(h.open));
    assert AllEvents(h.closed) + h.open + [] == AllEvents(h.closed) + h.open;
  }

  lemma ClosedOneMore(closed: seq<Segment>, s: Segment)
    ensures AllEvents(closed + [s]) == AllEvents(closed) + s.events
  {
    assert (closed + [s])[..|closed|] == closed;
  }

  lemma {:induction false} NoSweepNoLoss(cfg: Config, ops: seq<Op>, k: string)
    requires forall i :: 0 <= i < |ops| ==> ops[i].Arrive?
    ensures forall i :: 0 <= i < |HistoryOf(cfg, ops, k).closed| ==> HistoryOf(cfg, ops, k).closed[i].Emitted?
  {
    if ops != [] { NoSweepNoLoss(cfg, ops[..|ops| - 1], k); }
  }

  // ----- refinement: the running state is the fold of the open segment -----

  function FoldAll(aggs: seq<Aggregation>, events: seq<Event>): Fold {
    if events == [] then FreshFold(aggs)
    else UpdatedAll(aggs, FoldAll(aggs, events[..|events| - 1]), events[|events| - 1])
  }

  function BatchOutput(cfg: Config, k: string, events: seq<Event>): Output
    requires events != []
  {
    Output(k, events[0].timestamp, |events|, FoldAll(cfg.aggs, events), events[|events| - 1].timestamp)
  }

  function BatchOutputs(cfg: Config, k: string, closed: seq<Segment>): seq<Output> {
    if closed == [] then []
    else
      var last := closed[|closed| - 1];
      BatchOutputs(cfg, k, closed[..|closed| - 1])
      + if last.Emitted? && last.events != [] then [BatchOutput(cfg, k, last.events)] else []
  }

  function OutputsOf(outputs: seq<Output>, k: string): seq<Output> {
    if outputs == [] then []
    else
      OutputsOf(outputs[..|outputs| - 1], k)
      + if outputs[|outputs| - 1].key == k then [outputs[|outputs| - 1]] else []
  }

  ghost predicate Refines(cfg: Config, s: State, k: string, h: History) {
    && (k in s.windows <==> h.open != [])
    && (h.open != [] ==> s.windows[k] == Window(h.open[0].timestamp, |h.open|, FoldAll(cfg.aggs, h.open), h.lastSeen))
    && OutputsOf(s.outputs, k) == BatchOutputs(cfg, k, h.closed)
  }

  /** The outputs for a key are one batch result per emitted segment of its own history, however the
      events of other keys interleave, and its window is the batch fold of the open segment. */
  lemma {:induction false} CountIsBatch(cfg: Config, ops: seq<Op>, k: string)
    requires cfg.count >= 1
    ensures Refines(cfg, Run(cfg, ops), k, HistoryOf(cfg, ops, k))
  {
    if ops != [] {
      var init, last := ops[..|ops| - 1], ops[|ops| - 1];
      CountIsBatch(cfg, init, k);
      StepRefines(cfg, Run(cfg, init), k, HistoryOf(cfg, init, k), last);
    }
  }

  lemma StepRefines(cfg: Config, s: State, k: string, h: History, op: Op)
    requires cfg.count >= 1 && Refines(cfg, s, k, h)
    ensures Refines(cfg, Step(cfg, s, op), k, HistoryStep(cfg, h, k, op))
  {
    hide Refines, Accepted, KeyOf;
    if op.Sweep? {
      SweepRefines(cfg, s, k, h, op);
    } else if KeyOf(cfg, op.e) == Some(k) {
      hide Step, HistoryStep;
      ArrivalRefines(cfg, s, k, h, op);
    } else if KeyOf(cfg, op.e).Some? {
      OtherArrivalRefines(cfg, s, k, h, KeyOf(cfg, op.e).value, op);
    }
  }

  lemma SweepRefines(cfg: Config, s: State, k: string, h: History, op: Op)
    requires op.Sweep? && Refines(cfg, s, k, h)
    ensures Refines(cfg, Step(cfg, s, op), k, HistoryStep(cfg, h, k, op))
  {
    hide FoldAll, OutputsOf, BatchOutput;
    var g := HistoryStep(cfg, h, k, op);
    assert (h.closed + [Swept(h.open)])[..|h.closed|] == h.closed;
    assert BatchOutputs(cfg, k, h.closed) + [] == BatchOutputs(cfg, k, h.closed);
    assert BatchOutputs(cfg, k, g.closed) == BatchOutputs(cfg, k, h.closed);
  }

  lemma OtherArrivalRefines(cfg: Config, s: State, k: string, h: History, other: string, op: Op)
    requires op.Arrive? && other != k && Refines(cfg, s, k, h)
    ensures Refines(cfg, Accepted(cfg, s, other, op.e, op.now), k, h)
  {
    hide FoldAll, UpdatedAll, BatchOutputs, KeyOf, Opened;
    var t := Accepted(cfg, s, other, op.e, op.now);
    if |t.outputs| > |s.outputs| {
      assert t.outputs[..|s.outputs|] == s.outputs;
      assert OutputsOf(s.outputs, k) + [] == OutputsOf(s.outputs, k);
    }
  }

  lemma ArrivalRefines(cfg: Config, s: State, k: string, h: History, op: Op)
    requires cfg.count >= 1 && op.Arrive? && KeyOf(cfg, op.e) == Some(k) && Refines(cfg, s, k, h)
    ensures Refines(cfg, Step(cfg, s, op), k, HistoryStep(cfg, h, k, op))
  {
    var w, open := Opened(cfg, s.windows, k, op.e), h.open + [op.e];
    WindowGrows(cfg, s, k, h, op.e);
    hide FoldAll, UpdatedAll, Opened, KeyOf;
    if w.count + 1 >= cfg.count {
      var out := BatchOutput(cfg, k, open);
      assert (s.outputs + [out])[..|s.outputs|] == s.outputs;
      assert (h.closed + [Emitted(open)])[..|h.closed|] == h.closed;
    } else {
      hide OutputsOf, BatchOutputs;
    }
  }

  /** The window an arrival finds or opens, one event on, is the batch fold of one more event. */
  lemma WindowGrows(cfg: Config, s: State, k: string, h: History, e: Event)
    requires Refines(cfg, s, k, h)
    ensures var w, open := Opened(cfg, s.windows, k, e), h.open + [e];
            && w.count == |h.open| && w.start == open[0].timestamp
            && UpdatedAll(cfg.aggs, w.folds, e) == FoldAll(cfg.aggs, open)
  {
    hide OutputsOf, BatchOutputs, FreshFold;
    assert (h.open + [e])[..|h.open|] == h.open;
  }

  // ----- without sweeps: one result per chunk -----

  lemma {:induction false} FullSegments(cfg: Config, k: string, closed: seq<Segment>)
    requires cfg.count >= 1 && forall i :: 0 <= i < |closed| ==> closed[i].Emitted? && |closed[i].events| == cfg.count
    ensures |AllEvents(closed)| == |closed| * cfg.count && |BatchOutputs(cfg, k, closed)| == |closed|
  {
    if closed != [] {
      FullSegments(cfg, k, closed[..|closed| - 1]);
      assert |closed| * cfg.count == (|closed| - 1) * cfg.count + cfg.count;
    }
  }

  /** The `i`-th consecutive chunk of `n` events. */
  function Chunk(events: seq<Event>, i: nat, n: nat): (c: seq<Event>)
    requires i * n + n <= |events|
    ensures |c| == n
  {
    events[i * n..i * n + n]
  }

  lemma {:induction false} SegmentAt(cfg: Config, closed: seq<Segment>, i: nat)
    requires cfg.count >= 1 && i < |closed|
    requires forall j :: 0 <= j < |closed| ==> closed[j].Emitted? && |closed[j].events| == cfg.count
    ensures i * cfg.count + cfg.count <= |AllEvents(closed)|
    ensures Chunk(AllEvents(closed), i, cfg.count) == closed[i].events
  {
    var init := closed[..|closed| - 1];
    FullSegments(cfg, "", init);
    if i < |init| { SegmentAt(cfg, init, i); }
  }

  lemma {:induction false} EmittedAt(cfg: Config, k: string, closed: seq<Segment>, i: nat)
    requires cfg.count >= 1 && i < |closed|
    requires forall j :: 0 <= j < |closed| ==> closed[j].Emitted? && |closed[j].events| == cfg.count
    ensures |BatchOutputs(cfg, k, closed)| == |closed|
    ensures BatchOutputs(cfg, k, closed)[i] == BatchOutput(cfg, k, closed[i].events)
  {
    hide AllEvents, BatchOutput;
    var init := closed[..|closed| - 1];
    FullSegments(cfg, k, init);
    if i < |init| { EmittedAt(cfg, k, init, i); }
  }

  lemma FullSegmentsAreChunks(cfg: Config, k: string, h: History, events: seq<Event>)
    requires cfg.count >= 1
    requires forall i :: 0 <= i < |h.closed| ==> h.closed[i].Emitted? && |h.closed[i].events| == cfg.count
    requires AllEvents(h.closed) + h.open == events && |h.open| < cfg.count
    ensures |BatchOutputs(cfg, k, h.closed)| == |events| / cfg.count
    ensures forall i: nat :: i < |h.closed| ==>
              && i * cfg.count + cfg.count <= |events|
              && BatchOutputs(cfg, k, h.closed)[i] == BatchOutput(cfg, k, Chunk(events, i, cfg.count))
  {
    hide BatchOutput, BatchOutputs, AllEvents;
    FullSegments(cfg, k, h.closed);
    Quotient(|events|, |h.closed|, cfg.count, |h.open|);
    forall i: nat | i < |h.closed| ensures i * cfg.count + cfg.count <= |events|
      && BatchOutputs(cfg, k, h.closed)[i] == BatchOutput(cfg, k, Chunk(events, i, cfg.count))
    {
      SegmentAt(cfg, h.closed, i);
      EmittedAt(cfg, k, h.closed, i);
      assert Chunk(events, i, cfg.count) == Chunk(AllEvents(h.closed), i, cfg.count);
    }
  }

  lemma FullWhenEmitted(cfg: Config, h: History, events: seq<Event>)
    requires Accounts(cfg, h, events) && forall i :: 0 <= i < |h.closed| ==> h.closed[i].Emitted?
    ensures forall i :: 0 <= i < |h.closed| ==> |h.closed[i].events| == cfg.count
    ensures AllEvents(h.closed) + h.open == events && |h.open| < cfg.count
  {
    forall i | 0 <= i < |h.closed| ensures |h.closed[i].events| == cfg.count {
      assert Sized(cfg, h.closed[i]);
    }
  }

  /** Without idle sweeps, the outputs for a key are exactly one result per consecutive chunk of `count`
      of its events, whatever arrives for other keys in between. */
  lemma OneResultPerChunk(cfg: Config, ops: seq<Op>, k: string)
    requires cfg.count >= 1 && forall i :: 0 <= i < |ops| ==> ops[i].Arrive?
    ensures |OutputsOf(Run(cfg, ops).outputs, k)| == |EventsOf(cfg, ops, k)| / cfg.count
    ensures forall i: nat :: i < |OutputsOf(Run(cfg, ops).outputs, k)| ==>
              && i * cfg.count + cfg.count <= |EventsOf(cfg, ops, k)|
              && OutputsOf(Run(cfg, ops).outputs, k)[i]
                  == BatchOutput(cfg, k, Chunk(EventsOf(cfg, ops, k), i, cfg.count))
  {
    hide HistoryOf, EventsOf, OutputsOf, Run, BatchOutput, BatchOutputs, AllEvents, Accounts, FoldAll, Chunk;
    var h, events := HistoryOf(cfg, ops, k), EventsOf(cfg, ops, k);
    HistoryConserves(cfg, ops, k);
    NoSweepNoLoss(cfg, ops, k);
    FullWhenEmitted(cfg, h, events);
    FullSegmentsAreChunks(cfg, k, h, events);
    FullSegments(cfg, k, h.closed);
    CountIsBatch(cfg, ops, k);
  }

  // ----- what a sweep drops -----

  /** The instant at which the last event of the key arrived. */
  function LastArrival(cfg: Config, ops: seq<Op>, k: string): Option<int> {
    if ops == [] then None
    else
      var last := ops[|ops| - 1];
      if last.Arrive? && KeyOf(cfg, last.e) == Some(k) then Some(last.now)
      else LastArrival(cfg, ops[..|ops| - 1], k)
  }

  lemma {:induction false} LastSeenIsLastArrival(cfg: Config, ops: seq<Op>, k: string)
    requires cfg.count >= 1
    ensures var h := HistoryOf(cfg, ops, k); h.open != [] ==> LastArrival(cfg, ops, k) == Some(h.lastSeen)
  {
    if ops != [] {
      LastSeenIsLastArrival(cfg, ops[..|ops| - 1], k);
      hide KeyOf;
    }
  }

  /** A sweep drops exactly the open windows whose last event arrived longer ago than the idle timeout, and touches
      nothing else. */
  lemma SweepDropsIdle(cfg: Config, ops: seq<Op>, now: int, k: string)
    requires cfg.count >= 1
    ensures var s, t, last := Run(cfg, ops), Run(cfg, ops + [Sweep(now)]), LastArrival(cfg, ops, k);
      && t.outputs == s.outputs
      && (k in t.windows ==> k in s.windows && t.windows[k] == s.windows[k])
      && (k in s.windows ==> last.Some? && (k in t.windows <==> now - last.value <= cfg.idleTimeout))
  {
    assert (ops + [Sweep(now)])[..|ops|] == ops;
    CountIsBatch(cfg, ops, k);
    LastSeenIsLastArrival(cfg, ops, k);
    hide HistoryOf, LastArrival, FoldAll, BatchOutputs, OutputsOf;
  }

  /** The key of an event is its key field as `%v` prints it, whatever the value. */
  lemma KeyIsPrinted(cfg: Config, e: Event, k: string)
    ensures KeyOf(cfg, e) == Some(k) <==>
        GetField(e, cfg.keyField).Some? && cfg.format(GetField(e, cfg.keyField).value) == k
  {
  }

  // ----- what the folds mean -----

  /** Sharing an output name, and with it the running state, does `agg` no harm: `other` never sees a number, or
      takes the same minimum or maximum. */
  predicate Harmless(agg: Aggregation, other: Aggregation) {
    || other.field == ""
    || (other.field == agg.field && other.function_ == agg.function_ && (agg.function_ == Min || agg.function_ == Max))
  }

  ghost predicate SharesHarmlessly(aggs: seq<Aggregation>, i: nat)
    requires i < |aggs|
  {
    forall j :: 0 <= j < |aggs| && j != i && aggs[j].name == aggs[i].name ==> Harmless(aggs[i], aggs[j])
  }

  function RunningOf(fn: Function, xs: seq<real>): Running {
    match fn
    case Sum => Zero.(sum := Total(xs), count := |xs|)
    case Avg => Zero.(sum := Total(xs), count := |xs|)
    case Count => Zero.(count := |xs|)
    case Min => Zero.(min := Least(xs))
    case Max => Zero.(max := Greatest(xs))
  }

  /** What the numbers of one event make of the running state. */
  function After(agg: Aggregation, r: Running, e: Event): Running {
    var xs := NumberOf(e, agg.field, CountNumeric);
    if xs == [] then r else Bump(agg.function_, r, xs[0])
  }

  lemma UpdatedIsAfter(agg: Aggregation, f: Fold, e: Event)
    requires agg.name in f
    ensures Updated(agg, f, e) == f[agg.name := After(agg, f[agg.name], e)]
  {
    assert f[agg.name := f[agg.name]] == f;
  }

  lemma HarmlessAfter(agg: Aggregation, other: Aggregation, r: Running, e: Event)
    requires Harmless(agg, other)
    ensures After(other, r, e) == r || (After(other, r, e) == After(agg, r, e) == After(agg, After(agg, r, e), e))
    ensures After(other, After(agg, r, e), e) == After(agg, r, e)
  {
  }

  /** Aggregations that do `agg` no harm leave its state alone, or make the step it makes. */
  lemma {:induction false} OnlyOthers(aggs: seq<Aggregation>, f: Fold, e: Event, agg: Aggregation)
    requires agg.name in f && forall j :: 0 <= j < |aggs| && aggs[j].name == agg.name ==> Harmless(agg, aggs[j])
    ensures agg.name in UpdatedAll(aggs, f, e)
    ensures var r, v := f[agg.name], UpdatedAll(aggs, f, e)[agg.name];
            v == r || v == After(agg, r, e) == After(agg, After(agg, r, e), e)
  {
    hide After, Updated, Harmless;
    if aggs != [] {
      var n := |aggs| - 1;
      OnlyOthers(aggs[..n], f, e, agg);
      OneMore(aggs, f, e, agg.name);
      if aggs[n].name == agg.name { HarmlessAfter(agg, aggs[n], f[agg.name], e); }
    }
  }

  lemma OneMore(aggs: seq<Aggregation>, f: Fold, e: Event, name: string)
    requires aggs != [] && name in UpdatedAll(aggs[..|aggs| - 1], f, e)
    ensures name in UpdatedAll(aggs, f, e)
    ensures var last, v := aggs[|aggs| - 1], UpdatedAll(aggs[..|aggs| - 1], f, e)[name];
            UpdatedAll(aggs, f, e)[name] == if last.name == name then After(last, v, e) else v
  {
    hide After;
    if aggs[|aggs| - 1].name == name { UpdatedIsAfter(aggs[|aggs| - 1], UpdatedAll(aggs[..|aggs| - 1], f, e), e); }
  }

  lemma {:induction false} OneUpdated(aggs: seq<Aggregation>, f: Fold, e: Event, i: nat)
    requires i < |aggs| && SharesHarmlessly(aggs, i) && aggs[i].name in f
    ensures aggs[i].name in UpdatedAll(aggs, f, e)
    ensures UpdatedAll(aggs, f, e)[aggs[i].name] == After(aggs[i], f[aggs[i].name], e)
  {
    hide After, Updated, Harmless;
    var n := |aggs| - 1;
    if i == n {
      OnlyOthers(aggs[..n], f, e, aggs[n]);
    } else {
      OneUpdated(aggs[..n], f, e, i);
      if aggs[n].name == aggs[i].name { HarmlessAfter(aggs[i], aggs[n], f[aggs[i].name], e); }
    }
    OneMore(aggs, f, e, aggs[i].name);
  }

  lemma BumpIsBatch(fn: Function, xs: seq<real>, x: real)
    ensures Bump(fn, RunningOf(fn, xs), x) == RunningOf(fn, xs + [x])
  {
    assert (xs + [x])[..|xs|] == xs;
  }

  /** Each running aggregate is the batch aggregate of the window's numbers. */
  lemma {:induction false} FoldIsBatch(aggs: seq<Aggregation>, events: seq<Event>, i: nat)
    requires i < |aggs| && SharesHarmlessly(aggs, i)
    ensures aggs[i].name in FoldAll(aggs, events)
         && FoldAll(aggs, events)[aggs[i].name]
             == RunningOf(aggs[i].function_, Numbers(events, aggs[i].field, CountNumeric))
  {
    if events == [] {
      assert FoldAll(aggs, events) == FreshFold(aggs);
    } else {
      var init, e := events[..|events| - 1], events[|events| - 1];
      FoldIsBatch(aggs, init, i);
      OneUpdated(aggs, FoldAll(aggs, init), e, i);
      hide UpdatedAll, RunningOf, Bump, SharesHarmlessly, GetField, CountNumeric, FreshFold;
      var xs, more := Numbers(init, aggs[i].field, CountNumeric), NumberOf(e, aggs[i].field, CountNumeric);
      if more == [] {
        assert xs + more == xs;
      } else {
        BumpIsBatch(aggs[i].function_, xs, more[0]);
      }
    }
  }

  // ----- the emitted event -----

  function Presented(fn: Function, r: Running): Option<Value> {
    match fn
    case Sum => Some(Num(Float64, r.sum))
    case Count => Some(Num(Int, r.count as real))
    case Avg => Some(Num(Float64, if r.count > 0 then r.sum / (r.count as real) else 0.0))
    case Min => (match r.min case Some(m) => Some(Num(Float64, m)) case None => None)
    case Max => (match r.max case Some(m) => Some(Num(Float64, m)) case None => None)
  }

  function PresentedAll(aggs: seq<Aggregation>, folds: Fold): (r: seq<Option<Value>>)
    ensures |r| == |aggs|
  {
    seq(|aggs|, i requires 0 <= i < |aggs| =>
        if aggs[i].name in folds then Presented(aggs[i].function_, folds[aggs[i].name]) else None)
  }

  function ResultBase(o: Output): Event {
    var empty := Event(Some(map[]), Metadata("", 0, 0, None), o.timestamp, None);
    SetField(SetField(SetField(empty, WindowKey, Str(o.key)), WindowStart, Time(o.start)), EventCount,
        Num(Int, o.count as real))
  }

  function ResultEvent(cfg: Config, o: Output): Event {
    WithAggregates(ResultBase(o), cfg.aggs, PresentedAll(cfg.aggs, o.folds))
  }

  const CountFields := [WindowKey, WindowStart, EventCount]

  lemma NamesWithoutDotsApart(a: string, b: string)
    requires a != b && '.' !in a && '.' !in b
    ensures Apart(PathOf(a), PathOf(b))
  {
    DotFreePath(a);
    DotFreePath(b);
    assert [a][0] == a && [b][0] == b;
  }

  lemma FixedFieldsApart()
    ensures Apart(PathOf(WindowKey), PathOf(WindowStart)) && Apart(PathOf(WindowKey), PathOf(EventCount))
    ensures Apart(PathOf(WindowStart), PathOf(EventCount))
  {
    hide PathOf, Apart;
    assert WindowKey[7] == 'k' && WindowStart[7] == 's' && EventCount[0] == 'e';
    NamesWithoutDotsApart(WindowKey, WindowStart);
    NamesWithoutDotsApart(WindowKey, EventCount);
    NamesWithoutDotsApart(WindowStart, EventCount);
  }

  lemma {:induction false} DotFreePath(s: string)
    requires '.' !in s
    ensures PathOf(s) == [s]
  {
    var parts := [s];
    assert Join(parts, ".") == s;
    SplitJoin(parts, '.');
  }

  /** The fixed fields of a result, each untouched by aggregates whose names stay clear of it. */
  lemma ResultFields(cfg: Config, o: Output)
    ensures ClearField(cfg.aggs, WindowKey) ==> GetField(ResultEvent(cfg, o), WindowKey) == Some(Str(o.key))
    ensures ClearField(cfg.aggs, WindowStart) ==> GetField(ResultEvent(cfg, o), WindowStart) == Some(Time(o.start))
    ensures ClearField(cfg.aggs, EventCount) ==>
        GetField(ResultEvent(cfg, o), EventCount) == Some(Num(Int, o.count as real))
  {
    ResultBaseFields(o);
    hide ClearField, GetField, ResultBase;
    forall path | ClearField(cfg.aggs, path)
      ensures GetField(ResultEvent(cfg, o), path) == GetField(ResultBase(o), path)
    {
      OthersUntouched(ResultBase(o), cfg.aggs, PresentedAll(cfg.aggs, o.folds), path);
    }
  }

  lemma ResultBaseFields(o: Output)
    ensures GetField(ResultBase(o), WindowKey) == Some(Str(o.key))
    ensures GetField(ResultBase(o), WindowStart) == Some(Time(o.start))
    ensures GetField(ResultBase(o), EventCount) == Some(Num(Int, o.count as real))
  {
    var empty := Event(Some(map[]), Metadata("", 0, 0, None), o.timestamp, None);
    var one := SetField(empty, WindowKey, Str(o.key));
    var two := SetField(one, WindowStart, Time(o.start));
    FixedFieldsApart();
    FieldLaws(empty, WindowKey, Str(o.key), WindowKey);
    FieldLaws(one, WindowStart, Time(o.start), WindowKey);
    FieldLaws(two, EventCount, Num(Int, o.count as real), WindowKey);
    FieldLaws(two, EventCount, Num(Int, o.count as real), WindowStart);
  }

  lemma PresentedIsBatch(fn: Function, xs: seq<real>)
    ensures Presented(fn, RunningOf(fn, xs)) == BatchValue(fn, xs)
  {
  }

  lemma ClearNameIsAlone(aggs: seq<Aggregation>, i: nat, fixed: seq<string>)
    requires i < |aggs| && ClearName(aggs, i, fixed)
    ensures SharesHarmlessly(aggs, i) && ClearName(aggs, i, [])
    ensures forall j :: 0 <= j < |aggs| && j != i ==> aggs[j].name != aggs[i].name
  {
    hide PathOf;
  }

  /** An aggregate of an emitted window with a clear name is the batch value over that window's events. */
  lemma ResultAggregates(cfg: Config, k: string, events: seq<Event>, i: nat)
    requires i < |cfg.aggs| && ClearName(cfg.aggs, i, CountFields) && events != []
    ensures GetField(ResultEvent(cfg, BatchOutput(cfg, k, events)), cfg.aggs[i].name)
         == BatchValue(cfg.aggs[i].function_, Numbers(events, cfg.aggs[i].field, CountNumeric))
  {
    hide ClearName, GetField, SharesHarmlessly, FoldAll, RunningOf;
    hide Presented, BatchValue, Numbers, ResultBase, WithAggregates;
    var o := BatchOutput(cfg, k, events);
    AbsentInBase(cfg, o, i);
    ClearNameIsAlone(cfg.aggs, i, CountFields);
    FoldIsBatch(cfg.aggs, events, i);
    AggregatesAnswer(ResultBase(o), cfg.aggs, PresentedAll(cfg.aggs, o.folds), i);
    PresentedIsBatch(cfg.aggs[i].function_, Numbers(events, cfg.aggs[i].field, CountNumeric));
  }

  lemma AbsentInBase(cfg: Config, o: Output, i: nat)
    requires i < |cfg.aggs| && ClearName(cfg.aggs, i, CountFields)
    ensures GetField(ResultBase(o), cfg.aggs[i].name) == None
  {
    var name := cfg.aggs[i].name;
    var empty := Event(Some(map[]), Metadata("", 0, 0, None), o.timestamp, None);
    var one := SetField(empty, WindowKey, Str(o.key));
    var two := SetField(one, WindowStart, Time(o.start));
    assert CountFields[0] == WindowKey && CountFields[1] == WindowStart && CountFields[2] == EventCount;
    FieldLaws(empty, WindowKey, Str(o.key), name);
    FieldLaws(one, WindowStart, Time(o.start), name);
    FieldLaws(two, EventCount, Num(Int, o.count as real), name);
  }
}
