/** `aggregate.window` as atomic sections that may interleave in any order: the locked part of Execute,
    its later unlocked emit, timers firing and their callbacks, forced emits and Stop. */
module WindowSpec {
  import opened Text
  import opened Event
  import opened Aggregate

  datatype Config = Config(keyField: string, maxEvents: int, maxDuration: int, aggs: seq<Aggregation>)

  /** Only string keys are accepted. */
  function KeyOf(cfg: Config, e: Event): Option<string> {
    match GetField(e, cfg.keyField) case Some(Str(s)) => Some(s) case _ => None
  }

  datatype Window = Window(start: int, end: int, events: seq<Event>, aggregates: Fold)

  /** A window closed out at `at`; `forced` by ForceEmitAllWindows or not. */
  datatype Closed = Closed(key: string, window: Window, at: int, forced: bool)

  /** `entries` holds the timer of a key, `armed` the timers that have neither fired nor been stopped,
      `callbacks` the fired timers yet to run, `pending` the Execute calls between unlock and emit. */
  datatype State = State(windows: map<string, Window>, entries: map<string, nat>, armed: map<nat, string>,
                         nextTimer: nat, callbacks: multiset<string>, pending: multiset<string>,
                         closed: seq<Closed>)

  const Start := State(map[], map[], map[], 0, multiset{}, multiset{}, [])

  // ----- running aggregates -----

  function Bump(fn: Function, r: Running, x: real): Running {
    match fn
    case Count => r.(count := r.count + 1)
    case Sum => r.(sum := r.sum + x, count := r.count + 1)
    case Avg => r.(sum := r.sum + x, count := r.count + 1)
    case Min => Running(r.sum, r.count + 1, if r.min.None? || x < r.min.value then Some(x) else r.min, r.max)
    case Max => Running(r.sum, r.count + 1, r.min, if r.max.None? || x > r.max.value then Some(x) else r.max)
  }

  function First(x: real): Running { Running(x, 1, Some(x), Some(x)) }

  function Updated(agg: Aggregation, f: Fold, e: Event): Fold {
    match GetField(e, agg.field)
    case None => f
    case Some(v) =>
      match WindowNumeric(v)
      case None => f
      case Some(x) => f[agg.name := if agg.name in f then Bump(agg.function_, f[agg.name], x) else First(x)]
  }

  function UpdatedAll(aggs: seq<Aggregation>, f: Fold, e: Event): Fold {
    if aggs == [] then f else Updated(aggs[|aggs| - 1], UpdatedAll(aggs[..|aggs| - 1], f, e), e)
  }

  /** The batch fold over a window's events. */
  function FoldAll(aggs: seq<Aggregation>, events: seq<Event>): Fold {
    if events == [] then map[] else UpdatedAll(aggs, FoldAll(aggs, events[..|events| - 1]), events[|events| - 1])
  }

  // ----- steps -----

  datatype Op =
    | Arrive(e: Event, now: int)
    | EmitPending(key: string, now: int)
    | Fire(timer: nat)
    | Callback(key: string, cancelled: bool, now: int)
    | ForceEmitAll(order: seq<string>, now: int)
    | Stop

  /** Disarms the timer of `k`, if it has one. */
  function Unscheduled(s: State, k: string): State {
    if k in s.entries then s.(entries := s.entries - {k}, armed := s.armed - {s.entries[k]}) else s
  }

  function Scheduled(s: State, k: string): State {
    var t := Unscheduled(s, k);
    t.(entries := t.entries[k := t.nextTimer], armed := t.armed[t.nextTimer := k], nextTimer := t.nextTimer + 1)
  }

  /** The state in which `k` has a window. */
  function Opened(cfg: Config, s: State, k: string, now: int): State {
    if k in s.windows then s
    else
      var t := s.(windows := s.windows[k := Window(now, now + cfg.maxDuration, [], map[])]);
      if cfg.maxDuration > 0 then Scheduled(t, k) else t
  }

  function Grown(cfg: Config, w: Window, e: Event): Window {
    w.(events := w.events + [e], aggregates := UpdatedAll(cfg.aggs, w.aggregates, e))
  }

  /** The locked part of Execute: a full window is left for a later emit. */
  function Accepted(cfg: Config, s: State, k: string, e: Event, now: int): State {
    var t := Opened(cfg, s, k, now);
    var w := Grown(cfg, t.windows[k], e);
    t.(windows := t.windows[k := w],
       pending := if cfg.maxEvents > 0 && |w.events| >= cfg.maxEvents then t.pending + multiset{k} else t.pending)
  }

  /** The locked part of emitWindowResults: whatever window `k` has now is closed out. */
  function Emitted(s: State, k: string, now: int): State {
    if k !in s.windows then s
    else Unscheduled(s.(windows := s.windows - {k}, closed := s.closed + [Closed(k, s.windows[k], now, false)]), k)
  }

  function AllStopped(s: State): State {
    s.(entries := map[], armed := s.armed - s.entries.Values)
  }

  predicate IsOrderOf(order: seq<string>, windows: map<string, Window>) {
    && (forall i, j :: 0 <= i < j < |order| ==> order[i] != order[j])
    && (forall k :: k in order ==> k in windows) && (forall k :: k in windows ==> k in order)
  }

  function ForcedAll(order: seq<string>, windows: map<string, Window>, now: int): seq<Closed>
    requires forall k :: k in order ==> k in windows
  {
    if order == [] then []
    else
      var last := order[|order| - 1];
      ForcedAll(order[..|order| - 1], windows, now) + [Closed(last, windows[last], now, true)]
  }

  /** A step that is not enabled changes nothing. */
  function Step(cfg: Config, s: State, op: Op): State {
    match op
    case Arrive(e, now) => (match KeyOf(cfg, e) case None => s case Some(k) => Accepted(cfg, s, k, e, now))
    case EmitPending(k, now) => if k in s.pending then Emitted(s.(pending := s.pending - multiset{k}), k, now) else s
    case Fire(t) => if t in s.armed then s.(armed := s.armed - {t}, callbacks := s.callbacks + multiset{s.armed[t]})
                    else s
    case Callback(k, cancelled, now) =>
      if k !in s.callbacks then s
      else
        var t := s.(callbacks := s.callbacks - multiset{k});
        if cancelled then t else Emitted(t, k, now)
    case ForceEmitAll(order, now) =>
      if IsOrderOf(order, s.windows)
      then AllStopped(s.(windows := map[], closed := s.closed + ForcedAll(order, s.windows, now)))
      else s
    case Stop => AllStopped(s)
  }

  function Run(cfg: Config, ops: seq<Op>): State {
    if ops == [] then Start else Step(cfg, Run(cfg, ops[..|ops| - 1]), ops[|ops| - 1])
  }

  lemma LastStep(cfg: Config, ops: seq<Op>)
    requires ops != []
    ensures Run(cfg, ops) == Step(cfg, Run(cfg, ops[..|ops| - 1]), ops[|ops| - 1])
  {
    hide Step;
  }

  // ----- conservation -----

  function OpenEvents(s: State, k: string): seq<Event> {
    if k in s.windows then s.windows[k].events else []
  }

  function ClosedEvents(closed: seq<Closed>, k: string): seq<Event> {
    if closed == [] then []
    else
      var last := closed[|closed| - 1];
      ClosedEvents(closed[..|closed| - 1], k) + if last.key == k then last.window.events else []
  }

  function Arrival(cfg: Config, op: Op, k: string): seq<Event> {
    if op.Arrive? && KeyOf(cfg, op.e) == Some(k) then [op.e] else []
  }

  /** The accepted events of key `k`, in order. */
  function EventsOf(cfg: Config, ops: seq<Op>, k: string): seq<Event> {
    if ops == [] then [] else EventsOf(cfg, ops[..|ops| - 1], k) + Arrival(cfg, ops[|ops| - 1], k)
  }

  function Held(s: State, k: string): seq<Event> {
    ClosedEvents(s.closed, k) + OpenEvents(s, k)
  }

  /** In every interleaving, the closed windows of a key and its open one hold the key's accepted events,
      each once and in order of arrival. */
  lemma {:induction false} EventsConserved(cfg: Config, ops: seq<Op>, k: string)
    ensures Held(Run(cfg, ops), k) == EventsOf(cfg, ops, k)
  {
    if ops != [] {
      var init, op := ops[..|ops| - 1], ops[|ops| - 1];
      EventsConserved(cfg, init, k);
      hide Step, Held, Arrival;
      StepConserves(cfg, Run(cfg, init), op, k);
    }
  }

  lemma StepConserves(cfg: Config, s: State, op: Op, k: string)
    ensures Held(Step(cfg, s, op), k) == Held(s, k) + Arrival(cfg, op, k)
  {
    hide Held, Emitted, Accepted, AllStopped, KeyOf, Unscheduled;
    assert Held(s, k) + [] == Held(s, k);
    match op
    case Arrive(e, now) =>
      if KeyOf(cfg, e).Some? { AcceptedConserves(cfg, s, KeyOf(cfg, e).value, e, now, k); }
    case EmitPending(j, now) =>
      SameHeld(s, s.(pending := s.pending - multiset{j}), k);
      EmittedConserves(s.(pending := s.pending - multiset{j}), j, now, k);
    case Fire(t) =>
      SameHeld(s, Step(cfg, s, op), k);
    case Callback(j, cancelled, now) =>
      SameHeld(s, s.(callbacks := s.callbacks - multiset{j}), k);
      EmittedConserves(s.(callbacks := s.callbacks - multiset{j}), j, now, k);
    case ForceEmitAll(order, now) =>
      if IsOrderOf(order, s.windows) { ForcedConserves(s, order, now, k); }
    case Stop =>
      hide *;
      StoppedHeld(s, k);
  }

  lemma StoppedHeld(s: State, k: string)
    ensures Held(AllStopped(s), k) == Held(s, k)
  {
  }

  lemma SameHeld(s: State, t: State, k: string)
    requires s.windows == t.windows && s.closed == t.closed
    ensures Held(s, k) == Held(t, k)
  {
  }

  lemma AcceptedConserves(cfg: Config, s: State, j: string, e: Event, now: int, k: string)
    ensures Held(Accepted(cfg, s, j, e, now), k) == Held(s, k) + if j == k then [e] else []
  {
    hide UpdatedAll, ClosedEvents, Scheduled;
    var before := ClosedEvents(s.closed, k);
    assert Accepted(cfg, s, j, e, now).closed == s.closed by { OpenedKeeps(cfg, s, j, now); }
    assert OpenEvents(Accepted(cfg, s, j, e, now), k) == OpenEvents(s, k) + if j == k then [e] else [] by {
      OpenedKeeps(cfg, s, j, now);
    }
    hide OpenEvents, Accepted, Opened;
    assert before + (OpenEvents(s, k) + [e]) == before + OpenEvents(s, k) + [e];
    assert before + (OpenEvents(s, k) + []) == before + OpenEvents(s, k) + [];
  }

  /** Opening a window touches nothing but that key's window and its timer. */
  lemma OpenedKeeps(cfg: Config, s: State, k: string, now: int)
    ensures var t := Opened(cfg, s, k, now);
            && t.closed == s.closed && t.pending == s.pending && t.callbacks == s.callbacks
            && t.windows
               == if k in s.windows then s.windows else s.windows[k := Window(now, now + cfg.maxDuration, [], map[])]
  {
  }

  lemma EmittedConserves(s: State, j: string, now: int, k: string)
    ensures Held(Emitted(s, j, now), k) == Held(s, k)
  {
    var t := Emitted(s, j, now);
    if j in s.windows { assert t.closed[..|s.closed|] == s.closed; }
  }

  lemma {:induction false} ForcedEvents(closed: seq<Closed>, order: seq<string>, windows: map<string, Window>,
      now: int, k: string)
    requires forall i, j :: 0 <= i < j < |order| ==> order[i] != order[j]
    requires forall j :: j in order ==> j in windows
    ensures ClosedEvents(closed + ForcedAll(order, windows, now), k)
            == ClosedEvents(closed, k) + if k in order then windows[k].events else []
  {
    if order == [] {
      assert closed + [] == closed;
    } else {
      var init, last := order[..|order| - 1], order[|order| - 1];
      ForcedEvents(closed, init, windows, now, k);
      InPrefix(order, k);
      var forced, c := ForcedAll(init, windows, now), Closed(last, windows[last], now, true);
      assert ForcedAll(order, windows, now) == forced + [c];
      hide ForcedAll, ClosedEvents;
      assert closed + (forced + [c]) == (closed + forced) + [c];
      ClosedOneMore(closed + forced, c, k);
      assert ClosedEvents(closed, k) + [] == ClosedEvents(closed, k);
    }
  }

  lemma InPrefix(order: seq<string>, k: string)
    requires order != [] && forall i, j :: 0 <= i < j < |order| ==> order[i] != order[j]
    ensures k in order <==> k in order[..|order| - 1] || k == order[|order| - 1]
    ensures order[|order| - 1] !in order[..|order| - 1]
  {
    assert order == order[..|order| - 1] + [order[|order| - 1]];
  }

  lemma ClosedOneMore(closed: seq<Closed>, c: Closed, k: string)
    ensures ClosedEvents(closed + [c], k) == ClosedEvents(closed, k) + if c.key == k then c.window.events else []
  {
    assert (closed + [c])[..|closed|] == closed;
  }

  lemma ForcedConserves(s: State, order: seq<string>, now: int, k: string)
    requires IsOrderOf(order, s.windows)
    ensures Held(AllStopped(s.(windows := map[], closed := s.closed + ForcedAll(order, s.windows, now))), k)
        == Held(s, k)
  {
    ForcedEvents(s.closed, order, s.windows, now, k);
  }

  // ----- windows hold batch folds -----

  /** A window that spans the duration and holds events, its running aggregates the batch fold over them. */
  predicate Sound(cfg: Config, w: Window) {
    w.events != [] && w.aggregates == FoldAll(cfg.aggs, w.events) && w.end == w.start + cfg.maxDuration
  }

  ghost predicate AllSound(cfg: Config, s: State) {
    && (forall k :: k in s.windows ==> Sound(cfg, s.windows[k]))
    && (forall i :: 0 <= i < |s.closed| ==> Sound(cfg, s.closed[i].window))
  }

  /** Every window, open or closed out, spans the duration and holds events and their batch fold. */
  lemma {:induction false} WindowsAreSound(cfg: Config, ops: seq<Op>)
    ensures AllSound(cfg, Run(cfg, ops))
  {
    if ops != [] {
      var init, op := ops[..|ops| - 1], ops[|ops| - 1];
      WindowsAreSound(cfg, init);
      hide AllSound, Step;
      StepSound(cfg, Run(cfg, init), op);
    }
  }

  lemma StepSound(cfg: Config, s: State, op: Op)
    requires AllSound(cfg, s)
    ensures AllSound(cfg, Step(cfg, s, op))
  {
    hide Sound, Accepted, KeyOf, AllStopped, ForcedAll, Emitted;
    match op
    case Arrive(e, now) => if KeyOf(cfg, e).Some? { AcceptedSound(cfg, s, KeyOf(cfg, e).value, e, now); }
    case EmitPending(k, now) => EmittedSound(cfg, s.(pending := s.pending - multiset{k}), k, now);
    case Fire(_) =>
    case Callback(k, _, now) => EmittedSound(cfg, s.(callbacks := s.callbacks - multiset{k}), k, now);
    case ForceEmitAll(order, now) =>
      if IsOrderOf(order, s.windows) {
        ForcedSound(cfg, order, s, now);
        StoppedKeeps(s.(windows := map[], closed := s.closed + ForcedAll(order, s.windows, now)));
      }
    case Stop => StoppedKeeps(s);
  }

  lemma StoppedKeeps(s: State)
    ensures var t := AllStopped(s);
        t.windows == s.windows && t.closed == s.closed && t.pending == s.pending && t.callbacks == s.callbacks
    ensures AllStopped(s).entries == map[] && AllStopped(s).nextTimer == s.nextTimer
    ensures AllStopped(s).armed == s.armed - s.entries.Values
  {
  }

  /** Emitting closes out one key's window and leaves the others alone. */
  lemma EmittedKeeps(s: State, k: string, now: int)
    ensures var t := Emitted(s, k, now);
            && t.windows == s.windows - {k} && t.pending == s.pending && t.callbacks == s.callbacks
            && t.closed == if k in s.windows then s.closed + [Closed(k, s.windows[k], now, false)] else s.closed
  {
    if k !in s.windows { assert s.windows == s.windows - {k}; }
  }

  lemma EmittedSound(cfg: Config, s: State, k: string, now: int)
    requires AllSound(cfg, s)
    ensures AllSound(cfg, Emitted(s, k, now))
  {
    EmittedKeeps(s, k, now);
    hide Sound, Emitted;
  }

  lemma GrownSound(cfg: Config, w: Window, e: Event)
    requires w.aggregates == FoldAll(cfg.aggs, w.events) && w.end == w.start + cfg.maxDuration
    ensures Sound(cfg, Grown(cfg, w, e))
  {
    hide UpdatedAll;
    assert (w.events + [e])[..|w.events|] == w.events;
  }

  lemma AcceptedSound(cfg: Config, s: State, k: string, e: Event, now: int)
    requires AllSound(cfg, s)
    ensures AllSound(cfg, Accepted(cfg, s, k, e, now))
  {
    hide Opened, Grown, FoldAll, UpdatedAll, Sound;
    OpenedKeeps(cfg, s, k, now);
    OpenedFolds(cfg, s, k, now);
    var t, u := Opened(cfg, s, k, now), Accepted(cfg, s, k, e, now);
    GrownSound(cfg, t.windows[k], e);
    assert u.closed == t.closed && u.windows == t.windows[k := Grown(cfg, t.windows[k], e)];
  }

  lemma OpenedFolds(cfg: Config, s: State, k: string, now: int)
    requires AllSound(cfg, s)
    ensures var w := Opened(cfg, s, k, now).windows[k];
        w.aggregates == FoldAll(cfg.aggs, w.events) && w.end == w.start + cfg.maxDuration
  {
    hide UpdatedAll;
  }

  lemma {:induction false} ForcedSound(cfg: Config, order: seq<string>, s: State, now: int)
    requires AllSound(cfg, s) && forall k :: k in order ==> k in s.windows
    ensures forall i :: 0 <= i < |ForcedAll(order, s.windows, now)| ==>
        Sound(cfg, ForcedAll(order, s.windows, now)[i].window)
  {
    hide Sound;
    if order != [] {
      ForcedSound(cfg, order[..|order| - 1], s, now);
      assert order[|order| - 1] in order;
    }
  }

  // ----- how far a window may grow -----

  ghost predicate Bounded(cfg: Config, s: State) {
    forall k :: k in s.windows ==> |s.windows[k].events| <= cfg.maxEvents - 1 + s.pending[k]
  }

  /** A window exceeds `maxEvents - 1` by at most the Execute calls of its key that have left the lock and
      not emitted yet; with none of those in between, it never reaches `maxEvents`. */
  lemma {:induction false} GrowthIsBounded(cfg: Config, ops: seq<Op>)
    requires cfg.maxEvents > 0
    ensures Bounded(cfg, Run(cfg, ops))
  {
    if ops != [] {
      GrowthIsBounded(cfg, ops[..|ops| - 1]);
      hide Bounded, Step;
      StepBounded(cfg, Run(cfg, ops[..|ops| - 1]), ops[|ops| - 1]);
    }
  }

  lemma StepBounded(cfg: Config, s: State, op: Op)
    requires cfg.maxEvents > 0 && Bounded(cfg, s)
    ensures Bounded(cfg, Step(cfg, s, op))
  {
    hide Accepted, KeyOf, AllStopped, ForcedAll, Emitted;
    match op
    case Arrive(e, now) =>
      if KeyOf(cfg, e).Some? {
        var k := KeyOf(cfg, e).value;
        OpenedKeeps(cfg, s, k, now);
        AcceptedKeeps(cfg, s, k, e, now);
        hide Opened;
      }
    case EmitPending(k, now) => EmittedKeeps(s.(pending := s.pending - multiset{k}), k, now);
    case Fire(_) =>
    case Callback(k, _, now) => EmittedKeeps(s.(callbacks := s.callbacks - multiset{k}), k, now);
    case ForceEmitAll(order, now) =>
      if IsOrderOf(order, s.windows) {
        StoppedKeeps(s.(windows := map[], closed := s.closed + ForcedAll(order, s.windows, now)));
      }
    case Stop => StoppedKeeps(s);
  }

  lemma AcceptedKeeps(cfg: Config, s: State, k: string, e: Event, now: int)
    ensures var t, u := Opened(cfg, s, k, now), Accepted(cfg, s, k, e, now);
            && u.windows.Keys == t.windows.Keys
            && (forall j :: j in u.windows && j != k ==> u.windows[j] == t.windows[j])
            && |u.windows[k].events| == |t.windows[k].events| + 1
            && u.pending == (var full := cfg.maxEvents > 0 && |u.windows[k].events| >= cfg.maxEvents;
                             if full then t.pending + multiset{k} else t.pending)
            && u.closed == t.closed && u.entries == t.entries && u.armed == t.armed && u.callbacks == t.callbacks
            && u.nextTimer == t.nextTimer
  {
    OpenedKeeps(cfg, s, k, now);
    hide Opened, UpdatedAll;
  }

  // ----- timers -----

  /** Timers are known by handles below `nextTimer`, sit under their own key, and go when their window goes. */
  ghost predicate TimersOwned(s: State) {
    && s.entries.Keys <= s.windows.Keys
    && (forall k :: k in s.entries ==>
        s.entries[k] < s.nextTimer && (s.entries[k] in s.armed ==> s.armed[s.entries[k]] == k))
    && (forall t :: t in s.armed ==> t < s.nextTimer)
  }

  /** No timer entry outlives its window, so opening a window never finds an old timer to cancel. */
  lemma {:induction false} TimersFollowWindows(cfg: Config, ops: seq<Op>)
    ensures TimersOwned(Run(cfg, ops))
  {
    if ops != [] {
      TimersFollowWindows(cfg, ops[..|ops| - 1]);
      hide TimersOwned, Step;
      StepOwnsTimers(cfg, Run(cfg, ops[..|ops| - 1]), ops[|ops| - 1]);
    }
  }

  lemma StepOwnsTimers(cfg: Config, s: State, op: Op)
    requires TimersOwned(s)
    ensures TimersOwned(Step(cfg, s, op))
  {
    hide Accepted, KeyOf, ForcedAll, Emitted;
    match op
    case Arrive(e, now) => if KeyOf(cfg, e).Some? { AcceptedOwnsTimers(cfg, s, KeyOf(cfg, e).value, e, now); }
    case EmitPending(k, now) => EmittedOwnsTimers(s.(pending := s.pending - multiset{k}), k, now);
    case Fire(_) =>
    case Callback(k, _, now) => EmittedOwnsTimers(s.(callbacks := s.callbacks - multiset{k}), k, now);
    case ForceEmitAll(_, _) =>
    case Stop =>
  }

  lemma AcceptedOwnsTimers(cfg: Config, s: State, k: string, e: Event, now: int)
    requires TimersOwned(s)
    ensures TimersOwned(Accepted(cfg, s, k, e, now))
  {
    hide Accepted, Opened;
    OpenedOwnsTimers(cfg, s, k, now);
    AcceptedKeeps(cfg, s, k, e, now);
  }

  lemma OpenedOwnsTimers(cfg: Config, s: State, k: string, now: int)
    requires TimersOwned(s)
    ensures TimersOwned(Opened(cfg, s, k, now))
  {
  }

  lemma EmittedOwnsTimers(s: State, k: string, now: int)
    requires TimersOwned(s)
    ensures TimersOwned(Emitted(s, k, now))
  {
  }
}
