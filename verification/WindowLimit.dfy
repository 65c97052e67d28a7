/** When `aggregate.window` keeps its event limit, over every interleaving. */
module WindowLimit {
  import opened Text
  import opened Event
  import opened WindowSpec

  /** The windows of `k`, the open one and those closed out, hold at most `maxEvents` events each. */
  ghost predicate WithinLimit(cfg: Config, s: State, k: string) {
    && (k in s.windows ==> |s.windows[k].events| <= cfg.maxEvents)
    && forall i :: 0 <= i < |s.closed| && s.closed[i].key == k ==> |s.closed[i].window.events| <= cfg.maxEvents
  }

  /** The event arrives while the window of its key `k` is full and not yet emitted. */
  predicate Overfills(cfg: Config, s: State, op: Op, k: string) {
    op.Arrive? && KeyOf(cfg, op.e) == Some(k) && k in s.windows && |s.windows[k].events| >= cfg.maxEvents
  }

  /** One step keeps the limit exactly when it held and no event arrives at a full window: a window that is
      over the limit stays over it, open or closed out. */
  lemma StepWithin(cfg: Config, s: State, op: Op, k: string)
    requires cfg.maxEvents > 0
    ensures WithinLimit(cfg, Step(cfg, s, op), k) <==> WithinLimit(cfg, s, k) && !Overfills(cfg, s, op, k)
  {
    hide Accepted, KeyOf, Emitted, WithinLimit;
    match op
    case Arrive(e, now) =>
      if KeyOf(cfg, e).Some? { ArrivalWithin(cfg, s, KeyOf(cfg, e).value, e, now, k); }
    case EmitPending(j, now) =>
      SameWithin(cfg, s, s.(pending := s.pending - multiset{j}), k);
      EmitWithin(cfg, s.(pending := s.pending - multiset{j}), j, now, k);
    case Fire(_) => SameWithin(cfg, s, Step(cfg, s, op), k);
    case Callback(j, _, now) =>
      SameWithin(cfg, s, s.(callbacks := s.callbacks - multiset{j}), k);
      EmitWithin(cfg, s.(callbacks := s.callbacks - multiset{j}), j, now, k);
    case ForceEmitAll(order, now) => if IsOrderOf(order, s.windows) { ForceWithin(cfg, s, order, now, k); }
    case Stop => SameWithin(cfg, s, AllStopped(s), k);
  }

  lemma SameWithin(cfg: Config, s: State, t: State, k: string)
    requires s.windows == t.windows && s.closed == t.closed
    ensures WithinLimit(cfg, s, k) <==> WithinLimit(cfg, t, k)
  {
  }

  lemma ArrivalWithin(cfg: Config, s: State, j: string, e: Event, now: int, k: string)
    requires cfg.maxEvents > 0
    ensures WithinLimit(cfg, Accepted(cfg, s, j, e, now), k)
       <==> WithinLimit(cfg, s, k) && !(j == k && k in s.windows && |s.windows[k].events| >= cfg.maxEvents)
  {
    OpenedKeeps(cfg, s, j, now);
    AcceptedKeeps(cfg, s, j, e, now);
    hide Accepted, Opened;
  }

  lemma EmitWithin(cfg: Config, s: State, j: string, now: int, k: string)
    ensures WithinLimit(cfg, Emitted(s, j, now), k) <==> WithinLimit(cfg, s, k)
  {
    EmittedKeeps(s, j, now);
    var t := Emitted(s, j, now);
    hide Emitted;
    if j in s.windows {
      var more := [Closed(j, s.windows[j], now, false)];
      assert more[0].key == j;
      ClosedWithin(cfg, s, t, more, k);
    }
  }

  /** Windows that move from the open ones to the closed ones stay within the limit, or over it. */
  lemma ClosedWithin(cfg: Config, s: State, t: State, more: seq<Closed>, k: string)
    requires t.closed == s.closed + more
    requires forall i :: 0 <= i < |more| ==> more[i].key in s.windows && more[i].window == s.windows[more[i].key]
    requires k in s.windows ==>
        (k in t.windows && t.windows[k] == s.windows[k]) || exists i :: 0 <= i < |more| && more[i].key == k
    requires k in t.windows ==> k in s.windows && t.windows[k] == s.windows[k]
    ensures WithinLimit(cfg, t, k) <==> WithinLimit(cfg, s, k)
  {
    forall i | 0 <= i < |more| ensures t.closed[|s.closed| + i] == more[i] {}
    forall i | 0 <= i < |s.closed| ensures t.closed[i] == s.closed[i] {}
  }

  lemma ForceWithin(cfg: Config, s: State, order: seq<string>, now: int, k: string)
    requires IsOrderOf(order, s.windows)
    ensures WithinLimit(cfg, Step(cfg, s, ForceEmitAll(order, now)), k) <==> WithinLimit(cfg, s, k)
  {
    var t := s.(windows := map[], closed := s.closed + ForcedAll(order, s.windows, now));
    StoppedKeeps(t);
    ForcedAt(order, s.windows, now);
    hide ForcedAll;
    var more := ForcedAll(order, s.windows, now);
    if k in s.windows {
      var i :| 0 <= i < |order| && order[i] == k;
      assert more[i].key == k;
    }
    ClosedWithin(cfg, s, AllStopped(t), more, k);
  }

  lemma {:induction false} ForcedAt(order: seq<string>, windows: map<string, Window>, now: int)
    requires forall k :: k in order ==> k in windows
    ensures var more := ForcedAll(order, windows, now);
            |more| == |order| && forall i :: 0 <= i < |order| ==>
                more[i].key == order[i] && more[i].window == windows[order[i]]
  {
    if order != [] { ForcedAt(order[..|order| - 1], windows, now); }
  }

  /** No event of `k` arrives while its window is full and waits to be emitted. */
  ghost predicate NeverOverfilled(cfg: Config, ops: seq<Op>, k: string) {
    forall i :: 0 <= i < |ops| ==> !Overfills(cfg, Run(cfg, ops[..i]), ops[i], k)
  }

  lemma NeverOverfilledInit(cfg: Config, ops: seq<Op>, k: string)
    requires ops != []
    ensures var n := |ops| - 1;
            NeverOverfilled(cfg, ops, k) <==>
                NeverOverfilled(cfg, ops[..n], k) && !Overfills(cfg, Run(cfg, ops[..n]), ops[n], k)
  {
    hide Overfills, Run;
    var n := |ops| - 1;
    forall i | 0 <= i < n ensures ops[..n][..i] == ops[..i] && ops[..n][i] == ops[i] {}
  }

  /** In every interleaving, all windows of a key, open and closed out, hold at most `maxEvents` events if and
      only if no event of the key arrives while its window is full and waits to be emitted. */
  lemma {:induction false} LimitHoldsExactly(cfg: Config, ops: seq<Op>, k: string)
    requires cfg.maxEvents > 0
    ensures WithinLimit(cfg, Run(cfg, ops), k) <==> NeverOverfilled(cfg, ops, k)
  {
    if ops != [] {
      hide WithinLimit, Step, Overfills, NeverOverfilled;
      var n := |ops| - 1;
      LimitHoldsExactly(cfg, ops[..n], k);
      StepWithin(cfg, Run(cfg, ops[..n]), ops[n], k);
      NeverOverfilledInit(cfg, ops, k);
    }
  }

  // ----- late emits -----

  /** A call that filled an earlier window of `k` emits, and finds a newer one that is not full. */
  predicate MeetsNewer(cfg: Config, s: State, op: Op, k: string) {
    op.EmitPending? && op.key == k && k in s.pending && k in s.windows && |s.windows[k].events| < cfg.maxEvents
  }

  /** What a step closes out if it is a late emit of `k`. */
  function Late(s: State, op: Op, k: string): seq<Closed> {
    if op.EmitPending? && op.key == k && k in s.pending && k in s.windows
    then [Closed(k, s.windows[k], op.now, false)] else []
  }

  /** What the late emits of `k` close out, oldest first. */
  function LateClosed(cfg: Config, ops: seq<Op>, k: string): seq<Closed> {
    if ops == [] then []
    else LateClosed(cfg, ops[..|ops| - 1], k) + Late(Run(cfg, ops[..|ops| - 1]), ops[|ops| - 1], k)
  }

  lemma LateEmitCloses(cfg: Config, s: State, k: string, now: int)
    ensures Step(cfg, s, EmitPending(k, now)).closed == s.closed + Late(s, EmitPending(k, now), k)
  {
    EmittedKeeps(s.(pending := s.pending - multiset{k}), k, now);
    hide Emitted;
    assert s.closed + [] == s.closed;
  }

  /** No late emit of `k` meets a newer window that is not full. */
  ghost predicate NeverMeetsNewer(cfg: Config, ops: seq<Op>, k: string) {
    forall i :: 0 <= i < |ops| ==> !MeetsNewer(cfg, Run(cfg, ops[..i]), ops[i], k)
  }

  lemma NeverMeetsNewerInit(cfg: Config, ops: seq<Op>, k: string)
    requires ops != []
    ensures var n := |ops| - 1;
            NeverMeetsNewer(cfg, ops, k) <==>
                NeverMeetsNewer(cfg, ops[..n], k) && !MeetsNewer(cfg, Run(cfg, ops[..n]), ops[n], k)
  {
    hide MeetsNewer, Run;
    var n := |ops| - 1;
    forall i | 0 <= i < n ensures ops[..n][..i] == ops[..i] && ops[..n][i] == ops[i] {}
  }

  ghost predicate AllFull(cfg: Config, closed: seq<Closed>) {
    forall c :: c in closed ==> |c.window.events| >= cfg.maxEvents
  }

  /** In every interleaving, every window that a late emit of the key closes out holds at least `maxEvents`
      events if and only if no late emit meets a newer window that is not full. */
  lemma {:induction false} LateEmitsCloseFullWindows(cfg: Config, ops: seq<Op>, k: string)
    ensures AllFull(cfg, LateClosed(cfg, ops, k)) <==> NeverMeetsNewer(cfg, ops, k)
  {
    if ops != [] {
      var n := |ops| - 1;
      var s := Run(cfg, ops[..n]);
      var before, late := LateClosed(cfg, ops[..n], k), Late(s, ops[n], k);
      LateEmitsCloseFullWindows(cfg, ops[..n], k);
      NeverMeetsNewerInit(cfg, ops, k);
      assert MeetsNewer(cfg, s, ops[n], k) <==> late != [] && |late[0].window.events| < cfg.maxEvents;
      hide Run, MeetsNewer, NeverMeetsNewer, Late;
      assert AllFull(cfg, before + late) <==> AllFull(cfg, before) && AllFull(cfg, late);
      assert late != [] ==> late[0] in late;
    }
  }

  /** With both conditions met, every late emit closes out exactly `maxEvents` events. */
  lemma LateEmitsAreExact(cfg: Config, ops: seq<Op>, k: string, c: Closed)
    requires cfg.maxEvents > 0 && c in LateClosed(cfg, ops, k)
    requires NeverOverfilled(cfg, ops, k) && NeverMeetsNewer(cfg, ops, k)
    ensures |c.window.events| == cfg.maxEvents
  {
    LimitHoldsExactly(cfg, ops, k);
    LateEmitsCloseFullWindows(cfg, ops, k);
    hide NeverOverfilled, NeverMeetsNewer;
    LateIsClosed(cfg, ops, k, c);
  }

  lemma {:induction false} LateIsClosed(cfg: Config, ops: seq<Op>, k: string, c: Closed)
    requires c in LateClosed(cfg, ops, k)
    ensures c in Run(cfg, ops).closed && c.key == k
  {
    var n := |ops| - 1;
    var s, op := Run(cfg, ops[..n]), ops[n];
    if c in LateClosed(cfg, ops[..n], k) {
      LateIsClosed(cfg, ops[..n], k, c);
      ClosedStays(cfg, s, op, c);
    } else {
      LateEmitCloses(cfg, s, k, op.now);
    }
    hide Step;
  }

  lemma ClosedStays(cfg: Config, s: State, op: Op, c: Closed)
    requires c in s.closed
    ensures c in Step(cfg, s, op).closed
  {
    hide Accepted, KeyOf, Emitted, ForcedAll;
    match op
    case Arrive(e, now) =>
      if KeyOf(cfg, e).Some? {
        OpenedKeeps(cfg, s, KeyOf(cfg, e).value, now);
        AcceptedKeeps(cfg, s, KeyOf(cfg, e).value, e, now);
        hide Opened;
      }
    case EmitPending(k, now) => EmittedKeeps(s.(pending := s.pending - multiset{k}), k, now);
    case Fire(_) =>
    case Callback(k, _, now) => EmittedKeeps(s.(callbacks := s.callbacks - multiset{k}), k, now);
    case ForceEmitAll(_, _) =>
    case Stop =>
  }

  // ----- which interleavings lead there -----

  /** Calls of `k` that wait to emit find the window they filled, or a newer one that is full as well. */
  predicate CallsFindFull(cfg: Config, s: State, k: string) {
    k in s.pending ==> k in s.windows && |s.windows[k].events| >= cfg.maxEvents
  }

  /** The window of `k` goes to one emit while a call of `k` still waits: to another call, to a timer's callback,
      or to a forced emit. */
  ghost predicate Overtakes(s: State, op: Op, k: string) {
    match op
    case EmitPending(j, _) => j == k && s.pending[k] >= 2
    case Callback(j, cancelled, _) => j == k && !cancelled && k in s.callbacks && k in s.pending
    case ForceEmitAll(order, _) => IsOrderOf(order, s.windows) && k in s.pending
    case _ => false
  }

  lemma StepFindsFull(cfg: Config, s: State, op: Op, k: string)
    requires cfg.maxEvents > 0 && CallsFindFull(cfg, s, k)
    ensures CallsFindFull(cfg, Step(cfg, s, op), k) <==> !Overtakes(s, op, k)
  {
    hide Accepted, KeyOf, Emitted, ForcedAll;
    match op
    case Arrive(e, now) => if KeyOf(cfg, e).Some? { ArrivalFindsFull(cfg, s, KeyOf(cfg, e).value, e, now, k); }
    case EmitPending(j, now) => EmitFindsFull(cfg, s, s.(pending := s.pending - multiset{j}), j, now, k);
    case Fire(_) =>
    case Callback(j, _, now) => EmitFindsFull(cfg, s, s.(callbacks := s.callbacks - multiset{j}), j, now, k);
    case ForceEmitAll(_, _) =>
    case Stop =>
  }

  lemma ArrivalFindsFull(cfg: Config, s: State, j: string, e: Event, now: int, k: string)
    requires cfg.maxEvents > 0 && CallsFindFull(cfg, s, k)
    ensures CallsFindFull(cfg, Accepted(cfg, s, j, e, now), k)
  {
    OpenedKeeps(cfg, s, j, now);
    AcceptedKeeps(cfg, s, j, e, now);
    hide Accepted, Opened;
  }

  /** The emit of `j` from `t`, in which one call or callback of `s` has gone on to it. */
  lemma EmitFindsFull(cfg: Config, s: State, t: State, j: string, now: int, k: string)
    requires CallsFindFull(cfg, s, k) && t.windows == s.windows && t.pending <= s.pending
    ensures CallsFindFull(cfg, Emitted(t, j, now), k) <==> CallsFindFull(cfg, t, k) && !(j == k && k in t.pending)
  {
    EmittedKeeps(t, j, now);
    hide Emitted;
  }

  ghost predicate NeverOvertaken(cfg: Config, ops: seq<Op>, k: string) {
    forall i :: 0 <= i < |ops| ==> !Overtakes(Run(cfg, ops[..i]), ops[i], k)
  }

  ghost predicate AlwaysFindFull(cfg: Config, ops: seq<Op>, k: string) {
    forall i :: 0 <= i <= |ops| ==> CallsFindFull(cfg, Run(cfg, ops[..i]), k)
  }

  lemma OvertakenInit(cfg: Config, ops: seq<Op>, k: string)
    requires ops != []
    ensures var n := |ops| - 1;
            && (NeverOvertaken(cfg, ops, k) <==>
                NeverOvertaken(cfg, ops[..n], k) && !Overtakes(Run(cfg, ops[..n]), ops[n], k))
            && (AlwaysFindFull(cfg, ops, k) <==>
                AlwaysFindFull(cfg, ops[..n], k) && CallsFindFull(cfg, Run(cfg, ops), k))
  {
    hide Overtakes, Run, CallsFindFull;
    var n := |ops| - 1;
    assert ops[..n + 1] == ops;
    forall i | 0 <= i <= n ensures ops[..n][..i] == ops[..i] {}
    forall i | 0 <= i < n ensures ops[..n][i] == ops[i] {}
  }

  lemma LastFindsFull(cfg: Config, ops: seq<Op>, k: string)
    requires AlwaysFindFull(cfg, ops, k)
    ensures CallsFindFull(cfg, Run(cfg, ops), k)
  {
    hide CallsFindFull, Run;
    assert ops[..|ops|] == ops;
  }

  /** In every interleaving: the calls of a key that wait to emit find a full window all along if and only if its
      window never goes to another emit while one of them waits. */
  lemma {:induction false} CallsFindFullExactly(cfg: Config, ops: seq<Op>, k: string)
    requires cfg.maxEvents > 0
    ensures AlwaysFindFull(cfg, ops, k) <==> NeverOvertaken(cfg, ops, k)
  {
    if ops != [] {
      hide CallsFindFull, Step, Overtakes, NeverOvertaken, AlwaysFindFull, Run;
      var n := |ops| - 1;
      CallsFindFullExactly(cfg, ops[..n], k);
      OvertakenInit(cfg, ops, k);
      if AlwaysFindFull(cfg, ops[..n], k) {
        LastFindsFull(cfg, ops[..n], k);
        StepFindsFull(cfg, Run(cfg, ops[..n]), ops[n], k);
        LastStep(cfg, ops);
      }
    }
  }

  /** Then every late emit closes out a full window, and with the limit kept as well, exactly a full one. */
  lemma UnovertakenEmitsAreFull(cfg: Config, ops: seq<Op>, k: string, c: Closed)
    requires cfg.maxEvents > 0 && c in LateClosed(cfg, ops, k) && NeverOvertaken(cfg, ops, k)
    ensures |c.window.events| >= cfg.maxEvents
    ensures NeverOverfilled(cfg, ops, k) ==> |c.window.events| == cfg.maxEvents
  {
    CallsFindFullExactly(cfg, ops, k);
    assert NeverMeetsNewer(cfg, ops, k) by {
      hide NeverOvertaken, Run, LateClosed, NeverOverfilled;
      forall i | 0 <= i < |ops| ensures !MeetsNewer(cfg, Run(cfg, ops[..i]), ops[i], k) {
        assert CallsFindFull(cfg, Run(cfg, ops[..i]), k);
      }
    }
    LateEmitsCloseFullWindows(cfg, ops, k);
    hide NeverOverfilled, NeverMeetsNewer, NeverOvertaken, LateClosed;
    if NeverOverfilled(cfg, ops, k) { LateEmitsAreExact(cfg, ops, k, c); }
  }
}
