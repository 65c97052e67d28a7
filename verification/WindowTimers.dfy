/** Which windows of `aggregate.window` still have a timer to close them, and exactly when one is forgotten. */
module WindowTimers {
  import opened Text
  import opened Event
  import opened WindowSpec
  import CountSpec
  import WindowResults

  /** The timer of `k` has neither fired nor been stopped. */
  predicate ArmedAt(s: State, k: string) {
    k in s.entries && s.entries[k] in s.armed && s.armed[s.entries[k]] == k
  }

  predicate WatchedAt(s: State, k: string) {
    k in s.callbacks || ArmedAt(s, k)
  }

  /** Every open window has an armed timer or a callback about to run. */
  ghost predicate Watched(s: State) {
    forall k :: k in s.windows ==> WatchedAt(s, k)
  }

  /** Stop while a window has no fired timer yet to run, or the last fired timer of an open window finds its
      context cancelled and no other is armed. */
  ghost predicate Forgets(s: State, op: Op) {
    match op
    case Stop => exists k :: k in s.windows && k !in s.callbacks
    case Callback(k, true, _) => k in s.windows && s.callbacks[k] == 1 && !ArmedAt(s, k)
    case _ => false
  }

  /** One step keeps every window watched exactly when it does not forget one. */
  lemma StepWatches(cfg: Config, s: State, op: Op)
    requires cfg.maxDuration > 0 && TimersOwned(s) && Watched(s)
    ensures Watched(Step(cfg, s, op)) <==> !Forgets(s, op)
  {
    hide Accepted, KeyOf, ForcedAll, Emitted;
    match op
    case Arrive(e, now) => if KeyOf(cfg, e).Some? { AcceptedWatches(cfg, s, KeyOf(cfg, e).value, e, now); }
    case EmitPending(k, now) => EmittedWatches(s.(pending := s.pending - multiset{k}), k, now);
    case Fire(_) =>
    case Callback(k, cancelled, now) =>
      var t := s.(callbacks := s.callbacks - multiset{k});
      if !cancelled {
        EmittedWatches(t, k, now);
      } else if k in s.callbacks {
        CancelledWatches(s, k);
      }
    case ForceEmitAll(order, _) =>
    case Stop => StoppedWatches(s);
  }

  lemma CancelledWatches(s: State, k: string)
    requires Watched(s) && k in s.callbacks
    ensures Watched(s.(callbacks := s.callbacks - multiset{k})) <==> !Forgets(s, Callback(k, true, 0))
  {
    var t := s.(callbacks := s.callbacks - multiset{k});
    assert WatchedAt(t, k) <==> s.callbacks[k] > 1 || ArmedAt(s, k);
    forall j | j in s.windows && j != k ensures WatchedAt(t, j) { assert WatchedAt(s, j); }
  }

  lemma StoppedWatches(s: State)
    ensures Watched(AllStopped(s)) <==> !Forgets(s, Op.Stop)
  {
    assert forall k :: WatchedAt(AllStopped(s), k) <==> k in s.callbacks;
  }

  lemma AcceptedWatches(cfg: Config, s: State, k: string, e: Event, now: int)
    requires cfg.maxDuration > 0 && TimersOwned(s) && Watched(s)
    ensures Watched(Accepted(cfg, s, k, e, now))
  {
    AcceptedKeeps(cfg, s, k, e, now);
    hide Accepted;
    assert Watched(Opened(cfg, s, k, now));
    hide Opened;
  }

  lemma EmittedWatches(s: State, k: string, now: int)
    requires TimersOwned(s) && forall j :: j in s.windows && j != k ==> WatchedAt(s, j)
    ensures Watched(Emitted(s, k, now))
  {
  }

  // ----- whole runs -----

  ghost predicate NeverForgets(cfg: Config, ops: seq<Op>) {
    forall i :: 0 <= i < |ops| ==> !Forgets(Run(cfg, ops[..i]), ops[i])
  }

  ghost predicate AlwaysWatched(cfg: Config, ops: seq<Op>) {
    forall i :: 0 <= i <= |ops| ==> Watched(Run(cfg, ops[..i]))
  }

  lemma NeverForgetsInit(cfg: Config, ops: seq<Op>)
    requires ops != []
    ensures var n := |ops| - 1;
            NeverForgets(cfg, ops) <==> NeverForgets(cfg, ops[..n]) && !Forgets(Run(cfg, ops[..n]), ops[n])
  {
    hide Forgets, Run;
    var n := |ops| - 1;
    forall i | 0 <= i < n ensures ops[..n][..i] == ops[..i] && ops[..n][i] == ops[i] {}
  }

  lemma AlwaysWatchedInit(cfg: Config, ops: seq<Op>)
    requires ops != []
    ensures var n := |ops| - 1;
            AlwaysWatched(cfg, ops) <==> AlwaysWatched(cfg, ops[..n]) && Watched(Run(cfg, ops))
  {
    hide Run, Watched;
    var n := |ops| - 1;
    assert ops[..n + 1] == ops;
    forall i | 0 <= i <= n ensures ops[..n][..i] == ops[..i] {}
  }

  /** With a duration set, in every interleaving: every open window is watched all along if and only if no step
      forgets one. */
  lemma {:induction false} NoWindowForgotten(cfg: Config, ops: seq<Op>)
    requires cfg.maxDuration > 0
    ensures AlwaysWatched(cfg, ops) <==> NeverForgets(cfg, ops)
  {
    hide *;
    if ops == [] {
      NothingToForget(cfg);
    } else {
      var n := |ops| - 1;
      NoWindowForgotten(cfg, ops[..n]);
      TimersFollowWindows(cfg, ops[..n]);
      NeverForgetsInit(cfg, ops);
      AlwaysWatchedInit(cfg, ops);
      if AlwaysWatched(cfg, ops[..n]) {
        LastIsWatched(cfg, ops[..n]);
        LastStep(cfg, ops);
        StepWatches(cfg, Run(cfg, ops[..n]), ops[n]);
      }
    }
  }

  lemma NothingToForget(cfg: Config)
    ensures AlwaysWatched(cfg, []) && NeverForgets(cfg, [])
  {
  }

  lemma LastIsWatched(cfg: Config, ops: seq<Op>)
    requires AlwaysWatched(cfg, ops)
    ensures Watched(Run(cfg, ops))
  {
    hide Watched, Run;
    assert ops[..|ops|] == ops;
  }

  // ----- without a duration -----

  ghost predicate Untimed(s: State) {
    s.entries == map[] && s.armed == map[] && s.callbacks == multiset{}
  }

  /** Without a positive duration no timer is ever armed, and no callback runs. */
  lemma {:induction false} NoDurationNoTimers(cfg: Config, ops: seq<Op>)
    requires cfg.maxDuration <= 0
    ensures Untimed(Run(cfg, ops))
  {
    if ops != [] {
      NoDurationNoTimers(cfg, ops[..|ops| - 1]);
      hide Step;
      StepUntimed(cfg, Run(cfg, ops[..|ops| - 1]), ops[|ops| - 1]);
    }
  }

  lemma StepUntimed(cfg: Config, s: State, op: Op)
    requires cfg.maxDuration <= 0 && Untimed(s)
    ensures Untimed(Step(cfg, s, op))
  {
    hide UpdatedAll, KeyOf, ForcedAll;
  }

  /** With one, a window that begins has its timer armed by the very arrival that begins it. */
  lemma DurationArms(cfg: Config, s: State, e: Event, now: int, k: string)
    requires cfg.maxDuration > 0 && KeyOf(cfg, e) == Some(k) && k !in s.windows
    ensures ArmedAt(Step(cfg, s, Arrive(e, now)), k)
  {
    hide UpdatedAll, KeyOf;
  }

  // ----- what becomes of a forgotten window -----

  /** Armed timers are the present timers of their keys. */
  ghost predicate ArmedInEntries(s: State) {
    forall t :: t in s.armed ==> s.armed[t] in s.entries && s.entries[s.armed[t]] == t
  }

  lemma {:induction false} ArmedTimersAreEntries(cfg: Config, ops: seq<Op>)
    ensures ArmedInEntries(Run(cfg, ops))
  {
    if ops != [] {
      ArmedTimersAreEntries(cfg, ops[..|ops| - 1]);
      hide ArmedInEntries, Step;
      StepArmed(cfg, Run(cfg, ops[..|ops| - 1]), ops[|ops| - 1]);
    }
  }

  lemma StepArmed(cfg: Config, s: State, op: Op)
    requires ArmedInEntries(s)
    ensures ArmedInEntries(Step(cfg, s, op))
  {
    hide Accepted, KeyOf, ForcedAll, Emitted;
    match op
    case Arrive(e, now) => if KeyOf(cfg, e).Some? { AcceptedArmed(cfg, s, KeyOf(cfg, e).value, e, now); }
    case EmitPending(k, now) => EmittedArmed(s.(pending := s.pending - multiset{k}), k, now);
    case Fire(_) =>
    case Callback(k, _, now) => EmittedArmed(s.(callbacks := s.callbacks - multiset{k}), k, now);
    case ForceEmitAll(_, _) =>
    case Stop =>
  }

  lemma AcceptedArmed(cfg: Config, s: State, k: string, e: Event, now: int)
    requires ArmedInEntries(s)
    ensures ArmedInEntries(Accepted(cfg, s, k, e, now))
  {
    AcceptedKeeps(cfg, s, k, e, now);
    hide Accepted;
    assert ArmedInEntries(Opened(cfg, s, k, now));
    hide Opened;
  }

  lemma EmittedArmed(s: State, k: string, now: int)
    requires ArmedInEntries(s)
    ensures ArmedInEntries(Emitted(s, k, now))
  {
  }

  /** An open window no timer will close. */
  predicate Forgotten(s: State, k: string) {
    k in s.windows && !WatchedAt(s, k)
  }

  /** A late emit of `k`, or a forced one. */
  ghost predicate Rescues(s: State, op: Op, k: string) {
    match op
    case EmitPending(j, _) => j == k && k in s.pending
    case ForceEmitAll(order, _) => IsOrderOf(order, s.windows)
    case _ => false
  }

  /** Once forgotten, always forgotten: no arrival schedules the window anew, and nothing but an Execute call that
      fills it or a forced emit ever closes it. */
  lemma ForgottenStays(cfg: Config, s: State, op: Op, k: string)
    requires TimersOwned(s) && ArmedInEntries(s) && Forgotten(s, k)
    ensures Forgotten(Step(cfg, s, op), k) <==> !Rescues(s, op, k)
    ensures Rescues(s, op, k) ==> k !in Step(cfg, s, op).windows
  {
    hide Accepted, KeyOf, ForcedAll, Emitted;
    match op
    case Arrive(e, now) => if KeyOf(cfg, e).Some? { AcceptedForgets(cfg, s, KeyOf(cfg, e).value, e, now, k); }
    case EmitPending(j, now) => EmittedForgets(s.(pending := s.pending - multiset{j}), j, now, k);
    case Fire(_) =>
    case Callback(j, _, now) => EmittedForgets(s.(callbacks := s.callbacks - multiset{j}), j, now, k);
    case ForceEmitAll(_, _) =>
    case Stop =>
  }

  lemma AcceptedForgets(cfg: Config, s: State, j: string, e: Event, now: int, k: string)
    requires Forgotten(s, k)
    ensures Forgotten(Accepted(cfg, s, j, e, now), k)
  {
    AcceptedKeeps(cfg, s, j, e, now);
    hide Accepted;
    assert Forgotten(Opened(cfg, s, j, now), k);
    hide Opened;
  }

  lemma EmittedForgets(s: State, j: string, now: int, k: string)
    requires Forgotten(s, k)
    ensures if j == k then k !in Emitted(s, j, now).windows else Forgotten(Emitted(s, j, now), k)
  {
  }

  // ----- a window that is forgotten -----

  const Timed := WindowResults.Limit.(maxDuration := 1)

  /** The first timer of a window fires, and its callback finds the context cancelled. */
  lemma CancelledCallbackForgets()
    ensures exists ops :: Forgotten(Run(Timed, ops), "a") && !AlwaysWatched(Timed, ops)
  {
    hide *;
    var one, two, three := Arrive(WindowResults.Sample, 0), Fire(0), Callback("a", true, 1);
    var ops := [] + [one] + [two] + [three];
    WindowResults.RunOneMore(Timed, [], one);
    WindowResults.RunOneMore(Timed, [] + [one], two);
    WindowResults.RunOneMore(Timed, [] + [one] + [two], three);
    Arrived();
    FiredInVain(Run(Timed, [] + [one]));
    if AlwaysWatched(Timed, ops) {
      LastIsWatched(Timed, ops);
      NotForgotten(Run(Timed, ops), "a");
    }
  }

  lemma NotForgotten(s: State, k: string)
    requires Watched(s)
    ensures !Forgotten(s, k)
  {
  }

  /** A single window, with its timer armed. */
  predicate Waits(s: State) {
    s.windows.Keys == {"a"} && s.entries == map["a" := 0] && s.armed == map[0 := "a"] && s.callbacks == multiset{}
  }

  lemma Arrived()
    ensures Waits(Step(Timed, Run(Timed, []), Arrive(WindowResults.Sample, 0)))
  {
    assert KeyOf(Timed, WindowResults.Sample) == Some("a") by { CountSpec.DotFreePath("k"); }
    hide KeyOf, Accepted;
    OpenedKeeps(Timed, Start, "a", 0);
    AcceptedKeeps(Timed, Start, "a", WindowResults.Sample, 0);
  }

  lemma FiredInVain(s: State)
    requires Waits(s)
    ensures Forgotten(Step(Timed, Step(Timed, s, Fire(0)), Callback("a", true, 1)), "a")
  {
  }
}
