/** What an arrival and a closing do to windows, and where windows begin, over every interleaving. */
module WindowLaws {
  import opened Text
  import opened Event
  import opened WindowSpec

  /** The key of an event is the text of its key field; any other value is refused. */
  lemma KeyIsText(cfg: Config, e: Event, k: string)
    ensures KeyOf(cfg, e) == Some(k) <==> GetField(e, cfg.keyField) == Some(Str(k))
  {
  }

  /** An arrival adds the event to its key's window, or begins one at that instant; other windows stay. */
  lemma ArrivalAdds(cfg: Config, s: State, e: Event, now: int, k: string)
    requires GetField(e, cfg.keyField) == Some(Str(k))
    ensures var t := Step(cfg, s, Arrive(e, now));
      && t.windows.Keys == s.windows.Keys + {k} && t.closed == s.closed
      && (forall j :: j in s.windows && j != k ==> t.windows[j] == s.windows[j])
      && (k in s.windows ==>
          t.windows[k].(aggregates := map[]) ==
          s.windows[k].(aggregates := map[], events := s.windows[k].events + [e]))
      && (k !in s.windows ==>
          t.windows[k].start == now && t.windows[k].end == now + cfg.maxDuration && t.windows[k].events == [e])
  {
    hide UpdatedAll;
  }

  /** An event without a text under its key field changes nothing. */
  lemma StrangerIsRefused(cfg: Config, s: State, e: Event, now: int)
    requires GetField(e, cfg.keyField).None? || !GetField(e, cfg.keyField).value.Str?
    ensures Step(cfg, s, Arrive(e, now)) == s
  {
  }

  /** The instant of a step that closes windows. */
  function At(op: Op): int {
    match op
    case EmitPending(_, now) => now
    case Callback(_, _, now) => now
    case ForceEmitAll(_, now) => now
    case _ => 0
  }

  /** A step closes out open windows as they are, at its own instant, forced if and only if all are forced out, and
      appends them; a window that goes is closed out. */
  lemma ClosingMoves(cfg: Config, s: State, op: Op)
    requires !op.Arrive?
    ensures var t := Step(cfg, s, op);
      && s.closed <= t.closed && t.windows.Keys <= s.windows.Keys
      && (forall k :: k in t.windows ==> t.windows[k] == s.windows[k])
      && (forall i :: |s.closed| <= i < |t.closed| ==>
          var c := t.closed[i];
          && c.key in s.windows && c.key !in t.windows && c.window == s.windows[c.key] && c.at == At(op)
          && c.forced == op.ForceEmitAll?)
      && (forall k :: k in s.windows && k !in t.windows ==>
          exists i :: |s.closed| <= i < |t.closed| && t.closed[i].key == k)
  {
    hide ForcedAll, Emitted;
    match op
    case EmitPending(k, now) => EmitMoves(s.(pending := s.pending - multiset{k}), k, now);
    case Fire(_) =>
    case Callback(k, _, now) => EmitMoves(s.(callbacks := s.callbacks - multiset{k}), k, now);
    case ForceEmitAll(order, now) =>
      if IsOrderOf(order, s.windows) {
        ForcedMoves(order, s.windows, now);
        var t := Step(cfg, s, op);
        forall i | 0 <= i < |order| ensures t.closed[|s.closed| + i].key == order[i] {}
      }
    case Stop =>
  }

  lemma EmitMoves(s: State, k: string, now: int)
    ensures Emitted(s, k, now).windows == s.windows - {k}
    ensures k !in s.windows ==> Emitted(s, k, now).closed == s.closed
    ensures k in s.windows ==>
      var closed := Emitted(s, k, now).closed;
      && |closed| == |s.closed| + 1 && s.closed <= closed
      && closed[|s.closed|] == Closed(k, s.windows[k], now, false) && closed[|s.closed|].key == k
  {
  }

  lemma {:induction false} ForcedMoves(order: seq<string>, windows: map<string, Window>, now: int)
    requires forall k :: k in order ==> k in windows
    ensures var more := ForcedAll(order, windows, now);
      |more| == |order| && forall i :: 0 <= i < |order| ==> more[i] == Closed(order[i], windows[order[i]], now, true)
  {
    if order != [] { ForcedMoves(order[..|order| - 1], windows, now); }
  }

  // ----- where windows begin -----

  /** The window's first event arrived, under its key, at the instant it starts. */
  ghost predicate Begun(cfg: Config, ops: seq<Op>, k: string, w: Window) {
    && w.events != []
    && exists i :: 0 <= i < |ops| && ArrivedFirst(cfg, ops[i], k, w)
  }

  predicate ArrivedFirst(cfg: Config, op: Op, k: string, w: Window)
    requires w.events != []
  {
    op.Arrive? && op.e == w.events[0] && op.now == w.start && GetField(op.e, cfg.keyField) == Some(Str(k))
  }

  ghost predicate AllBegun(cfg: Config, ops: seq<Op>, s: State) {
    && (forall k :: k in s.windows ==> Begun(cfg, ops, k, s.windows[k]))
    && (forall i :: 0 <= i < |s.closed| ==> Begun(cfg, ops, s.closed[i].key, s.closed[i].window))
  }

  lemma BegunLater(cfg: Config, ops: seq<Op>, op: Op, k: string, w: Window)
    requires Begun(cfg, ops, k, w)
    ensures Begun(cfg, ops + [op], k, w)
  {
    var i :| 0 <= i < |ops| && ArrivedFirst(cfg, ops[i], k, w);
    assert (ops + [op])[i] == ops[i];
  }

  lemma BegunGrown(cfg: Config, ops: seq<Op>, k: string, w: Window, v: Window)
    requires Begun(cfg, ops, k, w) && v.start == w.start && v.events != [] && v.events[0] == w.events[0]
    ensures Begun(cfg, ops, k, v)
  {
    var i :| 0 <= i < |ops| && ArrivedFirst(cfg, ops[i], k, w);
    assert ArrivedFirst(cfg, ops[i], k, v);
  }

  lemma StepBegins(cfg: Config, ops: seq<Op>, s: State, op: Op)
    requires AllBegun(cfg, ops, s)
    ensures AllBegun(cfg, ops + [op], Step(cfg, s, op))
  {
    hide Step, GetField, Begun;
    var t := Step(cfg, s, op);
    forall k | k in s.windows ensures Begun(cfg, ops + [op], k, s.windows[k]) {
      BegunLater(cfg, ops, op, k, s.windows[k]);
    }
    forall i | 0 <= i < |s.closed| ensures Begun(cfg, ops + [op], s.closed[i].key, s.closed[i].window) {
      BegunLater(cfg, ops, op, s.closed[i].key, s.closed[i].window);
    }
    if !op.Arrive? {
      ClosingMoves(cfg, s, op);
    } else if KeyOf(cfg, op.e).None? {
      RefusedKey(cfg, op.e);
      StrangerIsRefused(cfg, s, op.e, op.now);
    } else {
      var k := KeyOf(cfg, op.e).value;
      KeyIsText(cfg, op.e, k);
      ArrivalAdds(cfg, s, op.e, op.now, k);
      ArrivalBegins(cfg, ops, s, t, op, k);
    }
  }

  lemma RefusedKey(cfg: Config, e: Event)
    requires KeyOf(cfg, e).None?
    ensures GetField(e, cfg.keyField).None? || !GetField(e, cfg.keyField).value.Str?
  {
  }

  lemma ArrivalBegins(cfg: Config, ops: seq<Op>, s: State, t: State, op: Op, k: string)
    requires op.Arrive? && GetField(op.e, cfg.keyField) == Some(Str(k)) && k in t.windows
    requires k in s.windows ==>
      && Begun(cfg, ops + [op], k, s.windows[k])
      && t.windows[k].(aggregates := map[]) ==
         s.windows[k].(aggregates := map[], events := s.windows[k].events + [op.e])
    requires k !in s.windows ==> t.windows[k].start == op.now && t.windows[k].events == [op.e]
    ensures Begun(cfg, ops + [op], k, t.windows[k])
  {
    if k in s.windows {
      BegunGrown(cfg, ops + [op], k, s.windows[k], t.windows[k]);
    } else {
      assert (ops + [op])[|ops|] == op && ArrivedFirst(cfg, op, k, t.windows[k]);
    }
  }

  /** In every interleaving, every window, open or closed out, starts at the instant its first event arrived. */
  lemma {:induction false} WindowsStartAtFirstArrival(cfg: Config, ops: seq<Op>)
    ensures AllBegun(cfg, ops, Run(cfg, ops))
  {
    if ops != [] {
      var n := |ops| - 1;
      WindowsStartAtFirstArrival(cfg, ops[..n]);
      assert ops[..n] + [ops[n]] == ops;
      hide Step, AllBegun;
      StepBegins(cfg, ops[..n], Run(cfg, ops[..n]), ops[n]);
    }
  }
}
