/** Which statements stay cached: the statement cache is a recency list, and evicts the least recently used. */
module StatementLaws {
  import opened Text
  import opened Recency
  import Spec = StatementSpec

  /** A step as calls of the recency list; a preparation that the database refuses has still made room. */
  function Calls(s: Spec.State, op: Spec.Op): seq<Timed<nat>> {
    match op
    case Touch(query) => [Timed(0, Get(query))]
    case Prepare(query, ok) =>
      if Find(s.entries, query).Some? then [Timed(0, Get(query))]
      else if ok then [Timed(0, Set(query, s.prepared, 0))]
      else [Timed(0, Set(query, s.prepared, 0)), Timed(0, Delete(query))]
    case Invalidate(query) => [Timed(0, Delete(query))]
    case CloseAll => [Timed(0, Clear)]
  }

  /** The calls that `more` makes after `ops`. */
  function Trace(ops: seq<Spec.Op>, more: seq<Spec.Op>): seq<Timed<nat>> {
    if more == [] then []
    else
      var init := more[..|more| - 1];
      Trace(ops, init) + Calls(Spec.Run(ops + init), more[|more| - 1])
  }

  lemma RunMore(l: Order<nat>, trace: seq<Timed<nat>>, t: Timed<nat>)
    ensures RunFrom(l, 500, trace + [t]) == After(RunFrom(l, 500, trace), 500, t)
  {
    assert (trace + [t])[..|trace|] == trace;
  }

  lemma StepIsCalls(s: Spec.State, op: Spec.Op)
    requires Distinct(s.entries) && forall i :: 0 <= i < |s.entries| ==> s.entries[i].expiry == 0
    ensures var calls := Calls(s, op);
      Spec.Step(s, op).entries ==
        if |calls| == 1 then After(s.entries, 500, calls[0])
        else After(After(s.entries, 500, calls[0]), 500, calls[1])
  {
    match op
    case Touch(_) =>
    case Prepare(query, ok) =>
      FindIsIn(s.entries, query);
      if Find(s.entries, query).None? && !ok {
        var item := Item(query, s.prepared, 0);
        assert ([item] + Evicted(s.entries, 500))[1..] == Evicted(s.entries, 500);
      }
    case Invalidate(query) => if Find(s.entries, query).None? { WithoutAbsent(s.entries, query); }
    case CloseAll =>
  }

  lemma OneMoreStep(l: Order<nat>, trace: seq<Timed<nat>>, s: Spec.State, op: Spec.Op)
    requires s.entries == RunFrom(l, 500, trace) && Spec.Accounted(s)
    ensures Spec.Step(s, op).entries == RunFrom(l, 500, trace + Calls(s, op))
  {
    StepIsCalls(s, op);
    var calls := Calls(s, op);
    hide Spec.Step, After, RunFrom, Spec.Accounted;
    RunMore(l, trace, calls[0]);
    if |calls| == 2 {
      RunMore(l, trace + [calls[0]], calls[1]);
      assert trace + [calls[0]] + [calls[1]] == trace + calls;
    } else {
      assert [calls[0]] == calls;
    }
  }

  lemma LastStep(ops: seq<Spec.Op>, more: seq<Spec.Op>)
    requires more != []
    ensures Spec.Run(ops + more) == Spec.Step(Spec.Run(ops + more[..|more| - 1]), more[|more| - 1])
  {
    hide Spec.Step;
    assert (ops + more)[..|ops + more| - 1] == ops + more[..|more| - 1];
  }

  /** In every interleaving, what is cached after `more` is what the recency list of 500 entries holds. */
  lemma {:induction false} EntriesAreRecent(ops: seq<Spec.Op>, more: seq<Spec.Op>)
    ensures Spec.Run(ops + more).entries == RunFrom(Spec.Run(ops).entries, 500, Trace(ops, more))
  {
    hide Spec.Run, Spec.Step, Spec.Accounted, Calls;
    if more == [] {
      assert ops + more == ops;
    } else {
      var init, op := more[..|more| - 1], more[|more| - 1];
      EntriesAreRecent(ops, init);
      Spec.StatementsAccounted(ops + init);
      LastStep(ops, more);
      OneMoreStep(Spec.Run(ops).entries, Trace(ops, init), Spec.Run(ops + init), op);
    }
  }

  /** The other queries that are touched or prepared. */
  function Others(more: seq<Spec.Op>, query: string): set<string> {
    set op | op in more && (op.Touch? || op.Prepare?) && op.query != query :: op.query
  }

  /** No step drops the query by itself. */
  predicate Spares(op: Spec.Op, query: string) {
    !op.CloseAll? && !(op.Invalidate? && op.query == query)
  }

  lemma TouchedMore(trace: seq<Timed<nat>>, calls: seq<Timed<nat>>, query: string)
    requires |calls| == 1 || |calls| == 2
    ensures Touched(trace + calls, query)
         == Touched(trace, query) + TouchedBy(calls[0], query) + TouchedBy(calls[|calls| - 1], query)
  {
    var one := trace + [calls[0]];
    assert one[..|trace|] == trace;
    if |calls| == 2 {
      assert trace + calls == one + [calls[1]] && (one + [calls[1]])[..|one|] == one;
    } else {
      assert trace + calls == one;
    }
  }

  lemma CallsTouch(s: Spec.State, op: Spec.Op, query: string)
    requires Spares(op, query) && Find(s.entries, query).Some?
    ensures var calls := Calls(s, op);
      && (|calls| == 1 || |calls| == 2)
      && (forall i :: 0 <= i < |calls| ==> LeavesAlone(calls[i], query, 0))
      && TouchedBy(calls[0], query) + TouchedBy(calls[|calls| - 1], query) <= Others([op], query)
  {
    if op.Touch? || op.Prepare? { assert op in [op]; }
  }

  /** After a hit the steps leave the query alone, and what they touch are the other queries. */
  lemma {:induction false} Spared(ops: seq<Spec.Op>, more: seq<Spec.Op>, query: string, h: nat)
    requires Find(Spec.Run(ops).entries, query) == Some(Item(query, h, 0))
    requires (forall i :: 0 <= i < |more| ==> Spares(more[i], query)) && |Others(more, query)| < 500
    ensures var trace := Trace(ops + [Spec.Touch(query)], more);
      && (forall i :: 0 <= i < |trace| ==> LeavesAlone(trace[i], query, 0))
      && Touched(trace, query) <= Others(more, query)
    ensures Find(Spec.Run(ops + [Spec.Touch(query)] + more).entries, query) == Some(Item(query, h, 0))
  {
    var base := ops + [Spec.Touch(query)];
    if more != [] {
      var init, op := more[..|more| - 1], more[|more| - 1];
      assert Others(init, query) <= Others(more, query);
      SubsetSize(Others(init, query), Others(more, query));
      Spared(ops, init, query, h);
      CallsTouch(Spec.Run(base + init), op, query);
      TouchedMore(Trace(base, init), Calls(Spec.Run(base + init), op), query);
      assert Others([op], query) <= Others(more, query);
    }
    hide Spec.Run, Others, Calls;
    Kept(ops, more, query, h);
  }

  lemma Kept(ops: seq<Spec.Op>, more: seq<Spec.Op>, query: string, h: nat)
    requires Find(Spec.Run(ops).entries, query) == Some(Item(query, h, 0)) && |Others(more, query)| < 500
    requires var trace := Trace(ops + [Spec.Touch(query)], more);
      && (forall i :: 0 <= i < |trace| ==> LeavesAlone(trace[i], query, 0))
      && Touched(trace, query) <= Others(more, query)
    ensures Find(Spec.Run(ops + [Spec.Touch(query)] + more).entries, query) == Some(Item(query, h, 0))
  {
    var base, l := ops + [Spec.Touch(query)], Spec.Run(ops).entries;
    var trace := Trace(base, more);
    Spec.StatementsAccounted(ops);
    Spec.StatementsAccounted(base + more);
    assert base[..|ops|] == ops;
    assert Spec.Run(base).entries == After(l, 500, Timed(0, Get(query)));
    EntriesAreRecent(base, more);
    SubsetSize(Touched(trace, query), Others(more, query));
    hide Spec.Run, Trace, Touched, LeavesAlone, After, RunFrom, Others;
    SurvivalAfterHit(l, 500, 0, query, trace, 0);
    FindIsIn(Spec.Run(base + more).entries, query);
  }

  /** Once touched, a cached statement stays the cached one for its query while fewer than 500 distinct other queries
      are touched or prepared, as long as it is not invalidated and the client not closed. */
  lemma StatementSurvives(ops: seq<Spec.Op>, more: seq<Spec.Op>, query: string)
    requires Find(Spec.Run(ops).entries, query).Some?
    requires (forall i :: 0 <= i < |more| ==> Spares(more[i], query)) && |Others(more, query)| < 500
    ensures Find(Spec.Run(ops + [Spec.Touch(query)] + more).entries, query) == Find(Spec.Run(ops).entries, query)
  {
    FindIsIn(Spec.Run(ops).entries, query);
    Spec.StatementsAccounted(ops);
    hide Spec.Run, Spares, Others;
    Spared(ops, more, query, Find(Spec.Run(ops).entries, query).value.value);
  }
}
