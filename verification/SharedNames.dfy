/** Output names that several aggregations share: exactly when the running state still means the batch. */
module SharedNames {
  import opened Text
  import opened Event
  import opened Aggregate
  import CountSpec
  import WindowSpec
  import WindowResults

  // ----- an event with a single field -----

  function OneField(field: string, v: Value): Event {
    SetField(Event(None, Metadata("", 0, 0, None), 0, None), field, v)
  }

  const One := Num(Float64, 1.0)

  /** Only the field itself shows a number: others are absent or hold a map. */
  lemma OnlyField(field: string, other: string)
    requires field != ""
    ensures GetField(OneField(field, One), field) == Some(One)
    ensures other != field ==> match GetField(OneField(field, One), other) case None => true case Some(v) => v.Obj?
  {
    var p, q := PathOf(field), PathOf(other);
    GetAfterSet(map[], p, One);
    if other != field && other != "" {
      PathsDetermineText(field, other);
      if Apart(p, q) {
        SetLeavesOthers(map[], p, One, q);
        GetInEmpty(q);
      } else if |p| < |q| {
        var rest: Path := q[|p|..];
        assert p + rest == q;
        GetBelowSet(map[], p, One, rest);
      } else {
        assert |q| < |p|;
        var rest: Path := p[|q|..];
        assert q + rest == p;
        GetAboveSet(map[], q, One, rest);
      }
    }
  }

  lemma NumbersOfOne(field: string, other: string)
    requires field != ""
    ensures var e := OneField(field, One);
            && NumberOf(e, other, CountNumeric) == (if other == field then [1.0] else [])
            && NumberOf(e, other, WindowNumeric) == (if other == field then [1.0] else [])
            && Numbers([e], other, CountNumeric) == NumberOf(e, other, CountNumeric)
            && Numbers([e], other, WindowNumeric) == NumberOf(e, other, WindowNumeric)
  {
    var e := OneField(field, One);
    OnlyField(field, other);
    hide GetField, SetField;
    assert [e][..0] == [];
  }

  // ----- aggregate.count -----

  /** How many of its parts the state has seen touched. */
  function Weight(r: Running): nat {
    r.count + (if r.min.Some? then 1 else 0) + if r.max.Some? then 1 else 0
  }

  /** The part of the state a function works on has been touched. */
  predicate Touched(fn: Function, r: Running) {
    match fn case Min => r.min.Some? case Max => r.max.Some? case _ => r.count > 0
  }

  lemma BumpTouches(fn: Function, r: Running, x: real)
    ensures var t := CountSpec.Bump(fn, r, x);
            && Touched(fn, t) && Weight(t) >= Weight(r) && (forall g :: Touched(g, r) ==> Touched(g, t))
            && (!Touched(fn, r) || (fn != Min && fn != Max) ==> Weight(t) > Weight(r))
  {
  }

  /** Two that are neither both minimum nor both maximum touch at least two parts, or one twice. */
  lemma {:induction false} TouchedTwice(aggs: seq<Aggregation>, f: Fold, e: Event, i: nat, j: nat)
    requires i < j < |aggs| && aggs[i].name == aggs[j].name && aggs[i].name in f
    requires NumberOf(e, aggs[i].field, CountNumeric) == NumberOf(e, aggs[j].field, CountNumeric) == [1.0]
    requires !(aggs[i].function_ == aggs[j].function_ && (aggs[i].function_ == Min || aggs[i].function_ == Max))
    ensures aggs[i].name in CountSpec.UpdatedAll(aggs, f, e)
    ensures Weight(CountSpec.UpdatedAll(aggs, f, e)[aggs[i].name]) >= 2
  {
    hide CountSpec.Updated, CountSpec.Bump, GetField;
    var n := |aggs| - 1;
    if j == n {
      TouchedOnce(aggs[..n], f, e, i);
    } else {
      TouchedTwice(aggs[..n], f, e, i, j);
    }
    CountSpec.OneMore(aggs, f, e, aggs[i].name);
    BumpTouches(aggs[n].function_, CountSpec.UpdatedAll(aggs[..n], f, e)[aggs[i].name], 1.0);
    AfterTouches(aggs[n], CountSpec.UpdatedAll(aggs[..n], f, e)[aggs[i].name], e);
  }

  lemma AfterTouches(agg: Aggregation, r: Running, e: Event)
    ensures Weight(CountSpec.After(agg, r, e)) >= Weight(r)
    ensures forall g :: Touched(g, r) ==> Touched(g, CountSpec.After(agg, r, e))
  {
    var xs := NumberOf(e, agg.field, CountNumeric);
    hide NumberOf, CountSpec.Bump, Touched;
    if xs != [] { BumpTouches(agg.function_, r, xs[0]); }
  }

  lemma {:induction false} TouchedOnce(aggs: seq<Aggregation>, f: Fold, e: Event, i: nat)
    requires i < |aggs| && aggs[i].name in f && NumberOf(e, aggs[i].field, CountNumeric) == [1.0]
    ensures aggs[i].name in CountSpec.UpdatedAll(aggs, f, e)
    ensures var r := CountSpec.UpdatedAll(aggs, f, e)[aggs[i].name];
            Touched(aggs[i].function_, r) && Weight(r) >= 1
  {
    hide CountSpec.Updated, CountSpec.Bump, GetField, Touched;
    var n := |aggs| - 1;
    if i == n {
      Kept(aggs[..n], f, e, aggs[n].name);
    } else {
      TouchedOnce(aggs[..n], f, e, i);
    }
    CountSpec.OneMore(aggs, f, e, aggs[i].name);
    BumpTouches(aggs[n].function_, CountSpec.UpdatedAll(aggs[..n], f, e)[aggs[i].name], 1.0);
    AfterTouches(aggs[n], CountSpec.UpdatedAll(aggs[..n], f, e)[aggs[i].name], e);
    OneTouched(aggs[i].function_, CountSpec.UpdatedAll(aggs, f, e)[aggs[i].name]);
  }

  lemma OneTouched(fn: Function, r: Running)
    ensures Touched(fn, r) ==> Weight(r) >= 1
  {
  }

  lemma {:induction false} Kept(aggs: seq<Aggregation>, f: Fold, e: Event, name: string)
    requires name in f
    ensures name in CountSpec.UpdatedAll(aggs, f, e)
  {
    if aggs != [] { Kept(aggs[..|aggs| - 1], f, e, name); }
  }

  ghost predicate CountMeansBatch(aggs: seq<Aggregation>, events: seq<Event>, i: nat)
    requires i < |aggs|
  {
    && aggs[i].name in CountSpec.FoldAll(aggs, events)
    && CountSpec.FoldAll(aggs, events)[aggs[i].name]
       == CountSpec.RunningOf(aggs[i].function_, Numbers(events, aggs[i].field, CountNumeric))
  }

  lemma BatchOfOne(fn: Function)
    ensures CountSpec.RunningOf(fn, []) == Zero && Weight(Zero) == 0 && Weight(CountSpec.RunningOf(fn, [1.0])) == 1
  {
    assert [1.0][..0] == [];
    assert Least([1.0]) == Some(1.0) && Greatest([1.0]) == Some(1.0);
  }

  /** One event with the other's field spoils the state. */
  lemma HarmShows(aggs: seq<Aggregation>, i: nat, j: nat)
    requires i < |aggs| && j < |aggs| && i != j && aggs[i].name == aggs[j].name
    requires !CountSpec.Harmless(aggs[i], aggs[j])
    ensures !CountMeansBatch(aggs, [OneField(aggs[j].field, One)], i)
  {
    var e, start := OneField(aggs[j].field, One), CountSpec.FreshFold(aggs);
    assert [e][..0] == [] && aggs[i].name in start;
    assert CountSpec.FoldAll(aggs, [e]) == CountSpec.UpdatedAll(aggs, start, e) by {
      assert CountSpec.FoldAll(aggs, []) == start;
    }
    NumbersOfOne(aggs[j].field, aggs[i].field);
    NumbersOfOne(aggs[j].field, aggs[j].field);
    BatchOfOne(aggs[i].function_);
    hide OneField, Numbers, NumberOf, CountSpec.UpdatedAll, CountSpec.FoldAll, CountSpec.RunningOf, Touched, Weight;
    if aggs[i].field != aggs[j].field {
      TouchedOnce(aggs, start, e, j);
    } else {
      TouchedTwice(aggs, start, e, if i < j then i else j, if i < j then j else i);
    }
  }

  /** In `aggregate.count` the running state of an aggregation is its batch aggregate for all events if and only if
      whatever shares its output name does it no harm. */
  lemma CountFoldsExactly(aggs: seq<Aggregation>, i: nat)
    requires i < |aggs|
    ensures (forall events :: CountMeansBatch(aggs, events, i)) <==> CountSpec.SharesHarmlessly(aggs, i)
  {
    hide CountMeansBatch;
    if CountSpec.SharesHarmlessly(aggs, i) {
      forall events ensures CountMeansBatch(aggs, events, i) { CountMeans(aggs, events, i); }
    } else {
      var j :| 0 <= j < |aggs| && j != i && aggs[j].name == aggs[i].name && !CountSpec.Harmless(aggs[i], aggs[j]);
      HarmShows(aggs, i, j);
    }
  }

  lemma CountMeans(aggs: seq<Aggregation>, events: seq<Event>, i: nat)
    requires i < |aggs| && CountSpec.SharesHarmlessly(aggs, i)
    ensures CountMeansBatch(aggs, events, i)
  {
    CountSpec.FoldIsBatch(aggs, events, i);
  }

  // ----- aggregate.window -----

  ghost predicate WindowMeansBatch(aggs: seq<Aggregation>, events: seq<Event>, i: nat)
    requires i < |aggs|
  {
    WindowResults.MeansBatch(WindowSpec.FoldAll(aggs, events), aggs[i], Numbers(events, aggs[i].field, WindowNumeric))
  }

  /** How many numbers have gone into the state under `name`. */
  function Seen(f: Fold, name: string): nat { if name in f then f[name].count else 0 }

  lemma SeenOneMore(agg: Aggregation, f: Fold, e: Event, name: string)
    ensures Seen(WindowSpec.Updated(agg, f, e), name)
         >= Seen(f, name) + if agg.name == name then |NumberOf(e, agg.field, WindowNumeric)| else 0
  {
  }

  lemma {:induction false} SeenOnce(aggs: seq<Aggregation>, f: Fold, e: Event, i: nat)
    requires i < |aggs|
    ensures Seen(WindowSpec.UpdatedAll(aggs, f, e), aggs[i].name) >= |NumberOf(e, aggs[i].field, WindowNumeric)|
  {
    hide Seen, WindowSpec.Updated;
    var n := |aggs| - 1;
    if i < n { SeenOnce(aggs[..n], f, e, i); }
    SeenOneMore(aggs[n], WindowSpec.UpdatedAll(aggs[..n], f, e), e, aggs[i].name);
  }

  lemma {:induction false} SeenTwice(aggs: seq<Aggregation>, f: Fold, e: Event, i: nat, j: nat)
    requires i < j < |aggs| && aggs[i].name == aggs[j].name
    ensures Seen(WindowSpec.UpdatedAll(aggs, f, e), aggs[i].name)
         >= |NumberOf(e, aggs[i].field, WindowNumeric)| + |NumberOf(e, aggs[j].field, WindowNumeric)|
  {
    hide Seen, WindowSpec.Updated;
    var n := |aggs| - 1;
    if j < n { SeenTwice(aggs[..n], f, e, i, j); } else { SeenOnce(aggs[..n], f, e, i); }
    SeenOneMore(aggs[n], WindowSpec.UpdatedAll(aggs[..n], f, e), e, aggs[i].name);
  }

  lemma SharingShows(aggs: seq<Aggregation>, i: nat, j: nat)
    requires i < |aggs| && j < |aggs| && i != j && aggs[i].name == aggs[j].name && aggs[j].field != ""
    ensures !WindowMeansBatch(aggs, [OneField(aggs[j].field, One)], i)
  {
    var e := OneField(aggs[j].field, One);
    assert [e][..0] == [];
    assert WindowSpec.FoldAll(aggs, [e]) == WindowSpec.UpdatedAll(aggs, map[], e) by {
      assert WindowSpec.FoldAll(aggs, []) == map[];
    }
    NumbersOfOne(aggs[j].field, aggs[i].field);
    NumbersOfOne(aggs[j].field, aggs[j].field);
    hide OneField, Numbers, NumberOf, WindowSpec.UpdatedAll, WindowSpec.FoldAll;
    if aggs[i].field != aggs[j].field {
      SeenOnce(aggs, map[], e, j);
    } else {
      SeenTwice(aggs, map[], e, if i < j then i else j, if i < j then j else i);
    }
  }

  /** In `aggregate.window`, if and only if nothing that reads a field shares its output name. */
  lemma WindowFoldsExactly(aggs: seq<Aggregation>, i: nat)
    requires i < |aggs|
    ensures (forall events :: WindowMeansBatch(aggs, events, i)) <==> WindowResults.NumbersAlone(aggs, i)
  {
    hide WindowMeansBatch;
    if WindowResults.NumbersAlone(aggs, i) {
      forall events ensures WindowMeansBatch(aggs, events, i) { WindowMeans(aggs, events, i); }
    } else {
      var j :| 0 <= j < |aggs| && j != i && aggs[j].name == aggs[i].name && aggs[j].field != "";
      SharingShows(aggs, i, j);
    }
  }

  lemma WindowMeans(aggs: seq<Aggregation>, events: seq<Event>, i: nat)
    requires i < |aggs| && WindowResults.NumbersAlone(aggs, i)
    ensures WindowMeansBatch(aggs, events, i)
  {
    WindowResults.FoldMeansBatch(aggs, events, i);
  }

  // ----- names that clash -----

  const Twice: seq<Aggregation> := [Aggregation("x", Sum, "s"), Aggregation("x", Count, "s")]
  const OverCount: seq<Aggregation> := [Aggregation("x", Sum, EventCount)]

  function ResultOf(aggs: seq<Aggregation>, events: seq<Event>): Event
    requires events != []
  {
    var cfg := CountSpec.Config("k", 1, aggs, 0, v => "");
    CountSpec.ResultEvent(cfg, CountSpec.BatchOutput(cfg, "", events))
  }

  /** The last aggregate has the last word on its name. */
  lemma LastAnswers(aggs: seq<Aggregation>, events: seq<Event>)
    requires aggs != [] && events != [] && aggs[|aggs| - 1].name != "" && aggs[|aggs| - 1].function_ in {Sum, Count}
    ensures var last, folds := aggs[|aggs| - 1], CountSpec.FoldAll(aggs, events);
            last.name in folds ==>
              GetField(ResultOf(aggs, events), last.name) == CountSpec.Presented(last.function_, folds[last.name])
  {
    hide CountSpec.FoldAll, GetField, SetField, CountSpec.ResultBase;
    var n, folds := |aggs| - 1, CountSpec.FoldAll(aggs, events);
    var o := CountSpec.BatchOutput(CountSpec.Config("k", 1, aggs, 0, v => ""), "", events);
    var values := CountSpec.PresentedAll(aggs, folds);
    if aggs[n].name in folds {
      FieldLaws(WithAggregates(CountSpec.ResultBase(o), aggs[..n], values[..n]), aggs[n].name, values[n].value,
                aggs[n].name);
    }
  }

  /** A sum and a count under one name over a single number show a count of two; a sum named like the event count
      takes its place. */
  lemma ClashingNames()
    ensures GetField(ResultOf(Twice, [OneField("x", One)]), "s") == Some(Num(Int, 2.0))
    ensures GetField(ResultOf(OverCount, [OneField("x", One)]), EventCount) == Some(Num(Float64, 1.0))
  {
    var e := OneField("x", One);
    LastAnswers(Twice, [e]);
    LastAnswers(OverCount, [e]);
    OnlyField("x", "x");
    hide OneField, GetField, ResultOf;
    FoldOfTwice(e);
    FoldOfOne(e);
  }

  lemma FoldOfTwice(e: Event)
    requires GetField(e, "x") == Some(One)
    ensures CountSpec.FoldAll(Twice, [e]) == map["s" := Running(1.0, 2, None, None)]
  {
    hide GetField;
    var start := CountSpec.FreshFold(Twice);
    assert start == map["s" := Zero] by { assert Twice[0].name == "s"; }
    assert [e][..0] == [] && CountSpec.FoldAll(Twice, []) == start;
    assert Twice[..1][..0] == [] && Twice[..1] == [Twice[0]];
    assert CountSpec.UpdatedAll(Twice[..1], start, e) == map["s" := Running(1.0, 1, None, None)];
  }

  lemma FoldOfOne(e: Event)
    requires GetField(e, "x") == Some(One)
    ensures CountSpec.FoldAll(OverCount, [e]) == map[EventCount := Running(1.0, 1, None, None)]
  {
    hide GetField;
    var start := CountSpec.FreshFold(OverCount);
    assert start == map[EventCount := Zero] by { assert OverCount[0].name == EventCount; }
    assert [e][..0] == [] && CountSpec.FoldAll(OverCount, []) == start;
    assert OverCount[..0] == [] && CountSpec.UpdatedAll([], start, e) == start;
    assert CountSpec.UpdatedAll(OverCount, start, e) == CountSpec.Updated(OverCount[0], start, e);
  }
}
