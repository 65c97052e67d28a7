/** Aggregations: running state per window, and the batch computation it stands for. */
module Aggregate {
  import opened Text
  import opened Event

  datatype Function = Sum | Count | Avg | Min | Max

  datatype Aggregation = Aggregation(field: string, function_: Function, name: string)

  /** The running state of one aggregation. */
  datatype Running = Running(sum: real, count: nat, min: Option<real>, max: Option<real>)

  const Zero := Running(0.0, 0, None, None)

  type Fold = map<string, Running>

  // ----- batch definitions over the numbers of a window -----

  function Total(xs: seq<real>): real {
    if xs == [] then 0.0 else Total(xs[..|xs| - 1]) + xs[|xs| - 1]
  }

  function Least(xs: seq<real>): Option<real> {
    if xs == [] then None
    else
      var m, x := Least(xs[..|xs| - 1]), xs[|xs| - 1];
      if m.None? || x < m.value then Some(x) else m
  }

  function Greatest(xs: seq<real>): Option<real> {
    if xs == [] then None
    else
      var m, x := Greatest(xs[..|xs| - 1]), xs[|xs| - 1];
      if m.None? || x > m.value then Some(x) else m
  }

  lemma {:induction false} LeastIsLeast(xs: seq<real>)
    ensures Least(xs).None? <==> xs == []
    ensures xs != [] ==> Least(xs).value in xs && forall i :: 0 <= i < |xs| ==> Least(xs).value <= xs[i]
  {
    if xs != [] { LeastIsLeast(xs[..|xs| - 1]); }
  }

  lemma {:induction false} GreatestIsGreatest(xs: seq<real>)
    ensures Greatest(xs).None? <==> xs == []
    ensures xs != [] ==> Greatest(xs).value in xs && forall i :: 0 <= i < |xs| ==> xs[i] <= Greatest(xs).value
  {
    if xs != [] { GreatestIsGreatest(xs[..|xs| - 1]); }
  }

  /** What an aggregation says about the numbers of a window. */
  function BatchValue(fn: Function, xs: seq<real>): Option<Value> {
    match fn
    case Sum => Some(Num(Float64, Total(xs)))
    case Count => Some(Num(Int, |xs| as real))
    case Avg => Some(Num(Float64, if xs == [] then 0.0 else Total(xs) / (|xs| as real)))
    case Min => (match Least(xs) case Some(m) => Some(Num(Float64, m)) case None => None)
    case Max => (match Greatest(xs) case Some(m) => Some(Num(Float64, m)) case None => None)
  }

  /** The numbers an aggregation sees in a list of events: absent and non-numeric fields are skipped. */
  function Numbers(events: seq<Event>, field: string, numeric: Value -> Option<real>): seq<real> {
    if events == [] then []
    else Numbers(events[..|events| - 1], field, numeric) + NumberOf(events[|events| - 1], field, numeric)
  }

  function NumberOf(e: Event, field: string, numeric: Value -> Option<real>): seq<real> {
    match GetField(e, field)
    case None => []
    case Some(v) => match numeric(v) case None => [] case Some(x) => [x]
  }

  // ----- which values count as numbers -----

  /** `aggregate.count` accepts the signed integers and the floats. */
  function CountNumeric(v: Value): Option<real> {
    if v.Num? && (v.kind == Int || v.kind == Int32 || v.kind == Int64 || v.kind == Float32 || v.kind == Float64)
    then Some(v.r) else None
  }

  /** `aggregate.window` accepts the unsigned integers as well. */
  function WindowNumeric(v: Value): Option<real> {
    if v.Num? then Some(v.r) else None
  }

  // ----- result events -----

  /** The fields a result event gets besides its aggregates. */
  const WindowKey := "window_key"
  const WindowStart := "window_start"
  const WindowEnd := "window_end"
  const EventCount := "event_count"

  /** Sets one field per aggregation that has a value, in order. */
  function WithAggregates(e: Event, aggs: seq<Aggregation>, values: seq<Option<Value>>): Event
    requires |aggs| == |values|
  {
    if aggs == [] then e
    else
      var n := |aggs| - 1;
      var before := WithAggregates(e, aggs[..n], values[..n]);
      if values[n].Some? then SetField(before, aggs[n].name, values[n].value) else before
  }

  /** No aggregation writes to `path`, above it or below it. An empty output name writes nothing. */
  ghost predicate ClearField(aggs: seq<Aggregation>, path: string) {
    forall j :: 0 <= j < |aggs| ==> aggs[j].name == "" || Apart(PathOf(aggs[j].name), PathOf(path))
  }

  /** The output name is not empty and clashes with no other one and with none of the fixed fields. */
  ghost predicate ClearName(aggs: seq<Aggregation>, i: nat, fixed: seq<string>)
    requires i < |aggs|
  {
    && aggs[i].name != ""
    && (forall j :: 0 <= j < |fixed| ==> Apart(PathOf(fixed[j]), PathOf(aggs[i].name)))
    && (forall j :: 0 <= j < |aggs| && j != i ==>
        aggs[j].name == "" || Apart(PathOf(aggs[j].name), PathOf(aggs[i].name)))
  }

  lemma {:induction false} OthersUntouched(e: Event, aggs: seq<Aggregation>, values: seq<Option<Value>>, path: string)
    requires |aggs| == |values| && ClearField(aggs, path)
    ensures GetField(WithAggregates(e, aggs, values), path) == GetField(e, path)
  {
    if aggs != [] {
      var n := |aggs| - 1;
      OthersUntouched(e, aggs[..n], values[..n], path);
      if values[n].Some? { SetBeside(WithAggregates(e, aggs[..n], values[..n]), aggs[n].name, values[n].value, path); }
    }
  }

  lemma SetBeside(e: Event, name: string, v: Value, path: string)
    requires name == "" || Apart(PathOf(name), PathOf(path))
    ensures GetField(SetField(e, name, v), path) == GetField(e, path)
  {
    if name != "" { FieldLaws(e, name, v, path); }
  }

  /** The result event answers a clear name with its aggregate's value, or not at all when it has none. */
  lemma {:induction false} AggregatesAnswer(e: Event, aggs: seq<Aggregation>, values: seq<Option<Value>>, i: nat)
    requires |aggs| == |values| && i < |aggs| && ClearName(aggs, i, []) && GetField(e, aggs[i].name) == None
    ensures GetField(WithAggregates(e, aggs, values), aggs[i].name) == values[i]
  {
    var n := |aggs| - 1;
    var before := WithAggregates(e, aggs[..n], values[..n]);
    if i == n {
      OthersUntouched(e, aggs[..n], values[..n], aggs[n].name);
      if values[n].Some? { FieldLaws(before, aggs[n].name, values[n].value, aggs[n].name); }
    } else {
      AggregatesAnswer(e, aggs[..n], values[..n], i);
      if values[n].Some? { SetBeside(before, aggs[n].name, values[n].value, aggs[i].name); }
    }
  }
}
