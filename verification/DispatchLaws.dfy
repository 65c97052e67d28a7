/** Where events go, by their headers and the configuration, and under which keys. */
module DispatchLaws {
  import opened Text
  import opened Event
  import opened Dispatch
  import Pipeline
  import Condition
  import Evaluation

  /** The headers of an event; none are as good as an empty map. */
  function Headers(e: Event): map<string, string> { if e.headers.Some? then e.headers.value else map[] }

  /** The header is there and says something. */
  predicate Says(e: Event, name: string) { name in Headers(e) && Headers(e)[name] != "" }

  /** An event is delivered by one accepted send of its payload under its key: to the dead-letter topic if it gives a
      reason and there is one, else to the topic it is routed to, else to the output topic without blanks around it. */
  lemma DeliveredTo(s: Settings, marshal: Marshal, e: Event, key: Option<string>, sends: seq<Sent>)
    ensures Delivered(s, marshal, e, key, sends) <==>
      && |sends| == 1 && sends[0].ok && sends[0].key == key && marshal(e.payload) == Some(sends[0].value)
      && sends[0].topic == (if Says(e, "_dlq_reason") && s.dlqTopic != "" then s.dlqTopic
                            else if Says(e, "_route_target") then Headers(e)["_route_target"]
                            else Trim(s.outputTopic))
  {
    hide Trim;
  }

  /** An event that is given up was not marshalled, or was refused there; then it is copied to the dead-letter topic, if
      there is one and the event was not bound for it by its reason. */
  lemma GivenUpTo(s: Settings, marshal: Marshal, e: Event, key: Option<string>, sends: seq<Sent>)
    requires GivenUp(s, marshal, e, key, sends)
    ensures marshal(e.payload).None? ==> sends == []
    ensures marshal(e.payload).Some? ==>
      && sends != [] && !sends[0].ok && sends[0].key == key && sends[0].value == marshal(e.payload).value
      && sends[0].topic == (if Says(e, "_dlq_reason") && s.dlqTopic != "" then s.dlqTopic
                            else if Says(e, "_route_target") then Headers(e)["_route_target"]
                            else Trim(s.outputTopic))
      && |sends| == (if s.dlqTopic != "" && !Says(e, "_dlq_reason") then 2 else 1)
      && (|sends| == 2 ==> sends[1].topic == s.dlqTopic && sends[1].key == key && sends[1].value == sends[0].value)
  {
    hide Trim;
  }

  /** An event that `filter.route` has sent on by its `i`-th rule, and that gives no dead-letter reason, is delivered to
      that rule's topic. */
  lemma RoutedIsDelivered(lib: Condition.Library, rules: seq<Pipeline.Rule>, default: string, before: Event, i: nat,
                          s: Settings, marshal: Marshal, e: Event, key: Option<string>, sends: seq<Sent>)
    requires i < |rules| && rules[i].topic != "" && Evaluation.Eval(lib, rules[i].cond, before) == Condition.Ok(true)
    requires forall j :: 0 <= j < i ==> Evaluation.Eval(lib, rules[j].cond, before) == Condition.Ok(false)
    requires var route := Pipeline.RouteOf(lib, rules, default, before);
             route.Routed? ==> e.headers == Some(Headers(before)[Pipeline.RouteHeader := route.topic])
    requires !Says(before, "_dlq_reason") && Delivered(s, marshal, e, key, sends)
    ensures sends[0].topic == rules[i].topic
  {
    Pipeline.RouteIsFirstMatch(lib, rules, default, before, i);
    hide Pipeline.RouteOf;
    DeliveredTo(s, marshal, e, key, sends);
  }

  /** One of several events goes out under the record's key with a dash and its index appended, `multi` standing for no
      key; a single one under the record's key itself. */
  lemma KeyIs(r: Record, i: nat, n: nat)
    ensures n <= 1 ==> KeyOf(r, i, n) == r.key
    ensures n > 1 ==>
      var base := if r.key.Some? then r.key.value else "multi";
      && KeyOf(r, i, n) == Some(base + "-" + Pipeline.Decimal(i))
      && Pipeline.Numeral(Pipeline.Decimal(i)) == i
  {
    Pipeline.DecimalReads(i);
    AsDashed(r.key, i);
    hide Pipeline.Decimal, Pipeline.Numeral, AppendIndexToKey;
    assert "-" == ['-'];
  }

  /** What a broken record leaves in the dead-letter topic: the payload the pipeline got to, if there is one that can be
      marshalled, and the record as it came otherwise. */
  lemma BrokenLeaves(marshal: Marshal, r: Record, partial: Option<Event>)
    ensures partial.None? ==> BrokenPayload(marshal, r, partial) == r.value
    ensures partial.Some? ==>
      match marshal(partial.value.payload)
      case None => BrokenPayload(marshal, r, partial) == r.value
      case Some(text) => BrokenPayload(marshal, r, partial) == text
  {
  }
}
