/** The record handler: what a pipeline's result is sent to, and which of its events are reported as failed. */
module Dispatch {
  import opened Text
  import opened Event
  import Pipeline

  /** Topics as configured, untrimmed. */
  datatype Settings = Settings(outputTopic: string, dlqTopic: string)

  /** A key is nil or bytes, a character each. */
  datatype Record = Record(key: Option<string>, value: string)

  datatype Sent = Sent(topic: string, key: Option<string>, value: string, ok: bool)

  /** What the pipeline made of the record; an error may come with the event it got to. */
  datatype Result =
    | Malformed
    | Dropped
    | Broken(partial: Option<Event>)
    | Single(event: Event)
    | Multiple(events: seq<Event>)
    | Unexpected

  datatype Error = SendFailed | NoOutputTopic | MarshalFailed | FailuresAt(indices: seq<nat>) | UnexpectedResult

  type Marshal = Option<Fields> -> Option<string>

  class Producer {
    /** Whether the n-th message is accepted. */
    const accepts: nat -> bool
    var log: seq<Sent>

    constructor (accepts: nat -> bool)
      ensures this.accepts == accepts && log == []
    {
      this.accepts, log := accepts, [];
    }

    method Send(topic: string, key: Option<string>, value: string) returns (ok: bool)
      modifies this
      ensures log == old(log) + [Sent(topic, key, value, ok)] && ok == accepts(|old(log)|)
    {
      ok := accepts(|log|);
      log := log + [Sent(topic, key, value, ok)];
    }
  }

  // ----- keys -----

  function AppendIndexToKey(base: Option<string>, i: nat): string {
    match base case None => "multi-" + Pipeline.Decimal(i) case Some(b) => b + ['-'] + Pipeline.Decimal(i)
  }

  /** Two texts that end in a dash and digits are equal only if both parts are. */
  lemma LastDash(a: string, s: string, b: string, t: string)
    requires '-' !in s && '-' !in t && a + ['-'] + s == b + ['-'] + t
    ensures a == b && s == t
  {
    var u, v := a + ['-'] + s, b + ['-'] + t;
    DashComesFirst(a, s, b, t);
    DashComesFirst(b, t, a, s);
    assert u[..|a|] == a && v[..|b|] == b;
    assert u[|a| + 1..] == s && v[|b| + 1..] == t;
  }

  lemma DashComesFirst(a: string, s: string, b: string, t: string)
    requires '-' !in s && a + ['-'] + s == b + ['-'] + t
    ensures |b| <= |a|
  {
    var u, v := a + ['-'] + s, b + ['-'] + t;
    forall k | |a| < k < |u| ensures u[k] != '-' { assert u[k] == s[k - |a| - 1]; }
    assert v[|b|] == '-';
  }

  lemma NoDashInDecimal(i: nat)
    ensures '-' !in Pipeline.Decimal(i)
  {
    var s := Pipeline.Decimal(i);
    hide Pipeline.Decimal;
    forall j | 0 <= j < |s| ensures s[j] != '-' { assert '0' <= s[j]; }
  }

  /** What the appended key stands for: a nil base counts as the text "multi". */
  function BaseText(base: Option<string>): string {
    match base case None => "multi" case Some(b) => b
  }

  /** Appended keys agree exactly when the indices and the base texts do: injective in base and index for bases
      that are not nil, in the index for a nil base, which collides with the base "multi" alone. */
  lemma AppendedKeysAgree(a: Option<string>, i: nat, b: Option<string>, j: nat)
    ensures AppendIndexToKey(a, i) == AppendIndexToKey(b, j) <==> BaseText(a) == BaseText(b) && i == j
  {
    AsDashed(a, i);
    AsDashed(b, j);
    NoDashInDecimal(i);
    NoDashInDecimal(j);
    hide Pipeline.Decimal, AppendIndexToKey;
    if AppendIndexToKey(a, i) == AppendIndexToKey(b, j) {
      LastDash(BaseText(a), Pipeline.Decimal(i), BaseText(b), Pipeline.Decimal(j));
      Pipeline.DecimalIsInjective(i, j);
    }
  }

  lemma AsDashed(base: Option<string>, i: nat)
    ensures AppendIndexToKey(base, i) == BaseText(base) + ['-'] + Pipeline.Decimal(i)
  {
    assert "multi" + ['-'] == "multi-";
  }

  /** The key of the `i`-th of `n` events. */
  function KeyOf(r: Record, i: nat, n: nat): Option<string> {
    if n > 1 then Some(AppendIndexToKey(r.key, i)) else r.key
  }

  // ----- where an event goes -----

  const DlqReason := "_dlq_reason"
  const RouteTarget := "_route_target"

  /** A header's value; a missing one reads as the empty string. */
  function HeaderOf(e: Event, name: string): string {
    if e.headers.Some? && name in e.headers.value then e.headers.value[name] else ""
  }

  predicate ByReason(s: Settings, e: Event) { HeaderOf(e, DlqReason) != "" && s.dlqTopic != "" }

  function Destination(s: Settings, e: Event): string {
    if ByReason(s, e) then s.dlqTopic
    else if HeaderOf(e, RouteTarget) != "" then HeaderOf(e, RouteTarget)
    else Trim(s.outputTopic)
  }

  /** The event was sent once, to where it belongs, and was accepted. */
  predicate Delivered(s: Settings, marshal: Marshal, e: Event, key: Option<string>, sends: seq<Sent>) {
    marshal(e.payload).Some? && sends == [Sent(Destination(s, e), key, marshal(e.payload).value, true)]
  }

  /** The event could not be marshalled, or its send was refused; then, unless it was bound for the dead-letter
      topic anyway, a copy goes there if one is configured. */
  predicate GivenUp(s: Settings, marshal: Marshal, e: Event, key: Option<string>, sends: seq<Sent>) {
    match marshal(e.payload)
    case None => sends == []
    case Some(value) =>
      var refused := Sent(Destination(s, e), key, value, false);
      if ByReason(s, e) || s.dlqTopic == "" then sends == [refused]
      else |sends| == 2 && sends[0] == refused && sends[1] == Sent(s.dlqTopic, key, value, sends[1].ok)
  }

  /** An event is delivered or given up, never both. */
  lemma EitherWay(s: Settings, marshal: Marshal, e: Event, key: Option<string>, sends: seq<Sent>)
    ensures !(Delivered(s, marshal, e, key, sends) && GivenUp(s, marshal, e, key, sends))
  {
  }

  /** One event of several. */
  method DispatchOne(prod: Producer, s: Settings, marshal: Marshal, e: Event, key: Option<string>)
      returns (ok: bool, ghost sends: seq<Sent>)
    modifies prod
    ensures prod.log == old(prod.log) + sends
    ensures if ok then Delivered(s, marshal, e, key, sends) else GivenUp(s, marshal, e, key, sends)
  {
    sends := [];
    var value := marshal(e.payload);
    if HeaderOf(e, DlqReason) != "" && s.dlqTopic != "" {
      if value.None? {
        return false, sends;
      }
      ok := prod.Send(s.dlqTopic, key, value.value);
      sends := [Sent(s.dlqTopic, key, value.value, ok)];
      return;
    }
    if value.None? {
      return false, sends;
    }
    var topic := if HeaderOf(e, RouteTarget) != "" then HeaderOf(e, RouteTarget) else Trim(s.outputTopic);
    ok := prod.Send(topic, key, value.value);
    sends := [Sent(topic, key, value.value, ok)];
    if !ok && s.dlqTopic != "" {
      var copied := prod.Send(s.dlqTopic, key, value.value);
      sends := sends + [Sent(s.dlqTopic, key, value.value, copied)];
    }
  }

  function Concat(parts: seq<seq<Sent>>): seq<Sent> {
    if parts == [] then [] else Concat(parts[..|parts| - 1]) + parts[|parts| - 1]
  }

  ghost predicate StrictlyIncreasing(indices: seq<nat>) {
    forall i, j :: 0 <= i < j < |indices| ==> indices[i] < indices[j]
  }

  /** Every index is accounted for once: it is listed exactly when it was given up, and not listed exactly when
      it was delivered. */
  ghost predicate Accounted(s: Settings, marshal: Marshal, r: Record, events: seq<Event>, failed: seq<nat>,
      parts: seq<seq<Sent>>) {
    && StrictlyIncreasing(failed) && |parts| <= |events|
    && (forall i :: i in failed ==> i < |parts|)
    && forall i: nat :: i < |parts| ==> Settled(s, marshal, events[i], KeyOf(r, i, |events|), i in failed, parts[i])
  }

  predicate Settled(s: Settings, marshal: Marshal, e: Event, key: Option<string>, failed: bool, sends: seq<Sent>) {
    (failed <==> GivenUp(s, marshal, e, key, sends)) && (!failed <==> Delivered(s, marshal, e, key, sends))
  }

  lemma OneMoreAccounted(s: Settings, marshal: Marshal, r: Record, events: seq<Event>, failed: seq<nat>,
                         parts: seq<seq<Sent>>, ok: bool, sends: seq<Sent>)
    requires |parts| < |events| && Accounted(s, marshal, r, events, failed, parts)
    requires if ok then Delivered(s, marshal, events[|parts|], KeyOf(r, |parts|, |events|), sends)
             else GivenUp(s, marshal, events[|parts|], KeyOf(r, |parts|, |events|), sends)
    ensures Accounted(s, marshal, r, events, if ok then failed else failed + [|parts|], parts + [sends])
  {
    var n := |parts|;
    EitherWay(s, marshal, events[n], KeyOf(r, n, |events|), sends);
    assert Settled(s, marshal, events[n], KeyOf(r, n, |events|), !ok, sends);
    hide Settled, KeyOf, Delivered, GivenUp;
    var now, more := if ok then failed else failed + [n], parts + [sends];
    assert n in now <==> !ok;
    assert StrictlyIncreasing(now) by {
      forall i, j | 0 <= i < j < |now| ensures now[i] < now[j] {
        assert failed[i] in failed;
      }
    }
    assert forall i :: i in now ==> i < |more|;
    forall i: nat | i < |more| ensures Settled(s, marshal, events[i], KeyOf(r, i, |events|), i in now, more[i]) {
      if i < n { assert more[i] == parts[i] && (i in now <==> i in failed); }
    }
  }

  lemma NothingYet(s: Settings, marshal: Marshal, r: Record, events: seq<Event>)
    ensures Accounted(s, marshal, r, events, [], []) && Concat([]) == []
  {
  }

  /** The loop over several events. */
  method DispatchAll(prod: Producer, s: Settings, marshal: Marshal, r: Record, events: seq<Event>)
    returns (failed: seq<nat>, ghost parts: seq<seq<Sent>>)
    modifies prod
    ensures |parts| == |events| && Accounted(s, marshal, r, events, failed, parts)
    ensures prod.log == old(prod.log) + Concat(parts)
  {
    NothingYet(s, marshal, r, events);
    hide GivenUp, Delivered, KeyOf, Accounted;
    failed, parts := [], [];
    for i := 0 to |events|
      invariant |parts| == i && Accounted(s, marshal, r, events, failed, parts)
      invariant prod.log == old(prod.log) + Concat(parts)
    {
      var ok: bool;
      ghost var sends;
      ok, sends := DispatchOne(prod, s, marshal, events[i], KeyOf(r, i, |events|));
      assert (parts + [sends])[..i] == parts;
      OneMoreAccounted(s, marshal, r, events, failed, parts, ok, sends);
      if !ok {
        failed := failed + [i];
      }
      parts := parts + [sends];
    }
  }

  lemma {:induction false} DeliveredLength(s: Settings, marshal: Marshal, r: Record, events: seq<Event>,
      parts: seq<seq<Sent>>)
    requires |parts| <= |events| && Accounted(s, marshal, r, events, [], parts)
    ensures |Concat(parts)| == |parts|
    ensures forall i :: 0 <= i < |parts| ==> Concat(parts)[i] == parts[i][0] && Concat(parts)[i].ok
  {
    hide Settled, KeyOf;
    if parts != [] {
      var n: nat := |parts| - 1;
      assert forall i: nat :: i < n ==> Settled(s, marshal, events[i], KeyOf(r, i, |events|), false, parts[..n][i]);
      DeliveredLength(s, marshal, r, events, parts[..n]);
      SettledOne(s, marshal, events[n], KeyOf(r, n, |events|), parts[n]);
    }
  }

  lemma SettledOne(s: Settings, marshal: Marshal, e: Event, key: Option<string>, sends: seq<Sent>)
    requires Settled(s, marshal, e, key, false, sends)
    ensures |sends| == 1 && sends[0].ok
  {
  }

  /** With none listed as failed, there are exactly as many sends as events, all of them accepted, the `i`-th being
      the `i`-th event's, and no two events share a key. */
  lemma NoneFailed(s: Settings, marshal: Marshal, r: Record, events: seq<Event>, parts: seq<seq<Sent>>)
    requires |parts| == |events| && Accounted(s, marshal, r, events, [], parts)
    ensures var log := Concat(parts);
            && |log| == |events|
            && (forall i: nat :: i < |log| ==> Delivered(s, marshal, events[i], KeyOf(r, i, |events|), [log[i]]))
            && (forall i: nat, j: nat :: i < j < |log| ==> log[i].key != log[j].key)
  {
    DeliveredLength(s, marshal, r, events, parts);
    var log := Concat(parts);
    forall i: nat | i < |log| ensures Delivered(s, marshal, events[i], KeyOf(r, i, |events|), [log[i]]) {
      assert Settled(s, marshal, events[i], KeyOf(r, i, |events|), false, parts[i]);
      assert [log[i]] == parts[i];
    }
    forall i: nat, j: nat | i < j < |log| ensures log[i].key != log[j].key {
      AppendedKeysAgree(r.key, i, r.key, j);
      assert log[i].key == KeyOf(r, i, |events|) && log[j].key == KeyOf(r, j, |events|) by {
        assert Delivered(s, marshal, events[i], KeyOf(r, i, |events|), [log[i]])
            && Delivered(s, marshal, events[j], KeyOf(r, j, |events|), [log[j]]);
        assert [log[i]][0] == log[i] && [log[j]][0] == log[j];
      }
    }
  }

  // ----- one record -----

  /** The payload that goes to the dead-letter topic with a broken result: the event's if there is one that
      can be marshalled, the record's own value otherwise. */
  function BrokenPayload(marshal: Marshal, r: Record, partial: Option<Event>): string {
    if partial.Some? && marshal(partial.value.payload).Some? then marshal(partial.value.payload).value else r.value
  }

  /** Sends to the dead-letter topic when there is one, and drops otherwise. */
  method SendOrDrop(prod: Producer, s: Settings, key: Option<string>, value: string) returns (err: Option<Error>)
    modifies prod
    ensures if Trim(s.dlqTopic) == "" then err == None && prod.log == old(prod.log)
            else prod.log == old(prod.log) + [Sent(Trim(s.dlqTopic), key, value, err.None?)]
    ensures err == None || err == Some(SendFailed)
  {
    var dlqTopic := Trim(s.dlqTopic);
    if dlqTopic == "" {
      return None;
    }
    var ok := prod.Send(dlqTopic, key, value);
    err := if ok then None else Some(SendFailed);
  }

  /** A single event goes out under the record's own key. */
  method DispatchSingle(prod: Producer, s: Settings, marshal: Marshal, r: Record, e: Event)
      returns (err: Option<Error>, ghost sends: seq<Sent>)
    modifies prod
    ensures prod.log == old(prod.log) + sends
    ensures err.None? <==> Delivered(s, marshal, e, r.key, sends)
    ensures err.Some? && marshal(e.payload).None? ==> err.value == MarshalFailed && sends == []
    ensures err.Some? && marshal(e.payload).Some? ==>
              err.value == SendFailed && sends == [Sent(Destination(s, e), r.key, marshal(e.payload).value, false)]
  {
    sends := [];
    var value := marshal(e.payload);
    if HeaderOf(e, DlqReason) != "" && s.dlqTopic != "" {
      if value.None? {
        return Some(MarshalFailed), sends;
      }
      var ok := prod.Send(s.dlqTopic, r.key, value.value);
      return if ok then None else Some(SendFailed), [Sent(s.dlqTopic, r.key, value.value, ok)];
    }
    if value.None? {
      return Some(MarshalFailed), sends;
    }
    var topic := if HeaderOf(e, RouteTarget) != "" then HeaderOf(e, RouteTarget) else Trim(s.outputTopic);
    var ok := prod.Send(topic, r.key, value.value);
    return if ok then None else Some(SendFailed), [Sent(topic, r.key, value.value, ok)];
  }

  /** The handler, for a record whose topic has a pipeline. */
  method Handle(prod: Producer, s: Settings, marshal: Marshal, r: Record, result: Result)
    returns (err: Option<Error>, ghost sends: seq<Sent>, ghost failed: seq<nat>, ghost parts: seq<seq<Sent>>)
    modifies prod
    ensures prod.log == old(prod.log) + sends
    ensures match result
            case Dropped => err.None? && sends == []
            case Malformed =>
              && (Trim(s.dlqTopic) == "" ==> err.None? && sends == [])
              && (Trim(s.dlqTopic) != "" ==> sends == [Sent(Trim(s.dlqTopic), r.key, r.value, err.None?)])
              && (err.Some? ==> err.value == SendFailed)
            case Broken(partial) =>
              var payload := BrokenPayload(marshal, r, partial);
              && (Trim(s.dlqTopic) == "" ==> err.None? && sends == [])
              && (Trim(s.dlqTopic) != "" ==> sends == [Sent(Trim(s.dlqTopic), r.key, payload, err.None?)])
              && (err.Some? ==> err.value == SendFailed)
            case _ =>
              if Trim(s.outputTopic) == "" then err == Some(NoOutputTopic) && sends == []
              else match result
                   case Single(e) => err.None? <==> Delivered(s, marshal, e, r.key, sends)
                   case Multiple(events) =>
                     && |parts| == |events| && sends == Concat(parts) && Accounted(s, marshal, r, events, failed, parts)
                     && err == (if failed == [] then None else Some(FailuresAt(failed)))
                   case _ => err == Some(UnexpectedResult) && sends == []
  {
    hide Accounted, Delivered, Destination, Concat, Trim;
    sends, failed, parts := [], [], [];
    match result
    case Malformed =>
      err := SendOrDrop(prod, s, r.key, r.value);
      sends := if Trim(s.dlqTopic) == "" then [] else [Sent(Trim(s.dlqTopic), r.key, r.value, err.None?)];
    case Dropped => err := None;
    case Broken(partial) =>
      var payload := BrokenPayload(marshal, r, partial);
      err := SendOrDrop(prod, s, r.key, payload);
      sends := if Trim(s.dlqTopic) == "" then [] else [Sent(Trim(s.dlqTopic), r.key, payload, err.None?)];
    case Single(e) =>
      if Trim(s.outputTopic) == "" {
        err := Some(NoOutputTopic);
      } else {
        err, sends := DispatchSingle(prod, s, marshal, r, e);
      }
    case Multiple(events) =>
      if Trim(s.outputTopic) == "" {
        err := Some(NoOutputTopic);
      } else {
        var indices;
        indices, parts := DispatchAll(prod, s, marshal, r, events);
        failed, sends := indices, Concat(parts);
        err := if |indices| > 0 then Some(FailuresAt(indices)) else None;
      }
    case Unexpected =>
      err := if Trim(s.outputTopic) == "" then Some(NoOutputTopic) else Some(UnexpectedResult);
  }
}
