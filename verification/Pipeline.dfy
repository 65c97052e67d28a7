/** Pipelines of transforms: what composing, routing and splitting do to events. */
module Pipeline {
  import opened Text
  import opened Event
  import opened EventHeap
  import Condition
  import Evaluation

  // ----- composition -----

  /** What travels between transforms: one event or several. */
  datatype Data<E> = One(event: E) | Many(events: seq<E>)

  /** What a transform returns: data, nothing or the drop sentinel, or another error. */
  datatype Outcome<E> = Next(data: Data<E>) | Dropped | Failed(error: string)

  /** A transform; `ended` is the context's error if it has ended by the time the transform's turn comes. */
  datatype Stage<!E> = Stage(name: string, ended: Option<string>, run: Data<E> -> Outcome<E>)

  /** An empty list of events counts as dropped. */
  function Normalized<E>(out: Outcome<E>, name: string): Outcome<E> {
    match out
    case Failed(error) => Failed("transform " + name + " failed: " + error)
    case Next(Many(events)) => if events == [] then Dropped else out
    case _ => out
  }

  function RunStages<E>(stages: seq<Stage<E>>, data: Data<E>): Outcome<E> {
    if stages == [] then Next(data)
    else if stages[0].ended.Some? then Failed(stages[0].ended.value)
    else
      var out := Normalized(stages[0].run(data), stages[0].name);
      if out.Next? then RunStages(stages[1..], out.data) else out
  }

  /** The loop of the source, with its early returns. */
  method Execute<E>(stages: seq<Stage<E>>, input: Data<E>) returns (r: Outcome<E>)
    ensures r == RunStages(stages, input)
  {
    var data := input;
    assert stages[0..] == stages;
    for i := 0 to |stages|
      invariant RunStages(stages[i..], data) == RunStages(stages, input)
    {
      assert stages[i..][1..] == stages[i + 1..];
      if stages[i].ended.Some? {
        return Failed(stages[i].ended.value);
      }
      var out := stages[i].run(data);
      match out {
        case Failed(error) => return Failed("transform " + stages[i].name + " failed: " + error);
        case Dropped => return Dropped;
        case Next(result) =>
          if result.Many? && result.events == [] {
            return Dropped;
          }
          data := result;
      }
    }
    r := Next(data);
  }

  /** Running two lists of stages one after the other; a drop or an error in the first absorbs the second. */
  lemma {:induction false} RunConcat<E>(a: seq<Stage<E>>, b: seq<Stage<E>>, data: Data<E>)
    ensures RunStages(a + b, data) == var mid := RunStages(a, data); if mid.Next? then RunStages(b, mid.data) else mid
    decreases |a|
  {
    if a == [] {
      assert a + b == b;
    } else {
      assert (a + b)[1..] == a[1..] + b;
      var out := Normalized(a[0].run(data), a[0].name);
      if a[0].ended.None? && out.Next? { RunConcat(a[1..], b, out.data); }
    }
  }

  /** The stage takes `from` to `to`: the context is alive and the transform returns an event or some events. */
  ghost predicate Passes<E>(stage: Stage<E>, from: Data<E>, to: Data<E>) {
    stage.ended.None? && stage.run(from) == Next(to) && !(to.Many? && to.events == [])
  }

  ghost predicate Stops<E>(stage: Stage<E>, from: Data<E>) {
    stage.ended.Some? || !stage.run(from).Next? || stage.run(from) == Next(Many([]))
  }

  /** The stages pass `steps[0]` on to `steps[|steps| - 1]`, one step each. */
  ghost predicate PassAlong<E>(stages: seq<Stage<E>>, steps: seq<Data<E>>) {
    0 < |steps| <= |stages| + 1 && forall i :: 0 <= i < |steps| - 1 ==> Passes(stages[i], steps[i], steps[i + 1])
  }

  /** When every stage passes, the pipeline returns what the last one did; otherwise the first that does not
      decides: the context's error as it is, a drop for a drop or an empty list, a wrapped error for an error. */
  lemma {:induction false} FirstStopDecides<E>(stages: seq<Stage<E>>, steps: seq<Data<E>>)
    requires PassAlong(stages, steps)
    ensures |steps| == |stages| + 1 ==> RunStages(stages, steps[0]) == Next(steps[|stages|])
    ensures |steps| <= |stages| && Stops(stages[|steps| - 1], steps[|steps| - 1]) ==>
      RunStages(stages, steps[0]) ==
        var last := stages[|steps| - 1];
        if last.ended.Some? then Failed(last.ended.value)
        else match last.run(steps[|steps| - 1])
             case Failed(error) => Failed("transform " + last.name + " failed: " + error)
             case _ => Dropped
    decreases |steps|
  {
    if |steps| > 1 {
      assert Passes(stages[0], steps[0], steps[1]);
      forall i | 0 <= i < |steps[1..]| - 1 ensures Passes(stages[1..][i], steps[1..][i], steps[1..][i + 1]) {
        assert Passes(stages[i + 1], steps[i + 1], steps[i + 2]);
      }
      FirstStopDecides(stages[1..], steps[1..]);
    }
  }

  // ----- events as structs over the heap -----

  class HeaderMap {
    var entries: map<string, string>

    constructor (entries: map<string, string>)
      ensures this.entries == entries
    {
      this.entries := entries;
    }
  }

  /** A record's key is an array of bytes, or nil. */
  datatype MetadataRef = MetadataRef(topic: string, partition: int, offset: int, key: array?<bv8>)

  /** Copied by value, but its payload, key and headers are references. */
  datatype EventRef = EventRef(payload: MapObj?, metadata: MetadataRef, timestamp: int, headers: HeaderMap?)

  method CloneStringMap(m: HeaderMap?) returns (c: HeaderMap?)
    ensures (c == null <==> m == null) && (c != null ==> fresh(c) && c.entries == m.entries)
  {
    if m == null {
      return null;
    }
    c := new HeaderMap(m.entries);
  }

  method CloneMetadata(m: MetadataRef) returns (c: MetadataRef)
    ensures c.topic == m.topic && c.partition == m.partition && c.offset == m.offset
    ensures (c.key == null <==> m.key == null) && (c.key != null ==> fresh(c.key) && c.key[..] == m.key[..])
  {
    if m.key == null {
      return m;
    }
    var key := new bv8[m.key.Length];
    forall i | 0 <= i < key.Length {
      key[i] := m.key[i];
    }
    assert key[..] == m.key[..];
    c := m.(key := key);
  }

  /** Equal but for the payload, with equal contents of key and headers. */
  ghost predicate SameEnvelope(c: EventRef, e: EventRef)
    reads c.headers, e.headers, c.metadata.key, e.metadata.key
  {
    && c.timestamp == e.timestamp
    && c.metadata.topic == e.metadata.topic && c.metadata.partition == e.metadata.partition
    && c.metadata.offset == e.metadata.offset
    && (c.metadata.key == null <==> e.metadata.key == null)
    && (c.metadata.key != null ==> c.metadata.key[..] == e.metadata.key[..])
    && (c.headers == null <==> e.headers == null) && (c.headers != null ==> c.headers.entries == e.headers.entries)
  }

  /** The event around another payload, its headers and key copied. */
  method Rewrap(e: EventRef, payload: MapObj?) returns (c: EventRef)
    ensures c.payload == payload && SameEnvelope(c, e)
    ensures (c.headers != null ==> fresh(c.headers)) && (c.metadata.key != null ==> fresh(c.metadata.key))
  {
    var metadata := CloneMetadata(e.metadata);
    var headers := CloneStringMap(e.headers);
    c := EventRef(payload, metadata, e.timestamp, headers);
  }

  method CloneEvent(e: EventRef, ghost h: Region) returns (c: EventRef, ghost now: Region)
    requires h.Valid() && (e.payload != null ==> e.payload in h.maps)
    ensures now.Valid() && fresh(now.maps) && fresh(now.slices)
    ensures (c.payload == null <==> e.payload == null) && (c.payload != null ==> c.payload in now.maps)
    ensures TreeOf(c.payload) == TreeOf(e.payload) && SameEnvelope(c, e)
    ensures (c.headers != null ==> fresh(c.headers)) && (c.metadata.key != null ==> fresh(c.metadata.key))
  {
    hide Region.Valid, SameEnvelope;
    var payload: MapObj? := null;
    now := Region({}, {}, h.bound);
    if e.payload != null {
      payload, now := DeepCopyMap(e.payload, h);
    } else {
      EmptyIsValid(h.bound);
    }
    c := Rewrap(e, payload);
  }

  /** SetField on an event: a new payload in a new event, nothing written that was there before. */
  method SetFieldOf(e: EventRef, path: string, value: Ref, ghost v: Value, ghost h: Region)
    returns (r: EventRef, ghost now: Region)
    requires h.Valid() && (e.payload != null ==> e.payload in h.maps) && h.Holds(value, v, h.bound)
    ensures now.Valid() && h.maps <= now.maps && h.slices == now.slices
    ensures h.bound <= now.bound && fresh(now.maps - h.maps)
    ensures SameEnvelope(r, e)
    ensures if path == "" then r == e && now == h
            else
              && r.payload != null && fresh(r.payload) && r.payload in now.maps && Grew(h, now, |PathOf(path)|)
              && r.payload.tree == Set(TreeOf(e.payload), PathOf(path), v)
              && (r.headers != null ==> fresh(r.headers)) && (r.metadata.key != null ==> fresh(r.metadata.key))
  {
    if path == "" {
      return e, h;
    }
    hide Region.Valid, Region.Holds, Grew, Set, PathOf, SameEnvelope;
    var payload: MapObj;
    payload, now := EventHeap.SetField(e.payload, PathOf(path), value, v, h);
    r := Rewrap(e, payload);
  }

  /** RemoveField on an event: the event itself when there is nothing to remove, a new one otherwise. */
  method RemoveFieldOf(e: EventRef, path: string, ghost h: Region) returns (r: EventRef, ghost now: Region)
    requires h.Valid() && (e.payload != null ==> e.payload in h.maps)
    ensures now.Valid() && h.maps <= now.maps && h.slices == now.slices
    ensures h.bound <= now.bound && fresh(now.maps - h.maps)
    ensures SameEnvelope(r, e) && (r.payload == null <==> e.payload == null)
    ensures r.payload != null ==> r.payload in now.maps
    ensures if path == "" || Get(TreeOf(e.payload), PathOf(path)).None? then r == e
            else
              && r.payload != null && fresh(r.payload) && Grew(h, now, |PathOf(path)|)
              && r.payload.tree == Remove(TreeOf(e.payload), PathOf(path))
              && (r.headers != null ==> fresh(r.headers)) && (r.metadata.key != null ==> fresh(r.metadata.key))
  {
    if path == "" || e.payload == null {
      return e, h;
    }
    hide Region.Valid, Grew, Remove, Get, PathOf, SameEnvelope;
    var payload: MapObj?;
    payload, now := EventHeap.RemoveField(e.payload, PathOf(path), h);
    if payload == e.payload {
      SameAsItself(e);
      return e, now;
    }
    r := Rewrap(e, payload);
  }

  lemma SameAsItself(e: EventRef)
    ensures SameEnvelope(e, e)
  {
  }

  // ----- transforms that write into what they are given -----

  /** One step of a path through nested maps and slices. */
  datatype Hop = Key(k: string) | Index(i: nat)

  /** What a transform may put in a place: nothing, an atom, a map or slice of its own, or what the event already
      holds elsewhere. */
  datatype Change =
    | Delete
    | PutAtom(v: Value)
    | PutNewMap
    | PutNewSlice(atoms: seq<Value>)
    | PutExisting(from: seq<Hop>)

  /** What a transform does to the event it was handed: it writes a header, a byte of the key, or an entry of a map
      or slice found along `path`; or it goes on with a copy as SetField and RemoveField make them, a new event
      around a shallow copy of the payload. */
  datatype Write =
    | Header(key: string, text: string)
    | KeyByte(at: nat, byte: bv8)
    | Entry(path: seq<Hop>, place: Hop, change: Change)
    | Rebuild

  /** References never leave the set of maps and slices. */
  ghost predicate Closed(maps: set<MapObj>, slices: set<SliceObj>)
    reads maps, slices
  {
    && (forall m, k :: m in maps && k in m.entries ==> Inside(m.entries[k], maps, slices))
    && (forall s, i :: s in slices && 0 <= i < |s.items| ==> Inside(s.items[i], maps, slices))
  }

  ghost predicate Inside(ref: Ref, maps: set<MapObj>, slices: set<SliceObj>) {
    match ref
    case Atom(_) => true
    case MapRef(m) => m in maps
    case SliceRef(s) => s in slices
  }

  lemma ValidIsClosed(h: Region)
    requires h.Valid()
    ensures Closed(h.maps, h.slices)
  {
    forall m, k | m in h.maps && k in m.entries ensures Inside(m.entries[k], h.maps, h.slices) {
      assert h.MapFits(m) && h.Holds(m.entries[k], m.tree[k], m.rank);
    }
    forall s, i | s in h.slices && 0 <= i < |s.items| ensures Inside(s.items[i], h.maps, h.slices) {
      assert h.SliceFits(s) && h.Holds(s.items[i], s.trees[i], s.rank);
    }
  }

  /** Follows a path from the payload. */
  method FindRef(root: MapObj, path: seq<Hop>, ghost maps: set<MapObj>, ghost slices: set<SliceObj>)
      returns (r: Option<Ref>)
    requires root in maps && Closed(maps, slices)
    ensures r.Some? ==> Inside(r.value, maps, slices)
  {
    var cur := MapRef(root);
    for i := 0 to |path|
      invariant Inside(cur, maps, slices)
    {
      match (cur, path[i]) {
        case (MapRef(m), Key(k)) =>
          if k !in m.entries {
            return None;
          }
          cur := m.entries[k];
        case (SliceRef(s), Index(j)) =>
          if j >= |s.items| {
            return None;
          }
          cur := s.items[j];
        case _ => return None;
      }
    }
    r := Some(cur);
  }

  /** The reference that a change puts: none for a deletion, or for something that is not found. */
  method NewRef(root: MapObj, change: Change, ghost maps: set<MapObj>, ghost slices: set<SliceObj>)
    returns (ref: Option<Ref>, ghost moreMaps: set<MapObj>, ghost moreSlices: set<SliceObj>)
    requires root in maps && Closed(maps, slices)
    ensures maps <= moreMaps && slices <= moreSlices && fresh(moreMaps - maps) && fresh(moreSlices - slices)
    ensures Closed(moreMaps, moreSlices) && (ref.Some? ==> Inside(ref.value, moreMaps, moreSlices))
  {
    moreMaps, moreSlices, ref := maps, slices, None;
    match change
    case Delete =>
    case PutAtom(v) => ref := Some(Atom(v));
    case PutNewMap =>
      var m := new MapObj(map[], map[], 0);
      moreMaps, ref := maps + {m}, Some(MapRef(m));
    case PutNewSlice(atoms) =>
      var s := new SliceObj(seq(|atoms|, i requires 0 <= i < |atoms| => Atom(atoms[i])), [], 0);
      moreSlices, ref := slices + {s}, Some(SliceRef(s));
    case PutExisting(from) => ref := FindRef(root, from, maps, slices);
  }

  /** Writes a reference to a place of a map or slice; deleting is for maps only. */
  method WriteEntry(container: Ref, place: Hop, ref: Option<Ref>, ghost maps: set<MapObj>, ghost slices: set<SliceObj>)
    requires Inside(container, maps, slices) && Closed(maps, slices) && (ref.Some? ==> Inside(ref.value, maps, slices))
    modifies maps, slices
    ensures Closed(maps, slices)
  {
    match (container, place) {
      case (MapRef(m), Key(k)) => m.entries := if ref.Some? then m.entries[k := ref.value] else m.entries - {k};
      case (SliceRef(s), Index(i)) =>
        if i < |s.items| && ref.Some? {
          s.items := s.items[i := ref.value];
        }
      case _ =>
    }
  }

  /** A shallow copy of a map refers to nothing new. */
  method CopyRoot(root: MapObj, ghost maps: set<MapObj>, ghost slices: set<SliceObj>) returns (m: MapObj)
    requires root in maps && Closed(maps, slices)
    ensures fresh(m) && Closed(maps + {m}, slices)
  {
    m := new MapObj(root.entries, map[], 0);
  }

  /** One thing a transform does to its event. */
  method Perform(e: EventRef, w: Write, ghost maps: set<MapObj>, ghost slices: set<SliceObj>)
    returns (r: EventRef, ghost moreMaps: set<MapObj>, ghost moreSlices: set<SliceObj>)
    requires Closed(maps, slices) && (e.payload != null ==> e.payload in maps)
    modifies maps, slices, e.headers, e.metadata.key
    ensures maps <= moreMaps && slices <= moreSlices && fresh(moreMaps - maps) && fresh(moreSlices - slices)
    ensures Closed(moreMaps, moreSlices) && (r.payload != null ==> r.payload in moreMaps)
    ensures r.headers == e.headers || fresh(r.headers)
    ensures r.metadata.key == e.metadata.key || fresh(r.metadata.key)
  {
    hide Closed, Inside, SameEnvelope;
    r, moreMaps, moreSlices := e, maps, slices;
    match w {
      case Header(key, text) =>
        if e.headers != null {
          e.headers.entries := e.headers.entries[key := text];
        }
      case KeyByte(at, byte) =>
        if e.metadata.key != null && at < e.metadata.key.Length {
          e.metadata.key[at] := byte;
        }
      case Entry(path, place, change) =>
        if e.payload != null {
          var container := FindRef(e.payload, path, maps, slices);
          if container.Some? {
            var ref;
            ref, moreMaps, moreSlices := NewRef(e.payload, change, maps, slices);
            StillInside(container.value, maps, slices, moreMaps, moreSlices);
            WriteEntry(container.value, place, ref, moreMaps, moreSlices);
          }
        }
      case Rebuild =>
        var payload: MapObj? := null;
        if e.payload != null {
          payload := CopyRoot(e.payload, maps, slices);
          moreMaps := maps + {payload};
        }
        r := Rewrap(e, payload);
    }
  }

  lemma StillInside(ref: Ref, maps: set<MapObj>, slices: set<SliceObj>, moreMaps: set<MapObj>,
      moreSlices: set<SliceObj>)
    requires Inside(ref, maps, slices) && maps <= moreMaps && slices <= moreSlices
    ensures Inside(ref, moreMaps, moreSlices)
  {
  }

  /** Every map, slice, key and header map that existed before the pipeline ran is untouched, whatever the
      transforms do to the events they are handed: they only ever reach the clone, and what they make of it. */
  method ExecuteInPlace(e: EventRef, writes: seq<Write>, ghost h: Region) returns (c: EventRef)
    requires h.Valid() && (e.payload != null ==> e.payload in h.maps)
    ensures h.Valid() && TreeOf(e.payload) == old(TreeOf(e.payload))
    ensures forall m :: m in h.maps ==> unchanged(m)
    ensures forall s :: s in h.slices ==> unchanged(s)
    ensures (e.headers != null ==> unchanged(e.headers)) && (e.metadata.key != null ==> unchanged(e.metadata.key))
    ensures (c.payload != null ==> fresh(c.payload)) && (c.headers != null ==> fresh(c.headers))
    ensures c.metadata.key != null ==> fresh(c.metadata.key)
  {
    ghost var now: Region;
    c, now := CloneEvent(e, h);
    ValidIsClosed(now);
    hide Region.Valid, Closed, SameEnvelope;
    ghost var maps, slices := now.maps, now.slices;
    for i := 0 to |writes|
      invariant fresh(maps) && fresh(slices) && Closed(maps, slices) && h.Valid()
      invariant c.payload != null ==> c.payload in maps
      invariant (c.headers != null ==> fresh(c.headers)) && (c.metadata.key != null ==> fresh(c.metadata.key))
    {
      c, maps, slices := Perform(c, writes[i], maps, slices);
    }
  }

  // ----- filter.route -----

  datatype Rule = Rule(cond: Condition.Condition, topic: string)

  datatype Route = Routed(topic: string) | ConditionError(error: Condition.Error) | NoRoute

  const RouteHeader := "_route_target"

  /** The first rule that holds decides; a rule that errs stops the search. */
  function RouteOf(lib: Condition.Library, rules: seq<Rule>, default: string, e: Event): Route {
    if rules == [] then if default != "" then Routed(default) else NoRoute
    else
      match Evaluation.Eval(lib, rules[0].cond, e)
      case Err(error) => ConditionError(error)
      case Ok(holds) => if holds then Routed(rules[0].topic) else RouteOf(lib, rules[1..], default, e)
  }

  /** Reads the verdict off the rules: all earlier rules fail, the deciding one holds. */
  lemma {:induction false} RouteIsFirstMatch(lib: Condition.Library, rules: seq<Rule>, default: string, e: Event,
      i: nat)
    requires i < |rules| && (forall j :: 0 <= j < i ==> Evaluation.Eval(lib, rules[j].cond, e) == Condition.Ok(false))
    requires Evaluation.Eval(lib, rules[i].cond, e) != Condition.Ok(false)
    ensures RouteOf(lib, rules, default, e) ==
      match Evaluation.Eval(lib, rules[i].cond, e)
      case Err(error) => ConditionError(error)
      case Ok(_) => Routed(rules[i].topic)
    decreases |rules|
  {
    if i > 0 {
      assert Evaluation.Eval(lib, rules[0].cond, e) == Condition.Ok(false);
      RouteIsFirstMatch(lib, rules[1..], default, e, i - 1);
    }
  }

  lemma {:induction false} RouteFallsBack(lib: Condition.Library, rules: seq<Rule>, default: string, e: Event)
    requires forall j :: 0 <= j < |rules| ==> Evaluation.Eval(lib, rules[j].cond, e) == Condition.Ok(false)
    ensures RouteOf(lib, rules, default, e) == if default != "" then Routed(default) else NoRoute
  {
    if rules != [] {
      assert Evaluation.Eval(lib, rules[0].cond, e) == Condition.Ok(false);
      RouteFallsBack(lib, rules[1..], default, e);
    }
  }

  /** Writes the target into the event's own header map, or into a new one where there was none. */
  method RouteExecute(lib: Condition.Library, rules: seq<Rule>, default: string, e: Event, headers: HeaderMap?)
    returns (route: Route, now: HeaderMap)
    modifies headers
    ensures route == RouteOf(lib, rules, default, e)
    ensures if headers == null then fresh(now) else now == headers
    ensures now.entries == (var before := if headers == null then map[] else old(headers.entries);
                            if route.Routed? then before[RouteHeader := route.topic] else before)
  {
    if headers == null {
      now := new HeaderMap(map[]);
    } else {
      now := headers;
    }
    assert rules[0..] == rules;
    for i := 0 to |rules|
      invariant RouteOf(lib, rules[i..], default, e) == RouteOf(lib, rules, default, e)
      invariant now.entries == if headers == null then map[] else old(headers.entries)
    {
      assert rules[i..][1..] == rules[i + 1..];
      var verdict := Evaluation.Evaluate(lib, rules[i].cond, e);
      if verdict.Err? {
        return ConditionError(verdict.error), now;
      }
      if verdict.value {
        now.entries := now.entries[RouteHeader := rules[i].topic];
        return Routed(rules[i].topic), now;
      }
    }
    if default != "" {
      now.entries := now.entries[RouteHeader := default];
      return Routed(default), now;
    }
    route := NoRoute;
  }

  // ----- filter.split -----

  const SplitHeader := "_split_index"

  function Digit(n: nat): char
    requires n < 10
  {
    '0' + n as char
  }

  /** `%d` for a non-negative number. */
  function Decimal(n: nat): (s: string)
    ensures s != "" && forall i :: 0 <= i < |s| ==> '0' <= s[i] <= '9'
  {
    if n < 10 then [Digit(n)] else Decimal(n / 10) + [Digit(n % 10)]
  }

  lemma {:induction false} DecimalIsInjective(a: nat, b: nat)
    requires Decimal(a) == Decimal(b)
    ensures a == b
  {
    var s, t := Decimal(a), Decimal(b);
    assert s[|s| - 1] == Digit(a % 10) && t[|t| - 1] == Digit(b % 10);
    assert a % 10 == b % 10;
    if a < 10 {
      assert |t| == 1;
    } else {
      assert s[..|s| - 1] == Decimal(a / 10);
      assert b >= 10;
      assert t[..|t| - 1] == Decimal(b / 10);
      DecimalIsInjective(a / 10, b / 10);
    }
  }

  /** A text of digits read as a decimal numeral. */
  function Numeral(s: string): nat
    requires forall i :: 0 <= i < |s| ==> '0' <= s[i] <= '9'
  {
    if s == "" then 0 else 10 * Numeral(s[..|s| - 1]) + (s[|s| - 1] as nat - '0' as nat)
  }

  /** Reading back what was written gives the number, and there are no leading zeros. */
  lemma {:induction false} DecimalReads(n: nat)
    ensures Numeral(Decimal(n)) == n && (n > 0 ==> Decimal(n)[0] != '0')
  {
    if n < 10 {
      assert Numeral([Digit(n)][..0]) == 0;
    } else {
      DecimalReads(n / 10);
      var s := Decimal(n);
      assert s[..|s| - 1] == Decimal(n / 10);
    }
  }

  datatype SplitResult = SplitDropped | NotAnArray | Events(events: seq<EventRef>)

  lemma HigherRank(h: Region, ref: Ref, v: Value, low: nat, high: nat)
    requires h.Holds(ref, v, low) && low <= high
    ensures h.Holds(ref, v, high)
  {
  }

  /** `r` is the event of the `i`-th item. */
  ghost predicate SplitPart(r: EventRef, e: EventRef, field: Path, target: Path, item: Value, i: nat)
    reads e.payload, e.headers, e.metadata.key, r.payload, r.headers, r.metadata.key
  {
    && r.payload != null && r.payload.tree == Set(Remove(TreeOf(e.payload), field), target, item)
    && r.headers != null
        && r.headers.entries == (if e.headers == null then map[] else e.headers.entries)[SplitHeader := Decimal(i)]
    && r.timestamp == e.timestamp && r.metadata.(key := null) == e.metadata.(key := null)
    && (r.metadata.key == null <==> e.metadata.key == null)
    && (r.metadata.key != null ==> r.metadata.key[..] == e.metadata.key[..])
  }

  /** Such an event answers the target with the item, the field itself no more unless the target lies there, all other
      fields and headers as before, and the index under its header. */
  lemma SplitPartMeans(r: EventRef, e: EventRef, field: Path, target: Path, item: Value, i: nat)
    requires SplitPart(r, e, field, target, item, i)
    ensures r.payload != null && Get(r.payload.tree, target) == Some(item)
    ensures Apart(target, field) ==> Get(r.payload.tree, field) == None
    ensures forall q: Path :: Apart(target, q) && Apart(field, q) ==>
        Get(r.payload.tree, q) == Get(TreeOf(e.payload), q)
    ensures r.headers != null && "_split_index" in r.headers.entries
            && (forall j :: 0 <= j < |r.headers.entries["_split_index"]| ==>
                '0' <= r.headers.entries["_split_index"][j] <= '9')
            && Numeral(r.headers.entries["_split_index"]) == i
    ensures r.timestamp == e.timestamp && r.metadata.topic == e.metadata.topic
    ensures r.metadata.partition == e.metadata.partition && r.metadata.offset == e.metadata.offset
    ensures if e.metadata.key == null then r.metadata.key == null
            else r.metadata.key != null && r.metadata.key[..] == e.metadata.key[..]
    ensures forall k :: k != "_split_index" ==>
        (k in r.headers.entries <==> e.headers != null && k in e.headers.entries)
        && (k in r.headers.entries ==> r.headers.entries[k] == e.headers.entries[k])
  {
    var m, without := TreeOf(e.payload), Remove(TreeOf(e.payload), field);
    GetAfterSet(without, target, item);
    DecimalReads(i);
    hide Set, Get, Remove, Decimal, Numeral;
    GetAfterRemove(m, field);
    if Apart(target, field) { SetLeavesOthers(without, target, item, field); }
    forall q: Path | Apart(target, q) && Apart(field, q) ensures Get(r.payload.tree, q) == Get(m, q) {
      SetLeavesOthers(without, target, item, q);
      RemoveLeavesOthers(m, field, q);
    }
  }

  /** Drops a missing, nil or empty field; refuses one that is no array; otherwise one event per item. */
  method SplitExecute(e: EventRef, field: string, targetField: string, dropEmpty: bool, ghost h: Region)
    returns (r: SplitResult)
    requires h.Valid() && (e.payload != null ==> e.payload in h.maps) && field != ""
    ensures var found: Option<Value> := if e.payload == null then None else Get(e.payload.tree, PathOf(field));
            match found
            case None => r == SplitDropped
            case Some(Nil) => r == SplitDropped
            case Some(List(items)) =>
              if items == [] then r == if dropEmpty then SplitDropped else Events([])
              else
                r.Events? && |r.events| == |items| && Separate(r.events)
                && forall i :: 0 <= i < |items| ==>
                     SplitPart(r.events[i], e, PathOf(field), PathOf(if targetField == "" then field else targetField),
                         items[i], i)
            case Some(_) => r == NotAnArray
  {
    if e.payload == null {
      return SplitDropped;
    }
    var value := LookUp(e.payload, PathOf(field), h);
    if value.None? || value.value == Atom(Nil) {
      return SplitDropped;
    }
    if !value.value.SliceRef? {
      return NotAnArray;
    }
    var slice := value.value.s;
    if slice.items == [] {
      return if dropEmpty then SplitDropped else Events([]);
    }
    var results := SplitItems(e, field, if targetField == "" then field else targetField, slice, h);
    r := Events(results);
  }

  /** No two events share a payload map, a header map or a key. */
  ghost predicate Separate(results: seq<EventRef>) {
    forall i, j :: 0 <= i < j < |results| ==>
      && results[i].headers != results[j].headers && results[i].payload != results[j].payload
      && (results[i].metadata.key != null ==> results[i].metadata.key != results[j].metadata.key)
  }

  /** No two of the events share a header map, a payload or a key. */
  lemma SeparateMeans(results: seq<EventRef>, i: nat, j: nat)
    requires Separate(results) && i < j < |results|
    ensures results[i].headers != results[j].headers && results[i].payload != results[j].payload
    ensures results[i].metadata.key != null ==> results[i].metadata.key != results[j].metadata.key
  {
  }

  method MakeSplit(e: EventRef, field: string, target: string, item: Ref, ghost v: Value, i: nat, ghost h: Region)
    returns (r: EventRef, ghost now: Region)
    requires h.Valid() && e.payload != null && e.payload in h.maps
    requires h.Holds(item, v, h.bound) && field != "" && target != ""
    ensures now.Valid() && h.maps <= now.maps && h.slices == now.slices && h.bound <= now.bound
    ensures SplitPart(r, e, PathOf(field), PathOf(target), v, i) && fresh(r.payload) && fresh(r.headers)
    ensures r.metadata.key != null ==> fresh(r.metadata.key)
  {
    hide Region.Valid, Set, Remove, Get, Decimal, Grew, PathOf;
    var removed: EventRef;
    ghost var mid: Region;
    removed, mid := RemoveFieldOf(e, field, h);
    NothingToRemove(e.payload.tree, PathOf(field));
    HoldsInMore(h, mid, item, v, h.bound);
    HigherRank(mid, item, v, h.bound, mid.bound);
    r, now := SetFieldOf(removed, target, item, v, mid);
    var headers := r.headers;
    if headers == null {
      headers := new HeaderMap(map[]);
      r := r.(headers := headers);
    }
    headers.entries := headers.entries[SplitHeader := Decimal(i)];
  }

  lemma NothingToRemove(m: Fields, p: Path)
    ensures Get(m, p).None? ==> Remove(m, p) == m
  {
  }

  /** The loop over the items. */
  method SplitItems(e: EventRef, field: string, target: string, slice: SliceObj, ghost h: Region)
    returns (results: seq<EventRef>)
    requires h.Valid() && e.payload != null && e.payload in h.maps && slice in h.slices && field != "" && target != ""
    ensures |results| == |slice.trees| && Separate(results)
    ensures forall i :: 0 <= i < |results| ==>
        SplitPart(results[i], e, PathOf(field), PathOf(target), slice.trees[i], i)
  {
    results := [];
    ghost var now := h;
    assert h.SliceFits(slice) && slice.rank < h.bound;
    hide Region.Valid, Region.Holds, SplitPart, PathOf;
    for i := 0 to |slice.items|
      invariant |results| == i && h.maps <= now.maps && now.slices == h.slices && h.bound <= now.bound
      invariant now.Valid() && |slice.trees| == |slice.items|
      invariant forall j :: 0 <= j < |slice.items| ==> h.Holds(slice.items[j], slice.trees[j], slice.rank)
      invariant Separate(results)
      invariant forall j :: 0 <= j < i ==> SplitPart(results[j], e, PathOf(field), PathOf(target), slice.trees[j], j)
    {
      HoldsInMore(h, now, slice.items[i], slice.trees[i], slice.rank);
      HigherRank(now, slice.items[i], slice.trees[i], slice.rank, now.bound);
      var r: EventRef;
      r, now := MakeSplit(e, field, target, slice.items[i], slice.trees[i], i, now);
      results := results + [r];
    }
  }
}
