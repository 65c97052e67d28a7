/** Event payloads as trees, and the laws of the path operations on them. */
module Event {
  import opened Text

  datatype NumKind = Int | Int32 | Int64 | Uint | Uint32 | Uint64 | Float32 | Float64

  /** A payload value. `NumRef` is a pointer to a float64, `Nil` the nil interface. */
  datatype Value =
    | Nil
    | Bool(b: bool)
    | Str(s: string)
    | Num(kind: NumKind, r: real)
    | NumRef(r: real)
    | Time(t: int)
    | List(items: seq<Value>)
    | Obj(fields: Fields)

  type Fields = map<string, Value>

  type Path = p: seq<string> | p != [] witness [""]

  type Bytes = seq<bv8>

  datatype Metadata = Metadata(topic: string, partition: int, offset: int, key: Option<Bytes>)

  datatype Event =
    Event(payload: Option<Fields>, metadata: Metadata, timestamp: int, headers: Option<map<string, string>>)

  // ----- the path operations on a tree -----

  function Get(m: Fields, p: Path): Option<Value>
    decreases |p|
  {
    if p[0] !in m then None
    else if |p| == 1 then Some(m[p[0]])
    else if m[p[0]].Obj? then Get(m[p[0]].fields, p[1..])
    else None
  }

  /** The nested map at `k`, or an empty one where there is none. */
  function Below(m: Fields, k: string): Fields {
    if k in m && m[k].Obj? then m[k].fields else map[]
  }

  function Set(m: Fields, p: Path, v: Value): Fields
    decreases |p|
  {
    m[p[0] := if |p| == 1 then v else Obj(Set(Below(m, p[0]), p[1..], v))]
  }

  function Cut(m: Fields, p: Path): Fields
    requires Get(m, p).Some?
    decreases |p|
  {
    if |p| == 1 then m - {p[0]}
    else m[p[0] := Obj(Cut(m[p[0]].fields, p[1..]))]
  }

  function Remove(m: Fields, p: Path): Fields {
    if Get(m, p).Some? then Cut(m, p) else m
  }

  // ----- the operations on events -----

  function PathOf(path: string): Path { Split(path, '.') }

  function GetField(e: Event, path: string): Option<Value> {
    if path == "" || e.payload.None? then None else Get(e.payload.value, PathOf(path))
  }

  function SetField(e: Event, path: string, v: Value): Event {
    if path == "" then e
    else e.(payload := Some(Set(if e.payload.Some? then e.payload.value else map[], PathOf(path), v)))
  }

  function RemoveField(e: Event, path: string): Event {
    if path == "" || e.payload.None? then e
    else e.(payload := Some(Remove(e.payload.value, PathOf(path))))
  }

  // ----- laws of Get and Set -----

  lemma {:induction false} GetAfterSet(m: Fields, p: Path, v: Value)
    ensures Get(Set(m, p, v), p) == Some(v)
    decreases |p|
  {
    if |p| > 1 { GetAfterSet(Below(m, p[0]), p[1..], v); }
  }

  /** Below the written path the new value answers; at the proper prefixes there are maps. */
  lemma {:induction false} GetBelowSet(m: Fields, p: Path, v: Value, rest: Path)
    ensures Get(Set(m, p, v), p + rest) == if v.Obj? then Get(v.fields, rest) else None
    decreases |p|
  {
    if |p| > 1 {
      GetBelowSet(Below(m, p[0]), p[1..], v, rest);
      assert (p + rest)[1..] == p[1..] + rest;
    } else {
      assert (p + rest)[1..] == rest;
    }
  }

  lemma {:induction false} GetAboveSet(m: Fields, p: Path, v: Value, rest: Path)
    ensures Get(Set(m, p + rest, v), p)
         == Some(Obj(Set(match Get(m, p) case Some(Obj(f)) => f case _ => map[], rest, v)))
    decreases |p|
  {
    if |p| > 1 {
      GetAboveSet(Below(m, p[0]), p[1..], v, rest);
      assert (p + rest)[1..] == p[1..] + rest;
      GetInEmpty(p[1..]);
    } else {
      assert (p + rest)[1..] == rest;
    }
  }

  lemma GetInEmpty(p: Path)
    ensures Get(map[], p) == None
  {
  }

  lemma {:induction false} SetAfterSet(m: Fields, p: Path, v: Value, w: Value)
    ensures Set(Set(m, p, v), p, w) == Set(m, p, w)
    decreases |p|
  {
    if |p| > 1 {
      SetAfterSet(Below(m, p[0]), p[1..], v, w);
      assert Below(Set(m, p, v), p[0]) == Set(Below(m, p[0]), p[1..], v);
    }
  }

  /** Setting a field to `v` changes nothing exactly when it holds `v` already. */
  lemma {:induction false} SetIsIdentity(m: Fields, p: Path, v: Value)
    ensures Set(m, p, v) == m <==> Get(m, p) == Some(v)
    decreases |p|
  {
    if Set(m, p, v) == m { GetAfterSet(m, p, v); }
    if Get(m, p) == Some(v) && |p| > 1 { SetIsIdentity(Below(m, p[0]), p[1..], v); }
  }

  /** Neither path is a prefix of the other. */
  predicate Apart(p: Path, q: Path) {
    !(p <= q) && !(q <= p)
  }

  lemma ApartTails(p: Path, q: Path)
    requires Apart(p, q) && p[0] == q[0]
    ensures |p| > 1 && |q| > 1 && Apart(p[1..], q[1..])
  {
    assert p == [p[0]] + p[1..] && q == [q[0]] + q[1..];
  }

  lemma {:induction false} SetLeavesOthers(m: Fields, p: Path, v: Value, q: Path)
    requires Apart(p, q)
    ensures Get(Set(m, p, v), q) == Get(m, q)
    decreases |p|
  {
    if p[0] == q[0] {
      ApartTails(p, q);
      SetLeavesOthers(Below(m, p[0]), p[1..], v, q[1..]);
      GetInEmpty(q[1..]);
    }
  }

  lemma {:induction false} SetsCommute(m: Fields, p: Path, v: Value, q: Path, w: Value)
    requires Apart(p, q)
    ensures Set(Set(m, p, v), q, w) == Set(Set(m, q, w), p, v)
    decreases |p|
  {
    if p[0] == q[0] {
      ApartTails(p, q);
      hide Apart;
      var below := Below(m, p[0]);
      SetsCommute(below, p[1..], v, q[1..], w);
      SetTwiceBelow(m, p, v, q, w);
      SetTwiceBelow(m, q, w, p, v);
    } else {
      hide Apart;
      SetTwiceBeside(m, p, v, q, w);
      SetTwiceBeside(m, q, w, p, v);
    }
  }

  lemma SetTwiceBelow(m: Fields, p: Path, v: Value, q: Path, w: Value)
    requires |p| > 1 && |q| > 1 && p[0] == q[0]
    ensures Set(Set(m, p, v), q, w) == m[p[0] := Obj(Set(Set(Below(m, p[0]), p[1..], v), q[1..], w))]
  {
    assert Below(Set(m, p, v), p[0]) == Set(Below(m, p[0]), p[1..], v);
  }

  lemma SetTwiceBeside(m: Fields, p: Path, v: Value, q: Path, w: Value)
    requires p[0] != q[0]
    ensures Set(Set(m, p, v), q, w) == m[p[0] := Set(m, p, v)[p[0]]][q[0] := Set(m, q, w)[q[0]]]
  {
    assert Below(Set(m, p, v), q[0]) == Below(m, q[0]);
  }

  // ----- laws of Remove -----

  lemma {:induction false} GetAfterRemove(m: Fields, p: Path)
    ensures Get(Remove(m, p), p) == None
    decreases |p|
  {
    if Get(m, p).Some? && |p| > 1 {
      GetAfterRemove(m[p[0]].fields, p[1..]);
    }
  }

  lemma {:induction false} RemoveLeavesOthers(m: Fields, p: Path, q: Path)
    requires Apart(p, q)
    ensures Get(Remove(m, p), q) == Get(m, q)
    decreases |p|
  {
    if p[0] == q[0] {
      ApartTails(p, q);
      if Get(m, p).Some? { RemoveLeavesOthers(m[p[0]].fields, p[1..], q[1..]); }
    }
  }

  /** The map a field of path `p` would sit in is there. */
  predicate ParentExists(m: Fields, p: Path) {
    |p| == 1 || match Get(m, p[..|p| - 1]) case Some(Obj(_)) => true case _ => false
  }

  lemma ParentBelow(m: Fields, p: Path)
    requires |p| > 1
    ensures ParentExists(m, p) <==> p[0] in m && m[p[0]].Obj? && ParentExists(m[p[0]].fields, p[1..])
  {
    var parent := p[..|p| - 1];
    if |p| > 2 { assert parent[1..] == p[1..][..|p[1..]| - 1]; }
  }

  /** Removing what was just set restores the tree exactly when the field was absent from an existing map. */
  lemma {:induction false} RemoveUndoesSet(m: Fields, p: Path, v: Value)
    ensures Remove(Set(m, p, v), p) == m <==> ParentExists(m, p) && Get(m, p) == None
    decreases |p|
  {
    GetAfterSet(m, p, v);
    GetAfterRemove(Set(m, p, v), p);
    if |p| > 1 {
      ParentBelow(m, p);
      RemoveUndoesSet(Below(m, p[0]), p[1..], v);
      GetAfterSet(Below(m, p[0]), p[1..], v);
      assert Remove(Set(m, p, v), p) == m[p[0] := Obj(Remove(Set(Below(m, p[0]), p[1..], v), p[1..]))];
    }
  }

  /** Putting a removed value back restores the tree. */
  lemma {:induction false} SetUndoesRemove(m: Fields, p: Path, v: Value)
    requires Get(m, p) == Some(v)
    ensures Set(Remove(m, p), p, v) == m
    decreases |p|
  {
    if |p| > 1 { SetUndoesRemove(m[p[0]].fields, p[1..], v); }
  }

  // ----- the same laws for dotted paths on events -----

  lemma PathsDetermineText(a: string, b: string)
    ensures PathOf(a) == PathOf(b) <==> a == b
  {
    JoinSplit(a, '.');
    JoinSplit(b, '.');
  }

  /** Set, then get: the written field answers with the new value, fields at unrelated paths as before. */
  lemma FieldLaws(e: Event, path: string, v: Value, other: string)
    requires path != ""
    ensures GetField(SetField(e, path, v), path) == Some(v)
    ensures GetField(RemoveField(e, path), path) == None
    ensures Apart(PathOf(path), PathOf(other)) ==>
      && GetField(SetField(e, path, v), other) == GetField(e, other)
      && GetField(RemoveField(e, path), other) == GetField(e, other)
    ensures GetField(e, path) == Some(v) ==> SetField(e, path, v) == e && SetField(RemoveField(e, path), path, v) == e
  {
    var m := if e.payload.Some? then e.payload.value else map[];
    var p, q := PathOf(path), PathOf(other);
    GetAfterSet(m, p, v);
    GetAfterRemove(m, p);
    if Apart(p, q) {
      SetLeavesOthers(m, p, v, q);
      RemoveLeavesOthers(m, p, q);
      GetInEmpty(q);
    }
    if GetField(e, path) == Some(v) {
      SetIsIdentity(m, p, v);
      SetUndoesRemove(m, p, v);
    }
  }

  /** An empty path finds nothing and changes nothing; without a payload nothing is found, nothing is removed, and a
      write begins one. */
  lemma EmptyPathAndPayload(e: Event, path: string, v: Value)
    ensures GetField(e, "") == None && SetField(e, "", v) == e && RemoveField(e, "") == e
    ensures e.payload.None? ==> GetField(e, path) == None && RemoveField(e, path) == e
    ensures e.payload.None? && path != "" ==> SetField(e, path, v).payload == Some(Set(map[], PathOf(path), v))
    ensures var t := SetField(e, path, v); (t.metadata, t.timestamp, t.headers) == (e.metadata, e.timestamp, e.headers)
    ensures var t := RemoveField(e, path); (t.metadata, t.timestamp, t.headers) == (e.metadata, e.timestamp, e.headers)
  {
  }
}
