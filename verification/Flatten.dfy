/** Flattening nested payloads into dotted keys. */
module Flatten {
  import opened Text
  import opened Event

  const MaxDepth := 100

  function Extend(prefix: string, key: string): string {
    if prefix == "" then key else prefix + "." + key
  }

  /** The key a path gets: its segments joined by dots, leading empty ones swallowed. */
  function FlatKey(prefix: string, p: Path): string
    decreases |p|
  {
    if |p| == 1 then Extend(prefix, p[0]) else FlatKey(Extend(prefix, p[0]), p[1..])
  }

  /** `v` is kept at `p`: no map, or a map with no `room` left to open it. */
  ghost predicate LeafAt(m: Fields, p: Path, v: Value, room: nat)
    decreases |p|
  {
    && p[0] in m
    && if |p| == 1 then v == m[p[0]] && (v.Obj? ==> room == 0)
       else m[p[0]].Obj? && room > 0 && LeafAt(m[p[0]].fields, p[1..], v, room - 1)
  }

  /** `r` holds one of the leaves for every flat key, and nothing else. Distinct paths may share a key;
      which of them wins is up to the iteration order of the source's maps. */
  ghost predicate Flattened(prefix: string, m: Fields, room: nat, r: Fields) {
    && (forall p: Path, v :: LeafAt(m, p, v, room) ==> FlatKey(prefix, p) in r)
    && (forall k :: k in r ==> HasSource(prefix, m, room, k, r[k]))
  }

  ghost predicate HasSource(prefix: string, m: Fields, room: nat, key: string, v: Value) {
    exists p: Path :: LeafAt(m, p, v, room) && FlatKey(prefix, p) == key
  }

  // ----- the recursion of the source -----

  function Part(m: Fields, keys: set<string>): Fields {
    map k | k in m && k in keys :: m[k]
  }

  method FlattenMap(prefix: string, m: Fields) returns (r: Fields)
    ensures Flattened(prefix, m, MaxDepth, r)
  {
    r := FlattenMapWithDepth(prefix, m, 0, MaxDepth);
  }

  /** Iterates over the map in an order it does not control. */
  method FlattenMapWithDepth(prefix: string, m: Fields, depth: nat, maxDepth: nat) returns (r: Fields)
    requires depth <= maxDepth + 1
    ensures depth > maxDepth ==> r == map[prefix := Obj(m)]
    ensures depth <= maxDepth ==> Flattened(prefix, m, maxDepth - depth, r)
    decreases maxDepth + 1 - depth
  {
    if depth > maxDepth {
      return map[prefix := Obj(m)];
    }
    var room := maxDepth - depth;
    r := map[];
    var todo := m.Keys;
    ghost var done: set<string> := {};
    while todo != {}
      invariant todo + done == m.Keys && todo !! done
      invariant Flattened(prefix, Part(m, done), room, r)
      decreases |todo|
    {
      var k :| k in todo;
      var v := m[k];
      var key := if prefix != "" then prefix + "." + k else k;
      ghost var before := r;
      if v.Obj? {
        var nestedFlat := FlattenMapWithDepth(key, v.fields, depth + 1, maxDepth);
        AddNested(prefix, m, done, room, before, k, nestedFlat);
        r := r + nestedFlat;
      } else {
        AddLeaf(prefix, m, done, room, before, k);
        r := r[key := v];
      }
      todo, done := todo - {k}, done + {k};
    }
    assert Part(m, done) == m;
  }

  lemma LeafInPart(m: Fields, done: set<string>, k: string, p: Path, v: Value, room: nat)
    requires k in m && k !in done
    ensures LeafAt(Part(m, done + {k}), p, v, room)
       <==> LeafAt(Part(m, done), p, v, room) || (p[0] == k && LeafAt(m, p, v, room))
  {
  }

  lemma SourceInMore(prefix: string, m: Fields, done: set<string>, k: string, room: nat, key: string, v: Value)
    requires k in m && k !in done && HasSource(prefix, Part(m, done), room, key, v)
    ensures HasSource(prefix, Part(m, done + {k}), room, key, v)
  {
    var p: Path :| LeafAt(Part(m, done), p, v, room) && FlatKey(prefix, p) == key;
    LeafInPart(m, done, k, p, v, room);
  }

  lemma AddLeaf(prefix: string, m: Fields, done: set<string>, room: nat, r: Fields, k: string)
    requires k in m && k !in done && !m[k].Obj? && Flattened(prefix, Part(m, done), room, r)
    ensures Flattened(prefix, Part(m, done + {k}), room, r[Extend(prefix, k) := m[k]])
  {
    var now, path := r[Extend(prefix, k) := m[k]], [k];
    LeafInPart(m, done, k, path, m[k], room);
    forall p: Path, v | LeafAt(Part(m, done + {k}), p, v, room) ensures FlatKey(prefix, p) in now {
      LeafInPart(m, done, k, p, v, room);
    }
    forall key | key in now ensures HasSource(prefix, Part(m, done + {k}), room, key, now[key]) {
      if key == Extend(prefix, k) {
        assert FlatKey(prefix, path) == key;
      } else {
        SourceInMore(prefix, m, done, k, room, key, r[key]);
      }
    }
  }

  /** The nested map at `k`, flattened or kept whole, is merged into the result. */
  lemma AddNested(prefix: string, m: Fields, done: set<string>, room: nat, r: Fields, k: string, nested: Fields)
    requires k in m && k !in done && m[k].Obj? && Flattened(prefix, Part(m, done), room, r)
    requires room == 0 ==> nested == map[Extend(prefix, k) := m[k]]
    requires room > 0 ==> Flattened(Extend(prefix, k), m[k].fields, room - 1, nested)
    ensures Flattened(prefix, Part(m, done + {k}), room, r + nested)
  {
    var now := r + nested;
    forall p: Path, v | LeafAt(Part(m, done + {k}), p, v, room) ensures FlatKey(prefix, p) in now {
      LeafInPart(m, done, k, p, v, room);
    }
    forall key | key in now ensures HasSource(prefix, Part(m, done + {k}), room, key, now[key]) {
      if key in nested {
        NestedSource(prefix, m, room, k, nested, key);
        var p: Path :| p[0] == k && LeafAt(m, p, nested[key], room) && FlatKey(prefix, p) == key;
        LeafInPart(m, done, k, p, nested[key], room);
      } else {
        SourceInMore(prefix, m, done, k, room, key, r[key]);
      }
    }
  }

  lemma NestedSource(prefix: string, m: Fields, room: nat, k: string, nested: Fields, key: string)
    requires k in m && m[k].Obj? && key in nested
    requires room == 0 ==> nested == map[Extend(prefix, k) := m[k]]
    requires room > 0 ==> Flattened(Extend(prefix, k), m[k].fields, room - 1, nested)
    ensures exists p: Path :: p[0] == k && LeafAt(m, p, nested[key], room) && FlatKey(prefix, p) == key
  {
    if room == 0 {
      var p: Path := [k];
      assert LeafAt(m, p, nested[key], room) && FlatKey(prefix, p) == key;
    } else {
      assert HasSource(Extend(prefix, k), m[k].fields, room - 1, key, nested[key]);
      var q: Path :| LeafAt(m[k].fields, q, nested[key], room - 1) && FlatKey(Extend(prefix, k), q) == key;
      var p: Path := [k] + q;
      assert p[1..] == q;
      assert LeafAt(m, p, nested[key], room) && FlatKey(prefix, p) == key;
    }
  }

  // ----- what the result says about the payload -----

  /** Leaves are what `Get` finds: values that are no maps up to the cut-off, and the maps right at it. */
  lemma {:induction false} LeafIsGet(m: Fields, p: Path, v: Value, room: nat)
    ensures LeafAt(m, p, v, room)
       <==> Get(m, p) == Some(v) && |p| <= room + 1 && (v.Obj? ==> |p| == room + 1)
    decreases |p|
  {
    if |p| > 1 && p[0] in m && m[p[0]].Obj? && room > 0 {
      LeafIsGet(m[p[0]].fields, p[1..], v, room - 1);
    }
  }

  /** No key of a map that flattening opens contains a dot. */
  ghost predicate DotFree(m: Fields, room: nat)
    decreases room
  {
    forall k :: k in m ==> '.' !in k && (room > 0 && m[k].Obj? ==> DotFree(m[k].fields, room - 1))
  }

  /** Keys that flattening does not confuse: no dots where it opens maps, and no map under an empty key at the top. */
  ghost predicate WellKeyed(m: Fields, room: nat) {
    DotFree(m, room) && ("" in m ==> !m[""].Obj?)
  }

  lemma {:induction false} LeafPathIsDotFree(m: Fields, p: Path, v: Value, room: nat)
    requires DotFree(m, room) && LeafAt(m, p, v, room)
    ensures forall i :: 0 <= i < |p| ==> '.' !in p[i]
    decreases |p|
  {
    if |p| > 1 {
      LeafPathIsDotFree(m[p[0]].fields, p[1..], v, room - 1);
      forall i | 0 <= i < |p| ensures '.' !in p[i] { if i > 0 { assert p[i] == p[1..][i - 1]; } }
    }
  }

  lemma {:induction false} FlatKeyIsJoin(prefix: string, p: Path)
    requires prefix != ""
    ensures FlatKey(prefix, p) == prefix + "." + Join(p, ".")
    decreases |p|
  {
    if |p| > 1 { FlatKeyIsJoin(Extend(prefix, p[0]), p[1..]); }
  }

  lemma FlatKeyOfPath(p: Path)
    requires p[0] != "" || |p| == 1
    ensures FlatKey("", p) == Join(p, ".")
  {
    if |p| > 1 { FlatKeyIsJoin(p[0], p[1..]); }
  }

  /** For well-keyed payloads the result is fixed: its entries are exactly the leaves, under their dotted
      paths, whatever order the maps are iterated in. */
  lemma FlattenedExactly(m: Fields, room: nat, r: Fields)
    requires WellKeyed(m, room) && Flattened("", m, room, r)
    ensures forall k, v :: k in r && r[k] == v <==> LeafAt(m, PathOf(k), v, room)
  {
    forall k, v ensures k in r && r[k] == v <==> LeafAt(m, PathOf(k), v, room) {
      if k in r && r[k] == v {
        assert HasSource("", m, room, k, v);
        var p: Path :| LeafAt(m, p, v, room) && FlatKey("", p) == k;
        LeafKeyPath(m, p, v, room);
      }
      if LeafAt(m, PathOf(k), v, room) {
        LeafKeyPath(m, PathOf(k), v, room);
        JoinSplit(k, '.');
        assert FlatKey("", PathOf(k)) == k && k in r;
        assert HasSource("", m, room, k, r[k]);
        var p: Path :| LeafAt(m, p, r[k], room) && FlatKey("", p) == k;
        LeafKeyPath(m, p, r[k], room);
        LeafIsGet(m, p, r[k], room);
        LeafIsGet(m, p, v, room);
      }
    }
  }

  lemma LeafKeyPath(m: Fields, p: Path, v: Value, room: nat)
    requires WellKeyed(m, room) && LeafAt(m, p, v, room)
    ensures FlatKey("", p) == Join(p, ".") && PathOf(FlatKey("", p)) == p
  {
    FlatKeyOfPath(p);
    LeafPathIsDotFree(m, p, v, room);
    SplitJoin(p, '.');
  }

  /** In terms of events: the flattened entries under non-empty keys are the values `GetField` finds that are
      no maps, down to 101 segments, and the maps at exactly 101 segments. */
  lemma FlattenedFields(e: Event, r: Fields)
    requires e.payload.Some? && WellKeyed(e.payload.value, MaxDepth) && Flattened("", e.payload.value, MaxDepth, r)
    ensures forall k, v :: k != "" ==>
      (k in r && r[k] == v <==>
       GetField(e, k) == Some(v) && |PathOf(k)| <= 101 && (v.Obj? ==> |PathOf(k)| == 101))
    ensures "" in r <==> "" in e.payload.value
  {
    var m := e.payload.value;
    FlattenedExactly(m, MaxDepth, r);
    forall k, v | k != ""
      ensures k in r && r[k] == v <==>
              GetField(e, k) == Some(v) && |PathOf(k)| <= 101 && (v.Obj? ==> |PathOf(k)| == 101)
    {
      LeafIsGet(m, PathOf(k), v, MaxDepth);
    }
    assert PathOf("") == [""];
    if "" in m { assert LeafAt(m, PathOf(""), m[""], MaxDepth); }
    if "" in r { assert LeafAt(m, PathOf(""), r[""], MaxDepth); }
  }
}
