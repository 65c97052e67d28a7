/** Which payloads survive flattening and unflattening, among all payloads whatever their keys. */
module UnflattenExact {
  import opened Text
  import opened Event
  import opened Flatten
  import opened Unflatten

  // ----- texts of paths -----

  lemma {:induction false} JoinConcat(p: Path, q: Path)
    ensures Join(p + q, ".") == Join(p, ".") + "." + Join(q, ".")
    decreases |p|
  {
    if |p| == 1 {
      assert (p + q)[1..] == q;
    } else {
      assert (p + q)[1..] == p[1..] + q;
      JoinConcat(p[1..], q);
    }
  }

  /** Flattening swallows leading empty segments, and nothing else. */
  lemma {:induction false} FlatKeyDrops(p: Path)
    ensures |FlatKey("", p)| <= |Join(p, ".")|
    ensures if p[0] == "" && |p| > 1 then |FlatKey("", p)| < |Join(p, ".")| else FlatKey("", p) == Join(p, ".")
    decreases |p|
  {
    if p[0] == "" && |p| > 1 {
      assert Extend("", p[0]) == "";
      FlatKeyDrops(p[1..]);
    } else {
      FlatKeyOfPath(p);
    }
  }

  lemma {:induction false} SplitAtLeast(p: Path)
    ensures |Split(Join(p, "."), '.')| >= |p|
    decreases |p|
  {
    if |p| > 1 {
      SplitAtLeast(p[1..]);
      SplitConcat(p[0], Join(p[1..], "."));
    }
  }

  lemma {:induction false} SplitConcat(a: string, b: string)
    ensures |Split(a + "." + b, '.')| == |Split(a, '.')| + |Split(b, '.')|
  {
    if a == "" {
      assert ("" + "." + b)[1..] == b;
    } else {
      assert (a + "." + b)[1..] == a[1..] + "." + b;
      SplitConcat(a[1..], b);
    }
  }

  /** The texts of a tree's paths are bounded. */
  lemma {:induction false} TextBound(m: Fields) returns (b: nat)
    ensures forall p: Path :: Get(m, p).Some? ==> |Join(p, ".")| <= b
    decreases Obj(m)
  {
    b := 0;
    var todo := m.Keys;
    while todo != {}
      invariant todo <= m.Keys
      invariant forall p: Path :: Get(m, p).Some? && p[0] !in todo ==> |Join(p, ".")| <= b
    {
      var k :| k in todo;
      var c: nat := |k|;
      if m[k].Obj? {
        var below := TextBound(m[k].fields);
        c := |k| + 1 + below;
      }
      forall p: Path | Get(m, p).Some? && p[0] == k ensures |Join(p, ".")| <= c {
      }
      b := if b < c then c else b;
      todo := todo - {k};
    }
  }

  // ----- where the nodes of the built tree come from -----

  /** Values with nothing below them. */
  predicate Atomic(v: Value) { v.Obj? ==> v.fields == map[] }

  /** `q` lies on the way to the key's path, or inside its value. */
  ghost predicate NodeOf(q: Path, p: Path, v: Value) {
    q <= p || (p < q && v.Obj? && Get(v.fields, q[|p|..]).Some?)
  }

  /** `a` is the value of the key, or an atom inside it. */
  ghost predicate AtomOf(q: Path, a: Value, p: Path, v: Value) {
    (q == p && a == v) || (p < q && v.Obj? && Get(v.fields, q[|p|..]) == Some(a))
  }

  lemma SetNodes(t: Fields, p: Path, v: Value, q: Path)
    requires Get(Set(t, p, v), q).Some?
    ensures Get(t, q).Some? || NodeOf(q, p, v)
    ensures Atomic(Get(Set(t, p, v), q).value) ==>
      Get(t, q) == Get(Set(t, p, v), q) || AtomOf(q, Get(Set(t, p, v), q).value, p, v)
  {
    Comparable(p, q);
    if Apart(p, q) {
      SetLeavesOthers(t, p, v, q);
    } else if p == q {
      GetAfterSet(t, p, v);
    } else if p < q {
      var rest: Path := q[|p|..];
      assert p + rest == q;
      GetBelowSet(t, p, v, rest);
    } else {
      GetAfterSet(t, p, v);
      GetAbove(Set(t, p, v), q, p);
    }
  }

  lemma {:induction false} NodesExplained(keys: seq<string>, f: Fields, q: Path) returns (k: string)
    requires (forall l :: l in keys ==> l in f) && PutAll(keys, f).Some? && Get(PutAll(keys, f).value, q).Some?
    ensures k in f && NodeOf(q, PathOf(k), f[k])
  {
    if keys == [] {
      GetInEmpty(q);
      assert false;
    }
    var init, last := keys[..|keys| - 1], keys[|keys| - 1];
    var t := PutAll(init, f).value;
    PutIsSet(t, PathOf(last), f[last]);
    SetNodes(t, PathOf(last), f[last], q);
    if Get(t, q).Some? {
      k := NodesExplained(init, f, q);
    } else {
      k := last;
    }
  }

  lemma {:induction false} AtomsExplained(keys: seq<string>, f: Fields, q: Path) returns (k: string)
    requires (forall l :: l in keys ==> l in f) && PutAll(keys, f).Some?
    requires Get(PutAll(keys, f).value, q).Some? && Atomic(Get(PutAll(keys, f).value, q).value)
    ensures k in f && AtomOf(q, Get(PutAll(keys, f).value, q).value, PathOf(k), f[k])
  {
    if keys == [] {
      GetInEmpty(q);
      assert false;
    }
    var init, last := keys[..|keys| - 1], keys[|keys| - 1];
    var t := PutAll(init, f).value;
    PutIsSet(t, PathOf(last), f[last]);
    SetNodes(t, PathOf(last), f[last], q);
    if Get(t, q) == Get(PutAll(keys, f).value, q) {
      k := AtomsExplained(init, f, q);
    } else {
      k := last;
    }
  }

  // ----- no map under an empty key at the top -----

  /** What is said of the payload throughout: it came back from its flattened form. */
  ghost predicate CameBack(m: Fields, f: Fields, keys: seq<string>) {
    Flattened("", m, MaxDepth, f) && Enumerates(keys, f) && PutAll(keys, f) == Some(m)
  }

  /** The atom at `p` has been written from an atom of the payload whose path is at least as long as text, and
      longer if flattening has swallowed something of it. */
  lemma Ancestor(m: Fields, f: Fields, keys: seq<string>, p: Path) returns (q: Path, source: Path)
    requires CameBack(m, f, keys) && Get(m, p).Some? && Atomic(Get(m, p).value)
    ensures Get(m, q).Some? && LeafAt(m, q, Get(m, q).value, MaxDepth) && q <= source && Get(m, source) == Get(m, p)
    ensures PathOf(FlatKey("", q)) <= p
    ensures |Join(p, ".")| <= |Join(source, ".")|
    ensures q[0] == "" && |q| > 1 ==> |Join(p, ".")| < |Join(source, ".")|
  {
    var k := AtomsExplained(keys, f, p);
    assert HasSource("", m, MaxDepth, k, f[k]);
    q :| LeafAt(m, q, f[k], MaxDepth) && FlatKey("", q) == k;
    LeafIsGet(m, q, f[k], MaxDepth);
    FlatKeyDrops(q);
    JoinSplit(k, '.');
    hide LeafAt, FlatKey, PutAll, Flattened, Enumerates;
    if p == PathOf(k) {
      source := q;
    } else {
      var rest: Path := p[|PathOf(k)|..];
      source := q + rest;
      assert p == PathOf(k) + rest;
      JoinConcat(q, rest);
      JoinConcat(PathOf(k), rest);
      GetThrough(m, q, rest);
    }
  }

  /** The top keys of what unflattening builds have no dots. */
  lemma TopIsDotFree(m: Fields, f: Fields, keys: seq<string>, k: string)
    requires CameBack(m, f, keys) && k in m
    ensures '.' !in k
  {
    var top: Path := [k];
    assert Get(m, top) == Some(m[k]);
    var l := NodesExplained(keys, f, top);
    assert top <= PathOf(l);
    assert PathOf(l)[0] == k;
  }

  lemma EmptyHead(q: Path)
    requires !(q[0] == "" && |q| > 1) && PathOf(FlatKey("", q))[0] == ""
    ensures q == [""] || '.' in q[0]
  {
    FlatKeyDrops(q);
    var k := FlatKey("", q);
    LeadingEmpty(k);
    LongJoin(q);
    if k != "" && q[0] != "" { assert q[0][0] == k[0]; }
  }

  lemma LeadingEmpty(k: string)
    requires Split(k, '.')[0] == ""
    ensures k == "" || k[0] == '.'
  {
  }

  lemma LongJoin(q: Path)
    ensures |q| > 1 ==> Join(q, ".") != ""
  {
  }

  /** From an atom under an empty top key one climbs to ever longer ones, which the payload has no room for. */
  lemma {:induction false} Climb(m: Fields, f: Fields, keys: seq<string>, p: Path, bound: nat)
    requires CameBack(m, f, keys) && "" in m && m[""].Obj?
    requires forall r: Path :: Get(m, r).Some? ==> |Join(r, ".")| <= bound
    requires Get(m, p).Some? && Atomic(Get(m, p).value) && p[0] == "" && |Join(p, ".")| <= bound
    ensures false
    decreases bound - |Join(p, ".")|
  {
    var q, source := Ancestor(m, f, keys, p);
    assert PathOf(FlatKey("", q))[0] == p[0];
    if q[0] == "" && |q| > 1 {
      assert source[0] == q[0];
      Climb(m, f, keys, source, bound);
    } else {
      EmptyHead(q);
      LeafIsGet(m, q, Get(m, q).value, MaxDepth);
      assert q[0] in m;
      TopIsDotFree(m, f, keys, q[0]);
    }
  }

  lemma {:induction false} HasAtom(m: Fields) returns (p: Path)
    requires m != map[]
    ensures Get(m, p).Some? && Atomic(Get(m, p).value)
    decreases Obj(m)
  {
    var k :| k in m;
    p := [k];
    if !Atomic(m[k]) {
      var q := HasAtom(m[k].fields);
      p := [k] + q;
      assert p[1..] == q;
    }
  }

  lemma NoMapUnderEmptyKey(m: Fields, f: Fields, keys: seq<string>)
    requires CameBack(m, f, keys)
    ensures "" in m ==> !m[""].Obj?
  {
    if "" in m && m[""].Obj? {
      var bound := TextBound(m);
      var p: Path := [""];
      if m[""].fields != map[] {
        var rest := HasAtom(m[""].fields);
        p := [""] + rest;
        assert p[1..] == rest;
      }
      Climb(m, f, keys, p, bound);
    }
  }

  // ----- no dots where flattening opens maps -----

  lemma NodeIsDotFree(m: Fields, f: Fields, keys: seq<string>, r: Path)
    requires CameBack(m, f, keys) && Get(m, r).Some? && |r| <= MaxDepth + 1
    ensures '.' !in r[|r| - 1]
  {
    var k := NodesExplained(keys, f, r);
    if PathOf(k) < r {
      KeptIsDeep(m, f, keys, k);
    }
    assert r <= PathOf(k);
    assert r[|r| - 1] == PathOf(k)[|r| - 1];
  }

  /** A map that was kept whole comes back at no smaller depth. */
  lemma KeptIsDeep(m: Fields, f: Fields, keys: seq<string>, k: string)
    requires CameBack(m, f, keys) && k in f && f[k].Obj?
    ensures |PathOf(k)| >= MaxDepth + 1
  {
    assert HasSource("", m, MaxDepth, k, f[k]);
    var q: Path :| LeafAt(m, q, f[k], MaxDepth) && FlatKey("", q) == k;
    LeafIsGet(m, q, f[k], MaxDepth);
    NoMapUnderEmptyKey(m, f, keys);
    FlatKeyDrops(q);
    SplitAtLeast(q);
  }

  lemma {:induction false} DotFreeByNodes(m: Fields, room: nat)
    requires forall r: Path :: |r| <= room + 1 && Get(m, r).Some? ==> '.' !in r[|r| - 1]
    ensures DotFree(m, room)
    decreases room
  {
    forall k | k in m ensures '.' !in k && (room > 0 && m[k].Obj? ==> DotFree(m[k].fields, room - 1)) {
      var top: Path := [k];
      assert Get(m, top).Some?;
      if room > 0 && m[k].Obj? {
        forall r: Path | |r| <= room && Get(m[k].fields, r).Some? ensures '.' !in r[|r| - 1] {
          GetThrough(m, top, r);
          assert (top + r)[|top + r| - 1] == r[|r| - 1];
        }
        DotFreeByNodes(m[k].fields, room - 1);
      }
    }
  }

  /** Over all payloads, in any iteration order and any order of the keys: unflattening the flattened payload gives
      the payload back if and only if no key that flattening opens has a dot, no map sits under an empty key at the
      top, and no empty map sits at a path of 1 to 100 segments. */
  lemma RoundTripExactly(m: Fields, f: Fields, keys: seq<string>)
    requires Flattened("", m, MaxDepth, f) && Enumerates(keys, f)
    ensures PutAll(keys, f) == Some(m) <==> WellKeyed(m, MaxDepth) && NoEmptyMap(m, MaxDepth)
  {
    if PutAll(keys, f) == Some(m) {
      NoMapUnderEmptyKey(m, f, keys);
      forall r: Path | |r| <= MaxDepth + 1 && Get(m, r).Some?
          ensures '.' !in r[|r| - 1] { NodeIsDotFree(m, f, keys, r); }
      DotFreeByNodes(m, MaxDepth);
    }
    if WellKeyed(m, MaxDepth) { UnflattenUndoesFlatten(m, f, keys); }
  }

  // ----- payloads that do not survive -----

  const EmptyInside: Fields := map["a" := Obj(map[])]
  const Dotted: Fields := map["a.b" := Nil]
  const UnderEmptyKey: Fields := map["" := Obj(map["a" := Nil])]

  /** An empty map is lost, a dotted key is opened into a map, and a map under an empty key is merged into the top. */
  lemma LossyPayloads()
    ensures Flattened("", EmptyInside, MaxDepth, map[]) && PutAll([], map[]) == Some(map[])
    ensures Flattened("", Dotted, MaxDepth, Dotted)
         && PutAll(["a.b"], Dotted) == Some(map["a" := Obj(map["b" := Nil])])
    ensures Flattened("", UnderEmptyKey, MaxDepth, map["a" := Nil])
         && PutAll(["a"], map["a" := Nil]) == Some(map["a" := Nil])
  {
    DottedKeyIsOpened();
    EmptyKeyIsMerged();
  }

  lemma DottedKeyIsOpened()
    ensures Flattened("", Dotted, MaxDepth, Dotted)
         && PutAll(["a.b"], Dotted) == Some(map["a" := Obj(map["b" := Nil])])
  {
    var top: Path := ["a.b"];
    assert LeafAt(Dotted, top, Nil, MaxDepth) && FlatKey("", top) == "a.b";
    assert Join(["a", "b"], ".") == "a.b" by { assert ["a", "b"][1..] == ["b"]; }
    SplitJoin(["a", "b"], '.');
    assert Put(map[], ["a", "b"], Nil) == Some(map["a" := Obj(map["b" := Nil])]) by { assert ["a", "b"][1..] == ["b"]; }
  }

  lemma EmptyKeyIsMerged()
    ensures Flattened("", UnderEmptyKey, MaxDepth, map["a" := Nil])
         && PutAll(["a"], map["a" := Nil]) == Some(map["a" := Nil])
  {
    var deep: Path := ["", "a"];
    assert deep[1..] == ["a"];
    assert LeafAt(UnderEmptyKey, deep, Nil, MaxDepth) && FlatKey("", deep) == "a";
    forall p: Path, v | LeafAt(UnderEmptyKey, p, v, MaxDepth) ensures FlatKey("", p) == "a" {
      assert LeafAt(map["a" := Nil], p[1..], v, MaxDepth - 1);
      assert p[1..] == ["a"];
    }
    SplitJoin(["a"], '.');
  }
}
