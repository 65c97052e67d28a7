/** `setNested` and `unflattenMap` as they run: nested maps on the heap, written in place. */
module UnflattenHeap {
  import opened Text
  import opened Event
  import opened Unflatten

  /** A value that is no map, or a reference to a map. */
  datatype Entry = Leaf(v: Value) | Sub(n: Nested)

  class Nested {
    var entries: map<string, Entry>
    /** The tree the map stands for, and the maps it is made of. */
    ghost var tree: Fields
    ghost var maps: set<Nested>

    constructor ()
      ensures entries == map[] && tree == map[] && maps == {this}
    {
      entries, tree, maps := map[], map[], {this};
    }
  }

  /** A map and everything below it: a tree, without sharing. */
  ghost predicate Tidy(n: Nested)
    reads n, n.maps
    decreases n.maps
  {
    && n in n.maps && n.entries.Keys == n.tree.Keys
    && (forall k :: k in n.entries ==> Fits(n, k))
    && (forall k :: k in n.entries && n.entries[k].Sub? ==>
          var c := n.entries[k].n; c in n.maps && c.maps < n.maps && n !in c.maps && Tidy(c))
    && (forall k, l :: k in n.entries && l in n.entries && k != l && n.entries[k].Sub? && n.entries[l].Sub? ==>
          n.entries[k].n in n.maps && n.entries[l].n in n.maps && n.entries[k].n.maps !! n.entries[l].n.maps)
  }

  ghost predicate Fits(n: Nested, k: string)
    requires k in n.entries && n.entries.Keys == n.tree.Keys
    reads n, n.maps
  {
    match n.entries[k]
    case Leaf(v) => !v.Obj? && n.tree[k] == v
    case Sub(c) => c in n.maps && n.tree[k] == Obj(c.tree)
  }

  /** The entry stands for `v` and is made of `maps`. */
  ghost predicate Stands(e: Entry, v: Value, maps: set<Nested>)
    reads maps
  {
    match e
    case Leaf(w) => v == w && !v.Obj? && maps == {}
    case Sub(c) => c in maps && c.maps == maps && Tidy(c) && v == Obj(c.tree)
  }

  /** Writes in place; refused as `Put` is, and then nothing has been written. */
  method SetNested(m: Nested, parts: Path, value: Entry, ghost v: Value, ghost maps: set<Nested>) returns (ok: bool)
    requires Tidy(m) && Stands(value, v, maps) && maps !! m.maps
    modifies m.maps
    ensures ok <==> Put(old(m.tree), parts, v).Some?
    ensures ok ==> Tidy(m) && Some(m.tree) == Put(old(m.tree), parts, v)
    ensures ok ==> old(m.maps) + maps <= m.maps && fresh(m.maps - old(m.maps) - maps)
    ensures !ok ==> forall n :: n in old(m.maps) ==> unchanged(n)
    decreases |parts|, 1
  {
    var key := parts[0];
    if |parts| == 1 {
      if key in m.entries && m.entries[key].Sub? {
        return false;
      }
      WriteLast(m, key, value, v, maps);
      return true;
    }
    if key in m.entries {
      if !m.entries[key].Sub? {
        return false;
      }
    } else {
      ThroughEmpty(m.tree, parts, v);
      MakeNested(m, key);
    }
    ok := WriteBelow(m, parts, value, v, maps);
  }

  lemma {:induction false} IntoEmpty(p: Path, v: Value)
    ensures Put(map[], p, v).Some?
    decreases |p|
  {
    if |p| > 1 { IntoEmpty(p[1..], v); }
  }

  lemma ThroughEmpty(t: Fields, p: Path, v: Value)
    requires |p| > 1 && p[0] !in t
    ensures Put(t, p, v).Some? && Put(t[p[0] := Obj(map[])], p, v) == Put(t, p, v)
  {
    IntoEmpty(p[1..], v);
    var nested := Put(map[], p[1..], v).value;
    assert Below(t[p[0] := Obj(map[])], p[0]) == map[] == Below(t, p[0]);
    assert t[p[0] := Obj(map[])][p[0] := Obj(nested)] == t[p[0] := Obj(nested)];
    hide Below;
  }

  /** The last segment: the value replaces whatever is there, if that is no map. */
  method WriteLast(m: Nested, key: string, value: Entry, ghost v: Value, ghost maps: set<Nested>)
    requires Tidy(m) && Stands(value, v, maps) && maps !! m.maps && !(key in m.entries && m.entries[key].Sub?)
    modifies m
    ensures Tidy(m) && m.tree == old(m.tree)[key := v] && m.maps == old(m.maps) + maps
    ensures m.entries == old(m.entries)[key := value]
  {
    if value.Leaf? {
      WriteLeaf(m, key, value.v);
    } else {
      WriteSub(m, key, value.n);
    }
  }

  method WriteLeaf(m: Nested, key: string, v: Value)
    requires Tidy(m) && !(key in m.entries && m.entries[key].Sub?) && !v.Obj?
    modifies m`entries, m`tree
    ensures Tidy(m) && m.tree == old(m.tree)[key := v] && m.entries == old(m.entries)[key := Leaf(v)]
  {
    m.entries := m.entries[key := Leaf(v)];
    m.tree := m.tree[key := v];
    forall k | k in m.entries && k != key ensures Fits(m, k) && (m.entries[k].Sub? ==> Tidy(m.entries[k].n)) {
      assert old(Fits(m, k)) && (m.entries[k].Sub? ==> old(Tidy(m.entries[k].n)));
    }
  }

  method WriteSub(m: Nested, key: string, c: Nested)
    requires Tidy(m) && !(key in m.entries && m.entries[key].Sub?) && Tidy(c) && c.maps !! m.maps
    modifies m
    ensures Tidy(m) && m.tree == old(m.tree)[key := Obj(c.tree)] && m.entries == old(m.entries)[key := Sub(c)]
    ensures m.maps == old(m.maps) + c.maps
  {
    m.entries := m.entries[key := Sub(c)];
    m.tree := m.tree[key := Obj(c.tree)];
    m.maps := m.maps + c.maps;
    forall k | k in m.entries && k != key ensures Fits(m, k) && (m.entries[k].Sub? ==> Tidy(m.entries[k].n)) {
      assert old(Fits(m, k)) && (m.entries[k].Sub? ==> old(Tidy(m.entries[k].n)));
    }
  }

  /** An empty map where there was nothing. */
  method MakeNested(m: Nested, key: string)
    requires Tidy(m) && key !in m.entries
    modifies m
    ensures Tidy(m) && key in m.entries && m.entries[key].Sub? && m.entries[key].n.tree == map[]
    ensures m.tree == old(m.tree)[key := Obj(map[])] && old(m.maps) <= m.maps && fresh(m.maps - old(m.maps))
  {
    var c := new Nested();
    WriteSub(m, key, c);
  }

  /** The map at the first segment is written in place. */
  method WriteBelow(m: Nested, parts: Path, value: Entry, ghost v: Value, ghost maps: set<Nested>) returns (ok: bool)
    requires |parts| > 1 && Tidy(m) && parts[0] in m.entries && m.entries[parts[0]].Sub?
    requires Stands(value, v, maps) && maps !! m.maps
    modifies m.maps
    ensures ok <==> Put(old(m.tree), parts, v).Some?
    ensures ok ==> Tidy(m) && Some(m.tree) == Put(old(m.tree), parts, v)
    ensures ok ==> old(m.maps) + maps <= m.maps && fresh(m.maps - old(m.maps) - maps)
    ensures !ok ==> forall n :: n in old(m.maps) ==> unchanged(n)
    decreases |parts|, 0
  {
    var key := parts[0];
    var nested := m.entries[key].n;
    assert Fits(m, key);
    ok := SetNested(nested, parts[1..], value, v, maps);
    if ok {
      hide Put;
      forall k | k in m.entries && k != key && m.entries[k].Sub?
        ensures Tidy(m.entries[k].n) && m.entries[k].n.maps == old(m.entries[k].n.maps)
      {
        assert old(Tidy(m.entries[k].n));
      }
      assert TidyBut(m, key) by { hide Stands; }
      Regrow(m, key);
    }
  }

  /** In order but for the map at `key`, which has grown on its own. */
  ghost predicate TidyBut(n: Nested, key: string)
    reads n, n.maps, if key in n.entries && n.entries[key].Sub? then {n.entries[key].n} + n.entries[key].n.maps else {}
  {
    && n in n.maps && n.entries.Keys == n.tree.Keys && key in n.entries && n.entries[key].Sub?
    && Tidy(n.entries[key].n) && n !in n.entries[key].n.maps
    && (forall k :: k in n.entries && k != key ==> Fits(n, k))
    && (forall k :: k in n.entries && k != key && n.entries[k].Sub? ==>
          var c := n.entries[k].n;
          c in n.maps && c.maps < n.maps && n !in c.maps && Tidy(c) && c.maps !! n.entries[key].n.maps)
    && (forall k, l ::
          k in n.entries && l in n.entries && k != l && k != key && l != key &&
          n.entries[k].Sub? && n.entries[l].Sub? ==>
            n.entries[k].n in n.maps && n.entries[l].n in n.maps && n.entries[k].n.maps !! n.entries[l].n.maps)
  }

  /** The map takes over what the one at `key` has grown to. */
  ghost method Regrow(m: Nested, key: string)
    requires TidyBut(m, key)
    modifies m`tree, m`maps
    ensures Tidy(m) && m.tree == old(m.tree)[key := Obj(m.entries[key].n.tree)]
    ensures m.maps == old(m.maps) + m.entries[key].n.maps
  {
    m.tree := m.tree[key := Obj(m.entries[key].n.tree)];
    m.maps := m.maps + m.entries[key].n.maps;
    forall k | k in m.entries && m.entries[k].Sub? ensures Tidy(m.entries[k].n) {
      assert old(Tidy(m.entries[k].n));
    }
  }

  // ----- the loop over the keys -----

  ghost function Union(parts: map<string, set<Nested>>): set<Nested> {
    set k, n | k in parts && n in parts[k] :: n
  }

  /** The input: every value stands for a value of `f`, and no two share a map. */
  ghost predicate Input(input: map<string, Entry>, f: Fields, parts: map<string, set<Nested>>)
    reads Union(parts)
  {
    && input.Keys == f.Keys == parts.Keys
    && (forall k :: k in input ==> parts[k] <= Union(parts) && Stands(input[k], f[k], parts[k]))
    && forall k, l :: k in input && l in input && k != l ==> parts[k] !! parts[l]
  }

  /** The key is still to come: its value is as it was, and apart from what has been built. */
  ghost predicate Coming(input: map<string, Entry>, f: Fields, parts: map<string, set<Nested>>, k: string,
      built: set<Nested>)
    reads Union(parts)
  {
    && k in input && k in f && k in parts && parts[k] <= Union(parts) && parts[k] !! built
    && Stands(input[k], f[k], parts[k])
  }

  /** One key's write leaves the keys still to come alone. */
  method PutNext(result: Nested, k: string, input: map<string, Entry>, ghost f: Fields,
                 ghost parts: map<string, set<Nested>>, ghost rest: set<string>)
    returns (ok: bool)
    requires Tidy(result) && Coming(input, f, parts, k, result.maps)
    requires forall l :: l in rest ==> Coming(input, f, parts, l, result.maps) && parts[l] !! parts[k]
    modifies result.maps
    ensures ok <==> Put(old(result.tree), PathOf(k), f[k]).Some?
    ensures ok ==> Tidy(result) && Some(result.tree) == Put(old(result.tree), PathOf(k), f[k])
    ensures ok ==> fresh(result.maps - old(result.maps) - Union(parts))
    ensures ok ==> forall l :: l in rest ==> Coming(input, f, parts, l, result.maps)
  {
    hide Put, Tidy;
    ok := SetNested(result, Split(k, '.'), input[k], f[k], parts[k]);
    if ok {
      forall l | l in rest ensures Coming(input, f, parts, l, result.maps) {
        assert old(Coming(input, f, parts, l, result.maps));
      }
    }
  }

  /** Only maps that the input's values are made of, and new ones, are written: with scalar values, nothing that
      was there before. */
  method UnflattenMap(input: map<string, Entry>, ghost f: Fields, ghost parts: map<string, set<Nested>>)
    returns (result: Nested, conflict: Option<string>, ghost keys: seq<string>)
    requires Input(input, f, parts)
    modifies Union(parts)
    ensures Enumerates(keys, f) && Sorted(keys) && fresh(result)
    ensures match Unflattened(keys, f)
            case Done(t) => conflict == None && Tidy(result) && result.tree == t && fresh(result.maps - Union(parts))
            case Conflict(k) => conflict == Some(k)
  {
    result := new Nested();
    var sorted := SortedKeys(input.Keys);
    keys := sorted;
    conflict := None;
    AllComing(input, f, parts, result.maps);
    assert Enumerates(keys, f) && Later(sorted, 0) == input.Keys && sorted[..0] == [];
    hide *;
    EmptyDone(f, result);
    for i := 0 to |sorted|
      invariant Tidy(result) && Unflattened(sorted[..i], f) == Done(result.tree)
      invariant fresh(result.maps - Union(parts)) && fresh(result)
      invariant Later(sorted, i) <= input.Keys
      invariant forall l :: l in Later(sorted, i) ==> Coming(input, f, parts, l, result.maps)
    {
      var k := sorted[i];
      LaterNext(sorted, i);
      UnflattenedNext(sorted, f, i);
      var ok := PutNext(result, k, input, f, parts, Later(sorted, i + 1));
      if !ok {
        ConflictStays(sorted, f, i + 1, k);
        conflict := Some(k);
        return;
      }
    }
    assert sorted[..|sorted|] == sorted;
  }

  lemma EmptyDone(f: Fields, n: Nested)
    requires n.entries == map[] && n.tree == map[] && n.maps == {n}
    ensures Tidy(n) && Unflattened([], f) == Done(n.tree)
  {
  }

  /** The keys from the `i`-th on. */
  ghost function Later(sorted: seq<string>, i: nat): set<string> {
    set j | i <= j < |sorted| :: sorted[j]
  }

  lemma LaterNext(sorted: seq<string>, i: nat)
    requires i < |sorted| && forall a, b :: 0 <= a < b < |sorted| ==> sorted[a] != sorted[b]
    ensures Later(sorted, i) == Later(sorted, i + 1) + {sorted[i]} && sorted[i] !in Later(sorted, i + 1)
  {
  }

  lemma UnflattenedNext(sorted: seq<string>, f: Fields, i: nat)
    requires i < |sorted| && (forall l :: l in sorted ==> l in f) && Unflattened(sorted[..i], f).Done?
    ensures Unflattened(sorted[..i + 1], f) ==
      match Put(Unflattened(sorted[..i], f).fields, PathOf(sorted[i]), f[sorted[i]])
      case None => Conflict(sorted[i])
      case Some(t) => Done(t)
  {
    assert sorted[..i + 1][..i] == sorted[..i];
  }

  lemma AllComing(input: map<string, Entry>, f: Fields, parts: map<string, set<Nested>>, built: set<Nested>)
    requires Input(input, f, parts) && Union(parts) !! built
    ensures input.Keys == f.Keys == parts.Keys
    ensures forall k :: k in input ==> Coming(input, f, parts, k, built)
    ensures forall k, l :: k in input && l in input && k != l ==> parts[k] !! parts[l]
  {
  }
}
