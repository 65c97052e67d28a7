/** Unflattening in the order of the sorted keys: exactly which inputs clash, maps among their values, and which key
    the error names. */
module UnflattenSorted {
  import opened Text
  import opened Event
  import opened Unflatten
  import UnflattenExact

  // ----- clashes, by the input alone -----

  /** Nothing can be written at `rest` below the value. */
  predicate BlockedBelow(v: Value, rest: Path) {
    !v.Obj? || Blocked(v.fields, rest)
  }

  /** `k` is the longest path of `F` above `p`. */
  ghost predicate Nearest(F: Entries, k: Path, p: Path) {
    k in F && k < p && forall m: Path :: m in F && m < p ==> m <= k
  }

  ghost predicate BlockedIn(F: Entries, p: Path) {
    exists k: Path :: Nearest(F, k, p) && BlockedBelow(F[k], p[|k|..])
  }

  /** The key `k` is the longest one whose path lies above that of `l`, and its value leaves no room for `l`: it is no
      map, or it holds a map where `l` ends or a value that is none where `l` goes through. */
  ghost predicate ClashesWith(f: Fields, k: string, l: string) {
    && k in f && PathOf(k) < PathOf(l) && BlockedBelow(f[k], PathOf(l)[|PathOf(k)|..])
    && forall m :: m in f && PathOf(m) < PathOf(l) ==> PathOf(m) <= PathOf(k)
  }

  ghost predicate Clashes(f: Fields, l: string) {
    exists k :: ClashesWith(f, k, l)
  }

  // ----- what a write does to the room of others -----

  lemma {:induction false} BlockedPast(m: Fields, q: Path, rest: Path)
    requires Get(m, q).Some?
    ensures Blocked(m, q + rest) <==> BlockedBelow(Get(m, q).value, rest)
    decreases |q|
  {
    if |q| > 1 {
      assert (q + rest)[1..] == q[1..] + rest;
      BlockedPast(m[q[0]].fields, q[1..], rest);
    } else {
      assert (q + rest)[1..] == rest;
    }
  }

  lemma {:induction false} BlockedBeside(m: Fields, q: Path, v: Value, p: Path)
    requires Apart(p, q) && !Blocked(m, q)
    ensures Blocked(Set(m, q, v), p) <==> Blocked(m, p)
    decreases |q|
  {
    if p[0] == q[0] {
      ApartTails(p, q);
      BlockedBeside(Below(m, q[0]), q[1..], v, p[1..]);
    }
  }

  /** After writes in the order of their paths, a path that lies neither above nor on one of them is blocked exactly by
      the value at the longest of them above it. */
  ghost predicate Shape(t: Fields, F: Entries) {
    forall p: Path :: Ahead(F, p) ==> (Blocked(t, p) <==> BlockedIn(F, p))
  }

  ghost predicate Ahead(F: Entries, p: Path) {
    forall q: Path :: q in F ==> !(p <= q)
  }

  lemma ShapeAfterSet(t: Fields, F: Entries, q: Path, v: Value)
    requires Shape(t, F) && Ahead(F, q) && !Blocked(t, q)
    ensures Shape(Set(t, q, v), F[q := v])
  {
    var u, G := Set(t, q, v), F[q := v];
    forall p: Path | Ahead(G, p) ensures Blocked(u, p) <==> BlockedIn(G, p) {
      assert q in G && Ahead(F, p) by { forall r: Path | r in F ensures !(p <= r) { assert r in G; } }
      if q < p {
        ShapeBelow(t, F, q, v, p);
      } else {
        assert Apart(p, q) by { Comparable(p, q); }
        BlockedBeside(t, q, v, p);
        SameNearest(F, q, v, p);
      }
    }
  }

  lemma ShapeBelow(t: Fields, F: Entries, q: Path, v: Value, p: Path)
    requires Ahead(F, q) && q < p
    ensures Blocked(Set(t, q, v), p) <==> BlockedIn(F[q := v], p)
  {
    var G, rest: Path := F[q := v], p[|q|..];
    assert q + rest == p;
    GetAfterSet(t, q, v);
    BlockedPast(Set(t, q, v), q, rest);
    forall m: Path | m in G && m < p ensures m <= q {
      if m != q { Prefixes(m, q, p); }
    }
    assert Nearest(G, q, p);
    forall k: Path | Nearest(G, k, p) ensures k == q {
      Prefixes(k, q, p);
      assert k <= q && q <= k;
    }
  }

  /** Two prefixes of one path are prefixes of one another. */
  lemma Prefixes(a: Path, b: Path, p: Path)
    requires a <= p && b <= p
    ensures if |a| <= |b| then a <= b else b <= a
    ensures |a| == |b| ==> a == b
  {
  }

  lemma SameNearest(F: Entries, q: Path, v: Value, p: Path)
    requires !(q <= p)
    ensures BlockedIn(F[q := v], p) <==> BlockedIn(F, p)
  {
    var G := F[q := v];
    hide BlockedBelow;
    forall k: Path ensures Nearest(F, k, p) <==> Nearest(G, k, p) {
      if Nearest(F, k, p) { assert forall m: Path :: m in G && m < p ==> m in F; }
      if Nearest(G, k, p) { assert forall m: Path :: m in F && m < p ==> m in G; }
    }
    forall k: Path | Nearest(F, k, p) ensures G[k] == F[k] {}
  }

  // ----- sorted keys -----

  lemma {:induction false} PrefixPrecedes(a: string, b: string)
    requires b != ""
    ensures Precedes(a, a + b)
  {
    if a != "" {
      assert (a + b)[1..] == a[1..] + b;
      PrefixPrecedes(a[1..], b);
    } else {
      assert a + b == b;
    }
  }

  /** A key whose path lies above another's comes before it. */
  lemma AboveIsFirst(k: string, l: string)
    requires PathOf(k) < PathOf(l)
    ensures Precedes(k, l)
  {
    var p, q := PathOf(k), PathOf(l);
    var rest: Path := q[|p|..];
    assert p + rest == q;
    UnflattenExact.JoinConcat(p, rest);
    JoinSplit(k, '.');
    JoinSplit(l, '.');
    assert l == k + ("." + Join(rest, "."));
    PrefixPrecedes(k, "." + Join(rest, "."));
  }

  lemma Asymmetric(a: string, b: string)
    requires Precedes(a, b)
    ensures !Precedes(b, a) && a != b
  {
    Irreflexive(a);
    if Precedes(b, a) { PrecedesIsTransitive(a, b, a); }
  }

  lemma NextIsAhead(keys: seq<string>, f: Fields, i: nat)
    requires Enumerates(keys, f) && Sorted(keys) && i < |keys|
    ensures Ahead(EntriesOf(keys[..i], f), PathOf(keys[i]))
  {
    var F, p := EntriesOf(keys[..i], f), PathOf(keys[i]);
    EntriesAre(keys[..i], f);
    hide PathOf, Precedes, EntriesOf;
    forall q: Path | q in F ensures !(p <= q) {
      var k :| k in keys[..i] && PathOf(k) == q;
      var j :| 0 <= j < i && keys[j] == k;
      Asymmetric(k, keys[i]);
      if p <= q {
        PathsDetermineText(k, keys[i]);
        Comparable(p, q);
        if p < q { AboveIsFirst(keys[i], k); }
      }
    }
  }

  lemma {:induction false} SortedShape(keys: seq<string>, f: Fields, i: nat)
    requires Enumerates(keys, f) && Sorted(keys) && i <= |keys| && PutAll(keys[..i], f).Some?
    ensures Shape(PutAll(keys[..i], f).value, EntriesOf(keys[..i], f))
  {
    if i > 0 {
      var n := i - 1;
      assert keys[..i][..n] == keys[..n];
      SortedShape(keys, f, n);
      NextIsAhead(keys, f, n);
      var t, p, v := PutAll(keys[..n], f).value, PathOf(keys[n]), f[keys[n]];
      PutIsSet(t, p, v);
      hide Shape, Put, PathOf, Blocked, Set;
      ShapeAfterSet(t, EntriesOf(keys[..n], f), p, v);
    } else {
      EmptyShape(map[]);
    }
  }

  lemma EmptyShape(F: Entries)
    requires F == map[]
    ensures Shape(map[], F)
  {
  }

  /** All keys above the `i`-th have been written before it. */
  lemma AboveAreDone(keys: seq<string>, f: Fields, i: nat, k: string)
    requires Enumerates(keys, f) && Sorted(keys) && i < |keys| && k in f && PathOf(k) < PathOf(keys[i])
    ensures k in keys[..i]
  {
    AboveIsFirst(k, keys[i]);
    Asymmetric(k, keys[i]);
    var j :| 0 <= j < |keys| && keys[j] == k;
    hide PathOf, Precedes;
    assert j < i;
    assert keys[..i][j] == k;
  }

  lemma BlockedClashes(keys: seq<string>, f: Fields, i: nat, q: Path)
    requires Enumerates(keys, f) && Sorted(keys) && i < |keys|
    requires var F, p := EntriesOf(keys[..i], f), PathOf(keys[i]);
             Nearest(F, q, p) && BlockedBelow(F[q], p[|q|..])
    ensures Clashes(f, keys[i])
  {
    hide EntriesOf, Precedes, BlockedBelow, Sorted, PathOf, Clashes;
    EntriesAre(keys[..i], f);
    var k :| k in keys[..i] && PathOf(k) == q;
    assert k in keys;
    forall m | m in f && PathOf(m) < PathOf(keys[i]) ensures PathOf(m) <= q { AboveAreDone(keys, f, i, m); }
    assert ClashesWith(f, k, keys[i]);
    Witness(f, k, keys[i]);
  }

  lemma Witness(f: Fields, k: string, l: string)
    requires ClashesWith(f, k, l)
    ensures Clashes(f, l)
  {
    hide ClashesWith;
  }

  lemma ClashBlocks(keys: seq<string>, f: Fields, i: nat, k: string)
    requires Enumerates(keys, f) && Sorted(keys) && i < |keys| && ClashesWith(f, k, keys[i])
    ensures BlockedIn(EntriesOf(keys[..i], f), PathOf(keys[i]))
  {
    hide EntriesOf, Precedes, BlockedBelow, Sorted, PathOf;
    var F, p := EntriesOf(keys[..i], f), PathOf(keys[i]);
    EntriesAre(keys[..i], f);
    AboveAreDone(keys, f, i, k);
    forall q: Path | q in F && q < p ensures q <= PathOf(k) {
      var m :| m in keys[..i] && PathOf(m) == q;
      assert m in keys;
    }
    assert Nearest(F, PathOf(k), p);
  }

  lemma BlockedIsClash(keys: seq<string>, f: Fields, i: nat)
    requires Enumerates(keys, f) && Sorted(keys) && i < |keys|
    ensures BlockedIn(EntriesOf(keys[..i], f), PathOf(keys[i])) <==> Clashes(f, keys[i])
  {
    hide EntriesOf, Precedes, BlockedBelow, Sorted, PathOf, ClashesWith;
    var F, p := EntriesOf(keys[..i], f), PathOf(keys[i]);
    if BlockedIn(F, p) {
      var q: Path :| Nearest(F, q, p) && BlockedBelow(F[q], p[|q|..]);
      BlockedClashes(keys, f, i, q);
    }
    if Clashes(f, keys[i]) {
      var k :| ClashesWith(f, k, keys[i]);
      ClashBlocks(keys, f, i, k);
    }
  }

  /** The write of a key is refused exactly when it clashes. */
  lemma RefusedExactly(keys: seq<string>, f: Fields, i: nat)
    requires Enumerates(keys, f) && Sorted(keys) && i < |keys| && PutAll(keys[..i], f).Some?
    ensures PutAll(keys[..i + 1], f).None? <==> Clashes(f, keys[i])
  {
    hide Shape, Put, PathOf, Blocked, Set, BlockedIn, Clashes, Sorted;
    assert keys[..i + 1][..i] == keys[..i];
    SortedShape(keys, f, i);
    NextIsAhead(keys, f, i);
    BlockedIsClash(keys, f, i);
    var t, p := PutAll(keys[..i], f).value, PathOf(keys[i]);
    PutIsSet(t, p, f[keys[i]]);
    ShapeAt(t, EntriesOf(keys[..i], f), p);
  }

  lemma ShapeAt(t: Fields, F: Entries, p: Path)
    requires Shape(t, F) && Ahead(F, p)
    ensures Blocked(t, p) <==> BlockedIn(F, p)
  {
  }

  lemma {:induction false} SucceedsUpTo(keys: seq<string>, f: Fields, i: nat)
    requires Enumerates(keys, f) && Sorted(keys) && i <= |keys|
    ensures PutAll(keys[..i], f).Some? <==> forall j :: 0 <= j < i ==> !Clashes(f, keys[j])
  {
    hide Clashes, Put, PathOf, Sorted;
    if i > 0 {
      SucceedsUpTo(keys, f, i - 1);
      assert keys[..i][..i - 1] == keys[..i - 1];
      if PutAll(keys[..i - 1], f).Some? { RefusedExactly(keys, f, i - 1); }
    }
  }

  /** For all values, maps included: unflattening succeeds exactly when no key clashes with the one next above it. */
  lemma SortedConflictExactly(keys: seq<string>, f: Fields)
    requires Enumerates(keys, f) && Sorted(keys)
    ensures PutAll(keys, f).Some? <==> forall l :: l in f ==> !Clashes(f, l)
  {
    hide Clashes, PutAll, Sorted;
    SucceedsUpTo(keys, f, |keys|);
    assert keys[..|keys|] == keys;
    assert forall j :: 0 <= j < |keys| ==> keys[j] in f;
  }

  /** The error names exactly the first key, in sorted order, that clashes. */
  lemma ConflictNamesFirst(keys: seq<string>, f: Fields, key: string)
    requires Enumerates(keys, f) && Sorted(keys)
    ensures Unflattened(keys, f) == Conflict(key)
       <==> key in f && Clashes(f, key) && forall l :: l in f && Clashes(f, l) ==> l == key || Precedes(key, l)
  {
    hide Clashes, Unflattened, PutAll, Precedes, PathOf, Put;
    OutcomeIs(keys, f);
    SortedConflictExactly(keys, f);
    if Unflattened(keys, f).Conflict? {
      var first := Unflattened(keys, f).key;
      FirstIsLeast(keys, f, first);
      if key in f && Clashes(f, key) && key != first && Precedes(key, first) { Asymmetric(key, first); }
      if key in f && Clashes(f, key) && key != first && Precedes(first, key) { Asymmetric(first, key); }
    }
  }

  lemma FirstIsLeast(keys: seq<string>, f: Fields, key: string)
    requires Enumerates(keys, f) && Sorted(keys) && FirstRefused(keys, f, key)
    ensures key in f && Clashes(f, key) && forall l :: l in f && Clashes(f, l) ==> l == key || Precedes(key, l)
  {
    hide Clashes, PutAll, Precedes, PathOf, Put;
    var i :| 0 <= i < |keys| && keys[i] == key && PutAll(keys[..i], f).Some? && PutAll(keys[..i + 1], f).None?;
    RefusedExactly(keys, f, i);
    SucceedsUpTo(keys, f, i);
    forall l | l in f && Clashes(f, l) ensures l == key || Precedes(key, l) {
      var j :| 0 <= j < |keys| && keys[j] == l;
      assert j >= i;
    }
  }
}
