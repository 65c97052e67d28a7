/** Unflattening dotted keys into nested payloads, and how it undoes flattening. */
module Unflatten {
  import opened Text
  import opened Event
  import opened Flatten

  // ----- what setNested and unflattenMap come to, on values -----

  /** `None`: the path runs through a scalar, or ends at a map. */
  function Put(m: Fields, p: Path, v: Value): Option<Fields>
    decreases |p|
  {
    if |p| == 1 then
      if p[0] in m && m[p[0]].Obj? then None else Some(m[p[0] := v])
    else if p[0] in m && !m[p[0]].Obj? then None
    else
      match Put(Below(m, p[0]), p[1..], v)
      case None => None
      case Some(nested) => Some(m[p[0] := Obj(nested)])
  }

  function PutAll(keys: seq<string>, f: Fields): Option<Fields>
    requires forall k :: k in keys ==> k in f
  {
    if keys == [] then Some(map[])
    else
      var last := keys[|keys| - 1];
      match PutAll(keys[..|keys| - 1], f)
      case None => None
      case Some(m) => Put(m, PathOf(last), f[last])
  }

  /** `keys` lists the keys of `f`, each once, in some order; the source sorts them. */
  ghost predicate Enumerates(keys: seq<string>, f: Fields) {
    && (forall k :: k in f <==> k in keys)
    && (forall i, j :: 0 <= i < j < |keys| ==> keys[i] != keys[j])
  }

  /** What unflattening comes to: the tree, or the first key that clashes with what is there. */
  datatype Outcome = Done(fields: Fields) | Conflict(key: string)

  function Unflattened(keys: seq<string>, f: Fields): Outcome
    requires forall k :: k in keys ==> k in f
  {
    if keys == [] then Done(map[])
    else
      var last := keys[|keys| - 1];
      match Unflattened(keys[..|keys| - 1], f)
      case Conflict(key) => Conflict(key)
      case Done(m) => match Put(m, PathOf(last), f[last]) case None => Conflict(last) case Some(t) => Done(t)
  }

  ghost predicate FirstRefused(keys: seq<string>, f: Fields, key: string)
    requires forall k :: k in keys ==> k in f
  {
    exists i :: 0 <= i < |keys| && keys[i] == key && PutAll(keys[..i], f).Some? && PutAll(keys[..i + 1], f).None?
  }

  /** The outcome is the tree of all writes, or names the first key whose write is refused. */
  lemma {:induction false} OutcomeIs(keys: seq<string>, f: Fields)
    requires forall k :: k in keys ==> k in f
    ensures var outcome := Unflattened(keys, f);
            && (outcome.Done? ==> PutAll(keys, f) == Some(outcome.fields))
            && (outcome.Conflict? ==> PutAll(keys, f) == None && FirstRefused(keys, f, outcome.key))
  {
    if keys != [] {
      var n := |keys| - 1;
      OutcomeIs(keys[..n], f);
      hide Put, PathOf;
      assert keys[..n + 1] == keys;
      if Unflattened(keys[..n], f).Conflict? {
        var i :| 0 <= i < n && keys[..n][i] == Unflattened(keys[..n], f).key
          && PutAll(keys[..n][..i], f).Some? && PutAll(keys[..n][..i + 1], f).None?;
        assert keys[..n][..i] == keys[..i] && keys[..n][..i + 1] == keys[..i + 1];
      }
    }
  }

  // ----- sorted keys -----

  predicate Precedes(a: string, b: string) {
    b != "" && (a == "" || a[0] < b[0] || (a[0] == b[0] && Precedes(a[1..], b[1..])))
  }

  lemma {:induction false} PrecedesIsTotal(a: string, b: string)
    ensures Precedes(a, b) || a == b || Precedes(b, a)
  {
    if a != "" && b != "" && a[0] == b[0] {
      PrecedesIsTotal(a[1..], b[1..]);
      assert a == [a[0]] + a[1..] && b == [b[0]] + b[1..];
    }
  }

  lemma {:induction false} PrecedesIsTransitive(a: string, b: string, c: string)
    requires Precedes(a, b) && Precedes(b, c)
    ensures Precedes(a, c)
  {
    if a != "" && a[0] == b[0] == c[0] { PrecedesIsTransitive(a[1..], b[1..], c[1..]); }
  }

  /** The order of Go's strings: a proper prefix comes first, otherwise the first character that differs decides. */
  lemma {:induction false} PrecedesMeans(a: string, b: string) returns (n: nat)
    ensures n <= |a| && n <= |b| && a[..n] == b[..n]
    ensures Precedes(a, b) <==> n < |b| && (n == |a| || a[n] < b[n])
    ensures n < |a| && n < |b| ==> a[n] != b[n]
  {
    n := 0;
    if a != "" && b != "" && a[0] == b[0] {
      n := PrecedesMeans(a[1..], b[1..]);
      assert a[..n + 1] == [a[0]] + a[1..][..n] && b[..n + 1] == [b[0]] + b[1..][..n];
      n := n + 1;
    }
  }

  ghost predicate Sorted(keys: seq<string>) {
    forall i, j :: 0 <= i < j < |keys| ==> Precedes(keys[i], keys[j])
  }

  /** Puts a new key in its place, moving along from the front. */
  method Insert(keys: seq<string>, k: string) returns (r: seq<string>)
    requires Sorted(keys) && k !in keys
    ensures Sorted(r) && forall l :: l in r <==> l in keys || l == k
  {
    var i := 0;
    while i < |keys| && Precedes(keys[i], k)
      invariant 0 <= i <= |keys| && forall j :: 0 <= j < i ==> Precedes(keys[j], k)
    {
      i := i + 1;
    }
    if i < |keys| { PrecedesIsTotal(keys[i], k); }
    forall j | i <= j < |keys| ensures Precedes(k, keys[j]) {
      if i < j { PrecedesIsTransitive(k, keys[i], keys[j]); }
    }
    hide Precedes;
    r := keys[..i] + [k] + keys[i..];
    assert keys == keys[..i] + keys[i..];
  }

  lemma {:induction false} Irreflexive(a: string)
    ensures !Precedes(a, a)
  {
    if a != "" { Irreflexive(a[1..]); }
  }

  method SortedKeys(all: set<string>) returns (keys: seq<string>)
    ensures Sorted(keys) && forall k :: k in keys <==> k in all
    ensures forall i, j :: 0 <= i < j < |keys| ==> keys[i] != keys[j]
  {
    keys := [];
    var rest := all;
    while rest != {}
      invariant Sorted(keys) && rest <= all && forall k :: k in keys <==> k in all && k !in rest
    {
      var k :| k in rest;
      keys := Insert(keys, k);
      rest := rest - {k};
    }
    forall i, j | 0 <= i < j < |keys| ensures keys[i] != keys[j] { Irreflexive(keys[i]); }
  }

  lemma {:induction false} ConflictStays(keys: seq<string>, f: Fields, i: nat, k: string)
    requires i <= |keys| && (forall l :: l in keys ==> l in f) && Unflattened(keys[..i], f) == Conflict(k)
    ensures Unflattened(keys, f) == Conflict(k)
    decreases |keys| - i
  {
    if i < |keys| {
      assert keys[..i + 1][..i] == keys[..i];
      ConflictStays(keys, f, i + 1, k);
    } else {
      assert keys[..i] == keys;
    }
  }

  // ----- when a write is refused -----

  predicate Blocked(m: Fields, p: Path)
    decreases |p|
  {
    p[0] in m && if |p| == 1 then m[p[0]].Obj? else !m[p[0]].Obj? || Blocked(m[p[0]].fields, p[1..])
  }

  lemma {:induction false} PutIsSet(m: Fields, p: Path, v: Value)
    ensures Put(m, p, v) == if Blocked(m, p) then None else Some(Set(m, p, v))
    decreases |p|
  {
    if |p| > 1 { PutIsSet(Below(m, p[0]), p[1..], v); }
  }

  /** Refused exactly when the path ends at a map or runs through a value that is none. */
  lemma {:induction false} BlockedBy(m: Fields, p: Path)
    ensures Blocked(m, p) <==>
      || (Get(m, p).Some? && Get(m, p).value.Obj?)
      || (exists n :: 0 < n < |p| && Get(m, p[..n]).Some? && !Get(m, p[..n]).value.Obj?)
    decreases |p|
  {
    if |p| > 1 {
      assert p[..1] == [p[0]];
      if p[0] in m && m[p[0]].Obj? {
        var below := m[p[0]].fields;
        BlockedBy(below, p[1..]);
        forall n | 0 < n < |p[1..]| ensures Get(below, p[1..][..n]) == Get(m, p[..n + 1]) {
          assert p[..n + 1][1..] == p[1..][..n];
        }
        forall n | 1 < n < |p| ensures Get(m, p[..n]) == Get(below, p[1..][..n - 1]) {
          assert p[..n][1..] == p[1..][..n - 1];
        }
        if exists n :: 0 < n < |p[1..]| && Get(below, p[1..][..n]).Some? && !Get(below, p[1..][..n]).value.Obj? {
          var n :| 0 < n < |p[1..]| && Get(below, p[1..][..n]).Some? && !Get(below, p[1..][..n]).value.Obj?;
          assert Get(m, p[..n + 1]) == Get(below, p[1..][..n]);
        }
      } else if p[0] in m {
        assert Get(m, p[..1]) == Some(m[p[0]]);
      }
    }
  }

  // ----- what has been built -----

  type Entries = map<Path, Value>

  /** `t` answers each path of `F` with its value and nothing that is not above or below such a path. */
  ghost predicate Built(t: Fields, F: Entries) {
    && (forall p: Path :: p in F ==> Get(t, p) == Some(F[p]))
    && (forall q: Path :: Get(t, q).Some? ==> Explained(q, F))
  }

  ghost predicate Explained(q: Path, F: Entries) {
    exists p: Path :: p in F && (q == p || q < p || p < q)
  }

  lemma {:induction false} GetThrough(m: Fields, q: Path, rest: Path)
    ensures Get(m, q + rest) == match Get(m, q) case Some(Obj(f)) => Get(f, rest) case _ => None
    decreases |q|
  {
    if |q| > 1 {
      assert (q + rest)[1..] == q[1..] + rest;
      if q[0] in m && m[q[0]].Obj? { GetThrough(m[q[0]].fields, q[1..], rest); }
    } else {
      assert (q + rest)[1..] == rest;
    }
  }

  lemma GetAbove(m: Fields, q: Path, p: Path)
    requires q < p && Get(m, p).Some?
    ensures Get(m, q).Some? && Get(m, q).value.Obj? && Get(m, q).value.fields != map[]
  {
    var rest: Path := p[|q|..];
    assert q + rest == p;
    GetThrough(m, q, rest);
  }

  lemma ExplainedPrefix(F: Entries, p: Path, q: Path)
    requires (forall r: Path :: r in F ==> Apart(p, r)) && q <= p && Explained(q, F)
    ensures exists r: Path :: r in F && q < r
  {
    var r: Path :| r in F && (q == r || q < r || r < q);
    assert Apart(p, r) && (r <= q ==> r <= p);
  }

  /** A path apart from all of `F` is not refused. */
  lemma ApartIsFree(t: Fields, F: Entries, p: Path)
    requires Built(t, F) && forall q: Path :: q in F ==> Apart(p, q)
    ensures !Blocked(t, p)
  {
    BlockedBy(t, p);
    assert Get(t, p).None? by {
      forall r: Path | r in F ensures !(p == r || p < r || r < p) { assert Apart(p, r); }
      assert !Explained(p, F);
    }
    forall n | 0 < n < |p| && Get(t, p[..n]).Some? ensures Get(t, p[..n]).value.Obj? {
      ExplainedPrefix(F, p, p[..n]);
      var r: Path :| r in F && p[..n] < r;
      GetAbove(t, p[..n], r);
    }
  }

  lemma Comparable(p: Path, q: Path)
    ensures Apart(p, q) || p == q || p < q || q < p
  {
    if p <= q && |p| == |q| { assert p == q; }
  }

  lemma BuiltAfterSet(t: Fields, F: Entries, p: Path, v: Value)
    requires Built(t, F) && p !in F && forall q: Path :: q in F ==> Apart(p, q)
    ensures Built(Set(t, p, v), F[p := v])
  {
    var now, G := Set(t, p, v), F[p := v];
    GetAfterSet(t, p, v);
    forall q: Path | q in F ensures Get(now, q) == Some(F[q]) {
      SetLeavesOthers(t, p, v, q);
    }
    forall q: Path | Get(now, q).Some? ensures Explained(q, G) {
      if Apart(p, q) {
        SetLeavesOthers(t, p, v, q);
        assert Explained(q, F);
        var r: Path :| r in F && (q == r || q < r || r < q);
        assert r in G;
      } else {
        assert p in G;
        Comparable(p, q);
      }
    }
  }

  // ----- the loop over the keys -----

  /** The entries of `f` under the first keys, by path. */
  function EntriesOf(keys: seq<string>, f: Fields): Entries
    requires forall k :: k in keys ==> k in f
  {
    if keys == [] then map[]
    else EntriesOf(keys[..|keys| - 1], f)[PathOf(keys[|keys| - 1]) := f[keys[|keys| - 1]]]
  }

  lemma {:induction false} EntriesAre(keys: seq<string>, f: Fields)
    requires forall k :: k in keys ==> k in f
    ensures forall k :: k in keys ==> PathOf(k) in EntriesOf(keys, f) && EntriesOf(keys, f)[PathOf(k)] == f[k]
    ensures forall p: Path :: p in EntriesOf(keys, f) ==> exists k :: k in keys && PathOf(k) == p
  {
    if keys != [] {
      var init, last := keys[..|keys| - 1], keys[|keys| - 1];
      EntriesAre(init, f);
      forall k | k in keys ensures PathOf(k) in EntriesOf(keys, f) && EntriesOf(keys, f)[PathOf(k)] == f[k] {
        PathsDetermineText(k, last);
      }
      forall p: Path | p in EntriesOf(keys, f) ensures exists k :: k in keys && PathOf(k) == p {
        if p == PathOf(last) { assert last in keys; } else {
          var k :| k in init && PathOf(k) == p;
          assert k in keys;
        }
      }
    }
  }

  /** No key's dotted path is a proper prefix of another's. */
  ghost predicate NoKeyAbove(f: Fields) {
    forall k, l :: k in f && l in f && k != l ==> Apart(PathOf(k), PathOf(l))
  }

  /** Prefix-free keys never clash, and the result answers every key. */
  lemma {:induction false} PrefixFreeBuilds(keys: seq<string>, f: Fields)
    requires (forall k :: k in keys ==> k in f) && (forall i, j :: 0 <= i < j < |keys| ==> keys[i] != keys[j])
    requires NoKeyAbove(f)
    ensures PutAll(keys, f).Some? && Built(PutAll(keys, f).value, EntriesOf(keys, f))
  {
    if keys != [] {
      var init, last := keys[..|keys| - 1], keys[|keys| - 1];
      PrefixFreeBuilds(init, f);
      EntriesAre(init, f);
      var t, F, p := PutAll(init, f).value, EntriesOf(init, f), PathOf(last);
      forall q: Path | q in F ensures Apart(p, q) {
        var k :| k in init && PathOf(k) == q;
        assert k != last;
      }
      ApartIsFree(t, F, p);
      PutIsSet(t, p, f[last]);
      assert p in F ==> Apart(p, p);
      BuiltAfterSet(t, F, p, f[last]);
    }
  }

  ghost predicate Scalars(f: Fields) {
    forall k :: k in f ==> !f[k].Obj?
  }

  lemma ThroughScalar(t: Fields, p: Path, q: Path)
    requires q < p && Get(t, q).Some? && !Get(t, q).value.Obj?
    ensures Blocked(t, p)
  {
    BlockedBy(t, p);
    assert p[..|q|] == q;
  }

  lemma EndsAtMap(t: Fields, p: Path)
    requires Get(t, p).Some? && Get(t, p).value.Obj?
    ensures Blocked(t, p)
  {
    BlockedBy(t, p);
  }

  /** Among scalars, a write that is not refused goes to a path apart from all others. */
  lemma SuccessStep(t: Fields, F: Entries, p: Path, v: Value)
    requires Built(t, F) && p !in F && (forall q: Path :: q in F ==> !F[q].Obj?)
    requires Put(t, p, v).Some?
    ensures Built(Put(t, p, v).value, F[p := v]) && forall q: Path :: q in F ==> Apart(p, q)
  {
    PutIsSet(t, p, v);
    forall q: Path | q in F ensures Apart(p, q) {
      assert Get(t, q) == Some(F[q]);
      hide Get, Put, Set, Built, Blocked, Apart;
      Comparable(p, q);
      if q < p { ThroughScalar(t, p, q); }
      if p < q {
        GetAbove(t, p, q);
        EndsAtMap(t, p);
      }
    }
    BuiltAfterSet(t, F, p, v);
  }

  lemma {:induction false} SuccessMeansPrefixFree(keys: seq<string>, f: Fields)
    requires (forall k :: k in keys ==> k in f) && (forall i, j :: 0 <= i < j < |keys| ==> keys[i] != keys[j])
    requires Scalars(f) && PutAll(keys, f).Some?
    ensures Built(PutAll(keys, f).value, EntriesOf(keys, f))
    ensures forall i, j :: 0 <= i < j < |keys| ==> Apart(PathOf(keys[j]), PathOf(keys[i]))
  {
    if keys != [] {
      var init, last := keys[..|keys| - 1], keys[|keys| - 1];
      SuccessMeansPrefixFree(init, f);
      var t, F, p := PutAll(init, f).value, EntriesOf(init, f), PathOf(last);
      EntriesAre(init, f);
      assert PutAll(keys, f) == Put(t, p, f[last]) && EntriesOf(keys, f) == F[p := f[last]];
      hide Built, Apart, Put, PutAll, PathOf;
      forall q: Path | q in F ensures q != p && !F[q].Obj? {
        var k :| k in init && PathOf(k) == q;
        PathsDetermineText(k, last);
      }
      SuccessStep(t, F, p, f[last]);
      LastApart(keys, F);
    }
  }

  lemma LastApart(keys: seq<string>, F: Entries)
    requires keys != [] && forall q: Path :: q in F ==> Apart(PathOf(keys[|keys| - 1]), q)
    requires var init := keys[..|keys| - 1];
        && (forall k :: k in init ==> PathOf(k) in F)
        && forall i, j :: 0 <= i < j < |init| ==> Apart(PathOf(init[j]), PathOf(init[i]))
    ensures forall i, j :: 0 <= i < j < |keys| ==> Apart(PathOf(keys[j]), PathOf(keys[i]))
  {
    hide *;
    var init := keys[..|keys| - 1];
    forall i, j | 0 <= i < j < |keys| ensures Apart(PathOf(keys[j]), PathOf(keys[i])) {
      assert keys[i] == init[i] && init[i] in init;
      if j < |init| { assert keys[j] == init[j]; }
    }
  }

  /** For scalar values: unflattening fails exactly when some key's path is a proper prefix of another's. */
  lemma ConflictExactly(keys: seq<string>, f: Fields)
    requires Enumerates(keys, f) && Scalars(f)
    ensures PutAll(keys, f).Some? <==> NoKeyAbove(f)
  {
    if NoKeyAbove(f) { PrefixFreeBuilds(keys, f); }
    if PutAll(keys, f).Some? {
      SuccessMeansPrefixFree(keys, f);
      forall k, l | k in f && l in f && k != l ensures Apart(PathOf(k), PathOf(l)) {
        var i :| 0 <= i < |keys| && keys[i] == k;
        var j :| 0 <= j < |keys| && keys[j] == l;
        assert Apart(PathOf(keys[if i < j then j else i]), PathOf(keys[if i < j then i else j]));
      }
    }
  }

  /** A write that is not refused stays clear of a path that is answered, unless it goes below a map there. */
  lemma UnrefusedIsApart(t: Fields, p: Path, q: Path)
    requires !Blocked(t, p) && Get(t, q).Some? && p != q && (q < p ==> !Get(t, q).value.Obj?)
    ensures Apart(p, q)
  {
    Comparable(p, q);
    if q < p { ThroughScalar(t, p, q); }
    if p < q {
      GetAbove(t, p, q);
      EndsAtMap(t, p);
    }
  }

  /** The key's value is no map, or no other key goes on from it. */
  ghost predicate KeptBelow(f: Fields, k: string)
    requires k in f
  {
    f[k].Obj? ==> forall l :: l in f ==> !(PathOf(k) < PathOf(l))
  }

  lemma {:induction false} KeyAnswered(keys: seq<string>, f: Fields, k: string)
    requires (forall l :: l in keys ==> l in f) && (forall i, j :: 0 <= i < j < |keys| ==> keys[i] != keys[j])
    requires PutAll(keys, f).Some? && k in keys && KeptBelow(f, k)
    ensures Get(PutAll(keys, f).value, PathOf(k)) == Some(f[k])
  {
    var init, last := keys[..|keys| - 1], keys[|keys| - 1];
    var t, p, q := PutAll(init, f).value, PathOf(last), PathOf(k);
    PutIsSet(t, p, f[last]);
    if k == last {
      GetAfterSet(t, p, f[last]);
    } else {
      KeyAnswered(init, f, k);
      PathsDetermineText(k, last);
      hide PathOf, Put, Set, Get, Blocked, Apart;
      UnrefusedIsApart(t, p, q);
      SetLeavesOthers(t, p, f[last], q);
    }
  }

  /** Whenever unflattening succeeds, `GetField` answers a non-empty key with its own value, if that is no map or
      no other key goes on from it; for scalar values, always. */
  lemma SuccessAnswersKeys(keys: seq<string>, f: Fields, e: Event, k: string)
    requires Enumerates(keys, f) && PutAll(keys, f).Some? && e.payload == PutAll(keys, f)
    requires k in f && k != "" && KeptBelow(f, k)
    ensures GetField(e, k) == Some(f[k])
  {
    KeyAnswered(keys, f, k);
  }

  // ----- trees that agree on their leaves -----

  /** No empty map is nested at a path of 1 to `room` segments. */
  ghost predicate NoEmptyMap(m: Fields, room: nat) {
    forall q: Path :: |q| <= room && Get(m, q).Some? && Get(m, q).value.Obj? ==> Get(m, q).value.fields != map[]
  }

  lemma NoEmptyBelow(m: Fields, room: nat, k: string)
    requires NoEmptyMap(m, room) && room > 0 && k in m && m[k].Obj?
    ensures m[k].fields != map[] && NoEmptyMap(m[k].fields, room - 1)
  {
    var top: Path := [k];
    assert Get(m, top) == Some(m[k]);
    forall q: Path | |q| <= room - 1 && Get(m[k].fields, q).Some? && Get(m[k].fields, q).value.Obj?
      ensures Get(m[k].fields, q).value.fields != map[]
    {
      GetThrough(m, top, q);
    }
  }

  lemma {:induction false} HasLeaf(m: Fields, room: nat) returns (p: Path, v: Value)
    requires m != map[] && NoEmptyMap(m, room)
    ensures LeafAt(m, p, v, room)
    decreases room
  {
    var k :| k in m;
    if m[k].Obj? && room > 0 {
      NoEmptyBelow(m, room, k);
      var q: Path;
      q, v := HasLeaf(m[k].fields, room - 1);
      p := [k] + q;
      assert p[1..] == q;
    } else {
      p, v := [k], m[k];
    }
  }

  lemma LeafBelow(m: Fields, room: nat, k: string, q: Path, v: Value)
    requires room > 0 && k in m && m[k].Obj?
    ensures LeafAt(m, [k] + q, v, room) <==> LeafAt(m[k].fields, q, v, room - 1)
  {
    assert ([k] + q)[1..] == q;
  }

  ghost predicate LeavesWithin(a: Fields, b: Fields, room: nat) {
    forall p: Path, v :: LeafAt(a, p, v, room) ==> LeafAt(b, p, v, room)
  }

  lemma KeysWithin(a: Fields, b: Fields, room: nat, k: string)
    requires LeavesWithin(a, b, room) && NoEmptyMap(a, room) && k in a
    ensures k in b && (a[k].Obj? && room > 0 <==> b[k].Obj? && room > 0)
    ensures !(a[k].Obj? && room > 0) ==> a[k] == b[k]
    ensures a[k].Obj? && room > 0 ==> LeavesWithin(a[k].fields, b[k].fields, room - 1)
  {
    if a[k].Obj? && room > 0 {
      NoEmptyBelow(a, room, k);
      var q, v := HasLeaf(a[k].fields, room - 1);
      LeafBelow(a, room, k, q, v);
      assert LeafAt(b, [k] + q, v, room);
      var x, y, less := a[k].fields, b[k].fields, room - 1;
      forall p: Path, w | LeafAt(x, p, w, less) ensures LeafAt(y, p, w, less) {
        LeafBelow(a, room, k, p, w);
        LeafBelow(b, room, k, p, w);
      }
    } else {
      var p: Path := [k];
      assert LeafAt(a, p, a[k], room);
      assert LeafAt(b, p, a[k], room);
    }
  }

  /** Trees without empty maps are equal when they have the same leaves. */
  lemma {:induction false} SameLeavesSameTree(a: Fields, b: Fields, room: nat)
    requires NoEmptyMap(a, room) && NoEmptyMap(b, room)
    requires LeavesWithin(a, b, room) && LeavesWithin(b, a, room)
    ensures a == b
    decreases room
  {
    forall k | k in a ensures k in b && a[k] == b[k] {
      KeysWithin(a, b, room, k);
      KeysWithin(b, a, room, k);
      if a[k].Obj? && room > 0 {
        NoEmptyBelow(a, room, k);
        NoEmptyBelow(b, room, k);
        SameLeavesSameTree(a[k].fields, b[k].fields, room - 1);
      }
    }
    forall k | k in b ensures k in a {
      KeysWithin(b, a, room, k);
    }
  }

  // ----- the leaves of what was built -----

  /** Scalars at up to `room + 1` segments, or maps at exactly that depth. */
  ghost predicate LeafEntries(F: Entries, room: nat) {
    forall p: Path :: p in F ==> |p| <= room + 1 && (F[p].Obj? ==> |p| == room + 1)
  }

  lemma InnerNodes(t: Fields, F: Entries, room: nat, q: Path)
    requires Built(t, F) && LeafEntries(F, room) && Get(t, q).Some? && q !in F && |q| <= room + 1
    ensures Get(t, q).value.Obj? && Get(t, q).value.fields != map[] && |q| <= room
  {
    assert Explained(q, F);
    var p: Path :| p in F && (q == p || q < p || p < q);
    assert Get(t, p) == Some(F[p]);
    hide Get, Built;
    if p < q { GetAbove(t, p, q); } else { GetAbove(t, q, p); }
  }

  lemma BuiltLeaves(t: Fields, F: Entries, room: nat)
    requires Built(t, F) && LeafEntries(F, room)
    ensures NoEmptyMap(t, room)
    ensures forall p: Path, v :: LeafAt(t, p, v, room) <==> p in F && F[p] == v
  {
    forall q: Path | |q| <= room && Get(t, q).Some? && Get(t, q).value.Obj? ensures Get(t, q).value.fields != map[] {
      if q !in F { InnerNodes(t, F, room, q); }
    }
    forall p: Path, v ensures LeafAt(t, p, v, room) <==> p in F && F[p] == v {
      LeafIsGet(t, p, v, room);
      assert p in F ==> Get(t, p) == Some(F[p]);
      if Get(t, p).Some? && |p| <= room + 1 && p !in F { InnerNodes(t, F, room, p); }
    }
  }

  lemma {:induction false} SomeRoom(F: Entries, paths: set<Path>) returns (room: nat)
    requires forall p: Path :: p in F ==> !F[p].Obj?
    requires paths <= F.Keys
    ensures forall p: Path :: p in paths ==> |p| <= room + 1
    decreases paths
  {
    if paths == {} {
      room := 0;
    } else {
      var p: Path :| p in paths;
      room := SomeRoom(F, paths - {p});
      room := if room < |p| then |p| else room;
    }
  }

  lemma SameEntries(a: seq<string>, b: seq<string>, f: Fields)
    requires Enumerates(a, f) && Enumerates(b, f)
    ensures EntriesOf(a, f) == EntriesOf(b, f)
  {
    hide EntriesOf, PathOf;
    EntriesAre(b, f);
    forall p: Path | p in EntriesOf(a, f) ensures p in EntriesOf(b, f) && EntriesOf(a, f)[p] == EntriesOf(b, f)[p] {
      EntryIn(a, b, f, p);
    }
    forall p: Path | p in EntriesOf(b, f) ensures p in EntriesOf(a, f) {
      EntryIn(b, a, f, p);
    }
  }

  lemma EntryIn(a: seq<string>, b: seq<string>, f: Fields, p: Path)
    requires Enumerates(a, f) && Enumerates(b, f) && p in EntriesOf(a, f)
    ensures p in EntriesOf(b, f) && EntriesOf(a, f)[p] == EntriesOf(b, f)[p]
  {
    hide EntriesOf, PathOf;
    EntriesAre(a, f);
    EntriesAre(b, f);
    var k :| k in a && PathOf(k) == p;
    assert k in b;
  }

  /** For scalar values the outcome, tree or failure, is the same for every order of the keys. */
  lemma OrderDoesNotMatter(a: seq<string>, b: seq<string>, f: Fields)
    requires Enumerates(a, f) && Enumerates(b, f) && Scalars(f)
    ensures PutAll(a, f) == PutAll(b, f)
  {
    ConflictExactly(a, f);
    ConflictExactly(b, f);
    if NoKeyAbove(f) {
      var F := EntriesOf(a, f);
      PrefixFreeBuilds(a, f);
      PrefixFreeBuilds(b, f);
      SameEntries(a, b, f);
      EntriesAre(a, f);
      var room := SomeRoom(F, F.Keys);
      BuiltLeaves(PutAll(a, f).value, F, room);
      BuiltLeaves(PutAll(b, f).value, F, room);
      SameLeavesSameTree(PutAll(a, f).value, PutAll(b, f).value, room);
    }
  }

  // ----- the round trips -----

  lemma TailsApart(p: Path, q: Path)
    requires |p| > 1 && |q| > 1 && Apart(p[1..], q[1..])
    ensures Apart(p, q)
  {
    if p <= q { PrefixTail(p, q); }
    if q <= p { PrefixTail(q, p); }
  }

  lemma PrefixTail(p: Path, q: Path)
    requires |p| > 1 && p <= q
    ensures p[1..] <= q[1..]
  {
    assert q[1..][..|p| - 1] == p[1..];
  }

  lemma {:induction false} LeavesApart(m: Fields, p: Path, v: Value, q: Path, w: Value, room: nat)
    requires LeafAt(m, p, v, room) && LeafAt(m, q, w, room) && p != q
    ensures Apart(p, q)
    decreases |p|
  {
    if p[0] == q[0] {
      assert p == [p[0]] + p[1..] && q == [q[0]] + q[1..];
      assert |p| > 1 && |q| > 1;
      LeavesApart(m[p[0]].fields, p[1..], v, q[1..], w, room - 1);
      TailsApart(p, q);
    }
  }

  /** Unflattening always succeeds on a flattened payload, and gives the payload back exactly when no
      empty map was nested where flattening would open it. */
  lemma UnflattenUndoesFlatten(m: Fields, f: Fields, keys: seq<string>)
    requires WellKeyed(m, MaxDepth) && Flattened("", m, MaxDepth, f) && Enumerates(keys, f)
    ensures PutAll(keys, f).Some?
    ensures PutAll(keys, f) == Some(m) <==> NoEmptyMap(m, MaxDepth)
  {
    FlattenedExactly(m, MaxDepth, f);
    forall k, l | k in f && l in f && k != l ensures Apart(PathOf(k), PathOf(l)) {
      PathsDetermineText(k, l);
      assert LeafAt(m, PathOf(k), f[k], MaxDepth) && LeafAt(m, PathOf(l), f[l], MaxDepth);
      LeavesApart(m, PathOf(k), f[k], PathOf(l), f[l], MaxDepth);
    }
    PrefixFreeBuilds(keys, f);
    EntriesAre(keys, f);
    var t, F := PutAll(keys, f).value, EntriesOf(keys, f);
    FlattenedEntries(m, f, keys);
    BuiltLeaves(t, F, MaxDepth);
    if NoEmptyMap(m, MaxDepth) {
      SameLeavesSameTree(t, m, MaxDepth);
    }
  }

  lemma EntryIsLeaf(m: Fields, f: Fields, keys: seq<string>, p: Path)
    requires WellKeyed(m, MaxDepth) && Flattened("", m, MaxDepth, f) && Enumerates(keys, f) && p in EntriesOf(keys, f)
    ensures LeafAt(m, p, EntriesOf(keys, f)[p], MaxDepth)
  {
    FlattenedExactly(m, MaxDepth, f);
    EntriesAre(keys, f);
    hide PathOf, EntriesOf, Flattened, FlatKey, LeafAt, WellKeyed;
    var k :| k in keys && PathOf(k) == p;
    assert LeafAt(m, PathOf(k), f[k], MaxDepth);
  }

  lemma LeafIsEntry(m: Fields, f: Fields, keys: seq<string>, p: Path, v: Value)
    requires WellKeyed(m, MaxDepth) && Flattened("", m, MaxDepth, f) && Enumerates(keys, f) && LeafAt(m, p, v, MaxDepth)
    ensures p in EntriesOf(keys, f) && EntriesOf(keys, f)[p] == v
  {
    FlattenedExactly(m, MaxDepth, f);
    EntriesAre(keys, f);
    LeafKeyPath(m, p, v, MaxDepth);
    hide PathOf, EntriesOf, Flattened, FlatKey, LeafAt, WellKeyed;
    var k := FlatKey("", p);
    assert LeafAt(m, PathOf(k), v, MaxDepth);
    assert k in f && f[k] == v && k in keys;
  }

  lemma FlattenedEntries(m: Fields, f: Fields, keys: seq<string>)
    requires WellKeyed(m, MaxDepth) && Flattened("", m, MaxDepth, f) && Enumerates(keys, f)
    ensures LeafEntries(EntriesOf(keys, f), MaxDepth)
    ensures forall p: Path, v :: LeafAt(m, p, v, MaxDepth) <==> p in EntriesOf(keys, f) && EntriesOf(keys, f)[p] == v
  {
    var F := EntriesOf(keys, f);
    hide EntriesOf, Flattened, LeafAt, WellKeyed, Get, Enumerates;
    forall p: Path | p in F
        ensures |p| <= MaxDepth + 1 && (F[p].Obj? ==> |p| == MaxDepth + 1) && LeafAt(m, p, F[p], MaxDepth) {
      EntryIsLeaf(m, f, keys, p);
      LeafIsGet(m, p, F[p], MaxDepth);
    }
    forall p: Path, v | LeafAt(m, p, v, MaxDepth) ensures p in F && F[p] == v {
      LeafIsEntry(m, f, keys, p, v);
    }
  }

  // ----- flattening what was unflattened -----

  /** A key flattening can give back: at most 101 segments, and the first one not empty unless it is the only one. */
  predicate Restorable(k: string) {
    |PathOf(k)| <= MaxDepth + 1 && (PathOf(k)[0] != "" || |PathOf(k)| == 1)
  }

  lemma {:induction false} FlatKeyHead(p: Path)
    requires forall i :: 0 <= i < |p| ==> '.' !in p[i]
    ensures FlatKey("", p) != "" ==> FlatKey("", p)[0] != '.'
    decreases |p|
  {
    if |p| > 1 {
      if p[0] == "" {
        FlatKeyHead(p[1..]);
      } else {
        FlatKeyIsJoin(p[0], p[1..]);
        assert FlatKey("", p)[0] == p[0][0] && p[0][0] in p[0];
      }
    } else if p[0] != "" {
      assert p[0][0] in p[0];
    }
  }

  lemma LeadingDot(k: string)
    requires PathOf(k)[0] == "" && |PathOf(k)| > 1
    ensures k != "" && k[0] == '.'
  {
    JoinSplit(k, '.');
  }

  /** The scalars of a tree built from scalars are its entries. */
  lemma BuiltScalar(t: Fields, F: Entries, p: Path)
    requires Built(t, F) && (forall q: Path :: q in F ==> !F[q].Obj?) && Get(t, p).Some? && !Get(t, p).value.Obj?
    ensures p in F && Get(t, p) == Some(F[p])
  {
    assert Explained(p, F);
    var q: Path :| q in F && (p == q || p < q || q < p);
    assert Get(t, q) == Some(F[q]);
    if p < q { GetAbove(t, p, q); }
    if q < p { GetAbove(t, q, p); }
  }

  /** Where an entry of a flattened result comes from: a key of `f`. */
  lemma SourceKey(keys: seq<string>, f: Fields, k: string, v: Value) returns (l: string)
    requires Enumerates(keys, f) && Scalars(f) && NoKeyAbove(f) && !v.Obj?
    requires PutAll(keys, f).Some? && HasSource("", PutAll(keys, f).value, MaxDepth, k, v)
    ensures l in f && f[l] == v && FlatKey("", PathOf(l)) == k && |PathOf(l)| <= MaxDepth + 1
  {
    var t, F := PutAll(keys, f).value, EntriesOf(keys, f);
    PrefixFreeBuilds(keys, f);
    EntriesAre(keys, f);
    hide EntriesOf, PutAll, PathOf, Built, LeafAt, FlatKey;
    var p: Path :| LeafAt(t, p, v, MaxDepth) && FlatKey("", p) == k;
    LeafIsGet(t, p, v, MaxDepth);
    forall q: Path | q in F ensures !F[q].Obj? {
      var j :| j in keys && PathOf(j) == q;
    }
    BuiltScalar(t, F, p);
    l :| l in keys && PathOf(l) == p;
  }

  lemma RestorableKey(k: string)
    requires PathOf(k)[0] != "" || |PathOf(k)| == 1
    ensures FlatKey("", PathOf(k)) == k
  {
    FlatKeyOfPath(PathOf(k));
    JoinSplit(k, '.');
  }

  lemma RestorableRestored(keys: seq<string>, f: Fields, r: Fields)
    requires Enumerates(keys, f) && Scalars(f) && NoKeyAbove(f) && forall k :: k in f ==> Restorable(k)
    requires PutAll(keys, f).Some? && Flattened("", PutAll(keys, f).value, MaxDepth, r)
    requires forall k :: k in r ==> !r[k].Obj?
    ensures r == f
  {
    var t, F := PutAll(keys, f).value, EntriesOf(keys, f);
    PrefixFreeBuilds(keys, f);
    EntriesAre(keys, f);
    hide EntriesOf, PutAll, PathOf, LeafAt, FlatKey;
    forall k | k in r ensures k in f && r[k] == f[k] {
      var l := SourceKey(keys, f, k, r[k]);
      assert Restorable(l);
      RestorableKey(l);
    }
    forall k | k in f ensures k in r {
      assert Restorable(k) && Get(t, PathOf(k)) == Some(f[k]);
      LeafIsGet(t, PathOf(k), f[k], MaxDepth);
      RestorableKey(k);
    }
  }

  lemma RestoredIsRestorable(keys: seq<string>, f: Fields, k: string)
    requires Enumerates(keys, f) && Scalars(f) && NoKeyAbove(f) && k in f
    requires PutAll(keys, f).Some? && Flattened("", PutAll(keys, f).value, MaxDepth, f)
    ensures Restorable(k)
  {
    assert HasSource("", PutAll(keys, f).value, MaxDepth, k, f[k]);
    var l := SourceKey(keys, f, k, f[k]);
    NoLeadingDot(keys, f, l);
    RestorableKey(l);
  }

  lemma NoLeadingDot(keys: seq<string>, f: Fields, k: string)
    requires Enumerates(keys, f) && Scalars(f) && NoKeyAbove(f) && k in f
    requires PutAll(keys, f).Some? && Flattened("", PutAll(keys, f).value, MaxDepth, f)
    ensures PathOf(k)[0] != "" || |PathOf(k)| == 1
  {
    assert HasSource("", PutAll(keys, f).value, MaxDepth, k, f[k]);
    var l := SourceKey(keys, f, k, f[k]);
    FlatKeyHead(PathOf(l));
    if PathOf(k)[0] == "" && |PathOf(k)| > 1 { LeadingDot(k); }
  }

  /** `r` is a possible outcome of flattening the unflattened tree. For scalar, prefix-free `f` it is `f`
      again exactly when every key of `f` is restorable. */
  lemma FlattenUndoesUnflatten(keys: seq<string>, f: Fields, r: Fields)
    requires Enumerates(keys, f) && Scalars(f) && NoKeyAbove(f)
    requires PutAll(keys, f).Some? && Flattened("", PutAll(keys, f).value, MaxDepth, r)
    ensures r == f <==> forall k :: k in f ==> Restorable(k)
  {
    if forall k :: k in f ==> Restorable(k) {
      RestorableIsScalar(keys, f, r);
      RestorableRestored(keys, f, r);
    }
    if r == f {
      forall k | k in f ensures Restorable(k) { RestoredIsRestorable(keys, f, k); }
    }
  }

  lemma RestorableIsScalar(keys: seq<string>, f: Fields, r: Fields)
    requires Enumerates(keys, f) && Scalars(f) && NoKeyAbove(f) && forall k :: k in f ==> Restorable(k)
    requires PutAll(keys, f).Some? && Flattened("", PutAll(keys, f).value, MaxDepth, r)
    ensures forall k :: k in r ==> !r[k].Obj?
  {
    var t, F := PutAll(keys, f).value, EntriesOf(keys, f);
    PrefixFreeBuilds(keys, f);
    EntriesAre(keys, f);
    hide EntriesOf, PutAll, PathOf, LeafAt, FlatKey, Built;
    forall p: Path | p in F ensures |p| <= MaxDepth + 1 && !F[p].Obj? {
      var k :| k in keys && PathOf(k) == p;
      assert Restorable(k);
    }
    BuiltLeaves(t, F, MaxDepth);
    forall k | k in r ensures !r[k].Obj? {
      assert HasSource("", t, MaxDepth, k, r[k]);
      var p: Path :| LeafAt(t, p, r[k], MaxDepth) && FlatKey("", p) == k;
    }
  }
}
