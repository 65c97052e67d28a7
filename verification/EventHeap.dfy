/** Payloads as Go holds them: maps and slices on the heap, shared by reference. */
module EventHeap {
  import opened Text
  import opened Event

  /** A payload value as stored: an atom, or a reference to a map or slice. */
  datatype Ref = Atom(v: Value) | MapRef(m: MapObj) | SliceRef(s: SliceObj)

  class MapObj {
    var entries: map<string, Ref>
    /** The tree the map stands for. */
    ghost var tree: Fields
    ghost var rank: nat

    constructor (entries: map<string, Ref>, ghost tree: Fields, ghost rank: nat)
      ensures this.entries == entries && this.tree == tree && this.rank == rank
    {
      this.entries, this.tree, this.rank := entries, tree, rank;
    }
  }

  class SliceObj {
    var items: seq<Ref>
    ghost var trees: seq<Value>
    ghost var rank: nat

    constructor (items: seq<Ref>, ghost trees: seq<Value>, ghost rank: nat)
      ensures this.items == items && this.trees == trees && this.rank == rank
    {
      this.items, this.trees, this.rank := items, trees, rank;
    }
  }

  /** A set of heap objects closed under reference; the ranks, below `bound`, rule out cycles. */
  datatype Region = Region(maps: set<MapObj>, slices: set<SliceObj>, bound: nat) {
    ghost predicate Holds(ref: Ref, v: Value, rank: nat)
      reads maps, slices
    {
      match ref
      case Atom(a) => v == a && !v.Obj? && !v.List?
      case MapRef(m) => m in maps && m.rank < rank && v == Obj(m.tree)
      case SliceRef(s) => s in slices && s.rank < rank && v == List(s.trees)
    }

    ghost predicate MapFits(m: MapObj)
      reads maps, slices, m
    {
      m.entries.Keys == m.tree.Keys && forall k :: k in m.entries ==> Holds(m.entries[k], m.tree[k], m.rank)
    }

    ghost predicate SliceFits(s: SliceObj)
      reads maps, slices, s
    {
      |s.items| == |s.trees| && forall i :: 0 <= i < |s.items| ==> Holds(s.items[i], s.trees[i], s.rank)
    }

    ghost predicate Valid()
      reads maps, slices
    {
      && (forall m :: m in maps ==> m.rank < bound && MapFits(m))
      && (forall s :: s in slices ==> s.rank < bound && SliceFits(s))
    }

    ghost function With(m: MapObj): Region { this.(maps := maps + {m}) }
  }

  /** The nested map a reference leads to, if it leads to one. */
  function NextMap(m: MapObj?, key: string): MapObj?
    reads m
  {
    if m != null && key in m.entries && m.entries[key].MapRef? then m.entries[key].m else null
  }

  ghost function TreeOf(m: MapObj?): Fields
    reads m
  {
    if m == null then map[] else m.tree
  }

  method CloneMapShallow(m: MapObj?, ghost tree: Fields, ghost rank: nat) returns (c: MapObj)
    ensures fresh(c) && c.tree == tree && c.rank == rank
    ensures c.entries == if m == null then map[] else m.entries
  {
    c := new MapObj(if m == null then map[] else m.entries, tree, rank);
  }

  // ----- growing a region by one map at a time -----

  /** Everything in `h` is in order, given that `next`, still being filled, joins it. */
  ghost predicate Awaiting(h: Region, next: MapObj)
    reads h.maps, h.slices, next
  {
    && (forall m :: m in h.maps ==> m.rank < h.bound && h.With(next).MapFits(m))
    && (forall s :: s in h.slices ==> s.rank < h.bound && h.With(next).SliceFits(s))
    && next !in h.maps && next.rank < h.bound
  }

  /** `m` is in order but for `key`, which is yet to be written. */
  ghost predicate Pending(h: Region, m: MapObj, key: string)
    reads m, h.maps, h.slices
  {
    && m.tree.Keys + {key} == m.entries.Keys + {key}
    && (forall k :: k in m.entries && k != key ==> h.Holds(m.entries[k], m.tree[k], m.rank))
  }

  /** Writing `ref` at `key`, or deleting `key`, completes `cur` and with it the region. */
  method Finish(cur: MapObj, key: string, ref: Option<Ref>, ghost now: Region)
    requires Awaiting(now, cur) && Pending(now, cur, key)
    requires match ref case Some(r) => key in cur.tree && now.Holds(r, cur.tree[key], cur.rank)
        case None => key !in cur.tree
    modifies cur`entries
    ensures now.With(cur).Valid()
  {
    cur.entries := if ref.Some? then cur.entries[key := ref.value] else cur.entries - {key};
    ghost var grown := now.With(cur);
    forall m | m in now.maps ensures grown.MapFits(m) {
      assert old(grown.MapFits(m));
    }
    forall s | s in now.slices ensures grown.SliceFits(s) {
      assert old(grown.SliceFits(s));
    }
    assert grown.MapFits(cur);
  }

  /** Filling in `cur` with `next` as the map at `key`, `next` becomes the one awaited. */
  method Link(cur: MapObj, key: string, next: MapObj, ghost now: Region)
    requires Awaiting(now, cur) && Pending(now, cur, key) && next != cur && next !in now.maps
    requires next.rank < cur.rank && key in cur.tree && cur.tree[key] == Obj(next.tree)
    modifies cur`entries
    ensures Awaiting(now.With(cur), next)
  {
    cur.entries := cur.entries[key := MapRef(next)];
    ghost var grown := now.With(cur).With(next);
    forall m | m in now.maps ensures grown.MapFits(m) {
      assert old(now.With(cur).MapFits(m));
    }
    forall s | s in now.slices ensures grown.SliceFits(s) {
      assert old(now.With(cur).SliceFits(s));
    }
    assert grown.MapFits(cur);
  }

  // ----- copying along a path -----

  /** The tree after setting (`Some`) or removing (`None`) the value at `p`. */
  ghost function Edited(m: Fields, p: Path, edit: Option<Value>): Fields {
    match edit case Some(v) => Set(m, p, v) case None => Remove(m, p)
  }

  ghost predicate Editable(m: Fields, p: Path, edit: Option<Value>) {
    edit.None? ==> Get(m, p).Some?
  }

  lemma EditedShape(m: Fields, p: Path, edit: Option<Value>)
    requires Editable(m, p, edit)
    ensures var t := Edited(m, p, edit);
            && t.Keys + {p[0]} == m.Keys + {p[0]} && forall k :: k in m && k != p[0] ==> t[k] == m[k]
    ensures |p| > 1 ==> p[0] in Edited(m, p, edit) && Editable(Below(m, p[0]), p[1..], edit)
                        && Edited(m, p, edit)[p[0]] == Obj(Edited(Below(m, p[0]), p[1..], edit))
    ensures |p| == 1 ==> if edit.Some? then p[0] in Edited(m, p, edit) && Edited(m, p, edit)[p[0]] == edit.value
                         else p[0] !in Edited(m, p, edit)
  {
  }

  /** Between two steps of the loops: `cur` is the fresh copy of `orig` still to be edited at the head of `path`. */
  ghost predicate AtStep(base: Region, now: Region, cur: MapObj, orig: MapObj?, path: Path, edit: Option<Value>)
    reads base.maps, base.slices, now.maps, now.slices, cur
  {
    && base.Valid() && (orig != null ==> orig in base.maps)
    && base.maps <= now.maps && base.slices == now.slices
    && cur.rank == base.bound + |path| < now.bound
    && Awaiting(now, cur) && Pending(now, cur, path[0])
    && Editable(TreeOf(orig), path, edit) && cur.tree == Edited(TreeOf(orig), path, edit)
  }

  lemma Unpack(base: Region, now: Region, cur: MapObj, orig: MapObj?, path: Path, edit: Option<Value>)
    requires AtStep(base, now, cur, orig, path, edit)
    ensures base.Valid() && (orig != null ==> orig in base.maps)
    ensures base.maps <= now.maps && base.slices == now.slices && cur !in base.maps
    ensures cur.rank == base.bound + |path| < now.bound
    ensures Awaiting(now, cur) && Pending(now, cur, path[0])
    ensures Editable(TreeOf(orig), path, edit) && cur.tree == Edited(TreeOf(orig), path, edit)
  {
    hide Edited, Editable, Pending;
  }

  /** A fresh shallow copy of `orig`, its tree edited at `key`, is pending at `key`. */
  lemma Copied(h: Region, base: Region, orig: MapObj?, copy: MapObj, key: string)
    requires base.Valid() && (orig != null ==> orig in base.maps) && base.maps <= h.maps && base.slices <= h.slices
    requires copy.entries == (if orig == null then map[] else orig.entries) && copy.rank >= base.bound
    requires copy.tree.Keys + {key} == TreeOf(orig).Keys + {key}
    requires forall k :: k in TreeOf(orig) && k != key ==> copy.tree[k] == TreeOf(orig)[k]
    ensures Pending(h, copy, key)
  {
    if orig != null {
      assert base.MapFits(orig);
    }
  }

  lemma NextMapTree(base: Region, orig: MapObj?, key: string)
    requires base.Valid() && (orig != null ==> orig in base.maps)
    ensures var next := NextMap(orig, key);
            TreeOf(next) == Below(TreeOf(orig), key) && (next != null ==> next in base.maps)
  {
    if orig != null { assert base.MapFits(orig); }
  }

  method Begin(payload: MapObj?, keys: Path, ghost edit: Option<Value>, ghost h: Region)
    returns (result: MapObj, ghost now: Region)
    requires h.Valid() && (payload != null ==> payload in h.maps) && Editable(TreeOf(payload), keys, edit)
    ensures fresh(result) && now.maps == h.maps && result !in h.maps
    ensures AtStep(h, now, result, payload, keys, edit)
  {
    EditedShape(TreeOf(payload), keys, edit);
    result := CloneMapShallow(payload, Edited(TreeOf(payload), keys, edit), h.bound + |keys|);
    now := Region(h.maps, h.slices, h.bound + |keys| + 1);
    hide Edited;
    Copied(now, h, payload, result, keys[0]);
  }

  /** What is to become of the next map on the path. */
  lemma NextShape(base: Region, orig: MapObj?, path: Path, edit: Option<Value>)
    requires |path| > 1 && base.Valid() && (orig != null ==> orig in base.maps) && Editable(TreeOf(orig), path, edit)
    ensures var next, tree := NextMap(orig, path[0]), Edited(TreeOf(orig), path, edit);
            var sub := Edited(TreeOf(next), path[1..], edit);
            && (next != null ==> next in base.maps) && Editable(TreeOf(next), path[1..], edit)
            && path[0] in tree && tree[path[0]] == Obj(sub)
            && sub.Keys + {path[1]} == TreeOf(next).Keys + {path[1]}
            && forall k :: k in TreeOf(next) && k != path[1] ==> sub[k] == TreeOf(next)[k]
  {
    EditedShape(TreeOf(orig), path, edit);
    NextMapTree(base, orig, path[0]);
    EditedShape(TreeOf(NextMap(orig, path[0])), path[1..], edit);
    hide Edited, Editable, Region.Valid;
  }

  /** A fresh copy of the next map that is linked in puts the loops one step on. */
  lemma NextStep(base: Region, now: Region, cur: MapObj, next: MapObj, orig: MapObj?, path: Path, edit: Option<Value>)
    requires base.Valid() && (orig != null ==> orig in base.maps)
    requires base.maps <= now.maps && base.slices == now.slices && Awaiting(now.With(cur), next)
    requires Editable(TreeOf(orig), path, edit) && next.tree == Edited(TreeOf(orig), path, edit)
    requires next.entries == (if orig == null then map[] else orig.entries)
    requires next.rank == base.bound + |path| < now.bound
    requires next.tree.Keys + {path[0]} == TreeOf(orig).Keys + {path[0]}
    requires forall k :: k in TreeOf(orig) && k != path[0] ==> next.tree[k] == TreeOf(orig)[k]
    ensures AtStep(base, now.With(cur), next, orig, path, edit)
  {
    hide Edited, Editable, Region.Valid, Awaiting, Pending;
    Copied(now.With(cur), base, orig, next, path[0]);
  }

  /** One turn of the loops: the next map on the path is copied and linked in. */
  method Descend(cur: MapObj, orig: MapObj?, path: Path, ghost edit: Option<Value>, ghost base: Region,
      ghost now: Region)
    returns (next: MapObj, origNext: MapObj?)
    requires |path| > 1 && AtStep(base, now, cur, orig, path, edit)
    modifies cur`entries
    ensures fresh(next) && next !in now.With(cur).maps && AtStep(base, now.With(cur), next, origNext, path[1..], edit)
  {
    hide *;
    Unpack(base, now, cur, orig, path, edit);
    NextShape(base, orig, path, edit);
    origNext := NextMap(orig, path[0]);
    ghost var sub := Edited(TreeOf(origNext), path[1..], edit);
    next := CloneMapShallow(origNext, sub, base.bound + |path| - 1);
    Link(cur, path[0], next, now);
    NextStep(base, now, cur, next, origNext, path[1..], edit);
  }

  /** `now` has `n` maps more than `h`. */
  ghost predicate Grew(h: Region, now: Region, n: nat) { |now.maps| == |h.maps| + n }

  lemma GrewByOne(h: Region, now: Region, n: nat, m: MapObj)
    requires Grew(h, now, n) && m !in now.maps
    ensures Grew(h, now.With(m), n + 1)
  {
  }

  /** The loops of the source up to the last segment: a chain of fresh copies, everything off the path shared. */
  method CopyPath(payload: MapObj?, keys: Path, ghost edit: Option<Value>, ghost h: Region)
    returns (result: MapObj, last: MapObj, ghost orig: MapObj?, ghost now: Region)
    requires h.Valid() && (payload != null ==> payload in h.maps) && Editable(TreeOf(payload), keys, edit)
    ensures fresh(last) && fresh(result) && fresh(now.maps - h.maps) && (result == last || result in now.maps)
    ensures AtStep(h, now, last, orig, keys[|keys| - 1..], edit)
    ensures Grew(h, now, |keys| - 1) && last !in now.maps
    ensures result.tree == Edited(TreeOf(payload), keys, edit)
  {
    result, now := Begin(payload, keys, edit, h);
    assert result.tree == Edited(TreeOf(payload), keys, edit);
    var currentOrig := payload;
    last := result;
    assert keys[0..] == keys;
    hide AtStep, Region.Valid, Edited, Editable, Grew;
    for i := 0 to |keys| - 1
      invariant fresh(now.maps - h.maps) && fresh(last) && fresh(result)
      invariant AtStep(h, now, last, currentOrig, keys[i..], edit)
      invariant Grew(h, now, i) && last !in now.maps
      invariant result == last || result in now.maps
      invariant result.tree == Edited(TreeOf(payload), keys, edit)
    {
      assert keys[i..][1..] == keys[i + 1..];
      var next, origNext := Descend(last, currentOrig, keys[i..], edit, h, now);
      GrewByOne(h, now, i, last);
      now := now.With(last);
      last := next;
      currentOrig := origNext;
    }
    orig := currentOrig;
  }

  /** The last segment: the value is written into the last copy, or the key deleted from it. */
  method Complete(last: MapObj, ghost orig: MapObj?, keys: Path, ghost edit: Option<Value>, ref: Option<Ref>,
                  ghost h: Region, ghost now: Region)
    returns (ghost grown: Region)
    requires AtStep(h, now, last, orig, keys[|keys| - 1..], edit) && Grew(h, now, |keys| - 1) && last !in now.maps
    requires match ref case Some(r) => edit.Some? && h.Holds(r, edit.value, h.bound) case None => edit.None?
    modifies last`entries
    ensures grown == now.With(last) && grown.Valid() && Grew(h, grown, |keys|)
    ensures h.maps <= grown.maps && h.slices == grown.slices && h.bound <= grown.bound
  {
    EditedShape(TreeOf(orig), keys[|keys| - 1..], edit);
    GrewByOne(h, now, |keys| - 1, last);
    hide Edited, Editable, Region.Valid, Awaiting, Pending, Grew;
    Finish(last, keys[|keys| - 1], ref, now);
    grown := now.With(last);
  }

  // ----- SetField and RemoveField -----

  /** Nothing that existed before the call is written: the method modifies fresh maps only. One map per path
      segment is new; whatever else the result holds are the maps and slices that were there before. */
  method SetField(payload: MapObj?, keys: Path, value: Ref, ghost v: Value, ghost h: Region)
    returns (result: MapObj, ghost now: Region)
    requires h.Valid() && (payload != null ==> payload in h.maps) && h.Holds(value, v, h.bound)
    ensures now.Valid() && result in now.maps && h.maps <= now.maps && h.slices == now.slices
    ensures fresh(result) && fresh(now.maps - h.maps) && h.bound <= now.bound && Grew(h, now, |keys|)
    ensures result.tree == Set(TreeOf(payload), keys, v)
  {
    var last: MapObj;
    ghost var orig;
    result, last, orig, now := CopyPath(payload, keys, Some(v), h);
    assert result.tree == Set(TreeOf(payload), keys, v);
    hide *;
    now := Complete(last, orig, keys, Some(v), Some(value), h, now);
  }

  /** Follows the path as `GetField` does, and as `RemoveField` does before it copies anything. */
  method LookUp(payload: MapObj, keys: Path, ghost h: Region) returns (r: Option<Ref>)
    requires h.Valid() && payload in h.maps
    ensures match Get(payload.tree, keys)
            case None => r == None
            case Some(v) => r.Some? && h.Holds(r.value, v, h.bound)
  {
    var current := payload;
    assert keys[0..] == keys;
    for i := 0 to |keys| - 1
      invariant current in h.maps && Get(current.tree, keys[i..]) == Get(payload.tree, keys)
    {
      assert h.MapFits(current) && keys[i..][1..] == keys[i + 1..];
      if keys[i] !in current.entries || !current.entries[keys[i]].MapRef? {
        return None;
      }
      current := current.entries[keys[i]].m;
    }
    assert h.MapFits(current);
    var last := keys[|keys| - 1];
    r := if last in current.entries then Some(current.entries[last]) else None;
  }

  /** The payload itself when there is nothing to remove, a fresh one otherwise; nothing old is written. */
  method RemoveField(payload: MapObj?, keys: Path, ghost h: Region) returns (result: MapObj?, ghost now: Region)
    requires h.Valid() && (payload != null ==> payload in h.maps)
    ensures now.Valid() && (result != null ==> result in now.maps) && h.maps <= now.maps && h.slices == now.slices
    ensures fresh(now.maps - h.maps) && h.bound <= now.bound && (result == payload || (result != null && fresh(result)))
    ensures TreeOf(result) == Remove(TreeOf(payload), keys)
    ensures Grew(h, now, if result == payload then 0 else |keys|)
    ensures result == payload <==> Get(TreeOf(payload), keys).None?
  {
    if payload == null {
      return payload, h;
    }
    var found := LookUp(payload, keys, h);
    if found.None? {
      return payload, h;
    }
    result, now := RemoveExisting(payload, keys, h);
  }

  method RemoveExisting(payload: MapObj, keys: Path, ghost h: Region) returns (result: MapObj, ghost now: Region)
    requires h.Valid() && payload in h.maps && Get(payload.tree, keys).Some?
    ensures now.Valid() && result in now.maps && h.maps <= now.maps && h.slices == now.slices
    ensures fresh(now.maps - h.maps) && h.bound <= now.bound
    ensures fresh(result) && result.tree == Remove(payload.tree, keys)
    ensures Grew(h, now, |keys|)
  {
    var last: MapObj;
    ghost var orig;
    assert Editable(TreeOf(payload), keys, None);
    hide Get, Remove, AtStep, Region.Valid;
    result, last, orig, now := CopyPath(payload, keys, None, h);
    assert result.tree == Remove(TreeOf(payload), keys);
    hide *;
    now := Complete(last, orig, keys, None, None, h, now);
  }

  // ----- Clone -----

  lemma Merged(a: Region, b: Region)
    requires a.Valid() && b.Valid() && a.bound == b.bound
    ensures Region(a.maps + b.maps, a.slices + b.slices, a.bound).Valid()
  {
    var c := Region(a.maps + b.maps, a.slices + b.slices, a.bound);
    forall m | m in c.maps ensures m.rank < c.bound && c.MapFits(m) {
      assert m in a.maps ==> a.MapFits(m);
      assert m in b.maps ==> b.MapFits(m);
    }
    forall s | s in c.slices ensures s.rank < c.bound && c.SliceFits(s) {
      assert s in a.slices ==> a.SliceFits(s);
      assert s in b.slices ==> b.SliceFits(s);
    }
  }

  lemma HoldsInMore(a: Region, b: Region, ref: Ref, v: Value, rank: nat)
    requires a.Holds(ref, v, rank) && a.maps <= b.maps && a.slices <= b.slices
    ensures b.Holds(ref, v, rank)
  {
  }

  function Merge(a: Region, b: Region): Region { Region(a.maps + b.maps, a.slices + b.slices, a.bound) }

  lemma EntryAbsorbed(now: Region, part: Region, entries: map<string, Ref>, tree: Fields, rank: nat, k: string,
      ref: Ref)
    requires now.Valid() && part.Valid() && now.bound == part.bound && entries.Keys + {k} <= tree.Keys
    requires (forall j :: j in entries ==> now.Holds(entries[j], tree[j], rank)) && part.Holds(ref, tree[k], rank)
    ensures Merge(now, part).Valid()
    ensures forall j :: j in entries[k := ref] ==> Merge(now, part).Holds(entries[k := ref][j], tree[j], rank)
  {
    Merged(now, part);
    forall j | j in entries[k := ref] ensures Merge(now, part).Holds(entries[k := ref][j], tree[j], rank) {
      if j != k { HoldsInMore(now, Merge(now, part), entries[j], tree[j], rank); }
    }
  }

  lemma ItemAbsorbed(now: Region, part: Region, items: seq<Ref>, trees: seq<Value>, rank: nat, ref: Ref)
    requires now.Valid() && part.Valid() && now.bound == part.bound && |items| < |trees|
    requires (forall j :: 0 <= j < |items| ==> now.Holds(items[j], trees[j], rank))
    requires part.Holds(ref, trees[|items|], rank)
    ensures Merge(now, part).Valid()
    ensures forall j :: 0 <= j < |items + [ref]| ==> Merge(now, part).Holds((items + [ref])[j], trees[j], rank)
  {
    Merged(now, part);
    forall j | 0 <= j < |items + [ref]| ensures Merge(now, part).Holds((items + [ref])[j], trees[j], rank) {
      if j < |items| { HoldsInMore(now, Merge(now, part), items[j], trees[j], rank); }
    }
  }

  /** A map whose entries are all held joins the region. */
  lemma MapJoins(h: Region, m: MapObj)
    requires h.Valid() && m.rank < h.bound && h.MapFits(m)
    ensures h.With(m).Valid()
  {
    forall o | o in h.With(m).maps ensures o.rank < h.bound && h.With(m).MapFits(o) {
      assert h.MapFits(o);
    }
    forall s | s in h.slices ensures h.With(m).SliceFits(s) { assert h.SliceFits(s); }
  }

  lemma SliceJoins(h: Region, s: SliceObj)
    requires h.Valid() && s.rank < h.bound && h.SliceFits(s)
    ensures h.(slices := h.slices + {s}).Valid()
  {
    var g := h.(slices := h.slices + {s});
    forall o | o in g.slices ensures o.rank < h.bound && g.SliceFits(o) { assert h.SliceFits(o); }
    forall m | m in h.maps ensures g.MapFits(m) { assert h.MapFits(m); }
  }

  /** A value and everything reachable from it, copied into a region of fresh objects. */
  method DeepCopy(ref: Ref, ghost v: Value, ghost rank: nat, ghost h: Region) returns (copy: Ref, ghost now: Region)
    requires h.Valid() && rank <= h.bound && h.Holds(ref, v, rank)
    ensures now.Valid() && now.bound == h.bound && now.Holds(copy, v, rank)
    ensures fresh(now.maps) && fresh(now.slices)
    decreases rank, 0
  {
    match ref {
      case Atom(_) =>
        copy := ref;
        now := Region({}, {}, h.bound);
      case MapRef(m) =>
        var c: MapObj;
        c, now := DeepCopyMap(m, h);
        copy := MapRef(c);
      case SliceRef(s) =>
        var c: SliceObj;
        c, now := DeepCopySlice(s, h);
        copy := SliceRef(c);
    }
  }

  method DeepCopyMap(m: MapObj, ghost h: Region) returns (c: MapObj, ghost now: Region)
    requires h.Valid() && m in h.maps
    ensures now.Valid() && now.bound == h.bound && c in now.maps && c.tree == m.tree && c.rank == m.rank
    ensures fresh(now.maps) && fresh(now.slices)
    decreases m.rank, 1
  {
    assert h.MapFits(m);
    var result: map<string, Ref> := map[];
    now := Region({}, {}, h.bound);
    var todo := m.entries.Keys;
    EmptyIsValid(h.bound);
    hide Region.Valid, Region.Holds;
    while todo != {}
      invariant todo <= m.entries.Keys && result.Keys == m.entries.Keys - todo
      invariant h.Valid() && now.Valid() && now.bound == h.bound && fresh(now.maps) && fresh(now.slices)
      invariant forall k :: k in result ==> now.Holds(result[k], m.tree[k], m.rank)
      decreases todo
    {
      var k :| k in todo;
      var copied: Ref;
      ghost var part: Region;
      copied, part := DeepCopy(m.entries[k], m.tree[k], m.rank, h);
      EntryAbsorbed(now, part, result, m.tree, m.rank, k, copied);
      now := Merge(now, part);
      result := result[k := copied];
      todo := todo - {k};
    }
    c := new MapObj(result, m.tree, m.rank);
    MapJoins(now, c);
    now := now.With(c);
  }

  lemma EmptyIsValid(bound: nat)
    ensures Region({}, {}, bound).Valid()
  {
  }

  method DeepCopySlice(s: SliceObj, ghost h: Region) returns (c: SliceObj, ghost now: Region)
    requires h.Valid() && s in h.slices
    ensures now.Valid() && now.bound == h.bound && c in now.slices && c.trees == s.trees && c.rank == s.rank
    ensures fresh(now.maps) && fresh(now.slices)
    decreases s.rank, 1
  {
    assert h.SliceFits(s);
    var items := [];
    now := Region({}, {}, h.bound);
    EmptyIsValid(h.bound);
    hide Region.Valid, Region.Holds;
    for i := 0 to |s.items|
      invariant |items| == i
      invariant h.Valid() && now.Valid() && now.bound == h.bound && fresh(now.maps) && fresh(now.slices)
      invariant forall j :: 0 <= j < i ==> now.Holds(items[j], s.trees[j], s.rank)
    {
      var copied: Ref;
      ghost var part: Region;
      copied, part := DeepCopy(s.items[i], s.trees[i], s.rank, h);
      ItemAbsorbed(now, part, items, s.trees, s.rank, copied);
      now := Merge(now, part);
      items := items + [copied];
    }
    c := new SliceObj(items, s.trees, s.rank);
    SliceJoins(now, c);
    now := now.(slices := now.slices + {c});
  }
}
