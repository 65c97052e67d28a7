/** The LRU cache with its map and linked list, kept in step with the list of `Recency`. */
module LruCache {
  import opened Text
  import opened LinkedList
  import opened Recency

  class CacheEntry<V> {
    var value: V
    var expiry: int
    const element: Element

    constructor (value: V, expiry: int, element: Element)
      ensures this.value == value && this.expiry == expiry && this.element == element
    {
      this.value, this.expiry, this.element := value, expiry, element;
    }
  }

  const DefaultSize := 1000
  const DefaultTtl := 300_000_000_000  // five minutes in nanoseconds

  lemma {:induction false} WithoutAt<V>(l: Order<V>, k: nat)
    requires Distinct(l) && k < |l|
    ensures Without(l, l[k].key) == l[..k] + l[k + 1..] && Find(l, l[k].key) == Some(l[k])
  {
    if k > 0 {
      WithoutAt(l[1..], k - 1);
      assert l[..k] == [l[0]] + l[1..][..k - 1];
    }
  }

  lemma SameKeysDistinct<V>(l: Order<V>, r: Order<V>)
    requires Distinct(l) && |l| == |r| && forall i :: 0 <= i < |l| ==> l[i].key == r[i].key
    ensures Distinct(r)
  {
  }

  class LRUCache<V> {
    const maxSize: nat
    const ttl: int
    var data: map<string, CacheEntry<V>>
    var lruList: RingList
    /** The abstract value: the entries from most to least recently used. */
    ghost var contents: Order<V>
    ghost var Repr: set<object>

    /** Map and list hold the same keys, each entry's element is the one node with its key, and
        `contents` lists the entries in the order of the nodes. */
    ghost predicate Valid()
      reads this, Repr
      ensures Valid() ==> this in Repr
    {
      && this in Repr && lruList in Repr && lruList.root in Repr
      && (forall i :: 0 <= i < |lruList.nodes| ==> lruList.nodes[i] in Repr)
      && (forall k :: k in data ==> data[k] in Repr)
      && maxSize >= 1 && lruList.Valid()
      && (forall k :: k in data ==> data[k].element in lruList.nodes && data[k].element.value == k)
      && |contents| == |lruList.nodes| <= maxSize
      && (forall i {:trigger contents[i]} {:trigger lruList.nodes[i]} :: 0 <= i < |contents| ==>
          Describes(contents[i], lruList.nodes[i]))
    }

    ghost predicate Describes(item: Item<V>, n: Element)
      requires forall k :: k in data ==> data[k] in Repr
      reads this, Repr
    {
      && n.value in data && data[n.value].element == n
      && item == Item(n.value, data[n.value].value, data[n.value].expiry)
    }

    constructor (maxSize: int, ttl: int)
      ensures Valid() && fresh(Repr) && contents == []
      ensures this.maxSize == (if maxSize <= 0 then 1000 else maxSize)
      ensures this.ttl == if ttl <= 0 then 300_000_000_000 else ttl
    {
      this.maxSize := if maxSize <= 0 then DefaultSize else maxSize;
      this.ttl := if ttl <= 0 then DefaultTtl else ttl;
      data := map[];
      var list := new RingList();
      lruList := list;
      contents := [];
      Repr := {this, list, list.root};
    }

    lemma KeysDistinct()
      requires Valid()
      ensures Distinct(contents)
    {
      forall i, j | 0 <= i < j < |contents| ensures contents[i].key != contents[j].key {
        assert Describes(contents[i], lruList.nodes[i]) && Describes(contents[j], lruList.nodes[j]);
      }
    }

    /** Where the key of an entry stands in the recency order. */
    lemma Position(key: string) returns (i: nat)
      requires Valid() && key in data
      ensures i < |contents| && lruList.nodes[i] == data[key].element && NoDuplicates(lruList.nodes)
      ensures contents[i] == Item(key, data[key].value, data[key].expiry) && Find(contents, key) == Some(contents[i])
      ensures Without(contents, key) == contents[..i] + contents[i + 1..]
      ensures lruList.Valid() && Distinct(contents) && |lruList.nodes| == |contents|
      ensures forall k :: k in data && k != key ==> data[k] != data[key]
    {
      i :| 0 <= i < |lruList.nodes| && lruList.nodes[i] == data[key].element;
      assert Describes(contents[i], lruList.nodes[i]);
      KeysDistinct();
      WithoutAt(contents, i);
    }

    lemma Absent(key: string)
      requires Valid() && key !in data
      ensures Find(contents, key) == None
    {
      FindIsIn(contents, key);
      forall i | 0 <= i < |contents| ensures contents[i].key != key {
        assert Describes(contents[i], lruList.nodes[i]);
      }
    }

    /** The map has as many keys as the list has nodes. */
    lemma SizesAgree()
      requires Valid()
      ensures |data| == |contents|
    {
      KeysDistinct();
      KeyCount(contents);
      assert data.Keys == KeySet(contents) by {
        forall k | k in data ensures k in KeySet(contents) {
          var i := Position(k);
          assert contents[i].key == k;
        }
        forall i | 0 <= i < |contents| ensures contents[i].key in data {
          assert Describes(contents[i], lruList.nodes[i]);
        }
      }
      assert |data| == |data.Keys|;
    }

    /** Taking the `i`-th entry out of map, list and contents keeps them in step. */
    twostate lemma EntryGone(i: nat)
      requires old(Valid()) && i < |old(contents)| && Distinct(old(contents))
      requires Repr == old(Repr) && lruList == old(lruList) && lruList.Valid()
      requires lruList.nodes == Removed(old(lruList.nodes), i)
      requires contents == old(contents)[..i] + old(contents)[i + 1..] && data == old(data) - {old(contents)[i].key}
      requires forall k :: k in data ==> unchanged(data[k])
      ensures Valid()
    {
      hide RingList.Valid, RingList.Linked;
      ghost var nodes, was := old(lruList.nodes), old(contents);
      forall j | 0 <= j < |contents| ensures lruList.nodes[j] in Repr && Describes(contents[j], lruList.nodes[j]) {
        var k := if j < i then j else j + 1;
        assert old(Describes(was[k], nodes[k])) && was[k].key != was[i].key;
      }
      forall k | k in data ensures data[k].element in lruList.nodes {
      }
    }

    method RemoveEntry(key: string, entry: CacheEntry<V>)
      requires Valid() && key in data && data[key] == entry
      modifies this, lruList, lruList.root, lruList.nodes
      ensures Valid() && Repr == old(Repr)
      ensures contents == Without(old(contents), key) && data == old(data) - {key}
    {
      ghost var i := Position(key);
      ghost var nodes := lruList.nodes;
      hide RingList.Valid, RingList.Linked, Valid;
      lruList.Remove(entry.element);
      assert lruList.nodes == Removed(nodes, i);
      data := data - {key};
      contents := contents[..i] + contents[i + 1..];
      EntryGone(i);
    }

    /** Moving the `i`-th entry to the front in list and contents keeps them in step. */
    twostate lemma EntryMoved(i: nat)
      requires old(Valid()) && i < |old(contents)|
      requires Repr == old(Repr) && lruList == old(lruList) && lruList.Valid() && data == old(data)
      requires lruList.nodes == [old(lruList.nodes)[i]] + Removed(old(lruList.nodes), i)
      requires contents == [old(contents)[i]] + (old(contents)[..i] + old(contents)[i + 1..])
      requires forall k :: k in data ==> unchanged(data[k])
      ensures Valid()
    {
      hide RingList.Valid, RingList.Linked;
      ghost var nodes, was := old(lruList.nodes), old(contents);
      forall j | 0 <= j < |contents| ensures lruList.nodes[j] in Repr && Describes(contents[j], lruList.nodes[j]) {
        var k := if j == 0 then i else if j <= i then j - 1 else j;
        assert contents[j] == was[k] && lruList.nodes[j] == nodes[k];
        assert old(Describes(was[k], nodes[k]));
      }
    }

    /** A new entry with its node in front keeps them in step. */
    twostate lemma EntryAdded(key: string, new entry: CacheEntry<V>)
      requires old(Valid()) && key !in old(data) && |old(contents)| < maxSize
      requires lruList == old(lruList) && lruList.Valid() && data == old(data)[key := entry]
      requires lruList.nodes == [entry.element] + old(lruList.nodes) && entry.element.value == key
      requires contents == [Item(key, entry.value, entry.expiry)] + old(contents)
      requires Repr == old(Repr) + {entry, entry.element}
      requires forall k :: k in old(data) ==> unchanged(old(data)[k])
      ensures Valid()
    {
      hide RingList.Valid, RingList.Linked;
      ghost var nodes, was := old(lruList.nodes), old(contents);
      forall j | 0 <= j < |contents| ensures lruList.nodes[j] in Repr && Describes(contents[j], lruList.nodes[j]) {
        if j > 0 { assert old(Describes(was[j - 1], nodes[j - 1])); }
      }
    }

    method MoveToFront(key: string, entry: CacheEntry<V>)
      requires Valid() && key in data && data[key] == entry
      modifies this, lruList, lruList.root, lruList.nodes
      ensures Valid() && Repr == old(Repr) && data == old(data)
      ensures contents == [Item(key, entry.value, entry.expiry)] + Without(old(contents), key)
    {
      ghost var i := Position(key);
      ghost var nodes := lruList.nodes;
      hide RingList.Valid, RingList.Linked, Valid;
      lruList.MoveToFront(entry.element);
      assert lruList.nodes == [nodes[i]] + Removed(nodes, i);
      contents := [contents[i]] + (contents[..i] + contents[i + 1..]);
      EntryMoved(i);
    }

    /** Overwrites an entry in place; its position does not change. */
    method Overwrite(key: string, entry: CacheEntry<V>, value: V, expiry: int)
      requires Valid() && key in data && data[key] == entry
      modifies this`contents, entry
      ensures Valid() && Find(contents, key) == Some(Item(key, value, expiry))
      ensures Without(contents, key) == Without(old(contents), key)
      ensures entry.value == value && entry.expiry == expiry
    {
      ghost var i := Position(key);
      ghost var was := contents;
      hide RingList.Valid, RingList.Linked;
      forall j | 0 <= j < |contents|
          ensures Describes(was[j], lruList.nodes[j]) && (j != i ==> data[lruList.nodes[j].value] != entry) {
        assert Describes(was[j], lruList.nodes[j]);
      }
      entry.value, entry.expiry := value, expiry;
      contents := contents[i := Item(key, value, expiry)];
      SameKeysDistinct(was, contents);
      WithoutAt(contents, i);
    }

    /** Looks `key` up at the instant `now`: a hit moves to the front, an expired entry is dropped. */
    method Get(key: string, now: int) returns (r: Option<V>)
      requires Valid()
      modifies Repr
      ensures Valid() && Repr == old(Repr)
      ensures contents == AfterGet(old(contents), key, now) && r == Answer(old(contents), key, now)
    {
      hide RingList.Valid, RingList.Linked, Describes;
      if key !in data {
        Absent(key);
        return None;
      }
      ghost var i := Position(key);
      var entry := data[key];
      if now > entry.expiry {
        RemoveEntry(key, entry);
        return None;
      }
      MoveToFront(key, entry);
      return Some(entry.value);
    }

    method Set(key: string, value: V, now: int)
      requires Valid()
      modifies Repr
      ensures Valid() && fresh(Repr - old(Repr))
      ensures contents == AfterSet(old(contents), maxSize, key, value, now + ttl)
    {
      SetWithTTL(key, value, ttl, now);
    }

    method SetWithTTL(key: string, value: V, ttl: int, now: int)
      requires Valid()
      modifies Repr
      ensures Valid() && fresh(Repr - old(Repr))
      ensures contents == AfterSet(old(contents), maxSize, key, value, now + ttl)
    {
      hide RingList.Valid, RingList.Linked, Describes;
      var expiry := now + ttl;
      if key in data {
        Refresh(key, value, expiry);
        return;
      }
      Absent(key);
      SizesAgree();
      if |data| >= maxSize {
        EvictLRU();
      }
      AddEntry(key, value, expiry);
    }

    /** The key is there: its entry is overwritten and becomes the most recently used. */
    method Refresh(key: string, value: V, expiry: int)
      requires Valid() && key in data
      modifies Repr
      ensures Valid() && Repr == old(Repr)
      ensures Find(old(contents), key).Some?
      ensures contents == [Item(key, value, expiry)] + Without(old(contents), key)
    {
      hide RingList.Valid, RingList.Linked, Describes;
      ghost var i := Position(key);
      var entry := data[key];
      Overwrite(key, entry, value, expiry);
      MoveToFront(key, entry);
    }

    method AddEntry(key: string, value: V, expiry: int)
      requires Valid() && key !in data && |contents| < maxSize
      modifies this, lruList, lruList.root, lruList.nodes
      ensures Valid() && fresh(Repr - old(Repr))
      ensures contents == [Item(key, value, expiry)] + old(contents)
    {
      hide RingList.Linked;
      var elem := lruList.PushFront(key);
      var entry := new CacheEntry(value, expiry, elem);
      data := data[key := entry];
      contents := [Item(key, value, expiry)] + contents;
      Repr := Repr + {entry, elem};
      EntryAdded(key, entry);
    }

    /** Drops the least recently used entry. */
    method EvictLRU()
      requires Valid()
      modifies this, lruList, lruList.root, lruList.nodes
      ensures Valid() && Repr == old(Repr)
      ensures if old(contents) == [] then contents == [] else contents == old(contents)[..|old(contents)| - 1]
      ensures data.Keys <= old(data.Keys)
    {
      var elem := lruList.Back();
      if elem != null {
        ghost var last := |contents| - 1;
        assert Describes(contents[last], lruList.nodes[last]);
        KeysDistinct();
        WithoutAt(contents, last);
        RemoveEntry(elem.value, data[elem.value]);
      }
    }

    method Delete(key: string)
      requires Valid()
      modifies Repr
      ensures Valid() && Repr == old(Repr)
      ensures contents == Without(old(contents), key)
    {
      if key in data {
        ghost var i := Position(key);
        RemoveEntry(key, data[key]);
      } else {
        Absent(key);
        WithoutAbsent(contents, key);
      }
    }

    method Clear()
      requires Valid()
      modifies this
      ensures Valid() && fresh(Repr - old(Repr))
      ensures contents == []
    {
      data := map[];
      lruList := new RingList();
      contents := [];
      Repr := Repr + {lruList, lruList.root};
    }

    method Size() returns (n: nat)
      requires Valid()
      ensures n == |contents|
    {
      SizesAgree();
      n := |data|;
    }
  }

  ghost function KeySet<V>(l: Order<V>): set<string> {
    set i | 0 <= i < |l| :: l[i].key
  }

  lemma {:induction false} KeyCount<V>(l: Order<V>)
    requires Distinct(l)
    ensures |KeySet(l)| == |l|
  {
    if l != [] {
      var init := l[..|l| - 1];
      KeyCount(init);
      assert KeySet(l) == KeySet(init) + {l[|l| - 1].key};
    }
  }
}
