/** The prepared-statement cache: two maps and the recency list, kept in step with `StatementSpec`. */
module StatementCache {
  import opened Text
  import opened LinkedList
  import opened Recency
  import opened StatementSpec
  import opened LruCache

  /** The entry is what the two maps hold for the node's query. */
  ghost predicate Describing(item: Item<nat>, n: Element, cache: map<string, nat>, elements: map<string, Element>) {
    n.value in cache && n.value in elements && elements[n.value] == n && item == Item(n.value, cache[n.value], 0)
  }

  /** It still is when another query leaves the maps. */
  lemma StillDescribing(item: Item<nat>, n: Element, cache: map<string, nat>, elements: map<string, Element>,
      gone: string)
    requires Describing(item, n, cache, elements)
    ensures item.key == n.value
    ensures item.key != gone ==> Describing(item, n, cache - {gone}, elements - {gone})
  {
  }

  class Client {
    var stmtCache: map<string, nat>
    var stmtLRU: RingList
    var stmtElements: map<string, Element>
    /** The database's side: how many statements it has prepared, and which have been closed. */
    var prepared: nat
    ghost var closed: multiset<nat>
    /** The abstract value: the cached statements from most to least recently used. */
    ghost var entries: Order<nat>
    ghost var Repr: set<object>

    ghost predicate Describes(item: Item<nat>, n: Element)
      reads this
    {
      Describing(item, n, stmtCache, stmtElements)
    }

    /** The two maps and the list hold the same queries. */
    ghost predicate Valid()
      reads this, Repr
    {
      && this in Repr && stmtLRU in Repr && stmtLRU.root in Repr
      && (forall i :: 0 <= i < |stmtLRU.nodes| ==> stmtLRU.nodes[i] in Repr)
      && stmtLRU.Valid() && stmtCache.Keys == stmtElements.Keys
      && (forall q :: q in stmtElements ==> stmtElements[q] in stmtLRU.nodes && stmtElements[q].value == q)
      && |entries| == |stmtLRU.nodes|
      && (forall i {:trigger entries[i]} {:trigger stmtLRU.nodes[i]} :: 0 <= i < |entries| ==>
          Describes(entries[i], stmtLRU.nodes[i]))
    }

    ghost function Value(): State
      reads this
    {
      State(entries, prepared, closed)
    }

    constructor ()
      ensures Valid() && fresh(Repr) && Value() == Start
    {
      stmtCache, stmtElements, prepared := map[], map[], 0;
      var list := new RingList();
      stmtLRU := list;
      closed, entries := multiset{}, [];
      Repr := {this, list, list.root};
    }

    /** Where a cached query stands in the recency order. */
    lemma Position(query: string) returns (i: nat)
      requires Valid() && query in stmtElements
      ensures i < |entries| && stmtLRU.nodes[i] == stmtElements[query] && entries[i] == Item(query, stmtCache[query], 0)
      ensures Find(entries, query) == Some(entries[i]) && Without(entries, query) == entries[..i] + entries[i + 1..]
      ensures stmtLRU.Valid() && |stmtLRU.nodes| == |entries| && NoDuplicates(stmtLRU.nodes)
    {
      i :| 0 <= i < |stmtLRU.nodes| && stmtLRU.nodes[i] == stmtElements[query];
      assert Describes(entries[i], stmtLRU.nodes[i]);
      QueriesDistinct();
      WithoutAt(entries, i);
    }

    lemma QueriesDistinct()
      requires Valid()
      ensures Distinct(entries)
    {
      forall i, j | 0 <= i < j < |entries| ensures entries[i].key != entries[j].key {
        assert Describes(entries[i], stmtLRU.nodes[i]) && Describes(entries[j], stmtLRU.nodes[j]);
      }
    }

    lemma Absent(query: string)
      requires Valid() && query !in stmtCache
      ensures Find(entries, query) == None
    {
      FindIsIn(entries, query);
      forall i | 0 <= i < |entries| ensures entries[i].key != query {
        assert Describes(entries[i], stmtLRU.nodes[i]);
      }
    }

    lemma SizesAgree()
      requires Valid()
      ensures |stmtCache| == |entries|
    {
      QueriesDistinct();
      KeyCount(entries);
      QueriesAreKeys();
      assert |stmtCache| == |stmtCache.Keys|;
    }

    /** Moving the `i`-th query to the front in list and entries keeps them in step. */
    twostate lemma EntryMoved(i: nat)
      requires old(Valid()) && i < |old(entries)|
      requires Repr == old(Repr) && stmtLRU == old(stmtLRU) && stmtLRU.Valid()
      requires stmtCache == old(stmtCache) && stmtElements == old(stmtElements)
      requires stmtLRU.nodes == [old(stmtLRU.nodes)[i]] + Removed(old(stmtLRU.nodes), i)
      requires entries == [old(entries)[i]] + (old(entries)[..i] + old(entries)[i + 1..])
      ensures Valid()
    {
      hide RingList.Valid, RingList.Linked;
      ghost var nodes, was := old(stmtLRU.nodes), old(entries);
      forall j | 0 <= j < |entries| ensures stmtLRU.nodes[j] in Repr && Describes(entries[j], stmtLRU.nodes[j]) {
        var k := if j == 0 then i else if j <= i then j - 1 else j;
        assert old(Describes(was[k], nodes[k]));
      }
    }

    /** Taking the `i`-th query out of maps, list and entries keeps them in step. */
    twostate lemma EntryGone(i: nat)
      requires old(Valid()) && i < |old(entries)| && Distinct(old(entries))
      requires Repr == old(Repr) && stmtLRU == old(stmtLRU) && stmtLRU.Valid()
      requires stmtLRU.nodes == Removed(old(stmtLRU.nodes), i) && entries == old(entries)[..i] + old(entries)[i + 1..]
      requires stmtCache == old(stmtCache) - {old(entries)[i].key}
      requires stmtElements == old(stmtElements) - {old(entries)[i].key}
      ensures Valid()
    {
      hide RingList.Valid, RingList.Linked, Describing;
      ghost var nodes, was := old(stmtLRU.nodes), old(entries);
      assert old(Describes(was[i], nodes[i]));
      StillDescribing(was[i], nodes[i], old(stmtCache), old(stmtElements), "");
      forall j | 0 <= j < |entries| ensures stmtLRU.nodes[j] in Repr && Describes(entries[j], stmtLRU.nodes[j]) {
        var k := if j < i then j else j + 1;
        assert old(Describes(was[k], nodes[k]));
        StillDescribing(was[k], nodes[k], old(stmtCache), old(stmtElements), was[i].key);
      }
    }

    /** Moves a cached query to the front. */
    method MoveToFront(query: string)
      requires Valid() && query in stmtElements
      modifies this`entries, stmtLRU, stmtLRU.root, stmtLRU.nodes
      ensures Valid() && entries == AfterGet(old(entries), query, 0)
    {
      ghost var i := Position(query);
      ghost var nodes := stmtLRU.nodes;
      hide RingList.Valid, RingList.Linked, Valid;
      stmtLRU.MoveToFront(stmtElements[query]);
      assert stmtLRU.nodes == [nodes[i]] + Removed(nodes, i);
      entries := [entries[i]] + (entries[..i] + entries[i + 1..]);
      EntryMoved(i);
    }

    /** Takes a cached query out of the list and both maps and closes its statement. */
    method Drop(query: string)
      requires Valid() && query in stmtElements && query in stmtCache
      modifies this`entries, this`stmtCache, this`stmtElements, this`closed, stmtLRU, stmtLRU.root, stmtLRU.nodes
      ensures Valid() && Find(old(entries), query).Some? && stmtCache.Keys <= old(stmtCache.Keys)
      ensures entries == Without(old(entries), query)
      ensures closed == old(closed) + multiset{Find(old(entries), query).value.value}
    {
      ghost var i := Position(query);
      QueriesDistinct();
      hide *;
      closed := closed + multiset{stmtCache[query]};
      Detach(query, i);
    }

    /** Takes the `i`-th query out of the list and both maps. */
    method Detach(query: string, ghost i: nat)
      requires Valid() && i < |entries| == |stmtLRU.nodes|
      requires query in stmtElements && stmtLRU.nodes[i] == stmtElements[query]
      requires stmtLRU.Valid() && NoDuplicates(stmtLRU.nodes) && Distinct(entries) && entries[i].key == query
      modifies this`entries, this`stmtCache, this`stmtElements, stmtLRU, stmtLRU.root, stmtLRU.nodes
      ensures Valid() && entries == old(entries)[..i] + old(entries)[i + 1..] && stmtCache == old(stmtCache) - {query}
    {
      ghost var nodes := stmtLRU.nodes;
      hide RingList.Valid, RingList.Linked, Valid, Distinct, Describes;
      stmtLRU.Remove(stmtElements[query]);
      assert stmtLRU.nodes == Removed(nodes, i);
      stmtElements := stmtElements - {query};
      stmtCache := stmtCache - {query};
      entries := entries[..i] + entries[i + 1..];
      EntryGone(i);
    }

    /** Closes the least recently used statement. */
    method EvictLRU()
      requires Valid()
      modifies this`entries, this`stmtCache, this`stmtElements, this`closed, stmtLRU, stmtLRU.root, stmtLRU.nodes
      ensures Valid() && prepared == old(prepared) && stmtCache.Keys <= old(stmtCache.Keys)
      ensures old(entries) == [] ==> entries == [] && closed == old(closed)
      ensures old(entries) != [] ==>
                entries == old(entries)[..|old(entries)| - 1]
                && closed == old(closed) + multiset{old(entries)[|old(entries)| - 1].value}
    {
      hide RingList.Valid, RingList.Linked;
      var elem := stmtLRU.Back();
      if elem == null {
        return;
      }
      ghost var last := |entries| - 1;
      assert Describes(entries[last], stmtLRU.nodes[last]);
      QueriesDistinct();
      WithoutAt(entries, last);
      hide Valid, Find, Without;
      Drop(elem.value);
    }

    /** The first phase of the fast path, under the read lock. */
    method Peek(query: string) returns (stmt: Option<nat>)
      requires Valid()
      ensures stmt == match Find(entries, query) case None => None case Some(item) => Some(item.value)
    {
      if query in stmtCache {
        ghost var i := Position(query);
        return Some(stmtCache[query]);
      }
      Absent(query);
      return None;
    }

    /** The second phase of the fast path, under the write lock. */
    method TouchPhase(query: string)
      requires Valid()
      modifies this`entries, stmtLRU, stmtLRU.root, stmtLRU.nodes
      ensures Valid() && Value() == Step(old(Value()), Touch(query))
    {
      if query in stmtElements {
        MoveToFront(query);
      } else {
        Absent(query);
      }
    }

    /** Makes room for one more statement. */
    method MakeRoom()
      requires Valid()
      modifies Repr
      ensures Valid() && Repr == old(Repr) && prepared == old(prepared) && stmtCache.Keys <= old(stmtCache.Keys)
      ensures entries == Evicted(old(entries), MaxPreparedStmts) && closed == old(closed) + Victim(old(entries))
    {
      SizesAgree();
      if |stmtCache| >= MaxPreparedStmts {
        EvictLRU();
      }
    }

    /** The slow path, under the write lock; `ok` says whether the database prepares the query. */
    method PreparePhase(query: string, ok: bool) returns (stmt: Option<nat>)
      requires Valid()
      modifies Repr
      ensures Valid() && fresh(Repr - old(Repr)) && Value() == Step(old(Value()), Prepare(query, ok))
      ensures stmt.Some? <==> query in old(stmtCache) || ok
      ensures stmt.Some? ==> Find(entries, query) == Some(Item(query, stmt.value, 0))
    {
      hide RingList.Valid, RingList.Linked, Describes;
      if query in stmtCache {
        ghost var i := Position(query);
        stmt := Some(stmtCache[query]);
        MoveToFront(query);
        return;
      }
      Absent(query);
      hide Find, Evicted, Victim, Without, AfterGet;
      MakeRoom();
      if !ok {
        return None;
      }
      stmt := Some(prepared);
      Insert(query);
    }

    /** A new query with its node in front keeps maps, list and entries in step. */
    twostate lemma EntryAdded(query: string, new elem: Element)
      requires old(Valid()) && query !in old(stmtCache) && elem.value == query
      requires stmtLRU == old(stmtLRU) && stmtLRU.Valid() && stmtLRU.nodes == [elem] + old(stmtLRU.nodes)
      requires stmtCache == old(stmtCache)[query := old(prepared)] && stmtElements == old(stmtElements)[query := elem]
      requires entries == [Item(query, old(prepared), 0)] + old(entries) && Repr == old(Repr) + {elem}
      ensures Valid()
    {
      hide RingList.Valid, RingList.Linked;
      ghost var nodes, was := old(stmtLRU.nodes), old(entries);
      forall j | 0 <= j < |entries| ensures stmtLRU.nodes[j] in Repr && Describes(entries[j], stmtLRU.nodes[j]) {
        if j > 0 { assert old(Describes(was[j - 1], nodes[j - 1])); }
      }
    }

    /** Enters a freshly prepared statement. */
    method Insert(query: string)
      requires Valid() && query !in stmtCache
      modifies this, stmtLRU, stmtLRU.root, stmtLRU.nodes
      ensures Valid() && fresh(Repr - old(Repr))
      ensures Value() == State([Item(query, old(prepared), 0)] + old(entries), old(prepared) + 1, old(closed))
      ensures Find(entries, query) == Some(Item(query, old(prepared), 0))
    {
      hide RingList.Valid, RingList.Linked, Describes;
      stmtCache := stmtCache[query := prepared];
      var elem := stmtLRU.PushFront(query);
      stmtElements := stmtElements[query := elem];
      entries := [Item(query, prepared, 0)] + entries;
      Repr := Repr + {elem};
      prepared := prepared + 1;
      EntryAdded(query, elem);
    }

    /** PreparedStmt with no other caller in between. */
    method PreparedStmt(query: string, ok: bool) returns (stmt: Option<nat>)
      requires Valid()
      modifies Repr
      ensures Valid() && fresh(Repr - old(Repr))
      ensures Value() == Step(old(Value()), Prepare(query, ok))
    {
      hide RingList.Valid, RingList.Linked, Describes, AfterGet;
      stmt := Peek(query);
      if stmt.Some? {
        TouchPhase(query);
        return;
      }
      stmt := PreparePhase(query, ok);
    }

    /** Drops the statement when the database's error code calls it invalid. */
    method RemoveInvalidStmt(query: string, code: Option<string>)
      requires Valid()
      modifies this, stmtLRU, stmtLRU.root, stmtLRU.nodes
      ensures Valid() && Repr == old(Repr)
      ensures Value() == if code == Some("26000") || code == Some("42P14") then Step(old(Value()), Invalidate(query))
                         else old(Value())
    {
      if code == Some("26000") || code == Some("42P14") {
        if query in stmtCache {
          Drop(query);
        } else {
          Absent(query);
        }
      }
    }

    /** Every cached statement is closed, in the order the map happens to yield them. */
    method CloseStatements()
      requires Remaining(entries, stmtCache.Keys, stmtCache)
      modifies this`closed
      ensures closed == old(closed) + Handles(entries)
    {
      hide *;
      var queries := stmtCache.Keys;
      ghost var left := entries;
      while queries != {}
        invariant queries <= stmtCache.Keys && Remaining(left, queries, stmtCache)
        invariant closed + Handles(left) == old(closed) + Handles(entries)
      {
        var query :| query in queries;
        OneLess(left, queries, stmtCache, query);
        closed := closed + multiset{stmtCache[query]};
        queries := queries - {query};
        left := Without(left, query);
      }
      NoneRemain(left, stmtCache);
    }

    lemma AllRemain()
      requires Valid()
      ensures Remaining(entries, stmtCache.Keys, stmtCache)
    {
      QueriesDistinct();
      forall q | q in stmtCache ensures Find(entries, q) == Some(Item(q, stmtCache[q], 0)) { var _ := Position(q); }
      forall q | q !in stmtCache ensures Find(entries, q).None? { Absent(q); }
    }

    lemma QueriesAreKeys()
      requires Valid()
      ensures stmtCache.Keys == KeySet(entries)
    {
      forall q | q in stmtCache ensures q in KeySet(entries) {
        var i := Position(q);
        assert entries[i].key == q;
      }
      forall i | 0 <= i < |entries| ensures entries[i].key in stmtCache {
        assert Describes(entries[i], stmtLRU.nodes[i]);
      }
    }

    method Close()
      requires Valid()
      modifies this
      ensures Valid() && fresh(Repr - old(Repr) - {this}) && Value() == Step(old(Value()), CloseAll)
    {
      AllRemain();
      hide Handles, Remaining, Valid;
      CloseStatements();
      Reset();
    }

    /** All three structures start afresh. */
    method Reset()
      modifies this`stmtCache, this`stmtElements, this`entries, this`stmtLRU, this`Repr
      ensures Valid() && fresh(Repr - old(Repr) - {this}) && entries == []
    {
      stmtCache, stmtElements, entries := map[], map[], [];
      stmtLRU := new RingList();
      Repr := Repr + {this, stmtLRU, stmtLRU.root};
    }
  }

  /** The queries are those of the entries, with the statements the map holds for them. */
  ghost predicate Remaining(l: Order<nat>, queries: set<string>, cache: map<string, nat>) {
    && Distinct(l)
    && forall q :: if q in queries then q in cache && Find(l, q) == Some(Item(q, cache[q], 0)) else Find(l, q).None?
  }

  lemma {:induction false} FindWithout(l: Order<nat>, key: string, q: string)
    requires Distinct(l)
    ensures Find(Without(l, key), q) == if q == key then None else Find(l, q)
  {
    if l != [] {
      if l[0].key == key { FindIsIn(l[1..], key); } else { FindWithout(l[1..], key, q); }
    }
  }

  lemma OneLess(l: Order<nat>, queries: set<string>, cache: map<string, nat>, query: string)
    requires Remaining(l, queries, cache) && query in queries
    ensures query in cache && Remaining(Without(l, query), queries - {query}, cache)
    ensures Handles(Without(l, query)) + multiset{cache[query]} == Handles(l)
  {
    WithoutKeeps(l, query);
    HandlesWithout(l, query);
    forall q ensures Find(Without(l, query), q) == if q == query then None else Find(l, q) { FindWithout(l, query, q); }
    hide Without, Find, Handles, Distinct;
  }

  lemma NoneRemain(l: Order<nat>, cache: map<string, nat>)
    requires Remaining(l, {}, cache)
    ensures Handles(l) == multiset{}
  {
    if l != [] { FindsFirst(l); }
  }

  lemma FindsFirst(l: Order<nat>)
    requires l != []
    ensures Find(l, l[0].key).Some?
  {
  }
}
