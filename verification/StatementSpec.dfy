/** The prepared-statement cache as atomic sections, which callers interleave in any order. */
module StatementSpec {
  import opened Text
  import opened Recency

  const MaxPreparedStmts := 500

  /** `entries` holds the cached statements by query, most recently used first; statements are handles, numbered
      as they are prepared; `closed` counts how often each has been closed. */
  datatype State = State(entries: Order<nat>, prepared: nat, closed: multiset<nat>)

  const Start := State([], 0, multiset{})

  /** `Touch` is the second phase of the fast path, `Prepare` the slow path, which succeeds at the database or not. */
  datatype Op = Touch(query: string) | Prepare(query: string, ok: bool) | Invalidate(query: string) | CloseAll

  function Handles(l: Order<nat>): multiset<nat> {
    if l == [] then multiset{} else multiset{l[0].value} + Handles(l[1..])
  }

  /** The statement that must go to make room. */
  function Victim(l: Order<nat>): multiset<nat> {
    if |l| >= MaxPreparedStmts && l != [] then multiset{l[|l| - 1].value} else multiset{}
  }

  /** Room is made before the database is asked, and stays made when it refuses. */
  function Prepared(s: State, query: string, ok: bool): State {
    if Find(s.entries, query).Some? then s.(entries := AfterGet(s.entries, query, 0))
    else
      var room := State(Evicted(s.entries, MaxPreparedStmts), s.prepared, s.closed + Victim(s.entries));
      if ok then State([Item(query, s.prepared, 0)] + room.entries, s.prepared + 1, room.closed) else room
  }

  function Step(s: State, op: Op): State {
    match op
    case Touch(query) => s.(entries := AfterGet(s.entries, query, 0))
    case Prepare(query, ok) => Prepared(s, query, ok)
    case Invalidate(query) =>
      (match Find(s.entries, query)
       case None => s
       case Some(item) => s.(entries := Without(s.entries, query), closed := s.closed + multiset{item.value}))
    case CloseAll => State([], s.prepared, s.closed + Handles(s.entries))
  }

  function Run(ops: seq<Op>): State {
    if ops == [] then Start else Step(Run(ops[..|ops| - 1]), ops[|ops| - 1])
  }

  // ----- accounting -----

  /** The handles below `n`, each once. */
  function UpTo(n: nat): multiset<nat> { if n == 0 then multiset{} else UpTo(n - 1) + multiset{n - 1} }

  lemma {:induction false} UpToCounts(n: nat, id: nat)
    ensures UpTo(n)[id] == if id < n then 1 else 0
    ensures |UpTo(n)| == n
  {
    if n > 0 { UpToCounts(n - 1, id); }
  }

  ghost predicate Accounted(s: State) {
    && Distinct(s.entries) && |s.entries| <= MaxPreparedStmts
    && (forall i :: 0 <= i < |s.entries| ==> s.entries[i].expiry == 0)
    && Handles(s.entries) + s.closed == UpTo(s.prepared)
  }

  lemma {:induction false} HandlesWithout(l: Order<nat>, key: string)
    ensures match Find(l, key)
            case None => Without(l, key) == l
            case Some(item) => Handles(Without(l, key)) + multiset{item.value} == Handles(l)
  {
    if l == [] {
    } else if l[0].key != key {
      HandlesWithout(l[1..], key);
      assert ([l[0]] + Without(l[1..], key))[1..] == Without(l[1..], key);
    }
  }

  lemma {:induction false} HandlesInit(l: Order<nat>)
    requires l != []
    ensures Handles(l[..|l| - 1]) + multiset{l[|l| - 1].value} == Handles(l)
  {
    if |l| > 1 {
      HandlesInit(l[1..]);
      assert l[..|l| - 1][1..] == l[1..][..|l[1..]| - 1];
    } else {
      assert Handles(l[1..]) == multiset{};
    }
  }

  lemma {:induction false} HandlesCount(l: Order<nat>)
    ensures |Handles(l)| == |l|
  {
    if l != [] { HandlesCount(l[1..]); }
  }

  lemma TouchAccounted(s: State, query: string)
    requires Accounted(s)
    ensures Accounted(s.(entries := AfterGet(s.entries, query, 0)))
  {
    hide UpTo;
    AfterKeepsValid(s.entries, MaxPreparedStmts, Timed(0, Get(query)));
    FindIsIn(s.entries, query);
    WithoutKeeps(s.entries, query);
    if Find(s.entries, query).Some? {
      TouchKeepsHandles(s.entries, query);
      hide Find, Without, Handles, Distinct;
    }
  }

  lemma TouchKeepsHandles(l: Order<nat>, query: string)
    requires Find(l, query).Some?
    ensures Handles([Find(l, query).value] + Without(l, query)) == Handles(l)
  {
    HandlesWithout(l, query);
    var rest := Without(l, query);
    hide Find, Without;
    assert ([Find(l, query).value] + rest)[1..] == rest;
  }

  lemma RoomAccounted(s: State)
    requires Accounted(s)
    ensures var room := State(Evicted(s.entries, MaxPreparedStmts), s.prepared, s.closed + Victim(s.entries));
            Accounted(room) && |room.entries| < MaxPreparedStmts
  {
    VictimIsEvicted(s.entries);
    hide UpTo, Handles, Victim;
    assert Handles(Evicted(s.entries, MaxPreparedStmts)) + (s.closed + Victim(s.entries))
        == Handles(s.entries) + s.closed;
  }

  lemma VictimIsEvicted(l: Order<nat>)
    ensures Handles(Evicted(l, MaxPreparedStmts)) + Victim(l) == Handles(l)
  {
    if l != [] { HandlesInit(l); }
  }

  lemma InsertAccounted(s: State, query: string)
    requires Accounted(s) && |s.entries| < MaxPreparedStmts
    requires forall i :: 0 <= i < |s.entries| ==> s.entries[i].key != query
    ensures Accounted(State([Item(query, s.prepared, 0)] + s.entries, s.prepared + 1, s.closed))
  {
    var l := [Item(query, s.prepared, 0)] + s.entries;
    assert l[1..] == s.entries;
    AddFront(Item(query, s.prepared, 0), s.entries);
  }

  lemma StepAccounted(s: State, op: Op)
    requires Accounted(s)
    ensures Accounted(Step(s, op))
  {
    hide UpTo, Handles, Distinct;
    match op
    case Touch(query) => TouchAccounted(s, query);
    case Prepare(query, ok) =>
      FindIsIn(s.entries, query);
      if Find(s.entries, query).Some? {
        TouchAccounted(s, query);
      } else {
        RoomAccounted(s);
        if ok {
          InsertAccounted(State(Evicted(s.entries, MaxPreparedStmts), s.prepared, s.closed + Victim(s.entries)), query);
        }
      }
    case Invalidate(query) =>
      HandlesWithout(s.entries, query);
      WithoutKeeps(s.entries, query);
    case CloseAll => NoneLeft(s);
  }

  lemma NoneLeft(s: State)
    requires Accounted(s)
    ensures Accounted(Step(s, CloseAll))
  {
    assert multiset{} + (s.closed + Handles(s.entries)) == Handles(s.entries) + s.closed;
  }

  /** In every interleaving, at most `MaxPreparedStmts` queries are cached, each once, and the statements
      prepared are exactly the cached ones and the closed ones, none of them twice. */
  lemma {:induction false} StatementsAccounted(ops: seq<Op>)
    ensures Accounted(Run(ops))
  {
    if ops != [] {
      StatementsAccounted(ops[..|ops| - 1]);
      StepAccounted(Run(ops[..|ops| - 1]), ops[|ops| - 1]);
    }
  }

  /** Prepared minus closed is cached; nothing is closed twice; a prepared statement is open exactly while cached. */
  lemma Conservation(ops: seq<Op>, id: nat)
    ensures var s := Run(ops);
            && s.prepared == |s.closed| + |s.entries| && |s.entries| <= 500 && s.closed[id] <= 1
            && (id < s.prepared ==> (id !in s.closed <==> id in Handles(s.entries)))
  {
    var s := Run(ops);
    StatementsAccounted(ops);
    HandlesCount(s.entries);
    UpToCounts(s.prepared, id);
    hide Run, UpTo, Handles;
    assert (Handles(s.entries) + s.closed)[id] == Handles(s.entries)[id] + s.closed[id];
    assert |Handles(s.entries) + s.closed| == |s.entries| + |s.closed|;
  }

  // ----- the fast path -----

  /** The queries of the statements prepared so far, in order: handle `h` was prepared for the `h`-th. */
  function QueriesPrepared(ops: seq<Op>): seq<string> {
    if ops == [] then []
    else
      var n := |ops| - 1;
      QueriesPrepared(ops[..n]) + if Run(ops).prepared > Run(ops[..n]).prepared then [ops[n].query] else []
  }

  /** Every cached statement is cached under the query it was prepared for. */
  ghost predicate UnderOwnQuery(entries: Order<nat>, queries: seq<string>) {
    forall item :: item in entries ==> item.value < |queries| && queries[item.value] == item.key
  }

  lemma StepOwnQuery(s: State, op: Op, queries: seq<string>)
    requires UnderOwnQuery(s.entries, queries) && |queries| == s.prepared
    ensures var t := Step(s, op);
            && (t.prepared == s.prepared || (t.prepared == s.prepared + 1 && op.Prepare?))
            && UnderOwnQuery(t.entries, queries + if t.prepared > s.prepared then [op.query] else [])
  {
    var t := Step(s, op);
    var more := if t.prepared > s.prepared then [op.query] else [];
    forall item | item in t.entries ensures item.value < |queries + more| && (queries + more)[item.value] == item.key {
      if item !in s.entries { NewEntry(s, op, item); }
    }
  }

  /** An entry that a step adds is the statement it has just prepared. */
  lemma NewEntry(s: State, op: Op, item: Item<nat>)
    requires item in Step(s, op).entries && item !in s.entries
    ensures op.Prepare? && item.key == op.query && item.value == s.prepared && Step(s, op).prepared == s.prepared + 1
  {
    if op.Touch? || op.Prepare? {
      FindIsIn(s.entries, op.query);
      if item in Without(s.entries, op.query) { InWithout(s.entries, op.query, item); }
    }
    if op.Invalidate? && item in Without(s.entries, op.query) { InWithout(s.entries, op.query, item); }
    hide Find, Without, Handles;
  }

  lemma {:induction false} EntriesUnderOwnQuery(ops: seq<Op>)
    ensures |QueriesPrepared(ops)| == Run(ops).prepared && UnderOwnQuery(Run(ops).entries, QueriesPrepared(ops))
  {
    if ops != [] {
      hide Step;
      EntriesUnderOwnQuery(ops[..|ops| - 1]);
      StepOwnQuery(Run(ops[..|ops| - 1]), ops[|ops| - 1], QueriesPrepared(ops[..|ops| - 1]));
    }
  }

  lemma {:induction false} QueriesStay(ops: seq<Op>, more: seq<Op>)
    ensures QueriesPrepared(ops) <= QueriesPrepared(ops + more)
  {
    if more == [] {
      assert ops + more == ops;
    } else {
      var n := |more| - 1;
      assert (ops + more)[..|ops + more| - 1] == ops + more[..n];
      hide Run;
      QueriesStay(ops, more[..n]);
    }
  }

  lemma {:induction false} InHandles(l: Order<nat>, h: nat)
    ensures h in Handles(l) <==> exists item :: item in l && item.value == h
  {
    if l != [] {
      InHandles(l[1..], h);
      assert forall item :: item in l <==> item == l[0] || item in l[1..];
      assert l[0] in l;
    }
  }

  /** The fast path exactly: the statement read for `query` is still open, whatever has happened since, if and
      only if the query is still, and has not meanwhile been dropped and prepared anew, cached with it. */
  lemma FastPathIsOpenExactly(ops: seq<Op>, more: seq<Op>, query: string)
    requires Find(Run(ops).entries, query).Some?
    ensures var h, later := Find(Run(ops).entries, query).value.value, Run(ops + more);
            && (h !in later.closed <==> Find(later.entries, query) == Some(Item(query, h, 0)))
            && Run(ops + more + [Touch(query)]).closed == later.closed
  {
    var h, later := Find(Run(ops).entries, query).value.value, Run(ops + more);
    FindIsIn(Run(ops).entries, query);
    EntriesUnderOwnQuery(ops);
    EntriesUnderOwnQuery(ops + more);
    QueriesStay(ops, more);
    Conservation(ops + more, h);
    InHandles(later.entries, h);
    FindIsIn(later.entries, query);
    StatementsAccounted(ops + more);
    assert (ops + more + [Touch(query)])[..|ops + more|] == ops + more;
    hide Run, Find, Handles, Distinct, QueriesPrepared;
    forall item | item in later.entries && item.value == h
        ensures Find(later.entries, query) == Some(Item(query, h, 0)) {
      FindByKey(later.entries, item);
      EntryExpiry(later, item);
    }
  }

  lemma EntryExpiry(s: State, item: Item<nat>)
    requires Accounted(s) && item in s.entries
    ensures item.expiry == 0 && Distinct(s.entries)
  {
  }

  /** The fast path reads the statement, loses the lock and takes it again: by then the statement it goes on
      to return may have been closed. */
  lemma FastPathMayReturnClosed()
    ensures exists ops, more: Op, query ::
              && Find(Run(ops).entries, query).Some?
              && Find(Run(ops).entries, query).value.value in Run(ops + [more] + [Touch(query)]).closed
  {
    var ops, more, touch := [Prepare("q", true)], Invalidate("q"), Touch("q");
    assert ops[..0] == [] && Run([]) == Start;
    assert Run(ops) == State([Item("q", 0, 0)], 1, multiset{}) by {
      assert Find<nat>([], "q") == None && Evicted<nat>([], MaxPreparedStmts) == [] && Victim([]) == multiset{};
      assert [Item("q", 0, 0)] + [] == [Item("q", 0, 0)];
    }
    assert (ops + [more])[..1] == ops && (ops + [more] + [touch])[..2] == ops + [more];
    assert Find(Run(ops).entries, "q") == Some(Item("q", 0, 0));
    assert 0 in Run(ops + [more]).closed;
    assert 0 in Run(ops + [more] + [touch]).closed;
  }
}
