/** The doubly linked list that the caches keep their recency order in: a ring through a sentinel. */
module LinkedList {

  class Element {
    const value: string
    var next: Element?
    var prev: Element?

    constructor (value: string)
      ensures this.value == value
    {
      this.value := value;
      next, prev := null, null;
    }
  }

  ghost predicate NoDuplicates(s: seq<Element>) {
    forall i, j :: 0 <= i < j < |s| ==> s[i] != s[j]
  }

  function Removed(s: seq<Element>, k: nat): seq<Element>
    requires k < |s|
  {
    s[..k] + s[k + 1..]
  }

  class RingList {
    const root: Element
    var len: nat
    /** The elements from front to back. */
    ghost var nodes: seq<Element>

    ghost predicate Valid()
      reads this, root, nodes
    {
      && len == |nodes| && root !in nodes && NoDuplicates(nodes)
      && Linked([root] + nodes + [root])
    }

    static ghost predicate Linked(ring: seq<Element>)
      reads ring
    {
      forall i :: 0 <= i < |ring| - 1 ==> ring[i].next == ring[i + 1] && ring[i + 1].prev == ring[i]
    }

    constructor ()
      ensures Valid() && nodes == [] && fresh(root)
    {
      var sentinel := new Element("");
      root := sentinel;
      len := 0;
      nodes := [];
      new;
      root.next, root.prev := root, root;
    }

    method PushFront(value: string) returns (e: Element)
      requires Valid()
      modifies this, root, nodes
      ensures Valid() && fresh(e) && e.value == value
      ensures nodes == [e] + old(nodes)
    {
      e := new Element(value);
      InsertFront(e);
    }

    /** Links `e`, not yet in the list, in front. */
    method InsertFront(e: Element)
      requires Valid() && e != root && e !in nodes
      modifies this, root, nodes, e
      ensures Valid() && nodes == [e] + old(nodes)
    {
      ghost var ring := [root] + nodes + [root];
      assert ring[0].next == ring[1];
      var at := root.next;
      e.prev := root;
      e.next := at;
      at.prev := e;
      root.next := e;
      len := len + 1;
      nodes := [e] + nodes;
      ghost var now := [root] + nodes + [root];
      forall i | 0 <= i < |now| - 1 ensures now[i].next == now[i + 1] && now[i + 1].prev == now[i] {
        if i >= 2 { assert now[i] == ring[i - 1] && now[i + 1] == ring[i]; }
      }
    }

    /** Unlinks `e`, the `k`-th element. */
    method Unlink(e: Element, ghost k: nat)
      requires Valid() && k < |nodes| && nodes[k] == e
      modifies this, root, nodes
      ensures Valid() && nodes == Removed(old(nodes), k)
    {
      ghost var ring := [root] + nodes + [root];
      assert ring[k + 1] == e && ring[k].next == e && ring[k + 2].prev == e;
      assert ring[k + 1].next == ring[k + 2] && ring[k + 1].prev == ring[k];
      e.prev.next := e.next;
      e.next.prev := e.prev;
      len := len - 1;
      nodes := Removed(nodes, k);
      ghost var now := [root] + nodes + [root];
      forall i | 0 <= i < |now| - 1 ensures now[i].next == now[i + 1] && now[i + 1].prev == now[i] {
        assert now[i] == if i <= k then ring[i] else ring[i + 1];
        assert now[i + 1] == if i < k then ring[i + 1] else ring[i + 2];
      }
    }

    method Remove(e: Element)
      requires Valid() && e in nodes
      modifies this, root, nodes
      ensures Valid()
      ensures exists k :: 0 <= k < |old(nodes)| && old(nodes)[k] == e && nodes == Removed(old(nodes), k)
    {
      ghost var k :| 0 <= k < |nodes| && nodes[k] == e;
      Unlink(e, k);
      e.next, e.prev := null, null;
    }

    method MoveToFront(e: Element)
      requires Valid() && e in nodes
      modifies this, root, nodes
      ensures Valid()
      ensures exists k :: 0 <= k < |old(nodes)| && old(nodes)[k] == e && nodes == [e] + Removed(old(nodes), k)
    {
      ghost var k :| 0 <= k < |nodes| && nodes[k] == e;
      assert ([root] + nodes + [root])[0].next == ([root] + nodes + [root])[1];
      if root.next == e {
        assert k == 0;
        assert nodes == [e] + Removed(nodes, 0);
        return;
      }
      Unlink(e, k);
      InsertFront(e);
    }

    method Back() returns (e: Element?)
      requires Valid()
      ensures if nodes == [] then e == null else e == nodes[|nodes| - 1]
    {
      if len == 0 {
        return null;
      }
      ghost var ring := [root] + nodes + [root];
      assert ring[|nodes| + 1] == root;
      assert ring[|nodes|].next == ring[|nodes| + 1] && ring[|nodes| + 1].prev == ring[|nodes|];
      e := root.prev;
    }
  }
}
