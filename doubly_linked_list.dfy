/** The doubly linked list of DataStructures/examples/02_doubly_linked_list.c.
    As for the singly linked list, the head pointer lives in a List object
    and ghost sequences name the nodes, head first, and the data they hold. */
module DoublyLinkedList {
  import opened Common
  import opened LinkedList

  /** A DNode. */
  class DNode {
    const data: int
    var prev: DNode?
    var next: DNode?

    constructor (d: int)
      ensures data == d && prev == null && next == null
    {
      data := d;
      prev := null;
      next := null;
    }
  }

  /** s with y inserted after the first x; unchanged when there is no x. */
  function InsertAfterFirst(s: seq<int>, x: int, y: int): (r: seq<int>)
    ensures x !in s ==> r == s
    ensures x in s ==> |r| == |s| + 1 && r[IndexOf(s, x) + 1] == y
  {
    if x !in s then s
    else
      var k := IndexOf(s, x);
      s[..k + 1] + [y] + s[k + 1..]
  }

  /** ns is doubly linked: each node's next is the following node and its
      prev the one before; the first node's prev and the last one's next are
      null. */
  ghost predicate Linked(ns: seq<DNode>)
    reads ns
  {
    && (forall i, j {:trigger ns[i], ns[j]} :: 0 <= i && j == i + 1 && j < |ns| ==>
          ns[i].next == ns[j] && ns[j].prev == ns[i])
    && (ns != [] ==> ns[|ns| - 1].next == null && ns[0].prev == null)
  }

  /** Links that skip ns[k] (and are right everywhere else) make the rest
      of ns doubly linked. */
  lemma LinkedWithout(ns: seq<DNode>, k: int)
    requires 0 <= k < |ns|
    requires forall j :: 0 <= j < |ns| - 1 && j != k - 1 && j != k ==> ns[j].next == ns[j + 1]
    requires forall j :: 0 < j < |ns| && j != k && j != k + 1 ==> ns[j].prev == ns[j - 1]
    requires k > 0 ==> ns[k - 1].next == (if k + 1 < |ns| then ns[k + 1] else null)
    requires k + 1 < |ns| ==> ns[k + 1].prev == (if k > 0 then ns[k - 1] else null)
    requires k + 1 < |ns| ==> ns[|ns| - 1].next == null
    requires k > 0 ==> ns[0].prev == null
    ensures Linked(ns[..k] + ns[k + 1..])
  {
    var r := ns[..k] + ns[k + 1..];
    forall i | 0 <= i < |r| - 1
      ensures r[i].next == r[i + 1]
    {
      if i < k - 1 {
        assert r[i] == ns[i] && r[i + 1] == ns[i + 1];
      } else if i >= k {
        assert r[i] == ns[i + 1] && r[i + 1] == ns[i + 2];
      }
    }
    forall i | 0 < i < |r|
      ensures r[i].prev == r[i - 1]
    {
      if i < k {
        assert r[i] == ns[i] && r[i - 1] == ns[i - 1];
      } else if i > k {
        assert r[i] == ns[i + 1] && r[i - 1] == ns[i];
      }
    }
  }

  /** Links that put x after ns[k] (and are right everywhere else) make ns
      with x inserted there doubly linked. */
  lemma LinkedWith(ns: seq<DNode>, k: int, x: DNode)
    requires 0 <= k < |ns|
    requires forall j :: 0 <= j < |ns| - 1 && j != k ==> ns[j].next == ns[j + 1]
    requires forall j :: 0 < j < |ns| && j != k + 1 ==> ns[j].prev == ns[j - 1]
    requires ns[k].next == x && x.prev == ns[k]
    requires x.next == (if k + 1 < |ns| then ns[k + 1] else null)
    requires k + 1 < |ns| ==> ns[k + 1].prev == x
    requires k + 1 < |ns| ==> ns[|ns| - 1].next == null
    requires ns[0].prev == null
    ensures Linked(ns[..k + 1] + [x] + ns[k + 1..])
  {
    var r := ns[..k + 1] + [x] + ns[k + 1..];
    forall i | 0 <= i < |r| - 1
      ensures r[i].next == r[i + 1]
    {
      if i < k {
        assert r[i] == ns[i] && r[i + 1] == ns[i + 1];
      } else if i > k + 1 {
        assert r[i] == ns[i - 1] && r[i + 1] == ns[i];
      }
    }
    forall i | 0 < i < |r|
      ensures r[i].prev == r[i - 1]
    {
      if i <= k {
        assert r[i] == ns[i] && r[i - 1] == ns[i - 1];
      } else if i > k + 2 {
        assert r[i] == ns[i - 1] && r[i - 1] == ns[i - 2];
      }
    }
  }

  /** s lists the data of ns. */
  ghost predicate Holds(ns: seq<DNode>, s: seq<int>)
  {
    |s| == |ns| && forall i :: 0 <= i < |ns| ==> ns[i].data == s[i]
  }

  /** Dropping a node drops its datum; inserting one inserts its datum. */
  lemma HoldsEdit(ns: seq<DNode>, s: seq<int>, k: int, x: DNode)
    requires Holds(ns, s) && 0 <= k < |ns|
    ensures Holds(ns[..k] + ns[k + 1..], s[..k] + s[k + 1..])
    ensures Holds(ns[..k + 1] + [x] + ns[k + 1..], s[..k + 1] + [x.data] + s[k + 1..])
  {
    var r, t := ns[..k + 1] + [x] + ns[k + 1..], s[..k + 1] + [x.data] + s[k + 1..];
    forall i | 0 <= i < |r|
      ensures r[i].data == t[i]
    {
      if i <= k {
        assert r[i] == ns[i] && t[i] == s[i];
      } else if i > k + 1 {
        assert r[i] == ns[i - 1] && t[i] == s[i - 1];
      }
    }
  }

  class List {
    var head: DNode?
    ghost var nodes: seq<DNode>
    ghost var contents: seq<int>

    /** Each node's next is the following node and its prev the one before;
        the head's prev and the tail's next are null; no node appears twice;
        contents lists their data. */
    ghost predicate Valid()
      reads this, nodes
    {
      && head == (if nodes == [] then null else nodes[0])
      && Linked(nodes)
      && Distinct(nodes)
      && Holds(nodes, contents)
    }

    /** The neighbours of nodes[i]. */
    lemma LinksOf(i: int)
      requires Valid() && 0 <= i < |nodes|
      ensures nodes[i].next == (if i + 1 < |nodes| then nodes[i + 1] else null)
      ensures nodes[i].prev == (if i > 0 then nodes[i - 1] else null)
    {
    }

    constructor ()
      ensures Valid() && contents == []
    {
      head := null;
      nodes := [];
      contents := [];
    }

    /** get_tail: the last node, or null for an empty list. */
    method GetTail() returns (tail: DNode?)
      requires Valid()
      ensures tail == (if nodes == [] then null else nodes[|nodes| - 1])
      ensures tail != null ==> tail.next == null && tail.data == contents[|contents| - 1]
    {
      if head == null {
        return null;
      }
      tail := head;
      ghost var i := 0;
      while tail.next != null
        invariant 0 <= i < |nodes| && tail == nodes[i]
        decreases |nodes| - i
      {
        LinksOf(i);
        tail := tail.next;
        i := i + 1;
      }
      LinksOf(i);
    }

    /** insert_at_head: a fresh node becomes the head, and the old head's
        prev points at it. */
    method InsertAtHead(data: int)
      requires Valid()
      modifies this, nodes
      ensures Valid() && contents == [data] + old(contents)
    {
      var node := new DNode(data);
      if head != null {
        head.prev := node;
      }
      node.next := head;
      head := node;
      nodes := [node] + nodes;
      contents := [data] + contents;
    }

    /** insert_at_tail: a fresh node is linked after the tail. */
    method InsertAtTail(data: int)
      requires Valid()
      modifies this, nodes
      ensures Valid() && contents == old(contents) + [data]
    {
      var node := new DNode(data);
      if head == null {
        head := node;
        nodes := [node];
        contents := [data];
        return;
      }
      var tail := GetTail();
      tail.next := node;
      node.prev := tail;
      DistinctInsert(nodes, node, |nodes|);
      assert nodes + [node] == nodes[..|nodes|] + [node] + nodes[|nodes|..];
      nodes := nodes + [node];
      contents := contents + [data];
    }

    /** insert_after: a fresh node follows the first node holding
        afterValue; nothing changes when there is none. */
    method InsertAfter(afterValue: int, data: int)
      requires Valid()
      modifies this, nodes
      ensures Valid() && contents == InsertAfterFirst(old(contents), afterValue, data)
    {
      var current := head;
      ghost var i := 0;
      while current != null && current.data != afterValue
        modifies {}
        invariant 0 <= i <= |nodes| && current == (if i < |nodes| then nodes[i] else null)
        invariant afterValue !in contents[..i]
        decreases |nodes| - i
      {
        LinksOf(i);
        current := current.next;
        i := i + 1;
      }
      if current == null {
        assert contents[..i] == contents;
        return;
      }
      assert IndexOf(contents, afterValue) == i;
      var node := new DNode(data);
      LinkAfter(current, i, node);
    }

    /** The linking step of insert_after: the fresh node goes between
        current, which is nodes[k], and its successor. */
    method LinkAfter(current: DNode, ghost k: int, node: DNode)
      requires Valid() && 0 <= k < |nodes| && current == nodes[k] && node !in nodes
      modifies this, nodes, node
      ensures Valid() && contents == old(contents[..k + 1] + [node.data] + contents[k + 1..])
    {
      ghost var n0 := nodes;
      LinksOf(k);
      if k + 1 < |nodes| {
        LinksOf(k + 1);
      }
      node.next := current.next;
      node.prev := current;
      if current.next != null {
        current.next.prev := node;
      }
      current.next := node;
      ghost var s0 := contents;
      nodes := n0[..k + 1] + [node] + n0[k + 1..];
      contents := s0[..k + 1] + [node.data] + s0[k + 1..];
      LinkedWith(n0, k, node);
      HoldsEdit(n0, s0, k, node);
      DistinctInsert(n0, node, k + 1);
    }

    /** delete_node: a null node is ignored; otherwise node, which is
        nodes[k], is unlinked from both neighbours, and the head moves on
        when node was the head. */
    method DeleteNode(node: DNode?, ghost k: int)
      requires Valid() && (node != null ==> 0 <= k < |nodes| && node == nodes[k])
      modifies this, nodes
      ensures Valid()
      ensures node == null ==> contents == old(contents) && nodes == old(nodes)
      ensures node != null ==>
        nodes == old(nodes[..k] + nodes[k + 1..]) && contents == old(contents[..k] + contents[k + 1..])
      ensures node != null && old(head) == node ==> head == old(node.next)
    {
      if node == null {
        return;
      }
      ghost var n0 := nodes;
      LinksOf(k);
      if node.prev != null {
        node.prev.next := node.next;
      } else {
        head := node.next;
      }
      if node.next != null {
        node.next.prev := node.prev;
      }
      ghost var s0 := contents;
      nodes := n0[..k] + n0[k + 1..];
      contents := s0[..k] + s0[k + 1..];
      LinkedWithout(n0, k);
      HoldsEdit(n0, s0, k, node);
      DistinctRemove(n0, k);
    }

    /** delete_value: deletes the first node holding data; the list is
        unchanged when there is none. */
    method DeleteValue(data: int)
      requires Valid()
      modifies this, nodes
      ensures Valid() && contents == RemoveFirst(old(contents), data)
    {
      var current := head;
      ghost var i := 0;
      while current != null && current.data != data
        modifies {}
        invariant 0 <= i <= |nodes| && current == (if i < |nodes| then nodes[i] else null)
        invariant data !in contents[..i]
        decreases |nodes| - i
      {
        LinksOf(i);
        current := current.next;
        i := i + 1;
      }
      if current != null {
        RemoveFirstAt(contents, data, i);
        DeleteNode(current, i);
      } else {
        assert contents[..i] == contents;
      }
    }

    /** search: the first node holding data, or null. */
    method Search(data: int) returns (r: DNode?)
      requires Valid()
      ensures r == null <==> data !in contents
      ensures r != null ==> r == nodes[IndexOf(contents, data)] && r.data == data
    {
      var current := head;
      ghost var i := 0;
      while current != null
        invariant 0 <= i <= |nodes| && current == (if i < |nodes| then nodes[i] else null)
        invariant data !in contents[..i]
        decreases |nodes| - i
      {
        if current.data == data {
          assert IndexOf(contents, data) == i;
          return current;
        }
        LinksOf(i);
        current := current.next;
        i := i + 1;
      }
      assert contents[..i] == contents;
      return null;
    }
  }
}
