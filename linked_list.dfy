/** The singly linked list of DataStructures/examples/01_linked_list.c. The
    C functions take the address of the head pointer; here the head lives in
    a List object, and a ghost sequence names the nodes from head to tail. */
module LinkedList {
  import opened Common

  class Node {
    const data: int
    var next: Node?

    constructor (d: int)
      ensures data == d && next == null
    {
      data := d;
      next := null;
    }
  }

  /** The index of the first x in s, or -1. */
  function IndexOf(s: seq<int>, x: int): (r: int)
    ensures -1 <= r < |s|
    ensures r == -1 <==> x !in s
    ensures r >= 0 ==> s[r] == x && x !in s[..r]
  {
    if s == [] then -1
    else if s[0] == x then 0
    else var k := IndexOf(s[1..], x); if k == -1 then -1 else k + 1
  }

  /** s without its first x (unchanged when x is absent). */
  function RemoveFirst(s: seq<int>, x: int): (r: seq<int>)
    ensures x !in s ==> r == s
    ensures x in s ==> r == s[..IndexOf(s, x)] + s[IndexOf(s, x) + 1..]
  {
    if x !in s then s else s[..IndexOf(s, x)] + s[IndexOf(s, x) + 1..]
  }

  /** No element occurs twice in s. */
  ghost predicate Distinct<T>(s: seq<T>)
  {
    forall i, j :: 0 <= i < j < |s| ==> s[i] != s[j]
  }

  /** A new element inserted anywhere keeps a sequence duplicate-free. */
  lemma DistinctInsert<T>(s: seq<T>, x: T, k: int)
    requires Distinct(s) && x !in s && 0 <= k <= |s|
    ensures Distinct(s[..k] + [x] + s[k..])
  {
    var t := s[..k] + [x] + s[k..];
    forall i, j | 0 <= i < j < |t|
      ensures t[i] != t[j]
    {
      if i == k {
        assert t[j] == s[j - 1];
      } else if j == k {
        assert t[i] == s[i];
      } else {
        var i' := if i < k then i else i - 1;
        var j' := if j < k then j else j - 1;
        assert t[i] == s[i'] && t[j] == s[j'] && i' < j';
      }
    }
  }

  /** Dropping an element keeps a sequence duplicate-free, and the dropped
      element no longer occurs. */
  lemma DistinctRemove<T>(s: seq<T>, k: int)
    requires Distinct(s) && 0 <= k < |s|
    ensures Distinct(s[..k] + s[k + 1..])
  {
    var t := s[..k] + s[k + 1..];
    forall i, j | 0 <= i < j < |t|
      ensures t[i] != t[j]
    {
      var i' := if i < k then i else i + 1;
      var j' := if j < k then j else j + 1;
      assert t[i] == s[i'] && t[j] == s[j'] && i' < j';
    }
  }

  /** Reversal keeps a sequence duplicate-free. */
  lemma DistinctReverse<T>(s: seq<T>)
    requires Distinct(s)
    ensures Distinct(Common.Reverse(s))
  {
    var r := Common.Reverse(s);
    forall i, j | 0 <= i < j < |r|
      ensures r[i] != r[j]
    {
      assert r[i] == s[|s| - 1 - i] && r[j] == s[|s| - 1 - j];
    }
  }

  /** Nodes whose next links point backwards form, read in reverse, a
      forward chain carrying the reversed data. */
  lemma ReversedLinks(ns: seq<Node>, s: seq<int>)
    requires |s| == |ns| && forall j :: 0 <= j < |ns| ==> ns[j].data == s[j]
    requires forall j :: 0 < j < |ns| ==> ns[j].next == ns[j - 1]
    ensures var r := Common.Reverse(ns);
      (forall j :: 0 <= j < |r| - 1 ==> r[j].next == r[j + 1])
      && forall j :: 0 <= j < |r| ==> r[j].data == Common.Reverse(s)[j]
  {
    var r := Common.Reverse(ns);
    var n := |ns|;
    forall j | 0 <= j < n - 1
      ensures r[j].next == r[j + 1]
    {
      assert r[j] == ns[n - 1 - j] && r[j + 1] == ns[n - 1 - j - 1];
    }
  }

  /** Removing the first x, when it sits at index i. */
  lemma RemoveFirstAt(s: seq<int>, x: int, i: int)
    requires 0 <= i < |s| && s[i] == x && x !in s[..i]
    ensures RemoveFirst(s, x) == s[..i] + s[i + 1..]
  {
    assert IndexOf(s, x) == i;
  }

  /** Where insert_at_position puts data: at the head for position 0;
      otherwise after the node reached by max(position - 1, 0) steps, and
      nowhere when that walk runs off the list. */
  function InsertAtPosition(s: seq<int>, data: int, position: int): seq<int>
  {
    if position == 0 then [data] + s
    else
      var k := if position - 1 > 0 then position - 1 else 0;
      if k < |s| then s[..k + 1] + [data] + s[k + 1..] else s
  }

  /** In range, data lands at index position; past the end nothing changes. */
  lemma InsertAtPositionMeaning(s: seq<int>, data: int, position: int)
    ensures 0 <= position <= |s| ==>
      var r := InsertAtPosition(s, data, position);
      |r| == |s| + 1 && r[position] == data && r[..position] == s[..position] && r[position + 1..] == s[position..]
    ensures position > |s| ==> InsertAtPosition(s, data, position) == s
    ensures position < 0 && s != [] ==> InsertAtPosition(s, data, position) == s[..1] + [data] + s[1..]
  {
    if 0 < position <= |s| {
      var r := InsertAtPosition(s, data, position);
      assert r == s[..position] + [data] + s[position..];
    }
  }

  class List {
    var head: Node?
    /** The nodes from head to tail, and the data they hold. */
    ghost var nodes: seq<Node>
    ghost var contents: seq<int>

    /** head is nodes[0] (or null for the empty list), each node's next is
        the following node, the last node's next is null, no node appears
        twice, and contents lists their data. */
    ghost predicate Valid()
      reads this, nodes
    {
      && head == (if nodes == [] then null else nodes[0])
      && (forall i :: 0 <= i < |nodes| - 1 ==> nodes[i].next == nodes[i + 1])
      && (nodes != [] ==> nodes[|nodes| - 1].next == null)
      && Distinct(nodes)
      && |contents| == |nodes|
      && (forall i :: 0 <= i < |nodes| ==> nodes[i].data == contents[i])
    }

    /** The node after nodes[i] in the chain, null after the last. */
    lemma NextOf(i: int)
      requires Valid() && 0 <= i < |nodes|
      ensures nodes[i].next == (if i + 1 < |nodes| then nodes[i + 1] else null)
    {
    }

    constructor ()
      ensures Valid() && contents == []
    {
      head := null;
      nodes := [];
      contents := [];
    }

    /** insert_at_head: a fresh node becomes the head. */
    method InsertAtHead(data: int)
      requires Valid()
      modifies this
      ensures Valid() && contents == [data] + old(contents)
    {
      var node := new Node(data);
      node.next := head;
      head := node;
      nodes := [node] + nodes;
      contents := [data] + contents;
    }

    /** insert_at_tail: a fresh node is linked after the last one. */
    method InsertAtTail(data: int)
      requires Valid()
      modifies this, nodes
      ensures Valid() && contents == old(contents) + [data]
    {
      var node := new Node(data);
      if head == null {
        head := node;
        nodes := [node];
        contents := [data];
        return;
      }
      var current := head;
      ghost var i := 0;
      while current.next != null
        modifies {}
        invariant 0 <= i < |nodes| && current == nodes[i]
        decreases |nodes| - i
      {
        NextOf(i);
        current := current.next;
        i := i + 1;
      }
      NextOf(i);
      LinkAfter(current, i, node);
    }

    /** insert_at_position: position 0 inserts at the head; otherwise the
        walk goes position - 1 steps (none for a negative position) and a
        fresh node follows the node reached; a walk off the end changes
        nothing. */
    method InsertAtPositionM(data: int, position: int)
      requires Valid()
      modifies this, nodes
      ensures Valid() && contents == InsertAtPosition(old(contents), data, position)
    {
      ghost var s := contents;
      if position == 0 {
        InsertAtHead(data);
        assert contents == InsertAtPosition(s, data, position);
        return;
      }
      var node := new Node(data);
      var current := head;
      var i := 0;
      while i < position - 1 && current != null
        modifies {}
        invariant 0 <= i && (current == null <==> i >= |nodes|) && (current != null ==> current == nodes[i])
        invariant i <= (if position - 1 > 0 then position - 1 else 0)
      {
        NextOf(i);
        current := current.next;
        i := i + 1;
      }
      ghost var k := if position - 1 > 0 then position - 1 else 0;
      if current == null {
        assert k >= |s| && InsertAtPosition(s, data, position) == s;
        return;
      }
      assert i == k && InsertAtPosition(s, data, position) == s[..k + 1] + [data] + s[k + 1..];
      LinkAfter(current, i, node);
      assert contents == InsertAtPosition(s, data, position);
    }

    /** Links the fresh node in after current, which is nodes[k]. */
    method LinkAfter(current: Node, ghost k: int, node: Node)
      requires Valid() && 0 <= k < |nodes| && current == nodes[k] && node !in nodes
      modifies this, current, node
      ensures Valid() && contents == old(contents[..k + 1] + [node.data] + contents[k + 1..])
    {
      ghost var n0 := nodes;
      NextOf(k);
      node.next := current.next;
      current.next := node;
      nodes := n0[..k + 1] + [node] + n0[k + 1..];
      contents := contents[..k + 1] + [node.data] + contents[k + 1..];
      forall i | 0 <= i < |nodes| - 1
        ensures nodes[i].next == nodes[i + 1]
      {
        if i < k {
          assert nodes[i] == n0[i] && nodes[i + 1] == n0[i + 1];
        } else if i > k + 1 {
          assert nodes[i] == n0[i - 1] && nodes[i + 1] == n0[i];
        }
      }
      DistinctInsert(n0, node, k + 1);
    }

    /** delete_value: unlinks the first node holding data; the list is
        unchanged when there is none. */
    method DeleteValue(data: int)
      requires Valid()
      modifies this, nodes
      ensures Valid() && contents == RemoveFirst(old(contents), data)
    {
      if head == null {
        return;
      }
      if head.data == data {
        RemoveFirstAt(contents, data, 0);
        UnlinkHead();
      } else {
        var current, i := FindBefore(data);
        if current.next != null {
          RemoveFirstAt(contents, data, i + 1);
          UnlinkAfter(current, i);
        } else {
          assert contents == contents[..i + 1];
        }
      }
    }

    /** The walk of delete_value: from a head not holding data, the last
        node before the first one that does (or the tail). */
    method FindBefore(data: int) returns (current: Node, ghost i: int)
      requires Valid() && head != null && head.data != data
      ensures 0 <= i < |nodes| && current == nodes[i] && data !in contents[..i + 1]
      ensures current.next == null ==> i == |nodes| - 1
      ensures current.next != null ==> i + 1 < |nodes| && contents[i + 1] == data
    {
      current := head;
      i := 0;
      while current.next != null && current.next.data != data
        invariant 0 <= i < |nodes| && current == nodes[i]
        invariant data !in contents[..i + 1]
        decreases |nodes| - i
      {
        NextOf(i);
        current := current.next;
        i := i + 1;
        assert contents[..i + 1] == contents[..i] + [current.data];
      }
      NextOf(i);
    }

    /** Unlinks the head node. */
    method UnlinkHead()
      requires Valid() && nodes != []
      modifies this
      ensures Valid() && contents == old(contents[1..])
    {
      head := head.next;
      nodes := nodes[1..];
      contents := contents[1..];
    }

    /** Unlinks the node after current, which is nodes[k]. */
    method UnlinkAfter(current: Node, ghost k: int)
      requires Valid() && 0 <= k < |nodes| - 1 && current == nodes[k]
      modifies this, current
      ensures Valid() && contents == old(contents[..k + 1] + contents[k + 2..])
    {
      ghost var n0 := nodes;
      NextOf(k);
      NextOf(k + 1);
      DistinctRemove(nodes, k + 1);
      current.next := current.next.next;
      nodes := n0[..k + 1] + n0[k + 2..];
      contents := contents[..k + 1] + contents[k + 2..];
      forall i | 0 <= i < |nodes| - 1
        ensures nodes[i].next == nodes[i + 1]
      {
        if i < k {
          assert nodes[i] == n0[i] && nodes[i + 1] == n0[i + 1];
        } else if i > k {
          assert nodes[i] == n0[i + 1] && nodes[i + 1] == n0[i + 2];
        }
      }
    }

    /** search: the index of the first node holding data, or -1. */
    method Search(data: int) returns (position: int)
      requires Valid()
      ensures position == IndexOf(contents, data)
    {
      var current := head;
      position := 0;
      while current != null
        invariant 0 <= position <= |nodes| && (current == null <==> position == |nodes|)
        invariant current != null ==> current == nodes[position]
        invariant data !in contents[..position]
        decreases |nodes| - position
      {
        if current.data == data {
          return;
        }
        NextOf(position);
        current := current.next;
        position := position + 1;
      }
      assert contents[..position] == contents;
      return -1;
    }

    /** length: the number of nodes. */
    method Length() returns (count: int)
      requires Valid()
      ensures count == |contents|
    {
      count := 0;
      var current := head;
      while current != null
        invariant 0 <= count <= |nodes| && (current == null <==> count == |nodes|)
        invariant current != null ==> current == nodes[count]
        decreases |nodes| - count
      {
        NextOf(count);
        count := count + 1;
        current := current.next;
      }
    }

    /** reverse: turns every next link around; the old tail is the new head. */
    method Reverse()
      requires Valid()
      modifies this, nodes
      ensures Valid() && contents == Common.Reverse(old(contents))
    {
      var prev := TurnLinks();
      DistinctReverse(nodes);
      ReversedLinks(nodes, contents);
      head := prev;
      nodes := Common.Reverse(nodes);
      contents := Common.Reverse(contents);
    }

    /** The loop of reverse: every node's next is pointed at the node before
        it; the old tail is returned. */
    method TurnLinks() returns (prev: Node?)
      requires Valid()
      modifies nodes
      ensures prev == (if nodes == [] then null else nodes[|nodes| - 1])
      ensures forall j :: 0 < j < |nodes| ==> nodes[j].next == nodes[j - 1]
      ensures nodes != [] ==> nodes[0].next == null
      ensures forall j :: 0 <= j < |nodes| ==> nodes[j].data == contents[j]
    {
      prev := null;
      var current := head;
      ghost var i := 0;
      ghost var n := |nodes|;
      while current != null
        invariant 0 <= i <= n
        invariant current == (if i < n then nodes[i] else null)
        invariant prev == (if i == 0 then null else nodes[i - 1])
        invariant forall j :: 0 < j < i ==> nodes[j].next == nodes[j - 1]
        invariant i > 0 ==> nodes[0].next == null
        invariant forall j :: i <= j < n - 1 ==> nodes[j].next == nodes[j + 1]
        invariant i < n ==> nodes[n - 1].next == null
        invariant forall j :: 0 <= j < n ==> nodes[j].data == contents[j]
        decreases n - i
      {
        var next := current.next;
        current.next := prev;
        prev := current;
        current := next;
        i := i + 1;
      }
    }
  }
}
