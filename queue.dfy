/** The FIFO queues of DataStructures/examples/04_queue.c: a circular array
    queue and a queue of linked nodes. */
module Queue {

  /** x reduced modulo m, for 0 <= x < 2 * m. */
  function Wrap(x: int, m: int): (r: int)
    requires m > 0 && 0 <= x < 2 * m
    ensures 0 <= r < m
  {
    if x < m then x else x - m
  }

  /** The C expression x % m agrees with Wrap in its range. */
  lemma WrapIsMod(x: int, m: int)
    requires m > 0 && 0 <= x < 2 * m
    ensures x % m == Wrap(x, m)
  {
    if x >= m {
      assert x == m * 1 + (x - m);
    }
  }

  /** The size items of a circular buffer a starting at slot front. */
  function Window(a: seq<int>, front: int, size: int): (q: seq<int>)
    requires 0 <= front < |a| && 0 <= size <= |a|
    ensures |q| == size && forall i :: 0 <= i < size ==> q[i] == a[Wrap(front + i, |a|)]
  {
    seq(size, i requires 0 <= i < size => a[Wrap(front + i, |a|)])
  }

  /** Writing item into the slot after the window extends it by item. */
  lemma WindowPush(a: seq<int>, front: int, size: int, item: int)
    requires 0 <= front < |a| && 0 <= size < |a|
    ensures Window(a[Wrap(front + size, |a|) := item], front, size + 1) == Window(a, front, size) + [item]
  {
  }

  /** Advancing front drops the oldest item from the window. */
  lemma WindowPop(a: seq<int>, front: int, size: int)
    requires 0 <= front < |a| && 0 < size <= |a|
    ensures Window(a, Wrap(front + 1, |a|), size - 1) == Window(a, front, size)[1..]
  {
  }

  /** ArrayQueue: items[front], items[front + 1], ... (indices taken modulo
      capacity) hold the size queued items, oldest first; rear is the slot
      of the newest, or -1 before the first enqueue. */
  class ArrayQueue {
    const items: array<int>
    const capacity: int
    var front: int
    var rear: int
    var size: int

    ghost predicate Valid()
      reads this
    {
      && items.Length == capacity >= 0
      && 0 <= size <= capacity
      && (capacity == 0 ==> front == 0 && rear == -1)
      && (capacity > 0 ==>
            && 0 <= front < capacity && -1 <= rear < capacity
            && Wrap(rear + 1, capacity) == Wrap(front + size, capacity))
    }

    /** The queued items, oldest first. */
    ghost function Contents(): (q: seq<int>)
      reads this, items
      requires Valid()
      ensures |q| == size
    {
      if capacity == 0 then [] else Window(items[..], front, size)
    }

    /** create_array_queue: an empty queue with front 0 and rear -1. */
    constructor (cap: nat)
      ensures Valid() && capacity == cap && Contents() == [] && fresh(items)
    {
      items := new int[cap];
      capacity := cap;
      front := 0;
      rear := -1;
      size := 0;
    }

    /** is_full_array */
    function IsFull(): (full: bool)
      reads this
      requires Valid()
      ensures full <==> |Contents()| == capacity
    {
      size == capacity
    }

    /** is_empty_array */
    function IsEmpty(): (empty: bool)
      reads this
      requires Valid()
      ensures empty <==> Contents() == []
    {
      size == 0
    }

    /** enqueue_array: a full queue is left as it is; otherwise item joins
        at the back, in the slot after rear. */
    method Enqueue(item: int)
      requires Valid()
      modifies this, items
      ensures Valid()
      ensures old(size) == capacity ==>
        front == old(front) && rear == old(rear) && size == old(size) && items[..] == old(items[..])
      ensures old(size) < capacity ==>
        Contents() == old(Contents()) + [item] && rear == (old(rear) + 1) % capacity && front == old(front)
    {
      if IsFull() {
        return;
      }
      WindowPush(items[..], front, size, item);
      WrapIsMod(rear + 1, capacity);
      rear := (rear + 1) % capacity;
      items[rear] := item;
      size := size + 1;
    }

    /** dequeue_array: -1 from an empty queue, which is left as it is;
        otherwise the oldest item, and front moves one slot on. */
    method Dequeue() returns (r: int)
      requires Valid()
      modifies this
      ensures Valid()
      ensures old(size) == 0 ==> r == -1 && front == old(front) && rear == old(rear) && size == 0
      ensures old(size) > 0 ==>
        r == old(Contents())[0] && Contents() == old(Contents())[1..] && front == (old(front) + 1) % capacity
    {
      if IsEmpty() {
        return -1;
      }
      WindowPop(items[..], front, size);
      r := items[front];
      WrapIsMod(front + 1, capacity);
      front := (front + 1) % capacity;
      size := size - 1;
    }

    /** peek_array: the oldest item, or -1 when empty. */
    function Peek(): (r: int)
      reads this, items
      requires Valid()
      ensures r == (if Contents() == [] then -1 else Contents()[0])
    {
      if size == 0 then -1 else items[front]
    }
  }

  /** A QueueNode. */
  class Node {
    var data: int
    var next: Node?

    constructor (d: int)
      ensures data == d && next == null
    {
      data := d;
      next := null;
    }
  }

  /** LinkedQueue: front points at the oldest node, each node's next at the
      one queued after it, and rear at the newest; both are null when the
      queue is empty. The ghost nodes lists the chain, front first. */
  class LinkedQueue {
    var front: Node?
    var rear: Node?
    var size: int
    ghost var nodes: seq<Node>

    ghost predicate Valid()
      reads this, nodes
    {
      && size == |nodes|
      && front == (if nodes == [] then null else nodes[0])
      && rear == (if nodes == [] then null else nodes[|nodes| - 1])
      && (forall i :: 0 <= i < |nodes| - 1 ==> nodes[i].next == nodes[i + 1])
      && (nodes != [] ==> nodes[|nodes| - 1].next == null)
      && (forall i, j :: 0 <= i < j < |nodes| ==> nodes[i] != nodes[j])
    }

    /** The queued items, oldest first. */
    ghost function Contents(): (q: seq<int>)
      reads this, nodes
      ensures |q| == |nodes|
    {
      seq(|nodes|, i requires 0 <= i < |nodes| reads this, nodes => nodes[i].data)
    }

    /** create_linked_queue */
    constructor ()
      ensures Valid() && Contents() == [] && front == null && rear == null
    {
      front := null;
      rear := null;
      size := 0;
      nodes := [];
    }

    /** is_empty_linked: front is null exactly when nothing is queued. */
    function IsEmpty(): (empty: bool)
      reads this, nodes
      requires Valid()
      ensures empty <==> Contents() == [] && size == 0
    {
      front == null
    }

    /** enqueue_linked: a fresh node carrying data is linked after rear
        (or becomes front and rear of an empty queue). */
    method Enqueue(data: int)
      requires Valid()
      modifies this, nodes
      ensures Valid() && Contents() == old(Contents()) + [data] && size == old(size) + 1
      ensures front == (if old(front) == null then rear else old(front))
      ensures fresh(rear) && forall n :: n in old(nodes) ==> n.data == old(n.data)
    {
      var node := new Node(data);
      if rear == null {
        front, rear := node, node;
      } else {
        rear.next := node;
        rear := node;
      }
      nodes := nodes + [node];
      size := size + 1;
    }

    /** dequeue_linked: -1 from an empty queue, which is left as it is;
        otherwise the data of front, which is unlinked; rear is reset to
        null when the last node goes. */
    method Dequeue() returns (r: int)
      requires Valid()
      modifies this
      ensures Valid()
      ensures old(nodes) == [] ==> r == -1 && nodes == [] && front == null && rear == null
      ensures old(nodes) != [] ==> r == old(Contents())[0] && Contents() == old(Contents())[1..]
      ensures old(nodes) != [] && nodes == [] ==> rear == null
    {
      if IsEmpty() {
        return -1;
      }
      var temp := front;
      r := temp.data;
      front := front.next;
      if front == null {
        rear := null;
      }
      nodes := nodes[1..];
      size := size - 1;
    }

    /** peek_linked: the oldest item, or -1 when empty. */
    function Peek(): (r: int)
      reads this, nodes
      requires Valid()
      ensures r == (if Contents() == [] then -1 else Contents()[0])
    {
      if front == null then -1 else front.data
    }
  }
}
