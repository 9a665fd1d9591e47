/** The undirected graph of DataStructures/examples/07_graph.c: adjacency
    lists, breadth-first search over a ring-buffer queue, a depth-first path
    test and a count of connected components. Each adjacency list is held
    as a sequence of vertices, newest first, in the order its linked nodes
    are walked. */
module Graph {
  import opened LinkedList
  import Queue

  /** Every listed neighbour is a vertex. */
  ghost predicate WellFormed(g: seq<seq<int>>)
  {
    forall u, v :: 0 <= u < |g| && v in g[u] ==> 0 <= v < |g|
  }

  /** Edges go both ways, as add_edge lays them. */
  ghost predicate Symmetric(g: seq<seq<int>>)
  {
    forall u, v :: 0 <= u < |g| && 0 <= v < |g| && v in g[u] ==> u in g[v]
  }

  /** p is a walk along edges of g. */
  ghost predicate IsPath(g: seq<seq<int>>, p: seq<int>)
  {
    && |p| >= 1
    && (forall i :: 0 <= i < |p| ==> 0 <= p[i] < |g|)
    && (forall i :: 0 <= i < |p| - 1 ==> p[i + 1] in g[p[i]])
  }

  /** t can be reached from s along edges of g. */
  ghost predicate Reachable(g: seq<seq<int>>, s: int, t: int)
  {
    exists p :: IsPath(g, p) && p[0] == s && p[|p| - 1] == t
  }

  /** Every vertex reaches itself. */
  lemma ReachRefl(g: seq<seq<int>>, s: int)
    requires 0 <= s < |g|
    ensures Reachable(g, s, s)
  {
    assert IsPath(g, [s]);
  }

  /** A reachable vertex's neighbours are reachable. */
  lemma ReachStep(g: seq<seq<int>>, s: int, u: int, v: int)
    requires WellFormed(g) && Reachable(g, s, u) && 0 <= u < |g| && v in g[u]
    ensures Reachable(g, s, v)
  {
    var p :| IsPath(g, p) && p[0] == s && p[|p| - 1] == u;
    var q := p + [v];
    assert q[|q| - 2] == u;
    assert IsPath(g, q);
  }

  /** A vertex reaches whatever its neighbour reaches. */
  lemma ReachPrepend(g: seq<seq<int>>, u: int, v: int, t: int)
    requires 0 <= u < |g| && v in g[u] && Reachable(g, v, t)
    ensures Reachable(g, u, t)
  {
    var p :| IsPath(g, p) && p[0] == v && p[|p| - 1] == t;
    var q := [u] + p;
    assert IsPath(g, q);
  }

  /** Reachability is transitive. */
  lemma ReachTrans(g: seq<seq<int>>, s: int, u: int, t: int)
    requires Reachable(g, s, u) && Reachable(g, u, t)
    ensures Reachable(g, s, t)
  {
    var p :| IsPath(g, p) && p[0] == s && p[|p| - 1] == u;
    var q :| IsPath(g, q) && q[0] == u && q[|q| - 1] == t;
    var r := p + q[1..];
    forall i | 0 <= i < |r| - 1
      ensures r[i + 1] in g[r[i]]
    {
      if i < |p| - 1 {
        assert r[i] == p[i] && r[i + 1] == p[i + 1];
      } else {
        assert r[i] == q[i - |p| + 1] && r[i + 1] == q[i - |p| + 2];
      }
    }
    assert IsPath(g, r);
  }

  /** In a symmetric graph a walk can be taken backwards. */
  lemma ReachSym(g: seq<seq<int>>, s: int, t: int)
    requires Symmetric(g) && Reachable(g, s, t)
    ensures Reachable(g, t, s)
  {
    var p :| IsPath(g, p) && p[0] == s && p[|p| - 1] == t;
    var r := Common.Reverse(p);
    forall i | 0 <= i < |r| - 1
      ensures r[i + 1] in g[r[i]]
    {
      assert r[i] == p[|p| - 1 - i] && r[i + 1] == p[|p| - 1 - (i + 1)];
      assert p[|p| - 1 - i] in g[p[|p| - 1 - i - 1]];
    }
    assert IsPath(g, r);
  }

  /** t can be reached from s by a walk of exactly k edges. */
  ghost predicate ReachIn(g: seq<seq<int>>, s: int, t: int, k: nat)
  {
    exists p :: IsPath(g, p) && p[0] == s && p[|p| - 1] == t && |p| == k + 1
  }

  /** A walk of k edges means some walk length is the shortest. */
  lemma {:induction false} ShortestExists(g: seq<seq<int>>, s: int, t: int, k: nat)
    requires ReachIn(g, s, t, k)
    ensures exists d: nat :: ReachIn(g, s, t, d) && forall j: nat :: j < d ==> !ReachIn(g, s, t, j)
    decreases k
  {
    if exists j: nat :: j < k && ReachIn(g, s, t, j) {
      var j: nat :| j < k && ReachIn(g, s, t, j);
      ShortestExists(g, s, t, j);
    }
  }

  /** The distance from s to t: the number of edges of a shortest walk. */
  ghost function Dist(g: seq<seq<int>>, s: int, t: int): nat
    requires Reachable(g, s, t)
  {
    var p :| IsPath(g, p) && p[0] == s && p[|p| - 1] == t;
    assert ReachIn(g, s, t, |p| - 1);
    ShortestExists(g, s, t, |p| - 1);
    var d: nat :| ReachIn(g, s, t, d) && forall j: nat :: j < d ==> !ReachIn(g, s, t, j);
    d
  }

  /** The distance is the length of a walk from s to t, and no shorter
      walk exists. */
  lemma DistShortest(g: seq<seq<int>>, s: int, t: int)
    requires Reachable(g, s, t)
    ensures ReachIn(g, s, t, Dist(g, s, t)) && forall j: nat :: j < Dist(g, s, t) ==> !ReachIn(g, s, t, j)
  {
  }

  /** Only s itself is at distance 0 from s. */
  lemma DistZero(g: seq<seq<int>>, s: int, t: int)
    requires 0 <= s < |g| && Reachable(g, s, t)
    ensures Reachable(g, s, s) && Dist(g, s, s) == 0
    ensures Dist(g, s, t) == 0 <==> t == s
  {
    ReachRefl(g, s);
    DistShortest(g, s, s);
    DistShortest(g, s, t);
    assert IsPath(g, [s]);
    assert ReachIn(g, s, s, 0);
  }

  /** A neighbour of a vertex is at most one edge further from s. */
  lemma DistStep(g: seq<seq<int>>, s: int, u: int, w: int)
    requires WellFormed(g) && 0 <= u < |g| && Reachable(g, s, u) && w in g[u]
    ensures Reachable(g, s, w) && Dist(g, s, w) <= Dist(g, s, u) + 1
  {
    ReachStep(g, s, u, w);
    DistShortest(g, s, u);
    DistShortest(g, s, w);
    var d := Dist(g, s, u);
    var p :| IsPath(g, p) && p[0] == s && p[|p| - 1] == u && |p| == d + 1;
    var q := p + [w];
    assert q[|q| - 2] == u;
    assert IsPath(g, q) && q[0] == s && q[|q| - 1] == w;
    assert ReachIn(g, s, w, d + 1);
  }

  /** A vertex at distance k + 1 has a neighbour-predecessor at distance
      at most k. */
  lemma DistPred(g: seq<seq<int>>, s: int, v: int) returns (u: int)
    requires Reachable(g, s, v) && Dist(g, s, v) > 0
    ensures 0 <= u < |g| && v in g[u] && Reachable(g, s, u) && Dist(g, s, u) < Dist(g, s, v)
  {
    DistShortest(g, s, v);
    var d := Dist(g, s, v);
    var p :| IsPath(g, p) && p[0] == s && p[|p| - 1] == v && |p| == d + 1;
    u := p[d - 1];
    var q := p[..d];
    assert IsPath(g, q) && q[0] == s && q[|q| - 1] == u;
    assert ReachIn(g, s, u, d - 1);
  }

  /** The vertices marked in vis. */
  function Marked(vis: seq<bool>): set<int>
  {
    set v | 0 <= v < |vis| && vis[v]
  }

  /** All neighbours of v are marked. */
  ghost predicate Done(g: seq<seq<int>>, vis: seq<bool>, v: int)
    requires 0 <= v < |g|
  {
    forall w :: w in g[v] ==> 0 <= w < |vis| && vis[w]
  }

  /** A marked set that holds s and the neighbours of each member holds
      every vertex s reaches. */
  lemma {:induction false} ClosedHoldsReach(g: seq<seq<int>>, vis: seq<bool>, s: int, t: int)
    requires |vis| == |g| && 0 <= s < |g| && vis[s] && Reachable(g, s, t)
    requires forall v :: 0 <= v < |g| && vis[v] ==> Done(g, vis, v)
    ensures 0 <= t < |g| && vis[t]
  {
    var p :| IsPath(g, p) && p[0] == s && p[|p| - 1] == t;
    var i := 0;
    while i < |p| - 1
      invariant 0 <= i < |p| && vis[p[i]]
    {
      assert Done(g, vis, p[i]) && p[i + 1] in g[p[i]];
      i := i + 1;
    }
  }

  /** A distinct sequence of vertices below n has at most n entries. */
  lemma DistinctBound(s: seq<int>, n: nat)
    requires Distinct(s) && forall x :: x in s ==> 0 <= x < n
    ensures |s| <= n
  {
    var elems := set x | x in s;
    assert elems <= Vertices(n);
    DistinctCard(s);
    SubsetCard(elems, Vertices(n));
  }

  /** A subset is no larger than its superset. */
  lemma SubsetCard(a: set<int>, b: set<int>)
    requires a <= b
    ensures |a| <= |b|
  {
    assert b == a + (b - a) && a * (b - a) == {};
  }

  /** A distinct sequence has as many elements as entries. */
  lemma {:induction false} DistinctCard(s: seq<int>)
    requires Distinct(s)
    ensures |set x | x in s| == |s|
  {
    if s != [] {
      var t := s[..|s| - 1];
      assert Distinct(t);
      DistinctCard(t);
      assert (set x | x in s) == (set x | x in t) + {s[|s| - 1]};
      assert s[|s| - 1] !in t;
    }
  }

  /** The set of vertices 0 .. n - 1. */
  function Vertices(n: nat): (r: set<int>)
    ensures |r| == n && forall x :: x in r <==> 0 <= x < n
  {
    if n == 0 then {} else Vertices(n - 1) + {n - 1}
  }

  /** Graph: num_vertices adjacency lists. */
  class Graph {
    const numVertices: nat
    const adj: array<seq<int>>

    ghost predicate Valid()
      reads this, adj
    {
      adj.Length == numVertices && WellFormed(adj[..]) && Symmetric(adj[..])
    }

    /** create_graph: every list starts empty. */
    constructor (vertices: nat)
      ensures Valid() && numVertices == vertices && fresh(adj)
      ensures forall u :: 0 <= u < vertices ==> adj[u] == []
    {
      numVertices := vertices;
      adj := new seq<int>[vertices](_ => []);
    }

    /** add_edge: dest goes to the head of src's list, then src to the head
        of dest's list (both to the same list for a loop). */
    method AddEdge(src: int, dest: int)
      requires Valid() && 0 <= src < numVertices && 0 <= dest < numVertices
      modifies adj
      ensures Valid()
      ensures src != dest ==> adj[src] == [dest] + old(adj[src]) && adj[dest] == [src] + old(adj[dest])
      ensures src == dest ==> adj[src] == [src, src] + old(adj[src])
      ensures forall u :: 0 <= u < numVertices && u != src && u != dest ==> adj[u] == old(adj[u])
    {
      adj[src] := [dest] + adj[src];
      adj[dest] := [src] + adj[dest];
      assert forall u, v :: 0 <= u < numVertices && v in adj[u] ==>
        v in old(adj[u]) || (u == src && v == dest) || (u == dest && v == src);
    }
  }

  /** The queue of bfs: a ring buffer of capacity slots whose rear starts
      at the last slot; enqueue does not check for a full buffer. */
  class BfsQueue {
    const items: array<int>
    const capacity: int
    var front: int
    var rear: int
    var size: int

    ghost predicate Valid()
      reads this
    {
      && items.Length == capacity > 0
      && 0 <= size <= capacity && 0 <= front < capacity && 0 <= rear < capacity
      && Queue.Wrap(rear + 1, capacity) == Queue.Wrap(front + size, capacity)
    }

    /** The queued vertices, oldest first. */
    ghost function Contents(): (q: seq<int>)
      reads this, items
      requires Valid()
      ensures |q| == size
    {
      Queue.Window(items[..], front, size)
    }

    /** create_queue */
    constructor (cap: int)
      requires cap > 0
      ensures Valid() && capacity == cap && Contents() == [] && fresh(items)
    {
      items := new int[cap];
      capacity := cap;
      front := 0;
      size := 0;
      rear := cap - 1;
    }

    /** is_empty */
    function IsEmpty(): (empty: bool)
      reads this, items
      requires Valid()
      ensures empty <==> Contents() == []
    {
      size == 0
    }

    /** enqueue: item goes into the slot after rear. */
    method Enqueue(item: int)
      requires Valid() && size < capacity
      modifies this, items
      ensures Valid() && Contents() == old(Contents()) + [item]
    {
      Queue.WindowPush(items[..], front, size, item);
      Queue.WrapIsMod(rear + 1, capacity);
      rear := (rear + 1) % capacity;
      items[rear] := item;
      size := size + 1;
    }

    /** dequeue: the item at front; front moves one slot on. */
    method Dequeue() returns (item: int)
      requires Valid() && size > 0
      modifies this
      ensures Valid() && item == old(Contents())[0] && Contents() == old(Contents())[1..]
    {
      Queue.WindowPop(items[..], front, size);
      item := items[front];
      Queue.WrapIsMod(front + 1, capacity);
      front := (front + 1) % capacity;
      size := size - 1;
    }
  }

  /** The vertices not yet marked in vis. */
  function Unmarked(vis: seq<bool>): set<int>
  {
    set v | 0 <= v < |vis| && !vis[v]
  }

  /** Marks only ever get added going from a to b. */
  ghost predicate Grows(a: seq<bool>, b: seq<bool>)
  {
    |a| == |b| && forall v :: 0 <= v < |a| && a[v] ==> b[v]
  }

  /** Every vertex marked in b but not in a is reachable from root, and
      (except root itself when partial) has all its neighbours marked. */
  ghost predicate Explored(g: seq<seq<int>>, a: seq<bool>, b: seq<bool>, root: int, partial: bool)
  {
    forall v :: 0 <= v < |b| && v < |a| && b[v] && !a[v] ==>
      0 <= v < |g| && Reachable(g, root, v) && ((partial && v == root) || Done(g, b, v))
  }

  /** Neighbours marked in a stay marked in b. */
  lemma DoneGrows(g: seq<seq<int>>, a: seq<bool>, b: seq<bool>, v: int)
    requires Grows(a, b) && 0 <= v < |g| && Done(g, a, v)
    ensures Done(g, b, v)
  {
  }

  /** After a depth-first call from w, a neighbour of root, the vertices
      root's loop has marked so far are still explored from root. */
  lemma ExploredCombine(g: seq<seq<int>>, v0: seq<bool>, a: seq<bool>, b: seq<bool>, root: int, w: int)
    requires WellFormed(g) && |g| == |v0| && 0 <= root < |g| && w in g[root]
    requires Grows(v0, a) && Grows(a, b)
    requires Explored(g, v0, a, root, true) && Explored(g, a, b, w, false)
    ensures Grows(v0, b) && Explored(g, v0, b, root, true)
  {
    forall v | 0 <= v < |b| && b[v] && !v0[v]
      ensures Reachable(g, root, v) && (v == root || Done(g, b, v))
    {
      if a[v] {
        if v != root {
          DoneGrows(g, a, b, v);
        }
      } else {
        ReachPrepend(g, root, w, v);
      }
    }
  }

  /** The part of a prefix e0 from m on, followed by what e adds after e0,
      is e from m on. */
  lemma SliceJoin(e0: seq<int>, e: seq<int>, m: int)
    requires 0 <= m <= |e0| <= |e| && e[..|e0|] == e0
    ensures e0[m..] + e[|e0|..] == e[m..]
  {
    assert forall i :: 0 <= i < |e0| - m ==> e0[m..][i] == e[..|e0|][m + i];
  }

  /** vis marks exactly the vertices of enq, which are distinct and
      reachable from start. */
  ghost predicate Marks(g: seq<seq<int>>, start: int, vis: seq<bool>, enq: seq<int>)
  {
    && |vis| == |g| && Distinct(enq)
    && (forall v :: v in enq ==> 0 <= v < |g| && Reachable(g, start, v))
    && (forall v :: 0 <= v < |g| ==> (vis[v] <==> v in enq))
  }

  /** Every vertex of s has all its neighbours marked in vis. */
  ghost predicate AllDone(g: seq<seq<int>>, vis: seq<bool>, s: seq<int>)
  {
    forall v :: v in s ==> 0 <= v < |g| && Done(g, vis, v)
  }

  /** Marking and enqueueing an unmarked neighbour of a reachable vertex
      keeps the marks in step with enq, and enq still fits in |g| slots. */
  lemma MarkOne(g: seq<seq<int>>, start: int, vis: seq<bool>, enq: seq<int>, u: int, w: int)
    requires WellFormed(g) && Marks(g, start, vis, enq)
    requires 0 <= u < |g| && Reachable(g, start, u) && w in g[u] && !vis[w]
    ensures Marks(g, start, vis[w := true], enq + [w]) && |enq| < |g|
  {
    ReachStep(g, start, u, w);
    assert Distinct(enq + [w]);
    DistinctBound(enq + [w], |g|);
  }

  /** Every vertex at most d away from start is marked in vis. */
  ghost predicate MarkedUpTo(g: seq<seq<int>>, start: int, vis: seq<bool>, d: nat)
  {
    forall v :: 0 <= v < |g| && v < |vis| && Reachable(g, start, v) && Dist(g, start, v) <= d ==> vis[v]
  }

  /** Every vertex of s is exactly d away from start. */
  ghost predicate AllAt(g: seq<seq<int>>, start: int, s: seq<int>, d: nat)
  {
    forall i :: 0 <= i < |s| ==> Reachable(g, start, s[i]) && Dist(g, start, s[i]) == d
  }

  /** A neighbour of u still unmarked, while everything at most u's
      distance is marked, is one edge further than u. */
  lemma NextLevel(g: seq<seq<int>>, start: int, v0: seq<bool>, vis: seq<bool>, u: int, w: int)
    requires WellFormed(g) && |v0| == |g| && 0 <= u < |g| && Reachable(g, start, u) && w in g[u]
    requires MarkedUpTo(g, start, v0, Dist(g, start, u)) && Grows(v0, vis) && !vis[w]
    ensures Reachable(g, start, w) && Dist(g, start, w) == Dist(g, start, u) + 1
  {
    DistStep(g, start, u, w);
  }

  /** The vertices one round of bfs enqueues, neighbours of u unmarked
      before the round while everything at most u's distance was marked,
      are all one edge further than u. */
  lemma NewLevel(g: seq<seq<int>>, start: int, v0: seq<bool>, enq0: seq<int>, enq: seq<int>, u: int)
    requires WellFormed(g) && |v0| == |g| && 0 <= u < |g| && Reachable(g, start, u)
    requires MarkedUpTo(g, start, v0, Dist(g, start, u))
    requires |enq0| <= |enq| && Distinct(enq) && enq[..|enq0|] == enq0
    requires forall v :: 0 <= v < |g| ==> (v0[v] <==> v in enq0)
    requires forall v :: v in enq[|enq0|..] ==> v in g[u]
    ensures AllAt(g, start, enq[|enq0|..], Dist(g, start, u) + 1)
  {
    var added := enq[|enq0|..];
    assert forall k :: 0 <= k < |enq0| ==> enq0[k] == enq[k];
    forall i | 0 <= i < |added|
      ensures Reachable(g, start, added[i]) && Dist(g, start, added[i]) == Dist(g, start, u) + 1
    {
      var w := added[i];
      assert w == enq[|enq0| + i] && w in g[u];
      assert w !in enq0;
      NextLevel(g, start, v0, v0, u, w);
    }
  }

  /** The inner loop of bfs: each unmarked neighbour of vertex is marked and
      enqueued; enq, the marked vertices in the order they were enqueued,
      grows by exactly those. */
  method VisitNeighbours(g: Graph, vertex: int, visited: array<bool>, queue: BfsQueue, ghost start: int, ghost enq0: seq<int>)
    returns (ghost enq: seq<int>)
    requires g.Valid() && 0 <= vertex < g.numVertices && Reachable(g.adj[..], start, vertex)
    requires queue.Valid() && queue.capacity == g.numVertices && queue.size <= |enq0|
    requires Marks(g.adj[..], start, visited[..], enq0)
    modifies visited, queue, queue.items
    ensures queue.Valid() && queue.capacity == g.numVertices && queue.size <= |enq|
    ensures |enq0| <= |enq| && forall v :: v in enq[|enq0|..] ==> v in g.adj[vertex]
    ensures Marks(g.adj[..], start, visited[..], enq)
    ensures |enq0| <= |enq| && enq[..|enq0|] == enq0
    ensures queue.Contents() == old(queue.Contents()) + enq[|enq0|..]
    ensures Grows(old(visited[..]), visited[..]) && Done(g.adj[..], visited[..], vertex)
  {
    ghost var G := g.adj[..];
    ghost var q0 := queue.Contents();
    ghost var added: seq<int> := [];
    enq := enq0;
    var nbrs := g.adj[vertex];
    var j := 0;
    while j < |nbrs|
      invariant 0 <= j <= |nbrs| && queue.Valid() && queue.capacity == g.numVertices && queue.size <= |enq|
      invariant Marks(G, start, visited[..], enq)
      invariant enq == enq0 + added && queue.Contents() == q0 + added
      invariant Grows(old(visited[..]), visited[..])
      invariant forall k :: 0 <= k < j ==> nbrs[k] in enq
      invariant forall v :: v in added ==> v in G[vertex]
    {
      var w := nbrs[j];
      assert nbrs == G[vertex] && w in G[vertex];
      if !visited[w] {
        ghost var vb := visited[..];
        MarkOne(G, start, vb, enq, vertex, w);
        visited[w] := true;
        assert visited[..] == vb[w := true];
        queue.Enqueue(w);
        added := added + [w];
        enq := enq + [w];
      }
      j := j + 1;
    }
    assert enq[..|enq0|] == enq0 && enq[|enq0|..] == added;
  }

  /** The state of bfs between two dequeues: order, the vertices dequeued
      so far, and the queue together make up enq, the marked vertices in the
      order they were marked, which starts with start; every dequeued
      vertex has all its neighbours marked. */
  ghost predicate BfsState(g: seq<seq<int>>, start: int, vis: seq<bool>, enq: seq<int>, order: seq<int>, q: seq<int>)
  {
    && Marks(g, start, vis, enq) && |enq| >= 1 && enq[0] == start
    && |order| <= |enq| && order == enq[..|order|] && q == enq[|order|..]
    && AllDone(g, vis, order)
  }

  /** The distances along e from start never decrease. */
  ghost predicate DistSorted(g: seq<seq<int>>, start: int, e: seq<int>)
  {
    && (forall v :: v in e ==> Reachable(g, start, v))
    && forall i, j :: 0 <= i < j < |e| ==> Dist(g, start, e[i]) <= Dist(g, start, e[j])
  }

  /** The levels of bfs: enq is sorted by distance, and with D the
      distance of the vertex dequeued last, everything enqueued is at most
      D + 1 away and everything still queued at least D. */
  ghost predicate Levels(g: seq<seq<int>>, start: int, enq: seq<int>, order: seq<int>, D: nat)
  {
    && DistSorted(g, start, enq) && |order| <= |enq|
    && (forall i :: 0 <= i < |enq| ==> Dist(g, start, enq[i]) <= D + 1)
    && (forall i :: |order| <= i < |enq| ==> D <= Dist(g, start, enq[i]))
  }

  /** When the front of the queue is at distance d, every vertex at most d
      away is already marked: its predecessor on a shortest walk is nearer,
      so it was dequeued before the front and had its neighbours marked. */
  lemma {:induction false} MarkedBelow(g: seq<seq<int>>, start: int, vis: seq<bool>, enq: seq<int>, order: seq<int>, v: int)
    requires WellFormed(g) && Marks(g, start, vis, enq) && |enq| >= 1 && enq[0] == start
    requires |order| < |enq| && order == enq[..|order|] && AllDone(g, vis, order)
    requires DistSorted(g, start, enq)
    requires 0 <= v < |g| && Reachable(g, start, v) && Dist(g, start, v) <= Dist(g, start, enq[|order|])
    ensures vis[v]
    decreases Dist(g, start, v)
  {
    DistZero(g, start, v);
    if Dist(g, start, v) > 0 {
      var u := DistPred(g, start, v);
      MarkedBelow(g, start, vis, enq, order, u);
      var i :| 0 <= i < |enq| && enq[i] == u;
      assert i < |order|;
      assert u == order[i] && u in order;
      assert Done(g, vis, u) && v in g[u];
    }
  }

  /** Before the first round only start is marked and enqueued, at
      distance 0. */
  lemma BfsStart(g: seq<seq<int>>, start: int, vis: seq<bool>)
    requires 0 <= start < |g| && |vis| == |g|
    requires forall v :: 0 <= v < |vis| ==> (vis[v] <==> v == start)
    ensures BfsState(g, start, vis, [start], [], [start])
    ensures Levels(g, start, [start], [], 0)
  {
    ReachRefl(g, start);
    DistZero(g, start, start);
  }

  /** When the front of the queue is at distance d, every vertex at most d
      away is marked. */
  lemma FrontMarked(g: seq<seq<int>>, start: int, vis: seq<bool>, enq: seq<int>, order: seq<int>)
    requires WellFormed(g) && Marks(g, start, vis, enq) && |enq| >= 1 && enq[0] == start
    requires |order| < |enq| && order == enq[..|order|] && AllDone(g, vis, order)
    requires DistSorted(g, start, enq)
    ensures Reachable(g, start, enq[|order|])
    ensures MarkedUpTo(g, start, vis, Dist(g, start, enq[|order|]))
  {
    assert enq[|order|] in enq;
    forall v | 0 <= v < |g| && v < |vis| && Reachable(g, start, v) && Dist(g, start, v) <= Dist(g, start, enq[|order|])
      ensures vis[v]
    {
      MarkedBelow(g, start, vis, enq, order, v);
    }
  }

  /** The levels after one round: the dequeued vertex, at distance D', sets
      the level, and the vertices it enqueued are all D' + 1 away. */
  lemma LevelsStep(g: seq<seq<int>>, start: int, enq0: seq<int>, enq: seq<int>, order0: seq<int>, D0: nat, vertex: int)
    requires Levels(g, start, enq0, order0, D0) && |order0| < |enq0| && vertex == enq0[|order0|]
    requires |enq0| <= |enq| && enq[..|enq0|] == enq0
    requires AllAt(g, start, enq[|enq0|..], Dist(g, start, vertex) + 1)
    ensures Levels(g, start, enq, order0 + [vertex], Dist(g, start, vertex))
  {
    var D := Dist(g, start, vertex);
    assert D0 <= D;
    forall i | |enq0| <= i < |enq|
      ensures Reachable(g, start, enq[i]) && Dist(g, start, enq[i]) == D + 1
    {
      assert enq[i] == enq[|enq0|..][i - |enq0|];
    }
    forall i | 0 <= i < |enq0|
      ensures enq[i] == enq0[i]
    {
      assert enq[..|enq0|][i] == enq0[i];
    }
    assert forall v :: v in enq ==> Reachable(g, start, v) by {
      forall v | v in enq
        ensures Reachable(g, start, v)
      {
        var i :| 0 <= i < |enq| && enq[i] == v;
        if i < |enq0| {
          assert enq0[i] in enq0;
        }
      }
    }
    forall i, j | 0 <= i < j < |enq|
      ensures Dist(g, start, enq[i]) <= Dist(g, start, enq[j])
    {
      if j < |enq0| {
        assert Dist(g, start, enq0[i]) <= Dist(g, start, enq0[j]);
      } else if i < |enq0| {
        assert Dist(g, start, enq0[i]) <= D0 + 1;
      }
    }
    forall i | |order0| + 1 <= i < |enq0|
      ensures D <= Dist(g, start, enq[i])
    {
      assert Dist(g, start, enq0[|order0|]) <= Dist(g, start, enq0[i]);
    }
  }

  /** One round of the outer loop of bfs: the front vertex is dequeued and
      its unmarked neighbours are marked and enqueued. */
  method BfsStep(g: Graph, visited: array<bool>, queue: BfsQueue, ghost start: int, ghost enq0: seq<int>, ghost order0: seq<int>,
                 ghost D0: nat)
    returns (vertex: int, ghost enq: seq<int>)
    requires g.Valid() && queue.Valid() && queue.capacity == g.numVertices && queue.size > 0
    requires BfsState(g.adj[..], start, visited[..], enq0, order0, queue.Contents())
    requires Levels(g.adj[..], start, enq0, order0, D0)
    modifies visited, queue, queue.items
    ensures queue.Valid() && queue.capacity == g.numVertices
    ensures BfsState(g.adj[..], start, visited[..], enq, order0 + [vertex], queue.Contents())
    ensures Reachable(g.adj[..], start, vertex) && Levels(g.adj[..], start, enq, order0 + [vertex], Dist(g.adj[..], start, vertex))
    ensures |order0| < |enq| <= g.numVertices
  {
    ghost var G := g.adj[..];
    ghost var v0 := visited[..];
    DistinctBound(enq0, g.numVertices);
    vertex := queue.Dequeue();
    assert vertex == enq0[|order0|] && vertex in enq0;
    FrontMarked(G, start, v0, enq0, order0);
    enq := VisitNeighbours(g, vertex, visited, queue, start, enq0);
    NewLevel(G, start, v0, enq0, enq, vertex);
    LevelsStep(G, start, enq0, enq, order0, D0, vertex);
    StepState(G, start, v0, visited[..], enq0, enq, order0);
    DistinctBound(enq, g.numVertices);
  }

  /** The state after one round: the front of the queue joins the dequeued
      vertices and the newly enqueued neighbours join the queue. */
  lemma StepState(g: seq<seq<int>>, start: int, v0: seq<bool>, vis: seq<bool>, enq0: seq<int>, enq: seq<int>, order0: seq<int>)
    requires |order0| < |enq0| && BfsState(g, start, v0, enq0, order0, enq0[|order0|..])
    requires Marks(g, start, vis, enq) && |enq0| <= |enq| && enq[..|enq0|] == enq0
    requires Grows(v0, vis) && 0 <= enq0[|order0|] < |g| && Done(g, vis, enq0[|order0|])
    ensures BfsState(g, start, vis, enq, order0 + [enq0[|order0|]], enq0[|order0| + 1..] + enq[|enq0|..])
  {
    forall v | v in order0
      ensures 0 <= v < |g| && Done(g, vis, v)
    {
      DoneGrows(g, v0, vis, v);
    }
    SliceJoin(enq0, enq, |order0| + 1);
    assert enq[..|order0| + 1] == enq0[..|order0| + 1];
  }

  /** bfs: marks and enqueues start, then dequeues vertices one at a time,
      marking and enqueueing each unmarked neighbour; the returned order is
      the order in which the source prints the dequeued vertices. Each
      vertex reachable from start comes out exactly once, start first, and
      nothing else does. A vertex is enqueued only when first marked, so the
      queue of num_vertices slots never overflows. */
  method Bfs(g: Graph, start: int) returns (order: seq<int>)
    requires g.Valid() && 0 <= start < g.numVertices
    ensures Distinct(order) && |order| >= 1 && order[0] == start
    ensures forall v :: v in order <==> 0 <= v < g.numVertices && Reachable(g.adj[..], start, v)
    ensures forall i, j :: 0 <= i < j < |order| ==>
      Reachable(g.adj[..], start, order[i]) && Reachable(g.adj[..], start, order[j]) &&
      Dist(g.adj[..], start, order[i]) <= Dist(g.adj[..], start, order[j])
  {
    ghost var G := g.adj[..];
    var visited := new bool[g.numVertices](_ => false);
    var queue := new BfsQueue(g.numVertices);
    visited[start] := true;
    queue.Enqueue(start);
    BfsStart(G, start, visited[..]);
    ghost var enq, D;
    order, enq, D := BfsDrain(g, start, visited, queue);
    BfsDone(G, start, visited[..], enq, order, D);
  }

  /** The outer loop of bfs: rounds until the queue is empty; order is the
      sequence of dequeued vertices. */
  method BfsDrain(g: Graph, start: int, visited: array<bool>, queue: BfsQueue)
    returns (order: seq<int>, ghost enq: seq<int>, ghost D: nat)
    requires g.Valid() && queue.Valid() && queue.capacity == g.numVertices
    requires BfsState(g.adj[..], start, visited[..], [start], [], queue.Contents())
    requires Levels(g.adj[..], start, [start], [], 0)
    modifies visited, queue, queue.items
    ensures BfsState(g.adj[..], start, visited[..], enq, order, []) && Levels(g.adj[..], start, enq, order, D)
  {
    ghost var G := g.adj[..];
    order := [];
    enq := [start];
    D := 0;
    while !queue.IsEmpty()
      invariant queue.Valid() && queue.capacity == g.numVertices
      invariant G == g.adj[..]
      invariant BfsState(G, start, visited[..], enq, order, queue.Contents())
      invariant Levels(G, start, enq, order, D)
      decreases g.numVertices - |order|
    {
      DistinctBound(enq, g.numVertices);
      var vertex;
      vertex, enq := BfsStep(g, visited, queue, start, enq, order, D);
      D := Dist(G, start, vertex);
      order := order + [vertex];
    }
  }

  /** Once the queue is empty, the dequeued vertices are every vertex start
      reaches, each once, in order of distance. */
  lemma BfsDone(g: seq<seq<int>>, start: int, vis: seq<bool>, enq: seq<int>, order: seq<int>, D: nat)
    requires BfsState(g, start, vis, enq, order, []) && Levels(g, start, enq, order, D)
    ensures Distinct(order) && |order| >= 1 && order[0] == start
    ensures forall v :: v in order <==> 0 <= v < |g| && Reachable(g, start, v)
    ensures forall i, j :: 0 <= i < j < |order| ==>
      Reachable(g, start, order[i]) && Reachable(g, start, order[j]) &&
      Dist(g, start, order[i]) <= Dist(g, start, order[j])
  {
    assert order == enq;
    forall v | 0 <= v < |g| && Reachable(g, start, v)
      ensures v in order
    {
      ClosedHoldsReach(g, vis, start, v);
    }
    forall i, j | 0 <= i < j < |order|
      ensures Reachable(g, start, order[i]) && Reachable(g, start, order[j])
    {
      assert order[i] in enq && order[j] in enq;
    }
  }

  /** has_path_helper: 1 as soon as the walk stands on target; otherwise
      current is marked and each unmarked neighbour is searched in turn.
      A 0 leaves target unmarked and every newly marked vertex reachable
      from current with all its neighbours marked. */
  method HasPathHelper(g: Graph, current: int, target: int, visited: array<bool>) returns (r: int)
    requires g.Valid() && visited.Length == g.numVertices
    requires 0 <= current < g.numVertices && 0 <= target < g.numVertices
    requires !visited[current] && !visited[target]
    modifies visited
    decreases Unmarked(visited[..])
    ensures r == 0 || r == 1
    ensures Grows(old(visited[..]), visited[..])
    ensures r == 1 ==> Reachable(g.adj[..], current, target)
    ensures r == 0 ==> visited[current] && !visited[target] && Explored(g.adj[..], old(visited[..]), visited[..], current, false)
  {
    ghost var G := g.adj[..];
    if current == target {
      ReachRefl(G, current);
      return 1;
    }
    ghost var v0 := visited[..];
    visited[current] := true;
    ReachRefl(G, current);
    var nbrs := g.adj[current];
    var j := 0;
    while j < |nbrs|
      invariant 0 <= j <= |nbrs| && visited[current] && !visited[target]
      invariant Grows(v0, visited[..]) && Explored(G, v0, visited[..], current, true)
      invariant forall k :: 0 <= k < j ==> 0 <= nbrs[k] < visited.Length && visited[nbrs[k]]
    {
      var w := nbrs[j];
      assert nbrs == G[current] && w in G[current];
      if !visited[w] {
        ghost var a := visited[..];
        assert Unmarked(a) < Unmarked(v0) by {
          assert current in Unmarked(v0) - Unmarked(a);
        }
        var found := HasPathHelper(g, w, target, visited);
        if found == 1 {
          ReachPrepend(G, current, w, target);
          return 1;
        }
        ExploredCombine(G, v0, a, visited[..], current, w);
      }
      j := j + 1;
    }
    return 0;
  }

  /** has_path: a depth-first search from start over a fresh, unmarked
      visited array; 1 exactly when end is reachable. */
  method HasPath(g: Graph, start: int, end: int) returns (r: int)
    requires g.Valid() && 0 <= start < g.numVertices && 0 <= end < g.numVertices
    ensures r == 0 || r == 1
    ensures r == 1 <==> Reachable(g.adj[..], start, end)
  {
    var visited := new bool[g.numVertices](_ => false);
    ghost var v0 := visited[..];
    r := HasPathHelper(g, start, end, visited);
    if r == 0 && Reachable(g.adj[..], start, end) {
      forall v | 0 <= v < visited.Length && visited[v]
        ensures Done(g.adj[..], visited[..], v)
      {
        assert !v0[v];
      }
      ClosedHoldsReach(g.adj[..], visited[..], start, end);
      assert false;
    }
  }

  /** dfs_component: marks vertex and searches each unmarked neighbour in
      turn; every newly marked vertex is reachable from vertex and has all
      its neighbours marked. */
  method DfsComponent(g: Graph, vertex: int, visited: array<bool>)
    requires g.Valid() && visited.Length == g.numVertices
    requires 0 <= vertex < g.numVertices && !visited[vertex]
    modifies visited
    decreases Unmarked(visited[..])
    ensures visited[vertex] && Grows(old(visited[..]), visited[..])
    ensures Explored(g.adj[..], old(visited[..]), visited[..], vertex, false)
  {
    ghost var G := g.adj[..];
    ghost var v0 := visited[..];
    visited[vertex] := true;
    ReachRefl(G, vertex);
    var nbrs := g.adj[vertex];
    var j := 0;
    while j < |nbrs|
      invariant 0 <= j <= |nbrs| && visited[vertex]
      invariant Grows(v0, visited[..]) && Explored(G, v0, visited[..], vertex, true)
      invariant forall k :: 0 <= k < j ==> 0 <= nbrs[k] < visited.Length && visited[nbrs[k]]
    {
      var w := nbrs[j];
      assert nbrs == G[vertex] && w in G[vertex];
      if !visited[w] {
        ghost var a := visited[..];
        assert Unmarked(a) < Unmarked(v0) by {
          assert vertex in Unmarked(v0) - Unmarked(a);
        }
        DfsComponent(g, w, visited);
        ExploredCombine(G, v0, a, visited[..], vertex, w);
      }
      j := j + 1;
    }
  }

  /** r is the smallest vertex of its connected component. */
  ghost predicate IsRep(g: seq<seq<int>>, r: int)
  {
    0 <= r < |g| && forall j :: 0 <= j < r ==> !Reachable(g, r, j)
  }

  /** The component representatives below i. */
  ghost function Reps(g: seq<seq<int>>, i: int): set<int>
  {
    set r | 0 <= r < i && IsRep(g, r)
  }

  /** The number of connected components: one per representative. */
  ghost function NumComponents(g: seq<seq<int>>): nat
  {
    |Reps(g, |g|)|
  }

  /** vis marks exactly the vertices reachable from some vertex below i. */
  ghost predicate CoveredBy(g: seq<seq<int>>, vis: seq<bool>, i: int)
  {
    |vis| == |g| && forall v :: 0 <= v < |g| ==> (vis[v] <==> exists j :: 0 <= j < i && Reachable(g, j, v))
  }

  /** A vertex not reached from below is a representative. */
  lemma NewRep(g: seq<seq<int>>, a: seq<bool>, i: int)
    requires Symmetric(g) && CoveredBy(g, a, i) && 0 <= i < |g| && !a[i]
    ensures Reps(g, i + 1) == Reps(g, i) + {i} && i !in Reps(g, i)
  {
    forall j | 0 <= j < i
      ensures !Reachable(g, i, j)
    {
      if Reachable(g, i, j) {
        ReachSym(g, i, j);
        assert false;
      }
    }
    assert IsRep(g, i);
  }

  /** A vertex reached from below is not a representative and adds
      nothing to the covered set. */
  lemma OldRep(g: seq<seq<int>>, a: seq<bool>, i: int)
    requires Symmetric(g) && CoveredBy(g, a, i) && 0 <= i < |g| && a[i]
    ensures Reps(g, i + 1) == Reps(g, i) && CoveredBy(g, a, i + 1)
  {
    var j0 :| 0 <= j0 < i && Reachable(g, j0, i);
    ReachSym(g, j0, i);
    assert !IsRep(g, i);
    forall v | 0 <= v < |g| && Reachable(g, i, v)
      ensures a[v]
    {
      ReachTrans(g, j0, i, v);
    }
  }

  /** After dfs_component from an unreached vertex i, exactly the vertices
      reachable from below i + 1 are marked. */
  lemma CoverGrows(g: seq<seq<int>>, a: seq<bool>, b: seq<bool>, i: int)
    requires WellFormed(g) && CoveredBy(g, a, i) && 0 <= i < |g| && !a[i]
    requires |b| == |g| && b[i] && Grows(a, b) && Explored(g, a, b, i, false)
    ensures CoveredBy(g, b, i + 1)
  {
    forall u | 0 <= u < |g| && b[u]
      ensures Done(g, b, u)
    {
      if a[u] {
        var j :| 0 <= j < i && Reachable(g, j, u);
        forall w | w in g[u]
          ensures b[w]
        {
          ReachStep(g, j, u, w);
        }
      }
    }
    forall v | 0 <= v < |g|
      ensures b[v] <==> exists j :: 0 <= j < i + 1 && Reachable(g, j, v)
    {
      if Reachable(g, i, v) {
        ClosedHoldsReach(g, b, i, v);
      }
    }
  }

  /** count_components: a depth-first search from every vertex still
      unmarked, counting the searches; the count is the number of
      connected components. */
  method CountComponents(g: Graph) returns (count: int)
    requires g.Valid()
    ensures count == NumComponents(g.adj[..])
  {
    ghost var G := g.adj[..];
    var visited := new bool[g.numVertices](_ => false);
    count := 0;
    var i := 0;
    while i < g.numVertices
      invariant 0 <= i <= g.numVertices && visited.Length == g.numVertices
      invariant CoveredBy(G, visited[..], i) && count == |Reps(G, i)|
    {
      if !visited[i] {
        ghost var a := visited[..];
        NewRep(G, a, i);
        DfsComponent(g, i, visited);
        CoverGrows(G, a, visited[..], i);
        count := count + 1;
      } else {
        OldRep(G, visited[..], i);
      }
      i := i + 1;
    }
  }
}
