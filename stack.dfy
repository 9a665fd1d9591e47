/** The LIFO stacks of DataStructures/examples/03_stack.c (array-based and
    linked), and the two applications built on the array stack: bracket
    matching and string reversal. */
module Stack {
  import opened Common

  /** ArrayStack: items[0..top] hold the stack, bottom first; top is -1
      when the stack is empty. */
  class ArrayStack {
    const items: array<int>
    const capacity: int
    var top: int

    ghost predicate Valid()
      reads this
    {
      items.Length == capacity && -1 <= top <= capacity - 1
    }

    /** The stacked items, bottom first. */
    ghost function Contents(): (s: seq<int>)
      reads this, items
      requires Valid()
      ensures |s| == top + 1
    {
      items[..top + 1]
    }

    /** create_array_stack */
    constructor (cap: nat)
      ensures Valid() && capacity == cap && Contents() == [] && fresh(items)
    {
      items := new int[cap];
      capacity := cap;
      top := -1;
    }

    /** is_full_array */
    function IsFull(): (full: bool)
      reads this
      requires Valid()
      ensures full <==> |Contents()| == capacity
    {
      top == capacity - 1
    }

    /** is_empty_array */
    function IsEmpty(): (empty: bool)
      reads this
      requires Valid()
      ensures empty <==> Contents() == []
    {
      top == -1
    }

    /** push_array: a full stack is left as it is; otherwise item goes on top. */
    method Push(item: int)
      requires Valid()
      modifies this, items
      ensures Valid()
      ensures old(top) == capacity - 1 ==> top == old(top) && items[..] == old(items[..])
      ensures old(top) < capacity - 1 ==> Contents() == old(Contents()) + [item] && top == old(top) + 1
    {
      if IsFull() {
        return;
      }
      top := top + 1;
      items[top] := item;
      assert Contents() == old(Contents()) + [item];
    }

    /** pop_array: -1 from an empty stack, which is left as it is; otherwise
        the most recently pushed item, which is removed. */
    method Pop() returns (r: int)
      requires Valid()
      modifies this
      ensures Valid()
      ensures old(top) == -1 ==> r == -1 && top == -1
      ensures old(top) > -1 ==>
        r == old(Contents())[|old(Contents())| - 1] && Contents() == old(Contents())[..|old(Contents())| - 1]
    {
      if IsEmpty() {
        return -1;
      }
      r := items[top];
      top := top - 1;
    }

    /** peek_array: the top item, or -1 when empty. */
    function Peek(): (r: int)
      reads this, items
      requires Valid()
      ensures r == (if Contents() == [] then -1 else Contents()[|Contents()| - 1])
    {
      if top == -1 then -1 else items[top]
    }
  }

  /** A StackNode. */
  class Node {
    var data: int
    var next: Node?

    constructor (d: int, n: Node?)
      ensures data == d && next == n
    {
      data := d;
      next := n;
    }
  }

  /** LinkedStack: top points at the newest node and each node's next at the
      one pushed before it. The ghost nodes lists the chain, top first. */
  class LinkedStack {
    var top: Node?
    var size: int
    ghost var nodes: seq<Node>

    ghost predicate Valid()
      reads this, nodes
    {
      && size == |nodes|
      && top == (if nodes == [] then null else nodes[0])
      && (forall i :: 0 <= i < |nodes| - 1 ==> nodes[i].next == nodes[i + 1])
      && (nodes != [] ==> nodes[|nodes| - 1].next == null)
    }

    /** The stacked items, top first. */
    ghost function Contents(): (s: seq<int>)
      reads this, nodes
      ensures |s| == |nodes|
    {
      seq(|nodes|, i requires 0 <= i < |nodes| reads this, nodes => nodes[i].data)
    }

    /** create_linked_stack */
    constructor ()
      ensures Valid() && Contents() == [] && top == null
    {
      top := null;
      size := 0;
      nodes := [];
    }

    /** is_empty_linked: top is null exactly when nothing is stacked. */
    function IsEmpty(): (empty: bool)
      reads this, nodes
      requires Valid()
      ensures empty <==> Contents() == []
    {
      top == null
    }

    /** push_linked: a fresh node carrying data becomes the top. */
    method Push(data: int)
      requires Valid()
      modifies this
      ensures Valid() && Contents() == [data] + old(Contents()) && size == old(size) + 1 && fresh(top)
    {
      var node := new Node(data, top);
      top := node;
      nodes := [node] + nodes;
      size := size + 1;
    }

    /** pop_linked: -1 from an empty stack, which is left as it is;
        otherwise the data of the top node, which is unlinked. */
    method Pop() returns (r: int)
      requires Valid()
      modifies this
      ensures Valid()
      ensures old(nodes) == [] ==> r == -1 && nodes == [] && size == 0
      ensures old(nodes) != [] ==> r == old(Contents())[0] && Contents() == old(Contents())[1..]
    {
      if IsEmpty() {
        return -1;
      }
      var temp := top;
      r := temp.data;
      top := top.next;
      nodes := nodes[1..];
      size := size - 1;
    }

    /** peek_linked: the top item, or -1 when empty. */
    function Peek(): (r: int)
      reads this, nodes
      requires Valid()
      ensures r == (if Contents() == [] then -1 else Contents()[0])
    {
      if top == null then -1 else top.data
    }
  }

  // Bracket matching

  predicate IsOpen(c: char) { c == '(' || c == '{' || c == '[' }

  predicate IsClose(c: char) { c == ')' || c == '}' || c == ']' }

  /** The closer c fits the opener code on top of the stack. */
  predicate Fits(c: char, top: int)
  {
    && (c == ')' ==> top == '(' as int)
    && (c == '}' ==> top == '{' as int)
    && (c == ']' ==> top == '[' as int)
  }

  /** The bracket scan with an unbounded stack: openers are pushed, a closer
      must fit the top, which it pops; other chars are skipped. None means a
      closer found an empty stack or a misfit; otherwise the final stack. */
  function Scan(s: seq<char>, st: seq<int>): Option<seq<int>>
  {
    if s == [] then Some(st)
    else if IsOpen(s[0]) then Scan(s[1..], st + [s[0] as int])
    else if IsClose(s[0]) then
      if st == [] || !Fits(s[0], st[|st| - 1]) then None else Scan(s[1..], st[..|st| - 1])
    else Scan(s[1..], st)
  }

  /** Brackets in s are properly nested and matched. */
  predicate Matched(s: seq<char>)
  {
    Scan(s, []) == Some([])
  }

  /** The scan as is_balanced performs it, on a stack of cap slots whose
      push_array drops an opener when the stack is full. */
  function ScanCapped(s: seq<char>, st: seq<int>, cap: int): Option<seq<int>>
  {
    if s == [] then Some(st)
    else if IsOpen(s[0]) then ScanCapped(s[1..], if |st| == cap then st else st + [s[0] as int], cap)
    else if IsClose(s[0]) then
      if st == [] || !Fits(s[0], st[|st| - 1]) then None else ScanCapped(s[1..], st[..|st| - 1], cap)
    else ScanCapped(s[1..], st, cap)
  }

  /** Scanning a + b scans b from wherever a left the stack. */
  lemma {:induction false} ScanAppend(a: seq<char>, b: seq<char>, st: seq<int>)
    ensures Scan(a + b, st) == (if Scan(a, st).None? then None else Scan(b, Scan(a, st).value))
    decreases |a|
  {
    if a != [] {
      assert (a + b)[1..] == a[1..] + b;
      var c := a[0];
      if IsOpen(c) {
        ScanAppend(a[1..], b, st + [c as int]);
      } else if IsClose(c) {
        if !(st == [] || !Fits(c, st[|st| - 1])) {
          ScanAppend(a[1..], b, st[..|st| - 1]);
        }
      } else {
        ScanAppend(a[1..], b, st);
      }
    } else {
      assert a + b == b;
    }
  }

  /** A successful scan runs the same on top of any deeper stack. */
  lemma {:induction false} ScanBelow(s: seq<char>, base: seq<int>, st: seq<int>)
    requires Scan(s, st).Some?
    ensures Scan(s, base + st) == Some(base + Scan(s, st).value)
    decreases |s|
  {
    if s != [] {
      var c := s[0];
      if IsOpen(c) {
        assert (base + st) + [c as int] == base + (st + [c as int]);
        ScanBelow(s[1..], base, st + [c as int]);
      } else if IsClose(c) {
        assert (base + st)[..|base + st| - 1] == base + st[..|st| - 1];
        ScanBelow(s[1..], base, st[..|st| - 1]);
      } else {
        ScanBelow(s[1..], base, st);
      }
    }
  }

  /** Matched strings are closed under concatenation. */
  lemma MatchedConcat(a: seq<char>, b: seq<char>)
    requires Matched(a) && Matched(b)
    ensures Matched(a + b)
  {
    ScanAppend(a, b, []);
  }

  /** Wrapping a matched string in a fitting pair of brackets keeps it matched. */
  lemma MatchedWrap(o: char, a: seq<char>, c: char)
    requires IsOpen(o) && IsClose(c) && Fits(c, o as int) && Matched(a)
    ensures Matched([o] + a + [c])
  {
    var w := [o] + a + [c];
    assert w[0] == o && w[1..] == a + [c];
    assert [] + [o as int] == [o as int] == [o as int] + [];
    assert Scan(w, []) == Scan(a + [c], [o as int]);
    ScanAppend(a, [c], [o as int]);
    ScanBelow(a, [o as int], []);
    assert [c][1..] == [] && [o as int][..0] == [];
    assert Scan([c], [o as int]) == Scan([], []);
  }

  /** A closer with nothing open, or a lone opener, is not matched. */
  lemma UnmatchedSingles(c: char)
    requires IsOpen(c) || IsClose(c)
    ensures !Matched([c])
  {
    var s := [c];
    assert s[0] == c && s[1..] == [] && [] + [c as int] == [c as int];
    if IsOpen(c) {
      assert Scan(s, []) == Scan([], [c as int]) == Some([c as int]);
    } else {
      assert Scan(s, []) == None;
    }
  }

  /** With room for every char of s, the capped scan is the true scan. */
  lemma {:induction false} CappedAgrees(s: seq<char>, st: seq<int>, cap: int)
    requires |st| + |s| <= cap
    ensures ScanCapped(s, st, cap) == Scan(s, st)
    decreases |s|
  {
    if s != [] {
      var c := s[0];
      if IsOpen(c) {
        CappedAgrees(s[1..], st + [c as int], cap);
      } else if IsClose(c) {
        if !(st == [] || !Fits(c, st[|st| - 1])) {
          CappedAgrees(s[1..], st[..|st| - 1], cap);
        }
      } else {
        CappedAgrees(s[1..], st, cap);
      }
    }
  }

  function Repeat(c: char, n: nat): (s: seq<char>)
    ensures |s| == n && forall i :: 0 <= i < n ==> s[i] == c
  {
    seq(n, _ => c)
  }

  /** A stack of n '(' codes. */
  function Opens(n: nat): (st: seq<int>)
    ensures |st| == n && forall i :: 0 <= i < n ==> st[i] == '(' as int
  {
    seq(n, _ => '(' as int)
  }

  /** n openers on top of k: the true scan keeps them all, the capped scan
      stops at cap. */
  lemma {:induction false} ScanOpeners(n: nat, rest: seq<char>, k: nat, cap: nat)
    requires k <= cap
    ensures Scan(Repeat('(', n) + rest, Opens(k)) == Scan(rest, Opens(k + n))
    ensures ScanCapped(Repeat('(', n) + rest, Opens(k), cap)
         == ScanCapped(rest, Opens(if k + n <= cap then k + n else cap), cap)
    decreases n
  {
    if n == 0 {
      assert Repeat('(', n) + rest == rest;
    } else {
      assert (Repeat('(', n) + rest)[1..] == Repeat('(', n - 1) + rest;
      assert Opens(k) + ['(' as int] == Opens(k + 1);
      if k == cap {
        ScanOpeners(n - 1, rest, k, cap);
        ScanOpeners(n - 1, rest, k + 1, cap + 1);
      } else {
        ScanOpeners(n - 1, rest, k + 1, cap);
      }
    }
  }

  /** n closers against k >= n openers pop n of them, in both scans. */
  lemma {:induction false} ScanClosers(n: nat, k: nat, cap: int)
    requires n <= k
    ensures Scan(Repeat(')', n), Opens(k)) == Some(Opens(k - n))
    ensures ScanCapped(Repeat(')', n), Opens(k), cap) == Some(Opens(k - n))
    decreases n
  {
    if n > 0 {
      assert Repeat(')', n)[1..] == Repeat(')', n - 1);
      assert Opens(k)[..k - 1] == Opens(k - 1);
      ScanClosers(n - 1, k - 1, cap);
    }
  }

  /** The input is_balanced accepts although its brackets do not match:
      101 openers and 100 closers. The 101st opener is dropped by the full
      100-slot stack, so every closer finds a partner and the stack ends
      empty. */
  lemma CappedAcceptsUnmatched()
    ensures ScanCapped(Repeat('(', 101) + Repeat(')', 100), [], 100) == Some([])
    ensures !Matched(Repeat('(', 101) + Repeat(')', 100))
  {
    assert Opens(0) == [];
    ScanOpeners(101, Repeat(')', 100), 0, 100);
    ScanClosers(100, 100, 100);
    ScanClosers(100, 101, 100);
    assert Opens(1) != [];
  }

  /** And one it rejects although they match: 101 openers, 101 closers. */
  lemma CappedRejectsMatched()
    ensures ScanCapped(Repeat('(', 101) + Repeat(')', 101), [], 100) == None
    ensures Matched(Repeat('(', 101) + Repeat(')', 101))
  {
    assert Opens(0) == [];
    ScanOpeners(101, Repeat(')', 101), 0, 100);
    ScanClosers(101, 101, 100);
    ScanTooManyClosers(101, 100, 100);
  }

  /** More closers than openers: the capped scan fails. */
  lemma {:induction false} ScanTooManyClosers(n: nat, k: nat, cap: int)
    requires n > k
    ensures ScanCapped(Repeat(')', n), Opens(k), cap) == None
    decreases k
  {
    assert Repeat(')', n)[1..] == Repeat(')', n - 1);
    if k > 0 {
      assert Opens(k)[..k - 1] == Opens(k - 1);
      ScanTooManyClosers(n - 1, k - 1, cap);
    }
  }

  /** The loop of is_balanced over an array stack of cap slots: 1 when the
      capped scan ends with an empty stack, 0 when it fails or leaves
      openers behind. */
  method BalancedOnStack(expr: seq<char>, cap: nat) returns (r: int)
    ensures r == (if ScanCapped(expr, [], cap) == Some([]) then 1 else 0)
  {
    var stack := new ArrayStack(cap);
    var i := 0;
    while i < |expr|
      invariant 0 <= i <= |expr| && stack.Valid() && stack.capacity == cap
      invariant ScanCapped(expr, [], cap) == ScanCapped(expr[i..], stack.Contents(), cap)
    {
      assert expr[i..][0] == expr[i] && expr[i..][1..] == expr[i + 1..];
      var c := expr[i];
      if c == '(' || c == '{' || c == '[' {
        stack.Push(c as int);
      } else if c == ')' || c == '}' || c == ']' {
        if stack.IsEmpty() {
          return 0;
        }
        var top := stack.Pop();
        if (c == ')' && top != '(' as int) || (c == '}' && top != '{' as int) || (c == ']' && top != '[' as int) {
          return 0;
        }
      }
      i := i + 1;
    }
    assert expr[i..] == [];
    r := if stack.IsEmpty() then 1 else 0;
  }

  /** is_balanced as written: the stack has 100 slots. */
  method IsBalanced(expr: seq<char>) returns (r: int)
    ensures r == (if ScanCapped(expr, [], 100) == Some([]) then 1 else 0)
    ensures |expr| <= 100 ==> (r == 1 <==> Matched(expr))
  {
    r := BalancedOnStack(expr, 100);
    if |expr| <= 100 {
      CappedAgrees(expr, [], 100);
    }
  }

  /** is_balanced with a stack sized to the input, as reverse_string sizes
      its stack: 1 exactly when the brackets match. */
  method IsBalancedFixed(expr: seq<char>) returns (r: int)
    ensures r == 1 <==> Matched(expr)
    ensures r == 0 || r == 1
  {
    r := BalancedOnStack(expr, |expr|);
    CappedAgrees(expr, [], |expr|);
  }

  /** The char codes of s. */
  function Codes(s: seq<char>): (c: seq<int>)
    ensures |c| == |s| && forall i :: 0 <= i < |s| ==> c[i] == s[i] as int
  {
    seq(|s|, i requires 0 <= i < |s| => s[i] as int)
  }

  /** reverse_string: every char is pushed on a stack of strlen(str) slots,
      then popped back over str from the start: str ends reversed. */
  method ReverseString(str: array<char>)
    modifies str
    ensures str[..] == Reverse(old(str[..]))
  {
    ghost var orig := str[..];
    var stack := new ArrayStack(str.Length);
    for i := 0 to str.Length
      invariant stack.Valid() && stack.capacity == str.Length && fresh(stack.items)
      invariant stack.Contents() == Codes(orig[..i]) && str[..] == orig
    {
      stack.Push(str[i] as int);
      assert Codes(orig[..i + 1]) == Codes(orig[..i]) + [str[i] as int];
    }
    var i := 0;
    while !stack.IsEmpty()
      invariant stack.Valid() && fresh(stack.items) && 0 <= i <= str.Length
      invariant stack.Contents() == Codes(orig[..str.Length - i])
      invariant forall j :: 0 <= j < i ==> str[j] == orig[str.Length - 1 - j]
      invariant forall j :: i <= j < str.Length ==> str[j] == orig[j]
      decreases |stack.Contents()|
    {
      var x := stack.Pop();
      assert x == orig[str.Length - 1 - i] as int;
      str[i] := x as char;
      i := i + 1;
    }
  }
}
