/** The binary search tree of DataStructures/examples/05_binary_tree.c. The
    C functions take a root pointer and return the root of the updated
    tree; here a tree is a value and each operation returns the new tree. */
module BinaryTree {
  import opened Common

  /** A TreeNode pointer: Nil for NULL. */
  datatype Tree = Nil | Node(left: Tree, data: int, right: Tree)

  /** The keys held in t. */
  function Keys(t: Tree): set<int>
  {
    match t
    case Nil => {}
    case Node(l, d, r) => Keys(l) + {d} + Keys(r)
  }

  /** Search-tree order: every key left of a node is smaller than it, every
      key right of it larger (insert never stores a duplicate). */
  predicate IsBst(t: Tree)
  {
    match t
    case Nil => true
    case Node(l, d, r) =>
      && IsBst(l) && IsBst(r)
      && (forall k :: k in Keys(l) ==> k < d)
      && (forall k :: k in Keys(r) ==> k > d)
  }

  /** insert: a new leaf where the search for data falls off the tree; a key
      already present leaves the tree as it is. */
  function Insert(t: Tree, data: int): (r: Tree)
    ensures Keys(r) == Keys(t) + {data}
    ensures IsBst(t) ==> IsBst(r)
  {
    match t
    case Nil => Node(Nil, data, Nil)
    case Node(l, d, rt) =>
      if data < d then Node(Insert(l, data), d, rt)
      else if data > d then Node(l, d, Insert(rt, data))
      else t
  }

  /** Inserting a key that is already present returns the same tree. */
  lemma {:induction false} InsertDuplicate(t: Tree, data: int)
    requires IsBst(t) && data in Keys(t)
    ensures Insert(t, data) == t
  {
    match t
    case Node(l, d, r) =>
      if data < d {
        InsertDuplicate(l, data);
      } else if data > d {
        InsertDuplicate(r, data);
      }
  }

  /** search: the subtree rooted at the node holding target, or Nil. */
  function Search(t: Tree, target: int): (r: Tree)
    ensures r.Node? ==> r.data == target && target in Keys(t)
    ensures IsBst(t) ==> (r.Node? <==> target in Keys(t))
  {
    match t
    case Nil => Nil
    case Node(l, d, rt) =>
      if d == target then t
      else if target < d then Search(l, target)
      else Search(rt, target)
  }

  /** The key find_min reaches: the leftmost node's. */
  function MinKey(t: Tree): (m: int)
    requires t.Node?
    ensures m in Keys(t)
    ensures IsBst(t) ==> forall k :: k in Keys(t) ==> m <= k
  {
    if t.left == Nil then t.data else MinKey(t.left)
  }

  /** find_min: follows left links from a non-NULL root. */
  method FindMin(root: Tree) returns (r: Tree)
    requires root.Node?
    ensures r.Node? && r.left == Nil && r.data == MinKey(root)
  {
    r := root;
    while r.left != Nil
      invariant r.Node? && MinKey(r) == MinKey(root)
      decreases r
    {
      r := r.left;
    }
  }

  /** delete_node: removes the node holding data. A node with at most one
      child is replaced by that child; one with two children takes the
      smallest key of its right subtree, which is then deleted there. */
  function Delete(t: Tree, data: int): (r: Tree)
    ensures IsBst(t) ==> IsBst(r) && Keys(r) == Keys(t) - {data}
  {
    match t
    case Nil => Nil
    case Node(l, d, rt) =>
      if data < d then Node(Delete(l, data), d, rt)
      else if data > d then Node(l, d, Delete(rt, data))
      else if l == Nil then rt
      else if rt == Nil then l
      else
        var m := MinKey(rt);
        Node(l, m, Delete(rt, m))
  }

  /** Deleting a key that is absent returns the same tree. */
  lemma {:induction false} DeleteAbsent(t: Tree, data: int)
    requires data !in Keys(t)
    ensures Delete(t, data) == t
  {
    match t
    case Nil =>
    case Node(l, d, r) =>
      if data < d {
        DeleteAbsent(l, data);
      } else if data > d {
        DeleteAbsent(r, data);
      }
  }

  /** inorder: left subtree, node, right subtree. */
  function Inorder(t: Tree): (s: seq<int>)
    ensures forall x :: x in s <==> x in Keys(t)
  {
    match t
    case Nil => []
    case Node(l, d, r) => Inorder(l) + [d] + Inorder(r)
  }

  /** preorder: node, left subtree, right subtree. It lists the same keys
      as the inorder walk, as often, with the root first. */
  function Preorder(t: Tree): (s: seq<int>)
    ensures |s| == Size(t)
    ensures multiset(s) == multiset(Inorder(t))
    ensures t.Node? ==> s[0] == t.data
  {
    match t
    case Nil => []
    case Node(l, d, r) => [d] + Preorder(l) + Preorder(r)
  }

  /** postorder: left subtree, right subtree, node. It lists the same keys
      as the inorder walk, as often, with the root last. */
  function Postorder(t: Tree): (s: seq<int>)
    ensures |s| == Size(t)
    ensures multiset(s) == multiset(Inorder(t))
    ensures t.Node? ==> s[|s| - 1] == t.data
  {
    match t
    case Nil => []
    case Node(l, d, r) => Postorder(l) + Postorder(r) + [d]
  }

  /** The inorder walk of a search tree is strictly ascending. */
  lemma {:induction false} InorderAscending(t: Tree)
    requires IsBst(t)
    ensures forall i, j :: 0 <= i < j < |Inorder(t)| ==> Inorder(t)[i] < Inorder(t)[j]
  {
    match t
    case Nil =>
    case Node(l, d, r) =>
      InorderAscending(l);
      InorderAscending(r);
      var s := Inorder(t);
      var nl := |Inorder(l)|;
      forall i, j | 0 <= i < j < |s| ensures s[i] < s[j] {
        if j < nl {
          assert s[i] == Inorder(l)[i] && s[j] == Inorder(l)[j];
        } else if i > nl {
          assert s[i] == Inorder(r)[i - nl - 1] && s[j] == Inorder(r)[j - nl - 1];
        } else {
          assert i < nl ==> s[i] == Inorder(l)[i] && s[i] in Keys(l);
          assert j > nl ==> s[j] == Inorder(r)[j - nl - 1] && s[j] in Keys(r);
        }
      }
  }

  /** height: -1 for NULL, else one more than the taller subtree. */
  function Height(t: Tree): (h: int)
    ensures h >= -1 && (h == -1 <==> t == Nil)
    ensures t.Node? ==> h < Size(t)
  {
    match t
    case Nil => -1
    case Node(l, _, r) =>
      var hl := Height(l);
      var hr := Height(r);
      1 + (if hl > hr then hl else hr)
  }

  /** size: 0 for NULL, else one plus the sizes of both subtrees. */
  function Size(t: Tree): (n: nat)
    ensures n == |Inorder(t)|
  {
    match t
    case Nil => 0
    case Node(l, _, r) => 1 + Size(l) + Size(r)
  }

  /** In a search tree every node holds a different key: size counts keys. */
  lemma {:induction false} SizeIsKeyCount(t: Tree)
    requires IsBst(t)
    ensures Size(t) == |Keys(t)|
  {
    match t
    case Nil =>
    case Node(l, d, r) =>
      SizeIsKeyCount(l);
      SizeIsKeyCount(r);
      SplitCard(Keys(l), d, Keys(r));
  }

  /** Keys below d, d, and keys above d: the three parts do not overlap. */
  lemma SplitCard(kl: set<int>, d: int, kr: set<int>)
    requires forall k :: k in kl ==> k < d
    requires forall k :: k in kr ==> k > d
    ensures |kl + {d} + kr| == |kl| + 1 + |kr|
  {
    assert kl * kr == {} by {
      forall k | k in kl ensures k !in kr {
      }
    }
    assert |kl + kr| == |kl| + |kr|;
    assert kl + {d} + kr == (kl + kr) + {d} && d !in kl + kr;
  }
}
