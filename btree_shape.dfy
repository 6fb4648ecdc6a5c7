/** The value view of a B-tree node and the invariants of the structure:
    shape (child counts, uniform height), in-order key sequence, and the
    degree bounds set by the minimum degree t. */
module BTreeShape {
  import opened Sequences

  datatype Option<T> = None | Some(value: T)

  /** One node and, through its children, its whole subtree: the leaf flag,
      the keys and the children of `BTree::Node` (src/btree.hpp:13-17).
      The node's copy of the minimum degree t is the same in every node of a
      tree, so the operations take it as a parameter instead. */
  datatype Tree = Node(leaf: bool, keys: seq<int>, children: seq<Tree>)

  /** Length of the leftmost root-to-leaf path. */
  function Height(n: Tree): nat {
    if n.leaf || n.children == [] then 0 else 1 + Height(n.children[0])
  }

  /** Shape: a leaf has no children; an internal node has one child more
      than it has keys, and all its children are shaped and one level lower. */
  ghost predicate Wf(n: Tree) {
    if n.leaf then n.children == []
    else
      && |n.children| == |n.keys| + 1
      && forall i :: 0 <= i < |n.children| ==> Wf(n.children[i]) && Height(n.children[i]) + 1 == Height(n)
  }

  /** The keys of the subtree in order: children[0], keys[0], children[1], ...,
      keys[|keys|-1], children[|keys|]. */
  function Inorder(n: Tree): seq<int>
    decreases n, |n.keys| + 1
  {
    if n.leaf then n.keys
    else Prefix(n, |n.keys|) + (if |n.keys| < |n.children| then Inorder(n.children[|n.keys|]) else [])
  }

  /** In-order keys of children[0..i) interleaved with keys[0..i). */
  function Prefix(n: Tree, i: nat): seq<int>
    requires i <= |n.keys|
    decreases n, i
  {
    if i == 0 then []
    else Prefix(n, i - 1) + (if i - 1 < |n.children| then Inorder(n.children[i - 1]) else []) + [n.keys[i - 1]]
  }

  /** In-order keys of keys[i..) interleaved with children (i..]. */
  function Suffix(n: Tree, i: nat): seq<int>
    requires i <= |n.keys|
    decreases |n.keys| - i
  {
    if i == |n.keys| then []
    else [n.keys[i]] + (if i + 1 < |n.children| then Inorder(n.children[i + 1]) else []) + Suffix(n, i + 1)
  }

  function Keys(r: Option<Tree>): seq<int> {
    if r.None? then [] else Inorder(r.value)
  }

  /** Every node strictly below n holds between t-1 and 2t-1 keys. */
  ghost predicate ChildDegrees(n: Tree, t: int) {
    forall i :: 0 <= i < |n.children| ==>
      t - 1 <= |n.children[i].keys| <= 2 * t - 1 && ChildDegrees(n.children[i], t)
  }

  /** The B-tree invariant of a whole tree (absent = empty tree): shaped,
      in-order keys non-decreasing, a root with at least one key and at most
      2t-1 of them (when t >= 1), and degree bounds below the root.  For
      t <= 0 no node can ever be full, the bound on children forces a single
      leaf root, and that leaf grows without limit. */
  ghost predicate IsBTree(r: Option<Tree>, t: int) {
    r.Some? ==>
      && Wf(r.value)
      && Sorted(Inorder(r.value))
      && 1 <= |r.value.keys|
      && (t >= 1 ==> |r.value.keys| <= 2 * t - 1)
      && ChildDegrees(r.value, t)
  }

  /** A sequence of child indices that leads from n down to a leaf. */
  ghost predicate IsLeafPath(n: Tree, p: seq<nat>)
    decreases |p|
  {
    if p == [] then n.leaf
    else !n.leaf && p[0] < |n.children| && IsLeafPath(n.children[p[0]], p[1..])
  }

  /** All leaves are at the same depth: every root-to-leaf path of a shaped
      tree is exactly Height long. */
  lemma {:induction false} LeafPathLength(n: Tree, p: seq<nat>)
    requires Wf(n) && IsLeafPath(n, p)
    ensures |p| == Height(n)
    decreases |p|
  {
    if p != [] {
      LeafPathLength(n.children[p[0]], p[1..]);
    }
  }

  /** Cutting the in-order sequence of an internal node around child i. */
  lemma {:induction false} Decompose(n: Tree, i: nat)
    requires !n.leaf && |n.children| == |n.keys| + 1 && i <= |n.keys|
    ensures Inorder(n) == Prefix(n, i) + Inorder(n.children[i]) + Suffix(n, i)
    decreases |n.keys| - i
  {
    if i < |n.keys| {
      Decompose(n, i + 1);
      var p, c, d, s := Prefix(n, i), Inorder(n.children[i]), Inorder(n.children[i + 1]), Suffix(n, i + 1);
      assert Prefix(n, i + 1) == p + c + [n.keys[i]];
      assert Suffix(n, i) == [n.keys[i]] + d + s;
      Regroup5(p, c, [n.keys[i]], d, s);
    } else {
      assert Suffix(n, i) == [];
      assert Inorder(n) == Prefix(n, i) + Inorder(n.children[i]);
    }
  }

  /** Prefix depends only on the first i keys and children. */
  lemma {:induction false} PrefixEq(a: Tree, b: Tree, i: nat)
    requires i <= |a.keys| && i <= |b.keys| && i <= |a.children| && i <= |b.children|
    requires a.keys[..i] == b.keys[..i] && a.children[..i] == b.children[..i]
    ensures Prefix(a, i) == Prefix(b, i)
  {
    if i > 0 {
      assert a.keys[..i - 1] == a.keys[..i][..i - 1];
      assert b.keys[..i - 1] == b.keys[..i][..i - 1];
      assert a.children[..i - 1] == a.children[..i][..i - 1];
      assert b.children[..i - 1] == b.children[..i][..i - 1];
      PrefixEq(a, b, i - 1);
      assert a.keys[i - 1] == a.keys[..i][i - 1];
      assert a.children[i - 1] == a.children[..i][i - 1];
    }
  }

  /** Suffix depends only on the keys from i on and the children after i,
      wherever they sit in the node. */
  lemma {:induction false} SuffixEq(a: Tree, i: nat, b: Tree, j: nat)
    requires i <= |a.keys| && j <= |b.keys|
    requires |a.children| == |a.keys| + 1 && |b.children| == |b.keys| + 1
    requires a.keys[i..] == b.keys[j..] && a.children[i + 1..] == b.children[j + 1..]
    ensures Suffix(a, i) == Suffix(b, j)
    decreases |a.keys| - i
  {
    if i < |a.keys| {
      assert a.keys[i] == a.keys[i..][0];
      assert b.keys[j] == b.keys[j..][0];
      assert a.children[i + 1] == a.children[i + 1..][0];
      assert b.children[j + 1] == b.children[j + 1..][0];
      assert a.keys[i + 1..] == a.keys[i..][1..];
      assert b.keys[j + 1..] == b.keys[j..][1..];
      assert a.children[i + 2..] == a.children[i + 1..][1..];
      assert b.children[j + 2..] == b.children[j + 1..][1..];
      SuffixEq(a, i + 1, b, j + 1);
    }
  }

  /** Replacing child i changes the in-order sequence only in that child's
      stretch. */
  lemma ReplaceChild(n: Tree, i: nat, c: Tree)
    requires !n.leaf && |n.children| == |n.keys| + 1 && i <= |n.keys|
    ensures Inorder(n.(children := n.children[i := c])) == Prefix(n, i) + Inorder(c) + Suffix(n, i)
  {
    var m := n.(children := n.children[i := c]);
    Decompose(m, i);
    assert m.children[..i] == n.children[..i];
    PrefixEq(m, n, i);
    SuffixEq(m, i, n, i);
  }

  /** Pieces of a sorted in-order sequence are sorted; the keys beside child
      i bound the child's keys. */
  lemma SortedAround(n: Tree, i: nat)
    requires !n.leaf && |n.children| == |n.keys| + 1 && i <= |n.keys|
    requires Sorted(Inorder(n))
    ensures Sorted(Prefix(n, i)) && Sorted(Inorder(n.children[i])) && Sorted(Suffix(n, i))
    ensures i > 0 ==> forall x :: x in Prefix(n, i) ==> x <= n.keys[i - 1]
    ensures i < |n.keys| ==> forall x :: x in Suffix(n, i) ==> n.keys[i] <= x
    ensures forall x, y :: x in Prefix(n, i) && y in Inorder(n.children[i]) ==> x <= y
    ensures forall x, y :: x in Inorder(n.children[i]) && y in Suffix(n, i) ==> x <= y
  {
    var p, c, s := Prefix(n, i), Inorder(n.children[i]), Suffix(n, i);
    Decompose(n, i);
    SortedSplit(p + c, s);
    SortedSplit(p, c);
    assert forall x :: x in c ==> x in p + c;
    if i > 0 {
      assert p[|p| - 1] == n.keys[i - 1];
      SortedBelowLast(p, n.keys[i - 1]);
    }
    if i < |n.keys| {
      assert s[0] == n.keys[i];
      SortedAboveFirst(s, n.keys[i]);
    }
  }

  /** Putting a shaped child of the same height in place of child i keeps
      the node shaped and its height unchanged. */
  lemma ReplaceChildWf(n: Tree, i: nat, c: Tree)
    requires Wf(n) && !n.leaf && i < |n.children|
    requires Wf(c) && Height(c) == Height(n.children[i])
    ensures Wf(n.(children := n.children[i := c]))
    ensures Height(n.(children := n.children[i := c])) == Height(n)
  {
  }

  /** Putting a child within the degree bounds in place of child i keeps the
      degree bounds below n. */
  lemma ReplaceChildDegrees(n: Tree, i: nat, c: Tree, t: int)
    requires ChildDegrees(n, t) && i < |n.children|
    requires t - 1 <= |c.keys| <= 2 * t - 1 && ChildDegrees(c, t)
    ensures ChildDegrees(n.(children := n.children[i := c]), t)
  {
  }
}
