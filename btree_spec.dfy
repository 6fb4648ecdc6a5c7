/** The B-tree operations of src/btree.cpp on tree values: the split, the
    single-pass insertion, search, in-order traversal and the rebuild from
    the insertion log.  The classes in btree.dfy are proved to compute exactly
    these functions; the lemmas here state what the functions achieve. */
module BTreeSpec {
  import opened Sequences
  import opened BTreeShape

  /** What a full node y keeps when it is split: keys[0..t-1), and
      children[0..t) when internal. */
  function Lower(y: Tree, t: int): Tree
    requires 1 <= t <= |y.keys| && (!y.leaf ==> t <= |y.children|)
  {
    Node(y.leaf, y.keys[..t - 1], if y.leaf then y.children else y.children[..t])
  }

  /** The new sibling z made by a split: same leaf flag, keys[t..), and
      children[t..) when internal. */
  function Upper(y: Tree, t: int): Tree
    requires 1 <= t <= |y.keys| && (!y.leaf ==> t <= |y.children|)
  {
    Node(y.leaf, y.keys[t..], if y.leaf then [] else y.children[t..])
  }

  /** `Node::splitChild(idx, y)` with y = children[idx] holding 2t-1 keys:
      y's median keys[t-1] moves up into keys at idx, the lower part stays
      at children[idx] and the upper part becomes children[idx+1]. */
  function SplitChild(x: Tree, idx: nat, t: int): Tree
    requires idx < |x.children| && idx <= |x.keys|
    requires |x.children[idx].keys| == 2 * t - 1
    requires !x.children[idx].leaf ==> t <= |x.children[idx].children|
  {
    var y := x.children[idx];
    Node(x.leaf, x.keys[..idx] + [y.keys[t - 1]] + x.keys[idx..],
         x.children[..idx] + [Lower(y, t), Upper(y, t)] + x.children[idx + 1..])
  }

  /** A full shaped node splits into two shaped halves of its height with
      t-1 keys each.  This is the shape part of SplitNode, kept apart so that
      callers needing only the shape do not bring the in-order facts into
      their proofs. */
  lemma SplitNodeShape(y: Tree, t: int)
    requires Wf(y) && |y.keys| == 2 * t - 1
    ensures Wf(Lower(y, t)) && Wf(Upper(y, t))
    ensures Height(Lower(y, t)) == Height(y) && Height(Upper(y, t)) == Height(y)
    ensures |Lower(y, t).keys| == t - 1 && |Upper(y, t).keys| == t - 1
  {
    if !y.leaf {
      var lo, hi := Lower(y, t), Upper(y, t);
      assert forall i :: 0 <= i < |lo.children| ==> lo.children[i] == y.children[i];
      assert forall i :: 0 <= i < |hi.children| ==> hi.children[i] == y.children[t + i];
    }
  }

  /** The in-order keys of a full node are those of the lower half, the
      median, and those of the upper half. */
  lemma SplitNodeInorder(y: Tree, t: int)
    requires Wf(y) && |y.keys| == 2 * t - 1
    ensures Inorder(y) == Inorder(Lower(y, t)) + [y.keys[t - 1]] + Inorder(Upper(y, t))
  {
    if y.leaf {
      SplitLeafInorder(y, t);
    } else {
      LowerInorder(y, t);
      UpperInorder(y, t);
      Decompose(y, t);
      Regroup4(Inorder(Lower(y, t)), [y.keys[t - 1]], Inorder(y.children[t]), Suffix(y, t));
    }
  }

  lemma SplitLeafInorder(y: Tree, t: int)
    requires y.leaf && y.children == [] && 1 <= t <= |y.keys|
    ensures Inorder(y) == Inorder(Lower(y, t)) + [y.keys[t - 1]] + Inorder(Upper(y, t))
  {
    assert y.keys == y.keys[..t - 1] + [y.keys[t - 1]] + y.keys[t..];
  }

  lemma LowerInorder(y: Tree, t: int)
    requires !y.leaf && |y.children| == |y.keys| + 1 && 1 <= t <= |y.keys|
    ensures Prefix(y, t) == Inorder(Lower(y, t)) + [y.keys[t - 1]]
  {
    var lo := Lower(y, t);
    assert Prefix(y, t) == Prefix(y, t - 1) + Inorder(y.children[t - 1]) + [y.keys[t - 1]];
    assert lo.keys[..t - 1] == y.keys[..t - 1] && lo.children[..t - 1] == y.children[..t - 1];
    PrefixEq(lo, y, t - 1);
    assert Inorder(lo) == Prefix(lo, t - 1) + Inorder(lo.children[t - 1]);
  }

  lemma UpperInorder(y: Tree, t: int)
    requires !y.leaf && |y.children| == |y.keys| + 1 && 1 <= t <= |y.keys|
    ensures Inorder(y.children[t]) + Suffix(y, t) == Inorder(Upper(y, t))
  {
    var hi := Node(false, y.keys[t..], y.children[t..]);
    assert hi == Upper(y, t);
    assert hi.children[0] == y.children[t];
    assert hi.keys[0..] == y.keys[t..];
    assert hi.children[1..] == y.children[t + 1..];
    SuffixEq(hi, 0, y, t);
    Decompose(hi, 0);
    assert Prefix(hi, 0) == [];
    assert Inorder(hi) == [] + Inorder(y.children[t]) + Suffix(y, t);
    EmptyLeft(Inorder(y.children[t]), Suffix(y, t));
  }

  /** Both halves of a full node keep the degree bounds below them. */
  lemma SplitNodeDegrees(y: Tree, t: int)
    requires Wf(y) && |y.keys| == 2 * t - 1 && ChildDegrees(y, t)
    ensures ChildDegrees(Lower(y, t), t) && ChildDegrees(Upper(y, t), t)
  {
    if !y.leaf {
      var lo, hi := Lower(y, t), Upper(y, t);
      assert forall i :: 0 <= i < |lo.children| ==> lo.children[i] == y.children[i];
      assert forall i :: 0 <= i < |hi.children| ==> hi.children[i] == y.children[t + i];
    }
  }

  lemma SplitNode(y: Tree, t: int)
    requires Wf(y) && |y.keys| == 2 * t - 1
    ensures Wf(Lower(y, t)) && Wf(Upper(y, t))
    ensures Height(Lower(y, t)) == Height(y) && Height(Upper(y, t)) == Height(y)
    ensures |Lower(y, t).keys| == t - 1 && |Upper(y, t).keys| == t - 1
    ensures Inorder(y) == Inorder(Lower(y, t)) + [y.keys[t - 1]] + Inorder(Upper(y, t))
    ensures ChildDegrees(y, t) ==> ChildDegrees(Lower(y, t), t) && ChildDegrees(Upper(y, t), t)
  {
    SplitNodeShape(y, t);
    SplitNodeInorder(y, t);
    if ChildDegrees(y, t) {
      SplitNodeDegrees(y, t);
    }
  }

  /** What splitChild does to the parent: shape, height and in-order keys
      unchanged; one key and one child more; both halves t-1 keys. */
  lemma SplitChildSpec(x: Tree, idx: nat, t: int)
    requires Wf(x) && idx < |x.children|
    requires |x.children[idx].keys| == 2 * t - 1
    ensures !x.leaf && idx <= |x.keys|
    ensures !x.children[idx].leaf ==> t <= |x.children[idx].children|
    ensures var r := SplitChild(x, idx, t);
      && Wf(r) && Height(r) == Height(x) && Inorder(r) == Inorder(x)
      && |r.keys| == |x.keys| + 1 && |r.children| == |x.children| + 1
      && r.keys[idx] == x.children[idx].keys[t - 1]
      && |r.children[idx].keys| == t - 1 && |r.children[idx + 1].keys| == t - 1
      && (ChildDegrees(x, t) ==> ChildDegrees(r, t))
  {
    assert Wf(x.children[idx]);
    SplitNode(x.children[idx], t);
    SplitChildShape(x, idx, t);
    SplitChildInorder(x, idx, t);
    if ChildDegrees(x, t) {
      SplitChildDegrees(x, idx, t);
    }
  }

  /** splitChild at the index level: the median y.keys[t-1] goes in at
      keys[idx], the two halves at children[idx] and children[idx+1], and
      every other key and child of x keeps its place relative to them. */
  lemma SplitChildFrame(x: Tree, idx: nat, t: int)
    requires idx < |x.children| && idx <= |x.keys|
    requires |x.children[idx].keys| == 2 * t - 1
    requires !x.children[idx].leaf ==> t <= |x.children[idx].children|
    ensures var r, y := SplitChild(x, idx, t), x.children[idx];
      && r.leaf == x.leaf
      && |r.keys| == |x.keys| + 1 && |r.children| == |x.children| + 1
      && r.keys[..idx] == x.keys[..idx] && r.keys[idx] == y.keys[t - 1] && r.keys[idx + 1..] == x.keys[idx..]
      && r.children[..idx] == x.children[..idx] && r.children[idx + 2..] == x.children[idx + 1..]
      && r.children[idx] == Lower(y, t) && r.children[idx + 1] == Upper(y, t)
      && Lower(y, t).keys + [y.keys[t - 1]] + Upper(y, t).keys == y.keys
      && (!y.leaf ==> Lower(y, t).children + Upper(y, t).children == y.children)
      && Upper(y, t).leaf == y.leaf
  {
    var r, y := SplitChild(x, idx, t), x.children[idx];
    assert r.keys[idx + 1..] == x.keys[idx..];
    assert r.children[idx + 2..] == x.children[idx + 1..];
    assert y.keys[..t - 1] + [y.keys[t - 1]] + y.keys[t..] == y.keys;
    if !y.leaf {
      assert y.children[..t] + y.children[t..] == y.children;
    }
  }

  lemma SplitChildShape(x: Tree, idx: nat, t: int)
    requires Wf(x) && !x.leaf && idx < |x.children|
    requires |x.children[idx].keys| == 2 * t - 1
    requires !x.children[idx].leaf ==> t <= |x.children[idx].children|
    ensures Wf(SplitChild(x, idx, t)) && Height(SplitChild(x, idx, t)) == Height(x)
  {
    var y := x.children[idx];
    var r := SplitChild(x, idx, t);
    SplitNodeShape(y, t);
    assert r.children[idx] == Lower(y, t) && r.children[idx + 1] == Upper(y, t);
    assert forall i :: 0 <= i < idx ==> r.children[i] == x.children[i];
    assert forall i :: idx + 1 < i < |r.children| ==> r.children[i] == x.children[i - 1];
    if idx == 0 {
      assert r.children[0] == Lower(y, t);
    } else {
      assert r.children[0] == x.children[0];
    }
  }

  lemma SplitChildInorder(x: Tree, idx: nat, t: int)
    requires !x.leaf && |x.children| == |x.keys| + 1 && idx < |x.children|
    requires Wf(x.children[idx]) && |x.children[idx].keys| == 2 * t - 1
    requires !x.children[idx].leaf ==> t <= |x.children[idx].children|
    ensures Inorder(SplitChild(x, idx, t)) == Inorder(x)
  {
    var y := x.children[idx];
    var r := SplitChild(x, idx, t);
    var lo, hi := Lower(y, t), Upper(y, t);
    var m := y.keys[t - 1];
    SplitNodeInorder(y, t);
    Decompose(x, idx);
    SplitChildPrefix(x, idx, t);
    SplitChildSuffix(x, idx, t);
    Decompose(r, idx);
    var P, S := Prefix(x, idx), Suffix(x, idx);
    var L, H := Inorder(lo), Inorder(hi);
    assert Inorder(r) == P + L + ([m] + H + S);
    assert Inorder(x) == P + (L + [m] + H) + S;
    Regroup(P, L, [m], H, S);
  }

  lemma SplitChildPrefix(x: Tree, idx: nat, t: int)
    requires !x.leaf && |x.children| == |x.keys| + 1 && idx < |x.children|
    requires |x.children[idx].keys| == 2 * t - 1
    requires !x.children[idx].leaf ==> t <= |x.children[idx].children|
    ensures var r := SplitChild(x, idx, t);
      |r.children| == |r.keys| + 1 && Prefix(r, idx) == Prefix(x, idx)
      && r.children[idx] == Lower(x.children[idx], t)
  {
    var r := SplitChild(x, idx, t);
    assert r.keys[..idx] == x.keys[..idx] && r.children[..idx] == x.children[..idx];
    PrefixEq(r, x, idx);
  }

  lemma SplitChildSuffix(x: Tree, idx: nat, t: int)
    requires !x.leaf && |x.children| == |x.keys| + 1 && idx < |x.children|
    requires |x.children[idx].keys| == 2 * t - 1
    requires !x.children[idx].leaf ==> t <= |x.children[idx].children|
    ensures var r := SplitChild(x, idx, t);
      |r.children| == |r.keys| + 1
      && Suffix(r, idx) == [x.children[idx].keys[t - 1]] + Inorder(Upper(x.children[idx], t)) + Suffix(x, idx)
  {
    var y := x.children[idx];
    var r := SplitChild(x, idx, t);
    assert r.children[idx + 1] == Upper(y, t);
    assert r.keys[idx] == y.keys[t - 1];
    assert Suffix(r, idx) == [r.keys[idx]] + Inorder(r.children[idx + 1]) + Suffix(r, idx + 1);
    assert r.keys[idx + 1..] == x.keys[idx..];
    assert r.children[idx + 2..] == x.children[idx + 1..];
    SuffixEq(r, idx + 1, x, idx);
  }

  lemma SplitChildDegrees(x: Tree, idx: nat, t: int)
    requires Wf(x) && !x.leaf && idx < |x.children| && ChildDegrees(x, t)
    requires |x.children[idx].keys| == 2 * t - 1
    requires !x.children[idx].leaf ==> t <= |x.children[idx].children|
    ensures ChildDegrees(SplitChild(x, idx, t), t)
  {
    var y := x.children[idx];
    var r := SplitChild(x, idx, t);
    SplitNodeShape(y, t);
    SplitNodeDegrees(y, t);
    assert r.children[idx] == Lower(y, t) && r.children[idx + 1] == Upper(y, t);
    assert forall i :: 0 <= i < idx ==> r.children[i] == x.children[i];
    assert forall i :: idx + 1 < i < |r.children| ==> r.children[i] == x.children[i - 1];
  }

  /** Lines 40-45 of `Node::insertNonFull` at an internal node: i counts the
      keys <= k; a full children[i] is split first and i moves past the
      promoted median when that is < k.  Returns the node after the optional
      split and the index of the child the insertion continues in. */
  function Route(x: Tree, t: int, k: int): (r: (Tree, nat))
    requires Wf(x) && !x.leaf
    ensures Wf(r.0) && !r.0.leaf && Height(r.0) == Height(x) && r.1 < |r.0.children|
  {
    var i := InsertPos(x.keys, k);
    if |x.children[i].keys| == 2 * t - 1 then
      assert Wf(x.children[i]);
      SplitChildShape(x, i, t);
      var s := SplitChild(x, i, t);
      (s, if s.keys[i] < k then i + 1 else i)
    else
      (x, i)
  }

  /** The child Route picks is the one whose range holds k, the node's keys
      in order are unchanged, and when the degree bounds hold that child is
      not full. */
  lemma RouteSpec(x: Tree, t: int, k: int)
    requires Wf(x) && !x.leaf
    ensures var r := Route(x, t, k);
      && Inorder(r.0) == Inorder(x)
      && |x.keys| <= |r.0.keys| <= |x.keys| + 1
      && (r.1 > 0 ==> r.0.keys[r.1 - 1] <= k)
      && (r.1 < |r.0.keys| ==> k <= r.0.keys[r.1])
      && (ChildDegrees(x, t) ==> ChildDegrees(r.0, t) && |r.0.children[r.1].keys| < 2 * t - 1)
  {
    RouteBounds(x, t, k);
    RouteInorder(x, t, k);
    if ChildDegrees(x, t) {
      RouteDegrees(x, t, k);
    }
  }

  lemma RouteInorder(x: Tree, t: int, k: int)
    requires Wf(x) && !x.leaf
    ensures Inorder(Route(x, t, k).0) == Inorder(x)
  {
    var i := InsertPos(x.keys, k);
    var y := x.children[i];
    if |y.keys| == 2 * t - 1 {
      assert Wf(y);
      SplitChildInorder(x, i, t);
    }
  }

  lemma RouteDegrees(x: Tree, t: int, k: int)
    requires Wf(x) && !x.leaf && ChildDegrees(x, t)
    ensures ChildDegrees(Route(x, t, k).0, t)
    ensures |Route(x, t, k).0.children[Route(x, t, k).1].keys| < 2 * t - 1
  {
    var i := InsertPos(x.keys, k);
    var y := x.children[i];
    if |y.keys| == 2 * t - 1 {
      assert Wf(y);
      SplitChildDegrees(x, i, t);
      SplitNodeShape(y, t);
      var s := SplitChild(x, i, t);
      assert s.children[i] == Lower(y, t) && s.children[i + 1] == Upper(y, t);
    } else {
      assert |y.keys| <= 2 * t - 1;
    }
  }

  /** Route's index bounds: the keys on either side of the chosen child
      enclose k. */
  lemma RouteBounds(x: Tree, t: int, k: int)
    requires Wf(x) && !x.leaf
    ensures var r := Route(x, t, k);
      && |x.keys| <= |r.0.keys| <= |x.keys| + 1
      && (r.1 > 0 ==> r.0.keys[r.1 - 1] <= k)
      && (r.1 < |r.0.keys| ==> k <= r.0.keys[r.1])
  {
    var i := InsertPos(x.keys, k);
    var y := x.children[i];
    if |y.keys| == 2 * t - 1 {
      assert Wf(y);
      var s := SplitChild(x, i, t);
      var j := if s.keys[i] < k then i + 1 else i;
      assert Route(x, t, k) == (s, j);
      InsertAt(x.keys, i, y.keys[t - 1]);
    } else {
      assert Route(x, t, k) == (x, i);
    }
  }

  /** `Node::insertNonFull(k)` (src/btree.cpp:30-48): at a leaf, k goes in
      after the last key <= k; at an internal node, into the child Route
      picks. */
  function InsertNonFull(x: Tree, t: int, k: int): Tree
    requires Wf(x)
    decreases Height(x)
  {
    if x.leaf then
      var p := InsertPos(x.keys, k);
      x.(keys := x.keys[..p] + [k] + x.keys[p..])
    else
      var r := Route(x, t, k);
      var s, j := r.0, r.1;
      s.(children := s.children[j := InsertNonFull(s.children[j], t, k)])
  }

  /** Inserting at a leaf position that fits k keeps a sorted sequence sorted
      and adds exactly k. */
  lemma LeafInsert(keys: seq<int>, k: int)
    ensures var p := InsertPos(keys, k);
      && multiset(keys[..p] + [k] + keys[p..]) == multiset(keys) + multiset{k}
      && (Sorted(keys) ==> Sorted(keys[..p] + [k] + keys[p..]))
  {
    var p := InsertPos(keys, k);
    MultisetInsertAt(keys, p, k);
    if Sorted(keys) {
      SortedInsertAt(keys, p, k);
    }
  }

  /** What insertNonFull achieves: shape and height kept, the node's own key
      count grows by at most one, the in-order multiset gains exactly k,
      order and the degree bounds below the node are kept. */
  lemma {:induction false} InsertNonFullSpec(x: Tree, t: int, k: int)
    requires Wf(x)
    ensures var r := InsertNonFull(x, t, k);
      && Wf(r) && Height(r) == Height(x)
      && |x.keys| <= |r.keys| <= |x.keys| + 1
      && multiset(Inorder(r)) == multiset(Inorder(x)) + multiset{k}
      && (Sorted(Inorder(x)) ==> Sorted(Inorder(r)))
      && (ChildDegrees(x, t) ==> ChildDegrees(r, t))
    decreases Height(x), 1
  {
    if x.leaf {
      LeafInsert(x.keys, k);
    } else {
      var rt := Route(x, t, k);
      RouteSpec(x, t, k);
      DescendInto(rt.0, rt.1, t, k);
    }
  }

  /** Continuing the insertion of k in child j, with k between the keys on
      either side of that child. */
  lemma {:induction false} DescendInto(s: Tree, j: nat, t: int, k: int)
    requires Wf(s) && !s.leaf && j < |s.children|
    requires j > 0 ==> s.keys[j - 1] <= k
    requires j < |s.keys| ==> k <= s.keys[j]
    ensures var r := s.(children := s.children[j := InsertNonFull(s.children[j], t, k)]);
      && Wf(r) && Height(r) == Height(s)
      && multiset(Inorder(r)) == multiset(Inorder(s)) + multiset{k}
      && (Sorted(Inorder(s)) ==> Sorted(Inorder(r)))
      && (ChildDegrees(s, t) && |s.children[j].keys| < 2 * t - 1 ==> ChildDegrees(r, t))
    decreases Height(s), 0
  {
    var c := s.children[j];
    var c2 := InsertNonFull(c, t, k);
    InsertNonFullSpec(c, t, k);
    ReplaceChildWf(s, j, c2);
    if ChildDegrees(s, t) && |c.keys| < 2 * t - 1 {
      ReplaceChildDegrees(s, j, c2, t);
    }
    ReplaceMiddle(s, j, c2, k);
  }

  /** The in-order effect of putting c2, holding c's keys plus k, in place
      of child c = children[j], when k fits between the neighbouring keys. */
  lemma ReplaceMiddle(s: Tree, j: nat, c2: Tree, k: int)
    requires !s.leaf && |s.children| == |s.keys| + 1 && j < |s.children|
    requires j > 0 ==> s.keys[j - 1] <= k
    requires j < |s.keys| ==> k <= s.keys[j]
    requires multiset(Inorder(c2)) == multiset(Inorder(s.children[j])) + multiset{k}
    requires Sorted(Inorder(s.children[j])) ==> Sorted(Inorder(c2))
    ensures var r := s.(children := s.children[j := c2]);
      && multiset(Inorder(r)) == multiset(Inorder(s)) + multiset{k}
      && (Sorted(Inorder(s)) ==> Sorted(Inorder(r)))
  {
    var c := s.children[j];
    var p, m := Prefix(s, j), Suffix(s, j);
    Decompose(s, j);
    ReplaceChild(s, j, c2);
    MultisetMiddle(p, Inorder(c), Inorder(c2), m, k);
    if Sorted(Inorder(s)) {
      SortedAround(s, j);
      assert forall x :: x in p ==> x <= k;
      assert forall x :: x in m ==> k <= x;
      SortedReplaceMiddle(p, Inorder(c), Inorder(c2), m, k);
    }
  }

  /** The new root made when the root is full (src/btree.cpp:84-86): a node
      with the old root as its only child, then split at 0. */
  function GrowRoot(root: Tree, t: int): Tree
    requires Wf(root) && |root.keys| == 2 * t - 1
  {
    SplitChild(Node(false, [], [root]), 0, t)
  }

  /** The grown root is one level taller, holds only the old median and two
      children, and has the old root's keys in order and degree bounds. */
  lemma GrowRootSpec(root: Tree, t: int)
    requires Wf(root) && |root.keys| == 2 * t - 1
    ensures var s := GrowRoot(root, t);
      && Wf(s) && !s.leaf && Height(s) == Height(root) + 1
      && s.keys == [root.keys[t - 1]] && |s.children| == 2
      && Inorder(s) == Inorder(root)
      && |s.children[0].keys| == t - 1 && |s.children[1].keys| == t - 1
      && (ChildDegrees(root, t) ==> ChildDegrees(s, t))
  {
    GrowRootShape(root, t);
    GrowRootInorder(root, t);
    if ChildDegrees(root, t) {
      GrowRootDegrees(root, t);
    }
  }

  lemma GrowRootShape(root: Tree, t: int)
    requires Wf(root) && |root.keys| == 2 * t - 1
    ensures var s := GrowRoot(root, t);
      && Wf(s) && !s.leaf && Height(s) == Height(root) + 1
      && s.keys == [root.keys[t - 1]] && |s.children| == 2
      && |s.children[0].keys| == t - 1 && |s.children[1].keys| == t - 1
  {
    var s0 := Node(false, [], [root]);
    assert Wf(s0);
    SplitChildShape(s0, 0, t);
    SplitNodeShape(root, t);
    var s := SplitChild(s0, 0, t);
    assert s.children == [Lower(root, t), Upper(root, t)];
  }

  lemma GrowRootInorder(root: Tree, t: int)
    requires Wf(root) && |root.keys| == 2 * t - 1
    ensures Inorder(GrowRoot(root, t)) == Inorder(root)
  {
    var s0 := Node(false, [], [root]);
    SplitChildInorder(s0, 0, t);
    assert Inorder(s0) == Inorder(root) by {
      assert Prefix(s0, 0) == [];
    }
  }

  lemma GrowRootDegrees(root: Tree, t: int)
    requires Wf(root) && |root.keys| == 2 * t - 1 && ChildDegrees(root, t)
    ensures ChildDegrees(GrowRoot(root, t), t)
  {
    var s0 := Node(false, [], [root]);
    assert Wf(s0);
    assert ChildDegrees(s0, t);
    SplitChildDegrees(s0, 0, t);
  }

  /** `BTree::insert(k)` (src/btree.cpp:76-95) on the tree's value: an empty
      tree becomes the leaf [k]; a full root is first pushed under a new
      root and split; the insertion then continues with insertNonFull. */
  function Insert(r: Option<Tree>, t: int, k: int): Tree
    requires r.Some? ==> Wf(r.value)
  {
    if r.None? then Node(true, [k], [])
    else if |r.value.keys| == 2 * t - 1 then
      GrowRootShape(r.value, t);
      InsertBelow(GrowRoot(r.value, t), t, k)
    else
      InsertNonFull(r.value, t, k)
  }

  /** Lines 87-89 of `BTree::insert`: below a new root s with its single
      key, k goes on into child 1 when that key is < k, else into child 0. */
  function InsertBelow(s: Tree, t: int, k: int): Tree
    requires Wf(s) && !s.leaf && |s.keys| == 1
  {
    var i := if s.keys[0] < k then 1 else 0;
    s.(children := s.children[i := InsertNonFull(s.children[i], t, k)])
  }

  /** Insertion keeps the B-tree invariant and adds exactly one copy of k. */
  lemma InsertSpec(r: Option<Tree>, t: int, k: int)
    requires IsBTree(r, t)
    ensures IsBTree(Some(Insert(r, t, k)), t)
    ensures multiset(Keys(Some(Insert(r, t, k)))) == multiset(Keys(r)) + multiset{k}
  {
    if r.Some? {
      var root := r.value;
      if |root.keys| == 2 * t - 1 {
        InsertFullRoot(root, t, k);
      } else {
        InsertNonFullSpec(root, t, k);
      }
    }
  }

  lemma InsertFullRoot(root: Tree, t: int, k: int)
    requires IsBTree(Some(root), t) && |root.keys| == 2 * t - 1
    ensures IsBTree(Some(Insert(Some(root), t, k)), t)
    ensures multiset(Inorder(Insert(Some(root), t, k))) == multiset(Inorder(root)) + multiset{k}
    ensures Height(Insert(Some(root), t, k)) == Height(root) + 1
    ensures Insert(Some(root), t, k).keys == [root.keys[t - 1]]
    ensures |Insert(Some(root), t, k).children| == 2
  {
    GrowRootSpec(root, t);
    var s := GrowRoot(root, t);
    var i := if s.keys[0] < k then 1 else 0;
    DescendInto(s, i, t, k);
  }

  /** Height: an empty tree becomes the one-key leaf [k]; a full root makes
      the tree one level taller, with the old median alone in a new root of
      two children; otherwise the height stays. */
  lemma InsertHeight(r: Option<Tree>, t: int, k: int)
    requires IsBTree(r, t)
    ensures r.None? ==> Insert(r, t, k) == Node(true, [k], [])
    ensures r.Some? && |r.value.keys| == 2 * t - 1 ==>
      var n := Insert(r, t, k);
      && Height(n) == Height(r.value) + 1
      && n.keys == [r.value.keys[t - 1]] && |n.children| == 2
    ensures r.Some? && |r.value.keys| != 2 * t - 1 ==> Height(Insert(r, t, k)) == Height(r.value)
  {
    if r.Some? {
      var root := r.value;
      if |root.keys| == 2 * t - 1 {
        InsertFullRoot(root, t, k);
      } else {
        InsertNonFullSpec(root, t, k);
      }
    }
  }

  /** The tree built by inserting the log's keys, in order, into an empty
      tree: the state after a sequence of inserts, and what erase rebuilds.
      It is a B-tree whose keys are exactly the log's, as a multiset. */
  function FromLog(log: seq<int>, t: int): (r: Option<Tree>)
    ensures IsBTree(r, t)
    ensures r.None? <==> log == []
  {
    if log == [] then None
    else
      var prev := FromLog(log[..|log| - 1], t);
      InsertSpec(prev, t, log[|log| - 1]);
      Some(Insert(prev, t, log[|log| - 1]))
  }

  /** The tree a log builds holds exactly the log's keys, as a multiset. */
  lemma {:induction false} FromLogKeys(log: seq<int>, t: int)
    ensures multiset(Keys(FromLog(log, t))) == multiset(log)
  {
    if log != [] {
      var init, last := log[..|log| - 1], log[|log| - 1];
      var prev := FromLog(init, t);
      FromLogKeys(init, t);
      InsertSpec(prev, t, last);
      assert FromLog(log, t) == Some(Insert(prev, t, last));
      SplitLast(log);
    }
  }

  /** `Node::search(k)` (src/btree.cpp:22-28): the first index i with
      keys[i] >= k; this node when keys[i] == k, not found at a leaf,
      otherwise the search goes on in children[i]. */
  function Search(n: Tree, k: int): Option<Tree>
    requires Wf(n)
  {
    var i := FirstGe(n.keys, k);
    if i < |n.keys| && n.keys[i] == k then Some(n)
    else if n.leaf then None
    else Search(n.children[i], k)
  }

  /** Search finds a node exactly when k is among the subtree's keys, and
      the node it finds holds k. */
  lemma {:induction false} SearchCorrect(n: Tree, k: int)
    requires Wf(n) && Sorted(Inorder(n))
    ensures Search(n, k).Some? <==> k in Inorder(n)
    ensures Search(n, k).Some? ==> k in Search(n, k).value.keys
  {
    var i := FirstGe(n.keys, k);
    if i < |n.keys| && n.keys[i] == k {
      if !n.leaf {
        Decompose(n, i);
        assert Suffix(n, i)[0] == k;
      }
    } else if n.leaf {
    } else {
      SortedAround(n, i);
      SearchCorrect(n.children[i], k);
      Decompose(n, i);
      if i > 0 {
        assert n.keys[i - 1] < k;
      }
      if i < |n.keys| {
        assert k < n.keys[i];
      }
    }
  }

  /** One call of the traversal callback: the key, its node's depth and its
      index in the node. */
  datatype Visit = Visit(key: int, depth: nat, index: nat)

  /** `Node::traverse(cb, depth)` (src/btree.cpp:13-20), returning the calls
      to cb in order: for each key i, children[i] first (when internal and
      present), then key i; finally the last child. */
  function Traverse(n: Tree, depth: nat): seq<Visit>
    decreases n, |n.keys| + 1
  {
    TraverseUpTo(n, depth, |n.keys|)
      + (if !n.leaf && |n.children| > 0 then Traverse(n.children[|n.children| - 1], depth + 1) else [])
  }

  /** The calls made by the first j rounds of the loop in Node::traverse. */
  function TraverseUpTo(n: Tree, depth: nat, j: nat): seq<Visit>
    requires j <= |n.keys|
    decreases n, j
  {
    if j == 0 then []
    else
      TraverseUpTo(n, depth, j - 1)
        + (if !n.leaf && j - 1 < |n.children| then Traverse(n.children[j - 1], depth + 1) else [])
        + [Visit(n.keys[j - 1], depth, j - 1)]
  }

  function VisitedKeys(vs: seq<Visit>): (r: seq<int>)
    ensures |r| == |vs| && forall i :: 0 <= i < |vs| ==> r[i] == vs[i].key
  {
    seq(|vs|, i requires 0 <= i < |vs| => vs[i].key)
  }

  lemma VisitedKeysAppend(a: seq<Visit>, b: seq<Visit>)
    ensures VisitedKeys(a + b) == VisitedKeys(a) + VisitedKeys(b)
  {
  }

  /** On a shaped tree the traversal visits exactly the in-order keys. */
  lemma {:induction false} TraverseInorder(n: Tree, depth: nat)
    requires Wf(n)
    ensures VisitedKeys(Traverse(n, depth)) == Inorder(n)
    decreases n, |n.keys| + 1
  {
    TraverseUpToPrefix(n, depth, |n.keys|);
    if n.leaf {
      assert Prefix(n, |n.keys|) == n.keys by {
        PrefixOfLeaf(n, |n.keys|);
      }
    } else {
      TraverseInorder(n.children[|n.keys|], depth + 1);
      VisitedKeysAppend(TraverseUpTo(n, depth, |n.keys|), Traverse(n.children[|n.keys|], depth + 1));
    }
  }

  lemma {:induction false} TraverseUpToPrefix(n: Tree, depth: nat, j: nat)
    requires Wf(n) && j <= |n.keys|
    ensures VisitedKeys(TraverseUpTo(n, depth, j)) == Prefix(n, j)
    decreases n, j
  {
    if j > 0 {
      TraverseUpToPrefix(n, depth, j - 1);
      var head := TraverseUpTo(n, depth, j - 1);
      var last := [Visit(n.keys[j - 1], depth, j - 1)];
      if !n.leaf {
        var mid := Traverse(n.children[j - 1], depth + 1);
        TraverseInorder(n.children[j - 1], depth + 1);
        VisitedKeysAppend(head, mid);
        VisitedKeysAppend(head + mid, last);
      } else {
        VisitedKeysAppend(head, last);
      }
    }
  }

  lemma {:induction false} PrefixOfLeaf(n: Tree, j: nat)
    requires n.leaf && n.children == [] && j <= |n.keys|
    ensures Prefix(n, j) == n.keys[..j]
  {
    if j > 0 {
      PrefixOfLeaf(n, j - 1);
      assert n.keys[..j] == n.keys[..j - 1] + [n.keys[j - 1]];
    }
  }

  /** `BTree::contains(k)` (src/btree.cpp:97-100): false on the empty tree,
      otherwise whether the root's search finds a node. */
  function Contains(r: Option<Tree>, k: int): bool
    requires r.Some? ==> Wf(r.value)
  {
    r.Some? && Search(r.value, k).Some?
  }

  /** Membership: contains answers exactly whether k is one of the keys. */
  lemma ContainsCorrect(r: Option<Tree>, t: int, k: int)
    requires IsBTree(r, t)
    ensures Contains(r, k) <==> k in Keys(r)
  {
    if r.Some? {
      SearchCorrect(r.value, k);
    }
  }

  /** After inserting k, contains(k) holds. */
  lemma InsertThenContains(r: Option<Tree>, t: int, k: int)
    requires IsBTree(r, t)
    ensures IsBTree(Some(Insert(r, t, k)), t)
    ensures Contains(Some(Insert(r, t, k)), k)
  {
    InsertSpec(r, t, k);
    var n := Insert(r, t, k);
    assert k in multiset(Inorder(n));
    SearchCorrect(n, k);
  }

  /** The log after `BTree::erase(k)` (src/btree.cpp:102-119): unchanged when
      k was never logged, otherwise without its first occurrence of k. */
  function EraseLog(log: seq<int>, k: int): (r: seq<int>)
    ensures k in log ==> |r| == |log| - 1
    ensures k !in log ==> r == log
  {
    if k in log then RemoveFirst(log, k) else log
  }

  /** Erasing takes exactly one copy of k out of the keys, or none when
      there is none. */
  lemma EraseKeys(log: seq<int>, t: int, k: int)
    ensures multiset(Keys(FromLog(EraseLog(log, k), t))) == multiset(log) - multiset{k}
    ensures k in log ==> multiset(Keys(FromLog(EraseLog(log, k), t)))[k] == multiset(log)[k] - 1
  {
    FromLogKeys(EraseLog(log, k), t);
    RemoveFirstMultiset(log, k);
    if k !in log {
      assert multiset(log)[k] == 0;
    }
  }

  /** Erasing a key that was inserted last and never before gives back the
      tree as it was before that insertion. */
  lemma InsertEraseRoundTrip(log: seq<int>, t: int, k: int)
    requires k !in log
    ensures EraseLog(log + [k], k) == log
    ensures FromLog(EraseLog(log + [k], k), t) == FromLog(log, t)
  {
    RemoveFirstSnoc(log, k, k);
  }

  /** The traversal of a B-tree visits its keys in non-decreasing order. */
  lemma TraverseSorted(r: Option<Tree>, t: int)
    requires IsBTree(r, t) && r.Some?
    ensures Sorted(VisitedKeys(Traverse(r.value, 0)))
  {
    TraverseInorder(r.value, 0);
  }

  /** When no key was inserted twice, the traversal is strictly increasing. */
  lemma TraverseStrict(log: seq<int>, t: int)
    requires NoDuplicates(log) && log != []
    ensures FromLog(log, t).Some?
    ensures StrictlySorted(VisitedKeys(Traverse(FromLog(log, t).value, 0)))
  {
    var n := FromLog(log, t).value;
    FromLogKeys(log, t);
    TraverseInorder(n, 0);
    NoDuplicatesCount(log);
    SortedDistinct(Inorder(n));
  }

  /** Up to 2t-1 keys inserted in non-decreasing order stay in one leaf
      root, in insertion order. */
  lemma {:induction false} AscendingFill(ks: seq<int>, t: int)
    requires ks != [] && Sorted(ks) && (t >= 1 ==> |ks| <= 2 * t - 1)
    ensures FromLog(ks, t) == Some(Node(true, ks, []))
    decreases |ks|
  {
    var init, k := ks[..|ks| - 1], ks[|ks| - 1];
    assert ks == init + [k];
    if init != [] {
      SortedSlice(ks, 0, |ks| - 1);
      AscendingFill(init, t);
    }
    AppendLeaf(init, t, k);
  }

  /** One more key, at least the largest, in a leaf root that is not full
      goes at its end. */
  lemma AppendLeaf(ks: seq<int>, t: int, k: int)
    requires FromLog(ks, t) == (if ks == [] then None else Some(Node(true, ks, [])))
    requires ks != [] ==> ks[|ks| - 1] <= k
    requires |ks| != 2 * t - 1
    ensures FromLog(ks + [k], t) == Some(Node(true, ks + [k], []))
  {
    var log := ks + [k];
    assert log[..|log| - 1] == ks && log[|log| - 1] == k;
    assert FromLog(log, t) == Some(Insert(FromLog(ks, t), t, k));
    if ks != [] {
      var n := Node(true, ks, []);
      assert InsertPos(ks, k) == |ks|;
      InsertAtEnd(ks, k);
      assert InsertNonFull(n, t, k) == Node(true, ks + [k], []);
      assert Insert(Some(n), t, k) == InsertNonFull(n, t, k);
    }
  }

  /** A 2t-th key larger than all before it splits the full leaf: the
      median ks[t-1] alone in a new root over the leaves ks[..t-1] and
      ks[t..] + [k]. */
  lemma AscendingSplit(ks: seq<int>, t: int, k: int)
    requires t >= 1 && |ks| == 2 * t - 1 && Sorted(ks) && ks[|ks| - 1] < k
    ensures FromLog(ks + [k], t)
      == Some(Node(false, [ks[t - 1]], [Node(true, ks[..t - 1], []), Node(true, ks[t..] + [k], [])]))
  {
    AscendingFill(ks, t);
    var log := ks + [k];
    assert log[..|log| - 1] == ks && log[|log| - 1] == k;
    assert FromLog(log, t) == Some(Insert(Some(Node(true, ks, [])), t, k));
    FullLeafInsert(ks, t, k);
  }

  lemma FullLeafInsert(ks: seq<int>, t: int, k: int)
    requires t >= 1 && |ks| == 2 * t - 1 && Sorted(ks) && ks[|ks| - 1] < k
    ensures Insert(Some(Node(true, ks, [])), t, k)
      == Node(false, [ks[t - 1]], [Node(true, ks[..t - 1], []), Node(true, ks[t..] + [k], [])])
  {
    var leaf := Node(true, ks, []);
    var g := GrowRoot(leaf, t);
    var lo, hi := Node(true, ks[..t - 1], []), Node(true, ks[t..], []);
    assert g == Node(false, [ks[t - 1]], [lo, hi]);
    assert ks[t - 1] <= ks[|ks| - 1] < k;
    assert Insert(Some(leaf), t, k) == g.(children := g.children[1 := InsertNonFull(hi, t, k)]);
    assert InsertPos(hi.keys, k) == |hi.keys|;
    InsertAtEnd(hi.keys, k);
    assert InsertNonFull(hi, t, k) == Node(true, ks[t..] + [k], []);
  }

  /** With t = 3, inserting 10, 20, 30, 40, 50 gives one leaf of five keys. */
  lemma ExampleFill(ks: seq<int>)
    requires ks == [10, 20, 30, 40, 50]
    ensures FromLog(ks, 3) == Some(Node(true, [10, 20, 30, 40, 50], []))
  {
    AscendingFill(ks, 3);
  }

  /** Inserting 60 next splits that leaf: root [30] over the leaves
      [10, 20] and [40, 50, 60]. */
  lemma ExampleSplit(ks: seq<int>)
    requires ks == [10, 20, 30, 40, 50]
    ensures Insert(Some(Node(true, ks, [])), 3, 60)
      == Node(false, [30], [Node(true, [10, 20], []), Node(true, [40, 50, 60], [])])
  {
    assert Sorted(ks);
    FullLeafInsert(ks, 3, 60);
    assert ks[..2] == [10, 20] && ks[3..] + [60] == [40, 50, 60];
  }
}
