/** The node store of the B-tree: `BTree::Node` objects become records in an
    arena, and a `Node*` child pointer becomes the handle (index) of the
    child's record.  Allocation appends a record; an update in place replaces
    the record at a handle.  A ghost rank per record, strictly decreasing
    from parent to child, rules out cycles and gives termination. */
module Arena {
  import opened Sequences
  import opened BTreeShape
  import M = BTreeSpec

  /** One `BTree::Node` (src/btree.hpp:13-17): leaf flag, minimum degree,
      keys, and child handles. */
  datatype Rec = Rec(leaf: bool, t: int, keys: seq<int>, children: seq<nat>)

  /** Every child handle names a record of lower rank. */
  ghost predicate Closed(ns: seq<Rec>, rk: seq<nat>) {
    && |rk| == |ns|
    && forall h, i :: 0 <= h < |ns| && 0 <= i < |ns[h].children| ==>
         ns[h].children[i] < |ns| && rk[ns[h].children[i]] < rk[h]
  }

  /** The value of the subtree whose root record is at h. */
  ghost function Abs(ns: seq<Rec>, rk: seq<nat>, h: nat): Tree
    requires Closed(ns, rk) && h < |ns|
    decreases rk[h]
  {
    Node(ns[h].leaf, ns[h].keys,
         seq(|ns[h].children|, i requires 0 <= i < |ns[h].children| => Abs(ns, rk, ns[h].children[i])))
  }

  /** The handles of the subtree at h. */
  ghost function Reach(ns: seq<Rec>, rk: seq<nat>, h: nat): set<nat>
    requires Closed(ns, rk) && h < |ns|
    decreases rk[h]
  {
    {h} + (set i, x | 0 <= i < |ns[h].children| && x in Reach(ns, rk, ns[h].children[i]) :: x)
  }

  /** The subtree at h is a tree: the subtrees of distinct children share no
      record, all the way down. */
  ghost predicate TreeAt(ns: seq<Rec>, rk: seq<nat>, h: nat)
    requires Closed(ns, rk) && h < |ns|
    decreases rk[h]
  {
    && (forall i :: 0 <= i < |ns[h].children| ==> TreeAt(ns, rk, ns[h].children[i]))
    && (forall i, j :: 0 <= i < j < |ns[h].children| ==>
          Reach(ns, rk, ns[h].children[i]) !! Reach(ns, rk, ns[h].children[j]))
  }

  /** h is in its own subtree, and every handle of the subtree names a
      record of rank at most h's, strictly below it except for h itself. */
  lemma {:induction false} ReachFacts(ns: seq<Rec>, rk: seq<nat>, h: nat)
    requires Closed(ns, rk) && h < |ns|
    ensures h in Reach(ns, rk, h)
    ensures forall x :: x in Reach(ns, rk, h) ==> x < |ns| && (x == h || rk[x] < rk[h])
    decreases rk[h]
  {
    forall x | x in Reach(ns, rk, h) && x != h
      ensures x < |ns| && rk[x] < rk[h]
    {
      var i :| 0 <= i < |ns[h].children| && x in Reach(ns, rk, ns[h].children[i]);
      ReachFacts(ns, rk, ns[h].children[i]);
    }
  }

  /** Frame: the subtree at h is the same in two arenas that agree on the
      records (and ranks) it reaches. */
  lemma {:induction false} Agree(ns: seq<Rec>, rk: seq<nat>, ns2: seq<Rec>, rk2: seq<nat>, h: nat)
    requires Closed(ns, rk) && Closed(ns2, rk2) && h < |ns|
    requires forall x :: x in Reach(ns, rk, h) && x < |ns| ==> x < |ns2| && ns2[x] == ns[x] && rk2[x] == rk[x]
    ensures h < |ns2|
    ensures Abs(ns2, rk2, h) == Abs(ns, rk, h)
    ensures Reach(ns2, rk2, h) == Reach(ns, rk, h)
    decreases rk[h]
  {
    ReachFacts(ns, rk, h);
    var cs := ns[h].children;
    assert ns2[h] == ns[h];
    forall i | 0 <= i < |cs|
      ensures Abs(ns2, rk2, cs[i]) == Abs(ns, rk, cs[i])
      ensures Reach(ns2, rk2, cs[i]) == Reach(ns, rk, cs[i])
    {
      assert Reach(ns, rk, cs[i]) <= Reach(ns, rk, h);
      Agree(ns, rk, ns2, rk2, cs[i]);
    }
    assert Abs(ns2, rk2, h).children == Abs(ns, rk, h).children;
  }

  /** The same frame for the tree property. */
  lemma {:induction false} AgreeTree(ns: seq<Rec>, rk: seq<nat>, ns2: seq<Rec>, rk2: seq<nat>, h: nat)
    requires Closed(ns, rk) && Closed(ns2, rk2) && h < |ns|
    requires forall x :: x in Reach(ns, rk, h) && x < |ns| ==> x < |ns2| && ns2[x] == ns[x] && rk2[x] == rk[x]
    ensures h < |ns2| && (TreeAt(ns2, rk2, h) <==> TreeAt(ns, rk, h))
    decreases rk[h]
  {
    ReachFacts(ns, rk, h);
    var cs := ns[h].children;
    assert ns2[h] == ns[h];
    forall i | 0 <= i < |cs|
      ensures Reach(ns2, rk2, cs[i]) == Reach(ns, rk, cs[i])
      ensures TreeAt(ns2, rk2, cs[i]) == TreeAt(ns, rk, cs[i])
    {
      assert Reach(ns, rk, cs[i]) <= Reach(ns, rk, h);
      Agree(ns, rk, ns2, rk2, cs[i]);
      AgreeTree(ns, rk, ns2, rk2, cs[i]);
    }
  }

  /** The handles of the subtrees at cs. */
  ghost function ReachAll(ns: seq<Rec>, rk: seq<nat>, cs: seq<nat>): set<nat>
    requires Closed(ns, rk) && forall i :: 0 <= i < |cs| ==> cs[i] < |ns|
  {
    set i, x | 0 <= i < |cs| && x in Reach(ns, rk, cs[i]) :: x
  }

  lemma ReachChildren(ns: seq<Rec>, rk: seq<nat>, h: nat)
    requires Closed(ns, rk) && h < |ns|
    ensures Reach(ns, rk, h) == {h} + ReachAll(ns, rk, ns[h].children)
  {
  }

  lemma ReachAllAppend(ns: seq<Rec>, rk: seq<nat>, a: seq<nat>, b: seq<nat>)
    requires Closed(ns, rk)
    requires forall i :: 0 <= i < |a| ==> a[i] < |ns|
    requires forall i :: 0 <= i < |b| ==> b[i] < |ns|
    ensures ReachAll(ns, rk, a + b) == ReachAll(ns, rk, a) + ReachAll(ns, rk, b)
  {
    var c := a + b;
    forall x | x in ReachAll(ns, rk, c)
      ensures x in ReachAll(ns, rk, a) + ReachAll(ns, rk, b)
    {
      var i :| 0 <= i < |c| && x in Reach(ns, rk, c[i]);
      if i >= |a| {
        assert c[i] == b[i - |a|];
      }
    }
    forall x | x in ReachAll(ns, rk, a) + ReachAll(ns, rk, b)
      ensures x in ReachAll(ns, rk, c)
    {
      if x in ReachAll(ns, rk, a) {
        var i :| 0 <= i < |a| && x in Reach(ns, rk, a[i]);
        assert c[i] == a[i];
      } else {
        var i :| 0 <= i < |b| && x in Reach(ns, rk, b[i]);
        assert c[|a| + i] == b[i];
      }
    }
  }

  /** What `splitChild(idx, y)` needs at x: x heads a tree, idx is a child
      slot with idx <= |keys|, y = children[idx] is full and, when
      internal, has at least t children.  Preconditions write it as
      `SplitPre(...) == true` for proof performance only: it means the same
      as `SplitPre(...)`. */
  ghost predicate SplitPre(ns: seq<Rec>, rk: seq<nat>, x: nat, idx: nat, t: int) {
    && Closed(ns, rk) && x < |ns| && TreeAt(ns, rk, x)
    && idx < |ns[x].children| && idx <= |ns[x].keys|
    && |ns[ns[x].children[idx]].keys| == 2 * t - 1
    && (!ns[ns[x].children[idx]].leaf ==> t <= |ns[ns[x].children[idx]].children|)
  }

  /** The arena after `splitChild(idx, y)` at x with y = children[idx]: y
      keeps its lower half in place, the median goes into x's keys at idx,
      and the upper half is a new record at handle |ns|, linked in as
      x's child idx+1. */
  ghost function SplitArena(ns: seq<Rec>, rk: seq<nat>, x: nat, idx: nat, t: int): seq<Rec>
    requires SplitPre(ns, rk, x, idx, t) == true
  {
    var X := ns[x];
    var Y := ns[X.children[idx]];
    ns[X.children[idx] := Y.(keys := Y.keys[..t - 1], children := if Y.leaf then Y.children else Y.children[..t])]
      [x := X.(keys := X.keys[..idx] + [Y.keys[t - 1]] + X.keys[idx..],
               children := X.children[..idx + 1] + [|ns|] + X.children[idx + 1..])]
      + [Rec(Y.leaf, Y.t, Y.keys[t..], if Y.leaf then [] else Y.children[t..])]
  }

  lemma SplitClosed(ns: seq<Rec>, rk: seq<nat>, x: nat, idx: nat, t: int)
    requires SplitPre(ns, rk, x, idx, t) == true
    ensures Closed(SplitArena(ns, rk, x, idx, t), rk + [rk[ns[x].children[idx]]])
  {
    var ns1, y := SplitArena(ns, rk, x, idx, t), ns[x].children[idx];
    var rk1 := rk + [rk[y]];
    var z := |ns|;
    assert rk[y] < rk[x];
    forall h, i | 0 <= h < |ns1| && 0 <= i < |ns1[h].children|
      ensures ns1[h].children[i] < |ns1| && rk1[ns1[h].children[i]] < rk1[h]
    {
      if h == z {
        assert ns1[h].children[i] == ns[y].children[t + i];
      } else if h == x {
        if i < idx + 1 {
          assert ns1[h].children[i] == ns[x].children[i];
        } else if i > idx + 1 {
          assert ns1[h].children[i] == ns[x].children[i - 1];
        }
      } else if h == y {
        assert ns1[h].children[i] == ns[y].children[i];
      } else {
        assert ns1[h] == ns[h];
      }
    }
  }

  /** Frame by rank: records of rank below r untouched leave every subtree
      of rank below r as it was. */
  lemma FrameBelow(ns: seq<Rec>, rk: seq<nat>, ns2: seq<Rec>, rk2: seq<nat>, c: nat, r: nat)
    requires Closed(ns, rk) && Closed(ns2, rk2) && c < |ns| && rk[c] < r && |ns| <= |ns2|
    requires forall v :: 0 <= v < |ns| && rk[v] < r ==> ns2[v] == ns[v] && rk2[v] == rk[v]
    ensures c < |ns2| && Abs(ns2, rk2, c) == Abs(ns, rk, c) && Reach(ns2, rk2, c) == Reach(ns, rk, c)
    ensures TreeAt(ns2, rk2, c) == TreeAt(ns, rk, c)
  {
    ReachFacts(ns, rk, c);
    Agree(ns, rk, ns2, rk2, c);
    AgreeTree(ns, rk, ns2, rk2, c);
  }

  /** ReachAll follows the subtrees it collects. */
  lemma ReachAllAgree(ns: seq<Rec>, rk: seq<nat>, ns2: seq<Rec>, rk2: seq<nat>, cs: seq<nat>)
    requires Closed(ns, rk) && Closed(ns2, rk2)
    requires forall i :: 0 <= i < |cs| ==> cs[i] < |ns| && cs[i] < |ns2|
    requires forall i :: 0 <= i < |cs| ==> Reach(ns2, rk2, cs[i]) == Reach(ns, rk, cs[i])
    ensures ReachAll(ns2, rk2, cs) == ReachAll(ns, rk, cs)
  {
  }

  /** Abs read field by field. */
  lemma AbsFields(ns: seq<Rec>, rk: seq<nat>, h: nat)
    requires Closed(ns, rk) && h < |ns|
    ensures Abs(ns, rk, h).leaf == ns[h].leaf && Abs(ns, rk, h).keys == ns[h].keys
    ensures |Abs(ns, rk, h).children| == |ns[h].children|
    ensures forall i :: 0 <= i < |ns[h].children| ==> Abs(ns, rk, h).children[i] == Abs(ns, rk, ns[h].children[i])
  {
  }

  /** After the split, y holds the lower half as a tree whose handles are y
      and those of its remaining children. */
  lemma SplitLow(ns: seq<Rec>, rk: seq<nat>, x: nat, idx: nat, t: int)
    requires SplitPre(ns, rk, x, idx, t) == true
    ensures var ns1, rk1, y := SplitArena(ns, rk, x, idx, t), rk + [rk[ns[x].children[idx]]], ns[x].children[idx];
      && Closed(ns1, rk1) && y < |ns1| && 1 <= t
      && (!ns[y].leaf ==> t <= |Abs(ns, rk, y).children|)
      && Abs(ns1, rk1, y) == M.Lower(Abs(ns, rk, y), t) && TreeAt(ns1, rk1, y)
      && Reach(ns1, rk1, y) == {y} + ReachAll(ns, rk, ns1[y].children)
  {
    var ns1, y := SplitArena(ns, rk, x, idx, t), ns[x].children[idx];
    var rk1 := rk + [rk[y]];
    SplitClosed(ns, rk, x, idx, t);
    assert rk[y] < rk[x];
    assert TreeAt(ns, rk, y);
    var lo := ns1[y].children;
    assert forall i :: 0 <= i < |lo| ==> lo[i] == ns[y].children[i] && TreeAt(ns, rk, lo[i]);
    forall i | 0 <= i < |lo|
      ensures Abs(ns1, rk1, lo[i]) == Abs(ns, rk, lo[i]) && Reach(ns1, rk1, lo[i]) == Reach(ns, rk, lo[i])
      ensures TreeAt(ns1, rk1, lo[i])
    {
      FrameBelow(ns, rk, ns1, rk1, lo[i], rk[y]);
    }
    AbsFields(ns, rk, y);
    AbsFields(ns1, rk1, y);
    var A0, A1 := Abs(ns, rk, y), Abs(ns1, rk1, y);
    assert A1.children == M.Lower(A0, t).children;
    assert TreeAt(ns1, rk1, y);
    ReachChildren(ns1, rk1, y);
    ReachAllAgree(ns, rk, ns1, rk1, lo);
  }

  /** The new record |ns| holds the upper half as a tree whose handles are
      |ns| and those of the children it took over. */
  lemma SplitHigh(ns: seq<Rec>, rk: seq<nat>, x: nat, idx: nat, t: int)
    requires SplitPre(ns, rk, x, idx, t) == true
    ensures var ns1, rk1, y := SplitArena(ns, rk, x, idx, t), rk + [rk[ns[x].children[idx]]], ns[x].children[idx];
      && Closed(ns1, rk1) && |ns| < |ns1| && 1 <= t
      && (!ns[y].leaf ==> t <= |Abs(ns, rk, y).children|)
      && Abs(ns1, rk1, |ns|) == M.Upper(Abs(ns, rk, y), t) && TreeAt(ns1, rk1, |ns|)
      && Reach(ns1, rk1, |ns|) == {|ns|} + ReachAll(ns, rk, ns1[|ns|].children)
  {
    var ns1, y, z := SplitArena(ns, rk, x, idx, t), ns[x].children[idx], |ns|;
    var rk1 := rk + [rk[y]];
    SplitClosed(ns, rk, x, idx, t);
    var hi := ns1[z].children;
    SplitHighChildren(ns, rk, x, idx, t);
    AbsFields(ns, rk, y);
    AbsFields(ns1, rk1, z);
    var A0, A1 := Abs(ns, rk, y), Abs(ns1, rk1, z);
    assert A1.children == M.Upper(A0, t).children;
    assert TreeAt(ns1, rk1, z);
    ReachChildren(ns1, rk1, z);
    ReachAllAgree(ns, rk, ns1, rk1, hi);
  }

  /** The children the new record takes over keep their subtrees, which
      stay pairwise apart. */
  lemma SplitHighChildren(ns: seq<Rec>, rk: seq<nat>, x: nat, idx: nat, t: int)
    requires SplitPre(ns, rk, x, idx, t) == true
    ensures var ns1, rk1, hi := SplitArena(ns, rk, x, idx, t), rk + [rk[ns[x].children[idx]]], SplitArena(ns, rk, x, idx, t)[|ns|].children;
      && Closed(ns1, rk1)
      && (forall i :: 0 <= i < |hi| ==>
            && hi[i] < |ns|
            && Abs(ns1, rk1, hi[i]) == Abs(ns, rk, hi[i]) && Reach(ns1, rk1, hi[i]) == Reach(ns, rk, hi[i])
            && TreeAt(ns1, rk1, hi[i]))
      && (forall i, j :: 0 <= i < j < |hi| ==> Reach(ns, rk, hi[i]) !! Reach(ns, rk, hi[j]))
  {
    var ns1, y, z := SplitArena(ns, rk, x, idx, t), ns[x].children[idx], |ns|;
    var rk1 := rk + [rk[y]];
    SplitClosed(ns, rk, x, idx, t);
    SplitTouches(ns, rk, x, idx, t);
    assert rk[y] < rk[x];
    assert TreeAt(ns, rk, y);
    var m := Cut(ns, x, idx, t);
    var hi := ns1[z].children;
    assert hi == ns[y].children[m..];
    forall i | 0 <= i < |hi|
      ensures hi[i] < |ns|
      ensures Abs(ns1, rk1, hi[i]) == Abs(ns, rk, hi[i]) && Reach(ns1, rk1, hi[i]) == Reach(ns, rk, hi[i])
      ensures TreeAt(ns1, rk1, hi[i])
    {
      assert hi[i] == ns[y].children[m + i] && TreeAt(ns, rk, hi[i]);
      FrameBelow(ns, rk, ns1, rk1, hi[i], rk[y]);
    }
    SliceApart(ns, rk, y, m);
  }

  /** The children of a tree from m on reach pairwise disjoint sets. */
  lemma SliceApart(ns: seq<Rec>, rk: seq<nat>, h: nat, m: nat)
    requires Closed(ns, rk) && h < |ns| && TreeAt(ns, rk, h) && m <= |ns[h].children|
    ensures var hi := ns[h].children[m..];
      forall i, j :: 0 <= i < j < |hi| ==> Reach(ns, rk, hi[i]) !! Reach(ns, rk, hi[j])
  {
    var cs := ns[h].children;
    var hi := cs[m..];
    forall i, j | 0 <= i < j < |hi|
      ensures Reach(ns, rk, hi[i]) !! Reach(ns, rk, hi[j])
    {
      assert hi[i] == cs[m + i] && hi[j] == cs[m + j];
    }
  }

  /** Frame by footprint: a subtree none of whose records changed (D holds
      every old handle that did) is as it was. */
  lemma FrameOutside(ns: seq<Rec>, rk: seq<nat>, ns2: seq<Rec>, rk2: seq<nat>, c: nat, D: set<nat>)
    requires Closed(ns, rk) && Closed(ns2, rk2) && c < |ns| && |ns| <= |ns2|
    requires forall v :: 0 <= v < |ns| && v !in D ==> ns2[v] == ns[v] && rk2[v] == rk[v]
    requires Reach(ns, rk, c) !! D
    ensures c < |ns2| && Abs(ns2, rk2, c) == Abs(ns, rk, c) && Reach(ns2, rk2, c) == Reach(ns, rk, c)
    ensures TreeAt(ns2, rk2, c) == TreeAt(ns, rk, c)
  {
    ReachFacts(ns, rk, c);
    Agree(ns, rk, ns2, rk2, c);
    AgreeTree(ns, rk, ns2, rk2, c);
  }

  /** The split rewrites the records x and y only and appends one. */
  lemma SplitTouches(ns: seq<Rec>, rk: seq<nat>, x: nat, idx: nat, t: int)
    requires SplitPre(ns, rk, x, idx, t) == true
    ensures var ns1, rk1 := SplitArena(ns, rk, x, idx, t), rk + [rk[ns[x].children[idx]]];
      && |ns1| == |ns| + 1 && |rk1| == |ns1|
      && forall v :: 0 <= v < |ns| && v !in {x, ns[x].children[idx]} ==> ns1[v] == ns[v] && rk1[v] == rk[v]
  {
  }

  /** The child handles of x after the split. */
  lemma SplitParentChildren(ns: seq<Rec>, rk: seq<nat>, x: nat, idx: nat, t: int)
    requires SplitPre(ns, rk, x, idx, t) == true
    ensures var ns1, cs := SplitArena(ns, rk, x, idx, t), ns[x].children;
      && |ns1[x].children| == |cs| + 1 && ns1[x].children[idx] == cs[idx]
      && ns1[x].children[idx + 1] == |ns|
      && (forall i :: 0 <= i < idx ==> ns1[x].children[i] == cs[i])
      && (forall i :: idx + 1 < i <= |cs| ==> ns1[x].children[i] == cs[i - 1])
  {
  }

  /** A sibling of the split child keeps its subtree: none of its records is
      x (by rank) or y (by disjointness). */
  lemma SplitSibling(ns: seq<Rec>, rk: seq<nat>, x: nat, idx: nat, t: int, j: nat)
    requires SplitPre(ns, rk, x, idx, t) == true && j < |ns[x].children| && j != idx
    ensures var ns1, rk1, c := SplitArena(ns, rk, x, idx, t), rk + [rk[ns[x].children[idx]]], ns[x].children[j];
      && Closed(ns1, rk1) && c < |ns1|
      && Abs(ns1, rk1, c) == Abs(ns, rk, c) && Reach(ns1, rk1, c) == Reach(ns, rk, c)
      && TreeAt(ns1, rk1, c) && Reach(ns, rk, c) !! Reach(ns, rk, ns[x].children[idx])
  {
    var ns1, y, c := SplitArena(ns, rk, x, idx, t), ns[x].children[idx], ns[x].children[j];
    var rk1 := rk + [rk[y]];
    SplitClosed(ns, rk, x, idx, t);
    SplitTouches(ns, rk, x, idx, t);
    assert rk[c] < rk[x] && TreeAt(ns, rk, c);
    if j < idx {
      assert Reach(ns, rk, c) !! Reach(ns, rk, y);
    } else {
      assert Reach(ns, rk, y) !! Reach(ns, rk, c);
    }
    ReachFacts(ns, rk, c);
    ReachFacts(ns, rk, y);
    assert Reach(ns, rk, c) !! {x, y};
    FrameOutside(ns, rk, ns1, rk1, c, {x, y});
  }

  /** Each child's subtree lies within its parent's. */
  lemma ReachChild(ns: seq<Rec>, rk: seq<nat>, h: nat, i: nat)
    requires Closed(ns, rk) && h < |ns| && i < |ns[h].children|
    ensures Reach(ns, rk, ns[h].children[i]) <= Reach(ns, rk, h)
  {
  }

  /** In a tree, the children before m and those from m on reach disjoint
      sets of records, which together are those all the children reach. */
  lemma ChildrenApart(ns: seq<Rec>, rk: seq<nat>, h: nat, m: nat)
    requires Closed(ns, rk) && h < |ns| && TreeAt(ns, rk, h) && m <= |ns[h].children|
    ensures var cs := ns[h].children;
      && ReachAll(ns, rk, cs[..m]) !! ReachAll(ns, rk, cs[m..])
      && ReachAll(ns, rk, cs[..m]) + ReachAll(ns, rk, cs[m..]) == ReachAll(ns, rk, cs)
  {
    var cs := ns[h].children;
    assert cs == cs[..m] + cs[m..];
    ReachAllAppend(ns, rk, cs[..m], cs[m..]);
    forall v | v in ReachAll(ns, rk, cs[..m])
      ensures v !in ReachAll(ns, rk, cs[m..])
    {
      var i :| 0 <= i < m && v in Reach(ns, rk, cs[..m][i]);
      forall j | 0 <= j < |cs| - m
        ensures v !in Reach(ns, rk, cs[m..][j])
      {
        assert cs[m..][j] == cs[m + j];
        assert Reach(ns, rk, cs[i]) !! Reach(ns, rk, cs[m + j]);
      }
    }
  }

  /** What the children reach lies inside the node's subtree, without the
      node itself. */
  lemma ChildrenBelow(ns: seq<Rec>, rk: seq<nat>, h: nat)
    requires Closed(ns, rk) && h < |ns|
    ensures ReachAll(ns, rk, ns[h].children) <= Reach(ns, rk, h)
    ensures h !in ReachAll(ns, rk, ns[h].children)
    ensures forall v :: v in ReachAll(ns, rk, ns[h].children) ==> v < |ns| && rk[v] < rk[h]
  {
    var cs := ns[h].children;
    ReachChildren(ns, rk, h);
    forall v | v in ReachAll(ns, rk, cs)
      ensures v < |ns| && rk[v] < rk[h]
    {
      var i :| 0 <= i < |cs| && v in Reach(ns, rk, cs[i]);
      ReachFacts(ns, rk, cs[i]);
    }
  }

  /** Where the split child y is cut: after t children when internal, after
      all of them at a leaf. */
  function Cut(ns: seq<Rec>, x: nat, idx: nat, t: int): nat
    requires x < |ns| && idx < |ns[x].children| && ns[x].children[idx] < |ns|
    requires ns[ns[x].children[idx]].leaf || 0 <= t <= |ns[ns[x].children[idx]].children|
  {
    var Y := ns[ns[x].children[idx]];
    if Y.leaf then |Y.children| else t
  }

  /** The old records the new child i of x reaches after the split. */
  ghost function Region(ns: seq<Rec>, rk: seq<nat>, x: nat, idx: nat, t: int, i: nat): set<nat>
    requires SplitPre(ns, rk, x, idx, t) == true && i <= |ns[x].children|
  {
    var cs, y := ns[x].children, ns[x].children[idx];
    var m := Cut(ns, x, idx, t);
    if i < idx then Reach(ns, rk, cs[i])
    else if i == idx then {y} + ReachAll(ns, rk, ns[y].children[..m])
    else if i == idx + 1 then {|ns|} + ReachAll(ns, rk, ns[y].children[m..])
    else Reach(ns, rk, cs[i - 1])
  }

  /** Child i of x after the split is the matching child of M.SplitChild,
      a tree, reaching exactly Region i. */
  lemma SplitChildAt(ns: seq<Rec>, rk: seq<nat>, x: nat, idx: nat, t: int, i: nat)
    requires SplitPre(ns, rk, x, idx, t) == true && i <= |ns[x].children|
    ensures var ns1, rk1, y := SplitArena(ns, rk, x, idx, t), rk + [rk[ns[x].children[idx]]], ns[x].children[idx];
      && Closed(ns1, rk1) && |ns1[x].children| == |ns[x].children| + 1
      && 1 <= t && (!ns[y].leaf ==> t <= |Abs(ns, rk, y).children|)
      && ns1[x].children[i] < |ns1|
      && Abs(ns1, rk1, ns1[x].children[i]) == M.SplitChild(Abs(ns, rk, x), idx, t).children[i]
      && TreeAt(ns1, rk1, ns1[x].children[i])
      && Reach(ns1, rk1, ns1[x].children[i]) == Region(ns, rk, x, idx, t, i)
  {
    if i == idx || i == idx + 1 {
      SplitChildMid(ns, rk, x, idx, t, i);
    } else {
      SplitChildSide(ns, rk, x, idx, t, i);
    }
  }

  lemma SplitChildSide(ns: seq<Rec>, rk: seq<nat>, x: nat, idx: nat, t: int, i: nat)
    requires SplitPre(ns, rk, x, idx, t) == true && i <= |ns[x].children| && i != idx && i != idx + 1
    ensures var ns1, rk1, y := SplitArena(ns, rk, x, idx, t), rk + [rk[ns[x].children[idx]]], ns[x].children[idx];
      && Closed(ns1, rk1) && |ns1[x].children| == |ns[x].children| + 1
      && 1 <= t && (!ns[y].leaf ==> t <= |Abs(ns, rk, y).children|)
      && ns1[x].children[i] < |ns1|
      && Abs(ns1, rk1, ns1[x].children[i]) == M.SplitChild(Abs(ns, rk, x), idx, t).children[i]
      && TreeAt(ns1, rk1, ns1[x].children[i])
      && Reach(ns1, rk1, ns1[x].children[i]) == Region(ns, rk, x, idx, t, i)
  {
    if i < idx {
      SplitChildBefore(ns, rk, x, idx, t, i);
    } else {
      SplitChildAfter(ns, rk, x, idx, t, i);
    }
  }

  lemma SplitChildBefore(ns: seq<Rec>, rk: seq<nat>, x: nat, idx: nat, t: int, i: nat)
    requires SplitPre(ns, rk, x, idx, t) == true && i < idx
    ensures var ns1, rk1, y := SplitArena(ns, rk, x, idx, t), rk + [rk[ns[x].children[idx]]], ns[x].children[idx];
      && Closed(ns1, rk1) && |ns1[x].children| == |ns[x].children| + 1
      && 1 <= t && (!ns[y].leaf ==> t <= |Abs(ns, rk, y).children|)
      && ns1[x].children[i] < |ns1|
      && Abs(ns1, rk1, ns1[x].children[i]) == M.SplitChild(Abs(ns, rk, x), idx, t).children[i]
      && TreeAt(ns1, rk1, ns1[x].children[i])
      && Reach(ns1, rk1, ns1[x].children[i]) == Region(ns, rk, x, idx, t, i)
  {
    SplitClosed(ns, rk, x, idx, t);
    AbsFields(ns, rk, x);
    SplitParentChildren(ns, rk, x, idx, t);
    assert M.SplitChild(Abs(ns, rk, x), idx, t).children[i] == Abs(ns, rk, x).children[i];
    SplitSibling(ns, rk, x, idx, t, i);
  }

  lemma SplitChildAfter(ns: seq<Rec>, rk: seq<nat>, x: nat, idx: nat, t: int, i: nat)
    requires SplitPre(ns, rk, x, idx, t) == true && idx + 1 < i <= |ns[x].children|
    ensures var ns1, rk1, y := SplitArena(ns, rk, x, idx, t), rk + [rk[ns[x].children[idx]]], ns[x].children[idx];
      && Closed(ns1, rk1) && |ns1[x].children| == |ns[x].children| + 1
      && 1 <= t && (!ns[y].leaf ==> t <= |Abs(ns, rk, y).children|)
      && ns1[x].children[i] < |ns1|
      && Abs(ns1, rk1, ns1[x].children[i]) == M.SplitChild(Abs(ns, rk, x), idx, t).children[i]
      && TreeAt(ns1, rk1, ns1[x].children[i])
      && Reach(ns1, rk1, ns1[x].children[i]) == Region(ns, rk, x, idx, t, i)
  {
    AfterSplitHandle(ns, rk, x, idx, t, i);
    AfterSplitValue(ns, rk, x, idx, t, i);
    SplitSibling(ns, rk, x, idx, t, i - 1);
  }

  /** Child i > idx + 1 of x after the split is the old child i - 1, and
      its region is that child's subtree. */
  lemma AfterSplitHandle(ns: seq<Rec>, rk: seq<nat>, x: nat, idx: nat, t: int, i: nat)
    requires SplitPre(ns, rk, x, idx, t) == true && idx + 1 < i <= |ns[x].children|
    ensures var ns1 := SplitArena(ns, rk, x, idx, t);
      && |ns1[x].children| == |ns[x].children| + 1 && ns1[x].children[i] == ns[x].children[i - 1]
      && Region(ns, rk, x, idx, t, i) == Reach(ns, rk, ns[x].children[i - 1])
  {
    SplitParentChildren(ns, rk, x, idx, t);
  }

  /** ... and M.SplitChild's child i is the old child i - 1. */
  lemma AfterSplitValue(ns: seq<Rec>, rk: seq<nat>, x: nat, idx: nat, t: int, i: nat)
    requires SplitPre(ns, rk, x, idx, t) == true && idx + 1 < i <= |ns[x].children|
    ensures var y := ns[x].children[idx];
      && 1 <= t && (!ns[y].leaf ==> t <= |Abs(ns, rk, y).children|)
      && M.SplitChild(Abs(ns, rk, x), idx, t).children[i] == Abs(ns, rk, ns[x].children[i - 1])
  {
    AbsFields(ns, rk, x);
    var A := Abs(ns, rk, x);
    ReplaceByTwo(A.children, idx, M.Lower(A.children[idx], t), M.Upper(A.children[idx], t));
  }

  lemma SplitChildMid(ns: seq<Rec>, rk: seq<nat>, x: nat, idx: nat, t: int, i: nat)
    requires SplitPre(ns, rk, x, idx, t) == true && (i == idx || i == idx + 1)
    ensures var ns1, rk1, y := SplitArena(ns, rk, x, idx, t), rk + [rk[ns[x].children[idx]]], ns[x].children[idx];
      && Closed(ns1, rk1) && |ns1[x].children| == |ns[x].children| + 1
      && 1 <= t && (!ns[y].leaf ==> t <= |Abs(ns, rk, y).children|)
      && ns1[x].children[i] < |ns1|
      && Abs(ns1, rk1, ns1[x].children[i]) == M.SplitChild(Abs(ns, rk, x), idx, t).children[i]
      && TreeAt(ns1, rk1, ns1[x].children[i])
      && Reach(ns1, rk1, ns1[x].children[i]) == Region(ns, rk, x, idx, t, i)
  {
    var y := ns[x].children[idx];
    var ns1 := SplitArena(ns, rk, x, idx, t);
    SplitClosed(ns, rk, x, idx, t);
    AbsFields(ns, rk, x);
    var m := Cut(ns, x, idx, t);
    var S := M.SplitChild(Abs(ns, rk, x), idx, t);
    if i == idx {
      assert ns1[y].children == ns[y].children[..m];
      assert ns1[x].children[i] == y;
      assert S.children[i] == M.Lower(Abs(ns, rk, y), t);
      SplitLow(ns, rk, x, idx, t);
    } else {
      assert ns1[|ns|].children == ns[y].children[m..];
      assert ns1[x].children[i] == |ns|;
      assert S.children[i] == M.Upper(Abs(ns, rk, y), t);
      SplitHigh(ns, rk, x, idx, t);
    }
  }

  /** Where the regions lie: the two halves of y within y's subtree plus
      the new handle, every other region being an old sibling's subtree. */
  lemma RegionFacts(ns: seq<Rec>, rk: seq<nat>, x: nat, idx: nat, t: int, i: nat)
    requires SplitPre(ns, rk, x, idx, t) == true && i <= |ns[x].children|
    ensures var cs, y := ns[x].children, ns[x].children[idx];
      && Reach(ns, rk, y) <= Reach(ns, rk, x)
      && Region(ns, rk, x, idx, t, i) <= Reach(ns, rk, x) + {|ns|}
      && (i == idx || i == idx + 1 ==> Region(ns, rk, x, idx, t, i) <= Reach(ns, rk, y) + {|ns|})
      && (i < idx ==> Region(ns, rk, x, idx, t, i) == Reach(ns, rk, cs[i]))
      && (i > idx + 1 ==> Region(ns, rk, x, idx, t, i) == Reach(ns, rk, cs[i - 1]))
  {
    var cs, y := ns[x].children, ns[x].children[idx];
    ReachChild(ns, rk, x, idx);
    if i == idx || i == idx + 1 {
      assert TreeAt(ns, rk, y);
      ChildrenApart(ns, rk, y, Cut(ns, x, idx, t));
      ChildrenBelow(ns, rk, y);
    } else if i < idx {
      ReachChild(ns, rk, x, i);
    } else {
      ReachChild(ns, rk, x, i - 1);
    }
  }

  /** The regions of distinct new children are disjoint. */
  lemma RegionsApart(ns: seq<Rec>, rk: seq<nat>, x: nat, idx: nat, t: int, i: nat, j: nat)
    requires SplitPre(ns, rk, x, idx, t) == true && i < j <= |ns[x].children|
    ensures Region(ns, rk, x, idx, t, i) !! Region(ns, rk, x, idx, t, j)
  {
    var cs, y := ns[x].children, ns[x].children[idx];
    RegionFacts(ns, rk, x, idx, t, i);
    RegionFacts(ns, rk, x, idx, t, j);
    var oi := if i < idx then i else i - 1;
    var oj := if j < idx then j else j - 1;
    if i == idx && j == idx + 1 {
      assert TreeAt(ns, rk, y);
      ChildrenApart(ns, rk, y, Cut(ns, x, idx, t));
      ChildrenBelow(ns, rk, y);
    } else if i == idx || i == idx + 1 {
      ReachFacts(ns, rk, cs[oj]);
      assert Reach(ns, rk, y) !! Reach(ns, rk, cs[oj]);
    } else if j == idx || j == idx + 1 {
      ReachFacts(ns, rk, cs[oi]);
      assert Reach(ns, rk, cs[oi]) !! Reach(ns, rk, y);
    } else {
      assert oi < oj;
      assert Reach(ns, rk, cs[oi]) !! Reach(ns, rk, cs[oj]);
    }
  }

  /** The split arena holds M.SplitChild of x's old value at x. */
  lemma SplitParentAbs(ns: seq<Rec>, rk: seq<nat>, x: nat, idx: nat, t: int)
    requires SplitPre(ns, rk, x, idx, t) == true
    ensures var ns1, rk1, y := SplitArena(ns, rk, x, idx, t), rk + [rk[ns[x].children[idx]]], ns[x].children[idx];
      && Closed(ns1, rk1) && x < |ns1| && 1 <= t
      && Abs(ns, rk, x).children[idx] == Abs(ns, rk, y)
      && (!ns[y].leaf ==> t <= |Abs(ns, rk, y).children|)
      && Abs(ns1, rk1, x) == M.SplitChild(Abs(ns, rk, x), idx, t)
  {
    var ns1, rk1, y := SplitArena(ns, rk, x, idx, t), rk + [rk[ns[x].children[idx]]], ns[x].children[idx];
    SplitClosed(ns, rk, x, idx, t);
    SplitLow(ns, rk, x, idx, t);
    AbsFields(ns, rk, x);
    AbsFields(ns, rk, y);
    AbsFields(ns1, rk1, x);
    var S := M.SplitChild(Abs(ns, rk, x), idx, t);
    forall i | 0 <= i < |ns1[x].children|
      ensures Abs(ns1, rk1, x).children[i] == S.children[i]
    {
      SplitChildAt(ns, rk, x, idx, t, i);
    }
    assert Abs(ns1, rk1, x).children == S.children;
  }

  /** After the split x is still a tree, reaching what it reached before
      and the new record. */
  lemma SplitParentTree(ns: seq<Rec>, rk: seq<nat>, x: nat, idx: nat, t: int)
    requires SplitPre(ns, rk, x, idx, t) == true
    ensures var ns1, rk1 := SplitArena(ns, rk, x, idx, t), rk + [rk[ns[x].children[idx]]];
      && Closed(ns1, rk1) && x < |ns1|
      && TreeAt(ns1, rk1, x) && Reach(ns1, rk1, x) <= Reach(ns, rk, x) + {|ns|}
  {
    var ns1, rk1 := SplitArena(ns, rk, x, idx, t), rk + [rk[ns[x].children[idx]]];
    SplitClosed(ns, rk, x, idx, t);
    var cs1 := ns1[x].children;
    assert |cs1| == |ns[x].children| + 1;
    forall i | 0 <= i < |cs1|
      ensures TreeAt(ns1, rk1, cs1[i]) && Reach(ns1, rk1, cs1[i]) == Region(ns, rk, x, idx, t, i)
      ensures Region(ns, rk, x, idx, t, i) <= Reach(ns, rk, x) + {|ns|}
    {
      SplitChildAt(ns, rk, x, idx, t, i);
      RegionFacts(ns, rk, x, idx, t, i);
    }
    forall i, j | 0 <= i < j < |cs1|
      ensures Reach(ns1, rk1, cs1[i]) !! Reach(ns1, rk1, cs1[j])
    {
      RegionsApart(ns, rk, x, idx, t, i, j);
    }
    ReachChildren(ns1, rk1, x);
    ReachFacts(ns, rk, x);
  }

  /** ns2, rk2 extend ns1, rk1 below h: ranks are only appended, records
      outside h's old subtree are kept, h is still a tree, and it reaches
      only its old records and new ones. */
  ghost predicate Extends(ns1: seq<Rec>, rk1: seq<nat>, ns2: seq<Rec>, rk2: seq<nat>, h: nat)
    requires Closed(ns1, rk1) && Closed(ns2, rk2) && h < |ns1|
  {
    && |ns1| <= |ns2| && rk2[..|rk1|] == rk1
    && (forall v :: 0 <= v < |ns1| && v !in Reach(ns1, rk1, h) ==> ns2[v] == ns1[v])
    && TreeAt(ns2, rk2, h)
    && (forall v :: v in Reach(ns2, rk2, h) ==> v in Reach(ns1, rk1, h) || |ns1| <= v)
  }

  /** A sibling k of the extended child j keeps its subtree, apart from
      the child's new one. */
  lemma ExtendSibling(ns1: seq<Rec>, rk1: seq<nat>, ns2: seq<Rec>, rk2: seq<nat>, x: nat, j: nat, k: nat)
    requires Closed(ns1, rk1) && Closed(ns2, rk2) && x < |ns1| && TreeAt(ns1, rk1, x)
    requires j < |ns1[x].children| && k < |ns1[x].children| && k != j && |ns1| <= |ns2|
    requires Extends(ns1, rk1, ns2, rk2, ns1[x].children[j])
    ensures var c, d := ns1[x].children[j], ns1[x].children[k];
      && Abs(ns2, rk2, d) == Abs(ns1, rk1, d) && Reach(ns2, rk2, d) == Reach(ns1, rk1, d)
      && TreeAt(ns2, rk2, d) && Reach(ns2, rk2, d) !! Reach(ns2, rk2, c)
  {
    var c, d := ns1[x].children[j], ns1[x].children[k];
    assert TreeAt(ns1, rk1, d);
    if k < j {
      assert Reach(ns1, rk1, d) !! Reach(ns1, rk1, c);
    } else {
      assert Reach(ns1, rk1, c) !! Reach(ns1, rk1, d);
    }
    assert forall v :: 0 <= v < |ns1| ==> rk2[v] == rk1[v];
    FrameOutside(ns1, rk1, ns2, rk2, d, Reach(ns1, rk1, c));
    ReachFacts(ns1, rk1, d);
  }

  /** Extending child j of x, x's own record kept, extends x, whose value
      gets the child's new value in place j. */
  lemma ExtendChild(ns1: seq<Rec>, rk1: seq<nat>, ns2: seq<Rec>, rk2: seq<nat>, x: nat, j: nat)
    requires Closed(ns1, rk1) && Closed(ns2, rk2) && x < |ns1| && TreeAt(ns1, rk1, x)
    requires j < |ns1[x].children| && |ns1| <= |ns2| && ns2[x] == ns1[x]
    requires Extends(ns1, rk1, ns2, rk2, ns1[x].children[j])
    ensures x < |ns2| && Extends(ns1, rk1, ns2, rk2, x)
    ensures Abs(ns2, rk2, x) == Abs(ns1, rk1, x).(children := Abs(ns1, rk1, x).children[j := Abs(ns2, rk2, ns1[x].children[j])])
  {
    var cs, c := ns1[x].children, ns1[x].children[j];
    forall k | 0 <= k < |cs| && k != j
      ensures Abs(ns2, rk2, cs[k]) == Abs(ns1, rk1, cs[k]) && Reach(ns2, rk2, cs[k]) == Reach(ns1, rk1, cs[k])
      ensures TreeAt(ns2, rk2, cs[k]) && Reach(ns2, rk2, cs[k]) !! Reach(ns2, rk2, c)
    {
      ExtendSibling(ns1, rk1, ns2, rk2, x, j, k);
    }
    ExtendParent(ns1, rk1, ns2, rk2, x, j);
    AbsFields(ns1, rk1, x);
    AbsFields(ns2, rk2, x);
  }

  /** The subtree part of ExtendChild, given the siblings' facts. */
  lemma ExtendParent(ns1: seq<Rec>, rk1: seq<nat>, ns2: seq<Rec>, rk2: seq<nat>, x: nat, j: nat)
    requires Closed(ns1, rk1) && Closed(ns2, rk2) && x < |ns1| && TreeAt(ns1, rk1, x)
    requires j < |ns1[x].children| && |ns1| <= |ns2| && ns2[x] == ns1[x]
    requires Extends(ns1, rk1, ns2, rk2, ns1[x].children[j])
    requires forall k :: 0 <= k < |ns1[x].children| && k != j ==>
      && Reach(ns2, rk2, ns1[x].children[k]) == Reach(ns1, rk1, ns1[x].children[k])
      && TreeAt(ns2, rk2, ns1[x].children[k])
      && Reach(ns2, rk2, ns1[x].children[k]) !! Reach(ns2, rk2, ns1[x].children[j])
    ensures x < |ns2| && Extends(ns1, rk1, ns2, rk2, x)
  {
    ReachChild(ns1, rk1, x, j);
    ExtendTree(ns1, rk1, ns2, rk2, x, j);
    ExtendReach(ns1, rk1, ns2, rk2, x, j);
  }

  lemma ExtendTree(ns1: seq<Rec>, rk1: seq<nat>, ns2: seq<Rec>, rk2: seq<nat>, x: nat, j: nat)
    requires Closed(ns1, rk1) && Closed(ns2, rk2) && x < |ns1| && TreeAt(ns1, rk1, x)
    requires j < |ns1[x].children| && |ns1| <= |ns2| && ns2[x] == ns1[x]
    requires Extends(ns1, rk1, ns2, rk2, ns1[x].children[j])
    requires forall k :: 0 <= k < |ns1[x].children| && k != j ==>
      && Reach(ns2, rk2, ns1[x].children[k]) == Reach(ns1, rk1, ns1[x].children[k])
      && TreeAt(ns2, rk2, ns1[x].children[k])
      && Reach(ns2, rk2, ns1[x].children[k]) !! Reach(ns2, rk2, ns1[x].children[j])
    ensures x < |ns2| && TreeAt(ns2, rk2, x)
  {
    var cs := ns1[x].children;
    forall a, b | 0 <= a < b < |cs|
      ensures Reach(ns2, rk2, cs[a]) !! Reach(ns2, rk2, cs[b])
    {
      if a != j && b != j {
        assert Reach(ns1, rk1, cs[a]) !! Reach(ns1, rk1, cs[b]);
      }
    }
  }

  lemma ExtendReach(ns1: seq<Rec>, rk1: seq<nat>, ns2: seq<Rec>, rk2: seq<nat>, x: nat, j: nat)
    requires Closed(ns1, rk1) && Closed(ns2, rk2) && x < |ns1| && TreeAt(ns1, rk1, x)
    requires j < |ns1[x].children| && |ns1| <= |ns2| && ns2[x] == ns1[x]
    requires Extends(ns1, rk1, ns2, rk2, ns1[x].children[j])
    requires forall k :: 0 <= k < |ns1[x].children| && k != j ==>
      && Reach(ns2, rk2, ns1[x].children[k]) == Reach(ns1, rk1, ns1[x].children[k])
      && TreeAt(ns2, rk2, ns1[x].children[k])
      && Reach(ns2, rk2, ns1[x].children[k]) !! Reach(ns2, rk2, ns1[x].children[j])
    ensures x < |ns2| && forall v :: v in Reach(ns2, rk2, x) ==> v in Reach(ns1, rk1, x) || |ns1| <= v
  {
    var cs := ns1[x].children;
    forall v | v in Reach(ns2, rk2, x)
      ensures v in Reach(ns1, rk1, x) || |ns1| <= v
    {
      if v != x {
        var i :| 0 <= i < |cs| && v in Reach(ns2, rk2, cs[i]);
        ReachChild(ns1, rk1, x, i);
      }
    }
  }

  /** The split extends x. */
  lemma SplitExtends(ns: seq<Rec>, rk: seq<nat>, x: nat, idx: nat, t: int)
    requires SplitPre(ns, rk, x, idx, t) == true
    ensures var ns1, rk1 := SplitArena(ns, rk, x, idx, t), rk + [rk[ns[x].children[idx]]];
      && Closed(ns1, rk1) && x < |ns1| && Extends(ns, rk, ns1, rk1, x)
  {
    var ns1, rk1 := SplitArena(ns, rk, x, idx, t), rk + [rk[ns[x].children[idx]]];
    SplitClosed(ns, rk, x, idx, t);
    SplitTouches(ns, rk, x, idx, t);
    SplitParentTree(ns, rk, x, idx, t);
    ReachChild(ns, rk, x, idx);
    ReachFacts(ns, rk, x);
    ReachFacts(ns, rk, ns[x].children[idx]);
    assert rk1[..|rk|] == rk;
  }

  /** Extension composes. */
  lemma ExtendsTrans(ns0: seq<Rec>, rk0: seq<nat>, ns1: seq<Rec>, rk1: seq<nat>, ns2: seq<Rec>, rk2: seq<nat>, h: nat)
    requires Closed(ns0, rk0) && Closed(ns1, rk1) && Closed(ns2, rk2) && h < |ns0| && h < |ns1|
    requires Extends(ns0, rk0, ns1, rk1, h) && Extends(ns1, rk1, ns2, rk2, h)
    ensures Extends(ns0, rk0, ns2, rk2, h)
  {
    assert rk2[..|rk0|] == rk1[..|rk0|];
  }

  /** Replacing the keys of record x changes only the keys of x's value. */
  lemma SetKeys(ns: seq<Rec>, rk: seq<nat>, x: nat, ks: seq<int>)
    requires Closed(ns, rk) && x < |ns|
    ensures var ns1 := ns[x := ns[x].(keys := ks)];
      && Closed(ns1, rk) && Abs(ns1, rk, x) == Abs(ns, rk, x).(keys := ks)
      && (TreeAt(ns, rk, x) ==> Extends(ns, rk, ns1, rk, x))
  {
    var ns1 := ns[x := ns[x].(keys := ks)];
    var cs := ns[x].children;
    assert Closed(ns1, rk);
    forall i | 0 <= i < |cs|
      ensures Abs(ns1, rk, cs[i]) == Abs(ns, rk, cs[i]) && Reach(ns1, rk, cs[i]) == Reach(ns, rk, cs[i])
      ensures TreeAt(ns1, rk, cs[i]) == TreeAt(ns, rk, cs[i])
    {
      ReachFacts(ns, rk, cs[i]);
      FrameOutside(ns, rk, ns1, rk, cs[i], {x});
    }
    AbsFields(ns, rk, x);
    AbsFields(ns1, rk, x);
    ReachChildren(ns, rk, x);
    ReachChildren(ns1, rk, x);
    ReachAllAgree(ns, rk, ns1, rk, cs);
    assert rk[..|rk|] == rk;
  }

  /** Appending a record whose children are older and of lower rank keeps
      the arena closed. */
  lemma AppendClosed(ns: seq<Rec>, rk: seq<nat>, r: Rec, k: nat)
    requires Closed(ns, rk)
    requires forall i :: 0 <= i < |r.children| ==> r.children[i] < |ns| && rk[r.children[i]] < k
    ensures Closed(ns + [r], rk + [k])
  {
  }

  /** ... and leaves every old subtree as it was. */
  lemma AppendKeeps(ns: seq<Rec>, rk: seq<nat>, ns1: seq<Rec>, rk1: seq<nat>, r: Rec, k: nat, h: nat)
    requires Closed(ns, rk) && h < |ns|
    requires forall i :: 0 <= i < |r.children| ==> r.children[i] < |ns| && rk[r.children[i]] < k
    requires ns1 == ns + [r] && rk1 == rk + [k]
    ensures Closed(ns1, rk1)
    ensures Abs(ns1, rk1, h) == Abs(ns, rk, h) && Reach(ns1, rk1, h) == Reach(ns, rk, h)
    ensures TreeAt(ns1, rk1, h) == TreeAt(ns, rk, h)
  {
    AppendClosed(ns, rk, r, k);
    FrameOutside(ns, rk, ns1, rk1, h, {});
  }

  /** A shaped internal node has one child more than keys, and its
      children are shaped. */
  lemma WfChild(ns: seq<Rec>, rk: seq<nat>, x: nat, i: nat)
    requires Closed(ns, rk) && x < |ns| && Wf(Abs(ns, rk, x)) && !ns[x].leaf && i <= |ns[x].keys|
    ensures |ns[x].children| == |ns[x].keys| + 1 && ns[x].children[i] < |ns|
    ensures Abs(ns, rk, x).children[i] == Abs(ns, rk, ns[x].children[i])
    ensures Wf(Abs(ns, rk, ns[x].children[i]))
    ensures var c := ns[x].children[i];
      && Abs(ns, rk, c).keys == ns[c].keys && Abs(ns, rk, c).leaf == ns[c].leaf
      && (!ns[c].leaf ==> |ns[c].children| == |ns[c].keys| + 1)
  {
    AbsFields(ns, rk, x);
    AbsFields(ns, rk, ns[x].children[i]);
  }

  /** A new internal record with the single child r, appended at |ns|. */
  lemma PushRoot(ns: seq<Rec>, rk: seq<nat>, ns1: seq<Rec>, rk1: seq<nat>, r: nat, t: int)
    requires Closed(ns, rk) && r < |ns| && TreeAt(ns, rk, r)
    requires ns1 == ns + [Rec(false, t, [], [r])] && rk1 == rk + [rk[r] + 1]
    ensures Closed(ns1, rk1) && |ns| < |ns1|
    ensures TreeAt(ns1, rk1, |ns|)
    ensures Abs(ns1, rk1, |ns|) == Node(false, [], [Abs(ns, rk, r)])
  {
    AppendKeeps(ns, rk, ns1, rk1, Rec(false, t, [], [r]), rk[r] + 1, r);
    OnlyChild(ns1, rk1, |ns|);
    OnlyChildAbs(ns1, rk1, |ns|);
  }

  /** The value of a record with no keys and a single child. */
  lemma OnlyChildAbs(ns: seq<Rec>, rk: seq<nat>, h: nat)
    requires Closed(ns, rk) && h < |ns| && ns[h].keys == [] && |ns[h].children| == 1
    ensures Abs(ns, rk, h) == Node(ns[h].leaf, [], [Abs(ns, rk, ns[h].children[0])])
  {
    AbsFields(ns, rk, h);
    assert Abs(ns, rk, h).children == [Abs(ns, rk, ns[h].children[0])];
  }

  /** A record with a single child heads a tree when the child does. */
  lemma OnlyChild(ns: seq<Rec>, rk: seq<nat>, h: nat)
    requires Closed(ns, rk) && h < |ns| && |ns[h].children| == 1
    requires TreeAt(ns, rk, ns[h].children[0])
    ensures TreeAt(ns, rk, h)
  {
  }

  /** Growing the tree at a full root r: the record pushed above r and then
      split at child 0 holds M.GrowRoot of r's value, a shaped internal
      node with one key. */
  lemma GrowArena(ns: seq<Rec>, rk: seq<nat>, ns1: seq<Rec>, rk1: seq<nat>, r: nat, t: int)
    requires Closed(ns, rk) && r < |ns| && TreeAt(ns, rk, r) && Wf(Abs(ns, rk, r))
    requires |ns[r].keys| == 2 * t - 1
    requires ns1 == ns + [Rec(false, t, [], [r])] && rk1 == rk + [rk[r] + 1]
    ensures SplitPre(ns1, rk1, |ns|, 0, t) && ns1[|ns|].children[0] == r
    ensures var ns2, rk2 := SplitArena(ns1, rk1, |ns|, 0, t), rk1 + [rk1[r]];
      && Closed(ns2, rk2) && |ns| < |ns2| && TreeAt(ns2, rk2, |ns|)
      && Abs(ns2, rk2, |ns|) == M.GrowRoot(Abs(ns, rk, r), t)
      && Wf(Abs(ns2, rk2, |ns|)) && !Abs(ns2, rk2, |ns|).leaf && |Abs(ns2, rk2, |ns|).keys| == 1
  {
    var R := Abs(ns, rk, r);
    PushRoot(ns, rk, ns1, rk1, r, t);
    AbsFields(ns, rk, r);
    AppendKeeps(ns, rk, ns1, rk1, Rec(false, t, [], [r]), rk[r] + 1, r);
    assert SplitPre(ns1, rk1, |ns|, 0, t);
    SplitParentAbs(ns1, rk1, |ns|, 0, t);
    SplitParentTree(ns1, rk1, |ns|, 0, t);
    M.GrowRootShape(R, t);
  }
}
