/** `class BTree` of src/btree.hpp and src/btree.cpp over the node arena of
    module Arena: the tree's state is the record sequence, the root handle,
    the minimum degree t and the log of inserted keys.  The operations of
    `BTree::Node` take the handle of the node they run on.  Each method is
    proved to change the value of its subtree exactly as the matching
    function of BTreeSpec does, and to leave every record outside that
    subtree as it was. */
module BTreeImpl {
  import opened Sequences
  import opened BTreeShape
  import opened Arena
  import M = BTreeSpec

  /** `BTree` (src/btree.hpp:11-50). */
  class BTree {
    /** Every node ever allocated; a node pointer is an index into it. */
    var nodes: seq<Rec>
    /** Ghost rank per record: children rank strictly below their parent. */
    ghost var rk: seq<nat>
    /** `root`, or None for the null pointer. */
    var root: Option<nat>
    const t: int
    /** `all_keys`: every key inserted since the last full clear. */
    var allKeys: seq<int>

    /** The arena is closed and every node has the tree's minimum degree. */
    ghost predicate ArenaOk()
      reads this
    {
      Closed(nodes, rk) && forall h :: 0 <= h < |nodes| ==> nodes[h].t == t
    }

    /** x heads a shaped tree in the arena. */
    ghost predicate NodeOk(x: nat)
      reads this
    {
      ArenaOk() && x < |nodes| && TreeAt(nodes, rk, x) && Wf(Abs(nodes, rk, x))
    }

    /** The tree the root pointer stands for. */
    ghost function Value(): Option<Tree>
      reads this
      requires ArenaOk() && (root.Some? ==> root.value < |nodes|)
    {
      if root.None? then None else Some(Abs(nodes, rk, root.value))
    }

    /** The class invariant: the root heads a tree that is a B-tree. */
    ghost predicate Valid()
      reads this
    {
      && ArenaOk()
      && (root.Some? ==> root.value < |nodes| && TreeAt(nodes, rk, root.value))
      && IsBTree(Value(), t)
    }

    /** The tree is valid and is the one the log builds (false after a
        clear() of a non-empty log, until the next clearAll() or an erase of
        a logged key, which rebuilds from the log minus that key). */
    ghost predicate Synced()
      reads this
    {
      Valid() && Value() == M.FromLog(allKeys, t)
    }

    /** `BTree(t = 2)` (src/btree.cpp:72, src/btree.hpp:30): an empty tree
        with an empty log. */
    constructor (t0: int := 2)
      ensures Valid() && Synced()
      ensures t == t0 && root == None && allKeys == [] && nodes == []
    {
      nodes := [];
      rk := [];
      root := None;
      t := t0;
      allKeys := [];
    }

    /** `Node::splitChild(idx, y)` (src/btree.cpp:50-69) at node x with
        y = children[idx] full: a new node z takes y's keys from t on (and
        its children from t on), y keeps its first t-1 keys (and t
        children), z is linked in at idx+1 and y's median key at idx. */
    method SplitChild(x: nat, idx: nat, y: nat)
      requires ArenaOk() && SplitPre(nodes, rk, x, idx, t) == true && y == nodes[x].children[idx]
      modifies this
      ensures ArenaOk()
      ensures nodes == SplitArena(old(nodes), old(rk), x, idx, t) && rk == old(rk) + [old(rk[y])]
      ensures root == old(root) && allKeys == old(allKeys)
    {
      SplitClosed(nodes, rk, x, idx, t);
      var X, Y := nodes[x], nodes[y];
      var d := X.t;
      var zh := |nodes|;
      var Z := Rec(Y.leaf, Y.t, [], []);
      var midKey := Y.keys[d - 1];
      Z := Z.(keys := Y.keys[d..]);
      if !Y.leaf {
        Z := Z.(children := Y.children[d..]);
      }
      Y := Y.(keys := Y.keys[..d - 1]);
      if !Y.leaf {
        Y := Y.(children := Y.children[..d]);
      }
      X := X.(children := X.children[..idx + 1] + [zh] + X.children[idx + 1..]);
      X := X.(keys := X.keys[..idx] + [midKey] + X.keys[idx..]);
      nodes, rk := nodes[y := Y][x := X] + [Z], rk + [rk[y]];
    }

    /** `Node::insertNonFull(k)` (src/btree.cpp:30-48) at node x: the
        subtree's value becomes M.InsertNonFull of the old one; records
        outside the old subtree are untouched, new records are appended. */
    method InsertNonFull(x: nat, k: int)
      requires NodeOk(x)
      modifies this
      ensures ArenaOk() && x < |nodes| && Extends(old(nodes), old(rk), nodes, rk, x)
      ensures Abs(nodes, rk, x) == M.InsertNonFull(old(Abs(nodes, rk, x)), t, k)
      ensures root == old(root) && allKeys == old(allKeys)
      decreases rk[x]
    {
      ghost var ns0, rk0, A := nodes, rk, Abs(nodes, rk, x);
      var X := nodes[x];
      AbsFields(nodes, rk, x);
      if X.leaf {
        var keys := ShiftIn(X.keys, k);
        SetKeys(nodes, rk, x, keys);
        nodes := nodes[x := X.(keys := keys)];
      } else {
        var i := SlotAfter(X.keys, k);
        i := SplitIfFull(x, i, k);
        ghost var ns1, rk1 := nodes, rk;
        WfChild(nodes, rk, x, i);
        var c := nodes[x].children[i];
        ReachFacts(nodes, rk, c);
        InsertNonFull(c, k);
        ExtendChild(ns1, rk1, nodes, rk, x, i);
        ExtendsTrans(ns0, rk0, ns1, rk1, nodes, rk, x);
      }
    }

    /** Lines 42-45 of insertNonFull at internal node x, i being the slot
        after the last key <= k: a full children[i] is split and i steps
        past the promoted median when that is < k.  The subtree and the
        returned index are those of M.Route. */
    method SplitIfFull(x: nat, i: nat, k: int) returns (j: nat)
      requires NodeOk(x) && !nodes[x].leaf && i == InsertPos(nodes[x].keys, k)
      modifies this
      ensures ArenaOk() && x < |nodes| && Extends(old(nodes), old(rk), nodes, rk, x)
      ensures (Abs(nodes, rk, x), j) == M.Route(old(Abs(nodes, rk, x)), t, k)
      ensures root == old(root) && allKeys == old(allKeys)
    {
      ghost var A := Abs(nodes, rk, x);
      j := i;
      WfChild(nodes, rk, x, i);
      var c := nodes[x].children[i];
      if |nodes[c].keys| == 2 * nodes[x].t - 1 {
        SplitParentAbs(nodes, rk, x, i, t);
        SplitExtends(nodes, rk, x, i, t);
        SplitChild(x, i, c);
        if nodes[x].keys[i] < k {
          j := i + 1;
        }
      } else {
        assert rk[..|rk|] == rk;
      }
    }

    /** `Node::search(k)` (src/btree.cpp:22-28) at node x: stop at the first
        key >= k; this node when that key is k, not found at a leaf,
        otherwise the search goes on in the child at that slot.  Finds the
        node M.Search finds. */
    method Search(x: nat, k: int) returns (r: Option<nat>)
      requires ArenaOk() && x < |nodes| && Wf(Abs(nodes, rk, x))
      ensures r.None? <==> M.Search(Abs(nodes, rk, x), k).None?
      ensures r.Some? ==> r.value < |nodes| && M.Search(Abs(nodes, rk, x), k) == Some(Abs(nodes, rk, r.value))
      ensures r.Some? ==> r.value in Reach(nodes, rk, x)
      decreases rk[x]
    {
      var X := nodes[x];
      var i := 0;
      while i < |X.keys| && k > X.keys[i]
        invariant 0 <= i <= |X.keys|
        invariant forall j :: 0 <= j < i ==> X.keys[j] < k
      {
        i := i + 1;
      }
      FirstGeUnique(X.keys, k, i);
      AbsFields(nodes, rk, x);
      if i < |X.keys| && X.keys[i] == k {
        ReachFacts(nodes, rk, x);
        return Some(x);
      }
      if X.leaf {
        return None;
      }
      WfChild(nodes, rk, x, i);
      ReachChild(nodes, rk, x, i);
      r := Search(X.children[i], k);
    }

    /** `Node::traverse(cb, depth)` (src/btree.cpp:13-20) at node x, the
        callback's calls returned in order: the visits M.Traverse lists. */
    method TraverseNode(x: nat, depth: nat) returns (vs: seq<M.Visit>)
      requires ArenaOk() && x < |nodes|
      ensures vs == M.Traverse(Abs(nodes, rk, x), depth)
      decreases rk[x], 1
    {
      var X := nodes[x];
      AbsFields(nodes, rk, x);
      vs := TraverseKeys(x, depth);
      var last := [];
      if !X.leaf && |X.children| > 0 {
        last := TraverseNode(X.children[|X.children| - 1], depth + 1);
      }
      vs := vs + last;
    }

    /** The loop of lines 15-18 of `Node::traverse`: for each key i, the
        calls made in children[i] (when internal and present), then the
        call for key i; the calls M.TraverseUpTo lists. */
    method TraverseKeys(x: nat, depth: nat) returns (vs: seq<M.Visit>)
      requires ArenaOk() && x < |nodes|
      ensures vs == M.TraverseUpTo(Abs(nodes, rk, x), depth, |nodes[x].keys|)
      decreases rk[x], 0
    {
      var X := nodes[x];
      ghost var A := Abs(nodes, rk, x);
      AbsFields(nodes, rk, x);
      vs := [];
      var i := 0;
      while i < |X.keys|
        invariant 0 <= i <= |X.keys| && vs == M.TraverseUpTo(A, depth, i)
      {
        if !X.leaf && i < |X.children| {
          var sub := TraverseNode(X.children[i], depth + 1);
          vs := vs + sub;
        }
        vs := vs + [M.Visit(X.keys[i], depth, i)];
        i := i + 1;
      }
    }

    /** `BTree::insert(k)` (src/btree.cpp:76-95): the tree becomes
        M.Insert of the old one, still a B-tree, and k is logged. */
    method Insert(k: int)
      requires Valid()
      modifies this
      ensures Valid()
      ensures Value() == Some(M.Insert(old(Value()), t, k))
      ensures allKeys == old(allKeys) + [k]
      ensures old(Synced()) ==> Synced()
    {
      M.InsertSpec(Value(), t, k);
      if root.None? {
        InsertEmpty(k);
      } else {
        InsertAtRoot(root.value, k);
      }
      DropAppended(allKeys, k);
      allKeys := allKeys + [k];
    }

    /** `BTree::contains(k)` (src/btree.cpp:97-100): false on the empty
        tree, otherwise whether the root's search finds a node; that is,
        whether k is one of the keys. */
    method Contains(k: int) returns (b: bool)
      requires Valid()
      ensures b == M.Contains(Value(), k)
      ensures b <==> k in Keys(Value())
    {
      M.ContainsCorrect(Value(), t, k);
      if root.None? {
        return false;
      }
      var r := Search(root.value, k);
      b := r.Some?;
    }

    /** `BTree::erase(k)` (src/btree.cpp:102-119): nothing happens when k was
        never logged; otherwise the log loses its first k, the tree is
        dropped, and the remaining keys are inserted again in log order. */
    method Erase(k: int)
      requires Valid()
      modifies this
      ensures Valid() && allKeys == M.EraseLog(old(allKeys), k)
      ensures k !in old(allKeys) ==> root == old(root) && nodes == old(nodes) && rk == old(rk)
      ensures k in old(allKeys) ==> Synced()
    {
      var log := allKeys;
      var at := Find(log, k);
      if at == |log| {
        return;
      }
      var remaining := SkipFirst(log, k);
      ClearAll();
      InsertAll(remaining);
    }

    /** The rebuild loop of `BTree::erase` (src/btree.cpp:118): each key of
        ks inserted in order, so a tree that its log builds stays so. */
    method InsertAll(ks: seq<int>)
      requires Synced()
      modifies this
      ensures Synced() && allKeys == old(allKeys) + ks
    {
      ghost var log0 := allKeys;
      var j := 0;
      while j < |ks|
        invariant 0 <= j <= |ks|
        invariant Synced() && allKeys == log0 + ks[..j]
      {
        TakeOneMore(log0, ks, j);
        Insert(ks[j]);
        j := j + 1;
      }
      assert ks[..j] == ks;
    }

    /** `BTree::clear()` (src/btree.cpp:121-124): the tree becomes empty and
        the log is kept; the records are left unreachable. */
    method Clear()
      requires Valid()
      modifies this
      ensures Valid() && root == None && Value() == None
      ensures nodes == old(nodes) && rk == old(rk) && allKeys == old(allKeys)
    {
      root := None;
    }

    /** `BTree::clearAll()` (src/btree.cpp:126-129): the tree and the log
        both become empty, so the tree is again the one its log builds. */
    method ClearAll()
      requires Valid()
      modifies this
      ensures Valid() && Synced() && root == None && allKeys == []
      ensures nodes == old(nodes) && rk == old(rk)
    {
      Clear();
      allKeys := [];
    }

    /** `BTree::traverse(cb)` (src/btree.cpp:131-133): nothing on the empty
        tree, otherwise the root's traversal at depth 0, which visits the
        keys in order, non-decreasing. */
    method Traverse() returns (vs: seq<M.Visit>)
      requires Valid()
      ensures root.None? ==> vs == []
      ensures root.Some? ==> vs == M.Traverse(Abs(nodes, rk, root.value), 0)
      ensures M.VisitedKeys(vs) == Keys(Value()) && Sorted(M.VisitedKeys(vs))
    {
      if root.None? {
        return [];
      }
      vs := TraverseNode(root.value, 0);
      M.TraverseInorder(Abs(nodes, rk, root.value), 0);
    }

    /** Lines 77-82 of `BTree::insert`: an empty tree gets a new leaf root
        holding k alone. */
    method InsertEmpty(k: int)
      requires ArenaOk() && root.None?
      modifies this
      ensures ArenaOk() && root == Some(|old(nodes)|) && |nodes| == |old(nodes)| + 1
      ensures nodes == old(nodes) + [Rec(true, t, [k], [])] && rk == old(rk) + [0]
      ensures TreeAt(nodes, rk, root.value) && Abs(nodes, rk, root.value) == Node(true, [k], [])
      ensures allKeys == old(allKeys)
    {
      AppendClosed(nodes, rk, Rec(true, t, [k], []), 0);
      nodes, rk := nodes + [Rec(true, t, [k], [])], rk + [0];
      root := Some(|nodes| - 1);
      AbsFields(nodes, rk, |nodes| - 1);
    }

    /** Lines 83-92 of `BTree::insert`: a full root r is grown first, any
        other root takes k directly. */
    method InsertAtRoot(r: nat, k: int)
      requires NodeOk(r)
      modifies this
      ensures ArenaOk() && root.Some? && root.value < |nodes| && TreeAt(nodes, rk, root.value)
      ensures Abs(nodes, rk, root.value) == M.Insert(Some(old(Abs(nodes, rk, r))), t, k)
      ensures allKeys == old(allKeys)
    {
      if |nodes[r].keys| == 2 * t - 1 {
        InsertFull(r, k);
      } else {
        AbsFields(nodes, rk, r);
        InsertNonFull(r, k);
        root := Some(r);
      }
    }

    /** Lines 84-90 of `BTree::insert`: the full root r goes under a new
        root s, which splits it; k goes into the child whose range holds
        it, and s becomes the root. */
    method InsertFull(r: nat, k: int)
      requires NodeOk(r) && |nodes[r].keys| == 2 * t - 1
      modifies this
      ensures ArenaOk() && root.Some? && root.value < |nodes| && TreeAt(nodes, rk, root.value)
      ensures Abs(nodes, rk, root.value) == M.Insert(Some(old(Abs(nodes, rk, r))), t, k)
      ensures allKeys == old(allKeys)
    {
      var s := GrowRoot(r);
      InsertInto(s, k);
      root := Some(s);
    }

    /** Lines 87-89 of `BTree::insert`: below the new root s, with its one
        key, k goes into child 1 when that key is < k and into child 0
        otherwise. */
    method InsertInto(s: nat, k: int)
      requires NodeOk(s) && !Abs(nodes, rk, s).leaf && |Abs(nodes, rk, s).keys| == 1
      modifies this
      ensures ArenaOk() && s < |nodes| && Extends(old(nodes), old(rk), nodes, rk, s)
      ensures Abs(nodes, rk, s) == M.InsertBelow(old(Abs(nodes, rk, s)), t, k)
      ensures root == old(root) && allKeys == old(allKeys)
    {
      ghost var ns1, rk1 := nodes, rk;
      AbsFields(nodes, rk, s);
      var i := 0;
      if nodes[s].keys[0] < k {
        i := i + 1;
      }
      WfChild(nodes, rk, s, i);
      var c := nodes[s].children[i];
      ReachFacts(nodes, rk, c);
      assert s !in Reach(nodes, rk, c);
      InsertNonFull(c, k);
      assert nodes[s] == ns1[s];
      ExtendChild(ns1, rk1, nodes, rk, s, i);
    }

    /** Lines 84-86 of `BTree::insert`: a new internal node s, appended to
        the arena, gets the full node r as its only child and splits it; s
        then holds M.GrowRoot of r's value. */
    method GrowRoot(r: nat) returns (s: nat)
      requires ArenaOk() && r < |nodes| && TreeAt(nodes, rk, r) && Wf(Abs(nodes, rk, r))
      requires |nodes[r].keys| == 2 * t - 1
      modifies this
      ensures s == |old(nodes)| && NodeOk(s) && !Abs(nodes, rk, s).leaf && |Abs(nodes, rk, s).keys| == 1
      ensures Abs(nodes, rk, s) == M.GrowRoot(old(Abs(nodes, rk, r)), t)
      ensures root == old(root) && allKeys == old(allKeys)
    {
      ghost var ns0, rk0 := nodes, rk;
      s := |nodes|;
      nodes, rk := nodes + [Rec(false, t, [], [r])], rk + [rk[r] + 1];
      GrowArena(ns0, rk0, nodes, rk, r, t);
      SplitChild(s, 0, r);
    }
  }

  /** `std::find` over the log (src/btree.cpp:105-106): the index of the
      first k, or |s| when there is none. */
  method Find(s: seq<int>, k: int) returns (i: nat)
    ensures i <= |s| && k !in s[..i]
    ensures i < |s| ==> s[i] == k
    ensures i == |s| <==> k !in s
  {
    i := 0;
    while i < |s| && s[i] != k
      invariant i <= |s| && k !in s[..i]
    {
      assert s[..i + 1] == s[..i] + [s[i]];
      i := i + 1;
    }
    if i == |s| {
      assert s[..i] == s;
    }
  }

  /** The copy loop of `BTree::erase` (src/btree.cpp:108-114): every key of
      the log in order, except that the first k is skipped. */
  method SkipFirst(log: seq<int>, k: int) returns (remaining: seq<int>)
    ensures remaining == RemoveFirst(log, k)
  {
    remaining := [];
    var skipped := false;
    var i := 0;
    while i < |log|
      invariant 0 <= i <= |log|
      invariant skipped == (k in log[..i]) && remaining == RemoveFirst(log[..i], k)
    {
      assert log[..i + 1] == log[..i] + [log[i]];
      RemoveFirstSnoc(log[..i], log[i], k);
      if !skipped {
        RemoveFirstAbsent(log[..i], k);
      }
      if !skipped && log[i] == k {
        skipped := true;
      } else {
        remaining := remaining + [log[i]];
      }
      i := i + 1;
    }
    assert log[..i] == log;
  }

  /** Lines 31 and 40-41 of `Node::insertNonFull` (src/btree.cpp): scanning
      from the right past every key > k gives the slot InsertPos. */
  method SlotAfter(keys: seq<int>, k: int) returns (i: nat)
    ensures i == InsertPos(keys, k)
  {
    var j: int := |keys| - 1;
    while j >= 0 && keys[j] > k
      invariant -1 <= j < |keys|
      invariant forall m :: j < m < |keys| ==> keys[m] > k
    {
      j := j - 1;
    }
    i := j + 1;
    InsertPosUnique(keys, k, i);
  }

  /** Lines 31 and 33-38 of `Node::insertNonFull` at a leaf: one slot is
      appended, keys > k are shifted right one place from the back, and k
      goes into the freed slot, which is InsertPos. */
  method ShiftIn(keys: seq<int>, k: int) returns (r: seq<int>)
    ensures r == keys[..InsertPos(keys, k)] + [k] + keys[InsertPos(keys, k)..]
  {
    var i: int := |keys| - 1;
    r := keys + [0];
    while i >= 0 && r[i] > k
      invariant -1 <= i < |keys| && |r| == |keys| + 1
      invariant forall j :: 0 <= j <= i ==> r[j] == keys[j]
      invariant forall j :: i + 1 < j < |r| ==> r[j] == keys[j - 1]
      invariant forall j :: i < j < |keys| ==> keys[j] > k
    {
      r := r[i + 1 := r[i]];
      i := i - 1;
    }
    r := r[i + 1 := k];
    ShiftDone(keys, r, i + 1, k);
  }
}
