/** Facts about integer sequences used by the B-tree model: non-decreasing
    order, the two index scans the node operations perform, and the
    "remove the first occurrence" edit applied to the insertion log. */
module Sequences {

  /** Non-decreasing order: duplicates are allowed, as the insertion code
      never rejects a key that is already present. */
  ghost predicate Sorted(s: seq<int>) {
    forall i, j :: 0 <= i < j < |s| ==> s[i] <= s[j]
  }

  ghost predicate StrictlySorted(s: seq<int>) {
    forall i, j :: 0 <= i < j < |s| ==> s[i] < s[j]
  }

  ghost predicate NoDuplicates(s: seq<int>) {
    forall i, j :: 0 <= i < j < |s| ==> s[i] != s[j]
  }

  /** The slot found by scanning from the right past every key greater
      than k: one past the last key <= k.  For a sorted sequence this is the
      number of keys <= k. */
  function InsertPos(s: seq<int>, k: int): (p: nat)
    ensures p <= |s|
    ensures forall j :: p <= j < |s| ==> s[j] > k
    ensures p > 0 ==> s[p - 1] <= k
    ensures Sorted(s) ==> forall j :: 0 <= j < p ==> s[j] <= k
  {
    if s == [] then 0
    else if s[|s| - 1] > k then InsertPos(s[..|s| - 1], k)
    else |s|
  }

  /** The slot found by scanning from the left past every key less than k:
      the first index whose key is >= k, or |s| when there is none. */
  function FirstGe(s: seq<int>, k: int): (i: nat)
    ensures i <= |s|
    ensures forall j :: 0 <= j < i ==> s[j] < k
    ensures i < |s| ==> s[i] >= k
  {
    if s == [] || s[0] >= k then 0 else 1 + FirstGe(s[1..], k)
  }

  /** InsertPos is the only slot whose key before is <= k and whose keys
      from it on are all > k. */
  lemma InsertPosUnique(s: seq<int>, k: int, p: nat)
    requires p <= |s| && (forall j :: p <= j < |s| ==> s[j] > k) && (p > 0 ==> s[p - 1] <= k)
    ensures p == InsertPos(s, k)
  {
    var q := InsertPos(s, k);
  }

  /** FirstGe is the only index with every key before it < k and the key
      at it, if any, >= k. */
  lemma FirstGeUnique(s: seq<int>, k: int, i: nat)
    requires i <= |s| && (forall j :: 0 <= j < i ==> s[j] < k) && (i < |s| ==> s[i] >= k)
    ensures i == FirstGe(s, k)
  {
    var q := FirstGe(s, k);
  }

  /** The sequence with its first occurrence of k dropped. */
  function RemoveFirst(s: seq<int>, k: int): (r: seq<int>)
    ensures |r| == if k in s then |s| - 1 else |s|
  {
    if s == [] then []
    else
      assert s == [s[0]] + s[1..];
      if s[0] == k then s[1..] else [s[0]] + RemoveFirst(s[1..], k)
  }

  /** RemoveFirst takes exactly one copy of k out of the multiset, when
      there is one. */
  lemma {:induction false} RemoveFirstMultiset(s: seq<int>, k: int)
    ensures multiset(RemoveFirst(s, k)) == multiset(s) - multiset{k}
  {
    if s != [] {
      assert s == [s[0]] + s[1..];
      if s[0] != k {
        RemoveFirstMultiset(s[1..], k);
      }
    }
  }

  /** RemoveFirst keeps the order of everything it does not drop. */
  lemma {:induction false} RemoveFirstAt(s: seq<int>, k: int, i: nat)
    requires i < |s| && s[i] == k && k !in s[..i]
    ensures RemoveFirst(s, k) == s[..i] + s[i + 1..]
  {
    if i == 0 {
      assert s[..0] + s[1..] == s[1..];
    } else {
      var tail := s[1..];
      assert s[0] == s[..i][0];
      assert s[0] != k;
      assert tail[..i - 1] == s[1..i];
      assert forall x :: x in s[1..i] ==> x in s[..i];
      RemoveFirstAt(tail, k, i - 1);
      assert tail[i..] == s[i + 1..];
      assert [s[0]] + s[1..i] == s[..i];
    }
  }

  lemma {:induction false} RemoveFirstAbsent(s: seq<int>, k: int)
    requires k !in s
    ensures RemoveFirst(s, k) == s
  {
    if s != [] {
      assert s[0] in s;
      assert forall x :: x in s[1..] ==> x in s;
      RemoveFirstAbsent(s[1..], k);
    }
  }

  /** How RemoveFirst of a sequence extends when one element is appended:
      the step a left-to-right copy with a "skipped" flag performs. */
  lemma {:induction false} RemoveFirstSnoc(s: seq<int>, x: int, k: int)
    ensures RemoveFirst(s + [x], k) ==
      if k in s then RemoveFirst(s, k) + [x]
      else if x == k then s
      else s + [x]
  {
    if s == [] {
      assert [x][1..] == [];
    } else {
      var tail := s[1..];
      assert (s + [x])[0] == s[0];
      assert (s + [x])[1..] == tail + [x];
      assert s == [s[0]] + tail;
      if s[0] == k {
        assert k in s;
      } else {
        assert k in s <==> k in tail;
        RemoveFirstSnoc(tail, x, k);
      }
    }
  }

  /** The small equalities of sequence algebra below (Regroup, EmptyLeft,
      Regroup4, Regroup5, InsertAtEnd, DropAppended, TakeOneMore) are stated
      once, so that the larger proofs cite them instead of asking the
      verifier to rediscover them; they model nothing on their own.

      Regrouping a five-part concatenation. */
  lemma Regroup(p: seq<int>, l: seq<int>, m: seq<int>, h: seq<int>, s: seq<int>)
    ensures p + l + (m + h + s) == p + (l + m + h) + s
  {
  }

  lemma EmptyLeft(a: seq<int>, b: seq<int>)
    ensures [] + a + b == a + b
  {
  }

  lemma MultisetMiddle(p: seq<int>, m: seq<int>, m2: seq<int>, s: seq<int>, k: int)
    requires multiset(m2) == multiset(m) + multiset{k}
    ensures multiset(p + m2 + s) == multiset(p + m + s) + multiset{k}
  {
  }

  /** Indexing into a sequence with one element inserted at position i. */
  lemma InsertAt<T>(a: seq<T>, i: nat, m: T)
    requires i <= |a|
    ensures var r := a[..i] + [m] + a[i..];
      && |r| == |a| + 1 && r[i] == m
      && (forall j :: 0 <= j < i ==> r[j] == a[j])
      && (forall j :: i < j < |r| ==> r[j] == a[j - 1])
  {
  }

  /** Indexing into a sequence whose element i is replaced by two. */
  lemma ReplaceByTwo<T>(a: seq<T>, i: nat, p: T, q: T)
    requires i < |a|
    ensures var r := a[..i] + [p, q] + a[i + 1..];
      && |r| == |a| + 1 && r[i] == p && r[i + 1] == q
      && (forall j :: 0 <= j < i ==> r[j] == a[j])
      && (forall j :: i + 1 < j < |r| ==> r[j] == a[j - 1])
  {
  }

  /** Putting k at a position p with nothing greater before it and
      nothing smaller after it keeps a sorted sequence sorted. */
  lemma SortedInsertAt(s: seq<int>, p: nat, k: int)
    requires Sorted(s) && p <= |s|
    requires forall j :: 0 <= j < p ==> s[j] <= k
    requires forall j :: p <= j < |s| ==> k <= s[j]
    ensures Sorted(s[..p] + [k] + s[p..])
  {
    var r := s[..p] + [k] + s[p..];
    InsertAt(s, p, k);
    forall i, j | 0 <= i < j < |r| ensures r[i] <= r[j] {
      if j < p {
        assert r[i] == s[i] && r[j] == s[j];
      } else if j == p {
        assert r[i] == s[i];
      } else if i < p {
        assert r[i] == s[i] && r[j] == s[j - 1];
      } else if i == p {
        assert r[j] == s[j - 1];
      } else {
        assert r[i] == s[i - 1] && r[j] == s[j - 1];
      }
    }
  }

  /** The multiset of a sequence with one element inserted. */
  lemma MultisetInsertAt(s: seq<int>, p: nat, k: int)
    requires p <= |s|
    ensures multiset(s[..p] + [k] + s[p..]) == multiset(s) + multiset{k}
  {
    assert s == s[..p] + s[p..];
  }

  lemma Regroup5(a: seq<int>, b: seq<int>, c: seq<int>, d: seq<int>, e: seq<int>)
    ensures a + b + c + d + e == a + b + (c + d + e)
  {
  }

  lemma Regroup4(a: seq<int>, b: seq<int>, c: seq<int>, d: seq<int>)
    ensures a + b + c + d == a + b + (c + d)
  {
  }

  /** r is a with k put in at i, where every key of a from i on is > k and
      the one before is not: that position is InsertPos. */
  lemma ShiftDone(a: seq<int>, r: seq<int>, i: nat, k: int)
    requires i <= |a| && |r| == |a| + 1 && r[i] == k
    requires forall j :: 0 <= j < i ==> r[j] == a[j]
    requires forall j :: i < j < |r| ==> r[j] == a[j - 1]
    requires forall j :: i <= j < |a| ==> a[j] > k
    requires i > 0 ==> a[i - 1] <= k
    ensures r == a[..InsertPos(a, k)] + [k] + a[InsertPos(a, k)..]
  {
    InsertPosUnique(a, k, i);
    assert r == a[..i] + [k] + a[i..];
  }

  lemma InsertAtEnd(s: seq<int>, k: int)
    ensures s[..|s|] + [k] + s[|s|..] == s + [k]
  {
  }

  /** A non-empty sequence is its front followed by its last element. */
  lemma SplitLast(s: seq<int>)
    requires s != []
    ensures s == s[..|s| - 1] + [s[|s| - 1]]
    ensures multiset(s) == multiset(s[..|s| - 1]) + multiset{s[|s| - 1]}
  {
    assert s == s[..|s| - 1] + [s[|s| - 1]];
  }

  /** Dropping the element just appended gives the sequence back. */
  lemma DropAppended(a: seq<int>, k: int)
    ensures (a + [k])[..|a|] == a && (a + [k])[|a|] == k
  {
    assert (a + [k])[..|a|] == a;
  }

  /** One more element of s taken after a common prefix. */
  lemma TakeOneMore(a: seq<int>, s: seq<int>, j: nat)
    requires j < |s|
    ensures a + s[..j + 1] == a + s[..j] + [s[j]]
  {
    assert s[..j + 1] == s[..j] + [s[j]];
  }

  lemma SortedSlice(s: seq<int>, a: nat, b: nat)
    requires Sorted(s) && a <= b <= |s|
    ensures Sorted(s[a..b])
  {
  }

  /** Two sorted sequences whose elements are ordered across the seam
      concatenate to a sorted sequence. */
  lemma SortedAppend(a: seq<int>, b: seq<int>)
    requires Sorted(a) && Sorted(b)
    requires forall x, y :: x in a && y in b ==> x <= y
    ensures Sorted(a + b)
  {
    forall i, j | 0 <= i < j < |a + b| ensures (a + b)[i] <= (a + b)[j] {
      if j < |a| {
      } else if i >= |a| {
        assert (a + b)[i] == b[i - |a|] && (a + b)[j] == b[j - |a|];
      } else {
        assert (a + b)[i] == a[i] && a[i] in a;
        assert (a + b)[j] == b[j - |a|] && b[j - |a|] in b;
      }
    }
  }

  /** In a sorted concatenation every element on the left is at most every
      element on the right, and both halves are sorted. */
  lemma SortedSplit(a: seq<int>, b: seq<int>)
    requires Sorted(a + b)
    ensures Sorted(a) && Sorted(b)
    ensures forall x, y :: x in a && y in b ==> x <= y
  {
    assert a == (a + b)[..|a|];
    assert b == (a + b)[|a|..];
    forall x, y | x in a && y in b ensures x <= y {
      var i :| 0 <= i < |a| && a[i] == x;
      var j :| 0 <= j < |b| && b[j] == y;
      assert (a + b)[i] == x && (a + b)[|a| + j] == y;
    }
  }

  /** Every element of a sorted sequence is at most its last element. */
  lemma SortedBelowLast(s: seq<int>, k: int)
    requires Sorted(s) && |s| > 0 && s[|s| - 1] <= k
    ensures forall x :: x in s ==> x <= k
  {
  }

  /** Every element of a sorted sequence is at least its first element. */
  lemma SortedAboveFirst(s: seq<int>, k: int)
    requires Sorted(s) && |s| > 0 && k <= s[0]
    ensures forall x :: x in s ==> k <= x
  {
  }

  /** Replacing the middle part m of a sorted p + m + s by a sorted m2 that
      holds m's elements plus k keeps the whole sorted, provided k fits
      between p and s. */
  lemma SortedReplaceMiddle(p: seq<int>, m: seq<int>, m2: seq<int>, s: seq<int>, k: int)
    requires Sorted(p + m + s) && Sorted(m2)
    requires multiset(m2) == multiset(m) + multiset{k}
    requires forall x :: x in p ==> x <= k
    requires forall x :: x in s ==> k <= x
    ensures Sorted(p + m2 + s)
  {
    SortedSplit(p + m, s);
    SortedSplit(p, m);
    forall x | x in m2 ensures x == k || x in m {
      assert x in multiset(m2);
    }
    SortedAppend(p, m2);
    forall x, y | x in p + m2 && y in s ensures x <= y {
      if x in p {
        assert x in p + m;
      } else if x in m {
        assert x in p + m;
      }
    }
    SortedAppend(p + m2, s);
  }

  /** Two equal elements at distinct positions give a count of two. */
  lemma CountTwo(s: seq<int>, i: nat, j: nat)
    requires i < j < |s|
    ensures s[i] == s[j] ==> multiset(s)[s[i]] >= 2
  {
    assert s == s[..j] + s[j..];
    assert s[i] == s[..j][i];
    assert s[j] == s[j..][0];
    assert multiset(s) == multiset(s[..j]) + multiset(s[j..]);
  }

  /** A sorted sequence in which no value occurs twice is strictly increasing. */
  lemma SortedDistinct(s: seq<int>)
    requires Sorted(s)
    requires forall x :: multiset(s)[x] <= 1
    ensures StrictlySorted(s)
  {
    forall i, j | 0 <= i < j < |s| ensures s[i] < s[j] {
      CountTwo(s, i, j);
    }
  }

  /** A sequence without repeated elements holds each value at most once. */
  lemma {:induction false} NoDuplicatesCount(s: seq<int>)
    requires NoDuplicates(s)
    ensures forall x :: multiset(s)[x] <= 1
  {
    if s != [] {
      var init := s[..|s| - 1];
      assert s == init + [s[|s| - 1]];
      assert NoDuplicates(init);
      NoDuplicatesCount(init);
      assert s[|s| - 1] !in init;
      assert multiset(s) == multiset(init) + multiset{s[|s| - 1]};
    }
  }
}
