/** Properties of the heap specification: index arithmetic, heap order and
    what sift-up keeps, what the growth policy guarantees, and concrete
    buffers on which the class's sift-down and scans depart from a
    textbook heap. */
module HeapProperties {
  import opened HeapSpec

  // ---------------------------------------------------------------------
  // Index arithmetic

  /** Both children of a node lead back to it, and they are adjacent. */
  lemma ChildrenOfParent(i: nat)
    ensures Parent(LeftChild(i)) == i && Parent(RightChild(i)) == i
    ensures RightChild(i) == LeftChild(i) + 1
    ensures i < LeftChild(i)
  {
  }

  /** For a non-root position, `p` is its parent exactly when the position
      is one of `p`'s two children. */
  lemma ParentIff(c: int, p: int)
    requires c >= 1 && p >= 0
    ensures Parent(c) == p <==> c == LeftChild(p) || c == RightChild(p)
  {
    if c == LeftChild(p) || c == RightChild(p) {
      ChildrenOfParent(p);
    }
  }

  // ---------------------------------------------------------------------
  // Swap, sift-up and sift-down only permute

  /** A swap permutes the buffer. */
  lemma SwappedPermutes(s: seq<int>, i: int, j: int)
    requires 0 <= i < |s| && 0 <= j < |s|
    ensures multiset(Swapped(s, i, j)) == multiset(s)
  {
  }

  /** Sift-up from `i` permutes the buffer and touches nothing above `i`:
      it only moves along the path from `i` to the root. */
  lemma {:induction false} SiftUpPermutes(s: seq<int>, i: nat)
    requires i < |s|
    ensures multiset(SiftUp(s, i)) == multiset(s)
    ensures forall k :: i < k < |s| ==> SiftUp(s, i)[k] == s[k]
    decreases i
  {
    if i > 0 && s[i] > s[Parent(i)] {
      SwappedPermutes(s, i, Parent(i));
      SiftUpPermutes(Swapped(s, i, Parent(i)), Parent(i));
    }
  }

  /** Sift-down from `i` with `n` live elements permutes the buffer. */
  lemma {:induction false} SiftDownPermutes(s: seq<int>, i: nat, n: nat)
    requires i <= n < |s|
    ensures multiset(SiftDown(s, i, n)) == multiset(s)
    decreases n - i
  {
    var left, right := LeftChild(i), RightChild(i);
    if left == n - 1 && s[i] < s[left] {
      SwappedPermutes(s, i, left);
    } else if right == n - 1 && s[i] < s[right] {
      SwappedPermutes(s, i, right);
    } else if left <= n && right <= n {
      var t := s;
      if s[left] > s[right] && s[i] < s[left] {
        SwappedPermutes(s, i, left);
        SiftDownPermutes(Swapped(s, i, left), left, n);
        t := SiftDown(Swapped(s, i, left), left, n);
      }
      assert multiset(t) == multiset(s);
      if t[i] < t[right] {
        SwappedPermutes(t, i, right);
        SiftDownPermutes(Swapped(t, i, right), right, n);
      }
    }
  }

  /** Sift-down from `i` with `n` live elements touches only indices in
      `[i, n]`. */
  lemma {:induction false} SiftDownFrame(s: seq<int>, i: nat, n: nat, k: nat)
    requires i <= n < |s| && k < |s| && (k < i || n < k)
    ensures SiftDown(s, i, n)[k] == s[k]
    decreases n - i
  {
    var left, right := LeftChild(i), RightChild(i);
    if left == n - 1 && s[i] < s[left] {
    } else if right == n - 1 && s[i] < s[right] {
    } else if left <= n && right <= n {
      var t := s;
      if s[left] > s[right] && s[i] < s[left] {
        SiftDownFrame(Swapped(s, i, left), left, n, k);
        t := SiftDown(Swapped(s, i, left), left, n);
      }
      assert t[k] == s[k];
      if t[i] < t[right] {
        SiftDownFrame(Swapped(t, i, right), right, n, k);
      }
    }
  }

  // ---------------------------------------------------------------------
  // Heap order

  /** The documented (parent over children) order and the parent-wise
      order are the same condition. */
  lemma HeapOrderedIffParentOrdered(s: seq<int>, n: nat)
    requires n <= |s|
    ensures HeapOrdered(s, n) <==> ParentOrdered(s, n)
  {
    if HeapOrdered(s, n) {
      forall j | 0 < j < n
        ensures s[Parent(j)] >= s[j]
      {
        var p := Parent(j);
        assert 0 <= p < n;
      }
    }
    if ParentOrdered(s, n) {
      forall i | 0 <= i < n
        ensures LeftChild(i) < n ==> s[i] >= s[LeftChild(i)]
        ensures RightChild(i) < n ==> s[i] >= s[RightChild(i)]
      {
        ChildrenOfParent(i);
      }
    }
  }

  /** In a heap-ordered live prefix the root dominates every live element. */
  lemma {:induction false} RootIsMax(s: seq<int>, n: nat, k: nat)
    requires n <= |s| && k < n && ParentOrdered(s, n)
    ensures s[0] >= s[k]
    decreases k
  {
    if k > 0 {
      RootIsMax(s, n, Parent(k));
    }
  }

  /** Sift-up repairs the one possibly broken edge above `i`. */
  lemma {:induction false} SiftUpRestoresOrder(s: seq<int>, n: nat, i: nat)
    requires i < n <= |s| && OrderedExceptAt(s, n, i)
    ensures ParentOrdered(SiftUp(s, i), n)
    decreases i
  {
    if i == 0 || s[i] <= s[Parent(i)] {
    } else {
      var p := Parent(i);
      var t := Swapped(s, i, p);
      forall j | 0 < j < n && j != p
        ensures t[Parent(j)] >= t[j]
      {
        if j == i {
        } else if Parent(j) == i {
          assert s[p] >= s[j];
        } else if Parent(j) == p {
          assert s[p] >= s[j];
        }
      }
      if 0 < p {
        forall c | 0 < c < n && Parent(c) == p
          ensures t[Parent(p)] >= t[c]
        {
          assert s[Parent(p)] >= s[p];
        }
      }
      assert OrderedExceptAt(t, n, p);
      SiftUpRestoresOrder(t, n, p);
    }
  }

  // ---------------------------------------------------------------------
  // Add

  /** `Add` keeps a heap-ordered live prefix heap-ordered. */
  lemma AddPreservesOrder(s: seq<int>, n: nat, item: int)
    requires n < |s| && HeapOrdered(s, n)
    ensures HeapOrdered(AfterAdd(s, n, item), n + 1)
  {
    HeapOrderedIffParentOrdered(s, n);
    var t := s[n := item];
    assert OrderedExceptAt(t, n + 1, n);
    SiftUpRestoresOrder(t, n + 1, n);
    HeapOrderedIffParentOrdered(AfterAdd(s, n, item), n + 1);
  }

  /** Heap order of the live prefix depends on the live prefix alone, so
      it survives copying into a larger buffer. */
  lemma HeapOrderedPrefix(s: seq<int>, t: seq<int>, n: nat)
    requires n <= |s| && n <= |t| && s[..n] == t[..n]
    ensures HeapOrdered(s, n) <==> HeapOrdered(t, n)
  {
    assert forall k :: 0 <= k < n ==> s[k] == s[..n][k] == t[..n][k] == t[k];
  }

  /** Two buffers with the same elements that agree slot by slot from `n`
      on have the same elements below `n`. */
  lemma PrefixMultiset(s: seq<int>, t: seq<int>, n: nat)
    requires n <= |s| == |t| && multiset(s) == multiset(t)
    requires forall k :: n <= k < |s| ==> s[k] == t[k]
    ensures s[n..] == t[n..]
    ensures multiset(s[..n]) == multiset(t[..n])
  {
    assert s[n..] == t[n..];
    assert s == s[..n] + s[n..];
    assert t == t[..n] + t[n..];
    calc {
      multiset(s[..n]);
      multiset(s) - multiset(s[n..]);
      multiset(t) - multiset(t[n..]);
      multiset(t[..n]);
    }
  }

  /** Sift-up from `i` permutes the first `i + 1` elements and leaves the
      rest of the buffer alone. */
  lemma SiftUpKeepsRange(t: seq<int>, i: nat)
    requires i < |t|
    ensures SiftUp(t, i)[i + 1..] == t[i + 1..]
    ensures multiset(SiftUp(t, i)[..i + 1]) == multiset(t[..i + 1])
  {
    var r := SiftUp(t, i);
    SiftUpPermutes(t, i);
    PrefixMultiset(r, t, i + 1);
  }

  /** `Add` puts exactly `item` into the live elements and leaves the rest
      of the buffer alone. */
  lemma AddLiveMultiset(s: seq<int>, n: nat, item: int)
    requires n < |s|
    ensures AfterAdd(s, n, item)[n + 1..] == s[n + 1..]
    ensures multiset(AfterAdd(s, n, item)[..n + 1]) == multiset(s[..n]) + multiset{item}
  {
    var t := s[n := item];
    SiftUpKeepsRange(t, n);
    assert t[n + 1..] == s[n + 1..];
    assert t[..n + 1] == s[..n] + [item];
  }

  /** The buffer `Add` leaves, grown or not, holds the old live elements
      plus `item` in its first `n + 1` slots. */
  lemma AddedLive(s: seq<int>, n: nat, item: int)
    requires n < |s|
    ensures multiset(Added(s, n, item)[..n + 1]) == multiset(s[..n]) + multiset{item}
  {
    AddLiveMultiset(s, n, item);
    assert Added(s, n, item)[..n + 1] == AfterAdd(s, n, item)[..n + 1];
  }

  /** The buffer `Add` leaves, grown or not, is heap-ordered on its first
      `n + 1` slots if the old buffer was on its first `n`. */
  lemma AddedOrder(s: seq<int>, n: nat, item: int)
    requires n < |s| && HeapOrdered(s, n)
    ensures HeapOrdered(Added(s, n, item), n + 1)
  {
    var added := AfterAdd(s, n, item);
    AddPreservesOrder(s, n, item);
    assert Added(s, n, item)[..n + 1] == added[..n + 1];
    HeapOrderedPrefix(added, Added(s, n, item), n + 1);
  }

  /** Building from `xs` leaves a buffer whose capacity is that of `|xs|`
      additions. */
  lemma {:induction false} BuiltCapacity(xs: seq<int>)
    ensures |Built(xs)| == CapacityAfterAdds(InitialSize, |xs|)
    decreases |xs|
  {
    if xs != [] {
      BuiltCapacity(xs[..|xs| - 1]);
    }
  }

  /** Building from `xs` leaves exactly the elements of `xs` live. */
  lemma {:induction false} BuiltLive(xs: seq<int>)
    ensures multiset(Built(xs)[..|xs|]) == multiset(xs)
    decreases |xs|
  {
    if xs != [] {
      var n := |xs| - 1;
      var p := Built(xs[..n]);
      assert Built(xs) == Added(p, n, xs[n]);
      BuiltLive(xs[..n]);
      AddedLive(p, n, xs[n]);
      assert xs == xs[..n] + [xs[n]];
    }
  }

  /** Building from `xs` leaves the live elements in heap order. */
  lemma {:induction false} BuiltOrdered(xs: seq<int>)
    ensures HeapOrdered(Built(xs), |xs|)
    decreases |xs|
  {
    if xs != [] {
      var n := |xs| - 1;
      var p := Built(xs[..n]);
      assert Built(xs) == Added(p, n, xs[n]);
      BuiltOrdered(xs[..n]);
      AddedOrder(p, n, xs[n]);
    }
  }

  // ---------------------------------------------------------------------
  // Update

  /** An `Update` that does not lower the value keeps heap order: the new
      value is sifted up from the first live match, or nothing moves. */
  lemma UpdateUpPreservesOrder(s: seq<int>, n: nat, oldValue: int, newValue: int)
    requires n < |s| && HeapOrdered(s, n) && newValue >= oldValue
    ensures HeapOrdered(AfterUpdate(s, n, oldValue, newValue), n)
  {
    HeapOrderedIffParentOrdered(s, n);
    match FirstIndexOf(s, n, oldValue)
    case None =>
    case Some(i) =>
      var t := s[i := newValue];
      if newValue > oldValue {
        if 0 < i {
          forall c | 0 < c < n && Parent(c) == i
            ensures t[Parent(i)] >= t[c]
          {
            assert s[Parent(i)] >= s[i] >= s[c];
          }
        }
        assert OrderedExceptAt(t, n, i);
        SiftUpRestoresOrder(t, n, i);
        HeapOrderedIffParentOrdered(SiftUp(t, i), n);
      } else {
        assert t == s;
      }
  }

  /** When a live slot holds `oldValue`, `Update` trades exactly one
      `oldValue` for one `newValue` in the buffer. */
  lemma UpdateMultiset(s: seq<int>, n: nat, oldValue: int, newValue: int)
    requires n < |s| && FirstIndexOf(s, n, oldValue).Some?
    ensures |AfterUpdate(s, n, oldValue, newValue)| == |s|
    ensures multiset(AfterUpdate(s, n, oldValue, newValue))
         == multiset(s) - multiset{oldValue} + multiset{newValue}
  {
    var i := FirstIndexOf(s, n, oldValue).value;
    var t := s[i := newValue];
    assert s[i] == oldValue;
    assert multiset(t) == multiset(s) - multiset{oldValue} + multiset{newValue};
    if newValue > oldValue {
      SiftUpPermutes(t, i);
    } else if newValue < oldValue {
      SiftDownPermutes(t, i, n);
    }
  }

  // ---------------------------------------------------------------------
  // Remove and ExtractMax

  /** Removing at a live index only permutes the old live range, whatever
      sift-down does: the buffer `t` it leaves holds the old live elements
      in its first `n` slots and the old buffer in the rest. */
  lemma RemovedLive(s: seq<int>, n: nat, idx: nat, t: seq<int>)
    requires idx < n < |s| && t == RemoveAt(s, n, idx)
    ensures |t| == |s| && t[n..] == s[n..]
    ensures multiset(t[..n]) == multiset(s[..n])
  {
    SwappedPermutes(s, idx, n - 1);
    SiftDownKeepsRange(s, Swapped(s, idx, n - 1), idx, n - 1);
  }

  /** Sift-down from `i` with `m` live elements, over a permutation `u`
      of `s` that agrees with `s` above `m`, leaves a permutation of the
      first `m + 1` elements of `s` and the rest of `s` as it was. */
  lemma SiftDownKeepsRange(s: seq<int>, u: seq<int>, i: nat, m: nat)
    requires i <= m < |u| == |s| && multiset(u) == multiset(s)
    requires forall k :: m < k < |s| ==> u[k] == s[k]
    ensures SiftDown(u, i, m)[m + 1..] == s[m + 1..]
    ensures multiset(SiftDown(u, i, m)[..m + 1]) == multiset(s[..m + 1])
  {
    var r := SiftDown(u, i, m);
    SiftDownPermutes(u, i, m);
    forall k | m < k < |s|
      ensures r[k] == s[k]
    {
      SiftDownFrame(u, i, m, k);
    }
    PrefixMultiset(r, s, m + 1);
  }

  /** Starting from a heap whose live prefix is `[9, 5, 3, 1]`,
      `ExtractMax` leaves the live prefix `[3, 5, 1]`, which is not
      heap-ordered: the last live child is the right one, and it is swapped
      in without comparing the left one. */
  lemma ExtractMaxBreaksOrder(s: seq<int>)
    requires |s| > 4 && s[..4] == [9, 5, 3, 1]
    ensures HeapOrdered(s, 4)
    ensures RemoveAt(s, 4, 0)[..3] == [3, 5, 1]
    ensures !HeapOrdered(RemoveAt(s, 4, 0), 3)
  {
    assert s[0] == 9 && s[1] == 5 && s[2] == 3 && s[3] == 1;
    var t := Swapped(s, 0, 3);
    assert LeftChild(0) == 1 && RightChild(0) == 2;
    var r := SiftDown(t, 0, 3);
    assert r == Swapped(t, 0, 2);
    assert r[..3] == [3, 5, 1];
  }

  /** Starting from a heap whose live prefix is `[9, 3, 5]`, `ExtractMax`
      returns 9 but sift-down swaps the root with dead slot 2, which holds
      the old root: the live prefix becomes `[9, 3]` and 5 is pushed out. */
  lemma ExtractMaxSwapsWithDeadSlot(s: seq<int>)
    requires |s| > 3 && s[..3] == [9, 3, 5]
    ensures HeapOrdered(s, 3)
    ensures RemoveAt(s, 3, 0)[..2] == [9, 3] && RemoveAt(s, 3, 0)[2] == 5
  {
    assert s[0] == 9 && s[1] == 3 && s[2] == 5;
    var t := Swapped(s, 0, 2);
    assert t[0] == 5 && t[1] == 3 && t[2] == 9;
    assert LeftChild(0) == 1 && RightChild(0) == 2;
    assert LeftChild(2) == 5 && RightChild(2) == 6;
    var u := Swapped(t, 0, 2);
    assert SiftDown(u, 2, 2) == u;
    assert SiftDown(t, 0, 2) == SiftDown(u, 2, 2);
    assert u[..2] == [9, 3];
  }

  /** With the single live element 5 and a default 0 in a dead slot, 0 is
      "present": `Remove(0)` finds no live match and removes the root
      instead, and `Update(0, 7)` changes nothing. */
  lemma DeadSlotMatchRemovesRoot(s: seq<int>)
    requires |s| > 1 && s[0] == 5 && s[1] == 0
    ensures 0 in s && FirstIndexOf(s, 1, 0).None?
    ensures RemovalIndex(s, 1, 0) == 0 && RemoveAt(s, 1, 0) == s
    ensures AfterUpdate(s, 1, 0, 7) == s
  {
    assert Swapped(s, 0, 0) == s;
  }

  /** Starting from a heap whose live prefix is `[9, 8, 5]`,
      `Update(9, 0)` writes 0 at the root and sifts it down; the last live
      child is the right one, so 0 is swapped with 5 without comparing 8,
      and the live prefix `[5, 8, 0]` is not heap-ordered. */
  lemma LoweringUpdateBreaksOrder(s: seq<int>)
    requires |s| > 3 && s[..3] == [9, 8, 5]
    ensures HeapOrdered(s, 3)
    ensures AfterUpdate(s, 3, 9, 0)[..3] == [5, 8, 0]
    ensures !HeapOrdered(AfterUpdate(s, 3, 9, 0), 3)
  {
    assert s[0] == 9 && s[1] == 8 && s[2] == 5;
    assert FirstIndexOf(s, 3, 9) == Some(0);
    var t := s[0 := 0];
    assert LeftChild(0) == 1 && RightChild(0) == 2;
    var r := SiftDown(t, 0, 3);
    assert r == Swapped(t, 0, 2);
    assert r[..3] == [5, 8, 0];
  }

  // ---------------------------------------------------------------------
  // ExtractMin

  /** `ExtractMin` keeps the root exactly when no element of the whole
      buffer is below it. */
  lemma MinCandidateIsRootIff(s: seq<int>)
    requires |s| > 0
    ensures MinCandidate(s) == s[0] <==> forall k :: 0 <= k < |s| ==> s[0] <= s[k]
  {
  }

  /** `ExtractMin` stops at the first element below the root: on a live
      heap `[9, 5, 3]` it takes 5 although 3 is live and smaller, and with
      the single live element 5 it takes the 0 of a dead default slot. */
  lemma ExtractMinNotMinimum(s: seq<int>, t: seq<int>)
    requires |s| > 3 && s[..3] == [9, 5, 3]
    requires |t| > 1 && t[0] == 5 && t[1] == 0
    ensures MinCandidate(s) == 5 && s[2] < MinCandidate(s)
    ensures MinCandidate(t) == 0
  {
    assert s[0] == 9 && s[1] == 5 && s[2] == 3;
    assert FirstBelow(s, 9, 2) == Some(1);
    assert FirstBelow(t, 5, 2) == Some(1);
  }

  /** Starting from a heap whose live prefix is `[10, 9, 8, 7, 6, 1]`,
      `ExtractMin` takes 9 (the first element below the root) and removes
      it at index 1: 1 moves there, is swapped with the last live child 6
      without comparing 7, and the live prefix `[10, 6, 8, 7, 1]` is not
      heap-ordered. */
  lemma ExtractMinBreaksOrder(s: seq<int>)
    requires |s| > 6 && s[..6] == [10, 9, 8, 7, 6, 1]
    ensures HeapOrdered(s, 6)
    ensures MinCandidate(s) == 9 && RemovalIndex(s, 6, 9) == 1
    ensures RemoveAt(s, 6, 1)[..5] == [10, 6, 8, 7, 1]
    ensures !HeapOrdered(RemoveAt(s, 6, 1), 5)
  {
    assert s[0] == 10 && s[1] == 9 && s[2] == 8 && s[3] == 7 && s[4] == 6 && s[5] == 1;
    assert FirstBelow(s, 10, 2) == Some(1);
    assert FirstIndexOf(s, 2, 9) == Some(1);
    assert FirstIndexOf(s, 6, 9) == Some(1);
    var u := Swapped(s, 1, 5);
    assert LeftChild(1) == 3 && RightChild(1) == 4;
    var r := SiftDown(u, 1, 5);
    assert r == Swapped(u, 1, 4);
    assert r[..5] == [10, 6, 8, 7, 1];
  }

  // ---------------------------------------------------------------------
  // Growth

  /** Before the buffer fills, additions leave the capacity alone. */
  lemma {:induction false} CapacityStableUntilFull(initial: nat, k: nat)
    requires k < initial
    ensures CapacityAfterAdds(initial, k) == initial
  {
    if k > 0 {
      CapacityStableUntilFull(initial, k - 1);
    }
  }

  /** Starting from capacity `C`, `C` additions double the capacity. */
  lemma CapacityDoublesWhenFull(initial: nat)
    requires initial >= 1
    ensures CapacityAfterAdds(initial, initial) == 2 * initial
  {
    CapacityStableUntilFull(initial, initial - 1);
  }

  /** After any number of additions the count stays below the capacity,
      so slot `Count` is always inside the buffer. */
  lemma {:induction false} CountBelowCapacity(initial: nat, k: nat)
    requires initial >= 1
    ensures k < CapacityAfterAdds(initial, k)
  {
    if k > 0 {
      CountBelowCapacity(initial, k - 1);
    }
  }
}
