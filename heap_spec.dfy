/** Pure specification of the array-backed max-heap in Lab2/MaxHeap.cs.
    The buffer is a `seq<int>` (the element type `T` instantiated as `int`,
    so default slots hold 0) and the logical size is a separate `n`.
    Every function here mirrors one routine of the C# class as written,
    including its quirks; the class in module Lab2 is proved against them. */
module HeapSpec {

  datatype Option<T> = None | Some(value: T)

  /** The two exceptions the class throws, plus the array fault that
      `Swap(0, Count - 1)` raises when `Count == 0`. */
  datatype HeapError = EmptyHeap | ValueNotFound | IndexOutOfRange

  datatype Result<T> = Success(value: T) | Failure(error: HeapError)

  datatype Outcome = Pass | Fail(error: HeapError)

  /** The capacity a fresh heap allocates. */
  const InitialSize: nat := 8

  // ---------------------------------------------------------------------
  // Index arithmetic

  /** `(position - 1) / 2` with C#'s division, which truncates toward zero,
      so that the parent of the root is the root itself. */
  function Parent(position: int): (p: int)
    ensures position >= 1 ==> 0 <= p < position
    ensures position >= 1 ==> position == LeftChild(p) || position == RightChild(p)
    ensures position == 0 ==> p == 0
  {
    if position >= 1 then (position - 1) / 2 else -((1 - position) / 2)
  }

  function LeftChild(position: int): int
  {
    position * 2 + 1
  }

  function RightChild(position: int): int
  {
    position * 2 + 2
  }

  // ---------------------------------------------------------------------
  // Heap order

  /** Heap order as the class documents it: every live node is at least
      each of its live children. */
  ghost predicate HeapOrdered(s: seq<int>, n: nat)
    requires n <= |s|
  {
    forall i :: 0 <= i < n ==>
      (LeftChild(i) < n ==> s[i] >= s[LeftChild(i)]) &&
      (RightChild(i) < n ==> s[i] >= s[RightChild(i)])
  }

  /** The same order seen from below: every live non-root node is at most
      its parent. */
  ghost predicate ParentOrdered(s: seq<int>, n: nat)
    requires n <= |s|
  {
    forall j :: 0 < j < n ==> s[Parent(j)] >= s[j]
  }

  /** Heap order on `s[..n]` except possibly on the edge from `i` up to its
      parent; the parent of `i` still dominates the children of `i`. This is
      the state sift-up works on. */
  ghost predicate OrderedExceptAt(s: seq<int>, n: nat, i: nat)
    requires i < n <= |s|
  {
    (forall j :: 0 < j < n && j != i ==> s[Parent(j)] >= s[j]) &&
    (0 < i ==> forall c :: 0 < c < n && Parent(c) == i ==> s[Parent(i)] >= s[c])
  }

  // ---------------------------------------------------------------------
  // Swap, TrickleUp, TrickleDown

  /** The buffer after `Swap(i, j)`. */
  function Swapped(s: seq<int>, i: int, j: int): (r: seq<int>)
    requires 0 <= i < |s| && 0 <= j < |s|
    ensures |r| == |s| && r[i] == s[j] && r[j] == s[i]
    ensures forall k :: 0 <= k < |s| && k != i && k != j ==> r[k] == s[k]
  {
    s[i := s[j]][j := s[i]]
  }

  /** The buffer after `TrickleUp(i)`: while the node is strictly greater
      than its parent, swap the two and continue from the parent. */
  function SiftUp(s: seq<int>, i: nat): (r: seq<int>)
    requires i < |s|
    ensures |r| == |s|
    decreases i
  {
    if i == 0 then s
    else if s[i] > s[Parent(i)] then SiftUp(Swapped(s, i, Parent(i)), Parent(i))
    else s
  }

  /** The buffer after `TrickleDown(i)` with `n` live elements, branch for
      branch as the C# does it: a last live left or right child is swapped
      with unconditionally on the node being smaller (the right one without
      looking at the left one); only children beyond `n` count as absent, so
      slot `n` itself, which is dead, takes part; and the swap with the left
      child and the swap with the right child are two independent steps. */
  function SiftDown(s: seq<int>, i: nat, n: nat): (r: seq<int>)
    requires i <= n < |s|
    ensures |r| == |s|
    decreases n - i
  {
    var left, right := LeftChild(i), RightChild(i);
    if left == n - 1 && s[i] < s[left] then Swapped(s, i, left)
    else if right == n - 1 && s[i] < s[right] then Swapped(s, i, right)
    else if left > n || right > n then s
    else
      var t := if s[left] > s[right] && s[i] < s[left]
               then SiftDown(Swapped(s, i, left), left, n) else s;
      if t[i] < t[right] then SiftDown(Swapped(t, i, right), right, n) else t
  }

  // ---------------------------------------------------------------------
  // Linear scans

  /** The first of the `n` live indices holding `v`, if any (the loops of
      `Update` and `Remove`). */
  function FirstIndexOf(s: seq<int>, n: nat, v: int): (r: Option<nat>)
    requires n <= |s|
    ensures r.Some? ==> r.value < n && s[r.value] == v
    ensures r.Some? ==> forall k :: 0 <= k < r.value ==> s[k] != v
    ensures r.None? <==> forall k :: 0 <= k < n ==> s[k] != v
    decreases n
  {
    if n == 0 then None
    else match FirstIndexOf(s, n - 1, v)
      case Some(k) => Some(k)
      case None => if s[n - 1] == v then Some(n - 1) else None
  }

  /** The first of the indices `0..n-1` whose element is strictly below
      `pivot`, if any (the loop of `ExtractMin`, which breaks at the first
      hit). */
  function FirstBelow(s: seq<int>, pivot: int, n: nat): (r: Option<nat>)
    requires n <= |s|
    ensures r.Some? ==> r.value < n && s[r.value] < pivot
    ensures r.Some? ==> forall k :: 0 <= k < r.value ==> s[k] >= pivot
    ensures r.None? <==> forall k :: 0 <= k < n ==> s[k] >= pivot
    decreases n
  {
    if n == 0 then None
    else match FirstBelow(s, pivot, n - 1)
      case Some(k) => Some(k)
      case None => if s[n - 1] < pivot then Some(n - 1) else None
  }

  /** What `ExtractMin` takes as the minimum: `s[0]`, unless a scan of the
      whole buffer meets a strictly smaller element, in which case the first
      such element. */
  function MinCandidate(s: seq<int>): (m: int)
    requires |s| > 0
    ensures m <= s[0] && m in s
  {
    match FirstBelow(s, s[0], |s|)
    case Some(k) => s[k]
    case None => s[0]
  }

  // ---------------------------------------------------------------------
  // The buffer after each mutating operation

  /** The buffer after `Add(item)` with `n` live elements, before any resize. */
  function AfterAdd(s: seq<int>, n: nat, item: int): seq<int>
    requires n < |s|
  {
    SiftUp(s[n := item], n)
  }

  /** The buffer after `Add(item)` with `n` live elements: the sifted
      buffer, followed by as many zero slots again when the new count
      fills it. */
  function Added(s: seq<int>, n: nat, item: int): (r: seq<int>)
    requires n < |s|
    ensures |r| == NextCapacity(|s|, n)
  {
    var t := AfterAdd(s, n, item);
    if n + 1 == |s| then t + seq(|s|, _ => 0) else t
  }

  /** The buffer the constructor leaves: a fresh buffer of `InitialSize`
      zeros to which the elements of `xs` are added in order. */
  function Built(xs: seq<int>): (r: seq<int>)
    ensures |xs| < |r|
    decreases |xs|
  {
    if xs == [] then seq(InitialSize, _ => 0)
    else
      var n := |xs| - 1;
      Added(Built(xs[..n]), n, xs[n])
  }

  /** The index `Remove(v)` acts on: the first live match, or 0 when the
      only matches are dead slots. */
  function RemovalIndex(s: seq<int>, n: nat, v: int): nat
    requires n <= |s|
  {
    match FirstIndexOf(s, n, v)
    case Some(k) => k
    case None => 0
  }

  /** The buffer after swapping live index `idx` with the last live index,
      dropping the last, and trickling down from `idx` (both `Remove` and
      `ExtractMax`, the latter at index 0). */
  function RemoveAt(s: seq<int>, n: nat, idx: nat): seq<int>
    requires idx < n < |s|
  {
    SiftDown(Swapped(s, idx, n - 1), idx, n - 1)
  }

  /** The buffer after `Update(oldValue, newValue)` once `Contains` has
      succeeded: nothing happens unless some live slot holds `oldValue`. */
  function AfterUpdate(s: seq<int>, n: nat, oldValue: int, newValue: int): seq<int>
    requires n < |s|
  {
    match FirstIndexOf(s, n, oldValue)
    case None => s
    case Some(i) =>
      var t := s[i := newValue];
      if newValue > oldValue then SiftUp(t, i)
      else if newValue < oldValue then SiftDown(t, i, n)
      else t
  }

  // ---------------------------------------------------------------------
  // Growth

  /** Capacity after one `Add` made with `count` live elements: doubled
      exactly when the new count reaches the capacity. */
  function NextCapacity(capacity: nat, count: nat): nat
  {
    if count + 1 == capacity then 2 * capacity else capacity
  }

  /** Capacity after `k` additions to an empty heap of capacity `initial`. */
  function CapacityAfterAdds(initial: nat, k: nat): nat
  {
    if k == 0 then initial else NextCapacity(CapacityAfterAdds(initial, k - 1), k - 1)
  }
}
