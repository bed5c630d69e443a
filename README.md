# MaxHeap in Dafny

A verified model of `MaxHeap<T>` from `Lab2/MaxHeap.cs`. The class is a binary max-heap.
It keeps its elements in a growable array `array`. The first `Count` slots are live.
The array starts with 8 slots and doubles as soon as `Count` reaches its length.

The project has three modules:

- `HeapSpec` (`heap_spec.dfy`) describes each routine of the class as a pure function on a
  buffer `seq<int>` and a live count:
  - `Swapped` is `Swap`; `SiftUp` is `TrickleUp`; `SiftDown` is `TrickleDown`, branch for branch.
  - `FirstIndexOf` is the live scan of `Update` and `Remove`; `FirstBelow` and `MinCandidate` are
    the scan of `ExtractMin`.
  - `Added`, `Built`, `RemoveAt` and `AfterUpdate` give the buffer after `Add`, after the
    constructor, after `Remove`/`ExtractMax`, and after `Update`.
  - It also holds the index helpers, the growth policy (`NextCapacity`, `CapacityAfterAdds`) and
    the heap-order predicates.
- `HeapProperties` (`heap_properties.dfy`) proves what these functions guarantee:
  - swaps and sifts only permute the buffer, and sift-down touches only `[index, Count]`;
  - sift-up restores heap order and `Add` preserves it; the root of a heap is its maximum;
  - the constructor builds a heap of exactly its input elements;
  - how the capacity grows;
  - concrete buffers on which `ExtractMax`, `Remove`, `Update` and `ExtractMin` behave
    differently from a textbook heap.
- `Lab2` (`max_heap.dfy`) is the class itself, `Lab2.MaxHeap`. Its fields are `a: array<int>` (the
  C# `array`) and `count: nat` (`Count`). `Capacity()` and `IsEmpty()` are its properties of the
  same names. `Valid()` states `count < a.Length && a.Length >= 8`; every method keeps it. Each
  method is proved against the functions of `HeapSpec`.

The element type `T` is `int`, so a fresh slot holds 0, which is `default(int)`. This matters
because `Contains` and `ExtractMin` scan the whole array, dead and default slots included.

The model follows the code, not the documentation comments. Where they differ:
- `TrickleDown` swaps with a last live right child without comparing the left one, so it can
  break heap order (`ExtractMaxBreaksOrder`).
- Its guard admits a child at index `Count`, so it can swap a live element out past `Count`
  (`ExtractMaxSwapsWithDeadSlot`).
- `Contains` is true on a value held only by a dead slot. `Remove` then acts on index 0, and
  `Update` does nothing (`DeadSlotMatchRemovesRoot`).
- `ExtractMin` takes the first element below `array[0]`, not the smallest one
  (`ExtractMinNotMinimum`).
- A lowering `Update` and `ExtractMin` sift down through the same branches, so they can break
  heap order too (`LoweringUpdateBreaksOrder`, `ExtractMinBreaksOrder`).

Exceptions become values:
- `Peek` and `ExtractMax` on an empty heap return `Failure(EmptyHeap)`.
- `Update` and `Remove` return `Fail(ValueNotFound)` when `Contains` is false.
- The fault that `Swap(0, -1)` raises when `Remove` or `ExtractMin` run on an empty heap is
  `IndexOutOfRange`. It leaves the heap unchanged.

## Model

| member | source | states |
|---|---|---|
| HeapSpec.Parent | Lab2/MaxHeap.cs:258-261 | for a position >= 1 the parent is a smaller non-negative index of which the position is the left or right child; with truncating division the parent of 0 is 0 |
| HeapSpec.Swapped | Lab2/MaxHeap.cs:281-287 | the two slots exchange their values; the length and every other slot are unchanged |
| HeapSpec.FirstIndexOf | Lab2/MaxHeap.cs:189-196 | a result is a live index holding the value with no earlier live slot holding it; there is no result exactly when no live slot holds the value |
| HeapSpec.FirstBelow | Lab2/MaxHeap.cs:111-119 | a result is an index whose element is below the pivot, with none below it earlier; there is no result exactly when no scanned element is below the pivot |
| HeapSpec.MinCandidate | Lab2/MaxHeap.cs:111-119 | the value `ExtractMin` settles on is at most `array[0]` and occurs in the buffer |
| HeapSpec.Added | Lab2/MaxHeap.cs:53-69 | the buffer after `Add` has the capacity doubled exactly when the new count fills the old one |
| HeapSpec.Built | Lab2/MaxHeap.cs:18-32 | the buffer the constructor builds always has more slots than elements added |
| HeapProperties.ChildrenOfParent | Lab2/MaxHeap.cs:258-279 | both children of `i` have `i` as parent, the right child follows the left one, and `i` is below its children |
| HeapProperties.ParentIff | Lab2/MaxHeap.cs:258-279 | for a non-root position, `p` is its parent exactly when the position is a child of `p` |
| HeapProperties.SwappedPermutes | Lab2/MaxHeap.cs:281-287 | a swap keeps the multiset of the buffer |
| HeapProperties.SiftUpPermutes | Lab2/MaxHeap.cs:209-221 | `TrickleUp` keeps the multiset of the buffer and leaves every slot above the start index alone |
| HeapProperties.SiftUpKeepsRange | Lab2/MaxHeap.cs:209-221 | `TrickleUp` from `i` only permutes the slots `0..i` |
| HeapProperties.SiftUpRestoresOrder | Lab2/MaxHeap.cs:209-221 | if heap order holds except on the edge above `i`, sifting up from `i` restores it |
| HeapProperties.SiftDownPermutes | Lab2/MaxHeap.cs:225-252 | `TrickleDown` (which terminates) keeps the multiset of the whole buffer |
| HeapProperties.SiftDownFrame | Lab2/MaxHeap.cs:225-252 | `TrickleDown` from `index` with `Count` live elements changes no slot outside `[index, Count]` |
| HeapProperties.SiftDownKeepsRange | Lab2/MaxHeap.cs:225-252 | with `m` live elements, sift-down over a permutation of `s` that agrees with `s` above `m` permutes `s[..m + 1]` and keeps the rest of `s` |
| HeapProperties.HeapOrderedIffParentOrdered | Lab2/MaxHeap.cs:258-279 | "every node is at least its children" and "every non-root node is at most its parent" are the same condition |
| HeapProperties.RootIsMax | Lab2/MaxHeap.cs:34-46 | in a heap-ordered live prefix the root is at least every live element |
| HeapProperties.AddPreservesOrder | Lab2/MaxHeap.cs:53-69 | writing the item into slot `Count` and sifting it up keeps a heap-ordered live prefix heap-ordered |
| HeapProperties.HeapOrderedPrefix | Lab2/MaxHeap.cs:289-292 | heap order depends only on the live prefix, so it survives the resize |
| HeapProperties.AddLiveMultiset | Lab2/MaxHeap.cs:53-69 | `Add` leaves the slots past the new count alone and puts exactly the old live elements plus the item in the live range |
| HeapProperties.AddedLive | Lab2/MaxHeap.cs:53-69 | after `Add`, grown or not, the live multiset is the old one plus exactly the item |
| HeapProperties.AddedOrder | Lab2/MaxHeap.cs:53-69 | after `Add`, grown or not, the live prefix is heap-ordered if it was before |
| HeapProperties.BuiltCapacity | Lab2/MaxHeap.cs:18-32 | the constructor's capacity is that of `|initialArray|` additions to a buffer of 8 |
| HeapProperties.BuiltLive | Lab2/MaxHeap.cs:18-32 | the constructor leaves exactly the elements of the initial array live |
| HeapProperties.BuiltOrdered | Lab2/MaxHeap.cs:18-32 | the constructor leaves the live elements in heap order |
| HeapProperties.UpdateUpPreservesOrder | Lab2/MaxHeap.cs:151-177 | an `Update` that does not lower the value keeps a heap-ordered live prefix heap-ordered |
| HeapProperties.UpdateMultiset | Lab2/MaxHeap.cs:151-177 | when a live slot holds the old value, `Update` trades exactly one old value for one new value in the buffer |
| HeapProperties.RemovedLive | Lab2/MaxHeap.cs:184-205 | removing at a live index leaves a permutation of the old live elements in the first `Count` slots and the rest of the buffer unchanged |
| HeapProperties.ExtractMaxBreaksOrder | Lab2/MaxHeap.cs:232-236 | from the heap `[9, 5, 3, 1]`, `ExtractMax` leaves the live prefix `[3, 5, 1]`, which is not heap-ordered |
| HeapProperties.ExtractMaxSwapsWithDeadSlot | Lab2/MaxHeap.cs:237-250 | from the heap `[9, 3, 5]`, `ExtractMax` leaves the live prefix `[9, 3]` and pushes 5 out past `Count` |
| HeapProperties.LoweringUpdateBreaksOrder | Lab2/MaxHeap.cs:151-177 | from the heap `[9, 8, 5]`, `Update(9, 0)` sifts 0 down through the right-child-last branch and leaves the live prefix `[5, 8, 0]`, which is not heap-ordered |
| HeapProperties.DeadSlotMatchRemovesRoot | Lab2/MaxHeap.cs:184-205 | with live `[5]` and a default 0 behind it, 0 is "contained" but has no live match: `Remove(0)` acts on index 0 and `Update(0, 7)` changes nothing |
| HeapProperties.MinCandidateIsRootIff | Lab2/MaxHeap.cs:108-123 | `ExtractMin` keeps `array[0]` as its choice exactly when no slot of the buffer is below it |
| HeapProperties.ExtractMinNotMinimum | Lab2/MaxHeap.cs:108-123 | on the heap `[9, 5, 3]` `ExtractMin` takes 5 although 3 is smaller; with live `[5]` it takes a dead slot's 0 |
| HeapProperties.ExtractMinBreaksOrder | Lab2/MaxHeap.cs:108-123 | from the heap `[10, 9, 8, 7, 6, 1]`, `ExtractMin` takes 9, removes it at index 1, and leaves the live prefix `[10, 6, 8, 7, 1]`, which is not heap-ordered |
| HeapProperties.CapacityStableUntilFull | Lab2/MaxHeap.cs:63-67 | fewer additions than the capacity leave the capacity unchanged |
| HeapProperties.CapacityDoublesWhenFull | Lab2/MaxHeap.cs:63-67 | as many additions as the capacity double it |
| HeapProperties.CountBelowCapacity | Lab2/MaxHeap.cs:53-67 | after any number of additions the count is below the capacity, so `array[Count]` is in bounds |
| Lab2.MaxHeap.constructor | Lab2/MaxHeap.cs:18-32 | a fresh valid heap whose buffer is the initial elements added in order to 8 zero slots: count is their number, capacity that of as many additions (8 for none), the live elements exactly them, in heap order |
| Lab2.MaxHeap.Peek | Lab2/MaxHeap.cs:38-46 | `EmptyHeap` when empty, otherwise `array[0]`, which is at least every live element when the heap is ordered; nothing changes |
| Lab2.MaxHeap.Add | Lab2/MaxHeap.cs:53-69 | the count grows by one, the capacity doubles exactly when the new count reaches it, the buffer becomes `Added` of the old one, and heap order is kept |
| Lab2.MaxHeap.Extract | Lab2/MaxHeap.cs:71-74 | the contract of `ExtractMax` |
| Lab2.MaxHeap.ExtractMax | Lab2/MaxHeap.cs:81-101 | `EmptyHeap` and nothing changes when empty; otherwise the old root, which is the maximum of an ordered heap, the count drops by one, the buffer is `RemoveAt(.., 0)` of the old one, and the buffer is only permuted |
| Lab2.MaxHeap.ExtractMin | Lab2/MaxHeap.cs:108-123 | `IndexOutOfRange` and nothing changes when empty; otherwise it returns `MinCandidate` of the buffer, drops the count by one and removes that value as `Remove` does, only permuting the old live slots and keeping the rest of the buffer |
| Lab2.MaxHeap.ScanForMin | Lab2/MaxHeap.cs:110-119 | the early-exit scan over the whole buffer returns `MinCandidate` of the buffer |
| Lab2.MaxHeap.Contains | Lab2/MaxHeap.cs:130-144 | true exactly when some slot of the whole buffer, dead and default slots included, holds the value |
| Lab2.MaxHeap.IndexOfLive | Lab2/MaxHeap.cs:189-196 | `found` says whether a live slot holds the value, and the index is the first such slot, or 0 |
| Lab2.MaxHeap.Update | Lab2/MaxHeap.cs:151-177 | `ValueNotFound` and nothing changes exactly when no slot holds the old value; otherwise the buffer becomes `AfterUpdate`, trades one old value for one new one when a live slot matched, and stays heap-ordered when the value did not decrease |
| Lab2.MaxHeap.Remove | Lab2/MaxHeap.cs:184-205 | `ValueNotFound` and nothing changes when no slot holds the value; `IndexOutOfRange` and nothing changes when the heap is empty; otherwise the count drops by one and the buffer becomes `RemoveAt` at the first live match (or 0); the old live elements are only permuted and the rest of the buffer is kept |
| Lab2.MaxHeap.TrickleUp | Lab2/MaxHeap.cs:209-221 | the buffer becomes `SiftUp` of the old one |
| Lab2.MaxHeap.TrickleDown | Lab2/MaxHeap.cs:225-252 | the buffer becomes `SiftDown` of the old one at `Count`; every index it reads is in bounds |
| Lab2.MaxHeap.Swap | Lab2/MaxHeap.cs:281-287 | the buffer becomes `Swapped` of the old one |
| Lab2.MaxHeap.DoubleArrayCapacity | Lab2/MaxHeap.cs:289-292 | a fresh buffer of twice the length holding the old elements at the same positions, new slots 0 |

## Left out

- Exception messages: only which error occurs is modelled, as `Result`/`Outcome` values.
- Generic `T` over `IComparable<T>`: the model fixes `T` to `int`. With a reference type the default slots would be `null`, and the whole-buffer scans would throw `NullReferenceException`. That behaviour is not modelled.
- A `null` initial array is modelled as an empty sequence. The C# constructor returns early in that case, which leaves the same state.
- `Array.Resize` is a library call. `DoubleArrayCapacity` models it as allocating a zeroed array of twice the length and copying the old elements.
- 32-bit overflow of `position * 2 + 1`, `position * 2 + 2`, `array.Length * 2` and `Count` is not modelled: integers are unbounded.
- The time-complexity comments and the unused `using System.Reflection` have no behaviour to model.
- No heap-order preservation is claimed for `ExtractMax`, `Remove`, a lowering `Update` or `ExtractMin`. No "repeated extraction yields sorted output" property is claimed either. The code does not have these properties. `ExtractMaxBreaksOrder` and `ExtractMaxSwapsWithDeadSlot` exhibit buffers that refute them for `ExtractMax` and sorted output; `Remove` acts through the same `RemoveAt`. `LoweringUpdateBreaksOrder` refutes them for a lowering `Update`, and `ExtractMinBreaksOrder` for `ExtractMin`.
- Lab2.MaxHeap.Add: the live multiset gaining exactly `item` is proved by `AddedLive` about `Added`, the buffer `Add` is proved to leave. It is not repeated as a postcondition of `Add`.
