/** The class `MaxHeap<T>` of Lab2/MaxHeap.cs with `T` instantiated as
    `int`: a growable buffer `a` of which the first `count` slots are live.
    Each method is proved against the pure functions of HeapSpec; the
    exceptions the class throws become `Result`/`Outcome` values. */
module Lab2 {
  import opened HeapSpec
  import opened HeapProperties

  class MaxHeap {
    var a: array<int>
    var count: nat

    /** Slot `count` always exists (so `Add` can write it and `TrickleDown`
        can read it) and the buffer never shrinks below its initial size. */
    ghost predicate Valid()
      reads this
    {
      count < a.Length && a.Length >= InitialSize
    }

    function Capacity(): nat
      reads this
    {
      a.Length
    }

    function IsEmpty(): bool
      reads this
    {
      count == 0
    }

    /** Allocates the initial buffer (all slots 0, the default of `int`)
        and adds the given elements one at a time. A missing (null) initial
        array behaves like an empty one. */
    constructor (initialArray: seq<int>)
      ensures Valid() && fresh(a)
      ensures count == |initialArray| && a[..] == Built(initialArray)
      ensures a.Length == CapacityAfterAdds(InitialSize, |initialArray|)
      ensures multiset(a[..count]) == multiset(initialArray)
      ensures HeapOrdered(a[..], count)
    {
      a := new int[InitialSize](_ => 0);
      count := 0;
      new;
      assert a[..] == Built([]);
      for k := 0 to |initialArray|
        invariant Valid() && fresh(a)
        invariant count == k && a[..] == Built(initialArray[..k])
      {
        assert initialArray[..k + 1][..k] == initialArray[..k];
        Add(initialArray[k]);
      }
      assert initialArray[..|initialArray|] == initialArray;
      BuiltCapacity(initialArray);
      BuiltLive(initialArray);
      BuiltOrdered(initialArray);
    }

    /** The root, without removing it; fails on an empty heap. */
    method Peek() returns (r: Result<int>)
      requires Valid()
      ensures IsEmpty() ==> r == Failure(EmptyHeap)
      ensures !IsEmpty() ==> r == Success(a[0])
      ensures r.Success? && HeapOrdered(a[..], count) ==>
        forall k :: 0 <= k < count ==> a[k] <= r.value
    {
      if IsEmpty() {
        return Failure(EmptyHeap);
      }
      r := Success(a[0]);
      if HeapOrdered(a[..], count) {
        HeapOrderedIffParentOrdered(a[..], count);
        forall k | 0 <= k < count
          ensures a[k] <= a[0]
        {
          RootIsMax(a[..], count, k);
        }
      }
    }

    /** Writes `item` into slot `count`, sifts it up, counts it, and doubles
        the buffer when the count reaches the capacity. */
    method Add(item: int)
      requires Valid()
      modifies this, a
      ensures Valid()
      ensures count == old(count) + 1
      ensures a.Length == if count == old(a.Length) then 2 * old(a.Length) else old(a.Length)
      ensures a == old(a) || fresh(a)
      ensures a[..] == Added(old(a[..]), old(count), item)
      ensures HeapOrdered(old(a[..]), old(count)) ==> HeapOrdered(a[..], count)
    {
      ghost var s := a[..];
      var nextEmptyIndex := count;
      a[nextEmptyIndex] := item;
      assert a[..] == s[count := item];
      TrickleUp(nextEmptyIndex);
      count := count + 1;
      if count == a.Length {
        DoubleArrayCapacity();
      }
      if HeapOrdered(s, old(count)) {
        AddedOrder(s, old(count), item);
      }
    }

    /** Alias of `ExtractMax`. */
    method Extract() returns (r: Result<int>)
      requires Valid()
      modifies this`count, a
      ensures Valid()
      ensures old(count) == 0 ==> r == Failure(EmptyHeap) && count == 0 && a[..] == old(a[..])
      ensures old(count) > 0 ==> r == Success(old(a[0])) && count == old(count) - 1
      ensures old(count) > 0 ==> a[..] == RemoveAt(old(a[..]), old(count), 0)
      ensures multiset(a[..old(count)]) == multiset(old(a[..count]))
      ensures a[old(count)..] == old(a[count..])
      ensures r.Success? && HeapOrdered(old(a[..]), old(count)) ==>
        forall k :: 0 <= k < old(count) ==> old(a[k]) <= r.value
    {
      r := ExtractMax();
    }

    /** Saves the root, swaps it with the last live element, drops the
        last, and trickles down from the root. */
    method ExtractMax() returns (r: Result<int>)
      requires Valid()
      modifies this`count, a
      ensures Valid()
      ensures old(count) == 0 ==> r == Failure(EmptyHeap) && count == 0 && a[..] == old(a[..])
      ensures old(count) > 0 ==> r == Success(old(a[0])) && count == old(count) - 1
      ensures old(count) > 0 ==> a[..] == RemoveAt(old(a[..]), old(count), 0)
      ensures multiset(a[..old(count)]) == multiset(old(a[..count]))
      ensures a[old(count)..] == old(a[count..])
      ensures r.Success? && HeapOrdered(old(a[..]), old(count)) ==>
        forall k :: 0 <= k < old(count) ==> old(a[k]) <= r.value
    {
      if IsEmpty() {
        return Failure(EmptyHeap);
      }
      ghost var s := a[..];
      var max := a[0];
      Swap(0, count - 1);
      count := count - 1;
      TrickleDown(0);
      RemovedLive(s, old(count), 0, a[..]);
      if HeapOrdered(s, old(count)) {
        HeapOrderedIffParentOrdered(s, old(count));
        forall k | 0 <= k < old(count)
          ensures s[k] <= max
        {
          RootIsMax(s, old(count), k);
        }
      }
      return Success(max);
    }

    /** Takes `a[0]`, or the first element of the whole buffer found below
        it, and removes that value with `Remove`. With no live element,
        `Remove` faults on `Swap(0, -1)`. */
    method ExtractMin() returns (r: Result<int>)
      requires Valid()
      modifies this`count, a
      ensures Valid()
      ensures old(count) == 0 ==> r == Failure(IndexOutOfRange) && count == 0 && a[..] == old(a[..])
      ensures old(count) > 0 ==>
        var m := MinCandidate(old(a[..]));
        r == Success(m) && count == old(count) - 1 &&
        a[..] == RemoveAt(old(a[..]), old(count), RemovalIndex(old(a[..]), old(count), m))
      ensures multiset(a[..old(count)]) == multiset(old(a[..count]))
      ensures a[old(count)..] == old(a[count..])
    {
      var min := ScanForMin();
      var outcome := Remove(min);
      if outcome.Fail? {
        return Failure(outcome.error);
      }
      return Success(min);
    }

    /** The linear search of `ExtractMin`: over the whole buffer, dead
        slots included, stopping at the first element below `a[0]`. */
    method ScanForMin() returns (min: int)
      requires Valid()
      ensures min == MinCandidate(a[..])
    {
      min := a[0];
      for k := 0 to a.Length
        invariant min == a[0]
        invariant forall j :: 0 <= j < k ==> a[j] >= a[0]
      {
        if a[k] < min {
          min := a[k];
          assert FirstBelow(a[..], a[0], a.Length) == Some(k);
          return;
        }
      }
    }

    /** Whether any slot of the whole buffer, dead or default ones
        included, holds `value`. */
    method Contains(value: int) returns (found: bool)
      ensures found <==> value in a[..]
    {
      for k := 0 to a.Length
        invariant value !in a[..k]
      {
        if a[k] == value {
          assert a[..][k] == value;
          return true;
        }
        assert a[..k + 1] == a[..k] + [a[k]];
      }
      assert a[..a.Length] == a[..];
      return false;
    }

    /** The scan of `Update` and `Remove` over the live slots: the first
        live index holding `value`, or 0 when there is none. */
    method IndexOfLive(value: int) returns (found: bool, index: nat)
      requires Valid()
      ensures found == FirstIndexOf(a[..], count, value).Some?
      ensures index == RemovalIndex(a[..], count, value)
    {
      index := 0;
      for i := 0 to count
        invariant forall k :: 0 <= k < i ==> a[k] != value
      {
        if a[i] == value {
          assert FirstIndexOf(a[..], count, value) == Some(i);
          return true, i;
        }
      }
      return false, 0;
    }

    /** Overwrites the first live slot holding `oldValue` and sifts it up
        if the value grew, down if it shrank. Fails when `Contains` finds
        no slot holding `oldValue`; does nothing when only dead slots do. */
    method Update(oldValue: int, newValue: int) returns (r: Outcome)
      requires Valid()
      modifies a
      ensures Valid()
      ensures oldValue !in old(a[..]) ==> r == Fail(ValueNotFound) && a[..] == old(a[..])
      ensures oldValue in old(a[..]) ==>
        r == Pass && a[..] == AfterUpdate(old(a[..]), count, oldValue, newValue)
      ensures r.Pass? && FirstIndexOf(old(a[..]), count, oldValue).Some? ==>
        multiset(a[..]) == multiset(old(a[..])) - multiset{oldValue} + multiset{newValue}
      ensures r.Pass? && newValue >= oldValue && HeapOrdered(old(a[..]), count) ==>
        HeapOrdered(a[..], count)
    {
      var present := Contains(oldValue);
      if !present {
        return Fail(ValueNotFound);
      }
      ghost var s := a[..];
      var found, i := IndexOfLive(oldValue);
      assert found ==> FirstIndexOf(s, count, oldValue) == Some(i);
      assert !found ==> FirstIndexOf(s, count, oldValue).None?;
      if found {
        a[i] := newValue;
        if newValue > oldValue {
          TrickleUp(i);
        }
        if newValue < oldValue {
          TrickleDown(i);
        }
        UpdateMultiset(s, count, oldValue, newValue);
      }
      assert a[..] == AfterUpdate(s, count, oldValue, newValue);
      if newValue >= oldValue && HeapOrdered(s, count) {
        UpdateUpPreservesOrder(s, count, oldValue, newValue);
      }
      return Pass;
    }

    /** Swaps the first live slot holding `value` (or slot 0 when only dead
        slots hold it) with the last live slot, drops the last, and trickles
        down from that index. Fails when `Contains` finds no slot holding
        `value`; with no live element the swap with index -1 faults. */
    method Remove(value: int) returns (r: Outcome)
      requires Valid()
      modifies this`count, a
      ensures Valid()
      ensures value !in old(a[..]) ==>
        r == Fail(ValueNotFound) && count == old(count) && a[..] == old(a[..])
      ensures value in old(a[..]) && old(count) == 0 ==>
        r == Fail(IndexOutOfRange) && count == 0 && a[..] == old(a[..])
      ensures value in old(a[..]) && old(count) > 0 ==>
        r == Pass && count == old(count) - 1 &&
        a[..] == RemoveAt(old(a[..]), old(count), RemovalIndex(old(a[..]), old(count), value))
      ensures multiset(a[..old(count)]) == multiset(old(a[..count]))
      ensures a[old(count)..] == old(a[count..])
    {
      ghost var s := a[..];
      var present := Contains(value);
      if !present {
        return Fail(ValueNotFound);
      }
      var found, index := IndexOfLive(value);
      if count == 0 {
        return Fail(IndexOutOfRange);
      }
      Swap(index, count - 1);
      count := count - 1;
      TrickleDown(index);
      RemovedLive(s, old(count), index, a[..]);
      return Pass;
    }

    /** Recursive sift-up from `index`. */
    method TrickleUp(index: nat)
      requires index < a.Length
      modifies a
      ensures a[..] == SiftUp(old(a[..]), index)
      decreases index
    {
      if index == 0 {
        return;
      }
      if a[index] > a[Parent(index)] {
        Swap(index, Parent(index));
        TrickleUp(Parent(index));
      }
    }

    /** Recursive sift-down from `index` over the first `count` slots, as
        the C# writes it (see `SiftDown`). */
    method TrickleDown(index: nat)
      requires index <= count < a.Length
      modifies a
      ensures a[..] == SiftDown(old(a[..]), index, count)
      decreases count - index
    {
      var left, right := LeftChild(index), RightChild(index);
      if left == count - 1 && a[index] < a[left] {
        Swap(index, left);
        return;
      }
      if right == count - 1 && a[index] < a[right] {
        Swap(index, right);
        return;
      }
      if left > count || right > count {
        return;
      }
      if a[left] > a[right] && a[index] < a[left] {
        Swap(index, left);
        TrickleDown(left);
      }
      if a[index] < a[right] {
        Swap(index, right);
        TrickleDown(right);
      }
    }

    method Swap(index1: int, index2: int)
      requires 0 <= index1 < a.Length && 0 <= index2 < a.Length
      modifies a
      ensures a[..] == Swapped(old(a[..]), index1, index2)
    {
      var temp := a[index1];
      a[index1] := a[index2];
      a[index2] := temp;
    }

    /** Replaces the buffer by one twice as long holding the same elements
        at the same positions, the new slots 0. */
    method DoubleArrayCapacity()
      modifies this`a
      ensures fresh(a)
      ensures a[..] == old(a[..]) + seq(old(a.Length), _ => 0)
    {
      var bigger := new int[2 * a.Length](_ => 0);
      for k := 0 to a.Length
        invariant a == old(a) && bigger.Length == 2 * a.Length
        invariant forall j :: 0 <= j < k ==> bigger[j] == a[j]
        invariant forall j :: a.Length <= j < bigger.Length ==> bigger[j] == 0
      {
        bigger[k] := a[k];
      }
      a := bigger;
    }
  }
}
