/** The generic priority heap of the job center. Models internal/jobcenter/maxheap.go: the slice is
    a field that is appended to, shrunk, and swapped in. */
module MaxHeap {
  import opened Wrappers
  import opened HeapOrder

  /** Go's integer division truncates toward zero. */
  function TruncatedHalf(n: int): int {
    if n < 0 then -(-n / 2) else n / 2
  }

  class MaxHeap<T(!new), I> {
    const greaterThan: (T, T) -> bool
    const identify: (I, T) -> bool
    var data: seq<T>

    ghost predicate Valid()
      reads this
    {
      StrictWeakOrder(greaterThan) && IsHeap(greaterThan, data)
    }

    constructor (greaterThan: (T, T) -> bool, identify: (I, T) -> bool)
      requires StrictWeakOrder(greaterThan)
      ensures Valid() && data == []
      ensures this.greaterThan == greaterThan && this.identify == identify
    {
      this.greaterThan := greaterThan;
      this.identify := identify;
      this.data := [];
    }

    /** Builds a heap of the given elements. */
    constructor Heapify(data: seq<T>, greaterThan: (T, T) -> bool, identify: (I, T) -> bool)
      requires StrictWeakOrder(greaterThan)
      ensures Valid() && multiset(this.data) == multiset(data)
      ensures this.greaterThan == greaterThan && this.identify == identify
    {
      this.greaterThan := greaterThan;
      this.identify := identify;
      this.data := data;
      new;
      var i := TruncatedHalf(|data| - 2);
      while i >= 0
        invariant -1 <= i && (i >= 0 && data != [] ==> i < |data|)
        invariant multiset(this.data) == multiset(data) && |this.data| == |data|
        invariant HeapFrom(greaterThan, this.data, i + 1)
      {
        SiftDown(i, if data == [] then 0 else i);
        i := i - 1;
      }
    }

    method Size() returns (n: nat)
      ensures n == |data|
    {
      n := |data|;
    }

    /** The maximum, left in place. */
    method Peek() returns (top: Option<T>)
      requires Valid()
      ensures data == [] <==> top == None
      ensures top.Some? ==> top.value == data[0] && forall x :: x in data ==> !greaterThan(x, top.value)
    {
      if |data| == 0 {
        return None;
      }
      RootIsMaximalForAll();
      return Some(data[0]);
    }

    lemma RootIsMaximalForAll()
      requires Valid() && data != []
      ensures forall x :: x in data ==> !greaterThan(x, data[0])
    {
      forall x | x in data
        ensures !greaterThan(x, data[0])
      {
        var i :| 0 <= i < |data| && data[i] == x;
        RootIsMaximal(greaterThan, data, i);
      }
    }

    method Push(item: T)
      requires Valid()
      modifies this`data
      ensures Valid() && multiset(data) == multiset(old(data)) + multiset{item}
    {
      PushedUp(greaterThan, data, item);
      data := data + [item];
      SiftUp(|data| - 1);
    }

    /** Removes a maximal element: the very one that Peek shows. */
    method Pop() returns (top: Option<T>)
      requires Valid()
      modifies this`data
      ensures Valid()
      ensures old(data) == [] <==> top == None
      ensures top == None ==> data == old(data)
      ensures top.Some? ==>
                && old(data) != [] && top.value == old(data)[0]
                && (forall x :: x in old(data) ==> !greaterThan(x, top.value))
                && multiset(data) == multiset(old(data)) - multiset{top.value}
    {
      if |data| == 0 {
        return None;
      }
      RootIsMaximalForAll();
      var lastIndex := |data| - 1;
      DropSwappedElements(data, 0);
      SwapAt(0, lastIndex);
      var item := data[lastIndex];
      data := data[..lastIndex];
      if |data| > 0 {
        ReplacedDown(greaterThan, old(data), data, 0);
        SiftDown(0, 0);
      }
      return Some(item);
    }

    /** What the repeated use of Pop yields: all elements, in an order that never increases. */
    method Drain() returns (out: seq<T>)
      requires Valid()
      modifies this`data
      ensures Valid() && data == []
      ensures multiset(out) == multiset(old(data))
      ensures forall i, j :: 0 <= i < j < |out| ==> !greaterThan(out[j], out[i])
    {
      out := [];
      while |data| > 0
        invariant Valid()
        invariant Drained(greaterThan, out, multiset(data), multiset(old(data)))
        decreases |data|
      {
        ghost var before := data;
        var top := Pop();
        Popped(before, data, top.value);
        DrainedStep(greaterThan, out, multiset(before), multiset(old(data)), top.value);
        out := out + [top.value];
      }
    }

    static lemma Popped(before: seq<T>, after: seq<T>, top: T)
      requires multiset(after) == multiset(before) - multiset{top} && top in before
      ensures |after| < |before| && top in multiset(before)
      ensures forall x :: x in multiset(before) ==> x in before
    {
      assert |multiset(after)| == |after| && |multiset(before)| == |before|;
    }

    /** Removes the first element that matches value, if there is one. */
    method Delete(value: I) returns (found: bool)
      requires Valid()
      modifies this`data
      ensures Valid()
      ensures var k := FirstMatch(identify, value, old(data));
              && (found <==> k >= 0)
              && (found ==> multiset(data) == multiset(old(data)) - multiset{old(data)[k]})
      ensures !found ==> data == old(data)
    {
      if |data| == 0 {
        return false;
      }
      var foundIndex := Find(value);
      if foundIndex == -1 {
        return false;
      }
      var lastIndex := |data| - 1;
      DropSwappedElements(data, foundIndex);
      if foundIndex == lastIndex {
        assert DropSwapped(data, foundIndex) == data[..lastIndex];
        PrefixIsHeap(greaterThan, data, lastIndex);
        data := data[..lastIndex];
      } else {
        SwapAt(foundIndex, lastIndex);
        data := data[..lastIndex];
        assert data == DropSwapped(old(data), foundIndex);
        var parentIndex := TruncatedHalf(foundIndex - 1);
        if foundIndex > 0 && greaterThan(data[foundIndex], data[parentIndex]) {
          ReplacedUp(greaterThan, old(data), data, foundIndex);
          SiftUp(foundIndex);
        } else {
          ReplacedDown(greaterThan, old(data), data, foundIndex);
          SiftDown(foundIndex, 0);
        }
      }
      return true;
    }

    /** Replaces the first element that matches id by newValue, if there is one. */
    method Update(id: I, newValue: T) returns (found: bool)
      requires Valid()
      modifies this`data
      ensures Valid()
      ensures var k := FirstMatch(identify, id, old(data));
              && (found <==> k >= 0)
              && (found ==> multiset(data) == multiset(old(data)) - multiset{old(data)[k]} + multiset{newValue})
      ensures !found ==> data == old(data)
    {
      if |data| == 0 {
        return false;
      }
      var index := Find(id);
      if index == -1 {
        return false;
      }
      var oldValue := data[index];
      data := data[index := newValue];
      if index > 0 {
        var parentIndex := (index - 1) / 2;
        if greaterThan(data[index], data[parentIndex]) {
          ReplacedUp(greaterThan, old(data), data, index);
          SiftUp(index);
          return true;
        }
      }
      if greaterThan(oldValue, newValue) {
        ReplacedDown(greaterThan, old(data), data, index);
        SiftDown(index, 0);
      } else {
        ReplacedInPlace(greaterThan, old(data), data, index);
      }
      return true;
    }

    method UpdateOrPush(id: I, value: T) returns (updated: bool)
      requires Valid()
      modifies this`data
      ensures Valid()
      ensures var k := FirstMatch(identify, id, old(data));
              && (updated <==> k >= 0)
              && multiset(data) ==
                 multiset(old(data)) - (if k >= 0 then multiset{old(data)[k]} else multiset{}) + multiset{value}
    {
      updated := Update(id, value);
      if updated {
        return true;
      }
      Push(value);
      return false;
    }

    /** The scan that Delete and Update start with. */
    method Find(value: I) returns (index: int)
      ensures index == FirstMatch(identify, value, data)
    {
      for i := 0 to |data|
        invariant forall k :: 0 <= k < i ==> !identify(value, data[k])
      {
        if identify(value, data[i]) {
          return i;
        }
      }
      return -1;
    }

    method SwapAt(i: int, j: int)
      modifies this`data
      ensures if 0 <= i < |old(data)| && 0 <= j < |old(data)| then data == Swap(old(data), i, j)
              else data == old(data)
    {
      var size := |data|;
      if i < 0 || i >= size || j < 0 || j >= size {
        return;
      }
      data := data[i := data[j]][j := data[i]];
    }

    method SiftUp(index: int)
      requires StrictWeakOrder(greaterThan)
      requires 0 <= index < |data| ==> UpFrom(greaterThan, data, index)
      modifies this`data
      ensures 0 <= index < |old(data)| ==> Valid()
      ensures multiset(data) == multiset(old(data)) && |data| == |old(data)|
    {
      var size := |data|;
      if index < 0 || index >= size {
        return;
      }
      var i := index;
      while i > 0
        invariant 0 <= i < |data| == size
        invariant UpFrom(greaterThan, data, i)
        invariant multiset(data) == multiset(old(data))
      {
        var parentIndex := (i - 1) / 2;
        if greaterThan(data[parentIndex], data[i]) {
          break;
        }
        SwapUp(greaterThan, data, i);
        SwapKeepsElements(data, i, parentIndex);
        SwapAt(i, parentIndex);
        i := parentIndex;
      }
      UpDone(greaterThan, data, i);
    }

    /** The comparison of an element with its two children in siftDown. */
    method LargestIndex(index: int) returns (largestIndex: int)
      requires 0 <= index < |data|
      ensures largestIndex == Largest(greaterThan, data, index)
    {
      var leftChildIndex := 2 * index + 1;
      var rightChildIndex := 2 * index + 2;
      largestIndex := index;
      if leftChildIndex < |data| && greaterThan(data[leftChildIndex], data[largestIndex]) {
        largestIndex := leftChildIndex;
      }
      if rightChildIndex < |data| && greaterThan(data[rightChildIndex], data[largestIndex]) {
        largestIndex := rightChildIndex;
      }
    }

    /** lo bounds the part of the tree that is in heap order; 0 is all of it. */
    method SiftDown(index: int, ghost lo: nat)
      requires StrictWeakOrder(greaterThan)
      requires 0 <= index < |data| ==> DownFrom(greaterThan, data, lo, index)
      modifies this`data
      ensures 0 <= index < |old(data)| ==> HeapFrom(greaterThan, data, lo)
      ensures 0 <= index < |old(data)| && lo == 0 ==> Valid()
      ensures multiset(data) == multiset(old(data)) && |data| == |old(data)|
    {
      var lastIndex := |data| - 1;
      if lastIndex < 0 {
        return;
      }
      if index < 0 || index > lastIndex {
        return;
      }
      var i := index;
      while true
        invariant 0 <= i < |data| == lastIndex + 1
        invariant DownFrom(greaterThan, data, lo, i)
        invariant multiset(data) == multiset(old(data))
        decreases |data| - i
      {
        var largestIndex := LargestIndex(i);
        if largestIndex == i {
          break;
        }
        SwapDown(greaterThan, data, lo, i);
        SwapKeepsElements(data, i, largestIndex);
        SwapAt(i, largestIndex);
        i := largestIndex;
      }
      DownDone(greaterThan, data, lo, i);
      if lo == 0 {
        HeapFromZero(greaterThan, data);
      }
    }
  }
}
