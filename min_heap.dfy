/** The entropy queue of the solver: an array-backed binary min-heap keyed by a
    floating-point priority that tolerates stale duplicate entries
    (Assets/Scripts/MinHeap.cs). The C# List backing the heap is the sequence
    field `heap`; keys are compared only with < and >, so they are modelled as
    reals. */
module MinHeaps {
  import opened Wrappers

  /** One slot of the heap: the C# Tuple<double, T> (Item1 is the key). */
  datatype Entry<T> = Entry(key: real, value: T)

  /** C# integer division, which truncates toward zero (Dafny's / is Euclidean). */
  function TruncatingDiv(a: int, b: int): (q: int)
    requires b > 0
    ensures a >= 0 ==> 0 <= a - q * b < b
    ensures a < 0 ==> -b < a - q * b <= 0
  {
    if a >= 0 then a / b else -((-a) / b)
  }

  /** GetParentIndex: (i - 1) / 2 in C#, so the root is its own parent. */
  function ParentIndex(i: int): (p: int)
    ensures i == 0 ==> p == 0
    ensures i > 0 ==> 0 <= p < i && (p == (i - 1) / 2)
  {
    TruncatingDiv(i - 1, 2)
  }

  function LeftChildIndex(i: int): int {
    2 * i + 1
  }

  function RightChildIndex(i: int): int {
    2 * i + 2
  }

  /** Every parent key is at most each of its children's keys. */
  ghost predicate IsHeap<T>(s: seq<Entry<T>>) {
    forall i :: 0 < i < |s| ==> s[ParentIndex(i)].key <= s[i].key
  }

  /** The heap order holds except between slot k and its parent, and k's
      parent is no larger than k's children (the state during sift-up). */
  ghost predicate HeapExceptAbove<T>(s: seq<Entry<T>>, k: int) {
    && (forall i :: 0 < i < |s| && i != k ==> s[ParentIndex(i)].key <= s[i].key)
    && (forall i :: 0 < i < |s| && ParentIndex(i) == k && k > 0 ==> s[ParentIndex(k)].key <= s[i].key)
  }

  /** The heap order holds except between slot k and its children, and k's
      parent is no larger than k's children (the state during sift-down). */
  ghost predicate HeapExceptBelow<T>(s: seq<Entry<T>>, k: int) {
    && (forall i :: 0 < i < |s| && ParentIndex(i) != k ==> s[ParentIndex(i)].key <= s[i].key)
    && (forall i :: 0 < i < |s| && ParentIndex(i) == k && k > 0 ==> s[ParentIndex(k)].key <= s[i].key)
  }

  /** In a heap the root holds a minimum key. */
  lemma {:induction false} RootIsMinimum<T>(s: seq<Entry<T>>, i: int)
    requires IsHeap(s) && 0 <= i < |s|
    ensures s[0].key <= s[i].key
    decreases i
  {
    if i > 0 {
      RootIsMinimum(s, ParentIndex(i));
    }
  }

  /** The children of slot k are exactly slots 2k+1 and 2k+2. */
  lemma ParentOfChild(k: int, i: int)
    requires k >= 0 && i > 0
    ensures ParentIndex(i) == k <==> i == LeftChildIndex(k) || i == RightChildIndex(k)
  {
  }

  /** One sift-down step: swapping slot k with its smallest child c, whose key
      is not above k's, moves the hole down to c. */
  lemma SiftDownStep<T>(s: seq<Entry<T>>, k: int, c: int)
    requires 0 <= k && 0 < c < |s| && ParentIndex(c) == k
    requires HeapExceptBelow(s, k)
    requires forall i :: 0 < i < |s| && ParentIndex(i) == k ==> s[c].key <= s[i].key
    requires s[c].key <= s[k].key
    ensures HeapExceptBelow(s[k := s[c]][c := s[k]], c)
  {
    var t := s[k := s[c]][c := s[k]];
    forall i | 0 < i < |t| && ParentIndex(i) != c
      ensures t[ParentIndex(i)].key <= t[i].key
    {
      var p := ParentIndex(i);
      if i == c {
      } else if p == k {
      } else if i == k {
        assert t[p] == s[p] && t[k] == s[c];
      }
    }
    forall i | 0 < i < |t| && ParentIndex(i) == c
      ensures t[ParentIndex(c)].key <= t[i].key
    {
    }
  }

  /** Sift-down ends in a heap when slot k has no child below its key. */
  lemma SiftDownDone<T>(s: seq<Entry<T>>, k: int)
    requires 0 <= k && HeapExceptBelow(s, k)
    requires forall i :: 0 < i < |s| && ParentIndex(i) == k ==> s[k].key <= s[i].key
    ensures IsHeap(s)
  {
  }

  /** Moving the last entry into the root of a heap leaves a heap except
      below the root, holding the old entries less the old root. */
  lemma LastToRoot<T>(s: seq<Entry<T>>)
    requires IsHeap(s) && |s| > 0
    ensures var t := s[0 := s[|s| - 1]][..|s| - 1];
      HeapExceptBelow(t, 0) && multiset(t) == multiset(s) - multiset{s[0]}
  {
    var last := |s| - 1;
    var t := s[0 := s[last]][..last];
    forall i | 0 < i < |t| && ParentIndex(i) != 0
      ensures t[ParentIndex(i)].key <= t[i].key
    {
      assert t[i] == s[i] && t[ParentIndex(i)] == s[ParentIndex(i)];
    }
    LastToRootMultiset(s);
  }

  lemma LastToRootMultiset<T>(s: seq<Entry<T>>)
    requires |s| > 0
    ensures multiset(s[0 := s[|s| - 1]][..|s| - 1]) == multiset(s) - multiset{s[0]}
  {
    var last := |s| - 1;
    var t := s[0 := s[last]][..last];
    if last > 0 {
      var mid := s[1..last];
      assert s == [s[0]] + mid + [s[last]];
      assert t == [s[last]] + mid;
      calc {
        multiset(s);
        multiset([s[0]] + mid + [s[last]]);
        multiset{s[0]} + multiset(mid) + multiset{s[last]};
      }
    } else {
      assert t == [];
      assert s == [s[0]];
    }
  }

  class MinHeap<T> {
    var heap: seq<Entry<T>>

    ghost predicate Valid()
      reads this
    {
      IsHeap(heap)
    }

    constructor ()
      ensures Valid() && heap == []
    {
      heap := [];
    }

    function Size(): nat
      reads this
    {
      |heap|
    }

    function IsEmpty(): (empty: bool)
      reads this
      ensures empty <==> heap == []
    {
      Size() == 0
    }

    function HasParent(index: int): bool {
      ParentIndex(index) >= 0
    }

    function HasLeftChild(index: int): bool
      reads this
    {
      LeftChildIndex(index) < Size()
    }

    function HasRightChild(index: int): bool
      reads this
    {
      RightChildIndex(index) < Size()
    }

    /** Appends one entry, duplicates included, and restores the heap order. */
    method Add(key: real, value: T)
      requires Valid()
      modifies this
      ensures Valid()
      ensures |heap| == |old(heap)| + 1
      ensures multiset(heap) == multiset(old(heap)) + multiset{Entry(key, value)}
    {
      heap := heap + [Entry(key, value)];
      HeapifyUp();
    }

    /** The entry at the root, or None where C# throws InvalidOperationException. */
    method Peek() returns (top: Option<Entry<T>>)
      requires Valid()
      ensures top.None? <==> heap == []
      ensures top.Some? ==> top.value in heap
      ensures top.Some? ==> forall i :: 0 <= i < |heap| ==> top.value.key <= heap[i].key
    {
      if IsEmpty() {
        return None;
      }
      forall i | 0 <= i < |heap| ensures heap[0].key <= heap[i].key {
        RootIsMinimum(heap, i);
      }
      return Some(heap[0]);
    }

    /** Removes and returns the root, or None where C# throws
        InvalidOperationException on an empty heap. */
    method Poll() returns (top: Option<Entry<T>>)
      requires Valid()
      modifies this
      ensures Valid()
      ensures old(heap) == [] ==> top.None? && heap == old(heap)
      ensures old(heap) != [] ==> top == Some(old(heap)[0])
      ensures old(heap) != [] ==> forall i :: 0 <= i < |old(heap)| ==> top.value.key <= old(heap)[i].key
      ensures old(heap) != [] ==> multiset(heap) == multiset(old(heap)) - multiset{old(heap)[0]}
      ensures old(heap) != [] ==> |heap| == |old(heap)| - 1
    {
      if IsEmpty() {
        return None;
      }
      forall i | 0 <= i < |heap| ensures heap[0].key <= heap[i].key {
        RootIsMinimum(heap, i);
      }
      LastToRoot(heap);
      var minValue := heap[0];
      heap := heap[0 := heap[Size() - 1]];
      heap := heap[..Size() - 1];
      HeapifyDown();
      return Some(minValue);
    }

    /** Sift-up from the last slot; stops at the root because there the parent
        is the root itself and > is false. */
    method HeapifyUp()
      requires |heap| > 0 && HeapExceptAbove(heap, |heap| - 1)
      modifies this
      ensures Valid()
      ensures multiset(heap) == multiset(old(heap)) && |heap| == |old(heap)|
    {
      var index := |heap| - 1;
      while HasParent(index) && heap[ParentIndex(index)].key > heap[index].key
        invariant 0 <= index < |heap|
        invariant HeapExceptAbove(heap, index)
        invariant multiset(heap) == multiset(old(heap)) && |heap| == |old(heap)|
        decreases index
      {
        Swap(ParentIndex(index), index);
        index := ParentIndex(index);
      }
    }

    /** Sift-down from the root, moving to the smaller child (the right one
        only when its key is strictly smaller) until the slot's key is strictly
        below that child's. */
    method HeapifyDown()
      requires HeapExceptBelow(heap, 0)
      modifies this
      ensures Valid()
      ensures multiset(heap) == multiset(old(heap)) && |heap| == |old(heap)|
    {
      var index := 0;
      while HasLeftChild(index)
        invariant 0 <= index && (|heap| > 0 ==> index < |heap|)
        invariant HeapExceptBelow(heap, index)
        invariant multiset(heap) == multiset(old(heap)) && |heap| == |old(heap)|
        decreases |heap| - index
      {
        var smallerChildIndex := LeftChildIndex(index);
        if HasRightChild(index) && heap[RightChildIndex(index)].key < heap[LeftChildIndex(index)].key {
          smallerChildIndex := RightChildIndex(index);
        }
        forall i | 0 < i < |heap| && ParentIndex(i) == index
          ensures heap[smallerChildIndex].key <= heap[i].key
        {
          ParentOfChild(index, i);
        }
        if heap[index].key < heap[smallerChildIndex].key {
          SiftDownDone(heap, index);
          break;
        } else {
          SiftDownStep(heap, index, smallerChildIndex);
          Swap(index, smallerChildIndex);
        }
        index := smallerChildIndex;
      }
      if !HasLeftChild(index) {
        forall i | 0 < i < |heap| ensures ParentIndex(i) != index {
          ParentOfChild(index, i);
        }
      }
    }

    /** Exchanges two slots and changes nothing else. */
    method Swap(indexOne: int, indexTwo: int)
      requires 0 <= indexOne < |heap| && 0 <= indexTwo < |heap|
      modifies this
      ensures heap == old(heap)[indexOne := old(heap)[indexTwo]][indexTwo := old(heap)[indexOne]]
      ensures multiset(heap) == multiset(old(heap)) && |heap| == |old(heap)|
    {
      var temp := heap[indexOne];
      heap := heap[indexOne := heap[indexTwo]];
      heap := heap[indexTwo := temp];
    }
  }
}
