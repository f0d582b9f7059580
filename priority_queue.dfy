/**
 * `PriorityQ` (Graphical/src/DataStructures/PriorityQ.cs): a binary heap of
 * (item, value) slots together with a reverse index `heapIndices` from each
 * stored item to the slot that holds it, so that an item's value can be read
 * or changed without a linear scan.
 *
 * The base class `BinaryHeap` is not part of this model. It is modelled here as
 * a standard array heap (slot i has children 2i+1 and 2i+2) whose every element
 * move goes through the overridden `Swap`; its growth policy, when the array is
 * full, is taken to be a fresh array of twice the length plus one.
 */
module PriorityQueues {
  import opened Wrappers

  datatype BinaryHeapType = MinHeap | MaxHeap

  /** A heap slot. `HeapItem.SetValue` is modelled by writing a new slot value. */
  datatype HeapItem<T> = HeapItem(item: T, value: int)

  datatype QueueError =
    | ArgumentException  // the item is not in the queue
    | EmptyHeap          // peeking at or taking from an empty heap

  /** `a` may sit above `b` in a heap of type `t`. */
  predicate Precedes(t: BinaryHeapType, a: int, b: int)
  {
    if t == MinHeap then a <= b else a >= b
  }

  /** `a` is strictly better than `b`: smaller in a MinHeap, larger in a MaxHeap. */
  predicate Better(t: BinaryHeapType, a: int, b: int)
  {
    if t == MinHeap then a < b else a > b
  }

  function Parent(i: nat): nat
    requires i > 0
  {
    (i - 1) / 2
  }

  /** Every slot below the root is preceded by its parent. */
  ghost predicate HeapOrdered<T>(h: seq<HeapItem<T>>, n: nat, t: BinaryHeapType)
    requires n <= |h|
  {
    forall i :: 0 < i < n ==> Precedes(t, h[Parent(i)].value, h[i].value)
  }

  /** Heap order while slot `k` rises: only the edge from `k`'s parent to `k` may be broken. */
  ghost predicate SiftUpInv<T>(h: seq<HeapItem<T>>, n: nat, k: nat, t: BinaryHeapType)
  {
    && k < n <= |h|
    && (forall i :: 0 < i < n && i != k ==> Precedes(t, h[Parent(i)].value, h[i].value))
    && (k > 0 ==> forall c :: 0 < c < n && Parent(c) == k ==> Precedes(t, h[Parent(k)].value, h[c].value))
  }

  /** Heap order while slot `k` sinks: only the edges from `k` to its children may be broken. */
  ghost predicate SiftDownInv<T>(h: seq<HeapItem<T>>, n: nat, k: nat, t: BinaryHeapType)
  {
    && n <= |h|
    && (forall i :: 0 < i < n && Parent(i) != k ==> Precedes(t, h[Parent(i)].value, h[i].value))
    && (0 < k < n ==> forall c :: 0 < c < n && Parent(c) == k ==> Precedes(t, h[Parent(k)].value, h[c].value))
  }

  function Swapped<T>(h: seq<HeapItem<T>>, i: nat, j: nat): (r: seq<HeapItem<T>>)
    requires i < |h| && j < |h|
  {
    h[i := h[j]][j := h[i]]
  }

  lemma PrecedesTransitive(t: BinaryHeapType, a: int, b: int, c: int)
    requires Precedes(t, a, b) && Precedes(t, b, c)
    ensures Precedes(t, a, c)
  {
  }

  /** In a heap-ordered prefix the root precedes every slot. */
  lemma {:induction false} RootPrecedesAll<T>(h: seq<HeapItem<T>>, n: nat, t: BinaryHeapType, i: nat)
    requires n <= |h| && HeapOrdered(h, n, t) && i < n
    ensures Precedes(t, h[0].value, h[i].value)
  {
    if i > 0 {
      RootPrecedesAll(h, n, t, Parent(i));
      PrecedesTransitive(t, h[0].value, h[Parent(i)].value, h[i].value);
    }
  }

  /** One step of sift-up: swapping a slot with a worse parent moves the breach one level up. */
  lemma SiftUpStep<T>(h: seq<HeapItem<T>>, n: nat, k: nat, t: BinaryHeapType)
    requires SiftUpInv(h, n, k, t) && k > 0
    requires Better(t, h[k].value, h[Parent(k)].value)
    ensures SiftUpInv(Swapped(h, k, Parent(k)), n, Parent(k), t)
  {
    var p := Parent(k);
    var h' := Swapped(h, k, p);
    forall i | 0 < i < n && i != p
      ensures Precedes(t, h'[Parent(i)].value, h'[i].value)
    {
      if i == k {
      } else if Parent(i) == k {
        assert Precedes(t, h[p].value, h[i].value);
      } else if Parent(i) == p {
        PrecedesTransitive(t, h[k].value, h[p].value, h[i].value);
      }
    }
    if p > 0 {
      forall c | 0 < c < n && Parent(c) == p
        ensures Precedes(t, h'[Parent(p)].value, h'[c].value)
      {
        assert Precedes(t, h[Parent(p)].value, h[p].value);
        if c != k {
          PrecedesTransitive(t, h[Parent(p)].value, h[p].value, h[c].value);
        }
      }
    }
  }

  /** Sift-up stops at the root or below a parent that is not worse: the prefix is heap-ordered. */
  lemma SiftUpDone<T>(h: seq<HeapItem<T>>, n: nat, k: nat, t: BinaryHeapType)
    requires SiftUpInv(h, n, k, t)
    requires k == 0 || !Better(t, h[k].value, h[Parent(k)].value)
    ensures HeapOrdered(h, n, t)
  {
  }

  /** One step of sift-down: swapping a slot with its best child, when that child is better, moves the breach one level down. */
  lemma SiftDownStep<T>(h: seq<HeapItem<T>>, n: nat, k: nat, t: BinaryHeapType)
    requires SiftDownInv(h, n, k, t) && 2 * k + 1 < n
    requires Better(t, h[BetterChild(h, n, k, t)].value, h[k].value)
    ensures SiftDownInv(Swapped(h, k, BetterChild(h, n, k, t)), n, BetterChild(h, n, k, t), t)
  {
    var m := BetterChild(h, n, k, t);
    var h' := Swapped(h, k, m);
    forall i | 0 < i < n && Parent(i) != m
      ensures Precedes(t, h'[Parent(i)].value, h'[i].value)
    {
      if i == m {
      } else if i == k {
        assert Precedes(t, h[Parent(k)].value, h[m].value);
      } else if Parent(i) == k {
        assert Precedes(t, h[m].value, h[i].value);
      }
    }
    forall c | 0 < c < n && Parent(c) == m
      ensures Precedes(t, h'[k].value, h'[c].value)
    {
      assert Precedes(t, h[m].value, h[c].value);
    }
  }

  /** The slots whose parent is `k` are `2k+1` and `2k+2`. */
  lemma ChildrenOf(k: nat)
    ensures forall c :: 0 < c && Parent(c) == k ==> c == 2 * k + 1 || c == 2 * k + 2
    ensures Parent(2 * k + 1) == k && Parent(2 * k + 2) == k
  {
  }

  /** The child that sift-down picks: the right one only when it exists and is strictly better than the left. */
  function BetterChild<T>(h: seq<HeapItem<T>>, n: nat, k: nat, t: BinaryHeapType): (m: nat)
    requires 2 * k + 1 < n <= |h|
    ensures k < m < n && Parent(m) == k
    ensures forall c :: 0 < c < n && Parent(c) == k ==> Precedes(t, h[m].value, h[c].value)
  {
    ChildrenOf(k);
    if 2 * k + 2 < n && Better(t, h[2 * k + 2].value, h[2 * k + 1].value) then 2 * k + 2 else 2 * k + 1
  }

  /** Sift-down stops when no child is better: the prefix is heap-ordered. */
  lemma SiftDownDone<T>(h: seq<HeapItem<T>>, n: nat, k: nat, t: BinaryHeapType)
    requires SiftDownInv(h, n, k, t)
    requires 2 * k + 1 < n ==> !Better(t, h[BetterChild(h, n, k, t)].value, h[k].value)
    ensures HeapOrdered(h, n, t)
  {
    ChildrenOf(k);
    if 2 * k + 1 < n {
      var m := BetterChild(h, n, k, t);
      forall c | 0 < c < n && Parent(c) == k
        ensures Precedes(t, h[k].value, h[c].value)
      {
        PrecedesTransitive(t, h[k].value, h[m].value, h[c].value);
      }
    }
  }

  /** A slot appended after a heap-ordered prefix can only breach its edge to its parent. */
  lemma AppendStartsSiftUp<T>(h: seq<HeapItem<T>>, n: nat, t: BinaryHeapType)
    requires n < |h| && HeapOrdered(h, n, t)
    ensures SiftUpInv(h, n + 1, n, t)
  {
  }

  /** Giving slot `k` a strictly better value can only breach the edge to its parent. */
  lemma ImprovedStartsSiftUp<T>(h: seq<HeapItem<T>>, n: nat, k: nat, x: HeapItem<T>, t: BinaryHeapType)
    requires k < n <= |h| && HeapOrdered(h, n, t)
    requires Better(t, x.value, h[k].value)
    ensures SiftUpInv(h[k := x], n, k, t)
  {
    var h' := h[k := x];
    forall c | 0 < c < n && Parent(c) == k
      ensures Precedes(t, h'[k].value, h'[c].value)
    {
      PrecedesTransitive(t, x.value, h[k].value, h[c].value);
    }
    if k > 0 {
      forall c | 0 < c < n && Parent(c) == k
        ensures Precedes(t, h'[Parent(k)].value, h'[c].value)
      {
        PrecedesTransitive(t, h[Parent(k)].value, h[k].value, h[c].value);
      }
    }
  }

  /** Giving slot `k` a value that is not better can only breach the edges to its children. */
  lemma WorsenedStartsSiftDown<T>(h: seq<HeapItem<T>>, n: nat, k: nat, x: HeapItem<T>, t: BinaryHeapType)
    requires k < n <= |h| && HeapOrdered(h, n, t)
    requires !Better(t, x.value, h[k].value)
    ensures SiftDownInv(h[k := x], n, k, t)
  {
    var h' := h[k := x];
    if k > 0 {
      PrecedesTransitive(t, h[Parent(k)].value, h[k].value, x.value);
      forall c | 0 < c < n && Parent(c) == k
        ensures Precedes(t, h'[Parent(k)].value, h'[c].value)
      {
        PrecedesTransitive(t, h[Parent(k)].value, h[k].value, h[c].value);
      }
    }
  }

  /** Moving the last slot to the root of a heap-ordered prefix and dropping the last slot leaves a sift-down from the root. */
  lemma RemoveRootStartsSiftDown<T>(h: seq<HeapItem<T>>, n: nat, t: BinaryHeapType)
    requires 0 < n <= |h| && HeapOrdered(h, n, t)
    ensures SiftDownInv(Swapped(h, 0, n - 1), n - 1, 0, t)
  {
  }

  /** The slots `[0, n)` of `h` and the index `idx` agree exactly: each slot's item maps to that slot, and each indexed item sits in its slot. */
  ghost predicate Indexed<T>(h: seq<HeapItem<T>>, idx: map<T, int>, n: nat)
  {
    && n <= |h|
    && (forall i :: 0 <= i < n ==> h[i].item in idx && idx[h[i].item] == i)
    && (forall x :: x in idx ==> 0 <= idx[x] < n && h[idx[x]].item == x)
  }

  /** Each indexed item with the value in its slot. */
  ghost function Entries<T>(h: seq<HeapItem<T>>, idx: map<T, int>): map<T, int>
  {
    map x | x in idx && 0 <= idx[x] < |h| :: h[idx[x]].value
  }

  /** `Swap` keeps the index exact and what the queue holds unchanged. */
  lemma SwapKeepsIndex<T>(h: seq<HeapItem<T>>, idx: map<T, int>, n: nat, i: nat, j: nat)
    requires Indexed(h, idx, n) && i < n && j < n
    ensures Indexed(Swapped(h, i, j), idx[h[i].item := j][h[j].item := i], n)
    ensures Entries(Swapped(h, i, j), idx[h[i].item := j][h[j].item := i]) == Entries(h, idx)
  {
    var h' := Swapped(h, i, j);
    var idx' := idx[h[i].item := j][h[j].item := i];
    assert idx'.Keys == idx.Keys;
    forall x | x in idx
      ensures h'[idx'[x]] == h[idx[x]]
    {
      if x != h[i].item && x != h[j].item {
        assert idx[x] != i && idx[x] != j;
      }
    }
  }

  /** Appending a new item at slot `n` and indexing it there keeps the index exact and adds the item. */
  lemma AppendKeepsIndex<T>(h: seq<HeapItem<T>>, idx: map<T, int>, n: nat, x: HeapItem<T>)
    requires Indexed(h, idx, n) && n < |h| && x.item !in idx
    ensures Indexed(h[n := x], idx[x.item := n], n + 1)
    ensures Entries(h[n := x], idx[x.item := n]) == Entries(h, idx)[x.item := x.value]
  {
  }

  /** Writing a new value into an occupied slot keeps the index exact and changes that item's value. */
  lemma SetValueKeepsIndex<T>(h: seq<HeapItem<T>>, idx: map<T, int>, n: nat, k: nat, v: int)
    requires Indexed(h, idx, n) && k < n
    ensures Indexed(h[k := HeapItem(h[k].item, v)], idx, n)
    ensures Entries(h[k := HeapItem(h[k].item, v)], idx) == Entries(h, idx)[h[k].item := v]
  {
    var h' := h[k := HeapItem(h[k].item, v)];
    forall x | x in idx && x != h[k].item
      ensures h'[idx[x]] == h[idx[x]]
    {
    }
  }

  /** Dropping the last slot's item from the index leaves an exact index over the shorter prefix. */
  lemma DropLastKeepsIndex<T>(h: seq<HeapItem<T>>, idx: map<T, int>, n: nat)
    requires Indexed(h, idx, n + 1)
    ensures Indexed(h, idx - {h[n].item}, n)
    ensures Entries(h, idx - {h[n].item}) == Entries(h, idx) - {h[n].item}
  {
  }

  /** An exact index over slots `[0, n)` knows exactly the items stored there, each with its slot's value. */
  lemma IndexedEntries<T>(h: seq<HeapItem<T>>, idx: map<T, int>, n: nat)
    requires Indexed(h, idx, n)
    ensures Entries(h, idx).Keys == idx.Keys
    ensures forall x :: x in idx ==> Entries(h, idx)[x] == h[idx[x]].value
    ensures n == 0 <==> Entries(h, idx) == map[]
  {
    if n > 0 {
      assert h[0].item in Entries(h, idx);
    }
  }

  /** Only the occupied prefix matters to the index, the heap order and the contents. */
  lemma PrefixKeepsIndex<T>(h: seq<HeapItem<T>>, h': seq<HeapItem<T>>, idx: map<T, int>, n: nat, t: BinaryHeapType)
    requires Indexed(h, idx, n) && HeapOrdered(h, n, t) && n <= |h'| && h'[..n] == h[..n]
    ensures Indexed(h', idx, n) && HeapOrdered(h', n, t) && Entries(h', idx) == Entries(h, idx)
  {
    assert forall i :: 0 <= i < n ==> h'[i] == h'[..n][i] == h[i];
  }

  class PriorityQ<T(==,0)> {
    const heapType: BinaryHeapType
    var heapItems: array<HeapItem<T>>
    var size: nat
    var heapIndices: map<T, int>

    /** The object invariant: the index agrees with the occupied slots, which are heap-ordered. */
    ghost predicate Valid()
      reads this, heapItems
    {
      && Indexed(heapItems[..], heapIndices, size)
      && HeapOrdered(heapItems[..], size, heapType)
    }

    /** What the queue holds: each indexed item with the value in its slot. */
    ghost function Contents(): map<T, int>
      reads this, heapItems
    {
      Entries(heapItems[..], heapIndices)
    }

    /** `PriorityQ(heapType, capacity)`. */
    constructor (heapType: BinaryHeapType, capacity: nat)
      ensures Valid() && fresh(heapItems)
      ensures this.heapType == heapType && heapItems.Length == capacity && size == 0
      ensures Contents() == map[]
    {
      this.heapType := heapType;
      heapItems := new HeapItem<T>[capacity];
      size := 0;
      heapIndices := map[];
    }

    /** `MinPriorityQ(capacity)`: only fixes the heap type. */
    constructor MinPriorityQ(capacity: nat)
      ensures Valid() && fresh(heapItems)
      ensures heapType == MinHeap && heapItems.Length == capacity && size == 0
      ensures Contents() == map[]
    {
      heapType := MinHeap;
      heapItems := new HeapItem<T>[capacity];
      size := 0;
      heapIndices := map[];
    }

    /** `MaxPriorityQ(capacity)`: only fixes the heap type. */
    constructor MaxPriorityQ(capacity: nat)
      ensures Valid() && fresh(heapItems)
      ensures heapType == MaxHeap && heapItems.Length == capacity && size == 0
      ensures Contents() == map[]
    {
      heapType := MaxHeap;
      heapItems := new HeapItem<T>[capacity];
      size := 0;
      heapIndices := map[];
    }

    /**
     * The overridden `Swap`: exchanges two slots and points each of the two
     * items' index entries at its new slot. Nothing else changes, so an exact
     * index stays exact and the queue's contents are the same.
     */
    method Swap(firstIndex: nat, secondIndex: nat, ghost bound: nat)
      requires Indexed(heapItems[..], heapIndices, bound) && firstIndex < bound && secondIndex < bound
      modifies this`heapIndices, heapItems
      ensures heapItems[..] == Swapped(old(heapItems[..]), firstIndex, secondIndex)
      ensures heapIndices == old(heapIndices)[old(heapItems[firstIndex]).item := secondIndex][old(heapItems[secondIndex]).item := firstIndex]
      ensures Indexed(heapItems[..], heapIndices, bound)
      ensures Contents() == old(Contents())
    {
      SwapKeepsIndex(heapItems[..], heapIndices, bound, firstIndex, secondIndex);
      var firstItem := heapItems[firstIndex];
      var secondItem := heapItems[secondIndex];
      heapItems[firstIndex] := secondItem;
      heapItems[secondIndex] := firstItem;
      heapIndices := heapIndices[firstItem.item := secondIndex];
      heapIndices := heapIndices[secondItem.item := firstIndex];
    }

    /** `BinaryHeap.HeapifyUp` (base class): sift slot `k` up through `Swap`. */
    method HeapifyUp(k: nat, ghost bound: nat)
      requires size <= bound && Indexed(heapItems[..], heapIndices, bound)
      requires SiftUpInv(heapItems[..], size, k, heapType)
      modifies this`heapIndices, heapItems
      ensures Indexed(heapItems[..], heapIndices, bound)
      ensures HeapOrdered(heapItems[..], size, heapType)
      ensures Contents() == old(Contents())
      ensures heapItems[size..] == old(heapItems[size..])
    {
      var i := k;
      while i > 0 && Better(heapType, heapItems[i].value, heapItems[Parent(i)].value)
        invariant Indexed(heapItems[..], heapIndices, bound)
        invariant SiftUpInv(heapItems[..], size, i, heapType)
        invariant Contents() == old(Contents())
        invariant heapItems[size..] == old(heapItems[size..])
        decreases i
      {
        SiftUpStep(heapItems[..], size, i, heapType);
        Swap(i, Parent(i), bound);
        i := Parent(i);
      }
      SiftUpDone(heapItems[..], size, i, heapType);
    }

    /** `BinaryHeap.HeapifyDown` (base class): sift slot `k` down through `Swap`, towards its better child. */
    method HeapifyDown(k: nat, ghost bound: nat)
      requires size <= bound && Indexed(heapItems[..], heapIndices, bound)
      requires SiftDownInv(heapItems[..], size, k, heapType)
      modifies this`heapIndices, heapItems
      ensures Indexed(heapItems[..], heapIndices, bound)
      ensures HeapOrdered(heapItems[..], size, heapType)
      ensures Contents() == old(Contents())
      ensures heapItems[size..] == old(heapItems[size..])
    {
      var i := k;
      while 2 * i + 1 < size && Better(heapType, heapItems[BetterChild(heapItems[..], size, i, heapType)].value, heapItems[i].value)
        invariant Indexed(heapItems[..], heapIndices, bound)
        invariant SiftDownInv(heapItems[..], size, i, heapType)
        invariant Contents() == old(Contents())
        invariant heapItems[size..] == old(heapItems[size..])
        decreases size - i
      {
        var m := BetterChild(heapItems[..], size, i, heapType);
        SiftDownStep(heapItems[..], size, i, heapType);
        Swap(i, m, bound);
        i := m;
      }
      SiftDownDone(heapItems[..], size, i, heapType);
    }

    /**
     * `Add`: records the new item's slot as the current size, then appends the
     * slot and sifts it up (`base.Add`). An item already present would have its
     * index entry overwritten, so the item must be new.
     */
    method Add(item: T, value: int)
      requires Valid() && item !in Contents()
      modifies this, heapItems
      ensures Valid()
      ensures heapItems == old(heapItems) || fresh(heapItems)
      ensures size == old(size) + 1
      ensures Contents() == old(Contents())[item := value]
    {
      IndexedEntries(heapItems[..], heapIndices, size);
      heapIndices := heapIndices[item := size];
      // base.Add
      if size == heapItems.Length {
        ghost var previous := heapItems[..];
        Grow(HeapItem(item, value));
        PrefixKeepsIndex(previous, heapItems[..], old(heapIndices), size, heapType);
      }
      ghost var h := heapItems[..];
      AppendKeepsIndex(h, old(heapIndices), size, HeapItem(item, value));
      heapItems[size] := HeapItem(item, value);
      assert heapItems[..] == h[size := HeapItem(item, value)];
      size := size + 1;
      AppendStartsSiftUp(heapItems[..], size - 1, heapType);
      HeapifyUp(size - 1, size);
    }

    /** The base class's growth when the array is full: a longer fresh array with the same occupied slots. */
    method Grow(filler: HeapItem<T>)
      requires size <= heapItems.Length
      modifies this`heapItems
      ensures fresh(heapItems) && heapItems.Length == 2 * old(heapItems.Length) + 1
      ensures heapItems[..size] == old(heapItems[..size])
    {
      var previous := heapItems;
      var n := size;
      heapItems := new HeapItem<T>[2 * previous.Length + 1](j requires 0 <= j reads previous =>
        if j < n && j < previous.Length then previous[j] else filler);
      assert heapItems[..n] == previous[..n];
    }

    /** `GetValue`: the value stored for `item`, or `ArgumentException` when it is absent. */
    method GetValue(item: T) returns (r: Result<int, QueueError>)
      requires Valid()
      ensures item !in Contents() ==> r == Failure(ArgumentException)
      ensures item in Contents() ==> r == Success(Contents()[item])
    {
      IndexedEntries(heapItems[..], heapIndices, size);
      if item !in heapIndices {
        return Failure(ArgumentException);
      }
      var heapIndex := heapIndices[item];
      return Success(heapItems[heapIndex].value);
    }

    /**
     * `UpdateValue`: `ArgumentException` for an absent item; otherwise stores
     * the new value in the item's slot and sifts up when it is strictly better,
     * down otherwise (equal values included).
     */
    method UpdateValue(item: T, newValue: int) returns (r: Outcome<QueueError>)
      requires Valid()
      modifies this`heapIndices, heapItems
      ensures Valid()
      ensures old(item !in Contents()) ==> r == Fail(ArgumentException) && Contents() == old(Contents())
      ensures old(item in Contents()) ==> r == Pass && Contents() == old(Contents())[item := newValue]
    {
      IndexedEntries(heapItems[..], heapIndices, size);
      if item !in heapIndices {
        return Fail(ArgumentException);
      }
      var heapIndex := heapIndices[item];
      var currentValue := heapItems[heapIndex].value;
      ghost var h := heapItems[..];
      SetValueKeepsIndex(h, heapIndices, size, heapIndex, newValue);
      heapItems[heapIndex] := HeapItem(item, newValue);
      assert heapItems[..] == h[heapIndex := HeapItem(item, newValue)];
      if Better(heapType, newValue, currentValue) {
        ImprovedStartsSiftUp(h, size, heapIndex, HeapItem(item, newValue), heapType);
        HeapifyUp(heapIndex, size);
      } else {
        WorsenedStartsSiftDown(h, size, heapIndex, HeapItem(item, newValue), heapType);
        HeapifyDown(heapIndex, size);
      }
      return Pass;
    }

    /** A non-empty valid queue holds its best value in slot 0: every stored value follows it. */
    lemma TopIsBest()
      requires Valid() && size > 0
      ensures heapItems[0].item in Contents() && Contents()[heapItems[0].item] == heapItems[0].value
      ensures forall y :: y in Contents() ==> Precedes(heapType, heapItems[0].value, Contents()[y])
    {
      IndexedEntries(heapItems[..], heapIndices, size);
      forall y | y in Contents()
        ensures Precedes(heapType, heapItems[0].value, Contents()[y])
      {
        RootPrecedesAll(heapItems[..], size, heapType, heapIndices[y]);
      }
    }

    /** `PeekValue`: the value in slot 0, which precedes every stored value. */
    method PeekValue() returns (r: Result<int, QueueError>)
      requires Valid()
      ensures r.Failure? <==> Contents() == map[]
      ensures r.Failure? ==> r.error == EmptyHeap
      ensures r.Success? ==> 0 < size <= heapItems.Length && r.value == heapItems[0].value
      ensures r.Success? ==> exists x :: x in Contents() && Contents()[x] == r.value
      ensures r.Success? ==> forall y :: y in Contents() ==> Precedes(heapType, r.value, Contents()[y])
    {
      IndexedEntries(heapItems[..], heapIndices, size);
      if size == 0 {
        return Failure(EmptyHeap);
      }
      TopIsBest();
      return Success(heapItems[0].value);
    }

    /** `Peek`: the item in slot 0, whose value precedes every stored value. */
    method Peek() returns (r: Result<T, QueueError>)
      requires Valid()
      ensures r.Failure? <==> Contents() == map[]
      ensures r.Failure? ==> r.error == EmptyHeap
      ensures r.Success? ==> 0 < size <= heapItems.Length && r.value == heapItems[0].item
      ensures r.Success? ==> r.value in Contents()
      ensures r.Success? ==> forall y :: y in Contents() ==> Precedes(heapType, Contents()[r.value], Contents()[y])
    {
      IndexedEntries(heapItems[..], heapIndices, size);
      if size == 0 {
        return Failure(EmptyHeap);
      }
      TopIsBest();
      return Success(heapItems[0].item);
    }

    /**
     * `Take`: removes the item in slot 0 (`base.Take`: swap it with the last
     * slot, shrink, sift the new root down) and then drops its index entry, so
     * a later `GetValue` on it fails.
     */
    method Take() returns (r: Result<T, QueueError>)
      requires Valid()
      modifies this, heapItems
      ensures Valid() && heapItems == old(heapItems)
      ensures old(Contents()) == map[] ==> r == Failure(EmptyHeap) && Contents() == map[]
      ensures old(Contents()) != map[] ==> r.Success? && r.value in old(Contents())
      ensures r.Success? ==> 0 < old(size) <= heapItems.Length && r.value == old(heapItems[0].item)
      ensures r.Success? ==> forall y :: y in old(Contents()) ==> Precedes(heapType, old(Contents())[r.value], old(Contents())[y])
      ensures r.Success? ==> Contents() == old(Contents()) - {r.value} && size == old(size) - 1
    {
      IndexedEntries(heapItems[..], heapIndices, size);
      if size == 0 {
        return Failure(EmptyHeap);
      }
      TopIsBest();
      var first := heapItems[0].item;
      // base.Take
      RemoveRootStartsSiftDown(heapItems[..], size, heapType);
      Swap(0, size - 1, size);
      size := size - 1;
      HeapifyDown(0, size + 1);
      // drop the index entry of the taken item
      assert heapItems[size] == old(heapItems[0]);
      DropLastKeepsIndex(heapItems[..], heapIndices, size);
      heapIndices := heapIndices - {first};
      return Success(first);
    }

    /** `Clear`: empties both the index and the heap. */
    method Clear()
      requires Valid()
      modifies this
      ensures Valid() && heapItems == old(heapItems)
      ensures size == 0 && heapIndices == map[] && Contents() == map[]
    {
      heapIndices := map[];
      // base.Clear
      size := 0;
    }
  }

  /**
   * A caller's sequence of operations, stated only through `Contents()`: on an
   * empty min-queue, two adds followed by a take yield the item with the
   * smaller value and leave the other one in the queue with its value.
   */
  method AddTwiceThenTake<T(==,0)>(q: PriorityQ<T>, a: T, b: T) returns (r: Result<T, QueueError>)
    requires q.Valid() && q.heapType == MinHeap && q.Contents() == map[] && a != b
    modifies q, q.heapItems
    ensures q.Valid() && q.Contents() == map[b := 2]
    ensures r == Success(a)
  {
    q.Add(a, 1);
    q.Add(b, 2);
    ghost var before := q.Contents();
    assert before == map[a := 1, b := 2];
    r := q.Take();
    assert r.value in before && Precedes(MinHeap, before[r.value], before[b]);
  }

  /**
   * `Peek` and `Take` both answer slot 0, so on a non-empty queue `Take`
   * removes the very item that `Peek` has just returned, ties included.
   */
  method PeekThenTake<T(==,0)>(q: PriorityQ<T>) returns (p: Result<T, QueueError>, t: Result<T, QueueError>)
    requires q.Valid()
    modifies q, q.heapItems
    ensures p.Success? <==> old(q.Contents()) != map[]
    ensures p.Success? ==> t == p && q.Contents() == old(q.Contents()) - {p.value}
  {
    p := q.Peek();
    t := q.Take();
  }
}
