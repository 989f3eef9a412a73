// The binary min-heap of Heap/Heap.py: a Python list of nodes kept in heap
// order by key, where the children of index i sit at 2i+1 and 2i+2. The
// list grows and shrinks, so the model keeps it as a sequence field that the
// methods reassign; swaps are sequence updates.

module MinHeap {
  import opened Wrappers

  /** A heap node (Heap/Heap.py:6-19): a key and the value it carries. */
  datatype Item<V> = Item(key: int, val: V)

  // ---------------------------------------------------------------------
  // Index arithmetic (Heap/Heap.py:56-66)
  // ---------------------------------------------------------------------

  /** `(idx - 1) // 2`. Python floors, and so does Dafny's division by a
      positive number, so the root's parent is -1 as in the source. */
  function Parent(idx: int): int { (idx - 1) / 2 }

  function Left(idx: int): int { idx * 2 + 1 }

  function Right(idx: int): int { idx * 2 + 2 }

  /** Both children of `i` have `i` as parent, every index but the root is a
      child of its parent, and a parent comes before its child. */
  lemma ParentChild(i: int)
    ensures Parent(Left(i)) == i && Parent(Right(i)) == i
    ensures i > 0 ==> (i == Left(Parent(i)) || i == Right(Parent(i))) && 0 <= Parent(i) < i
    ensures i == 0 ==> Parent(i) == -1
  {
  }

  /** A larger index never has a smaller parent. */
  lemma ParentMonotone(i: int, j: int)
    requires i <= j
    ensures Parent(i) <= Parent(j)
  {
  }

  // ---------------------------------------------------------------------
  // Heap order
  // ---------------------------------------------------------------------

  /** Every element whose parent is at index `lo` or later has a key no
      smaller than its parent's, except for the children of `skip`. */
  ghost predicate OrderedBut<V>(h: seq<Item<V>>, lo: int, skip: int)
  {
    forall c :: 0 < c < |h| && lo <= Parent(c) && Parent(c) != skip ==> h[Parent(c)].key <= h[c].key
  }

  /** The whole sequence is in heap order. */
  ghost predicate HeapOrdered<V>(h: seq<Item<V>>)
  {
    OrderedBut(h, 0, -1)
  }

  /** The parent of `i` (when it is at `lo` or later) is no larger than the
      children of `i`: once `i` is fixed, its children are in order
      with it. */
  ghost predicate Bridge<V>(h: seq<Item<V>>, lo: int, i: int)
  {
    0 < i < |h| && lo <= Parent(i) ==>
      (Left(i) < |h| ==> h[Parent(i)].key <= h[Left(i)].key) &&
      (Right(i) < |h| ==> h[Parent(i)].key <= h[Right(i)].key)
  }

  /** Heap order where only the link from `i` up to its parent may be
      broken. */
  ghost predicate OrderedAbove<V>(h: seq<Item<V>>, i: int)
  {
    forall c :: 0 < c < |h| && c != i ==> h[Parent(c)].key <= h[c].key
  }

  /** The root of a heap holds a minimal key. */
  lemma {:induction false} RootIsMin<V>(h: seq<Item<V>>, i: int)
    requires HeapOrdered(h) && 0 <= i < |h|
    ensures h[0].key <= h[i].key
    decreases i
  {
    if i > 0 {
      ParentChild(i);
      RootIsMin(h, Parent(i));
    }
  }

  /** Exchanging two elements. */
  function Swap<V>(h: seq<Item<V>>, i: int, j: int): (r: seq<Item<V>>)
    requires 0 <= i < |h| && 0 <= j < |h|
    ensures |r| == |h| && r[i] == h[j] && r[j] == h[i]
    ensures forall k :: 0 <= k < |h| && k != i && k != j ==> r[k] == h[k]
  {
    h[i := h[j]][j := h[i]]
  }

  /** A swap keeps the multiset of nodes. */
  lemma SwapPerm<V>(h: seq<Item<V>>, i: int, j: int)
    requires 0 <= i < |h| && 0 <= j < |h|
    ensures multiset(Swap(h, i, j)) == multiset(h)
  {
    var m := h[i := h[j]];
    assert multiset(m) == multiset(h) - multiset{h[i]} + multiset{h[j]};
    assert multiset(m[j := h[i]]) == multiset(m) - multiset{m[j]} + multiset{h[i]};
  }

  /** `__get_smaller_child_idx` (Heap/Heap.py:86-95): the index among `idx`
      and its children in range whose key is smallest, keeping `idx` on a
      tie with it and the left child on a tie between the children. */
  function SmallerChild<V>(h: seq<Item<V>>, idx: int): (r: int)
    requires 0 <= idx
    ensures r == idx || (r == Left(idx) && r < |h|) || (r == Right(idx) && r < |h|)
    ensures r != idx ==> idx < |h| && h[r].key < h[idx].key
    ensures r == idx && idx < |h| ==>
      (Left(idx) < |h| ==> h[idx].key <= h[Left(idx)].key) &&
      (Right(idx) < |h| ==> h[idx].key <= h[Right(idx)].key)
    ensures r == Left(idx) ==> Right(idx) < |h| ==> h[r].key <= h[Right(idx)].key
    ensures r == Right(idx) ==> h[r].key < h[Left(idx)].key
  {
    var l, rt := Left(idx), Right(idx);
    var s := if l < |h| && h[l].key < h[idx].key then l else idx;
    if rt < |h| && h[rt].key < h[s].key then rt else s
  }

  /** A swap of `i` with its smaller child keeps order away from that
      child, and moves the one remaining gap down to it. */
  lemma SiftDownStep<V>(h: seq<Item<V>>, lo: int, i: int, m: int)
    requires 0 <= lo <= i < m < |h| && m == SmallerChild(h, i)
    requires OrderedBut(h, lo, i) && Bridge(h, lo, i)
    ensures OrderedBut(Swap(h, i, m), lo, m) && Bridge(Swap(h, i, m), lo, m)
  {
    var g := Swap(h, i, m);
    ParentChild(i);
    ParentChild(m);
    forall c | 0 < c < |g| && lo <= Parent(c) && Parent(c) != m
      ensures g[Parent(c)].key <= g[c].key
    {
      ParentChild(c);
      var p := Parent(c);
      if p == i {
        // the other child of i, or m itself
        assert c == m || h[m].key <= h[c].key;
      } else if c == i {
        assert Bridge(h, lo, i);
      }
    }
    var a, b := Left(m), Right(m);
    if a < |h| {
      assert h[Parent(a)].key <= h[a].key;
    }
    if b < |h| {
      assert h[Parent(b)].key <= h[b].key;
    }
  }

  /** Where `i` is already no larger than its children, there is no gap
      left. */
  lemma SiftDownDone<V>(h: seq<Item<V>>, lo: int, i: int)
    requires 0 <= lo <= i && SmallerChild(h, i) == i
    requires OrderedBut(h, lo, i)
    ensures OrderedBut(h, lo, -1)
  {
    forall c | 0 < c < |h| && lo <= Parent(c)
      ensures h[Parent(c)].key <= h[c].key
    {
      ParentChild(c);
    }
  }

  /** Swapping `i` with a larger parent moves the only break up to the
      parent. */
  lemma SiftUpStep<V>(h: seq<Item<V>>, i: int)
    requires 0 < i < |h| && OrderedAbove(h, i) && Bridge(h, 0, i)
    requires h[Parent(i)].key > h[i].key
    ensures OrderedAbove(Swap(h, i, Parent(i)), Parent(i)) && Bridge(Swap(h, i, Parent(i)), 0, Parent(i))
  {
    var p := Parent(i);
    var g := Swap(h, i, p);
    ParentChild(i);
    ParentChild(p);
    forall c | 0 < c < |g| && c != p
      ensures g[Parent(c)].key <= g[c].key
    {
      ParentChild(c);
      if Parent(c) == i {
        assert Bridge(h, 0, i);
      } else if Parent(c) == p && c != i {
        assert h[p].key <= h[c].key;
      }
    }
    if p > 0 {
      assert h[Parent(p)].key <= h[p].key;
      var a, b := Left(p), Right(p);
      if a < |h| && a != i {
        assert h[Parent(a)].key <= h[a].key;
      }
      if b < |h| && b != i {
        assert h[Parent(b)].key <= h[b].key;
      }
    }
  }

  /** With the parent no larger than `i` (or `i` at the root), the order is
      whole. */
  lemma SiftUpDone<V>(h: seq<Item<V>>, i: int)
    requires 0 <= i < |h| && OrderedAbove(h, i)
    requires i > 0 ==> h[Parent(i)].key <= h[i].key
    ensures HeapOrdered(h)
  {
    forall c | 0 < c < |h| && 0 <= Parent(c)
      ensures h[Parent(c)].key <= h[c].key
    {
    }
  }

  /** Removing the last element of a heap keeps the rest a heap, and
      moving the last element to the root leaves only the root's
      children to fix. */
  lemma MoveLastToRoot<V>(h: seq<Item<V>>)
    requires HeapOrdered(h) && |h| > 0
    ensures var g := Swap(h, |h| - 1, 0)[..|h| - 1];
      OrderedBut(g, 0, 0) && Bridge(g, 0, 0)
  {
    var n := |h| - 1;
    var g := Swap(h, n, 0)[..n];
    forall c | 0 < c < |g| && 0 <= Parent(c) && Parent(c) != 0
      ensures g[Parent(c)].key <= g[c].key
    {
      ParentChild(c);
    }
  }

  /** A fresh last element leaves only its own link up to check. */
  lemma AppendOrdered<V>(h: seq<Item<V>>, x: Item<V>)
    requires HeapOrdered(h)
    ensures OrderedAbove(h + [x], |h|) && Bridge(h + [x], 0, |h|)
  {
    var g := h + [x];
    forall c | 0 < c < |g| && c != |h|
      ensures g[Parent(c)].key <= g[c].key
    {
      ParentChild(c);
    }
    ParentChild(|h|);
  }

  class Heap<V> {
    /** `self.heap`: the nodes in heap layout. */
    var heap: seq<Item<V>>

    ghost predicate Valid()
      reads this
    {
      HeapOrdered(heap)
    }

    /** `Heap(values)`: the heap holds exactly the given nodes, in heap
        order. */
    constructor(values: seq<Item<V>>)
      ensures Valid() && multiset(heap) == multiset(values)
    {
      heap := [];
      new;
      BuildHeap(values);
    }

    /** `_build_heap` (Heap/Heap.py:36-54): the nodes are appended one by
        one, then every index that has a child is sifted down, the last
        one first. */
    method BuildHeap(values: seq<Item<V>>)
      requires heap == []
      modifies this
      ensures Valid() && multiset(heap) == multiset(values)
    {
      var lastIdx := |values| - 1;
      var startFrom := Parent(lastIdx);
      var k := 0;
      while k < |values|
        invariant 0 <= k <= |values| && heap == values[..k]
      {
        heap := heap + [values[k]];
        k := k + 1;
      }
      assert heap == values;
      var i := startFrom;
      while i >= 0
        invariant -1 <= i <= startFrom && |heap| == |values|
        invariant OrderedBut(heap, i + 1, -1) && multiset(heap) == multiset(values)
      {
        // nothing at or after i has a gap yet but i itself
        forall c | 0 < c < |heap| && i <= Parent(c) && Parent(c) != i
          ensures heap[Parent(c)].key <= heap[c].key
        {
        }
        ParentChild(i);
        HeapDown(i, i);
        i := i - 1;
      }
      OrderedFromTop(heap, startFrom);
    }

    /** `_heap_down(idx)` (Heap/Heap.py:68-74): while a child of `idx` is
        smaller, swap with the smaller child and go on from there. Given
        order from `lo` on but below `idx`, it restores order from `lo` on
        and only moves nodes around. */
    method HeapDown(idx: int, ghost lo: int)
      requires 0 <= lo <= idx && OrderedBut(heap, lo, idx) && Bridge(heap, lo, idx)
      modifies this
      ensures OrderedBut(heap, lo, -1)
      ensures |heap| == old(|heap|) && multiset(heap) == old(multiset(heap))
      decreases |heap| - idx
    {
      var smaller := SmallerChild(heap, idx);
      if smaller != idx {
        ParentChild(idx);
        SiftDownStep(heap, lo, idx, smaller);
        SwapPerm(heap, idx, smaller);
        heap := Swap(heap, idx, smaller);
        HeapDown(smaller, lo);
      } else {
        SiftDownDone(heap, lo, idx);
      }
    }

    /** `_heap_top(idx)` (Heap/Heap.py:76-82): while the parent of `idx` is
        larger, swap with it and go on from the parent. Given order
        everywhere but the link from `idx` up, it restores heap order. */
    method HeapTop(idx: int)
      requires 0 <= idx < |heap| && OrderedAbove(heap, idx) && Bridge(heap, 0, idx)
      modifies this
      ensures HeapOrdered(heap)
      ensures |heap| == old(|heap|) && multiset(heap) == old(multiset(heap))
      decreases idx
    {
      var parentIdx := Parent(idx);
      ParentChild(idx);
      if parentIdx >= 0 && heap[parentIdx].key > heap[idx].key {
        SiftUpStep(heap, idx);
        SwapPerm(heap, idx, parentIdx);
        heap := Swap(heap, idx, parentIdx);
        HeapTop(parentIdx);
      } else {
        SiftUpDone(heap, idx);
      }
    }

    /** `min` (Heap/Heap.py:98-107): the root, which has a minimal key, or
        `None` on an empty heap. */
    function Min(): (r: Option<Item<V>>)
      requires Valid()
      reads this
      ensures r.None? <==> |heap| == 0
      ensures r.Some? ==> r.value in multiset(heap) && forall x :: x in heap ==> r.value.key <= x.key
    {
      if |heap| > 0 then
        MinIsLeast(heap);
        Some(heap[0])
      else None
    }

    /** `extract_min` (Heap/Heap.py:109-126): on an empty heap nothing
        changes and the result is `None`; otherwise the root comes out and
        the rest stays a heap of the other nodes. */
    method ExtractMin() returns (r: Option<Item<V>>)
      requires Valid()
      modifies this
      ensures Valid()
      ensures old(|heap|) == 0 ==> r.None? && heap == old(heap)
      ensures old(|heap|) > 0 ==>
        r == Some(old(heap)[0]) && |heap| == old(|heap|) - 1 &&
        multiset(heap) + multiset{r.value} == old(multiset(heap)) &&
        forall x :: x in old(heap) ==> r.value.key <= x.key
    {
      if |heap| > 0 {
        MinIsLeast(heap);
        var last := |heap| - 1;
        MoveLastToRoot(heap);
        SwapPerm(heap, last, 0);
        heap := Swap(heap, last, 0);
        var minimum := heap[last];
        assert heap == heap[..last] + [minimum];
        heap := heap[..last];
        HeapDown(0, 0);
        r := Some(minimum);
      } else {
        r := None;
      }
    }

    /** `insert(node)` (Heap/Heap.py:128-141): the node joins at the end and
        sifts up. */
    method Insert(node: Item<V>)
      requires Valid()
      modifies this
      ensures Valid()
      ensures |heap| == old(|heap|) + 1 && multiset(heap) == old(multiset(heap)) + multiset{node}
    {
      AppendOrdered(heap, node);
      heap := heap + [node];
      HeapTop(|heap| - 1);
    }

    /** `is_empty` (Heap/Heap.py:143-155): exactly when `min` finds
        nothing. */
    function IsEmpty(): (r: bool)
      requires Valid()
      reads this
      ensures r <==> Min().None?
    {
      |heap| == 0
    }

    /** `__check_ri` (Heap/Heap.py:169-180), with a failed assertion as
        `false`: every index that has a child, the last one first, is
        compared with its children in range. It passes exactly on heap
        order. */
    method CheckRi() returns (ok: bool)
      ensures ok <==> HeapOrdered(heap)
    {
      var lastIdx := |heap| - 1;
      var startFrom := Parent(lastIdx);
      var i := startFrom;
      OrderedFromTop(heap, startFrom);
      while i >= 0
        invariant -1 <= i <= startFrom
        invariant OrderedBut(heap, i + 1, -1)
      {
        var l := Left(i);
        if l <= lastIdx && heap[i].key > heap[l].key {
          ParentChild(i);
          return false;
        }
        var r := Right(i);
        if r <= lastIdx && heap[i].key > heap[r].key {
          ParentChild(i);
          return false;
        }
        forall c | 0 < c < |heap| && i <= Parent(c)
          ensures heap[Parent(c)].key <= heap[c].key
        {
          ParentChild(c);
        }
        i := i - 1;
      }
      return true;
    }
  }

  /** Nothing after the parent of the last index has a child. */
  lemma OrderedFromTop<V>(h: seq<Item<V>>, top: int)
    requires top == Parent(|h| - 1)
    ensures OrderedBut(h, top + 1, -1)
  {
    forall c | 0 < c < |h|
      ensures Parent(c) <= top
    {
      ParentMonotone(c, |h| - 1);
    }
  }

  /** The root of a heap is a node with a minimal key. */
  lemma MinIsLeast<V>(h: seq<Item<V>>)
    requires HeapOrdered(h) && |h| > 0
    ensures h[0] in multiset(h) && forall x :: x in h ==> h[0].key <= x.key
  {
    forall x | x in h ensures h[0].key <= x.key {
      var i :| 0 <= i < |h| && h[i] == x;
      RootIsMin(h, i);
    }
  }
}
