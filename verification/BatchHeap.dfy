/** The indirect max-heap of batch verification: a permutation of scalar indices. */
module BatchHeap {
  import opened Modm64
  import opened ModmBatch

  /** Scalars and points of a batch, and the heap of their indices. */
  class Heap<T> {
    const scalars: array<Limbs>
    const points: array<T>
    const heap: array<nat>
    var size: nat

    constructor (scalars: array<Limbs>, points: array<T>, heap: array<nat>)
      ensures this.scalars == scalars && this.points == points && this.heap == heap && size == 0
    {
      this.scalars, this.points, this.heap := scalars, points, heap;
      size := 0;
    }

    ghost predicate Shape()
      reads this, scalars
    {
      scalars.Length == points.Length == heap.Length && size <= heap.Length
      && forall i :: 0 <= i < scalars.Length ==> Proper(scalars[i])
    }
  }

  function Parent(i: int): int {
    (i - 1) / 2
  }

  function Identity(n: nat): seq<nat> {
    seq(n, i => i)
  }

  /** The first size entries are a permutation of 0 .. size - 1. */
  ghost predicate Permutation(h: seq<nat>, size: nat) {
    size <= |h| && multiset(h[..size]) == multiset(Identity(size))
    && (forall i :: 0 <= i < size ==> h[i] < size)
    && (forall i, j :: 0 <= i < j < size ==> h[i] != h[j])
  }

  /** No entry has a larger key than its parent, except possibly entries at skip and below skip. */
  ghost predicate Ordered(h: seq<nat>, size: nat, keys: seq<int>, up: int, down: int)
    requires size <= |h| && forall i :: 0 <= i < size ==> h[i] < |keys|
  {
    (forall i :: 1 <= i < size && i != up && Parent(i) != down ==> keys[h[Parent(i)]] >= keys[h[i]])
  }

  /** Grandparents dominate where a node is out of order. */
  ghost predicate Bridged(h: seq<nat>, size: nat, keys: seq<int>, node: int)
    requires size <= |h| && forall i :: 0 <= i < size ==> h[i] < |keys|
  {
    forall i :: 1 <= i < size && Parent(i) == node && node >= 1 ==> keys[h[Parent(node)]] >= keys[h[i]]
  }

  function Keys(s: seq<Limbs>, n: nat): (k: seq<int>)
    requires n <= 5
    ensures |k| == |s|
  {
    seq(|s|, i requires 0 <= i < |s| => Low(s[i], n))
  }

  method Swap(h: array<nat>, a: nat, b: nat)
    requires a < h.Length && b < h.Length
    modifies h
    ensures h[..] == old(h[..][a := h[b]][b := h[a]])
  {
    var temp := h[a];
    h[a] := h[b];
    h[b] := temp;
  }

  lemma SwapKeepsPermutation(h: seq<nat>, size: nat, a: nat, b: nat)
    requires Permutation(h, size) && a < size && b < size
    ensures Permutation(h[a := h[b]][b := h[a]], size)
  {
    var t := h[a := h[b]][b := h[a]];
    var s := h[..size];
    assert t[..size] == s[a := s[b]][b := s[a]];
  }

  lemma AppendKeepsPermutation(h: seq<nat>, size: nat)
    requires Permutation(h, size) && size < |h|
    ensures Permutation(h[size := size], size + 1)
  {
    var t := h[size := size];
    assert t[..size + 1] == h[..size] + [size];
    assert Identity(size + 1) == Identity(size) + [size];
  }

  /** Inserts the next scalar by sifting it up on full-width keys. */
  method InsertNext<T>(heap: Heap<T>)
    requires heap.Shape() && heap.size < heap.heap.Length
    requires MaxHeap(heap.heap[..], heap.size, Keys(heap.scalars[..], 5))
    modifies heap`size, heap.heap
    ensures heap.Shape() && heap.size == old(heap.size) + 1
    ensures MaxHeap(heap.heap[..], heap.size, Keys(heap.scalars[..], 5))
  {
    var node := heap.size;
    AppendAtBottom(heap.heap[..], node, Keys(heap.scalars[..], 5));
    heap.heap[node] := node;
    SiftUp(heap, node);
    heap.size := heap.size + 1;
  }

  /** Lifts the entry at the bottom while its parent is smaller. */
  method SiftUp<T>(heap: Heap<T>, bottom: nat)
    requires heap.Shape() && bottom == heap.size < heap.heap.Length
    requires Sifting(heap.heap[..], bottom + 1, Keys(heap.scalars[..], 5), bottom)
    modifies heap.heap
    ensures heap.Shape() && MaxHeap(heap.heap[..], bottom + 1, Keys(heap.scalars[..], 5))
  {
    hide Ordered, Bridged, Permutation;
    ghost var keys := Keys(heap.scalars[..], 5);
    var pheap := heap.heap;
    ghost var n := bottom + 1;
    var node := bottom;
    var parent := if node == 0 then 0x7fff_ffff_ffff_ffff else (node - 1) / 2;
    var less := false;
    InRange(pheap[..], n);
    if node != 0 {
      less := LessAt(heap, parent, node, 4);
    }
    while node != 0 && less
      invariant heap.Shape() && heap.size == bottom && 0 <= node < n
      invariant Sifting(pheap[..], n, keys, node)
      invariant node != 0 ==>
        parent == Parent(node) && less == (KeyAt(pheap[..], keys, parent) < KeyAt(pheap[..], keys, node))
    {
      SiftUpStep(pheap[..], n, keys, node);
      Swap(pheap, parent, node);
      InRange(pheap[..], n);
      node := parent;
      if node != 0 {
        parent := (node - 1) / 2;
        less := LessAt(heap, parent, node, 4);
      }
    }
    Settled(pheap[..], n, keys, node);
  }

  /** The key of the scalar at a heap position. */
  function KeyAt(h: seq<nat>, keys: seq<int>, i: int): int {
    if 0 <= i < |h| && h[i] < |keys| then keys[h[i]] else 0
  }

  lemma InRange(h: seq<nat>, size: nat)
    requires Permutation(h, size)
    ensures size <= |h| && forall i :: 0 <= i < size ==> h[i] < size
  {
  }

  /** Compares the keys of two heap entries on limbsize + 1 limbs. */
  method LessAt<T>(heap: Heap<T>, a: nat, b: nat, limbsize: nat) returns (r: bool)
    requires heap.Shape() && a < heap.heap.Length && b < heap.heap.Length && limbsize <= 4
    requires heap.heap[a] < heap.scalars.Length && heap.heap[b] < heap.scalars.Length
    ensures var keys := Keys(heap.scalars[..], limbsize + 1);
      r == (KeyAt(heap.heap[..], keys, a) < KeyAt(heap.heap[..], keys, b))
  {
    r := Lt256Batch(heap.scalars[heap.heap[a]], heap.scalars[heap.heap[b]], limbsize);
  }

  /** A permutation of the indices with the keys in heap order. */
  ghost predicate MaxHeap(h: seq<nat>, size: nat, keys: seq<int>) {
    Permutation(h, size) && size <= |keys| && Ordered(h, size, keys, -1, -1)
  }

  /** A heap with one entry on its way up. */
  ghost predicate Sifting(h: seq<nat>, size: nat, keys: seq<int>, node: int) {
    Permutation(h, size) && size <= |keys| && Ordered(h, size, keys, node, -1) && Bridged(h, size, keys, node)
  }

  lemma AppendAtBottom(h: seq<nat>, size: nat, keys: seq<int>)
    requires MaxHeap(h, size, keys) && size < |h| && size < |keys|
    ensures Sifting(h[size := size], size + 1, keys, size)
  {
    AppendKeepsPermutation(h, size);
  }

  lemma Settled(h: seq<nat>, size: nat, keys: seq<int>, node: nat)
    requires Sifting(h, size, keys, node) && node < size
    requires node != 0 ==> KeyAt(h, keys, Parent(node)) >= KeyAt(h, keys, node)
    ensures MaxHeap(h, size, keys)
  {
  }

  /** Exchanging a node with a parent that is not larger moves the disorder up. */
  lemma SiftUpStep(h: seq<nat>, n: nat, keys: seq<int>, node: nat)
    requires Sifting(h, n, keys, node) && 0 < node < n
    requires KeyAt(h, keys, Parent(node)) <= KeyAt(h, keys, node)
    ensures Sifting(h[Parent(node) := h[node]][node := h[Parent(node)]], n, keys, Parent(node))
  {
    SwapKeepsPermutation(h, n, Parent(node), node);
    SiftUpOrder(h, n, keys, node);
    hide Permutation, Ordered, Bridged;
  }

  lemma SiftUpOrder(h: seq<nat>, n: nat, keys: seq<int>, node: nat)
    requires n <= |h| && (forall i :: 0 <= i < n ==> h[i] < |keys|) && 0 < node < n
    requires Ordered(h, n, keys, node, -1) && Bridged(h, n, keys, node)
    requires keys[h[Parent(node)]] <= keys[h[node]]
    ensures var t := h[Parent(node) := h[node]][node := h[Parent(node)]];
      (forall i :: 0 <= i < n ==> t[i] < |keys|) && Ordered(t, n, keys, Parent(node), -1)
        && Bridged(t, n, keys, Parent(node))
  {
  }

  // ----- repair after the root has shrunk -----

  /** A heap with one entry on its way down: its own order and its children's are open. */
  ghost predicate Sinking(h: seq<nat>, size: nat, keys: seq<int>, node: int) {
    Permutation(h, size) && size <= |keys| && Ordered(h, size, keys, node, node) && Bridged(h, size, keys, node)
  }

  lemma SinkStep(h: seq<nat>, n: nat, keys: seq<int>, p: nat, c: nat)
    requires Sinking(h, n, keys, p) && 2 * p + 2 < n
    requires KeyAt(h, keys, 2 * p + 1) < KeyAt(h, keys, 2 * p + 2) ==> c == 2 * p + 2
    requires KeyAt(h, keys, 2 * p + 1) >= KeyAt(h, keys, 2 * p + 2) ==> c == 2 * p + 1
    ensures Sinking(h[p := h[c]][c := h[p]], n, keys, c)
  {
    SwapKeepsPermutation(h, n, p, c);
    SinkOrder(h, n, keys, p, c);
    hide Permutation, Ordered, Bridged;
  }

  lemma SinkOrder(h: seq<nat>, n: nat, keys: seq<int>, p: nat, c: nat)
    requires n <= |h| && (forall i :: 0 <= i < n ==> h[i] < |keys|) && 2 * p + 2 < n
    requires Ordered(h, n, keys, p, p) && Bridged(h, n, keys, p)
    requires c == (if keys[h[2 * p + 1]] < keys[h[2 * p + 2]] then 2 * p + 2 else 2 * p + 1)
    ensures var t := h[p := h[c]][c := h[p]];
      (forall i :: 0 <= i < n ==> t[i] < |keys|) && Ordered(t, n, keys, c, c) && Bridged(t, n, keys, c)
  {
  }

  lemma AtTheBottom(h: seq<nat>, n: nat, keys: seq<int>, p: nat)
    requires Sinking(h, n, keys, p) && n <= 2 * p + 1
    ensures Sifting(h, n, keys, p)
  {
  }

  /** Sinks the changed root to the bottom along the larger children, then lifts it to its
      place.  With an odd number of entries every inner node has two children. */
  method UpdatedRoot<T>(heap: Heap<T>, limbsize: nat)
    requires heap.Shape() && limbsize <= 4 && heap.size % 2 == 1 && heap.size >= 3
    requires Sinking(heap.heap[..], heap.size, Keys(heap.scalars[..], limbsize + 1), 0)
    modifies heap.heap
    ensures heap.Shape() && MaxHeap(heap.heap[..], heap.size, Keys(heap.scalars[..], limbsize + 1))
  {
    hide Ordered, Bridged, Permutation;
    ghost var keys := Keys(heap.scalars[..], limbsize + 1);
    var pheap := heap.heap;
    ghost var n := heap.size;
    var parent, node, childl, childr := 0, 1, 1, 2;
    InRange(pheap[..], n);
    while childr < heap.size
      invariant heap.Shape() && 0 <= parent < n && childl == 2 * parent + 1 && childr == childl + 1
      invariant Sinking(pheap[..], n, keys, parent)
      invariant node == if parent == 0 then 1 else parent
      decreases n - parent
    {
      InRange(pheap[..], n);
      var less := LessAt(heap, childl, childr, limbsize);
      node := if less then childr else childl;
      SinkStep(pheap[..], n, keys, parent, node);
      Swap(pheap, parent, node);
      parent := node;
      childl := parent * 2 + 1;
      childr := childl + 1;
    }
    AtTheBottom(pheap[..], n, keys, node);
    Rise(heap, node, limbsize);
  }

  /** Lifts an entry while its parent is not larger. */
  method Rise<T>(heap: Heap<T>, start: nat, limbsize: nat)
    requires heap.Shape() && limbsize <= 4 && start < heap.size
    requires Sifting(heap.heap[..], heap.size, Keys(heap.scalars[..], limbsize + 1), start)
    modifies heap.heap
    ensures heap.Shape() && MaxHeap(heap.heap[..], heap.size, Keys(heap.scalars[..], limbsize + 1))
  {
    hide Ordered, Bridged, Permutation;
    ghost var keys := Keys(heap.scalars[..], limbsize + 1);
    var pheap := heap.heap;
    ghost var n := heap.size;
    var node := start;
    var parent := if node == 0 then 0x7fff_ffff_ffff_ffff else (node - 1) / 2;
    var above := false;
    InRange(pheap[..], n);
    if node != 0 {
      above := NotAbove(heap, parent, node, limbsize);
    }
    while node != 0 && above
      invariant heap.Shape() && 0 <= node < n
      invariant Sifting(pheap[..], n, keys, node)
      invariant node != 0 ==>
        parent == Parent(node) && above == (KeyAt(pheap[..], keys, parent) <= KeyAt(pheap[..], keys, node))
    {
      SiftUpStep(pheap[..], n, keys, node);
      Swap(pheap, parent, node);
      InRange(pheap[..], n);
      node := parent;
      if node != 0 {
        parent := (node - 1) / 2;
        above := NotAbove(heap, parent, node, limbsize);
      }
    }
    Settled(pheap[..], n, keys, node);
  }

  method NotAbove<T>(heap: Heap<T>, a: nat, b: nat, limbsize: nat) returns (r: bool)
    requires heap.Shape() && a < heap.heap.Length && b < heap.heap.Length && limbsize <= 4
    requires heap.heap[a] < heap.scalars.Length && heap.heap[b] < heap.scalars.Length
    ensures var keys := Keys(heap.scalars[..], limbsize + 1);
      r == (KeyAt(heap.heap[..], keys, a) <= KeyAt(heap.heap[..], keys, b))
  {
    r := Lte256Batch(heap.scalars[heap.heap[a]], heap.scalars[heap.heap[b]], limbsize);
  }

  // ----- building, extending and reading the heap -----

  lemma EmptyHeap(h: seq<nat>, keys: seq<int>)
    ensures MaxHeap(h, 0, keys)
  {
    assert h[..0] == Identity(0);
  }

  method Build<T>(heap: Heap<T>, count: nat)
    requires heap.scalars.Length == heap.points.Length == heap.heap.Length && 0 < count <= heap.heap.Length
    requires forall i :: 0 <= i < heap.scalars.Length ==> Proper(heap.scalars[i])
    modifies heap`size, heap.heap
    ensures heap.Shape() && heap.size == count
    ensures MaxHeap(heap.heap[..], heap.size, Keys(heap.scalars[..], 5))
  {
    heap.heap[0] := 0;
    heap.size := 0;
    EmptyHeap(heap.heap[..], Keys(heap.scalars[..], 5));
    hide MaxHeap;
    while heap.size < count
      invariant heap.Shape() && heap.size <= count
      invariant MaxHeap(heap.heap[..], heap.size, Keys(heap.scalars[..], 5))
    {
      InsertNext(heap);
    }
  }

  method Extend<T>(heap: Heap<T>, newCount: nat)
    requires heap.Shape() && heap.size <= newCount <= heap.heap.Length
    requires MaxHeap(heap.heap[..], heap.size, Keys(heap.scalars[..], 5))
    modifies heap`size, heap.heap
    ensures heap.Shape() && heap.size == newCount
    ensures MaxHeap(heap.heap[..], heap.size, Keys(heap.scalars[..], 5))
  {
    hide MaxHeap;
    while heap.size < newCount
      invariant heap.Shape() && heap.size <= newCount
      invariant MaxHeap(heap.heap[..], heap.size, Keys(heap.scalars[..], 5))
    {
      InsertNext(heap);
    }
  }

  /** The indices of the two largest keys. */
  method GetTop2<T>(heap: Heap<T>, limbsize: nat) returns (max1: nat, max2: nat)
    requires heap.Shape() && heap.size >= 3 && limbsize <= 4
    requires MaxHeap(heap.heap[..], heap.size, Keys(heap.scalars[..], limbsize + 1))
    ensures max1 == heap.heap[0] && max1 < heap.size && max2 < heap.size && max1 != max2
    ensures var keys := Keys(heap.scalars[..], limbsize + 1);
      (forall i :: 0 <= i < heap.size ==> keys[i] <= keys[max1])
      && (forall i :: 0 <= i < heap.size && i != max1 ==> keys[i] <= keys[max2])
  {
    var h0, h1, h2 := heap.heap[0], heap.heap[1], heap.heap[2];
    ghost var keys := Keys(heap.scalars[..], limbsize + 1);
    var less := Lt256Batch(heap.scalars[h1], heap.scalars[h2], limbsize);
    if less {
      h1 := h2;
    }
    RootIsLargest(heap.heap[..], heap.size, keys);
    max1, max2 := h0, h1;
  }

  /** Every position holds a key at most that of position 1 or 2 above it, and of the root. */
  lemma {:induction false} Dominated(h: seq<nat>, size: nat, keys: seq<int>, i: nat)
    requires MaxHeap(h, size, keys) && i < size && size >= 3
    ensures keys[h[i]] <= keys[h[0]]
    ensures i > 0 ==> keys[h[i]] <= keys[h[1]] || keys[h[i]] <= keys[h[2]]
  {
    if i > 0 {
      Dominated(h, size, keys, Parent(i));
      assert keys[h[Parent(i)]] >= keys[h[i]];
    }
  }

  /** Every index below size occurs in the heap. */
  lemma Occurs(h: seq<nat>, size: nat, j: nat)
    requires Permutation(h, size) && j < size
    ensures exists i :: 0 <= i < size && h[i] == j
  {
    assert Identity(size)[j] == j;
    assert j in multiset(Identity(size));
    assert j in multiset(h[..size]);
    var i :| 0 <= i < size && h[..size][i] == j;
    assert h[i] == j;
  }

  lemma RootIsLargest(h: seq<nat>, size: nat, keys: seq<int>)
    requires MaxHeap(h, size, keys) && size >= 3
    ensures forall j :: 0 <= j < size ==> keys[j] <= keys[h[0]]
    ensures forall j :: 0 <= j < size && j != h[0] ==> keys[j] <= keys[h[1]] || keys[j] <= keys[h[2]]
  {
    forall j | 0 <= j < size
      ensures keys[j] <= keys[h[0]]
      ensures j != h[0] ==> keys[j] <= keys[h[1]] || keys[j] <= keys[h[2]]
    {
      Occurs(h, size, j);
      var i :| 0 <= i < size && h[i] == j;
      Dominated(h, size, keys, i);
    }
  }
}
