/**
 The partial heap sort of the statistics code: sorts in place, but only as many of the
 largest elements as will be printed.
 */
module HeapSort {
  /** A sort element: the counter sorted by, and the record it belongs to. */
  datatype Element = Element(count: nat, record: int)

  function Swap(s: seq<Element>, i: nat, j: nat): (r: seq<Element>)
    requires i < |s| && j < |s|
    ensures |r| == |s| && multiset(r) == multiset(s)
    ensures r[i] == s[j] && r[j] == s[i] && forall k :: 0 <= k < |s| && k != i && k != j ==> r[k] == s[k]
  {
    var r := s[i := s[j]][j := s[i]];
    SwapPermutes(s, i, j);
    r
  }

  lemma SwapPermutes(s: seq<Element>, i: nat, j: nat)
    requires i < |s| && j < |s|
    ensures multiset(s[i := s[j]][j := s[i]]) == multiset(s)
  {
  }

  /** Among node `p` and its children inside the first `size` elements, the one with the largest count. */
  function Largest(s: seq<Element>, size: nat, p: nat): (c: nat)
    requires p < size <= |s|
    ensures c < size && (c == p || c == 2 * p + 1 || c == 2 * p + 2)
    ensures s[c].count >= s[p].count
    ensures 2 * p + 1 < size ==> s[c].count >= s[2 * p + 1].count
    ensures 2 * p + 2 < size ==> s[c].count >= s[2 * p + 2].count
  {
    var l := if 2 * p + 1 < size && s[2 * p + 1].count > s[p].count then 2 * p + 1 else p;
    if 2 * p + 2 < size && s[2 * p + 2].count > s[l].count then 2 * p + 2 else l
  }

  /** Sifting the element at `p` down to its place. */
  function Sift(s: seq<Element>, size: nat, p: nat): (r: seq<Element>)
    requires p < size <= |s|
    ensures |r| == |s|
    decreases size - p
  {
    var c := Largest(s, size, p);
    if c == p then s else Sift(Swap(s, p, c), size, c)
  }

  /** Node `p` is no smaller than its children. */
  predicate Node(s: seq<Element>, size: nat, p: nat)
    requires p < size <= |s|
  {
    && (2 * p + 1 < size ==> s[p].count >= s[2 * p + 1].count)
    && (2 * p + 2 < size ==> s[p].count >= s[2 * p + 2].count)
  }

  /** The first `size` elements form a heap, from node `from` on, leaving out node `hole`. */
  predicate HeapBut(s: seq<Element>, size: nat, from: nat, hole: nat)
    requires size <= |s|
  {
    forall p :: from <= p < size && p != hole ==> Node(s, size, p)
  }

  /** The first `size` elements form a heap, from node `from` on. */
  predicate Heap(s: seq<Element>, size: nat, from: nat)
    requires size <= |s|
  {
    forall p :: from <= p < size ==> Node(s, size, p)
  }

  /** The parent of `p`, if it belongs to the heap, is no smaller than the children of `p`. */
  predicate Grandparent(s: seq<Element>, size: nat, from: nat, p: nat)
    requires p < size <= |s|
  {
    p > 0 && (p - 1) / 2 >= from ==>
      var g := (p - 1) / 2;
      && (2 * p + 1 < size ==> s[g].count >= s[2 * p + 1].count)
      && (2 * p + 2 < size ==> s[g].count >= s[2 * p + 2].count)
  }

  /** Sifting repairs the only defect of a heap. */
  lemma {:induction false} SiftHeap(s: seq<Element>, size: nat, from: nat, p: nat)
    requires from <= p < size <= |s| && HeapBut(s, size, from, p) && Grandparent(s, size, from, p)
    ensures Heap(Sift(s, size, p), size, from)
    decreases size - p
  {
    var c := Largest(s, size, p);
    if c == p {
      assert Node(s, size, p);
    } else {
      var t := Swap(s, p, c);
      assert Node(s, size, c);
      forall q | from <= q < size && q != c ensures Node(t, size, q) {
        if q != p {
          assert Node(s, size, q);
        }
      }
      SiftHeap(t, size, from, c);
    }
  }

  /** Sifting permutes the elements from `p` to `size` and touches no others. */
  lemma {:induction false} SiftPermutes(s: seq<Element>, size: nat, p: nat)
    requires p < size <= |s|
    ensures var r := Sift(s, size, p);
            multiset(r) == multiset(s) && r[..p] == s[..p] && r[size..] == s[size..]
    decreases size - p
  {
    hide Swap, Largest;
    var c := Largest(s, size, p);
    if c != p {
      var t := Swap(s, p, c);
      SiftPermutes(t, size, c);
      var r := Sift(s, size, p);
      assert t[..p] == s[..p] && t[size..] == s[size..];
      assert r[..p] == r[..c][..p] && t[..p] == t[..c][..p];
    }
  }

  /** What bounds every element of the heap still does after sifting. */
  lemma {:induction false} SiftBounded(s: seq<Element>, size: nat, p: nat, m: nat)
    requires p < size <= |s| && forall i :: 0 <= i < size ==> s[i].count <= m
    ensures forall i :: 0 <= i < size ==> Sift(s, size, p)[i].count <= m
    decreases size - p
  {
    var c := Largest(s, size, p);
    if c != p {
      SiftBounded(Swap(s, p, c), size, c, m);
    }
  }

  /** The root of a heap is its largest element. */
  lemma {:induction false} RootIsMax(s: seq<Element>, size: nat, i: nat)
    requires i < size <= |s| && Heap(s, size, 0)
    ensures s[0].count >= s[i].count
  {
    if i > 0 {
      var g := (i - 1) / 2;
      assert Node(s, size, g);
      RootIsMax(s, size, g);
    }
  }

  method SwapAt(a: array<Element>, i: nat, j: nat)
    requires i < a.Length && j < a.Length
    modifies a
    ensures a[..] == Swap(old(a[..]), i, j)
  {
    var temp := a[i];
    a[i] := a[j];
    a[j] := temp;
  }

  lemma SiftStep(s: seq<Element>, size: nat, p: nat)
    requires p < size <= |s|
    ensures var c := Largest(s, size, p);
            Sift(s, size, p) == if c == p then s else Sift(Swap(s, p, c), size, c)
  {
  }

  /** siftDown: the loop that goes on until no child is larger. */
  method SiftDown(a: array<Element>, size: nat, node: nat)
    requires node < size <= a.Length
    modifies a
    ensures a[..] == Sift(old(a[..]), size, node)
  {
    hide Sift, Swap;
    var parent := node;
    var i := parent + 1;
    while i != parent
      invariant parent < size
      invariant Sift(a[..], size, parent) == Sift(old(a[..]), size, node)
      invariant i == parent ==> Largest(a[..], size, parent) == parent
      decreases size - parent, if i != parent then 1 else 0
    {
      i := parent;
      ghost var s := a[..];
      var child := 2 * i + 1;
      if child < size && a[child].count > a[parent].count {
        parent := child;
      }
      child := 2 * i + 2;
      if child < size && a[child].count > a[parent].count {
        parent := child;
      }
      assert parent == Largest(s, size, i);
      SiftStep(s, size, i);
      if i != parent {
        SwapAt(a, i, parent);
      }
    }
    SiftStep(a[..], size, parent);
  }

  /** From index `k` on, every element is at least as large as all before it. */
  predicate TopSorted(s: seq<Element>, k: nat)
  {
    forall i, j :: 0 <= i < j < |s| && k <= j ==> s[i].count <= s[j].count
  }

  /** How many elements `heapSort(a, n, topN)` leaves unsorted in front; comparison is unsigned. */
  function Unsorted(n: nat, topN: int): (k: nat)
    requires 0 < n && -0x8000_0000 <= topN < 0x8000_0000
  {
    if topN % 0x1_0000_0000 >= n - 1 || topN == 0 then 0 else n - 1 - topN
  }

  /**
   heapSort: a permutation whose last elements, all of them but the first
   `Unsorted(n, topN) + 1`, are the largest ones in ascending order.
   */
  method Sort(a: array<Element>, topN: int)
    requires 0 < a.Length < 0x8000_0000 && -0x8000_0000 <= topN < 0x8000_0000
    modifies a
    ensures multiset(a[..]) == multiset(old(a[..]))
    ensures TopSorted(a[..], Unsorted(a.Length, topN) + 1)
  {
    hide Sift, Swap;
    var n := a.Length;
    var i := n - 1;
    while i >= 0
      invariant -1 <= i < n && Heap(a[..], n, i + 1) && multiset(a[..]) == multiset(old(a[..]))
      decreases i + 1
    {
      ghost var s := a[..];
      SiftHeap(s, n, i, i);
      SiftPermutes(s, n, i);
      SiftDown(a, n, i);
      i := i - 1;
    }
    var maxIndex := 0;
    if !(topN % 0x1_0000_0000 >= n - 1 || topN == 0) {
      maxIndex := n - 1 - topN;
    }
    i := n - 1;
    while i > maxIndex
      invariant maxIndex <= i < n && Heap(a[..], i + 1, 0) && multiset(a[..]) == multiset(old(a[..]))
      invariant TopSorted(a[..], i + 1)
    {
      ghost var s := a[..];
      Extract(s, i);
      SwapAt(a, 0, i);
      SiftDown(a, i, 0);
      i := i - 1;
    }
  }

  /** One extraction: the largest remaining element goes to index `i`, the rest is a heap again. */
  lemma Extract(s: seq<Element>, i: nat)
    requires 0 < i < |s| && Heap(s, i + 1, 0) && TopSorted(s, i + 1)
    ensures var r := Sift(Swap(s, 0, i), i, 0);
            multiset(r) == multiset(s) && Heap(r, i, 0) && TopSorted(r, i)
  {
    hide Sift, Largest, Swap;
    var t := Swap(s, 0, i);
    var r := Sift(t, i, 0);
    forall p | 0 <= p < i && p != 0 ensures Node(t, i, p) {
      assert Node(s, i + 1, p);
    }
    SiftHeap(t, i, 0, 0);
    SiftPermutes(t, i, 0);
    forall k | 0 <= k < i + 1 ensures s[k].count <= s[0].count {
      RootIsMax(s, i + 1, k);
    }
    SiftBounded(t, i, 0, s[0].count);
    assert forall k :: i <= k < |s| ==> r[k] == r[i..][k - i] == t[k];
    forall p, q | 0 <= p < q < |r| && i <= q ensures r[p].count <= r[q].count {
      if p < i {
        assert r[p].count <= s[0].count;
      }
    }
  }

  /**
   What the caller gets: for topN > 0 no element outside the last topN is larger than any
   among them, and for topN = 0, or topN at least n - 1, everything is sorted.
   */
  lemma TopNAreLargest(s: seq<Element>, topN: int)
    requires 0 < |s| < 0x8000_0000 && -0x8000_0000 <= topN < 0x8000_0000
    requires TopSorted(s, Unsorted(|s|, topN) + 1)
    ensures topN <= 0 || topN >= |s| - 1 ==> forall i, j :: 0 <= i < j < |s| ==> s[i].count <= s[j].count
    ensures 0 < topN <= |s| ==>
              forall i, j :: 0 <= i < j < |s| && |s| - topN <= j ==> s[i].count <= s[j].count
  {
  }
}
