/** heapsortx: sorts the n elements from `lo` on. */
module HeapSort {
  import opened SortOrder
  import opened SortPartition

  /** Node c of the heap is not above its parent. */
  ghost predicate Edge<T>(cmp: (T, T) -> int, s: seq<T>, lo: nat, c: nat)
    requires 0 < c && lo + c < |s|
  {
    Le(cmp, s[lo + c], s[lo + (c - 1) / 2])
  }

  /** All nodes below `n` whose parent is at `from` or later are in order with it, except at the hole. */
  ghost predicate HeapExcept<T>(cmp: (T, T) -> int, s: seq<T>, lo: nat, from: nat, n: nat, hole: nat)
  {
    lo + n <= |s| &&
    (forall c :: 0 < c < n && from <= (c - 1) / 2 && (c - 1) / 2 != hole ==> Edge(cmp, s, lo, c)) &&
    (0 < hole < n && from <= (hole - 1) / 2 ==> ChildrenBelow(cmp, s, lo, n, hole, (hole - 1) / 2))
  }

  ghost predicate ChildrenBelow<T>(cmp: (T, T) -> int, s: seq<T>, lo: nat, n: nat, r: nat, top: nat)
    requires lo + n <= |s| && lo + top < |s|
  {
    (2 * r + 1 < n ==> Le(cmp, s[lo + 2 * r + 1], s[lo + top])) &&
    (2 * r + 2 < n ==> Le(cmp, s[lo + 2 * r + 2], s[lo + top]))
  }

  ghost predicate Heap<T>(cmp: (T, T) -> int, s: seq<T>, lo: nat, from: nat, n: nat)
  {
    lo + n <= |s| && forall c :: 0 < c < n && from <= (c - 1) / 2 ==> Edge(cmp, s, lo, c)
  }

  /** The child that the loop looks at: the larger one. */
  ghost predicate LargerChild<T>(cmp: (T, T) -> int, s: seq<T>, lo: nat, n: nat, r: nat, c: nat)
  {
    lo + n <= |s| && r < c < n && (c == 2 * r + 1 || c == 2 * r + 2) && ChildrenBelow(cmp, s, lo, n, r, c)
  }

  lemma SiftStep<T(!new)>(cmp: (T, T) -> int, s: seq<T>, lo: nat, from: nat, n: nat, r: nat, c: nat)
    requires from <= r && HeapExcept(cmp, s, lo, from, n, r) && LargerChild(cmp, s, lo, n, r, c) && Le(cmp, s[lo + r], s[lo + c])
    ensures HeapExcept(cmp, Swapped(s, lo + r, lo + c), lo, from, n, c)
  {
    hide Le;
    var t := Swapped(s, lo + r, lo + c);
    forall k | 0 < k < n && from <= (k - 1) / 2 && (k - 1) / 2 != c
      ensures Edge(cmp, t, lo, k)
    {
      SiftEdge(cmp, s, lo, from, n, r, c, k);
    }
    assert (c - 1) / 2 == r;
    if 2 * c + 1 < n {
      assert (2 * c + 1 - 1) / 2 == c;
      assert Edge(cmp, s, lo, 2 * c + 1);
    }
    if 2 * c + 2 < n {
      assert (2 * c + 2 - 1) / 2 == c;
      assert Edge(cmp, s, lo, 2 * c + 2);
    }
  }

  lemma SiftEdge<T(!new)>(cmp: (T, T) -> int, s: seq<T>, lo: nat, from: nat, n: nat, r: nat, c: nat, k: nat)
    requires from <= r && HeapExcept(cmp, s, lo, from, n, r) && LargerChild(cmp, s, lo, n, r, c) && Le(cmp, s[lo + r], s[lo + c])
    requires 0 < k < n && from <= (k - 1) / 2 && (k - 1) / 2 != c
    ensures Edge(cmp, Swapped(s, lo + r, lo + c), lo, k)
  {
    hide Le;
    var p := (k - 1) / 2;
    if p == r {
      assert k == 2 * r + 1 || k == 2 * r + 2;
    } else if k == r {
      assert ChildrenBelow(cmp, s, lo, n, r, p);
    } else {
      assert Edge(cmp, s, lo, k);
    }
  }

  lemma SiftStops<T(!new)>(cmp: (T, T) -> int, s: seq<T>, lo: nat, from: nat, n: nat, r: nat)
    requires from <= r < n && HeapExcept(cmp, s, lo, from, n, r) && ChildrenBelow(cmp, s, lo, n, r, r)
    ensures Heap(cmp, s, lo, from, n)
  {
    forall k | 0 < k < n && from <= (k - 1) / 2
      ensures Edge(cmp, s, lo, k)
    {
      if (k - 1) / 2 == r {
        assert k == 2 * r + 1 || k == 2 * r + 2;
      }
    }
  }

  lemma Larger<T(!new)>(cmp: (T, T) -> int, s: seq<T>, lo: nat, n: nat, r: nat, c: nat)
    requires Preorder(cmp) && lo + n <= |s| && 2 * r + 1 < n
    requires c == if 2 * r + 1 < n - 1 && cmp(s[lo + 2 * r + 1], s[lo + 2 * r + 2]) <= 0 then 2 * r + 2 else 2 * r + 1
    ensures LargerChild(cmp, s, lo, n, r, c)
    ensures cmp(s[lo + r], s[lo + c]) > 0 ==> ChildrenBelow(cmp, s, lo, n, r, r)
    ensures cmp(s[lo + r], s[lo + c]) <= 0 ==> Le(cmp, s[lo + r], s[lo + c])
  {
    if 2 * r + 2 < n {
      LeTotal(cmp, s[lo + 2 * r + 1], s[lo + 2 * r + 2]);
    }
    LeTotal(cmp, s[lo + c], s[lo + c]);
    if cmp(s[lo + r], s[lo + c]) > 0 {
      LeTotal(cmp, s[lo + r], s[lo + c]);
      LeTrans(cmp, s[lo + 2 * r + 1], s[lo + c], s[lo + r]);
      if 2 * r + 2 < n {
        LeTrans(cmp, s[lo + 2 * r + 2], s[lo + c], s[lo + r]);
      }
    }
  }

  /** The inner loop: lets the element at r0 sink to its place. */
  method SiftDown<T(!new)>(a: array<T>, cmp: (T, T) -> int, lo: nat, from: nat, r0: nat, n: nat)
    requires Preorder(cmp) && lo + n <= a.Length && from <= r0 < n && HeapExcept(cmp, a[..], lo, from, n, r0)
    modifies a
    ensures Heap(cmp, a[..], lo, from, n)
    ensures Rearranged(old(a[..]), a[..], lo, lo + n)
  {
    hide Preorder, Rearranged, HeapExcept, Heap, Swapped, LargerChild, ChildrenBelow;
    RearrangedSelf(a[..], lo, lo + n);
    var r := r0;
    while 2 * r + 1 < n
      invariant from <= r < n && HeapExcept(cmp, a[..], lo, from, n, r)
      invariant Rearranged(old(a[..]), a[..], lo, lo + n)
      decreases n - r
    {
      var c := 2 * r + 1;
      if c < n - 1 && cmp(a[lo + c], a[lo + c + 1]) <= 0 {
        c := c + 1;
      }
      Larger(cmp, a[..], lo, n, r, c);
      if cmp(a[lo + r], a[lo + c]) > 0 {
        SiftStops(cmp, a[..], lo, from, n, r);
        return;
      }
      SiftStep(cmp, a[..], lo, from, n, r, c);
      RearrangedAgain(old(a[..]), a[..], lo, lo + n, lo + r, lo + c);
      Swap(a, lo + r, lo + c);
      r := c;
    }
    NoChildren(cmp, a[..], lo, n, r);
    SiftStops(cmp, a[..], lo, from, n, r);
  }

  lemma NoChildren<T>(cmp: (T, T) -> int, s: seq<T>, lo: nat, n: nat, r: nat)
    requires lo + n <= |s| && r < n <= 2 * r + 1
    ensures ChildrenBelow(cmp, s, lo, n, r, r)
  {
  }

  /** The root of a heap is not below any of its nodes. */
  lemma {:induction false} RootIsTop<T(!new)>(cmp: (T, T) -> int, s: seq<T>, lo: nat, n: nat, k: nat)
    requires Preorder(cmp) && Heap(cmp, s, lo, 0, n) && k < n
    ensures Le(cmp, s[lo + k], s[lo])
  {
    if k == 0 {
      LeTotal(cmp, s[lo], s[lo]);
    } else {
      var p := (k - 1) / 2;
      RootIsTop(cmp, s, lo, n, p);
      assert Edge(cmp, s, lo, k);
      LeTrans(cmp, s[lo + k], s[lo + p], s[lo]);
    }
  }

  /** From i on the elements are in their final places. */
  ghost predicate TopSorted<T>(cmp: (T, T) -> int, s: seq<T>, lo: nat, i: nat, hi: nat)
  {
    lo <= i <= hi <= |s| && SortedIn(cmp, s, i, hi) &&
    forall j, k :: lo <= j < i && i <= k < hi ==> Le(cmp, s[j], s[k])
  }

  /** Reordering the rest leaves them there. */
  lemma TopStays<T>(cmp: (T, T) -> int, s: seq<T>, t: seq<T>, lo: nat, i: nat, hi: nat)
    requires TopSorted(cmp, s, lo, i, hi) && Rearranged(s, t, lo, i)
    ensures TopSorted(cmp, t, lo, i, hi)
  {
    hide Rearranged;
    RearrangedElements(s, t, lo, i);
    RearrangedBounds(s, t, lo, i);
    forall j, k | lo <= j < i && i <= k < hi
      ensures Le(cmp, t[j], t[k])
    {
      var m :| 0 <= m < i - lo && s[lo..i][m] == t[j];
      assert Le(cmp, s[lo + m], s[k]);
    }
  }

  lemma RearrangedBounds<T>(s: seq<T>, t: seq<T>, lo: nat, hi: nat)
    requires Rearranged(s, t, lo, hi)
    ensures |s| == |t| && lo <= hi <= |s|
  {
  }

  /** Taking the root to the end of the heap. */
  lemma TakeRoot<T(!new)>(cmp: (T, T) -> int, s: seq<T>, lo: nat, i: nat, hi: nat)
    requires Preorder(cmp) && 0 < i && TopSorted(cmp, s, lo, lo + i + 1, hi) && Heap(cmp, s, lo, 0, i + 1)
    ensures TopSorted(cmp, Swapped(s, lo, lo + i), lo, lo + i, hi)
    ensures HeapExcept(cmp, Swapped(s, lo, lo + i), lo, 0, i, 0)
  {
    hide Preorder;
    var t := Swapped(s, lo, lo + i);
    forall k | lo <= k <= lo + i
      ensures Le(cmp, s[k], s[lo])
    {
      RootIsTop(cmp, s, lo, i + 1, k - lo);
    }
    forall j, k | lo <= j < lo + i && lo + i <= k < hi
      ensures Le(cmp, t[j], t[k])
    {
      var j' := if j == lo then lo + i else j;
      assert t[j] == s[j'];
      assert t[k] == if k == lo + i then s[lo] else s[k];
    }
    forall c | 0 < c < i && (c - 1) / 2 != 0
      ensures Edge(cmp, t, lo, c)
    {
      assert Edge(cmp, s, lo, c);
    }
  }

  method Heapsortx<T(!new)>(a: array<T>, cmp: (T, T) -> int, lo: nat, n: nat)
    requires Preorder(cmp) && lo + n <= a.Length
    modifies a
    ensures SortedIn(cmp, a[..], lo, lo + n)
    ensures Rearranged(old(a[..]), a[..], lo, lo + n)
  {
    hide Preorder, Rearranged, Heap, HeapExcept, TopSorted, Swapped, SortedIn;
    RearrangedSelf(a[..], lo, lo + n);
    if n <= 1 {
      TrivialSort(cmp, a[..], lo, n);
      return;
    }
    BuildHeap(a, cmp, lo, n);
    var i := n - 1;
    NothingTaken(cmp, a[..], lo, n);
    while i > 0
      invariant 0 <= i < n
      invariant TopSorted(cmp, a[..], lo, lo + i + 1, lo + n) && Heap(cmp, a[..], lo, 0, i + 1)
      invariant Rearranged(old(a[..]), a[..], lo, lo + n)
    {
      TakeRoot(cmp, a[..], lo, i, lo + n);
      RearrangedAgain(old(a[..]), a[..], lo, lo + n, lo, lo + i);
      Swap(a, lo, lo + i);
      ghost var s := a[..];
      SiftDown(a, cmp, lo, 0, 0, i);
      TopStays(cmp, s, a[..], lo, lo + i, lo + n);
      RearrangedWiden(s, a[..], lo, lo + i, lo, lo + n);
      RearrangedTrans(old(a[..]), s, a[..], lo, lo + n);
      i := i - 1;
    }
    AllTaken(cmp, a[..], lo, n);
  }

  lemma TrivialSort<T>(cmp: (T, T) -> int, s: seq<T>, lo: nat, n: nat)
    requires lo + n <= |s| && n <= 1
    ensures SortedIn(cmp, s, lo, lo + n)
  {
  }

  lemma NothingTaken<T>(cmp: (T, T) -> int, s: seq<T>, lo: nat, n: nat)
    requires lo + n <= |s|
    ensures TopSorted(cmp, s, lo, lo + n, lo + n)
  {
  }

  lemma AllTaken<T>(cmp: (T, T) -> int, s: seq<T>, lo: nat, n: nat)
    requires n > 0 && TopSorted(cmp, s, lo, lo + 1, lo + n)
    ensures SortedIn(cmp, s, lo, lo + n)
  {
  }

  /** The first loop: makes a heap. */
  method BuildHeap<T(!new)>(a: array<T>, cmp: (T, T) -> int, lo: nat, n: nat)
    requires Preorder(cmp) && lo + n <= a.Length
    modifies a
    ensures Heap(cmp, a[..], lo, 0, n)
    ensures Rearranged(old(a[..]), a[..], lo, lo + n)
  {
    hide Preorder, Rearranged, Heap, HeapExcept;
    RearrangedSelf(a[..], lo, lo + n);
    var i := n / 2;
    LeavesAreHeap(cmp, a[..], lo, n);
    while i > 0
      invariant 0 <= i <= n / 2 && Heap(cmp, a[..], lo, i, n)
      invariant Rearranged(old(a[..]), a[..], lo, lo + n)
    {
      i := i - 1;
      NextRoot(cmp, a[..], lo, i, n);
      ghost var s := a[..];
      SiftDown(a, cmp, lo, i, i, n);
      RearrangedTrans(old(a[..]), s, a[..], lo, lo + n);
    }
  }

  lemma LeavesAreHeap<T>(cmp: (T, T) -> int, s: seq<T>, lo: nat, n: nat)
    requires lo + n <= |s|
    ensures Heap(cmp, s, lo, n / 2, n)
  {
  }

  lemma NextRoot<T>(cmp: (T, T) -> int, s: seq<T>, lo: nat, i: nat, n: nat)
    requires Heap(cmp, s, lo, i + 1, n)
    ensures HeapExcept(cmp, s, lo, i, n, i)
  {
  }
}
