/** The three-way partition of rqsort. */
module SortPartition {
  import opened SortOrder

  method Swap<T>(a: array<T>, i: nat, j: nat)
    requires i < a.Length && j < a.Length
    modifies a
    ensures a[..] == Swapped(old(a[..]), i, j)
  {
    a[i], a[j] := a[j], a[i];
  }

  /** Around the unknown elements from i to j: those below the pivot p on the left, those above it on
      the right, and those equal to it at both ends. */
  ghost predicate Parts<T>(cmp: (T, T) -> int, s: seq<T>, p: T, lo: nat, lt: nat, i: nat, j: nat, gt: nat, hi: nat)
  {
    lo < lt <= i <= j <= gt <= hi <= |s| && s[lo] == p &&
    (forall k :: lo <= k < lt ==> cmp(p, s[k]) == 0) &&
    (forall k :: lt <= k < i ==> cmp(p, s[k]) > 0) &&
    (forall k :: j <= k < gt ==> cmp(p, s[k]) < 0) &&
    (forall k :: gt <= k < hi ==> cmp(p, s[k]) == 0)
  }

  /** An element equal to the pivot goes to the left end. */
  lemma EqualLeft<T>(cmp: (T, T) -> int, s: seq<T>, p: T, lo: nat, lt: nat, i: nat, j: nat, gt: nat, hi: nat)
    requires Parts(cmp, s, p, lo, lt, i, j, gt, hi) && i < j && cmp(p, s[i]) == 0
    ensures Parts(cmp, Swapped(s, lt, i), p, lo, lt + 1, i + 1, j, gt, hi)
  {
  }

  /** And on the other side to the right end. */
  lemma EqualRight<T>(cmp: (T, T) -> int, s: seq<T>, p: T, lo: nat, lt: nat, i: nat, j: nat, gt: nat, hi: nat)
    requires Parts(cmp, s, p, lo, lt, i, j + 1, gt, hi) && i < j && cmp(p, s[j]) == 0
    ensures Parts(cmp, Swapped(s, gt - 1, j), p, lo, lt, i, j, gt - 1, hi)
    ensures Swapped(s, gt - 1, j)[i] == s[i]
  {
  }

  /** An element above the pivot and one below it trade places. */
  lemma TradePlaces<T>(cmp: (T, T) -> int, s: seq<T>, p: T, lo: nat, lt: nat, i: nat, j: nat, gt: nat, hi: nat)
    requires Parts(cmp, s, p, lo, lt, i, j + 1, gt, hi) && i < j && cmp(p, s[i]) < 0 && cmp(p, s[j]) > 0
    ensures Parts(cmp, Swapped(s, i, j), p, lo, lt, i + 1, j, gt, hi)
  {
  }

  /** Passes over elements that are not above the pivot. */
  method ScanUp<T(!new)>(a: array<T>, cmp: (T, T) -> int, p: T, lo: nat, lt0: nat, i0: nat, j: nat, gt: nat, hi: nat)
    returns (lt: nat, i: nat)
    requires Parts(cmp, a[..], p, lo, lt0, i0, j, gt, hi)
    modifies a
    ensures Parts(cmp, a[..], p, lo, lt, i, j, gt, hi) && i0 <= i
    ensures i < j ==> cmp(p, a[i]) < 0
    ensures Rearranged(old(a[..]), a[..], lo, hi)
  {
    hide Rearranged, Swapped;
    lt, i := lt0, i0;
    RearrangedSelf(a[..], lo, hi);
    while i < j && cmp(p, a[i]) >= 0
      invariant Parts(cmp, a[..], p, lo, lt, i, j, gt, hi) && i0 <= i
      invariant Rearranged(old(a[..]), a[..], lo, hi)
      decreases j - i
    {
      if cmp(p, a[i]) == 0 {
        EqualLeft(cmp, a[..], p, lo, lt, i, j, gt, hi);
        RearrangedAgain(old(a[..]), a[..], lo, hi, lt, i);
        Swap(a, lt, i);
        lt := lt + 1;
      }
      i := i + 1;
    }
  }

  /** Passes down over elements that are not below the pivot. */
  method ScanDown<T(!new)>(a: array<T>, cmp: (T, T) -> int, p: T, lo: nat, lt: nat, i: nat, j0: nat, gt0: nat, hi: nat)
    returns (j: int, gt: nat)
    requires Parts(cmp, a[..], p, lo, lt, i, j0, gt0, hi) && (i < j0 ==> cmp(p, a[i]) < 0)
    modifies a
    ensures i < j ==> j < j0 && Parts(cmp, a[..], p, lo, lt, i, j + 1, gt, hi) && cmp(p, a[j]) > 0 && cmp(p, a[i]) < 0
    ensures i >= j ==> Parts(cmp, a[..], p, lo, lt, i, i, gt, hi)
    ensures Rearranged(old(a[..]), a[..], lo, hi)
  {
    hide Rearranged, Swapped;
    j, gt := j0, gt0;
    RearrangedSelf(a[..], lo, hi);
    j := j - 1;
    while i < j && cmp(p, a[j]) <= 0
      invariant i - 1 <= j < j0 && Parts(cmp, a[..], p, lo, lt, i, j + 1, gt, hi)
      invariant i <= j ==> cmp(p, a[..][i]) < 0
      invariant Rearranged(old(a[..]), a[..], lo, hi)
      decreases j
    {
      if cmp(p, a[j]) == 0 {
        EqualRight(cmp, a[..], p, lo, lt, i, j, gt, hi);
        RearrangedAgain(old(a[..]), a[..], lo, hi, gt - 1, j);
        gt := gt - 1;
        Swap(a, gt, j);
      }
      j := j - 1;
    }
  }

  /** The loop that splits the segment around the pivot at its start. */
  method Split<T(!new)>(a: array<T>, cmp: (T, T) -> int, lo: nat, hi: nat) returns (lt: nat, i: nat, gt: nat, ghost p: T)
    requires Preorder(cmp) && lo < hi <= a.Length
    modifies a
    ensures Parts(cmp, a[..], p, lo, lt, i, i, gt, hi)
    ensures Rearranged(old(a[..]), a[..], lo, hi)
  {
    hide Preorder, Rearranged, Swapped, Parts;
    p := a[lo];
    var pivot := a[lo];
    lt, i, gt := lo + 1, lo + 1, hi;
    var j: int := hi;
    StartParts(cmp, a[..], lo, hi);
    RearrangedSelf(a[..], lo, hi);
    while true
      invariant i <= j && Parts(cmp, a[..], p, lo, lt, i, j, gt, hi)
      invariant Rearranged(old(a[..]), a[..], lo, hi)
      decreases j - i
    {
      ghost var s0, j0 := a[..], j;
      lt, i := ScanUp(a, cmp, pivot, lo, lt, i, j, gt, hi);
      ghost var s1 := a[..];
      PartsBounds(cmp, s1, p, lo, lt, i, j, gt, hi);
      j, gt := ScanDown(a, cmp, pivot, lo, lt, i, j, gt, hi);
      RearrangedTrans(old(a[..]), s0, s1, lo, hi);
      RearrangedTrans(old(a[..]), s1, a[..], lo, hi);
      if i >= j {
        break;
      }
      PartsBounds(cmp, a[..], p, lo, lt, i, j + 1, gt, hi);
      TradePlaces(cmp, a[..], p, lo, lt, i, j, gt, hi);
      RearrangedAgain(old(a[..]), a[..], lo, hi, i, j);
      Swap(a, i, j);
      i := i + 1;
    }
  }

  lemma StartParts<T(!new)>(cmp: (T, T) -> int, s: seq<T>, lo: nat, hi: nat)
    requires Preorder(cmp) && lo < hi <= |s|
    ensures Parts(cmp, s, s[lo], lo, lo + 1, lo + 1, hi, hi, hi)
  {
  }

  lemma PartsBounds<T>(cmp: (T, T) -> int, s: seq<T>, p: T, lo: nat, lt: nat, i: nat, j: nat, gt: nat, hi: nat)
    requires Parts(cmp, s, p, lo, lt, i, j, gt, hi)
    ensures lo < lt <= i <= j <= gt <= hi <= |s|
  {
  }

  // ----- moving the equal elements to the middle -----

  /** The sequence with two disjoint blocks exchanged. */
  function Exchanged<T>(s: seq<T>, x: nat, y: nat, n: nat): (t: seq<T>)
    requires x + n <= y && y + n <= |s|
    ensures |t| == |s|
  {
    seq(|s|, k requires 0 <= k < |s| => if x <= k < x + n then s[k - x + y] else if y <= k < y + n then s[k - y + x] else s[k])
  }

  /** swap_block: exchanges two disjoint blocks. */
  method SwapBlock<T>(a: array<T>, x: nat, y: nat, n: nat, ghost lo: nat, ghost hi: nat)
    requires lo <= x && x + n <= y && y + n <= hi <= a.Length
    modifies a
    ensures a[..] == Exchanged(old(a[..]), x, y, n)
    ensures Rearranged(old(a[..]), a[..], lo, hi)
  {
    hide Rearranged, Exchanged, Swapped;
    ghost var s := a[..];
    RearrangedSelf(s, lo, hi);
    ExchangedNone(s, x, y);
    for k := 0 to n
      invariant a[..] == Exchanged(s, x, y, k)
      invariant Rearranged(s, a[..], lo, hi)
    {
      RearrangedAgain(s, a[..], lo, hi, x + k, y + k);
      ExchangedMore(s, x, y, k);
      Swap(a, x + k, y + k);
    }
  }

  lemma ExchangedNone<T>(s: seq<T>, x: nat, y: nat)
    requires x <= y <= |s|
    ensures Exchanged(s, x, y, 0) == s
  {
  }

  lemma ExchangedMore<T>(s: seq<T>, x: nat, y: nat, n: nat)
    requires x + n < y && y + n < |s|
    ensures Swapped(Exchanged(s, x, y, n), x + n, y + n) == Exchanged(s, x, y, n + 1)
  {
  }

  /** The segment in order around the elements equal to the pivot. */
  ghost predicate Split3<T>(cmp: (T, T) -> int, s: seq<T>, p: T, lo: nat, lt: nat, gt: nat, hi: nat)
  {
    lo <= lt < gt <= hi <= |s| &&
    (forall k :: lo <= k < lt ==> cmp(p, s[k]) > 0) &&
    (forall k :: lt <= k < gt ==> cmp(p, s[k]) == 0) &&
    (forall k :: gt <= k < hi ==> cmp(p, s[k]) < 0)
  }

  /** Splits the segment around the pivot at its start and moves the elements equal to it to the middle. */
  method Partition<T(!new)>(a: array<T>, cmp: (T, T) -> int, lo: nat, hi: nat) returns (lt: nat, gt: nat, ghost p: T)
    requires Preorder(cmp) && lo < hi <= a.Length
    modifies a
    ensures Split3(cmp, a[..], p, lo, lt, gt, hi)
    ensures Rearranged(old(a[..]), a[..], lo, hi)
  {
    hide Preorder, Rearranged, Exchanged, Parts, Split3;
    var i;
    lt, i, gt, p := Split(a, cmp, lo, hi);
    ghost var s1 := a[..];
    PartsBounds(cmp, s1, p, lo, lt, i, i, gt, hi);
    var span, span2 := lt - lo, i - lt;
    var below := lo + span2;
    if span > span2 {
      span := span2;
    }
    SwapBlock(a, lo, i - span, span, lo, hi);
    ghost var s2 := a[..];
    RearrangedTrans(old(a[..]), s1, s2, lo, hi);
    span, span2 := hi - gt, gt - i;
    var above := hi - span2;
    if span > span2 {
      span := span2;
    }
    SwapBlock(a, i, hi - span, span, lo, hi);
    RearrangedTrans(old(a[..]), s2, a[..], lo, hi);
    BlocksInOrder(cmp, s1, p, lo, lt, i, gt, hi);
    lt, gt := below, above;
  }

  /** Exchanging the shorter of the two blocks on each side is enough. */
  lemma BlocksInOrder<T>(cmp: (T, T) -> int, s: seq<T>, p: T, lo: nat, lt: nat, i: nat, gt: nat, hi: nat)
    requires Parts(cmp, s, p, lo, lt, i, i, gt, hi)
    ensures var n := if lt - lo > i - lt then i - lt else lt - lo;
            var m := if hi - gt > gt - i then gt - i else hi - gt;
            Split3(cmp, Exchanged(Exchanged(s, lo, i - n, n), i, hi - m, m), p, lo, lo + (i - lt), hi - (gt - i), hi)
  {
  }
}
