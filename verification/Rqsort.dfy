/** rqsort: quicksort with an explicit stack of 50 segments, heap sort when the recursion gets deep and
    insertion sort for short segments. */
module Rqsort {
  import opened SortOrder
  import opened SortPartition
  import opened HeapSort

  const MAX_DEPTH: nat := 50

  // ----- insertion sort -----

  /** Sorted, except that the element at j may still belong further down. */
  ghost predicate Sinking<T>(cmp: (T, T) -> int, s: seq<T>, lo: nat, j: nat, i: nat)
  {
    lo <= j <= i < |s| &&
    (forall x, y :: lo <= x < y <= i && y != j && x != j ==> Le(cmp, s[x], s[y])) &&
    (forall y :: j < y <= i ==> Le(cmp, s[j], s[y]))
  }

  lemma SinkOn<T(!new)>(cmp: (T, T) -> int, s: seq<T>, lo: nat, j: nat, i: nat)
    requires Preorder(cmp) && Sinking(cmp, s, lo, j, i) && j > lo && cmp(s[j - 1], s[j]) > 0
    ensures Sinking(cmp, Swapped(s, j, j - 1), lo, j - 1, i)
  {
    LeTotal(cmp, s[j - 1], s[j]);
  }

  lemma SinkEnds<T(!new)>(cmp: (T, T) -> int, s: seq<T>, lo: nat, j: nat, i: nat)
    requires Preorder(cmp) && Sinking(cmp, s, lo, j, i) && (j > lo ==> cmp(s[j - 1], s[j]) <= 0)
    ensures SortedIn(cmp, s, lo, i + 1)
  {
    forall x, y | lo <= x < y < i + 1
      ensures Le(cmp, s[x], s[y])
    {
      if y == j && x < j - 1 {
        LeTrans(cmp, s[x], s[j - 1], s[j]);
      }
    }
  }

  lemma SinkStarts<T>(cmp: (T, T) -> int, s: seq<T>, lo: nat, i: nat)
    requires SortedIn(cmp, s, lo, i) && lo <= i < |s|
    ensures Sinking(cmp, s, lo, i, i)
  {
  }

  method InsertionSort<T(!new)>(a: array<T>, cmp: (T, T) -> int, lo: nat, hi: nat)
    requires Preorder(cmp) && lo <= hi <= a.Length
    modifies a
    ensures SortedIn(cmp, a[..], lo, hi)
    ensures Rearranged(old(a[..]), a[..], lo, hi)
  {
    hide Preorder, Rearranged, Sinking, Swapped;
    RearrangedSelf(a[..], lo, hi);
    var i := lo + 1;
    while i < hi
      invariant lo < i && (i <= hi || i == lo + 1)
      invariant SortedIn(cmp, a[..], lo, if i <= hi then i else hi)
      invariant Rearranged(old(a[..]), a[..], lo, hi)
    {
      SinkStarts(cmp, a[..], lo, i);
      var j := i;
      while j > lo && cmp(a[j - 1], a[j]) > 0
        invariant lo <= j <= i && Sinking(cmp, a[..], lo, j, i)
        invariant Rearranged(old(a[..]), a[..], lo, hi)
      {
        SinkOn(cmp, a[..], lo, j, i);
        RearrangedAgain(old(a[..]), a[..], lo, hi, j, j - 1);
        Swap(a, j, j - 1);
        j := j - 1;
      }
      SinkEnds(cmp, a[..], lo, j, i);
      i := i + 1;
    }
  }

  /** med3: the place of a median of three elements. */
  method Med3<T(!new)>(a: array<T>, cmp: (T, T) -> int, x: nat, y: nat, z: nat) returns (m: nat)
    requires Preorder(cmp) && x < a.Length && y < a.Length && z < a.Length
    ensures m == x || m == y || m == z
    ensures m == x ==> Between(cmp, a[y], a[x], a[z])
    ensures m == y ==> Between(cmp, a[x], a[y], a[z])
    ensures m == z ==> Between(cmp, a[x], a[z], a[y])
  {
    if cmp(a[x], a[y]) < 0 {
      m := if cmp(a[y], a[z]) < 0 then y else if cmp(a[x], a[z]) < 0 then z else x;
    } else {
      m := if cmp(a[y], a[z]) > 0 then y else if cmp(a[x], a[z]) < 0 then x else z;
    }
  }

  ghost predicate Between<T>(cmp: (T, T) -> int, x: T, m: T, y: T)
  {
    (Le(cmp, x, m) && Le(cmp, m, y)) || (Le(cmp, y, m) && Le(cmp, m, x))
  }

  // ----- pending segments -----

  datatype Segment = Segment(base: nat, count: nat, depth: nat)

  predicate Holds(g: Segment, i: nat)
  {
    g.base <= i < g.base + g.count
  }

  /** The segments lie in the sequence and do not overlap. */
  ghost predicate Apart(gs: seq<Segment>, n: nat)
  {
    (forall k :: 0 <= k < |gs| ==> gs[k].base + gs[k].count <= n) &&
    (forall k, l :: 0 <= k < l < |gs| ==>
       gs[k].base + gs[k].count <= gs[l].base || gs[l].base + gs[l].count <= gs[k].base)
  }

  ghost predicate Together(gs: seq<Segment>, i: nat, j: nat)
  {
    exists k :: 0 <= k < |gs| && Holds(gs[k], i) && Holds(gs[k], j)
  }

  /** Elements are in order unless the same pending segment holds them. */
  ghost predicate Settled<T>(cmp: (T, T) -> int, s: seq<T>, gs: seq<Segment>)
  {
    forall i, j :: 0 <= i < j < |s| ==> Le(cmp, s[i], s[j]) || Together(gs, i, j)
  }

  /** Work on one segment: what it held is now in order or held by the new segments inside it. */
  ghost predicate Refined<T>(cmp: (T, T) -> int, t: seq<T>, g: Segment, new': seq<Segment>)
  {
    g.base + g.count <= |t| &&
    (forall k :: 0 <= k < |new'| ==> g.base <= new'[k].base && new'[k].base + new'[k].count <= g.base + g.count) &&
    forall i, j :: g.base <= i < j < g.base + g.count ==> Le(cmp, t[i], t[j]) || Together(new', i, j)
  }

  lemma StillSettled<T>(cmp: (T, T) -> int, s: seq<T>, t: seq<T>, gs: seq<Segment>, g: Segment, new': seq<Segment>)
    requires Settled(cmp, s, gs + [g]) && Apart(gs + [g], |s|)
    requires Rearranged(s, t, g.base, g.base + g.count) && Refined(cmp, t, g, new')
    ensures Settled(cmp, t, gs + new')
  {
    hide Rearranged, Settled, Refined, Apart;
    RearrangedBounds(s, t, g.base, g.base + g.count);
    forall i, j | 0 <= i < j < |t|
      ensures Le(cmp, t[i], t[j]) || Together(gs + new', i, j)
    {
      if Holds(g, i) && Holds(g, j) {
        RefinedPair(cmp, t, g, gs, new', i, j);
      } else {
        var i' := Origin(s, t, g, i);
        var j' := Origin(s, t, g, j);
        SettledPair(cmp, s, gs, g, i, j, i', j');
        if Together(gs, i, j) {
          TogetherMore(gs, new', i, j);
        }
      }
    }
    assert Settled(cmp, t, gs + new') by { SettledFrom(cmp, t, gs + new'); }
  }

  lemma SettledFrom<T>(cmp: (T, T) -> int, s: seq<T>, gs: seq<Segment>)
    requires forall i, j :: 0 <= i < j < |s| ==> Le(cmp, s[i], s[j]) || Together(gs, i, j)
    ensures Settled(cmp, s, gs)
  {
  }

  lemma RefinedPair<T>(cmp: (T, T) -> int, t: seq<T>, g: Segment, gs: seq<Segment>, new': seq<Segment>, i: nat, j: nat)
    requires Refined(cmp, t, g, new') && i < j && Holds(g, i) && Holds(g, j)
    ensures Le(cmp, t[i], t[j]) || Together(gs + new', i, j)
  {
    if Together(new', i, j) {
      var k :| 0 <= k < |new'| && Holds(new'[k], i) && Holds(new'[k], j);
      assert (gs + new')[|gs| + k] == new'[k];
    }
  }

  lemma TogetherMore(gs: seq<Segment>, hs: seq<Segment>, i: nat, j: nat)
    requires Together(gs, i, j)
    ensures Together(gs + hs, i, j)
  {
    var k :| 0 <= k < |gs| && Holds(gs[k], i) && Holds(gs[k], j);
    assert (gs + hs)[k] == gs[k];
  }

  /** Where an element of t was in s. */
  lemma Origin<T>(s: seq<T>, t: seq<T>, g: Segment, i: nat) returns (i': nat)
    requires Rearranged(s, t, g.base, g.base + g.count) && i < |t|
    ensures i' < |s| && s[i'] == t[i] && (if Holds(g, i) then Holds(g, i') else i' == i)
  {
    RearrangedElements(s, t, g.base, g.base + g.count);
    if Holds(g, i) {
      var part := s[g.base..g.base + g.count];
      assert t[i] in part;
      var k :| 0 <= k < |part| && part[k] == t[i];
      i' := g.base + k;
    } else {
      i' := i;
    }
  }

  lemma SettledPair<T>(cmp: (T, T) -> int, s: seq<T>, gs: seq<Segment>, g: Segment, i: nat, j: nat, i': nat, j': nat)
    requires Settled(cmp, s, gs + [g]) && Apart(gs + [g], |s|) && i < j < |s| && i' < |s| && j' < |s|
    requires !(Holds(g, i) && Holds(g, j))
    requires if Holds(g, i) then Holds(g, i') else i' == i
    requires if Holds(g, j) then Holds(g, j') else j' == j
    ensures Le(cmp, s[i'], s[j']) || Together(gs, i, j)
  {
    assert i' < j';
    if !Le(cmp, s[i'], s[j']) {
      var all := gs + [g];
      assert Together(all, i', j');
      var k :| 0 <= k < |all| && Holds(all[k], i') && Holds(all[k], j');
      assert all[|gs|] == g;
      assert k < |gs|;
      assert all[k] == gs[k];
    }
  }

  /** A sorted segment needs no further work. */
  lemma SortedRefines<T>(cmp: (T, T) -> int, t: seq<T>, g: Segment)
    requires SortedIn(cmp, t, g.base, g.base + g.count)
    ensures Refined(cmp, t, g, [])
  {
  }

  /** A split segment leaves two smaller ones. */
  lemma SplitRefines<T(!new)>(cmp: (T, T) -> int, t: seq<T>, p: T, g: Segment, lt: nat, gt: nat, x: Segment, y: Segment)
    requires Preorder(cmp) && Split3(cmp, t, p, g.base, lt, gt, g.base + g.count)
    requires x.base == g.base && x.base + x.count == lt && y.base == gt && y.base + y.count == g.base + g.count
    ensures Refined(cmp, t, g, [x, y]) && Refined(cmp, t, g, [y, x])
  {
    forall i, j | g.base <= i < j < g.base + g.count
      ensures Le(cmp, t[i], t[j]) || (Together([x, y], i, j) && Together([y, x], i, j))
    {
      if Holds(x, i) && Holds(x, j) {
        InEither(x, y, i, j);
      } else if Holds(y, i) && Holds(y, j) {
        InEither(y, x, i, j);
      } else {
        LeTotal(cmp, p, t[i]);
        LeTrans(cmp, t[i], p, t[j]);
      }
    }
  }

  lemma InEither(x: Segment, y: Segment, i: nat, j: nat)
    requires Holds(x, i) && Holds(x, j)
    ensures Together([x, y], i, j) && Together([y, x], i, j)
  {
    assert [x, y][0] == x && [y, x][1] == x;
  }

  lemma SettledIsSorted<T>(cmp: (T, T) -> int, s: seq<T>)
    requires Settled(cmp, s, [])
    ensures SortedIn(cmp, s, 0, |s|)
  {
  }

  // ----- the sort -----

  /** The depths on the stack increase from one, or there is just the whole array. */
  ghost predicate Depths(gs: seq<Segment>, depth: nat)
  {
    (forall k :: 0 <= k < |gs| ==> k + 1 <= gs[k].depth <= MAX_DEPTH && gs[k].depth <= depth) &&
    (forall k, l :: 0 <= k < l < |gs| ==> gs[k].depth < gs[l].depth)
  }

  lemma DepthsBound(gs: seq<Segment>, depth: nat)
    requires Depths(gs, depth)
    ensures |gs| <= MAX_DEPTH && (gs != [] ==> |gs| <= gs[|gs| - 1].depth <= depth)
  {
  }

  lemma DepthsPush(gs: seq<Segment>, g: Segment)
    requires 0 < g.depth <= MAX_DEPTH && Depths(gs, g.depth - 1)
    ensures Depths(gs + [g], g.depth) && |gs| < MAX_DEPTH
  {
    DepthsBound(gs, g.depth - 1);
  }

  lemma DepthsPop(gs: seq<Segment>, depth: nat)
    requires Depths(gs, depth) && gs != []
    ensures Depths(gs[..|gs| - 1], gs[|gs| - 1].depth)
  {
  }

  /** The work that is left. */
  ghost function Work(gs: seq<Segment>): nat
  {
    if gs == [] then 0 else Work(gs[..|gs| - 1]) + 2 * gs[|gs| - 1].count + 1
  }

  lemma WorkPush(gs: seq<Segment>, g: Segment)
    ensures Work(gs + [g]) == Work(gs) + 2 * g.count + 1
  {
    assert (gs + [g])[..|gs|] == gs;
  }

  lemma ApartReplace(gs: seq<Segment>, g: Segment, x: Segment, y: Segment, n: nat)
    requires Apart(gs + [g], n) && g.base <= x.base && x.base + x.count <= g.base + g.count
    requires g.base <= y.base && y.base + y.count <= g.base + g.count
    requires x.base + x.count <= y.base || y.base + y.count <= x.base
    ensures Apart(gs + [x, y], n) && Apart(gs + [x] + [y], n)
  {
    var all, new' := gs + [g], gs + [x, y];
    assert new' == gs + [x] + [y];
    assert all[|gs|] == g;
    forall k, l | 0 <= k < l < |new'|
      ensures new'[k].base + new'[k].count <= new'[l].base || new'[l].base + new'[l].count <= new'[k].base
    {
      if k < |gs| {
        assert all[k] == new'[k];
        if l < |gs| {
          assert all[l] == new'[l];
        }
      }
    }
    forall k | 0 <= k < |new'|
      ensures new'[k].base + new'[k].count <= n
    {
      if k < |gs| {
        assert all[k] == new'[k];
      }
    }
  }

  lemma ApartFront(gs: seq<Segment>, g: Segment, n: nat)
    requires Apart(gs + [g], n)
    ensures Apart(gs, n) && g.base + g.count <= n
  {
    var all := gs + [g];
    assert all[|gs|] == g;
    assert forall k :: 0 <= k < |gs| ==> all[k] == gs[k];
  }

  /** The state of the sort: the segments gs are on the stack, g is at work. */
  ghost predicate Pending<T>(cmp: (T, T) -> int, was: seq<T>, s: seq<T>, gs: seq<Segment>, g: Segment)
  {
    Settled(cmp, s, gs + [g]) && Apart(gs + [g], |s|) && Rearranged(was, s, 0, |was|)
  }

  lemma PendingStep<T>(cmp: (T, T) -> int, was: seq<T>, s: seq<T>, t: seq<T>, gs: seq<Segment>, g: Segment, x: Segment, y: Segment)
    requires Pending(cmp, was, s, gs, g) && Rearranged(s, t, g.base, g.base + g.count) && Refined(cmp, t, g, [x, y])
    requires x.base + x.count <= y.base || y.base + y.count <= x.base
    ensures Pending(cmp, was, t, gs + [x], y)
  {
    hide Rearranged, Settled, Refined, Apart;
    StillSettled(cmp, s, t, gs, g, [x, y]);
    assert gs + [x, y] == gs + [x] + [y];
    RefinedInside(cmp, t, g, x, y);
    RearrangedBounds(was, s, 0, |was|);
    RearrangedBounds(s, t, g.base, g.base + g.count);
    ApartReplace(gs, g, x, y, |s|);
    RearrangedWiden(s, t, g.base, g.base + g.count, 0, |was|);
    RearrangedTrans(was, s, t, 0, |was|);
  }

  lemma RefinedInside<T>(cmp: (T, T) -> int, t: seq<T>, g: Segment, x: Segment, y: Segment)
    requires Refined(cmp, t, g, [x, y])
    ensures g.base <= x.base && x.base + x.count <= g.base + g.count
    ensures g.base <= y.base && y.base + y.count <= g.base + g.count
  {
    assert [x, y][0] == x && [x, y][1] == y;
  }

  /** Nothing is left of the segment at work. */
  lemma PendingDone<T>(cmp: (T, T) -> int, was: seq<T>, s: seq<T>, t: seq<T>, gs: seq<Segment>, g: Segment)
    requires Pending(cmp, was, s, gs, g) && Rearranged(s, t, g.base, g.base + g.count)
    requires SortedIn(cmp, t, g.base, g.base + g.count)
    ensures Settled(cmp, t, gs) && Apart(gs, |t|) && Rearranged(was, t, 0, |was|)
  {
    hide Rearranged, Settled, Refined, Apart;
    SortedRefines(cmp, t, g);
    StillSettled(cmp, s, t, gs, g, []);
    assert gs + [] == gs;
    ApartFront(gs, g, |s|);
    RearrangedBounds(was, s, 0, |was|);
    RearrangedBounds(s, t, g.base, g.base + g.count);
    RearrangedWiden(s, t, g.base, g.base + g.count, 0, |was|);
    RearrangedTrans(was, s, t, 0, |was|);
  }

  /** Splits a segment around a median of three of its elements. */
  method SplitAround<T(!new)>(a: array<T>, cmp: (T, T) -> int, g: Segment) returns (x: Segment, y: Segment)
    requires Preorder(cmp) && g.base + g.count <= a.Length && g.count > 6
    modifies a
    ensures Rearranged(old(a[..]), a[..], g.base, g.base + g.count)
    ensures Refined(cmp, a[..], g, [x, y]) && Refined(cmp, a[..], g, [y, x])
    ensures x.base + x.count < y.base && x.depth == y.depth == g.depth && x.count + y.count < g.count
  {
    hide Preorder, Rearranged, Split3, Refined, Swapped, Between;
    var ptr, top, m4 := g.base, g.base + g.count, g.count / 4;
    var m := Med3(a, cmp, ptr + m4, ptr + 2 * m4, ptr + 3 * m4);
    RearrangedSelf(a[..], ptr, top);
    RearrangedAgain(a[..], a[..], ptr, top, ptr, m);
    Swap(a, ptr, m);
    ghost var t := a[..];
    var lt, gt, p := Partition(a, cmp, ptr, top);
    RearrangedTrans(old(a[..]), t, a[..], ptr, top);
    SplitBounds(cmp, a[..], p, ptr, lt, gt, top);
    x, y := Segment(ptr, lt - ptr, g.depth), Segment(gt, top - gt, g.depth);
    SplitRefines(cmp, a[..], p, g, lt, gt, x, y);
  }

  /** One round of splitting: the larger part goes on the stack, the smaller one is next. */
  method SplitSegment<T(!new)>(a: array<T>, cmp: (T, T) -> int, stack: array<Segment>, sp: nat, g: Segment, ghost was: seq<T>)
    returns (next: Segment)
    requires Preorder(cmp) && stack.Length == MAX_DEPTH && sp < MAX_DEPTH && (a as object) != stack
    requires Pending(cmp, was, a[..], stack[..sp], g) && g.count > 6
    modifies a, stack
    ensures Pending(cmp, was, a[..], stack[..sp + 1], next) && stack[..sp] == old(stack[..sp])
    ensures stack[sp].depth == next.depth == g.depth
    ensures stack[sp].count + next.count < g.count
  {
    hide Preorder, Rearranged, Settled, Apart, Depths, Pending, Refined;
    ghost var s, gs := a[..], stack[..sp];
    PendingInside(cmp, was, s, gs, g);
    var x, y := SplitAround(a, cmp, g);
    if x.count > y.count {
      PendingStep(cmp, was, s, a[..], gs, g, x, y);
      stack[sp] := x;
      next := y;
    } else {
      PendingStep(cmp, was, s, a[..], gs, g, y, x);
      stack[sp] := y;
      next := x;
    }
    assert stack[..sp] == gs;
    assert stack[..sp + 1] == gs + [stack[sp]];
  }

  lemma PendingInside<T>(cmp: (T, T) -> int, was: seq<T>, s: seq<T>, gs: seq<Segment>, g: Segment)
    requires Pending(cmp, was, s, gs, g)
    ensures g.base + g.count <= |s|
  {
    ApartFront(gs, g, |s|);
  }

  lemma PendingDepth<T>(cmp: (T, T) -> int, was: seq<T>, s: seq<T>, gs: seq<Segment>, g: Segment, depth: nat)
    requires Pending(cmp, was, s, gs, g)
    ensures Pending(cmp, was, s, gs, g.(depth := depth))
  {
    hide Rearranged;
    var h := g.(depth := depth);
    var all, all' := gs + [g], gs + [h];
    forall k | 0 <= k < |all|
      ensures all'[k].base == all[k].base && all'[k].count == all[k].count
    {
    }
    forall i, j | 0 <= i < j < |s|
      ensures Le(cmp, s[i], s[j]) || Together(all', i, j)
    {
      if Together(all, i, j) {
        var k :| 0 <= k < |all| && Holds(all[k], i) && Holds(all[k], j);
        assert Holds(all'[k], i) && Holds(all'[k], j);
      }
    }
  }

  lemma SplitBounds<T>(cmp: (T, T) -> int, s: seq<T>, p: T, lo: nat, lt: nat, gt: nat, hi: nat)
    requires Split3(cmp, s, p, lo, lt, gt, hi)
    ensures lo <= lt < gt <= hi
  {
  }

  /** Sorts one segment, leaving parts of it on the stack. */
  method SortSegment<T(!new)>(a: array<T>, cmp: (T, T) -> int, stack: array<Segment>, sp0: nat, g0: Segment, ghost was: seq<T>)
    returns (sp: nat)
    requires Preorder(cmp) && stack.Length == MAX_DEPTH && sp0 <= MAX_DEPTH && (a as object) != stack
    requires Pending(cmp, was, a[..], stack[..sp0], g0) && Depths(stack[..sp0], g0.depth) && g0.depth <= MAX_DEPTH
    modifies a, stack
    ensures sp <= MAX_DEPTH && Depths(stack[..sp], MAX_DEPTH)
    ensures Settled(cmp, a[..], stack[..sp]) && Apart(stack[..sp], a.Length) && Rearranged(was, a[..], 0, |was|)
    ensures Work(stack[..sp]) < old(Work(stack[..sp0])) + 2 * g0.count + 1
  {
    hide Preorder, Rearranged, Settled, Apart, Depths, Pending, SortedIn, Work;
    sp := sp0;
    var g := g0;
    while g.count > 6
      invariant sp <= MAX_DEPTH && g.depth <= MAX_DEPTH
      invariant Pending(cmp, was, a[..], stack[..sp], g) && Depths(stack[..sp], g.depth)
      invariant Work(stack[..sp]) + 2 * g.count <= old(Work(stack[..sp0])) + 2 * g0.count
      decreases g.count
    {
      ghost var gs := stack[..sp];
      var depth := g.depth + 1;
      if depth > MAX_DEPTH {
        ghost var s := a[..];
        PendingInside(cmp, was, s, gs, g);
        Heapsortx(a, cmp, g.base, g.count);
        PendingDone(cmp, was, s, a[..], gs, g);
        DepthsAtMost(gs, g.depth);
        return;
      }
      PendingDepth(cmp, was, a[..], gs, g, depth);
      DepthsBound(gs, g.depth);
      DepthsPush(gs, Segment(0, 0, depth));
      var next := SplitSegment(a, cmp, stack, sp, g.(depth := depth), was);
      DepthsPush(gs, stack[sp]);
      WorkPush(gs, stack[sp]);
      assert stack[..sp + 1] == gs + [stack[sp]];
      sp := sp + 1;
      g := next;
    }
    ghost var s, gs := a[..], stack[..sp];
    PendingInside(cmp, was, s, gs, g);
    InsertionSort(a, cmp, g.base, g.base + g.count);
    PendingDone(cmp, was, s, a[..], gs, g);
    DepthsAtMost(gs, g.depth);
  }

  lemma DepthsAtMost(gs: seq<Segment>, depth: nat)
    requires Depths(gs, depth)
    ensures Depths(gs, MAX_DEPTH)
  {
  }

  method Sort<T(!new)>(a: array<T>, cmp: (T, T) -> int)
    requires Preorder(cmp)
    modifies a
    ensures SortedIn(cmp, a[..], 0, a.Length)
    ensures multiset(a[..]) == multiset(old(a[..]))
  {
    hide Preorder, Rearranged, Settled, Apart, Depths, Pending, SortedIn, Work;
    ghost var was := a[..];
    if a.Length < 2 {
      TrivialSort(cmp, a[..], 0, a.Length);
      return;
    }
    var stack := new Segment[MAX_DEPTH](_ => Segment(0, 0, 0));
    stack[0] := Segment(0, a.Length, 0);
    var sp := 1;
    Begin(cmp, was);
    assert stack[..1] == [Segment(0, a.Length, 0)];
    while sp > 0
      invariant 0 <= sp <= MAX_DEPTH
      invariant Settled(cmp, a[..], stack[..sp]) && Apart(stack[..sp], |was|) && Rearranged(was, a[..], 0, |was|)
      invariant Depths(stack[..sp], MAX_DEPTH) || stack[..sp] == [Segment(0, a.Length, 0)]
      decreases Work(stack[..sp])
    {
      ghost var all := stack[..sp];
      sp := sp - 1;
      var g := stack[sp];
      Pop(cmp, was, a[..], all, stack[..sp], g);
      sp := SortSegment(a, cmp, stack, sp, g, was);
    }
    assert stack[..0] == [];
    SettledIsSorted(cmp, a[..]);
    WholeMultiset(was, a[..]);
  }

  lemma Begin<T>(cmp: (T, T) -> int, s: seq<T>)
    ensures Settled(cmp, s, [Segment(0, |s|, 0)]) && Apart([Segment(0, |s|, 0)], |s|) && Rearranged(s, s, 0, |s|)
  {
    var gs := [Segment(0, |s|, 0)];
    forall i, j | 0 <= i < j < |s|
      ensures Together(gs, i, j)
    {
      assert Holds(gs[0], i);
    }
  }

  lemma WholeMultiset<T>(s: seq<T>, t: seq<T>)
    requires Rearranged(s, t, 0, |s|)
    ensures multiset(s) == multiset(t)
  {
    assert s[0..|s|] == s && t[0..|s|] == t;
  }

  lemma Pop<T>(cmp: (T, T) -> int, was: seq<T>, s: seq<T>, all: seq<Segment>, gs: seq<Segment>, g: Segment)
    requires all == gs + [g] && Settled(cmp, s, all) && Apart(all, |was|) && Rearranged(was, s, 0, |was|)
    requires Depths(all, MAX_DEPTH) || all == [Segment(0, |was|, 0)]
    ensures Pending(cmp, was, s, gs, g) && Depths(gs, g.depth) && Work(all) == Work(gs) + 2 * g.count + 1
    ensures g.depth <= MAX_DEPTH
  {
    hide Settled, Apart;
    WorkPush(gs, g);
    assert all[..|gs|] == gs && all[|gs|] == g;
    if Depths(all, MAX_DEPTH) {
      DepthsPop(all, MAX_DEPTH);
    }
  }
}
