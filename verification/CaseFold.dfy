/** cr_regexp_canonicalize: the image of a set under case folding. */
module CaseFold {
  import opened RegexSyntax
  import opened CharSets
  import opened CaseConv
  import opened SortOrder
  import opened Rqsort

  // ----- sorting the intervals -----

  function Pairs(points: seq<nat>): (ps: seq<(nat, nat)>)
    ensures |ps| == |points| / 2
  {
    seq(|points| / 2, i requires 0 <= i < |points| / 2 => (points[2 * i], points[2 * i + 1]))
  }

  function Flat(ps: seq<(nat, nat)>): (points: seq<nat>)
    ensures |points| == 2 * |ps|
  {
    seq(2 * |ps|, i requires 0 <= i < 2 * |ps| => if i % 2 == 0 then ps[i / 2].0 else ps[i / 2].1)
  }

  predicate PairHas(p: (nat, nat), c: nat)
  {
    p.0 <= c < p.1
  }

  lemma InFlat(ps: seq<(nat, nat)>, c: nat)
    ensures InPoints(Flat(ps), c) <==> exists p :: p in ps && PairHas(p, c)
  {
    var points := Flat(ps);
    if InPoints(points, c) {
      var i :| 0 <= i < |points| / 2 && Inside(points, i, c);
      assert ps[i] in ps && PairHas(ps[i], c);
    }
    if exists p :: p in ps && PairHas(p, c) {
      var p :| p in ps && PairHas(p, c);
      var i :| 0 <= i < |ps| && ps[i] == p;
      assert Inside(points, i, c);
    }
  }

  lemma FlatPairs(points: seq<nat>)
    requires |points| % 2 == 0
    ensures Flat(Pairs(points)) == points
  {
  }

  /** point_cmp: by the starts of the intervals. */
  function PointCmp(p: (nat, nat), q: (nat, nat)): int
  {
    if p.0 > q.0 then 1 else if p.0 < q.0 then -1 else 0
  }

  /** Intervals that are not empty. */
  ghost predicate Intervals(points: seq<nat>)
  {
    |points| % 2 == 0 && forall i :: 0 <= i < |points| / 2 ==> NotEmpty(points, i)
  }

  predicate NotEmpty(points: seq<nat>, i: nat)
    requires 2 * i + 1 < |points|
  {
    points[2 * i] < points[2 * i + 1]
  }

  /** Intervals in the order of their starts. */
  ghost predicate ByStart(points: seq<nat>)
  {
    forall i, j :: 0 <= i < j < |points| / 2 ==> Starts(points, i) <= Starts(points, j)
  }

  function Starts(points: seq<nat>, i: nat): nat
    requires i < |points| / 2
  {
    points[2 * i]
  }

  method SortPoints(points: seq<nat>) returns (r: seq<nat>)
    requires Intervals(points)
    ensures Intervals(r) && ByStart(r) && |r| == |points|
    ensures forall c: nat :: InPoints(r, c) <==> InPoints(points, c)
  {
    hide InPoints, Flat, Pairs;
    var a := new (nat, nat)[|points| / 2](i requires 0 <= i < |points| / 2 => (points[2 * i], points[2 * i + 1]));
    ghost var was := a[..];
    PairsAre(points, was);
    FlatPairs(points);
    PointCmpOrders();
    Sort(a, PointCmp);
    r := Flat(a[..]);
    SortedFlat(was, a[..]);
    forall c: nat
      ensures InPoints(r, c) <==> InPoints(points, c)
    {
      InFlat(a[..], c);
      InFlat(was, c);
      SameElements(was, a[..]);
    }
  }

  lemma PairsAre(points: seq<nat>, ps: seq<(nat, nat)>)
    requires |points| % 2 == 0 && |ps| == |points| / 2
    requires forall i :: 0 <= i < |ps| ==> ps[i] == (points[2 * i], points[2 * i + 1])
    ensures ps == Pairs(points)
  {
  }

  lemma PointCmpOrders()
    ensures Preorder(PointCmp)
  {
  }

  lemma SameElements(s: seq<(nat, nat)>, t: seq<(nat, nat)>)
    requires multiset(s) == multiset(t)
    ensures forall p :: p in s <==> p in t
  {
    forall p
      ensures p in s <==> p in t
    {
      assert p in s <==> p in multiset(s);
      assert p in t <==> p in multiset(t);
    }
  }

  lemma SortedFlat(s: seq<(nat, nat)>, t: seq<(nat, nat)>)
    requires multiset(s) == multiset(t) && Intervals(Flat(s)) && SortedIn(PointCmp, t, 0, |t|)
    ensures |Flat(s)| == |Flat(t)| && Intervals(Flat(t)) && ByStart(Flat(t))
  {
    assert |multiset(s)| == |s| && |multiset(t)| == |t|;
    SameElements(s, t);
    var points := Flat(t);
    forall i | 0 <= i < |t|
      ensures NotEmpty(points, i)
    {
      assert t[i] in s;
      var j :| 0 <= j < |s| && s[j] == t[i];
      assert NotEmpty(Flat(s), j);
    }
    forall i, j | 0 <= i < j < |t|
      ensures Starts(points, i) <= Starts(points, j)
    {
      assert Le(PointCmp, t[i], t[j]);
    }
  }

  // ----- removing overlaps -----

  lemma InSnoc(done: seq<nat>, x: nat, y: nat, c: nat)
    requires |done| % 2 == 0
    ensures InPoints(done + [x, y], c) <==> InPoints(done, c) || x <= c < y
  {
    InsideFront(done + [x, y], c);
    assert (done + [x, y])[..|done|] == done;
  }

  lemma InFirst(points: seq<nat>, i: nat, c: nat)
    requires |points| % 2 == 0 && i % 2 == 0 && i < |points|
    ensures InPoints(points[i..], c) <==> points[i] <= c < points[i + 1] || InPoints(points[i + 2..], c)
  {
    var s, t := points[i..], points[i + 2..];
    if InPoints(s, c) {
      var k :| 0 <= k < |s| / 2 && Inside(s, k, c);
      if k > 0 {
        assert Inside(t, k - 1, c);
      }
    }
    if InPoints(t, c) {
      var k :| 0 <= k < |t| / 2 && Inside(t, k, c);
      assert Inside(s, k + 1, c);
    }
    if points[i] <= c < points[i + 1] {
      assert Inside(s, 0, c);
    }
  }

  lemma InNothing(c: nat)
    ensures !InPoints([], c)
  {
  }

  /** The sets of what is done, of the interval at work and of what is left make up the whole. */
  ghost predicate Covers(done: seq<nat>, start: nat, end: nat, rest: seq<nat>, was: seq<nat>)
  {
    forall c: nat :: InPoints(was, c) <==> InPoints(done, c) || start <= c < end || InPoints(rest, c)
  }

  /** What is done is in order and lies before what comes. */
  ghost predicate Before(done: seq<nat>, start: nat)
  {
    |done| % 2 == 0 && Increasing(done) && (done != [] ==> done[|done| - 1] < start)
  }

  /** The intervals from i on, in order. */
  lemma StartAt(was: seq<nat>, i: nat)
    requires Intervals(was) && ByStart(was) && i % 2 == 0 && i < |was|
    ensures was[i] < was[i + 1] && (i + 2 < |was| ==> was[i] <= was[i + 2])
  {
    assert NotEmpty(was, i / 2);
    if i + 2 < |was| {
      assert Starts(was, i / 2) <= Starts(was, i / 2 + 1);
    }
  }

  lemma Absorb(done: seq<nat>, start: nat, end: nat, was: seq<nat>, i: nat)
    requires Intervals(was) && i % 2 == 0 && i < |was| && start <= was[i] <= end
    requires Covers(done, start, end, was[i..], was)
    ensures Covers(done, start, if was[i + 1] <= end then end else was[i + 1], was[i + 2..], was)
  {
    hide InPoints;
    forall c: nat
      ensures InPoints(was, c) <==>
              InPoints(done, c) || start <= c < (if was[i + 1] <= end then end else was[i + 1]) || InPoints(was[i + 2..], c)
    {
      InFirst(was, i, c);
    }
  }

  lemma TakeInterval(done: seq<nat>, was: seq<nat>, i: nat)
    requires |was| % 2 == 0 && i % 2 == 0 && i < |was| && Covers(done, 0, 0, was[i..], was)
    ensures Covers(done, was[i], was[i + 1], was[i + 2..], was)
  {
    hide InPoints;
    forall c: nat
      ensures InPoints(was, c) <==> InPoints(done, c) || was[i] <= c < was[i + 1] || InPoints(was[i + 2..], c)
    {
      InFirst(was, i, c);
    }
  }

  lemma PutInterval(done: seq<nat>, start: nat, end: nat, rest: seq<nat>, was: seq<nat>)
    requires Covers(done, start, end, rest, was) && Before(done, start) && start < end
    ensures Covers(done + [start, end], 0, 0, rest, was) && Before(done + [start, end], end + 1)
  {
    hide InPoints;
    forall c: nat
      ensures InPoints(was, c) <==> InPoints(done + [start, end], c) || InPoints(rest, c)
    {
      InSnoc(done, start, end, c);
    }
  }

  lemma CoverStarts(was: seq<nat>)
    ensures Covers(was[..0], 0, 0, was[0..], was) && Increasing(was[..0]) && (was != [] ==> Before(was[..0], was[0]))
  {
    hide InPoints;
    assert was[0..] == was;
    forall c: nat
      ensures !InPoints(was[..0], c)
    {
      InNothing(c);
    }
  }

  lemma CoverEnds(done: seq<nat>, was: seq<nat>)
    requires Covers(done, 0, 0, [], was) && |done| % 2 == 0 && Increasing(done)
    ensures IsSet(done) && forall c: nat :: InPoints(done, c) <==> InPoints(was, c)
  {
    hide InPoints;
    forall c: nat
      ensures InPoints(done, c) <==> InPoints(was, c)
    {
      InNothing(c);
    }
  }

  lemma BeforeLess(done: seq<nat>, a: nat, b: nat)
    requires Before(done, a) && a <= b
    ensures Before(done, b)
  {
  }

  lemma BeforeMeans(done: seq<nat>, a: nat)
    requires Before(done, a)
    ensures |done| % 2 == 0 && Increasing(done)
  {
  }

  /** The loop of cr_sort_and_remove_overlap, in place. */
  method RemoveOverlaps(cr: CharRange)
    requires Intervals(cr.points) && ByStart(cr.points)
    modifies cr
    ensures IsSet(cr.points) && Increasing(cr.points)
    ensures forall c: nat :: InPoints(cr.points, c) <==> old(InPoints(cr.points, c))
  {
    hide InPoints, Intervals, ByStart, Covers, Before, IsSet, Increasing;
    ghost var was := cr.points;
    var len := |cr.points|;
    assert len % 2 == 0 by { EvenIntervals(was); }
    var i, j := 0, 0;
    CoverStarts(was);
    while i < len
      invariant 0 <= j <= i <= len == |cr.points| && i % 2 == 0 && j % 2 == 0 && cr.points[i..] == was[i..]
      invariant Covers(cr.points[..j], 0, 0, was[i..], was) && Increasing(cr.points[..j])
      invariant i < len ==> Before(cr.points[..j], was[i])
      decreases len - i
    {
      ghost var now, done := cr.points, cr.points[..j];
      var start := cr.points[i];
      assert start == cr.points[i..][0] == was[i];
      var end;
      i, end := Extend(cr, i, was, done);
      PutInterval(done, start, end, was[i..], was);
      cr.points := cr.points[j := start];
      cr.points := cr.points[j + 1 := end];
      j := j + 2;
      assert cr.points[..j] == done + [start, end];
      assert cr.points[i..] == now[i..];
      BeforeMeans(cr.points[..j], end + 1);
      if i < len {
        BeforeLess(cr.points[..j], end + 1, was[i]);
      }
    }
    assert was[i..] == [];
    assert |cr.points[..j]| % 2 == 0;
    CoverEnds(cr.points[..j], was);
    cr.points := cr.points[..j];
  }

  /** The inner loop: extends the interval at place i0 over those that touch it. */
  method Extend(cr: CharRange, i0: nat, ghost was: seq<nat>, ghost done: seq<nat>) returns (i: nat, end: nat)
    requires Intervals(was) && ByStart(was) && i0 % 2 == 0 && i0 < |cr.points| == |was| && cr.points[i0..] == was[i0..]
    requires Covers(done, 0, 0, was[i0..], was)
    ensures i0 < i <= |was| && i % 2 == 0 && was[i0] < end && cr.points[i..] == was[i..]
    ensures Covers(done, was[i0], end, was[i..], was) && (i < |was| ==> end < was[i])
  {
    hide InPoints, Intervals, ByStart, Covers;
    EvenIntervals(was);
    StartAt(was, i0);
    ghost var now := cr.points;
    assert forall k :: i0 <= k < |was| ==> now[k] == now[i0..][k - i0] == was[k];
    i, end := i0 + 2, cr.points[i0 + 1];
    TakeInterval(done, was, i0);
    while i < |cr.points|
      invariant i0 < i <= |was| && i % 2 == 0
      invariant was[i0] < end && (i < |was| ==> was[i0] <= was[i])
      invariant Covers(done, was[i0], end, was[i..], was)
    {
      var start1, end1 := cr.points[i], cr.points[i + 1];
      if start1 > end {
        break;
      }
      StartAt(was, i);
      Absorb(done, was[i0], end, was, i);
      if end1 > end {
        end := end1;
      }
      i := i + 2;
    }
    assert now[i..] == now[i0..][i - i0..] && was[i..] == was[i0..][i - i0..];
  }

  lemma EvenIntervals(points: seq<nat>)
    requires Intervals(points)
    ensures |points| % 2 == 0
  {
  }

  /** cr_sort_and_remove_overlap. */
  method SortAndRemoveOverlap(cr: CharRange)
    requires Intervals(cr.points)
    modifies cr
    ensures IsSet(cr.points) && Increasing(cr.points)
    ensures forall c: nat :: InPoints(cr.points, c) <==> old(InPoints(cr.points, c))
  {
    hide InPoints, Intervals, ByStart, IsSet, Increasing;
    var sorted := SortPoints(cr.points);
    cr.points := sorted;
    RemoveOverlaps(cr);
  }

  // ----- the image -----

  /** The characters passed when the loops are at c in the interval that starts at place i. */
  predicate Passed(inter: seq<nat>, i: nat, c: nat, x: nat)
    requires i <= |inter|
  {
    InPoints(inter[..i], x) || (i < |inter| && inter[i] <= x < c)
  }

  /** What came out so far, with the interval that is still open, is the image of what was passed. */
  ghost predicate ImageIs(t: CaseData, unicode: bool, inter: seq<nat>, i: nat, c: nat, out: seq<nat>, dStart: nat, dEnd: nat)
    requires GoodData(t) && i <= |inter|
  {
    Intervals(out) && (dStart != UINT32_MAX ==> dStart < dEnd) &&
    forall d: nat :: OutHas(out, dStart, dEnd, d) <==> exists x: nat :: Passed(inter, i, c, x) && Fold(t, x, unicode) == d
  }

  predicate OutHas(out: seq<nat>, dStart: nat, dEnd: nat, d: nat)
  {
    InPoints(out, d) || (dStart != UINT32_MAX && dStart <= d < dEnd)
  }

  lemma IntervalsSnoc(out: seq<nat>, x: nat, y: nat)
    requires Intervals(out) && x < y
    ensures Intervals(out + [x, y])
  {
    forall i | 0 <= i < |out| / 2
      ensures NotEmpty(out + [x, y], i)
    {
      assert NotEmpty(out, i);
    }
  }

  /** One more character, whose folded value d is put with the open interval or starts a new one. */
  lemma NextImage(
    t: CaseData, unicode: bool, inter: seq<nat>, i: nat, c: nat,
    out: seq<nat>, dStart: nat, dEnd: nat, out': seq<nat>, dStart': nat, dEnd': nat)
    requires GoodData(t) && i < |inter| && inter[i] <= c
    requires ImageIs(t, unicode, inter, i, c, out, dStart, dEnd) && Fold(t, c, unicode) < UINT32_MAX
    requires var d := Fold(t, c, unicode);
             (dStart == UINT32_MAX && out' == out && dStart' == d && dEnd' == d + 1) ||
             (dStart != UINT32_MAX && dEnd == d && out' == out && dStart' == dStart && dEnd' == dEnd + 1) ||
             (dStart != UINT32_MAX && out' == out + [dStart, dEnd] && dStart' == d && dEnd' == d + 1)
    ensures ImageIs(t, unicode, inter, i, c + 1, out', dStart', dEnd')
  {
    hide InPoints, Fold, GoodData, Passed;
    var d := Fold(t, c, unicode);
    if dStart != UINT32_MAX {
      IntervalsSnoc(out, dStart, dEnd);
    }
    forall y: nat
      ensures OutHas(out', dStart', dEnd', y) <==> exists x: nat :: Passed(inter, i, c + 1, x) && Fold(t, x, unicode) == y
    {
      InSnoc(out, dStart, dEnd, y);
      assert OutHas(out', dStart', dEnd', y) <==> OutHas(out, dStart, dEnd, y) || y == d;
      OneMoreFolds(t, unicode, inter, i, c, y);
    }
  }

  lemma OneMoreFolds(t: CaseData, unicode: bool, inter: seq<nat>, i: nat, c: nat, y: nat)
    requires GoodData(t) && i < |inter| && inter[i] <= c
    ensures (exists x: nat :: Passed(inter, i, c + 1, x) && Fold(t, x, unicode) == y) <==>
            (exists x: nat :: Passed(inter, i, c, x) && Fold(t, x, unicode) == y) || y == Fold(t, c, unicode)
  {
    hide InPoints, Fold, GoodData;
    forall x: nat
      ensures Passed(inter, i, c + 1, x) <==> Passed(inter, i, c, x) || x == c
    {
    }
    assert Passed(inter, i, c + 1, c);
  }

  /** At the end of an interval the loops go on to the next one. */
  lemma NextInterval(t: CaseData, unicode: bool, inter: seq<nat>, i: nat, out: seq<nat>, dStart: nat, dEnd: nat, c': nat)
    requires GoodData(t) && i % 2 == 0 && i + 1 < |inter| && ImageIs(t, unicode, inter, i, inter[i + 1], out, dStart, dEnd)
    requires i + 2 < |inter| ==> c' == inter[i + 2]
    ensures ImageIs(t, unicode, inter, i + 2, c', out, dStart, dEnd)
  {
    hide InPoints, Fold, Intervals;
    var next, end := i + 2, inter[i + 1];
    forall x: nat
      ensures Passed(inter, next, c', x) <==> Passed(inter, i, end, x)
    {
      InSnoc(inter[..i], inter[i], inter[i + 1], x);
      assert inter[..i + 2] == inter[..i] + [inter[i], inter[i + 1]];
    }
  }

  lemma ImageStarts(t: CaseData, unicode: bool, inter: seq<nat>)
    requires GoodData(t)
    ensures ImageIs(t, unicode, inter, 0, if inter != [] then inter[0] else 0, [], UINT32_MAX, 0)
  {
    var c := if inter != [] then inter[0] else 0;
    assert inter[..0] == [];
    forall x: nat
      ensures !Passed(inter, 0, c, x)
    {
      InNothing(x);
    }
    forall d: nat
      ensures !OutHas([], UINT32_MAX, 0, d)
    {
      InNothing(d);
    }
  }

  /** The runs before idx end at c or below. */
  ghost predicate RunsPassed(t: CaseData, idx: nat, c: nat)
  {
    idx < |t.runs| && forall k :: 0 <= k < idx ==> t.runs[k].code + t.runs[k].len <= c
  }

  lemma RunsStart(t: CaseData, c: nat)
    requires GoodData(t)
    ensures RunsPassed(t, 0, c)
  {
  }

  /** The search for the run of c goes on from the run of the characters before. */
  method FindRun(t: CaseData, idx0: nat, c: nat) returns (idx: nat)
    requires GoodData(t) && InTable(t, c) && RunsPassed(t, idx0, c)
    ensures RunsPassed(t, idx, c) && InRun(t.runs[idx], c)
  {
    idx := idx0;
    ghost var k :| 0 <= k < |t.runs| && InRun(t.runs[k], c);
    while !(t.runs[idx].code <= c < t.runs[idx].code + t.runs[idx].len)
      invariant idx <= k && RunsPassed(t, idx, c)
      decreases k - idx
    {
      assert t.runs[idx].code + t.runs[idx].len <= t.runs[k].code;
      idx := idx + 1;
    }
  }

  /** The loops over the characters of a set, all of which are in the table: the image under the table. */
  method FoldAll(t: CaseData, unicode: bool, inter: seq<nat>) returns (out: CharRange)
    requires GoodData(t) && IsSet(inter) && Increasing(inter)
    requires forall x: nat :: InPoints(inter, x) ==> InTable(t, x)
    ensures fresh(out) && Intervals(out.points)
    ensures forall d: nat :: InPoints(out.points, d) <==> exists x: nat :: InPoints(inter, x) && Fold(t, x, unicode) == d
  {
    hide InPoints, Fold, GoodData, ImageIs, Intervals, InTable, Increasing, IsSet;
    out := new CharRange();
    var dStart, dEnd := UINT32_MAX, 0;
    var idx := 0;
    var i := 0;
    ghost var c0: nat := if inter != [] then inter[0] else 0;
    ImageStarts(t, unicode, inter);
    RunsStart(t, c0);
    InterBounds(inter);
    while i < |inter|
      invariant 0 <= i <= |inter| && i % 2 == 0 && (i < |inter| ==> c0 == inter[i])
      invariant RunsPassed(t, idx, c0)
      invariant ImageIs(t, unicode, inter, i, c0, out.points, dStart, dEnd)
    {
      IntervalAt(inter, i);
      var start, end := inter[i], inter[i + 1];
      dStart, dEnd, idx := FoldInterval(t, unicode, inter, i, start, end, out, dStart, dEnd, idx);
      ghost var c': nat := if i + 2 < |inter| then inter[i + 2] else end;
      NextInterval(t, unicode, inter, i, out.points, dStart, dEnd, c');
      RunsLater(t, idx, end, c');
      c0 := c';
      i := i + 2;
    }
    ghost var was := out.points;
    if dStart != UINT32_MAX {
      out.AddInterval(dStart, dEnd);
    }
    ImageEnds(t, unicode, inter, c0, was, dStart, dEnd);
  }

  lemma InterBounds(inter: seq<nat>)
    requires IsSet(inter)
    ensures |inter| % 2 == 0
  {
  }

  lemma IntervalAt(inter: seq<nat>, i: nat)
    requires IsSet(inter) && Increasing(inter) && i % 2 == 0 && i < |inter|
    ensures i + 1 < |inter| && inter[i] < inter[i + 1] && (i + 2 < |inter| ==> inter[i + 1] < inter[i + 2])
    ensures forall x: nat :: inter[i] <= x < inter[i + 1] ==> InPoints(inter, x)
  {
    forall x: nat | inter[i] <= x < inter[i + 1]
      ensures InPoints(inter, x)
    {
      assert Inside(inter, i / 2, x);
    }
  }

  lemma RunsLater(t: CaseData, idx: nat, c: nat, c': nat)
    requires RunsPassed(t, idx, c) && c <= c'
    ensures RunsPassed(t, idx, c')
  {
  }

  /** One interval of the set. */
  method FoldInterval(t: CaseData, unicode: bool, ghost inter: seq<nat>, ghost i: nat, start: nat, end: nat,
                      out: CharRange, dStart0: nat, dEnd0: nat, idx0: nat)
    returns (dStart: nat, dEnd: nat, idx: nat)
    requires GoodData(t) && i + 1 < |inter| && inter[i] == start && inter[i + 1] == end && start <= end
    requires forall x: nat :: start <= x < end ==> InTable(t, x)
    requires RunsPassed(t, idx0, start) && ImageIs(t, unicode, inter, i, start, out.points, dStart0, dEnd0)
    modifies out
    ensures RunsPassed(t, idx, end) && ImageIs(t, unicode, inter, i, end, out.points, dStart, dEnd)
  {
    hide Fold, GoodData, ImageIs, InTable, RunsPassed;
    dStart, dEnd, idx := dStart0, dEnd0, idx0;
    for c := start to end
      invariant RunsPassed(t, idx, c) && ImageIs(t, unicode, inter, i, c, out.points, dStart, dEnd)
    {
      idx := FindRun(t, idx, c);
      RunsBound(t, idx, c);
      EntryFolds(t, idx, c, unicode);
      FoldBelow(t, c, unicode);
      var d := FoldEntry(t, t.runs[idx], c, unicode);
      ghost var out0, dStart1, dEnd1 := out.points, dStart, dEnd;
      if dStart == UINT32_MAX {
        dStart, dEnd := d, d + 1;
      } else if dEnd == d {
        dEnd := dEnd + 1;
      } else {
        out.AddInterval(dStart, dEnd);
        dStart, dEnd := d, d + 1;
      }
      NextImage(t, unicode, inter, i, c, out0, dStart1, dEnd1, out.points, dStart, dEnd);
      RunsLater(t, idx, c, c + 1);
    }
  }

  lemma RunsBound(t: CaseData, idx: nat, c: nat)
    requires RunsPassed(t, idx, c)
    ensures idx < |t.runs|
  {
  }

  lemma ImageEnds(t: CaseData, unicode: bool, inter: seq<nat>, c: nat, out: seq<nat>, dStart: nat, dEnd: nat)
    requires GoodData(t) && ImageIs(t, unicode, inter, |inter|, c, out, dStart, dEnd)
    ensures var out' := if dStart != UINT32_MAX then out + [dStart, dEnd] else out;
            Intervals(out') &&
            forall d: nat :: InPoints(out', d) <==> exists x: nat :: InPoints(inter, x) && Fold(t, x, unicode) == d
  {
    hide InPoints, Fold;
    var out' := if dStart != UINT32_MAX then out + [dStart, dEnd] else out;
    if dStart != UINT32_MAX {
      IntervalsSnoc(out, dStart, dEnd);
    }
    assert inter[..|inter|] == inter;
    forall d: nat
      ensures InPoints(out', d) <==> exists x: nat :: InPoints(inter, x) && Fold(t, x, unicode) == d
    {
      InSnoc(out, dStart, dEnd, d);
      assert OutHas(out, dStart, dEnd, d) <==> exists x: nat :: Passed(inter, |inter|, c, x) && Fold(t, x, unicode) == d;
      assert forall x: nat :: Passed(inter, |inter|, c, x) <==> InPoints(inter, x);
    }
  }

  lemma FoldBelow(t: CaseData, c: nat, unicode: bool)
    requires GoodData(t) && InTable(t, c)
    ensures Fold(t, c, unicode) < UINT32_MAX
  {
    hide Fold;
    var k :| 0 <= k < |t.runs| && InRun(t.runs[k], c);
    RunIsGood(t, k);
    FoldIsCode(t, c, unicode);
  }

  /** cr_regexp_canonicalize: the set becomes its image under lre_canonicalize. */
  method Canonicalize(t: CaseData, cr: CharRange, unicode: bool)
    requires GoodData(t) && IsSet(cr.points)
    requires forall x: nat :: InPoints(cr.points, x) ==> x < UINT32_MAX
    modifies cr
    ensures IsSet(cr.points) && Increasing(cr.points)
    ensures forall d: nat :: InPoints(cr.points, d) <==>
              exists x: nat :: old(InPoints(cr.points, x)) && Fold(t, x, unicode) == d
  {
    hide InPoints, Fold, GoodData, Intervals, InTable, Increasing, IsSet, CasePoints;
    ghost var was := cr.points;
    var mask := new CharRange();
    Case1(t, mask, FoldMask(unicode));
    ghost var affected := CasePoints(FoldMask(unicode), t.runs);
    assert mask.points == affected;
    MaskIsSet(t, unicode);
    var inter := new CharRange();
    var sub := new CharRange();
    inter.Op(mask.points, cr.points, INTER);
    mask.Invert();
    sub.Op(mask.points, cr.points, INTER);
    forall x: nat | InPoints(inter.points, x)
      ensures InTable(t, x)
    {
      AffectedInTable(t, unicode, x);
    }
    var result := FoldAll(t, unicode, inter.points);
    SortAndRemoveOverlap(result);
    cr.points := [];
    cr.Op(result.points, sub.points, UNION);
    forall d: nat
      ensures InPoints(cr.points, d) <==> exists x: nat :: InPoints(was, x) && Fold(t, x, unicode) == d
    {
      assert InPoints(cr.points, d) <==> InPoints(result.points, d) || InPoints(sub.points, d);
      ImageOf(t, unicode, affected, was, inter.points, sub.points, d);
    }
  }

  lemma MaskIsSet(t: CaseData, unicode: bool)
    requires GoodData(t)
    ensures var mask := CasePoints(FoldMask(unicode), t.runs);
            IsSet(mask) && forall k :: 0 <= k < |mask| ==> mask[k] <= UINT32_MAX
  {
    hide CasePoints, GoodData;
    CaseSorted(t, FoldMask(unicode), |t.runs|);
    assert t.runs[..|t.runs|] == t.runs;
  }

  lemma ImageOf(t: CaseData, unicode: bool, mask: seq<nat>, was: seq<nat>, inter: seq<nat>, sub: seq<nat>, d: nat)
    requires GoodData(t) && mask == CasePoints(FoldMask(unicode), t.runs)
    requires forall x: nat :: InPoints(inter, x) <==> InPoints(mask, x) && InPoints(was, x)
    requires forall x: nat :: InPoints(sub, x) <==> x < UINT32_MAX && !InPoints(mask, x) && InPoints(was, x)
    requires forall x: nat :: InPoints(was, x) ==> x < UINT32_MAX
    ensures (exists x: nat :: InPoints(was, x) && Fold(t, x, unicode) == d) <==>
            (exists x: nat :: InPoints(inter, x) && Fold(t, x, unicode) == d) || InPoints(sub, d)
  {
    hide InPoints, Fold, GoodData, CasePoints;
    forall x: nat | !InPoints(mask, x)
      ensures Fold(t, x, unicode) == x
    {
      UnaffectedStays(t, unicode, x);
    }
    if exists x: nat :: InPoints(was, x) && Fold(t, x, unicode) == d {
      var x: nat :| InPoints(was, x) && Fold(t, x, unicode) == d;
      assert InPoints(inter, x) <==> InPoints(mask, x) && InPoints(was, x);
    }
    if exists x: nat :: InPoints(inter, x) && Fold(t, x, unicode) == d {
      var x: nat :| InPoints(inter, x) && Fold(t, x, unicode) == d;
      assert InPoints(was, x);
    }
    if InPoints(sub, d) {
      assert InPoints(was, d) && Fold(t, d, unicode) == d;
    }
  }
}
