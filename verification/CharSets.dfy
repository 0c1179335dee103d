/** Sets of code points as sorted lists of boundaries, and the operations on them. */
module CharSets {
  import opened RegexSyntax

  datatype SetOp = UNION | INTER | XOR | SUB

  predicate Apply(op: SetOp, x: bool, y: bool)
  {
    match op
    case UNION => x || y
    case INTER => x && y
    case XOR => x != y
    case SUB => x && !y
  }

  /** In either, in both, in one only, in the first only. */
  lemma Operations(x: bool, y: bool)
    ensures Apply(UNION, x, y) <==> !(!x && !y)
    ensures Apply(INTER, x, y) <==> !(!x || !y)
    ensures Apply(XOR, x, y) <==> (Apply(UNION, x, y) && !Apply(INTER, x, y))
    ensures Apply(SUB, x, y) <==> !(x ==> y)
  {
  }

  /** Boundaries in order; an interval may be empty, and one may start where another ends. */
  ghost predicate Sorted(points: seq<nat>)
  {
    forall i, j :: 0 <= i < j < |points| ==> points[i] <= points[j]
  }

  ghost predicate Increasing(points: seq<nat>)
  {
    forall i, j :: 0 <= i < j < |points| ==> points[i] < points[j]
  }

  /** What the operations ask of a set. */
  ghost predicate IsSet(points: seq<nat>)
  {
    |points| % 2 == 0 && Sorted(points)
  }

  /** How many boundaries are at c or below. */
  function Count(points: seq<nat>, c: nat): nat
  {
    if points == [] then 0 else Count(points[..|points| - 1], c) + if points[|points| - 1] <= c then 1 else 0
  }

  /** Whether an odd number of boundaries is at c or below. */
  predicate Odd(points: seq<nat>, c: nat)
  {
    Count(points, c) % 2 == 1
  }

  lemma {:induction false} CountAppend(p: seq<nat>, q: seq<nat>, c: nat)
    ensures Count(p + q, c) == Count(p, c) + Count(q, c)
  {
    if q == [] {
      assert p + q == p;
    } else {
      var k := |q| - 1;
      CountAppend(p, q[..k], c);
      assert (p + q)[..|p + q| - 1] == p + q[..k];
    }
  }

  lemma {:induction false} CountAll(p: seq<nat>, c: nat)
    requires forall i :: 0 <= i < |p| ==> p[i] <= c
    ensures Count(p, c) == |p|
  {
    if p != [] {
      CountAll(p[..|p| - 1], c);
    }
  }

  lemma CountSnoc(p: seq<nat>, v: nat, c: nat)
    ensures Count(p + [v], c) == Count(p, c) + if v <= c then 1 else 0
  {
    assert (p + [v])[..|p|] == p;
  }

  /** Being inside an interval is having an odd number of boundaries at or below. */
  lemma {:induction false} InsideIsOdd(points: seq<nat>, c: nat)
    requires IsSet(points)
    ensures InPoints(points, c) <==> Odd(points, c)
    decreases |points|
  {
    if points != [] {
      var k := |points| - 2;
      var front := points[..k];
      InsideIsOdd(front, c);
      assert points[..k + 1][..k] == front;
      assert Count(points, c) == Count(points[..k + 1], c) + (if points[k + 1] <= c then 1 else 0);
      assert Count(points[..k + 1], c) == Count(front, c) + (if points[k] <= c then 1 else 0);
      if points[k] <= c {
        CountAll(front, c);
        NotInside(front, c);
      }
      InsideFront(points, c);
    }
  }

  /** Beyond all boundaries nothing is inside. */
  lemma NotInside(points: seq<nat>, c: nat)
    requires |points| % 2 == 0 && forall i :: 0 <= i < |points| ==> points[i] <= c
    ensures !InPoints(points, c)
  {
  }

  lemma InsideFront(points: seq<nat>, c: nat)
    requires |points| % 2 == 0 && points != []
    ensures var k := |points| - 2;
            InPoints(points, c) <==> InPoints(points[..k], c) || points[k] <= c < points[k + 1]
  {
    var k := |points| - 2;
    var front := points[..k];
    if InPoints(points, c) {
      var i :| 0 <= i < |points| / 2 && Inside(points, i, c);
      if i < k / 2 {
        assert Inside(front, i, c);
      }
    }
    if InPoints(front, c) {
      var i :| 0 <= i < |front| / 2 && Inside(front, i, c);
      assert Inside(points, i, c);
    }
    if points[k] <= c < points[k + 1] {
      assert Inside(points, k / 2, c);
    }
  }

  // ----- merging -----

  /** The points taken from a and b so far, and those put out, are not above the rest. */
  ghost predicate InOrder(a: seq<nat>, b: seq<nat>, i: nat, j: nat, out: seq<nat>)
  {
    i <= |a| && j <= |b| && Sorted(a) && Sorted(b) && Sorted(out) &&
    (forall k, l :: 0 <= k < i && j <= l < |b| ==> a[k] <= b[l]) &&
    (forall k, l :: 0 <= k < j && i <= l < |a| ==> b[k] <= a[l]) &&
    (forall k, l :: 0 <= k < |out| && i <= l < |a| ==> out[k] <= a[l]) &&
    (forall k, l :: 0 <= k < |out| && j <= l < |b| ==> out[k] <= b[l])
  }

  /** What was put out is inside exactly where the operation on what was taken is. */
  ghost predicate Merged(op: SetOp, a: seq<nat>, b: seq<nat>, i: nat, j: nat, out: seq<nat>)
    requires i <= |a| && j <= |b|
  {
    (|out| % 2 == 1 <==> Apply(op, i % 2 == 1, j % 2 == 1)) &&
    forall c :: Odd(out, c) <==> Apply(op, Odd(a[..i], c), Odd(b[..j], c))
  }

  /** The next point v, taken from a, from b, or from both. */
  ghost predicate Next(a: seq<nat>, b: seq<nat>, i: nat, j: nat, i': nat, j': nat, v: nat)
  {
    i <= i' <= i + 1 && j <= j' <= j + 1 && i' <= |a| && j' <= |b| && (i' > i || j' > j) &&
    (i' > i ==> a[i] == v) && (j' > j ==> b[j] == v) &&
    (i < |a| ==> v <= a[i]) && (j < |b| ==> v <= b[j])
  }

  lemma StaysInOrder(a: seq<nat>, b: seq<nat>, i: nat, j: nat, out: seq<nat>, i': nat, j': nat, v: nat)
    requires InOrder(a, b, i, j, out) && Next(a, b, i, j, i', j', v)
    ensures InOrder(a, b, i', j', out)
    ensures forall l :: i' <= l < |a| ==> v <= a[l]
    ensures forall l :: j' <= l < |b| ==> v <= b[l]
    ensures forall k :: 0 <= k < |out| ==> out[k] <= v
  {
  }

  lemma PutInOrder(a: seq<nat>, b: seq<nat>, i: nat, j: nat, out: seq<nat>, v: nat)
    requires InOrder(a, b, i, j, out)
    requires forall l :: i <= l < |a| ==> v <= a[l]
    requires forall l :: j <= l < |b| ==> v <= b[l]
    requires forall k :: 0 <= k < |out| ==> out[k] <= v
    ensures InOrder(a, b, i, j, out + [v])
  {
  }

  /** The point is put out if the operation changes there. */
  lemma TakePoint(op: SetOp, a: seq<nat>, b: seq<nat>, i: nat, j: nat, out: seq<nat>, i': nat, j': nat, v: nat)
    requires InOrder(a, b, i, j, out) && Merged(op, a, b, i, j, out) && Next(a, b, i, j, i', j', v)
    ensures var out' := if Apply(op, i' % 2 == 1, j' % 2 == 1) != (|out| % 2 == 1) then out + [v] else out;
            InOrder(a, b, i', j', out') && Merged(op, a, b, i', j', out')
  {
    hide Count, Sorted, InOrder;
    var out' := if Apply(op, i' % 2 == 1, j' % 2 == 1) != (|out| % 2 == 1) then out + [v] else out;
    StaysInOrder(a, b, i, j, out, i', j', v);
    PutInOrder(a, b, i', j', out, v);
    forall c: nat
      ensures Odd(out', c) <==> Apply(op, Odd(a[..i'], c), Odd(b[..j'], c))
    {
      if c < v {
        ParityBelow(op, a, b, i, j, out, i', j', v, c);
      } else {
        ParityFrom(op, a, b, i, j, out, i', j', v, c);
      }
    }
  }

  lemma ParityBelow(op: SetOp, a: seq<nat>, b: seq<nat>, i: nat, j: nat, out: seq<nat>, i': nat, j': nat, v: nat, c: nat)
    requires i <= |a| && j <= |b| && Merged(op, a, b, i, j, out) && Next(a, b, i, j, i', j', v) && c < v
    ensures Odd(out, c) <==> Apply(op, Odd(a[..i'], c), Odd(b[..j'], c))
    ensures Odd(out + [v], c) <==> Odd(out, c)
  {
    hide Count;
    assert i' > i ==> a[..i'] == a[..i] + [v];
    assert j' > j ==> b[..j'] == b[..j] + [v];
    CountSnoc(a[..i], v, c);
    CountSnoc(b[..j], v, c);
    CountSnoc(out, v, c);
    assert Odd(out, c) <==> Apply(op, Odd(a[..i], c), Odd(b[..j], c));
  }

  lemma ParityFrom(op: SetOp, a: seq<nat>, b: seq<nat>, i: nat, j: nat, out: seq<nat>, i': nat, j': nat, v: nat, c: nat)
    requires InOrder(a, b, i, j, out) && Next(a, b, i, j, i', j', v) && v <= c
    ensures Count(a[..i'], c) == i' && Count(b[..j'], c) == j'
    ensures Count(out, c) == |out| && Count(out + [v], c) == |out| + 1
  {
    assert forall k :: 0 <= k < i' ==> a[k] <= v;
    assert forall k :: 0 <= k < j' ==> b[k] <= v;
    assert forall k :: 0 <= k < |out| ==> out[k] <= v;
    CountAll(a[..i'], c);
    CountAll(b[..j'], c);
    CountAll(out, c);
    CountSnoc(out, v, c);
  }

  // ----- compressing -----

  /** The same set, with strictly increasing boundaries. */
  ghost predicate Compressed(out: seq<nat>, points: seq<nat>)
  {
    |out| % 2 == 0 && Increasing(out) && |out| <= |points| &&
    (forall k :: 0 <= k < |out| ==> out[k] in points) &&
    forall c :: Odd(out, c) <==> Odd(points, c)
  }

  /** Two equal boundaries next to each other do not matter. */
  lemma DropPair(p: seq<nat>, v: nat, q: seq<nat>, c: nat)
    ensures Odd(p + [v, v] + q, c) <==> Odd(p + q, c)
  {
    hide Count;
    CountAppend(p + [v, v], q, c);
    CountAppend(p, q, c);
    CountSnoc(p + [v], v, c);
    CountSnoc(p, v, c);
    assert p + [v, v] == p + [v] + [v];
  }

  /** The first k places hold boundaries for what was before place i, where the old boundaries go on. */
  ghost predicate Halfway(was: seq<nat>, done: seq<nat>, i: nat)
  {
    |done| <= i <= |was| && |done| % 2 == 0 && i % 2 == 0 && Increasing(done) &&
    (forall k :: 0 <= k < |done| ==> done[k] in was) &&
    (done != [] && i < |was| ==> done[|done| - 1] < was[i]) &&
    forall c :: Odd(done + was[i..], c) <==> Odd(was, c)
  }

  lemma SkipEmpty(was: seq<nat>, done: seq<nat>, i: nat)
    requires IsSet(was) && Halfway(was, done, i) && i + 1 < |was| && was[i] == was[i + 1]
    ensures Halfway(was, done, i + 2)
  {
    hide Odd;
    assert was[i..] == [was[i], was[i]] + was[i + 2..];
    forall c: nat
      ensures Odd(done + was[i + 2..], c) <==> Odd(was, c)
    {
      DropPair(done, was[i], was[i + 2..], c);
      assert done + was[i..] == done + [was[i], was[i]] + was[i + 2..];
      assert Odd(done + was[i..], c) <==> Odd(was, c);
    }
  }

  /** In the middle of merging the intervals from i to j. */
  ghost predicate Merging(was: seq<nat>, done: seq<nat>, i: nat, j: nat)
  {
    i <= j && j + 1 < |was| && j % 2 == 0 &&
    forall c :: Odd(done + [was[i]] + was[j + 1..], c) <==> Odd(was, c)
  }

  lemma MergeStarts(was: seq<nat>, done: seq<nat>, i: nat)
    requires Halfway(was, done, i) && i + 1 < |was|
    ensures Merging(was, done, i, i)
  {
    assert done + [was[i]] + was[i + 1..] == done + was[i..];
  }

  lemma MergeNext(was: seq<nat>, done: seq<nat>, i: nat, j: nat)
    requires Merging(was, done, i, j) && j + 3 < |was| && was[j + 1] == was[j + 2]
    ensures Merging(was, done, i, j + 2)
  {
    hide Odd;
    forall c: nat
      ensures Odd(done + [was[i]] + was[j + 3..], c) <==> Odd(was, c)
    {
      DropPair(done + [was[i]], was[j + 1], was[j + 3..], c);
      assert done + [was[i]] + was[j + 1..] == done + [was[i]] + [was[j + 1], was[j + 1]] + was[j + 3..];
      assert Odd(done + [was[i]] + was[j + 1..], c) <==> Odd(was, c);
    }
  }

  lemma MergeEnds(was: seq<nat>, done: seq<nat>, i: nat, j: nat)
    requires IsSet(was) && Halfway(was, done, i) && Merging(was, done, i, j) && was[i] != was[i + 1]
    requires j + 3 >= |was| || was[j + 1] != was[j + 2]
    ensures Halfway(was, done + [was[i], was[j + 1]], j + 2)
  {
    hide Odd;
    var done' := done + [was[i], was[j + 1]];
    forall c: nat
      ensures Odd(done' + was[j + 2..], c) <==> Odd(was, c)
    {
      assert done' + was[j + 2..] == done + [was[i]] + was[j + 1..];
      assert Odd(done + [was[i]] + was[j + 1..], c) <==> Odd(was, c);
    }
    assert was[i] < was[i + 1] <= was[j + 1];
    assert was[i] in was && was[j + 1] in was;
  }

  lemma HalfwayDone(was: seq<nat>, done: seq<nat>, i: nat)
    requires |was| % 2 == 0 && Halfway(was, done, i) && i + 1 >= |was|
    ensures Compressed(done, was)
  {
    assert done + was[i..] == done;
  }

  // ----- the class -----

  class CharRange {
    var points: seq<nat>

    constructor ()
      ensures points == []
    {
      points := [];
    }

    /** cr_add_point. */
    method AddPoint(v: nat)
      modifies this
      ensures points == old(points) + [v]
    {
      points := points + [v];
    }

    /** cr_add_interval. */
    method AddInterval(c1: nat, c2: nat)
      modifies this
      ensures points == old(points) + [c1, c2]
    {
      points := points + [c1];
      points := points + [c2];
    }

    /** cr_compress, in place. */
    method Compress()
      requires IsSet(points)
      modifies this
      ensures Compressed(points, old(points))
    {
      hide Halfway, Merging, IsSet, Compressed, Odd;
      var len := |points|;
      assert len % 2 == 0 by { SetIsEven(points); }
      var i, k := 0, 0;
      ghost var was := points;
      CompressStarts(was);
      while i + 1 < len
        invariant 0 <= k <= i <= len == |points| && points[i..] == was[i..]
        invariant Halfway(was, points[..k], i)
        decreases len - i
      {
        ghost var done := points[..k];
        assert points[i] == points[i..][0] == was[i] && points[i + 1] == points[i..][1] == was[i + 1];
        if points[i] == points[i + 1] {
          SkipEmpty(was, done, i);
          assert points[i + 2..] == points[i..][2..];
          i := i + 2;
        } else {
          var j := i;
          ghost var now := points;
          MergeStarts(was, done, i);
          while j + 3 < len && points[j + 1] == points[j + 2]
            invariant i <= j && j + 1 < len && points == now && points[j..] == was[j..] && Merging(was, done, i, j)
          {
            assert points[j + 1] == points[j..][1] && points[j + 2] == points[j..][2];
            MergeNext(was, done, i, j);
            assert points[j + 2..] == points[j..][2..];
            j := j + 2;
          }
          assert points[j + 1] == points[j..][1] == was[j + 1];
          assert j + 3 < len ==> points[j + 2] == points[j..][2] == was[j + 2];
          MergeEnds(was, done, i, j);
          HalfwayBounds(was, done, i);
          ghost var rest := points[j..][2..];
          points := points[k := points[i]];
          assert points[..k] == done && points[j + 1] == was[j + 1];
          points := points[k + 1 := points[j + 1]];
          assert points[..k] == done && points[k] == was[i] && points[k + 1] == was[j + 1];
          assert points[..k + 2] == points[..k] + [points[k], points[k + 1]];
          assert points[j + 2..] == rest;
          k := k + 2;
          i := j + 2;
        }
      }
      HalfwayDone(was, points[..k], i);
      points := points[..k];
    }

    /** cr_op, into an empty set. */
    method Op(a: seq<nat>, b: seq<nat>, op: SetOp)
      requires IsSet(a) && IsSet(b) && points == []
      modifies this
      ensures IsSet(points) && Increasing(points)
      ensures forall c: nat :: InPoints(points, c) <==> Apply(op, InPoints(a, c), InPoints(b, c))
      ensures forall k :: 0 <= k < |points| ==> points[k] in a || points[k] in b
    {
      hide InOrder, Merged, Odd, Compressed, InPoints, IsSet, Increasing;
      var i, j := 0, 0;
      MergeBegins(op, a, b);
      while i < |a| || j < |b|
        invariant 0 <= i <= |a| && 0 <= j <= |b|
        invariant InOrder(a, b, i, j, points) && Merged(op, a, b, i, j, points)
        invariant forall k :: 0 <= k < |points| ==> points[k] in a || points[k] in b
        decreases |a| - i + |b| - j
      {
        ghost var i0, j0 := i, j;
        var v;
        if i < |a| && j < |b| && a[i] == b[j] {
          v := a[i];
          i, j := i + 1, j + 1;
        } else if i < |a| && (j >= |b| || a[i] < b[j]) {
          v := a[i];
          i := i + 1;
        } else {
          v := b[j];
          j := j + 1;
        }
        TakePoint(op, a, b, i0, j0, points, i, j, v);
        var inside := Apply(op, i % 2 == 1, j % 2 == 1);
        if inside != (|points| % 2 == 1) {
          AddPoint(v);
        }
      }
      MergeFinishes(op, a, b, points);
      ghost var was := points;
      Compress();
      CompressedSet(points, was);
      forall c: nat
        ensures InPoints(points, c) <==> Apply(op, InPoints(a, c), InPoints(b, c))
      {
        InsideIsOdd(points, c);
        InsideIsOdd(a, c);
        InsideIsOdd(b, c);
        CompressedAt(points, was, c);
        MergedAt(op, a, b, was, c);
      }
    }

    /** cr_op1. */
    method Op1(b: seq<nat>, op: SetOp)
      requires IsSet(points) && IsSet(b)
      modifies this
      ensures IsSet(points) && Increasing(points)
      ensures forall c: nat :: InPoints(points, c) <==> Apply(op, old(InPoints(points, c)), InPoints(b, c))
    {
      var a := points;
      points := [];
      Op(a, b, op);
    }

    /** cr_union_interval. */
    method UnionInterval(c1: nat, c2: nat)
      requires IsSet(points) && c1 <= c2
      modifies this
      ensures IsSet(points) && Increasing(points)
      ensures forall c: nat :: InPoints(points, c) <==> old(InPoints(points, c)) || c1 <= c <= c2
    {
      var b := [c1, c2 + 1];
      forall c: nat
        ensures InPoints(b, c) <==> c1 <= c <= c2
      {
        assert Inside(b, 0, c) <==> c1 <= c <= c2;
      }
      Op1(b, UNION);
    }

    /** cr_invert: the complement among the code points below UINT32_MAX. */
    method Invert()
      requires IsSet(points) && forall k :: 0 <= k < |points| ==> points[k] <= UINT32_MAX
      modifies this
      ensures IsSet(points) && Increasing(points) && forall k :: 0 <= k < |points| ==> points[k] <= UINT32_MAX
      ensures forall c: nat :: InPoints(points, c) <==> c < UINT32_MAX && !old(InPoints(points, c))
    {
      hide Odd, Compressed, InPoints, Increasing;
      ghost var was := points;
      points := [0] + points + [UINT32_MAX];
      ghost var all := points;
      Compress();
      CompressedSet(points, all);
      forall c: nat
        ensures InPoints(points, c) <==> c < UINT32_MAX && !InPoints(was, c)
      {
        InsideIsOdd(points, c);
        InsideIsOdd(was, c);
        CompressedAt(points, all, c);
        InvertedAt(was, c);
      }
    }
  }

  lemma SetIsEven(points: seq<nat>)
    requires IsSet(points)
    ensures |points| % 2 == 0
  {
  }

  lemma CompressStarts(was: seq<nat>)
    ensures Halfway(was, was[..0], 0)
  {
    assert was[..0] + was[0..] == was;
  }

  lemma HalfwayBounds(was: seq<nat>, done: seq<nat>, i: nat)
    requires Halfway(was, done, i)
    ensures |done| <= i && |done| % 2 == 0 && i % 2 == 0
  {
  }

  lemma MergeBegins(op: SetOp, a: seq<nat>, b: seq<nat>)
    requires IsSet(a) && IsSet(b)
    ensures InOrder(a, b, 0, 0, []) && Merged(op, a, b, 0, 0, [])
  {
  }

  lemma MergeFinishes(op: SetOp, a: seq<nat>, b: seq<nat>, out: seq<nat>)
    requires IsSet(a) && IsSet(b) && InOrder(a, b, |a|, |b|, out) && Merged(op, a, b, |a|, |b|, out)
    ensures IsSet(out)
  {
    hide Odd;
  }

  lemma MergedAt(op: SetOp, a: seq<nat>, b: seq<nat>, out: seq<nat>, c: nat)
    requires Merged(op, a, b, |a|, |b|, out)
    ensures Odd(out, c) <==> Apply(op, Odd(a, c), Odd(b, c))
  {
    hide Odd;
    assert a[..|a|] == a && b[..|b|] == b;
  }

  lemma CompressedSet(out: seq<nat>, points: seq<nat>)
    requires Compressed(out, points)
    ensures IsSet(out) && Increasing(out) && forall k :: 0 <= k < |out| ==> out[k] in points
  {
  }

  lemma CompressedAt(out: seq<nat>, points: seq<nat>, c: nat)
    requires Compressed(out, points)
    ensures Odd(out, c) <==> Odd(points, c)
  {
  }

  lemma InvertedAt(was: seq<nat>, c: nat)
    requires IsSet(was) && forall k :: 0 <= k < |was| ==> was[k] <= UINT32_MAX
    ensures Odd([0] + was + [UINT32_MAX], c) <==> c < UINT32_MAX && !Odd(was, c)
  {
    hide Count;
    CountSnoc([0] + was, UINT32_MAX, c);
    CountAppend([0], was, c);
    CountAll([0], c);
    if c >= UINT32_MAX {
      CountAll(was, c);
    }
  }
}
