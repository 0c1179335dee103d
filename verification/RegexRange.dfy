/** Character classes as range tables: what re_emit_range writes and how the range opcodes search it. */
module RegexRange {
  import opened RegexSyntax
  import opened RegexOpcode

  /** 16-bit pairs have inclusive ends, and 0xFFFF as the last end stands for infinity. */
  function Pairs16(points: seq<nat>): (pairs: seq<(nat, nat)>)
    requires ValidPoints(points)
    ensures |pairs| == |points| / 2
  {
    seq(|points| / 2, i requires 0 <= i < |points| / 2 =>
      assert points[2 * i] < points[2 * i + 1];
      (points[2 * i], if points[2 * i + 1] == UINT32_MAX then 0xFFFF else points[2 * i + 1] - 1))
  }

  function Pairs32(points: seq<nat>): (pairs: seq<(nat, nat)>)
    requires ValidPoints(points)
    ensures |pairs| == |points| / 2
  {
    seq(|points| / 2, i requires 0 <= i < |points| / 2 =>
      assert points[2 * i] < points[2 * i + 1];
      (points[2 * i], points[2 * i + 1] - 1))
  }

  /** 16-bit pairs are used when every finite point fits. */
  predicate Narrow(points: seq<nat>)
    requires ValidPoints(points) && points != []
  {
    var high := points[|points| - 1];
    (if high == UINT32_MAX then points[|points| - 2] else high) <= 0xFFFF
  }

  /** The instruction for a class; an empty class becomes a comparison that never succeeds. */
  function RangeInstr(points: seq<nat>, icase: bool): (i: Instr)
    requires ValidPoints(points)
    ensures |points| / 2 <= 0xFFFF ==> Encodable(i)
  {
    if points == [] then Char32(UINT32_MAX, false)
    else if Narrow(points) then
      assert PairsFit(Pairs16(points), 0xFFFF) by { NarrowPairsFit(points); }
      Range16(icase, Pairs16(points))
    else Range32(icase, Pairs32(points))
  }

  lemma NarrowPairsFit(points: seq<nat>)
    requires ValidPoints(points) && points != [] && Narrow(points)
    ensures PairsFit(Pairs16(points), 0xFFFF)
  {
    forall i | 0 <= i < |points| / 2
      ensures points[2 * i] <= 0xFFFF
      ensures points[2 * i + 1] == UINT32_MAX || points[2 * i + 1] <= 0xFFFF
    {
      var last := |points| - 1;
      assert 2 * i + 1 < last ==> points[2 * i + 1] < points[last - 1] < points[last];
      assert points[2 * i] <= points[last - 1] < points[last];
    }
  }

  /** The binary search over entries lo..hi. */
  predicate Search(pairs: seq<(nat, nat)>, c: nat, lo: nat, hi: int)
    requires hi < |pairs|
    decreases hi - lo + 1
  {
    lo <= hi &&
    var mid := (lo + hi) / 2;
    if c < pairs[mid].0 then Search(pairs, c, lo, mid - 1)
    else if c > pairs[mid].1 then Search(pairs, c, mid + 1, hi)
    else true
  }

  predicate Hit16(pairs: seq<(nat, nat)>, c: nat)
    requires pairs != []
  {
    var last := |pairs| - 1;
    c >= pairs[0].0 &&
    ((c >= 0xFFFF && pairs[last].1 == 0xFFFF) ||
     (c <= pairs[last].1 && Search(pairs, c, 0, last)))
  }

  predicate Hit32(pairs: seq<(nat, nat)>, c: nat)
    requires pairs != []
  {
    c >= pairs[0].0 && c <= pairs[|pairs| - 1].1 && Search(pairs, c, 0, |pairs| - 1)
  }

  predicate SortedPairs(pairs: seq<(nat, nat)>)
  {
    (forall i :: 0 <= i < |pairs| ==> pairs[i].0 <= pairs[i].1) &&
    forall i, j :: 0 <= i < j < |pairs| ==> pairs[i].1 < pairs[j].0
  }

  predicate Holding(pairs: seq<(nat, nat)>, i: int, c: nat)
  {
    0 <= i < |pairs| && pairs[i].0 <= c <= pairs[i].1
  }

  /** On a sorted table the search finds exactly the entries that contain `c`. */
  lemma {:induction false} SearchFinds(pairs: seq<(nat, nat)>, c: nat, lo: nat, hi: int)
    requires SortedPairs(pairs) && hi < |pairs|
    ensures Search(pairs, c, lo, hi) <==> exists i :: lo <= i <= hi && Holding(pairs, i, c)
    decreases hi - lo + 1
  {
    if lo <= hi {
      var mid := (lo + hi) / 2;
      if c < pairs[mid].0 {
        SearchFinds(pairs, c, lo, mid - 1);
      } else if c > pairs[mid].1 {
        SearchFinds(pairs, c, mid + 1, hi);
      } else {
        assert Holding(pairs, mid, c);
      }
    }
  }

  lemma PointsApart(points: seq<nat>, i: nat, j: nat)
    requires ValidPoints(points) && i <= j < |points| / 2
    ensures points[2 * i] < points[2 * i + 1] && points[2 * j] < points[2 * j + 1]
    ensures i < j ==> points[2 * i + 1] < points[2 * j] && points[2 * i + 1] < UINT32_MAX
  {
  }

  lemma Sorted32(points: seq<nat>)
    requires ValidPoints(points)
    ensures SortedPairs(Pairs32(points))
  {
    var p := Pairs32(points);
    forall i | 0 <= i < |p| ensures p[i].0 <= p[i].1 { PointsApart(points, i, i); }
    forall i, j | 0 <= i < j < |p| ensures p[i].1 < p[j].0 { PointsApart(points, i, j); }
  }

  lemma Sorted16(points: seq<nat>)
    requires ValidPoints(points) && points != [] && Narrow(points)
    ensures SortedPairs(Pairs16(points))
  {
    var p := Pairs16(points);
    NarrowPairsFit(points);
    forall i | 0 <= i < |p| ensures p[i].0 <= p[i].1 { PointsApart(points, i, i); }
    forall i, j | 0 <= i < j < |p| ensures p[i].1 < p[j].0 { PointsApart(points, i, j); }
  }

  /** Sorted tables need no more than the search. */
  lemma ExtremesHold(pairs: seq<(nat, nat)>, c: nat)
    requires SortedPairs(pairs) && pairs != []
    ensures Search(pairs, c, 0, |pairs| - 1) ==> pairs[0].0 <= c <= pairs[|pairs| - 1].1
    ensures Search(pairs, c, 0, |pairs| - 1) <==> exists i :: Holding(pairs, i, c)
  {
    SearchFinds(pairs, c, 0, |pairs| - 1);
  }

  /** The range opcodes accept a character exactly when the class contains it. */
  lemma RangeFinds(points: seq<nat>, c: nat)
    requires ValidPoints(points) && points != [] && c < UINT32_MAX
    ensures Narrow(points) ==> (Hit16(Pairs16(points), c) <==> InPoints(points, c))
    ensures !Narrow(points) ==> (Hit32(Pairs32(points), c) <==> InPoints(points, c))
  {
    if Narrow(points) {
      NarrowFinds(points, c);
    } else {
      var p := Pairs32(points);
      Sorted32(points);
      ExtremesHold(p, c);
      assert forall i :: Inside(points, i, c) <==> Holding(p, i, c);
    }
  }

  lemma NarrowInside(points: seq<nat>, i: int, c: nat)
    requires ValidPoints(points) && points != [] && Narrow(points) && c < UINT32_MAX
    requires c < 0xFFFF || points[|points| - 1] != UINT32_MAX
    ensures Inside(points, i, c) <==> Holding(Pairs16(points), i, c)
  {
    NarrowPairsFit(points);
    if 0 <= i < |points| / 2 - 1 {
      PointsApart(points, i, |points| / 2 - 1);
    }
  }

  lemma NarrowFinds(points: seq<nat>, c: nat)
    requires ValidPoints(points) && points != [] && c < UINT32_MAX && Narrow(points)
    ensures Hit16(Pairs16(points), c) <==> InPoints(points, c)
  {
    var last := |points| / 2 - 1;
    var p := Pairs16(points);
    NarrowPairsFit(points);
    Sorted16(points);
    ExtremesHold(p, c);
    PointsApart(points, last, last);
    if c >= 0xFFFF && p[last].1 == 0xFFFF {
      assert Inside(points, last, c);
      assert p[0].0 <= p[last].0;
    } else {
      forall i {
        NarrowInside(points, i, c);
      }
    }
  }
}
