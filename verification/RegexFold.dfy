/** Case folding in patterns: classes that ignore case, and the folding function of the interpreter. */
module RegexFold {
  import opened CharInput
  import opened RegexSyntax
  import opened RegexOutcomes
  import opened RegexOpcode
  import opened RegexRange
  import opened RegexCompile
  import opened RegexVm
  import opened RegexSimple
  import opened CharSets
  import opened CaseConv
  import opened CaseFold

  function FoldCode(t: CaseData, c: CodePoint, unicode: bool): CodePoint
    requires GoodData(t)
  {
    FoldIsCode(t, c, unicode);
    CaseConv.Fold(t, c, unicode)
  }

  /** The folding function of a match. */
  function Canon(t: CaseData, unicode: bool): CodePoint -> CodePoint
    requires GoodData(t)
  {
    c => FoldCode(t, c, unicode)
  }

  /** Characters from first to last, as written in a class. */
  datatype Item = Item(first: CodePoint, last: CodePoint)

  predicate ItemHas(item: Item, x: nat)
  {
    item.first <= x <= item.last
  }

  function Folded(t: CaseData, icase: bool, unicode: bool, x: nat): nat
    requires GoodData(t)
  {
    if icase then CaseConv.Fold(t, x, unicode) else x
  }

  ghost predicate ItemFolds(t: CaseData, icase: bool, unicode: bool, item: Item, d: nat)
    requires GoodData(t)
  {
    exists x: nat :: ItemHas(item, x) && Folded(t, icase, unicode, x) == d
  }

  /** d is what a character of one of the items is folded to. */
  ghost predicate ItemsFold(t: CaseData, icase: bool, unicode: bool, items: seq<Item>, d: nat)
    requires GoodData(t)
  {
    exists k :: 0 <= k < |items| && ItemFolds(t, icase, unicode, items[k], d)
  }

  /** A class of characters and ranges: each is folded and added, and then the set is inverted. */
  method ParseClass(t: CaseData, items: seq<Item>, invert: bool, icase: bool, unicode: bool) returns (cr: CharRange)
    requires GoodData(t) && forall k :: 0 <= k < |items| ==> items[k].first <= items[k].last
    ensures ValidPoints(cr.points)
    ensures forall d: nat :: d < UINT32_MAX ==>
              (InPoints(cr.points, d) <==> ItemsFold(t, icase, unicode, items, d) != invert)
  {
    hide InPoints, ItemFolds, GoodData, IsSet, Increasing, ValidPoints;
    cr := new CharRange();
    NoPoints();
    for n := 0 to |items|
      invariant fresh(cr) && IsSet(cr.points) && Increasing(cr.points)
      invariant forall d: nat :: InPoints(cr.points, d) <==> ItemsFold(t, icase, unicode, items[..n], d)
    {
      ghost var was := cr.points;
      AddItem(t, cr, items[n], icase, unicode);
      forall d: nat
        ensures InPoints(cr.points, d) <==> ItemsFold(t, icase, unicode, items[..n + 1], d)
      {
        OneMoreItem(t, icase, unicode, items, n, d);
      }
    }
    assert items[..|items|] == items;
    forall d: nat | InPoints(cr.points, d)
      ensures d < UINT32_MAX
    {
      FoldedBelow(t, icase, unicode, items, d);
    }
    PointsBelow(cr.points);
    if invert {
      cr.Invert();
    }
    PointsValid(cr.points);
  }

  /** A range or a single character. */
  method AddItem(t: CaseData, cr: CharRange, item: Item, icase: bool, unicode: bool)
    requires GoodData(t) && IsSet(cr.points) && item.first <= item.last
    modifies cr
    ensures IsSet(cr.points) && Increasing(cr.points)
    ensures forall d: nat :: InPoints(cr.points, d) <==> old(InPoints(cr.points, d)) || ItemFolds(t, icase, unicode, item, d)
  {
    hide InPoints, GoodData, IsSet, Increasing, CaseConv.Fold;
    if item.first == item.last {
      var c := item.first;
      if icase {
        c := CanonicalizeChar(t, item.first, unicode);
      }
      assert ItemHas(item, item.first) && Folded(t, icase, unicode, item.first) == c;
      cr.UnionInterval(c, c);
    } else if icase {
      var cr2 := new CharRange();
      cr2.AddInterval(item.first, item.last + 1);
      assert cr2.points == [item.first, item.last + 1];
      OneInterval(item.first, item.last + 1);
      ghost var range := cr2.points;
      Canonicalize(t, cr2, unicode);
      cr.Op1(cr2.points, UNION);
      forall d: nat
        ensures ItemFolds(t, icase, unicode, item, d) <==> InPoints(cr2.points, d)
      {
        RangeFolds(t, unicode, item, range, d);
      }
    } else {
      cr.UnionInterval(item.first, item.last);
      forall d: nat
        ensures item.first <= d <= item.last <==> ItemFolds(t, icase, unicode, item, d)
      {
        assert ItemHas(item, d) ==> Folded(t, icase, unicode, d) == d;
      }
    }
  }

  lemma OneInterval(x: nat, y: nat)
    requires x < y
    ensures IsSet([x, y]) && forall c: nat :: InPoints([x, y], c) <==> x <= c < y
  {
    forall c: nat
      ensures InPoints([x, y], c) <==> x <= c < y
    {
      InOne(x, y, c);
    }
  }

  lemma RangeFolds(t: CaseData, unicode: bool, item: Item, range: seq<nat>, d: nat)
    requires GoodData(t) && forall x: nat :: InPoints(range, x) <==> ItemHas(item, x)
    ensures ItemFolds(t, true, unicode, item, d) <==> exists x: nat :: InPoints(range, x) && CaseConv.Fold(t, x, unicode) == d
  {
    hide InPoints, GoodData, CaseConv.Fold;
    if ItemFolds(t, true, unicode, item, d) {
      var x: nat :| ItemHas(item, x) && Folded(t, true, unicode, x) == d;
      assert InPoints(range, x);
    }
    if x: nat :| InPoints(range, x) && CaseConv.Fold(t, x, unicode) == d {
      assert ItemHas(item, x) && Folded(t, true, unicode, x) == d;
    }
  }

  lemma NoPoints()
    ensures IsSet([]) && Increasing([]) && forall c: nat :: !InPoints([], c)
  {
  }

  lemma OneMoreItem(t: CaseData, icase: bool, unicode: bool, items: seq<Item>, n: nat, d: nat)
    requires GoodData(t) && n < |items|
    ensures ItemsFold(t, icase, unicode, items[..n + 1], d) <==>
            ItemsFold(t, icase, unicode, items[..n], d) || ItemFolds(t, icase, unicode, items[n], d)
  {
    hide ItemFolds, GoodData;
    var s := items[..n + 1];
    if ItemsFold(t, icase, unicode, s, d) {
      var k :| 0 <= k < |s| && ItemFolds(t, icase, unicode, s[k], d);
      assert k < n ==> items[..n][k] == s[k];
    }
    if ItemsFold(t, icase, unicode, items[..n], d) {
      var k :| 0 <= k < n && ItemFolds(t, icase, unicode, items[..n][k], d);
      assert s[k] == items[..n][k];
    }
    assert s[n] == items[n];
  }

  lemma FoldedBelow(t: CaseData, icase: bool, unicode: bool, items: seq<Item>, d: nat)
    requires GoodData(t) && ItemsFold(t, icase, unicode, items, d)
    ensures d < UINT32_MAX
  {
    hide GoodData, CaseConv.Fold;
    var k :| 0 <= k < |items| && ItemFolds(t, icase, unicode, items[k], d);
    var x: nat :| ItemHas(items[k], x) && Folded(t, icase, unicode, x) == d;
    FoldIsCode(t, x, unicode);
  }

  /** The boundaries of a set below UINT32_MAX. */
  lemma PointsBelow(points: seq<nat>)
    requires IsSet(points) && Increasing(points) && forall d: nat :: InPoints(points, d) ==> d < UINT32_MAX
    ensures forall k :: 0 <= k < |points| ==> points[k] <= UINT32_MAX
  {
    if points != [] {
      var last := points[|points| - 1];
      assert points[|points| - 2] < last;
      assert Inside(points, |points| / 2 - 1, last - 1);
      assert InPoints(points, last - 1);
    }
  }

  lemma PointsValid(points: seq<nat>)
    requires IsSet(points) && Increasing(points) && forall k :: 0 <= k < |points| ==> points[k] <= UINT32_MAX
    ensures ValidPoints(points)
  {
  }

  /** CharacterSetMatcher: the instruction for a class, run on a character, accepts it exactly if a character
      of the class has the same canonical form, or none has for an inverted class. */
  lemma ClassMatchesFolded(e: Env, t: CaseData, items: seq<Item>, invert: bool, icase: bool, unicode: bool,
                           points: seq<nat>, c: CodePoint)
    requires GoodData(t) && e.canon == Canon(t, unicode) && ValidPoints(points)
    requires forall d: nat :: d < UINT32_MAX ==>
               (InPoints(points, d) <==> ItemsFold(t, icase, unicode, items, d) != invert)
    ensures var i := RangeInstr(points, icase);
            CharOp(i) && TestOp(i) && (AcceptsChar(e, i, c) <==>
              (exists k, x: nat :: 0 <= k < |items| && ItemHas(items[k], x) &&
                Folded(t, icase, unicode, x) == Folded(t, icase, unicode, c)) != invert)
  {
    hide InPoints, GoodData, CaseConv.Fold, ValidPoints, AcceptsChar, TestOp;
    var r := Class(points, icase);
    OneCharAccepts(e, r, c);
    var d := Folded(t, icase, unicode, c);
    assert RegexOutcomes.Fold(e, icase, c) == d;
    if ItemsFold(t, icase, unicode, items, d) {
      var k :| 0 <= k < |items| && ItemFolds(t, icase, unicode, items[k], d);
      var x: nat :| ItemHas(items[k], x) && Folded(t, icase, unicode, x) == d;
    }
    if k, x: nat :| 0 <= k < |items| && ItemHas(items[k], x) && Folded(t, icase, unicode, x) == d {
      assert ItemFolds(t, icase, unicode, items[k], d);
    }
  }
}
