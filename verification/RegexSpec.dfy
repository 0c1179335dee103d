/** Pattern semantics in the style of section 22.2.2 of ECMA-262: matchers that take a state and a
    continuation. Captures follow the interpreter: start and end are written separately, and an
    optional quantifier resets the captures of its atom once, before the first iteration. */
module RegexSpec {
  import opened CharInput
  import opened RegexSyntax
  import opened RegexOutcomes
  import opened RegexLoops
  import opened RegexAdvance
  import opened RegexCorrect
  import opened RegexQuant
  import opened RegexTheorem
  import opened RegexVm

  datatype MatchResult = Failure | Success(state: St)

  type Continuation = St -> MatchResult

  function Accept(y: St): MatchResult { Success(y) }

  /** Matches `r` from `x` and goes on with `k`. */
  function Matcher(e: Env, r: Re, cc: nat, bw: bool, x: St, k: Continuation): MatchResult
    decreases r, 0, 0, 0
  {
    if !ValidSt(e, x) then Failure else
    match r
    case Empty => k(x)
    case Char(_, _) => CharMatcher(e, r, bw, x, k)
    case AnyChar(_) => CharMatcher(e, r, bw, x, k)
    case Class(_, _) => CharMatcher(e, r, bw, x, k)
    case ClassOrEmpty(points, icase) =>
      var z := CharMatcher(e, Class(points, icase), bw, x, k);
      if z.Success? then z else k(x)
    case LineStart(_) => if Holds(e, r, x.pos) then k(x) else Failure
    case LineEnd(_) => if Holds(e, r, x.pos) then k(x) else Failure
    case WordBoundary(_, _) => if Holds(e, r, x.pos) then k(x) else Failure
    case BackRef(index, icase) =>
      var p := BackReference(e, icase, bw, index, x);
      if p.SomePos? then k(x.(pos := p.pos)) else Failure
    case Seq(a, b) =>
      if bw then Matcher(e, b, cc + Groups(a), bw, x, y => Matcher(e, a, cc, bw, y, k))
      else Matcher(e, a, cc, bw, x, y => Matcher(e, b, cc + Groups(a), bw, y, k))
    case Alt(a, b) =>
      var z := Matcher(e, a, cc, bw, x, k);
      if z.Success? then z else Matcher(e, b, cc + Groups(a), bw, x, k)
    case Group(a) =>
      Matcher(e, a, cc + 1, bw, SetSlot(x, Opening(cc, bw)), y => k(SetSlot(y, Closing(cc, bw))))
    case Look(a, negated, behind) =>
      var z := Matcher(e, a, cc, behind, x, Accept);
      if negated then (if z.Success? then Failure else k(x))
      else if z.Success? then k(x.(caps := z.state.caps)) else Failure
    case Quant(a, min, max, greedy) =>
      RepeatMatcher(e, a, cc, bw, min, max, greedy, if min == 0 then Reset(x, cc, cc + Groups(a)) else x, k)
  }

  function CharMatcher(e: Env, r: Re, bw: bool, x: St, k: Continuation): MatchResult
    requires r.Char? || r.AnyChar? || r.Class?
    requires ValidSt(e, x)
  {
    var ys := OneChar(e, r, bw, x);
    if ys == [] then Failure else k(ys[0])
  }

  /** Section 22.2.2.3.1: between `min` and `max` iterations, where an iteration beyond the
      required ones must move. */
  function RepeatMatcher(
    e: Env, a: Re, cc: nat, bw: bool, min: nat, max: nat, greedy: bool, x: St, k: Continuation): MatchResult
    decreases a, 1, min, if ValidSt(e, x) then Room(e, bw, x) else 0
  {
    if !ValidSt(e, x) then Failure
    else if max == 0 then k(x)
    else
      var max2 := if max == INFINITY then INFINITY else max - 1;
      if min > 0 then
        Matcher(e, a, cc, bw, x, y => RepeatMatcher(e, a, cc, bw, min - 1, max2, greedy, y, k))
      else
        var d := (y: St) =>
          if y.pos == x.pos || !Follows(e, bw, x, y) then Failure
          else RepeatMatcher(e, a, cc, bw, 0, max2, greedy, y, k);
        if greedy then
          var z := Matcher(e, a, cc, bw, x, d);
          if z.Success? then z else k(x)
        else
          var z := k(x);
          if z.Success? then z else Matcher(e, a, cc, bw, x, d)
  }

  /** The first of the states that the continuation accepts. */
  function First(ys: seq<St>, k: Continuation): MatchResult
  {
    if ys == [] then Failure else
    var z := k(ys[0]);
    if z.Success? then z else First(ys[1..], k)
  }

  lemma {:induction false} FirstAppend(ys: seq<St>, zs: seq<St>, k: Continuation)
    ensures First(ys + zs, k) == if First(ys, k).Success? then First(ys, k) else First(zs, k)
  {
    if ys == [] {
      assert ys + zs == zs;
    } else {
      assert (ys + zs)[1..] == ys[1..] + zs;
      FirstAppend(ys[1..], zs, k);
    }
  }

  /** Trying the continuations of each ys[i] in turn is trying all the zss[i] in turn. */
  lemma {:induction false} FirstFlat(ys: seq<St>, d: Continuation, zss: seq<seq<St>>, k: Continuation)
    requires |zss| == |ys| && forall i :: 0 <= i < |ys| ==> d(ys[i]) == First(zss[i], k)
    ensures First(ys, d) == First(Flat(zss), k)
  {
    if ys != [] {
      FirstFlat(ys[1..], d, zss[1..], k);
      FirstAppend(zss[0], Flat(zss[1..]), k);
    }
  }

  lemma {:induction false} FirstAdvancing(ys: seq<St>, p: nat, d: Continuation)
    requires forall i :: 0 <= i < |ys| && ys[i].pos == p ==> d(ys[i]) == Failure
    ensures First(ys, d) == First(Advancing(ys, p), d)
  {
    if ys != [] {
      FirstAdvancing(ys[1..], p, d);
    }
  }

  lemma FirstOne(x: St, k: Continuation)
    ensures First([x], k) == k(x) || (First([x], k) == Failure && k(x) == Failure)
  {
    assert [x][1..] == [];
  }

  lemma {:induction false} FirstMap(ys: seq<St>, zs: seq<St>, d: Continuation, k: Continuation)
    requires |zs| == |ys| && forall i :: 0 <= i < |ys| ==> d(ys[i]) == k(zs[i])
    ensures First(ys, d) == First(zs, k)
  {
    if ys != [] {
      FirstMap(ys[1..], zs[1..], d, k);
    }
  }

  lemma FirstAccepted(ys: seq<St>)
    ensures First(ys, Accept) == if ys == [] then Failure else Success(ys[0])
  {
  }

  /** The continuation matcher gives the first outcome that the continuation accepts. */
  lemma {:induction false} MatcherAgrees(e: Env, r: Re, cc: nat, bw: bool, x: St, k: Continuation)
    requires ValidSt(e, x) && WellFormed(r)
    ensures Matcher(e, r, cc, bw, x, k) == First(Outcomes(e, r, cc, bw, x), k)
    decreases r, 3, 0, 0
  {
    match r {
      case Seq(a, b) => SeqAgrees(e, a, b, cc, bw, x, k);
      case Alt(a, b) => AltAgrees(e, a, b, cc, bw, x, k);
      case Group(a) => GroupAgrees(e, a, cc, bw, x, k);
      case Look(a, negated, behind) => LookAgrees(e, a, negated, behind, cc, bw, x, k);
      case Quant(a, min, max, greedy) => QuantifierAgrees(e, a, min, max, greedy, cc, bw, x, k);
      case ClassOrEmpty(points, icase) => OrEmptyAgrees(e, points, icase, cc, bw, x, k);
      case _ => LeafAgrees(e, r, cc, bw, x, k);
    }
  }

  lemma LeafAgrees(e: Env, r: Re, cc: nat, bw: bool, x: St, k: Continuation)
    requires ValidSt(e, x) && !r.Seq? && !r.Alt? && !r.Group? && !r.Look? && !r.Quant? && !r.ClassOrEmpty?
    ensures Matcher(e, r, cc, bw, x, k) == First(Outcomes(e, r, cc, bw, x), k)
  {
    hide ValidSt, BackReference, OneChar, Holds;
    var ys := Outcomes(e, r, cc, bw, x);
    assert |ys| <= 1;
    if ys != [] {
      assert ys == [ys[0]];
      FirstOne(ys[0], k);
    }
  }

  lemma OrEmptyAgrees(e: Env, points: seq<nat>, icase: bool, cc: nat, bw: bool, x: St, k: Continuation)
    requires ValidSt(e, x)
    ensures var r := ClassOrEmpty(points, icase);
            Matcher(e, r, cc, bw, x, k) == First(Outcomes(e, r, cc, bw, x), k)
  {
    hide ValidSt, OneChar;
    var ys := OneChar(e, Class(points, icase), bw, x);
    FirstAppend(ys, [x], k);
    FirstOne(x, k);
    if ys != [] {
      assert ys == [ys[0]];
      FirstOne(ys[0], k);
    }
  }

  lemma ThenAgrees(
    e: Env, a: Re, ca: nat, b: Re, cb: nat, bw: bool, x: St, k: Continuation, whole: Re)
    requires ValidSt(e, x) && a < whole && b < whole && WellFormed(a) && WellFormed(b)
    ensures Matcher(e, a, ca, bw, x, y => Matcher(e, b, cb, bw, y, k)) == First(Then(e, a, ca, b, cb, bw, x, whole), k)
    decreases whole, 0, 0, 0
  {
    hide Matcher, Outcomes, ValidSt;
    var d := (y: St) => Matcher(e, b, cb, bw, y, k);
    var ys := Outcomes(e, a, ca, bw, x);
    var zss := seq(|ys|, i requires 0 <= i < |ys| => Outcomes(e, b, cb, bw, ys[i]));
    MatcherAgrees(e, a, ca, bw, x, d);
    forall i | 0 <= i < |ys|
      ensures d(ys[i]) == First(zss[i], k)
    {
      assert Follows(e, bw, x, ys[i]);
      MatcherAgrees(e, b, cb, bw, ys[i], k);
    }
    FirstFlat(ys, d, zss, k);
  }

  lemma MatcherSeq(e: Env, a: Re, b: Re, cc: nat, bw: bool, x: St, k: Continuation)
    requires ValidSt(e, x)
    ensures Matcher(e, Seq(a, b), cc, bw, x, k) ==
            if bw then Matcher(e, b, cc + Groups(a), bw, x, y => Matcher(e, a, cc, bw, y, k))
            else Matcher(e, a, cc, bw, x, y => Matcher(e, b, cc + Groups(a), bw, y, k))
  {
    hide ValidSt;
  }

  lemma SeqAgrees(e: Env, a: Re, b: Re, cc: nat, bw: bool, x: St, k: Continuation)
    requires ValidSt(e, x) && WellFormed(a) && WellFormed(b)
    ensures Matcher(e, Seq(a, b), cc, bw, x, k) == First(Outcomes(e, Seq(a, b), cc, bw, x), k)
    decreases Seq(a, b), 2, 0, 0
  {
    hide Matcher, Outcomes, ValidSt, Then;
    OutcomesSeq(e, a, b, cc, bw, x);
    MatcherSeq(e, a, b, cc, bw, x, k);
    if bw {
      ThenAgrees(e, b, cc + Groups(a), a, cc, bw, x, k, Seq(a, b));
    } else {
      ThenAgrees(e, a, cc, b, cc + Groups(a), bw, x, k, Seq(a, b));
    }
  }

  lemma MatcherAlt(e: Env, a: Re, b: Re, cc: nat, bw: bool, x: St, k: Continuation)
    requires ValidSt(e, x)
    ensures var z := Matcher(e, a, cc, bw, x, k);
            Matcher(e, Alt(a, b), cc, bw, x, k) == if z.Success? then z else Matcher(e, b, cc + Groups(a), bw, x, k)
  {
    hide ValidSt;
  }

  lemma AltAgrees(e: Env, a: Re, b: Re, cc: nat, bw: bool, x: St, k: Continuation)
    requires ValidSt(e, x) && WellFormed(a) && WellFormed(b)
    ensures Matcher(e, Alt(a, b), cc, bw, x, k) == First(Outcomes(e, Alt(a, b), cc, bw, x), k)
    decreases Alt(a, b), 2, 0, 0
  {
    hide Outcomes, Matcher, ValidSt;
    OutcomesAlt(e, a, b, cc, bw, x);
    MatcherAlt(e, a, b, cc, bw, x, k);
    MatcherAgrees(e, a, cc, bw, x, k);
    MatcherAgrees(e, b, cc + Groups(a), bw, x, k);
    FirstAppend(Outcomes(e, a, cc, bw, x), Outcomes(e, b, cc + Groups(a), bw, x), k);
  }

  lemma GroupAgrees(e: Env, a: Re, cc: nat, bw: bool, x: St, k: Continuation)
    requires ValidSt(e, x) && WellFormed(a)
    ensures Matcher(e, Group(a), cc, bw, x, k) == First(Outcomes(e, Group(a), cc, bw, x), k)
    decreases Group(a), 2, 0, 0
  {
    OutcomesGroup(e, a, cc, bw, x);
    hide Outcomes, ValidSt;
    var y := SetSlot(x, Opening(cc, bw));
    var d := (y: St) => k(SetSlot(y, Closing(cc, bw)));
    var ys := Outcomes(e, a, cc + 1, bw, y);
    MatcherAgrees(e, a, cc + 1, bw, y, d);
    FirstMap(ys, seq(|ys|, i requires 0 <= i < |ys| => SetSlot(ys[i], Closing(cc, bw))), d, k);
  }

  lemma LookAgrees(e: Env, a: Re, negated: bool, behind: bool, cc: nat, bw: bool, x: St, k: Continuation)
    requires ValidSt(e, x) && WellFormed(a)
    ensures Matcher(e, Look(a, negated, behind), cc, bw, x, k) ==
            First(Outcomes(e, Look(a, negated, behind), cc, bw, x), k)
    decreases Look(a, negated, behind), 2, 0, 0
  {
    OutcomesLook(e, a, negated, behind, cc, bw, x);
    hide Outcomes, ValidSt;
    MatcherAgrees(e, a, cc, behind, x, Accept);
    var ys := Outcomes(e, a, cc, behind, x);
    FirstOne(x, k);
    if ys != [] {
      FirstOne(x.(caps := ys[0].caps), k);
    }
  }

  lemma QuantifierAgrees(
    e: Env, a: Re, min: nat, max: nat, greedy: bool, cc: nat, bw: bool, x: St, k: Continuation)
    requires ValidSt(e, x) && WellFormed(Quant(a, min, max, greedy))
    ensures Matcher(e, Quant(a, min, max, greedy), cc, bw, x, k) ==
            First(Outcomes(e, Quant(a, min, max, greedy), cc, bw, x), k)
    decreases Quant(a, min, max, greedy), 2, 0, 0
  {
    OutcomesQuant(e, a, min, max, greedy, cc, bw, x);
    hide Outcomes, ValidSt, Times, RepeatMatcher, Reset;
    RepeatAgrees(e, a, cc, bw, min, max, greedy, if min == 0 then Reset(x, cc, cc + Groups(a)) else x, k);
  }

  /** RepeatMatcher, which counts `max` down from the start, against required and then optional
      iterations. */
  lemma {:induction false} RepeatAgrees(
    e: Env, a: Re, cc: nat, bw: bool, min: nat, max: nat, greedy: bool, x: St, k: Continuation)
    requires ValidSt(e, x) && WellFormed(a) && min <= max <= INFINITY
    ensures RepeatMatcher(e, a, cc, bw, min, max, greedy, x, k) ==
            First(Times(e, a, cc, bw, min, Extra(min, max), greedy, x), k)
    decreases a, 4, min, Room(e, bw, x)
  {
    hide Outcomes, Times, Repeat, Matcher, ValidSt;
    TimesUnfolds(e, a, cc, bw, min, Extra(min, max), greedy, x);
    if max == 0 {
      RepeatUnfolds(e, a, cc, bw, AtMost(0), greedy, x);
      FirstOne(x, k);
    } else if min > 0 {
      RequiredAgrees(e, a, cc, bw, min, max, greedy, x, k);
    } else {
      OptionalAgrees(e, a, cc, bw, max, greedy, x, k);
    }
  }

  lemma RequiredAgrees(
    e: Env, a: Re, cc: nat, bw: bool, min: nat, max: nat, greedy: bool, x: St, k: Continuation)
    requires ValidSt(e, x) && WellFormed(a) && 0 < min <= max <= INFINITY
    ensures RepeatMatcher(e, a, cc, bw, min, max, greedy, x, k) ==
            First(Flat(Remaining(e, a, cc, bw, min - 1, Extra(min, max), greedy, x)), k)
    decreases a, 4, min, Room(e, bw, x), 0
  {
    hide Outcomes, Times, Repeat, Matcher, ValidSt;
    var max2 := if max == INFINITY then INFINITY else max - 1;
    var d := (y: St) => RepeatMatcher(e, a, cc, bw, min - 1, max2, greedy, y, k);
    var ys := Outcomes(e, a, cc, bw, x);
    var zss := Remaining(e, a, cc, bw, min - 1, Extra(min, max), greedy, x);
    assert Extra(min - 1, max2) == Extra(min, max);
    forall i | 0 <= i < |ys|
      ensures d(ys[i]) == First(zss[i], k)
    {
      assert Follows(e, bw, x, ys[i]);
      RepeatAgrees(e, a, cc, bw, min - 1, max2, greedy, ys[i], k);
    }
    MatcherAgrees(e, a, cc, bw, x, d);
    FirstFlat(ys, d, zss, k);
    assert RepeatMatcher(e, a, cc, bw, min, max, greedy, x, k) == Matcher(e, a, cc, bw, x, d);
  }

  lemma OptionalAgrees(e: Env, a: Re, cc: nat, bw: bool, max: nat, greedy: bool, x: St, k: Continuation)
    requires ValidSt(e, x) && WellFormed(a) && 0 < max <= INFINITY
    ensures RepeatMatcher(e, a, cc, bw, 0, max, greedy, x, k) ==
            First(Repeat(e, a, cc, bw, Extra(0, max), greedy, x), k)
    decreases a, 4, 0, Room(e, bw, x), 0
  {
    hide Outcomes, Times, Repeat, Matcher, ValidSt;
    var max2 := if max == INFINITY then INFINITY else max - 1;
    var d := (y: St) =>
      if y.pos == x.pos || !Follows(e, bw, x, y) then Failure
      else RepeatMatcher(e, a, cc, bw, 0, max2, greedy, y, k);
    var os := Outcomes(e, a, cc, bw, x);
    MatcherAgrees(e, a, cc, bw, x, d);
    FirstAdvancing(os, x.pos, d);
    var ys := Advancing(os, x.pos);
    var kk := Extra(0, max);
    var zss := Onward(e, a, cc, bw, Less(kk), greedy, x);
    assert Extra(0, max2) == Less(kk);
    forall i | 0 <= i < |ys|
      ensures d(ys[i]) == First(zss[i], k)
    {
      AdvancingFollows(e, bw, x, os, i);
      RepeatAgrees(e, a, cc, bw, 0, max2, greedy, ys[i], k);
      TimesUnfolds(e, a, cc, bw, 0, Less(kk), greedy, ys[i]);
    }
    FirstFlat(ys, d, zss, k);
    RepeatUnfolds(e, a, cc, bw, kk, greedy, x);
    FirstOne(x, k);
    FirstAppend(Flat(zss), [x], k);
    FirstAppend([x], Flat(zss), k);
  }

  lemma AdvancingFollows(e: Env, bw: bool, x: St, os: seq<St>, i: nat)
    requires ValidSt(e, x) && AllFollow(e, bw, x, os) && i < |Advancing(os, x.pos)|
    ensures var y := Advancing(os, x.pos)[i];
            Follows(e, bw, x, y) && ValidSt(e, y) && y.pos != x.pos && Room(e, bw, y) < Room(e, bw, x)
  {
    var y := Advancing(os, x.pos)[i];
    var j :| 0 <= j < |os| && os[j] == y;
    assert Follows(e, bw, x, os[j]);
  }

  // ----- whole matches -----

  /** A match at `x`, or, unless sticky, at the first later position where there is one. */
  function FindMatch(e: Env, r: Re, sticky: bool, x: St): MatchResult
    requires ValidSt(e, x)
    decreases |e.text.units| - x.pos
  {
    var z := Matcher(e, Group(r), 0, false, x, Accept);
    if z.Success? || sticky || x.pos == |e.text.units| then z else
    NextKeepsBoundary(e.text, x.pos);
    FindMatch(e, r, sticky, x.(pos := NextPos(e.text, x.pos, |e.text.units|)))
  }

  function ResultOf(z: MatchResult): Result
  {
    if z.Success? then Matched(z.state.caps) else NoMatch
  }

  lemma {:induction false} FindAgrees(e: Env, r: Re, sticky: bool, x: St)
    requires ValidSt(e, x) && WellFormed(r)
    ensures Expected(e, r, sticky, x) == ResultOf(FindMatch(e, r, sticky, x))
    decreases |e.text.units| - x.pos
  {
    hide Matcher, Outcomes, NextPos, Boundary;
    MatcherAgrees(e, Group(r), 0, false, x, Accept);
    var os := Outcomes(e, Group(r), 0, false, x);
    FirstAccepted(os);
    assert Matcher(e, Group(r), 0, false, x, Accept) == if os == [] then Failure else Success(os[0]);
    assert SearchFrom(e, r, x) == os + Later(e, r, x);
    if !sticky && x.pos < |e.text.units| {
      NextKeepsBoundary(e.text, x.pos);
      FindAgrees(e, r, sticky, x.(pos := NextPos(e.text, x.pos, |e.text.units|)));
    }
  }
}
