/** Compiler correctness: the code of a pattern delivers the outcomes of the pattern, in order. */
module RegexCorrect {
  import opened CharInput
  import opened RegexSyntax
  import opened RegexOpcode
  import opened RegexRange
  import opened RegexOutcomes
  import opened RegexCompile
  import opened RegexVm
  import opened RegexRuns
  import opened RegexLoops
  import opened RegexAdvance
  import opened RegexBalance
  import opened RegexSimple
  import opened RegexGreedy

  // ----- leaves -----

  /** From a state with at most one outcome. */
  lemma YieldsAtMostOne(e: Env, P: Program, s: Vm, pc: nat, stk: Stack, F: Frames, ys: seq<St>)
    requires |ys| <= 1
    requires Reaches(e, P, s, if ys == [] then Fail(F) else Run(pc, ys[0], stk, F))
    ensures Yields(e, P, s, pc, stk, F, ys)
  {
    hide Reaches;
    if ys == [] {
      YieldsNone(e, P, s, pc, stk, F);
    } else {
      YieldsOne(e, P, s, pc, stk, F, ys[0]);
      assert ys == [ys[0]];
    }
  }

  lemma TestReaches(e: Env, P: Program, i: Instr, pc: nat, x: St, stk: Stack, F: Frames)
    requires Ready(e, P, x) && P.fetch(pc) == Valid(i) && TestOp(i)
    ensures var q := Test(e, i, x.pos);
            Reaches(e, P, Run(pc, x, stk, F),
                    if q.SomePos? then Run(pc + Size(i), x.(pos := q.pos), stk, F) else Fail(F))
  {
    hide Reaches, Test, TestOp, Size;
    ReachesStep(e, P, Run(pc, x, stk, F));
  }

  lemma ForwardCharYields(e: Env, P: Program, r: Re, pc: nat, x: St, stk: Stack, F: Frames)
    requires Ready(e, P, x) && WellFormed(r) && (r.Char? || r.AnyChar? || r.Class?)
    requires P.fetch(pc) == Valid(OneCharInstr(e.canon, r))
    ensures Yields(e, P, Run(pc, x, stk, F), pc + Size(OneCharInstr(e.canon, r)), stk, F, OneChar(e, r, false, x))
  {
    hide Reaches, Yields, AcceptsChar, Accepts, TestOp, Size, OneCharInstr;
    var i := OneCharInstr(e.canon, r);
    OneCharAccepts(e, r, if x.pos < |e.text.units| then CharAt(e.text, x.pos, |e.text.units|) else 0);
    TestReaches(e, P, i, pc, x, stk, F);
    YieldsAtMostOne(e, P, Run(pc, x, stk, F), pc + Size(i), stk, F, OneChar(e, r, false, x));
  }

  lemma PrevReaches(e: Env, P: Program, pc: nat, x: St, stk: Stack, F: Frames)
    requires Ready(e, P, x) && P.fetch(pc) == Valid(Prev)
    ensures Reaches(e, P, Run(pc, x, stk, F),
                    if x.pos == 0 then Fail(F) else Run(pc + 1, x.(pos := PrevPos(e.text, x.pos, 0)), stk, F))
  {
    hide Reaches;
    ReachesStep(e, P, Run(pc, x, stk, F));
  }

  /** Step back, test, step back: one character to the left. */
  lemma BackwardCharYields(e: Env, P: Program, r: Re, pc: nat, x: St, stk: Stack, F: Frames)
    requires Ready(e, P, x) && WellFormed(r) && (r.Char? || r.AnyChar? || r.Class?)
    requires P.fetch(pc) == Valid(Prev) && P.fetch(pc + 1) == Valid(OneCharInstr(e.canon, r))
    requires P.fetch(pc + 1 + Size(OneCharInstr(e.canon, r))) == Valid(Prev)
    ensures Yields(e, P, Run(pc, x, stk, F), pc + 2 + Size(OneCharInstr(e.canon, r)), stk, F, OneChar(e, r, true, x))
  {
    hide Reaches, Yields, AcceptsChar, Accepts, TestOp, Size, OneCharInstr, PrevPos, NextPos, Boundary;
    var i, n := OneCharInstr(e.canon, r), |e.text.units|;
    var s, end, ys := Run(pc, x, stk, F), pc + 2 + Size(i), OneChar(e, r, true, x);
    PrevReaches(e, P, pc, x, stk, F);
    if x.pos > 0 {
      var q := PrevPos(e.text, x.pos, 0);
      var y := x.(pos := q);
      PrevGivesBoundary(e.text, x.pos);
      OneCharAccepts(e, r, CharAt(e.text, q, n));
      TestReaches(e, P, i, pc + 1, y, stk, F);
      var t := Run(pc + 1, y, stk, F);
      if ys == [] {
        ReachesTrans(e, P, s, t, Fail(F));
      } else {
        var z := y.(pos := NextPos(e.text, q, n));
        NextKeepsBoundary(e.text, q);
        PrevNextPrev(e.text, x.pos);
        PrevReaches(e, P, pc + 1 + Size(i), z, stk, F);
        ReachesTrans(e, P, s, t, Run(pc + 1 + Size(i), z, stk, F));
        ReachesTrans(e, P, s, Run(pc + 1 + Size(i), z, stk, F), Run(end, y, stk, F));
      }
    }
    YieldsAtMostOne(e, P, s, end, stk, F, ys);
  }

  lemma OneCharImplements(e: Env, P: Program, r: Re, cc: nat, bw: bool, pc: nat)
    requires WellFormed(r) && (r.Char? || r.AnyChar? || r.Class?)
    requires CodeAt(P.fetch, pc, Code(e.canon, r, cc, bw))
    ensures Implements(e, P, pc, pc + Length(Code(e.canon, r, cc, bw)), 0, r, cc, bw)
  {
    hide Yields, OneChar, Size, OneCharInstr;
    var i := OneCharInstr(e.canon, r);
    OneCharCode(e.canon, r, cc, bw);
    DirectedAt(P.fetch, pc, i, bw);
    forall x, stk, F | Ready(e, P, x) && Fits(P, stk, 0)
      ensures Yields(e, P, Run(pc, x, stk, F), pc + Length(Directed(i, bw)), stk, F, Outcomes(e, r, cc, bw, x))
    {
      if bw {
        BackwardCharYields(e, P, r, pc, x, stk, F);
      } else {
        ForwardCharYields(e, P, r, pc, x, stk, F);
      }
    }
  }

  lemma DirectedAt(fetch: Decoder, pc: nat, i: Instr, bw: bool)
    requires CodeAt(fetch, pc, Directed(i, bw))
    ensures !bw ==> fetch(pc) == Valid(i) && Length(Directed(i, bw)) == Size(i)
    ensures bw ==> fetch(pc) == Valid(Prev) && fetch(pc + 1) == Valid(i) && fetch(pc + 1 + Size(i)) == Valid(Prev)
    ensures bw ==> Length(Directed(i, bw)) == 2 + Size(i)
  {
    hide Size;
    PrevSize();
    if bw {
      assert Directed(i, bw) == [Prev] + [i] + [Prev];
      BlockAt(fetch, pc, Prev, [i], Prev);
      SingleAt(fetch, pc + 1, i);
    } else {
      SingleAt(fetch, pc, i);
    }
  }

  lemma PrevSize()
    ensures Size(Prev) == 1
  {
  }

  lemma SingleAt(fetch: Decoder, pc: nat, i: Instr)
    requires CodeAt(fetch, pc, [i])
    ensures fetch(pc) == Valid(i) && Length([i]) == Size(i)
  {
    hide Size;
    assert [i][1..] == [];
  }

  /** Where the parts of a bracketed block are. */
  lemma BlockAt(fetch: Decoder, pc: nat, i: Instr, body: seq<Instr>, j: Instr)
    requires CodeAt(fetch, pc, [i] + body + [j])
    ensures fetch(pc) == Valid(i) && CodeAt(fetch, pc + Size(i), body)
    ensures fetch(pc + Size(i) + Length(body)) == Valid(j)
    ensures Length([i] + body + [j]) == Size(i) + Length(body) + Size(j)
  {
    hide Size;
    CodeAtAppend(fetch, pc, [i] + body, [j]);
    CodeAtAppend(fetch, pc, [i], body);
    LengthAppend([i] + body, [j]);
    LengthAppend([i], body);
    SingleAt(fetch, pc, i);
    SingleAt(fetch, pc + Size(i) + Length(body), j);
  }

  lemma AssertionImplements(e: Env, P: Program, r: Re, cc: nat, bw: bool, pc: nat)
    requires r.LineStart? || r.LineEnd? || r.WordBoundary?
    requires CodeAt(P.fetch, pc, Code(e.canon, r, cc, bw))
    ensures Implements(e, P, pc, pc + Length(Code(e.canon, r, cc, bw)), 0, r, cc, bw)
  {
    hide Yields, Reaches, Holds, AssertionHolds;
    var i := AssertionInstr(r);
    assert Code(e.canon, r, cc, bw) == [i];
    assert [i][1..] == [];
    assert TestOp(i) && Size(i) == 1;
    forall x, stk, F | Ready(e, P, x) && Fits(P, stk, 0)
      ensures Yields(e, P, Run(pc, x, stk, F), pc + 1, stk, F, Outcomes(e, r, cc, bw, x))
    {
      AssertionAgrees(e, r, x.pos);
      TestReaches(e, P, i, pc, x, stk, F);
      YieldsAtMostOne(e, P, Run(pc, x, stk, F), pc + 1, stk, F, Outcomes(e, r, cc, bw, x));
    }
  }

  lemma BackRefReaches(e: Env, P: Program, bw: bool, icase: bool, index: nat, pc: nat, x: St, stk: Stack, F: Frames)
    requires Ready(e, P, x) && P.fetch(pc) == Valid(Instr.BackRef(bw, icase, index))
    ensures var q := BackReference(e, icase, bw, index, x);
            Reaches(e, P, Run(pc, x, stk, F),
                    if q.SomePos? then Run(pc + 2, x.(pos := q.pos), stk, F) else Fail(F))
  {
    hide Reaches, BackReference;
    ReachesStep(e, P, Run(pc, x, stk, F));
  }

  lemma BackRefImplements(e: Env, P: Program, r: Re, cc: nat, bw: bool, pc: nat)
    requires r.BackRef? && WellFormed(r)
    requires CodeAt(P.fetch, pc, Code(e.canon, r, cc, bw))
    ensures Implements(e, P, pc, pc + Length(Code(e.canon, r, cc, bw)), 0, r, cc, bw)
  {
    hide Yields, Reaches, BackReference;
    var i := Instr.BackRef(bw, r.icase, r.index);
    assert Code(e.canon, r, cc, bw) == [i];
    assert [i][1..] == [];
    forall x, stk, F | Ready(e, P, x) && Fits(P, stk, 0)
      ensures Yields(e, P, Run(pc, x, stk, F), pc + 2, stk, F, Outcomes(e, r, cc, bw, x))
    {
      BackRefReaches(e, P, bw, r.icase, r.index, pc, x, stk, F);
      YieldsAtMostOne(e, P, Run(pc, x, stk, F), pc + 2, stk, F, Outcomes(e, r, cc, bw, x));
    }
  }

  lemma EmptyImplements(e: Env, P: Program, cc: nat, bw: bool, pc: nat)
    ensures Implements(e, P, pc, pc, 0, Empty, cc, bw)
  {
    hide Yields;
    forall x, stk, F | Ready(e, P, x)
      ensures Yields(e, P, Run(pc, x, stk, F), pc, stk, F, Outcomes(e, Empty, cc, bw, x))
    {
      YieldsHere(e, P, pc, x, stk, F);
    }
  }

  /** A split over a class that falls through: a character, or else nothing. */
  lemma OrEmptyImplements(e: Env, P: Program, points: seq<nat>, icase: bool, cc: nat, bw: bool, pc: nat)
    requires ValidPoints(points) && CodeAt(P.fetch, pc, Code(e.canon, ClassOrEmpty(points, icase), cc, bw))
    ensures var r := ClassOrEmpty(points, icase);
            Implements(e, P, pc, pc + Length(Code(e.canon, r, cc, bw)), 0, r, cc, bw)
  {
    hide Yields, OneChar, Size, RangeInstr, Directed;
    var body := Directed(RangeInstr(points, icase), bw);
    var split := Split(true, Length(body));
    assert OptionCode(body, true) == [split] + body;
    CodeAtAppend(P.fetch, pc, [split], body);
    LengthAppend([split], body);
    LengthOne(split);
    SizeOfSplit(split);
    var end := pc + 5 + Length(body);
    OneCharImplements(e, P, Class(points, icase), cc, bw, pc + 5);
    forall x, stk, F | Ready(e, P, x) && Fits(P, stk, 0)
      ensures Yields(e, P, Run(pc, x, stk, F), end, stk, F, OneChar(e, Class(points, icase), bw, x) + [x])
    {
      var ys := OneChar(e, Class(points, icase), bw, x);
      forall G
        ensures Yields(e, P, Run(pc + 5, x, stk, G), end, stk, G, ys)
        ensures Yields(e, P, Run(end, x, stk, G), end, stk, G, [x])
      {
        YieldsHere(e, P, end, x, stk, G);
      }
      YieldsSplit(e, P, pc, true, end, x, stk, F, end, stk, ys, [x]);
    }
  }

  lemma SizeOfSplit(i: Instr)
    requires i.Split?
    ensures Size(i) == 5
  {
  }

  // ----- sequences and alternatives -----

  lemma ThenYields(
    e: Env, P: Program, a: Re, ca: nat, b: Re, cb: nat, bw: bool, pc: nat, mid: nat, end: nat,
    na: nat, nb: nat, x: St, stk: Stack, F: Frames, whole: Re)
    requires Ready(e, P, x) && Fits(P, stk, na) && Fits(P, stk, nb) && a < whole && b < whole
    requires Implements(e, P, pc, mid, na, a, ca, bw) && Implements(e, P, mid, end, nb, b, cb, bw)
    ensures Yields(e, P, Run(pc, x, stk, F), end, stk, F, Then(e, a, ca, b, cb, bw, x, whole))
  {
    hide Yields, Outcomes, ValidSt;
    var ys := Outcomes(e, a, ca, bw, x);
    OutcomesReady(e, P, a, ca, bw, x);
    var zss := seq(|ys|, i requires 0 <= i < |ys| => Outcomes(e, b, cb, bw, ys[i]));
    YieldsThen(e, P, Run(pc, x, stk, F), mid, stk, end, stk, F, ys, zss);
  }

  lemma SeqImplements(
    e: Env, P: Program, a: Re, b: Re, cc: nat, bw: bool, pc: nat, mid: nat, end: nat, na: nat, nb: nat, need: nat)
    requires na <= need && nb <= need
    requires bw ==> Implements(e, P, pc, mid, nb, b, cc + Groups(a), bw) && Implements(e, P, mid, end, na, a, cc, bw)
    requires !bw ==> Implements(e, P, pc, mid, na, a, cc, bw) && Implements(e, P, mid, end, nb, b, cc + Groups(a), bw)
    ensures Implements(e, P, pc, end, need, Seq(a, b), cc, bw)
  {
    hide Yields, Outcomes, Then;
    forall x, stk, F | Ready(e, P, x) && Fits(P, stk, need)
      ensures Yields(e, P, Run(pc, x, stk, F), end, stk, F, Outcomes(e, Seq(a, b), cc, bw, x))
    {
      OutcomesSeq(e, a, b, cc, bw, x);
      if bw {
        ThenYields(e, P, b, cc + Groups(a), a, cc, bw, pc, mid, end, nb, na, x, stk, F, Seq(a, b));
      } else {
        ThenYields(e, P, a, cc, b, cc + Groups(a), bw, pc, mid, end, na, nb, x, stk, F, Seq(a, b));
      }
    }
  }

  lemma OutcomesAlt(e: Env, a: Re, b: Re, cc: nat, bw: bool, x: St)
    requires ValidSt(e, x)
    ensures Outcomes(e, Alt(a, b), cc, bw, x) ==
            Outcomes(e, a, cc, bw, x) + Outcomes(e, b, cc + Groups(a), bw, x)
  {
    hide Then, Times, Repeat, AllFollow, SetSlot, Reset, BackReference, Holds, OneChar;
  }

  lemma AltImplements(
    e: Env, P: Program, a: Re, b: Re, cc: nat, bw: bool, pc: nat, mid: nat, end: nat, na: nat, nb: nat, need: nat)
    requires na <= need && nb <= need
    requires P.fetch(pc) == Valid(Split(true, mid - pc)) && P.fetch(mid) == Valid(Goto(end - (mid + 5)))
    requires Implements(e, P, pc + 5, mid, na, a, cc, bw)
    requires Implements(e, P, mid + 5, end, nb, b, cc + Groups(a), bw)
    ensures Implements(e, P, pc, end, need, Alt(a, b), cc, bw)
  {
    hide Yields, Reaches, Outcomes, ValidSt;
    var left, right := pc + 5, mid + 5;
    forall x, stk, F | Ready(e, P, x) && Fits(P, stk, need)
      ensures Yields(e, P, Run(pc, x, stk, F), end, stk, F, Outcomes(e, Alt(a, b), cc, bw, x))
    {
      var ys, zs := Outcomes(e, a, cc, bw, x), Outcomes(e, b, cc + Groups(a), bw, x);
      OutcomesAlt(e, a, b, cc, bw, x);
      OutcomesReady(e, P, a, cc, bw, x);
      forall G
        ensures Yields(e, P, Run(left, x, stk, G), end, stk, G, ys)
        ensures Yields(e, P, Run(right, x, stk, G), end, stk, G, zs)
      {
        YieldsOver(e, P, Run(left, x, stk, G), mid, end, stk, G, ys);
      }
      YieldsSplit(e, P, pc, true, right, x, stk, F, end, stk, ys, zs);
    }
  }

  /** Outcomes delivered at a goto arrive at its target. */
  lemma YieldsOver(e: Env, P: Program, s: Vm, pc: nat, end: nat, stk: Stack, G: Frames, ys: seq<St>)
    requires P.fetch(pc) == Valid(Goto(end - (pc + 5)))
    requires forall i :: 0 <= i < |ys| ==> Ready(e, P, ys[i])
    requires Yields(e, P, s, pc, stk, G, ys)
    ensures Yields(e, P, s, end, stk, G, ys)
  {
    hide Yields, Reaches, Ready;
    var ones := seq(|ys|, i requires 0 <= i < |ys| => [ys[i]]);
    forall i, H | 0 <= i < |ys|
      ensures Yields(e, P, Run(pc, ys[i], stk, H), end, stk, H, ones[i])
    {
      GotoReaches(e, P, pc, end, ys[i], stk, H);
      YieldsOne(e, P, Run(pc, ys[i], stk, H), end, stk, H, ys[i]);
    }
    YieldsThen(e, P, s, pc, stk, end, stk, G, ys, ones);
    FlatOnes(ys);
  }

  lemma {:induction false} FlatOnes(ys: seq<St>)
    ensures Flat(seq(|ys|, i requires 0 <= i < |ys| => [ys[i]])) == ys
  {
    if ys != [] {
      FlatOnes(ys[1..]);
      assert seq(|ys|, i requires 0 <= i < |ys| => [ys[i]])[1..] ==
             seq(|ys[1..]|, i requires 0 <= i < |ys[1..]| => [ys[1..][i]]);
    }
  }

  // ----- groups and lookarounds -----

  lemma SaveReaches(e: Env, P: Program, end: bool, index: nat, pc: nat, x: St, stk: Stack, F: Frames)
    requires Ready(e, P, x) && P.fetch(pc) == Valid(Save(end, index)) && index < P.captureCount
    ensures var y := SetSlot(x, 2 * index + Bit(end));
            Ready(e, P, y) && Reaches(e, P, Run(pc, x, stk, F), Run(pc + 2, y, stk, F))
  {
    hide Reaches;
    ReachesStep(e, P, Run(pc, x, stk, F));
  }

  lemma GroupImplements(e: Env, P: Program, a: Re, cc: nat, bw: bool, pc: nat, mid: nat, need: nat)
    requires cc < P.captureCount
    requires P.fetch(pc) == Valid(Save(bw, cc)) && P.fetch(mid) == Valid(Save(!bw, cc))
    requires Implements(e, P, pc + 2, mid, need, a, cc + 1, bw)
    ensures Implements(e, P, pc, mid + 2, need, Group(a), cc, bw)
  {
    hide Yields, Reaches, Ready;
    forall x, stk, F | Ready(e, P, x) && Fits(P, stk, need)
      ensures ValidSt(e, x) && Yields(e, P, Run(pc, x, stk, F), mid + 2, stk, F, Outcomes(e, Group(a), cc, bw, x))
    {
      GroupYields(e, P, a, cc, bw, pc, mid, need, x, stk, F);
    }
  }

  lemma GroupYields(
    e: Env, P: Program, a: Re, cc: nat, bw: bool, pc: nat, mid: nat, need: nat, x: St, stk: Stack, F: Frames)
    requires Ready(e, P, x) && Fits(P, stk, need) && cc < P.captureCount
    requires P.fetch(pc) == Valid(Save(bw, cc)) && P.fetch(mid) == Valid(Save(!bw, cc))
    requires Implements(e, P, pc + 2, mid, need, a, cc + 1, bw)
    ensures ValidSt(e, x) && Yields(e, P, Run(pc, x, stk, F), mid + 2, stk, F, Outcomes(e, Group(a), cc, bw, x))
  {
    hide Yields, Reaches, ValidSt;
    var y := SetSlot(x, Opening(cc, bw));
    SaveReaches(e, P, bw, cc, pc, x, stk, F);
    var ys := Outcomes(e, a, cc + 1, bw, y);
    OutcomesReady(e, P, a, cc + 1, bw, y);
    var ones := seq(|ys|, i requires 0 <= i < |ys| => [SetSlot(ys[i], Closing(cc, bw))]);
    forall i, H | 0 <= i < |ys|
      ensures Yields(e, P, Run(mid, ys[i], stk, H), mid + 2, stk, H, ones[i])
    {
      SaveReaches(e, P, !bw, cc, mid, ys[i], stk, H);
      YieldsOne(e, P, Run(mid, ys[i], stk, H), mid + 2, stk, H, SetSlot(ys[i], Closing(cc, bw)));
    }
    YieldsThen(e, P, Run(pc + 2, y, stk, F), mid, stk, mid + 2, stk, F, ys, ones);
    YieldsAfter(e, P, Run(pc, x, stk, F), Run(pc + 2, y, stk, F), mid + 2, stk, F, Flat(ones));
    var zs := seq(|ys|, i requires 0 <= i < |ys| => SetSlot(ys[i], Closing(cc, bw)));
    FlatOnes(zs);
    assert ones == seq(|zs|, i requires 0 <= i < |zs| => [zs[i]]);
    assert Outcomes(e, Group(a), cc, bw, x) == zs by { OutcomesGroup(e, a, cc, bw, x); }
  }

  lemma LookReaches(e: Env, P: Program, negated: bool, target: nat, pc: nat, x: St, stk: Stack, F: Frames)
    requires Ready(e, P, x) && P.fetch(pc) == Valid(Lookahead(negated, target - (pc + 5)))
    ensures var kind := if negated then NegativeLookaheadKind else LookaheadKind;
            var L := Cons(Frame(kind, target, x, stk, 0), F);
            Reaches(e, P, Run(pc, x, stk, F), Run(pc + 5, x, stk, L)) &&
            Reaches(e, P, Fail(L), if negated then Run(target, x, stk, F) else Fail(F)) &&
            forall y :: Reaches(e, P, Succeed(y, L), if negated then Fail(F) else Run(target, x.(caps := y.caps), stk, F))
  {
    hide Reaches;
    var kind := if negated then NegativeLookaheadKind else LookaheadKind;
    var L := Cons(Frame(kind, target, x, stk, 0), F);
    ReachesStep(e, P, Run(pc, x, stk, F));
    ReachesStep(e, P, Fail(L));
    forall y
      ensures Reaches(e, P, Succeed(y, L), if negated then Fail(F) else Run(target, x.(caps := y.caps), stk, F))
    {
      ReachesStep(e, P, Succeed(y, L));
    }
  }

  lemma MatchReaches(e: Env, P: Program, pc: nat, x: St, stk: Stack, G: Frames)
    requires Ready(e, P, x) && P.fetch(pc) == Valid(Match)
    ensures Reaches(e, P, Run(pc, x, stk, G), Succeed(x, G))
  {
    hide Reaches;
    ReachesStep(e, P, Run(pc, x, stk, G));
  }

  /** The body of a lookaround fails or matches once; then nothing of it is left. */
  lemma LookBody(e: Env, P: Program, s: Vm, mid: nat, stk: Stack, L: Frames, ys: seq<St>)
    requires Yields(e, P, s, mid, stk, L, ys) && P.fetch(mid) == Valid(Match)
    requires ys != [] ==> Ready(e, P, ys[0])
    ensures Reaches(e, P, s, if ys == [] then Fail(L) else Succeed(ys[0], L))
  {
    hide Reaches, Above;
    if ys != [] {
      var G :| Arrives(e, P, s, mid, stk, L, ys[0], G) && Yields(e, P, Fail(G), mid, stk, L, ys[1..]);
      MatchReaches(e, P, mid, ys[0], stk, G);
      SucceedUnwinds(e, P, ys[0], G, L);
      ReachesTrans(e, P, s, Run(mid, ys[0], stk, G), Succeed(ys[0], G));
      ReachesTrans(e, P, s, Succeed(ys[0], G), Succeed(ys[0], L));
    }
  }

  lemma OutcomesLook(e: Env, a: Re, negated: bool, behind: bool, cc: nat, bw: bool, x: St)
    requires ValidSt(e, x)
    ensures var ys := Outcomes(e, a, cc, behind, x);
            Outcomes(e, Look(a, negated, behind), cc, bw, x) ==
            if negated then (if ys == [] then [x] else [])
            else (if ys == [] then [] else [x.(caps := ys[0].caps)])
  {
  }

  lemma LookImplements(
    e: Env, P: Program, a: Re, negated: bool, behind: bool, cc: nat, bw: bool, pc: nat, mid: nat, need: nat)
    requires P.fetch(pc) == Valid(Lookahead(negated, mid + 1 - (pc + 5))) && P.fetch(mid) == Valid(Match)
    requires Implements(e, P, pc + 5, mid, need, a, cc, behind)
    ensures Implements(e, P, pc, mid + 1, need, Look(a, negated, behind), cc, bw)
  {
    hide Yields, Reaches, Outcomes, ValidSt;
    forall x, stk, F | Ready(e, P, x) && Fits(P, stk, need)
      ensures Yields(e, P, Run(pc, x, stk, F), mid + 1, stk, F, Outcomes(e, Look(a, negated, behind), cc, bw, x))
    {
      var kind := if negated then NegativeLookaheadKind else LookaheadKind;
      var L := Cons(Frame(kind, mid + 1, x, stk, 0), F);
      var s, t := Run(pc, x, stk, F), Run(pc + 5, x, stk, L);
      var ys := Outcomes(e, a, cc, behind, x);
      OutcomesReady(e, P, a, cc, behind, x);
      OutcomesLook(e, a, negated, behind, cc, bw, x);
      LookReaches(e, P, negated, mid + 1, pc, x, stk, F);
      LookBody(e, P, t, mid, stk, L, ys);
      var u := if ys == [] then Fail(L) else Succeed(ys[0], L);
      ReachesTrans(e, P, s, t, u);
      var zs := Outcomes(e, Look(a, negated, behind), cc, bw, x);
      ReachesTrans(e, P, s, u, if zs == [] then Fail(F) else Run(mid + 1, zs[0], stk, F));
      YieldsAtMostOne(e, P, s, mid + 1, stk, F, zs);
    }
  }
}
