/** The run of a specialised greedy quantifier against the outcomes of the general one. */
module RegexGreedy {
  import opened CharInput
  import opened RegexSyntax
  import opened RegexOpcode
  import opened RegexOutcomes
  import opened RegexCompile
  import opened RegexVm
  import opened RegexRuns
  import opened RegexLoops
  import opened RegexAdvance
  import opened RegexSimple

  /** At every position the atom's code at `pa` agrees with the outcomes of `r`, which move. */
  ghost predicate GoodAtom(e: Env, P: Program, pa: nat, count: nat, r: Re, cc: nat, bw: bool)
  {
    forall x :: ValidSt(e, x) ==> GoodAt(e, P, pa, count, x, Outcomes(e, r, cc, bw, x))
  }

  ghost predicate GoodAt(e: Env, P: Program, pa: nat, count: nat, x: St, os: seq<St>)
    requires ValidSt(e, x)
  {
    |os| <= 1 &&
    (os == [] ==> RunAtom(e, P, pa, x.pos) == AtomFail) &&
    (os != [] ==>
       ValidSt(e, os[0]) && os[0].caps == x.caps && os[0].pos > x.pos &&
       RunAtom(e, P, pa, x.pos) == AtomEnd(os[0].pos) && StepBack(e.text, os[0].pos, count) == SomePos(x.pos))
  }

  /** `n` iterations back from `p`. */
  function Bottom(t: Text, p: nat, n: nat, count: nat): MaybePos
    requires p <= |t.units|
    decreases n
  {
    if n == 0 then SomePos(p) else
    var q := StepBack(t, p, count);
    if q.NoPos? then NoPos else Bottom(t, q.pos, n - 1, count)
  }

  /** The states at `p`, one iteration back from it, ..., `n` iterations back from it. */
  function Ladder(t: Text, x: St, p: nat, n: nat, count: nat): (ys: seq<St>)
    requires p <= |t.units|
    decreases n
  {
    if n == 0 then [x.(pos := p)] else
    var q := StepBack(t, p, count);
    [x.(pos := p)] + if q.NoPos? then [] else Ladder(t, x, q.pos, n - 1, count)
  }

  lemma {:induction false} LadderSnoc(t: Text, x: St, p: nat, n: nat, count: nat)
    requires p <= |t.units| && Bottom(t, p, n, count).SomePos?
    requires Bottom(t, p, n, count).pos <= |t.units|
    requires StepBack(t, Bottom(t, p, n, count).pos, count) == SomePos(x.pos)
    ensures Ladder(t, x, p, n + 1, count) == Ladder(t, x, p, n, count) + [x]
    ensures Bottom(t, p, n + 1, count) == SomePos(x.pos)
    decreases n
  {
    if n > 0 {
      LadderSnoc(t, x, StepBack(t, p, count).pos, n - 1, count);
    }
  }

  lemma {:induction false} LadderSame(t: Text, x: St, y: St, p: nat, n: nat, count: nat)
    requires p <= |t.units| && x.caps == y.caps
    ensures Ladder(t, x, p, n, count) == Ladder(t, y, p, n, count)
    decreases n
  {
    if n > 0 && StepBack(t, p, count).SomePos? {
      LadderSame(t, x, y, StepBack(t, p, count).pos, n - 1, count);
    }
  }

  function Left(q: nat, max: nat): Bound
    requires max == INFINITY || q <= max
  {
    if max == INFINITY then Unbounded else AtMost(max - q)
  }

  /** One more optional iteration of an atom with at most one outcome. */
  lemma RepeatSingle(e: Env, P: Program, pa: nat, count: nat, r: Re, cc: nat, bw: bool, k: Bound, x: St)
    requires ValidSt(e, x) && GoodAtom(e, P, pa, count, r, cc, bw) && !Done(k)
    ensures var os := Outcomes(e, r, cc, bw, x);
            Repeat(e, r, cc, bw, k, true, x) ==
            if os == [] then [x] else Repeat(e, r, cc, bw, Less(k), true, os[0]) + [x]
  {
    hide Outcomes, Repeat, RunAtom;
    var os := Outcomes(e, r, cc, bw, x);
    assert GoodAt(e, P, pa, count, x, os);
    RepeatUnfolds(e, r, cc, bw, k, true, x);
    AdvancingAll(os, x.pos);
    var zss := Onward(e, r, cc, bw, Less(k), true, x);
    if os == [] {
      assert zss == [];
    } else {
      FlatSingle(zss);
    }
  }

  lemma RunQuantUnfolds(e: Env, P: Program, pa: nat, count: nat, x: St, os: seq<St>, q: nat, max: nat)
    requires ValidSt(e, x) && GoodAt(e, P, pa, count, x, os)
    ensures RunQuant(e, P, pa, x.pos, q, max) ==
            if os == [] then QuantEnd(x.pos, q)
            else if q + 1 >= max && max != INFINITY then QuantEnd(os[0].pos, q + 1)
            else RunQuant(e, P, pa, os[0].pos, q + 1, max)
  {
    hide RunAtom, StepBack;
  }

  /** The optional iterations: counting up and stepping back visits the states of the general loop. */
  lemma {:induction false} RunRepeat(
    e: Env, P: Program, pa: nat, count: nat, r: Re, cc: nat, bw: bool, x: St, q: nat, max: nat)
    requires ValidSt(e, x) && GoodAtom(e, P, pa, count, r, cc, bw)
    requires max == INFINITY || q < max
    ensures var run := RunQuant(e, P, pa, x.pos, q, max);
            run.QuantEnd? && Repeat(e, r, cc, bw, Left(q, max), true, x) == Ladder(e.text, x, run.pos, run.count - q, count) &&
            Bottom(e.text, run.pos, run.count - q, count) == SomePos(x.pos)
    decreases |e.text.units| - x.pos
  {
    hide Outcomes, Repeat, RunAtom, RunQuant, StepBack, Boundary;
    var os := Outcomes(e, r, cc, bw, x);
    assert GoodAt(e, P, pa, count, x, os);
    RunQuantUnfolds(e, P, pa, count, x, os, q, max);
    var k := Left(q, max);
    RepeatSingle(e, P, pa, count, r, cc, bw, k, x);
    if os != [] {
      var y := os[0];
      if q + 1 >= max && max != INFINITY {
        RepeatUnfolds(e, r, cc, bw, AtMost(0), true, y);
        assert Ladder(e.text, x, x.pos, 0, count) == [x];
      } else {
        RunRepeat(e, P, pa, count, r, cc, bw, y, q + 1, max);
        var run := RunQuant(e, P, pa, y.pos, q + 1, max);
        LadderSame(e.text, x, y, run.pos, run.count - (q + 1), count);
        LadderSnoc(e.text, x, run.pos, run.count - (q + 1), count);
      }
    }
  }

  /** The required iterations: fewer than `min` is a failure. */
  lemma {:induction false} RunTimes(
    e: Env, P: Program, pa: nat, count: nat, r: Re, cc: nat, bw: bool, x: St, q: nat, min: nat, max: nat)
    requires ValidSt(e, x) && GoodAtom(e, P, pa, count, r, cc, bw)
    requires q < min <= max
    ensures var run := RunQuant(e, P, pa, x.pos, q, max);
            var ys := Times(e, r, cc, bw, min - q, Extra(min, max), true, x);
            run.QuantEnd? && (run.count < min ==> ys == []) &&
            (run.count >= min ==>
               ys == Ladder(e.text, x, run.pos, run.count - min, count) &&
               Bottom(e.text, run.pos, run.count - min, count).SomePos?)
    decreases min - q
  {
    hide Outcomes, Repeat, Times, RunAtom, RunQuant, StepBack, Boundary;
    var os := Outcomes(e, r, cc, bw, x);
    assert GoodAt(e, P, pa, count, x, os);
    RunQuantUnfolds(e, P, pa, count, x, os, q, max);
    var k := Extra(min, max);
    TimesUnfolds(e, r, cc, bw, min - q, k, true, x);
    var zss := Remaining(e, r, cc, bw, min - q - 1, k, true, x);
    if os == [] {
      assert zss == [];
    } else {
      var y := os[0];
      FlatSingle(zss);
      TimesUnfolds(e, r, cc, bw, 0, k, true, y);
      if q + 1 >= max && max != INFINITY {
        RepeatUnfolds(e, r, cc, bw, AtMost(0), true, y);
      } else {
        if q + 1 < min {
          RunTimes(e, P, pa, count, r, cc, bw, y, q + 1, min, max);
        } else {
          RunRepeat(e, P, pa, count, r, cc, bw, y, q + 1, max);
        }
        var run := RunQuant(e, P, pa, y.pos, q + 1, max);
        if run.count >= min {
          LadderSame(e.text, x, y, run.pos, run.count - min, count);
        }
      }
    }
  }

  lemma GreedyReaches(
    e: Env, P: Program, pc: nat, quant: Instr, x: St, n: nat, stk: Stack, F: Frames)
    requires quant.SimpleGreedyQuant? && P.fetch(pc) == Valid(quant) && pc + 17 + quant.next >= 0
    requires n > 0 && x.pos <= |e.text.units| && StepBack(e.text, x.pos, quant.count).SomePos?
    ensures var y := x.(pos := StepBack(e.text, x.pos, quant.count).pos);
            Reaches(e, P, Fail(Cons(Frame(GreedyKind, pc + 1, x, stk, n), F)),
                    Run(pc + 17 + quant.next, y, stk,
                        if n == 1 then F else Cons(Frame(GreedyKind, pc + 1, y, stk, n - 1), F)))
  {
    hide Reaches;
    ReachesStep(e, P, Fail(Cons(Frame(GreedyKind, pc + 1, x, stk, n), F)));
  }

  /** A saved greedy state delivers the rest of its ladder. */
  lemma {:induction false} GreedyYields(
    e: Env, P: Program, pc: nat, quant: Instr, x: St, n: nat, stk: Stack, F: Frames)
    requires quant.SimpleGreedyQuant? && P.fetch(pc) == Valid(quant) && pc + 17 + quant.next >= 0
    requires n > 0 && x.pos <= |e.text.units| && Bottom(e.text, x.pos, n, quant.count).SomePos?
    ensures Yields(e, P, Fail(Cons(Frame(GreedyKind, pc + 1, x, stk, n), F)), pc + 17 + quant.next, stk, F,
                   Ladder(e.text, x, StepBack(e.text, x.pos, quant.count).pos, n - 1, quant.count))
    decreases n
  {
    hide Reaches, Yields;
    var s := Fail(Cons(Frame(GreedyKind, pc + 1, x, stk, n), F));
    var end := pc + 17 + quant.next;
    var y := x.(pos := StepBack(e.text, x.pos, quant.count).pos);
    GreedyReaches(e, P, pc, quant, x, n, stk, F);
    if n == 1 {
      YieldsOne(e, P, s, end, stk, F, y);
    } else {
      var G := Cons(Frame(GreedyKind, pc + 1, y, stk, n - 1), F);
      GreedyYields(e, P, pc, quant, y, n - 1, stk, F);
      YieldsOne(e, P, s, end, stk, G, y);
      var rest := Ladder(e.text, y, StepBack(e.text, y.pos, quant.count).pos, n - 2, quant.count);
      YieldsMore(e, P, s, end, stk, G, F, [y], rest);
      LadderSame(e.text, x, y, y.pos, n - 1, quant.count);
    }
  }

  /** The state that a specialised quantifier continues in, once its run is known. */
  lemma QuantReaches(e: Env, P: Program, pc: nat, quant: Instr, x: St, stk: Stack, F: Frames)
    requires Ready(e, P, x) && quant.SimpleGreedyQuant? && P.fetch(pc) == Valid(quant) && pc + 17 + quant.next >= 0
    requires RunQuant(e, P, pc + 17, x.pos, 0, quant.max).QuantEnd?
    ensures var run := RunQuant(e, P, pc + 17, x.pos, 0, quant.max);
            var y := x.(pos := run.pos);
            var G := if run.count > quant.min then Cons(Frame(GreedyKind, pc + 1, y, stk, run.count - quant.min), F) else F;
            Reaches(e, P, Run(pc, x, stk, F),
                    if run.count < quant.min then Fail(F) else Run(pc + 17 + quant.next, y, stk, G))
  {
    hide Reaches, RunQuant;
    ReachesStep(e, P, Run(pc, x, stk, F));
  }

  lemma RunFromZero(
    e: Env, P: Program, pa: nat, count: nat, r: Re, cc: nat, bw: bool, x: St, min: nat, max: nat)
    requires ValidSt(e, x) && GoodAtom(e, P, pa, count, r, cc, bw) && min <= max && max > 0
    ensures var run := RunQuant(e, P, pa, x.pos, 0, max);
            var ys := Times(e, r, cc, bw, min, Extra(min, max), true, x);
            run.QuantEnd? && (run.count < min ==> ys == []) &&
            (run.count >= min ==>
               ys == Ladder(e.text, x, run.pos, run.count - min, count) &&
               Bottom(e.text, run.pos, run.count - min, count).SomePos?)
  {
    hide Outcomes, Repeat, Times, RunAtom, RunQuant;
    if min == 0 {
      TimesUnfolds(e, r, cc, bw, 0, Extra(0, max), true, x);
      RunRepeat(e, P, pa, count, r, cc, bw, x, 0, max);
    } else {
      RunTimes(e, P, pa, count, r, cc, bw, x, 0, min, max);
    }
  }

  /** The specialised quantifier delivers exactly the outcomes of the general greedy quantifier,
      in the same order. */
  lemma SimpleYields(
    e: Env, P: Program, pc: nat, quant: Instr, r: Re, cc: nat, bw: bool, x: St, stk: Stack, F: Frames)
    requires Ready(e, P, x) && quant.SimpleGreedyQuant? && P.fetch(pc) == Valid(quant) && pc + 17 + quant.next >= 0
    requires GoodAtom(e, P, pc + 17, quant.count, r, cc, bw) && quant.min <= quant.max && quant.max > 0
    ensures Yields(e, P, Run(pc, x, stk, F), pc + 17 + quant.next, stk, F,
                   Times(e, r, cc, bw, quant.min, Extra(quant.min, quant.max), true, x))
  {
    hide Outcomes, Times, Yields, Reaches, RunQuant, GoodAtom;
    RunFromZero(e, P, pc + 17, quant.count, r, cc, bw, x, quant.min, quant.max);
    QuantReaches(e, P, pc, quant, x, stk, F);
    var run := RunQuant(e, P, pc + 17, x.pos, 0, quant.max);
    var s, end := Run(pc, x, stk, F), pc + 17 + quant.next;
    var y := x.(pos := run.pos);
    if run.count < quant.min {
      YieldsNone(e, P, s, end, stk, F);
    } else if run.count == quant.min {
      YieldsOne(e, P, s, end, stk, F, y);
    } else {
      var n := run.count - quant.min;
      var G := Cons(Frame(GreedyKind, pc + 1, y, stk, n), F);
      YieldsOne(e, P, s, end, stk, G, y);
      GreedyYields(e, P, pc, quant, y, n, stk, F);
      YieldsMore(e, P, s, end, stk, G, F, [y], Ladder(e.text, y, StepBack(e.text, y.pos, quant.count).pos, n - 1, quant.count));
      LadderSame(e.text, x, y, y.pos, n, quant.count);
    }
  }
}
