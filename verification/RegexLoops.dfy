/** The code of loops delivers the outcomes of repetition. */
module RegexLoops {
  import opened CharInput
  import opened RegexSyntax
  import opened RegexOpcode
  import opened RegexOutcomes
  import opened RegexCompile
  import opened RegexVm
  import opened RegexRuns

  /** A state that the interpreter can run from. */
  ghost predicate Ready(e: Env, P: Program, x: St)
  {
    ValidSt(e, x) && |x.caps| == 2 * P.captureCount
  }

  /** There are `need` free entries above `stk`. */
  ghost predicate Fits(P: Program, stk: Stack, need: nat)
  {
    Height(stk) + need <= P.stackSize
  }

  /** The code from `pc` to `end` delivers the outcomes of `r`, using `need` stack entries. */
  ghost predicate Implements(e: Env, P: Program, pc: nat, end: nat, need: nat, r: Re, cc: nat, bw: bool)
  {
    forall x, stk, F :: Ready(e, P, x) && Fits(P, stk, need) ==>
      Yields(e, P, Run(pc, x, stk, F), end, stk, F, Outcomes(e, r, cc, bw, x))
  }

  /** The same for an iteration of `r` that must move. */
  ghost predicate ImplementsMove(e: Env, P: Program, pc: nat, end: nat, need: nat, r: Re, cc: nat, bw: bool)
  {
    forall x, stk, F :: Ready(e, P, x) && Fits(P, stk, need) ==>
      Yields(e, P, Run(pc, x, stk, F), end, stk, F, Advancing(Outcomes(e, r, cc, bw, x), x.pos))
  }

  ghost predicate AlwaysMoves(e: Env, r: Re, cc: nat, bw: bool)
  {
    forall x, i :: ValidSt(e, x) && 0 <= i < |Outcomes(e, r, cc, bw, x)| ==>
      Outcomes(e, r, cc, bw, x)[i].pos != x.pos
  }

  lemma OutcomesReady(e: Env, P: Program, r: Re, cc: nat, bw: bool, x: St)
    requires Ready(e, P, x)
    ensures forall i :: 0 <= i < |Outcomes(e, r, cc, bw, x)| ==> Ready(e, P, Outcomes(e, r, cc, bw, x)[i])
  {
    hide Outcomes;
    var ys := Outcomes(e, r, cc, bw, x);
    assert AllFollow(e, bw, x, ys);
    forall i | 0 <= i < |ys|
      ensures Ready(e, P, ys[i])
    {
      assert Follows(e, bw, x, ys[i]);
    }
  }

  /** Whatever has been saved, the code from `pc` to `end` delivers `ys` from `x`. */
  ghost predicate Delivers(e: Env, P: Program, pc: nat, x: St, stk: Stack, end: nat, stk': Stack, ys: seq<St>)
  {
    forall G :: Yields(e, P, Run(pc, x, stk, G), end, stk', G, ys)
  }

  lemma SplitReaches(e: Env, P: Program, pc: nat, nextFirst: bool, target: nat, x: St, stk: Stack, F: Frames)
    requires Ready(e, P, x) && P.fetch(pc) == Valid(Split(nextFirst, target - (pc + 5)))
    ensures var (first, second) := if nextFirst then (pc + 5, target) else (target, pc + 5);
            var G := Cons(Frame(SplitKind, second, x, stk, 0), F);
            Above(G, F) && Reaches(e, P, Run(pc, x, stk, F), Run(first, x, stk, G)) &&
            Reaches(e, P, Fail(G), Run(second, x, stk, F))
  {
    hide Reaches;
    var (first, second) := if nextFirst then (pc + 5, target) else (target, pc + 5);
    var G := Cons(Frame(SplitKind, second, x, stk, 0), F);
    assert Step(e, P, Run(pc, x, stk, F)) == Run(first, x, stk, G);
    ReachesStep(e, P, Run(pc, x, stk, F));
    ReachesStep(e, P, Fail(G));
  }

  /** A split delivers the outcomes of its preferred branch, then those of the other. */
  lemma YieldsSplit(
    e: Env, P: Program, pc: nat, nextFirst: bool, target: nat, x: St, stk: Stack, F: Frames,
    end: nat, stk': Stack, ys: seq<St>, zs: seq<St>)
    requires Ready(e, P, x)
    requires P.fetch(pc) == Valid(Split(nextFirst, target - (pc + 5)))
    requires Delivers(e, P, pc + 5, x, stk, end, stk', ys)
    requires Delivers(e, P, target, x, stk, end, stk', zs)
    ensures Yields(e, P, Run(pc, x, stk, F), end, stk', F, if nextFirst then ys + zs else zs + ys)
  {
    hide Reaches, Yields, Above;
    SplitReaches(e, P, pc, nextFirst, target, x, stk, F);
    var s := Run(pc, x, stk, F);
    var (first, second) := if nextFirst then (pc + 5, target) else (target, pc + 5);
    var (ys', zs') := if nextFirst then (ys, zs) else (zs, ys);
    var G := Cons(Frame(SplitKind, second, x, stk, 0), F);
    YieldsAfter(e, P, s, Run(first, x, stk, G), end, stk', G, ys');
    YieldsAfter(e, P, Fail(G), Run(second, x, stk, F), end, stk', F, zs');
    YieldsMore(e, P, s, end, stk', G, F, ys', zs');
  }

  lemma YieldsHere(e: Env, P: Program, pc: nat, x: St, stk: Stack, F: Frames)
    ensures Yields(e, P, Run(pc, x, stk, F), pc, stk, F, [x])
  {
    ReachesSelf(e, P, Run(pc, x, stk, F));
    YieldsOne(e, P, Run(pc, x, stk, F), pc, stk, F, x);
  }

  // ----- one iteration -----

  /** Keeps `y` if it has moved away from `p`. */
  function Kept(y: St, p: nat): seq<St> { if y.pos == p then [] else [y] }

  lemma {:induction false} AdvancingIsFlat(ys: seq<St>, p: nat)
    ensures Advancing(ys, p) == Flat(seq(|ys|, i requires 0 <= i < |ys| => Kept(ys[i], p)))
  {
    if ys != [] {
      AdvancingIsFlat(ys[1..], p);
      var kept := seq(|ys|, i requires 0 <= i < |ys| => Kept(ys[i], p));
      assert kept[1..] == seq(|ys[1..]|, i requires 0 <= i < |ys[1..]| => Kept(ys[1..][i], p));
    }
  }

  lemma {:induction false} AdvancingAll(ys: seq<St>, p: nat)
    requires forall i :: 0 <= i < |ys| ==> ys[i].pos != p
    ensures Advancing(ys, p) == ys
  {
    if ys != [] {
      AdvancingAll(ys[1..], p);
    }
  }

  lemma CheckYields(e: Env, P: Program, pc: nat, y: St, p: nat, stk: Stack, G: Frames)
    requires Ready(e, P, y) && P.fetch(pc) == Valid(CheckAdvance)
    ensures Yields(e, P, Run(pc, y, Push(p, stk), G), pc + 1, stk, G, Kept(y, p))
  {
    var s := Run(pc, y, Push(p, stk), G);
    ReachesStep(e, P, s);
    if y.pos == p {
      assert Step(e, P, s) == Fail(G);
      YieldsNone(e, P, s, pc + 1, stk, G);
    } else {
      assert Step(e, P, s) == Run(pc + 1, y, stk, G);
      YieldsOne(e, P, s, pc + 1, stk, G, y);
    }
  }

  lemma PushPosReaches(e: Env, P: Program, pc: nat, x: St, stk: Stack, F: Frames)
    requires Ready(e, P, x) && Fits(P, stk, 1) && P.fetch(pc) == Valid(PushCharPos)
    ensures Reaches(e, P, Run(pc, x, stk, F), Run(pc + 1, x, Push(x.pos, stk), F))
  {
    hide Reaches;
    ReachesStep(e, P, Run(pc, x, stk, F));
  }

  lemma CheckedYields(
    e: Env, P: Program, pc: nat, end: nat, need: nat, r: Re, cc: nat, bw: bool, x: St, stk: Stack, F: Frames)
    requires Ready(e, P, x) && Fits(P, stk, need + 1)
    requires P.fetch(pc) == Valid(PushCharPos) && P.fetch(end) == Valid(CheckAdvance)
    requires Implements(e, P, pc + 1, end, need, r, cc, bw)
    ensures Yields(e, P, Run(pc, x, stk, F), end + 1, stk, F, Advancing(Outcomes(e, r, cc, bw, x), x.pos))
  {
    hide Outcomes, Reaches, Yields;
    var s := Run(pc, x, stk, F);
    var t := Run(pc + 1, x, Push(x.pos, stk), F);
    PushPosReaches(e, P, pc, x, stk, F);
    var ys := Outcomes(e, r, cc, bw, x);
    assert Fits(P, t.stk, need);
    assert Yields(e, P, t, end, t.stk, F, ys);
    var kept := seq(|ys|, i requires 0 <= i < |ys| => Kept(ys[i], x.pos));
    OutcomesReady(e, P, r, cc, bw, x);
    forall i, G | 0 <= i < |ys|
      ensures Yields(e, P, Run(end, ys[i], t.stk, G), end + 1, stk, G, kept[i])
    {
      CheckYields(e, P, end, ys[i], x.pos, stk, G);
    }
    YieldsThen(e, P, t, end, t.stk, end + 1, stk, F, ys, kept);
    AdvancingIsFlat(ys, x.pos);
    YieldsAfter(e, P, s, t, end + 1, stk, F, Flat(kept));
  }

  /** The need of an iteration, with or without the check. */
  function GuardedNeed(a: seq<Instr>): nat
  {
    if NeedCheckAdvance(a) then Peak(a) + 1 else Peak(a)
  }

  lemma GuardedImplements(e: Env, P: Program, a: seq<Instr>, pc: nat, r: Re, cc: nat, bw: bool)
    requires CodeAt(P.fetch, pc, Guarded(a))
    requires var pa := if NeedCheckAdvance(a) then pc + 1 else pc;
             Implements(e, P, pa, pa + Length(a), Peak(a), r, cc, bw)
    requires !NeedCheckAdvance(a) ==> AlwaysMoves(e, r, cc, bw)
    ensures ImplementsMove(e, P, pc, pc + Length(Guarded(a)), GuardedNeed(a), r, cc, bw)
  {
    hide Outcomes, Yields, ValidSt, NeedCheckAdvance, Reaches, Length, CodeAt, Peak, Guarded;
    var end := pc + Length(Guarded(a));
    GuardedAt(P.fetch, pc, a);
    forall x, stk, F | Ready(e, P, x) && Fits(P, stk, GuardedNeed(a))
      ensures Yields(e, P, Run(pc, x, stk, F), end, stk, F, Advancing(Outcomes(e, r, cc, bw, x), x.pos))
    {
      if NeedCheckAdvance(a) {
        CheckedYields(e, P, pc, pc + 1 + Length(a), Peak(a), r, cc, bw, x, stk, F);
      } else {
        AdvancingAll(Outcomes(e, r, cc, bw, x), x.pos);
      }
    }
  }

  lemma GuardedAt(fetch: nat -> Decoded, pc: nat, a: seq<Instr>)
    requires CodeAt(fetch, pc, Guarded(a))
    ensures NeedCheckAdvance(a) ==>
              fetch(pc) == Valid(PushCharPos) && fetch(pc + 1 + Length(a)) == Valid(CheckAdvance) &&
              Length(Guarded(a)) == Length(a) + 2
    ensures !NeedCheckAdvance(a) ==> Length(Guarded(a)) == Length(a)
  {
    hide NeedCheckAdvance;
    if NeedCheckAdvance(a) {
      assert Guarded(a) == [PushCharPos] + a + [CheckAdvance];
      CodeAtAppend(fetch, pc, [PushCharPos] + a, [CheckAdvance]);
      CodeAtAppend(fetch, pc, [PushCharPos], a);
      LengthAppend([PushCharPos] + a, [CheckAdvance]);
      LengthAppend([PushCharPos], a);
    }
  }

  // ----- loops -----

  /** The iterations that follow a first one. */
  function Onward(e: Env, r: Re, cc: nat, bw: bool, k: Bound, greedy: bool, x: St): (zss: seq<seq<St>>)
    requires ValidSt(e, x)
  {
    var ys := Advancing(Outcomes(e, r, cc, bw, x), x.pos);
    seq(|ys|, i requires 0 <= i < |ys| => Repeat(e, r, cc, bw, k, greedy, ys[i]))
  }

  lemma RepeatUnfolds(e: Env, r: Re, cc: nat, bw: bool, k: Bound, greedy: bool, x: St)
    requires ValidSt(e, x)
    ensures Done(k) ==> Repeat(e, r, cc, bw, k, greedy, x) == [x]
    ensures !Done(k) ==>
              Repeat(e, r, cc, bw, k, greedy, x) ==
              if greedy then Flat(Onward(e, r, cc, bw, Less(k), greedy, x)) + [x]
              else [x] + Flat(Onward(e, r, cc, bw, Less(k), greedy, x))
  {
    hide Outcomes;
    if !Done(k) {
      var ys := Advancing(Outcomes(e, r, cc, bw, x), x.pos);
      assert Onward(e, r, cc, bw, Less(k), greedy, x) ==
             seq(|ys|, i requires 0 <= i < |ys| => Repeat(e, r, cc, bw, Less(k), greedy, ys[i]));
    }
  }

  lemma MovesReady(e: Env, P: Program, r: Re, cc: nat, bw: bool, x: St)
    requires Ready(e, P, x)
    ensures var ys := Advancing(Outcomes(e, r, cc, bw, x), x.pos);
            forall i :: 0 <= i < |ys| ==> Ready(e, P, ys[i]) && Room(e, bw, ys[i]) < Room(e, bw, x)
  {
    hide Outcomes;
    var os := Outcomes(e, r, cc, bw, x);
    assert AllFollow(e, bw, x, os);
    var ys := Advancing(os, x.pos);
    forall i | 0 <= i < |ys|
      ensures Ready(e, P, ys[i]) && Room(e, bw, ys[i]) < Room(e, bw, x)
    {
      assert ys[i] in os && ys[i].pos != x.pos;
      var j :| 0 <= j < |os| && os[j] == ys[i];
      assert Follows(e, bw, x, os[j]);
    }
  }

  lemma OptionYields(
    e: Env, P: Program, pc: nat, end: nat, need: nat, greedy: bool, r: Re, cc: nat, bw: bool,
    x: St, stk: Stack, F: Frames)
    requires Ready(e, P, x) && Fits(P, stk, need)
    requires P.fetch(pc) == Valid(Split(greedy, end - (pc + 5)))
    requires ImplementsMove(e, P, pc + 5, end, need, r, cc, bw)
    ensures Yields(e, P, Run(pc, x, stk, F), end, stk, F, Repeat(e, r, cc, bw, AtMost(1), greedy, x))
  {
    hide Outcomes, Repeat, Yields, Reaches;
    var body := pc + 5;
    var ys := Advancing(Outcomes(e, r, cc, bw, x), x.pos);
    var zss := Onward(e, r, cc, bw, AtMost(0), greedy, x);
    MovesReady(e, P, r, cc, bw, x);
    RepeatUnfolds(e, r, cc, bw, AtMost(1), greedy, x);
    forall i, H | 0 <= i < |ys|
      ensures Yields(e, P, Run(end, ys[i], stk, H), end, stk, H, zss[i])
    {
      RepeatUnfolds(e, r, cc, bw, AtMost(0), greedy, ys[i]);
      YieldsHere(e, P, end, ys[i], stk, H);
    }
    forall G
      ensures Yields(e, P, Run(body, x, stk, G), end, stk, G, Flat(zss))
      ensures Yields(e, P, Run(end, x, stk, G), end, stk, G, [x])
    {
      YieldsThen(e, P, Run(body, x, stk, G), end, stk, end, stk, G, ys, zss);
      YieldsHere(e, P, end, x, stk, G);
    }
    YieldsSplit(e, P, pc, greedy, end, x, stk, F, end, stk, Flat(zss), [x]);
  }

  lemma GotoReaches(e: Env, P: Program, pc: nat, target: nat, x: St, stk: Stack, F: Frames)
    requires Ready(e, P, x) && P.fetch(pc) == Valid(Goto(target - (pc + 5)))
    ensures Reaches(e, P, Run(pc, x, stk, F), Run(target, x, stk, F))
  {
    hide Reaches;
    ReachesStep(e, P, Run(pc, x, stk, F));
  }

  lemma {:induction false} StarYields(
    e: Env, P: Program, pc: nat, back: nat, need: nat, greedy: bool, r: Re, cc: nat, bw: bool,
    x: St, stk: Stack, F: Frames)
    requires Ready(e, P, x) && Fits(P, stk, need)
    requires P.fetch(pc) == Valid(Split(greedy, back - pc)) && P.fetch(back) == Valid(Goto(pc - (back + 5)))
    requires ImplementsMove(e, P, pc + 5, back, need, r, cc, bw)
    ensures Yields(e, P, Run(pc, x, stk, F), back + 5, stk, F, Repeat(e, r, cc, bw, Unbounded, greedy, x))
    decreases Room(e, bw, x)
  {
    hide Outcomes, Repeat, Yields, Reaches;
    var body, end := pc + 5, back + 5;
    var ys := Advancing(Outcomes(e, r, cc, bw, x), x.pos);
    var zss := Onward(e, r, cc, bw, Unbounded, greedy, x);
    MovesReady(e, P, r, cc, bw, x);
    RepeatUnfolds(e, r, cc, bw, Unbounded, greedy, x);
    forall i, H | 0 <= i < |ys|
      ensures Yields(e, P, Run(back, ys[i], stk, H), end, stk, H, zss[i])
    {
      StarYields(e, P, pc, back, need, greedy, r, cc, bw, ys[i], stk, H);
      GotoReaches(e, P, back, pc, ys[i], stk, H);
      YieldsAfter(e, P, Run(back, ys[i], stk, H), Run(pc, ys[i], stk, H), end, stk, H, zss[i]);
    }
    forall G
      ensures Yields(e, P, Run(body, x, stk, G), end, stk, G, Flat(zss))
      ensures Yields(e, P, Run(end, x, stk, G), end, stk, G, [x])
    {
      YieldsThen(e, P, Run(body, x, stk, G), back, stk, end, stk, G, ys, zss);
      YieldsHere(e, P, end, x, stk, G);
    }
    YieldsSplit(e, P, pc, greedy, end, x, stk, F, end, stk, Flat(zss), [x]);
  }

  lemma DropYields(e: Env, P: Program, pc: nat, x: St, v: int, stk: Stack, F: Frames)
    requires Ready(e, P, x) && P.fetch(pc) == Valid(Drop)
    ensures Yields(e, P, Run(pc, x, Push(v, stk), F), pc + 1, stk, F, [x])
  {
    ReachesStep(e, P, Run(pc, x, Push(v, stk), F));
    YieldsOne(e, P, Run(pc, x, Push(v, stk), F), pc + 1, stk, F, x);
  }

  lemma LoopReaches(e: Env, P: Program, pc: nat, target: nat, x: St, v: int, stk: Stack, F: Frames)
    requires Ready(e, P, x) && P.fetch(pc) == Valid(Loop(target - (pc + 5)))
    ensures Reaches(e, P, Run(pc, x, Push(v, stk), F),
                    Run(if v == 1 then pc + 5 else target, x, Push(v - 1, stk), F))
  {
    ReachesStep(e, P, Run(pc, x, Push(v, stk), F));
  }

  /** With `k` on the stack, the counted loop makes up to `k` iterations. */
  lemma {:induction false} CountedYields(
    e: Env, P: Program, pc: nat, back: nat, need: nat, k: nat, greedy: bool, r: Re, cc: nat, bw: bool,
    x: St, stk: Stack, F: Frames)
    requires Ready(e, P, x) && Fits(P, stk, need + 1) && k > 0
    requires P.fetch(pc) == Valid(Split(greedy, back - pc)) && P.fetch(back) == Valid(Loop(pc - (back + 5)))
    requires P.fetch(back + 5) == Valid(Drop)
    requires ImplementsMove(e, P, pc + 5, back, need, r, cc, bw)
    ensures Yields(e, P, Run(pc, x, Push(k, stk), F), back + 6, stk, F, Repeat(e, r, cc, bw, AtMost(k), greedy, x))
    decreases k
  {
    hide Outcomes, Repeat, Yields, Reaches;
    var body, exit, end := pc + 5, back + 5, back + 6;
    var stk1 := Push(k, stk);
    var ys := Advancing(Outcomes(e, r, cc, bw, x), x.pos);
    var zss := Onward(e, r, cc, bw, AtMost(k - 1), greedy, x);
    MovesReady(e, P, r, cc, bw, x);
    RepeatUnfolds(e, r, cc, bw, AtMost(k), greedy, x);
    forall i, H | 0 <= i < |ys|
      ensures Yields(e, P, Run(back, ys[i], stk1, H), end, stk, H, zss[i])
    {
      LoopReaches(e, P, back, pc, ys[i], k, stk, H);
      var t := Run(if k == 1 then back + 5 else pc, ys[i], Push(k - 1, stk), H);
      if k == 1 {
        RepeatUnfolds(e, r, cc, bw, AtMost(0), greedy, ys[i]);
        DropYields(e, P, back + 5, ys[i], 0, stk, H);
      } else {
        CountedYields(e, P, pc, back, need, k - 1, greedy, r, cc, bw, ys[i], stk, H);
      }
      YieldsAfter(e, P, Run(back, ys[i], stk1, H), t, end, stk, H, zss[i]);
    }
    forall G
      ensures Yields(e, P, Run(body, x, stk1, G), end, stk, G, Flat(zss))
      ensures Yields(e, P, Run(exit, x, stk1, G), end, stk, G, [x])
    {
      assert Fits(P, stk1, need);
      YieldsThen(e, P, Run(body, x, stk1, G), back, stk1, end, stk, G, ys, zss);
      DropYields(e, P, exit, x, k, stk, G);
    }
    YieldsSplit(e, P, pc, greedy, back + 5, x, stk1, F, end, stk, Flat(zss), [x]);
  }

  // ----- required iterations -----

  /** What `min` required iterations deliver after a first one. */
  function Remaining(e: Env, r: Re, cc: nat, bw: bool, min: nat, k: Bound, greedy: bool, x: St): (zss: seq<seq<St>>)
    requires ValidSt(e, x)
  {
    var ys := Outcomes(e, r, cc, bw, x);
    seq(|ys|, i requires 0 <= i < |ys| => Times(e, r, cc, bw, min, k, greedy, ys[i]))
  }

  lemma TimesUnfolds(e: Env, r: Re, cc: nat, bw: bool, min: nat, k: Bound, greedy: bool, x: St)
    requires ValidSt(e, x)
    ensures min == 0 ==> Times(e, r, cc, bw, min, k, greedy, x) == Repeat(e, r, cc, bw, k, greedy, x)
    ensures min > 0 ==>
              Times(e, r, cc, bw, min, k, greedy, x) == Flat(Remaining(e, r, cc, bw, min - 1, k, greedy, x))
  {
    hide Outcomes, Repeat;
    if min > 0 {
      var ys := Outcomes(e, r, cc, bw, x);
      assert Remaining(e, r, cc, bw, min - 1, k, greedy, x) ==
             seq(|ys|, i requires 0 <= i < |ys| => Times(e, r, cc, bw, min - 1, k, greedy, ys[i]));
    }
  }

  /** The code from `pc` to `end` delivers up to `k` iterations of `r`. */
  ghost predicate ImplementsRepeat(
    e: Env, P: Program, pc: nat, end: nat, need: nat, r: Re, cc: nat, bw: bool, k: Bound, greedy: bool)
  {
    forall x, stk, F :: Ready(e, P, x) && Fits(P, stk, need) ==>
      Yields(e, P, Run(pc, x, stk, F), end, stk, F, Repeat(e, r, cc, bw, k, greedy, x))
  }

  /** One required iteration, then the optional ones. */
  lemma OnceYields(
    e: Env, P: Program, pc: nat, mid: nat, end: nat, need: nat, need': nat, r: Re, cc: nat, bw: bool,
    k: Bound, greedy: bool, x: St, stk: Stack, F: Frames)
    requires Ready(e, P, x) && Fits(P, stk, need) && Fits(P, stk, need')
    requires Implements(e, P, pc, mid, need, r, cc, bw)
    requires ImplementsRepeat(e, P, mid, end, need', r, cc, bw, k, greedy)
    ensures Yields(e, P, Run(pc, x, stk, F), end, stk, F, Times(e, r, cc, bw, 1, k, greedy, x))
  {
    hide Outcomes, Repeat, Times, Yields;
    var ys := Outcomes(e, r, cc, bw, x);
    var zss := Remaining(e, r, cc, bw, 0, k, greedy, x);
    TimesUnfolds(e, r, cc, bw, 1, k, greedy, x);
    OutcomesReady(e, P, r, cc, bw, x);
    forall i, H | 0 <= i < |ys|
      ensures Yields(e, P, Run(mid, ys[i], stk, H), end, stk, H, zss[i])
    {
      TimesUnfolds(e, r, cc, bw, 0, k, greedy, ys[i]);
    }
    YieldsThen(e, P, Run(pc, x, stk, F), mid, stk, end, stk, F, ys, zss);
  }

  /** With `n` on the stack, the exact loop makes `n` iterations before the optional ones. */
  lemma {:induction false} ExactYields(
    e: Env, P: Program, pc: nat, back: nat, end: nat, need: nat, need': nat, n: nat, r: Re, cc: nat, bw: bool,
    k: Bound, greedy: bool, x: St, stk: Stack, F: Frames)
    requires Ready(e, P, x) && Fits(P, stk, need + 1) && Fits(P, stk, need') && n > 0
    requires P.fetch(back) == Valid(Loop(pc - (back + 5))) && P.fetch(back + 5) == Valid(Drop)
    requires Implements(e, P, pc, back, need, r, cc, bw)
    requires ImplementsRepeat(e, P, back + 6, end, need', r, cc, bw, k, greedy)
    ensures Yields(e, P, Run(pc, x, Push(n, stk), F), end, stk, F, Times(e, r, cc, bw, n, k, greedy, x))
    decreases n
  {
    hide Outcomes, Repeat, Times, Yields, Reaches;
    var stk1 := Push(n, stk);
    var ys := Outcomes(e, r, cc, bw, x);
    var zss := Remaining(e, r, cc, bw, n - 1, k, greedy, x);
    TimesUnfolds(e, r, cc, bw, n, k, greedy, x);
    OutcomesReady(e, P, r, cc, bw, x);
    forall i, H | 0 <= i < |ys|
      ensures Yields(e, P, Run(back, ys[i], stk1, H), end, stk, H, zss[i])
    {
      if n == 1 {
        TimesUnfolds(e, r, cc, bw, 0, k, greedy, ys[i]);
      } else {
        ExactYields(e, P, pc, back, end, need, need', n - 1, r, cc, bw, k, greedy, ys[i], stk, H);
      }
      ExactBack(e, P, pc, back, end, n, ys[i], stk, H, zss[i]);
    }
    assert Fits(P, stk1, need);
    YieldsThen(e, P, Run(pc, x, stk1, F), back, stk1, end, stk, F, ys, zss);
  }

  /** At the end of an iteration: back for another, or out with the counter dropped. */
  lemma ExactBack(
    e: Env, P: Program, pc: nat, back: nat, end: nat, n: nat, y: St, stk: Stack, H: Frames, zs: seq<St>)
    requires Ready(e, P, y) && Fits(P, stk, 1) && n > 0
    requires P.fetch(back) == Valid(Loop(pc - (back + 5))) && P.fetch(back + 5) == Valid(Drop)
    requires n == 1 ==> Yields(e, P, Run(back + 6, y, stk, H), end, stk, H, zs)
    requires n > 1 ==> Yields(e, P, Run(pc, y, Push(n - 1, stk), H), end, stk, H, zs)
    ensures Yields(e, P, Run(back, y, Push(n, stk), H), end, stk, H, zs)
  {
    hide Yields, Reaches;
    var t := Run(if n == 1 then back + 5 else pc, y, Push(n - 1, stk), H);
    LoopReaches(e, P, back, pc, y, n, stk, H);
    if n == 1 {
      DropReaches(e, P, back + 5, y, 0, stk, H);
      YieldsAfter(e, P, t, Run(back + 6, y, stk, H), end, stk, H, zs);
    }
    YieldsAfter(e, P, Run(back, y, Push(n, stk), H), t, end, stk, H, zs);
  }

  lemma DropReaches(e: Env, P: Program, pc: nat, x: St, v: int, stk: Stack, F: Frames)
    requires Ready(e, P, x) && P.fetch(pc) == Valid(Drop)
    ensures Reaches(e, P, Run(pc, x, Push(v, stk), F), Run(pc + 1, x, stk, F))
  {
    hide Reaches;
    ReachesStep(e, P, Run(pc, x, Push(v, stk), F));
  }

  /** The loop that jumps back to its body instead of copying it. */
  lemma {:induction false} PlusYields(
    e: Env, P: Program, pc: nat, back: nat, need: nat, greedy: bool, r: Re, cc: nat, bw: bool,
    x: St, stk: Stack, F: Frames)
    requires Ready(e, P, x) && Fits(P, stk, need)
    requires P.fetch(back) == Valid(Split(!greedy, pc - (back + 5)))
    requires Implements(e, P, pc, back, need, r, cc, bw) && AlwaysMoves(e, r, cc, bw)
    ensures Yields(e, P, Run(pc, x, stk, F), back + 5, stk, F, Times(e, r, cc, bw, 1, Unbounded, greedy, x))
    decreases Room(e, bw, x)
  {
    hide Outcomes, Repeat, Times, Yields, Reaches, ValidSt;
    var end := back + 5;
    var ys := Outcomes(e, r, cc, bw, x);
    var zss := Remaining(e, r, cc, bw, 0, Unbounded, greedy, x);
    TimesUnfolds(e, r, cc, bw, 1, Unbounded, greedy, x);
    AdvancingAll(ys, x.pos);
    MovesReady(e, P, r, cc, bw, x);
    forall i, H | 0 <= i < |ys|
      ensures Yields(e, P, Run(back, ys[i], stk, H), end, stk, H, zss[i])
    {
      PlusTail(e, r, cc, bw, greedy, ys[i]);
      var ts := Times(e, r, cc, bw, 1, Unbounded, greedy, ys[i]);
      forall G
        ensures Yields(e, P, Run(pc, ys[i], stk, G), end, stk, G, ts)
        ensures Yields(e, P, Run(end, ys[i], stk, G), end, stk, G, [ys[i]])
      {
        PlusYields(e, P, pc, back, need, greedy, r, cc, bw, ys[i], stk, G);
        YieldsHere(e, P, end, ys[i], stk, G);
      }
      YieldsSplit(e, P, back, !greedy, pc, ys[i], stk, H, end, stk, [ys[i]], ts);
    }
    YieldsThen(e, P, Run(pc, x, stk, F), back, stk, end, stk, F, ys, zss);
  }

  /** Zero required iterations of an atom that always moves: one more, or none. */
  lemma PlusTail(e: Env, r: Re, cc: nat, bw: bool, greedy: bool, y: St)
    requires ValidSt(e, y) && AlwaysMoves(e, r, cc, bw)
    ensures var ts := Times(e, r, cc, bw, 1, Unbounded, greedy, y);
            Times(e, r, cc, bw, 0, Unbounded, greedy, y) == if greedy then ts + [y] else [y] + ts
  {
    hide Outcomes, Repeat, Times, Advancing, Flat;
    TimesUnfolds(e, r, cc, bw, 0, Unbounded, greedy, y);
    TimesUnfolds(e, r, cc, bw, 1, Unbounded, greedy, y);
    RepeatUnfolds(e, r, cc, bw, Unbounded, greedy, y);
    var ys := Outcomes(e, r, cc, bw, y);
    AdvancingAll(ys, y.pos);
    forall i | 0 <= i < |ys|
      ensures Times(e, r, cc, bw, 0, Unbounded, greedy, ys[i]) == Repeat(e, r, cc, bw, Unbounded, greedy, ys[i])
    {
      TimesUnfolds(e, r, cc, bw, 0, Unbounded, greedy, ys[i]);
    }
    assert Remaining(e, r, cc, bw, 0, Unbounded, greedy, y) == Onward(e, r, cc, bw, Unbounded, greedy, y);
  }
}
