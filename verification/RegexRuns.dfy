/** Runs of the interpreter that deliver a list of outcomes one after the other. */
module RegexRuns {
  import opened CharInput
  import opened RegexSyntax
  import opened RegexOpcode
  import opened RegexOutcomes
  import opened RegexVm

  ghost predicate Reaches(e: Env, P: Program, s: Vm, t: Vm)
  {
    exists n: nat :: Steps(e, P, s, n) == t
  }

  lemma ReachesSelf(e: Env, P: Program, s: Vm)
    ensures Reaches(e, P, s, s)
  {
    assert Steps(e, P, s, 0) == s;
  }

  lemma ReachesStep(e: Env, P: Program, s: Vm)
    ensures Reaches(e, P, s, Step(e, P, s))
  {
    hide Step;
    assert Steps(e, P, Step(e, P, s), 0) == Step(e, P, s);
    assert Steps(e, P, s, 1) == Step(e, P, s);
  }

  lemma ReachesTrans(e: Env, P: Program, s: Vm, t: Vm, u: Vm)
    requires Reaches(e, P, s, t) && Reaches(e, P, t, u)
    ensures Reaches(e, P, s, u)
  {
    var m: nat :| Steps(e, P, s, m) == t;
    var n: nat :| Steps(e, P, t, n) == u;
    StepsAdd(e, P, s, m, n);
  }

  /** `G` is `F` with saved states other than lookaheads on top. */
  ghost predicate Above(G: Frames, F: Frames)
  {
    G == F ||
    (G.Cons? && (G.head.kind.SplitKind? || G.head.kind.GreedyKind?) && Above(G.tail, F))
  }

  lemma {:induction false} AboveTrans(H: Frames, G: Frames, F: Frames)
    requires Above(H, G) && Above(G, F)
    ensures Above(H, F)
  {
    if H != G {
      AboveTrans(H.tail, G, F);
    }
  }

  /** From `s` the interpreter arrives at `pc` with each state of `ys` in turn, going from one to
      the next by failing; after the last it fails into the saved states `F`. Each time it arrives
      with value stack `stk` and with `F` below the states it has saved on the way. */
  ghost predicate Yields(e: Env, P: Program, s: Vm, pc: nat, stk: Stack, F: Frames, ys: seq<St>)
    decreases |ys|
  {
    if ys == [] then Reaches(e, P, s, Fail(F))
    else exists G :: Arrives(e, P, s, pc, stk, F, ys[0], G) && Yields(e, P, Fail(G), pc, stk, F, ys[1..])
  }

  ghost predicate Arrives(e: Env, P: Program, s: Vm, pc: nat, stk: Stack, F: Frames, y: St, G: Frames)
  {
    Above(G, F) && Reaches(e, P, s, Run(pc, y, stk, G))
  }

  lemma YieldsAfter(e: Env, P: Program, s: Vm, t: Vm, pc: nat, stk: Stack, F: Frames, ys: seq<St>)
    requires Reaches(e, P, s, t) && Yields(e, P, t, pc, stk, F, ys)
    ensures Yields(e, P, s, pc, stk, F, ys)
  {
    if ys == [] {
      ReachesTrans(e, P, s, t, Fail(F));
    } else {
      var G :| Arrives(e, P, t, pc, stk, F, ys[0], G) && Yields(e, P, Fail(G), pc, stk, F, ys[1..]);
      ReachesTrans(e, P, s, t, Run(pc, ys[0], stk, G));
      assert Arrives(e, P, s, pc, stk, F, ys[0], G);
    }
  }

  lemma YieldsNone(e: Env, P: Program, s: Vm, pc: nat, stk: Stack, F: Frames)
    requires Reaches(e, P, s, Fail(F))
    ensures Yields(e, P, s, pc, stk, F, [])
  {
  }

  lemma YieldsOne(e: Env, P: Program, s: Vm, pc: nat, stk: Stack, F: Frames, y: St)
    requires Reaches(e, P, s, Run(pc, y, stk, F))
    ensures Yields(e, P, s, pc, stk, F, [y])
  {
    ReachesSelf(e, P, Fail(F));
    YieldsNone(e, P, Fail(F), pc, stk, F);
    assert Arrives(e, P, s, pc, stk, F, [y][0], F);
    assert [y][1..] == [];
  }

  /** After the outcomes `ys`, failing into `G` delivers `zs`. */
  lemma {:induction false} YieldsMore(
    e: Env, P: Program, s: Vm, pc: nat, stk: Stack, G: Frames, F: Frames, ys: seq<St>, zs: seq<St>)
    requires Above(G, F)
    requires Yields(e, P, s, pc, stk, G, ys) && Yields(e, P, Fail(G), pc, stk, F, zs)
    ensures Yields(e, P, s, pc, stk, F, ys + zs)
    decreases |ys|
  {
    hide Reaches;
    if ys == [] {
      assert ys + zs == zs;
      YieldsAfter(e, P, s, Fail(G), pc, stk, F, zs);
    } else {
      var H :| Arrives(e, P, s, pc, stk, G, ys[0], H) && Yields(e, P, Fail(H), pc, stk, G, ys[1..]);
      AboveTrans(H, G, F);
      YieldsMore(e, P, Fail(H), pc, stk, G, F, ys[1..], zs);
      assert ys + zs == [ys[0]] + (ys[1..] + zs);
      YieldsCons(e, P, s, pc, stk, F, ys[0], H, ys[1..] + zs);
    }
  }

  lemma YieldsCons(e: Env, P: Program, s: Vm, pc: nat, stk: Stack, F: Frames, y: St, G: Frames, ys: seq<St>)
    requires Arrives(e, P, s, pc, stk, F, y, G) && Yields(e, P, Fail(G), pc, stk, F, ys)
    ensures Yields(e, P, s, pc, stk, F, [y] + ys)
  {
    hide Reaches, Above;
    assert ([y] + ys)[0] == y && ([y] + ys)[1..] == ys;
  }

  /** Code that delivers `ys`, followed by code that delivers zss[i] from each ys[i]. */
  lemma {:induction false} YieldsThen(
    e: Env, P: Program, s: Vm, pc: nat, stk: Stack, pc': nat, stk': Stack, F: Frames, ys: seq<St>, zss: seq<seq<St>>)
    requires Yields(e, P, s, pc, stk, F, ys) && |zss| == |ys|
    requires forall i, G :: 0 <= i < |ys| ==> Yields(e, P, Run(pc, ys[i], stk, G), pc', stk', G, zss[i])
    ensures Yields(e, P, s, pc', stk', F, Flat(zss))
    decreases |ys|
  {
    if ys == [] {
      YieldsNone(e, P, s, pc', stk', F);
    } else {
      var G :| Arrives(e, P, s, pc, stk, F, ys[0], G) && Yields(e, P, Fail(G), pc, stk, F, ys[1..]);
      assert Yields(e, P, Run(pc, ys[0], stk, G), pc', stk', G, zss[0]);
      forall i, H | 0 <= i < |ys[1..]|
        ensures Yields(e, P, Run(pc, ys[1..][i], stk, H), pc', stk', H, zss[1..][i])
      {
        assert Yields(e, P, Run(pc, ys[i + 1], stk, H), pc', stk', H, zss[i + 1]);
      }
      YieldsThen(e, P, Fail(G), pc, stk, pc', stk', F, ys[1..], zss[1..]);
      YieldsAfter(e, P, s, Run(pc, ys[0], stk, G), pc', stk', G, zss[0]);
      YieldsMore(e, P, s, pc', stk', G, F, zss[0], Flat(zss[1..]));
    }
  }

  /** A match instruction reached above a lookahead's frame comes back to that frame. */
  lemma {:induction false} SucceedUnwinds(e: Env, P: Program, y: St, G: Frames, F: Frames)
    requires Above(G, F)
    ensures Reaches(e, P, Succeed(y, G), Succeed(y, F))
  {
    if G == F {
      ReachesSelf(e, P, Succeed(y, F));
    } else {
      ReachesStep(e, P, Succeed(y, G));
      SucceedUnwinds(e, P, y, G.tail, F);
      ReachesTrans(e, P, Succeed(y, G), Succeed(y, G.tail), Succeed(y, F));
    }
  }
}
