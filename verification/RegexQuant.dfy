/** The code of quantifiers delivers the outcomes of quantified patterns. */
module RegexQuant {
  import opened CharInput
  import opened RegexSyntax
  import opened RegexOpcode
  import opened RegexOutcomes
  import opened RegexCompile
  import opened RegexVm
  import opened RegexRuns
  import opened RegexLoops
  import opened RegexAdvance
  import opened RegexBalance
  import opened RegexSimple
  import opened RegexGreedy
  import opened RegexCorrect

  /** `A` is code for `a`: wherever it is placed, it delivers the outcomes of `a`. */
  ghost predicate CodeFor(e: Env, P: Program, A: seq<Instr>, a: Re, cc: nat, bw: bool)
  {
    Balanced(A) && (!NeedCheckAdvance(A) ==> AlwaysMoves(e, a, cc, bw)) &&
    forall pc: nat :: CodeAt(P.fetch, pc, A) ==> Implements(e, P, pc, pc + Length(A), Peak(A), a, cc, bw)
  }

  // ----- optional iterations -----

  lemma GuardedFor(e: Env, P: Program, A: seq<Instr>, pc: nat, a: Re, cc: nat, bw: bool)
    requires CodeFor(e, P, A, a, cc, bw) && CodeAt(P.fetch, pc, Guarded(A))
    ensures ImplementsMove(e, P, pc, pc + Length(Guarded(A)), GuardedNeed(A), a, cc, bw)
  {
    hide Implements, ImplementsMove, AlwaysMoves, NeedCheckAdvance, Length, Peak, Net, Low;
    if NeedCheckAdvance(A) {
      BlockAt(P.fetch, pc, PushCharPos, A, CheckAdvance);
    }
    GuardedImplements(e, P, A, pc, a, cc, bw);
  }

  lemma OptionImplements(e: Env, P: Program, A: seq<Instr>, greedy: bool, pc: nat, a: Re, cc: nat, bw: bool)
    requires CodeFor(e, P, A, a, cc, bw) && CodeAt(P.fetch, pc, OptionCode(Guarded(A), greedy))
    ensures ImplementsRepeat(e, P, pc, pc + Length(OptionCode(Guarded(A), greedy)), GuardedNeed(A), a, cc, bw, AtMost(1), greedy)
  {
    hide CodeFor, ImplementsMove, Yields, Repeat, GuardedNeed, Guarded, Length;
    var body := Guarded(A);
    var split := Split(greedy, Length(body));
    One(split);
    CodeAtAppend(P.fetch, pc, [split], body);
    SingleAt(P.fetch, pc, split);
    LengthAppend([split], body);
    GuardedFor(e, P, A, pc + 5, a, cc, bw);
    var end := pc + 5 + Length(body);
    forall x, stk, F | Ready(e, P, x) && Fits(P, stk, GuardedNeed(A))
      ensures Yields(e, P, Run(pc, x, stk, F), end, stk, F, Repeat(e, a, cc, bw, AtMost(1), greedy, x))
    {
      OptionYields(e, P, pc, end, GuardedNeed(A), greedy, a, cc, bw, x, stk, F);
    }
  }

  lemma StarImplements(e: Env, P: Program, A: seq<Instr>, greedy: bool, pc: nat, a: Re, cc: nat, bw: bool)
    requires CodeFor(e, P, A, a, cc, bw) && CodeAt(P.fetch, pc, StarCode(Guarded(A), greedy))
    ensures ImplementsRepeat(e, P, pc, pc + Length(StarCode(Guarded(A), greedy)), GuardedNeed(A), a, cc, bw, Unbounded, greedy)
  {
    hide CodeFor, ImplementsMove, Yields, Repeat, GuardedNeed, Guarded, Length, CodeAt;
    var body := Guarded(A);
    var l: int := Length(body);
    BlockAt(P.fetch, pc, Split(greedy, l + 5), body, Goto(-(l + 10)));
    GuardedFor(e, P, A, pc + 5, a, cc, bw);
    var back := pc + 5 + Length(body);
    var end := back + 5;
    forall x, stk, F | Ready(e, P, x) && Fits(P, stk, GuardedNeed(A))
      ensures Yields(e, P, Run(pc, x, stk, F), end, stk, F, Repeat(e, a, cc, bw, Unbounded, greedy, x))
    {
      StarYields(e, P, pc, back, GuardedNeed(A), greedy, a, cc, bw, x, stk, F);
    }
  }

  lemma PushReaches(e: Env, P: Program, v: nat, pc: nat, x: St, stk: Stack, F: Frames)
    requires Ready(e, P, x) && Fits(P, stk, 1) && P.fetch(pc) == Valid(PushI32(v))
    ensures Reaches(e, P, Run(pc, x, stk, F), Run(pc + 5, x, Push(v, stk), F))
  {
    hide Reaches;
    ReachesStep(e, P, Run(pc, x, stk, F));
  }

  lemma CountedImplements(e: Env, P: Program, A: seq<Instr>, n: nat, greedy: bool, pc: nat, a: Re, cc: nat, bw: bool)
    requires CodeFor(e, P, A, a, cc, bw) && n > 0 && CodeAt(P.fetch, pc, CountedCode(Guarded(A), n, greedy))
    ensures ImplementsRepeat(e, P, pc, pc + Length(CountedCode(Guarded(A), n, greedy)), GuardedNeed(A) + 1, a, cc, bw, AtMost(n), greedy)
  {
    hide CodeFor, ImplementsMove, Yields, Reaches, Repeat, GuardedNeed, Guarded, Length, CodeAt;
    var body := Guarded(A);
    var l: int := Length(body);
    var push, split, loop := PushI32(n), Split(greedy, l + 5), Loop(-(l + 10));
    assert CountedCode(body, n, greedy) == [push] + ([split] + body + [loop]) + [Drop];
    BlockAt(P.fetch, pc, push, [split] + body + [loop], Drop);
    BlockAt(P.fetch, pc + 5, split, body, loop);
    GuardedFor(e, P, A, pc + 10, a, cc, bw);
    var top := pc + 5;
    var back := top + 5 + Length(body);
    var end := back + 6;
    forall x, stk, F | Ready(e, P, x) && Fits(P, stk, GuardedNeed(A) + 1)
      ensures Yields(e, P, Run(pc, x, stk, F), end, stk, F, Repeat(e, a, cc, bw, AtMost(n), greedy, x))
    {
      PushReaches(e, P, n, pc, x, stk, F);
      CountedYields(e, P, top, back, GuardedNeed(A), n, greedy, a, cc, bw, x, stk, F);
      YieldsAfter(e, P, Run(pc, x, stk, F), Run(top, x, Push(n, stk), F), end, stk, F,
                  Repeat(e, a, cc, bw, AtMost(n), greedy, x));
    }
  }

  function Count(n: nat): Bound { if n == INFINITY then Unbounded else AtMost(n) }

  lemma OptionalImplements(e: Env, P: Program, A: seq<Instr>, n: nat, greedy: bool, pc: nat, a: Re, cc: nat, bw: bool)
    requires CodeFor(e, P, A, a, cc, bw) && CodeAt(P.fetch, pc, OptionalCode(A, n, greedy))
    ensures ImplementsRepeat(e, P, pc, pc + Length(OptionalCode(A, n, greedy)), OptionalNeed(A, n), a, cc, bw, Count(n), greedy)
  {
    hide CodeFor, ImplementsRepeat, CodeAt, StarCode, CountedCode, Guarded;
    if n == 0 {
      NoneImplements(e, P, greedy, pc, a, cc, bw);
    } else if n == INFINITY {
      StarImplements(e, P, A, greedy, pc, a, cc, bw);
    } else {
      CountedImplements(e, P, A, n, greedy, pc, a, cc, bw);
    }
  }

  lemma NoneImplements(e: Env, P: Program, greedy: bool, pc: nat, a: Re, cc: nat, bw: bool)
    ensures ImplementsRepeat(e, P, pc, pc, 0, a, cc, bw, AtMost(0), greedy)
  {
    hide Yields, Repeat;
    forall x, stk, F | Ready(e, P, x)
      ensures Yields(e, P, Run(pc, x, stk, F), pc, stk, F, Repeat(e, a, cc, bw, AtMost(0), greedy, x))
    {
      RepeatUnfolds(e, a, cc, bw, AtMost(0), greedy, x);
      YieldsHere(e, P, pc, x, stk, F);
    }
  }

  // ----- the whole quantifier -----

  /** The code from `pc` to `end` delivers the quantified outcomes. */
  ghost predicate ImplementsTimes(
    e: Env, P: Program, pc: nat, end: nat, need: nat, r: Re, cc: nat, bw: bool, min: nat, k: Bound, greedy: bool)
  {
    forall x, stk, F :: Ready(e, P, x) && Fits(P, stk, need) ==>
      Yields(e, P, Run(pc, x, stk, F), end, stk, F, Times(e, r, cc, bw, min, k, greedy, x))
  }

  lemma PlusImplements(e: Env, P: Program, A: seq<Instr>, greedy: bool, pc: nat, a: Re, cc: nat, bw: bool)
    requires CodeFor(e, P, A, a, cc, bw) && !NeedCheckAdvance(A) && CodeAt(P.fetch, pc, PlusCode(A, greedy))
    ensures ImplementsTimes(e, P, pc, pc + Length(PlusCode(A, greedy)), Peak(A), a, cc, bw, 1, Unbounded, greedy)
  {
    hide Implements, AlwaysMoves, Yields, Times, Length, Peak, NeedCheckAdvance;
    var l: int := Length(A);
    var split := Split(!greedy, -(l + 5));
    CodeAtAppend(P.fetch, pc, A, [split]);
    LengthAppend(A, [split]);
    SingleAt(P.fetch, pc + Length(A), split);
    var back := pc + Length(A);
    var end := back + 5;
    forall x, stk, F | Ready(e, P, x) && Fits(P, stk, Peak(A))
      ensures Yields(e, P, Run(pc, x, stk, F), end, stk, F, Times(e, a, cc, bw, 1, Unbounded, greedy, x))
    {
      PlusYields(e, P, pc, back, Peak(A), greedy, a, cc, bw, x, stk, F);
    }
  }

  lemma OnceImplements(e: Env, P: Program, A: seq<Instr>, n: nat, greedy: bool, pc: nat, a: Re, cc: nat, bw: bool)
    requires CodeFor(e, P, A, a, cc, bw) && CodeAt(P.fetch, pc, A + OptionalCode(A, n, greedy))
    ensures ImplementsTimes(e, P, pc, pc + Length(A + OptionalCode(A, n, greedy)), Peak(A + OptionalCode(A, n, greedy)),
                            a, cc, bw, 1, Count(n), greedy)
  {
    hide Implements, ImplementsRepeat, AlwaysMoves, Yields, Times, Length, Peak, NeedCheckAdvance, OptionalCode, OptionalNeed, Net, Low;
    var B := OptionalCode(A, n, greedy);
    CodeAtAppend(P.fetch, pc, A, B);
    Parts(A, B);
    OptionalUses(A, n, greedy);
    var mid := pc + Length(A);
    OptionalImplements(e, P, A, n, greedy, mid, a, cc, bw);
    var end := mid + Length(B);
    forall x, stk, F | Ready(e, P, x) && Fits(P, stk, Peak(A + B))
      ensures Yields(e, P, Run(pc, x, stk, F), end, stk, F, Times(e, a, cc, bw, 1, Count(n), greedy, x))
    {
      OnceYields(e, P, pc, mid, end, Peak(A), Peak(B), a, cc, bw, Count(n), greedy, x, stk, F);
    }
  }

  lemma ExactImplements(e: Env, P: Program, A: seq<Instr>, min: nat, n: nat, greedy: bool, pc: nat, a: Re, cc: nat, bw: bool)
    requires CodeFor(e, P, A, a, cc, bw) && min > 0 && CodeAt(P.fetch, pc, ExactCode(A, min) + OptionalCode(A, n, greedy))
    ensures var block := ExactCode(A, min) + OptionalCode(A, n, greedy);
            ImplementsTimes(e, P, pc, pc + Length(block), Peak(block), a, cc, bw, min, Count(n), greedy)
  {
    hide Implements, ImplementsRepeat, AlwaysMoves, Yields, Reaches, Times, Length, Peak, NeedCheckAdvance, OptionalCode, OptionalNeed, Net, Low, CodeAt;
    var l: int := Length(A);
    var push, loop := PushI32(min), Loop(-(l + 5));
    var X, B := ExactCode(A, min), OptionalCode(A, n, greedy);
    CodeAtAppend(P.fetch, pc, X, B);
    Parts(X, B);
    OptionalUses(A, n, greedy);
    RequiredUses(A, min, greedy);
    assert X == [push] + (A + [loop]) + [Drop];
    BlockAt(P.fetch, pc, push, A + [loop], Drop);
    CodeAtAppend(P.fetch, pc + 5, A, [loop]);
    LengthAppend(A, [loop]);
    SingleAt(P.fetch, pc + 5 + Length(A), loop);
    var top := pc + 5;
    var back := top + Length(A);
    OptionalImplements(e, P, A, n, greedy, back + 6, a, cc, bw);
    var end := back + 6 + Length(B);
    forall x, stk, F | Ready(e, P, x) && Fits(P, stk, Peak(X + B))
      ensures Yields(e, P, Run(pc, x, stk, F), end, stk, F, Times(e, a, cc, bw, min, Count(n), greedy, x))
    {
      PushReaches(e, P, min, pc, x, stk, F);
      ExactYields(e, P, top, back, end, Peak(A), Peak(B), min, a, cc, bw, Count(n), greedy, x, stk, F);
      YieldsAfter(e, P, Run(pc, x, stk, F), Run(top, x, Push(min, stk), F), end, stk, F,
                  Times(e, a, cc, bw, min, Count(n), greedy, x));
    }
  }

  // ----- the specialised quantifier -----

  /** A simple block has no captures. */
  lemma {:induction false} SimpleNoGroups(canon: CodePoint -> CodePoint, r: Re, cc: nat, bw: bool)
    requires WellFormed(r) && Simple(Code(canon, r, cc, bw))
    ensures Groups(r) == 0
  {
    hide Simple, Code;
    if r.Seq? {
      CodeSeq(canon, r.first, r.second, cc, bw);
      var A, B := Code(canon, r.first, cc, bw), Code(canon, r.second, cc + Groups(r.first), bw);
      SimpleParts(A, B);
      SimpleParts(B, A);
      SimpleNoGroups(canon, r.first, cc, bw);
      SimpleNoGroups(canon, r.second, cc + Groups(r.first), bw);
    } else if r.Quant? {
      CodeQuant(canon, r.body, r.min, r.max, r.greedy, cc, bw);
      QuantSimple(Code(canon, r.body, cc, bw), r.min, r.max, r.greedy, cc, Groups(r.body));
      if r.min == 1 {
        SimpleNoGroups(canon, r.body, cc, bw);
      }
    } else if r.Alt? || r.Look? || r.Group? || r.BackRef? {
      OtherNotSimple(canon, r, cc, bw);
    }
  }

  lemma SimpleGood(e: Env, P: Program, a: Re, cc: nat, bw: bool, pa: nat)
    requires ValidProgram(P) && WellFormed(a)
    requires SimpleCount(Code(e.canon, a, cc, bw)) > 0
    requires CodeAt(P.fetch, pa, Code(e.canon, a, cc, bw) + [Match])
    ensures GoodAtom(e, P, pa, SimpleCount(Code(e.canon, a, cc, bw)), a, cc, bw)
  {
    hide Code, Outcomes, ValidSt, RunAtom, Length, CharCount, StepBack;
    var A := Code(e.canon, a, cc, bw);
    CodeAtAppend(P.fetch, pa, A, [Match]);
    SingleAt(P.fetch, pa + Length(A), Match);
    forall x | ValidSt(e, x)
      ensures GoodAt(e, P, pa, SimpleCount(A), x, Outcomes(e, a, cc, bw, x))
    {
      SimpleAgrees(e, P, a, cc, bw, pa, x);
      var os := Outcomes(e, a, cc, bw, x);
      if os != [] {
        ValidInBuffer(e, os[0]);
        RunMatch(e, P, pa + Length(A), os[0].pos);
        StepBackStrict(e.text, os[0].pos, SimpleCount(A));
      }
    }
  }

  lemma ValidInBuffer(e: Env, x: St)
    requires ValidSt(e, x)
    ensures x.pos <= |e.text.units|
  {
  }

  lemma RunMatch(e: Env, P: Program, pc: nat, p: nat)
    requires ValidProgram(P) && P.fetch(pc) == Valid(Match) && p <= |e.text.units|
    ensures RunAtom(e, P, pc, p) == AtomEnd(p)
  {
  }

  lemma SimpleImplements(e: Env, P: Program, a: Re, min: nat, max: nat, cc: nat, bw: bool, pc: nat)
    requires ValidProgram(P) && WellFormed(Quant(a, min, max, true)) && max > 0
    requires SimpleCount(Code(e.canon, a, cc, bw)) > 0
    requires CodeAt(P.fetch, pc, SimpleCode(Code(e.canon, a, cc, bw), min, max))
    ensures ImplementsTimes(e, P, pc, pc + Length(SimpleCode(Code(e.canon, a, cc, bw), min, max)),
                            0, a, cc, bw, min, Extra(min, max), true)
  {
    hide Code, Yields, Times, Length, SimpleCount, CodeAt, GoodAtom;
    var A := Code(e.canon, a, cc, bw);
    var quant := SimpleGreedyQuant(Length(A) + 1, min, max, SimpleCount(A));
    CodeAtAppend(P.fetch, pc, [quant], A + [Match]);
    LengthAppend([quant], A + [Match]);
    LengthAppend(A, [Match]);
    One(quant);
    One(Match);
    SingleAt(P.fetch, pc, quant);
    SimpleGood(e, P, a, cc, bw, pc + 17);
    var end := pc + 17 + quant.next;
    forall x, stk, F | Ready(e, P, x) && Fits(P, stk, 0)
      ensures Yields(e, P, Run(pc, x, stk, F), end, stk, F, Times(e, a, cc, bw, min, Extra(min, max), true, x))
    {
      SimpleYields(e, P, pc, quant, a, cc, bw, x, stk, F);
    }
  }

  // ----- putting the cases together -----

  lemma ResetReaches(e: Env, P: Program, lo: nat, hi: nat, pc: nat, x: St, stk: Stack, F: Frames)
    requires Ready(e, P, x) && P.fetch(pc) == Valid(SaveReset(lo, hi)) && hi < P.captureCount
    ensures Ready(e, P, Reset(x, lo, hi + 1))
    ensures Reaches(e, P, Run(pc, x, stk, F), Run(pc + 3, Reset(x, lo, hi + 1), stk, F))
  {
    hide Reaches;
    ReachesStep(e, P, Run(pc, x, stk, F));
  }

  lemma ResetNone(x: St, cc: nat)
    ensures Reset(x, cc, cc) == x
  {
    assert Reset(x, cc, cc).caps == x.caps;
  }

  /** No required iteration: the captures are reset once, before the loop. */
  lemma OptionalQuantImplements(
    e: Env, P: Program, pc: nat, mid: nat, end: nat, need: nat, a: Re, max: nat, greedy: bool, cc: nat, bw: bool)
    requires cc + Groups(a) <= P.captureCount && max <= INFINITY
    requires Groups(a) == 0 ==> mid == pc
    requires Groups(a) > 0 ==> mid == pc + 3 && P.fetch(pc) == Valid(SaveReset(cc, cc + Groups(a) - 1))
    requires ImplementsRepeat(e, P, mid, end, need, a, cc, bw, Count(max), greedy)
    ensures Implements(e, P, pc, end, need, Quant(a, 0, max, greedy), cc, bw)
  {
    hide Yields, Reaches, Repeat, Times, Outcomes, Reset;
    forall x, stk, F | Ready(e, P, x) && Fits(P, stk, need)
      ensures Yields(e, P, Run(pc, x, stk, F), end, stk, F, Outcomes(e, Quant(a, 0, max, greedy), cc, bw, x))
    {
      var x0 := Reset(x, cc, cc + Groups(a));
      OutcomesQuant(e, a, 0, max, greedy, cc, bw, x);
      TimesUnfolds(e, a, cc, bw, 0, Extra(0, max), greedy, x0);
      if Groups(a) == 0 {
        ResetNone(x, cc);
      } else {
        ResetReaches(e, P, cc, cc + Groups(a) - 1, pc, x, stk, F);
        YieldsAfter(e, P, Run(pc, x, stk, F), Run(mid, x0, stk, F), end, stk, F,
                    Repeat(e, a, cc, bw, Count(max), greedy, x0));
      }
    }
  }

  lemma TimesImplements(
    e: Env, P: Program, pc: nat, end: nat, need: nat, a: Re, min: nat, max: nat, greedy: bool, cc: nat, bw: bool)
    requires min <= max <= INFINITY && (min > 0 || Groups(a) == 0)
    requires ImplementsTimes(e, P, pc, end, need, a, cc, bw, min, Extra(min, max), greedy)
    ensures Implements(e, P, pc, end, need, Quant(a, min, max, greedy), cc, bw)
  {
    hide Yields, Times, Outcomes, Reset;
    forall x, stk, F | Ready(e, P, x) && Fits(P, stk, need)
      ensures Yields(e, P, Run(pc, x, stk, F), end, stk, F, Outcomes(e, Quant(a, min, max, greedy), cc, bw, x))
    {
      OutcomesQuant(e, a, min, max, greedy, cc, bw, x);
      if min == 0 {
        ResetNone(x, cc);
      }
    }
  }

  lemma WeakerNeed(e: Env, P: Program, pc: nat, end: nat, need: nat, need': nat, r: Re, cc: nat, bw: bool)
    requires Implements(e, P, pc, end, need, r, cc, bw) && need <= need'
    ensures Implements(e, P, pc, end, need', r, cc, bw)
  {
    hide Yields, Outcomes;
  }

  lemma ZeroQuantImplements(
    e: Env, P: Program, A: seq<Instr>, a: Re, max: nat, greedy: bool, cc: nat, bw: bool, pc: nat)
    requires CodeFor(e, P, A, a, cc, bw) && cc + Groups(a) <= P.captureCount && max <= INFINITY
    requires !(greedy && max > 0 && SimpleCount(A) > 0)
    requires CodeAt(P.fetch, pc, QuantCode(A, 0, max, greedy, cc, Groups(a)))
    ensures var block := QuantCode(A, 0, max, greedy, cc, Groups(a));
            Implements(e, P, pc, pc + Length(block), Peak(block), Quant(a, 0, max, greedy), cc, bw)
  {
    hide Implements, ImplementsRepeat, CodeFor, Length, Peak, Net, Low, CodeAt, OptionCode, OptionalCode, Guarded, SimpleCount, GuardedNeed, OptionalNeed;
    var reset := if Groups(a) > 0 then [SaveReset(cc, cc + Groups(a) - 1)] else [];
    var B := if max == 1 then OptionCode(Guarded(A), greedy) else OptionalCode(A, max, greedy);
    var need := if max == 1 then GuardedNeed(A) else OptionalNeed(A, max);
    assert QuantCode(A, 0, max, greedy, cc, Groups(a)) == reset + B;
    CodeAtAppend(P.fetch, pc, reset, B);
    Parts(reset, B);
    assert Balanced(A) by { CodeForBalanced(e, P, A, a, cc, bw); }
    GuardedUses(A);
    LoopUses(Guarded(A), 0, greedy);
    OptionalUses(A, max, greedy);
    EmptyBlock();
    if Groups(a) > 0 {
      One(reset[0]);
      SingleAt(P.fetch, pc, reset[0]);
    }
    var mid := pc + Length(reset);
    if max == 1 {
      OptionImplements(e, P, A, greedy, mid, a, cc, bw);
    } else {
      OptionalImplements(e, P, A, max, greedy, mid, a, cc, bw);
    }
    OptionalQuantImplements(e, P, pc, mid, mid + Length(B), need, a, max, greedy, cc, bw);
  }

  lemma CodeForBalanced(e: Env, P: Program, A: seq<Instr>, a: Re, cc: nat, bw: bool)
    requires CodeFor(e, P, A, a, cc, bw)
    ensures Balanced(A)
  {
  }

  lemma EmptyBlock()
    ensures Length([]) == 0 && Balanced([]) && Peak([]) == 0
  {
  }

  lemma RequiredQuantImplements(
    e: Env, P: Program, A: seq<Instr>, a: Re, min: nat, max: nat, greedy: bool, cc: nat, bw: bool, pc: nat)
    requires CodeFor(e, P, A, a, cc, bw) && 0 < min <= max <= INFINITY
    requires !(greedy && max > 0 && SimpleCount(A) > 0)
    requires CodeAt(P.fetch, pc, QuantCode(A, min, max, greedy, cc, Groups(a)))
    ensures var block := QuantCode(A, min, max, greedy, cc, Groups(a));
            Implements(e, P, pc, pc + Length(block), Peak(block), Quant(a, min, max, greedy), cc, bw)
  {
    hide Implements, ImplementsTimes, CodeFor, Length, Peak, CodeAt, OptionalCode, ExactCode, PlusCode, SimpleCount, NeedCheckAdvance;
    var block := QuantCode(A, min, max, greedy, cc, Groups(a));
    var n := if max == INFINITY then INFINITY else max - min;
    if min == 1 && max == INFINITY && !NeedCheckAdvance(A) {
      PlusImplements(e, P, A, greedy, pc, a, cc, bw);
      CodeForBalanced(e, P, A, a, cc, bw);
      RequiredUses(A, min, greedy);
    } else if min == 1 {
      OnceImplements(e, P, A, n, greedy, pc, a, cc, bw);
    } else {
      ExactImplements(e, P, A, min, n, greedy, pc, a, cc, bw);
    }
    TimesImplements(e, P, pc, pc + Length(block), Peak(block), a, min, max, greedy, cc, bw);
  }

  lemma QuantImplements(
    e: Env, P: Program, a: Re, min: nat, max: nat, greedy: bool, cc: nat, bw: bool, pc: nat)
    requires ValidProgram(P) && WellFormed(Quant(a, min, max, greedy)) && cc + Groups(a) <= P.captureCount
    requires CodeFor(e, P, Code(e.canon, a, cc, bw), a, cc, bw)
    requires CodeAt(P.fetch, pc, Code(e.canon, Quant(a, min, max, greedy), cc, bw))
    ensures var block := Code(e.canon, Quant(a, min, max, greedy), cc, bw);
            Implements(e, P, pc, pc + Length(block), Peak(block), Quant(a, min, max, greedy), cc, bw)
  {
    hide Implements, ImplementsTimes, CodeFor, Length, Peak, CodeAt, SimpleCode, Code, QuantCode;
    var A := Code(e.canon, a, cc, bw);
    var block := QuantCode(A, min, max, greedy, cc, Groups(a));
    CodeQuant(e.canon, a, min, max, greedy, cc, bw);
    if greedy && max > 0 && SimpleCount(A) > 0 {
      assert block == SimpleCode(A, min, max) by { QuantIsSimple(A, min, max, cc, Groups(a)); }
      SimpleImplements(e, P, a, min, max, cc, bw, pc);
      SimpleNoGroups(e.canon, a, cc, bw);
      TimesImplements(e, P, pc, pc + Length(block), 0, a, min, max, greedy, cc, bw);
      WeakerNeed(e, P, pc, pc + Length(block), 0, Peak(block), Quant(a, min, max, greedy), cc, bw);
    } else if min == 0 {
      ZeroQuantImplements(e, P, A, a, max, greedy, cc, bw, pc);
    } else {
      RequiredQuantImplements(e, P, A, a, min, max, greedy, cc, bw, pc);
    }
  }

  lemma QuantIsSimple(A: seq<Instr>, min: nat, max: nat, cc: nat, groups: nat)
    requires 0 < max && min <= max <= INFINITY && SimpleCount(A) > 0
    ensures QuantCode(A, min, max, true, cc, groups) == SimpleCode(A, min, max)
  {
  }
}
