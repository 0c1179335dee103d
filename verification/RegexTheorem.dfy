/** Compiled patterns match what the patterns mean. */
module RegexTheorem {
  import opened CharInput
  import opened RegexSyntax
  import opened RegexOpcode
  import opened RegexRange
  import opened RegexOutcomes
  import opened RegexCompile
  import opened RegexVm
  import opened RegexRuns
  import opened RegexLoops
  import opened RegexAdvance
  import opened RegexBalance
  import opened RegexSimple
  import opened RegexCorrect
  import opened RegexQuant

  /** Wherever it is placed, the code of a pattern delivers all the outcomes of the pattern, in
      order, whatever is on the stack and whatever has been saved. */
  lemma {:induction false} CodeImplements(e: Env, P: Program, r: Re, cc: nat, bw: bool, pc: nat)
    requires ValidProgram(P) && WellFormed(r) && cc + Groups(r) <= P.captureCount
    requires CodeAt(P.fetch, pc, Code(e.canon, r, cc, bw))
    ensures var block := Code(e.canon, r, cc, bw);
            Implements(e, P, pc, pc + Length(block), Peak(block), r, cc, bw)
    decreases r, 1
  {
    hide Implements, Code, CodeAt, Length, Peak, ValidProgram;
    match r {
      case Seq(a, b) => SeqCase(e, P, a, b, cc, bw, pc);
      case Alt(a, b) => AltCase(e, P, a, b, cc, bw, pc);
      case Group(a) => GroupCase(e, P, a, cc, bw, pc);
      case Look(a, negated, behind) => LookCase(e, P, a, negated, behind, cc, bw, pc);
      case Quant(a, min, max, greedy) =>
        AtomCase(e, P, a, cc, bw);
        QuantImplements(e, P, a, min, max, greedy, cc, bw, pc);
      case _ => LeafCase(e, P, r, cc, bw, pc);
    }
  }

  lemma LeafCase(e: Env, P: Program, r: Re, cc: nat, bw: bool, pc: nat)
    requires WellFormed(r) && Leaf(r) && CodeAt(P.fetch, pc, Code(e.canon, r, cc, bw))
    ensures var block := Code(e.canon, r, cc, bw);
            Implements(e, P, pc, pc + Length(block), Peak(block), r, cc, bw)
  {
    hide Implements, Code, CodeAt, Length, Peak;
    var block := Code(e.canon, r, cc, bw);
    if r.Char? || r.AnyChar? || r.Class? {
      OneCharImplements(e, P, r, cc, bw, pc);
    } else if r.Empty? {
      CodeEmpty(e.canon, cc, bw);
      EmptyImplements(e, P, cc, bw, pc);
    } else if r.ClassOrEmpty? {
      OrEmptyImplements(e, P, r.points, r.icase, cc, bw, pc);
    } else if r.BackRef? {
      BackRefImplements(e, P, r, cc, bw, pc);
    } else {
      AssertionImplements(e, P, r, cc, bw, pc);
    }
    WeakerNeed(e, P, pc, pc + Length(block), 0, Peak(block), r, cc, bw);
  }

  lemma CodeEmpty(canon: CodePoint -> CodePoint, cc: nat, bw: bool)
    ensures Length(Code(canon, Empty, cc, bw)) == 0
  {
  }

  lemma SeqCase(e: Env, P: Program, a: Re, b: Re, cc: nat, bw: bool, pc: nat)
    requires ValidProgram(P) && WellFormed(a) && WellFormed(b) && cc + Groups(a) + Groups(b) <= P.captureCount
    requires CodeAt(P.fetch, pc, Code(e.canon, Seq(a, b), cc, bw))
    ensures var block := Code(e.canon, Seq(a, b), cc, bw);
            Implements(e, P, pc, pc + Length(block), Peak(block), Seq(a, b), cc, bw)
    decreases Seq(a, b), 0
  {
    hide Implements, Code, CodeAt, Length, Peak, ValidProgram, Net, Low;
    var cb := cc + Groups(a);
    var A, B := Code(e.canon, a, cc, bw), Code(e.canon, b, cb, bw);
    CodeSeq(e.canon, a, b, cc, bw);
    CodeNeutral(e.canon, a, cc, bw);
    CodeNeutral(e.canon, b, cb, bw);
    var (X, Y) := if bw then (B, A) else (A, B);
    CodeAtAppend(P.fetch, pc, X, Y);
    Parts(X, Y);
    var mid := pc + Length(X);
    CodeImplements(e, P, a, cc, bw, if bw then mid else pc);
    CodeImplements(e, P, b, cb, bw, if bw then pc else mid);
    SeqImplements(e, P, a, b, cc, bw, pc, mid, mid + Length(Y), Peak(A), Peak(B), Peak(X + Y));
  }

  lemma CodeAlt(canon: CodePoint -> CodePoint, a: Re, b: Re, cc: nat, bw: bool)
    requires WellFormed(a) && WellFormed(b)
    ensures Code(canon, Alt(a, b), cc, bw) == AltCode(Code(canon, a, cc, bw), Code(canon, b, cc + Groups(a), bw))
  {
    hide QuantCode, Directed, RangeInstr, CharInstr, ValidPoints, Length, AltCode;
  }

  lemma AltCase(e: Env, P: Program, a: Re, b: Re, cc: nat, bw: bool, pc: nat)
    requires ValidProgram(P) && WellFormed(a) && WellFormed(b) && cc + Groups(a) + Groups(b) <= P.captureCount
    requires CodeAt(P.fetch, pc, Code(e.canon, Alt(a, b), cc, bw))
    ensures var block := Code(e.canon, Alt(a, b), cc, bw);
            Implements(e, P, pc, pc + Length(block), Peak(block), Alt(a, b), cc, bw)
    decreases Alt(a, b), 0
  {
    hide Implements, Code, CodeAt, Length, Peak, ValidProgram, Net, Low;
    var cb := cc + Groups(a);
    var A, B := Code(e.canon, a, cc, bw), Code(e.canon, b, cb, bw);
    CodeAlt(e.canon, a, b, cc, bw);
    CodeNeutral(e.canon, a, cc, bw);
    CodeNeutral(e.canon, b, cb, bw);
    AltUses(A, B);
    var split, goto' := Split(true, Length(A) + 5), Goto(Length(B));
    CodeAtAppend(P.fetch, pc, [split] + A + [goto'], B);
    BlockAt(P.fetch, pc, split, A, goto');
    var mid := pc + 5 + Length(A);
    CodeImplements(e, P, a, cc, bw, pc + 5);
    CodeImplements(e, P, b, cb, bw, mid + 5);
    AltImplements(e, P, a, b, cc, bw, pc, mid, mid + 5 + Length(B), Peak(A), Peak(B), Peak(AltCode(A, B)));
  }

  lemma GroupCase(e: Env, P: Program, a: Re, cc: nat, bw: bool, pc: nat)
    requires ValidProgram(P) && WellFormed(a) && cc + 1 + Groups(a) <= P.captureCount
    requires CodeAt(P.fetch, pc, Code(e.canon, Group(a), cc, bw))
    ensures var block := Code(e.canon, Group(a), cc, bw);
            Implements(e, P, pc, pc + Length(block), Peak(block), Group(a), cc, bw)
    decreases Group(a), 0
  {
    hide Implements, Code, CodeAt, Length, Peak, ValidProgram, Net, Low;
    var A := Code(e.canon, a, cc + 1, bw);
    CodeGroup(e.canon, a, cc, bw);
    CodeNeutral(e.canon, a, cc + 1, bw);
    BracketNeutral(Save(bw, cc), A, Save(!bw, cc));
    BlockAt(P.fetch, pc, Save(bw, cc), A, Save(!bw, cc));
    CodeImplements(e, P, a, cc + 1, bw, pc + 2);
    GroupImplements(e, P, a, cc, bw, pc, pc + 2 + Length(A), Peak(A));
  }

  lemma CodeLook(canon: CodePoint -> CodePoint, a: Re, negated: bool, behind: bool, cc: nat, bw: bool)
    requires WellFormed(a)
    ensures var body := Code(canon, a, cc, behind);
            Code(canon, Look(a, negated, behind), cc, bw) == [Lookahead(negated, Length(body) + 1)] + body + [Match]
  {
    hide AltCode, QuantCode, Directed, RangeInstr, CharInstr, ValidPoints, Length;
  }

  lemma LookCase(e: Env, P: Program, a: Re, negated: bool, behind: bool, cc: nat, bw: bool, pc: nat)
    requires ValidProgram(P) && WellFormed(a) && cc + Groups(a) <= P.captureCount
    requires CodeAt(P.fetch, pc, Code(e.canon, Look(a, negated, behind), cc, bw))
    ensures var block := Code(e.canon, Look(a, negated, behind), cc, bw);
            Implements(e, P, pc, pc + Length(block), Peak(block), Look(a, negated, behind), cc, bw)
    decreases Look(a, negated, behind), 0
  {
    hide Implements, Code, CodeAt, Length, Peak, ValidProgram, Net, Low, Groups, WellFormed, Fits;
    var A := Code(e.canon, a, cc, behind);
    var look := Lookahead(negated, Length(A) + 1);
    CodeLook(e.canon, a, negated, behind, cc, bw);
    CodeNeutral(e.canon, a, cc, behind);
    BracketNeutral(look, A, Match);
    BlockAt(P.fetch, pc, look, A, Match);
    CodeImplements(e, P, a, cc, behind, pc + 5);
    LookImplements(e, P, a, negated, behind, cc, bw, pc, pc + 5 + Length(A), Peak(A));
  }

  lemma AtomCase(e: Env, P: Program, a: Re, cc: nat, bw: bool)
    requires ValidProgram(P) && WellFormed(a) && cc + Groups(a) <= P.captureCount
    ensures CodeFor(e, P, Code(e.canon, a, cc, bw), a, cc, bw)
    decreases a, 2
  {
    hide Implements, Code, CodeAt, Length, Peak, ValidProgram, Net, Low, NeedCheckAdvance, Outcomes;
    var A := Code(e.canon, a, cc, bw);
    CodeNeutral(e.canon, a, cc, bw);
    if !NeedCheckAdvance(A) {
      forall x | ValidSt(e, x)
        ensures AllMoved(x, Outcomes(e, a, cc, bw, x))
      {
        AdvanceSound(e, a, cc, bw, x);
      }
    }
    forall pc: nat | CodeAt(P.fetch, pc, A)
      ensures Implements(e, P, pc, pc + Length(A), Peak(A), a, cc, bw)
    {
      CodeImplements(e, P, a, cc, bw, pc);
    }
  }

  // ----- whole programs -----

  /** lre_compile without its header: unless sticky, a loop over start positions; then the pattern
      as group 0. */
  function Compile(canon: CodePoint -> CodePoint, r: Re, sticky: bool): seq<Instr>
    requires WellFormed(r)
  {
    Prefix(sticky) + Code(canon, Group(r), 0, false) + [Match]
  }

  function Prefix(sticky: bool): seq<Instr>
  {
    if sticky then [] else [Split(false, 6)] + [Any] + [Goto(-11)]
  }

  /** The state lre_exec starts from. */
  function Start(start: nat, captureCount: nat): (x: St)
    ensures |x.caps| == 2 * captureCount
  {
    St(start, seq(2 * captureCount, _ => Unset))
  }

  /** The outcomes of a search: those of a match at `x`, then those of a match further on. */
  function SearchFrom(e: Env, r: Re, x: St): seq<St>
    requires ValidSt(e, x)
    decreases |e.text.units| - x.pos
  {
    Outcomes(e, Group(r), 0, false, x) + Later(e, r, x)
  }

  function Later(e: Env, r: Re, x: St): seq<St>
    requires ValidSt(e, x)
    decreases |e.text.units| - x.pos, 0
  {
    if x.pos == |e.text.units| then [] else
    NextKeepsBoundary(e.text, x.pos);
    SearchFrom(e, r, x.(pos := NextPos(e.text, x.pos, |e.text.units|)))
  }

  /** What a match of `r` from `start` should give: the best outcome, if there is one. */
  function Expected(e: Env, r: Re, sticky: bool, x: St): Result
    requires ValidSt(e, x)
  {
    var os := if sticky then Outcomes(e, Group(r), 0, false, x) else SearchFrom(e, r, x);
    if os == [] then NoMatch else Matched(os[0].caps)
  }

  /** The three instructions that move on to the next start position. */
  lemma AnyReaches(e: Env, P: Program, pc: nat, x: St, stk: Stack, F: Frames)
    requires Ready(e, P, x) && P.fetch(pc) == Valid(Any) && P.fetch(pc + 1) == Valid(Goto(-11)) && pc >= 5
    ensures Reaches(e, P, Run(pc, x, stk, F),
                    if x.pos == |e.text.units| then Fail(F)
                    else Run(pc - 5, x.(pos := NextPos(e.text, x.pos, |e.text.units|)), stk, F))
  {
    hide Reaches, NextPos, Boundary;
    TestReaches(e, P, Any, pc, x, stk, F);
    if x.pos < |e.text.units| {
      var y := x.(pos := NextPos(e.text, x.pos, |e.text.units|));
      NextKeepsBoundary(e.text, x.pos);
      GotoReaches(e, P, pc + 1, pc - 5, y, stk, F);
      ReachesTrans(e, P, Run(pc, x, stk, F), Run(pc + 1, y, stk, F), Run(pc - 5, y, stk, F));
    }
  }

  lemma {:induction false} SearchYields(
    e: Env, P: Program, r: Re, end: nat, need: nat, x: St, stk: Stack, F: Frames)
    requires Ready(e, P, x) && Fits(P, stk, need)
    requires P.fetch(0) == Valid(Split(false, 6)) && P.fetch(5) == Valid(Any) && P.fetch(6) == Valid(Goto(-11))
    requires Implements(e, P, 11, end, need, Group(r), 0, false)
    ensures Yields(e, P, Run(0, x, stk, F), end, stk, F, SearchFrom(e, r, x))
    decreases |e.text.units| - x.pos
  {
    hide Yields, Reaches, Outcomes, NextPos, Boundary;
    var n := |e.text.units|;
    var zs := Later(e, r, x);
    forall G
      ensures Yields(e, P, Run(5, x, stk, G), end, stk, G, zs)
    {
      AnyReaches(e, P, 5, x, stk, G);
      if x.pos == n {
        YieldsNone(e, P, Run(5, x, stk, G), end, stk, G);
      } else {
        var y := x.(pos := NextPos(e.text, x.pos, n));
        NextKeepsBoundary(e.text, x.pos);
        SearchYields(e, P, r, end, need, y, stk, G);
        YieldsAfter(e, P, Run(5, x, stk, G), Run(0, y, stk, G), end, stk, G, zs);
      }
    }
    assert Delivers(e, P, 11, x, stk, end, stk, Outcomes(e, Group(r), 0, false, x));
    YieldsSplit(e, P, 0, false, 11, x, stk, F, end, stk, zs, Outcomes(e, Group(r), 0, false, x));
  }

  /** Delivering outcomes at a final match instruction halts with the best of them. */
  lemma YieldsHalts(e: Env, P: Program, s: Vm, end: nat, stk: Stack, ys: seq<St>)
    requires Yields(e, P, s, end, stk, Nil, ys) && P.fetch(end) == Valid(Match)
    requires ys != [] ==> Ready(e, P, ys[0])
    ensures Reaches(e, P, s, Halt(if ys == [] then NoMatch else Matched(ys[0].caps)))
  {
    hide Yields, Reaches;
    LookBody(e, P, s, end, stk, Nil, ys);
    var t := if ys == [] then Fail(Nil) else Succeed(ys[0], Nil);
    ReachesStep(e, P, t);
    ReachesTrans(e, P, s, t, Step(e, P, t));
  }

  lemma SearchReady(e: Env, P: Program, r: Re, x: St)
    requires Ready(e, P, x)
    ensures SearchFrom(e, r, x) != [] ==> Ready(e, P, SearchFrom(e, r, x)[0])
    decreases |e.text.units| - x.pos
  {
    hide Outcomes, NextPos, Boundary;
    OutcomesReady(e, P, Group(r), 0, false, x);
    if x.pos < |e.text.units| {
      NextKeepsBoundary(e.text, x.pos);
      SearchReady(e, P, r, x.(pos := NextPos(e.text, x.pos, |e.text.units|)));
    }
  }

  lemma CompileAt(fetch: Decoder, canon: CodePoint -> CodePoint, r: Re, sticky: bool)
    requires WellFormed(r) && CodeAt(fetch, 0, Compile(canon, r, sticky))
    ensures !sticky ==> fetch(0) == Valid(Split(false, 6)) && fetch(5) == Valid(Any) && fetch(6) == Valid(Goto(-11))
    ensures var pc := if sticky then 0 else 11;
            var block := Code(canon, Group(r), 0, false);
            CodeAt(fetch, pc, block) && fetch(pc + Length(block)) == Valid(Match)
    ensures Peak(Compile(canon, r, sticky)) == Peak(Code(canon, Group(r), 0, false))
  {
    hide Code, Length, CodeAt, Peak, Net, Low;
    var block := Code(canon, Group(r), 0, false);
    var prefix := Prefix(sticky);
    CodeAtAppend(fetch, 0, prefix + block, [Match]);
    CodeAtAppend(fetch, 0, prefix, block);
    LengthAppend(prefix, block);
    Parts(prefix + block, [Match]);
    Parts(prefix, block);
    EmptyBlock();
    One(Match);
    CodeNeutral(canon, Group(r), 0, false);
    if !sticky {
      BlockAt(fetch, 0, Split(false, 6), [Any], Goto(-11));
      SingleAt(fetch, 5, Any);
      One(Any);
      BracketNeutral(Split(false, 6), [Any], Goto(-11));
    }
    SingleAt(fetch, Length(prefix) + Length(block), Match);
  }

  /** Compiler correctness. From any code point boundary, a run of the compiled pattern, with the
      stack size that compute_stack_size gives, comes to an end with exactly the best outcome of the
      pattern, or without a match if there is none. In particular it terminates, and it never
      overruns its stack, its captures or its input. */
  lemma MatchCorrect(e: Env, P: Program, r: Re, sticky: bool, start: nat)
    requires WellFormed(r) && Boundary(e.text, start)
    requires ValidProgram(P) && CodeAt(P.fetch, 0, Compile(e.canon, r, sticky))
    requires P.captureCount == 1 + Groups(r) && P.stackSize == Peak(Compile(e.canon, r, sticky))
    ensures var x := Start(start, P.captureCount);
            ValidSt(e, x) && Reaches(e, P, Run(0, x, Bottom, Nil), Halt(Expected(e, r, sticky, x)))
  {
    hide Code, Compile, Length, CodeAt, Peak, Implements, Yields, Reaches, Outcomes, SearchFrom, ValidProgram;
    var x := Start(start, P.captureCount);
    assert ValidSt(e, x);
    CompileAt(P.fetch, e.canon, r, sticky);
    var block := Code(e.canon, Group(r), 0, false);
    var pc := if sticky then 0 else 11;
    var end := pc + Length(block);
    CodeImplements(e, P, Group(r), 0, false, pc);
    var s := Run(0, x, Bottom, Nil);
    if sticky {
      DirectYields(e, P, r, end, x);
      OutcomesReady(e, P, Group(r), 0, false, x);
      YieldsHalts(e, P, s, end, Bottom, Outcomes(e, Group(r), 0, false, x));
    } else {
      SearchYields(e, P, r, end, P.stackSize, x, Bottom, Nil);
      SearchReady(e, P, r, x);
      YieldsHalts(e, P, s, end, Bottom, SearchFrom(e, r, x));
    }
  }

  lemma DirectYields(e: Env, P: Program, r: Re, end: nat, x: St)
    requires Ready(e, P, x) && Implements(e, P, 0, end, P.stackSize, Group(r), 0, false)
    ensures Yields(e, P, Run(0, x, Bottom, Nil), end, Bottom, Nil, Outcomes(e, Group(r), 0, false, x))
  {
    hide Yields, Outcomes;
    assert Fits(P, Bottom, P.stackSize);
  }
}
