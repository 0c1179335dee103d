/** The specialised greedy quantifier: it counts how often a simple atom matches and then steps back
    one iteration at a time, and this tries the positions that the general loop would try. */
module RegexSimple {
  import opened CharInput
  import opened RegexSyntax
  import opened RegexOpcode
  import opened RegexRange
  import opened RegexOutcomes
  import opened RegexCompile
  import opened RegexVm
  import opened RegexRuns
  import opened RegexLoops
  import opened RegexAdvance

  /** Nothing is fetched outside the code. */
  ghost predicate ValidProgram(P: Program)
  {
    forall pc: nat :: P.fetch(pc).Valid? ==> pc < P.length
  }

  // ----- single instructions against patterns -----

  /** The instruction emitted for a one-character pattern. */
  function OneCharInstr(canon: CodePoint -> CodePoint, r: Re): Instr
    requires WellFormed(r) && (r.Char? || r.AnyChar? || r.Class?)
  {
    match r
    case Char(c, icase) => CharInstr(if icase then canon(c) else c, icase)
    case AnyChar(dotall) => if dotall then Any else Dot
    case Class(points, icase) => RangeInstr(points, icase)
  }

  lemma OneCharAccepts(e: Env, r: Re, c: CodePoint)
    requires WellFormed(r) && (r.Char? || r.AnyChar? || r.Class?)
    ensures var i := OneCharInstr(e.canon, r);
            CharOp(i) && TestOp(i) && (AcceptsChar(e, i, c) <==> Accepts(e, r, c))
  {
    if r.Class? && r.points != [] {
      RangeFinds(r.points, Fold(e, r.icase, c));
    }
  }

  function AssertionInstr(r: Re): Instr
    requires r.LineStart? || r.LineEnd? || r.WordBoundary?
  {
    match r
    case LineStart(m) => Instr.LineStart(m)
    case LineEnd(m) => Instr.LineEnd(m)
    case WordBoundary(negated, icase) => Instr.WordBoundary(negated, icase)
  }

  lemma AssertionAgrees(e: Env, r: Re, p: nat)
    requires r.LineStart? || r.LineEnd? || r.WordBoundary?
    requires p <= |e.text.units|
    ensures AssertionHolds(e, AssertionInstr(r), p) <==> Holds(e, r, p)
  {
  }

  // ----- simple atoms -----

  /** A run of the atom's code agrees with the atom's only outcome, and stepping back undoes it. */
  ghost predicate AtomAgrees(e: Env, P: Program, pc: nat, end: nat, count: nat, x: St, os: seq<St>)
    requires ValidSt(e, x)
  {
    |os| <= 1 &&
    (os == [] ==> RunAtom(e, P, pc, x.pos) == AtomFail) &&
    (os != [] ==>
       ValidSt(e, os[0]) && os[0].caps == x.caps &&
       RunAtom(e, P, pc, x.pos) == RunAtom(e, P, end, os[0].pos) &&
       StepBack(e.text, os[0].pos, count) == SomePos(x.pos))
  }

  lemma SimpleParts(a: seq<Instr>, b: seq<Instr>)
    ensures Simple(a + b) <==> Simple(a) && Simple(b)
  {
    hide CharOp, AssertionOp;
    var ab := a + b;
    assert forall k :: 0 <= k < |a| ==> ab[k] == a[k];
    assert forall k :: 0 <= k < |b| ==> ab[|a| + k] == b[k];
    assert forall k :: |a| <= k < |ab| ==> ab[k] == b[k - |a|];
  }

  lemma SimpleIsLinear(block: seq<Instr>)
    ensures Simple(block) ==> Linear(block)
  {
  }

  lemma ResetNotSimple(lo: nat, hi: nat)
    ensures !Simple([SaveReset(lo, hi)])
  {
    assert !CharOp([SaveReset(lo, hi)][0]);
  }

  lemma OtherNotSimple(canon: CodePoint -> CodePoint, r: Re, cc: nat, bw: bool)
    requires WellFormed(r) && (r.Alt? || r.Look? || r.Group? || r.BackRef? || r.ClassOrEmpty?)
    ensures !Simple(Code(canon, r, cc, bw))
  {
    var i := Code(canon, r, cc, bw)[0];
    assert !CharOp(i) && !AssertionOp(i);
  }

  lemma DirectedNotSimple(i: Instr)
    ensures !Simple(Directed(i, true))
  {
    assert !CharOp(Directed(i, true)[0]);
  }

  /** A quantifier whose code is simple is {0,0} without captures, or {1,1}. */
  lemma QuantSimple(a: seq<Instr>, min: nat, max: nat, greedy: bool, cc: nat, groups: nat)
    requires min <= max <= INFINITY
    requires Simple(QuantCode(a, min, max, greedy, cc, groups))
    ensures (min == 0 && max == 0 && groups == 0 && QuantCode(a, min, max, greedy, cc, groups) == []) ||
            (min == 1 && max == 1 && QuantCode(a, min, max, greedy, cc, groups) == a)
  {
    hide OptionCode, ExactCode, PlusCode, OptionalCode, Guarded, SimpleCount;
    var q := QuantCode(a, min, max, greedy, cc, groups);
    SimpleIsLinear(q);
    if greedy && max > 0 && SimpleCount(a) > 0 {
      SimpleNotLinear(a, min, max);
    } else if min == 0 {
      LoopsNotLinear(Guarded(a), max, greedy);
      LoopsNotLinear(a, max, greedy);
      var reset := if groups > 0 then [SaveReset(cc, cc + groups - 1)] else [];
      LinearParts(reset, if max == 1 then OptionCode(Guarded(a), greedy) else OptionalCode(a, max, greedy));
      NoOption(a, greedy);
      assert q == reset;
      if groups > 0 {
        ResetNotSimple(cc, cc + groups - 1);
      }
    } else if min == 1 && max == INFINITY && !NeedCheckAdvance(a) {
      LoopsNotLinear(a, max, greedy);
    } else {
      var n := if max == INFINITY then INFINITY else max - min;
      LoopsNotLinear(a, min, greedy);
      LoopsNotLinear(a, n, greedy);
      LinearParts(if min == 1 then a else ExactCode(a, min), OptionalCode(a, n, greedy));
      NoOption(a, greedy);
      assert q == a + [];
    }
  }

  lemma OneCharAgrees(e: Env, P: Program, r: Re, pc: nat, x: St)
    requires ValidProgram(P) && WellFormed(r) && (r.Char? || r.AnyChar? || r.Class?)
    requires ValidSt(e, x) && P.fetch(pc) == Valid(OneCharInstr(e.canon, r))
    ensures AtomAgrees(e, P, pc, pc + Size(OneCharInstr(e.canon, r)), 1, x, OneChar(e, r, false, x))
  {
    hide AcceptsChar, Accepts, Size, TestOp, OneCharInstr;
    var n := |e.text.units|;
    var i := OneCharInstr(e.canon, r);
    OneCharAccepts(e, r, 0);
    if x.pos < n {
      var q := NextPos(e.text, x.pos, n);
      OneCharAccepts(e, r, CharAt(e.text, x.pos, n));
      NextKeepsBoundary(e.text, x.pos);
      PrevUndoesNext(e.text, x.pos);
      assert StepBack(e.text, q, 1) == StepBack(e.text, x.pos, 0);
    }
  }

  lemma AssertionAgreesAtom(e: Env, P: Program, r: Re, pc: nat, x: St)
    requires ValidProgram(P) && (r.LineStart? || r.LineEnd? || r.WordBoundary?)
    requires ValidSt(e, x) && P.fetch(pc) == Valid(AssertionInstr(r))
    ensures AtomAgrees(e, P, pc, pc + 1, 0, x, if Holds(e, r, x.pos) then [x] else [])
  {
    hide AssertionHolds, Holds;
    AssertionAgrees(e, r, x.pos);
    assert TestOp(AssertionInstr(r)) && Size(AssertionInstr(r)) == 1;
  }

  lemma ThenAgrees(e: Env, P: Program, a: Re, ca: nat, b: Re, cb: nat, bw: bool, pc: nat, x: St, whole: Re)
    requires ValidProgram(P) && a < whole && b < whole && WellFormed(a) && WellFormed(b) && ValidSt(e, x)
    requires var block := Code(e.canon, a, ca, bw) + Code(e.canon, b, cb, bw);
             Simple(block) && CodeAt(P.fetch, pc, block)
    ensures var block := Code(e.canon, a, ca, bw) + Code(e.canon, b, cb, bw);
            AtomAgrees(e, P, pc, pc + Length(block), CharCount(block), x, Then(e, a, ca, b, cb, bw, x, whole))
    decreases whole, 0, 0
  {
    hide Outcomes, Code, RunAtom, Boundary, Simple;
    var A, B := Code(e.canon, a, ca, bw), Code(e.canon, b, cb, bw);
    SimpleParts(A, B);
    CodeAtAppend(P.fetch, pc, A, B);
    LengthAppend(A, B);
    CharCountAppend(A, B);
    var ys := Outcomes(e, a, ca, bw, x);
    var zss := seq(|ys|, i requires 0 <= i < |ys| => Outcomes(e, b, cb, bw, ys[i]));
    SimpleAgrees(e, P, a, ca, bw, pc, x);
    if ys != [] {
      assert Follows(e, bw, x, ys[0]);
      SimpleAgrees(e, P, b, cb, bw, pc + Length(A), ys[0]);
      FlatSingle(zss);
      if zss[0] != [] {
        StepBackAdd(e.text, zss[0][0].pos, CharCount(B), CharCount(A));
      }
    }
  }

  lemma FlatSingle(zss: seq<seq<St>>)
    requires |zss| == 1
    ensures Flat(zss) == zss[0]
  {
    assert zss[1..] == [];
  }

  lemma OnceIs(e: Env, a: Re, cc: nat, bw: bool, greedy: bool, x: St)
    requires ValidSt(e, x) && |Outcomes(e, a, cc, bw, x)| <= 1
    ensures Times(e, a, cc, bw, 1, AtMost(0), greedy, x) == Outcomes(e, a, cc, bw, x)
  {
    hide Outcomes, Repeat, Times;
    var ys := Outcomes(e, a, cc, bw, x);
    var zss := Remaining(e, a, cc, bw, 0, AtMost(0), greedy, x);
    TimesUnfolds(e, a, cc, bw, 1, AtMost(0), greedy, x);
    if ys != [] {
      assert Follows(e, bw, x, ys[0]);
      TimesUnfolds(e, a, cc, bw, 0, AtMost(0), greedy, ys[0]);
      RepeatUnfolds(e, a, cc, bw, AtMost(0), greedy, ys[0]);
      FlatSingle(zss);
    }
  }

  lemma QuantAgrees(
    e: Env, P: Program, a: Re, min: nat, max: nat, greedy: bool, cc: nat, bw: bool, pc: nat, x: St)
    requires ValidProgram(P) && WellFormed(Quant(a, min, max, greedy)) && ValidSt(e, x)
    requires Simple(Code(e.canon, Quant(a, min, max, greedy), cc, bw))
    requires CodeAt(P.fetch, pc, Code(e.canon, Quant(a, min, max, greedy), cc, bw))
    ensures var r := Quant(a, min, max, greedy);
            var block := Code(e.canon, r, cc, bw);
            AtomAgrees(e, P, pc, pc + Length(block), CharCount(block), x, Outcomes(e, r, cc, bw, x))
    decreases Quant(a, min, max, greedy), 0, 0
  {
    hide RunAtom, ValidSt, Repeat, Times, Code, Outcomes, QuantCode, CodeAt, Simple;
    var A := Code(e.canon, a, cc, bw);
    CodeQuant(e.canon, a, min, max, greedy, cc, bw);
    OutcomesQuant(e, a, min, max, greedy, cc, bw, x);
    QuantSimple(A, min, max, greedy, cc, Groups(a));
    if min == 0 {
      assert Reset(x, cc, cc) == x;
      TimesUnfolds(e, a, cc, bw, 0, AtMost(0), greedy, x);
      RepeatUnfolds(e, a, cc, bw, AtMost(0), greedy, x);
    } else {
      SimpleAgrees(e, P, a, cc, bw, pc, x);
      OnceIs(e, a, cc, bw, greedy, x);
    }
  }

  /** A simple atom has at most one outcome; the nested run finds it and stepping back undoes it. */
  lemma {:induction false} SimpleAgrees(e: Env, P: Program, r: Re, cc: nat, bw: bool, pc: nat, x: St)
    requires ValidProgram(P) && WellFormed(r) && ValidSt(e, x)
    requires Simple(Code(e.canon, r, cc, bw)) && CodeAt(P.fetch, pc, Code(e.canon, r, cc, bw))
    ensures var block := Code(e.canon, r, cc, bw);
            AtomAgrees(e, P, pc, pc + Length(block), CharCount(block), x, Outcomes(e, r, cc, bw, x))
    decreases r
  {
    hide RunAtom, ValidSt, Code, Outcomes, Simple, CodeAt, Length, CharCount;
    if r.Seq? {
      SeqAgrees(e, P, r.first, r.second, cc, bw, pc, x);
    } else if r.Quant? {
      QuantAgrees(e, P, r.body, r.min, r.max, r.greedy, cc, bw, pc, x);
    } else if r.Alt? || r.Look? || r.Group? || r.BackRef? || r.ClassOrEmpty? {
      OtherNotSimple(e.canon, r, cc, bw);
    } else if r.Char? || r.AnyChar? || r.Class? {
      OneCharSimple(e, P, r, cc, bw, pc, x);
    } else {
      AssertionSimple(e, P, r, cc, bw, pc, x);
    }
  }

  lemma AssertionSimple(e: Env, P: Program, r: Re, cc: nat, bw: bool, pc: nat, x: St)
    requires ValidProgram(P) && ValidSt(e, x) && (r.Empty? || r.LineStart? || r.LineEnd? || r.WordBoundary?)
    requires CodeAt(P.fetch, pc, Code(e.canon, r, cc, bw))
    ensures var block := Code(e.canon, r, cc, bw);
            AtomAgrees(e, P, pc, pc + Length(block), CharCount(block), x, Outcomes(e, r, cc, bw, x))
  {
    hide RunAtom, ValidSt, Holds;
    if !r.Empty? {
      assert Code(e.canon, r, cc, bw) == [AssertionInstr(r)];
      assert [AssertionInstr(r)][1..] == [];
      AssertionAgreesAtom(e, P, r, pc, x);
    }
  }

  lemma OneCharSimple(e: Env, P: Program, r: Re, cc: nat, bw: bool, pc: nat, x: St)
    requires ValidProgram(P) && WellFormed(r) && ValidSt(e, x) && (r.Char? || r.AnyChar? || r.Class?)
    requires Simple(Code(e.canon, r, cc, bw)) && CodeAt(P.fetch, pc, Code(e.canon, r, cc, bw))
    ensures var block := Code(e.canon, r, cc, bw);
            AtomAgrees(e, P, pc, pc + Length(block), CharCount(block), x, Outcomes(e, r, cc, bw, x))
  {
    hide RunAtom, ValidSt, OneCharInstr, Size;
    var i := OneCharInstr(e.canon, r);
    assert Code(e.canon, r, cc, bw) == Directed(i, bw) by { OneCharCode(e.canon, r, cc, bw); }
    if bw {
      DirectedNotSimple(i);
    } else {
      OneCharAccepts(e, r, 0);
      assert [i][1..] == [];
      OneCharAgrees(e, P, r, pc, x);
    }
  }

  lemma OneCharCode(canon: CodePoint -> CodePoint, r: Re, cc: nat, bw: bool)
    requires WellFormed(r) && (r.Char? || r.AnyChar? || r.Class?)
    ensures Code(canon, r, cc, bw) == Directed(OneCharInstr(canon, r), bw)
  {
  }

  lemma SeqAgrees(e: Env, P: Program, a: Re, b: Re, cc: nat, bw: bool, pc: nat, x: St)
    requires ValidProgram(P) && WellFormed(a) && WellFormed(b) && ValidSt(e, x)
    requires Simple(Code(e.canon, Seq(a, b), cc, bw)) && CodeAt(P.fetch, pc, Code(e.canon, Seq(a, b), cc, bw))
    ensures var block := Code(e.canon, Seq(a, b), cc, bw);
            AtomAgrees(e, P, pc, pc + Length(block), CharCount(block), x, Outcomes(e, Seq(a, b), cc, bw, x))
    decreases Seq(a, b), 0
  {
    hide Outcomes, Code, RunAtom, ValidSt;
    OutcomesSeq(e, a, b, cc, bw, x);
    CodeSeq(e.canon, a, b, cc, bw);
    if bw {
      ThenAgrees(e, P, b, cc + Groups(a), a, cc, bw, pc, x, Seq(a, b));
    } else {
      ThenAgrees(e, P, a, cc, b, cc + Groups(a), bw, pc, x, Seq(a, b));
    }
  }
}
