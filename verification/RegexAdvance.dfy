/** Soundness of the check-advance analysis, and the stack balance of emitted code. */
module RegexAdvance {
  import opened CharInput
  import opened RegexSyntax
  import opened RegexOpcode
  import opened RegexRange
  import opened RegexOutcomes
  import opened RegexCompile
  import opened RegexLoops

  predicate AllMoved(x: St, ys: seq<St>)
  {
    forall i :: 0 <= i < |ys| ==> ys[i].pos != x.pos
  }

  lemma LinearParts(a: seq<Instr>, b: seq<Instr>)
    ensures Linear(a + b) <==> Linear(a) && Linear(b)
    ensures HasChar(a + b) <==> HasChar(a) || HasChar(b)
  {
    hide LinearOp, CharOp;
    var ab := a + b;
    assert forall k :: 0 <= k < |a| ==> ab[k] == a[k];
    assert forall k :: 0 <= k < |b| ==> ab[|a| + k] == b[k];
    assert forall k :: |a| <= k < |ab| ==> ab[k] == b[k - |a|];
  }

  /** Moving from `x` to ys[i] and on to zss[i][j] never comes back to `x`, if one of the moves is strict. */
  lemma {:induction false} FlatMoved(e: Env, bw: bool, x: St, ys: seq<St>, zss: seq<seq<St>>)
    requires AllFollow(e, bw, x, ys) && |zss| == |ys|
    requires forall i :: 0 <= i < |ys| ==> AllFollow(e, bw, ys[i], zss[i])
    requires AllMoved(x, ys) || forall i :: 0 <= i < |ys| ==> AllMoved(ys[i], zss[i])
    ensures AllMoved(x, Flat(zss))
  {
    if ys != [] {
      assert forall i :: 0 <= i < |zss[0]| ==> Follows(e, bw, ys[0], zss[0][i]);
      assert Follows(e, bw, x, ys[0]);
      FlatMoved(e, bw, x, ys[1..], zss[1..]);
    }
  }

  lemma LoopsNotLinear(a: seq<Instr>, n: nat, greedy: bool)
    ensures !Linear(OptionCode(a, greedy)) && !Linear(ExactCode(a, n)) && !Linear(PlusCode(a, greedy))
    ensures n > 0 ==> !Linear(OptionalCode(a, n, greedy))
  {
    hide Guarded;
    assert !LinearOp(OptionCode(a, greedy)[0]);
    assert !LinearOp(ExactCode(a, n)[1 + |a|]);
    assert !LinearOp(PlusCode(a, greedy)[|a|]);
    if n > 0 {
      assert !LinearOp(StarCode(Guarded(a), greedy)[0]) && !LinearOp(CountedCode(Guarded(a), n, greedy)[1]);
    }
  }

  lemma SimpleNotLinear(a: seq<Instr>, min: nat, max: nat)
    requires SimpleCount(a) > 0
    ensures !Linear(SimpleCode(a, min, max))
  {
    assert !LinearOp(SimpleCode(a, min, max)[0]);
  }

  lemma BranchNotLinear(canon: CodePoint -> CodePoint, r: Re, cc: nat, bw: bool)
    requires WellFormed(r) && (r.Alt? || r.Look? || r.ClassOrEmpty?)
    ensures !Linear(Code(canon, r, cc, bw))
  {
    assert !LinearOp(Code(canon, r, cc, bw)[0]);
  }

  /** A quantifier whose code is linear and reads a character is {1,1}. */
  lemma QuantLinear(a: seq<Instr>, min: nat, max: nat, greedy: bool, cc: nat, groups: nat)
    requires min <= max <= INFINITY
    requires Linear(QuantCode(a, min, max, greedy, cc, groups))
    requires HasChar(QuantCode(a, min, max, greedy, cc, groups))
    ensures min == 1 && max == 1 && Linear(a) && HasChar(a)
  {
    hide OptionCode, ExactCode, PlusCode, OptionalCode, Guarded, SimpleCount;
    var q := QuantCode(a, min, max, greedy, cc, groups);
    if greedy && max > 0 && SimpleCount(a) > 0 {
      SimpleNotLinear(a, min, max);
    } else if min == 0 {
      var reset := if groups > 0 then [SaveReset(cc, cc + groups - 1)] else [];
      LoopsNotLinear(Guarded(a), max, greedy);
      LoopsNotLinear(a, max, greedy);
      LinearParts(reset, if max == 1 then OptionCode(Guarded(a), greedy) else OptionalCode(a, max, greedy));
      assert OptionalCode(a, 0, greedy) == [] by { NoOption(a, greedy); }
    } else if min == 1 && max == INFINITY && !NeedCheckAdvance(a) {
      LoopsNotLinear(a, max, greedy);
    } else {
      var n := if max == INFINITY then INFINITY else max - min;
      LoopsNotLinear(a, min, greedy);
      LoopsNotLinear(a, n, greedy);
      LinearParts(if min == 1 then a else ExactCode(a, min), OptionalCode(a, n, greedy));
      NoOption(a, greedy);
    }
  }

  lemma NoOption(a: seq<Instr>, greedy: bool)
    ensures OptionalCode(a, 0, greedy) == []
  {
  }

  /** When re_need_check_advance says that no check is needed, every way to match moves. */
  lemma {:induction false} AdvanceSound(e: Env, r: Re, cc: nat, bw: bool, x: St)
    requires WellFormed(r) && ValidSt(e, x)
    requires !NeedCheckAdvance(Code(e.canon, r, cc, bw))
    ensures AllMoved(x, Outcomes(e, r, cc, bw, x))
    decreases r
  {
    hide Code, Outcomes;
    if r.Seq? {
      SeqMoved(e, r.first, r.second, cc, bw, x);
    } else if r.Alt? || r.Look? || r.ClassOrEmpty? {
      BranchNotLinear(e.canon, r, cc, bw);
    } else if r.Group? {
      GroupMoved(e, r.body, cc, bw, x);
    } else if r.Quant? {
      QuantMoved(e, r.body, r.min, r.max, r.greedy, cc, bw, x);
    } else {
      LeafMoved(e, r, cc, bw, x);
    }
  }

  lemma LeafMoved(e: Env, r: Re, cc: nat, bw: bool, x: St)
    requires WellFormed(r) && ValidSt(e, x) && !r.Seq? && !r.Alt? && !r.Group? && !r.Look? && !r.Quant?
    requires !r.ClassOrEmpty? && !NeedCheckAdvance(Code(e.canon, r, cc, bw))
    ensures AllMoved(x, Outcomes(e, r, cc, bw, x))
  {
    hide ValidSt, BackReference, Holds, RangeInstr, CharInstr;
  }

  lemma GroupMoved(e: Env, a: Re, cc: nat, bw: bool, x: St)
    requires WellFormed(a) && ValidSt(e, x)
    requires !NeedCheckAdvance(Code(e.canon, Group(a), cc, bw))
    ensures AllMoved(x, Outcomes(e, Group(a), cc, bw, x))
    decreases Group(a), 0
  {
    hide Code, Outcomes, ValidSt;
    var body := Code(e.canon, a, cc + 1, bw);
    CodeGroup(e.canon, a, cc, bw);
    LinearParts([Save(bw, cc)] + body, [Save(!bw, cc)]);
    LinearParts([Save(bw, cc)], body);
    OutcomesGroup(e, a, cc, bw, x);
    AdvanceSound(e, a, cc + 1, bw, SetSlot(x, Opening(cc, bw)));
  }

  lemma CodeGroup(canon: CodePoint -> CodePoint, a: Re, cc: nat, bw: bool)
    requires WellFormed(a)
    ensures Code(canon, Group(a), cc, bw) == [Save(bw, cc)] + Code(canon, a, cc + 1, bw) + [Save(!bw, cc)]
  {
    hide AltCode, QuantCode, Directed, RangeInstr, CharInstr, Length, ValidPoints;
  }

  lemma OutcomesGroup(e: Env, a: Re, cc: nat, bw: bool, x: St)
    requires ValidSt(e, x)
    ensures ValidSt(e, SetSlot(x, Opening(cc, bw)))
    ensures var ys := Outcomes(e, a, cc + 1, bw, SetSlot(x, Opening(cc, bw)));
            Outcomes(e, Group(a), cc, bw, x) ==
            seq(|ys|, i requires 0 <= i < |ys| => SetSlot(ys[i], Closing(cc, bw)))
  {
    hide OneChar, Holds, BackReference, Boundary;
  }

  lemma CodeQuant(canon: CodePoint -> CodePoint, a: Re, min: nat, max: nat, greedy: bool, cc: nat, bw: bool)
    requires WellFormed(Quant(a, min, max, greedy))
    ensures Code(canon, Quant(a, min, max, greedy), cc, bw) ==
            QuantCode(Code(canon, a, cc, bw), min, max, greedy, cc, Groups(a))
  {
    hide AltCode, QuantCode, Directed, RangeInstr, CharInstr, Length, ValidPoints;
  }

  lemma OutcomesQuant(e: Env, a: Re, min: nat, max: nat, greedy: bool, cc: nat, bw: bool, x: St)
    requires ValidSt(e, x)
    ensures var x0 := if min == 0 then Reset(x, cc, cc + Groups(a)) else x;
            ValidSt(e, x0) &&
            Outcomes(e, Quant(a, min, max, greedy), cc, bw, x) == Times(e, a, cc, bw, min, Extra(min, max), greedy, x0)
  {
    hide Times, OneChar, Holds, BackReference, Boundary;
  }

  lemma QuantMoved(e: Env, a: Re, min: nat, max: nat, greedy: bool, cc: nat, bw: bool, x: St)
    requires WellFormed(Quant(a, min, max, greedy)) && ValidSt(e, x)
    requires !NeedCheckAdvance(Code(e.canon, Quant(a, min, max, greedy), cc, bw))
    ensures AllMoved(x, Outcomes(e, Quant(a, min, max, greedy), cc, bw, x))
    decreases Quant(a, min, max, greedy), 0
  {
    hide Code, Outcomes, ValidSt, QuantCode, Times;
    CodeQuant(e.canon, a, min, max, greedy, cc, bw);
    QuantLinear(Code(e.canon, a, cc, bw), min, max, greedy, cc, Groups(a));
    OutcomesQuant(e, a, min, max, greedy, cc, bw, x);
    AdvanceSound(e, a, cc, bw, x);
    OnceMoved(e, a, cc, bw, greedy, x);
  }

  lemma OnceMoved(e: Env, a: Re, cc: nat, bw: bool, greedy: bool, x: St)
    requires ValidSt(e, x) && AllMoved(x, Outcomes(e, a, cc, bw, x))
    ensures AllMoved(x, Times(e, a, cc, bw, 1, AtMost(0), greedy, x))
  {
    hide Outcomes, Repeat, Times;
    var ys := Outcomes(e, a, cc, bw, x);
    var zss := Remaining(e, a, cc, bw, 0, AtMost(0), greedy, x);
    TimesUnfolds(e, a, cc, bw, 1, AtMost(0), greedy, x);
    FlatMoved(e, bw, x, ys, zss);
  }

  lemma OutcomesSeq(e: Env, a: Re, b: Re, cc: nat, bw: bool, x: St)
    requires ValidSt(e, x)
    ensures Outcomes(e, Seq(a, b), cc, bw, x) ==
            if bw then Then(e, b, cc + Groups(a), a, cc, bw, x, Seq(a, b))
            else Then(e, a, cc, b, cc + Groups(a), bw, x, Seq(a, b))
  {
    hide Then;
  }

  lemma CodeSeq(canon: CodePoint -> CodePoint, a: Re, b: Re, cc: nat, bw: bool)
    requires WellFormed(a) && WellFormed(b)
    ensures Code(canon, Seq(a, b), cc, bw) ==
            if bw then Code(canon, b, cc + Groups(a), bw) + Code(canon, a, cc, bw)
            else Code(canon, a, cc, bw) + Code(canon, b, cc + Groups(a), bw)
  {
    hide AltCode, QuantCode, Directed, RangeInstr, CharInstr, Length, ValidPoints;
  }

  lemma SeqMoved(e: Env, a: Re, b: Re, cc: nat, bw: bool, x: St)
    requires WellFormed(a) && WellFormed(b) && ValidSt(e, x)
    requires !NeedCheckAdvance(Code(e.canon, Seq(a, b), cc, bw))
    ensures AllMoved(x, Outcomes(e, Seq(a, b), cc, bw, x))
    decreases Seq(a, b), 0
  {
    hide Outcomes, Code;
    OutcomesSeq(e, a, b, cc, bw, x);
    CodeSeq(e.canon, a, b, cc, bw);
    if bw {
      ThenMoved(e, b, cc + Groups(a), a, cc, bw, x, Seq(a, b));
    } else {
      ThenMoved(e, a, cc, b, cc + Groups(a), bw, x, Seq(a, b));
    }
  }

  lemma ThenMoved(e: Env, a: Re, ca: nat, b: Re, cb: nat, bw: bool, x: St, whole: Re)
    requires a < whole && b < whole && WellFormed(a) && WellFormed(b) && ValidSt(e, x)
    requires !NeedCheckAdvance(Code(e.canon, a, ca, bw) + Code(e.canon, b, cb, bw))
    ensures AllMoved(x, Then(e, a, ca, b, cb, bw, x, whole))
    decreases whole, 0, 0
  {
    hide Outcomes, Code;
    LinearParts(Code(e.canon, a, ca, bw), Code(e.canon, b, cb, bw));
    var ys := Outcomes(e, a, ca, bw, x);
    var zss := seq(|ys|, i requires 0 <= i < |ys| => Outcomes(e, b, cb, bw, ys[i]));
    if HasChar(Code(e.canon, a, ca, bw)) {
      AdvanceSound(e, a, ca, bw, x);
    } else {
      forall i | 0 <= i < |ys| ensures AllMoved(ys[i], zss[i]) {
        assert Follows(e, bw, x, ys[i]);
        AdvanceSound(e, b, cb, bw, ys[i]);
      }
    }
    FlatMoved(e, bw, x, ys, zss);
  }
}
