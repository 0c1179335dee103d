/** Emitted code leaves the value stack as it found it, and how much of it each loop needs. */
module RegexBalance {
  import opened CharInput
  import opened RegexSyntax
  import opened RegexOpcode
  import opened RegexRange
  import opened RegexCompile
  import opened RegexLoops

  /** `block` is balanced and needs `need` stack entries. */
  predicate Uses(block: seq<Instr>, need: nat)
  {
    Balanced(block) && Peak(block) == need
  }

  lemma Parts(a: seq<Instr>, b: seq<Instr>)
    ensures Net(a + b) == Net(a) + Net(b) && Peak(a + b) == Max(Peak(a), Net(a) + Peak(b))
    ensures Low(a + b) == Min(Low(a), Net(a) + Low(b)) && Length(a + b) == Length(a) + Length(b)
  {
    NetAppend(a, b);
    LowAppend(a, b);
    PeakAppend(a, b);
    LengthAppend(a, b);
  }

  lemma One(i: Instr)
    ensures Net([i]) == Delta(i) && Peak([i]) == Max(0, Delta(i)) && Low([i]) == Min(0, Delta(i))
    ensures Length([i]) == Size(i)
  {
    hide Delta, Size;
    assert [i][1..] == [];
  }

  lemma AltUses(a: seq<Instr>, b: seq<Instr>)
    requires Balanced(a) && Balanced(b)
    ensures Uses(AltCode(a, b), Max(Peak(a), Peak(b)))
    ensures Length(AltCode(a, b)) == Length(a) + Length(b) + 10
  {
    hide Net, Low, Peak, Length;
    var split, goto' := Split(true, Length(a) + 5), Goto(Length(b));
    One(split);
    One(goto');
    Parts([split] + a + [goto'], b);
    Parts([split] + a, [goto']);
    Parts([split], a);
  }

  lemma GuardedUses(a: seq<Instr>)
    requires Balanced(a)
    ensures Uses(Guarded(a), GuardedNeed(a))
  {
    hide Net, Low, Peak, Length;
    One(PushCharPos);
    One(CheckAdvance);
    Parts([PushCharPos] + a, [CheckAdvance]);
    Parts([PushCharPos], a);
  }

  lemma LoopUses(a: seq<Instr>, n: nat, greedy: bool)
    requires Balanced(a)
    ensures Uses(OptionCode(a, greedy), Peak(a)) && Uses(StarCode(a, greedy), Peak(a))
    ensures Uses(CountedCode(a, n, greedy), Peak(a) + 1)
    ensures Length(OptionCode(a, greedy)) == Length(a) + 5 && Length(StarCode(a, greedy)) == Length(a) + 10
    ensures Length(CountedCode(a, n, greedy)) == Length(a) + 16
  {
    hide Net, Low, Peak, Length;
    var l: int := Length(a);
    One(Split(greedy, l));
    Parts([Split(greedy, l)], a);
    One(Split(greedy, l + 5));
    One(Goto(-(l + 10)));
    Parts([Split(greedy, l + 5)] + a, [Goto(-(l + 10))]);
    Parts([Split(greedy, l + 5)], a);
    CountedUses(a, n, greedy);
  }

  lemma CountedUses(a: seq<Instr>, n: nat, greedy: bool)
    requires Balanced(a)
    ensures Uses(CountedCode(a, n, greedy), Peak(a) + 1) && Length(CountedCode(a, n, greedy)) == Length(a) + 16
  {
    hide Net, Low, Peak, Length;
    var push, split, loop := PushI32(n), Split(greedy, Length(a) + 5), Loop(-(Length(a) + 10));
    One(push);
    One(split);
    One(loop);
    One(Drop);
    Parts([push] + [split] + a + [loop], [Drop]);
    Parts([push] + [split] + a, [loop]);
    Parts([push] + [split], a);
    Parts([push], [split]);
  }

  lemma RequiredUses(a: seq<Instr>, n: nat, greedy: bool)
    requires Balanced(a)
    ensures Uses(ExactCode(a, n), Peak(a) + 1) && Uses(PlusCode(a, greedy), Peak(a))
    ensures Length(ExactCode(a, n)) == Length(a) + 11 && Length(PlusCode(a, greedy)) == Length(a) + 5
  {
    hide Net, Low, Peak, Length;
    var push, loop, split := PushI32(n), Loop(-(Length(a) + 5)), Split(!greedy, -(Length(a) + 5));
    One(push);
    One(loop);
    One(split);
    One(Drop);
    Parts([push] + a + [loop], [Drop]);
    Parts([push] + a, [loop]);
    Parts([push], a);
    Parts(a, [split]);
  }

  lemma SimpleUses(a: seq<Instr>, min: nat, max: nat)
    requires Balanced(a) && SimpleCount(a) > 0
    ensures Uses(SimpleCode(a, min, max), Peak(a)) && Length(SimpleCode(a, min, max)) == Length(a) + 18
  {
    hide Net, Low, Peak, Length, SimpleCount;
    var quant := SimpleGreedyQuant(Length(a) + 1, min, max, SimpleCount(a));
    One(quant);
    One(Match);
    Parts([quant], a + [Match]);
    Parts(a, [Match]);
  }

  /** The stack need of the optional iterations. */
  function OptionalNeed(a: seq<Instr>, n: nat): nat
  {
    if n == INFINITY then GuardedNeed(a) else if n > 0 then GuardedNeed(a) + 1 else 0
  }

  lemma OptionalUses(a: seq<Instr>, n: nat, greedy: bool)
    requires Balanced(a)
    ensures Uses(OptionalCode(a, n, greedy), OptionalNeed(a, n))
  {
    hide StarCode, CountedCode, Guarded, Length;
    GuardedUses(a);
    LoopUses(Guarded(a), n, greedy);
  }

  lemma QuantNeutral(a: seq<Instr>, min: nat, max: nat, greedy: bool, cc: nat, groups: nat)
    requires Balanced(a) && min <= max <= INFINITY
    ensures Balanced(QuantCode(a, min, max, greedy, cc, groups))
  {
    hide Net, Low, Peak, Length, SimpleCode, OptionCode, OptionalCode, PlusCode, ExactCode, Guarded, SimpleCount, NeedCheckAdvance;
    var n := if max == INFINITY then INFINITY else max - min;
    GuardedUses(a);
    LoopUses(Guarded(a), 0, greedy);
    OptionalUses(a, max, greedy);
    OptionalUses(a, n, greedy);
    RequiredUses(a, min, greedy);
    if SimpleCount(a) > 0 {
      SimpleUses(a, min, max);
    }
    One(SaveReset(cc, if groups > 0 then cc + groups - 1 else 0));
    Parts(if groups > 0 then [SaveReset(cc, cc + groups - 1)] else [],
          if max == 1 then OptionCode(Guarded(a), greedy) else OptionalCode(a, max, greedy));
    Parts(if min == 1 then a else ExactCode(a, min), OptionalCode(a, n, greedy));
    NetEmpty();
  }

  lemma NetEmpty()
    ensures Balanced([]) && Peak([]) == 0
  {
  }

  lemma DirectedNeutral(i: Instr, bw: bool)
    requires Delta(i) == 0
    ensures Balanced(Directed(i, bw))
  {
    hide Net, Low;
    One(i);
    One(Prev);
    assert Directed(i, true) == [Prev] + [i] + [Prev];
    Parts([Prev] + [i], [Prev]);
    Parts([Prev], [i]);
  }

  predicate Leaf(r: Re)
  {
    !r.Seq? && !r.Alt? && !r.Group? && !r.Look? && !r.Quant?
  }

  lemma LeafNeutral(canon: CodePoint -> CodePoint, r: Re, cc: nat, bw: bool)
    requires WellFormed(r) && Leaf(r)
    ensures Balanced(Code(canon, r, cc, bw))
  {
    hide Net, Low, Directed;
    NetEmpty();
    match r {
      case Char(c, icase) => DirectedNeutral(CharInstr(if icase then canon(c) else c, icase), bw);
      case AnyChar(dotall) => DirectedNeutral(if dotall then Any else Dot, bw);
      case Class(points, icase) => DirectedNeutral(RangeInstr(points, icase), bw);
      case ClassOrEmpty(points, icase) =>
        var range := RangeInstr(points, icase);
        DirectedNeutral(range, bw);
        LoopUses(Directed(range, bw), 0, true);
      case LineStart(m) => One(Instr.LineStart(m));
      case LineEnd(m) => One(Instr.LineEnd(m));
      case WordBoundary(negated, icase) => One(Instr.WordBoundary(negated, icase));
      case BackRef(index, icase) => One(Instr.BackRef(bw, icase, index));
      case Empty =>
    }
  }

  lemma BracketNeutral(i: Instr, body: seq<Instr>, j: Instr)
    requires Delta(i) == 0 && Delta(j) == 0 && Balanced(body)
    ensures Uses([i] + body + [j], Peak(body)) && Length([i] + body + [j]) == Size(i) + Length(body) + Size(j)
  {
    hide Net, Low, Peak, Length, Delta, Size;
    One(i);
    One(j);
    Parts([i] + body, [j]);
    Parts([i], body);
  }

  /** Emitted code pops exactly what it pushes. */
  lemma {:induction false} CodeNeutral(canon: CodePoint -> CodePoint, r: Re, cc: nat, bw: bool)
    requires WellFormed(r)
    ensures Balanced(Code(canon, r, cc, bw))
  {
    hide Net, Low, Peak, Length, Directed, AltCode, QuantCode;
    match r {
      case Seq(a, b) =>
        CodeNeutral(canon, a, cc, bw);
        CodeNeutral(canon, b, cc + Groups(a), bw);
        Parts(Code(canon, a, cc, bw), Code(canon, b, cc + Groups(a), bw));
        Parts(Code(canon, b, cc + Groups(a), bw), Code(canon, a, cc, bw));
      case Alt(a, b) =>
        CodeNeutral(canon, a, cc, bw);
        CodeNeutral(canon, b, cc + Groups(a), bw);
        AltUses(Code(canon, a, cc, bw), Code(canon, b, cc + Groups(a), bw));
      case Group(a) =>
        CodeNeutral(canon, a, cc + 1, bw);
        BracketNeutral(Save(bw, cc), Code(canon, a, cc + 1, bw), Save(!bw, cc));
      case Look(a, negated, behind) =>
        var body := Code(canon, a, cc, behind);
        CodeNeutral(canon, a, cc, behind);
        BracketNeutral(Lookahead(negated, Length(body) + 1), body, Match);
      case Quant(a, min, max, greedy) =>
        CodeNeutral(canon, a, cc, bw);
        QuantNeutral(Code(canon, a, cc, bw), min, max, greedy, cc, Groups(a));
      case _ =>
        LeafNeutral(canon, r, cc, bw);
    }
  }
}
