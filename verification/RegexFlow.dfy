/** On every run the value stack has the height that the linear scan of compute_stack_size gives the place
    in the code, and as many lookaheads are pending as are open there. */
module RegexFlow {
  import opened CharInput
  import opened RegexSyntax
  import opened RegexOpcode
  import opened RegexRange
  import opened RegexOutcomes
  import opened RegexCompile
  import opened RegexVm
  import opened RegexRuns
  import opened RegexLoops
  import opened RegexAdvance
  import opened RegexBalance
  import opened RegexTheorem
  import opened RegexSpec
  import opened RegexBytes
  import opened RegexSafe

  // ----- places in the code -----

  /** Blocks that end with a match instruction: lookaheads, and the atoms of the specialised quantifier. */
  function NestDelta(i: Instr): int
  {
    if i.Lookahead? || i.SimpleGreedyQuant? then 1 else if i.Match? then -1 else 0
  }

  /** How many more of them are open after the block than before. */
  function Nest(block: seq<Instr>): int
  {
    if block == [] then 0 else NestDelta(block[0]) + Nest(block[1..])
  }

  lemma {:induction false} NestAppend(a: seq<Instr>, b: seq<Instr>)
    ensures Nest(a + b) == Nest(a) + Nest(b)
  {
    if a == [] {
      assert a + b == b;
    } else {
      assert (a + b)[1..] == a[1..] + b;
      NestAppend(a[1..], b);
    }
  }

  lemma NestOne(i: Instr)
    ensures Nest([i]) == NestDelta(i)
  {
    assert [i][1..] == [];
  }

  /** Offset, stack height and open blocks of a place. */
  datatype Place = Place(offset: int, height: int, nest: int)

  function After(block: seq<Instr>): Place
  {
    Place(Length(block), Net(block), Nest(block))
  }

  function Moved(p: Place, q: Place): Place
  {
    Place(p.offset + q.offset, p.height + q.height, p.nest + q.nest)
  }

  lemma AfterAppend(a: seq<Instr>, b: seq<Instr>)
    ensures After(a + b) == Moved(After(a), After(b))
  {
    hide Length, Net, Nest;
    LengthAppend(a, b);
    NetAppend(a, b);
    NestAppend(a, b);
  }

  lemma AfterOne(i: Instr)
    ensures After([i]) == Place(Size(i), Delta(i), NestDelta(i)) && After([]) == Place(0, 0, 0)
  {
    hide Size, Delta, NestDelta;
    One(i);
    NestOne(i);
  }

  /** A place between two instructions of the block. */
  ghost predicate Lands(block: seq<Instr>, p: Place)
  {
    exists j :: 0 <= j <= |block| && After(block[..j]) == p
  }

  lemma LandsAt(block: seq<Instr>, j: nat)
    requires j <= |block|
    ensures Lands(block, After(block[..j]))
  {
  }

  lemma LandsEnds(block: seq<Instr>)
    ensures Lands(block, After(block)) && Lands(block, Place(0, 0, 0))
  {
    hide After;
    LandsAt(block, |block|);
    assert block[..|block|] == block;
    LandsAt(block, 0);
    assert After(block[..0]) == Place(0, 0, 0) by { NoInstr(block); }
  }

  lemma NoInstr(block: seq<Instr>)
    ensures After(block[..0]) == Place(0, 0, 0)
  {
  }

  lemma LandsShift(pre: seq<Instr>, b: seq<Instr>, post: seq<Instr>, p: Place)
    requires Lands(b, p)
    ensures Lands(pre + b + post, Moved(After(pre), p))
  {
    hide After;
    var j :| 0 <= j <= |b| && After(b[..j]) == p;
    var all := pre + b + post;
    assert all[..|pre| + j] == pre + b[..j];
    AfterAppend(pre, b[..j]);
    LandsAt(all, |pre| + j);
  }

  // ----- jumps -----

  datatype Target = NoTarget | To(offset: int)

  function Jumps(i: Instr): Target
  {
    match i
    case Goto(offset) => To(offset)
    case Split(_, offset) => To(offset)
    case Lookahead(_, offset) => To(offset)
    case Loop(offset) => To(offset)
    case SimpleGreedyQuant(next, _, _, _) => To(next)
    case _ => NoTarget
  }

  /** Where a jump from an instruction at p goes, with the height and the nesting of p. */
  function JumpTo(p: Place, i: Instr, offset: int): Place
  {
    p.(offset := p.offset + Size(i) + offset)
  }

  /** If instruction k jumps, then to a place in the block with the right height and nesting. */
  ghost predicate FlowsAt(block: seq<Instr>, k: nat)
    requires k < |block|
  {
    var t := Jumps(block[k]);
    t.To? ==> Lands(block, JumpTo(After(block[..k]), block[k], t.offset))
  }

  /** All jumps do, and the block leaves height and nesting as they were. */
  ghost predicate Tame(block: seq<Instr>)
  {
    Net(block) == 0 && Nest(block) == 0 && forall k :: 0 <= k < |block| ==> FlowsAt(block, k)
  }

  lemma FlowsShift(pre: seq<Instr>, b: seq<Instr>, post: seq<Instr>, k: nat)
    requires k < |b| && FlowsAt(b, k)
    ensures FlowsAt(pre + b + post, |pre| + k)
  {
    hide After;
    var all := pre + b + post;
    assert all[|pre| + k] == b[k] && all[..|pre| + k] == pre + b[..k];
    AfterAppend(pre, b[..k]);
    var t := Jumps(b[k]);
    if t.To? {
      LandsShift(pre, b, post, JumpTo(After(b[..k]), b[k], t.offset));
    }
  }

  lemma TamePlace(block: seq<Instr>)
    requires Tame(block)
    ensures After(block) == Place(Length(block), 0, 0)
  {
  }

  lemma TameAppend(a: seq<Instr>, b: seq<Instr>)
    requires Tame(a) && Tame(b)
    ensures Tame(a + b)
  {
    hide After, FlowsAt, Length;
    AfterAppend(a, b);
    AfterIs(a);
    AfterIs(b);
    AfterIs(a + b);
    assert a + b == [] + a + b && a + b == a + b + [];
    forall k | 0 <= k < |a + b|
      ensures FlowsAt(a + b, k)
    {
      if k < |a| {
        FlowsShift([], a, b, k);
      } else {
        FlowsShift(a, b, [], k - |a|);
      }
    }
  }

  lemma AfterIs(block: seq<Instr>)
    ensures After(block).offset == Length(block) && After(block).height == Net(block) && After(block).nest == Nest(block)
  {
  }

  /** An instruction before and one after a tame block, where the jumps of both go to the start or the end. */
  lemma TameBracket(i: Instr, a: seq<Instr>, j: Instr)
    requires Tame(a) && Delta(i) + Delta(j) == 0 && NestDelta(i) + NestDelta(j) == 0
    requires var t := Jumps(i); t.To? ==> t.offset == Length(a) + Size(j)
    requires var t := Jumps(j);
             t.To? ==> t.offset == -(Size(i) + Length(a) + Size(j)) && Delta(i) == 0 && NestDelta(i) == 0
    ensures Tame([i] + a + [j])
  {
    hide After, FlowsAt, Length, Size, Delta, NestDelta, Jumps, Lands;
    var all := [i] + a + [j];
    AfterOne(i);
    AfterOne(j);
    TamePlace(a);
    AfterAppend([i], a);
    AfterAppend([i] + a, [j]);
    AfterIs(all);
    LandsEnds(all);
    forall k | 0 <= k < |all|
      ensures FlowsAt(all, k)
    {
      if k == 0 {
        assert all[..0] == [];
        JumpFlows(all, 0, i);
      } else if k <= |a| {
        FlowsShift([i], a, [j], k - 1);
      } else {
        assert all[..k] == [i] + a;
        JumpFlows(all, k, j);
      }
    }
  }

  /** A jump to the start or the end of the block. */
  lemma JumpFlows(block: seq<Instr>, k: nat, i: Instr)
    requires k < |block| && block[k] == i
    requires var t := Jumps(i);
             t.To? ==> var p := JumpTo(After(block[..k]), i, t.offset); p == After(block) || p == Place(0, 0, 0)
    ensures FlowsAt(block, k)
  {
    hide After;
    LandsEnds(block);
  }

  /** A tame block followed by a jump back to its start. */
  lemma TameBack(a: seq<Instr>, j: Instr)
    requires Tame(a) && Delta(j) == 0 && NestDelta(j) == 0
    requires var t := Jumps(j); t.To? ==> t.offset == -(Length(a) + Size(j))
    ensures Tame(a + [j])
  {
    hide After, FlowsAt, Length, Size, Delta, NestDelta, Jumps, Lands;
    var all := a + [j];
    AfterOne(j);
    TamePlace(a);
    AfterAppend(a, [j]);
    AfterIs(all);
    assert all == [] + a + [j];
    forall k | 0 <= k < |all|
      ensures FlowsAt(all, k)
    {
      if k < |a| {
        FlowsShift([], a, [j], k);
      } else {
        assert all[..k] == a;
        JumpFlows(all, k, j);
      }
    }
  }

  /** A jump over a tame block. */
  lemma TameOver(i: Instr, a: seq<Instr>)
    requires Tame(a) && Delta(i) == 0 && NestDelta(i) == 0
    requires var t := Jumps(i); t.To? ==> t.offset == Length(a)
    ensures Tame([i] + a)
  {
    hide After, FlowsAt, Length, Size, Delta, NestDelta, Jumps, Lands;
    var all := [i] + a;
    AfterOne(i);
    TamePlace(a);
    AfterAppend([i], a);
    AfterIs(all);
    assert all == [i] + a + [];
    forall k | 0 <= k < |all|
      ensures FlowsAt(all, k)
    {
      if k == 0 {
        assert all[..0] == [];
        JumpFlows(all, 0, i);
      } else {
        FlowsShift([i], a, [], k - 1);
      }
    }
  }

  lemma TameEmpty()
    ensures Tame([])
  {
  }

  lemma TameOne(i: Instr)
    requires Delta(i) == 0 && NestDelta(i) == 0 && Jumps(i).NoTarget?
    ensures Tame([i])
  {
    TameEmpty();
    TameOver(i, []);
    assert [i] + [] == [i];
  }

  // ----- emitted code -----

  lemma TameAlt(a: seq<Instr>, b: seq<Instr>)
    requires Tame(a) && Tame(b)
    ensures Tame(AltCode(a, b))
  {
    hide After, FlowsAt, Length, Lands, Tame, Jumps;
    var split, goto' := Split(true, Length(a) + 5), Goto(Length(b));
    var head := [split] + a + [goto'];
    var all := head + b;
    TameAltPlaces(a, b);
    forall k | 0 <= k < |all|
      ensures FlowsAt(all, k)
    {
      if k == 0 {
        assert all[..0] == [];
        SplitOver(a, b);
      } else if k <= |a| {
        TameAt(a, k - 1);
        FlowsShift([split], a, [goto'] + b, k - 1);
        assert all == [split] + a + ([goto'] + b);
      } else if k == |a| + 1 {
        assert all[..k] == [split] + a;
        GotoOver(a, b);
      } else {
        TameAt(b, k - |head|);
        FlowsShift(head, b, [], k - |head|);
        assert all == head + b + [];
      }
    }
    TameFrom(all);
  }

  lemma TameAt(block: seq<Instr>, k: nat)
    requires Tame(block) && k < |block|
    ensures FlowsAt(block, k)
  {
  }

  lemma TameFrom(block: seq<Instr>)
    requires After(block).height == 0 && After(block).nest == 0 && forall k :: 0 <= k < |block| ==> FlowsAt(block, k)
    ensures Tame(block)
  {
  }

  lemma TameAltPlaces(a: seq<Instr>, b: seq<Instr>)
    requires Tame(a) && Tame(b)
    ensures var split, goto' := Split(true, Length(a) + 5), Goto(Length(b));
            After([split] + a) == Place(5 + Length(a), 0, 0) &&
            After([split] + a + [goto']) == Place(10 + Length(a), 0, 0) &&
            After([split] + a + [goto'] + b) == Place(10 + Length(a) + Length(b), 0, 0)
  {
    hide After, Length, FlowsAt, Tame, Lands, Net, Nest;
    var split, goto' := Split(true, Length(a) + 5), Goto(Length(b));
    AfterOne(split);
    AfterOne(goto');
    TamePlace(a);
    TamePlace(b);
    AfterAppend([split], a);
    AfterAppend([split] + a, [goto']);
    AfterAppend([split] + a + [goto'], b);
  }

  /** The split goes to the second alternative. */
  lemma SplitOver(a: seq<Instr>, b: seq<Instr>)
    requires Tame(a) && Tame(b)
    ensures FlowsAt(AltCode(a, b), 0)
  {
    hide After, Length, Tame, Lands;
    var all := AltCode(a, b);
    var head := [Split(true, Length(a) + 5)] + a + [Goto(Length(b))];
    TameAltPlaces(a, b);
    NoInstr(all);
    LandsAt(all, |head|);
    assert all[..|head|] == head;
  }

  /** The goto goes to the end. */
  lemma GotoOver(a: seq<Instr>, b: seq<Instr>)
    requires Tame(a) && Tame(b)
    ensures FlowsAt(AltCode(a, b), |a| + 1)
  {
    hide After, Length, Tame, Lands, Jumps;
    var all := AltCode(a, b);
    var goto' := Goto(Length(b));
    TameAltPlaces(a, b);
    assert all[..|a| + 1] == [Split(true, Length(a) + 5)] + a;
    assert all[|a| + 1] == goto';
    GotoTarget(goto');
    JumpFlows(all, |a| + 1, goto');
  }

  lemma GotoTarget(i: Instr)
    requires i.Goto?
    ensures Jumps(i) == To(i.offset) && Size(i) == 5
  {
  }

  lemma TameGuarded(a: seq<Instr>)
    requires Tame(a)
    ensures Tame(Guarded(a))
  {
    hide Tame, NeedCheckAdvance, Length;
    TameBracket(PushCharPos, a, CheckAdvance);
  }

  lemma TameLoops(b: seq<Instr>, n: nat, greedy: bool)
    requires Tame(b)
    ensures Tame(OptionCode(b, greedy)) && Tame(StarCode(b, greedy)) && Tame(CountedCode(b, n, greedy))
  {
    hide Tame, Length;
    TameOver(Split(greedy, Length(b)), b);
    TameBracket(Split(greedy, Length(b) + 5), b, Goto(-(Length(b) + 10)));
    var split, loop := Split(greedy, Length(b) + 5), Loop(-(Length(b) + 10));
    TameBracket(split, b, loop);
    TameBracket(PushI32(n), [split] + b + [loop], Drop);
    assert CountedCode(b, n, greedy) == [PushI32(n)] + ([split] + b + [loop]) + [Drop];
  }

  lemma TameRequired(a: seq<Instr>, n: nat, greedy: bool)
    requires Tame(a)
    ensures Tame(ExactCode(a, n)) && Tame(PlusCode(a, greedy))
  {
    hide Tame, Length;
    var loop := Loop(-(Length(a) + 5));
    TameBack(a, loop);
    TameBracket(PushI32(n), a + [loop], Drop);
    assert ExactCode(a, n) == [PushI32(n)] + (a + [loop]) + [Drop];
    TameBack(a, Split(!greedy, -(Length(a) + 5)));
  }

  lemma TameSimple(a: seq<Instr>, min: nat, max: nat)
    requires Tame(a) && SimpleCount(a) > 0
    ensures Tame(SimpleCode(a, min, max))
  {
    hide Tame, Length, SimpleCount;
    TameBracket(SimpleGreedyQuant(Length(a) + 1, min, max, SimpleCount(a)), a, Match);
    assert SimpleCode(a, min, max) == [SimpleGreedyQuant(Length(a) + 1, min, max, SimpleCount(a))] + a + [Match];
  }

  lemma TameOptional(a: seq<Instr>, n: nat, greedy: bool)
    requires Tame(a)
    ensures Tame(OptionalCode(a, n, greedy))
  {
    hide Tame, Length, Guarded, StarCode, CountedCode, OptionCode;
    TameEmpty();
    TameGuarded(a);
    TameLoops(Guarded(a), n, greedy);
  }

  lemma TameQuant(a: seq<Instr>, min: nat, max: nat, greedy: bool, cc: nat, groups: nat)
    requires Tame(a) && min <= max <= INFINITY
    ensures Tame(QuantCode(a, min, max, greedy, cc, groups))
  {
    hide Tame, Length, Guarded, StarCode, CountedCode, OptionCode, ExactCode, PlusCode, SimpleCode, OptionalCode, SimpleCount, NeedCheckAdvance;
    TameEmpty();
    TameOne(SaveReset(cc, cc + (if groups > 0 then groups - 1 else 0)));
    TameGuarded(a);
    TameLoops(Guarded(a), 0, greedy);
    TameRequired(a, min, greedy);
    if SimpleCount(a) > 0 {
      TameSimple(a, min, max);
    }
    var n := if max == INFINITY then INFINITY else max - min;
    TameOptional(a, max, greedy);
    TameOptional(a, n, greedy);
    var reset := if groups > 0 then [SaveReset(cc, cc + groups - 1)] else [];
    TameAppend(reset, if max == 1 then OptionCode(Guarded(a), greedy) else OptionalCode(a, max, greedy));
    TameAppend(if min == 1 then a else ExactCode(a, min), OptionalCode(a, n, greedy));
  }

  /** Emitted code only jumps to places of its own, with the same height and nesting. */
  lemma {:induction false} CodeTame(canon: CodePoint -> CodePoint, r: Re, cc: nat, bw: bool)
    requires WellFormed(r)
    ensures Tame(Code(canon, r, cc, bw))
  {
    hide Tame, Code, AltCode, QuantCode, Length;
    match r {
      case Seq(a, b) =>
        CodeTame(canon, a, cc, bw);
        CodeTame(canon, b, cc + Groups(a), bw);
        CodeSeq(canon, a, b, cc, bw);
        TameAppend(Code(canon, a, cc, bw), Code(canon, b, cc + Groups(a), bw));
        TameAppend(Code(canon, b, cc + Groups(a), bw), Code(canon, a, cc, bw));
      case Alt(a, b) =>
        CodeTame(canon, a, cc, bw);
        CodeTame(canon, b, cc + Groups(a), bw);
        CodeAlt(canon, a, b, cc, bw);
        TameAlt(Code(canon, a, cc, bw), Code(canon, b, cc + Groups(a), bw));
      case Group(a) =>
        CodeTame(canon, a, cc + 1, bw);
        CodeGroup(canon, a, cc, bw);
        TameBracket(Save(bw, cc), Code(canon, a, cc + 1, bw), Save(!bw, cc));
      case Look(a, negated, behind) =>
        var body := Code(canon, a, cc, behind);
        CodeTame(canon, a, cc, behind);
        CodeLook(canon, a, negated, behind, cc, bw);
        TameBracket(Lookahead(negated, Length(body) + 1), body, Match);
      case Quant(a, min, max, greedy) =>
        CodeTame(canon, a, cc, bw);
        CodeQuant(canon, a, min, max, greedy, cc, bw);
        TameQuant(Code(canon, a, cc, bw), min, max, greedy, cc, Groups(a));
      case _ =>
        LeafTame(canon, r, cc, bw);
    }
  }

  lemma LeafTame(canon: CodePoint -> CodePoint, r: Re, cc: nat, bw: bool)
    requires WellFormed(r) && Leaf(r)
    ensures Tame(Code(canon, r, cc, bw))
  {
    hide Tame, RangeInstr, CharInstr, ValidPoints;
    TameEmpty();
    CharOps(r);
    match r {
      case Char(c, icase) => DirectedTame(CharInstr(if icase then canon(c) else c, icase), bw);
      case AnyChar(dotall) => DirectedTame(if dotall then Any else Dot, bw);
      case Class(points, icase) => DirectedTame(RangeInstr(points, icase), bw);
      case ClassOrEmpty(points, icase) =>
        DirectedTame(RangeInstr(points, icase), bw);
        TameLoops(Directed(RangeInstr(points, icase), bw), 0, true);
      case LineStart(m) => TameOne(Instr.LineStart(m));
      case LineEnd(m) => TameOne(Instr.LineEnd(m));
      case WordBoundary(negated, icase) => TameOne(Instr.WordBoundary(negated, icase));
      case BackRef(index, icase) => TameOne(Instr.BackRef(bw, icase, index));
      case Empty =>
    }
  }

  lemma CharOps(r: Re)
    ensures forall c, icase :: CharOp(CharInstr(c, icase))
    ensures (r.Class? || r.ClassOrEmpty?) && ValidPoints(r.points) ==> CharOp(RangeInstr(r.points, r.icase))
  {
  }

  lemma DirectedTame(i: Instr, bw: bool)
    requires CharOp(i)
    ensures Tame(Directed(i, bw))
  {
    hide Tame;
    TameOne(i);
    TameOne(Prev);
    TameAppend([Prev], [i]);
    TameAppend([Prev] + [i], [Prev]);
    assert [Prev, i, Prev] == [Prev] + [i] + [Prev];
  }

  // ----- runs -----

  /** How many lookaheads are pending. */
  function Looks(frames: Frames): nat
  {
    match frames
    case Nil => 0
    case Cons(f, rest) => Looks(rest) + if f.kind.LookaheadKind? || f.kind.NegativeLookaheadKind? then 1 else 0
  }

  /** pc is the place of an instruction of `front`, or of the match instruction that follows it, and the value
      stack and the pending lookaheads are as the linear scan says. */
  ghost predicate Here(front: seq<Instr>, pc: nat, stk: Stack, frames: Frames)
  {
    Lands(front, Place(pc, Height(stk), Looks(frames)))
  }

  /** The saved state of the specialised quantifier points one past its opcode. */
  ghost predicate AtQuant(front: seq<Instr>, pc: nat, stk: Stack, frames: Frames)
  {
    exists k :: 0 <= k < |front| && front[k].SimpleGreedyQuant? &&
      After(front[..k]) == Place(pc - 1, Height(stk), Looks(frames))
  }

  ghost predicate FramesOk(front: seq<Instr>, frames: Frames)
  {
    match frames
    case Nil => true
    case Cons(f, rest) =>
      FramesOk(front, rest) && if f.kind.GreedyKind? then AtQuant(front, f.pc, f.stk, rest) else Here(front, f.pc, f.stk, rest)
  }

  ghost predicate StateOk(front: seq<Instr>, s: Vm)
  {
    match s
    case Run(pc, x, stk, frames) => Here(front, pc, stk, frames) && FramesOk(front, frames)
    case Fail(frames) => FramesOk(front, frames)
    case Succeed(_, frames) => FramesOk(front, frames)
    case Halt(_) => true
    case Stuck => true
  }

  /** The instruction at a place. */
  lemma {:induction false} FetchedAt(fetch: Decoder, pc: nat, block: seq<Instr>, k: nat)
    requires CodeAt(fetch, pc, block) && k < |block|
    ensures fetch(pc + Length(block[..k])) == Valid(block[k])
    decreases k
  {
    if k > 0 {
      FetchedAt(fetch, pc + Size(block[0]), block[1..], k - 1);
      assert block[..k][1..] == block[1..][..k - 1];
    }
  }

  lemma NextPlace(front: seq<Instr>, k: nat)
    requires k < |front|
    ensures After(front[..k + 1]) == Moved(After(front[..k]), Place(Size(front[k]), Delta(front[k]), NestDelta(front[k])))
  {
    hide After, Size, Delta, NestDelta;
    assert front[..k + 1] == front[..k] + [front[k]];
    AfterAppend(front[..k], [front[k]]);
    AfterOne(front[k]);
  }

  /** Going on to the next instruction. */
  lemma FallsThrough(front: seq<Instr>, k: nat, stk: Stack, frames: Frames, stk': Stack, frames': Frames)
    requires k < |front| && After(front[..k]) == Place(After(front[..k]).offset, Height(stk), Looks(frames))
    requires Height(stk') == Height(stk) + Delta(front[k]) && Looks(frames') == Looks(frames) + NestDelta(front[k])
    ensures var next := After(front[..k]).offset + Size(front[k]); next >= 0 && Here(front, next, stk', frames')
  {
    hide Size, Delta, NestDelta;
    NextPlace(front, k);
    LandsAt(front, k + 1);
  }

  /** Jumping. */
  lemma JumpsTo(front: seq<Instr>, k: nat, stk: Stack, frames: Frames, stk': Stack, frames': Frames)
    requires Tame(front) && k < |front| && After(front[..k]) == Place(After(front[..k]).offset, Height(stk), Looks(frames))
    requires Jumps(front[k]).To? && Height(stk') == Height(stk) && Looks(frames') == Looks(frames)
    ensures var target := After(front[..k]).offset + Size(front[k]) + Jumps(front[k]).offset;
            target >= 0 && Here(front, target, stk', frames')
  {
    hide Size, Jumps, Lands, After;
    TameAt(front, k);
    var p := JumpTo(After(front[..k]), front[k], Jumps(front[k]).offset);
    LandsPositive(front, p);
  }

  lemma LandsPositive(front: seq<Instr>, p: Place)
    requires Lands(front, p)
    ensures p.offset >= 0
  {
  }

  lemma InstrOk(e: Env, P: Program, front: seq<Instr>, k: nat, x: St, stk: Stack, frames: Frames)
    requires Tame(front) && Sane(e, P, x) && FramesOk(front, frames) && k < |front|
    requires After(front[..k]) == Place(After(front[..k]).offset, Height(stk), Looks(frames))
    ensures After(front[..k]).offset >= 0
    ensures StateOk(front, StepInstr(e, P, front[k], After(front[..k]).offset, x, stk, frames))
  {
    hide StepInstr, Sane, After, Tame, Lands, FramesOk, Here, StateOk;
    LandsAt(front, k);
    LandsPositive(front, After(front[..k]));
    var i := front[k];
    if TestOp(i) {
      TestOk(e, P, front, k, x, stk, frames);
    } else if Jumps(i).To? {
      JumpOk(e, P, front, k, x, stk, frames);
    } else if i.Match? {
      MatchOk(e, P, front, After(front[..k]).offset, x, stk, frames);
    } else if Delta(i) != 0 {
      StackOk(e, P, front, k, x, stk, frames);
    } else {
      PlainOk(e, P, front, k, x, stk, frames);
    }
  }

  lemma TestOk(e: Env, P: Program, front: seq<Instr>, k: nat, x: St, stk: Stack, frames: Frames)
    requires Sane(e, P, x) && FramesOk(front, frames) && k < |front| && TestOp(front[k])
    requires After(front[..k]) == Place(After(front[..k]).offset, Height(stk), Looks(frames)) && After(front[..k]).offset >= 0
    ensures StateOk(front, StepInstr(e, P, front[k], After(front[..k]).offset, x, stk, frames))
  {
    hide Test, Sane, After, FramesOk, Here;
    FallsThrough(front, k, stk, frames, stk, frames);
  }

  /** Instructions that push or pop. */
  lemma StackOk(e: Env, P: Program, front: seq<Instr>, k: nat, x: St, stk: Stack, frames: Frames)
    requires Sane(e, P, x) && FramesOk(front, frames) && k < |front| && Delta(front[k]) != 0
    requires After(front[..k]) == Place(After(front[..k]).offset, Height(stk), Looks(frames)) && After(front[..k]).offset >= 0
    ensures StateOk(front, StepInstr(e, P, front[k], After(front[..k]).offset, x, stk, frames))
  {
    hide Test, Sane, After, FramesOk, Here, RunQuant, BackReference, PrevPos;
    var i := front[k];
    if i.PushI32? {
      FallsThrough(front, k, stk, frames, Push(i.value, stk), frames);
    } else if i.PushCharPos? {
      FallsThrough(front, k, stk, frames, Push(x.pos, stk), frames);
    } else if stk.Push? {
      FallsThrough(front, k, stk, frames, stk.rest, frames);
    }
  }

  /** Captures, back references and steps back. */
  lemma PlainOk(e: Env, P: Program, front: seq<Instr>, k: nat, x: St, stk: Stack, frames: Frames)
    requires Sane(e, P, x) && FramesOk(front, frames) && k < |front| && !TestOp(front[k])
    requires Jumps(front[k]).NoTarget? && !front[k].Match? && Delta(front[k]) == 0
    requires After(front[..k]) == Place(After(front[..k]).offset, Height(stk), Looks(frames)) && After(front[..k]).offset >= 0
    ensures StateOk(front, StepInstr(e, P, front[k], After(front[..k]).offset, x, stk, frames))
  {
    hide Test, Sane, After, FramesOk, Here, RunQuant, BackReference, PrevPos, SetSlot, Reset;
    FallsThrough(front, k, stk, frames, stk, frames);
  }

  lemma JumpOk(e: Env, P: Program, front: seq<Instr>, k: nat, x: St, stk: Stack, frames: Frames)
    requires Tame(front) && Sane(e, P, x) && FramesOk(front, frames) && k < |front| && Jumps(front[k]).To?
    requires After(front[..k]) == Place(After(front[..k]).offset, Height(stk), Looks(frames)) && After(front[..k]).offset >= 0
    ensures StateOk(front, StepInstr(e, P, front[k], After(front[..k]).offset, x, stk, frames))
  {
    hide RunQuant, Sane, After, Tame, Lands, FramesOk, Here;
    var i, pc: nat := front[k], After(front[..k]).offset;
    JumpsTo(front, k, stk, frames, stk, frames);
    match i {
      case Goto(offset) =>
      case Split(_, _) => SplitOk(e, P, front, k, x, stk, frames);
      case Lookahead(_, _) => LookOk(e, P, front, k, x, stk, frames);
      case Loop(offset) =>
        if !stk.Bottom? {
          var stk' := Push(stk.top - 1, stk.rest);
          FallsThrough(front, k, stk, frames, stk', frames);
          JumpsTo(front, k, stk, frames, stk', frames);
        }
      case SimpleGreedyQuant(_, _, _, _) => QuantOk(e, P, front, k, x, stk, frames);
    }
  }

  lemma SplitOk(e: Env, P: Program, front: seq<Instr>, k: nat, x: St, stk: Stack, frames: Frames)
    requires Tame(front) && Sane(e, P, x) && FramesOk(front, frames) && k < |front| && front[k].Split?
    requires After(front[..k]) == Place(After(front[..k]).offset, Height(stk), Looks(frames)) && After(front[..k]).offset >= 0
    ensures StateOk(front, StepInstr(e, P, front[k], After(front[..k]).offset, x, stk, frames))
  {
    hide Sane, After, Tame, FramesOk, Here;
    var pc: nat, offset := After(front[..k]).offset, front[k].offset;
    var next, target := Saved(SplitKind, pc + 5, x, stk, 0, frames), pc + 5 + offset;
    FallsThrough(front, k, stk, frames, stk, frames);
    JumpsTo(front, k, stk, frames, stk, frames);
    var other := Saved(SplitKind, target, x, stk, 0, frames);
    FallsThrough(front, k, stk, frames, stk, other);
    JumpsTo(front, k, stk, frames, stk, next);
    ConsOk(front, next.head, frames);
    ConsOk(front, other.head, frames);
  }

  lemma ConsOk(front: seq<Instr>, f: Frame, rest: Frames)
    requires FramesOk(front, rest) && !f.kind.GreedyKind? && Here(front, f.pc, f.stk, rest)
    ensures FramesOk(front, Cons(f, rest))
  {
  }

  lemma LookOk(e: Env, P: Program, front: seq<Instr>, k: nat, x: St, stk: Stack, frames: Frames)
    requires Tame(front) && Sane(e, P, x) && FramesOk(front, frames) && k < |front| && front[k].Lookahead?
    requires After(front[..k]) == Place(After(front[..k]).offset, Height(stk), Looks(frames)) && After(front[..k]).offset >= 0
    ensures StateOk(front, StepInstr(e, P, front[k], After(front[..k]).offset, x, stk, frames))
  {
    hide Sane, After, Tame, FramesOk, Here;
    var pc: nat, offset := After(front[..k]).offset, front[k].offset;
    JumpsTo(front, k, stk, frames, stk, frames);
    var kind := if front[k].negated then NegativeLookaheadKind else LookaheadKind;
    var saved := Saved(kind, pc + 5 + offset, x, stk, 0, frames);
    FallsThrough(front, k, stk, frames, stk, saved);
    ConsOk(front, saved.head, frames);
  }

  lemma QuantOk(e: Env, P: Program, front: seq<Instr>, k: nat, x: St, stk: Stack, frames: Frames)
    requires Tame(front) && Sane(e, P, x) && FramesOk(front, frames) && k < |front| && front[k].SimpleGreedyQuant?
    requires After(front[..k]) == Place(After(front[..k]).offset, Height(stk), Looks(frames)) && After(front[..k]).offset >= 0
    ensures StateOk(front, StepInstr(e, P, front[k], After(front[..k]).offset, x, stk, frames))
  {
    hide RunQuant, After, Tame, Lands, StepInstr, Here;
    var pc: nat, i := After(front[..k]).offset, front[k];
    var r := RunQuant(e, P, pc + 17, x.pos, 0, i.max);
    QuantStep(e, P, i, pc, x, stk, frames);
    if r.QuantEnd? && r.count >= i.min {
      var y := x.(pos := r.pos);
      var saved := if r.count > i.min then Saved(GreedyKind, pc + 1, y, stk, r.count - i.min, frames) else frames;
      JumpsTo(front, k, stk, frames, stk, saved);
      assert AtQuant(front, pc + 1, stk, frames);
    }
  }

  lemma QuantStep(e: Env, P: Program, i: Instr, pc: nat, x: St, stk: Stack, frames: Frames)
    requires Sane(e, P, x) && i.SimpleGreedyQuant?
    ensures x.pos <= |e.text.units| && Size(i) == 17 && Jumps(i) == To(i.next)
    ensures var r := RunQuant(e, P, pc + 17, x.pos, 0, i.max);
            var s := StepInstr(e, P, i, pc, x, stk, frames);
            if r.QuantStuck? then s.Stuck?
            else if r.count < i.min then s == Fail(frames)
            else
              var y := x.(pos := r.pos);
              s == Jump(pc + 17 + i.next, y, stk,
                        if r.count > i.min then Saved(GreedyKind, pc + 1, y, stk, r.count - i.min, frames) else frames)
  {
    hide RunQuant;
  }

  /** What follows `front` is the match instruction that ends the whole match. */
  ghost predicate Ends(P: Program, front: seq<Instr>)
  {
    Tame(front) && CodeAt(P.fetch, 0, front + [Match])
  }

  lemma FetchHere(P: Program, front: seq<Instr>, k: nat)
    requires Ends(P, front) && k <= |front|
    ensures P.fetch(Length(front[..k])) == Valid(if k < |front| then front[k] else Match)
  {
    hide Tame, CodeAt;
    var block := front + [Match];
    FetchedAt(P.fetch, 0, block, k);
    assert block[..k] == front[..k];
  }

  lemma StepOk(e: Env, P: Program, front: seq<Instr>, s: Vm)
    requires Ends(P, front) && StateOk(front, s)
    ensures StateOk(front, Step(e, P, s))
  {
    hide StepInstr, Sane, Tame, CodeAt;
    match s {
      case Run(pc, x, stk, frames) =>
        var k :| 0 <= k <= |front| && After(front[..k]) == Place(pc, Height(stk), Looks(frames));
        FetchHere(P, front, k);
        if Sane(e, P, x) {
          if k < |front| {
            InstrOk(e, P, front, k, x, stk, frames);
          } else {
            MatchOk(e, P, front, pc, x, stk, frames);
          }
        }
      case Fail(frames) =>
        if frames.Cons? && frames.head.kind.GreedyKind? {
          GreedyOk(e, P, front, frames.head, frames.tail);
        }
      case _ =>
    }
  }

  lemma MatchOk(e: Env, P: Program, front: seq<Instr>, pc: nat, x: St, stk: Stack, frames: Frames)
    requires Sane(e, P, x) && FramesOk(front, frames)
    ensures StateOk(front, StepInstr(e, P, Match, pc, x, stk, frames))
  {
    hide RunQuant, Test, BackReference, PrevPos, Sane;
  }

  lemma GreedyOk(e: Env, P: Program, front: seq<Instr>, f: Frame, rest: Frames)
    requires Ends(P, front) && f.kind.GreedyKind? && FramesOk(front, Cons(f, rest))
    ensures StateOk(front, StepFail(e, P, f, rest))
  {
    hide StepBack, After, Tame, Lands, Here;
    var k :| 0 <= k < |front| && front[k].SimpleGreedyQuant? && After(front[..k]) == Place(f.pc - 1, Height(f.stk), Looks(rest));
    FetchHere(P, front, k);
    AfterIs(front[..k]);
    JumpsTo(front, k, f.stk, rest, f.stk, rest);
    if f.x.pos <= |e.text.units| && f.count > 0 {
      var p := StepBack(e.text, f.x.pos, front[k].count);
      if p.SomePos? && f.count > 1 {
        var g := f.(x := f.x.(pos := p.pos), count := f.count - 1);
        JumpsTo(front, k, f.stk, rest, f.stk, Cons(g, rest));
      }
    }
  }

  lemma {:induction false} StepsOk(e: Env, P: Program, front: seq<Instr>, s: Vm, n: nat)
    requires Ends(P, front) && StateOk(front, s)
    ensures StateOk(front, Steps(e, P, s, n))
    decreases n
  {
    hide Step, StateOk, Ends;
    if n > 0 {
      StepOk(e, P, front, s);
      StepsOk(e, P, front, Step(e, P, s), n - 1);
    }
  }

  lemma FrontTame(canon: CodePoint -> CodePoint, r: Re, sticky: bool)
    requires WellFormed(r)
    ensures Tame(Prefix(sticky) + Code(canon, Group(r), 0, false))
  {
    hide Tame, Code;
    CodeTame(canon, Group(r), 0, false);
    TameEmpty();
    TameOne(Any);
    TameAnyLength();
    TameBracket(Split(false, 6), [Any], Goto(-11));
    TameAppend(Prefix(sticky), Code(canon, Group(r), 0, false));
  }

  lemma TameAnyLength()
    ensures Length([Any]) == 1
  {
    assert [Any][1..] == [];
  }

  /** On every run of a compiled buffer, at every place: the value stack has the height that the linear scan of
      compute_stack_size has there, and as many lookaheads are pending as are open there. So a lookaround that is
      done leaves none behind. */
  lemma RunsFollowTheScan(e: Env, r: Re, sticky: bool, flags: nat, tail: seq<Byte>, start: nat, n: nat)
    requires WellFormed(r) && SmallClasses(r) && Groups(r) < 255 && Peak(Compile(e.canon, r, sticky)) <= 255
    requires Length(Compile(e.canon, r, sticky)) <= CODE_LIMIT
    ensures var buf := Buffer(e.canon, r, sticky, flags, tail);
            |buf| >= HEADER_LEN &&
            var s := Steps(e, LoadProgram(buf), Run(0, Start(start, 1 + Groups(r)), Bottom, Nil), n);
            s.Run? ==>
              exists k :: 0 <= k < |Compile(e.canon, r, sticky)| &&
                After(Compile(e.canon, r, sticky)[..k]) == Place(s.pc, Height(s.stk), Looks(s.frames))
  {
    hide Compile, Peak, Length, Buffer, Steps, Groups, SmallClasses, CodeAt, Tame, After, Code;
    var buf := Buffer(e.canon, r, sticky, flags, tail);
    BufferParts(e.canon, r, sticky, flags, tail);
    var P, x := LoadProgram(buf), Start(start, 1 + Groups(r));
    var block := Compile(e.canon, r, sticky);
    var front := Prefix(sticky) + Code(e.canon, Group(r), 0, false);
    CompiledAt(e, r, sticky, flags, tail);
    FrontTame(e.canon, r, sticky);
    assert block == front + [Match] by { CompileIs(e.canon, r, sticky); }
    NoInstr(front);
    LandsAt(front, 0);
    var s := Run(0, x, Bottom, Nil);
    assert StateOk(front, s);
    StepsOk(e, P, front, s, n);
    var t := Steps(e, P, s, n);
    if t.Run? {
      var k :| 0 <= k <= |front| && After(front[..k]) == Place(t.pc, Height(t.stk), Looks(t.frames));
      assert block[..k] == front[..k];
    }
  }

  lemma CompileIs(canon: CodePoint -> CodePoint, r: Re, sticky: bool)
    requires WellFormed(r)
    ensures Compile(canon, r, sticky) == Prefix(sticky) + Code(canon, Group(r), 0, false) + [Match]
  {
  }

  lemma CompiledAt(e: Env, r: Re, sticky: bool, flags: nat, tail: seq<Byte>)
    requires WellFormed(r) && SmallClasses(r) && Groups(r) < 255 && Peak(Compile(e.canon, r, sticky)) <= 255
    requires Length(Compile(e.canon, r, sticky)) <= CODE_LIMIT
    ensures var buf := Buffer(e.canon, r, sticky, flags, tail);
            |buf| >= HEADER_LEN && CodeAt(LoadProgram(buf).fetch, 0, Compile(e.canon, r, sticky))
  {
    hide Compile, Peak, Assemble, Length, CodeAt, AllEncodable, Decodes, Buffer;
    var buf := Buffer(e.canon, r, sticky, flags, tail);
    var block := Compile(e.canon, r, sticky);
    BufferParts(e.canon, r, sticky, flags, tail);
    var code := buf[HEADER_LEN..];
    LoadDecodes(code);
    CompileEncodable(e.canon, r, sticky);
    assert code[0..0 + |Assemble(block)|] == Assemble(block);
    AssembledCodeAt(LoadProgram(buf).fetch, code, 0, block);
  }
}
