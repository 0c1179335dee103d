/** The backtracking interpreter as a state machine. A state that reads or writes where the C code
    has no defined behaviour (a bad opcode, the value stack over- or underflowing, a capture index
    out of range, a pointer outside the buffer) is Stuck. */
module RegexVm {
  import opened CharInput
  import opened RegexSyntax
  import opened RegexOpcode
  import opened RegexRange
  import opened RegexOutcomes
  import opened RegexCompile

  /** Loop counters and saved positions. */
  datatype Stack = Bottom | Push(top: int, rest: Stack)

  function Height(stk: Stack): nat
  {
    if stk.Bottom? then 0 else 1 + Height(stk.rest)
  }

  datatype Kind = SplitKind | LookaheadKind | NegativeLookaheadKind | GreedyKind

  /** What push_state saves. `count` is used by GreedyKind only. */
  datatype Frame = Frame(kind: Kind, pc: nat, x: St, stk: Stack, count: nat)

  datatype Frames = Nil | Cons(head: Frame, tail: Frames)

  datatype Result = NoMatch | Matched(caps: seq<Slot>)

  /** Run: about to fetch at pc. Fail and Succeed: unwinding the saved states after a failure or
      after a match instruction. */
  datatype Vm =
    | Run(pc: nat, x: St, stk: Stack, frames: Frames)
    | Fail(frames: Frames)
    | Succeed(x: St, frames: Frames)
    | Halt(result: Result)
    | Stuck

  /** Compiled code with the capture count and stack size from its header. */
  datatype Program = Program(fetch: Decoder, length: nat, captureCount: nat, stackSize: nat)

  // ----- tests of single instructions -----

  predicate TestOp(i: Instr)
  {
    (CharOp(i) || AssertionOp(i)) && (i.Range16? || i.Range32? ==> i.pairs != [])
  }

  predicate AcceptsChar(e: Env, i: Instr, c: CodePoint)
    requires CharOp(i) && TestOp(i)
  {
    match i
    case Char16(c0, icase) => Fold(e, icase, c) == c0
    case Char32(c0, icase) => Fold(e, icase, c) == c0
    case Dot => !IsLineTerminator(c)
    case Any => true
    case Range16(icase, pairs) => Hit16(pairs, Fold(e, icase, c))
    case Range32(icase, pairs) => Hit32(pairs, Fold(e, icase, c))
  }

  predicate AssertionHolds(e: Env, i: Instr, p: nat)
    requires AssertionOp(i) && p <= |e.text.units|
  {
    match i
    case LineStart(m) => p == 0 || (m && IsLineTerminator(CharBefore(e.text, p, 0)))
    case LineEnd(m) => p == |e.text.units| || (m && IsLineTerminator(CharAt(e.text, p, |e.text.units|)))
    case WordBoundary(negated, icase) =>
      !((WordBefore(e, icase, p) != WordAfter(e, icase, p)) != !negated)
  }

  /** Where the instruction leaves the position, if it succeeds. */
  function Test(e: Env, i: Instr, p: nat): (q: MaybePos)
    requires TestOp(i) && p <= |e.text.units|
    ensures q.SomePos? ==> p <= q.pos <= |e.text.units|
  {
    var n := |e.text.units|;
    if AssertionOp(i) then (if AssertionHolds(e, i, p) then SomePos(p) else NoPos)
    else if p == n then NoPos
    else if AcceptsChar(e, i, CharAt(e.text, p, n)) then SomePos(NextPos(e.text, p, n))
    else NoPos
  }

  // ----- the nested run of a simple quantifier -----

  datatype AtomResult = AtomStuck | AtomFail | AtomEnd(pos: nat)

  /** A run of straight-line code up to its match instruction. */
  function RunAtom(e: Env, P: Program, pc: nat, p: nat): (r: AtomResult)
    requires p <= |e.text.units|
    ensures r.AtomEnd? ==> p <= r.pos <= |e.text.units|
    decreases P.length - pc
  {
    if pc >= P.length then AtomStuck else
    match P.fetch(pc)
    case Invalid => AtomStuck
    case Valid(i) =>
      if i.Match? then AtomEnd(p)
      else if !TestOp(i) then AtomStuck
      else
        var q := Test(e, i, p);
        if q.NoPos? then AtomFail else RunAtom(e, P, pc + Size(i), q.pos)
  }

  datatype QuantResult = QuantStuck | QuantEnd(pos: nat, count: nat)

  /** Runs the atom as often as it matches, at most `max` times if `max` is not INFINITY. An atom
      that matches without moving would be run forever. */
  function RunQuant(e: Env, P: Program, pc: nat, p: nat, q: nat, max: nat): (r: QuantResult)
    requires p <= |e.text.units|
    ensures r.QuantEnd? ==> p <= r.pos <= |e.text.units| && q <= r.count
    decreases |e.text.units| - p
  {
    match RunAtom(e, P, pc, p)
    case AtomStuck => QuantStuck
    case AtomFail => QuantEnd(p, q)
    case AtomEnd(p') =>
      if q + 1 >= max && max != INFINITY then QuantEnd(p', q + 1)
      else if p' == p then QuantStuck
      else RunQuant(e, P, pc, p', q + 1, max)
  }

  // ----- one step -----

  function Jump(pc: int, x: St, stk: Stack, frames: Frames): Vm
  {
    if pc < 0 then Stuck else Run(pc, x, stk, frames)
  }

  function Saved(kind: Kind, pc: int, x: St, stk: Stack, count: nat, frames: Frames): Frames
    requires pc >= 0
  {
    Cons(Frame(kind, pc, x, stk, count), frames)
  }

  predicate Sane(e: Env, P: Program, x: St)
  {
    InBuffer(e, x) && |x.caps| == 2 * P.captureCount
  }

  function Step(e: Env, P: Program, s: Vm): Vm
  {
    match s
    case Run(pc, x, stk, frames) =>
      if !Sane(e, P, x) || P.fetch(pc).Invalid? then Stuck
      else StepInstr(e, P, P.fetch(pc).instr, pc, x, stk, frames)
    case Fail(frames) => if frames.Nil? then Halt(NoMatch) else StepFail(e, P, frames.head, frames.tail)
    case Succeed(x, frames) => if frames.Nil? then Halt(Matched(x.caps)) else StepSucceed(x, frames.head, frames.tail)
    case Halt(_) => s
    case Stuck => s
  }

  /** A failure resumes the most recent saved state; a negative lookahead whose body failed holds. */
  function StepFail(e: Env, P: Program, f: Frame, rest: Frames): Vm
  {
    match f.kind
    case SplitKind => Run(f.pc, f.x, f.stk, rest)
    case LookaheadKind => Fail(rest)
    case NegativeLookaheadKind => Run(f.pc, f.x, f.stk, rest)
    case GreedyKind =>
      if f.pc == 0 || P.fetch(f.pc - 1).Invalid? then Stuck else
      var i := P.fetch(f.pc - 1).instr;
      if !i.SimpleGreedyQuant? || f.x.pos > |e.text.units| || f.count == 0 then Stuck else
      var p := StepBack(e.text, f.x.pos, i.count);
      if p.NoPos? then Stuck else
      var x := f.x.(pos := p.pos);
      Jump(f.pc + 16 + i.next, x, f.stk, if f.count == 1 then rest else Cons(f.(x := x, count := f.count - 1), rest))
  }

  /** A match drops saved states down to a lookahead: a positive one resumes with the captures of
      its body, a negative one fails. */
  function StepSucceed(x: St, f: Frame, rest: Frames): Vm
  {
    match f.kind
    case SplitKind => Succeed(x, rest)
    case GreedyKind => Succeed(x, rest)
    case LookaheadKind => Run(f.pc, f.x.(caps := x.caps), f.stk, rest)
    case NegativeLookaheadKind => Fail(rest)
  }

  function StepInstr(e: Env, P: Program, i: Instr, pc: nat, x: St, stk: Stack, frames: Frames): Vm
    requires Sane(e, P, x)
  {
    var next := pc + Size(i);
    if TestOp(i) then
      var p := Test(e, i, x.pos);
      if p.SomePos? then Run(next, x.(pos := p.pos), stk, frames) else Fail(frames)
    else match i
    case Goto(offset) => Jump(next + offset, x, stk, frames)
    case Split(nextFirst, offset) =>
      if next + offset < 0 then Stuck
      else if nextFirst then Run(next, x, stk, Saved(SplitKind, next + offset, x, stk, 0, frames))
      else Run(next + offset, x, stk, Saved(SplitKind, next, x, stk, 0, frames))
    case Lookahead(negated, offset) =>
      if next + offset < 0 then Stuck else
      Run(next, x, stk, Saved(if negated then NegativeLookaheadKind else LookaheadKind, next + offset, x, stk, 0, frames))
    case Match => Succeed(x, frames)
    case Save(end, index) =>
      if index >= P.captureCount then Stuck
      else Run(next, SetSlot(x, 2 * index + Bit(end)), stk, frames)
    case SaveReset(lo, hi) =>
      if hi >= P.captureCount then Stuck else Run(next, Reset(x, lo, hi + 1), stk, frames)
    case PushI32(v) =>
      if Height(stk) >= P.stackSize then Stuck else Run(next, x, Push(v, stk), frames)
    case PushCharPos =>
      if Height(stk) >= P.stackSize then Stuck else Run(next, x, Push(x.pos, stk), frames)
    case Drop => if stk.Bottom? then Stuck else Run(next, x, stk.rest, frames)
    case Loop(offset) =>
      if stk.Bottom? then Stuck else
      Jump(if stk.top - 1 != 0 then next + offset else next, x, Push(stk.top - 1, stk.rest), frames)
    case CheckAdvance =>
      if stk.Bottom? then Stuck
      else if stk.top == x.pos then Fail(frames) else Run(next, x, stk.rest, frames)
    case Prev =>
      if x.pos == 0 then Fail(frames) else Run(next, x.(pos := PrevPos(e.text, x.pos, 0)), stk, frames)
    case BackRef(backward, icase, index) =>
      var p := BackReference(e, icase, backward, index, x);
      if p.SomePos? then Run(next, x.(pos := p.pos), stk, frames) else Fail(frames)
    case SimpleGreedyQuant(offset, min, max, _) =>
      var r := RunQuant(e, P, next, x.pos, 0, max);
      if r.QuantStuck? then Stuck
      else if r.count < min then Fail(frames)
      else
        var y := x.(pos := r.pos);
        Jump(next + offset, y, stk,
             if r.count > min then Saved(GreedyKind, pc + 1, y, stk, r.count - min, frames) else frames)
    case _ => Stuck
  }

  function Steps(e: Env, P: Program, s: Vm, n: nat): Vm
    decreases n
  {
    if n == 0 then s else Steps(e, P, Step(e, P, s), n - 1)
  }

  lemma {:induction false} StepsAdd(e: Env, P: Program, s: Vm, m: nat, n: nat)
    ensures Steps(e, P, s, m + n) == Steps(e, P, Steps(e, P, s, m), n)
    decreases m
  {
    if m > 0 {
      StepsAdd(e, P, Step(e, P, s), m - 1, n);
    }
  }
}
