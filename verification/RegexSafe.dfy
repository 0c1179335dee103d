/** Every state of a run of compiled code is a defined one, with the value stack within its declared size. */
module RegexSafe {
  import opened CharInput
  import opened RegexSyntax
  import opened RegexOpcode
  import opened RegexOutcomes
  import opened RegexCompile
  import opened RegexVm
  import opened RegexRuns
  import opened RegexTheorem
  import opened RegexSpec
  import opened RegexBytes

  lemma {:induction false} StuckStays(e: Env, P: Program, n: nat)
    ensures Steps(e, P, Stuck, n) == Stuck
  {
    if n > 0 {
      StuckStays(e, P, n - 1);
    }
  }

  lemma {:induction false} HaltStays(e: Env, P: Program, result: Result, n: nat)
    ensures Steps(e, P, Halt(result), n) == Halt(result)
  {
    if n > 0 {
      HaltStays(e, P, result, n - 1);
    }
  }

  /** The value stacks in the saved states are within the declared size. */
  predicate FramesFit(P: Program, frames: Frames)
  {
    frames.Nil? || (Height(frames.head.stk) <= P.stackSize && FramesFit(P, frames.tail))
  }

  /** So is the current one. */
  predicate StacksFit(P: Program, s: Vm)
  {
    match s
    case Run(_, _, stk, frames) => Height(stk) <= P.stackSize && FramesFit(P, frames)
    case Fail(frames) => FramesFit(P, frames)
    case Succeed(_, frames) => FramesFit(P, frames)
    case Halt(_) => true
    case Stuck => true
  }

  lemma StepFits(e: Env, P: Program, s: Vm)
    requires StacksFit(P, s)
    ensures StacksFit(P, Step(e, P, s))
  {
    match s {
      case Run(pc, x, stk, frames) =>
        if Sane(e, P, x) && P.fetch(pc).Valid? {
          InstrFits(e, P, P.fetch(pc).instr, pc, x, stk, frames);
        }
      case _ =>
    }
  }

  lemma InstrFits(e: Env, P: Program, i: Instr, pc: nat, x: St, stk: Stack, frames: Frames)
    requires Sane(e, P, x) && Height(stk) <= P.stackSize && FramesFit(P, frames)
    ensures StacksFit(P, StepInstr(e, P, i, pc, x, stk, frames))
  {
    hide RunQuant, Test, BackReference, PrevPos, Sane;
  }

  lemma {:induction false} StepsFit(e: Env, P: Program, s: Vm, n: nat)
    requires StacksFit(P, s)
    ensures StacksFit(P, Steps(e, P, s, n))
    decreases n
  {
    hide Step, StacksFit;
    if n > 0 {
      StepFits(e, P, s);
      StepsFit(e, P, Step(e, P, s), n - 1);
    }
  }

  /** A run that halts never meets an undefined operation. */
  lemma HaltingIsDefined(e: Env, P: Program, s: Vm, result: Result, n: nat)
    requires Reaches(e, P, s, Halt(result))
    ensures !Steps(e, P, s, n).Stuck?
  {
    var m: nat :| Steps(e, P, s, m) == Halt(result);
    if n <= m {
      StepsAdd(e, P, s, n, m - n);
      StuckStays(e, P, m - n);
    } else {
      StepsAdd(e, P, s, m, n - m);
      HaltStays(e, P, result, n - m);
    }
  }

  /** On every run of a compiled buffer: no state is undefined, and no value stack, current or saved, is
      higher than compute_stack_size declared. */
  lemma RunsAreSafe(e: Env, r: Re, sticky: bool, flags: nat, tail: seq<Byte>, start: nat, n: nat)
    requires WellFormed(r) && SmallClasses(r) && Groups(r) < 255 && Peak(Compile(e.canon, r, sticky)) <= 255
    requires Length(Compile(e.canon, r, sticky)) <= CODE_LIMIT
    requires Boundary(e.text, start)
    ensures var buf := Buffer(e.canon, r, sticky, flags, tail);
            |buf| >= HEADER_LEN &&
            var P, s := LoadProgram(buf), Run(0, Start(start, 1 + Groups(r)), Bottom, Nil);
            P.stackSize == Peak(Compile(e.canon, r, sticky)) &&
            !Steps(e, P, s, n).Stuck? && StacksFit(P, Steps(e, P, s, n))
  {
    hide Compile, Peak, Length, Buffer, Reaches, FindMatch, Steps, Groups, WellFormed, SmallClasses, ValidSt;
    var buf := Buffer(e.canon, r, sticky, flags, tail);
    ExecCorrect(e, r, sticky, flags, tail, start);
    BufferParts(e.canon, r, sticky, flags, tail);
    var P, s := LoadProgram(buf), Run(0, Start(start, 1 + Groups(r)), Bottom, Nil);
    HaltingIsDefined(e, P, s, ResultOf(FindMatch(e, r, sticky, Start(start, 1 + Groups(r)))), n);
    StepsFit(e, P, s, n);
  }
}
