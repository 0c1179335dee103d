/** The interpreter as it works: one loop over a program counter, a position, a capture array, a value
    stack of fixed size and a growing stack of saved states. */
module RegexExec {
  import opened CharInput
  import opened RegexSyntax
  import opened RegexOpcode
  import opened RegexRange
  import opened RegexOutcomes
  import opened RegexCompile
  import opened RegexVm
  import opened RegexRuns
  import opened RegexTheorem
  import opened RegexSpec
  import opened RegexBytes
  import opened RegexSafe

  // ----- loops of single instructions -----

  /** The search loop of the range opcodes; the unsigned indices never go below zero. */
  method SearchRanges(pairs: seq<(nat, nat)>, c: nat) returns (found: bool)
    requires pairs != [] && c >= pairs[0].0
    ensures found == Search(pairs, c, 0, |pairs| - 1)
  {
    var lo, hi := 0, |pairs| - 1;
    while lo <= hi
      invariant 0 <= lo && -1 <= hi < |pairs| && (hi == -1 ==> lo > 0)
      invariant Search(pairs, c, lo, hi) == Search(pairs, c, 0, |pairs| - 1)
      decreases hi - lo + 1
    {
      var idx := (lo + hi) / 2;
      if c < pairs[idx].0 {
        assert idx > 0;
        hi := idx - 1;
      } else if c > pairs[idx].1 {
        lo := idx + 1;
      } else {
        return true;
      }
    }
    found := false;
  }

  method TestRange(i: Instr, c: nat) returns (ok: bool)
    requires (i.Range16? || i.Range32?) && i.pairs != []
    ensures ok == if i.Range16? then Hit16(i.pairs, c) else Hit32(i.pairs, c)
  {
    var last := |i.pairs| - 1;
    if c < i.pairs[0].0 {
      return false;
    }
    if i.Range16? && c >= 0xFFFF && i.pairs[last].1 == 0xFFFF {
      return true;
    }
    if c > i.pairs[last].1 {
      return false;
    }
    ok := SearchRanges(i.pairs, c);
  }

  /** A comparison or assertion at position `p`. */
  method RunTest(e: Env, i: Instr, p: nat) returns (q: MaybePos)
    requires TestOp(i) && p <= |e.text.units|
    ensures q == Test(e, i, p)
  {
    hide Hit16, Hit32, CharAt, NextPos, CharBefore;
    var n := |e.text.units|;
    if AssertionOp(i) {
      return if AssertionHolds(e, i, p) then SomePos(p) else NoPos;
    }
    if p >= n {
      return NoPos;
    }
    var c, next := CharAt(e.text, p, n), NextPos(e.text, p, n);
    var ok;
    match i {
      case Char16(val, icase) => ok := Fold(e, icase, c) == val;
      case Char32(val, icase) => ok := Fold(e, icase, c) == val;
      case Dot => ok := !IsLineTerminator(c);
      case Any => ok := true;
      case Range16(icase, _) => ok := TestRange(i, Fold(e, icase, c));
      case Range32(icase, _) => ok := TestRange(i, Fold(e, icase, c));
    }
    return if ok then SomePos(next) else NoPos;
  }

  method RunBackReference(e: Env, icase: bool, backward: bool, index: nat, x: St) returns (r: MaybePos)
    requires InBuffer(e, x)
    ensures r == BackReference(e, icase, backward, index, x)
  {
    hide CharAt, NextPos, CharBefore, PrevPos;
    if 2 * index + 1 >= |x.caps| {
      return NoPos;
    }
    if x.caps[2 * index].Unset? || x.caps[2 * index + 1].Unset? {
      return SomePos(x.pos);
    }
    assert ValidSlot(e, x.caps[2 * index]) && ValidSlot(e, x.caps[2 * index + 1]);
    var start, end, n := x.caps[2 * index].pos, x.caps[2 * index + 1].pos, |e.text.units|;
    var p: nat := x.pos;
    if !backward {
      var s: nat := start;
      while s < end
        invariant p <= n
        invariant BackForward(e, icase, s, end, p) == BackForward(e, icase, start, end, x.pos)
        decreases end - s
      {
        if p >= n {
          return NoPos;
        }
        var c1, c2 := CharAt(e.text, s, end), CharAt(e.text, p, n);
        if Fold(e, icase, c1) != Fold(e, icase, c2) {
          return NoPos;
        }
        s, p := NextPos(e.text, s, end), NextPos(e.text, p, n);
      }
    } else {
      var s: nat := end;
      while s > start
        invariant s <= n && p <= n
        invariant BackBackward(e, icase, start, s, p) == BackBackward(e, icase, start, end, x.pos)
        decreases s
      {
        if p == 0 {
          return NoPos;
        }
        var c1, c2 := CharBefore(e.text, s, start), CharBefore(e.text, p, 0);
        if Fold(e, icase, c1) != Fold(e, icase, c2) {
          return NoPos;
        }
        s, p := PrevPos(e.text, s, start), PrevPos(e.text, p, 0);
      }
    }
    return SomePos(p);
  }

  /** The nested run of an atom. */
  method ExecAtom(e: Env, P: Program, start: nat, p0: nat) returns (r: AtomResult)
    requires p0 <= |e.text.units| && !RunAtom(e, P, start, p0).AtomStuck?
    ensures r == RunAtom(e, P, start, p0)
  {
    hide Test, Size;
    var pc: nat, p: nat := start, p0;
    while true
      invariant p <= |e.text.units| && RunAtom(e, P, pc, p) == RunAtom(e, P, start, p0)
      decreases P.length - pc
    {
      var i := P.fetch(pc).instr;
      if i.Match? {
        return AtomEnd(p);
      }
      var q := RunTest(e, i, p);
      if q.NoPos? {
        return AtomFail;
      }
      pc, p := pc + Size(i), q.pos;
    }
  }

  /** The counting loop of the specialised quantifier. */
  method ExecQuant(e: Env, P: Program, pc: nat, p0: nat, max: nat) returns (p: nat, q: nat)
    requires p0 <= |e.text.units| && RunQuant(e, P, pc, p0, 0, max).QuantEnd?
    ensures QuantEnd(p, q) == RunQuant(e, P, pc, p0, 0, max)
  {
    hide RunAtom;
    p, q := p0, 0;
    while true
      invariant p <= |e.text.units| && RunQuant(e, P, pc, p, q, max) == RunQuant(e, P, pc, p0, 0, max)
      decreases |e.text.units| - p
    {
      var res := ExecAtom(e, P, pc, p);
      if res.AtomFail? {
        return;
      }
      ghost var before := p;
      p, q := res.pos, q + 1;
      if q >= max && max != INFINITY {
        return;
      }
    }
  }

  method ExecStepBack(t: Text, p0: nat, n: nat) returns (p: nat)
    requires p0 <= |t.units| && StepBack(t, p0, n).SomePos?
    ensures SomePos(p) == StepBack(t, p0, n)
  {
    hide PrevPos;
    p := p0;
    var i := 0;
    while i < n
      invariant 0 <= i <= n && p <= |t.units| && StepBack(t, p, n - i) == StepBack(t, p0, n)
    {
      p := PrevPos(t, p, 0);
      i := i + 1;
    }
  }

  // ----- the machine -----

  /** An entry of the stack of saved states. */
  datatype SavedState = SavedState(kind: Kind, pc: nat, cptr: nat, count: nat, capture: seq<Slot>, stack: seq<int>)

  function AbsStack(s: seq<int>): (stk: Stack)
    ensures Height(stk) == |s|
  {
    if s == [] then Bottom else Push(s[|s| - 1], AbsStack(s[..|s| - 1]))
  }

  function AbsFrame(s: SavedState): Frame
  {
    Frame(s.kind, s.pc, St(s.cptr, s.capture), AbsStack(s.stack), s.count)
  }

  function AbsFrames(states: seq<SavedState>): Frames
  {
    if states == [] then Nil else Cons(AbsFrame(states[|states| - 1]), AbsFrames(states[..|states| - 1]))
  }

  lemma AbsPush(s: seq<int>, v: int)
    ensures AbsStack(s + [v]) == Push(v, AbsStack(s))
  {
    assert (s + [v])[..|s|] == s;
  }

  lemma AbsSave(states: seq<SavedState>, s: SavedState)
    ensures AbsFrames(states + [s]) == Cons(AbsFrame(s), AbsFrames(states))
  {
    assert (states + [s])[..|states|] == states;
  }

  datatype Outcome = Next | NoMatchHere | MatchHere

  class ExecContext {
    const e: Env
    const P: Program
    const capture: array<Slot>
    const stack: array<int>
    var stackLen: nat
    var pc: nat
    var cptr: nat
    var states: seq<SavedState>

    ghost predicate Valid()
      reads this
    {
      capture.Length == 2 * P.captureCount && stack.Length == P.stackSize && stackLen <= stack.Length &&
      forall k :: 0 <= k < |states| ==> |states[k].capture| == capture.Length && |states[k].stack| <= stack.Length
    }

    /** The state of the machine. */
    ghost function State(): St
      reads this, capture
    {
      St(cptr, capture[..])
    }

    ghost function Values(): Stack
      requires Valid()
      reads this, stack
    {
      AbsStack(stack[..stackLen])
    }

    ghost function Abs(): Vm
      requires Valid()
      reads this, capture, stack
    {
      Run(pc, State(), Values(), AbsFrames(states))
    }

    /** What lre_exec sets up. */
    constructor (e: Env, P: Program, start: nat)
      ensures Valid() && this.e == e && this.P == P
      ensures Abs() == Run(0, Start(start, P.captureCount), Bottom, Nil)
      ensures fresh(capture) && fresh(stack)
    {
      this.e, this.P := e, P;
      capture := new Slot[2 * P.captureCount](_ => Unset);
      stack := new int[P.stackSize];
      stackLen, pc, cptr, states := 0, 0, start, [];
      new;
      assert capture[..] == Start(start, P.captureCount).caps;
    }

    method PushState(pc': nat, kind: Kind, count: nat)
      requires Valid()
      modifies this`states
      ensures Valid()
      ensures AbsFrames(states) == Cons(Frame(kind, pc', State(), Values(), count), AbsFrames(old(states)))
    {
      var s := SavedState(kind, pc', cptr, count, capture[..], stack[..stackLen]);
      AbsSave(states, s);
      states := states + [s];
    }

    /** Copies a saved stack back. */
    method RestoreStack(s: seq<int>)
      requires Valid() && |s| <= stack.Length
      modifies this`stackLen, stack
      ensures Valid() && Values() == AbsStack(s)
    {
      stackLen := |s|;
      var i := 0;
      while i < |s|
        invariant 0 <= i <= |s| && stackLen == |s| && Valid()
        invariant stack[..i] == s[..i]
      {
        stack[i] := s[i];
        i := i + 1;
      }
      assert stack[..stackLen] == s;
    }

    method RestoreCaptures(c: seq<Slot>)
      requires Valid() && |c| == capture.Length
      modifies capture
      ensures capture[..] == c
    {
      var i := 0;
      while i < |c|
        invariant 0 <= i <= |c| && capture[..i] == c[..i]
      {
        capture[i] := c[i];
        i := i + 1;
      }
    }

    // ----- instructions -----

    /** Fetches the instruction at pc; the machine is not stuck. */
    ghost predicate At(i: Instr)
      requires Valid()
      reads this, capture, stack
    {
      P.fetch(pc) == Decoded.Valid(i) && Sane(e, P, State()) && !Step(e, P, Abs()).Stuck?
    }

    method ExecTest(i: Instr) returns (o: Outcome)
      requires Valid() && At(i) && TestOp(i)
      modifies this
      ensures Valid() && states == old(states)
      ensures (o == Next && old(Step(e, P, Abs())) == Abs()) ||
              (o == NoMatchHere && old(Step(e, P, Abs())) == Fail(AbsFrames(states)))
    {
      hide Test, Size, TestOp, AbsFrames, AbsStack;
      var q := RunTest(e, i, cptr);
      if q.NoPos? {
        return NoMatchHere;
      }
      cptr, pc := q.pos, pc + Size(i);
      return Next;
    }

    method ExecJump(i: Instr)
      requires Valid() && At(i) && (i.Goto? || i.Split? || i.Lookahead?)
      modifies this
      ensures Valid() && old(Step(e, P, Abs())) == Abs()
    {
      hide AbsFrames, AbsStack;
      match i {
        case Goto(offset) =>
          pc := pc + 5 + offset;
        case Split(nextFirst, offset) =>
          var next, target := pc + 5, pc + 5 + offset;
          if nextFirst {
            PushState(target, SplitKind, 0);
            pc := next;
          } else {
            PushState(next, SplitKind, 0);
            pc := target;
          }
        case Lookahead(negated, offset) =>
          PushState(pc + 5 + offset, if negated then NegativeLookaheadKind else LookaheadKind, 0);
          pc := pc + 5;
      }
    }

    method ExecSave(i: Instr)
      requires Valid() && At(i) && (i.Save? || i.SaveReset?)
      modifies this, capture
      ensures Valid() && old(Step(e, P, Abs())) == Abs()
    {
      hide AbsFrames, AbsStack;
      match i {
        case Save(end, index) =>
          capture[2 * index + Bit(end)] := Ptr(cptr);
          pc := pc + 2;
        case SaveReset(lo, hi) =>
          ghost var was := capture[..];
          var val := lo;
          while val <= hi
            invariant lo <= val && Valid() && pc == old(pc) && cptr == old(cptr) && stackLen == old(stackLen) && states == old(states)
            invariant val <= hi + 1 || val == lo
            invariant forall k :: 0 <= k < capture.Length ==> capture[k] == if 2 * lo <= k < 2 * val then Unset else was[k]
          {
            capture[2 * val] := Unset;
            capture[2 * val + 1] := Unset;
            val := val + 1;
          }
          assert capture[..] == Reset(St(cptr, was), lo, hi + 1).caps;
          pc := pc + 3;
      }
    }

    method ExecPush(i: Instr)
      requires Valid() && At(i) && (i.PushI32? || i.PushCharPos?)
      modifies this, stack
      ensures Valid() && old(Step(e, P, Abs())) == Abs()
    {
      hide AbsFrames, AbsStack;
      if i.PushI32? {
        PushValue(i.value);
        pc := pc + 5;
      } else {
        PushValue(cptr);
        pc := pc + 1;
      }
    }

    method ExecLoop(i: Instr)
      requires Valid() && At(i) && i.Loop?
      modifies this, stack
      ensures Valid() && old(Step(e, P, Abs())) == Abs()
    {
      hide AbsFrames, AbsStack;
      ValuesEmpty();
      TopValue();
      var top := stack[stackLen - 1] - 1;
      ghost var below := stack[..stackLen - 1];
      stack[stackLen - 1] := top;
      AbsPush(below, top);
      assert stack[..stackLen] == below + [top];
      pc := pc + 5;
      if top != 0 {
        pc := pc + i.offset;
      }
    }

    method ExecPop(i: Instr) returns (o: Outcome)
      requires Valid() && At(i) && (i.Drop? || i.CheckAdvance?)
      modifies this
      ensures Valid() && states == old(states)
      ensures (o == Next && old(Step(e, P, Abs())) == Abs()) ||
              (o == NoMatchHere && old(Step(e, P, Abs())) == Fail(AbsFrames(states)))
    {
      hide AbsFrames, AbsStack;
      ValuesEmpty();
      TopValue();
      stackLen := stackLen - 1;
      if i.CheckAdvance? && stack[stackLen] == cptr {
        return NoMatchHere;
      }
      pc := pc + 1;
      return Next;
    }

    lemma ValuesEmpty()
      requires Valid()
      ensures Values().Bottom? <==> stackLen == 0
    {
    }

    method PushValue(v: int)
      requires Valid() && stackLen < stack.Length
      modifies this`stackLen, stack
      ensures Valid() && Values() == Push(v, old(Values()))
    {
      ghost var was := stack[..stackLen];
      stack[stackLen] := v;
      stackLen := stackLen + 1;
      AbsPush(was, v);
      assert stack[..stackLen] == was + [v];
    }

    /** The top of a value stack that is not empty. */
    lemma TopValue()
      requires Valid() && !Values().Bottom?
      ensures stackLen > 0 && Values() == Push(stack[stackLen - 1], AbsStack(stack[..stackLen - 1]))
    {
      assert stack[..stackLen][..stackLen - 1] == stack[..stackLen - 1];
    }

    method ExecMove(i: Instr) returns (o: Outcome)
      requires Valid() && At(i) && (i.Prev? || i.BackRef?)
      modifies this
      ensures Valid() && states == old(states)
      ensures (o == Next && old(Step(e, P, Abs())) == Abs()) ||
              (o == NoMatchHere && old(Step(e, P, Abs())) == Fail(AbsFrames(states)))
    {
      hide AbsFrames, AbsStack, BackReference, PrevPos;
      if i.Prev? {
        if cptr == 0 {
          return NoMatchHere;
        }
        cptr, pc := PrevPos(e.text, cptr, 0), pc + 1;
      } else {
        var q := RunBackReference(e, i.icase, i.backward, i.index, St(cptr, capture[..]));
        if q.NoPos? {
          return NoMatchHere;
        }
        cptr, pc := q.pos, pc + 2;
      }
      return Next;
    }

    method ExecSimpleQuant(i: Instr) returns (o: Outcome)
      requires Valid() && At(i) && i.SimpleGreedyQuant?
      modifies this
      ensures Valid()
      ensures (o == Next && old(Step(e, P, Abs())) == Abs()) ||
              (o == NoMatchHere && old(Step(e, P, Abs())) == Fail(AbsFrames(states)))
    {
      hide AbsFrames, AbsStack, RunQuant;
      var p, q := ExecQuant(e, P, pc + 17, cptr, i.max);
      if q < i.min {
        return NoMatchHere;
      }
      cptr := p;
      if q > i.min {
        PushState(pc + 1, GreedyKind, q - i.min);
      }
      pc := pc + 17 + i.next;
      return Next;
    }

    /** One round of the instruction loop. */
    method ExecInstr() returns (o: Outcome)
      requires Valid() && !Step(e, P, Abs()).Stuck?
      modifies this, capture, stack
      ensures Valid()
      ensures o == Next ==> old(Step(e, P, Abs())) == Abs()
      ensures o == NoMatchHere ==> old(Step(e, P, Abs())) == Fail(AbsFrames(states))
      ensures o == MatchHere ==> old(Step(e, P, Abs())) == Succeed(State(), AbsFrames(states))
    {
      hide AbsFrames, AbsStack, RunQuant, Test, BackReference, PrevPos, RunAtom;
      var i := P.fetch(pc).instr;
      o := Next;
      if TestOp(i) {
        o := ExecTest(i);
      } else if i.Goto? || i.Split? || i.Lookahead? {
        ExecJump(i);
      } else if i.Save? || i.SaveReset? {
        ExecSave(i);
      } else if i.PushI32? || i.PushCharPos? {
        ExecPush(i);
      } else if i.Loop? {
        ExecLoop(i);
      } else if i.Drop? || i.CheckAdvance? {
        o := ExecPop(i);
      } else if i.Prev? || i.BackRef? {
        o := ExecMove(i);
      } else if i.SimpleGreedyQuant? {
        o := ExecSimpleQuant(i);
      } else {
        return MatchHere;
      }
    }

    // ----- unwinding -----

    /** The state in which the unwinding loop runs. */
    ghost function Unwinding(ret: bool): Vm
      reads this, capture
    {
      if ret then Succeed(State(), AbsFrames(states)) else Fail(AbsFrames(states))
    }

    /** Resumes a saved state: pop_state, or with `keepCaptures` pop_state1. */
    method PopState(keepCaptures: bool)
      requires Valid() && states != []
      modifies this, capture, stack
      ensures Valid() && states == old(states)[..|old(states)| - 1]
      ensures var rs := old(states)[|old(states)| - 1];
              Abs() == Run(rs.pc, St(rs.cptr, if keepCaptures then old(capture[..]) else rs.capture),
                           AbsStack(rs.stack), AbsFrames(states))
    {
      hide AbsFrames, AbsStack;
      var rs := states[|states| - 1];
      if !keepCaptures {
        RestoreCaptures(rs.capture);
      }
      pc, cptr := rs.pc, rs.cptr;
      RestoreStack(rs.stack);
      states := states[..|states| - 1];
    }

    /** Steps a saved greedy quantifier one iteration back. */
    method PopGreedy()
      requires Valid() && states != [] && states[|states| - 1].kind.GreedyKind?
      requires !Step(e, P, Fail(AbsFrames(states))).Stuck?
      modifies this, capture, stack
      ensures Valid() && old(Step(e, P, Fail(AbsFrames(states)))) == Abs()
    {
      hide AbsFrames, AbsStack, StepBack;
      var top := |states| - 1;
      var rs := states[top];
      TopFrame();
      RestoreCaptures(rs.capture);
      RestoreStack(rs.stack);
      var i := P.fetch(rs.pc - 1).instr;
      cptr := ExecStepBack(e.text, rs.cptr, i.count);
      pc := rs.pc + 16 + i.next;
      var rest := states[..top];
      if rs.count == 1 {
        states := rest;
      } else {
        var rs' := rs.(cptr := cptr, count := rs.count - 1);
        AbsSave(rest, rs');
        states := rest + [rs'];
      }
    }

    lemma TopFrame()
      requires states != []
      ensures AbsFrames(states) == Cons(AbsFrame(states[|states| - 1]), AbsFrames(states[..|states| - 1]))
    {
    }

    /** The loop after a failure (`ret` false) or a match: drops saved states until one resumes the
        machine or none is left. `n` bounds the steps that are still to come. */
    method Unwind(ret0: bool, ghost n0: nat, ghost result: Result) returns (halted: bool, ret: bool, ghost n: nat)
      requires Valid() && Steps(e, P, Unwinding(ret0), n0) == Halt(result)
      modifies this, capture, stack
      ensures Valid()
      ensures halted ==> result == if ret then Matched(capture[..]) else NoMatch
      ensures !halted ==> n < n0 && Steps(e, P, Abs(), n) == Halt(result)
    {
      hide AbsFrames, AbsStack, StepBack;
      ret, n := ret0, n0;
      while states != []
        invariant Valid() && n <= n0 && Steps(e, P, Unwinding(ret), n) == Halt(result)
        decreases |states|
      {
        TopFrame();
        StepHalts(e, P, Unwinding(ret), n, result);
        n := n - 1;
        var kind := states[|states| - 1].kind;
        if !ret && (kind.SplitKind? || kind.NegativeLookaheadKind?) {
          PopState(false);
          return false, ret, n;
        }
        if !ret && kind.GreedyKind? {
          PopGreedy();
          return false, ret, n;
        }
        if ret && kind.LookaheadKind? {
          PopState(true);
          return false, ret, n;
        }
        if kind.NegativeLookaheadKind? {
          ret := false;
        }
        states := states[..|states| - 1];
      }
      StepHalts(e, P, Unwinding(ret), n, result);
      assert AbsFrames(states) == Nil by { NoFrames(states); }
      HaltStays(e, P, Step(e, P, Unwinding(ret)).result, n - 1);
      halted := true;
    }

    /** lre_exec_backtrack: runs until the machine halts. Given that it halts within `n` steps, this
        loop ends and gives that result. */
    method RunToEnd(ghost n0: nat, ghost result: Result) returns (ret: bool)
      requires Valid() && Steps(e, P, Abs(), n0) == Halt(result)
      modifies this, capture, stack
      ensures result == if ret then Matched(capture[..]) else NoMatch
    {
      hide AbsFrames, AbsStack, Step;
      ghost var n := n0;
      while true
        invariant Valid() && Steps(e, P, Abs(), n) == Halt(result)
        decreases n
      {
        StepHalts(e, P, Abs(), n, result);
        var o := ExecInstr();
        n := n - 1;
        if o != Next {
          var halted, r, m := Unwind(o == MatchHere, n, result);
          if halted {
            return r;
          }
          n := m;
        }
      }
    }
  }

  lemma NoFrames(states: seq<SavedState>)
    ensures AbsFrames([]) == Nil
  {
  }

  /** A state that will halt but has not yet has a step to make, and is not about to get stuck. */
  lemma StepHalts(e: Env, P: Program, s: Vm, n: nat, result: Result)
    requires Steps(e, P, s, n) == Halt(result) && !s.Halt?
    ensures n > 0 && Steps(e, P, Step(e, P, s), n - 1) == Halt(result) && !Step(e, P, s).Stuck?
  {
    hide Step;
    if n > 0 && Step(e, P, s).Stuck? {
      StuckStays(e, P, n - 1);
    }
  }

  /** lre_exec on a compiled pattern. It returns, for every input and every start at a code point
      boundary; it returns true exactly if the ECMA-262 style matcher succeeds, and then leaves the
      captures of that matcher in `capture`. */
  method Exec(
    buf: seq<Byte>, e: Env, start: nat, ghost r: Re, ghost sticky: bool, ghost flags: nat, ghost tail: seq<Byte>)
    returns (ret: bool, capture: seq<Slot>)
    requires WellFormed(r) && SmallClasses(r) && Groups(r) < 255 && Peak(Compile(e.canon, r, sticky)) <= 255
    requires Length(Compile(e.canon, r, sticky)) <= CODE_LIMIT
    requires buf == Buffer(e.canon, r, sticky, flags, tail)
    requires Boundary(e.text, start)
    ensures var x := Start(start, 1 + Groups(r));
            ValidSt(e, x) &&
            ResultOf(FindMatch(e, r, sticky, x)) == if ret then Matched(capture) else NoMatch
  {
    hide Compile, Peak, Length, FindMatch, Steps, ValidSt, Buffer, Groups, WellFormed, SmallClasses;
    ExecCorrect(e, r, sticky, flags, tail, start);
    BufferParts(e.canon, r, sticky, flags, tail);
    var P := LoadProgram(buf);
    var s := new ExecContext(e, P, start);
    ghost var result := ResultOf(FindMatch(e, r, sticky, Start(start, 1 + Groups(r))));
    ghost var n: nat :| Steps(e, P, s.Abs(), n) == Halt(result);
    ret := s.RunToEnd(n, result);
    capture := s.capture[..];
  }
}
