/** The code that the pattern compiler emits, and its static analyses of emitted code. */
module RegexCompile {
  import opened CharInput
  import opened RegexSyntax
  import opened RegexOpcode
  import opened RegexRange

  // ----- static analyses -----

  /** Reads one character and moves forward over it. */
  predicate CharOp(i: Instr)
  {
    i.Char16? || i.Char32? || i.Dot? || i.Any? || i.Range16? || i.Range32?
  }

  predicate AssertionOp(i: Instr)
  {
    i.LineStart? || i.LineEnd? || i.WordBoundary?
  }

  /** Cannot branch, and says enough about how it moves. */
  predicate LinearOp(i: Instr)
  {
    CharOp(i) || AssertionOp(i) || i.PushI32? || i.PushCharPos? || i.Drop? || i.Prev? ||
    i.Save? || i.SaveReset? || i.BackRef?
  }

  predicate Linear(block: seq<Instr>) { forall k :: 0 <= k < |block| ==> LinearOp(block[k]) }

  predicate HasChar(block: seq<Instr>) { exists k :: 0 <= k < |block| && CharOp(block[k]) }

  /** re_need_check_advance: could `block` succeed without moving? */
  predicate NeedCheckAdvance(block: seq<Instr>)
  {
    !(Linear(block) && HasChar(block))
  }

  predicate Simple(block: seq<Instr>)
  {
    forall k :: 0 <= k < |block| ==> CharOp(block[k]) || AssertionOp(block[k])
  }

  function CharCount(block: seq<Instr>): nat
  {
    if block == [] then 0 else Bit(CharOp(block[0])) + CharCount(block[1..])
  }

  /** re_is_simple_quantifier: the number of characters that `block` reads, or -1. */
  function SimpleCount(block: seq<Instr>): int
  {
    if Simple(block) then CharCount(block) else -1
  }

  /** The change of the value stack. */
  function Delta(i: Instr): int
  {
    if i.PushI32? || i.PushCharPos? then 1 else if i.Drop? || i.CheckAdvance? then -1 else 0
  }

  function Net(block: seq<Instr>): int
  {
    if block == [] then 0 else Delta(block[0]) + Net(block[1..])
  }

  /** compute_stack_size: the highest stack depth that a linear scan of `block` sees. */
  function Peak(block: seq<Instr>): nat
  {
    if block == [] then 0 else Max(0, Delta(block[0]) + Peak(block[1..]))
  }

  /** The lowest stack depth that the scan sees, relative to its start. */
  function Low(block: seq<Instr>): int
  {
    if block == [] then 0 else Min(0, Delta(block[0]) + Low(block[1..]))
  }

  /** `block` leaves the stack as it found it and never goes below it. */
  predicate Balanced(block: seq<Instr>) { Net(block) == 0 && Low(block) == 0 }

  function Min(a: int, b: int): int { if a < b then a else b }

  function Max(a: int, b: int): int { if a < b then b else a }

  lemma {:induction false} NetAppend(a: seq<Instr>, b: seq<Instr>)
    ensures Net(a + b) == Net(a) + Net(b)
  {
    if a == [] {
      assert a + b == b;
    } else {
      assert (a + b)[1..] == a[1..] + b;
      NetAppend(a[1..], b);
    }
  }

  lemma {:induction false} PeakAppend(a: seq<Instr>, b: seq<Instr>)
    ensures Peak(a + b) == Max(Peak(a), Net(a) + Peak(b))
  {
    if a == [] {
      assert a + b == b;
    } else {
      assert (a + b)[1..] == a[1..] + b;
      PeakAppend(a[1..], b);
    }
  }

  lemma {:induction false} LowAppend(a: seq<Instr>, b: seq<Instr>)
    ensures Low(a + b) == Min(Low(a), Net(a) + Low(b))
  {
    if a == [] {
      assert a + b == b;
      LowNegative(b);
    } else {
      assert (a + b)[1..] == a[1..] + b;
      LowAppend(a[1..], b);
    }
  }

  lemma LengthOne(i: Instr)
    ensures Length([i]) == Size(i)
  {
    assert [i][1..] == [];
  }

  lemma LowNegative(b: seq<Instr>)
    ensures Low(b) <= 0
  {
  }

  lemma {:induction false} CharCountAppend(a: seq<Instr>, b: seq<Instr>)
    ensures CharCount(a + b) == CharCount(a) + CharCount(b)
  {
    if a == [] {
      assert a + b == b;
    } else {
      assert (a + b)[1..] == a[1..] + b;
      CharCountAppend(a[1..], b);
    }
  }

  // ----- emission -----

  function CharInstr(c: CodePoint, icase: bool): Instr
  {
    if c <= 0xFFFF then Char16(c, icase) else Char32(c, icase)
  }

  /** A one-character atom; backwards, it is entered and left by a step back. */
  function Directed(i: Instr, bw: bool): seq<Instr>
  {
    if bw then [Prev, i, Prev] else [i]
  }

  /** The code of `r`; `cc` is the index of its first capture group and `bw` the direction. */
  function Code(canon: CodePoint -> CodePoint, r: Re, cc: nat, bw: bool): seq<Instr>
    requires WellFormed(r)
  {
    match r
    case Empty => []
    case Char(c, icase) => Directed(CharInstr(if icase then canon(c) else c, icase), bw)
    case AnyChar(dotall) => Directed(if dotall then Any else Dot, bw)
    case Class(points, icase) => Directed(RangeInstr(points, icase), bw)
    case ClassOrEmpty(points, icase) => OptionCode(Directed(RangeInstr(points, icase), bw), true)
    case LineStart(m) => [Instr.LineStart(m)]
    case LineEnd(m) => [Instr.LineEnd(m)]
    case WordBoundary(negated, icase) => [Instr.WordBoundary(negated, icase)]
    case BackRef(index, icase) => [Instr.BackRef(bw, icase, index)]
    case Seq(a, b) =>
      if bw then Code(canon, b, cc + Groups(a), bw) + Code(canon, a, cc, bw)
      else Code(canon, a, cc, bw) + Code(canon, b, cc + Groups(a), bw)
    case Alt(a, b) => AltCode(Code(canon, a, cc, bw), Code(canon, b, cc + Groups(a), bw))
    case Group(a) => [Save(bw, cc)] + Code(canon, a, cc + 1, bw) + [Save(!bw, cc)]
    case Look(a, negated, behind) =>
      var body := Code(canon, a, cc, behind);
      [Lookahead(negated, Length(body) + 1)] + body + [Match]
    case Quant(a, min, max, greedy) => QuantCode(Code(canon, a, cc, bw), min, max, greedy, cc, Groups(a))
  }

  function AltCode(a: seq<Instr>, b: seq<Instr>): seq<Instr>
  {
    [Split(true, Length(a) + 5)] + a + [Goto(Length(b))] + b
  }

  /** An iteration of a loop; the check rejects an iteration that has not moved. */
  function Guarded(a: seq<Instr>): seq<Instr>
  {
    if NeedCheckAdvance(a) then [PushCharPos] + a + [CheckAdvance] else a
  }

  /** At most one iteration. */
  function OptionCode(body: seq<Instr>, greedy: bool): seq<Instr>
  {
    [Split(greedy, Length(body))] + body
  }

  /** Any number of iterations. */
  function StarCode(body: seq<Instr>, greedy: bool): seq<Instr>
  {
    [Split(greedy, Length(body) + 5)] + body + [Goto(-(Length(body) + 10))]
  }

  /** At most `n` iterations, counted down on the stack. */
  function CountedCode(body: seq<Instr>, n: nat, greedy: bool): seq<Instr>
  {
    [PushI32(n)] + [Split(greedy, Length(body) + 5)] + body + [Loop(-(Length(body) + 10))] + [Drop]
  }

  /** Exactly `n` iterations. */
  function ExactCode(a: seq<Instr>, n: nat): seq<Instr>
  {
    [PushI32(n)] + a + [Loop(-(Length(a) + 5))] + [Drop]
  }

  /** At least one iteration of an atom that always moves. */
  function PlusCode(a: seq<Instr>, greedy: bool): seq<Instr>
  {
    a + [Split(!greedy, -(Length(a) + 5))]
  }

  function SimpleCode(a: seq<Instr>, min: nat, max: nat): seq<Instr>
    requires SimpleCount(a) > 0
  {
    [SimpleGreedyQuant(Length(a) + 1, min, max, SimpleCount(a))] + (a + [Match])
  }

  function OptionalCode(a: seq<Instr>, n: nat, greedy: bool): seq<Instr>
  {
    if n == INFINITY then StarCode(Guarded(a), greedy)
    else if n > 0 then CountedCode(Guarded(a), n, greedy)
    else []
  }

  /** The code of a quantified atom `a` with `groups` captures from index `cc` on. */
  function QuantCode(a: seq<Instr>, min: nat, max: nat, greedy: bool, cc: nat, groups: nat): seq<Instr>
    requires min <= max <= INFINITY
  {
    if greedy && max > 0 && SimpleCount(a) > 0 then SimpleCode(a, min, max)
    else if min == 0 then
      (if groups > 0 then [SaveReset(cc, cc + groups - 1)] else []) +
      (if max == 1 then OptionCode(Guarded(a), greedy) else OptionalCode(a, max, greedy))
    else if min == 1 && max == INFINITY && !NeedCheckAdvance(a) then PlusCode(a, greedy)
    else
      (if min == 1 then a else ExactCode(a, min)) +
      OptionalCode(a, if max == INFINITY then INFINITY else max - min, greedy)
  }
}
