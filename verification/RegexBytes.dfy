/** From patterns to bytes: everything the compiler emits fits its operands, so the interpreter runs
    the bytes as the instructions they stand for. */
module RegexBytes {
  import opened CharInput
  import opened RegexSyntax
  import opened RegexOpcode
  import opened RegexRange
  import opened RegexOutcomes
  import opened RegexCompile
  import opened RegexVm
  import opened RegexRuns
  import opened RegexBalance
  import opened RegexAdvance
  import opened RegexSimple
  import opened RegexCorrect
  import opened RegexQuant
  import opened RegexTheorem
  import opened RegexSpec

  const CODE_LIMIT: nat := 0x7FFF_FFFF

  lemma EncodableParts(a: seq<Instr>, b: seq<Instr>)
    requires AllEncodable(a) && AllEncodable(b)
    ensures AllEncodable(a + b)
  {
    hide Encodable;
  }

  lemma EncodableBracket(i: Instr, a: seq<Instr>, j: Instr)
    requires Encodable(i) && AllEncodable(a) && Encodable(j)
    ensures AllEncodable([i] + a + [j])
  {
    hide Encodable;
  }

  lemma {:induction false} CharCountSmall(a: seq<Instr>)
    ensures CharCount(a) <= Length(a)
  {
    hide CharOp, Size;
    if a != [] {
      CharCountSmall(a[1..]);
    }
  }

  lemma GuardedEncodable(a: seq<Instr>)
    requires AllEncodable(a)
    ensures AllEncodable(Guarded(a)) && Length(a) <= Length(Guarded(a))
  {
    hide NeedCheckAdvance, Length, Encodable;
    if NeedCheckAdvance(a) {
      assert Encodable(PushCharPos) && Encodable(CheckAdvance) by { PlainEncodable(); }
      EncodableBracket(PushCharPos, a, CheckAdvance);
      BracketLength(PushCharPos, a, CheckAdvance);
    }
  }

  lemma PlainEncodable()
    ensures Encodable(PushCharPos) && Encodable(CheckAdvance) && Encodable(Drop) && Encodable(Match)
    ensures Encodable(Prev) && Encodable(Any) && Encodable(Dot)
  {
  }

  lemma BracketLength(i: Instr, a: seq<Instr>, j: Instr)
    ensures Length([i] + a + [j]) == Size(i) + Length(a) + Size(j)
  {
    hide Length, Size;
    LengthAppend([i] + a, [j]);
    LengthAppend([i], a);
    One(i);
    One(j);
  }

  lemma LoopEncodable(a: seq<Instr>, n: nat, greedy: bool)
    requires AllEncodable(a) && n <= INFINITY && Length(a) + 5 <= CODE_LIMIT
    ensures AllEncodable(OptionCode(a, greedy)) && AllEncodable(PlusCode(a, greedy)) && AllEncodable(ExactCode(a, n))
    ensures Length(a) + 10 <= CODE_LIMIT ==> AllEncodable(StarCode(a, greedy)) && AllEncodable(CountedCode(a, n, greedy))
  {
    hide Length;
  }

  lemma OptionalEncodable(a: seq<Instr>, n: nat, greedy: bool)
    requires AllEncodable(a) && Balanced(a) && n <= INFINITY && Length(OptionalCode(a, n, greedy)) <= CODE_LIMIT
    ensures AllEncodable(OptionalCode(a, n, greedy))
  {
    hide Length, Encodable, StarCode, CountedCode, Guarded, Net, Low, Peak;
    if n > 0 {
      GuardedEncodable(a);
      GuardedUses(a);
      LoopUses(Guarded(a), n, greedy);
      LoopEncodable(Guarded(a), n, greedy);
    }
  }

  lemma QuantEncodable(a: seq<Instr>, min: nat, max: nat, greedy: bool, cc: nat, groups: nat)
    requires max > 0 ==> AllEncodable(a)
    requires Balanced(a) && min <= max <= INFINITY && cc + groups <= 256
    requires Length(QuantCode(a, min, max, greedy, cc, groups)) <= CODE_LIMIT
    ensures AllEncodable(QuantCode(a, min, max, greedy, cc, groups))
  {
    hide Length, Encodable, OptionCode, OptionalCode, PlusCode, ExactCode, SimpleCode, Guarded, NeedCheckAdvance, Net, Low, Peak, SimpleCount;
    if greedy && max > 0 && SimpleCount(a) > 0 {
      SimpleUses(a, min, max);
      SimpleEncodable(a, min, max);
    } else if min == 0 {
      var reset := if groups > 0 then [SaveReset(cc, cc + groups - 1)] else [];
      var B := if max == 1 then OptionCode(Guarded(a), greedy) else OptionalCode(a, max, greedy);
      LengthAppend(reset, B);
      assert AllEncodable(reset) by { ResetEncodable(cc, groups); }
      if max == 1 {
        GuardedEncodable(a);
        GuardedUses(a);
        LoopUses(Guarded(a), 0, greedy);
        LoopEncodable(Guarded(a), 0, greedy);
      } else if max > 0 {
        OptionalEncodable(a, max, greedy);
      } else {
        NoOption(a, greedy);
      }
      EncodableParts(reset, B);
    } else if min == 1 && max == INFINITY && !NeedCheckAdvance(a) {
      RequiredUses(a, min, greedy);
      LoopEncodable(a, 0, greedy);
    } else {
      var n := if max == INFINITY then INFINITY else max - min;
      var A, B := if min == 1 then a else ExactCode(a, min), OptionalCode(a, n, greedy);
      LengthAppend(A, B);
      RequiredUses(a, min, greedy);
      if min > 1 {
        LoopEncodable(a, min, greedy);
      }
      OptionalEncodable(a, n, greedy);
      EncodableParts(A, B);
    }
  }

  lemma ResetEncodable(cc: nat, groups: nat)
    requires cc + groups <= 256
    ensures AllEncodable(if groups > 0 then [SaveReset(cc, cc + groups - 1)] else [])
  {
  }

  lemma SimpleEncodable(a: seq<Instr>, min: nat, max: nat)
    requires AllEncodable(a) && SimpleCount(a) > 0 && min <= max <= INFINITY && Length(a) < CODE_LIMIT
    ensures AllEncodable(SimpleCode(a, min, max))
  {
    hide Length, CharCount;
    CharCountSmall(a);
  }

  lemma LeafEncodable(canon: CodePoint -> CodePoint, r: Re, cc: nat, bw: bool)
    requires WellFormed(r) && SmallClasses(r) && Leaf(r) && Length(Code(canon, r, cc, bw)) <= CODE_LIMIT
    ensures AllEncodable(Code(canon, r, cc, bw))
  {
  }

  /** Every operand fits, as long as the code is not longer than a jump can span. */
  lemma {:induction false} CodeEncodable(canon: CodePoint -> CodePoint, r: Re, cc: nat, bw: bool)
    requires WellFormed(r) && SmallClasses(r) && cc + Groups(r) <= 255 && Length(Code(canon, r, cc, bw)) <= CODE_LIMIT
    ensures AllEncodable(Code(canon, r, cc, bw))
  {
    hide Code, Length, Encodable, Net, Low, Peak, AltCode, QuantCode;
    match r {
      case Seq(a, b) =>
        CodeSeq(canon, a, b, cc, bw);
        var A, B := Code(canon, a, cc, bw), Code(canon, b, cc + Groups(a), bw);
        LengthAppend(A, B);
        LengthAppend(B, A);
        CodeEncodable(canon, a, cc, bw);
        CodeEncodable(canon, b, cc + Groups(a), bw);
        EncodableParts(A, B);
        EncodableParts(B, A);
      case Alt(a, b) =>
        CodeAlt(canon, a, b, cc, bw);
        var A, B := Code(canon, a, cc, bw), Code(canon, b, cc + Groups(a), bw);
        CodeNeutral(canon, a, cc, bw);
        CodeNeutral(canon, b, cc + Groups(a), bw);
        AltUses(A, B);
        CodeEncodable(canon, a, cc, bw);
        CodeEncodable(canon, b, cc + Groups(a), bw);
        AltEncodable(A, B);
      case Group(a) =>
        CodeGroup(canon, a, cc, bw);
        BracketLength(Save(bw, cc), Code(canon, a, cc + 1, bw), Save(!bw, cc));
        CodeEncodable(canon, a, cc + 1, bw);
        SaveEncodable(cc);
        EncodableBracket(Save(bw, cc), Code(canon, a, cc + 1, bw), Save(!bw, cc));
      case Look(a, negated, behind) =>
        CodeLook(canon, a, negated, behind, cc, bw);
        var body := Code(canon, a, cc, behind);
        BracketLength(Lookahead(negated, Length(body) + 1), body, Match);
        CodeEncodable(canon, a, cc, behind);
        LookEncodable(negated, Length(body) + 1);
        EncodableBracket(Lookahead(negated, Length(body) + 1), body, Match);
      case Quant(a, min, max, greedy) =>
        CodeQuant(canon, a, min, max, greedy, cc, bw);
        CodeNeutral(canon, a, cc, bw);
        if max > 0 {
          QuantLonger(Code(canon, a, cc, bw), min, max, greedy, cc, Groups(a));
          CodeEncodable(canon, a, cc, bw);
        }
        QuantEncodable(Code(canon, a, cc, bw), min, max, greedy, cc, Groups(a));
      case _ =>
        LeafEncodable(canon, r, cc, bw);
    }
  }

  lemma AltEncodable(a: seq<Instr>, b: seq<Instr>)
    requires AllEncodable(a) && AllEncodable(b) && Length(AltCode(a, b)) <= CODE_LIMIT
    requires Length(AltCode(a, b)) == Length(a) + Length(b) + 10
    ensures AllEncodable(AltCode(a, b))
  {
    hide Length;
  }

  lemma SaveEncodable(cc: nat)
    requires cc <= 255
    ensures Encodable(Save(true, cc)) && Encodable(Save(false, cc))
  {
  }

  lemma LookEncodable(negated: bool, n: nat)
    requires n <= CODE_LIMIT
    ensures Encodable(Lookahead(negated, n)) && Encodable(Match)
  {
  }

  /** A quantifier's code contains its atom's. */
  lemma QuantLonger(a: seq<Instr>, min: nat, max: nat, greedy: bool, cc: nat, groups: nat)
    requires Balanced(a) && min <= max <= INFINITY && max > 0
    ensures Length(a) <= Length(QuantCode(a, min, max, greedy, cc, groups))
  {
    hide Length, OptionCode, OptionalCode, PlusCode, ExactCode, SimpleCode, Guarded, NeedCheckAdvance, Net, Low, Peak, SimpleCount;
    if greedy && max > 0 && SimpleCount(a) > 0 {
      SimpleUses(a, min, max);
    } else if min == 0 {
      var reset := if groups > 0 then [SaveReset(cc, cc + groups - 1)] else [];
      LengthAppend(reset, if max == 1 then OptionCode(Guarded(a), greedy) else OptionalCode(a, max, greedy));
      GuardedLonger(a);
      GuardedUses(a);
      LoopUses(Guarded(a), max, greedy);
      OptionalLength(a, max, greedy);
    } else {
      RequiredUses(a, min, greedy);
      LengthAppend(if min == 1 then a else ExactCode(a, min), OptionalCode(a, if max == INFINITY then INFINITY else max - min, greedy));
    }
  }

  lemma GuardedLonger(a: seq<Instr>)
    ensures Length(a) <= Length(Guarded(a))
  {
    hide NeedCheckAdvance, Length;
    BracketLength(PushCharPos, a, CheckAdvance);
  }

  lemma OptionalLength(a: seq<Instr>, n: nat, greedy: bool)
    requires Balanced(a) && n > 0
    ensures Length(OptionalCode(a, n, greedy)) >= Length(Guarded(a))
  {
    hide Length, StarCode, CountedCode, Guarded, Net, Low, Peak;
    GuardedUses(a);
    LoopUses(Guarded(a), n, greedy);
  }

  // ----- compiled buffers -----

  /** The buffer that lre_compile returns: flags, capture count, stack size, code length, code, and
      whatever follows (the group names). */
  function Buffer(canon: CodePoint -> CodePoint, r: Re, sticky: bool, flags: nat, tail: seq<Byte>): seq<Byte>
    requires WellFormed(r) && Groups(r) < 255 && Peak(Compile(canon, r, sticky)) <= 255
  {
    var block := Compile(canon, r, sticky);
    PutU16(flags) + [1 + Groups(r), Peak(block)] + PutU32(Length(block)) + Assemble(block) + tail
  }

  const HEADER_LEN: nat := 8

  /** What lre_exec reads from a buffer. */
  function LoadProgram(buf: seq<Byte>): (P: Program)
    requires |buf| >= HEADER_LEN
  {
    Program(Load(buf[HEADER_LEN..]), |buf| - HEADER_LEN, buf[2], buf[3])
  }

  lemma LoadIsValid(buf: seq<Byte>)
    requires |buf| >= HEADER_LEN
    ensures ValidProgram(LoadProgram(buf))
  {
  }

  lemma BufferParts(canon: CodePoint -> CodePoint, r: Re, sticky: bool, flags: nat, tail: seq<Byte>)
    requires WellFormed(r) && Groups(r) < 255 && Peak(Compile(canon, r, sticky)) <= 255
    ensures var buf := Buffer(canon, r, sticky, flags, tail);
            |buf| >= HEADER_LEN && buf[HEADER_LEN..] == Assemble(Compile(canon, r, sticky)) + tail &&
            buf[2] == 1 + Groups(r) && buf[3] == Peak(Compile(canon, r, sticky))
  {
    hide Compile, Peak, Assemble, Length, PutU16, PutU32;
    var block := Compile(canon, r, sticky);
    var a, b, c := PutU16(flags), [1 + Groups(r), Peak(block)], PutU32(Length(block));
    var buf := Buffer(canon, r, sticky, flags, tail);
    assert buf == (a + b + c) + (Assemble(block) + tail);
    assert |a + b + c| == HEADER_LEN;
    assert buf[2] == b[0] && buf[3] == b[1];
  }

  lemma CompileEncodable(canon: CodePoint -> CodePoint, r: Re, sticky: bool)
    requires WellFormed(r) && SmallClasses(r) && Groups(r) < 255 && Length(Compile(canon, r, sticky)) <= CODE_LIMIT
    ensures AllEncodable(Compile(canon, r, sticky))
  {
    hide Code, Length, Encodable;
    var block := Code(canon, Group(r), 0, false);
    LengthAppend(Prefix(sticky) + block, [Match]);
    LengthAppend(Prefix(sticky), block);
    CodeEncodable(canon, Group(r), 0, false);
    PlainEncodable();
    PrefixEncodable(sticky);
    EncodableParts(Prefix(sticky), block);
    EncodableParts(Prefix(sticky) + block, [Match]);
  }

  lemma PrefixEncodable(sticky: bool)
    ensures AllEncodable(Prefix(sticky))
  {
  }

  /** The compiled bytes match what the pattern means. For every pattern that the compiler accepts
      (at most 255 captures, stack size at most 255, code no longer than a jump can span), every input
      and every start at a code point boundary, the interpreter run on the compiled buffer halts, and
      with the captures that the ECMA-262 style matcher finds, or without a match if it finds none. */
  lemma ExecCorrect(
    e: Env, r: Re, sticky: bool, flags: nat, tail: seq<Byte>, start: nat)
    requires WellFormed(r) && SmallClasses(r) && Groups(r) < 255 && Peak(Compile(e.canon, r, sticky)) <= 255
    requires Length(Compile(e.canon, r, sticky)) <= CODE_LIMIT
    requires Boundary(e.text, start)
    ensures var buf := Buffer(e.canon, r, sticky, flags, tail);
            |buf| >= HEADER_LEN &&
            var x := Start(start, 1 + Groups(r));
            ValidSt(e, x) &&
            Reaches(e, LoadProgram(buf), Run(0, x, Bottom, Nil), Halt(ResultOf(FindMatch(e, r, sticky, x))))
  {
    hide Compile, Peak, Assemble, Length, Reaches, Expected, FindMatch, ValidSt, CodeAt, AllEncodable, ValidProgram, Decodes, Buffer;
    var buf := Buffer(e.canon, r, sticky, flags, tail);
    var block := Compile(e.canon, r, sticky);
    BufferParts(e.canon, r, sticky, flags, tail);
    var code := buf[HEADER_LEN..];
    var P := LoadProgram(buf);
    LoadIsValid(buf);
    LoadDecodes(code);
    CompileEncodable(e.canon, r, sticky);
    assert code[0..0 + |Assemble(block)|] == Assemble(block);
    AssembledCodeAt(P.fetch, code, 0, block);
    MatchCorrect(e, P, r, sticky, start);
    FindAgrees(e, r, sticky, Start(start, 1 + Groups(r)));
  }
}
