/** The pattern compiler as it works: code is appended, inserted before an atom, rotated, copied and
    patched in one growing buffer. */
module RegexEmitter {
  import opened CharInput
  import opened RegexSyntax
  import opened RegexOpcode
  import opened RegexRange
  import opened RegexCompile
  import opened RegexAdvance
  import opened RegexBalance
  import opened RegexTheorem
  import opened RegexBytes
  import opened RegexScan

  // ----- range counts of emitted code -----

  lemma CountsParts(a: seq<Instr>, b: seq<Instr>)
    requires CountsFit(a) && CountsFit(b)
    ensures CountsFit(a + b)
  {
    hide CountFits;
  }

  lemma QuantCounts(a: seq<Instr>, min: nat, max: nat, greedy: bool, cc: nat, groups: nat)
    requires CountsFit(a) && min <= max <= INFINITY
    ensures CountsFit(QuantCode(a, min, max, greedy, cc, groups))
  {
    hide Length, SimpleCount, NeedCheckAdvance, OptionCode, OptionalCode, PlusCode, ExactCode, Guarded;
    LoopCounts(a, min, greedy);
    OptionalCounts(a, max, greedy);
    OptionalCounts(a, if max == INFINITY then INFINITY else max - min, greedy);
  }

  lemma LoopCounts(a: seq<Instr>, n: nat, greedy: bool)
    requires CountsFit(a)
    ensures CountsFit(Guarded(a)) && CountsFit(OptionCode(Guarded(a), greedy)) && CountsFit(PlusCode(a, greedy))
    ensures CountsFit(ExactCode(a, n))
  {
    hide Length, NeedCheckAdvance;
  }

  lemma OptionalCounts(a: seq<Instr>, n: nat, greedy: bool)
    requires CountsFit(a)
    ensures CountsFit(OptionalCode(a, n, greedy))
  {
    hide Length, NeedCheckAdvance;
    var g := Guarded(a);
    assert CountsFit(g);
    assert CountsFit(StarCode(g, greedy)) && CountsFit(CountedCode(g, n, greedy));
  }

  lemma {:induction false} CodeCounts(canon: CodePoint -> CodePoint, r: Re, cc: nat, bw: bool)
    requires WellFormed(r) && SmallClasses(r)
    ensures CountsFit(Code(canon, r, cc, bw))
  {
    hide Code, Length, QuantCode;
    match r {
      case Seq(a, b) =>
        CodeSeq(canon, a, b, cc, bw);
        CodeCounts(canon, a, cc, bw);
        CodeCounts(canon, b, cc + Groups(a), bw);
      case Alt(a, b) =>
        CodeAlt(canon, a, b, cc, bw);
        CodeCounts(canon, a, cc, bw);
        CodeCounts(canon, b, cc + Groups(a), bw);
      case Group(a) =>
        CodeGroup(canon, a, cc, bw);
        CodeCounts(canon, a, cc + 1, bw);
      case Look(a, negated, behind) =>
        CodeLook(canon, a, negated, behind, cc, bw);
        CodeCounts(canon, a, cc, behind);
      case Quant(a, min, max, greedy) =>
        CodeQuant(canon, a, min, max, greedy, cc, bw);
        CodeCounts(canon, a, cc, bw);
        QuantCounts(Code(canon, a, cc, bw), min, max, greedy, cc, Groups(a));
      case _ =>
        LeafCounts(canon, r, cc, bw);
    }
  }

  lemma LeafCounts(canon: CodePoint -> CodePoint, r: Re, cc: nat, bw: bool)
    requires WellFormed(r) && SmallClasses(r) && Leaf(r)
    ensures CountsFit(Code(canon, r, cc, bw))
  {
  }

  // ----- blocks as bytes -----

  lemma AssembleOne(i: Instr)
    ensures Assemble([i]) == Encode(i)
  {
    hide Encode, Size;
    assert [i][1..] == [];
  }

  lemma AssembleBracket(i: Instr, a: seq<Instr>, j: Instr)
    ensures Assemble([i] + a + [j]) == Encode(i) + Assemble(a) + Encode(j)
  {
    hide Encode, Assemble;
    AssembleAppend([i] + a, [j]);
    AssembleAppend([i], a);
    AssembleOne(i);
    AssembleOne(j);
  }

  class Emitter {
    const canon: CodePoint -> CodePoint
    var code: seq<Byte>
    var captureCount: nat

    constructor (canon: CodePoint -> CodePoint)
      ensures this.canon == canon && code == [] && captureCount == 1
    {
      this.canon := canon;
      code := [];
      captureCount := 1;
    }

    // ----- the buffer -----

    method Append(bytes: seq<Byte>)
      modifies this`code
      ensures code == old(code) + bytes
    {
      code := code + bytes;
    }

    /** An opcode with its operands. */
    method EmitInstr(i: Instr)
      modifies this`code
      ensures code == old(code) + Encode(i)
    {
      hide Opcode, Operands;
      Append([Opcode(i)]);
      Append(Operands(i));
      assert code == old(code) + Encode(i);
    }

    /** Stores over bytes that are already there. */
    method Store(pos: nat, bytes: seq<Byte>)
      requires pos + |bytes| <= |code|
      modifies this`code
      ensures code == old(code)[..pos] + bytes + old(code)[pos + |bytes|..]
    {
      code := code[..pos] + bytes + code[pos + |bytes|..];
    }

    /** dbuf_insert: moves what is at `pos` up by `len` bytes, whatever is then in the gap. */
    method Insert(pos: nat, len: nat)
      requires pos <= |code|
      modifies this`code
      ensures |code| == |old(code)| + len && code[..pos] == old(code)[..pos] && code[pos + len..] == old(code)[pos..]
    {
      var gap: seq<Byte> := seq(len, _ => 0);
      code := code[..pos] + gap + code[pos..];
    }

    /** Makes room for a block in front of what is at `pos` and stores the block there. */
    method InsertBlock(pos: nat, block: seq<Instr>)
      requires pos <= |code|
      modifies this`code
      ensures code == old(code)[..pos] + Assemble(block) + old(code)[pos..]
    {
      var bytes := Assemble(block);
      Insert(pos, |bytes|);
      Store(pos, bytes);
    }

    /** dbuf_put_self: appends a copy of an earlier part. */
    method PutSelf(offset: nat, len: nat)
      requires offset + len <= |code|
      modifies this`code
      ensures code == old(code) + old(code)[offset..offset + len]
    {
      code := code + code[offset..offset + len];
    }

    /** Moves the term that was emitted last in front of the terms emitted since `start`. */
    method Rotate(start: nat, termStart: nat)
      requires start <= termStart <= |code|
      modifies this`code
      ensures code == old(code)[..start] + old(code)[termStart..] + old(code)[start..termStart]
    {
      code := code[..start] + code[termStart..] + code[start..termStart];
    }

    // ----- classes -----

    method EmitPairs16(points: seq<nat>)
      requires ValidPoints(points)
      modifies this`code
      ensures code == old(code) + PutPairs16(Pairs16(points))
    {
      hide PutPairs16, PutU16;
      NoPairs();
      var i := 0;
      while i < |points| / 2
        invariant 0 <= i <= |points| / 2
        invariant code == old(code) + PutPairs16(Pairs16(points)[..i])
      {
        PairsSnoc(Pairs16(points), i);
        assert points[2 * i] < points[2 * i + 1];
        Append(PutU16(points[2 * i]));
        Append(PutU16(if points[2 * i + 1] == UINT32_MAX then 0xFFFF else points[2 * i + 1] - 1));
        i := i + 1;
      }
      assert Pairs16(points)[..i] == Pairs16(points);
    }

    method EmitPairs32(points: seq<nat>)
      requires ValidPoints(points)
      modifies this`code
      ensures code == old(code) + PutPairs32(Pairs32(points))
    {
      hide PutPairs32, PutU32;
      NoPairs();
      var i := 0;
      while i < |points| / 2
        invariant 0 <= i <= |points| / 2
        invariant code == old(code) + PutPairs32(Pairs32(points)[..i])
      {
        PairsSnoc(Pairs32(points), i);
        assert points[2 * i] < points[2 * i + 1];
        Append(PutU32(points[2 * i]));
        Append(PutU32(points[2 * i + 1] - 1));
        i := i + 1;
      }
      assert Pairs32(points)[..i] == Pairs32(points);
    }

    /** re_emit_range. */
    method EmitRange(points: seq<nat>, icase: bool) returns (ok: bool)
      requires ValidPoints(points)
      modifies this`code
      ensures ok <==> |points| / 2 < 65535
      ensures ok ==> code == old(code) + Encode(RangeInstr(points, icase))
    {
      hide RangeInstr, Encode, Pairs16, Pairs32, PutPairs16, PutPairs32, Narrow, PutU16, ValidPoints;
      var len := |points| / 2;
      if len >= 65535 {
        return false;
      }
      if points == [] {
        EmptyRange(icase);
        EmitInstr(Char32(UINT32_MAX, false));
        return true;
      }
      RangeEncoding(points, icase);
      if Narrow(points) {
        Append([29 + Bit(icase)]);
        Append(PutU16(len));
        EmitPairs16(points);
        Joined(old(code), [29 + Bit(icase)], PutU16(len), PutPairs16(Pairs16(points)));
      } else {
        Append([31 + Bit(icase)]);
        Append(PutU16(len));
        EmitPairs32(points);
        Joined(old(code), [31 + Bit(icase)], PutU16(len), PutPairs32(Pairs32(points)));
      }
      ok := true;
    }

    // ----- quantifiers -----

    /** re_emit_goto: a jump whose operand is computed from the absolute target. */
    method EmitJump(i: Instr, target: nat)
      requires i == Goto(target - (|code| + 5)) || i == Loop(target - (|code| + 5)) ||
               (i.Split? && i.offset == target - (|code| + 5))
      modifies this`code
      ensures code == old(code) + Encode(i)
    {
      EmitInstr(i);
    }

    /** Inserts a block in front of the atom, and puts the advance check around the atom if it is needed. */
    method Wrap(start: nat, block: seq<Instr>, check: bool, ghost A: seq<Instr>)
      requires start <= |code| && code[start..] == Assemble(A) && check == NeedCheckAdvance(A)
      modifies this`code
      ensures code == old(code)[..start] + (Assemble(block) + Assemble(Guarded(A)))
    {
      hide Assemble, Encode, NeedCheckAdvance, Length, Guarded, Size;
      ghost var pre, x, y, z := code[..start], Assemble(block), Encode(PushCharPos), Encode(CheckAdvance);
      GuardedBytes(A);
      AssembleAppend(block, [PushCharPos]);
      AssembleOne(PushCharPos);
      InsertBlock(start, if check then block + [PushCharPos] else block);
      if check {
        EmitInstr(CheckAdvance);
        WrapJoined(pre, x, y, Assemble(A), z);
      } else {
        Joined(pre, x, Assemble(A), []);
      }
    }

    /** Zero or one iteration, or with `star` any number: a split in front of the atom, and the
        advance check and the jump back after it. */
    method WrapOption(start: nat, greedy: bool, check: bool, star: bool, ghost A: seq<Instr>)
      requires start <= |code| && code[start..] == Assemble(A) && check == NeedCheckAdvance(A)
      modifies this`code
      ensures code == old(code)[..start] +
                      Assemble(if star then StarCode(Guarded(A), greedy) else OptionCode(Guarded(A), greedy))
    {
      hide Assemble, Encode, NeedCheckAdvance, Length, Guarded, Size, StarCode, OptionCode;
      var len := |code| - start;
      var split := Split(greedy, len + (if star then 5 else 0) + (if check then 2 else 0));
      ghost var pre := code[..start];
      GuardedBytes(A);
      OptionBytes(Guarded(A), greedy);
      AssembleOne(split);
      Wrap(start, [split], check, A);
      if star {
        EmitJump(Goto(start - (|code| + 5)), start);
        Joined(pre, Assemble([split]) + Assemble(Guarded(A)), Encode(Goto(-(Length(Guarded(A)) + 10))), []);
      }
    }

    /** At most `max` iterations: also a counter. */
    method WrapCounted(start: nat, max: nat, greedy: bool, check: bool, ghost A: seq<Instr>)
      requires start <= |code| && code[start..] == Assemble(A) && check == NeedCheckAdvance(A)
      modifies this`code
      ensures code == old(code)[..start] + Assemble(CountedCode(Guarded(A), max, greedy))
    {
      hide Assemble, Encode, NeedCheckAdvance, Length, Guarded, Size, CountedCode;
      var len := |code| - start;
      var push, split := PushI32(max), Split(greedy, len + 5 + (if check then 2 else 0));
      ghost var pre, g := code[..start], Assemble(Guarded(A));
      GuardedBytes(A);
      CountedBytes(Guarded(A), max, greedy);
      HeadBytes(push, split);
      Wrap(start, [push] + [split], check, A);
      EmitJump(Loop(start + 5 - (|code| + 5)), start + 5);
      EmitInstr(Drop);
      Joined(pre, Encode(push) + Encode(split) + g, Encode(Loop(-(Length(Guarded(A)) + 10))), Encode(Drop));
    }

    /** Exactly `min` iterations. */
    method WrapExact(start: nat, min: nat, ghost A: seq<Instr>)
      requires start <= |code| && code[start..] == Assemble(A)
      modifies this`code
      ensures code == old(code)[..start] + Assemble(ExactCode(A, min))
      ensures |code| >= start + 5 + |Assemble(A)| && code[start + 5..start + 5 + |Assemble(A)|] == Assemble(A)
    {
      hide Assemble, Encode, Length, Size, ExactCode;
      ghost var pre := code[..start];
      InsertBlock(start, [PushI32(min)]);
      AssembleOne(PushI32(min));
      assert code == pre + Encode(PushI32(min)) + Assemble(A);
      ExactBytes(A, min);
      EmitJump(Loop(start + 5 - (|code| + 5)), start + 5);
      EmitInstr(Drop);
    }

    /** A copy of the atom at start..start+len, with the advance check if it is needed. */
    method CopyGuarded(start: nat, len: nat, check: bool, ghost A: seq<Instr>)
      requires start + len <= |code| && code[start..start + len] == Assemble(A) && check == NeedCheckAdvance(A)
      modifies this`code
      ensures code == old(code) + Assemble(Guarded(A))
    {
      hide Assemble, Encode, NeedCheckAdvance, Length, Guarded, Size;
      GuardedBytes(A);
      ghost var push, bytes := if check then Encode(PushCharPos) else [], Assemble(A);
      SliceStays(code, push, [], start, start + len);
      if check {
        EmitInstr(PushCharPos);
      }
      assert code == old(code) + push + [];
      PutSelf(start, len);
      assert code == old(code) + push + bytes;
      if check {
        EmitInstr(CheckAdvance);
        Joined(old(code), push, bytes, Encode(CheckAdvance));
      }
    }

    /** Any number of further iterations, as a loop around a copy of the atom at start..start+len. */
    method AppendStar(start: nat, len: nat, greedy: bool, check: bool, ghost A: seq<Instr>)
      requires start + len <= |code| && code[start..start + len] == Assemble(A) && check == NeedCheckAdvance(A)
      modifies this`code
      ensures code == old(code) + Assemble(StarCode(Guarded(A), greedy))
    {
      hide Assemble, Encode, NeedCheckAdvance, Length, Guarded, Size, StarCode;
      GuardedBytes(A);
      StarBytes(Guarded(A), greedy);
      var pos := |code|;
      EmitInstr(Split(greedy, len + 5 + (if check then 2 else 0)));
      CopyGuarded(start, len, check, A);
      EmitJump(Goto(pos - (|code| + 5)), pos);
    }

    /** Up to `n` further iterations. */
    method AppendCounted(start: nat, len: nat, n: nat, greedy: bool, check: bool, ghost A: seq<Instr>)
      requires start + len <= |code| && code[start..start + len] == Assemble(A) && check == NeedCheckAdvance(A)
      modifies this`code
      ensures code == old(code) + Assemble(CountedCode(Guarded(A), n, greedy))
    {
      hide Assemble, Encode, NeedCheckAdvance, Length, Guarded, Size, CountedCode;
      GuardedBytes(A);
      CountedBytes(Guarded(A), n, greedy);
      EmitInstr(PushI32(n));
      var pos := |code|;
      EmitInstr(Split(greedy, len + 5 + (if check then 2 else 0)));
      ghost var push, split := Encode(PushI32(n)), Encode(Split(greedy, len + 5 + (if check then 2 else 0)));
      SliceStays(old(code), push, split, start, start + len);
      CopyGuarded(start, len, check, A);
      ghost var loop := Loop(pos - (|code| + 5));
      EmitJump(Loop(pos - (|code| + 5)), pos);
      EmitInstr(Drop);
      FiveParts(old(code), push, split, Assemble(Guarded(A)), Encode(loop), Encode(Drop));
    }

    method AppendOptional(start: nat, len: nat, n: nat, greedy: bool, check: bool, ghost A: seq<Instr>)
      requires start + len <= |code| && code[start..start + len] == Assemble(A) && check == NeedCheckAdvance(A)
      modifies this`code
      ensures code == old(code) + Assemble(OptionalCode(A, n, greedy))
    {
      hide Assemble, NeedCheckAdvance, Guarded, CountedCode, StarCode;
      NoBytes();
      if n == INFINITY {
        AppendStar(start, len, greedy, check, A);
      } else if n > 0 {
        AppendCounted(start, len, n, greedy, check, A);
      }
    }

    /** The quantifier part of re_parse_term, for the atom that starts at `start`. */
    method EmitQuant(start: nat, min: nat, max: nat, greedy: bool, lastCaptureCount: nat, ghost A: seq<Instr>)
      requires start <= |code| && code[start..] == Assemble(A) && CountsFit(A)
      requires lastCaptureCount <= captureCount && min <= max <= INFINITY
      modifies this`code
      ensures code == old(code)[..start] +
                      Assemble(QuantCode(A, min, max, greedy, lastCaptureCount, captureCount - lastCaptureCount))
    {
      hide Assemble, NeedCheckAdvance, SimpleCount, OptionCode, StarCode, CountedCode, ExactCode, PlusCode, OptionalCode, Guarded, CountsFit, Length, SimpleCode;
      if greedy && max > 0 {
        var count := ScanSimpleCount(code, start, A);
        if count > 0 {
          EmitSimple(start, min, max, count, A);
          return;
        }
      }
      var check := ScanNeedCheckAdvance(code, start, A);
      if min == 0 {
        EmitZero(start, max, greedy, check, lastCaptureCount, A);
      } else if min == 1 && max == INFINITY && !check {
        EmitPlus(start, greedy, A);
      } else {
        EmitRequired(start, min, if max == INFINITY then INFINITY else max - min, greedy, check, A);
      }
    }

    /** One or more iterations of an atom that always moves: a split back to it. */
    method EmitPlus(start: nat, greedy: bool, ghost A: seq<Instr>)
      requires start <= |code| && code[start..] == Assemble(A)
      modifies this`code
      ensures code == old(code)[..start] + Assemble(PlusCode(A, greedy))
    {
      hide Assemble, Encode, PlusCode, Length, Size;
      PlusBytes(A, greedy);
      EmitJump(Split(!greedy, start - (|code| + 5)), start);
    }

    /** The quantifiers with required iterations, and `n` optional ones after them. */
    method EmitRequired(start: nat, min: nat, n: nat, greedy: bool, check: bool, ghost A: seq<Instr>)
      requires start <= |code| && code[start..] == Assemble(A) && check == NeedCheckAdvance(A)
      modifies this`code
      ensures code == old(code)[..start] +
                      Assemble((if min == 1 then A else ExactCode(A, min)) + OptionalCode(A, n, greedy))
    {
      hide Assemble, NeedCheckAdvance, ExactCode, OptionalCode, Length;
      var len := |code| - start;
      if min == 1 {
        AppendOptional(start, len, n, greedy, check, A);
        AssembleAppend(A, OptionalCode(A, n, greedy));
      } else {
        WrapExact(start, min, A);
        AppendOptional(start + 5, len, n, greedy, check, A);
        AssembleAppend(ExactCode(A, min), OptionalCode(A, n, greedy));
      }
    }

    method EmitSimple(start: nat, min: nat, max: nat, count: nat, ghost A: seq<Instr>)
      requires start <= |code| && code[start..] == Assemble(A) && count == SimpleCount(A) && count > 0
      modifies this`code
      ensures code == old(code)[..start] + Assemble(SimpleCode(A, min, max))
    {
      hide Assemble, SimpleCount, Length, Encode;
      ghost var pre := code[..start];
      EmitInstr(Match);
      var quant := SimpleGreedyQuant(|code| - start, min, max, count);
      AssembleAppend(A, [Match]);
      AssembleOne(Match);
      assert code == pre + Assemble(A + [Match]);
      assert |Encode(Match)| == 1 by { MatchBytes(); }
      InsertBlock(start, [quant]);
      AssembleAppend([quant], A + [Match]);
    }

    /** The quantifiers with no required iteration. */
    method EmitZero(start: nat, max: nat, greedy: bool, check: bool, lastCaptureCount: nat, ghost A: seq<Instr>)
      requires start <= |code| && code[start..] == Assemble(A) && check == NeedCheckAdvance(A)
      requires lastCaptureCount <= captureCount && max <= INFINITY
      modifies this`code
      ensures var groups := captureCount - lastCaptureCount;
              var reset := if groups > 0 then [SaveReset(lastCaptureCount, captureCount - 1)] else [];
              code == old(code)[..start] +
                      Assemble(reset + if max == 1 then OptionCode(Guarded(A), greedy) else OptionalCode(A, max, greedy))
    {
      hide Assemble, NeedCheckAdvance, OptionCode, StarCode, CountedCode, Guarded, Length, Encode;
      ghost var pre := code[..start];
      var atom := start;
      ghost var reset := if captureCount > lastCaptureCount then [SaveReset(lastCaptureCount, captureCount - 1)] else [];
      NoBytes();
      if lastCaptureCount != captureCount {
        InsertBlock(start, [SaveReset(lastCaptureCount, captureCount - 1)]);
        atom := atom + 3;
        ResetBytes(lastCaptureCount, captureCount - 1);
      }
      assert code[..atom] == pre + Assemble(reset) && code[atom..] == Assemble(A);
      if max == 0 {
        code := code[..atom];
        AssembleAppend(reset, []);
      } else if max == 1 || max == INFINITY {
        WrapOption(atom, greedy, check, max == INFINITY, A);
        AssembleAppend(reset, if max == INFINITY then StarCode(Guarded(A), greedy) else OptionCode(Guarded(A), greedy));
      } else {
        WrapCounted(atom, max, greedy, check, A);
        AssembleAppend(reset, CountedCode(Guarded(A), max, greedy));
      }
    }

    // ----- patterns -----

    method EmitDirected(i: Instr, bw: bool)
      modifies this`code
      ensures code == old(code) + Assemble(Directed(i, bw))
    {
      hide Encode, Assemble;
      DirectedBytes(i);
      if bw {
        EmitInstr(Prev);
      }
      EmitInstr(i);
      if bw {
        EmitInstr(Prev);
      }
    }

    method EmitClass(points: seq<nat>, icase: bool, bw: bool) returns (ok: bool)
      requires ValidPoints(points)
      modifies this`code
      ensures ok <==> |points| / 2 < 65535
      ensures ok ==> code == old(code) + Assemble(Directed(RangeInstr(points, icase), bw))
    {
      hide Encode, Assemble, RangeInstr;
      DirectedBytes(RangeInstr(points, icase));
      if bw {
        EmitInstr(Prev);
      }
      ok := EmitRange(points, icase);
      if bw {
        EmitInstr(Prev);
      }
    }

    /** The operand of the split is patched after the range. */
    method EmitClassOrEmpty(points: seq<nat>, icase: bool, bw: bool) returns (ok: bool)
      requires ValidPoints(points)
      modifies this`code
      ensures ok <==> |points| / 2 < 65535
      ensures ok ==> code == old(code) + Assemble(OptionCode(Directed(RangeInstr(points, icase), bw), true))
    {
      hide Assemble, Encode, RangeInstr, ValidPoints, PutI32, Directed;
      ghost var was, body := code, Directed(RangeInstr(points, icase), bw);
      SplitIs(0);
      var splitPos := |code| + 1;
      EmitInstr(Split(true, 0));
      ok := EmitClass(points, icase, bw);
      if !ok {
        return;
      }
      var n := |code| - (splitPos + 4);
      SplitIs(n);
      PutSize(0);
      PutSize(n);
      LookParts(was, 13, PutI32(0), Assemble(body), [], PutI32(n));
      assert code == was + ([13] + PutI32(0)) + Assemble(body) + [];
      Store(splitPos, PutI32(n));
      OptionIs(body, n);
    }

    /** Appends the code of `r`. Fails exactly if there are too many captures or a class has too
        many ranges. */
    method Emit(r: Re, bw: bool) returns (ok: bool)
      requires WellFormed(r) && captureCount <= CAPTURE_COUNT_MAX
      modifies this`code, this`captureCount
      ensures ok <==> SmallClasses(r) && old(captureCount) + Groups(r) <= CAPTURE_COUNT_MAX
      ensures ok ==> captureCount == old(captureCount) + Groups(r)
      ensures ok ==> code == old(code) + Assemble(Code(canon, r, old(captureCount), bw))
      ensures captureCount <= CAPTURE_COUNT_MAX
      decreases r, 1
    {
      hide Assemble, Code, RangeInstr;
      match r {
        case Seq(a, b) => ok := EmitSeq(a, b, bw);
        case Alt(a, b) => ok := EmitAlt(a, b, bw);
        case Group(a) => ok := EmitGroup(a, bw);
        case Look(a, negated, behind) => ok := EmitLook(a, negated, behind, bw);
        case Quant(a, min, max, greedy) => ok := EmitQuantified(a, min, max, greedy, bw);
        case _ => ok := EmitLeaf(r, bw);
      }
    }

    method EmitLeaf(r: Re, bw: bool) returns (ok: bool)
      requires WellFormed(r) && Leaf(r)
      modifies this`code
      ensures ok <==> SmallClasses(r)
      ensures ok ==> code == old(code) + Assemble(Code(canon, r, captureCount, bw))
    {
      hide Assemble, Encode, RangeInstr, Directed;
      ok := true;
      NoBytes();
      match r {
        case Empty =>
        case Char(c, icase) => EmitDirected(CharInstr(if icase then canon(c) else c, icase), bw);
        case AnyChar(dotall) => EmitDirected(if dotall then Any else Dot, bw);
        case Class(points, icase) => ok := EmitClass(points, icase, bw);
        case ClassOrEmpty(points, icase) => ok := EmitClassOrEmpty(points, icase, bw);
        case LineStart(m) => EmitSingle(Instr.LineStart(m));
        case LineEnd(m) => EmitSingle(Instr.LineEnd(m));
        case WordBoundary(negated, icase) => EmitSingle(Instr.WordBoundary(negated, icase));
        case BackRef(index, icase) => EmitSingle(Instr.BackRef(bw, icase, index));
      }
    }

    method EmitSingle(i: Instr)
      modifies this`code
      ensures code == old(code) + Assemble([i])
    {
      hide Encode, Assemble;
      AssembleOne(i);
      EmitInstr(i);
    }

    /** Terms one after the other; backwards, each term goes in front of the earlier ones. */
    method EmitSeq(a: Re, b: Re, bw: bool) returns (ok: bool)
      requires WellFormed(a) && WellFormed(b) && captureCount <= CAPTURE_COUNT_MAX
      modifies this`code, this`captureCount
      ensures ok <==> SmallClasses(a) && SmallClasses(b) && old(captureCount) + Groups(a) + Groups(b) <= CAPTURE_COUNT_MAX
      ensures ok ==> captureCount == old(captureCount) + Groups(a) + Groups(b)
      ensures ok ==> code == old(code) + Assemble(Code(canon, Seq(a, b), old(captureCount), bw))
      ensures captureCount <= CAPTURE_COUNT_MAX
      decreases Seq(a, b), 0
    {
      hide Assemble, Code, SmallClasses, Groups, WellFormed, Length;
      var start := |code|;
      ok := Emit(a, bw);
      if !ok {
        return;
      }
      var termStart := |code|;
      ok := Emit(b, bw);
      if !ok {
        return;
      }
      ghost var A, B := Code(canon, a, old(captureCount), bw), Code(canon, b, old(captureCount) + Groups(a), bw);
      ghost var x, y := Assemble(A), Assemble(B);
      assert code == old(code) + x + y;
      ThreeParts(old(code), x, y);
      if bw {
        Rotate(start, termStart);
      }
      SeqBytes(old(code), a, b, old(captureCount), bw, A, B);
    }

    lemma SeqBytes(pre: seq<Byte>, a: Re, b: Re, cc: nat, bw: bool, A: seq<Instr>, B: seq<Instr>)
      requires WellFormed(a) && WellFormed(b) && A == Code(canon, a, cc, bw) && B == Code(canon, b, cc + Groups(a), bw)
      ensures var x, y := Assemble(A), Assemble(B);
              (if bw then pre + y + x else pre + x + y) == pre + Assemble(Code(canon, Seq(a, b), cc, bw))
    {
      hide Assemble, Code;
      var x, y := Assemble(A), Assemble(B);
      Joined(pre, x, y, []);
      Joined(pre, y, x, []);
      CodeSeq(canon, a, b, cc, bw);
      AssembleAppend(A, B);
      AssembleAppend(B, A);
    }

    /** A split inserted before the first alternative, and a goto over the second one. */
    method EmitAlt(a: Re, b: Re, bw: bool) returns (ok: bool)
      requires WellFormed(a) && WellFormed(b) && captureCount <= CAPTURE_COUNT_MAX
      modifies this`code, this`captureCount
      ensures ok <==> SmallClasses(a) && SmallClasses(b) && old(captureCount) + Groups(a) + Groups(b) <= CAPTURE_COUNT_MAX
      ensures ok ==> captureCount == old(captureCount) + Groups(a) + Groups(b)
      ensures ok ==> code == old(code) + Assemble(Code(canon, Alt(a, b), old(captureCount), bw))
      ensures captureCount <= CAPTURE_COUNT_MAX
      decreases Alt(a, b), 0
    {
      hide Assemble, Code, Encode, AltCode, Length, PutI32, SmallClasses, Groups, WellFormed;
      var start := |code|;
      ok := Emit(a, bw);
      if !ok {
        return;
      }
      ghost var A, B := Code(canon, a, old(captureCount), bw), Code(canon, b, old(captureCount) + Groups(a), bw);
      AltBytes(A, B);
      var pos := EmitAltHead(start, A);
      ghost var head := code[..pos];
      ok := Emit(b, bw);
      if !ok {
        return;
      }
      PatchGoto(pos, head, B);
      CodeAlt(canon, a, b, old(captureCount), bw);
      AltJoined(old(code), Assemble([Split(true, Length(A) + 5)]), Assemble(A), PutI32(Length(B)), Assemble(B));
    }

    /** Stores the distance to the end of the code in the goto before the second alternative. */
    method PatchGoto(pos: nat, ghost head: seq<Byte>, ghost B: seq<Instr>)
      requires pos == |head| && code == head + PutI32(0) + Assemble(B) && |Assemble(B)| == Length(B)
      modifies this`code
      ensures code == head + PutI32(Length(B)) + Assemble(B)
    {
      hide Assemble, Length, PutI32;
      PutSize(0);
      PutSize(Length(B));
      PatchParts(head, PutI32(0), Assemble(B), PutI32(Length(B)));
      Store(pos, PutI32(|code| - (pos + 4)));
    }

    /** Inserts the split and appends a goto; gives the position of the goto's operand. */
    method EmitAltHead(start: nat, ghost A: seq<Instr>) returns (pos: nat)
      requires start <= |code| && code[start..] == Assemble(A)
      modifies this`code
      ensures pos + 4 == |code| && code[pos..] == PutI32(0)
      ensures code[..pos] == old(code)[..start] + Assemble([Split(true, Length(A) + 5)]) + Assemble(A) + [11]
    {
      hide Assemble, Encode, Length, PutI32;
      var len := |code| - start;
      InsertBlock(start, [Split(true, len + 5)]);
      ghost var head := code;
      AltBytes(A, A);
      EmitInstr(Goto(0));
      assert code == head + [11] + PutI32(0);
      pos := |code| - 4;
    }

    method EmitGroup(a: Re, bw: bool) returns (ok: bool)
      requires WellFormed(a) && captureCount <= CAPTURE_COUNT_MAX
      modifies this`code, this`captureCount
      ensures ok <==> SmallClasses(Group(a)) && old(captureCount) + Groups(Group(a)) <= CAPTURE_COUNT_MAX
      ensures ok ==> captureCount == old(captureCount) + Groups(Group(a))
      ensures ok ==> code == old(code) + Assemble(Code(canon, Group(a), old(captureCount), bw))
      ensures captureCount <= CAPTURE_COUNT_MAX
      decreases Group(a), 0
    {
      hide Assemble, Code, Encode;
      if captureCount >= CAPTURE_COUNT_MAX {
        return false;
      }
      var index := captureCount;
      captureCount := captureCount + 1;
      EmitInstr(Save(bw, index));
      ok := Emit(a, bw);
      if !ok {
        return;
      }
      EmitInstr(Save(!bw, index));
      CodeGroup(canon, a, index, bw);
      AssembleBracket(Save(bw, index), Code(canon, a, index + 1, bw), Save(!bw, index));
    }

    /** The operand of the lookahead is patched when its end is known. */
    method EmitLook(a: Re, negated: bool, behind: bool, bw: bool) returns (ok: bool)
      requires WellFormed(a) && captureCount <= CAPTURE_COUNT_MAX
      modifies this`code, this`captureCount
      ensures ok <==> SmallClasses(a) && old(captureCount) + Groups(a) <= CAPTURE_COUNT_MAX
      ensures ok ==> captureCount == old(captureCount) + Groups(a)
      ensures ok ==> code == old(code) + Assemble(Code(canon, Look(a, negated, behind), old(captureCount), bw))
      ensures captureCount <= CAPTURE_COUNT_MAX
      decreases Look(a, negated, behind), 0
    {
      hide Assemble, Code, Encode, Length, PutI32, SmallClasses, Groups, WellFormed;
      LookBytes(negated, 0);
      EmitInstr(Lookahead(negated, 0));
      var pos := |code| - 4;
      ok := Emit(a, behind);
      if !ok {
        return;
      }
      ghost var A := Code(canon, a, old(captureCount), behind);
      EmitInstr(Match);
      MatchBytes();
      LookBytes(negated, Length(A) + 1);
      LookParts(old(code), 33 + Bit(negated), PutI32(0), Assemble(A), Encode(Match), PutI32(Length(A) + 1));
      Store(pos, PutI32(|code| - (pos + 4)));
      CodeLook(canon, a, negated, behind, old(captureCount), bw);
      AssembleBracket(Lookahead(negated, Length(A) + 1), A, Match);
    }

    method EmitQuantified(a: Re, min: nat, max: nat, greedy: bool, bw: bool) returns (ok: bool)
      requires WellFormed(Quant(a, min, max, greedy)) && captureCount <= CAPTURE_COUNT_MAX
      modifies this`code, this`captureCount
      ensures ok <==> SmallClasses(a) && old(captureCount) + Groups(a) <= CAPTURE_COUNT_MAX
      ensures ok ==> captureCount == old(captureCount) + Groups(a)
      ensures ok ==> code == old(code) + Assemble(Code(canon, Quant(a, min, max, greedy), old(captureCount), bw))
      ensures captureCount <= CAPTURE_COUNT_MAX
      decreases Quant(a, min, max, greedy), 0
    {
      hide Assemble, Code, QuantCode, CountsFit;
      var start, lastCaptureCount := |code|, captureCount;
      ok := Emit(a, bw);
      if !ok {
        return;
      }
      ghost var A := Code(canon, a, lastCaptureCount, bw);
      CodeCounts(canon, a, lastCaptureCount, bw);
      EmitQuant(start, min, max, greedy, lastCaptureCount, A);
      CodeQuant(canon, a, min, max, greedy, lastCaptureCount, bw);
    }

    /** The loop over start positions, the pattern as group 0, and the final match. */
    method EmitProgram(r: Re, sticky: bool) returns (ok: bool)
      requires WellFormed(r) && captureCount == 1
      modifies this`code, this`captureCount
      ensures ok <==> SmallClasses(r) && Groups(r) < CAPTURE_COUNT_MAX
      ensures ok ==> captureCount == 1 + Groups(r)
      ensures ok ==> code == old(code) + Assemble(Compile(canon, r, sticky))
    {
      hide Assemble, Code, Compile, Encode, SmallClasses, Groups, WellFormed, Prefix;
      Append(Assemble(Prefix(sticky)));
      EmitInstr(Save(false, 0));
      ok := Emit(r, false);
      if !ok {
        return;
      }
      EmitInstr(Save(true, 0));
      EmitInstr(Match);
      CompileBytes(canon, r, sticky);
      FiveParts(old(code), Assemble(Prefix(sticky)), Encode(Save(false, 0)), Assemble(Code(canon, r, 1, false)),
                Encode(Save(true, 0)), Encode(Match));
    }

    /** Stores the capture count, the stack size and the code length into the header. */
    method FillHeader(ghost flags: nat, captures: Byte, stackSize: Byte, ghost body: seq<Byte>)
      requires code == PutU16(flags) + [0, 0] + PutU32(0) + body
      modifies this`code
      ensures code == PutU16(flags) + [captures, stackSize] + PutU32(|body|) + body
    {
      hide PutU16, PutU32;
      HeaderParts(flags, body, [captures, stackSize], PutU32(|body|));
      Store(2, [captures, stackSize]);
      Store(4, PutU32(|code| - HEADER_LEN));
    }
  }

  // ----- what the loops assemble to -----

  lemma NoBytes()
    ensures Assemble([]) == []
  {
  }

  lemma DirectedBytes(i: Instr)
    ensures Assemble(Directed(i, false)) == Encode(i)
    ensures Assemble(Directed(i, true)) == Encode(Prev) + Encode(i) + Encode(Prev)
  {
    hide Encode, Assemble;
    AssembleOne(i);
    assert Directed(i, true) == [Prev] + [i] + [Prev];
    AssembleBracket(Prev, [i], Prev);
  }

  lemma LookBytes(negated: bool, n: int)
    ensures Encode(Lookahead(negated, n)) == [33 + Bit(negated)] + PutI32(n)
  {
    hide PutI32;
  }

  lemma AltBytes(A: seq<Instr>, B: seq<Instr>)
    ensures var split := Split(true, Length(A) + 5);
            Assemble(AltCode(A, B)) == Assemble([split]) + Assemble(A) + ([11] + PutI32(Length(B))) + Assemble(B)
    ensures |Assemble([Split(true, Length(A) + 5)])| == 5
    ensures Encode(Goto(0)) == [11] + PutI32(0)
  {
    hide Assemble, PutI32, Length;
    var split, goto' := Split(true, Length(A) + 5), Goto(Length(B));
    AssembleAppend([split] + A + [goto'], B);
    AssembleBracket(split, A, goto');
    AssembleOne(split);
  }

  lemma MatchBytes()
    ensures |Encode(Match)| == 1
  {
  }

  lemma ResetBytes(lo: nat, hi: nat)
    ensures |Assemble([SaveReset(lo, hi)])| == 3
  {
    AssembleOne(SaveReset(lo, hi));
  }

  lemma HeadBytes(push: Instr, split: Instr)
    ensures Assemble([push] + [split]) == Encode(push) + Encode(split)
  {
    hide Encode, Assemble;
    AssembleOne(push);
    AssembleOne(split);
    AssembleAppend([push], [split]);
  }

  lemma GuardedBytes(A: seq<Instr>)
    ensures Assemble(Guarded(A)) ==
            if NeedCheckAdvance(A) then Encode(PushCharPos) + Assemble(A) + Encode(CheckAdvance) else Assemble(A)
    ensures Length(Guarded(A)) == |Assemble(A)| + if NeedCheckAdvance(A) then 2 else 0
  {
    hide Encode, Assemble, Length, NeedCheckAdvance;
    AssembleBracket(PushCharPos, A, CheckAdvance);
    BracketLength(PushCharPos, A, CheckAdvance);
  }

  lemma OptionBytes(B: seq<Instr>, greedy: bool)
    ensures var split, starSplit, goto' := Split(greedy, Length(B)), Split(greedy, Length(B) + 5), Goto(-(Length(B) + 10));
            Assemble(OptionCode(B, greedy)) == Encode(split) + Assemble(B) &&
            Assemble(StarCode(B, greedy)) == Encode(starSplit) + Assemble(B) + Encode(goto') &&
            |Encode(split)| == 5 && |Encode(starSplit)| == 5
  {
    hide Assemble, Length, Encode;
    var split := Split(greedy, Length(B));
    AssembleOne(split);
    AssembleAppend([split], B);
    StarBytes(B, greedy);
    SplitBytes(greedy, Length(B));
  }

  lemma SplitBytes(greedy: bool, n: int)
    ensures |Encode(Split(greedy, n))| == 5 && |Encode(PushI32(if n < 0 then 0 else n))| == 5
  {
  }

  lemma StarBytes(B: seq<Instr>, greedy: bool)
    ensures var split, goto' := Split(greedy, Length(B) + 5), Goto(-(Length(B) + 10));
            Assemble(StarCode(B, greedy)) == Encode(split) + Assemble(B) + Encode(goto') && |Encode(split)| == 5
  {
    hide Assemble, Length, Encode;
    var l: int := Length(B);
    AssembleBracket(Split(greedy, l + 5), B, Goto(-(l + 10)));
    SplitBytes(greedy, l + 5);
  }

  lemma CountedBytes(B: seq<Instr>, n: nat, greedy: bool)
    ensures var push, split, loop := PushI32(n), Split(greedy, Length(B) + 5), Loop(-(Length(B) + 10));
            Assemble(CountedCode(B, n, greedy)) == Encode(push) + Encode(split) + Assemble(B) + Encode(loop) + Encode(Drop) &&
            |Encode(push)| == 5 && |Encode(split)| == 5
  {
    hide Assemble, Length, Encode;
    var l: int := Length(B);
    var push, split, loop := PushI32(n), Split(greedy, l + 5), Loop(-(l + 10));
    assert CountedCode(B, n, greedy) == [push] + ([split] + B + [loop]) + [Drop];
    AssembleBracket(push, [split] + B + [loop], Drop);
    AssembleBracket(split, B, loop);
    SplitBytes(greedy, l + 5);
    SplitBytes(greedy, n);
  }

  lemma ExactBytes(A: seq<Instr>, n: nat)
    ensures var push, loop := PushI32(n), Loop(-(Length(A) + 5));
            Assemble(ExactCode(A, n)) == Encode(push) + Assemble(A) + Encode(loop) + Encode(Drop) && |Encode(push)| == 5
    ensures |Assemble(A)| == Length(A)
  {
    hide Assemble, Length, Encode;
    var l: int := Length(A);
    var push, loop := PushI32(n), Loop(-(l + 5));
    assert ExactCode(A, n) == [push] + (A + [loop]) + [Drop];
    AssembleBracket(push, A + [loop], Drop);
    AssembleAppend(A, [loop]);
    AssembleOne(loop);
    SplitBytes(true, n);
  }

  lemma PlusBytes(A: seq<Instr>, greedy: bool)
    ensures Assemble(PlusCode(A, greedy)) == Assemble(A) + Encode(Split(!greedy, -(Length(A) + 5)))
  {
    hide Assemble, Length, Encode;
    var l: int := Length(A);
    AssembleAppend(A, [Split(!greedy, -(l + 5))]);
    AssembleOne(Split(!greedy, -(l + 5)));
  }

  lemma {:induction false} PutPairsAppend(a: seq<(nat, nat)>, p: (nat, nat))
    ensures PutPairs16(a + [p]) == PutPairs16(a) + PutU16(p.0) + PutU16(p.1)
    ensures PutPairs32(a + [p]) == PutPairs32(a) + PutU32(p.0) + PutU32(p.1)
  {
    hide PutU16, PutU32, PutPairs16, PutPairs32;
    PairsFirst(a + [p]);
    PairsFirst(a);
    if a == [] {
      assert (a + [p])[1..] == [] && a == [];
    } else {
      assert (a + [p])[1..] == a[1..] + [p] && (a + [p])[0] == a[0];
      PutPairsAppend(a[1..], p);
      Onto(PutU16(a[0].0), PutU16(a[0].1), PutPairs16(a[1..]), PutU16(p.0), PutU16(p.1));
      Onto(PutU32(a[0].0), PutU32(a[0].1), PutPairs32(a[1..]), PutU32(p.0), PutU32(p.1));
    }
  }

  lemma PairsFirst(a: seq<(nat, nat)>)
    ensures PutPairs16([]) == [] && PutPairs32([]) == []
    ensures a != [] ==> PutPairs16(a) == PutU16(a[0].0) + PutU16(a[0].1) + PutPairs16(a[1..])
    ensures a != [] ==> PutPairs32(a) == PutU32(a[0].0) + PutU32(a[0].1) + PutPairs32(a[1..])
  {
    hide PutU16, PutU32;
  }

  lemma Onto(x: seq<Byte>, y: seq<Byte>, z: seq<Byte>, v: seq<Byte>, w: seq<Byte>)
    ensures x + y + (z + v + w) == x + y + z + v + w
  {
  }

  lemma SliceStays(a: seq<Byte>, b: seq<Byte>, c: seq<Byte>, lo: nat, hi: nat)
    requires lo <= hi <= |a|
    ensures (a + b + c)[lo..hi] == a[lo..hi]
  {
  }

  lemma Joined(a: seq<Byte>, b: seq<Byte>, c: seq<Byte>, d: seq<Byte>)
    ensures a + b + c + d == a + (b + c + d)
  {
  }

  lemma WrapJoined(pre: seq<Byte>, x: seq<Byte>, y: seq<Byte>, a: seq<Byte>, z: seq<Byte>)
    ensures pre + (x + y) + a + z == pre + (x + (y + a + z))
  {
  }

  lemma ThreeParts(a: seq<Byte>, b: seq<Byte>, c: seq<Byte>)
    ensures (a + b + c)[..|a|] == a && (a + b + c)[|a|..|a| + |b|] == b && (a + b + c)[|a| + |b|..] == c
  {
  }

  lemma PatchParts(a: seq<Byte>, hole: seq<Byte>, b: seq<Byte>, patch: seq<Byte>)
    requires |hole| == |patch|
    ensures (a + hole + b)[..|a|] + patch + (a + hole + b)[|a| + |patch|..] == a + patch + b
  {
  }

  lemma LookParts(pre: seq<Byte>, op: Byte, hole: seq<Byte>, a: seq<Byte>, m: seq<Byte>, patch: seq<Byte>)
    requires |hole| == |patch|
    ensures var c := pre + ([op] + hole) + a + m;
            c[..|pre| + 1] + patch + c[|pre| + 1 + |patch|..] == pre + ([op] + patch + a + m)
  {
  }

  lemma SplitIs(n: int)
    ensures Encode(Split(true, n)) == [13] + PutI32(n)
  {
    hide PutI32;
  }

  lemma PutSize(v: int)
    ensures |PutI32(v)| == 4
  {
  }

  lemma OptionIs(body: seq<Instr>, n: nat)
    requires n == |Assemble(body)|
    ensures Assemble(OptionCode(body, true)) == Encode(Split(true, n)) + Assemble(body)
  {
    hide Encode, Assemble;
    AssembleOne(Split(true, n));
    AssembleAppend([Split(true, n)], body);
  }

  lemma AltJoined(pre: seq<Byte>, s: seq<Byte>, x: seq<Byte>, offset: seq<Byte>, y: seq<Byte>)
    ensures pre + s + x + [11] + offset + y == pre + (s + x + ([11] + offset) + y)
  {
  }

  lemma NoPairs()
    ensures PutPairs16([]) == [] && PutPairs32([]) == []
  {
  }

  lemma EmptyRange(icase: bool)
    ensures RangeInstr([], icase) == Char32(UINT32_MAX, false)
  {
  }

  lemma RangeEncoding(points: seq<nat>, icase: bool)
    requires ValidPoints(points) && points != []
    ensures Encode(RangeInstr(points, icase)) ==
            if Narrow(points) then [29 + Bit(icase)] + PutU16(|points| / 2) + PutPairs16(Pairs16(points))
            else [31 + Bit(icase)] + PutU16(|points| / 2) + PutPairs32(Pairs32(points))
  {
    hide Narrow, Pairs16, Pairs32, PutPairs16, PutPairs32, PutU16;
  }

  lemma PairsSnoc(pairs: seq<(nat, nat)>, i: nat)
    requires i < |pairs|
    ensures PutPairs16(pairs[..i + 1]) == PutPairs16(pairs[..i]) + PutU16(pairs[i].0) + PutU16(pairs[i].1)
    ensures PutPairs32(pairs[..i + 1]) == PutPairs32(pairs[..i]) + PutU32(pairs[i].0) + PutU32(pairs[i].1)
  {
    assert pairs[..i + 1] == pairs[..i] + [pairs[i]];
    PutPairsAppend(pairs[..i], pairs[i]);
  }

  // ----- whole patterns -----

  datatype CompileResult = CompileError | Compiled(buf: seq<Byte>)

  lemma CompileScannable(canon: CodePoint -> CodePoint, r: Re, sticky: bool)
    requires WellFormed(r) && SmallClasses(r)
    ensures Low(Compile(canon, r, sticky)) == 0 && CountsFit(Compile(canon, r, sticky))
  {
    hide Code, Low, Net, Peak, Length;
    var block := Code(canon, Group(r), 0, false);
    CodeNeutral(canon, Group(r), 0, false);
    CodeCounts(canon, Group(r), 0, false);
    Parts(Prefix(sticky) + block, [Match]);
    Parts(Prefix(sticky), block);
    NetEmpty();
    One(Match);
    if !sticky {
      One(Any);
      BracketNeutral(Split(false, 6), [Any], Goto(-11));
    }
    CountsParts(Prefix(sticky), block);
    CountsParts(Prefix(sticky) + block, [Match]);
  }

  lemma CompileBytes(canon: CodePoint -> CodePoint, r: Re, sticky: bool)
    requires WellFormed(r)
    ensures Assemble(Compile(canon, r, sticky)) ==
            Assemble(Prefix(sticky)) + Encode(Save(false, 0)) + Assemble(Code(canon, r, 1, false)) +
            Encode(Save(true, 0)) + Encode(Match)
  {
    hide Code, Assemble, Encode, Prefix;
    var block := Code(canon, Group(r), 0, false);
    AssembleAppend(Prefix(sticky) + block, [Match]);
    AssembleAppend(Prefix(sticky), block);
    CodeGroup(canon, r, 0, false);
    AssembleBracket(Save(false, 0), Code(canon, r, 1, false), Save(true, 0));
    AssembleOne(Match);
  }

  /** lre_compile, from the parsed pattern on: the header is filled in when the code is complete.
      Compilation succeeds exactly for the patterns within the compiler's limits, and then gives the
      buffer that ExecCorrect is about. */
  method CompilePattern(
    canon: CodePoint -> CodePoint, r: Re, sticky: bool, flags: nat, names: seq<Byte>) returns (result: CompileResult)
    requires WellFormed(r)
    ensures result.Compiled? <==>
              SmallClasses(r) && Groups(r) < CAPTURE_COUNT_MAX && Peak(Compile(canon, r, sticky)) <= 255
    ensures result.Compiled? ==> result.buf == Buffer(canon, r, sticky, flags, names)
  {
    hide Assemble, Code, Compile, Peak, Low, Length, PutU16, PutU32, SmallClasses, CountsFit, Groups, WellFormed, Encode, ValidPoints;
    var s := new Emitter(canon);
    s.Append(PutU16(flags) + [0, 0] + PutU32(0));
    var ok := s.EmitProgram(r, sticky);
    if !ok {
      return CompileError;
    }
    ghost var block := Compile(canon, r, sticky);
    CompileScannable(canon, r, sticky);
    HeaderLength(flags, Assemble(block));
    var size := ScanStackSize(s.code[HEADER_LEN..], block);
    if size.TooDeep? {
      return CompileError;
    }
    s.FillHeader(flags, s.captureCount, size.entries, Assemble(block));
    s.Append(names);
    return Compiled(s.code);
  }

  lemma HeaderLength(flags: nat, code: seq<Byte>)
    ensures (PutU16(flags) + [0, 0] + PutU32(0) + code)[HEADER_LEN..] == code
  {
    hide PutU16, PutU32;
  }

  lemma FiveParts(h: seq<Byte>, a: seq<Byte>, b: seq<Byte>, c: seq<Byte>, d: seq<Byte>, e: seq<Byte>)
    ensures h + a + b + c + d + e == h + (a + b + c + d + e)
  {
  }

  lemma HeaderParts(flags: nat, code: seq<Byte>, counts: seq<Byte>, len: seq<Byte>)
    requires |counts| == 2 && |len| == 4
    ensures var h := PutU16(flags) + [0, 0] + PutU32(0) + code;
            var h1 := h[..2] + counts + h[4..];
            |h1| == |h| && h1[..4] + len + h1[8..] == PutU16(flags) + counts + len + code
  {
    hide PutU16, PutU32;
  }
}
