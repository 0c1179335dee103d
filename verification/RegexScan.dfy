/** The compiler's linear scans over the bytes of emitted code. */
module RegexScan {
  import opened RegexSyntax
  import opened RegexOpcode
  import opened RegexCompile

  /** The opcode size table. */
  function OpSize(op: Byte): nat
  {
    if op == 1 || op == 2 || op == 17 || 29 <= op <= 32 then 3
    else if 3 <= op <= 4 || 11 <= op <= 13 || 18 <= op <= 19 || 33 <= op <= 34 then 5
    else if 15 <= op <= 16 || 25 <= op <= 28 then 2
    else if op == 38 then 17
    else 1
  }

  predicate Range16Op(op: Byte) { 29 <= op <= 30 }

  predicate Range32Op(op: Byte) { 31 <= op <= 32 }

  predicate CharByte(op: Byte) { 1 <= op <= 6 || 29 <= op <= 32 }

  predicate AssertionByte(op: Byte) { 7 <= op <= 10 || 21 <= op <= 24 }

  predicate LinearByte(op: Byte)
  {
    CharByte(op) || AssertionByte(op) || 15 <= op <= 17 || 19 <= op <= 20 || 25 <= op <= 28 || op == 35 || op == 37
  }

  /** The byte at which the next instruction starts. */
  function SizeAt(code: seq<Byte>, pos: nat): (n: nat)
    requires pos + 3 <= |code| || (pos < |code| && !(29 <= code[pos] <= 32))
    ensures n > 0
  {
    OpSize(code[pos]) +
    if Range16Op(code[pos]) then 4 * GetU16(code, pos + 1)
    else if Range32Op(code[pos]) then 8 * GetU16(code, pos + 1)
    else 0
  }

  lemma OpcodeKinds(i: Instr)
    ensures CharByte(Opcode(i)) <==> CharOp(i)
    ensures AssertionByte(Opcode(i)) <==> AssertionOp(i)
    ensures LinearByte(Opcode(i)) <==> LinearOp(i)
    ensures Range16Op(Opcode(i)) <==> i.Range16?
    ensures Range32Op(Opcode(i)) <==> i.Range32?
    ensures (Opcode(i) == 19 || Opcode(i) == 35) <==> (i.PushI32? || i.PushCharPos?)
    ensures (Opcode(i) == 20 || Opcode(i) == 36) <==> (i.Drop? || i.CheckAdvance?)
    ensures !i.Range16? && !i.Range32? ==> Size(i) == OpSize(Opcode(i))
    ensures i.Range16? ==> Size(i) == 3 + 4 * |i.pairs|
    ensures i.Range32? ==> Size(i) == 3 + 8 * |i.pairs|
  {
  }

  /** What a scan finds at the head of the remaining block. */
  lemma ScanHead(code: seq<Byte>, pos: nat, rest: seq<Instr>)
    requires pos <= |code| && code[pos..] == Assemble(rest) && rest != [] && CountFits(rest[0])
    ensures pos < |code| && code[pos] == Opcode(rest[0])
    ensures pos + Size(rest[0]) <= |code| && code[pos + Size(rest[0])..] == Assemble(rest[1..])
    ensures pos + 3 <= |code| || !(29 <= code[pos] <= 32)
    ensures SizeAt(code, pos) == Size(rest[0])
  {
    hide Operands, Opcode, Size, CountFits, SizeAt, OpSize, GetU16, Assemble;
    var i := rest[0];
    var s := Encode(i);
    SizeOfEncoding(i);
    assert code[pos..] == s + Assemble(rest[1..]) by { AssembleHead(rest); }
    assert code[pos] == code[pos..][0] == s[0];
    assert code[pos + |s|..] == code[pos..][|s|..];
    OpcodeKinds(i);
    SizeOfRange(code, pos, i, Assemble(rest[1..]));
  }

  lemma AssembleHead(rest: seq<Instr>)
    requires rest != []
    ensures Assemble(rest) == Encode(rest[0]) + Assemble(rest[1..])
  {
    hide Encode;
  }

  lemma SizeOfRange(code: seq<Byte>, pos: nat, i: Instr, tail: seq<Byte>)
    requires pos <= |code| && code[pos..] == Encode(i) + tail && CountFits(i)
    requires pos < |code| && code[pos] == Opcode(i)
    ensures pos + 3 <= |code| || !(29 <= code[pos] <= 32)
    ensures SizeAt(code, pos) == Size(i)
  {
    SizeOfEncoding(i);
    OpcodeKinds(i);
    if i.Range16? || i.Range32? {
      var s := Encode(i);
      assert code[pos + 1..pos + 3] == code[pos..][1..3] == s[1..3] == PutU16(|i.pairs|);
      GetPutU16(code, pos + 1, |i.pairs|);
    }
  }

  /** The number of ranges of an instruction fits its 16-bit operand. */
  predicate CountFits(i: Instr) { i.Range16? || i.Range32? ==> |i.pairs| <= 0xFFFF }

  predicate CountsFit(block: seq<Instr>) { forall k :: 0 <= k < |block| ==> CountFits(block[k]) }

  /** The scan is at `pos`, with `rest` still to come. */
  ghost predicate Scanning(code: seq<Byte>, pos: nat, rest: seq<Instr>)
  {
    pos <= |code| && code[pos..] == Assemble(rest) && CountsFit(rest)
  }

  lemma ScanStep(code: seq<Byte>, pos: nat, rest: seq<Instr>)
    requires Scanning(code, pos, rest) && pos < |code|
    ensures rest != [] && code[pos] == Opcode(rest[0])
    ensures pos + 3 <= |code| || !(29 <= code[pos] <= 32)
    ensures pos + SizeAt(code, pos) <= |code| && Scanning(code, pos + SizeAt(code, pos), rest[1..])
  {
    hide CountFits, Opcode, Size, SizeAt;
    assert |Assemble(rest)| > 0;
    ScanHead(code, pos, rest);
  }

  lemma ScanEnd(code: seq<Byte>, rest: seq<Instr>)
    requires Scanning(code, |code|, rest)
    ensures rest == []
  {
    hide CountFits, Size, Encode;
    assert Length(rest) == 0;
  }

  lemma DoneStep(done: seq<Instr>, rest: seq<Instr>)
    requires rest != []
    ensures done + rest == (done + [rest[0]]) + rest[1..]
    ensures Linear(done + [rest[0]]) <==> Linear(done) && LinearOp(rest[0])
    ensures HasChar(done + [rest[0]]) <==> HasChar(done) || CharOp(rest[0])
    ensures Simple(done + [rest[0]]) <==> Simple(done) && (CharOp(rest[0]) || AssertionOp(rest[0]))
    ensures CharCount(done + [rest[0]]) == CharCount(done) + Bit(CharOp(rest[0]))
    ensures Net(done + [rest[0]]) == Net(done) + Delta(rest[0])
    ensures Peak(done + [rest[0]]) == Max(Peak(done), Net(done) + Max(0, Delta(rest[0])))
  {
    hide LinearOp, CharOp, AssertionOp, Delta;
    var i := rest[0];
    var d := done + [i];
    assert forall k :: 0 <= k < |done| ==> d[k] == done[k];
    assert d[|done|] == i;
    assert [i][1..] == [];
    CharCountAppend(done, [i]);
    NetAppend(done, [i]);
    PeakAppend(done, [i]);
  }

  /** re_need_check_advance. */
  method ScanNeedCheckAdvance(code: seq<Byte>, start: nat, ghost block: seq<Instr>) returns (ret: bool)
    requires start <= |code| && Scanning(code, start, block)
    ensures ret == NeedCheckAdvance(block)
  {
    hide Scanning, LinearOp, CharOp, AssertionOp, Opcode, SizeAt, Linear, HasChar, LinearByte, CharByte;
    ret := true;
    var pos := start;
    ghost var done, rest := [], block;
    EmptyDone();
    while pos < |code|
      invariant start <= pos <= |code| && Scanning(code, pos, rest) && block == done + rest
      invariant Linear(done) && ret == !HasChar(done)
      decreases |code| - pos
    {
      ScanStep(code, pos, rest);
      OpcodeKinds(rest[0]);
      DoneStep(done, rest);
      if CharByte(code[pos]) {
        ret := false;
      } else if !LinearByte(code[pos]) {
        LinearPrefix(done + [rest[0]], rest[1..]);
        return true;
      }
      LinearChar(rest[0]);
      pos := pos + SizeAt(code, pos);
      done, rest := done + [rest[0]], rest[1..];
    }
    ScanEnd(code, rest);
    assert block == done;
  }

  lemma EmptyDone()
    ensures Linear([]) && !HasChar([]) && Simple([]) && CharCount([]) == 0 && Net([]) == 0 && Peak([]) == 0
  {
  }

  lemma LinearChar(i: Instr)
    ensures CharOp(i) ==> LinearOp(i)
  {
  }

  lemma LinearPrefix(a: seq<Instr>, b: seq<Instr>)
    ensures Linear(a + b) ==> Linear(a)
    ensures Simple(a + b) ==> Simple(a)
  {
    hide LinearOp, CharOp, AssertionOp;
    assert forall k :: 0 <= k < |a| ==> (a + b)[k] == a[k];
  }

  /** re_is_simple_quantifier. */
  method ScanSimpleCount(code: seq<Byte>, start: nat, ghost block: seq<Instr>) returns (count: int)
    requires start <= |code| && Scanning(code, start, block)
    ensures count == SimpleCount(block)
  {
    hide Scanning, LinearOp, CharOp, AssertionOp, Opcode, SizeAt, Simple, CharCount, AssertionByte, CharByte;
    count := 0;
    var pos := start;
    ghost var done, rest := [], block;
    EmptyDone();
    while pos < |code|
      invariant start <= pos <= |code| && Scanning(code, pos, rest) && block == done + rest
      invariant Simple(done) && count == CharCount(done)
      decreases |code| - pos
    {
      ScanStep(code, pos, rest);
      OpcodeKinds(rest[0]);
      DoneStep(done, rest);
      if CharByte(code[pos]) {
        count := count + 1;
      } else if !AssertionByte(code[pos]) {
        LinearPrefix(done + [rest[0]], rest[1..]);
        return -1;
      }
      pos := pos + SizeAt(code, pos);
      done, rest := done + [rest[0]], rest[1..];
    }
    ScanEnd(code, rest);
    assert block == done;
  }

  datatype StackSize = TooDeep | Needs(entries: nat)

  /** compute_stack_size, after the header: the assertion that the stack does not underflow holds,
      and code that needs more than 255 entries is rejected. */
  method ScanStackSize(code: seq<Byte>, ghost block: seq<Instr>) returns (size: StackSize)
    requires Scanning(code, 0, block) && Low(block) == 0
    ensures size == if Peak(block) > 255 then TooDeep else Needs(Peak(block))
  {
    hide Scanning, Opcode, SizeAt, Net, Low, Peak, Linear, HasChar, Simple, CharCount;
    var stack, max, pos := 0, 0, 0;
    ghost var done, rest := [], block;
    EmptyDone();
    while pos < |code|
      invariant 0 <= pos <= |code| && Scanning(code, pos, rest) && block == done + rest
      invariant stack == Net(done) && max == Peak(done) && 0 <= stack <= max <= 255
      decreases |code| - pos
    {
      ScanStep(code, pos, rest);
      OpcodeKinds(rest[0]);
      DoneStep(done, rest);
      LowPrefix(done + [rest[0]], rest[1..]);
      if code[pos] == 19 || code[pos] == 35 {
        stack := stack + 1;
        if stack > max {
          if stack > 255 {
            PeakPrefix(done + [rest[0]], rest[1..]);
            return TooDeep;
          }
          max := stack;
        }
      } else if code[pos] == 20 || code[pos] == 36 {
        assert stack > 0;
        stack := stack - 1;
      }
      pos := pos + SizeAt(code, pos);
      done, rest := done + [rest[0]], rest[1..];
    }
    ScanEnd(code, rest);
    assert block == done;
    return Needs(max);
  }

  lemma LowPrefix(a: seq<Instr>, b: seq<Instr>)
    requires Low(a + b) == 0
    ensures Net(a) >= 0
  {
    LowAppend(a, b);
    LowNegative(b);
  }

  lemma PeakPrefix(a: seq<Instr>, b: seq<Instr>)
    ensures Peak(a + b) >= Peak(a)
  {
    PeakAppend(a, b);
  }
}
