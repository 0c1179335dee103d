/** The byte code: instructions, their encoding as bytes, and how the interpreter decodes them. */
module RegexOpcode {

  type Byte = b: nat | b <= 0xFF

  /** Jump offsets are relative to the end of the instruction. */
  datatype Instr =
    | Char16(c: nat, icase: bool)
    | Char32(c: nat, icase: bool)
    | Dot
    | Any
    | LineStart(multiline: bool)
    | LineEnd(multiline: bool)
    | Goto(offset: int)
    | Split(nextFirst: bool, offset: int)
    | Match
    | Save(end: bool, index: nat)
    | SaveReset(lo: nat, hi: nat)
    | Loop(offset: int)
    | PushI32(value: nat)
    | Drop
    | WordBoundary(negated: bool, icase: bool)
    | BackRef(backward: bool, icase: bool, index: nat)
    | Range16(icase: bool, pairs: seq<(nat, nat)>)
    | Range32(icase: bool, pairs: seq<(nat, nat)>)
    | Lookahead(negated: bool, offset: int)
    | PushCharPos
    | CheckAdvance
    | Prev
    | SimpleGreedyQuant(next: int, min: nat, max: nat, count: nat)

  // ----- little-endian operands -----

  function PutU16(v: nat): (s: seq<Byte>)
    ensures |s| == 2
  {
    [v % 0x100, v / 0x100 % 0x100]
  }

  function PutU32(v: nat): (s: seq<Byte>)
    ensures |s| == 4
  {
    PutU16(v % 0x1_0000) + PutU16(v / 0x1_0000)
  }

  /** A signed 32-bit value stored in an unsigned one. */
  function PutI32(v: int): (s: seq<Byte>)
    ensures |s| == 4
  {
    PutU32(v % 0x1_0000_0000)
  }

  function GetU16(code: seq<Byte>, p: nat): nat
    requires p + 2 <= |code|
  {
    code[p] as int + 0x100 * code[p + 1] as int
  }

  function GetU32(code: seq<Byte>, p: nat): nat
    requires p + 4 <= |code|
  {
    GetU16(code, p) + 0x1_0000 * GetU16(code, p + 2)
  }

  function GetI32(code: seq<Byte>, p: nat): int
    requires p + 4 <= |code|
  {
    var v := GetU32(code, p);
    if v < 0x8000_0000 then v else v - 0x1_0000_0000
  }

  lemma GetPutU16(code: seq<Byte>, p: nat, v: nat)
    requires v <= 0xFFFF && p + 2 <= |code| && code[p..p + 2] == PutU16(v)
    ensures GetU16(code, p) == v
  {
    assert code[p] == code[p..p + 2][0] && code[p + 1] == code[p..p + 2][1];
  }

  lemma GetPutU32(code: seq<Byte>, p: nat, v: nat)
    requires v <= 0xFFFF_FFFF && p + 4 <= |code| && code[p..p + 4] == PutU32(v)
    ensures GetU32(code, p) == v
  {
    assert code[p..p + 2] == code[p..p + 4][..2] == PutU16(v % 0x1_0000);
    assert code[p + 2..p + 4] == code[p..p + 4][2..] == PutU16(v / 0x1_0000);
    GetPutU16(code, p, v % 0x1_0000);
    GetPutU16(code, p + 2, v / 0x1_0000);
  }

  predicate FitsI32(v: int) { -0x8000_0000 <= v < 0x8000_0000 }

  lemma GetPutI32(code: seq<Byte>, p: nat, v: int)
    requires FitsI32(v) && p + 4 <= |code| && code[p..p + 4] == PutI32(v)
    ensures GetI32(code, p) == v
  {
    GetPutU32(code, p, v % 0x1_0000_0000);
  }

  /** A slice of a placed block. */
  lemma Slice(code: seq<Byte>, p: nat, s: seq<Byte>, i: nat, j: nat)
    requires i <= j <= |s| && p + |s| <= |code| && code[p..p + |s|] == s
    ensures code[p + i..p + j] == s[i..j]
  {
    forall k | i <= k < j
      ensures code[p + k] == s[k]
    {
      assert code[p..p + |s|][k] == s[k];
    }
  }

  // ----- range tables -----

  function PutPairs16(pairs: seq<(nat, nat)>): (s: seq<Byte>)
    ensures |s| == 4 * |pairs|
  {
    if pairs == [] then [] else PutU16(pairs[0].0) + PutU16(pairs[0].1) + PutPairs16(pairs[1..])
  }

  function PutPairs32(pairs: seq<(nat, nat)>): (s: seq<Byte>)
    ensures |s| == 8 * |pairs|
  {
    if pairs == [] then [] else PutU32(pairs[0].0) + PutU32(pairs[0].1) + PutPairs32(pairs[1..])
  }

  function GetPairs16(code: seq<Byte>, p: nat, n: nat): (s: seq<(nat, nat)>)
    requires p + 4 * n <= |code|
    ensures |s| == n
    decreases n
  {
    if n == 0 then [] else [(GetU16(code, p), GetU16(code, p + 2))] + GetPairs16(code, p + 4, n - 1)
  }

  function GetPairs32(code: seq<Byte>, p: nat, n: nat): (s: seq<(nat, nat)>)
    requires p + 8 * n <= |code|
    ensures |s| == n
    decreases n
  {
    if n == 0 then [] else [(GetU32(code, p), GetU32(code, p + 4))] + GetPairs32(code, p + 8, n - 1)
  }

  predicate PairsFit(pairs: seq<(nat, nat)>, limit: nat)
  {
    forall i :: 0 <= i < |pairs| ==> pairs[i].0 <= limit && pairs[i].1 <= limit
  }

  lemma {:induction false} GetPutPairs16(code: seq<Byte>, p: nat, pairs: seq<(nat, nat)>)
    requires PairsFit(pairs, 0xFFFF)
    requires p + 4 * |pairs| <= |code| && code[p..p + 4 * |pairs|] == PutPairs16(pairs)
    ensures GetPairs16(code, p, |pairs|) == pairs
    decreases |pairs|
  {
    if pairs != [] {
      var s := PutPairs16(pairs);
      Slice(code, p, s, 0, 2);
      Slice(code, p, s, 2, 4);
      Slice(code, p, s, 4, |s|);
      assert s[0..2] == PutU16(pairs[0].0) && s[2..4] == PutU16(pairs[0].1);
      assert s[4..|s|] == PutPairs16(pairs[1..]);
      GetPutU16(code, p, pairs[0].0);
      GetPutU16(code, p + 2, pairs[0].1);
      GetPutPairs16(code, p + 4, pairs[1..]);
    }
  }

  lemma {:induction false} GetPutPairs32(code: seq<Byte>, p: nat, pairs: seq<(nat, nat)>)
    requires PairsFit(pairs, 0xFFFF_FFFF)
    requires p + 8 * |pairs| <= |code| && code[p..p + 8 * |pairs|] == PutPairs32(pairs)
    ensures GetPairs32(code, p, |pairs|) == pairs
    decreases |pairs|
  {
    if pairs != [] {
      var s := PutPairs32(pairs);
      Slice(code, p, s, 0, 4);
      Slice(code, p, s, 4, 8);
      Slice(code, p, s, 8, |s|);
      assert s[0..4] == PutU32(pairs[0].0) && s[4..8] == PutU32(pairs[0].1);
      assert s[8..|s|] == PutPairs32(pairs[1..]);
      GetPutU32(code, p, pairs[0].0);
      GetPutU32(code, p + 4, pairs[0].1);
      GetPutPairs32(code, p + 8, pairs[1..]);
    }
  }

  // ----- instructions -----

  function Bit(b: bool): nat { if b then 1 else 0 }

  function Opcode(i: Instr): Byte
  {
    match i
    case Char16(_, icase) => 1 + Bit(icase)
    case Char32(_, icase) => 3 + Bit(icase)
    case Dot => 5
    case Any => 6
    case LineStart(m) => 7 + Bit(m)
    case LineEnd(m) => 9 + Bit(m)
    case Goto(_) => 11
    case Split(nextFirst, _) => 12 + Bit(nextFirst)
    case Match => 14
    case Save(end, _) => 15 + Bit(end)
    case SaveReset(_, _) => 17
    case Loop(_) => 18
    case PushI32(_) => 19
    case Drop => 20
    case WordBoundary(negated, icase) => 21 + 2 * Bit(negated) + Bit(icase)
    case BackRef(backward, icase, _) => 25 + 2 * Bit(backward) + Bit(icase)
    case Range16(icase, _) => 29 + Bit(icase)
    case Range32(icase, _) => 31 + Bit(icase)
    case Lookahead(negated, _) => 33 + Bit(negated)
    case PushCharPos => 35
    case CheckAdvance => 36
    case Prev => 37
    case SimpleGreedyQuant(_, _, _, _) => 38
  }

  function Operands(i: Instr): seq<Byte>
  {
    match i
    case Char16(c, _) => PutU16(c)
    case Char32(c, _) => PutU32(c)
    case Goto(offset) => PutI32(offset)
    case Split(_, offset) => PutI32(offset)
    case Save(_, index) => [index % 0x100]
    case SaveReset(lo, hi) => [lo % 0x100, hi % 0x100]
    case Loop(offset) => PutI32(offset)
    case PushI32(v) => PutU32(v)
    case BackRef(_, _, index) => [index % 0x100]
    case Range16(_, pairs) => PutU16(|pairs|) + PutPairs16(pairs)
    case Range32(_, pairs) => PutU16(|pairs|) + PutPairs32(pairs)
    case Lookahead(_, offset) => PutI32(offset)
    case SimpleGreedyQuant(next, min, max, count) => PutI32(next) + PutU32(min) + PutU32(max) + PutU32(count)
    case _ => []
  }

  function Encode(i: Instr): seq<Byte>
  {
    [Opcode(i)] + Operands(i)
  }

  /** The number of bytes of an instruction (the opcode table plus the range data). */
  function Size(i: Instr): (n: nat)
    ensures n > 0
  {
    match i
    case Char16(_, _) => 3
    case Char32(_, _) => 5
    case Goto(_) => 5
    case Split(_, _) => 5
    case Save(_, _) => 2
    case SaveReset(_, _) => 3
    case Loop(_) => 5
    case PushI32(_) => 5
    case BackRef(_, _, _) => 2
    case Range16(_, pairs) => 3 + 4 * |pairs|
    case Range32(_, pairs) => 3 + 8 * |pairs|
    case Lookahead(_, _) => 5
    case SimpleGreedyQuant(_, _, _, _) => 17
    case _ => 1
  }

  lemma SizeOfEncoding(i: Instr)
    ensures |Encode(i)| == Size(i)
  {
  }

  datatype Decoded = Invalid | Valid(instr: Instr)

  /** The instruction whose opcode byte is at `pc`. */
  function Fetch(code: seq<Byte>, pc: nat): Decoded
  {
    if pc >= |code| then Invalid
    else if JumpOp(code[pc]) then FetchJump(code, pc)
    else if OperandOp(code[pc]) then FetchOperand(code, pc)
    else if 29 <= code[pc] <= 32 then FetchRange(code, pc)
    else if code[pc] == 38 then FetchQuant(code, pc)
    else FetchPlain(code[pc])
  }

  predicate JumpOp(op: Byte) { 11 <= op <= 13 || op == 18 || 33 <= op <= 34 }

  predicate OperandOp(op: Byte) { 1 <= op <= 4 || 15 <= op <= 17 || op == 19 || 25 <= op <= 28 }

  function FetchPlain(op: Byte): Decoded
  {
    if op == 5 then Valid(Dot)
    else if op == 6 then Valid(Any)
    else if op == 7 || op == 8 then Valid(LineStart(op == 8))
    else if op == 9 || op == 10 then Valid(LineEnd(op == 10))
    else if op == 14 then Valid(Match)
    else if op == 20 then Valid(Drop)
    else if 21 <= op <= 24 then Valid(WordBoundary(op >= 23, op % 2 == 0))
    else if op == 35 then Valid(PushCharPos)
    else if op == 36 then Valid(CheckAdvance)
    else if op == 37 then Valid(Prev)
    else Invalid
  }

  function FetchJump(code: seq<Byte>, pc: nat): Decoded
    requires pc < |code|
  {
    if pc + 5 > |code| then Invalid else
    var op := code[pc];
    var offset := GetI32(code, pc + 1);
    if op == 11 then Valid(Goto(offset))
    else if op == 12 || op == 13 then Valid(Split(op == 13, offset))
    else if op == 18 then Valid(Loop(offset))
    else if op == 33 || op == 34 then Valid(Lookahead(op == 34, offset))
    else Invalid
  }

  function FetchOperand(code: seq<Byte>, pc: nat): Decoded
    requires pc < |code|
  {
    var op := code[pc];
    if pc + 2 > |code| then Invalid
    else if op == 15 || op == 16 then Valid(Save(op == 16, code[pc + 1]))
    else if 25 <= op <= 28 then Valid(BackRef(op >= 27, op % 2 == 0, code[pc + 1]))
    else if pc + 3 > |code| then Invalid
    else if op == 17 then Valid(SaveReset(code[pc + 1], code[pc + 2]))
    else if op == 1 || op == 2 then Valid(Char16(GetU16(code, pc + 1), op == 2))
    else if pc + 5 > |code| then Invalid
    else if op == 3 || op == 4 then Valid(Char32(GetU32(code, pc + 1), op == 4))
    else if op == 19 then Valid(PushI32(GetU32(code, pc + 1)))
    else Invalid
  }

  function FetchRange(code: seq<Byte>, pc: nat): Decoded
    requires pc < |code|
  {
    var op := code[pc];
    if pc + 3 > |code| then Invalid else
    var n := GetU16(code, pc + 1);
    if op == 29 || op == 30 then
      if pc + 3 + 4 * n > |code| then Invalid else Valid(Range16(op == 30, GetPairs16(code, pc + 3, n)))
    else if op == 31 || op == 32 then
      if pc + 3 + 8 * n > |code| then Invalid else Valid(Range32(op == 32, GetPairs32(code, pc + 3, n)))
    else Invalid
  }

  function FetchQuant(code: seq<Byte>, pc: nat): Decoded
    requires pc < |code|
  {
    if pc + 17 > |code| then Invalid else
    Valid(SimpleGreedyQuant(GetI32(code, pc + 1), GetU32(code, pc + 5), GetU32(code, pc + 9), GetU32(code, pc + 13)))
  }

  /** A program as the interpreter sees it: what it fetches at each pc. */
  type Decoder = nat -> Decoded

  function Load(code: seq<Byte>): Decoder
  {
    (pc: nat) => Fetch(code, pc)
  }

  /** The operands fit in the bytes reserved for them. */
  predicate Encodable(i: Instr)
  {
    match i
    case Char16(c, _) => c <= 0xFFFF
    case Char32(c, _) => c <= 0xFFFF_FFFF
    case Goto(offset) => FitsI32(offset)
    case Split(_, offset) => FitsI32(offset)
    case Save(_, index) => index <= 0xFF
    case SaveReset(lo, hi) => lo <= 0xFF && hi <= 0xFF
    case Loop(offset) => FitsI32(offset)
    case PushI32(v) => v <= 0xFFFF_FFFF
    case BackRef(_, _, index) => index <= 0xFF
    case Range16(_, pairs) => |pairs| <= 0xFFFF && PairsFit(pairs, 0xFFFF)
    case Range32(_, pairs) => |pairs| <= 0xFFFF && PairsFit(pairs, 0xFFFF_FFFF)
    case Lookahead(_, offset) => FitsI32(offset)
    case SimpleGreedyQuant(next, min, max, count) =>
      FitsI32(next) && min <= 0xFFFF_FFFF && max <= 0xFFFF_FFFF && count <= 0xFFFF_FFFF
    case _ => true
  }

  lemma FetchRange16(code: seq<Byte>, pc: nat, i: Instr)
    requires i.Range16? && Encodable(i)
    requires pc + Size(i) <= |code| && code[pc] == Opcode(i) && code[pc + 1..pc + Size(i)] == Operands(i)
    ensures FetchRange(code, pc) == Valid(i)
  {
    SizeOfEncoding(i);
    var s := Operands(i);
    Slice(code, pc + 1, s, 0, 2);
    Slice(code, pc + 1, s, 2, |s|);
    assert s[0..2] == PutU16(|i.pairs|) && s[2..|s|] == PutPairs16(i.pairs);
    GetPutU16(code, pc + 1, |i.pairs|);
    GetPutPairs16(code, pc + 3, i.pairs);
  }

  lemma FetchRange32(code: seq<Byte>, pc: nat, i: Instr)
    requires i.Range32? && Encodable(i)
    requires pc + Size(i) <= |code| && code[pc] == Opcode(i) && code[pc + 1..pc + Size(i)] == Operands(i)
    ensures FetchRange(code, pc) == Valid(i)
  {
    SizeOfEncoding(i);
    var s := Operands(i);
    Slice(code, pc + 1, s, 0, 2);
    Slice(code, pc + 1, s, 2, |s|);
    assert s[0..2] == PutU16(|i.pairs|) && s[2..|s|] == PutPairs32(i.pairs);
    GetPutU16(code, pc + 1, |i.pairs|);
    GetPutPairs32(code, pc + 3, i.pairs);
  }

  lemma FetchSimpleQuant(code: seq<Byte>, pc: nat, i: Instr)
    requires i.SimpleGreedyQuant? && Encodable(i)
    requires pc + Size(i) <= |code| && code[pc + 1..pc + Size(i)] == Operands(i)
    ensures FetchQuant(code, pc) == Valid(i)
  {
    SizeOfEncoding(i);
    var s := Operands(i);
    Slice(code, pc + 1, s, 0, 4);
    Slice(code, pc + 1, s, 4, 8);
    Slice(code, pc + 1, s, 8, 12);
    Slice(code, pc + 1, s, 12, 16);
    assert s[0..4] == PutI32(i.next) && s[4..8] == PutU32(i.min);
    assert s[8..12] == PutU32(i.max) && s[12..16] == PutU32(i.count);
    GetPutI32(code, pc + 1, i.next);
    GetPutU32(code, pc + 5, i.min);
    GetPutU32(code, pc + 9, i.max);
    GetPutU32(code, pc + 13, i.count);
  }

  lemma FetchOpcode(i: Instr)
    ensures i.Range16? || i.Range32? <==> 29 <= Opcode(i) <= 32
    ensures i.SimpleGreedyQuant? <==> Opcode(i) == 38
    ensures !JumpOp(Opcode(i)) && !OperandOp(Opcode(i)) && !(29 <= Opcode(i) <= 32) && Opcode(i) != 38 ==>
              FetchPlain(Opcode(i)) == Valid(i)
  {
  }

  lemma FetchJumpOrOperand(code: seq<Byte>, pc: nat, i: Instr)
    requires !i.Range16? && !i.Range32? && !i.SimpleGreedyQuant? && Encodable(i)
    requires JumpOp(Opcode(i)) || OperandOp(Opcode(i))
    requires pc + Size(i) <= |code| && code[pc] == Opcode(i) && code[pc + 1..pc + Size(i)] == Operands(i)
    ensures JumpOp(Opcode(i)) ==> FetchJump(code, pc) == Valid(i)
    ensures OperandOp(Opcode(i)) ==> FetchOperand(code, pc) == Valid(i)
  {
    SizeOfEncoding(i);
    assert code[pc + 1] == code[pc + 1..pc + Size(i)][0];
    match i {
      case Char16(c, _) => GetPutU16(code, pc + 1, c);
      case Char32(c, _) => GetPutU32(code, pc + 1, c);
      case Goto(offset) => GetPutI32(code, pc + 1, offset);
      case Split(_, offset) => GetPutI32(code, pc + 1, offset);
      case SaveReset(lo, hi) => assert code[pc + 2] == code[pc + 1..pc + Size(i)][1];
      case Loop(offset) => GetPutI32(code, pc + 1, offset);
      case PushI32(v) => GetPutU32(code, pc + 1, v);
      case Lookahead(_, offset) => GetPutI32(code, pc + 1, offset);
      case _ =>
    }
  }

  /** Decoding undoes encoding, wherever the instruction is placed. */
  lemma FetchEncoded(code: seq<Byte>, pc: nat, i: Instr)
    requires Encodable(i)
    requires pc + Size(i) <= |code| && code[pc..pc + Size(i)] == Encode(i)
    ensures Fetch(code, pc) == Valid(i)
  {
    SizeOfEncoding(i);
    assert code[pc] == code[pc..pc + Size(i)][0];
    Slice(code, pc, Encode(i), 1, Size(i));
    assert Encode(i)[1..Size(i)] == Operands(i);
    if i.Range16? {
      FetchRange16(code, pc, i);
    } else if i.Range32? {
      FetchRange32(code, pc, i);
    } else if i.SimpleGreedyQuant? {
      FetchSimpleQuant(code, pc, i);
    } else if JumpOp(Opcode(i)) || OperandOp(Opcode(i)) {
      FetchJumpOrOperand(code, pc, i);
    } else {
      FetchOpcode(i);
    }
  }

  // ----- blocks of code -----

  function Assemble(block: seq<Instr>): (bytes: seq<Byte>)
    ensures |bytes| == Length(block)
  {
    if block == [] then [] else SizeOfEncoding(block[0]); Encode(block[0]) + Assemble(block[1..])
  }

  function Length(block: seq<Instr>): nat
  {
    if block == [] then 0 else Size(block[0]) + Length(block[1..])
  }

  lemma {:induction false} LengthAppend(a: seq<Instr>, b: seq<Instr>)
    ensures Length(a + b) == Length(a) + Length(b)
  {
    if a == [] {
      assert a + b == b;
    } else {
      assert (a + b)[1..] == a[1..] + b;
      LengthAppend(a[1..], b);
    }
  }

  lemma {:induction false} AssembleAppend(a: seq<Instr>, b: seq<Instr>)
    ensures Assemble(a + b) == Assemble(a) + Assemble(b)
  {
    if a == [] {
      assert a + b == b;
    } else {
      assert (a + b)[1..] == a[1..] + b;
      AssembleAppend(a[1..], b);
    }
  }

  /** `block` is what the interpreter finds at `pc`. */
  ghost predicate CodeAt(fetch: Decoder, pc: nat, block: seq<Instr>)
    decreases |block|
  {
    block == [] || (fetch(pc) == Valid(block[0]) && CodeAt(fetch, pc + Size(block[0]), block[1..]))
  }

  lemma {:induction false} CodeAtAppend(fetch: Decoder, pc: nat, a: seq<Instr>, b: seq<Instr>)
    ensures CodeAt(fetch, pc, a + b) <==> CodeAt(fetch, pc, a) && CodeAt(fetch, pc + Length(a), b)
    decreases |a|
  {
    if a == [] {
      assert a + b == b;
    } else {
      assert (a + b)[1..] == a[1..] + b;
      CodeAtAppend(fetch, pc + Size(a[0]), a[1..], b);
    }
  }

  predicate AllEncodable(block: seq<Instr>)
  {
    forall k :: 0 <= k < |block| ==> Encodable(block[k])
  }

  /** The bytes `s` are in the code at `pc`. */
  predicate Present(code: seq<Byte>, pc: nat, s: seq<Byte>)
  {
    pc + |s| <= |code| && code[pc..pc + |s|] == s
  }

  lemma PresentParts(code: seq<Byte>, pc: nat, a: seq<Byte>, b: seq<Byte>)
    requires Present(code, pc, a + b)
    ensures Present(code, pc, a) && Present(code, pc + |a|, b)
  {
    Slice(code, pc, a + b, 0, |a|);
    Slice(code, pc, a + b, |a|, |a| + |b|);
    assert (a + b)[0..|a|] == a && (a + b)[|a|..|a| + |b|] == b;
  }

  ghost predicate Decodes(fetch: Decoder, code: seq<Byte>)
  {
    forall pc: nat, i :: Encodable(i) && Present(code, pc, Encode(i)) ==> fetch(pc) == Valid(i)
  }

  lemma LoadDecodes(code: seq<Byte>)
    ensures Decodes(Load(code), code)
  {
    forall pc: nat, i | Encodable(i) && Present(code, pc, Encode(i))
      ensures Load(code)(pc) == Valid(i)
    {
      SizeOfEncoding(i);
      FetchEncoded(code, pc, i);
    }
  }

  /** An assembled block is found wherever its bytes are. */
  lemma {:induction false} AssembledCodeAt(fetch: Decoder, code: seq<Byte>, pc: nat, block: seq<Instr>)
    requires Decodes(fetch, code) && AllEncodable(block) && Present(code, pc, Assemble(block))
    ensures CodeAt(fetch, pc, block)
    decreases |block|
  {
    hide Encode, Encodable, Size;
    if block != [] {
      PresentParts(code, pc, Encode(block[0]), Assemble(block[1..]));
      SizeOfEncoding(block[0]);
      AssembledCodeAt(fetch, code, pc + Size(block[0]), block[1..]);
    }
  }
}
