/** re_emit_string_list: the strings of a class, longest first, with their gotos chained through the
    operands until the end is known. */
module StringEmitter {
  import opened CharInput
  import opened RegexSyntax
  import opened RegexOpcode
  import opened RegexRange
  import opened RegexCompile
  import opened RegexOutcomes
  import opened RegexBytes
  import opened RegexEmitter
  import opened RegexStrings
  import opened SortOrder
  import opened Rqsort

  // ----- the chain of gotos -----

  /** The operand of the last goto, or -1 if there is none. */
  function HoleBefore(base: nat, bodies: seq<seq<Byte>>): int
    decreases |bodies|, 1
  {
    if bodies == [] then -1 else base + |Linked(base, bodies)| - 4
  }

  /** The code while the end is not known: after each body an operand that holds the place of the one before. */
  function Linked(base: nat, bodies: seq<seq<Byte>>): (s: seq<Byte>)
    ensures |s| >= 4 * |bodies|
    decreases |bodies|, 0
  {
    if bodies == [] then []
    else
      var m := |bodies| - 1;
      Linked(base, bodies[..m]) + bodies[m] + PutI32(HoleBefore(base, bodies[..m]))
  }

  /** The code with every operand leading to the end. */
  function Patched(bodies: seq<seq<Byte>>, tail: seq<Byte>): seq<Byte>
  {
    if bodies == [] then tail
    else
      var rest := Patched(bodies[1..], tail);
      bodies[0] + PutI32(|rest|) + rest
  }

  lemma LinkedSnoc(base: nat, bodies: seq<seq<Byte>>, b: seq<Byte>)
    ensures Linked(base, bodies + [b]) == Linked(base, bodies) + b + PutI32(HoleBefore(base, bodies))
    ensures HoleBefore(base, bodies + [b]) == base + |Linked(base, bodies)| + |b|
  {
    assert (bodies + [b])[..|bodies|] == bodies;
  }

  /** The code around the last operand that is still linked. */
  lemma LastLink(pre: seq<Byte>, front: seq<seq<Byte>>, b: seq<Byte>, rest: seq<Byte>, code: seq<Byte>)
    requires code == pre + Linked(|pre|, front + [b]) + rest
    ensures code == pre + (Linked(|pre|, front) + b + PutI32(HoleBefore(|pre|, front))) + rest
    ensures HoleBefore(|pre|, front + [b]) == |pre| + |Linked(|pre|, front)| + |b|
  {
    hide PutI32, Linked, HoleBefore;
    LinkedSnoc(|pre|, front, b);
  }

  /** The operand says where the one before it is. */
  lemma ReadLink(pre: seq<Byte>, front: seq<seq<Byte>>, b: seq<Byte>, code: seq<Byte>, pos: nat)
    requires pos + 4 <= |code| <= CODE_LIMIT && pos == HoleBefore(|pre|, front + [b])
    requires code[pos..pos + 4] == PutI32(HoleBefore(|pre|, front))
    ensures GetI32(code, pos) == HoleBefore(|pre|, front)
  {
    hide PutI32, GetI32, Linked, HoleBefore;
    LinkedSnoc(|pre|, front, b);
    HoleFits(|pre|, front);
    GetPutI32(code, pos, HoleBefore(|pre|, front));
  }

  lemma HoleFits(base: nat, bodies: seq<seq<Byte>>)
    ensures -1 <= HoleBefore(base, bodies) < base + |Linked(base, bodies)|
  {
  }

  lemma PatchedCons(bodies: seq<seq<Byte>>, k: nat, tail: seq<Byte>)
    requires k < |bodies|
    ensures var rest := Patched(bodies[k + 1..], tail);
            Patched(bodies[k..], tail) == bodies[k] + PutI32(|rest|) + rest
  {
    assert bodies[k..][1..] == bodies[k + 1..];
  }

  lemma PatchSeq(pre: seq<Byte>, linked: seq<Byte>, b: seq<Byte>, hole: seq<Byte>, rest: seq<Byte>, code: seq<Byte>, patch: seq<Byte>)
    requires |hole| == 4 && code == pre + (linked + b + hole) + rest
    ensures var pos := |pre| + |linked| + |b|;
            |code| == pos + 4 + |rest| && code[pos..pos + 4] == hole &&
            code[..pos] + patch + code[pos + 4..] == pre + linked + (b + patch + rest)
  {
    var head := pre + linked + b;
    assert code == head + hole + rest;
    assert head + patch + rest == pre + linked + (b + patch + rest);
  }

  // ----- the bytes of the alternatives -----

  /** A string with its split and the opcode of its goto. */
  function Body(s: Word, icase: bool): seq<Byte>
  {
    Assemble([Split(true, Length(WordCode(s, icase)) + 5)]) + Assemble(WordCode(s, icase)) + [11]
  }

  function Bodies(strs: seq<Word>, icase: bool): (bs: seq<seq<Byte>>)
    ensures |bs| == |strs|
  {
    seq(|strs|, i requires 0 <= i < |strs| => Body(strs[i], icase))
  }

  /** The alternatives with a goto, and what comes after them. */
  function Chained(strs: seq<Word>, points: seq<nat>, hasEmpty: bool): nat
  {
    if strs != [] && points == [] && !hasEmpty then |strs| - 1 else |strs|
  }

  function LastCode(strs: seq<Word>, points: seq<nat>, hasEmpty: bool, icase: bool): seq<Instr>
    requires ValidPoints(points)
  {
    if strs != [] && points == [] && !hasEmpty then WordCode(strs[|strs| - 1], icase) else RestCode(points, hasEmpty, icase)
  }

  lemma {:induction false} StringsBytes(strs: seq<Word>, points: seq<nat>, hasEmpty: bool, icase: bool)
    requires ValidPoints(points)
    ensures Assemble(StringsCode(strs, points, hasEmpty, icase)) ==
            Patched(Bodies(strs[..Chained(strs, points, hasEmpty)], icase), Assemble(LastCode(strs, points, hasEmpty, icase)))
    decreases |strs|
  {
    hide Assemble, WordCode, RestCode, Length, PutI32, Body;
    if strs == [] || Final(strs, points, hasEmpty) {
    } else {
      var rest := strs[1..];
      var n := Chained(strs, points, hasEmpty);
      StringsBytes(rest, points, hasEmpty, icase);
      AltBytes(WordCode(strs[0], icase), StringsCode(rest, points, hasEmpty, icase));
      assert strs[..n][0] == strs[0] && strs[..n][1..] == rest[..n - 1];
      assert Bodies(strs[..n], icase)[1..] == Bodies(rest[..n - 1], icase);
      BodyThen(strs[0], icase, StringsCode(rest, points, hasEmpty, icase));
    }
  }

  lemma BodyThen(s: Word, icase: bool, rest: seq<Instr>)
    ensures Body(s, icase) + PutI32(Length(rest)) + Assemble(rest) == Assemble(AltCode(WordCode(s, icase), rest))
  {
    hide Assemble, WordCode, Length, PutI32;
    var a := WordCode(s, icase);
    AltBytes(a, rest);
    var x, y := Assemble([Split(true, Length(a) + 5)]), Assemble(a);
    GroupedLast(x + y, [11], PutI32(Length(rest)), Assemble(rest));
  }

  lemma GroupedLast(x: seq<Byte>, y: seq<Byte>, z: seq<Byte>, w: seq<Byte>)
    ensures x + y + z + w == x + (y + z) + w
  {
  }

  // ----- emission -----

  /** re_emit_char for each character of a string. */
  method EmitWord(s: Emitter, w: Word, icase: bool)
    modifies s`code
    ensures s.code == old(s.code) + Assemble(WordCode(w, icase))
  {
    hide Assemble, Encode;
    ghost var was := s.code;
    assert w[..0] == [];
    WordNone(icase);
    for k := 0 to |w|
      invariant s.code == was + Assemble(WordCode(w[..k], icase))
    {
      s.EmitInstr(CharInstr(w[k], icase));
      assert w[..k + 1] == w[..k] + [w[k]];
      WordSnoc(w[..k], w[k], icase);
    }
    assert w[..|w|] == w;
  }

  lemma WordNone(icase: bool)
    ensures Assemble(WordCode([], icase)) == []
  {
  }

  lemma {:induction false} WordSnoc(s: Word, c: CodePoint, icase: bool)
    ensures Assemble(WordCode(s + [c], icase)) == Assemble(WordCode(s, icase)) + Encode(CharInstr(c, icase))
    decreases |s|
  {
    hide Encode, CharInstr, Assemble;
    if s == [] {
      assert s + [c] == [c] && [c][1..] == [];
      AssembleOne(CharInstr(c, icase));
      assert WordCode([c], icase) == [CharInstr(c, icase)];
      WordNone(icase);
    } else {
      assert (s + [c])[1..] == s[1..] + [c];
      WordSnoc(s[1..], c, icase);
      AssembleAppend([CharInstr(s[0], icase)], WordCode(s[1..], icase));
      AssembleAppend([CharInstr(s[0], icase)], WordCode(s[1..] + [c], icase));
    }
  }

  /** One string with its split and its goto, which is linked to the one before. */
  method EmitAlternative(s: Emitter, w: Word, icase: bool, last0: int) returns (last: int)
    modifies s`code
    ensures s.code == old(s.code) + Body(w, icase) + PutI32(last0)
    ensures last == |s.code| - 4
  {
    hide Assemble, Encode, WordCode, Length, PutI32;
    ghost var was := s.code;
    SplitIs(0);
    var splitPos := |s.code| + 1;
    s.EmitInstr(Split(true, 0));
    EmitWord(s, w, icase);
    GotoIs(last0);
    s.EmitInstr(Goto(last0));
    last := |s.code| - 4;
    var n := |s.code| - (splitPos + 4);
    SplitIs(n);
    LookParts(was, 13, PutI32(0), Assemble(WordCode(w, icase)), [11] + PutI32(last0), PutI32(n));
    s.Store(splitPos, PutI32(n));
    AssembleOne(Split(true, n));
    assert s.code == was + ([13] + PutI32(n) + Assemble(WordCode(w, icase)) + ([11] + PutI32(last0)));
    assert n == Length(WordCode(w, icase)) + 5;
  }

  lemma GotoIs(n: int)
    ensures Encode(Goto(n)) == [11] + PutI32(n)
  {
    hide PutI32;
  }

  // ----- all of them -----

  /** Strings in the order of decreasing length. */
  function LengthCmp(v: Word, w: Word): int
  {
    (if |v| < |w| then 1 else 0) - (if |v| > |w| then 1 else 0)
  }

  lemma LengthOrders()
    ensures Preorder(LengthCmp)
  {
  }

  /** The sort by re_string_cmp_len. */
  method SortByLength(ws: seq<Word>) returns (strs: seq<Word>)
    ensures multiset(strs) == multiset(ws) && LongestFirst(strs)
  {
    var tab := new Word[|ws|](i requires 0 <= i < |ws| => ws[i]);
    assert tab[..] == ws;
    LengthOrders();
    Sort(tab, LengthCmp);
    strs := tab[..];
    forall i, j | 0 <= i < j < |strs|
      ensures |strs[i]| >= |strs[j]|
    {
      assert Le(LengthCmp, strs[i], strs[j]);
    }
  }

  /** The loop over the strings. */
  method EmitAlternatives(s: Emitter, strs: seq<Word>, points: seq<nat>, hasEmpty: bool, icase: bool) returns (last: int)
    modifies s`code
    ensures var n := Chained(strs, points, hasEmpty);
            s.code == old(s.code) + Linked(|old(s.code)|, Bodies(strs[..n], icase)) +
                      (if n < |strs| then Assemble(WordCode(strs[n], icase)) else []) &&
            last == HoleBefore(|old(s.code)|, Bodies(strs[..n], icase))
  {
    hide Assemble, WordCode, Linked, HoleBefore, Body, PutI32;
    ghost var pre := s.code;
    last := -1;
    NoBodies(|pre|, strs, icase);
    for i := 0 to |strs|
      invariant i <= Chained(strs, points, hasEmpty) ==>
                  s.code == pre + Linked(|pre|, Bodies(strs[..i], icase)) && last == HoleBefore(|pre|, Bodies(strs[..i], icase))
      invariant i > Chained(strs, points, hasEmpty) ==>
                  i == |strs| && last == HoleBefore(|pre|, Bodies(strs[..i - 1], icase)) &&
                  s.code == pre + Linked(|pre|, Bodies(strs[..i - 1], icase)) + Assemble(WordCode(strs[i - 1], icase))
    {
      var isLast := !hasEmpty && points == [] && i == |strs| - 1;
      if !isLast {
        ghost var linked, body := Linked(|pre|, Bodies(strs[..i], icase)), Body(strs[i], icase);
        ghost var link := last;
        last := EmitAlternative(s, strs[i], icase, last);
        MoreBodies(|pre|, strs, i, icase);
        assert s.code == pre + (linked + body + PutI32(link));
      } else {
        EmitWord(s, strs[i], icase);
      }
    }
  }

  lemma NoBodies(base: nat, strs: seq<Word>, icase: bool)
    ensures Linked(base, Bodies(strs[..0], icase)) == [] && HoleBefore(base, Bodies(strs[..0], icase)) == -1
  {
    assert Bodies(strs[..0], icase) == [];
  }

  lemma MoreBodies(base: nat, strs: seq<Word>, i: nat, icase: bool)
    requires i < |strs|
    ensures Linked(base, Bodies(strs[..i + 1], icase)) ==
            Linked(base, Bodies(strs[..i], icase)) + Body(strs[i], icase) + PutI32(HoleBefore(base, Bodies(strs[..i], icase)))
    ensures HoleBefore(base, Bodies(strs[..i + 1], icase)) == base + |Linked(base, Bodies(strs[..i + 1], icase))| - 4
  {
    hide Linked, HoleBefore, Body, PutI32;
    assert Bodies(strs[..i + 1], icase) == Bodies(strs[..i], icase) + [Body(strs[i], icase)];
    LinkedSnoc(base, Bodies(strs[..i], icase), Body(strs[i], icase));
    PutSize(HoleBefore(base, Bodies(strs[..i], icase)));
  }

  /** The single characters, as an alternative to the empty string if that is in the class. */
  method EmitRest(s: Emitter, points: seq<nat>, hasEmpty: bool, icase: bool) returns (ok: bool)
    requires ValidPoints(points)
    modifies s`code
    ensures ok <==> |points| / 2 < 65535
    ensures ok ==> s.code == old(s.code) + Assemble(RestCode(points, hasEmpty, icase))
  {
    hide Assemble, Encode, RangeInstr, ValidPoints, PutI32;
    NoBytes();
    if points == [] {
      return true;
    }
    AssembleOne(RangeInstr(points, icase));
    if hasEmpty {
      ok := s.EmitClassOrEmpty(points, icase, false);
    } else {
      ok := s.EmitRange(points, icase);
    }
  }

  /** The loop that patches the gotos, from the last to the first. */
  method PatchGotos(s: Emitter, last0: int, ghost pre: seq<Byte>, ghost bodies: seq<seq<Byte>>, ghost tail: seq<Byte>)
    requires s.code == pre + Linked(|pre|, bodies) + tail && |s.code| <= CODE_LIMIT && last0 == HoleBefore(|pre|, bodies)
    modifies s`code
    ensures s.code == pre + Patched(bodies, tail)
  {
    hide Linked, Patched, HoleBefore, PutI32, GetI32;
    var last := last0;
    ghost var m := |bodies|;
    assert bodies[..m] == bodies && bodies[m..] == [];
    PatchStart(|pre|, bodies, tail);
    while last != -1
      invariant 0 <= m <= |bodies| && |s.code| == |old(s.code)|
      invariant s.code == pre + Linked(|pre|, bodies[..m]) + Patched(bodies[m..], tail)
      invariant last == HoleBefore(|pre|, bodies[..m])
      decreases m
    {
      HoleMeans(|pre|, bodies, m);
      ghost var front, b, rest := bodies[..m - 1], bodies[m - 1], Patched(bodies[m..], tail);
      assert bodies[..m] == front + [b];
      LastLink(pre, front, b, rest, s.code);
      PutSize(HoleBefore(|pre|, front));
      PatchSeq(pre, Linked(|pre|, front), b, PutI32(HoleBefore(|pre|, front)), rest, s.code, PutI32(|rest|));
      ReadLink(pre, front, b, s.code, last);
      PatchedCons(bodies, m - 1, tail);
      PutSize(|rest|);
      var next := GetI32(s.code, last);
      s.Store(last, PutI32(|s.code| - (last + 4)));
      last := next;
      m := m - 1;
    }
    HoleMeans(|pre|, bodies, m);
    NothingLinked(|pre|);
    assert bodies[..0] == [] && bodies[0..] == bodies;
  }

  lemma PatchStart(base: nat, bodies: seq<seq<Byte>>, tail: seq<Byte>)
    ensures Patched(bodies[|bodies|..], tail) == tail
  {
  }

  lemma NothingLinked(base: nat)
    ensures Linked(base, []) == []
  {
  }

  lemma HoleMeans(base: nat, bodies: seq<seq<Byte>>, m: nat)
    requires m <= |bodies|
    ensures HoleBefore(base, bodies[..m]) == -1 <==> m == 0
    ensures m > 0 ==> HoleBefore(base, bodies[..m]) >= 0
  {
  }

  /** In whatever order, the code is not too long for its places to be 32-bit numbers. */
  ghost predicate InLimit(size: nat, ws: seq<Word>, points: seq<nat>, hasEmpty: bool, icase: bool)
    requires ValidPoints(points)
  {
    forall strs :: multiset(strs) == multiset(ws) ==> size + Length(StringsCode(strs, points, hasEmpty, icase)) <= CODE_LIMIT
  }

  lemma InLimitAt(size: nat, ws: seq<Word>, strs: seq<Word>, points: seq<nat>, hasEmpty: bool, icase: bool)
    requires ValidPoints(points) && InLimit(size, ws, points, hasEmpty, icase) && multiset(strs) == multiset(ws)
    ensures size + |Assemble(StringsCode(strs, points, hasEmpty, icase))| <= CODE_LIMIT
  {
    hide ValidPoints, StringsCode;
  }

  /** re_emit_string_list, for a class with at least one string: its strings of other lengths than one and
      its single characters. */
  method EmitStringList(s: Emitter, ws: seq<Word>, points: seq<nat>, hasEmpty: bool, icase: bool)
    returns (ok: bool, ghost strs: seq<Word>)
    requires ValidPoints(points) && (ws != [] || hasEmpty) && (forall k :: 0 <= k < |ws| ==> |ws[k]| > 1)
    requires InLimit(|s.code|, ws, points, hasEmpty, icase)
    modifies s`code
    ensures multiset(strs) == multiset(ws) && LongestFirst(strs)
    ensures ok <==> |points| / 2 < 65535
    ensures ok ==> s.code == old(s.code) + Assemble(StringsCode(strs, points, hasEmpty, icase))
  {
    hide Assemble, RestCode, WordCode, Linked, Patched, HoleBefore, Body, PutI32, ValidPoints, StringsCode;
    ghost var pre := s.code;
    var tab := SortByLength(ws);
    strs := tab;
    var last := EmitAlternatives(s, tab, points, hasEmpty, icase);
    ghost var n := Chained(strs, points, hasEmpty);
    ok := EmitRest(s, points, hasEmpty, icase);
    if !ok {
      return;
    }
    ghost var tail := Assemble(LastCode(strs, points, hasEmpty, icase));
    LastIs(strs, points, hasEmpty, icase);
    assert s.code == pre + Linked(|pre|, Bodies(strs[..n], icase)) + tail;
    StringsBytes(strs, points, hasEmpty, icase);
    SizeKept(|pre|, Bodies(strs[..n], icase), tail);
    InLimitAt(|pre|, ws, strs, points, hasEmpty, icase);
    PatchGotos(s, last, pre, Bodies(strs[..n], icase), tail);
  }

  lemma LastIs(strs: seq<Word>, points: seq<nat>, hasEmpty: bool, icase: bool)
    requires ValidPoints(points)
    ensures var n := Chained(strs, points, hasEmpty);
            Assemble(LastCode(strs, points, hasEmpty, icase)) ==
            (if n < |strs| then Assemble(WordCode(strs[n], icase)) else []) + Assemble(RestCode(points, hasEmpty, icase))
  {
    hide WordCode, RangeInstr;
    NoBytes();
  }

  /** Patching does not change the length. */
  lemma {:induction false} SizeKept(base: nat, bodies: seq<seq<Byte>>, tail: seq<Byte>)
    ensures |Linked(base, bodies)| + |tail| == |Patched(bodies, tail)|
    decreases |bodies|
  {
    if bodies != [] {
      var m := |bodies| - 1;
      SizeKept(base, bodies[..m], bodies[m] + PutI32(|tail|) + tail);
      PatchedSnoc(bodies[..m], bodies[m], tail);
      assert bodies == bodies[..m] + [bodies[m]];
    }
  }

  lemma {:induction false} PatchedSnoc(bodies: seq<seq<Byte>>, b: seq<Byte>, tail: seq<Byte>)
    ensures Patched(bodies + [b], tail) == Patched(bodies, b + PutI32(|tail|) + tail)
    decreases |bodies|
  {
    if bodies != [] {
      PatchedSnoc(bodies[1..], b, tail);
      assert (bodies + [b])[1..] == bodies[1..] + [b];
    } else {
      assert (bodies + [b])[1..] == [];
    }
  }
}
