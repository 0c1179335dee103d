/** Character classes with strings: what re_emit_string_list emits, and which strings it matches. */
module RegexStrings {
  import opened CharInput
  import opened RegexSyntax
  import opened RegexOpcode
  import opened RegexRange
  import opened RegexOutcomes
  import opened RegexCompile
  import opened RegexVm
  import opened RegexRuns
  import opened RegexLoops
  import opened RegexAdvance
  import opened RegexBalance
  import opened RegexSimple
  import opened RegexCorrect
  import opened RegexTheorem

  type Word = seq<CodePoint>

  // ----- the pattern -----

  /** A string as a pattern. */
  function WordRe(s: Word, icase: bool): Re
  {
    if s == [] then Empty else Seq(Char(s[0], icase), WordRe(s[1..], icase))
  }

  /** What comes after the strings: the single characters, and the empty string. */
  function RestRe(points: seq<nat>, hasEmpty: bool, icase: bool): Re
  {
    if points == [] then Empty
    else if hasEmpty then ClassOrEmpty(points, icase) else Class(points, icase)
  }

  /** Whether the last string is also the last alternative. */
  predicate Final(strs: seq<Word>, points: seq<nat>, hasEmpty: bool)
  {
    |strs| == 1 && points == [] && !hasEmpty
  }

  /** The strings one after the other, then the rest. */
  function StringsRe(strs: seq<Word>, points: seq<nat>, hasEmpty: bool, icase: bool): Re
  {
    if strs == [] then RestRe(points, hasEmpty, icase)
    else if Final(strs, points, hasEmpty) then WordRe(strs[0], icase)
    else Alt(WordRe(strs[0], icase), StringsRe(strs[1..], points, hasEmpty, icase))
  }

  // ----- the code -----

  function WordCode(s: Word, icase: bool): seq<Instr>
  {
    if s == [] then [] else [CharInstr(s[0], icase)] + WordCode(s[1..], icase)
  }

  /** The range falls through to the end, also as an alternative to the empty string. */
  function RestCode(points: seq<nat>, hasEmpty: bool, icase: bool): seq<Instr>
    requires ValidPoints(points)
  {
    if points == [] then []
    else if hasEmpty then OptionCode([RangeInstr(points, icase)], true) else [RangeInstr(points, icase)]
  }

  function StringsCode(strs: seq<Word>, points: seq<nat>, hasEmpty: bool, icase: bool): seq<Instr>
    requires ValidPoints(points)
  {
    if strs == [] then RestCode(points, hasEmpty, icase)
    else if Final(strs, points, hasEmpty) then WordCode(strs[0], icase)
    else AltCode(WordCode(strs[0], icase), StringsCode(strs[1..], points, hasEmpty, icase))
  }

  /** The strings of a class that ignores case are folded. */
  predicate Folded(canon: CodePoint -> CodePoint, s: Word, icase: bool)
  {
    icase ==> forall k :: 0 <= k < |s| ==> canon(s[k]) == s[k]
  }

  predicate AllFolded(canon: CodePoint -> CodePoint, strs: seq<Word>, icase: bool)
  {
    forall k :: 0 <= k < |strs| ==> Folded(canon, strs[k], icase)
  }

  lemma {:induction false} WordIs(canon: CodePoint -> CodePoint, s: Word, icase: bool, cc: nat)
    requires Folded(canon, s, icase)
    ensures WellFormed(WordRe(s, icase)) && Groups(WordRe(s, icase)) == 0
    ensures Code(canon, WordRe(s, icase), cc, false) == WordCode(s, icase)
    decreases |s|
  {
    hide RangeInstr, QuantCode;
    if s != [] {
      WordIs(canon, s[1..], icase, cc);
      CodeSeq(canon, Char(s[0], icase), WordRe(s[1..], icase), cc, false);
    }
  }

  lemma RestIs(canon: CodePoint -> CodePoint, points: seq<nat>, hasEmpty: bool, icase: bool, cc: nat)
    requires ValidPoints(points)
    ensures WellFormed(RestRe(points, hasEmpty, icase)) && Groups(RestRe(points, hasEmpty, icase)) == 0
    ensures Code(canon, RestRe(points, hasEmpty, icase), cc, false) == RestCode(points, hasEmpty, icase)
  {
    hide RangeInstr, QuantCode;
  }

  /** The code emitted for the strings is that of the alternatives: a class with strings is a pattern like others. */
  lemma {:induction false} StringsAre(
    canon: CodePoint -> CodePoint, strs: seq<Word>, points: seq<nat>, hasEmpty: bool, icase: bool, cc: nat)
    requires ValidPoints(points) && AllFolded(canon, strs, icase)
    ensures var r := StringsRe(strs, points, hasEmpty, icase);
            WellFormed(r) && Groups(r) == 0 && Code(canon, r, cc, false) == StringsCode(strs, points, hasEmpty, icase)
    decreases |strs|
  {
    hide Code, WordCode, RestCode, WordRe, RestRe, Folded, AltCode;
    if strs == [] {
      RestIs(canon, points, hasEmpty, icase, cc);
    } else {
      WordIs(canon, strs[0], icase, cc);
      if !Final(strs, points, hasEmpty) {
        var a, b := WordRe(strs[0], icase), StringsRe(strs[1..], points, hasEmpty, icase);
        StringsAre(canon, strs[1..], points, hasEmpty, icase, cc);
        CodeAlt(canon, a, b, cc, false);
      }
    }
  }

  lemma {:induction false} WordPeak(s: Word, icase: bool)
    ensures Peak(WordCode(s, icase)) == 0
  {
    if s != [] {
      WordPeak(s[1..], icase);
      assert ([CharInstr(s[0], icase)] + WordCode(s[1..], icase))[1..] == WordCode(s[1..], icase);
    }
  }

  lemma RestPeak(points: seq<nat>, hasEmpty: bool, icase: bool)
    requires ValidPoints(points)
    ensures Peak(RestCode(points, hasEmpty, icase)) == 0
  {
    hide Length, RangeInstr, Net, Low, Peak;
    NetEmpty();
    var i := RangeInstr(points, icase);
    RangeDelta(points, icase);
    One(i);
    LoopUses([i], 0, true);
  }

  lemma RangeDelta(points: seq<nat>, icase: bool)
    requires ValidPoints(points)
    ensures Delta(RangeInstr(points, icase)) == 0
  {
  }

  /** Nothing of it needs the value stack. */
  lemma {:induction false} StringsPeak(
    canon: CodePoint -> CodePoint, strs: seq<Word>, points: seq<nat>, hasEmpty: bool, icase: bool)
    requires ValidPoints(points) && AllFolded(canon, strs, icase)
    ensures Peak(StringsCode(strs, points, hasEmpty, icase)) == 0
    decreases |strs|
  {
    hide WordCode, RestCode, AltCode, Peak, Folded, Net, Low, Length;
    if strs == [] {
      RestPeak(points, hasEmpty, icase);
    } else {
      WordPeak(strs[0], icase);
      if !Final(strs, points, hasEmpty) {
        StringsPeak(canon, strs[1..], points, hasEmpty, icase);
        WordIs(canon, strs[0], icase, 0);
        StringsAre(canon, strs[1..], points, hasEmpty, icase, 0);
        CodeNeutral(canon, WordRe(strs[0], icase), 0, false);
        CodeNeutral(canon, StringsRe(strs[1..], points, hasEmpty, icase), 0, false);
        AltUses(WordCode(strs[0], icase), StringsCode(strs[1..], points, hasEmpty, icase));
      }
    }
  }

  // ----- what the code does -----

  /** Wherever it is placed, the code for the strings delivers the outcomes of the alternatives, in order. */
  lemma StringsImplement(
    e: Env, P: Program, strs: seq<Word>, points: seq<nat>, hasEmpty: bool, icase: bool, cc: nat, pc: nat)
    requires ValidProgram(P) && cc <= P.captureCount && ValidPoints(points) && AllFolded(e.canon, strs, icase)
    requires CodeAt(P.fetch, pc, StringsCode(strs, points, hasEmpty, icase))
    ensures Implements(e, P, pc, pc + Length(StringsCode(strs, points, hasEmpty, icase)), 0,
                       StringsRe(strs, points, hasEmpty, icase), cc, false)
  {
    hide Implements, CodeAt, Length, Peak, ValidProgram, Code, StringsCode, StringsRe;
    StringsAre(e.canon, strs, points, hasEmpty, icase, cc);
    StringsPeak(e.canon, strs, points, hasEmpty, icase);
    CodeImplements(e, P, StringsRe(strs, points, hasEmpty, icase), cc, false, pc);
  }

  // ----- what the alternatives match -----

  /** Where a string that is found at p ends. */
  function MatchEnd(e: Env, s: Word, icase: bool, p: nat): (q: MaybePos)
    requires p <= |e.text.units|
    ensures q.SomePos? ==> p <= q.pos <= |e.text.units|
    decreases |s|
  {
    if s == [] then SomePos(p)
    else if p == |e.text.units| || Fold(e, icase, CharAt(e.text, p, |e.text.units|)) != s[0] then NoPos
    else MatchEnd(e, s[1..], icase, NextPos(e.text, p, |e.text.units|))
  }

  /** The outcome of matching one string. */
  function Match1(e: Env, s: Word, icase: bool, x: St): seq<St>
    requires ValidSt(e, x)
  {
    var q := MatchEnd(e, s, icase, x.pos);
    if q.SomePos? then [x.(pos := q.pos)] else []
  }

  lemma {:induction false} WordOutcomes(e: Env, s: Word, icase: bool, cc: nat, x: St)
    requires ValidSt(e, x) && Folded(e.canon, s, icase)
    ensures Outcomes(e, WordRe(s, icase), cc, false, x) == Match1(e, s, icase, x)
    decreases |s|
  {
    hide Outcomes;
    if s == [] {
      OutcomesEmpty(e, cc, x);
    } else {
      var a, b := Char(s[0], icase), WordRe(s[1..], icase);
      OutcomesSeq(e, a, b, cc, false, x);
      var ys := OneChar(e, a, false, x);
      CharOutcomes(e, a, cc, x);
      if ys == [] {
        ThenNone(e, a, cc, b, cc, x, Seq(a, b));
      } else {
        ThenOne(e, a, cc, b, cc, x, Seq(a, b));
        WordOutcomes(e, s[1..], icase, cc, ys[0]);
      }
    }
  }

  lemma CharOutcomes(e: Env, a: Re, cc: nat, x: St)
    requires ValidSt(e, x) && (a.Char? || a.Class?)
    ensures Outcomes(e, a, cc, false, x) == OneChar(e, a, false, x)
  {
  }

  lemma ThenNone(e: Env, a: Re, ca: nat, b: Re, cb: nat, x: St, whole: Re)
    requires ValidSt(e, x) && a < whole && b < whole && Outcomes(e, a, ca, false, x) == []
    ensures Then(e, a, ca, b, cb, false, x, whole) == []
  {
  }

  lemma ThenOne(e: Env, a: Re, ca: nat, b: Re, cb: nat, x: St, whole: Re)
    requires ValidSt(e, x) && a < whole && b < whole && |Outcomes(e, a, ca, false, x)| == 1
    ensures ValidSt(e, Outcomes(e, a, ca, false, x)[0])
    ensures Then(e, a, ca, b, cb, false, x, whole) == Outcomes(e, b, cb, false, Outcomes(e, a, ca, false, x)[0])
  {
    hide Outcomes;
    var ys := Outcomes(e, a, ca, false, x);
    assert AllFollow(e, false, x, ys);
    assert Follows(e, false, x, ys[0]);
    var zss := seq(|ys|, i requires 0 <= i < |ys| => Outcomes(e, b, cb, false, ys[i]));
    assert zss == [Outcomes(e, b, cb, false, ys[0])];
    assert zss[1..] == [] && Flat(zss) == zss[0] + Flat(zss[1..]);
    assert Then(e, a, ca, b, cb, false, x, whole) == Flat(zss) by { ThenIs(e, a, ca, b, cb, x, whole); }
  }

  lemma ThenIs(e: Env, a: Re, ca: nat, b: Re, cb: nat, x: St, whole: Re)
    requires ValidSt(e, x) && a < whole && b < whole
    ensures var ys := Outcomes(e, a, ca, false, x);
            AllFollow(e, false, x, ys) &&
            Then(e, a, ca, b, cb, false, x, whole) ==
            Flat(seq(|ys|, i requires 0 <= i < |ys| => Outcomes(e, b, cb, false, ys[i])))
  {
    hide Outcomes;
  }

  /** The strings of the class. */
  ghost predicate InStrings(strs: seq<Word>, points: seq<nat>, hasEmpty: bool, s: Word)
  {
    s in strs || (|s| == 1 && InPoints(points, s[0])) || (hasEmpty && s == [])
  }

  /** The strings that match, in the order in which they are tried. */
  function Matches(e: Env, ws: seq<Word>, icase: bool, x: St): seq<St>
    requires ValidSt(e, x)
  {
    if ws == [] then [] else Match1(e, ws[0], icase, x) + Matches(e, ws[1..], icase, x)
  }

  /** The character at x as a string of length one, if the class has it. */
  ghost function ClassWord(e: Env, points: seq<nat>, icase: bool, x: St): seq<Word>
    requires ValidSt(e, x)
  {
    if x.pos == |e.text.units| then []
    else
      var c := Fold(e, icase, CharAt(e.text, x.pos, |e.text.units|));
      if InPoints(points, c) then [[c]] else []
  }

  /** All the candidates at x. */
  ghost function Candidates(e: Env, strs: seq<Word>, points: seq<nat>, hasEmpty: bool, icase: bool, x: St): seq<Word>
    requires ValidSt(e, x)
  {
    strs + ClassWord(e, points, icase, x) + if hasEmpty then [[]] else []
  }

  lemma {:induction false} MatchesAppend(e: Env, a: seq<Word>, b: seq<Word>, icase: bool, x: St)
    requires ValidSt(e, x)
    ensures Matches(e, a + b, icase, x) == Matches(e, a, icase, x) + Matches(e, b, icase, x)
    decreases |a|
  {
    if a == [] {
      assert a + b == b;
    } else {
      MatchesAppend(e, a[1..], b, icase, x);
      assert (a + b)[1..] == a[1..] + b;
    }
  }

  lemma MatchesOne(e: Env, s: Word, icase: bool, x: St)
    requires ValidSt(e, x)
    ensures Matches(e, [s], icase, x) == Match1(e, s, icase, x) && Matches(e, [], icase, x) == []
  {
    assert [s][1..] == [];
  }

  lemma ClassOutcomes(e: Env, points: seq<nat>, icase: bool, cc: nat, x: St)
    requires ValidSt(e, x)
    ensures Outcomes(e, Class(points, icase), cc, false, x) == Matches(e, ClassWord(e, points, icase, x), icase, x)
  {
    CharOutcomes(e, Class(points, icase), cc, x);
    var ws := ClassWord(e, points, icase, x);
    if ws != [] {
      MatchesOne(e, ws[0], icase, x);
      assert ws == [ws[0]];
      var q := NextPos(e.text, x.pos, |e.text.units|);
      assert ws[0][1..] == [] && MatchEnd(e, [], icase, q) == SomePos(q);
      assert MatchEnd(e, ws[0], icase, x.pos) == SomePos(q);
      assert OneChar(e, Class(points, icase), false, x) == [x.(pos := q)];
    } else {
      MatchesOne(e, [], icase, x);
      assert OneChar(e, Class(points, icase), false, x) == [];
    }
  }

  lemma RestOutcomes(e: Env, points: seq<nat>, hasEmpty: bool, icase: bool, cc: nat, x: St)
    requires ValidSt(e, x) && ValidPoints(points) && (points != [] || hasEmpty)
    ensures Outcomes(e, RestRe(points, hasEmpty, icase), cc, false, x) ==
            Matches(e, Candidates(e, [], points, hasEmpty, icase, x), icase, x)
  {
    hide Outcomes, Matches;
    var ws := ClassWord(e, points, icase, x);
    MatchesOne(e, [], icase, x);
    MatchesAppend(e, ws, [[]], icase, x);
    assert [] + ws == ws && ws + [] == ws;
    OutcomesEmpty(e, cc, x);
    ClassOutcomes(e, points, icase, cc, x);
    if points == [] {
      NoClass(e, icase, x);
      var none: seq<Word> := [];
      assert none + [[]] == [[]];
    } else if hasEmpty {
      OrEmptyOutcomes(e, points, icase, cc, x);
    }
  }

  lemma OrEmptyOutcomes(e: Env, points: seq<nat>, icase: bool, cc: nat, x: St)
    requires ValidSt(e, x)
    ensures Outcomes(e, ClassOrEmpty(points, icase), cc, false, x) == Outcomes(e, Class(points, icase), cc, false, x) + [x]
  {
  }

  lemma OutcomesEmpty(e: Env, cc: nat, x: St)
    requires ValidSt(e, x)
    ensures Outcomes(e, Empty, cc, false, x) == [x]
  {
  }

  lemma NoClass(e: Env, icase: bool, x: St)
    requires ValidSt(e, x)
    ensures ClassWord(e, [], icase, x) == []
  {
  }

  lemma CandidatesCons(e: Env, strs: seq<Word>, points: seq<nat>, hasEmpty: bool, icase: bool, x: St)
    requires ValidSt(e, x) && strs != []
    ensures Candidates(e, strs, points, hasEmpty, icase, x) == [strs[0]] + Candidates(e, strs[1..], points, hasEmpty, icase, x)
  {
    hide ClassWord;
    assert strs == [strs[0]] + strs[1..];
  }

  /** The outcomes of the alternatives are those of the candidates, in order. */
  lemma {:induction false} StringsOutcomes(
    e: Env, strs: seq<Word>, points: seq<nat>, hasEmpty: bool, icase: bool, cc: nat, x: St)
    requires ValidSt(e, x) && ValidPoints(points) && AllFolded(e.canon, strs, icase)
    requires strs != [] || points != [] || hasEmpty
    ensures Outcomes(e, StringsRe(strs, points, hasEmpty, icase), cc, false, x) ==
            Matches(e, Candidates(e, strs, points, hasEmpty, icase, x), icase, x)
    decreases |strs|
  {
    hide Outcomes, Matches, WordRe, RestRe, Folded, ClassWord, ValidSt, ValidPoints;
    if strs == [] {
      RestOutcomes(e, points, hasEmpty, icase, cc, x);
    } else {
      var all := Candidates(e, strs, points, hasEmpty, icase, x);
      WordOutcomes(e, strs[0], icase, cc, x);
      MatchesOne(e, strs[0], icase, x);
      if Final(strs, points, hasEmpty) {
        NoClass(e, icase, x);
        assert all == [strs[0]];
      } else {
        var rest := Candidates(e, strs[1..], points, hasEmpty, icase, x);
        WordIs(e.canon, strs[0], icase, cc);
        OutcomesAlt(e, WordRe(strs[0], icase), StringsRe(strs[1..], points, hasEmpty, icase), cc, false, x);
        StringsOutcomes(e, strs[1..], points, hasEmpty, icase, cc, x);
        MatchesAppend(e, [strs[0]], rest, icase, x);
        CandidatesCons(e, strs, points, hasEmpty, icase, x);
      }
    }
  }

  lemma {:induction false} MatchesHas(e: Env, ws: seq<Word>, icase: bool, x: St, y: St)
    requires ValidSt(e, x)
    ensures y in Matches(e, ws, icase, x) <==> exists s :: s in ws && y in Match1(e, s, icase, x)
    decreases |ws|
  {
    hide Match1;
    if ws != [] {
      MatchesHas(e, ws[1..], icase, x, y);
      if s :| s in ws && y in Match1(e, s, icase, x) {
        assert s == ws[0] || s in ws[1..];
      }
    }
  }

  /** The code matches exactly the strings of the class. */
  lemma StringsMatch(e: Env, strs: seq<Word>, points: seq<nat>, hasEmpty: bool, icase: bool, cc: nat, x: St, y: St)
    requires ValidSt(e, x) && ValidPoints(points) && AllFolded(e.canon, strs, icase)
    requires strs != [] || points != [] || hasEmpty
    ensures y in Outcomes(e, StringsRe(strs, points, hasEmpty, icase), cc, false, x) <==>
            exists s :: InStrings(strs, points, hasEmpty, s) && y in Match1(e, s, icase, x)
  {
    hide Outcomes, Matches, StringsRe, InPoints;
    var ws := Candidates(e, strs, points, hasEmpty, icase, x);
    StringsOutcomes(e, strs, points, hasEmpty, icase, cc, x);
    MatchesHas(e, ws, icase, x, y);
    if s :| s in ws && y in Match1(e, s, icase, x) {
      assert InStrings(strs, points, hasEmpty, s);
    }
    if s :| InStrings(strs, points, hasEmpty, s) && y in Match1(e, s, icase, x) {
      CandidateHas(e, strs, points, hasEmpty, icase, x, s);
    }
  }

  lemma CandidateHas(e: Env, strs: seq<Word>, points: seq<nat>, hasEmpty: bool, icase: bool, x: St, s: Word)
    requires ValidSt(e, x) && InStrings(strs, points, hasEmpty, s) && Match1(e, s, icase, x) != []
    ensures s in Candidates(e, strs, points, hasEmpty, icase, x)
  {
    if |s| == 1 && InPoints(points, s[0]) {
      assert s == [s[0]];
      assert s in ClassWord(e, points, icase, x);
    }
  }

  /** Longer strings first. */
  ghost predicate LongestFirst(ws: seq<Word>)
  {
    forall i, j :: 0 <= i < j < |ws| ==> |ws[i]| >= |ws[j]|
  }

  lemma CandidatesLongestFirst(e: Env, strs: seq<Word>, points: seq<nat>, hasEmpty: bool, icase: bool, x: St)
    requires ValidSt(e, x) && LongestFirst(strs) && forall k :: 0 <= k < |strs| ==> |strs[k]| > 1
    ensures LongestFirst(Candidates(e, strs, points, hasEmpty, icase, x))
  {
  }
}
