/** Case conversion by a table of runs, and the characters that it changes. */
module CaseConv {
  import opened RegexSyntax
  import opened CharSets

  datatype RunType =
    | U | L | UF | LF | UL | LSU | U2L_399_EXT2 | UF_D20 | UF_D1_EXT | U_EXT | LF_EXT | UF_EXT2 | LF_EXT2 | UF_EXT3

  /** A table entry, unpacked: len characters from code on, converted as kind says with the help of data. */
  datatype Run = Run(code: nat, len: nat, kind: RunType, data: nat)

  type Uint16 = x: nat | x < 0x1_0000

  /** case_conv_table1 with case_conv_table2, and case_conv_ext. */
  datatype CaseData = CaseData(runs: seq<Run>, ext: seq<Uint16>)

  datatype Conv = ToUpper | ToLower | Folding

  predicate InRun(r: Run, c: nat)
  {
    r.code <= c < r.code + r.len
  }

  ghost predicate InTable(t: CaseData, c: nat)
  {
    exists k :: 0 <= k < |t.runs| && InRun(t.runs[k], c)
  }

  // ----- what is asked of the table -----

  /** The fields have their widths, the data points into the tables, and the characters of alternating
      runs come in whole groups. */
  predicate GoodRun(t: CaseData, r: Run)
  {
    r.code < 0x2_0000 && r.len < 0x80 && r.data < 0x1000 &&
    match r.kind
    case U | L | UF | LF => r.data < |t.runs| && t.runs[r.data].code < 0x2_0000
    case UL => r.len % 2 == 0
    case LSU => r.len == 3
    case U2L_399_EXT2 | UF_EXT2 | LF_EXT2 => r.data / 64 < |t.ext| && r.data % 64 < |t.ext|
    case UF_D20 => true
    case UF_D1_EXT | U_EXT | LF_EXT => r.data < |t.ext|
    case UF_EXT3 => r.data / 256 < |t.ext| && r.data / 16 % 16 < |t.ext| && r.data % 16 < |t.ext|
  }

  /** The runs are in order and do not overlap. */
  ghost predicate InOrder(runs: seq<Run>)
  {
    forall i, j :: 0 <= i < j < |runs| ==> runs[i].code + runs[i].len <= runs[j].code
  }

  /** The first two runs are the ASCII letters, and there are no other ASCII characters. */
  ghost predicate AsciiFirst(runs: seq<Run>)
  {
    |runs| >= 2 &&
    runs[0].(data := 0) == Run(0x41, 26, LF, 0) && runs[1].(data := 0) == Run(0x61, 26, U, 0) &&
    runs[0].data < |runs| && runs[runs[0].data].code == 0x61 &&
    forall k :: 2 <= k < |runs| ==> runs[k].code >= 0x80
  }

  ghost predicate GoodData(t: CaseData)
  {
    InOrder(t.runs) && AsciiFirst(t.runs) && forall k :: 0 <= k < |t.runs| ==> GoodRun(t, t.runs[k])
  }

  /** The smallest such table has the ASCII letters only. */
  lemma AsciiData()
    ensures GoodData(CaseData([Run(0x41, 26, LF, 1), Run(0x61, 26, U, 0)], []))
  {
  }

  lemma RunIsGood(t: CaseData, k: nat)
    requires GoodData(t) && k < |t.runs|
    ensures GoodRun(t, t.runs[k])
  {
  }

  // ----- conversion -----

  /** The first run from k on that has c, or the end of the table. */
  function Lookup(runs: seq<Run>, c: nat, k: nat): (i: nat)
    requires k <= |runs|
    ensures k <= i <= |runs|
    ensures i < |runs| ==> InRun(runs[i], c)
    decreases |runs| - k
  {
    if k == |runs| || InRun(runs[k], c) then k else Lookup(runs, c, k + 1)
  }

  function Ext(t: CaseData, i: nat): nat
    requires i < |t.ext|
  {
    t.ext[i]
  }

  /** lre_case_conv_entry: one character, or several. */
  function ConvEntry(t: CaseData, r: Run, c: nat, conv: Conv): (s: seq<nat>)
    requires GoodData(t) && GoodRun(t, r) && InRun(r, c)
    ensures |s| > 0
    decreases if conv == Folding then 1 else 0, 0
  {
    var a, lower := c - r.code, conv != ToUpper;
    match r.kind
    case U => [if conv == ToUpper then a + t.runs[r.data].code else c]
    case L => [if conv == ToLower then a + t.runs[r.data].code else c]
    case UF => [if conv != ToLower then a + t.runs[r.data].code else c]
    case LF => [if conv != ToUpper then a + t.runs[r.data].code else c]
    case UL => [if (a % 2 == 0) != lower then c else if lower then c + 1 else c - 1]
    case LSU =>
      [if a == 1 then (if lower then c + 1 else c - 1)
       else if a == (if lower then 0 else 2) then (if lower then c + 2 else c - 2)
       else c]
    case U2L_399_EXT2 => if !lower then [a + Ext(t, r.data / 64), 0x399] else [a + Ext(t, r.data % 64)]
    case UF_D20 => [if conv == ToLower then c else r.data + if conv == Folding then 0x20 else 0]
    case UF_D1_EXT => [if conv == ToLower then c else Ext(t, r.data) + if conv == Folding then 1 else 0]
    case U_EXT => [if lower then c else Ext(t, r.data)]
    case LF_EXT => [if !lower then c else Ext(t, r.data)]
    case LF_EXT2 => if !lower then [c] else [a + Ext(t, r.data / 64), Ext(t, r.data % 64)]
    case UF_EXT2 | UF_EXT3 => if conv == ToLower then [c] else LoweredIf(t, conv, Expanded(t, r, c))
  }

  /** The two or three characters of a run that expands. */
  function Expanded(t: CaseData, r: Run, c: nat): (s: seq<nat>)
    requires GoodRun(t, r) && InRun(r, c) && (r.kind == UF_EXT2 || r.kind == UF_EXT3)
    ensures |s| > 1
  {
    if r.kind == UF_EXT2 then [c - r.code + Ext(t, r.data / 64), Ext(t, r.data % 64)]
    else [Ext(t, r.data / 256), Ext(t, r.data / 16 % 16), Ext(t, r.data % 16)]
  }

  /** For case folding, the characters are turned to lower case once more. */
  function LoweredIf(t: CaseData, conv: Conv, s: seq<nat>): (r: seq<nat>)
    requires GoodData(t) && conv != ToLower
    ensures |r| == |s|
    decreases if conv == Folding then 1 else 0, 0, |s|
  {
    if conv == ToUpper || s == [] then s
    else [Converted(t, s[0], ToLower)[0]] + LoweredIf(t, conv, s[1..])
  }

  /** lre_case_conv. */
  function Converted(t: CaseData, c: nat, conv: Conv): (s: seq<nat>)
    requires GoodData(t)
    ensures |s| > 0
    decreases if conv == Folding then 1 else 0, 1
  {
    if c < 128 then [Ascii(c, conv == ToUpper)]
    else
      var k := Lookup(t.runs, c, 0);
      if k < |t.runs| then ConvEntry(t, t.runs[k], c, conv) else [c]
  }

  function Ascii(c: nat, upper: bool): nat
  {
    if upper then (if 0x61 <= c <= 0x7A then c - 0x20 else c)
    else if 0x41 <= c <= 0x5A then c + 0x20 else c
  }

  /** lre_case_folding_entry: the one character that stands for c in a regular expression. */
  function FoldEntry(t: CaseData, r: Run, c: nat, unicode: bool): nat
    requires GoodData(t) && GoodRun(t, r) && InRun(r, c)
  {
    if unicode then
      var s := ConvEntry(t, r, c, Folding);
      if |s| == 1 then s[0]
      else if c == 0xFB06 then 0xFB05
      else if c == 0x1FD3 then 0x390
      else if c == 0x1FE3 then 0x3B0
      else c
    else if c < 128 then Ascii(c, true)
    else
      var s := ConvEntry(t, r, c, ToUpper);
      if |s| == 1 && s[0] >= 128 then s[0] else c
  }

  /** lre_canonicalize: what the run of c makes of c, if c has one. */
  function Fold(t: CaseData, c: nat, unicode: bool): nat
    requires GoodData(t)
  {
    if c < 128 then Ascii(c, !unicode)
    else
      var k := Lookup(t.runs, c, 0);
      if k < |t.runs| then FoldEntry(t, t.runs[k], c, unicode) else c
  }

  lemma {:induction false} LookupIs(runs: seq<Run>, c: nat, k: nat, i: nat)
    requires InOrder(runs) && k <= i < |runs| && InRun(runs[i], c)
    ensures Lookup(runs, c, k) == i
    decreases i - k
  {
    if k < i {
      assert runs[k].code + runs[k].len <= runs[i].code;
      LookupIs(runs, c, k + 1, i);
    }
  }

  lemma {:induction false} LookupNone(runs: seq<Run>, c: nat, k: nat)
    requires k <= |runs| && forall i :: k <= i < |runs| ==> !InRun(runs[i], c)
    ensures Lookup(runs, c, k) == |runs|
    decreases |runs| - k
  {
    if k < |runs| {
      LookupNone(runs, c, k + 1);
    }
  }

  /** The ASCII letters are folded by their runs as they are without the table. */
  lemma EntryFolds(t: CaseData, k: nat, c: nat, unicode: bool)
    requires GoodData(t) && k < |t.runs| && InRun(t.runs[k], c)
    ensures GoodRun(t, t.runs[k]) && FoldEntry(t, t.runs[k], c, unicode) == Fold(t, c, unicode)
  {
    hide GoodRun;
    RunIsGood(t, k);
    LookupIs(t.runs, c, 0, k);
  }

  /** A folded character is a code point again. */
  lemma FoldIsCode(t: CaseData, c: nat, unicode: bool)
    requires GoodData(t)
    ensures Fold(t, c, unicode) < 0x3_0000 || Fold(t, c, unicode) == c
  {
    var k := Lookup(t.runs, c, 0);
    if c >= 128 && k < |t.runs| {
      RunIsGood(t, k);
      OneResult(t, t.runs[k], c, if unicode then Folding else ToUpper);
    }
  }

  lemma OneResult(t: CaseData, r: Run, c: nat, conv: Conv)
    requires GoodData(t) && GoodRun(t, r) && InRun(r, c)
    ensures var s := ConvEntry(t, r, c, conv); |s| == 1 ==> s[0] < 0x3_0000
  {
    hide GoodData, Converted;
  }

  // ----- searching -----

  /** The binary search of lre_case_conv and lre_canonicalize. */
  method Search(runs: seq<Run>, c: nat) returns (idx: nat)
    requires InOrder(runs)
    ensures idx == Lookup(runs, c, 0)
  {
    var idxMin, idxMax: int := 0, |runs| - 1;
    while idxMin <= idxMax
      invariant 0 <= idxMin <= idxMax + 1 <= |runs|
      invariant forall i :: 0 <= i < idxMin ==> runs[i].code + runs[i].len <= c
      invariant forall i :: idxMax < i < |runs| ==> c < runs[i].code
    {
      idx := (idxMax + idxMin) / 2;
      var code, len := runs[idx].code, runs[idx].len;
      if c < code {
        idxMax := idx - 1;
      } else if c >= code + len {
        idxMin := idx + 1;
      } else {
        LookupIs(runs, c, 0, idx);
        return;
      }
    }
    LookupNone(runs, c, 0);
    idx := |runs|;
  }

  /** lre_case_conv. */
  method ConvertCase(t: CaseData, c: nat, conv: Conv) returns (s: seq<nat>)
    requires GoodData(t)
    ensures s == Converted(t, c, conv)
  {
    if c < 128 {
      if conv != ToUpper {
        s := [if 0x41 <= c <= 0x5A then c - 0x41 + 0x61 else c];
      } else {
        s := [if 0x61 <= c <= 0x7A then c - 0x61 + 0x41 else c];
      }
    } else {
      var idx := Search(t.runs, c);
      s := if idx < |t.runs| then ConvEntry(t, t.runs[idx], c, conv) else [c];
    }
  }

  /** lre_canonicalize. */
  method CanonicalizeChar(t: CaseData, c: nat, unicode: bool) returns (d: nat)
    requires GoodData(t)
    ensures d == Fold(t, c, unicode)
  {
    d := c;
    if c < 128 {
      if unicode {
        if 0x41 <= c <= 0x5A {
          d := c - 0x41 + 0x61;
        }
      } else if 0x61 <= c <= 0x7A {
        d := c - 0x61 + 0x41;
      }
    } else {
      var idx := Search(t.runs, c);
      if idx < |t.runs| {
        d := FoldEntry(t, t.runs[idx], c, unicode);
      }
    }
  }

  // ----- the characters that are changed -----

  /** CASE_U, CASE_L and CASE_F. */
  datatype CaseMask = CaseMask(upper: bool, lower: bool, fold: bool)

  predicate UpperRun(kind: RunType)
  {
    kind.U? || kind.UF? || kind.UL? || kind.LSU? || kind.U2L_399_EXT2? || kind.UF_D20? || kind.UF_D1_EXT? || kind.U_EXT? || kind.UF_EXT2? || kind.UF_EXT3?
  }

  predicate LowerRun(kind: RunType)
  {
    kind.L? || kind.LF? || kind.UL? || kind.LSU? || kind.U2L_399_EXT2? || kind.LF_EXT? || kind.LF_EXT2?
  }

  predicate FoldRun(kind: RunType)
  {
    kind.UF? || kind.LF? || kind.UL? || kind.LSU? || kind.U2L_399_EXT2? || kind.LF_EXT? || kind.LF_EXT2? || kind.UF_D20? || kind.UF_D1_EXT? || kind.UF_EXT2? || kind.UF_EXT3?
  }

  predicate Selected(m: CaseMask, kind: RunType)
  {
    (m.upper && UpperRun(kind)) || (m.lower && LowerRun(kind)) || (m.fold && FoldRun(kind))
  }

  /** Runs in which the two cases alternate. */
  predicate Alternates(kind: RunType)
  {
    kind.UL? || kind.LSU?
  }

  predicate BothWays(m: CaseMask)
  {
    m.upper && (m.lower || m.fold)
  }

  /** Every other character from start on, n of them. */
  function Singles(start: nat, n: nat): (s: seq<nat>)
    ensures |s| == 2 * n
  {
    seq(2 * n, i => start + i)
  }

  lemma InSingles(start: nat, n: nat, c: nat)
    ensures InPoints(Singles(start, n), c) <==> start <= c < start + 2 * n && (c - start) % 2 == 0
  {
    var s := Singles(start, n);
    if InPoints(s, c) {
      var i :| 0 <= i < |s| / 2 && Inside(s, i, c);
    }
    if start <= c < start + 2 * n && (c - start) % 2 == 0 {
      assert Inside(s, (c - start) / 2, c);
    }
  }

  lemma InOne(x: nat, y: nat, c: nat)
    ensures InPoints([x, y], c) <==> x <= c < y
  {
    assert x <= c < y ==> Inside([x, y], 0, c);
  }

  /** The boundaries that unicode_case1 adds for a run. */
  function RunPoints(m: CaseMask, r: Run): (s: seq<nat>)
    ensures |s| % 2 == 0
  {
    if !Selected(m, r.kind) then []
    else if BothWays(m) || !Alternates(r.kind) then [r.code, r.code + r.len]
    else
      var start := r.code + if m.upper then 1 else 0;
      if r.kind == UL then Singles(start, (r.len + 1) / 2)
      else [start, start + 1, start + 1, start + 2]
  }

  function CasePoints(m: CaseMask, runs: seq<Run>): (s: seq<nat>)
    ensures |s| % 2 == 0
  {
    if runs == [] then []
    else CasePoints(m, runs[..|runs| - 1]) + RunPoints(m, runs[|runs| - 1])
  }

  lemma CaseSnoc(m: CaseMask, runs: seq<Run>, n: nat)
    requires n < |runs|
    ensures CasePoints(m, runs[..n + 1]) == CasePoints(m, runs[..n]) + RunPoints(m, runs[n])
  {
    assert runs[..n + 1][..n] == runs[..n];
  }

  lemma CaseNone(m: CaseMask, runs: seq<Run>)
    ensures CasePoints(m, runs[..0]) == []
  {
  }

  /** unicode_case1. */
  method Case1(t: CaseData, cr: CharRange, m: CaseMask)
    modifies cr
    ensures cr.points == old(cr.points) + CasePoints(m, t.runs)
  {
    hide CasePoints, Selected;
    if m == CaseMask(false, false, false) {
      NothingSelected(m, t.runs);
      return;
    }
    CaseNone(m, t.runs);
    for idx := 0 to |t.runs|
      invariant cr.points == old(cr.points) + CasePoints(m, t.runs[..idx])
    {
      CaseSnoc(m, t.runs, idx);
      var r := t.runs[idx];
      if Selected(m, r.kind) {
        AddRun(cr, r, m);
      }
    }
    assert t.runs[..|t.runs|] == t.runs;
  }

  lemma {:induction false} NothingSelected(m: CaseMask, runs: seq<Run>)
    requires m == CaseMask(false, false, false)
    ensures CasePoints(m, runs) == []
  {
    if runs != [] {
      NothingSelected(m, runs[..|runs| - 1]);
    }
  }

  /** One run of the table. */
  method AddRun(cr: CharRange, r: Run, m: CaseMask)
    requires Selected(m, r.kind)
    modifies cr
    ensures cr.points == old(cr.points) + RunPoints(m, r)
  {
    if r.kind == UL && !BothWays(m) {
      var code := r.code + if m.upper then 1 else 0;
      var i := 0;
      while i < r.len
        invariant i % 2 == 0 && i <= r.len + 1
        invariant cr.points == old(cr.points) + Singles(code, i / 2)
      {
        cr.AddInterval(code + i, code + i + 1);
        i := i + 2;
      }
    } else if r.kind == LSU && !BothWays(m) {
      if !m.upper {
        cr.AddInterval(r.code, r.code + 1);
      }
      cr.AddInterval(r.code + 1, r.code + 2);
      if m.upper {
        cr.AddInterval(r.code + 2, r.code + 3);
      }
    } else {
      cr.AddInterval(r.code, r.code + r.len);
    }
  }

  /** Those of them that are characters of the run. */
  predicate Marked(m: CaseMask, r: Run, c: nat)
  {
    InRun(r, c) && Selected(m, r.kind) &&
    (BothWays(m) ||
     match r.kind
     case UL => (c - r.code) % 2 == if m.upper then 1 else 0
     case LSU => if m.upper then c != r.code else c != r.code + 2
     case _ => true)
  }

  /** A character that is not marked is not changed by any of the conversions selected. */
  lemma UnmarkedStays(t: CaseData, m: CaseMask, k: nat, c: nat)
    requires GoodData(t) && k < |t.runs| && InRun(t.runs[k], c) && !Marked(m, t.runs[k], c)
    ensures GoodRun(t, t.runs[k])
    ensures m.upper ==> ConvEntry(t, t.runs[k], c, ToUpper) == [c]
    ensures m.lower ==> ConvEntry(t, t.runs[k], c, ToLower) == [c]
    ensures m.fold ==> ConvEntry(t, t.runs[k], c, Folding) == [c]
  {
    hide InOrder, AsciiFirst, Converted;
    RunIsGood(t, k);
  }

  lemma MarkedInRun(t: CaseData, m: CaseMask, r: Run, c: nat)
    requires GoodRun(t, r)
    ensures InPoints(RunPoints(m, r), c) <==> Marked(m, r, c)
  {
    hide InPoints, Singles, Selected;
    if Selected(m, r.kind) {
      if BothWays(m) || !Alternates(r.kind) {
        InOne(r.code, r.code + r.len, c);
      } else {
        var start := r.code + if m.upper then 1 else 0;
        if r.kind == UL {
          InSingles(start, (r.len + 1) / 2, c);
        } else {
          assert [start, start + 1, start + 1, start + 2] == [start, start + 1] + [start + 1, start + 2];
          InJoin([start, start + 1], [start + 1, start + 2], c);
          InOne(start, start + 1, c);
          InOne(start + 1, start + 2, c);
        }
      }
    } else {
      NotInside([], c);
    }
  }

  lemma InJoin(p: seq<nat>, q: seq<nat>, c: nat)
    requires |p| % 2 == 0
    ensures InPoints(p + q, c) <==> InPoints(p, c) || InPoints(q, c)
  {
    var s := p + q;
    if InPoints(s, c) {
      var i :| 0 <= i < |s| / 2 && Inside(s, i, c);
      if i < |p| / 2 {
        assert Inside(p, i, c);
      } else {
        assert Inside(q, i - |p| / 2, c);
      }
    }
    if InPoints(p, c) {
      var i :| 0 <= i < |p| / 2 && Inside(p, i, c);
      assert Inside(s, i, c);
    }
    if InPoints(q, c) {
      var i :| 0 <= i < |q| / 2 && Inside(q, i, c);
      assert Inside(s, i + |p| / 2, c);
    }
  }

  /** unicode_case1 gives the marked characters of all runs. */
  lemma {:induction false} CaseMembers(t: CaseData, m: CaseMask, n: nat, c: nat)
    requires GoodData(t) && n <= |t.runs|
    ensures InPoints(CasePoints(m, t.runs[..n]), c) <==> exists k :: 0 <= k < n && Marked(m, t.runs[k], c)
  {
    hide InPoints, Marked, RunPoints, GoodRun, InOrder, AsciiFirst;
    if n == 0 {
      NotInside([], c);
    } else {
      assert t.runs[..n][..n - 1] == t.runs[..n - 1];
      CaseMembers(t, m, n - 1, c);
      MarkedInRun(t, m, t.runs[n - 1], c);
      InJoin(CasePoints(m, t.runs[..n - 1]), RunPoints(m, t.runs[n - 1]), c);
    }
  }

  lemma RunBounds(t: CaseData, m: CaseMask, r: Run)
    requires GoodRun(t, r)
    ensures IsSet(RunPoints(m, r)) && forall i :: 0 <= i < |RunPoints(m, r)| ==> r.code <= RunPoints(m, r)[i] <= r.code + r.len
  {
  }

  /** Its boundaries are in order. */
  lemma {:induction false} CaseSorted(t: CaseData, m: CaseMask, n: nat)
    requires GoodData(t) && n <= |t.runs|
    ensures var s := CasePoints(m, t.runs[..n]);
            IsSet(s) && forall i :: 0 <= i < |s| ==> s[i] < 0x3_0000 && (n < |t.runs| ==> s[i] <= t.runs[n].code)
  {
    hide RunPoints;
    if n > 0 {
      assert t.runs[..n][..n - 1] == t.runs[..n - 1];
      CaseSorted(t, m, n - 1);
      RunIsGood(t, n - 1);
      RunBounds(t, m, t.runs[n - 1]);
    }
  }

  /** What cr_regexp_canonicalize takes for the characters that can change. */
  function FoldMask(unicode: bool): CaseMask
  {
    CaseMask(!unicode, false, unicode)
  }

  /** The others are their own canonical form. */
  lemma UnaffectedStays(t: CaseData, unicode: bool, c: nat)
    requires GoodData(t) && !InPoints(CasePoints(FoldMask(unicode), t.runs), c)
    ensures Fold(t, c, unicode) == c
  {
    hide InPoints, CasePoints, ConvEntry, GoodRun, InOrder;
    var m := FoldMask(unicode);
    assert t.runs[..|t.runs|] == t.runs;
    CaseMembers(t, m, |t.runs|, c);
    if c < 128 {
      assert Marked(m, t.runs[0], c) <==> unicode && 0x41 <= c <= 0x5A;
      assert Marked(m, t.runs[1], c) <==> !unicode && 0x61 <= c <= 0x7A;
    } else {
      var k := Lookup(t.runs, c, 0);
      if k < |t.runs| {
        UnmarkedStays(t, m, k, c);
      }
    }
  }

  lemma AffectedInTable(t: CaseData, unicode: bool, c: nat)
    requires GoodData(t) && InPoints(CasePoints(FoldMask(unicode), t.runs), c)
    ensures InTable(t, c)
  {
    hide InPoints, CasePoints, GoodData;
    assert t.runs[..|t.runs|] == t.runs;
    CaseMembers(t, FoldMask(unicode), |t.runs|, c);
  }
}
