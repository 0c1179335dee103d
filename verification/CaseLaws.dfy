/** What case conversion makes of characters, run by run, and how the conversions belong together. */
module CaseLaws {
  import opened CaseConv

  /** The three forms of a character. */
  datatype Forms = Forms(upper: seq<nat>, lower: seq<nat>, folded: seq<nat>)

  function Form(f: Forms, conv: Conv): seq<nat>
  {
    match conv
    case ToUpper => f.upper
    case ToLower => f.lower
    case Folding => f.folded
  }

  /** The lower cases of several characters, which each have one. */
  ghost predicate LowerEach(t: CaseData, s: seq<nat>, r: seq<nat>)
    requires GoodData(t)
  {
    |r| == |s| && forall i :: 0 <= i < |s| ==> r[i] == Converted(t, s[i], ToLower)[0]
  }

  /** The forms of the i-th character of a run that converts to a single character or to several without folding. */
  function FormsOf(t: CaseData, r: Run, i: nat): Forms
    requires GoodRun(t, r) && i < r.len && r.kind != UF_EXT2 && r.kind != UF_EXT3
  {
    var self := [r.code + i];
    match r.kind
    case U => Forms([t.runs[r.data].code + i], self, self)
    case L => Forms(self, [t.runs[r.data].code + i], self)
    case UF => var other := [t.runs[r.data].code + i]; Forms(other, self, other)
    case LF => var other := [t.runs[r.data].code + i]; Forms(self, other, other)
    case UL => var even := r.code + i / 2 * 2; Forms([even], [even + 1], [even + 1])
    case LSU => Forms([r.code], [r.code + 2], [r.code + 2])
    case U2L_399_EXT2 => var low := [Ext(t, r.data % 64) + i]; Forms([Ext(t, r.data / 64) + i, 0x399], low, low)
    case UF_D20 => Forms([r.data], self, [r.data + 0x20])
    case UF_D1_EXT => Forms([Ext(t, r.data)], self, [Ext(t, r.data) + 1])
    case U_EXT => Forms([Ext(t, r.data)], self, self)
    case LF_EXT => Forms(self, [Ext(t, r.data)], [Ext(t, r.data)])
    case LF_EXT2 => var low := [Ext(t, r.data / 64) + i, Ext(t, r.data % 64)]; Forms(self, low, low)
  }

  /** Every conversion of every character of such a run. */
  lemma EntryForms(t: CaseData, r: Run, i: nat, conv: Conv)
    requires GoodData(t) && GoodRun(t, r) && i < r.len && r.kind != UF_EXT2 && r.kind != UF_EXT3
    ensures ConvEntry(t, r, r.code + i, conv) == Form(FormsOf(t, r, i), conv)
  {
    hide GoodData, Converted, LoweredIf;
  }

  /** A run that expands: the upper case is two or three characters, and folding is their lower case. */
  lemma EntryExpands(t: CaseData, r: Run, i: nat)
    requires GoodData(t) && GoodRun(t, r) && i < r.len && (r.kind == UF_EXT2 || r.kind == UF_EXT3)
    ensures var c := r.code + i;
            var upper := ConvEntry(t, r, c, ToUpper);
            (r.kind == UF_EXT2 ==> upper == [Ext(t, r.data / 64) + i, Ext(t, r.data % 64)]) &&
            (r.kind == UF_EXT3 ==> upper == [Ext(t, r.data / 256), Ext(t, r.data / 16 % 16), Ext(t, r.data % 16)]) &&
            ConvEntry(t, r, c, ToLower) == [c] && LowerEach(t, upper, ConvEntry(t, r, c, Folding))
  {
    hide GoodData, Converted;
    LoweredEach(t, Expanded(t, r, r.code + i));
  }

  lemma {:induction false} LoweredEach(t: CaseData, s: seq<nat>)
    requires GoodData(t)
    ensures LowerEach(t, s, LoweredIf(t, Folding, s)) && LoweredIf(t, ToUpper, s) == s
    decreases |s|
  {
    hide GoodData, Converted;
    if s != [] {
      LoweredEach(t, s[1..]);
    }
  }

  // ----- how the conversions belong together -----

  /** The conversion of a character is that of its run. */
  lemma ConvertedAt(t: CaseData, k: nat, c: nat, conv: Conv)
    requires GoodData(t) && k < |t.runs| && InRun(t.runs[k], c) && c >= 128
    ensures GoodRun(t, t.runs[k]) && Converted(t, c, conv) == ConvEntry(t, t.runs[k], c, conv)
  {
    hide GoodRun, ConvEntry;
    RunIsGood(t, k);
    LookupIs(t.runs, c, 0, k);
  }

  /** All conversions of a character of the table. */
  lemma FormsAt(t: CaseData, k: nat, i: nat)
    requires GoodData(t) && k < |t.runs| && i < t.runs[k].len && t.runs[k].code >= 128
    requires t.runs[k].kind != UF_EXT2 && t.runs[k].kind != UF_EXT3
    ensures GoodRun(t, t.runs[k])
    ensures var c, f := t.runs[k].code + i, FormsOf(t, t.runs[k], i);
            Converted(t, c, ToUpper) == f.upper && Converted(t, c, ToLower) == f.lower && Converted(t, c, Folding) == f.folded
  {
    hide GoodData, Converted, ConvEntry, FormsOf;
    RunIsGood(t, k);
    var r, c := t.runs[k], t.runs[k].code + i;
    ConvertedAt(t, k, c, ToUpper);
    ConvertedAt(t, k, c, ToLower);
    ConvertedAt(t, k, c, Folding);
    EntryForms(t, r, i, ToUpper);
    EntryForms(t, r, i, ToLower);
    EntryForms(t, r, i, Folding);
  }

  /** Letters of the two cases in turn: both letters of a pair have the first one as upper and the second one as lower
      case, so that each conversion undoes the other. */
  lemma AlternatingPair(t: CaseData, k: nat, j: nat)
    requires GoodData(t) && k < |t.runs| && t.runs[k].kind == UL && 2 * j < t.runs[k].len && t.runs[k].code >= 128
    ensures var upper, lower := t.runs[k].code + 2 * j, t.runs[k].code + 2 * j + 1;
            InRun(t.runs[k], lower) &&
            Converted(t, upper, ToUpper) == Converted(t, lower, ToUpper) == [upper] &&
            Converted(t, upper, ToLower) == Converted(t, lower, ToLower) == [lower] &&
            Converted(t, upper, Folding) == Converted(t, lower, Folding) == [lower]
  {
    hide GoodData, Converted, FormsOf;
    var r := t.runs[k];
    RunIsGood(t, k);
    PairForms(t, r, j);
    FormsAt(t, k, 2 * j);
    FormsAt(t, k, 2 * j + 1);
  }

  lemma PairForms(t: CaseData, r: Run, j: nat)
    requires GoodRun(t, r) && r.kind == UL && 2 * j < r.len
    ensures 2 * j + 1 < r.len && FormsOf(t, r, 2 * j) == FormsOf(t, r, 2 * j + 1)
    ensures FormsOf(t, r, 2 * j) == Forms([r.code + 2 * j], [r.code + 2 * j + 1], [r.code + 2 * j + 1])
  {
  }

  /** Upper, title and lower case: all three go to the two ends. */
  lemma TripleEnds(t: CaseData, k: nat, i: nat)
    requires GoodData(t) && k < |t.runs| && t.runs[k].kind == LSU && i < 3 && t.runs[k].code >= 128
    ensures var c := t.runs[k].code;
            Converted(t, c + i, ToUpper) == [c] && Converted(t, c + i, ToLower) == Converted(t, c + i, Folding) == [c + 2]
  {
    hide GoodData, Converted;
    RunIsGood(t, k);
    FormsAt(t, k, i);
  }

  predicate UpperFrom(kind: RunType) { kind == U || kind == UF }

  predicate LowerFrom(kind: RunType) { kind == L || kind == LF }

  /** Two runs that point at each other, of lower and of upper case letters, are converted to each other and back. */
  lemma ThereAndBack(t: CaseData, k: nat, m: nat, i: nat)
    requires GoodData(t) && k < |t.runs| && m < |t.runs| && t.runs[k].data == m && t.runs[m].data == k
    requires UpperFrom(t.runs[k].kind) && LowerFrom(t.runs[m].kind) && i < t.runs[k].len && i < t.runs[m].len
    requires t.runs[k].code >= 128 && t.runs[m].code >= 128
    ensures var low, up := t.runs[k].code + i, t.runs[m].code + i;
            Converted(t, low, ToUpper) == [up] && Converted(t, up, ToLower) == [low] &&
            Converted(t, low, ToLower) == [low] && Converted(t, up, ToUpper) == [up]
  {
    hide GoodData, Converted;
    FormsAt(t, k, i);
    FormsAt(t, m, i);
  }

  /** Where a character has an upper case of its own in an alternating run, it folds to the lower case of that. */
  lemma FoldsByUpper(t: CaseData, k: nat, i: nat, m: nat)
    requires GoodData(t) && k < |t.runs| && i < t.runs[k].len && t.runs[k].kind == UF_D1_EXT && t.runs[k].code >= 128
    requires m < |t.runs| && t.runs[m].kind == UL && t.runs[m].code >= 128
    requires var up := Converted(t, t.runs[k].code + i, ToUpper)[0];
             InRun(t.runs[m], up) && (up - t.runs[m].code) % 2 == 0
    ensures var c := t.runs[k].code + i;
            Converted(t, c, Folding) == Converted(t, Converted(t, c, ToUpper)[0], ToLower)
  {
    hide GoodData, Converted;
    FormsAt(t, k, i);
    var up := Converted(t, t.runs[k].code + i, ToUpper)[0];
    AlternatingPair(t, m, (up - t.runs[m].code) / 2);
  }

  /** The characters that fold to a distance of 0x20 from their upper case: folding is the lower case of the upper
      case if that is an ASCII letter, and exactly if the target is at this distance if it is in a run. */
  lemma FoldsByDistance(t: CaseData, k: nat, i: nat, m: nat)
    requires GoodData(t) && k < |t.runs| && i < t.runs[k].len && t.runs[k].kind == UF_D20 && t.runs[k].code >= 128
    requires m < |t.runs| && LowerFrom(t.runs[m].kind) && t.runs[m].code >= 128
    ensures var c := t.runs[k].code + i;
            var up := Converted(t, c, ToUpper)[0];
            Converted(t, c, ToUpper) == [up] && Converted(t, c, ToLower) == [c] && Converted(t, c, Folding) == [up + 0x20] &&
            ('A' as int <= up <= 'Z' as int ==> Converted(t, c, Folding) == Converted(t, up, ToLower)) &&
            (InRun(t.runs[m], up) ==>
             t.runs[m].data < |t.runs| &&
             (Converted(t, c, Folding) == Converted(t, up, ToLower) <==> t.runs[t.runs[m].data].code == t.runs[m].code + 0x20))
  {
    hide GoodData, Converted;
    FormsAt(t, k, i);
    var up := Converted(t, t.runs[k].code + i, ToUpper)[0];
    if 'A' as int <= up <= 'Z' as int {
      AsciiLetters(t, up - 'A' as int);
    }
    if InRun(t.runs[m], up) {
      FormsAt(t, m, up - t.runs[m].code);
    }
  }

  // ----- canonical characters -----

  predicate Letter(ch: char)
  {
    'A' <= ch <= 'Z' || 'a' <= ch <= 'z'
  }

  ghost predicate Unchanged(t: CaseData, c: nat)
    requires GoodData(t)
  {
    forall conv: Conv :: Converted(t, c, conv) == [c]
  }

  /** The two cases of the ASCII letters. */
  lemma AsciiLetters(t: CaseData, k: nat)
    requires GoodData(t) && k < 26
    ensures var up, low := 'A' as int + k, 'a' as int + k;
            Converted(t, up, ToUpper) == Converted(t, low, ToUpper) == [up] &&
            Converted(t, up, ToLower) == Converted(t, low, ToLower) == [low] &&
            Converted(t, up, Folding) == Converted(t, low, Folding) == [low]
    ensures forall ch: char :: ch as int < 128 && !Letter(ch) ==> Unchanged(t, ch as int)
  {
    hide GoodData, ConvEntry;
  }

  /** Without the flag for Unicode, a character becomes its upper case, if that is one character and no ASCII one. */
  lemma LegacyFold(t: CaseData, c: nat)
    requires GoodData(t)
    ensures var up := Converted(t, c, ToUpper);
            if |up| == 1 && (up[0] >= 128 || c < 128) then Fold(t, c, false) == up[0] else Fold(t, c, false) == c
    ensures Fold(t, c, false) < 128 <==> c < 128
  {
    hide ConvEntry, GoodData;
    var k := Lookup(t.runs, c, 0);
    if c >= 128 && k < |t.runs| {
      RunIsGood(t, k);
    }
  }

  /** With it, a character becomes its folded character, if that is one. Characters with the same folding to several
      characters are the same character. */
  lemma UnicodeFold(t: CaseData, c: nat)
    requires GoodData(t)
    ensures var f := Converted(t, c, Folding);
            (|f| == 1 ==> Fold(t, c, true) == f[0]) && (|f| > 1 && c !in {0xFB06, 0x1FD3, 0x1FE3} ==> Fold(t, c, true) == c)
    ensures SeveralFolded(t, 0xFB05) && SeveralFolded(t, 0xFB06) ==> Fold(t, 0xFB05, true) == Fold(t, 0xFB06, true)
    ensures SeveralFolded(t, 0x390) && SeveralFolded(t, 0x1FD3) ==> Fold(t, 0x390, true) == Fold(t, 0x1FD3, true)
    ensures SeveralFolded(t, 0x3B0) && SeveralFolded(t, 0x1FE3) ==> Fold(t, 0x3B0, true) == Fold(t, 0x1FE3, true)
  {
    hide ConvEntry, GoodData;
    Several(t, c);
    Several(t, 0xFB05);
    Several(t, 0xFB06);
    Several(t, 0x390);
    Several(t, 0x1FD3);
    Several(t, 0x3B0);
    Several(t, 0x1FE3);
  }

  predicate SeveralFolded(t: CaseData, c: nat)
    requires GoodData(t)
  {
    |Converted(t, c, Folding)| > 1
  }

  lemma Several(t: CaseData, c: nat)
    requires GoodData(t)
    ensures var f := Converted(t, c, Folding);
            |f| >= 1 && (|f| == 1 ==> Fold(t, c, true) == f[0]) &&
            (|f| > 1 ==> Fold(t, c, true) == if c == 0xFB06 then 0xFB05 else if c == 0x1FD3 then 0x390 else if c == 0x1FE3 then 0x3B0 else c)
  {
    hide ConvEntry, GoodData;
    var k := Lookup(t.runs, c, 0);
    if c >= 128 && k < |t.runs| {
      RunIsGood(t, k);
    }
  }
}
