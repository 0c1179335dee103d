/** Text as the interpreter reads it: code points, back references and assertions, without the loops that read them. */
module RegexText {
  import opened CharInput
  import opened RegexSyntax
  import opened RegexOutcomes

  // ----- code points in UTF-16 -----

  /** No surrogates. */
  predicate Scalars(cs: seq<CodePoint>)
  {
    forall i :: 0 <= i < |cs| ==> !(0xD800 <= cs[i] < 0xE000)
  }

  function UnitsOf(c: CodePoint): (s: seq<CodeUnit>)
    ensures 1 <= |s| <= 2
  {
    if c < 0x10000 then [c] else [0xD800 + (c - 0x10000) / 0x400, 0xDC00 + (c - 0x10000) % 0x400]
  }

  /** The code points as UTF-16 code units. */
  function Units(cs: seq<CodePoint>): (s: seq<CodeUnit>)
  {
    if cs == [] then [] else Units(cs[..|cs| - 1]) + UnitsOf(cs[|cs| - 1])
  }

  lemma {:induction false} UnitsAt(cs: seq<CodePoint>, k: nat)
    requires k < |cs|
    ensures exists rest :: Units(cs) == Units(cs[..k]) + UnitsOf(cs[k]) + rest
    decreases |cs|
  {
    var n := |cs| - 1;
    if k == n {
      assert Units(cs) == Units(cs[..k]) + UnitsOf(cs[k]) + [];
    } else {
      UnitsAt(cs[..n], k);
      assert cs[..n][..k] == cs[..k];
      var rest :| Units(cs[..n]) == Units(cs[..k]) + UnitsOf(cs[k]) + rest;
      assert Units(cs) == Units(cs[..k]) + UnitsOf(cs[k]) + (rest + UnitsOf(cs[n]));
    }
  }

  /** At the place of a code point, the character read forwards and the one read backwards from its end are that
      code point, and reading goes from one end to the other. */
  lemma ReadsCodePoint(cs: seq<CodePoint>, k: nat)
    requires Scalars(cs) && k < |cs|
    ensures var t, p, q := Text(Units(cs), true), |Units(cs[..k])|, |Units(cs[..k + 1])|;
            var n := |t.units|;
            p < q <= n && CharAt(t, p, n) == cs[k] && NextPos(t, p, n) == q &&
            CharBefore(t, q, 0) == cs[k] && PrevPos(t, q, 0) == p && Boundary(t, p)
  {
    hide Units, UnitsOf, CharAt, CharBefore, NextPos, PrevPos;
    var t, p := Text(Units(cs), true), |Units(cs[..k])|;
    UnitsAt(cs, k);
    UnitsSnoc(cs, k);
    var rest :| Units(cs) == Units(cs[..k]) + UnitsOf(cs[k]) + rest;
    assert forall i :: 0 <= i < |UnitsOf(cs[k])| ==> t.units[p + i] == UnitsOf(cs[k])[i];
    ReadsUnits(t, p, cs[k]);
  }

  lemma ReadsUnits(t: Text, p: nat, c: CodePoint)
    requires t.utf16 && !(0xD800 <= c < 0xE000) && p + |UnitsOf(c)| <= |t.units|
    requires forall i :: 0 <= i < |UnitsOf(c)| ==> t.units[p + i] == UnitsOf(c)[i]
    ensures var q := p + |UnitsOf(c)|;
            CharAt(t, p, |t.units|) == c && NextPos(t, p, |t.units|) == q &&
            CharBefore(t, q, 0) == c && PrevPos(t, q, 0) == p && Boundary(t, p)
  {
    assert t.units[p + 0] == UnitsOf(c)[0];
    if c >= 0x10000 {
      assert t.units[p + 1] == UnitsOf(c)[1];
    }
  }

  lemma UnitsSnoc(cs: seq<CodePoint>, k: nat)
    requires k < |cs|
    ensures Units(cs[..k + 1]) == Units(cs[..k]) + UnitsOf(cs[k])
  {
    assert cs[..k + 1][..k] == cs[..k];
  }

  /** Other texts have one character a unit. */
  lemma ReadsUnit(t: Text, p: nat)
    requires !t.utf16 && p < |t.units|
    ensures CharAt(t, p, |t.units|) == t.units[p] && NextPos(t, p, |t.units|) == p + 1
    ensures CharBefore(t, p + 1, 0) == t.units[p] && PrevPos(t, p + 1, 0) == p
  {
  }

  // ----- single characters -----

  predicate SameLetter(e: Env, icase: bool, c: CodePoint, d: CodePoint)
  {
    if icase then e.canon(c) == e.canon(d) else c == d
  }

  /** What a pattern of one character accepts. */
  predicate Takes(e: Env, r: Re, c: CodePoint)
  {
    match r
    case Char(d, icase) => SameLetter(e, icase, c, d)
    case AnyChar(dotall) => dotall || !exists ch: char :: ch as int == c && LineEnding(ch)
    case Class(points, icase) => InPoints(points, if icase then e.canon(c) else c)
    case _ => false
  }

  /** A pattern of one character goes from the place of a code point to that of the next one, exactly if it accepts
      the one in between. */
  lemma CharacterIs(e: Env, r: Re, cs: seq<CodePoint>, k: nat, cc: nat, bw: bool, caps: seq<Slot>)
    requires (r.Char? || r.AnyChar? || r.Class?)
    requires Scalars(cs) && k < |cs| && e.text == Text(Units(cs), true)
    requires var p, q := |Units(cs[..k])|, |Units(cs[..k + 1])|; ValidSt(e, St(if bw then q else p, caps))
    ensures var p, q := |Units(cs[..k])|, |Units(cs[..k + 1])|;
            var x, y := if bw then St(q, caps) else St(p, caps), if bw then St(p, caps) else St(q, caps);
            Outcomes(e, r, cc, bw, x) == if Takes(e, r, cs[k]) then [y] else []
  {
    hide Units, CharAt, CharBefore, NextPos, PrevPos, Boundary, Fold, IsLineTerminator, SameLetter, Takes, Accepts;
    ReadsCodePoint(cs, k);
    AcceptsIs(e, r, cs[k]);
  }

  lemma AcceptsIs(e: Env, r: Re, c: CodePoint)
    requires (r.Char? || r.AnyChar? || r.Class?)
    ensures Accepts(e, r, c) <==> Takes(e, r, c)
  {
    if r.AnyChar? {
      LineTerminators(c);
    }
  }

  // ----- back references -----

  /** The folded characters of the text in [s, end). */
  function Folded(e: Env, icase: bool, s: nat, end: nat): (cs: seq<CodePoint>)
    requires end <= |e.text.units|
    decreases end - s
  {
    if s >= end then [] else [Fold(e, icase, CharAt(e.text, s, end))] + Folded(e, icase, NextPos(e.text, s, end), end)
  }

  /** A forward reference succeeds exactly if as many characters follow and they are the same after folding. */
  lemma {:induction false} ForwardIs(e: Env, icase: bool, s: nat, end: nat, p: nat, q: nat)
    requires end <= |e.text.units| && p <= |e.text.units| && q <= |e.text.units|
    ensures var cs := Folded(e, icase, s, end);
            BackForward(e, icase, s, end, p) == SomePos(q) <==>
            StepForward(e.text, p, |cs|) == SomePos(q) && Folded(e, icase, p, q) == cs
    decreases end - s
  {
    hide CharAt, Fold;
    var n, cs := |e.text.units|, Folded(e, icase, s, end);
    if s < end && p < n {
      var s', p' := NextPos(e.text, s, end), NextPos(e.text, p, n);
      var rest := Folded(e, icase, s', end);
      ForwardIs(e, icase, s', end, p', q);
      assert |cs| == 1 + |rest| && cs[1..] == rest;
      assert StepForward(e.text, p, |cs|) == StepForward(e.text, p', |rest|);
      if StepForward(e.text, p', |rest|) == SomePos(q) {
        SameBelow(e.text, p, q);
        assert Folded(e, icase, p, q) == [Fold(e, icase, CharAt(e.text, p, n))] + Folded(e, icase, p', q);
        assert Folded(e, icase, p, q)[1..] == Folded(e, icase, p', q);
      }
    }
  }

  /** Whether the text ends after the character does not matter for reading it. */
  lemma SameBelow(t: Text, p: nat, q: nat)
    requires p < |t.units| && NextPos(t, p, |t.units|) <= q <= |t.units|
    ensures CharAt(t, p, q) == CharAt(t, p, |t.units|) && NextPos(t, p, q) == NextPos(t, p, |t.units|)
  {
  }

  /** The last character, read backwards. */
  lemma {:induction false} FoldedSnoc(e: Env, icase: bool, start: nat, s: nat)
    requires start < s <= |e.text.units|
    ensures var q := PrevPos(e.text, s, start);
            Folded(e, icase, start, s) == Folded(e, icase, start, q) + [Fold(e, icase, CharBefore(e.text, s, start))]
    decreases s - start
  {
    hide Fold;
    var q, next := PrevPos(e.text, s, start), NextPos(e.text, start, s);
    if next == s {
      assert q == start;
    } else {
      assert next <= q && PrevPos(e.text, s, next) == q && CharBefore(e.text, s, next) == CharBefore(e.text, s, start);
      assert NextPos(e.text, start, q) == next && CharAt(e.text, start, q) == CharAt(e.text, start, s);
      FoldedSnoc(e, icase, next, s);
    }
  }

  /** A backward reference succeeds exactly if as many characters come before and they are the same after folding. */
  lemma {:induction false} BackwardIs(e: Env, icase: bool, start: nat, s: nat, p: nat, q: nat)
    requires s <= |e.text.units| && p <= |e.text.units| && q <= p
    ensures var cs := Folded(e, icase, start, s);
            BackBackward(e, icase, start, s, p) == SomePos(q) <==>
            StepBack(e.text, p, |cs|) == SomePos(q) && Folded(e, icase, q, p) == cs
    decreases s
  {
    hide CharBefore, CharAt, Fold;
    var cs := Folded(e, icase, start, s);
    if start < s && p > 0 {
      var s', p' := PrevPos(e.text, s, start), PrevPos(e.text, p, 0);
      var rest := Folded(e, icase, start, s');
      FoldedSnoc(e, icase, start, s);
      assert |cs| == |rest| + 1 && cs[..|rest|] == rest;
      assert StepBack(e.text, p, |cs|) == StepBack(e.text, p', |rest|);
      if q <= p' {
        BackwardIs(e, icase, start, s', p', q);
        if q < p {
          SameAbove(e.text, p, q);
          FoldedSnoc(e, icase, q, p);
          var all := Folded(e, icase, q, p);
          assert all[..|all| - 1] == Folded(e, icase, q, p');
        }
      }
    }
  }

  lemma SameAbove(t: Text, p: nat, q: nat)
    requires 0 < p <= |t.units| && q <= PrevPos(t, p, 0)
    ensures CharBefore(t, p, q) == CharBefore(t, p, 0) && PrevPos(t, p, q) == PrevPos(t, p, 0)
  {
  }

  /** The captured text, if both ends are there. */
  predicate Captured(x: St, index: nat, start: nat, end: nat)
  {
    2 * index + 1 < |x.caps| && x.caps[2 * index] == Ptr(start) && x.caps[2 * index + 1] == Ptr(end)
  }

  /** As many characters as were captured, and the same ones after folding. */
  predicate SameText(e: Env, icase: bool, bw: bool, start: nat, end: nat, p: nat, q: nat)
    requires end <= |e.text.units| && p <= |e.text.units| && q <= |e.text.units|
  {
    var cs := Folded(e, icase, start, end);
    if bw then q <= p && StepBack(e.text, p, |cs|) == SomePos(q) && Folded(e, icase, q, p) == cs
    else StepForward(e.text, p, |cs|) == SomePos(q) && Folded(e, icase, p, q) == cs
  }

  /** What a back reference matches: the captured text over again, from x on or up to x, or nothing if the group has
      not captured. */
  lemma BackReferenceIs(e: Env, icase: bool, bw: bool, index: nat, x: St, q: nat)
    requires InBuffer(e, x) && q <= |e.text.units|
    ensures 2 * index + 1 >= |x.caps| ==> BackReference(e, icase, bw, index, x) == NoPos
    ensures 2 * index + 1 < |x.caps| && (x.caps[2 * index].Unset? || x.caps[2 * index + 1].Unset?) ==> BackReference(e, icase, bw, index, x) == SomePos(x.pos)
    ensures forall start: nat, end: nat :: Captured(x, index, start, end) ==>
              (end <= |e.text.units| &&
               (BackReference(e, icase, bw, index, x) == SomePos(q) <==> SameText(e, icase, bw, start, end, x.pos, q)))
  {
    hide Folded, BackForward, BackBackward, StepBack, StepForward;
    forall start: nat, end: nat | Captured(x, index, start, end)
      ensures end <= |e.text.units|
      ensures BackReference(e, icase, bw, index, x) == SomePos(q) <==> SameText(e, icase, bw, start, end, x.pos, q)
    {
      assert ValidSlot(e, x.caps[2 * index]) && ValidSlot(e, x.caps[2 * index + 1]);
      if bw {
        if q <= x.pos {
          BackwardIs(e, icase, start, end, x.pos, q);
        }
      } else {
        ForwardIs(e, icase, start, end, x.pos, q);
      }
    }
  }

  /** The text of the folded characters of code points. */
  lemma {:induction false} FoldedText(e: Env, icase: bool, cs: seq<CodePoint>, i: nat, j: nat)
    requires Scalars(cs) && e.text == Text(Units(cs), true) && i <= j <= |cs|
    ensures |Units(cs[..i])| <= |Units(cs[..j])| <= |Units(cs)|
    ensures Folded(e, icase, |Units(cs[..i])|, |Units(cs[..j])|) == seq(j - i, k requires 0 <= k < j - i => Fold(e, icase, cs[i + k]))
    decreases j - i
  {
    hide Units, CharAt, NextPos, Fold;
    if j < |cs| {
      ReadsCodePoint(cs, j);
    } else {
      assert cs[..j] == cs;
    }
    if i < j {
      ReadsCodePoint(cs, i);
      FoldedText(e, icase, cs, i + 1, j);
      SameBelow(e.text, |Units(cs[..i])|, |Units(cs[..j])|);
    }
  }

  // ----- characters and assertions -----

  predicate WordLetter(ch: char)
  {
    '0' <= ch <= '9' || 'A' <= ch <= 'Z' || 'a' <= ch <= 'z' || ch == '_'
  }

  /** WordCharacters of section 22.2.2.9.3 of ECMA-262, without the extra ones of ignoring case. */
  lemma WordCharacters(c: nat)
    ensures IsWordChar(c) <==> exists ch: char :: ch as int == c && WordLetter(ch)
  {
    if IsWordChar(c) {
      assert (c as char) as int == c && WordLetter(c as char);
    }
  }

  predicate LineEnding(ch: char)
  {
    ch == '\n' || ch == '\r' || ch == '\U{2028}' || ch == '\U{2029}'
  }

  /** LineTerminator of section 12.3: line feed, carriage return, line separator and paragraph separator. */
  lemma LineTerminators(c: nat)
    ensures IsLineTerminator(c) <==> exists ch: char :: ch as int == c && LineEnding(ch)
  {
    if IsLineTerminator(c) {
      assert (c as char) as int == c && LineEnding(c as char);
    }
  }

  /** A character of the whole text that lies in [q, p). */
  predicate CharIn(t: Text, q: nat, p: nat)
  {
    q < p <= |t.units| && NextPos(t, q, |t.units|) == p
  }

  /** What the assertions say of the characters on both sides of a code point boundary. */
  lemma AssertionsMean(e: Env, r: Re, p: nat)
    requires (r.LineStart? || r.LineEnd? || r.WordBoundary?) && Boundary(e.text, p)
    ensures var n := |e.text.units|;
            match r
            case LineStart(m) =>
              Holds(e, r, p) <==> p == 0 || (m && exists q: nat :: CharIn(e.text, q, p) && Boundary(e.text, q) && IsLineTerminator(CharAt(e.text, q, n)))
            case LineEnd(m) =>
              Holds(e, r, p) <==> p == n || (m && IsLineTerminator(CharAt(e.text, p, n)))
            case WordBoundary(negated, icase) =>
              Holds(e, r, p) <==>
                ((exists q: nat :: CharIn(e.text, q, p) && Boundary(e.text, q) && IsWordChar(Fold(e, icase, CharAt(e.text, q, n)))) !=
                 (p < n && IsWordChar(Fold(e, icase, CharAt(e.text, p, n))))) != negated
            case _ => true
  {
    hide IsWordChar, IsLineTerminator, Fold;
    if p > 0 {
      var q := PrevPos(e.text, p, 0);
      PrevGivesBoundary(e.text, p);
      assert CharIn(e.text, q, p) && CharAt(e.text, q, |e.text.units|) == CharBefore(e.text, p, 0);
      assert forall q': nat :: CharIn(e.text, q', p) && Boundary(e.text, q') ==> q' == q;
    }
  }
}
