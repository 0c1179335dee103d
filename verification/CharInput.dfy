/** Reading an input buffer one character at a time, in either direction
    (the GET_CHAR, PEEK_CHAR, GET_PREV_CHAR and PREV_CHAR macros). */
module CharInput {

  type CodeUnit = u: nat | u <= 0xFFFF
  type CodePoint = c: nat | c <= 0x10FFFF

  /** `utf16` holds for buffer type 2: 16-bit units read as UTF-16.
      Buffer types 0 and 1 read every unit as one character. */
  datatype Text = Text(units: seq<CodeUnit>, utf16: bool)

  predicate IsHighSurrogate(u: nat) { 0xD800 <= u < 0xDC00 }

  predicate IsLowSurrogate(u: nat) { 0xDC00 <= u < 0xE000 }

  function FromSurrogates(hi: nat, lo: nat): (c: CodePoint)
    requires IsHighSurrogate(hi) && IsLowSurrogate(lo)
    ensures c >= 0x10000
  {
    0x10000 + 0x400 * (hi - 0xD800) + (lo - 0xDC00)
  }

  /** The position after the character that starts at `p`, reading no unit at or after `end`. */
  function NextPos(t: Text, p: nat, end: nat): (q: nat)
    requires p < end <= |t.units|
    ensures p < q <= end
  {
    if t.utf16 && IsHighSurrogate(t.units[p]) && p + 1 < end && IsLowSurrogate(t.units[p + 1])
    then p + 2 else p + 1
  }

  /** The character that starts at `p`, reading no unit at or after `end`. */
  function CharAt(t: Text, p: nat, end: nat): (c: CodePoint)
    requires p < end <= |t.units|
  {
    if NextPos(t, p, end) == p + 2 then FromSurrogates(t.units[p], t.units[p + 1]) else t.units[p]
  }

  /** The position of the character that ends at `p`, reading no unit before `start`. */
  function PrevPos(t: Text, p: nat, start: nat): (q: nat)
    requires start < p <= |t.units|
    ensures start <= q < p
  {
    if t.utf16 && IsLowSurrogate(t.units[p - 1]) && p - 1 > start && IsHighSurrogate(t.units[p - 2])
    then p - 2 else p - 1
  }

  /** The character that ends at `p`, reading no unit before `start`. */
  function CharBefore(t: Text, p: nat, start: nat): (c: CodePoint)
    requires start < p <= |t.units|
  {
    if PrevPos(t, p, start) == p - 2 then FromSurrogates(t.units[p - 2], t.units[p - 1]) else t.units[p - 1]
  }

  /** `p` does not fall between the two halves of a surrogate pair. */
  predicate Boundary(t: Text, p: nat)
  {
    p <= |t.units| &&
    !(t.utf16 && 0 < p < |t.units| && IsHighSurrogate(t.units[p - 1]) && IsLowSurrogate(t.units[p]))
  }

  lemma NextKeepsBoundary(t: Text, p: nat)
    requires p < |t.units| && Boundary(t, p)
    ensures Boundary(t, NextPos(t, p, |t.units|))
  {
  }

  lemma PrevGivesBoundary(t: Text, p: nat)
    requires 0 < p <= |t.units| && Boundary(t, p)
    ensures Boundary(t, PrevPos(t, p, 0))
  {
  }

  /** Stepping back undoes stepping forward exactly at code point boundaries. */
  lemma PrevUndoesNext(t: Text, p: nat)
    requires p < |t.units|
    ensures PrevPos(t, NextPos(t, p, |t.units|), 0) == p <==> Boundary(t, p)
  {
  }

  /** Whatever the start, stepping back, forward and back again lands where the first step back did. */
  lemma PrevNextPrev(t: Text, p: nat)
    requires 0 < p <= |t.units|
    ensures PrevPos(t, NextPos(t, PrevPos(t, p, 0), |t.units|), 0) == PrevPos(t, p, 0)
  {
  }

  datatype MaybePos = NoPos | SomePos(pos: nat)

  /** `n` steps back, if that does not leave the buffer. */
  function StepBack(t: Text, p: nat, n: nat): (q: MaybePos)
    requires p <= |t.units|
    ensures q.SomePos? ==> q.pos <= p
    decreases n
  {
    if n == 0 then SomePos(p)
    else if p == 0 then NoPos
    else StepBack(t, PrevPos(t, p, 0), n - 1)
  }

  lemma {:induction false} StepBackAdd(t: Text, p: nat, m: nat, n: nat)
    requires p <= |t.units| && StepBack(t, p, m).SomePos?
    ensures StepBack(t, p, m + n) == StepBack(t, StepBack(t, p, m).pos, n)
    decreases m
  {
    if m > 0 {
      StepBackAdd(t, PrevPos(t, p, 0), m - 1, n);
    }
  }

  lemma StepBackStrict(t: Text, p: nat, n: nat)
    requires p <= |t.units| && n > 0 && StepBack(t, p, n).SomePos?
    ensures StepBack(t, p, n).pos < p
  {
  }

  /** `n` steps forward, if the buffer is long enough. */
  function StepForward(t: Text, p: nat, n: nat): (q: MaybePos)
    requires p <= |t.units|
    ensures q.SomePos? ==> p <= q.pos <= |t.units|
    decreases n
  {
    if n == 0 then SomePos(p)
    else if p == |t.units| then NoPos
    else StepForward(t, NextPos(t, p, |t.units|), n - 1)
  }

  /** Counting characters forward and stepping back as many, as the specialised quantifier does: all
      the way back, this returns to the start exactly if the start is a code point boundary. */
  lemma {:induction false} StepBackUndoesForward(t: Text, p: nat, n: nat)
    requires p <= |t.units| && StepForward(t, p, n).SomePos?
    ensures StepBack(t, StepForward(t, p, n).pos, n) == SomePos(p) <==> n == 0 || Boundary(t, p)
    decreases n
  {
    if n > 0 {
      var next, end := NextPos(t, p, |t.units|), StepForward(t, p, n).pos;
      assert Boundary(t, next);
      StepBackUndoesForward(t, next, n - 1);
      StepBackAdd(t, end, n - 1, 1);
      PrevUndoesNext(t, p);
      assert StepBack(t, next, 1) == SomePos(PrevPos(t, next, 0));
    }
  }

  /** From between the halves of a pair, one step forward and one back is one unit too far back. */
  lemma StepBackOvershoots()
    ensures var t := Text([0xD800, 0xDC00], true);
            StepForward(t, 1, 1) == SomePos(2) && StepBack(t, 2, 1) == SomePos(0)
  {
    var t := Text([0xD800, 0xDC00], true);
    assert NextPos(t, 1, 2) == 2 && PrevPos(t, 2, 0) == 0;
    assert StepForward(t, 2, 0) == SomePos(2) && StepBack(t, 0, 0) == SomePos(0);
  }
}
