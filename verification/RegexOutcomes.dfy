/** What a pattern matches: the ordered list of all the ways it can match from a given state,
    in the order in which a backtracking matcher prefers them. */
module RegexOutcomes {
  import opened CharInput
  import opened RegexSyntax

  /** One half of a capture: a null pointer or a position. */
  datatype Slot = Unset | Ptr(pos: nat)

  /** The part of a matcher state that a pattern changes. caps[2i] and caps[2i + 1] are the
      start and the end of capture i. */
  datatype St = St(pos: nat, caps: seq<Slot>)

  /** The input and the case folding function, fixed for a whole match. */
  datatype Env = Env(text: Text, canon: CodePoint -> CodePoint)

  predicate ValidSlot(e: Env, s: Slot)
  {
    s.Ptr? ==> s.pos <= |e.text.units|
  }

  /** Every pointer is into the buffer or one past its end. */
  predicate InBuffer(e: Env, x: St)
  {
    x.pos <= |e.text.units| &&
    forall i :: 0 <= i < |x.caps| ==> ValidSlot(e, x.caps[i])
  }

  predicate ValidSt(e: Env, x: St)
  {
    InBuffer(e, x) && Boundary(e.text, x.pos)
  }

  /** `y` can come after `x` when matching in the given direction. */
  predicate Follows(e: Env, bw: bool, x: St, y: St)
  {
    ValidSt(e, y) && |y.caps| == |x.caps| &&
    if bw then y.pos <= x.pos else x.pos <= y.pos
  }

  predicate AllFollow(e: Env, bw: bool, x: St, ys: seq<St>)
  {
    forall i :: 0 <= i < |ys| ==> Follows(e, bw, x, ys[i])
  }

  /** How far a match can still go in the given direction. */
  function Room(e: Env, bw: bool, x: St): nat
    requires ValidSt(e, x)
  {
    if bw then x.pos else |e.text.units| - x.pos
  }

  function Flat(zss: seq<seq<St>>): seq<St>
  {
    if zss == [] then [] else zss[0] + Flat(zss[1..])
  }

  lemma {:induction false} FlatFollows(e: Env, bw: bool, x: St, zss: seq<seq<St>>)
    requires forall i :: 0 <= i < |zss| ==> AllFollow(e, bw, x, zss[i])
    ensures AllFollow(e, bw, x, Flat(zss))
  {
    if zss != [] {
      FlatFollows(e, bw, x, zss[1..]);
    }
  }

  /** The outcomes that are not at position `p`. */
  function Advancing(ys: seq<St>, p: nat): (zs: seq<St>)
    ensures |zs| <= |ys|
    ensures forall i :: 0 <= i < |zs| ==> zs[i] in ys && zs[i].pos != p
  {
    if ys == [] then []
    else if ys[0].pos == p then Advancing(ys[1..], p)
    else [ys[0]] + Advancing(ys[1..], p)
  }

  // ----- single characters -----

  predicate IsLineTerminator(c: nat) { c == 0x0A || c == 0x0D || c == 0x2028 || c == 0x2029 }

  predicate IsWordChar(c: nat)
  {
    0x30 <= c <= 0x39 || 0x61 <= c <= 0x7A || 0x41 <= c <= 0x5A || c == 0x5F
  }

  function Fold(e: Env, icase: bool, c: CodePoint): CodePoint
  {
    if icase then e.canon(c) else c
  }

  /** Does the one-character pattern `r` accept character `c`? */
  predicate Accepts(e: Env, r: Re, c: CodePoint)
    requires r.Char? || r.AnyChar? || r.Class?
  {
    match r
    case Char(c0, icase) => Fold(e, icase, c) == Fold(e, icase, c0)
    case AnyChar(dotall) => dotall || !IsLineTerminator(c)
    case Class(points, icase) => InPoints(points, Fold(e, icase, c))
  }

  function OneChar(e: Env, r: Re, bw: bool, x: St): (ys: seq<St>)
    requires r.Char? || r.AnyChar? || r.Class?
    requires ValidSt(e, x)
    ensures AllFollow(e, bw, x, ys)
    ensures |ys| <= 1 && (ys != [] ==> ys[0].pos != x.pos)
  {
    var n := |e.text.units|;
    if bw then
      if x.pos == 0 then [] else
      PrevGivesBoundary(e.text, x.pos);
      var q := PrevPos(e.text, x.pos, 0);
      if Accepts(e, r, CharAt(e.text, q, n)) then [x.(pos := q)] else []
    else
      if x.pos == n then [] else
      NextKeepsBoundary(e.text, x.pos);
      if Accepts(e, r, CharAt(e.text, x.pos, n)) then [x.(pos := NextPos(e.text, x.pos, n))] else []
  }

  // ----- assertions and back references -----

  predicate WordBefore(e: Env, icase: bool, p: nat)
    requires p <= |e.text.units|
  {
    p != 0 && IsWordChar(Fold(e, icase, CharBefore(e.text, p, 0)))
  }

  predicate WordAfter(e: Env, icase: bool, p: nat)
    requires p <= |e.text.units|
  {
    p < |e.text.units| && IsWordChar(Fold(e, icase, CharAt(e.text, p, |e.text.units|)))
  }

  /** Does the zero-width pattern `r` hold at position `p`? */
  predicate Holds(e: Env, r: Re, p: nat)
    requires r.LineStart? || r.LineEnd? || r.WordBoundary?
    requires p <= |e.text.units|
  {
    match r
    case LineStart(m) => p == 0 || (m && IsLineTerminator(CharBefore(e.text, p, 0)))
    case LineEnd(m) => p == |e.text.units| || (m && IsLineTerminator(CharAt(e.text, p, |e.text.units|)))
    case WordBoundary(negated, icase) => (WordBefore(e, icase, p) != WordAfter(e, icase, p)) != negated
  }

  /** Compares the text in [s, end) with the text that starts at `p`; gives the end of the latter. */
  function BackForward(e: Env, icase: bool, s: nat, end: nat, p: nat): (r: MaybePos)
    requires end <= |e.text.units| && p <= |e.text.units|
    ensures r.SomePos? ==> p <= r.pos <= |e.text.units|
    ensures r.SomePos? && Boundary(e.text, p) ==> Boundary(e.text, r.pos)
    decreases end - s
  {
    var n := |e.text.units|;
    if s >= end then SomePos(p)
    else if p >= n then NoPos
    else if Fold(e, icase, CharAt(e.text, s, end)) == Fold(e, icase, CharAt(e.text, p, n)) then
      BackForward(e, icase, NextPos(e.text, s, end), end, NextPos(e.text, p, n))
    else NoPos
  }

  /** The same from right to left: the text in [start, s) against the text that ends at `p`. */
  function BackBackward(e: Env, icase: bool, start: nat, s: nat, p: nat): (r: MaybePos)
    requires s <= |e.text.units| && p <= |e.text.units|
    ensures r.SomePos? ==> r.pos <= p
    ensures r.SomePos? && Boundary(e.text, p) ==> Boundary(e.text, r.pos)
    decreases s
  {
    if s <= start then SomePos(p)
    else if p == 0 then NoPos
    else if Fold(e, icase, CharBefore(e.text, s, start)) == Fold(e, icase, CharBefore(e.text, p, 0)) then
      BackBackward(e, icase, start, PrevPos(e.text, s, start), PrevPos(e.text, p, 0))
    else NoPos
  }

  /** A reference to a group that has not captured matches the empty text. */
  function BackReference(e: Env, icase: bool, bw: bool, index: nat, x: St): (r: MaybePos)
    requires InBuffer(e, x)
    ensures r.SomePos? ==> r.pos <= |e.text.units|
    ensures r.SomePos? && ValidSt(e, x) ==> Follows(e, bw, x, x.(pos := r.pos))
  {
    if 2 * index + 1 >= |x.caps| then NoPos
    else if x.caps[2 * index].Unset? || x.caps[2 * index + 1].Unset? then SomePos(x.pos)
    else
      assert ValidSlot(e, x.caps[2 * index]) && ValidSlot(e, x.caps[2 * index + 1]);
      if bw then BackBackward(e, icase, x.caps[2 * index].pos, x.caps[2 * index + 1].pos, x.pos)
      else BackForward(e, icase, x.caps[2 * index].pos, x.caps[2 * index + 1].pos, x.pos)
  }

  // ----- captures -----

  function SetSlot(x: St, i: nat): (y: St)
    ensures y.pos == x.pos && |y.caps| == |x.caps|
  {
    if i < |x.caps| then x.(caps := x.caps[i := Ptr(x.pos)]) else x
  }

  /** Clears captures lo..hi-1. */
  function Reset(x: St, lo: nat, hi: nat): (y: St)
    ensures y.pos == x.pos && |y.caps| == |x.caps|
  {
    x.(caps := seq(|x.caps|, i requires 0 <= i < |x.caps| => if 2 * lo <= i < 2 * hi then Unset else x.caps[i]))
  }

  // ----- patterns -----

  datatype Bound = Unbounded | AtMost(n: nat)

  predicate Done(k: Bound) { k == AtMost(0) }

  function Less(k: Bound): Bound
    requires !Done(k)
  {
    if k.Unbounded? then Unbounded else AtMost(k.n - 1)
  }

  /** All the ways in which `r` matches from `x`, best first; `cc` is the index of the first
      capture group in `r` and `bw` the direction. */
  function Outcomes(e: Env, r: Re, cc: nat, bw: bool, x: St): (ys: seq<St>)
    requires ValidSt(e, x)
    ensures AllFollow(e, bw, x, ys)
    decreases r, 3, 0
  {
    match r
    case Empty => [x]
    case Char(_, _) => OneChar(e, r, bw, x)
    case AnyChar(_) => OneChar(e, r, bw, x)
    case Class(_, _) => OneChar(e, r, bw, x)
    case ClassOrEmpty(points, icase) => OneChar(e, Class(points, icase), bw, x) + [x]
    case LineStart(_) => if Holds(e, r, x.pos) then [x] else []
    case LineEnd(_) => if Holds(e, r, x.pos) then [x] else []
    case WordBoundary(_, _) => if Holds(e, r, x.pos) then [x] else []
    case BackRef(index, icase) =>
      var p := BackReference(e, icase, bw, index, x);
      if p.SomePos? then [x.(pos := p.pos)] else []
    case Seq(a, b) =>
      if bw then Then(e, b, cc + Groups(a), a, cc, bw, x, r) else Then(e, a, cc, b, cc + Groups(a), bw, x, r)
    case Alt(a, b) => Outcomes(e, a, cc, bw, x) + Outcomes(e, b, cc + Groups(a), bw, x)
    case Group(a) =>
      var ys := Outcomes(e, a, cc + 1, bw, SetSlot(x, Opening(cc, bw)));
      seq(|ys|, i requires 0 <= i < |ys| => SetSlot(ys[i], Closing(cc, bw)))
    case Look(a, negated, behind) =>
      var ys := Outcomes(e, a, cc, behind, x);
      if negated then (if ys == [] then [x] else [])
      else (if ys == [] then [] else [x.(caps := ys[0].caps)])
    case Quant(a, min, max, greedy) =>
      var x0 := if min == 0 then Reset(x, cc, cc + Groups(a)) else x;
      Times(e, a, cc, bw, min, Extra(min, max), greedy, x0)
  }

  /** `a` and then `b`, the two parts of `whole` in matching order. */
  function Then(e: Env, a: Re, ca: nat, b: Re, cb: nat, bw: bool, x: St, ghost whole: Re): (ys: seq<St>)
    requires ValidSt(e, x) && a < whole && b < whole
    ensures AllFollow(e, bw, x, ys)
    decreases whole, 0, 0
  {
    var ys := Outcomes(e, a, ca, bw, x);
    var zss := seq(|ys|, i requires 0 <= i < |ys| => Outcomes(e, b, cb, bw, ys[i]));
    FlatFollows(e, bw, x, zss);
    Flat(zss)
  }

  /** The slot written when a group is entered, and the one written when it is left. */
  function Opening(cc: nat, bw: bool): nat { if bw then 2 * cc + 1 else 2 * cc }

  function Closing(cc: nat, bw: bool): nat { if bw then 2 * cc else 2 * cc + 1 }

  /** How many repetitions a quantifier allows after the required ones. */
  function Extra(min: nat, max: nat): Bound
  {
    if max == INFINITY then Unbounded else if max <= min then AtMost(0) else AtMost(max - min)
  }

  /** `min` required repetitions of `a`, then up to `k` optional ones. */
  function Times(e: Env, a: Re, cc: nat, bw: bool, min: nat, k: Bound, greedy: bool, x: St): (ys: seq<St>)
    requires ValidSt(e, x)
    ensures AllFollow(e, bw, x, ys)
    decreases a, 5, min
  {
    if min == 0 then Repeat(e, a, cc, bw, k, greedy, x)
    else
      var ys := Outcomes(e, a, cc, bw, x);
      var zss := seq(|ys|, i requires 0 <= i < |ys| => Times(e, a, cc, bw, min - 1, k, greedy, ys[i]));
      FlatFollows(e, bw, x, zss);
      Flat(zss)
  }

  /** Up to `k` repetitions of `a`, each of which must move. */
  function Repeat(e: Env, a: Re, cc: nat, bw: bool, k: Bound, greedy: bool, x: St): (ys: seq<St>)
    requires ValidSt(e, x)
    ensures AllFollow(e, bw, x, ys)
    decreases a, 4, Room(e, bw, x)
  {
    if Done(k) then [x]
    else
      var ys := Advancing(Outcomes(e, a, cc, bw, x), x.pos);
      var zss := seq(|ys|, i requires 0 <= i < |ys| => Repeat(e, a, cc, bw, Less(k), greedy, ys[i]));
      FlatFollows(e, bw, x, zss);
      if greedy then Flat(zss) + [x] else [x] + Flat(zss)
  }
}
