/** The limb loops of dtoa.c, in place on the low `n` limbs of an array. */
module LimbLoops {
  import opened Rounding
  import opened Bits
  import opened Limbs
  import opened Reciprocal

  // ----- one step of each loop -----

  /** A loop from the low limb up: `l` is carried into the next position. */
  lemma UpStep(v': nat, v: nat, p: nat, b: nat, x: nat, l: nat, y: nat, l': nat, l0: nat)
    requires v' + p * l == v * b + l0 && y + BASE * l' == x * b + l
    ensures (v' + p * y) + (BASE * p) * l' == (v + p * x) * b + l0
  {
    assert p * (y + BASE * l') == p * y + (BASE * p) * l';
    assert p * (x * b + l) == (p * x) * b + p * l;
    assert (v + p * x) * b == v * b + (p * x) * b;
  }

  /** A loop from the high limb down: `r` is carried into the next position. */
  lemma DownStep(v': nat, v: nat, p: nat, d: nat, x: nat, r: nat, q: nat, r': nat, h: nat)
    requires v' * d + r == v + h * p && q * d + r' == r * BASE + x
    ensures (q + BASE * v') * d + r' == (x + BASE * v) + h * (BASE * p)
  {
    assert (q + BASE * v') * d == q * d + BASE * (v' * d);
    assert h * (BASE * p) == BASE * (h * p);
  }

  /** The low `i` limbs have been multiplied by b, with the carry l. */
  ghost predicate Multiplied(s: seq<Limb>, was: seq<Limb>, i: nat, b: nat, l: nat, l0: nat)
    requires i <= |s| == |was|
  {
    s[i..] == was[i..] && Val(s[..i]) + Pow(BASE, i) * l == Val(was[..i]) * b + l0
  }

  /** The limbs from `i` on have been divided by d, with the remainder r. */
  ghost predicate Divided(s: seq<Limb>, was: seq<Limb>, i: nat, d: nat, r: nat, h: nat)
    requires i <= |s| == |was|
  {
    s[..i] == was[..i] && Val(s[i..]) * d + r == Val(was[i..]) + h * Pow(BASE, |s| - i)
  }

  lemma MultiplyNext(s: seq<Limb>, was: seq<Limb>, i: nat, b: nat, l: nat, y: Limb, l': nat, l0: nat)
    requires i < |s| == |was| && Multiplied(s, was, i, b, l, l0)
    requires y + BASE * l' == was[i] * b + l
    ensures Multiplied(s[i := y], was, i + 1, b, l', l0)
  {
    hide Val, Pow;
    var t := s[i := y];
    assert t[..i] == s[..i] && t[i + 1..] == s[i..][1..] && was[i..][1..] == was[i + 1..];
    ValSnoc(t, i);
    ValSnoc(was, i);
    PowNext(i);
    UpStep(Val(s[..i]), Val(was[..i]), Pow(BASE, i), b, was[i], l, y, l', l0);
  }

  lemma DivideNext(s: seq<Limb>, was: seq<Limb>, i: nat, d: nat, r: nat, q: Limb, r': nat, h: nat)
    requires 0 < i <= |s| == |was| && Divided(s, was, i, d, r, h)
    requires q * d + r' == r * BASE + was[i - 1]
    ensures Divided(s[i - 1 := q], was, i - 1, d, r', h)
  {
    hide Val, Pow;
    var t := s[i - 1 := q];
    assert t[i - 1..][1..] == s[i..] && was[i - 1..][1..] == was[i..];
    assert t[..i - 1] == s[..i][..i - 1] && was[..i][..i - 1] == was[..i - 1];
    ValCons(t, i - 1);
    ValCons(was, i - 1);
    PowNext(|s| - i);
    DownStep(Val(s[i..]), Val(was[i..]), Pow(BASE, |s| - i), d, was[i - 1], r, q, r', h);
  }

  lemma PowNext(i: nat)
    ensures Pow(BASE, i + 1) == BASE * Pow(BASE, i)
  {
  }

  lemma MultiplyStart(s: seq<Limb>, b: nat, l: nat)
    ensures Multiplied(s, s, 0, b, l, l)
  {
  }

  lemma MultiplyEnd(s: seq<Limb>, was: seq<Limb>, b: nat, l: nat, l0: nat)
    requires |s| == |was| && Multiplied(s, was, |s|, b, l, l0)
    ensures Val(s) + Pow(BASE, |s|) * l == Val(was) * b + l0
  {
    assert s[..|s|] == s && was[..|s|] == was;
  }

  /** With nothing carried the rest can stay as it is. */
  lemma MultiplyStop(s: seq<Limb>, was: seq<Limb>, i: nat, l0: nat)
    requires i <= |s| == |was| && Multiplied(s, was, i, 1, 0, l0)
    ensures Val(s) == Val(was) + l0
  {
    ValAppend(s[..i], s[i..]);
    ValAppend(was[..i], was[i..]);
    assert s == s[..i] + s[i..] && was == was[..i] + was[i..];
  }

  lemma DivideStart(s: seq<Limb>, d: nat, h: nat)
    ensures Divided(s, s, |s|, d, h, h)
  {
  }

  lemma DivideEnd(s: seq<Limb>, was: seq<Limb>, d: nat, r: nat, h: nat)
    requires |s| == |was| && Divided(s, was, 0, d, r, h)
    ensures Val(s) * d + r == Val(was) + h * Pow(BASE, |s|)
  {
    assert s[0..] == s && was[0..] == was;
  }

  // ----- shifted limbs -----

  /** A limb a = q * c + r moved up over c * p == BASE. */
  lemma MoveUp(a: nat, p: nat, c: nat, q: nat, r: nat)
    requires c * p == BASE && a == q * c + r && r < c
    ensures a * p == q * BASE + r * p && r * p < BASE && a * p % BASE == r * p
  {
    assert (q * c + r) * p == q * (c * p) + r * p;
    MulMono(r + 1, c, p);
    MulSucc(r, p);
    DivUnique(a * p, BASE, q, r * p);
  }

  lemma QuotientSmall(a: nat, c: nat, p: nat, q: nat, r: nat)
    requires a < c * p && a == q * c + r
    ensures q < p
  {
    if q >= p {
      MulMono(p, q, c);
    }
  }

  lemma Halves(s: nat)
    requires s <= LIMB_BITS
    ensures Pow2(LIMB_BITS - s) * Pow2(s) == BASE
  {
    hide Pow;
    PowAdd(2, s, LIMB_BITS - s);
    BaseIsPower();
  }

  lemma ShlStep(a: Limb, s: nat, l: nat)
    requires 1 <= s < LIMB_BITS && l < Pow2(s)
    ensures var y := Or(a * Pow2(s) % BASE, l);
            y < BASE && a / Pow2(LIMB_BITS - s) < Pow2(s) && y + BASE * (a / Pow2(LIMB_BITS - s)) == a * Pow2(s) + l
  {
    hide Or, Pow2;
    var p, c := Pow2(s), Pow2(LIMB_BITS - s);
    Halves(s);
    var q, r := Quotient(a, c);
    DivUnique(a, c, q, r);
    MoveUp(a, p, c, q, r);
    QuotientSmall(a, c, p, q, r);
    OrIsSum(r, s, l);
    JoinHead(r, c, p, l);
  }

  lemma JoinHead(r: nat, d: nat, p: nat, c: nat)
    requires r < d && c < p
    ensures r * p + c < d * p
  {
    MulMono(r + 1, d, p);
    MulSucc(r, p);
  }

  /** The low `s` bits. */
  function Low(x: nat, s: nat): (r: nat)
    ensures r < Pow2(s) && r <= x
  {
    x % Pow2(s)
  }

  /** A limb of a number shifted right: the low bits of the limb above come in at the top. */
  function ShrLimb(a: Limb, s: nat, l: Limb): (y: nat)
    requires 1 <= s < LIMB_BITS
  {
    Or(a / Pow2(s), l * Pow2(LIMB_BITS - s) % BASE)
  }

  lemma ShrStep(a: Limb, s: nat, l: Limb)
    requires 1 <= s < LIMB_BITS
    ensures ShrLimb(a, s, l) < BASE
    ensures ShrLimb(a, s, l) * Pow2(s) + Low(a, s) == Low(l, s) * BASE + a
  {
    hide Or, Pow2;
    var p, c := Pow2(s), Pow2(LIMB_BITS - s);
    Halves(s);
    var q, r := Quotient(l, p);
    DivUnique(l, p, q, r);
    assert p * c == BASE;
    MoveUp(l, c, p, q, r);
    var x, z := Quotient(a, p);
    DivUnique(a, p, x, z);
    QuotientSmall(a, p, c, x, z);
    OrIsSum(r, LIMB_BITS - s, x);
    OrSym(x, r * c);
    JoinHead(r, p, c, x);
    MoveDown(r, c, p, x, z, a);
  }

  lemma MoveDown(r: nat, c: nat, p: nat, x: nat, z: nat, a: nat)
    requires p * c == BASE && a == x * p + z
    ensures (r * c + x) * p + z == r * BASE + a
  {
    assert (r * c + x) * p == r * (p * c) + x * p;
  }

  // ----- the loops -----

  /** mp_add_ui: adds a limb; gives the carry. */
  method AddUi(tab: array<Limb>, b: Limb, n: nat) returns (k: Limb)
    requires n <= tab.Length
    modifies tab
    ensures Val(tab[..n]) + Pow(BASE, n) * k == old(Val(tab[..n])) + b
    ensures tab[n..] == old(tab[n..])
    ensures k <= 1 || n == 0
  {
    hide Val, Pow, Multiplied;
    k := b;
    ghost var was := tab[..n];
    MultiplyStart(was, 1, b);
    var i := 0;
    while i < n
      invariant 0 <= i <= n
      invariant tab[n..] == old(tab[n..])
      invariant tab[i..n] == was[i..]
      invariant Multiplied(tab[..n], was, i, 1, k, b)
      invariant k <= 1 || i == 0
    {
      if k == 0 {
        MultiplyStop(tab[..n], was, i, b);
        return;
      }
      assert tab[i] == tab[i..n][0] == was[i];
      var a := (tab[i] + k) % BASE;
      AddStep(tab[i], k);
      MultiplyNext(tab[..n], was, i, 1, k, a, if a < k then 1 else 0, b);
      k := if a < k then 1 else 0;
      ghost var rest := tab[i..n][1..];
      ghost var s := tab[..n][i := a];
      tab[i] := a;
      assert tab[..n] == s && tab[i + 1..n] == rest;
      i := i + 1;
    }
    MultiplyEnd(tab[..n], was, 1, k, b);
  }

  lemma AddStep(x: Limb, k: Limb)
    ensures var a := (x + k) % BASE; a + BASE * (if a < k then 1 else 0) == x + k
  {
    if x + k < BASE {
      DivUnique(x + k, BASE, 0, x + k);
    } else {
      DivUnique(x + k, BASE, 1, x + k - BASE);
    }
  }

  /** mp_mul1: multiplies by a limb and adds one; gives the high carry. */
  method Mul1(tab: array<Limb>, n: nat, b: Limb, l0: Limb) returns (l: Limb)
    requires n <= tab.Length
    modifies tab
    ensures Val(tab[..n]) + Pow(BASE, n) * l == old(Val(tab[..n])) * b + l0
    ensures tab[n..] == old(tab[n..])
  {
    hide Val, Pow, Multiplied, Or;
    l := l0;
    ghost var was := tab[..n];
    MultiplyStart(was, b, l0);
    for i := 0 to n
      invariant tab[n..] == old(tab[n..]) && tab[i..n] == was[i..]
      invariant Multiplied(tab[..n], was, i, b, l, l0)
    {
      var x := tab[i];
      assert x == tab[i..n][0] == was[i];
      MulFits(x, b, l);
      var t := x * b + l;
      var y, l1 := t % BASE, t / BASE;
      DivIs(t, BASE);
      MultiplyNext(tab[..n], was, i, b, l, y, l1, l0);
      ghost var rest, s := tab[i..n][1..], tab[..n][i := y];
      tab[i] := y;
      l := l1;
      assert tab[..n] == s && tab[i + 1..n] == rest;
    }
    MultiplyEnd(tab[..n], was, b, l, l0);
  }

  lemma MulFits(x: Limb, b: Limb, l: Limb)
    ensures 0 <= (x * b + l) / BASE < BASE
  {
    ProductFits(x, b);
  }

  /** mp_shl: gives the bits shifted out. */
  method Shl(tab: array<Limb>, n: nat, shift: nat, low: Limb) returns (l: Limb)
    requires n <= tab.Length && 1 <= shift < LIMB_BITS && low < Pow2(shift)
    modifies tab
    ensures Val(tab[..n]) + Pow(BASE, n) * l == old(Val(tab[..n])) * Pow2(shift) + low
    ensures tab[n..] == old(tab[n..])
    ensures l < Pow2(shift)
  {
    hide Val, Pow, Multiplied, Or;
    l := low;
    ghost var was := tab[..n];
    MultiplyStart(was, Pow2(shift), low);
    for i := 0 to n
      invariant tab[n..] == old(tab[n..]) && tab[i..n] == was[i..] && l < Pow2(shift)
      invariant Multiplied(tab[..n], was, i, Pow2(shift), l, low)
    {
      var x := tab[i];
      assert x == tab[i..n][0] == was[i];
      ShlStep(x, shift, l);
      var y, l1 := Or(x * Pow2(shift) % BASE, l), x / Pow2(LIMB_BITS - shift);
      MultiplyNext(tab[..n], was, i, Pow2(shift), l, y, l1, low);
      ghost var rest, s := tab[i..n][1..], tab[..n][i := y];
      tab[i] := y;
      l := l1;
      assert tab[..n] == s && tab[i + 1..n] == rest;
    }
    MultiplyEnd(tab[..n], was, Pow2(shift), l, low);
  }

  /** mp_shr: the bits of `high` come in at the top; gives the bits that go out. */
  method Shr(tab: array<Limb>, n: nat, shift: nat, high: Limb) returns (r: Limb)
    requires n <= tab.Length && 1 <= shift < LIMB_BITS
    modifies tab
    ensures Val(tab[..n]) * Pow2(shift) + r == old(Val(tab[..n])) + Low(high, shift) * Pow(BASE, n) && r < Pow2(shift)
    ensures tab[n..] == old(tab[n..])
  {
    hide Val, Pow, Pow2, Divided, ShrLimb, Low;
    var l: Limb := high;
    var i := n;
    ghost var was := tab[..n];
    DivideStart(was, Pow2(shift), Low(high, shift));
    while i > 0
      invariant 0 <= i <= n
      invariant tab[n..] == old(tab[n..]) && tab[..i] == was[..i]
      invariant Divided(tab[..n], was, i, Pow2(shift), Low(l, shift), Low(high, shift))
    {
      i := i - 1;
      var a := tab[i];
      assert a == tab[..i + 1][i] == was[i];
      ShrStep(a, shift, l);
      var q := ShrLimb(a, shift, l);
      DivideNext(tab[..n], was, i + 1, Pow2(shift), Low(l, shift), q, Low(a, shift), Low(high, shift));
      l := a;
      ghost var rest, s := tab[..i + 1][..i], tab[..n][i := q];
      tab[i] := q;
      assert tab[..n] == s && tab[..i] == rest;
    }
    DivideEnd(tab[..n], was, Pow2(shift), Low(l, shift), Low(high, shift));
    r := Low(l, shift);
  }

  /** mp_div1. */
  method Div1(tab: array<Limb>, n: nat, b: Limb, r0: Limb) returns (r: Limb)
    requires n <= tab.Length && r0 < b
    modifies tab
    ensures Val(tab[..n]) * b + r == old(Val(tab[..n])) + r0 * Pow(BASE, n) && r < b
    ensures tab[n..] == old(tab[n..])
  {
    hide Val, Pow, Divided;
    r := r0;
    var i := n;
    ghost var was := tab[..n];
    DivideStart(was, b, r0);
    while i > 0
      invariant 0 <= i <= n && r < b
      invariant tab[n..] == old(tab[n..]) && tab[..i] == was[..i]
      invariant Divided(tab[..n], was, i, b, r, r0)
    {
      i := i - 1;
      var a := tab[i];
      assert a == tab[..i + 1][i] == was[i];
      QuotientFits(r, a, b);
      var a1 := r * BASE + a;
      DivIs(a1, b);
      var q := a1 / b;
      DivideNext(tab[..n], was, i + 1, b, r, q, a1 % b, r0);
      r := a1 % b;
      ghost var rest, s := tab[..i + 1][..i], tab[..n][i := q];
      tab[i] := q;
      assert tab[..n] == s && tab[..i] == rest;
    }
    DivideEnd(tab[..n], was, b, r, r0);
  }

  /** The loop of mp_div1norm: the quotient digits come from the reciprocal. */
  method DivNormLoop(tab: array<Limb>, n: nat, b: Limb, r0: Limb, inv: Limb) returns (r: Limb)
    requires n <= tab.Length && r0 < b && b >= HALF && inv == Init(b)
    modifies tab
    ensures Val(tab[..n]) * b + r == old(Val(tab[..n])) + r0 * Pow(BASE, n) && r < b
    ensures tab[n..] == old(tab[n..])
  {
    hide Val, Pow, Divided, Init, Divide;
    r := r0;
    var i := n;
    ghost var was := tab[..n];
    DivideStart(was, b, r0);
    while i > 0
      invariant 0 <= i <= n && r < b
      invariant tab[n..] == old(tab[n..]) && tab[..i] == was[..i]
      invariant Divided(tab[..n], was, i, b, r, r0)
    {
      i := i - 1;
      var a := tab[i];
      assert a == tab[..i + 1][i] == was[i];
      DivideExact(r, a, b);
      DivIs(r * BASE + a, b);
      var qr := Divide(r, a, b, inv);
      var q := qr.0;
      DivideNext(tab[..n], was, i + 1, b, r, q, qr.1, r0);
      r := qr.1;
      ghost var rest, s := tab[..i + 1][..i], tab[..n][i := q];
      tab[i] := q;
      assert tab[..n] == s && tab[..i] == rest;
    }
    DivideEnd(tab[..n], was, b, r, r0);
  }

  /** mp_div1norm in place: division by d, given as b = d * 2^shift with its reciprocal. */
  method Div1Norm(tab: array<Limb>, n: nat, b: Limb, r0: Limb, inv: Limb, shift: nat, ghost d: nat) returns (r: Limb)
    requires n <= tab.Length && shift < LIMB_BITS
    requires b == d * Pow2(shift) && b >= HALF && r0 < d && inv == Init(b)
    modifies tab
    ensures Val(tab[..n]) * d + r == old(Val(tab[..n])) + r0 * Pow(BASE, n) && r < d
    ensures tab[n..] == old(tab[n..])
  {
    hide Init, Or, Val, Pow, Pow2;
    ghost var v := Val(tab[..n]);
    ghost var carry := 0;
    r := r0;
    if shift != 0 {
      var c := Shl(tab, n, shift, 0);
      carry := c;
      HeadFits(r0, d, shift, b, c);
      r := Or(r0 * Pow2(shift) % BASE, c);
    } else {
      PowZero();
    }
    ghost var v1, r1 := Val(tab[..n]), r;
    r := DivNormLoop(tab, n, b, r, inv);
    Unscale(Val(tab[..n]), d, Pow2(shift), b, r, v, v1, r0, carry, r1, Pow(BASE, n));
    r := r / Pow2(shift);
  }

  lemma PowZero()
    ensures Pow2(0) == 1
  {
  }

  lemma HeadFits(r: nat, d: nat, shift: nat, b: Limb, c: nat)
    requires r < d && b == d * Pow2(shift) && c < Pow2(shift)
    ensures Or(r * Pow2(shift) % BASE, c) == r * Pow2(shift) + c < b
  {
    hide Or, Pow2;
    JoinHead(r, d, Pow2(shift), c);
    DivUnique(r * Pow2(shift), BASE, 0, r * Pow2(shift));
    OrIsSum(r, shift, c);
  }

  /** What division of the shifted number by the shifted divisor gives. */
  lemma Unscale(q: nat, d: nat, p: nat, b: nat, r: nat, v: nat, v1: nat, r0: nat, c: nat, r1: nat, m: nat)
    requires p > 0 && b == d * p && q * b + r == v1 + r1 * m && r < b
    requires v1 + m * c == v * p && r1 == r0 * p + c
    ensures q * d + r / p == v + r0 * m && r / p < d
  {
    var n, x := v + r0 * m, q * d;
    assert r1 * m == (r0 * m) * p + m * c;
    assert n * p == v * p + (r0 * m) * p;
    assert q * b == x * p;
    assert x * p + r == n * p;
    CancelScale(x, p, r, n);
    MulLess(p, n - x, d);
  }

  lemma CancelScale(x: nat, p: nat, r: nat, n: nat)
    requires p > 0 && x * p + r == n * p
    ensures x <= n && r == (n - x) * p && r / p == n - x
  {
    if n < x {
      MulMono(n + 1, x, p);
      MulSucc(n, p);
    }
    assert (n - x) * p == n * p - x * p;
    DivUnique(r, p, n - x, 0);
  }

  // ----- moving whole limbs -----

  /** Moves the low `n` limbs up by `l`. */
  method RaiseLimbs(tab: array<Limb>, n: nat, l: nat)
    requires n + l <= tab.Length
    modifies tab
    ensures tab[l..n + l] == old(tab[..n])
  {
    ghost var s := tab[..n];
    var i := n;
    while i > 0
      invariant 0 <= i <= n
      invariant tab[..i] == s[..i] && tab[i + l..n + l] == s[i..]
    {
      i := i - 1;
      ghost var low, high := tab[..i + 1][..i], tab[i + 1 + l..n + l];
      tab[i + l] := tab[i];
      assert tab[i + l..n + l] == [s[i]] + high && tab[..i] == low;
    }
  }

  /** Moves the low `n` limbs up by `l` and clears the low ones. */
  method CopyUp(tab: array<Limb>, n: nat, l: nat)
    requires n + l <= tab.Length
    modifies tab
    ensures tab[l..n + l] == old(tab[..n]) && (forall k :: 0 <= k < l ==> tab[k] == 0)
  {
    RaiseLimbs(tab, n, l);
    ghost var s := tab[l..n + l];
    for j := 0 to l
      invariant tab[l..n + l] == s
      invariant forall k :: 0 <= k < j ==> tab[k] == 0
    {
      tab[j] := 0;
    }
  }

  /** Moves `n` limbs down by `l`. */
  method CopyDown(tab: array<Limb>, n: nat, l: nat)
    requires n + l <= tab.Length
    modifies tab
    ensures tab[..n] == old(tab[l..n + l])
  {
    ghost var s := tab[l..n + l];
    for i := 0 to n
      invariant tab[..i] == s[..i] && tab[i + l..n + l] == s[i..]
    {
      ghost var low, high := tab[..i], tab[i + l..n + l][1..];
      assert tab[i + l] == tab[i + l..n + l][0] == s[i];
      tab[i] := tab[i + l];
      assert tab[..i + 1] == low + [s[i]] && tab[i + 1 + l..n + l] == high;
    }
  }
}
