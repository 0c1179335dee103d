/** Division of two limbs by one limb with a precomputed reciprocal. */
module Reciprocal {
  import opened Rounding
  import opened Bits
  import opened Limbs

  const HALF: nat := 0x8000_0000

  /** udiv1norm_init. */
  function Init(d: Limb): (inv: Limb)
    requires d >= HALF
    ensures inv == (U64 - 1) / d - BASE
  {
    var a1, a0 := BASE - d - 1, BASE - 1;
    InitFits(d);
    (a1 * BASE + a0) / d % BASE
  }

  lemma InitFits(d: nat)
    requires HALF <= d < BASE
    ensures ((BASE - d - 1) * BASE + (BASE - 1)) / d == (U64 - 1) / d - BASE
    ensures BASE <= (U64 - 1) / d < 2 * BASE
  {
    var q, r := Quotient(U64 - 1, d);
    if q < BASE {
      MulMono(q, BASE - 1, d);
    }
    if q >= 2 * BASE {
      MulMono(2 * BASE, q, d);
    }
    assert (q - BASE) * d == q * d - BASE * d;
    DivUnique(U64 - 1, d, q, r);
    DivUnique((BASE - d - 1) * BASE + (BASE - 1), d, q - BASE, r);
  }

  /** udiv1norm, with the wrap-around of its 32-bit and 64-bit operations. */
  function Divide(a1: Limb, a0: Limb, d: Limb, inv: Limb): (qr: (Limb, Limb))
  {
    Settle(a1, a0, d, Guess(a1, a0, d, inv))
  }

  /** The first estimate of the quotient. */
  function Guess(a1: Limb, a0: Limb, d: Limb, inv: Limb): (q: Limb)
  {
    var n1m := if a0 >= HALF then BASE - 1 else 0;
    var nAdj := (a0 + And(n1m, d)) % BASE;
    var a := (inv * ((a1 - n1m) % BASE) + nAdj) % U64;
    (a / BASE + a1) % BASE
  }

  /** The remainder that goes with the next quotient, put right if it is negative. */
  function Settle(a1: Limb, a0: Limb, d: Limb, q: Limb): (qr: (Limb, Limb))
  {
    var rest := (a1 * BASE + a0 - q * d - d) % U64;
    var ah := rest / BASE;
    ((q + 1 + ah) % BASE, (rest % BASE + And(ah, d)) % BASE)
  }

  lemma AndBound(x: nat, y: nat)
    requires x == 0 || x == BASE - 1
    requires y < BASE
    ensures And(x, y) == if x == 0 then 0 else y
  {
    BaseIsPower();
    if x != 0 {
      AndOnes(LIMB_BITS, y);
    }
  }

  // ----- the estimate -----

  /** BASE * (a1 * BASE + a0) - d * y for the estimate y / BASE, when a0 has its top bit clear. */
  lemma LowGap(a1: nat, a0: nat, d: nat, v: nat, k: nat, y: nat)
    requires a1 < d && a0 < HALF <= d < BASE && v * d == U64 - k && 1 <= k <= d
    requires y == v * a1 + a0
    ensures 0 <= BASE * (a1 * BASE + a0) - y * d < BASE * d
  {
    var w := BASE - d;
    assert (v * a1) * d == a1 * (v * d);
    assert a1 * (U64 - k) == a1 * U64 - a1 * k;
    assert y * d == (v * a1) * d + a0 * d;
    assert a0 * w == BASE * a0 - a0 * d;
    assert BASE * (a1 * BASE + a0) - y * d == a1 * k + a0 * w;
    SumFits(a1, k, a0, w, d);
  }

  /** Two products that together stay below BASE * d. */
  lemma SumFits(c: nat, k: nat, b: nat, w: nat, d: nat)
    requires c <= d && k <= d && b < d && w == BASE - d && 0 < w
    ensures 0 <= c * k + b * w < BASE * d
  {
    MulMonoRight(c, k, d);
    MulMono(c, d, d);
    MulMono(b, d - 1, w);
    MulSucc(d - 1, w);
    assert d * w == BASE * d - d * d by { MulSub(d, BASE, d); }
    MulMonoRight(c, 0, k);
    MulMonoRight(b, 0, w);
    Total(c * k, d * d, b * w, d * w, w, BASE * d);
  }

  lemma Total(x: nat, dd: nat, y: nat, dw: int, w: nat, bd: int)
    requires x <= dd && y + w <= dw && dw == bd - dd && w > 0
    ensures 0 <= x + y < bd
  {
  }

  /** The same when the top bit of a0 is set. */
  lemma HighGap(a1: nat, a0: nat, d: nat, v: nat, k: nat, y: int)
    requires a1 < d && HALF <= a0 < BASE && HALF <= d < BASE && v * d == U64 - k && 1 <= k <= d
    requires y == v * (a1 + 1) + a0 + d - 2 * BASE
    ensures 0 <= BASE * (a1 * BASE + a0) - y * d < BASE * d
  {
    var w := BASE - d;
    var c := a1 + 1;
    assert (v * c) * d == c * (v * d);
    assert c * (U64 - k) == c * U64 - c * k;
    assert y * d == (v * c) * d + a0 * d + d * d - 2 * BASE * d;
    var b := a0 - w;
    assert b * w == a0 * w - w * w;
    assert a0 * w == BASE * a0 - a0 * d;
    assert w * w == BASE * BASE - 2 * BASE * d + d * d;
    assert BASE * (a1 * BASE + a0) - y * d == c * k + b * w;
    SumFits(c, k, b, w, d);
  }

  /** The estimate is the quotient or one less. */
  lemma Estimate(n: nat, y: nat, d: nat)
    requires 0 <= BASE * n - y * d < BASE * d && d > 0
    ensures y / BASE * d <= n < y / BASE * d + 2 * d
  {
    var q, r := y / BASE, y % BASE;
    assert y == BASE * q + r;
    assert y * d == BASE * (q * d) + r * d;
    MulMono(r + 1, BASE, d);
    MulSucc(r, d);
  }

  lemma Wrap(x: int, m: int)
    requires m > 0 && -m <= x < m
    ensures x % m == if x >= 0 then x else x + m
  {
    if x >= 0 {
      DivUnique(x, m, 0, x);
    } else {
      assert x % m == (x + m) % m;
      DivUnique(x + m, m, 0, x + m);
    }
  }

  lemma WrapTop(x: nat, m: nat)
    requires m <= x < 2 * m
    ensures x % m == x - m
  {
    DivUnique(x, m, 1, x - m);
  }

  lemma GuessIs(a1: Limb, a0: Limb, d: Limb, inv: Limb)
    requires a1 < d && d >= HALF
    ensures var high := a0 >= HALF;
            var a := if high then inv * (a1 + 1) + (a0 + d - BASE) else inv * a1 + a0;
            0 <= a && Guess(a1, a0, d, inv) == (a / BASE + a1) % BASE
  {
    hide And;
    var high := a0 >= HALF;
    var c, nAdj := if high then a1 + 1 else a1, if high then a0 + d - BASE else a0;
    GuessOperands(a1, a0, d);
    ProductFits(inv, c);
    Wrap(inv * c + nAdj, U64);
  }

  lemma GuessOperands(a1: Limb, a0: Limb, d: Limb)
    requires a1 < d && d >= HALF
    ensures var n1m := if a0 >= HALF then BASE - 1 else 0;
            (a1 - n1m) % BASE == (if a0 >= HALF then a1 + 1 else a1) &&
            (a0 + And(n1m, d)) % BASE == if a0 >= HALF then a0 + d - BASE else a0
  {
    hide And;
    var n1m := if a0 >= HALF then BASE - 1 else 0;
    AndBound(n1m, d);
    Wrap(a1 - n1m, BASE);
    if a0 >= HALF {
      WrapTop(a0 + d, BASE);
    } else {
      Wrap(a0, BASE);
    }
  }

  lemma ProductFits(x: nat, y: nat)
    requires x < BASE && y < BASE
    ensures 0 <= x * y <= (BASE - 1) * (BASE - 1)
  {
    ProductBelow(x, y, BASE - 1);
  }

  lemma ProductBelow(x: nat, y: nat, b: nat)
    requires x <= b && y <= b
    ensures x * y <= b * b
  {
    MulMono(x, b, y);
    MulMonoRight(b, y, b);
  }

  lemma SettleIs(a1: Limb, a0: Limb, d: Limb, q: Limb)
    requires d > 0 && q * d <= a1 * BASE + a0 < q * d + 2 * d
    requires a1 < d
    ensures Settle(a1, a0, d, q) == ((a1 * BASE + a0) / d, (a1 * BASE + a0) % d)
  {
    hide And;
    var n := a1 * BASE + a0;
    var r := n - q * d;
    Wrap(r - d, U64);
    if r < d {
      DivUnique(n, d, q, r);
      SettleLow(d, r, r - d + U64);
      WrapTop(q + BASE, BASE);
    } else {
      MulSucc(q, d);
      DivUnique(n, d, q + 1, r - d);
      QuotientFits(a1, a0, d);
      SettleHigh(d, r - d);
      Wrap(q + 1, BASE);
    }
  }

  /** A negative remainder: its high limb is all ones, which masks in one d. */
  lemma SettleLow(d: Limb, r: nat, rest: nat)
    requires r < d && rest == U64 - (d - r)
    ensures rest / BASE == BASE - 1 && (rest % BASE + And(rest / BASE, d)) % BASE == r
  {
    hide And;
    DivUnique(rest, BASE, BASE - 1, BASE - (d - r));
    AndBound(BASE - 1, d);
    WrapTop(BASE + r, BASE);
  }

  lemma SettleHigh(d: Limb, rest: nat)
    requires rest < d
    ensures rest / BASE == 0 && (rest % BASE + And(rest / BASE, d)) % BASE == rest
  {
    hide And;
    DivUnique(rest, BASE, 0, rest);
    AndBound(0, d);
  }

  lemma QuotientFits(a1: Limb, a0: Limb, d: Limb)
    requires a1 < d
    ensures (a1 * BASE + a0) / d < BASE
  {
    var n := a1 * BASE + a0;
    var q, r := Quotient(n, d);
    DivUnique(n, d, q, r);
    if q >= BASE {
      MulMono(BASE, q, d);
    }
  }

  lemma GuessFits(a1: Limb, a0: Limb, d: Limb, q: nat)
    requires a1 < d && q * d <= a1 * BASE + a0
    ensures q < BASE
  {
    if q >= BASE {
      MulMono(BASE, q, d);
    }
  }

  /** The quotient and the remainder are exact. */
  lemma DivideExact(a1: Limb, a0: Limb, d: Limb)
    requires a1 < d && d >= HALF
    ensures Divide(a1, a0, d, Init(d)) == ((a1 * BASE + a0) / d, (a1 * BASE + a0) % d)
  {
    hide Guess, Settle;
    var q := GuessNear(a1, a0, d);
    SettleIs(a1, a0, d, q);
  }

  lemma GuessNear(a1: Limb, a0: Limb, d: Limb) returns (q: Limb)
    requires a1 < d && d >= HALF
    ensures q == Guess(a1, a0, d, Init(d)) && q * d <= a1 * BASE + a0 < q * d + 2 * d
  {
    hide Guess, Init;
    var inv := Init(d);
    var v, k := InitIs(d);
    var high := a0 >= HALF;
    var a := if high then inv * (a1 + 1) + (a0 + d - BASE) else inv * a1 + a0;
    GuessIs(a1, a0, d, inv);
    var y := a + a1 * BASE;
    if high {
      assert v * (a1 + 1) == inv * (a1 + 1) + BASE * (a1 + 1);
      HighGap(a1, a0, d, v, k, y);
    } else {
      assert v * a1 == inv * a1 + BASE * a1;
      LowGap(a1, a0, d, v, k, y);
    }
    Estimate(a1 * BASE + a0, y, d);
    assert y / BASE == a / BASE + a1;
    GuessFits(a1, a0, d, y / BASE);
    q := y / BASE;
  }

  lemma InitIs(d: Limb) returns (v: nat, k: nat)
    requires d >= HALF
    ensures v == Init(d) + BASE && v * d == U64 - k && 1 <= k <= d
  {
    hide Init;
    var q, r := Quotient(U64 - 1, d);
    DivUnique(U64 - 1, d, q, r);
    v, k := q, r + 1;
  }
}
