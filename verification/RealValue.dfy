/** Doubles as real numbers, and what it means to be the nearest one. */
module RealValue {
  import opened Rounding
  import opened Powers
  import opened ExactScale
  import opened RoundDouble
  import opened ShortDigits

  /** 2^i. */
  ghost function TwoTo(i: int): (x: real)
    ensures x > 0.0
    decreases if i < 0 then -i else i
  {
    if i == 0 then 1.0 else if i > 0 then 2.0 * TwoTo(i - 1) else TwoTo(i + 1) / 2.0
  }

  ghost function Exact(v: nat, s: int): real
  {
    v as real * TwoTo(s)
  }

  ghost function DoubleValue(m: nat, e: int): real
  {
    m as real * TwoTo(e - PREC)
  }

  ghost function AbsR(x: real): real
  {
    if x < 0.0 then -x else x
  }

  /** The least real number that is rounded to infinity: half a unit beyond the largest double. */
  ghost function Overflow(): real
  {
    (2 * P53 - 1) as real * TwoTo(970)
  }

  /** No finite double is nearer to x than y. */
  ghost predicate NoneNearer(x: real, y: real)
  {
    forall m: nat, e: int :: m < P53 && e >= E_MIN ==> AbsR(x - y) <= AbsR(x - DoubleValue(m, e))
  }

  lemma TwoNext(i: int)
    ensures TwoTo(i + 1) == 2.0 * TwoTo(i)
  {
  }

  lemma {:induction false} TwoToSum(i: int, j: int)
    ensures TwoTo(i + j) == TwoTo(i) * TwoTo(j)
    decreases if j < 0 then -j else j
  {
    hide TwoTo;
    if j > 0 {
      TwoToSum(i, j - 1);
      TwoNext(i + j - 1);
      TwoNext(j - 1);
      TwiceAside(TwoTo(i), TwoTo(j - 1));
    } else if j < 0 {
      TwoToSum(i, j + 1);
      TwoNext(i + j);
      TwoNext(j);
      TwiceAside(TwoTo(i), TwoTo(j));
    } else {
      TwoZero();
    }
  }

  lemma TwoZero()
    ensures TwoTo(0) == 1.0
  {
  }

  lemma TwiceAside(x: real, y: real)
    ensures x * (2.0 * y) == 2.0 * (x * y)
  {
  }

  lemma {:induction false} TwoToPow(n: nat)
    ensures TwoTo(n) == Pow2(n) as real
  {
    if n > 0 {
      TwoToPow(n - 1);
    }
  }

  lemma RealProduct(a: nat, b: nat)
    ensures (a * b) as real == a as real * b as real
  {
  }

  lemma RealTerm(v: nat, a: nat)
    ensures (v * Pow2(a)) as real == v as real * TwoTo(a)
  {
    hide Pow2, TwoTo;
    TwoToPow(a);
    RealProduct(v, Pow2(a));
  }

  /** The term v * 2^a, scaled by 2^c. */
  lemma ScaledTerm(v: nat, a: nat, c: int)
    ensures (v * Pow2(a)) as real * TwoTo(c) == Exact(v, a + c)
  {
    hide Pow2, TwoTo;
    RealTerm(v, a);
    TwoToSum(a, c);
  }

  /** The fraction n / d counts the units of 2^u. */
  lemma UnitsAre(v: nat, s: int, u: int)
    ensures Exact(v, s) * Den(-u, 2, s) as real == Num(v, -u, 2, s) as real * TwoTo(u)
  {
    hide Pow, Pow2, Num, Den, TwoTo;
    TwoPowers(v, -u, s);
    var a, b := Pos(-u) + Pos(s), Pos(u) + Pos(-s);
    ScaledTerm(v, a, u);
    TwoToPow(b);
    TwoToSum(s, b);
  }

  /** Packing k units keeps their value. */
  lemma PackedValue(k: nat, ex: int)
    requires var prec := Prec(ex);
             (prec >= 0 ==> k <= Pow2(prec)) && (prec >= 1 ==> Pow2(prec - 1) <= k) && (prec < 0 ==> k == 0)
    ensures var (m, e) := Pack(k, ex); DoubleValue(m, e) == Exact(k, Unit(ex))
  {
    hide Pow2, TwoTo, Unit, Exact, Pack, Prec, DoubleValue;
    PackValue(k, ex);
    var (m, e) := Pack(k, ex);
    SameExact(m, e - PREC, k, Unit(ex));
    DoubleIs(m, e);
  }

  /** Terms that are the same after shifting are the same number. */
  lemma SameExact(m: nat, f: int, k: nat, u: int)
    requires m * Pow2(Pos(f - u)) == k * Pow2(Pos(u - f))
    ensures Exact(m, f) == Exact(k, u)
  {
    hide Pow2, TwoTo, Exact;
    var c := u - Pos(u - f);
    ScaledTerm(m, Pos(f - u), c);
    ScaledTerm(k, Pos(u - f), c);
  }

  lemma DoubleIs(m: nat, e: int)
    ensures DoubleValue(m, e) == Exact(m, e - PREC)
  {
  }

  /** Being nearest among the units of a binade is being nearest among all doubles. */
  lemma NearestReal(v: nat, s: int, ex: int)
    requires v > 0 && Binade(v, 2, s, ex)
    ensures NoneNearer(Exact(v, s), Exact(UnitsOf(v, 2, s, Unit(ex), RNDN), Unit(ex)))
  {
    hide Pow2, TwoTo, Num, Den, Round, Unit, Prec, Exact;
    var u := Unit(ex);
    var n, d := Num(v, -u, 2, s), Den(-u, 2, s);
    var k := Round(n, d, RNDN);
    BinadeUnits(v, 2, s, ex);
    forall m: nat, e: int | m < P53 && e >= E_MIN
      ensures AbsR(Exact(v, s) - Exact(k, u)) <= AbsR(Exact(v, s) - DoubleValue(m, e))
    {
      NearestDouble(n, d, ex, RNDN, m, e);
      NearestTerms(v, s, u, k, m, e);
    }
  }

  lemma ExactIs(v: nat, s: int)
    ensures Exact(v, s) == v as real * TwoTo(s)
  {
  }

  /** An inequality of distances, from fractions to real numbers. */
  lemma NearestTerms(v: nat, s: int, u: int, k: nat, m: nat, e: int)
    requires var n, d, w := Num(v, -u, 2, s), Den(-u, 2, s), u - (e - PREC);
             Abs(n - k * d) * Pow2(Pos(w)) <= Abs(n * Pow2(Pos(w)) - m * Pow2(Pos(-w)) * d)
    ensures AbsR(Exact(v, s) - Exact(k, u)) <= AbsR(Exact(v, s) - DoubleValue(m, e))
  {
    hide Pow, Pow2, TwoTo, Num, Den, Exact, Abs, AbsR;
    var w := u - (e - PREC);
    var a, b, p, q := Pos(-u) + Pos(s), Pos(u) + Pos(-s), Pos(w), Pos(-w);
    TwoPowers(v, -u, s);
    PowDistances(v, a, b, p, q, k, m, Num(v, -u, 2, s), Den(-u, 2, s));
    ScaleTo(v, a + p, k, b + p, m, q + b, u - b - p);
    ExactIs(m, e - PREC);
  }

  lemma PowDistances(v: nat, a: nat, b: nat, p: nat, q: nat, k: nat, m: nat, n: nat, d: nat)
    requires n == v * Pow2(a) && d == Pow2(b)
    requires Abs(n - k * d) * Pow2(p) <= Abs(n * Pow2(p) - m * Pow2(q) * d)
    ensures Abs(v * Pow2(a + p) - k * Pow2(b + p)) <= Abs(v * Pow2(a + p) - m * Pow2(q + b))
  {
    hide Pow2, Abs;
    PowSum(a, p);
    PowSum(b, p);
    PowSum(q, b);
    Distances(v, Pow2(a), Pow2(b), Pow2(p), Pow2(q), k, m);
  }

  lemma ScaleTo(v: nat, a: nat, k: nat, b: nat, m: nat, q: nat, c: int)
    requires Abs(v * Pow2(a) - k * Pow2(b)) <= Abs(v * Pow2(a) - m * Pow2(q))
    ensures AbsR(Exact(v, a + c) - Exact(k, b + c)) <= AbsR(Exact(v, a + c) - Exact(m, q + c))
  {
    hide Pow2, TwoTo, Exact, Abs, AbsR;
    ScaledTerm(v, a, c);
    ScaledTerm(k, b, c);
    ScaledTerm(m, q, c);
    ScaleDistance(v * Pow2(a), k * Pow2(b), m * Pow2(q), TwoTo(c));
  }

  lemma Distances(v: nat, a: nat, b: nat, p: nat, q: nat, k: nat, m: nat)
    requires Abs(v * a - k * b) * p <= Abs(v * a * p - m * q * b)
    ensures Abs(v * (a * p) - k * (b * p)) <= Abs(v * (a * p) - m * (q * b))
  {
    assert v * (a * p) == v * a * p && m * (q * b) == m * q * b;
    assert (v * a - k * b) * p == v * (a * p) - k * (b * p);
    TimesNat(v * a - k * b, p);
  }

  lemma TimesNat(x: int, p: nat)
    ensures Abs(x * p) == Abs(x) * p
  {
  }

  lemma ScaleDistance(x: nat, y: nat, z: nat, c: real)
    requires Abs(x - y) <= Abs(x - z) && c > 0.0
    ensures AbsR(x as real * c - y as real * c) <= AbsR(x as real * c - z as real * c)
  {
    assert AbsR(x as real - y as real) == Abs(x - y) as real;
    assert AbsR(x as real - z as real) == Abs(x - z) as real;
    AbsTimes(x as real - y as real, c);
    AbsTimes(x as real - z as real, c);
    Larger(AbsR(x as real - y as real), AbsR(x as real - z as real), c);
  }

  lemma AbsTimes(x: real, p: real)
    requires p > 0.0
    ensures AbsR(x * p) == AbsR(x) * p
  {
  }

  lemma Larger(x: real, y: real, p: real)
    requires x <= y && p > 0.0
    ensures x * p <= y * p
  {
  }

  lemma Smaller(x: real, y: real, p: real)
    requires x * p <= y * p && p > 0.0
    ensures x <= y
  {
    assert (y - x) * p >= 0.0;
  }

  /** The number of units that overflows. */
  lemma OverflowUnits(n: nat, d: nat)
    requires d > 0
    ensures Round(n, d, RNDN) >= P53 <==> 2 * n >= (2 * P53 - 1) * d
  {
    var q, r := Quotient(n, d);
    RoundIs(n, d, q, r, RNDN);
    if q >= P53 {
      MulMono(P53, q, d);
    } else if q < P53 - 1 {
      MulMono(q, P53 - 2, d);
    }
  }

  /** A value is rounded beyond the largest exponent exactly if it is not below the overflow threshold. */
  lemma OverflowsFrom(v: nat, s: int, ex: int)
    requires v > 0 && Binade(v, 2, s, ex)
    ensures Pack(UnitsOf(v, 2, s, Unit(ex), RNDN), ex).1 > 1024 <==> Exact(v, s) >= Overflow()
  {
    hide Pow, Pow2, TwoTo, Num, Den, Round, Exact, Overflow;
    BinadeUnits(v, 2, s, ex);
    UnitsAre(v, s, Unit(ex));
    PowersAre();
    PowOne();
    var n, d := Num(v, -Unit(ex), 2, s), Den(-Unit(ex), 2, s);
    if ex == 1024 {
      OverflowUnits(n, d);
      AtThreshold(n, d, Exact(v, s));
    } else if ex > 1024 {
      AboveThreshold(n, d, Exact(v, s), Unit(ex));
    } else {
      FewUnits(n, d, Prec(ex));
      BelowThreshold(n, d, Exact(v, s), Unit(ex));
    }
  }

  lemma FewUnits(n: nat, d: nat, prec: int)
    requires prec <= PREC && d > 0 && (prec >= 0 ==> n < Pow2(prec) * d) && (prec < 0 ==> 2 * n < d)
    ensures n < P53 * d
  {
    hide Pow2;
    PowersAre();
    if prec >= 0 {
      MonoPow2(prec, 53);
      MulMono(Pow2(prec), P53, d);
    }
  }

  lemma AtThreshold(n: nat, d: nat, x: real)
    requires d > 0 && x * d as real == n as real * TwoTo(971)
    ensures 2 * n >= (2 * P53 - 1) * d <==> x >= Overflow()
  {
    hide TwoTo;
    TwoNext(970);
    var c, t, a, b := (2 * P53 - 1) as real, TwoTo(970), n as real, d as real;
    assert (2.0 * a - c * b) * t == (x - c * t) * b;
    SameSign(2.0 * a - c * b, t, x - c * t, b);
  }

  lemma SameSign(a: real, p: real, b: real, q: real)
    requires a * p == b * q && p > 0.0 && q > 0.0
    ensures a >= 0.0 <==> b >= 0.0
  {
  }

  lemma AboveThreshold(n: nat, d: nat, x: real, u: int)
    requires d > 0 && x * d as real == n as real * TwoTo(u) && u >= 972 && n >= P52 * d
    ensures x >= Overflow()
  {
    hide TwoTo;
    TwoToSum(u - 970, 970);
    LargeTwo(u - 970);
    var c, t, z, a, b := P52 as real, TwoTo(970), TwoTo(u - 970), n as real, d as real;
    Larger(4.0, z, a);
    Larger(4.0 * (c * b), a * z, t);
    assert x * b == (a * z) * t;
    assert (4.0 * (c * b)) * t == (4.0 * c * t) * b;
    Smaller(4.0 * c * t, x, b);
  }

  lemma BelowThreshold(n: nat, d: nat, x: real, u: int)
    requires d > 0 && x * d as real == n as real * TwoTo(u) && u <= 970 && n < P53 * d
    ensures x < Overflow()
  {
    hide TwoTo;
    TwoToSum(970 - u, u);
    LargeTwo(970 - u);
    var c, t, y, a, b := P53 as real, TwoTo(970), TwoTo(u), n as real, d as real;
    Larger(1.0, TwoTo(970 - u), y);
    assert y <= t;
    LargerStrict(a, c * b, y);
    assert (c * b) * y == (c * y) * b;
    SmallerStrict(x, c * y, b);
    Larger(y, t, c);
    assert c * t < Overflow();
  }

  lemma LargerStrict(x: real, y: real, p: real)
    requires x < y && p > 0.0
    ensures x * p < y * p
  {
  }

  lemma SmallerStrict(x: real, y: real, p: real)
    requires x * p < y * p && p > 0.0
    ensures x < y
  {
    if x >= y {
      Larger(y, x, p);
    }
  }

  lemma LargeTwo(i: int)
    ensures i >= 0 ==> TwoTo(i) >= 1.0
    ensures i >= 2 ==> TwoTo(i) >= 4.0
    ensures TwoTo(1) == 2.0
  {
    hide Pow;
    assert TwoTo(1) == 2.0 * TwoTo(0);
    PowOne();
    PowSum(1, 1);
    if i >= 0 {
      TwoToPow(i);
    }
    if i >= 2 {
      MonoPow2(2, i);
    }
  }
}
