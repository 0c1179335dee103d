/** When a decimal (or other radix) number rounds back to a given double. */
module RoundTrip {
  import opened Rounding
  import opened Powers
  import opened BigNum
  import opened ExactScale
  import opened RoundDouble

  const P54: nat := 0x40_0000_0000_0000

  /** m * 2^(e-53) is a double, with a normalised mantissa also if it is subnormal. */
  predicate IsDouble(m: nat, e: int)
  {
    P52 <= m < P53 && (e < E_MIN ==> m % Pow2(E_MIN - e) == 0)
  }

  /** v * radix^g rounds to the double (m, e). */
  ghost predicate ConvertsTo(v: nat, radix: nat, g: int, m: nat, e: int)
    requires radix > 0
  {
    exists ex :: Binade(v, radix, g, ex) && (m, e) == Pack(UnitsOf(v, radix, g, Unit(ex), RNDN), ex)
  }

  /** There is only one binade. */
  lemma BinadeUnique(v: nat, radix: nat, f: int, ex: int, ex': int)
    requires radix > 0 && Binade(v, radix, f, ex) && Binade(v, radix, f, ex')
    ensures ex == ex'
  {
    if ex < ex' {
      BinadeBelow(v, radix, f, ex, ex');
    } else if ex' < ex {
      BinadeBelow(v, radix, f, ex', ex);
    }
  }

  lemma BinadeBelow(v: nat, radix: nat, f: int, ex: int, ex': int)
    requires radix > 0 && Binade(v, radix, f, ex) && ex < ex'
    ensures !Binade(v, radix, f, ex')
  {
    hide Num, Den, Pow2;
    // -ex == (1 - ex') + j
    var j := ex' - 1 - ex;
    NumShift(v, 1 - ex', j, radix, f);
    var n, d, n0, d0 := Num(v, 1 - ex', radix, f), Den(1 - ex', radix, f), Num(v, -ex, radix, f), Den(-ex, radix, f);
    assert n0 * d == n * Pow2(j) * d0;
    if n >= d {
      MulMono(1, Pow2(j), n);
      MulMono(d, n, d0);
      MulMono(n, n * Pow2(j), d0);
      MulLess(d, n0, d0);
      assert false;
    }
  }

  /** v * radix^g in units of 2^(e-53) is within m / 2^54 of m. */
  predicate Close(v: nat, radix: nat, g: int, m: nat, e: int)
    requires radix > 0
  {
    var n, d := Num(v, 53 - e, radix, g), Den(53 - e, radix, g);
    Abs(n - m * d) * P54 <= m * d
  }

  /** Numbers that close round to the double. */
  lemma CloseConverts(v: nat, radix: nat, g: int, m: nat, e: int)
    requires radix > 0 && IsDouble(m, e) && Close(v, radix, g, m, e)
    ensures ConvertsTo(v, radix, g, m, e)
  {
    hide Num, Den, Pow2, Round;
    var n, d := Num(v, 53 - e, radix, g), Den(53 - e, radix, g);
    var below := m == P52 && n < m * d;
    var ex := if below then e - 1 else e;
    InUlps(n, d, m);
    CloseBinade(v, radix, g, m, e, ex);
    var u := Unit(ex);
    var j := u - (e - 53);
    var n1, d1 := Num(v, -u, radix, g), Den(-u, radix, g);
    var k := Units(m, e, j);
    if j >= 0 {
      NumShift(v, -u, j, radix, g);
      CloseUnits(n, d, n1, d1, m, k, Pow2(j));
    } else {
      NumShift(v, 53 - e, 1, radix, g);
      PowOne();
      CloseHalf(n, d, n1, d1, m, k);
    }
    RoundsTo(n1, d1, k);
    PacksTo(m, e, ex, j, k);
  }

  lemma InUlps(n: nat, d: nat, m: nat)
    requires P52 <= m < P53 && d > 0 && Abs(n - m * d) * P54 <= m * d
    ensures 2 * Abs(n - m * d) < d
    ensures n < P53 * d && 2 * n >= P52 * d
    ensures m > P52 || n >= m * d ==> P52 * d <= n
    ensures m == P52 && n < m * d ==> n < P52 * d
  {
    MulMono(m + 1, P53, d);
    MulSucc(m, d);
    MulMono(P52, m, d);
    if m > P52 {
      MulMono(P52 + 1, m, d);
    }
  }

  lemma CloseBinade(v: nat, radix: nat, g: int, m: nat, e: int, ex: int)
    requires radix > 0
    requires var n, d := Num(v, 53 - e, radix, g), Den(53 - e, radix, g);
             (ex == e && P52 * d <= n < P53 * d) || (ex == e - 1 && P52 * d <= 2 * n && n < P52 * d)
    ensures Binade(v, radix, g, ex)
  {
    hide Num, Den, Pow2;
    var n, d := Num(v, 53 - e, radix, g), Den(53 - e, radix, g);
    PowersAre();
    var j := if ex == e then 53 else 52;
    NumShift(v, -ex, j, radix, g);
    NumShift(v, 1 - ex, j - 1, radix, g);
    PowSum(1, 51);
    PowOne();
    ShiftLess(n, d, Num(v, -ex, radix, g), Den(-ex, radix, g), Pow2(j));
    ShiftMore(n, d, Num(v, 1 - ex, radix, g), Den(1 - ex, radix, g), Pow2(j - 1));
  }

  lemma ShiftLess(n: nat, d: nat, n0: nat, d0: nat, p: nat)
    requires n * d0 == n0 * p * d && n < p * d && d0 > 0
    ensures n0 < d0
  {
    MulLess(d0, n, p * d);
    assert n0 * p * d == n0 * (p * d);
    MulLess(p * d, n0, d0);
  }

  lemma ShiftMore(n: nat, d: nat, n1: nat, d1: nat, p: nat)
    requires n * d1 == n1 * p * d && p * d <= n && p > 0 && d > 0
    ensures d1 <= n1
  {
    MulMono(p * d, n, d1);
    assert n1 * p * d == n1 * (p * d);
    DenPositive(p, d);
    MulLess(p * d, n1, d1);
  }

  /** The mantissa in units of the last place that the result has. */
  lemma Units(m: nat, e: int, j: int) returns (k: nat)
    requires IsDouble(m, e) && (j == -1 || j == 0 || (e < E_MIN && j == E_MIN - e))
    ensures j >= 0 ==> m == k * Pow2(j)
    ensures j == -1 ==> k == 2 * m
  {
    if j == -1 {
      k := 2 * m;
    } else if j == 0 {
      PowOne();
      k := m;
    } else {
      k := m / Pow2(j);
      DivIs(m, Pow2(j));
    }
  }

  lemma CloseUnits(n: nat, d: nat, n1: nat, d1: nat, m: nat, k: nat, p: nat)
    requires n * d1 == n1 * p * d && m == k * p && p > 0 && d > 0 && d1 > 0
    requires 2 * Abs(n - m * d) < d
    ensures 2 * Abs(n1 - k * d1) < d1
  {
    SameGap(n, d, n1, d1, m, k, p, p * d);
    MulMono(1, p, d);
    GapShrinks(n - m * d, n1 - k * d1, d, d1, p * d);
  }

  lemma SameGap(n: nat, d: nat, n1: nat, d1: nat, m: nat, k: nat, p: nat, q: nat)
    requires q == p * d && n * d1 == n1 * p * d && m == k * p
    ensures (n - m * d) * d1 == (n1 - k * d1) * q
  {
    assert n1 * p * d == n1 * q;
    assert m * d == k * q;
    assert (n - k * q) * d1 == n * d1 - (k * q) * d1;
    assert (k * q) * d1 == (k * d1) * q;
    assert (n1 - k * d1) * q == n1 * q - (k * d1) * q;
  }

  lemma GapShrinks(x: int, y: int, d: nat, d1: nat, q: nat)
    requires x * d1 == y * q && q >= d > 0 && d1 > 0 && 2 * Abs(x) < d
    ensures 2 * Abs(y) < d1
  {
    hide Abs;
    AbsProduct(x, d1, y, q);
    SmallerFactor(Abs(x), Abs(y), d, d1, q);
  }

  lemma SmallerFactor(x: nat, y: nat, d: nat, d1: nat, q: nat)
    requires x * d1 == y * q && q >= d > 0 && d1 > 0 && 2 * x < d
    ensures 2 * y < d1
  {
    MulMono(2 * x + 1, q, d1);
    assert q * d1 == d1 * q;
    if 2 * y >= d1 {
      MulMono(d1, 2 * y, q);
      DoubleProduct(x, d1);
      DoubleProduct(y, q);
      MulSucc(2 * x, d1);
      assert false;
    }
  }

  lemma DoubleProduct(x: nat, d: nat)
    ensures 2 * x * d == 2 * (x * d)
  {
  }

  lemma AbsProduct(x: int, a: nat, y: int, b: nat)
    requires x * a == y * b
    ensures Abs(x) * a == Abs(y) * b
  {
    AbsTimes(x, a);
    AbsTimes(y, b);
  }

  lemma AbsTimes(x: int, a: nat)
    ensures Abs(x * a) == Abs(x) * a
  {
    if x >= 0 {
      MulMono(0, x, a);
    } else {
      MulMono(x, 0, a);
      assert (-x) * a == -(x * a);
    }
  }

  lemma CloseHalf(n: nat, d: nat, n1: nat, d1: nat, m: nat, k: nat)
    requires n1 * d == n * 2 * d1 && k == 2 * m && m == P52 && d > 0
    requires Abs(n - m * d) * P54 <= m * d
    ensures 2 * Abs(n1 - k * d1) <= d1
  {
    SameGapHalf(n, d, n1, d1, m, k);
    HalfGap(n - m * d, n1 - k * d1, d, d1, m);
  }

  lemma SameGapHalf(n: nat, d: nat, n1: nat, d1: nat, m: nat, k: nat)
    requires n1 * d == n * 2 * d1 && k == 2 * m
    ensures (n1 - k * d1) * d == (2 * (n - m * d)) * d1
  {
    MulSub(d, n1, k * d1);
    MulSub(d1, 2 * n, 2 * (m * d));
    assert d * (k * d1) == d1 * (2 * (m * d));
    assert d * n1 == d1 * (2 * n);
  }

  lemma HalfGap(x: int, y: int, d: nat, d1: nat, m: nat)
    requires y * d == (2 * x) * d1 && d > 0 && m == P52 && Abs(x) * P54 <= m * d
    ensures 2 * Abs(y) <= d1
  {
    AbsProduct(y, d, 2 * x, d1);
    assert Abs(2 * x) == 2 * Abs(x) && 4 * Abs(x) <= d;
    MulMono(4 * Abs(x), d, d1);
    assert (4 * Abs(x)) * d1 == 2 * ((2 * Abs(x)) * d1);
    assert 2 * (Abs(y) * d) == d * (2 * Abs(y));
    Cancel(d, 2 * Abs(y), d1);
  }

  /** Within half a unit, or at half a unit from an even number. */
  lemma RoundsTo(n: nat, d: nat, k: nat)
    requires d > 0 && (2 * Abs(n - k * d) < d || (2 * Abs(n - k * d) == d && k % 2 == 0))
    ensures Round(n, d, RNDN) == k
  {
    if n >= k * d {
      RoundIs(n, d, k, n - k * d, RNDN);
    } else {
      MulSucc(k - 1, d);
      if k == 0 {
        assert false;
      }
      RoundIs(n, d, k - 1, n - (k - 1) * d, RNDN);
    }
  }

  lemma PacksTo(m: nat, e: int, ex: int, j: int, k: nat)
    requires P52 <= m < P53 && j == Unit(ex) - (e - 53)
    requires ex == e || (ex == e - 1 && m == P52)
    requires j >= 0 ==> m == k * Pow2(j)
    requires j < 0 ==> k == 2 * m
    ensures Pack(k, ex) == (m, e)
  {
    hide Pow, Pow2;
    PowOne();
    if ex == e {
      assert PREC - Prec(ex) == j;
    } else if j >= 0 {
      assert PREC - Prec(ex) == j + 1;
      PowSum(j, 1);
      assert k * (Pow2(j) * 2) == 2 * (k * Pow2(j));
    } else {
      assert PREC - Prec(ex) == 0;
    }
  }
}
