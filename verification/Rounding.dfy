/** Powers, and rounding of exact quotients to integers. */
module Rounding {

  function Pow(b: nat, n: nat): (p: nat)
    ensures b > 0 ==> p > 0
    decreases n
  {
    if n == 0 then 1 else b * Pow(b, n - 1)
  }

  function Pow2(n: nat): (p: nat)
    ensures p > 0
  {
    Pow(2, n)
  }

  lemma {:induction false} PowAdd(b: nat, m: nat, n: nat)
    ensures Pow(b, m + n) == Pow(b, m) * Pow(b, n)
    decreases m
  {
    if m > 0 {
      PowAdd(b, m - 1, n);
      assert b * (Pow(b, m - 1) * Pow(b, n)) == (b * Pow(b, m - 1)) * Pow(b, n);
    }
  }

  lemma {:induction false} PowMul(a: nat, b: nat, n: nat)
    ensures Pow(a * b, n) == Pow(a, n) * Pow(b, n)
    decreases n
  {
    if n > 0 {
      PowMul(a, b, n - 1);
      var x, y := Pow(a, n - 1), Pow(b, n - 1);
      assert a * b * (x * y) == (a * x) * (b * y);
    }
  }

  lemma {:induction false} PowPow(b: nat, m: nat, n: nat)
    ensures Pow(Pow(b, m), n) == Pow(b, m * n)
    decreases n
  {
    if n > 0 {
      PowPow(b, m, n - 1);
      PowAdd(b, m, m * (n - 1));
      assert m * n == m + m * (n - 1);
    } else {
      assert m * n == 0;
    }
  }

  lemma {:induction false} PowMono(b: nat, m: nat, n: nat)
    requires b > 0 && m <= n
    ensures Pow(b, m) <= Pow(b, n)
    decreases n
  {
    if m < n {
      PowMono(b, m, n - 1);
      assert Pow(b, n - 1) <= b * Pow(b, n - 1);
    }
  }

  lemma PowSum(m: nat, n: nat)
    ensures Pow2(m + n) == Pow2(m) * Pow2(n)
  {
    PowAdd(2, m, n);
  }

  lemma PowOne()
    ensures Pow2(1) == 2 && Pow2(0) == 1
  {
  }

  lemma MonoPow2(m: nat, n: nat)
    requires m <= n
    ensures Pow2(m) <= Pow2(n)
  {
    PowMono(2, m, n);
  }

  // ----- division -----

  lemma MulMono(a: int, b: int, d: nat)
    requires a <= b
    ensures a * d <= b * d
  {
  }

  lemma MulSucc(a: int, d: int)
    ensures (a + 1) * d == a * d + d
  {
  }

  lemma MulMonoRight(d: nat, a: int, b: int)
    requires a <= b
    ensures d * a <= d * b
  {
  }

  lemma MulSub(d: int, a: int, b: int)
    ensures d * (a - b) == d * a - d * b
  {
  }

  lemma Cancel(d: nat, a: int, b: int)
    requires d > 0 && d * a <= d * b
    ensures a <= b
  {
    if a > b {
      MulMonoRight(d, b + 1, a);
      MulSub(d, b + 1, 1);
    }
  }

  /** Two quotients with remainder of the same number are the same. */
  lemma SameQuotient(d: nat, q: nat, r: nat, q': nat, r': nat)
    requires d > 0 && q * d + r == q' * d + r' && r < d && r' < d
    ensures q == q' && r == r'
  {
    if q < q' {
      MulMono(q + 1, q', d);
      MulSucc(q, d);
    } else if q' < q {
      MulMono(q' + 1, q, d);
      MulSucc(q', d);
    }
  }

  lemma DivIs(n: nat, d: nat)
    requires d > 0
    ensures n == n / d * d + n % d && n % d < d
  {
  }

  lemma DivUnique(n: nat, d: nat, q: nat, r: nat)
    requires d > 0 && n == q * d + r && r < d
    ensures n / d == q && n % d == r
  {
    DivIs(n, d);
    SameQuotient(d, q, r, n / d, n % d);
  }

  lemma DivMul(n: nat, d: nat, k: nat)
    requires d > 0 && k > 0
    ensures k * d > 0 && (k * n) / (k * d) == n / d && (k * n) % (k * d) == k * (n % d)
  {
    var q, r := n / d, n % d;
    DivIs(n, d);
    MulMono(1, k, d);
    assert k * (q * d + r) == q * (k * d) + k * r;
    MulLess(k, r, d);
    DivUnique(k * n, k * d, q, k * r);
  }

  lemma MulLess(k: nat, a: nat, b: nat)
    requires k > 0
    ensures k * a < k * b <==> a < b
  {
    if a < b {
      MulMono(a + 1, b, k);
      MulSucc(a, k);
    } else {
      MulMono(b, a, k);
    }
  }

  /** n = (q2 * b + r2) * a + r, regrouped. */
  lemma Regroup(a: nat, b: nat, q2: nat, r2: nat, r: nat)
    requires r2 < b && r < a
    ensures (q2 * b + r2) * a + r == q2 * (a * b) + (r2 * a + r)
    ensures r2 * a + r < a * b
  {
    MulMono(r2 + 1, b, a);
    MulSucc(r2, a);
    assert (q2 * b + r2) * a == q2 * (a * b) + r2 * a;
  }

  /** Dividing in two steps. */
  lemma DivDiv(n: nat, a: nat, b: nat)
    requires a > 0 && b > 0
    ensures a * b > 0 && n / a / b == n / (a * b) && n % (a * b) == n / a % b * a + n % a
    ensures n % (a * b) == 0 <==> n % a == 0 && n / a % b == 0
  {
    var q, r := n / a, n % a;
    var q2, r2 := q / b, q % b;
    DivIs(n, a);
    DivIs(q, b);
    MulMono(1, a, b);
    Regroup(a, b, q2, r2, r);
    DivUnique(n, a * b, q2, r2 * a + r);
    MulMono(if r2 > 0 then 1 else 0, r2, a);
  }

  // ----- rounding -----

  /** RNDN: to nearest, ties to even. RNDNA: to nearest, ties away from zero. RNDZ: toward zero. */
  datatype Mode = RNDN | RNDNA | RNDZ

  /** num / den rounded to an integer. */
  function Round(num: nat, den: nat, mode: Mode): nat
    requires den > 0
  {
    var q, r := num / den, num % den;
    q + Bump(2 * r > den, 2 * r == den, q % 2 == 1, mode)
  }

  /** Whether to round up, from how the part cut off compares with one half. */
  function Bump(above: bool, half: bool, odd: bool, mode: Mode): nat
  {
    match mode
    case RNDZ => 0
    case RNDNA => if above || half then 1 else 0
    case RNDN => if above || (half && odd) then 1 else 0
  }

  lemma RoundIs(num: nat, den: nat, q: nat, r: nat, mode: Mode)
    requires den > 0 && num == q * den + r && r < den
    ensures Round(num, den, mode) == q + Bump(2 * r > den, 2 * r == den, q % 2 == 1, mode)
  {
    DivUnique(num, den, q, r);
  }

  /** The rounded value is as near as the mode asks: a characterisation without division. */
  lemma RoundNearest(num: nat, den: nat, mode: Mode)
    requires den > 0
    ensures var k := Round(num, den, mode);
            (mode.RNDZ? ==> k * den <= num < (k + 1) * den) &&
            (!mode.RNDZ? ==> 2 * num - den <= 2 * k * den <= 2 * num + den) &&
            (mode.RNDNA? ==> 2 * k * den != 2 * num - den) &&
            (mode.RNDN? && (2 * k * den == 2 * num + den || 2 * k * den == 2 * num - den) ==> k % 2 == 0)
  {
    var q, r, k := num / den, num % den, Round(num, den, mode);
    var p := q * den;
    assert num == p + r;
    assert k == q || k == q + 1;
    Multiples(q, den);
  }

  lemma Multiples(q: nat, d: nat)
    ensures (q + 1) * d == q * d + d && 2 * q * d == 2 * (q * d) && 2 * (q + 1) * d == 2 * (q * d) + 2 * d
  {
  }

  lemma RoundScale(num: nat, den: nat, k: nat, mode: Mode)
    requires den > 0 && k > 0
    ensures k * den > 0 && Round(k * num, k * den, mode) == Round(num, den, mode)
  {
    DivMul(num, den, k);
    var r := num % den;
    assert 2 * (k * r) == k * (2 * r);
    assert k * (2 * r) > k * den <==> 2 * r > den by { MulLess(k, den, 2 * r); }
    assert k * (2 * r) < k * den <==> 2 * r < den by { MulLess(k, 2 * r, den); }
  }

  /** Equal quotients round alike. */
  lemma RoundCross(n1: nat, d1: nat, n2: nat, d2: nat, mode: Mode)
    requires d1 > 0 && d2 > 0 && n1 * d2 == n2 * d1
    ensures Round(n1, d1, mode) == Round(n2, d2, mode)
  {
    RoundScale(n1, d1, d2, mode);
    RoundScale(n2, d2, d1, mode);
    assert d2 * n1 == d1 * n2 && d2 * d1 == d1 * d2;
  }

  /** A quotient truncated to an integer whose last bit also records whether anything was cut off. */
  function Sticky(num: nat, den: nat): nat
    requires den > 0
  {
    var q := num / den;
    if num % den != 0 && q % 2 == 0 then q + 1 else q
  }

  /** With two more bits to come off, rounding the sticky integer rounds the exact quotient. */
  lemma StickyRounds(num: nat, den: nat, s: nat, mode: Mode)
    requires den > 0 && s >= 2
    ensures den * Pow2(s) > 0
    ensures Round(Sticky(num, den), Pow2(s), mode) == Round(num, den * Pow2(s), mode)
  {
    var h := Pow2(s - 2);
    assert Pow2(s) == 4 * h by { assert Pow2(s) == 2 * Pow2(s - 1) && Pow2(s - 1) == 2 * h; }
    StickyRoundsBy(num, den, Pow2(s), h, mode);
  }

  lemma StickyRoundsBy(num: nat, den: nat, p: nat, h: nat, mode: Mode)
    requires den > 0 && h > 0 && p == 4 * h
    ensures den * p > 0
    ensures Round(Sticky(num, den), p, mode) == Round(num, den * p, mode)
  {
    hide Round, Sticky;
    var q, r := Quotient(num, den);
    var k, t := Quotient(q, p);
    StickyParts(num, den, p, q, h, k, t, r, mode);
  }

  lemma Quotient(n: nat, d: nat) returns (q: nat, r: nat)
    requires d > 0
    ensures n == q * d + r && r < d
  {
    q, r := n / d, n % d;
  }

  lemma StickyParts(num: nat, den: nat, p: nat, q: nat, h: nat, k: nat, t: nat, r: nat, mode: Mode)
    requires p == 4 * h && num == q * den + r && r < den && q == k * p + t && t < p
    ensures den * p > 0
    ensures Round(Sticky(num, den), p, mode) == Round(num, den * p, mode)
  {
    hide Round, Sticky, Bump;
    var t' := if r != 0 && t % 2 == 0 then t + 1 else t;
    StickyShape(num, den, q, r, k, h, t, t');
    RoundShape(num, den, p, q, k, t, r, mode);
    RoundIs(k * p + t', p, k, t', mode);
    StickyTie(t, r, t', den, h);
  }

  lemma StickyShape(num: nat, den: nat, q: nat, r: nat, k: nat, h: nat, t: nat, t': nat)
    requires den > 0 && num == q * den + r && r < den && q == k * (4 * h) + t && t < 4 * h
    requires t' == if r != 0 && t % 2 == 0 then t + 1 else t
    ensures Sticky(num, den) == k * (4 * h) + t' && t' < 4 * h
  {
    SameParity(k, h, t);
    StickyIs(num, den, q, r);
  }

  lemma RoundShape(num: nat, den: nat, p: nat, q: nat, k: nat, t: nat, r: nat, mode: Mode)
    requires num == q * den + r && r < den && q == k * p + t && t < p
    ensures den * p > 0
    ensures Round(num, den * p, mode) == k + Bump(2 * (t * den + r) > den * p, 2 * (t * den + r) == den * p, k % 2 == 1, mode)
  {
    hide Round, Bump;
    MulMono(1, den, p);
    Regroup(den, p, k, t, r);
    RoundIs(num, den * p, k, t * den + r, mode);
  }

  lemma StickyIs(num: nat, den: nat, q: nat, r: nat)
    requires den > 0 && num == q * den + r && r < den
    ensures Sticky(num, den) == if r != 0 && q % 2 == 0 then q + 1 else q
  {
    DivUnique(num, den, q, r);
  }

  lemma SameParity(k: nat, h: nat, t: nat)
    ensures (k * (4 * h) + t) % 2 == t % 2
  {
    assert k * (4 * h) == 2 * (2 * h * k);
    var n := 2 * h * k;
    assert (2 * n + t) % 2 == t % 2;
  }

  /** Comparing with half of 4h gives the same answer before and after. */
  lemma StickyTie(t: nat, r: nat, t': nat, den: nat, h: nat)
    requires den > 0 && h > 0 && r < den && t' == if r != 0 && t % 2 == 0 then t + 1 else t
    ensures 2 * t' > 4 * h <==> 2 * (t * den + r) > den * (4 * h)
    ensures 2 * t' == 4 * h <==> 2 * (t * den + r) == den * (4 * h)
  {
    var c := 2 * h;
    assert den * (4 * h) == 2 * (c * den);
    if t > c {
      MulMono(c + 1, t, den);
      MulSucc(c, den);
    } else if t < c {
      // t + 1 <= c, and t + 1 == c only if t is odd
      MulMono(t + 1, c, den);
      MulSucc(t, den);
    }
  }
}
