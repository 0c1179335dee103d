/** The candidates of the free format: a double rounded to P digits, and when they convert back. */
module ShortDigits {
  import opened Rounding
  import opened Bits
  import opened Powers
  import opened BigNum
  import opened ExactScale
  import opened RoundDouble
  import opened RoundTrip

  /** dtoa_max_digits_table. */
  const MAX_DIGITS: seq<nat> := [
    54, 35, 28, 24, 22, 20, 19, 18, 17, 17, 16, 16, 15, 15, 15, 14, 14, 14, 14, 14,
    13, 13, 13, 13, 13, 13, 13, 12, 12, 12, 12, 12, 12, 12, 12]

  function MaxDigits(radix: nat): (p: nat)
    requires 2 <= radix <= 36
    ensures 12 <= p <= 54
  {
    MAX_DIGITS[radix - 2]
  }

  /** E0 - 1 is the logarithm of 2^(e-1) to base radix, rounded down. */
  predicate FloorLog(E0: int, e: int, radix: nat)
    requires radix > 0
  {
    Den(e - 1, radix, 1 - E0) <= Num(1, e - 1, radix, 1 - E0) && Num(1, e - 1, radix, -E0) < Den(e - 1, radix, -E0)
  }

  /** m * 2^(e-53) * radix^f rounded to an integer. */
  function Rounded(m: nat, e: int, radix: nat, f: int): nat
    requires radix > 0
  {
    Round(Num(m, e - 53, radix, f), Den(e - 53, radix, f), RNDN)
  }

  /** The double with P digits: a mantissa below radix^P and the exponent E of v * radix^(E - P). */
  function Digits(m: nat, e: int, radix: nat, E0: int, P: nat): (nat, int)
    requires radix > 0
  {
    var v := Rounded(m, e, radix, P - E0);
    if v < Pow(radix, P) then (v, E0) else (Rounded(m, e, radix, P - (E0 + 1)), E0 + 1)
  }

  // ----- scaling by the radix -----

  /** Multiplying by a further radix^j. */
  lemma RadixShift(v: nat, e: int, j: nat, radix: nat, f: int)
    requires radix > 0
    ensures Num(v, e, radix, f + j) * Den(e, radix, f) == Num(v, e, radix, f) * Pow(radix, j) * Den(e, radix, f + j)
  {
    hide Pow, Pow2;
    RadixPowers(radix, j, f);
    Reshuffle(v, Pow2(Pos(e)), Pow2(Pos(-e)), Pow(radix, Pos(f + j)), Pow(radix, Pos(-f)), Pow(radix, Pos(f)),
              Pow(radix, j), Pow(radix, Pos(-f - j)));
  }

  lemma RadixPowers(radix: nat, j: nat, f: int)
    ensures Pow(radix, Pos(f + j)) * Pow(radix, Pos(-f)) == Pow(radix, Pos(f)) * Pow(radix, j) * Pow(radix, Pos(-f - j))
  {
    hide Pow;
    PowAdd(radix, Pos(f + j), Pos(-f));
    PowAdd(radix, Pos(f), j);
    PowAdd(radix, Pos(f) + j, Pos(-f - j));
    assert Pos(f + j) + Pos(-f) == Pos(f) + j + Pos(-f - j);
  }

  lemma Reshuffle(v: nat, x: nat, y: nat, a: nat, b: nat, c: nat, d: nat, g: nat)
    requires a * b == c * d * g
    ensures (v * x * a) * (y * b) == (v * x * c) * d * (y * g)
  {
    Shuffle(v, x, y, a, b, c, d, g);
    Swap(v, x, a);
    Swap(v, x, c);
    Swap(1, y, b);
    Swap(1, y, g);
  }

  lemma Swap(v: nat, a: nat, b: nat)
    ensures v * a * b == v * b * a
  {
  }

  lemma NumTimes(v: nat, w: nat, e: int, radix: nat, f: int)
    ensures Num(v * w, e, radix, f) == v * Num(w, e, radix, f)
  {
    hide Pow, Pow2;
    var x, y := Pow2(Pos(e)), Pow(radix, Pos(f));
    assert v * w * x * y == v * (w * x * y);
  }

  /** Comparing with c carries over to comparing with c * p. */
  lemma CarryBounds(n: nat, d: nat, n': nat, d': nat, p: nat, c: nat)
    requires n' * d == n * p * d' && d > 0 && d' > 0 && p > 0
    ensures c * d <= n <==> c * p * d' <= n'
  {
    var w := p * d';
    DenPositive(p, d');
    assert n * p * d' == n * w;
    assert (c * p * d') * d == (c * d) * w by {
      assert c * p * d' == c * w;
    }
    MulLess(w, n, c * d);
    MulLess(d, n', c * p * d');
  }

  /** x * radix^(P - E0) is at least radix^(P-1), and below twice radix^P. */
  lemma DigitBounds(m: nat, e: int, radix: nat, E0: int, P: nat)
    requires 2 <= radix && P52 <= m < P53 && FloorLog(E0, e, radix) && P > 0
    ensures var n, d := Num(m, e - 53, radix, P - E0), Den(e - 53, radix, P - E0);
            Pow(radix, P - 1) * d <= n < 2 * Pow(radix, P) * d
  {
    hide Num, Den, Pow, Pow2;
    PowersAre();
    LowBound(m, e, radix, E0);
    HighBound(m, e, radix, E0);
    RadixShift(m, e - 53, P - 1, radix, 1 - E0);
    RadixShift(m, e - 53, P, radix, -E0);
    CarryBounds(Num(m, e - 53, radix, 1 - E0), Den(e - 53, radix, 1 - E0),
                Num(m, e - 53, radix, P - E0), Den(e - 53, radix, P - E0), Pow(radix, P - 1), 1);
    CarryBounds(Num(m, e - 53, radix, -E0), Den(e - 53, radix, -E0),
                Num(m, e - 53, radix, P - E0), Den(e - 53, radix, P - E0), Pow(radix, P), 2);
  }

  lemma LowBound(m: nat, e: int, radix: nat, E0: int)
    requires 2 <= radix && P52 <= m && FloorLog(E0, e, radix)
    ensures Den(e - 53, radix, 1 - E0) <= Num(m, e - 53, radix, 1 - E0)
  {
    hide Num, Den, Pow, Pow2;
    PowersAre();
    var n, d := Num(1, e - 53, radix, 1 - E0), Den(e - 53, radix, 1 - E0);
    NumShift(1, e - 53, 52, radix, 1 - E0);
    var n1, d1 := Num(1, e - 1, radix, 1 - E0), Den(e - 1, radix, 1 - E0);
    assert n1 * d == n * P52 * d1;
    NumTimes(P52, 1, e - 53, radix, 1 - E0);
    NumTimes(m, 1, e - 53, radix, 1 - E0);
    MulMono(d1, n1, d);
    assert n * P52 * d1 == (P52 * n) * d1;
    MulLess(d1, P52 * n, d);
    MulMono(P52, m, n);
  }

  lemma HighBound(m: nat, e: int, radix: nat, E0: int)
    requires 2 <= radix && m < P53 && FloorLog(E0, e, radix)
    ensures Num(m, e - 53, radix, -E0) < 2 * Den(e - 53, radix, -E0)
  {
    hide Num, Den, Pow, Pow2;
    PowersAre();
    var n, d := Num(1, e - 53, radix, -E0), Den(e - 53, radix, -E0);
    NumShift(1, e - 53, 52, radix, -E0);
    var n1, d1 := Num(1, e - 1, radix, -E0), Den(e - 1, radix, -E0);
    assert n1 * d == n * P52 * d1;
    NumTimes(m, 1, e - 53, radix, -E0);
    MulLess(d, n1, d1);
    assert n * P52 * d1 == (P52 * n) * d1;
    MulLess(d1, P52 * n, d);
    assert P52 * n < d;
    MulMono(m, P53, n);
  }

  // ----- the digits fit -----

  lemma {:induction false} TwoPowers(v: nat, a: int, f: int)
    ensures Num(v, a, 2, f) == v * Pow2(Pos(a) + Pos(f)) && Den(a, 2, f) == Pow2(Pos(-a) + Pos(-f))
  {
    hide Pow;
    PowSum(Pos(a), Pos(f));
    PowSum(Pos(-a), Pos(-f));
    assert v * Pow2(Pos(a)) * Pow2(Pos(f)) == v * (Pow2(Pos(a)) * Pow2(Pos(f)));
  }

  lemma TwoExponent(e: int, E0: int)
    requires FloorLog(E0, e, 2)
    ensures e <= E0
  {
    hide Pow, Pow2, Num, Den;
    TwoPowers(1, e - 1, -E0);
    var a, b := Pos(e - 1) + Pos(-E0), Pos(1 - e) + Pos(E0);
    if a >= b {
      MonoPow2(b, a);
    }
  }

  /** For radix 2 there is no doubt about E0. */
  lemma TwoBound(m: nat, e: int, E0: int, P: nat)
    requires m < P53 && FloorLog(E0, e, 2)
    ensures Num(m, e - 53, 2, P - E0) < Pow(2, P) * Den(e - 53, 2, P - E0)
  {
    hide Pow, Pow2, Num, Den, FloorLog;
    TwoExponent(e, E0);
    TwoPowers(m, e - 53, P - E0);
    var p, q := Pos(e - 53) + Pos(P - E0), Pos(53 - e) + Pos(E0 - P);
    PowersAre();
    PowSum(53, p);
    PowSum(P, q);
    MonoPow2(53 + p, P + q);
    MulLess(Pow2(p), m, P53);
    TwoIs(P);
  }

  lemma TwoIs(n: nat)
    ensures Pow(2, n) == Pow2(n)
  {
  }

  lemma RoundAtMost(n: nat, d: nat, c: nat)
    requires d > 0 && n <= c * d
    ensures Round(n, d, RNDN) <= c
  {
    var q, r := Quotient(n, d);
    RoundIs(n, d, q, r, RNDN);
    if q >= c {
      MulMono(c, q, d);
      if q > c {
        MulMono(c + 1, q, d);
        MulSucc(c, d);
      }
    }
  }

  lemma RoundAtLeast(n: nat, d: nat, c: nat)
    requires d > 0 && c > 0 && 2 * n + d > 2 * (c * d)
    ensures Round(n, d, RNDN) >= c
  {
    var q, r := Quotient(n, d);
    RoundIs(n, d, q, r, RNDN);
    if q < c {
      MulSucc(q, d);
      MulSucc(q + 1, d);
      if q < c - 1 {
        MulMono(q + 2, c, d);
      }
    }
  }

  /** The converse: what rounds to c or more is at least c less one half. */
  lemma RoundReaches(n: nat, d: nat, c: nat)
    requires d > 0 && Round(n, d, RNDN) >= c
    ensures 2 * n + d >= 2 * (c * d)
  {
    var q, r := Quotient(n, d);
    RoundIs(n, d, q, r, RNDN);
    MulSucc(q, d);
    if q >= c {
      MulMono(c, q, d);
    } else {
      assert c == q + 1;
    }
  }

  /** What is known of x * radix^(P - E) for the exponent that Digits chooses. */
  lemma DigitsInRange(m: nat, e: int, radix: nat, E0: int, P: nat)
    requires 2 <= radix && P52 <= m < P53 && FloorLog(E0, e, radix) && P > 0
    ensures var (v, E) := Digits(m, e, radix, E0, P);
            0 < v < Pow(radix, P) && v == Rounded(m, e, radix, P - E) && (E == E0 || E == E0 + 1)
    ensures Rounded(m, e, radix, P - E0) <= 2 * Pow(radix, P)
    ensures var (v, E) := Digits(m, e, radix, E0, P);
            var n, d := Num(m, e - 53, radix, P - E), Den(e - 53, radix, P - E);
            var low := Pow(radix, P - 1);
            low * d <= n || (v == low && n < low * d && 2 * (radix * n) + d >= 2 * (radix * (low * d)))
  {
    hide Num, Den, Round, Pow, FloorLog;
    var n0, d0 := Num(m, e - 53, radix, P - E0), Den(e - 53, radix, P - E0);
    var low, top := Pow(radix, P - 1), Pow(radix, P);
    DigitBounds(m, e, radix, E0, P);
    NextPower(radix, P);
    RoundAtMost(n0, d0, 2 * top);
    if Rounded(m, e, radix, P - E0) < top {
      FirstFits(n0, d0, low);
    } else {
      var f := P - (E0 + 1);
      var n, d := Num(m, e - 53, radix, f), Den(e - 53, radix, f);
      RadixShift(m, e - 53, 1, radix, f);
      PowBasics(radix);
      if radix == 2 {
        TwoBound(m, e, E0, P);
        SecondFits(n0, d0, n, d, radix, low, 1);
      } else {
        SecondFits(n0, d0, n, d, radix, low, 2);
      }
    }
  }

  lemma NextPower(r: nat, P: nat)
    requires P > 0
    ensures Pow(r, P) == r * Pow(r, P - 1)
  {
  }

  /** The second choice of exponent, after the first gave a mantissa of radix^P or more. */
  lemma SecondFits(n0: nat, d0: nat, n: nat, d: nat, r: nat, low: nat, c: nat)
    requires n0 * d == n * r * d0 && n0 < c * (r * low) * d0 && r > c && d0 > 0 && d > 0 && low > 0
    requires 1 <= c <= 2 && Round(n0, d0, RNDN) >= r * low
    ensures low <= Round(n, d, RNDN) < r * low
    ensures low * d <= n || (Round(n, d, RNDN) == low && 2 * (r * n) + d >= 2 * (r * (low * d)))
  {
    hide Round;
    RoundReaches(n0, d0, r * low);
    SecondLow(n0, d0, n, d, r, low);
    RoundAtLeast(n, d, low);
    SecondHigh(n0, d0, n, d, r, low, c);
    RoundAtMost(n, d, c * low);
    MulMono(c + 1, r, low);
    MulSucc(c, low);
    if n < low * d {
      RoundAtMost(n, d, low);
    }
  }

  lemma FirstFits(n: nat, d: nat, low: nat)
    requires d > 0 && low > 0 && low * d <= n
    ensures Round(n, d, RNDN) > 0
  {
    RoundAtLeast(n, d, low);
  }

  lemma SecondLow(n0: nat, d0: nat, n: nat, d: nat, r: nat, low: nat)
    requires n0 * d == n * r * d0 && 2 * n0 + d0 >= 2 * (r * low * d0) && r >= 2 && d0 > 0 && d > 0
    ensures 2 * (r * n) + d >= 2 * (r * (low * d)) && 2 * n + d > 2 * (low * d)
  {
    var ld := low * d;
    MulMonoRight(d, 2 * (r * low * d0), 2 * n0 + d0);
    assert d * (2 * (r * low * d0)) == d0 * (2 * (r * ld)) by { Shift4(d, r, low, d0); }
    assert d * (2 * n0 + d0) == d0 * (2 * (r * n) + d) by { Shift3(d, n0, n, r, d0); }
    Cancel(d0, 2 * (r * ld), 2 * (r * n) + d);
    DropFactor(r, n, d, ld);
  }

  lemma Shift4(d: nat, r: nat, low: nat, d0: nat)
    ensures d * (2 * (r * low * d0)) == d0 * (2 * (r * (low * d)))
  {
    assert d * (r * low * d0) == d0 * (r * (low * d));
  }

  lemma Shift3(d: nat, n0: nat, n: nat, r: nat, d0: nat)
    requires n0 * d == n * r * d0
    ensures d * (2 * n0 + d0) == d0 * (2 * (r * n) + d)
  {
    assert d * n0 == d0 * (r * n);
  }

  lemma DropFactor(r: nat, n: nat, d: nat, ld: nat)
    requires r >= 2 && d > 0 && 2 * (r * n) + d >= 2 * (r * ld)
    ensures 2 * n + d > 2 * ld
  {
    MulMono(2, r, d);
    assert r * (2 * n + d) == 2 * (r * n) + r * d;
    assert r * (2 * ld) == 2 * (r * ld);
    if 2 * n + d <= 2 * ld {
      MulMonoRight(r, 2 * n + d, 2 * ld);
    }
  }

  lemma SecondHigh(n0: nat, d0: nat, n: nat, d: nat, r: nat, low: nat, c: nat)
    requires n0 * d == n * r * d0 && n0 < c * (r * low) * d0 && r > 0 && d0 > 0 && d > 0
    ensures n < c * low * d
  {
    MulLess(d, n0, c * (r * low) * d0);
    var w := r * d0;
    DenPositive(r, d0);
    assert n * r * d0 == n * w;
    assert c * (r * low) * d0 * d == (c * low * d) * w by {
      assert c * (r * low) * d0 == (c * low) * w;
    }
    MulLess(w, n, c * low * d);
  }

  // ----- the digits that always suffice -----

  const P63: nat := 0x8000_0000_0000_0000

  lemma MaxEntry(r: nat, q: nat, s: nat, x: nat, y: nat, z: nat)
    requires 2 <= r <= 36 && MaxDigits(r) == 6 * q + s + 1
    requires Pow(r, 6) == x && Pow(r, s) == y && Pow(x, q) == z && P53 <= z * y && r * (z * y) < P63
    ensures P53 <= Pow(r, MaxDigits(r) - 1) && Pow(r, MaxDigits(r)) < P63
  {
    hide Pow;
    PowPow(r, 6, q);
    PowAdd(r, 6 * q, s);
    PowAdd(r, 1, 6 * q + s);
    PowBasics(r);
  }

  /** The table holds enough digits for every double, and numbers of that many digits fit 63 bits. */
  lemma MaxDigitsSuffice(radix: nat)
    requires 2 <= radix <= 36
    ensures P53 <= Pow(radix, MaxDigits(radix) - 1) && Pow(radix, MaxDigits(radix)) < P63
  {
    hide Pow, MaxDigits;
    if radix <= 6 {
      MaxDigits2(radix);
    } else if radix <= 11 {
      MaxDigits7(radix);
    } else if radix <= 16 {
      MaxDigits12(radix);
    } else if radix <= 21 {
      MaxDigits17(radix);
    } else if radix <= 26 {
      MaxDigits22(radix);
    } else if radix <= 31 {
      MaxDigits27(radix);
    } else {
      MaxDigits32(radix);
    }
  }

  lemma Powers2()
    ensures Pow(2, 6) == 64 && Pow(2, 5) == 32 && Pow(64, 8) == 281474976710656
    ensures Pow(3, 6) == 729 && Pow(3, 4) == 81 && Pow(729, 5) == 205891132094649
    ensures Pow(4, 6) == 4096 && Pow(4, 3) == 64 && Pow(4096, 4) == 281474976710656
    ensures Pow(5, 6) == 15625 && Pow(5, 5) == 3125 && Pow(15625, 3) == 3814697265625
    ensures Pow(6, 6) == 46656 && Pow(6, 3) == 216 && Pow(46656, 3) == 101559956668416
  {
  }

  lemma MaxDigits2(radix: nat)
    requires 2 <= radix <= 6
    ensures P53 <= Pow(radix, MaxDigits(radix) - 1) && Pow(radix, MaxDigits(radix)) < P63
  {
    hide Pow;
    Powers2();
    match radix {
      case 2 => MaxEntry(2, 8, 5, 64, 32, 281474976710656);
      case 3 => MaxEntry(3, 5, 4, 729, 81, 205891132094649);
      case 4 => MaxEntry(4, 4, 3, 4096, 64, 281474976710656);
      case 5 => MaxEntry(5, 3, 5, 15625, 3125, 3814697265625);
      case 6 => MaxEntry(6, 3, 3, 46656, 216, 101559956668416);
    }
  }

  lemma Powers7()
    ensures Pow(7, 6) == 117649 && Pow(7, 1) == 7 && Pow(117649, 3) == 1628413597910449
    ensures Pow(8, 6) == 262144 && Pow(8, 0) == 1 && Pow(262144, 3) == 18014398509481984
    ensures Pow(9, 6) == 531441 && Pow(9, 5) == 59049 && Pow(531441, 2) == 282429536481
    ensures Pow(10, 6) == 1000000 && Pow(10, 4) == 10000 && Pow(1000000, 2) == 1000000000000
    ensures Pow(11, 6) == 1771561 && Pow(11, 4) == 14641 && Pow(1771561, 2) == 3138428376721
  {
  }

  lemma MaxDigits7(radix: nat)
    requires 7 <= radix <= 11
    ensures P53 <= Pow(radix, MaxDigits(radix) - 1) && Pow(radix, MaxDigits(radix)) < P63
  {
    hide Pow;
    Powers7();
    match radix {
      case 7 => MaxEntry(7, 3, 1, 117649, 7, 1628413597910449);
      case 8 => MaxEntry(8, 3, 0, 262144, 1, 18014398509481984);
      case 9 => MaxEntry(9, 2, 5, 531441, 59049, 282429536481);
      case 10 => MaxEntry(10, 2, 4, 1000000, 10000, 1000000000000);
      case 11 => MaxEntry(11, 2, 4, 1771561, 14641, 3138428376721);
    }
  }

  lemma Powers12()
    ensures Pow(12, 6) == 2985984 && Pow(12, 3) == 1728 && Pow(2985984, 2) == 8916100448256
    ensures Pow(13, 6) == 4826809 && Pow(13, 3) == 2197 && Pow(4826809, 2) == 23298085122481
    ensures Pow(14, 6) == 7529536 && Pow(14, 2) == 196 && Pow(7529536, 2) == 56693912375296
    ensures Pow(15, 6) == 11390625 && Pow(15, 2) == 225 && Pow(11390625, 2) == 129746337890625
    ensures Pow(16, 6) == 16777216 && Pow(16, 2) == 256 && Pow(16777216, 2) == 281474976710656
  {
  }

  lemma MaxDigits12(radix: nat)
    requires 12 <= radix <= 16
    ensures P53 <= Pow(radix, MaxDigits(radix) - 1) && Pow(radix, MaxDigits(radix)) < P63
  {
    hide Pow;
    Powers12();
    match radix {
      case 12 => MaxEntry(12, 2, 3, 2985984, 1728, 8916100448256);
      case 13 => MaxEntry(13, 2, 3, 4826809, 2197, 23298085122481);
      case 14 => MaxEntry(14, 2, 2, 7529536, 196, 56693912375296);
      case 15 => MaxEntry(15, 2, 2, 11390625, 225, 129746337890625);
      case 16 => MaxEntry(16, 2, 2, 16777216, 256, 281474976710656);
    }
  }

  lemma Powers17()
    ensures Pow(17, 6) == 24137569 && Pow(17, 1) == 17 && Pow(24137569, 2) == 582622237229761
    ensures Pow(18, 6) == 34012224 && Pow(18, 1) == 18 && Pow(34012224, 2) == 1156831381426176
    ensures Pow(19, 6) == 47045881 && Pow(19, 1) == 19 && Pow(47045881, 2) == 2213314919066161
    ensures Pow(20, 6) == 64000000 && Pow(20, 1) == 20 && Pow(64000000, 2) == 4096000000000000
    ensures Pow(21, 6) == 85766121 && Pow(21, 1) == 21 && Pow(85766121, 2) == 7355827511386641
  {
  }

  lemma MaxDigits17(radix: nat)
    requires 17 <= radix <= 21
    ensures P53 <= Pow(radix, MaxDigits(radix) - 1) && Pow(radix, MaxDigits(radix)) < P63
  {
    hide Pow;
    Powers17();
    match radix {
      case 17 => MaxEntry(17, 2, 1, 24137569, 17, 582622237229761);
      case 18 => MaxEntry(18, 2, 1, 34012224, 18, 1156831381426176);
      case 19 => MaxEntry(19, 2, 1, 47045881, 19, 2213314919066161);
      case 20 => MaxEntry(20, 2, 1, 64000000, 20, 4096000000000000);
      case 21 => MaxEntry(21, 2, 1, 85766121, 21, 7355827511386641);
    }
  }

  lemma Powers22()
    ensures Pow(22, 6) == 113379904 && Pow(22, 0) == 1 && Pow(113379904, 2) == 12855002631049216
    ensures Pow(23, 6) == 148035889 && Pow(23, 0) == 1 && Pow(148035889, 2) == 21914624432020321
    ensures Pow(24, 6) == 191102976 && Pow(24, 0) == 1 && Pow(191102976, 2) == 36520347436056576
    ensures Pow(25, 6) == 244140625 && Pow(25, 0) == 1 && Pow(244140625, 2) == 59604644775390625
    ensures Pow(26, 6) == 308915776 && Pow(26, 0) == 1 && Pow(308915776, 2) == 95428956661682176
  {
  }

  lemma MaxDigits22(radix: nat)
    requires 22 <= radix <= 26
    ensures P53 <= Pow(radix, MaxDigits(radix) - 1) && Pow(radix, MaxDigits(radix)) < P63
  {
    hide Pow;
    Powers22();
    match radix {
      case 22 => MaxEntry(22, 2, 0, 113379904, 1, 12855002631049216);
      case 23 => MaxEntry(23, 2, 0, 148035889, 1, 21914624432020321);
      case 24 => MaxEntry(24, 2, 0, 191102976, 1, 36520347436056576);
      case 25 => MaxEntry(25, 2, 0, 244140625, 1, 59604644775390625);
      case 26 => MaxEntry(26, 2, 0, 308915776, 1, 95428956661682176);
    }
  }

  lemma Powers27()
    ensures Pow(27, 6) == 387420489 && Pow(27, 0) == 1 && Pow(387420489, 2) == 150094635296999121
    ensures Pow(28, 6) == 481890304 && Pow(28, 0) == 1 && Pow(481890304, 2) == 232218265089212416
    ensures Pow(29, 6) == 594823321 && Pow(29, 5) == 20511149 && Pow(594823321, 1) == 594823321
    ensures Pow(30, 6) == 729000000 && Pow(30, 5) == 24300000 && Pow(729000000, 1) == 729000000
    ensures Pow(31, 6) == 887503681 && Pow(31, 5) == 28629151 && Pow(887503681, 1) == 887503681
  {
  }

  lemma MaxDigits27(radix: nat)
    requires 27 <= radix <= 31
    ensures P53 <= Pow(radix, MaxDigits(radix) - 1) && Pow(radix, MaxDigits(radix)) < P63
  {
    hide Pow;
    Powers27();
    match radix {
      case 27 => MaxEntry(27, 2, 0, 387420489, 1, 150094635296999121);
      case 28 => MaxEntry(28, 2, 0, 481890304, 1, 232218265089212416);
      case 29 => MaxEntry(29, 1, 5, 594823321, 20511149, 594823321);
      case 30 => MaxEntry(30, 1, 5, 729000000, 24300000, 729000000);
      case 31 => MaxEntry(31, 1, 5, 887503681, 28629151, 887503681);
    }
  }

  lemma Powers32()
    ensures Pow(32, 6) == 1073741824 && Pow(32, 5) == 33554432 && Pow(1073741824, 1) == 1073741824
    ensures Pow(33, 6) == 1291467969 && Pow(33, 5) == 39135393 && Pow(1291467969, 1) == 1291467969
    ensures Pow(34, 6) == 1544804416 && Pow(34, 5) == 45435424 && Pow(1544804416, 1) == 1544804416
    ensures Pow(35, 6) == 1838265625 && Pow(35, 5) == 52521875 && Pow(1838265625, 1) == 1838265625
    ensures Pow(36, 6) == 2176782336 && Pow(36, 5) == 60466176 && Pow(2176782336, 1) == 2176782336
  {
  }

  lemma MaxDigits32(radix: nat)
    requires 32 <= radix <= 36
    ensures P53 <= Pow(radix, MaxDigits(radix) - 1) && Pow(radix, MaxDigits(radix)) < P63
  {
    hide Pow;
    Powers32();
    match radix {
      case 32 => MaxEntry(32, 1, 5, 1073741824, 33554432, 1073741824);
      case 33 => MaxEntry(33, 1, 5, 1291467969, 39135393, 1291467969);
      case 34 => MaxEntry(34, 1, 5, 1544804416, 45435424, 1544804416);
      case 35 => MaxEntry(35, 1, 5, 1838265625, 52521875, 1838265625);
      case 36 => MaxEntry(36, 1, 5, 2176782336, 60466176, 2176782336);
    }
  }

  /** Turning a fraction over. */
  lemma Mirror(v: nat, a: int, radix: nat, f: int)
    requires radix > 0
    ensures Num(v, -a, radix, -f) == v * Den(a, radix, f) && Num(v, a, radix, f) == v * Den(-a, radix, -f)
  {
    hide Pow, Pow2;
    var x, y := Pow2(Pos(-a)), Pow(radix, Pos(-f));
    assert v * x * y == v * (x * y);
    var z, w := Pow2(Pos(a)), Pow(radix, Pos(f));
    assert v * z * w == v * (z * w);
  }

  /** The digits that the table allows are close enough to convert back. */
  lemma MaxDigitsConvert(m: nat, e: int, radix: nat, E0: int)
    requires 2 <= radix <= 36 && IsDouble(m, e) && FloorLog(E0, e, radix)
    ensures var P := MaxDigits(radix);
            var (v, E) := Digits(m, e, radix, E0, P);
            ConvertsTo(v, radix, E - P, m, e)
  {
    hide Num, Den, Round, Pow, Digits, IsDouble, MaxDigits, FloorLog;
    assert P52 <= m < P53 by { DoubleMantissa(m, e); }
    var P := MaxDigits(radix);
    var (v, E) := Digits(m, e, radix, E0, P);
    DigitsInRange(m, e, radix, E0, P);
    MaxDigitsSuffice(radix);
    var n, d := Num(m, e - 53, radix, P - E), Den(e - 53, radix, P - E);
    if Pow(radix, P - 1) * d <= n {
      RoundNear(n, d);
      MulMono(P53, Pow(radix, P - 1), d);
      NearEnough(Abs(v * d - n), n, d);
    } else {
      JustBelow(n, d, radix, Pow(radix, P - 1));
    }
    Mirror(v, e - 53, radix, P - E);
    Mirror(m, e - 53, radix, P - E);
    assert -(P - E) == E - P && -(e - 53) == 53 - e;
    CloseConverts(v, radix, E - P, m, e);
  }

  lemma DoubleMantissa(m: nat, e: int)
    requires IsDouble(m, e)
    ensures P52 <= m < P53
  {
  }

  lemma RoundNear(n: nat, d: nat)
    requires d > 0
    ensures 2 * Abs(Round(n, d, RNDN) * d - n) <= d
  {
    var q, r := Quotient(n, d);
    RoundIs(n, d, q, r, RNDN);
    MulSucc(q, d);
  }

  lemma NearEnough(gap: nat, n: nat, d: nat)
    requires 2 * gap <= d && P53 * d <= n
    ensures gap * P54 <= n
  {
  }

  /** The mantissa has just been rounded up to `low`. */
  lemma JustBelow(n: nat, d: nat, r: nat, low: nat)
    requires n < low * d && 2 * (r * n) + d >= 2 * (r * (low * d)) && low >= P53 && r >= 2 && d > 0
    ensures Abs(low * d - n) * P54 <= n
  {
    var gap := low * d - n;
    MulSub(r, low * d, n);
    MulMono(2, r, gap);
    MulMono(P53, low, d);
  }

  // ----- trailing zeros -----

  /** A zero at the end of the mantissa may be dropped. */
  lemma DropZero(v: nat, radix: nat, g: int, m: nat, e: int)
    requires radix > 0
    ensures ConvertsTo(v * radix, radix, g, m, e) <==> ConvertsTo(v, radix, g + 1, m, e)
  {
    hide Pack, UnitsOf, Binade;
    forall ex: int
      ensures Binade(v * radix, radix, g, ex) <==> Binade(v, radix, g + 1, ex)
      ensures UnitsOf(v * radix, radix, g, ex, RNDN) == UnitsOf(v, radix, g + 1, ex, RNDN)
    {
      DropZeroAt(v, radix, g, ex);
    }
  }

  lemma DropZeroAt(v: nat, radix: nat, g: int, ex: int)
    requires radix > 0
    ensures Binade(v * radix, radix, g, ex) <==> Binade(v, radix, g + 1, ex)
    ensures UnitsOf(v * radix, radix, g, ex, RNDN) == UnitsOf(v, radix, g + 1, ex, RNDN)
  {
    hide Num, Den, Round;
    SameFraction(v, radix, g, -ex);
    SameFraction(v, radix, g, 1 - ex);
  }

  lemma SameFraction(v: nat, radix: nat, g: int, a: int)
    requires radix > 0
    ensures var n, d, n1, d1 := Num(v * radix, a, radix, g), Den(a, radix, g), Num(v, a, radix, g + 1), Den(a, radix, g + 1);
            (n < d <==> n1 < d1) && Round(n, d, RNDN) == Round(n1, d1, RNDN)
  {
    hide Num, Den, Round;
    RadixShift(v, a, 1, radix, g);
    PowBasics(radix);
    NumTimes(radix, v, a, radix, g);
    assert radix * v == v * radix;
    var n, d, n1, d1 := Num(v * radix, a, radix, g), Den(a, radix, g), Num(v, a, radix, g + 1), Den(a, radix, g + 1);
    assert n * d1 == n1 * d;
    RoundCross(n, d, n1, d1, RNDN);
    MulLess(d1, n, d);
    MulLess(d, n1, d1);
  }

  lemma {:induction false} DropZeros(v: nat, radix: nat, g: int, j: nat, m: nat, e: int)
    requires radix > 0
    ensures ConvertsTo(v * Pow(radix, j), radix, g, m, e) <==> ConvertsTo(v, radix, g + j, m, e)
    decreases j
  {
    hide ConvertsTo;
    if j > 0 {
      NextPower(radix, j);
      var w := Pow(radix, j - 1);
      assert v * (radix * w) == (v * radix) * w;
      DropZeros(v * radix, radix, g, j - 1, m, e);
      DropZero(v, radix, g + (j - 1), m, e);
    }
  }
}
