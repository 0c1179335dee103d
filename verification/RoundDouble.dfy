/** round_to_d and mul_pow_round_to_d: rounding to 53 bits, with the subnormals. */
module RoundDouble {
  import opened Rounding
  import opened Bits
  import opened Limbs
  import opened Powers
  import opened BigNum
  import opened MulPow
  import opened ExactScale

  const PREC: nat := 53
  const P52: nat := 0x10_0000_0000_0000
  const P53: nat := 0x20_0000_0000_0000

  /** The smallest exponent of a normal double, when the mantissa is below one. */
  const E_MIN: int := -1021

  /** The exponent of the last bit of doubles in the binade 2^(ex-1) <= x < 2^ex. */
  function Unit(ex: int): int
  {
    if ex < E_MIN then E_MIN - PREC else ex - PREC
  }

  /** How many bits doubles have in that binade; not positive below the subnormals. */
  function Prec(ex: int): (p: int)
    ensures p <= PREC
  {
    ex - Unit(ex)
  }

  /** k units as a mantissa of 53 bits and an exponent: the value is m * 2^(e - 53). */
  function Pack(k: nat, ex: int): (nat, int)
  {
    var m := k * Pow2(PREC - Prec(ex));
    if m >= P53 then (m / 2, ex + 1) else (m, ex)
  }

  // ----- the binade of m * radix^f -----

  /** 2^(ex-1) <= v * radix^f < 2^ex. */
  predicate Binade(v: nat, radix: nat, f: int, ex: int)
    requires radix > 0
  {
    Den(1 - ex, radix, f) <= Num(v, 1 - ex, radix, f) && Num(v, -ex, radix, f) < Den(-ex, radix, f)
  }

  /** v * radix^f rounded to a multiple of 2^u, in units of 2^u. */
  function UnitsOf(v: nat, radix: nat, f: int, u: int, mode: Mode): nat
    requires radix > 0
  {
    Round(Num(v, -u, radix, f), Den(-u, radix, f), mode)
  }

  lemma PowersAre()
    ensures Pow2(52) == P52 && Pow2(53) == P53
  {
    BaseIsPower();
    PowersOfTwo();
    PowAdd(2, 32, 20);
    PowAdd(2, 52, 1);
    PowOne();
  }

  /** Multiplying by a further 2^j. */
  lemma NumShift(v: nat, e: int, j: nat, radix: nat, f: int)
    requires radix > 0
    ensures Num(v, e + j, radix, f) * Den(e, radix, f) == Num(v, e, radix, f) * Pow2(j) * Den(e + j, radix, f)
  {
    hide Pow, Pow2;
    var x, y := Pow(radix, Pos(f)), Pow(radix, Pos(-f));
    PowSum(Pos(e + j), Pos(-e));
    PowSum(Pos(e), j);
    PowSum(Pos(e) + j, Pos(-e - j));
    assert Pos(e + j) + Pos(-e) == Pos(e) + j + Pos(-e - j);
    Shuffle(v, x, y, Pow2(Pos(e + j)), Pow2(Pos(-e)), Pow2(Pos(e)), Pow2(j), Pow2(Pos(-e - j)));
  }

  lemma Shuffle(v: nat, x: nat, y: nat, a: nat, b: nat, c: nat, d: nat, g: nat)
    requires a * b == c * d * g
    ensures (v * a * x) * (b * y) == (v * c * x) * d * (g * y)
  {
    var w := v * x * y;
    Four(v, a, x, b, y);
    assert (v * c * x) * d == v * (c * d) * x;
    Four(v, c * d, x, g, y);
  }

  lemma Four(v: nat, a: nat, x: nat, b: nat, y: nat)
    ensures (v * a * x) * (b * y) == (v * x * y) * (a * b)
  {
    assert v * a * x == (v * x) * a;
    assert ((v * x) * a) * (b * y) == (v * x) * (a * (b * y));
    assert a * (b * y) == y * (a * b);
  }

  /** Where the binade puts the number of units. */
  lemma BinadeUnits(v: nat, radix: nat, f: int, ex: int)
    requires radix > 0 && Binade(v, radix, f, ex)
    ensures var n, d, prec := Num(v, -Unit(ex), radix, f), Den(-Unit(ex), radix, f), Prec(ex);
            (prec >= 1 ==> Pow2(prec - 1) * d <= n) && (prec >= 0 ==> n < Pow2(prec) * d) && (prec < 0 ==> 2 * n < d)
  {
    hide Num, Den, Pow, Pow2;
    var u, prec := Unit(ex), Prec(ex);
    var n, d := Num(v, -u, radix, f), Den(-u, radix, f);
    var n0, d0 := Num(v, -ex, radix, f), Den(-ex, radix, f);
    if prec >= 0 {
      NumShift(v, -ex, prec, radix, f);
      ScaleLess(n, d, n0, d0, Pow2(prec));
    } else {
      NumShift(v, -u, -prec, radix, f);
      ScaleDown(n, d, n0, d0, Pow2(-prec));
      AtLeastTwo(-prec);
      MulMono(2, Pow2(-prec), n);
    }
    if prec >= 1 {
      NumShift(v, 1 - ex, prec - 1, radix, f);
      ScaleMore(n, d, Num(v, 1 - ex, radix, f), Den(1 - ex, radix, f), Pow2(prec - 1));
    }
  }

  lemma AtLeastTwo(n: nat)
    requires n > 0
    ensures Pow2(n) >= 2
  {
    PowMono(2, 1, n);
    PowOne();
  }

  lemma ScaleLess(n: nat, d: nat, n0: nat, d0: nat, p: nat)
    requires n * d0 == n0 * p * d && n0 < d0 && p > 0 && d > 0
    ensures n < p * d
  {
    if n >= p * d {
      MulMono(p * d, n, d0);
      assert n0 * p * d == (p * d) * n0;
      DenPositive(p, d);
      MulLess(p * d, n0, d0);
    }
  }

  lemma ScaleDown(n: nat, d: nat, n0: nat, d0: nat, p: nat)
    requires n0 * d == n * p * d0 && n0 < d0 && d > 0
    ensures n * p < d
  {
    if n * p >= d {
      MulMono(d, n * p, d0);
      assert n * p * d0 == n0 * d;
      MulLess(d, n0, d0);
    }
  }

  lemma ScaleMore(n: nat, d: nat, n1: nat, d1: nat, p: nat)
    requires n * d1 == n1 * p * d && n1 >= d1 > 0
    ensures p * d <= n
  {
    MulLess(d1, n, p * d);
    MulMono(d1, n1, p * d);
    assert n1 * p * d == n1 * (p * d);
  }

  // ----- what the packed result means -----

  /** The units of a binade fit its precision. */
  lemma UnitsFit(n: nat, d: nat, prec: int, mode: Mode)
    requires d > 0 && prec <= PREC
    requires prec >= 1 ==> Pow2(prec - 1) * d <= n
    requires prec >= 0 ==> n < Pow2(prec) * d
    requires prec < 0 ==> 2 * n < d
    ensures var k := Round(n, d, mode);
            (prec >= 0 ==> k <= Pow2(prec)) && (prec >= 1 ==> Pow2(prec - 1) <= k) && (prec < 0 ==> k == 0)
  {
    hide Pow2;
    var q, r := Quotient(n, d);
    RoundIs(n, d, q, r, mode);
    if prec >= 0 {
      if q >= Pow2(prec) {
        MulMono(Pow2(prec), q, d);
      }
      if prec >= 1 && q < Pow2(prec - 1) {
        MulMono(q + 1, Pow2(prec - 1), d);
        MulSucc(q, d);
      }
    } else {
      DivUnique(n, d, 0, n);
    }
  }

  /** A packed number of units has the value of those units, and is a normalised mantissa. */
  lemma PackValue(k: nat, ex: int)
    requires var prec := Prec(ex);
             (prec >= 0 ==> k <= Pow2(prec)) && (prec >= 1 ==> Pow2(prec - 1) <= k) && (prec < 0 ==> k == 0)
    ensures var (m, e) := Pack(k, ex);
            var w := Unit(ex) - (e - PREC);
            m < P53 && (k == 0 ==> m == 0) && (k > 0 ==> m >= P52) && m * Pow2(Pos(-w)) == k * Pow2(Pos(w))
  {
    hide Pow;
    var prec := Prec(ex);
    PowersAre();
    PowOne();
    if k > 0 {
      var p := Pow2(PREC - prec);
      PowSum(prec, PREC - prec);
      MulMono(k, Pow2(prec), p);
      if prec >= 1 {
        PowSum(prec - 1, PREC - prec);
        MulMono(Pow2(prec - 1), k, p);
      } else {
        assert k == 1;
      }
      if k * p >= P53 && prec < PREC {
        PowSum(1, PREC - prec - 1);
        Halve(k, p, Pow2(PREC - prec - 1));
      }
    }
  }

  lemma Halve(k: nat, p: nat, h: nat)
    requires p == 2 * h
    ensures k * p / 2 == k * h
  {
    assert k * p == (k * h) * 2;
    DivUnique(k * p, 2, k * h, 0);
  }

  function Abs(x: int): nat
  {
    if x < 0 then -x else x
  }

  /** An integer is at least as far from n / d as the rounded one. */
  lemma NearestInteger(n: nat, d: nat, i: nat, mode: Mode)
    requires d > 0 && !mode.RNDZ?
    ensures Abs(n - Round(n, d, mode) * d) <= Abs(n - i * d)
  {
    var q, r := Quotient(n, d);
    RoundIs(n, d, q, r, mode);
    MulSucc(q, d);
    if i <= q {
      MulMono(i, q, d);
    } else {
      MulMono(q + 1, i, d);
    }
  }

  /** No double m * 2^(e-53) is nearer to n / d units than the rounded number of units. */
  lemma NearestDouble(n: nat, d: nat, ex: int, mode: Mode, m: nat, e: int)
    requires d > 0 && !mode.RNDZ?
    requires Prec(ex) >= 1 ==> Pow2(Prec(ex) - 1) * d <= n
    requires m < P53 && e >= E_MIN
    ensures var w := Unit(ex) - (e - PREC);
            Abs(n - Round(n, d, mode) * d) * Pow2(Pos(w)) <= Abs(n * Pow2(Pos(w)) - m * Pow2(Pos(-w)) * d)
  {
    hide Pow, Pow2, Round;
    var w := Unit(ex) - (e - PREC);
    var k := Round(n, d, mode);
    PowOne();
    if w <= 0 {
      NearestInteger(n, d, m * Pow2(-w), mode);
    } else {
      // m * 2^(e-53) is below the least number of the binade
      assert Unit(ex) == ex - PREC && Prec(ex) == PREC;
      var p, low := Pow2(w), Pow2(PREC - 1);
      NearestInteger(n, d, low, mode);
      PowersAre();
      AtLeastTwo(w);
      BelowBinade(n, d, k, m, p, low, w);
    }
  }

  lemma BelowBinade(n: nat, d: nat, k: nat, m: nat, p: nat, low: nat, w: nat)
    requires low * d <= n && m < 2 * low && p >= 2 && d > 0
    requires Abs(n - k * d) <= n - low * d
    ensures Abs(n - k * d) * p <= Abs(n * p - m * d)
  {
    var g := Abs(n - k * d);
    MulMono(g, n - low * d, p);
    assert (n - low * d) * p == n * p - (low * d) * p;
    MulMono(2, p, low * d);
    MulMono(m, 2 * low, d);
    assert 2 * low * d == 2 * (low * d);
  }

  // ----- the methods -----

  /** The bits of the shifted number fit. */
  lemma ShiftedFits(v: nat, prec: int, mode: Mode)
    requires v > 0 && prec <= PREC
    ensures var n := BitLen(v);
            var k := Shifted(v, n - prec, mode);
            (prec >= 0 ==> k <= Pow2(prec)) && (prec >= 1 ==> Pow2(prec - 1) <= k) && (prec < 0 ==> k == 0)
  {
    hide Pow, Pow2, Round, BitLen;
    var n := BitLen(v);
    BitLenBounds(v);
    if n < prec {
      PowSum(n, prec - n);
      PowSum(n - 1, prec - n);
      MulMono(v, Pow2(n), Pow2(prec - n));
      MulMono(Pow2(n - 1), v, Pow2(prec - n));
    } else {
      if prec >= 0 {
        PowSum(prec, n - prec);
      } else {
        PowSum(n, -prec);
        AtLeastTwo(-prec);
        MulMono(2, Pow2(-prec), Pow2(n));
        assert Pow2(n) * Pow2(-prec) == Pow2(-prec) * Pow2(n);
      }
      if prec >= 1 {
        PowSum(prec - 1, n - prec);
      }
      UnitsFit(v, Pow2(n - prec), prec, mode);
    }
  }

  /** m << n on 64 bits. Only a zero is shifted by more than 63 places, for values below 2^-1085; C leaves that
      undefined, and the code relies on a zero. */
  function Shl64(m: nat, n: nat): (r: nat)
    requires m == 0 || n < 64
    ensures r < U64
  {
    if n < 64 then m * Pow2(n) % U64 else 0
  }

  /** Nothing is shifted out. */
  lemma ShiftFits(m: nat, ex: int)
    requires (Prec(ex) >= 0 ==> m <= Pow2(Prec(ex))) && (Prec(ex) < 0 ==> m == 0)
    ensures var n := PREC - Prec(ex); (m == 0 || n < 64) && Shl64(m, n) == m * Pow2(n)
  {
    hide Pow, Pow2;
    var n := PREC - Prec(ex);
    if Prec(ex) >= 0 {
      PowSum(Prec(ex), n);
      PowersAre();
      MulMono(m, Pow2(Prec(ex)), Pow2(n));
    }
    Small(m * Pow2(n), U64);
  }

  /** round_to_d: a * 2^-eOffset as a double m * 2^(e - 53). */
  method RoundToD(a: BigNum, eOffset: int, mode: Mode) returns (m: nat, e: int)
    requires a.Valid() && Normal(a.Limbs()) && (a.len + 2 <= a.tab.Length || BitLen(a.Value()) >= PREC)
    modifies a, a.tab
    ensures a.Valid()
    ensures var v := old(a.Value());
            var ex := BitLen(v) - eOffset;
            (m, e) == if v == 0 then (0, 0) else Pack(Shifted(v, Unit(ex) + eOffset, mode), ex)
  {
    hide Pow, Pow2, Round, BitLen, Val;
    ZeroLimbs(a.Limbs());
    if a.tab[0] == 0 && a.len == 1 {
      return 0, 0;
    }
    ghost var v := a.Value();
    var top := a.FloorLog2();
    e := top + 1 - eOffset;
    var prec := PREC;
    if e < E_MIN {
      prec := PREC - (E_MIN - e);
    }
    assert prec == Prec(e);
    ShiftedFits(v, prec, mode);
    a.ShrRound(e + eOffset - prec, mode);
    ShiftedMeans(v, e + eOffset - prec, mode);
    m := a.GetU64();
    MantissaFits(a.Value(), e);
    ShiftFits(a.Value(), e);
    m := Shl64(m, PREC - prec);
    if m >= P53 {
      m := m / 2;
      e := e + 1;
    }
  }

  lemma ZeroLimbs(s: seq<Limb>)
    requires Normal(s)
    ensures Val(s) == 0 <==> s[0] == 0 && |s| == 1
  {
    if |s| == 1 {
      assert s == [s[0]];
      ValOne(s[0]);
    }
  }

  lemma MantissaFits(k: nat, ex: int)
    requires (Prec(ex) >= 0 ==> k <= Pow2(Prec(ex))) && (Prec(ex) < 0 ==> k == 0)
    ensures k % U64 == k
  {
    hide Pow, Pow2;
    PowersAre();
    if Prec(ex) >= 0 {
      MonoPow2(Prec(ex), PREC);
    }
    Small(k, U64);
  }

  /** Where the exact value lies, and what it rounds to, can be read off what mul_pow leaves. */
  lemma BinadeOfScaled(v: nat, r1: nat, rs: nat, f: int, up: nat)
    requires OddPart(r1) && v > 0
    requires r1 == 1 || f >= 0 ==> up == 0
    requires Scaled(v, r1, f, up) > 0 && (r1 != 1 && f < 0 ==> Scaled(v, r1, f, up) >= Pow2(2))
    ensures r1 * Pow2(rs) > 0 && Binade(v, r1 * Pow2(rs), f, BitLen(Scaled(v, r1, f, up)) - (-f * rs + up))
  {
    hide Pow2, Round, BitLen, Scaled, Num, Den, Shifted;
    var radix, a := r1 * Pow2(rs), Scaled(v, r1, f, up);
    var n, eOffset := BitLen(a), -f * rs + up;
    var ex := n - eOffset;
    DenPositive(r1, Pow2(rs));
    BitLenBounds(a);
    if r1 != 1 && f < 0 {
      if n < 3 {
        MonoPow2(n, 2);
      }
    }
    ScaledRounds(v, -ex, r1, rs, f, up, n, RNDZ);
    ScaledRounds(v, 1 - ex, r1, rs, f, up, n - 1, RNDZ);
    Floors(a, n);
    FloorIs(Num(v, -ex, radix, f), Den(-ex, radix, f));
    FloorIs(Num(v, 1 - ex, radix, f), Den(1 - ex, radix, f));
  }

  lemma Floors(a: nat, n: nat)
    requires n > 0 && Pow2(n - 1) <= a < Pow2(n)
    ensures Shifted(a, n, RNDZ) == 0 && Shifted(a, n - 1, RNDZ) == 1
  {
    hide Pow;
    PowSum(1, n - 1);
    PowOne();
    DivUnique(a, Pow2(n), 0, a);
    DivUnique(a, Pow2(n - 1), 1, a - Pow2(n - 1));
  }

  lemma FloorIs(n: nat, d: nat)
    requires d > 0
    ensures Round(n, d, RNDZ) == 0 <==> n < d
  {
    var q, r := Quotient(n, d);
    RoundIs(n, d, q, r, RNDZ);
    if q > 0 {
      MulMono(1, q, d);
    }
  }

  /** mul_pow keeps enough bits for a double. */
  lemma EnoughBits(v: nat, r1: nat, f: int, up: nat, eOffset: int)
    requires OddPart(r1) && v > 0
    requires r1 != 1 && f < 0 ==>
               up == LIMB_BITS * Chunks(-f, PerLimb(r1)) + ExtraBits(v, eOffset, false, 55)
    ensures Scaled(v, r1, f, up) > 0
    ensures r1 != 1 && f < 0 ==> BitLen(Scaled(v, r1, f, up)) >= 56 && Scaled(v, r1, f, up) >= Pow2(2)
  {
    hide Pow2, Pow, BitLen, Sticky, Chunks, PerLimb;
    if f >= 0 {
      DenPositive(v, Pow(r1, f));
    } else if r1 == 1 {
      ScaledAtOne(v, f, up);
    } else {
      var l, extra := LIMB_BITS * Chunks(-f, PerLimb(r1)), ExtraBits(v, eOffset, false, 55);
      ChunksBound(r1, -f);
      AlignedAtLeast(v, l, extra, Pow(r1, -f));
      StickyAtLeast(v * Pow2(up), Pow(r1, -f), Pow2(55));
      LongEnough(Sticky(v * Pow2(up), Pow(r1, -f)));
    }
  }

  lemma AlignedAtLeast(v: nat, l: nat, extra: nat, d: nat)
    requires v > 0 && BitLen(v) - 1 + extra >= 55 && 0 < d <= Pow2(l)
    ensures v * Pow2(l + extra) >= Pow2(55) * d
  {
    hide Pow2, BitLen;
    var n := BitLen(v) - 1;
    BitLenBounds(v);
    PowSum(n, extra);
    MulMono(Pow2(n), v, Pow2(extra));
    MonoPow2(55, n + extra);
    PowSum(l, extra);
    QuotientAtLeast(v, Pow2(extra), Pow2(l), d, Pow2(55));
    ProductShifts(v, Pow2(extra), Pow2(l));
  }

  lemma ProductShifts(v: nat, x: nat, p: nat)
    ensures v * x * p == v * (p * x)
  {
  }

  lemma LongEnough(s: nat)
    requires s >= Pow2(55)
    ensures BitLen(s) >= 56 && s >= Pow2(2)
  {
    hide Pow2, BitLen;
    MonoPow2(2, 55);
    BitLenBounds(s);
    if BitLen(s) <= 55 {
      MonoPow2(BitLen(s), 55);
    }
  }

  function ChunksOf(r1: nat, f: int): nat
    requires OddPart(r1)
  {
    if r1 == 1 || f >= 0 then 0 else Chunks(-f, PerLimb(r1))
  }

  lemma ScaledAtOne(v: nat, f: int, up: nat)
    requires f < 0
    ensures v > 0 ==> Scaled(v, 1, f, up) > 0
  {
    PowOfOneIs(-f);
    DivUnique(v * Pow2(up), 1, v * Pow2(up), 0);
    if v > 0 {
      DenPositive(v, Pow2(up));
    }
  }

  /** A power of the radix fits the limbs counted for it. */
  lemma ChunksBound(r1: nat, g: nat)
    requires OddPart(r1) && r1 != 1
    ensures Pow(r1, g) <= Pow2(LIMB_BITS * Chunks(g, PerLimb(r1)))
  {
    hide Pow, PerLimb, Chunks;
    var d := PerLimb(r1);
    var l := Chunks(g, d);
    ChunksCover(g, d);
    PowMono(r1, g, d * l);
    PowPow(r1, d, l);
    DigitsFit(r1, d);
    PowBase(Pow(r1, d), BASE, l);
    BasePower(l);
  }

  lemma {:induction false} PowBase(a: nat, b: nat, n: nat)
    requires a <= b
    ensures Pow(a, n) <= Pow(b, n)
  {
    if n > 0 {
      PowBase(a, b, n - 1);
      MulMono(a, b, Pow(a, n - 1));
      MulMono(Pow(a, n - 1), Pow(b, n - 1), b);
    }
  }

  lemma QuotientAtLeast(v: nat, x: nat, p: nat, d: nat, low: nat)
    requires 0 < d <= p && v * x >= low
    ensures v * x * p >= low * d
  {
    MulMono(low, v * x, p);
    MulMono(d, p, low);
  }

  lemma StickyAtLeast(n: nat, d: nat, low: nat)
    requires d > 0 && n >= low * d
    ensures Sticky(n, d) >= low
  {
    var q, r := Quotient(n, d);
    StickyIs(n, d, q, r);
    if q < low {
      MulMono(q + 1, low, d);
      MulSucc(q, d);
    }
  }

  /** mul_pow_round_to_d: v * radix^f as the double it rounds to. `ex` is the binade of the exact value. */
  method MulPowRoundToD(a: BigNum, r1: nat, rs: nat, f: int, mode: Mode) returns (m: nat, e: int, ghost ex: int)
    requires a.Valid() && Normal(a.Limbs()) && a.Value() > 0 && OddPart(r1)
    requires a.len + Room(a.Value(), r1, rs, f, false, 55) + 2 <= a.tab.Length
    modifies a, a.tab
    ensures a.Valid() && r1 * Pow2(rs) > 0
    ensures Binade(old(a.Value()), r1 * Pow2(rs), f, ex)
    ensures (m, e) == Pack(UnitsOf(old(a.Value()), r1 * Pow2(rs), f, Unit(ex), mode), ex)
  {
    hide Pow2, Round, BitLen, Num, Den, Shifted, Room, Scaled, Val;
    ghost var v := a.Value();
    var eOffset, up := MulPower(a, r1, rs, f, false, 55);
    ghost var v1 := a.Value();
    EnoughBits(v, r1, f, up, -f * rs + LIMB_BITS * ChunksOf(r1, f));
    ex := BitLen(v1) - eOffset;
    BinadeOfScaled(v, r1, rs, f, up);
    ScaledRounds(v, -Unit(ex), r1, rs, f, up, Unit(ex) + eOffset, mode);
    m, e := RoundToD(a, eOffset, mode);
  }
}
