/** mul_pow_round: the correctly rounded value of m * 2^e * radix^f. */
module ExactScale {
  import opened Rounding
  import opened Bits
  import opened Limbs
  import opened Powers
  import opened BigNum
  import opened MulPow

  function Pos(x: int): (n: nat)
  {
    if x > 0 then x else 0
  }

  /** m * 2^e * radix^f as a fraction. */
  function Num(m: nat, e: int, radix: nat, f: int): nat
  {
    m * Pow2(Pos(e)) * Pow(radix, Pos(f))
  }

  function Den(e: int, radix: nat, f: int): (d: nat)
    requires radix > 0
    ensures d > 0
  {
    DenPositive(Pow2(Pos(-e)), Pow(radix, Pos(-f)));
    Pow2(Pos(-e)) * Pow(radix, Pos(-f))
  }

  lemma DenPositive(x: nat, y: nat)
    requires x > 0 && y > 0
    ensures x * y > 0
  {
  }

  /** A fraction rounds alike when its powers of two are moved around. */
  lemma RoundPowers(n: nat, d: nat, a: nat, b: nat, a': nat, b': nat, mode: Mode)
    requires d > 0 && a + b' == a' + b
    ensures d * Pow2(b) > 0 && d * Pow2(b') > 0
    ensures Round(n * Pow2(a), d * Pow2(b), mode) == Round(n * Pow2(a'), d * Pow2(b'), mode)
  {
    hide Pow2, Round;
    DenPositive(d, Pow2(b));
    DenPositive(d, Pow2(b'));
    PowSum(a, b');
    PowSum(a', b);
    Regrouped(n, d, Pow2(a), Pow2(b'));
    Regrouped(n, d, Pow2(a'), Pow2(b));
    RoundCross(n * Pow2(a), d * Pow2(b), n * Pow2(a'), d * Pow2(b'), mode);
  }

  lemma Regrouped(n: nat, d: nat, x: nat, y: nat)
    ensures (n * x) * (d * y) == (n * d) * (x * y)
  {
    assert (n * x) * (d * y) == n * (x * (d * y)) == n * (d * (x * y));
  }

  lemma RadixPower(r1: nat, rs: nat, k: nat)
    ensures Pow(r1 * Pow2(rs), k) == Pow(r1, k) * Pow2(rs * k)
  {
    hide Pow;
    PowMul(r1, Pow2(rs), k);
    PowPow(2, rs, k);
  }

  /** With a positive power: everything is exact up to one power of two. */
  lemma RoundsUpwards(m: nat, e: int, r1: nat, rs: nat, f: nat, mode: Mode)
    requires r1 > 0
    ensures var radix, t := r1 * Pow2(rs), e + f * rs;
            radix > 0 &&
            Round(Num(m, e, radix, f), Den(e, radix, f), mode) ==
            Round(m * Pow(r1, f) * Pow2(Pos(t)), Pow2(Pos(-t)), mode)
  {
    hide Pow, Pow2, Round;
    var radix, t := r1 * Pow2(rs), e + f * rs;
    DenPositive(r1, Pow2(rs));
    RadixPower(r1, rs, f);
    PowBasics(radix);
    PowSum(Pos(e), rs * f);
    var p := Pow(r1, f);
    assert m * Pow2(Pos(e)) * (p * Pow2(rs * f)) == (m * p) * Pow2(Pos(e) + rs * f) by {
      Regrouped(m, p, Pow2(Pos(e)), Pow2(rs * f));
    }
    assert f * rs == rs * f;
    RoundPowers(m * p, 1, Pos(e) + rs * f, Pos(-e), Pos(t), Pos(-t), mode);
  }

  /** With a negative power: the numerator and the denominator may be shifted together. */
  lemma RoundsDownwards(m: nat, e: int, r1: nat, rs: nat, g: int, up: nat, s: nat, mode: Mode)
    requires r1 > 0 && g > 0 && up + rs * g == s + e
    ensures var radix := r1 * Pow2(rs);
            radix > 0 && Pow(r1, g) * Pow2(s) > 0 &&
            Round(Num(m, e, radix, -g), Den(e, radix, -g), mode) ==
            Round(m * Pow2(up), Pow(r1, g) * Pow2(s), mode)
  {
    hide Pow, Pow2, Round;
    var radix := r1 * Pow2(rs);
    DenPositive(r1, Pow2(rs));
    DenPositive(Pow(r1, g), Pow2(s));
    RadixPower(r1, rs, g);
    PowBasics(radix);
    PowSum(Pos(-e), rs * g);
    var p := Pow(r1, g);
    assert Pow2(Pos(-e)) * (p * Pow2(rs * g)) == p * Pow2(Pos(-e) + rs * g) by {
      Regrouped(1, p, Pow2(Pos(-e)), Pow2(rs * g));
    }
    RoundPowers(m, p, Pos(e), Pos(-e) + rs * g, up, s, mode);
  }

  /** What mpb_shr_round makes of v. */
  function Shifted(v: nat, shift: int, mode: Mode): nat
  {
    if shift < 0 then v * Pow2(-shift) else Round(v, Pow2(shift), mode)
  }

  lemma ShiftedIs(v: nat, t: int, mode: Mode)
    ensures Shifted(v, -t, mode) == Round(v * Pow2(Pos(t)), Pow2(Pos(-t)), mode)
  {
    hide Round;
    PowOne();
    if t > 0 {
      RoundWhole(v * Pow2(t), mode);
    }
  }

  /** Shifting what mul_pow leaves rounds the exact value. */
  lemma ScaledRounds(m: nat, e: int, r1: nat, rs: nat, f: int, up: nat, shift: int, mode: Mode)
    requires OddPart(r1) && shift == -f * rs + up - e
    requires r1 == 1 || f >= 0 ==> up == 0
    requires r1 != 1 && f < 0 ==> shift >= 2
    ensures var radix := r1 * Pow2(rs);
            radix > 0 && Shifted(Scaled(m, r1, f, up), shift, mode) == Round(Num(m, e, radix, f), Den(e, radix, f), mode)
  {
    hide Num, Den, Round, Shifted, Pow, Pow2, Sticky;
    if f >= 0 {
      RoundsUpwards(m, e, r1, rs, f, mode);
      ShiftedIs(Scaled(m, r1, f, up), -shift, mode);
    } else {
      var g := -f;
      assert -f * rs == rs * g;
      if r1 == 1 {
        ScaledByOne(m, f);
        PowOfOneIs(g);
        RoundsDownwards(m, e, r1, rs, g, Pos(-shift), Pos(shift), mode);
        ShiftedIs(m, -shift, mode);
      } else {
        RoundsDownwards(m, e, r1, rs, g, up, shift, mode);
        StickyRounds(m * Pow2(up), Pow(r1, g), shift, mode);
        ShiftedDown(Scaled(m, r1, f, up), shift, mode);
      }
    }
  }

  lemma ShiftedDown(v: nat, shift: nat, mode: Mode)
    ensures Shifted(v, shift, mode) == Round(v, Pow2(shift), mode)
  {
  }

  /** The limbs that mul_pow_round needs. */
  function RoundRoom(m: nat, e: int, r1: nat, rs: nat, f: int): nat
    requires OddPart(r1)
  {
    2 + Room(m, r1, rs, f, true, e) +
    if (r1 == 1 || f >= 0) && e + f * rs > 0 then (e + f * rs + LIMB_BITS - 1) / LIMB_BITS else 0
  }

  /** mul_pow_round: m * 2^e * radix^f, rounded once, for radix = r1 * 2^rs. */
  method MulPowRound(a: BigNum, m: nat, e: int, r1: nat, rs: nat, f: int, mode: Mode)
    requires m < U64 && OddPart(r1) && RoundRoom(m, e, r1, rs, f) <= a.tab.Length
    modifies a, a.tab
    ensures a.Valid() && r1 * Pow2(rs) > 0
    ensures a.Value() == Round(Num(m, e, r1 * Pow2(rs), f), Den(e, r1 * Pow2(rs), f), mode)
  {
    hide Round, Num, Den, Shifted, Room;
    a.SetU64(m);
    var eOffset, up := MulPower(a, r1, rs, f, true, e);
    ghost var v, shift := a.Value(), -e + eOffset;
    ScaledRounds(m, e, r1, rs, f, up, shift, mode);
    a.ShrRound(-e + eOffset, mode);
    ShiftedMeans(v, shift, mode);
  }

  lemma ShiftedMeans(v: nat, shift: int, mode: Mode)
    ensures Shifted(v, shift, mode) == if shift < 0 then v * Pow2(-shift) else Round(v, Pow2(shift), mode)
  {
  }
}
