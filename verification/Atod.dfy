/** js_atod for the radixes that are powers of two: however many digits there are, the result is the
    double nearest to the exact value. */
module Atod {
  import opened Rounding
  import opened Bits
  import opened Limbs
  import opened LimbLoops
  import opened Powers
  import opened BigNum
  import opened MulPow
  import opened ExactScale
  import opened RoundDouble
  import opened RoundTrip
  import opened ShortDigits
  import opened DtoaRoom
  import opened LogEstimate
  import opened RealValue
  import opened FreeFormat

  const INFINITY_BITS: nat := 0x7ff0_0000_0000_0000

  /** radix_base_table for 2, 4, 8, 16 and 32, where zero stands for 2^32. */
  function BaseOf(bits: nat): (base: Limb)
    requires 1 <= bits <= 5
  {
    if bits == 3 || bits == 5 then 0x4000_0000 else 0
  }

  /** atod_max_digits_table. */
  function MaxParsed(bits: nat): (n: nat)
    requires 1 <= bits <= 5
    ensures 56 <= bits * (n - 1) + 1 && bits * n <= 64
  {
    [64, 32, 21, 16, 12][bits - 1]
  }

  function PowerOf(bits: nat): (r: Limb)
    requires 1 <= bits <= 5
    ensures r == Pow2(bits) && 2 <= r <= 32
  {
    assert Pow2(1) == 2 && Pow2(2) == 4 && Pow2(3) == 8 && Pow2(4) == 16 && Pow2(5) == 32;
    [2, 4, 8, 16, 32][bits - 1]
  }

  /** The digits per limb of these radixes. */
  function DigitsPerLimb(bits: nat): (n: nat)
    requires 1 <= bits <= 5
    ensures n == DIGITS_PER_LIMB[PowerOf(bits) - 2] && n > 0
    ensures bits * n <= 32 && (BaseOf(bits) == 0 <==> bits * n == 32) && (BaseOf(bits) != 0 <==> bits * n == 30)
  {
    [32, 16, 10, 8, 6][bits - 1]
  }

  // ----- the value of digits -----

  /** radix^k for radix = 2^bits. */
  function RadixTo(bits: nat, k: nat): (p: nat)
    ensures p > 0
  {
    Pow2(bits * k)
  }

  lemma RadixNext(bits: nat, k: nat)
    ensures RadixTo(bits, 0) == 1 && RadixTo(bits, k + 1) == Pow2(bits) * RadixTo(bits, k)
  {
    assert bits * (k + 1) == bits + bits * k && bits * 0 == 0;
    PowSum(bits, bits * k);
    PowOne();
  }

  predicate AreDigits(ds: seq<nat>, bits: nat)
  {
    forall i :: 0 <= i < |ds| ==> ds[i] < Pow2(bits)
  }

  function Horner(ds: seq<nat>, bits: nat): nat
  {
    if ds == [] then 0 else Horner(ds[..|ds| - 1], bits) * Pow2(bits) + ds[|ds| - 1]
  }

  lemma {:induction false} HornerSplit(ds: seq<nat>, bits: nat, n: nat)
    requires n <= |ds| && AreDigits(ds, bits)
    ensures Horner(ds, bits) == Horner(ds[..n], bits) * RadixTo(bits, |ds| - n) + Horner(ds[n..], bits)
    ensures Horner(ds[n..], bits) < RadixTo(bits, |ds| - n)
    decreases |ds|
  {
    hide Pow2, Horner, RadixTo;
    if n == |ds| {
      assert ds[..n] == ds && ds[n..] == [];
      RadixNext(bits, 0);
      HornerEmpty(bits);
    } else {
      var k := |ds| - 1;
      var front := ds[..k];
      HornerSplit(front, bits, n);
      assert front[..n] == ds[..n];
      assert ds[n..][..k - n] == front[n..];
      HornerLast(ds, bits);
      HornerLast(ds[n..], bits);
      RadixNext(bits, k - n);
      assert |ds| - n == k - n + 1;
      SplitStep(Horner(front, bits), Horner(ds[..n], bits), RadixTo(bits, k - n), Horner(front[n..], bits), Pow2(bits), ds[k]);
    }
  }

  lemma HornerEmpty(bits: nat)
    ensures Horner([], bits) == 0
  {
  }

  lemma HornerLast(ds: seq<nat>, bits: nat)
    requires ds != []
    ensures Horner(ds, bits) == Horner(ds[..|ds| - 1], bits) * Pow2(bits) + ds[|ds| - 1]
  {
  }

  lemma SplitStep(h: nat, a: nat, p: nat, b: nat, r: nat, c: nat)
    requires h == a * p + b && b < p && c < r
    ensures h * r + c == a * (r * p) + (b * r + c) && b * r + c < r * p
  {
    assert (a * p) * r == a * (r * p);
    assert (a * p + b) * r == (a * p) * r + b * r;
    MulMono(b + 1, p, r);
    MulSucc(b, r);
  }

  lemma HornerBound(ds: seq<nat>, bits: nat)
    requires AreDigits(ds, bits)
    ensures Horner(ds, bits) < RadixTo(bits, |ds|)
  {
    HornerSplit(ds, bits, 0);
    assert ds[0..] == ds;
  }

  /** A number whose first digit is not zero. */
  lemma HornerLow(ds: seq<nat>, bits: nat)
    requires AreDigits(ds, bits) && ds != [] && ds[0] != 0
    ensures RadixTo(bits, |ds| - 1) <= Horner(ds, bits)
  {
    hide Pow2;
    HornerSplit(ds, bits, 1);
    assert ds[..1] == [ds[0]];
    assert [ds[0]][..0] == [];
    assert Horner(ds[..1], bits) == ds[0];
    MulMono(1, ds[0], RadixTo(bits, |ds| - 1));
  }

  lemma ProductZero(x: nat, p: nat)
    requires p > 0
    ensures x * p == 0 <==> x == 0
  {
    if x > 0 {
      DenPositive(x, p);
    }
  }

  // ----- accumulating the digits -----

  /** mpb_mul1_base: a * base + x, where base zero stands for 2^32. */
  method MulBase(a: BigNum, base: Limb, x: Limb)
    requires a.Valid() && Normal(a.Limbs()) && a.len + 1 < a.tab.Length
    modifies a, a.tab
    ensures a.Valid() && Normal(a.Limbs()) && a.len <= old(a.len) + 1
    ensures a.Value() == old(a.Value()) * (if base == 0 then BASE else base) + x
  {
    hide Val, Pow, Normal;
    ZeroLimbs(a.Limbs());
    if a.tab[0] == 0 && a.len == 1 {
      a.tab[0] := x;
      assert a.Limbs() == [x];
      ValOne(x);
      NormalOne(x);
      return;
    }
    ghost var s := a.Limbs();
    var n := a.len;
    if base == 0 {
      RaiseLimbs(a.tab, n + 1, 1);
      assert a.tab[1..n + 1] == a.tab[1..n + 2][..n] == s;
      a.tab[0] := x;
      a.len := n + 1;
      LowLimbIs(a.Limbs(), x, s);
    } else {
      var carry := Mul1(a.tab, n, base, x);
      a.tab[n] := carry;
      ghost var t := a.tab[..n + 1];
      assert t[..n] == a.tab[..n];
      ValSnoc(t, n);
      assert t[..n + 1] == t;
      a.len := n + 1;
    }
    a.Renorm();
  }

  lemma LowLimbIs(t: seq<Limb>, x: Limb, s: seq<Limb>)
    requires t != [] && t[0] == x && t[1..] == s
    ensures Val(t) == Val(s) * BASE + x
  {
  }

  /** Appends a full limb of digits. */
  method FullLimb(a: BigNum, bits: nat, cur: Limb)
    requires 1 <= bits <= 5 && a.Valid() && Normal(a.Limbs()) && a.len + 1 < a.tab.Length
    modifies a, a.tab
    ensures a.Valid() && Normal(a.Limbs()) && a.len <= old(a.len) + 1
    ensures a.Value() == old(a.Value()) * RadixTo(bits, DigitsPerLimb(bits)) + cur
  {
    hide Val, Normal, RadixTo;
    BaseMeans(bits);
    MulBase(a, BaseOf(bits), cur);
  }

  /** The number v with `inLimb` more digits `cur` is that of the first n digits. */
  ghost predicate Taken(v: nat, cur: nat, inLimb: nat, limbs: nat, ds: seq<nat>, n: nat, bits: nat)
    requires 1 <= bits <= 5 && n <= |ds|
  {
    inLimb < DigitsPerLimb(bits) && cur < RadixTo(bits, inLimb) && n == limbs * DigitsPerLimb(bits) + inLimb &&
    v * RadixTo(bits, inLimb) + cur == Horner(ds[..n], bits)
  }

  /** Takes one more digit. */
  method TakeDigit(a: BigNum, bits: nat, c: nat, cur: nat, inLimb: nat, ghost limbs: nat, ghost ds: seq<nat>, ghost n: nat)
    returns (cur': nat, inLimb': nat, ghost limbs': nat)
    requires 1 <= bits <= 5 && n < |ds| && c == ds[n] < Pow2(bits)
    requires a.Valid() && Normal(a.Limbs()) && a.len + 1 < a.tab.Length && a.len <= 2 + limbs
    requires Taken(a.Value(), cur, inLimb, limbs, ds, n, bits)
    modifies a, a.tab
    ensures a.Valid() && Normal(a.Limbs()) && a.len <= 2 + limbs'
    ensures Taken(a.Value(), cur', inLimb', limbs', ds, n + 1, bits)
  {
    hide Val, Pow, Pow2, Normal, Horner, DigitsPerLimb, BaseOf, RadixTo, PowerOf;
    NextDigit(ds, bits, n, a.Value(), inLimb, cur);
    LimbHolds(bits, inLimb + 1);
    cur', inLimb', limbs' := cur * PowerOf(bits) + c, inLimb + 1, limbs;
    if inLimb' == DigitsPerLimb(bits) {
      FullLimb(a, bits, cur');
      RadixNext(bits, 0);
      cur', inLimb', limbs' := 0, 0, limbs + 1;
      MulSucc(limbs, DigitsPerLimb(bits));
    }
  }

  /** The digit loop: the first digits make up the number, of the others it is only known whether they
      are all zero. */
  method Accumulate(a: BigNum, ds: seq<nat>, bits: nat) returns (count: nat, extra: nat)
    requires 1 <= bits <= 5 && AreDigits(ds, bits) && a.tab.Length >= LIMBS
    modifies a, a.tab
    ensures a.Valid() && Normal(a.Limbs()) && a.len <= 5
    ensures count == if |ds| < MaxParsed(bits) then |ds| else MaxParsed(bits)
    ensures a.Value() == Horner(ds[..count], bits)
    ensures extra == 0 <==> Horner(ds[count..], bits) == 0
  {
    hide Val, Pow, Pow2, Normal, Horner, Or, MaxParsed, RadixTo, PowerOf, Taken;
    var max := MaxParsed(bits);
    a.SetU64(0);
    var cur: nat, inLimb: nat := 0, 0;
    count, extra := 0, 0;
    ghost var limbs := 0;
    HornerEmpty(bits);
    StartEmpty(ds, bits);
    for i := 0 to |ds|
      invariant a.Valid() && Normal(a.Limbs()) && a.len <= 2 + limbs
      invariant count == if i < max then i else max
      invariant Taken(a.Value(), cur, inLimb, limbs, ds, count, bits)
      invariant extra == 0 <==> Horner(ds[count..i], bits) == 0
    {
      assert count < max ==> ds[count..i] == [];
      if count < max {
        FewLimbs(a.Value(), cur, inLimb, limbs, ds, count, bits);
        cur, inLimb, limbs := TakeDigit(a, bits, ds[i], cur, inLimb, limbs, ds, count);
        count := count + 1;
        assert ds[count..i + 1] == [];
      } else {
        NextExtra(ds, bits, count, i);
        OrIsZero(extra, ds[i]);
        extra := Or(extra, ds[i]);
      }
    }
    FewLimbs(a.Value(), cur, inLimb, limbs, ds, count, bits);
    assert ds[count..|ds|] == ds[count..];
    LastLimb(a, bits, cur, inLimb, limbs, ds, count);
  }

  /** Appends the digits that do not fill a limb. */
  method LastLimb(a: BigNum, bits: nat, cur: nat, inLimb: nat, ghost limbs: nat, ghost ds: seq<nat>, ghost n: nat)
    requires 1 <= bits <= 5 && n <= |ds| && a.Valid() && Normal(a.Limbs()) && a.len + 1 < a.tab.Length
    requires Taken(a.Value(), cur, inLimb, limbs, ds, n, bits)
    modifies a, a.tab
    ensures a.Valid() && Normal(a.Limbs()) && a.len <= old(a.len) + 1
    ensures a.Value() == Horner(ds[..n], bits)
  {
    hide Val, Pow, Pow2, Normal, Horner;
    RadixNext(bits, 0);
    if inLimb != 0 {
      LimbHolds(bits, inLimb);
      var p := PowUi(PowerOf(bits), inLimb);
      TwoPower(bits, inLimb);
      Small(RadixTo(bits, inLimb), U64);
      MulBase(a, p, cur);
    }
  }

  lemma StartEmpty(ds: seq<nat>, bits: nat)
    requires 1 <= bits <= 5
    ensures Taken(0, 0, 0, 0, ds, 0, bits) && ds[0..0] == []
  {
  }

  lemma NextDigit(ds: seq<nat>, bits: nat, n: nat, v: nat, k: nat, cur: nat)
    requires n < |ds| && ds[n] < Pow2(bits) && cur < RadixTo(bits, k) && v * RadixTo(bits, k) + cur == Horner(ds[..n], bits)
    ensures var next := cur * Pow2(bits) + ds[n];
            next < RadixTo(bits, k + 1) && v * RadixTo(bits, k + 1) + next == Horner(ds[..n + 1], bits)
  {
    hide Pow2, RadixTo;
    assert ds[..n + 1][..n] == ds[..n];
    RadixNext(bits, k);
    SplitStep(Horner(ds[..n], bits), v, RadixTo(bits, k), cur, Pow2(bits), ds[n]);
  }

  lemma LimbHolds(bits: nat, n: nat)
    requires 1 <= bits <= 5 && n <= DigitsPerLimb(bits)
    ensures RadixTo(bits, n) <= BASE && (n < DigitsPerLimb(bits) ==> RadixTo(bits, n) < BASE)
  {
    hide Pow, Pow2;
    var per := DigitsPerLimb(bits);
    BaseIsPower();
    MulMono(n, per, bits);
    MonoPow2(bits * n, LIMB_BITS);
    if n < per {
      MulMono(n + 1, per, bits);
      PowSum(1, LIMB_BITS - 1);
      PowOne();
      MonoPow2(bits * n, LIMB_BITS - 1);
    }
  }

  lemma BaseMeans(bits: nat)
    requires 1 <= bits <= 5
    ensures (if BaseOf(bits) == 0 then BASE else BaseOf(bits)) == RadixTo(bits, DigitsPerLimb(bits))
  {
    hide Pow2;
    BaseIsPower();
    PowersOfTwo();
    PowSum(29, 1);
    PowOne();
  }

  lemma NextExtra(ds: seq<nat>, bits: nat, n: nat, i: nat)
    requires n <= i < |ds|
    ensures Horner(ds[n..i + 1], bits) == 0 <==> Horner(ds[n..i], bits) == 0 && ds[i] == 0
  {
    assert ds[n..i + 1][..i - n] == ds[n..i];
    ProductZero(Horner(ds[n..i], bits), Pow2(bits));
  }

  lemma FewLimbs(v: nat, cur: nat, inLimb: nat, limbs: nat, ds: seq<nat>, n: nat, bits: nat)
    requires 1 <= bits <= 5 && n <= |ds| && Taken(v, cur, inLimb, limbs, ds, n, bits) && n <= MaxParsed(bits)
    ensures limbs <= 2
  {
    if limbs > 2 {
      MulMono(3, limbs, DigitsPerLimb(bits));
    }
  }

  // ----- rounding with a sticky bit -----

  /** Rounding the first digits with their sticky bit rounds all of the digits. */
  lemma TwoRounds(v: nat, t: nat, s: int, u: int, mode: Mode)
    requires t == 0 || u - s - t >= 2
    ensures Shifted(Sticky(v, Pow2(t)), u - s - t, mode) == UnitsOf(v, 2, s, u, mode)
  {
    hide Pow2, Round, Num, Den, Shifted, Sticky;
    TwoPowers(v, -u, s);
    RoundPowers(v, 1, Pos(-u) + Pos(s), Pos(u) + Pos(-s), Pos(s - u), Pos(u - s), mode);
    if t == 0 {
      StickyWhole(v);
      ShiftedIs(v, s - u, mode);
    } else {
      var shift := u - s - t;
      StickyRounds(v, Pow2(t), shift, mode);
      PowSum(t, shift);
      ShiftedDown(Sticky(v, Pow2(t)), shift, mode);
      PowOne();
    }
  }

  lemma StickyWhole(v: nat)
    ensures Sticky(v, Pow2(0)) == v
  {
    PowOne();
    DivUnique(v, 1, v, 0);
  }

  lemma TwoBinade(v: nat, t: nat, s: int)
    requires var a := Sticky(v, Pow2(t)); a > 0 && (t > 0 ==> BitLen(a) >= 3)
    ensures Binade(v, 2, s, BitLen(Sticky(v, Pow2(t))) + s + t)
  {
    hide Pow2, Round, Num, Den, Shifted, Sticky, BitLen;
    var a := Sticky(v, Pow2(t));
    var n := BitLen(a);
    var ex := n + s + t;
    BitLenBounds(a);
    Floors(a, n);
    TwoRounds(v, t, s, ex, RNDZ);
    TwoRounds(v, t, s, ex - 1, RNDZ);
    FloorIs(Num(v, -ex, 2, s), Den(-ex, 2, s));
    FloorIs(Num(v, 1 - ex, 2, s), Den(1 - ex, 2, s));
  }

  // ----- the bits of the result -----

  /** The bits of a double, for a mantissa and an exponent that are not both too large. */
  function ToBits(m: nat, e: int): (r: nat)
  {
    if m == 0 then 0
    else if e > 1024 then INFINITY_BITS
    else if e < -1073 then 0
    else if e < E_MIN then m / Pow2(-e - 1021)
    else Or((e + 1022) * P52, m % P52)
  }

  /** Taking the bits apart again gives the mantissa and the exponent. */
  lemma ToBitsDecodes(m: nat, e: int)
    requires IsDouble(m, e) && -1073 <= e <= 1024
    ensures ToBits(m, e) < INFINITY_BITS && Decode(ToBits(m, e)) == (m, e)
  {
    hide Pow, Pow2, BitLen, Or;
    PowersAre();
    if e < E_MIN {
      SubnormalDecodes(m, e);
    } else {
      OrIsSum(e + 1022, 52, m % P52);
      DivUnique((e + 1022) * P52 + m % P52, P52, e + 1022, m % P52);
    }
  }

  lemma SubnormalDecodes(m: nat, e: int)
    requires IsDouble(m, e) && -1073 <= e < E_MIN
    ensures ToBits(m, e) < INFINITY_BITS && Decode(ToBits(m, e)) == (m, e)
  {
    hide Pow, Pow2, BitLen, Or;
    PowersAre();
    var l := -e - 1021;
    var a := m / Pow2(l);
    DivIs(m, Pow2(l));
    PowSum(53 - l, l);
    PowSum(52 - l, l);
    MulLess(Pow2(l), a, Pow2(53 - l));
    if a < Pow2(52 - l) {
      MulLess(Pow2(l), a, Pow2(52 - l));
    }
    BitLenIs(a, 53 - l);
    MonoPow2(53 - l, 52);
    SmallBits(a);
  }

  lemma SmallBits(a: nat)
    requires a < P52
    ensures a / P52 % 0x800 == 0 && a % P52 == a
  {
  }

  /** A positive number of units packs to a double. */
  lemma PackIsDouble(k: nat, ex: int)
    requires var prec := Prec(ex);
             (prec >= 0 ==> k <= Pow2(prec)) && (prec >= 1 ==> Pow2(prec - 1) <= k) && (prec < 0 ==> k == 0)
    requires k > 0
    ensures var (m, e) := Pack(k, ex); IsDouble(m, e) && e >= -1073
  {
    hide Pow2;
    PackValue(k, ex);
    PowOne();
    PowersAre();
    var (m, e) := Pack(k, ex);
    assert Prec(ex) == 0 ==> e == ex + 1;
    var w := Unit(ex) - (e - PREC);
    if e < E_MIN {
      DivUnique(m, Pow2(w), k, 0);
    }
  }

  /** r are the bits of the double nearest to v * 2^s, or of infinity. */
  ghost predicate NearestBits(v: nat, s: int, r: nat)
  {
    if v == 0 then r == 0
    else exists ex :: Binade(v, 2, s, ex) && BitsOf(Pack(UnitsOf(v, 2, s, Unit(ex), RNDN), ex), r)
  }

  predicate BitsOf(me: (nat, int), r: nat)
  {
    if me.0 == 0 then r == 0
    else if me.1 > 1024 then r == INFINITY_BITS
    else r < INFINITY_BITS && Decode(r) == me
  }

  /** Putting the rounded mantissa and exponent together. */
  lemma RoundedBits(v: nat, s: int, ex: int)
    requires v > 0 && Binade(v, 2, s, ex)
    ensures var (m, e) := Pack(UnitsOf(v, 2, s, Unit(ex), RNDN), ex); NearestBits(v, s, ToBits(m, e))
    ensures ex >= 1025 ==> NearestBits(v, s, INFINITY_BITS)
    ensures ex <= -1075 ==> NearestBits(v, s, 0)
  {
    hide Pow2, Num, Den, Round, ToBits, Decode, Binade, IsDouble;
    var k := UnitsOf(v, 2, s, Unit(ex), RNDN);
    BinadeUnits(v, 2, s, ex);
    UnitsFit(Num(v, -Unit(ex), 2, s), Den(-Unit(ex), 2, s), Prec(ex), RNDN);
    PackValue(k, ex);
    var (m, e) := Pack(k, ex);
    if k > 0 {
      PackIsDouble(k, ex);
      if e <= 1024 {
        ToBitsDecodes(m, e);
      }
    }
    BitsAre(m, e);
    if ex >= 1025 {
      PowOne();
    }
  }

  lemma BitsAre(m: nat, e: int)
    ensures m == 0 ==> ToBits(m, e) == 0
    ensures m > 0 && e > 1024 ==> ToBits(m, e) == INFINITY_BITS
  {
  }

  /** The real number that the bits of a finite double stand for. */
  ghost function ValueOf(r: nat): real
    requires r < INFINITY_BITS
  {
    if r == 0 then 0.0 else DoubleValue(Decode(r).0, Decode(r).1)
  }

  /** The value of bits by section 3.4 of IEEE 754-2019: 52 bits of the significand behind 11 of the biased exponent. */
  ghost function BitsValue(r: nat): real
  {
    if r / P52 == 0 then Exact(r % P52, -1074) else Exact(P52 + r % P52, r / P52 - 1075)
  }

  lemma ValueOfBits(r: nat)
    requires r < INFINITY_BITS
    ensures ValueOf(r) == BitsValue(r)
  {
    hide Pow2, BitLen, TwoTo;
    var e, m := r / P52, r % P52;
    FieldsOf(r);
    if e == 0 {
      if m > 0 {
        Normalise(m);
        var l := 53 - BitLen(m);
        ScaledTerm(m, l, -l - 1074);
        ExactIs(m * Pow2(l), -l - 1074);
      } else {
        DecodeZero();
      }
    }
  }

  lemma FieldsOf(r: nat)
    requires r < INFINITY_BITS
    ensures r / P52 < 0x7ff && r / P52 % 0x800 == r / P52 && r == r / P52 * P52 + r % P52
  {
  }

  /** Larger bits stand for larger numbers. */
  lemma BitsOrdered(r: nat, r': nat)
    requires r < r' < INFINITY_BITS
    ensures ValueOf(r) < ValueOf(r')
  {
    hide TwoTo, ValueOf;
    ValueOfBits(r);
    ValueOfBits(r');
    FieldsOf(r);
    FieldsOf(r');
    var e, m, e', m' := r / P52, r % P52, r' / P52, r' % P52;
    if e == e' || (e == 0 && e' == 1) {
      LessExact(if e == 0 then m else P52 + m, if e' == 0 then m' else P52 + m', if e == 0 then -1074 else e - 1075);
    } else {
      assert e < e';
      var k := if e == 0 then 1 else e;
      LessExact(if e == 0 then m else P52 + m, 2 * P52, k - 1075);
      TwiceExact(P52, k - 1075);
      GrowingExact(P52, k - 1074, e' - 1075);
      LessOrEqualExact(P52, P52 + m', e' - 1075);
    }
  }

  lemma LessExact(a: nat, b: nat, s: int)
    requires a < b
    ensures Exact(a, s) < Exact(b, s)
  {
    hide TwoTo;
    LargerStrict(a as real, b as real, TwoTo(s));
  }

  lemma LessOrEqualExact(a: nat, b: nat, s: int)
    requires a <= b
    ensures Exact(a, s) <= Exact(b, s)
  {
    hide TwoTo;
    Larger(a as real, b as real, TwoTo(s));
  }

  lemma TwiceExact(a: nat, s: int)
    ensures Exact(2 * a, s) == Exact(a, s + 1)
  {
    hide TwoTo;
    TwoNext(s);
  }

  lemma {:induction false} GrowingExact(a: nat, s: int, s': int)
    requires s <= s'
    ensures Exact(a, s) <= Exact(a, s')
    decreases s' - s
  {
    hide Exact;
    if s < s' {
      GrowingExact(a, s, s' - 1);
      TwiceExact(a, s' - 1);
      LessOrEqualExact(a, 2 * a, s' - 1);
    }
  }

  /** r are the bits of a double to which no other is nearer, or of infinity for what is beyond all of them. */
  ghost predicate IsNearest(x: real, r: nat)
  {
    if r == INFINITY_BITS then x >= Overflow()
    else r < INFINITY_BITS && x < Overflow() && NoneNearer(x, ValueOf(r))
  }

  lemma NearestBitsMeans(v: nat, s: int, r: nat)
    requires NearestBits(v, s, r)
    ensures IsNearest(Exact(v, s), r)
  {
    hide Pow2, Num, Den, Round, Decode, Binade, TwoTo, UnitsOf, Pack, NoneNearer, Overflow;
    if v == 0 {
      NearestZero(s);
    } else {
      var ex :| Binade(v, 2, s, ex) && BitsOf(Pack(UnitsOf(v, 2, s, Unit(ex), RNDN), ex), r);
      var k := UnitsOf(v, 2, s, Unit(ex), RNDN);
      UnitsOfFit(v, s, ex);
      PackedValue(k, ex);
      NearestReal(v, s, ex);
      OverflowsFrom(v, s, ex);
      NoMantissa(k, ex);
      DecodeZero();
    }
  }

  lemma DecodeZero()
    ensures Decode(0).0 == 0
  {
    hide Pow2, BitLen;
  }

  lemma NearestZero(s: int)
    ensures Exact(0, s) < Overflow() && NoneNearer(Exact(0, s), 0.0)
  {
    hide TwoTo;
  }

  lemma UnitsOfFit(v: nat, s: int, ex: int)
    requires Binade(v, 2, s, ex)
    ensures var k, prec := UnitsOf(v, 2, s, Unit(ex), RNDN), Prec(ex);
            (prec >= 0 ==> k <= Pow2(prec)) && (prec >= 1 ==> Pow2(prec - 1) <= k) && (prec < 0 ==> k == 0)
  {
    hide Pow2, Num, Den, Round, Binade;
    BinadeUnits(v, 2, s, ex);
    UnitsFit(Num(v, -Unit(ex), 2, s), Den(-Unit(ex), 2, s), Prec(ex), RNDN);
  }

  /** Only nothing packs to a zero mantissa, and nothing overflows then. */
  lemma NoMantissa(k: nat, ex: int)
    requires var prec := Prec(ex);
             (prec >= 0 ==> k <= Pow2(prec)) && (prec >= 1 ==> Pow2(prec - 1) <= k) && (prec < 0 ==> k == 0)
    ensures Pack(k, ex).0 == 0 ==> Pack(k, ex).1 <= 1024 && DoubleValue(Pack(k, ex).0, Pack(k, ex).1) == 0.0
  {
    hide TwoTo, Pow2;
    PackValue(k, ex);
  }

  // ----- the conversion -----

  /** The number `extra` says whether the digits cut off are all zero. */
  lemma CutOff(ds: seq<nat>, bits: nat, count: nat)
    requires AreDigits(ds, bits) && count <= |ds|
    ensures var num, den := Horner(ds, bits), RadixTo(bits, |ds| - count);
            num / den == Horner(ds[..count], bits) && num % den == Horner(ds[count..], bits)
  {
    hide Horner, RadixTo;
    HornerSplit(ds, bits, count);
    DivUnique(Horner(ds, bits), RadixTo(bits, |ds| - count), Horner(ds[..count], bits), Horner(ds[count..], bits));
  }

  /** How many bits the first digits have. */
  lemma FirstBits(ds: seq<nat>, bits: nat, count: nat)
    requires AreDigits(ds, bits) && 0 < count <= |ds| && ds[0] != 0
    ensures var a := Sticky(Horner(ds, bits), RadixTo(bits, |ds| - count));
            a > 0 && bits * (count - 1) < BitLen(a) <= bits * count
  {
    hide Horner, Pow, Pow2, BitLen;
    var first := ds[..count];
    CutOff(ds, bits, count);
    HornerLow(first, bits);
    HornerBound(first, bits);
    var q := Horner(first, bits);
    var a := Sticky(Horner(ds, bits), RadixTo(bits, |ds| - count));
    BitLenBounds(a);
    StickyFits(q, a, bits * count);
    if BitLen(a) <= bits * (count - 1) {
      MonoPow2(BitLen(a), bits * (count - 1));
    }
    if BitLen(a) > bits * count {
      MonoPow2(bits * count, BitLen(a) - 1);
    }
  }

  /** Setting the last bit does not make a number longer. */
  lemma StickyFits(q: nat, a: nat, n: nat)
    requires q < Pow2(n) && q > 0 && (a == q || (a == q + 1 && q % 2 == 0))
    ensures a < Pow2(n)
  {
    if n > 0 {
      assert Pow2(n) % 2 == 0;
    }
  }

  /** js_atod for radix 2^bits: the significant digits `ds`, of which `intDigits` come before the point,
      and an exponent to the radix or to base two. */
  method ParseDigits(a: BigNum, ds: seq<nat>, bits: nat, intDigits: int, expn: int, isBinExp: bool) returns (r: nat)
    requires 1 <= bits <= 5 && AreDigits(ds, bits) && (ds != [] ==> ds[0] != 0) && a.tab.Length >= LIMBS
    modifies a, a.tab
    ensures NearestBits(Horner(ds, bits), (if isBinExp then expn else expn * bits) - (|ds| - intDigits) * bits, r)
    ensures IsNearest(Exact(Horner(ds, bits), (if isBinExp then expn else expn * bits) - (|ds| - intDigits) * bits), r)
  {
    hide IsNearest, Exact;
    hide Val, Pow, Pow2, Normal, Horner, Sticky, BitLen, NearestBits, ToBits, Decode, Shifted, MaxParsed, UnitsOf, Binade;
    var count, extra := Accumulate(a, ds, bits);
    if count == 0 {
      NothingParsed(ds, bits);
      NearestBitsMeans(0, (if isBinExp then expn else expn * bits) - (|ds| - intDigits) * bits, 0);
      return 0;
    }
    ghost var v, cut := Horner(ds, bits), |ds| - count;
    ghost var t := bits * cut;
    CutOff(ds, bits, count);
    MarkRest(a, extra, v, RadixTo(bits, cut));
    var exp := (if isBinExp then expn else expn * bits) - (count - intDigits) * bits;
    ghost var s := exp - t;
    HornerLow(ds, bits);
    Distribute(|ds|, count, intDigits, bits);
    var exp1 := exp + count * bits;
    ghost var n := BitLen(a.Value());
    FirstBits(ds, bits, count);
    ParsedBits(ds, bits, count, a.Value());
    TwoBinade(v, t, s);
    RoundedBits(v, s, n + exp);
    if exp1 >= 1024 + bits {
      NearestBitsMeans(v, s, INFINITY_BITS);
      return INFINITY_BITS;
    }
    if exp1 <= -1075 {
      NearestBitsMeans(v, s, 0);
      return 0;
    }
    TwoRounds(v, t, s, Unit(n + exp), RNDN);
    var m, e := RoundToD(a, -exp, RNDN);
    r := ToBits(m, e);
    NearestBitsMeans(v, s, r);
  }

  lemma Distribute(len: int, count: int, intDigits: int, bits: int)
    ensures (len - intDigits) * bits == (count - intDigits) * bits + bits * (len - count)
    ensures count * bits == bits * (count - 1) + bits
  {
  }

  lemma NothingParsed(ds: seq<nat>, bits: nat)
    requires ds == []
    ensures Horner(ds, bits) == 0 && forall s :: NearestBits(Horner(ds, bits), s, 0)
  {
  }

  /** With digits cut off there are enough bits left to round. */
  lemma ParsedBits(ds: seq<nat>, bits: nat, count: nat, a: nat)
    requires 1 <= bits <= 5 && count == if |ds| < MaxParsed(bits) then |ds| else MaxParsed(bits)
    requires bits * (count - 1) < BitLen(a)
    ensures |ds| == count || BitLen(a) >= 56
    ensures |ds| == count ==> bits * (|ds| - count) == 0
  {
    hide BitLen, Pow2, Horner;
  }

  // ----- printing and parsing -----

  /** Digits that the free format finds for a double are parsed back to the bits of that double. */
  lemma PrintThenParse(v: nat, bits: nat, g: int, m: nat, e: int, r: nat)
    requires v > 0 && IsDouble(m, e) && e <= 1024 && ConvertsTo(v, Pow2(bits), g, m, e)
    requires NearestBits(v, g * bits, r)
    ensures r < INFINITY_BITS && Decode(r) == (m, e)
  {
    hide Num, Den, Pow2, Round, Pack, Decode, IsDouble;
    DoubleMantissa(m, e);
    var ex :| Binade(v, Pow2(bits), g, ex) && (m, e) == Pack(UnitsOf(v, Pow2(bits), g, Unit(ex), RNDN), ex);
    var ex' :| Binade(v, 2, g * bits, ex') && BitsOf(Pack(UnitsOf(v, 2, g * bits, Unit(ex'), RNDN), ex'), r);
    SameRadix(v, -ex, bits, g);
    SameRadix(v, 1 - ex, bits, g);
    SameRadix(v, -Unit(ex), bits, g);
    BinadeUnique(v, 2, g * bits, ex, ex');
  }
}
