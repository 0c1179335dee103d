/** The free format of js_dtoa: the search for few digits that convert back. */
module FreeFormat {
  import opened Rounding
  import opened Bits
  import opened Limbs
  import opened Powers
  import opened BigNum
  import opened MulPow
  import opened ExactScale
  import opened RoundDouble
  import opened RoundTrip
  import opened ShortDigits
  import opened DtoaRoom
  import opened LogEstimate

  // ----- the double -----

  /** The mantissa and the exponent that js_dtoa takes from the bits of a finite, nonzero double. */
  function Decode(bits: nat): (me: (nat, int))
    requires bits < U64
  {
    var e, m := bits / P52 % 0x800, bits % P52;
    if e == 0 then
      // clz64(m) - 11
      var l := 53 - BitLen(m);
      (m * Pow2(if l >= 0 then l else 0), e - (l - 1) - 1022)
    else
      (m + P52, e - 1022)
  }

  /** They stand for a double with a normalised mantissa, also if it is subnormal. */
  lemma DecodeIsDouble(bits: nat)
    requires bits < U64
    requires bits / P52 % 0x800 != 0x7ff && (bits / P52 % 0x800 != 0 || bits % P52 != 0)
    ensures var (m, e) := Decode(bits);
            IsDouble(m, e) && -1073 <= e <= 1024
  {
    hide Pow2, BitLen;
    var e, m := bits / P52 % 0x800, bits % P52;
    if e == 0 {
      Normalise(m);
    }
  }

  /** Shifting a subnormal mantissa up to 53 bits. */
  lemma Normalise(m: nat)
    requires 0 < m < P52
    ensures var l := 53 - BitLen(m);
            1 <= l <= 52 && P52 <= m * Pow2(l) < P53 && m * Pow2(l) % Pow2(l) == 0
  {
    hide Pow, Pow2, BitLen;
    PowersAre();
    BitLenBounds(m);
    var n := BitLen(m);
    if n > 52 {
      MonoPow2(52, n - 1);
    }
    var l := 53 - n;
    PowSum(n, l);
    PowSum(n - 1, l);
    MulMono(Pow2(n - 1), m, Pow2(l));
    MulLess(Pow2(l), m, Pow2(n));
    DivUnique(m * Pow2(l), Pow2(l), m, 0);
  }

  // ----- one candidate -----

  /** The double with P digits. */
  method FindDigits(a: BigNum, m: nat, e: int, radix: nat, r1: nat, rs: nat, E0: int, P: nat) returns (v: nat, E: int)
    requires Splits(radix, r1, rs) && P52 <= m < P53 && -1073 <= e <= 1024 && FloorLog(E0, e, radix)
    requires 0 < P <= MaxDigits(radix) && a.tab.Length >= LIMBS
    modifies a, a.tab
    ensures a.Valid() && (v, E) == Digits(m, e, radix, E0, P)
  {
    hide Num, Den, Round, Pow, Pow2, FloorLog, MaxDigits, RoundRoom;
    DigitsInRange(m, e, radix, E0, P);
    MantissaBound(radix, P);
    RoundingFits(radix, r1, rs, m, e, E0, P, P - E0);
    RoundingFits(radix, r1, rs, m, e, E0, P, P - E0 - 1);
    var top := PowUi(radix, P);
    Small(Pow(radix, P), U64);
    E := E0;
    MulPowRound(a, m, e - 53, r1, rs, P - E, RNDN);
    v := a.GetU64();
    Small(a.Value(), U64);
    while v >= top
      invariant a.Valid()
      invariant E == E0 || E == E0 + 1
      invariant v == Rounded(m, e, radix, P - E)
      invariant E == E0 + 1 ==> Rounded(m, e, radix, P - E0) >= top
      decreases E0 + 1 - E
    {
      assert E == E0;
      E := E + 1;
      MulPowRound(a, m, e - 53, r1, rs, P - E, RNDN);
      v := a.GetU64();
      Small(a.Value(), U64);
    }
  }

  lemma MantissaBound(radix: nat, P: nat)
    requires 2 <= radix <= 36 && P <= MaxDigits(radix)
    ensures 2 * Pow(radix, P) < U64
  {
    hide Pow;
    MaxDigitsSuffice(radix);
    PowMono(radix, P, MaxDigits(radix));
  }

  /** Drops the zeros at the end of the mantissa. */
  method DropTrailingZeros(v: nat, radix: nat, P: nat) returns (v1: nat, P1: nat)
    requires radix >= 2 && 0 < v < Pow(radix, P)
    ensures 0 < P1 <= P && v == v1 * Pow(radix, P - P1) && v1 % radix != 0 && 0 < v1 < Pow(radix, P1)
  {
    hide Pow;
    v1, P1 := v, P;
    PowBasics(radix);
    while v1 % radix == 0
      invariant 0 < P1 <= P && v == v1 * Pow(radix, P - P1) && 0 < v1 < Pow(radix, P1)
      decreases v1
    {
      NextPower(radix, P - P1 + 1);
      NextPower(radix, P1);
      OneZero(v1, radix, v1 / radix, Pow(radix, P - P1), Pow(radix, P1 - 1));
      v1, P1 := v1 / radix, P1 - 1;
    }
  }

  lemma OneZero(v: nat, r: nat, w: nat, p: nat, q: nat)
    requires r >= 2 && v % r == 0 && w == v / r && 0 < v < r * q
    ensures 0 < w < v && w < q && v * p == w * (r * p) && q != 1
  {
    DivIs(v, r);
    assert (w * r) * p == w * (r * p);
    MulLess(r, w, q);
    if w > 0 {
      MulMono(2, r, w);
    }
  }

  /** Whether digits convert back to the double. */
  method ConvertsBack(a: BigNum, v: nat, radix: nat, r1: nat, rs: nat, g: int, m: nat, e: int) returns (same: bool)
    requires Splits(radix, r1, rs) && 0 < v < U64 && 2 + Room(v, r1, rs, g, false, 55) + 2 <= a.tab.Length
    modifies a, a.tab
    ensures a.Valid() && (same <==> ConvertsTo(v, radix, g, m, e))
  {
    hide Num, Den, Round, Pow, Pow2, Room, Pack, UnitsOf, Binade;
    a.SetU64(v);
    var m1, e1, ex := MulPowRoundToD(a, r1, rs, g, RNDN);
    forall ex' | Binade(v, radix, g, ex')
      ensures ex' == ex
    {
      BinadeUnique(v, radix, g, ex, ex');
    }
    same := m1 == m && e1 == e;
  }

  // ----- the search -----

  /** P digits convert back to the double. */
  ghost predicate Works(m: nat, e: int, radix: nat, E0: int, P: nat)
    requires radix > 0
  {
    var (v, E) := Digits(m, e, radix, E0, P);
    ConvertsTo(v, radix, E - P, m, e)
  }

  /** The mantissa and the exponent with P digits, when `full` digits end in zeros. */
  predicate Shortened(m: nat, e: int, radix: nat, E0: int, full: nat, v: nat, P: nat, E: int)
    requires radix > 0
  {
    P <= full && Digits(m, e, radix, E0, full) == (v * Pow(radix, full - P), E)
  }

  lemma ShortenedWorks(m: nat, e: int, radix: nat, E0: int, full: nat, v: nat, P: nat, E: int)
    requires radix > 0 && Shortened(m, e, radix, E0, full, v, P, E)
    ensures Works(m, e, radix, E0, full) <==> ConvertsTo(v, radix, E - P, m, e)
  {
    hide ConvertsTo, Digits;
    DropZeros(v, radix, E - full, full - P, m, e);
  }

  /** One round of the search: the digits, without the zeros at their end, and whether they convert back. */
  method TryDigits(a: BigNum, m: nat, e: int, radix: nat, r1: nat, rs: nat, E0: int, full: nat)
    returns (v: nat, P: nat, E: int)
    requires Splits(radix, r1, rs) && P52 <= m < P53 && -1073 <= e <= 1024 && FloorLog(E0, e, radix)
    requires 0 < full <= MaxDigits(radix) && a.tab.Length >= LIMBS
    modifies a, a.tab
    ensures a.Valid() && 0 < P <= full && v % radix != 0 && 0 < v < U64 && (E == E0 || E == E0 + 1)
    ensures Shortened(m, e, radix, E0, full, v, P, E)
  {
    hide Num, Den, Round, Pow, Pow2, FloorLog, MaxDigits, Digits, RoundRoom;
    var w;
    w, E := FindDigits(a, m, e, radix, r1, rs, E0, full);
    DigitsInRange(m, e, radix, E0, full);
    v, P := DropTrailingZeros(w, radix, full);
    MantissaBound(radix, P);
  }

  /** The exponent that the search starts from. */
  function Estimate(e: int, radix: nat): int
    requires 2 <= radix <= 36
  {
    1 + MulLog2Radix(e - 1, radix)
  }

  /** The free format. The digits convert back to the double, and the double rounded to one digit less
      does not. */
  method FreeDigits(a: BigNum, m: nat, e: int, radix: nat, r1: nat, rs: nat)
    returns (v: nat, P: nat, E: int, ghost full: nat)
    requires Splits(radix, r1, rs) && IsDouble(m, e) && -1073 <= e <= 1024
    requires a.tab.Length >= LIMBS
    modifies a, a.tab
    ensures a.Valid() && a.Value() == v
    ensures 0 < P <= full <= MaxDigits(radix) && v % radix != 0
    ensures Shortened(m, e, radix, Estimate(e, radix), full, v, P, E)
    ensures ConvertsTo(v, radix, E - P, m, e)
    ensures P == 1 || !Works(m, e, radix, Estimate(e, radix), P - 1)
  {
    hide Num, Den, Round, Pow, Pow2, FloorLog, MaxDigits, Digits, ConvertsTo, Room, Shortened, Works, IsDouble, MulLog2Radix;
    var E0 := Estimate(e, radix);
    EstimateIsFloor(e, radix);
    DoubleMantissa(m, e);
    MaxDigitsConvert(m, e, radix, E0);
    full := MaxDigits(radix);
    WorksMeans(m, e, radix, E0, full);
    v, P, E := TryDigits(a, m, e, radix, r1, rs, E0, MaxDigits(radix));
    ShortenedWorks(m, e, radix, E0, full, v, P, E);
    while P != 1
      invariant a.Valid()
      invariant 0 < P <= full <= MaxDigits(radix) && v % radix != 0 && 0 < v < U64
      invariant Shortened(m, e, radix, E0, full, v, P, E) && ConvertsTo(v, radix, E - P, m, e)
      decreases P
    {
      var v1, P1, E1 := TryDigits(a, m, e, radix, r1, rs, E0, P - 1);
      ConvertingFits(radix, r1, rs, v1, e, E0, P1, E1 - P1);
      var same := ConvertsBack(a, v1, radix, r1, rs, E1 - P1, m, e);
      ShortenedWorks(m, e, radix, E0, P - 1, v1, P1, E1);
      if !same {
        break;
      }
      full := P - 1;
      v, P, E := v1, P1, E1;
    }
    a.SetU64(v);
  }

  lemma WorksMeans(m: nat, e: int, radix: nat, E0: int, P: nat)
    requires radix > 0
    requires var (v, E) := Digits(m, e, radix, E0, P); ConvertsTo(v, radix, E - P, m, e)
    ensures Works(m, e, radix, E0, P)
  {
  }
}
