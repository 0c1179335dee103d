/** Small powers of the radix, from tables or by squaring, and their reciprocals. */
module Powers {
  import opened Rounding
  import opened Bits
  import opened Limbs
  import opened Reciprocal

  /** pow5_table: the low limbs of 5^1 .. 5^17. */
  const POW5: seq<Limb> := [
    0x00000005, 0x00000019, 0x0000007d, 0x00000271,
    0x00000c35, 0x00003d09, 0x0001312d, 0x0005f5e1,
    0x001dcd65, 0x009502f9, 0x02e90edd, 0x0e8d4a51,
    0x48c27395, 0x6bcc41e9, 0x1afd498d, 0x86f26fc1,
    0xa2bc2ec5]

  /** pow5h_table: the high limbs of 5^14 .. 5^17. */
  const POW5H: seq<Limb> := [0x00000001, 0x00000007, 0x00000023, 0x000000b1]

  /** pow5_inv_table: the reciprocals of 5^1 .. 5^13, shifted up to a full limb. */
  const POW5_INV: seq<Limb> := [
    0x99999999, 0x47ae147a, 0x0624dd2f, 0xa36e2eb1,
    0x4f8b588e, 0x0c6f7a0b, 0xad7f29ab, 0x5798ee23,
    0x12e0be82, 0xb7cdfd9d, 0x5fd7fe17, 0x19799812,
    0xc25c2684]

  /** digits_per_limb_table, for 32-bit limbs. */
  const DIGITS_PER_LIMB: seq<nat> := [
    32, 20, 16, 13, 12, 11, 10, 10, 9, 9, 8, 8, 8, 8, 8, 7, 7, 7, 7, 7, 7, 7, 6, 6, 6, 6, 6, 6, 6, 6, 6, 6, 6, 6, 6]

  lemma Pow5Low(b: nat)
    requires 1 <= b <= 17
    ensures POW5[b - 1] + (if b >= 14 then BASE * POW5H[b - 14] else 0) == Pow(5, b)
    ensures b <= 13 ==> Pow(5, b) == POW5[b - 1]
  {
    hide Pow;
    Pow5Small(6);
    PowAdd(5, 6, 6);
    if b <= 6 {
      Pow5Small(b);
    } else if b <= 12 {
      Pow5Small(b - 6);
      PowAdd(5, 6, b - 6);
    } else {
      Pow5Small(b - 12);
      PowAdd(5, 12, b - 12);
    }
  }

  lemma Pow5Small(b: nat)
    requires 1 <= b <= 6
    ensures Pow(5, b) == POW5[b - 1]
  {
    assert Pow(5, 1) == 5 && Pow(5, 2) == 25 && Pow(5, 3) == 125;
    assert Pow(5, 4) == 625 && Pow(5, 5) == 3125 && Pow(5, 6) == 15625;
  }

  lemma ModMul(x: nat, y: nat, m: nat)
    requires m > 0
    ensures (x % m) * (y % m) % m == x * y % m
  {
    var q, r := Quotient(x, m);
    var t, u := Quotient(y, m);
    DivUnique(x, m, q, r);
    DivUnique(y, m, t, u);
    var k, z := Quotient(r * u, m);
    DivUnique(r * u, m, k, z);
    ModProduct(m, q, r, t, u);
    assert (q * t * m + q * u + r * t + k) * m == (q * t * m + q * u + r * t) * m + k * m;
    DivUnique(x * y, m, q * t * m + q * u + r * t + k, z);
  }

  lemma ModProduct(m: nat, q: nat, r: nat, t: nat, u: nat)
    ensures (q * m + r) * (t * m + u) == (q * t * m + q * u + r * t) * m + r * u
  {
    assert (q * m + r) * (t * m + u) == (q * m) * (t * m) + (q * m) * u + r * (t * m) + r * u;
    assert (q * m) * (t * m) == (q * t * m) * m;
    assert (q * m) * u == (q * u) * m && r * (t * m) == (r * t) * m;
    assert (q * t * m + q * u + r * t) * m == (q * t * m) * m + (q * u) * m + (r * t) * m;
  }

  lemma PowBounds(b: nat)
    requires b <= 17
    ensures Pow(5, b) * Pow2(b) == Pow(10, b) && Pow(10, b) < U64 && Pow(5, b) < U64
  {
    hide Pow;
    PowMul(5, 2, b);
    PowMono(10, b, 17);
    PowMono(10, 0, b);
    TenBounds();
    MulMono(1, Pow2(b), Pow(5, b));
  }

  lemma TenBounds()
    ensures Pow(10, 17) < U64
  {
    PowAdd(10, 6, 6);
    PowAdd(10, 12, 5);
    assert Pow(10, 5) == 100000 && Pow(10, 6) == 1000000;
  }

  /** pow_ui: a^b modulo 2^64, by squaring from the high bits of the exponent. */
  method PowUi(a: Limb, b: Limb) returns (r: nat)
    ensures r == Pow(a, b) % U64
  {
    hide Pow2;
    PowBasics(a);
    if b == 0 {
      return 1;
    }
    if b == 1 {
      Small(a, U64);
      return a;
    }
    if (a == 5 || a == 10) && b <= 17 {
      r := FromTable(a, b);
      return;
    }
    r := BySquaring(a, b);
  }

  /** The product of two 64-bit numbers, with wrap-around. */
  function MulWrap(x: nat, y: nat): (z: nat)
    ensures z < U64
  {
    x * y % U64
  }

  /** b >> i. */
  function High(b: nat, i: nat): nat
  {
    b / Pow2(i)
  }

  /** The loop of pow_ui. */
  method BySquaring(a: Limb, b: Limb) returns (r: nat)
    requires b > 0
    ensures r == Pow(a, b) % U64
  {
    hide Pow, Pow2, MulWrap, High;
    PowBasics(a);
    Small(a, U64);
    r := a;
    var i := BitLen(b) - 1;
    TopBit(b);
    while i > 0
      invariant i >= 0
      invariant r == Pow(a, High(b, i)) % U64
    {
      i := i - 1;
      NextBit(b, i);
      SquareStep(a, High(b, i + 1));
      r := MulWrap(r, r);
      if High(b, i) % 2 == 1 {
        r := MulWrap(r, a);
      }
    }
    HighZero(b);
  }

  lemma HighZero(b: nat)
    ensures High(b, 0) == b
  {
    DivUnique(b, 1, b, 0);
  }

  lemma SquareStep(a: Limb, k: nat)
    ensures var r := Pow(a, k) % U64;
            MulWrap(r, r) == Pow(a, 2 * k) % U64 && MulWrap(MulWrap(r, r), a) == Pow(a, 2 * k + 1) % U64
  {
    hide Pow;
    PowBasics(a);
    PowAdd(a, k, k);
    PowAdd(a, 2 * k, 1);
    Small(a, U64);
    ModMul(Pow(a, k), Pow(a, k), U64);
    ModMul(Pow(a, 2 * k), a, U64);
  }

  /** The part of pow_ui that looks powers of five and ten up. */
  method FromTable(a: Limb, b: Limb) returns (r: nat)
    requires (a == 5 || a == 10) && 2 <= b <= 17
    ensures r == Pow(a, b) % U64
  {
    hide Pow, Pow2;
    Pow5Low(b);
    PowBounds(b);
    r := POW5[b - 1];
    if b >= 14 {
      BaseIsPower();
      OrIsSum(POW5H[b - 14], LIMB_BITS, r);
      OrSym(POW5H[b - 14] * BASE, r);
      r := Or(r, POW5H[b - 14] * BASE);
    }
    if a == 10 {
      r := r * Pow2(b) % U64;
    } else {
      Small(r, U64);
    }
  }

  lemma Small(x: nat, m: nat)
    requires x < m
    ensures x % m == x
  {
  }

  lemma PowBasics(a: nat)
    ensures Pow(a, 0) == 1 && Pow(a, 1) == a
  {
    assert Pow(a, 1) == a * Pow(a, 0);
  }

  lemma TopBit(b: nat)
    requires b > 0
    ensures BitLen(b) > 0 && High(b, BitLen(b) - 1) == 1
  {
    BitLenBounds(b);
    var p := Pow2(BitLen(b) - 1);
    assert Pow2(BitLen(b)) == 2 * p;
    DivUnique(b, p, 1, b - p);
  }

  lemma NextBit(b: nat, i: nat)
    ensures High(b, i) == 2 * High(b, i + 1) + High(b, i) % 2
  {
    DivDiv(b, Pow2(i), 2);
    assert Pow2(i + 1) == Pow2(i) * 2;
  }

  // ----- reciprocals -----

  /** A normalised divisor: d shifted up so that its top bit is set. */
  ghost predicate Normalised(d: nat, r: Limb, inv: Limb, shift: nat)
  {
    shift < LIMB_BITS && r == d * Pow2(shift) && r >= HALF && inv == Init(r)
  }

  lemma NormaliseFits(d: nat)
    requires 0 < d < BASE
    ensures var shift := LIMB_BITS - BitLen(d);
            0 <= shift < LIMB_BITS && HALF <= d * Pow2(shift) < BASE
  {
    hide Pow, Pow2, BitLen;
    BitLenBounds(d);
    BaseIsPower();
    var n := BitLen(d);
    if n > LIMB_BITS {
      MonoPow2(LIMB_BITS, n - 1);
    }
    var p := Pow2(LIMB_BITS - n);
    PowSum(n, LIMB_BITS - n);
    PowSum(n - 1, LIMB_BITS - n);
    PowSum(1, LIMB_BITS - 1);
    PowOne();
    MulMono(Pow2(n - 1), d, p);
    MulLess(p, d, Pow2(n));
  }

  /** The highest bit of a number that fills a limb when it is shifted up. */
  lemma ShiftIs(d: nat, shift: nat, p: nat)
    requires shift < LIMB_BITS && p == Pow2(shift) && HALF <= d * p < BASE
    ensures BitLen(d) == LIMB_BITS - shift
  {
    hide Pow, BitLen;
    var n := LIMB_BITS - shift;
    BaseIsPower();
    PowAdd(2, n, shift);
    PowAdd(2, n - 1, shift);
    PowAdd(2, 1, LIMB_BITS - 1);
    PowBasics(2);
    MulLess(p, d, Pow2(n));
    MulLess(p, d, Pow2(n - 1));
    BitLenIs(d, n);
  }

  lemma InverseEntry(d: nat, shift: nat, p: nat, inv: nat)
    requires shift < LIMB_BITS && p == Pow2(shift) && HALF <= d * p < BASE
    requires 0 <= U64 - 1 - (inv + BASE) * (d * p) < d * p
    ensures LIMB_BITS - BitLen(d) == shift && Init(d * p) == inv
  {
    hide BitLen, Pow2;
    ShiftIs(d, shift, p);
    DivUnique(U64 - 1, d * p, inv + BASE, U64 - 1 - (inv + BASE) * (d * p));
  }

  lemma PowersOfTwo()
    ensures Pow2(1) == 0x2 && Pow2(4) == 0x10 && Pow2(6) == 0x40 && Pow2(8) == 0x100
    ensures Pow2(11) == 0x800 && Pow2(13) == 0x2000 && Pow2(15) == 0x8000 && Pow2(18) == 0x4_0000
    ensures Pow2(20) == 0x10_0000 && Pow2(22) == 0x40_0000 && Pow2(25) == 0x200_0000
    ensures Pow2(27) == 0x800_0000 && Pow2(29) == 0x2000_0000
  {
    hide Pow;
    TwoBasics();
    PowAdd(2, 4, 2);
    PowAdd(2, 4, 4);
    PowAdd(2, 8, 3);
    PowAdd(2, 11, 2);
    PowAdd(2, 11, 4);
    PowAdd(2, 11, 3);
    PowAdd(2, 15, 3);
    PowAdd(2, 18, 2);
    PowAdd(2, 18, 4);
    PowAdd(2, 22, 3);
    PowAdd(2, 25, 2);
    PowAdd(2, 25, 4);
  }

  lemma TwoBasics()
    ensures Pow(2, 1) == 2 && Pow(2, 2) == 4 && Pow(2, 3) == 8 && Pow(2, 4) == 16
  {
  }

  lemma InverseLow(b: nat)
    requires 1 <= b <= 6
    ensures var d := POW5[b - 1];
            BitLen(d) <= LIMB_BITS && var r := d * Pow2(LIMB_BITS - BitLen(d));
            HALF <= r < BASE && POW5_INV[b - 1] == Init(r)
  {
    hide BitLen, Init, Pow2;
    PowersOfTwo();
    match b {
      case 1 => InverseEntry(5, 29, 0x20000000, 0x99999999);
      case 2 => InverseEntry(25, 27, 0x8000000, 0x47ae147a);
      case 3 => InverseEntry(125, 25, 0x2000000, 0x624dd2f);
      case 4 => InverseEntry(625, 22, 0x400000, 0xa36e2eb1);
      case 5 => InverseEntry(3125, 20, 0x100000, 0x4f8b588e);
      case 6 => InverseEntry(15625, 18, 0x40000, 0xc6f7a0b);
    }
  }

  lemma InverseHigh(b: nat)
    requires 7 <= b <= 13
    ensures var d := POW5[b - 1];
            BitLen(d) <= LIMB_BITS && var r := d * Pow2(LIMB_BITS - BitLen(d));
            HALF <= r < BASE && POW5_INV[b - 1] == Init(r)
  {
    hide BitLen, Init, Pow2;
    PowersOfTwo();
    match b {
      case 7 => InverseEntry(78125, 15, 0x8000, 0xad7f29ab);
      case 8 => InverseEntry(390625, 13, 0x2000, 0x5798ee23);
      case 9 => InverseEntry(1953125, 11, 0x800, 0x12e0be82);
      case 10 => InverseEntry(9765625, 8, 0x100, 0xb7cdfd9d);
      case 11 => InverseEntry(48828125, 6, 0x40, 0x5fd7fe17);
      case 12 => InverseEntry(244140625, 4, 0x10, 0x19799812);
      case 13 => InverseEntry(1220703125, 1, 0x2, 0xc25c2684);
    }
  }

  /** pow_ui_inv: a^b as a normalised divisor with its reciprocal. */
  method PowUiInv(a: Limb, b: Limb) returns (r: Limb, inv: Limb, shift: nat)
    requires 0 < Pow(a, b) < BASE
    ensures Normalised(Pow(a, b), r, inv, shift)
  {
    hide Pow, Pow2, Init, BitLen;
    if a == 5 && 1 <= b <= 13 {
      Pow5Low(b);
      if b <= 6 {
        InverseLow(b);
      } else {
        InverseHigh(b);
      }
      NormaliseFits(POW5[b - 1]);
      r := POW5[b - 1];
      shift := LIMB_BITS - BitLen(r);
      r := r * Pow2(shift);
      inv := POW5_INV[b - 1];
    } else {
      var p := PowUi(a, b);
      Small(Pow(a, b), U64);
      Small(p, BASE);
      r := p % BASE;
      NormaliseFits(r);
      shift := LIMB_BITS - BitLen(r);
      r := r * Pow2(shift);
      inv := Init(r);
    }
  }
}
