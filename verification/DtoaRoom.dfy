/** The 52 limbs of js_dtoa's scratch number are enough for every double and radix. */
module DtoaRoom {
  import opened Rounding
  import opened Bits
  import opened Limbs
  import opened Powers
  import opened BigNum
  import opened MulPow
  import opened ExactScale
  import opened RoundDouble
  import opened RoundTrip
  import opened ShortDigits

  /** DBIGNUM_LEN_MAX. */
  const LIMBS: nat := 52

  /** A radix and its odd part. */
  predicate Splits(radix: nat, r1: nat, rs: nat)
  {
    2 <= radix <= 36 && OddPart(r1) && radix == r1 * Pow2(rs)
  }

  // ----- a limb holds at least 27 bits of digits -----

  lemma LimbFilled(r1: nat)
    requires OddPart(r1) && r1 != 1
    ensures Pow2(27) <= Pow(r1, PerLimb(r1))
  {
    hide Pow;
    PowersOfTwo();
    if r1 <= 9 {
      LowPowers();
      PowAdd(r1, 5, 5);
      PowAdd(r1, 10, PerLimb(r1) - 10);
    } else if r1 <= 21 {
      FilledMiddle(r1);
    } else {
      FilledHigh(r1);
    }
  }

  lemma FilledMiddle(r1: nat)
    requires OddPart(r1) && 11 <= r1 <= 21
    ensures 0x800_0000 <= Pow(r1, PerLimb(r1))
  {
    PowAdd(r1, 4, PerLimb(r1) - 4);
    assert Pow(11, 4) == 14641 && Pow(11, 5) == 161051;
    assert Pow(13, 4) == 28561;
    assert Pow(15, 4) == 50625;
    assert Pow(17, 4) == 83521 && Pow(17, 3) == 4913;
    assert Pow(19, 4) == 130321 && Pow(19, 3) == 6859;
    assert Pow(21, 4) == 194481 && Pow(21, 3) == 9261;
  }

  lemma FilledHigh(r1: nat)
    requires OddPart(r1) && 23 <= r1 <= 35
    ensures 0x800_0000 <= Pow(r1, PerLimb(r1))
  {
    PowAdd(r1, 3, PerLimb(r1) - 3);
    assert Pow(23, 3) == 12167 && Pow(23, 4) == 279841;
    assert Pow(25, 3) == 15625;
    assert Pow(27, 3) == 19683;
    assert Pow(29, 3) == 24389;
    assert Pow(31, 3) == 29791;
    assert Pow(33, 3) == 35937;
    assert Pow(35, 3) == 42875;
  }

  lemma FewerThan(k: nat, d: nat)
    requires d > 0 && k > 0
    ensures Chunks(k, d) >= 1 && d * (Chunks(k, d) - 1) < k
  {
    var q, r := Quotient(k + d - 1, d);
    DivUnique(k + d - 1, d, q, r);
    if q == 0 {
      assert false;
    }
    assert d * (q - 1) == q * d - d;
  }

  /** A power below 2^n takes at most n / 27 + 1 chunks. */
  lemma FewChunks(r1: nat, k: nat, n: nat)
    requires OddPart(r1) && r1 != 1 && Pow(r1, k) < Pow2(n)
    ensures 27 * (Chunks(k, PerLimb(r1)) - 1) < n || k == 0
    ensures k == 0 ==> Chunks(k, PerLimb(r1)) == 0
  {
    hide Pow, Pow2, PerLimb, Chunks;
    var d := PerLimb(r1);
    if k > 0 {
      FewerThan(k, d);
      var c := Chunks(k, d) - 1;
      LimbFilled(r1);
      PowBase(Pow2(27), Pow(r1, d), c);
      TwoPower(27, c);
      PowPow(r1, d, c);
      PowMono(r1, d * c, k);
      if 27 * c >= n {
        MonoPow2(n, 27 * c);
      }
    } else {
      NoChunks(d);
    }
  }

  lemma TwoPower(m: nat, n: nat)
    ensures Pow(Pow2(m), n) == Pow2(m * n)
  {
    PowPow(2, m, n);
  }

  lemma NoChunks(d: nat)
    requires d > 0
    ensures Chunks(0, d) == 0
  {
    DivUnique(d - 1, d, 0, d - 1);
  }

  // ----- how large the powers get -----

  lemma LessByPower(a: nat, b: nat)
    requires Pow2(a) < Pow2(b)
    ensures a < b
  {
    if a >= b {
      MonoPow2(b, a);
    }
  }

  /** Powers of the radix that scale a double up to P digits. */
  lemma UpPower(radix: nat, e: int, E0: int, P: nat, f: nat)
    requires 2 <= radix <= 36 && -1073 <= e && FloorLog(E0, e, radix) && P <= MaxDigits(radix) && f <= P - E0
    ensures Pow(radix, f) < Pow2(1137)
  {
    hide Pow, Pow2, MaxDigits;
    MaxDigitsSuffice(radix);
    PowMono(radix, P, MaxDigits(radix));
    SixtyThree();
    if E0 >= 0 {
      PowMono(radix, f, P);
      MonoPow2(63, 1137);
    } else {
      var k := -E0;
      TinyExponent(radix, e, k);
      PowMono(radix, f, P + k);
      PowAdd(radix, P, k);
      PowSum(63, 1074);
      ProductLess(Pow(radix, P), Pow2(63), Pow(radix, k), Pow2(1074));
    }
  }

  lemma SixtyThree()
    ensures Pow2(63) == P63
  {
    hide Pow;
    PowersAre();
    PowSum(53, 10);
    PowSum(8, 2);
    PowersOfTwo();
    PowSum(1, 1);
  }

  lemma ProductLess(a: nat, b: nat, c: nat, d: nat)
    requires a < b && c < d
    ensures a * c < b * d
  {
    MulMono(a, b, c);
    MulLess(b, c, d);
  }

  lemma TinyExponent(radix: nat, e: int, k: int)
    requires 2 <= radix && -1073 <= e && FloorLog(-k, e, radix) && k > 0
    ensures Pow(radix, k) < Pow2(1074)
  {
    hide Pow, Pow2;
    PowBasics(radix);
    var p, q := Pow2(Pos(e - 1)), Pow2(Pos(1 - e));
    assert p * Pow(radix, k) < q;
    MulMono(1, p, Pow(radix, k));
    MonoPow2(Pos(1 - e), 1074);
  }

  /** Powers of the radix that scale a double down. */
  lemma DownPower(radix: nat, e: int, E0: int, g: nat)
    requires 2 <= radix <= 36 && e <= 1024 && FloorLog(E0, e, radix) && 0 < g <= E0
    ensures Pow(radix, g) < Pow2(1029)
  {
    hide Pow, Pow2;
    PowBasics(radix);
    PowMono(radix, g, E0);
    NextPower(radix, E0);
    var p, q, w := Pow2(Pos(e - 1)), Pow2(Pos(1 - e)), Pow(radix, E0 - 1);
    assert q * w <= p;
    MulMono(1, q, w);
    MonoPow2(Pos(e - 1), 1023);
    PowSum(6, 1023);
    PowersOfTwo();
    MulMono(radix, 36, w);
  }

  /** The bits that mul_pow adds before dividing are enough: at most twelve more are wanted. */
  lemma FewExtraBits(radix: nat, r1: nat, rs: nat, e: int, E0: int, P: nat, g: nat)
    requires Splits(radix, r1, rs) && r1 != 1 && FloorLog(E0, e, radix) && P <= MaxDigits(radix)
    requires 0 < g && E0 - P <= g && E0 >= 0
    ensures e - 51 - (g * rs + LIMB_BITS * Chunks(g, PerLimb(r1))) <= 12
  {
    hide Pow, Pow2, MaxDigits, Chunks, PerLimb;
    var c := Chunks(g, PerLimb(r1));
    MaxDigitsSuffice(radix);
    SixtyThree();
    PowBasics(radix);
    if e >= 1 {
      PowOne();
      assert Pow2(e - 1) < Pow(radix, E0);
      PowMono(radix, E0, P + g);
      PowAdd(radix, P, g);
      PowMono(radix, P, MaxDigits(radix));
      RadixPower(r1, rs, g);
      ChunksBound(r1, g);
      PowSum(LIMB_BITS * c, rs * g);
      MulMono(Pow(r1, g), Pow2(LIMB_BITS * c), Pow2(rs * g));
      var s := LIMB_BITS * c + rs * g;
      PowSum(63, s);
      MulMono(Pow(radix, P), Pow2(63), Pow(radix, g));
      MulMono(Pow(radix, g), Pow2(s), Pow2(63));
      LessByPower(e - 1, 63 + s);
    }
  }

  /** The rounded number has at most 64 bits, so little is shifted up at the end. */
  lemma FewShifted(radix: nat, r1: nat, rs: nat, m: nat, e: int, E0: int, P: nat, f: int)
    requires Splits(radix, r1, rs) && P52 <= m < P53 && FloorLog(E0, e, radix) && 0 < P <= MaxDigits(radix)
    requires f <= P - E0 && (r1 == 1 || f >= 0)
    ensures e - 53 + f * rs < 12
  {
    hide Pow, Pow2, MaxDigits, FloorLog;
    var f0 := P - E0;
    DigitBounds(m, e, radix, E0, P);
    MaxDigitsSuffice(radix);
    PowMono(radix, P, MaxDigits(radix));
    SixtyThree();
    PowersAre();
    PowSum(1, 63);
    PowOne();
    MulMono(f, f0, rs);
    PowBasics(radix);
    var n, d := Num(m, e - 53, radix, f0), Den(e - 53, radix, f0);
    if f0 >= 0 {
      RadixPower(r1, rs, f0);
      UpBits(m, Pow2(Pos(e - 53)), Pow(radix, f0), Pow(r1, f0), Pow2(rs * f0));
      PowSum(Pos(e - 53), rs * f0);
      TopBits'(n, d, 2 * Pow(radix, P), Pos(e - 53) + rs * f0, Pos(53 - e));
    } else {
      PowOfOneIs(-f0);
      RadixPower(r1, rs, -f0);
      PowSum(Pos(53 - e), rs * -f0);
      MulMono(P52, m, Pow2(Pos(e - 53)));
      TopBits'(n, d, 2 * Pow(radix, P), Pos(e - 53), Pos(53 - e) + rs * -f0);
    }
  }

  lemma UpBits(m: nat, x: nat, y: nat, w: nat, z: nat)
    requires m >= P52 && y == w * z && w > 0
    ensures P52 * (x * z) <= m * x * y
  {
    MulMono(1, w, z);
    MulMono(z, y, x);
    MulMono(P52, m, x * y);
    assert m * x * y == m * (x * y);
    MulMono(x * z, x * y, P52);
  }

  lemma TopBits'(n: nat, d: nat, top: nat, a: nat, b: nat)
    requires n < top * d && top < Pow2(64) && P52 * Pow2(a) <= n && d == Pow2(b)
    ensures a < b + 12
  {
    hide Pow2;
    PowersAre();
    PowSum(52, a);
    PowSum(64, b);
    MulMono(top, Pow2(64), d);
    LessByPower(52 + a, 64 + b);
  }

  // ----- the two calls -----

  /** Rounding a double to P digits fits. */
  lemma RoundingFits(radix: nat, r1: nat, rs: nat, m: nat, e: int, E0: int, P: nat, f: int)
    requires Splits(radix, r1, rs) && P52 <= m < P53 && -1073 <= e <= 1024 && FloorLog(E0, e, radix)
    requires 0 < P <= MaxDigits(radix) && (f == P - E0 || f == P - E0 - 1)
    ensures RoundRoom(m, e - 53, r1, rs, f) <= LIMBS
  {
    hide Pow, Pow2, MaxDigits, FloorLog, Chunks, PerLimb;
    if r1 == 1 || f >= 0 {
      FewShifted(radix, r1, rs, m, e, E0, P, f);
    }
    if r1 != 1 && f >= 0 {
      UpPower(radix, e, E0, P, f);
      OddSmaller(radix, r1, rs, f);
      FewChunks(r1, f, 1137);
    } else if r1 != 1 {
      var g := -f;
      DownPower(radix, e, E0, g);
      OddSmaller(radix, r1, rs, g);
      FewChunks(r1, g, 1029);
      FewExtraBits(radix, r1, rs, e, E0, P, g);
      assert f * rs == -(g * rs);
    }
  }

  lemma OddSmaller(radix: nat, r1: nat, rs: nat, k: nat)
    requires Splits(radix, r1, rs)
    ensures Pow(r1, k) <= Pow(radix, k)
  {
    MulMono(1, Pow2(rs), r1);
    PowBase(r1, radix, k);
  }

  /** Converting digits back fits. */
  lemma ConvertingFits(radix: nat, r1: nat, rs: nat, v: nat, e: int, E0: int, P: nat, g: int)
    requires Splits(radix, r1, rs) && -1073 <= e <= 1024 && FloorLog(E0, e, radix)
    requires 0 < P <= MaxDigits(radix) && (g == E0 - P || g == E0 + 1 - P)
    ensures 2 + Room(v, r1, rs, g, false, 55) + 2 <= LIMBS
  {
    hide Pow, Pow2, MaxDigits, FloorLog, Chunks, PerLimb;
    if r1 != 1 && g > 0 {
      DownPower(radix, e, E0, g);
      OddSmaller(radix, r1, rs, g);
      FewChunks(r1, g, 1029);
    } else if r1 != 1 && g < 0 {
      UpPower(radix, e, E0, P, -g);
      OddSmaller(radix, r1, rs, -g);
      FewChunks(r1, -g, 1137);
    } else if r1 != 1 {
      NoChunks(PerLimb(r1));
    }
  }
}
