/** mul_log2_radix: multiplying by the logarithm of two to a radix, rounded down. */
module LogEstimate {
  import opened Rounding
  import opened Powers
  import opened ExactScale
  import opened RoundDouble
  import opened ShortDigits
  import opened DtoaRoom

  /** 2^24 / log2(radix), for radix from 2 on that are no powers of two. */
  const LOG_TABLE: seq<nat> := [
    0x000000, 0xa1849d, 0x000000, 0x6e40d2, 0x6308c9,
    0x5b3065, 0x000000, 0x50c24e, 0x4d104d, 0x4a0027,
    0x4768ce, 0x452e54, 0x433d00, 0x418677, 0x000000,
    0x3ea16b, 0x3d645a, 0x3c43c2, 0x3b3b9a, 0x3a4899,
    0x39680b, 0x3897b3, 0x37d5af, 0x372069, 0x367686,
    0x35d6df, 0x354072, 0x34b261, 0x342bea, 0x33ac62,
    0x000000, 0x32bfd9, 0x3251dd, 0x31e8d6, 0x318465
  ]

  const LOG_ONE: nat := 0x100_0000

  // ----- comparing powers -----

  /** r^d for one digit, and r^16, written out so that they can be evaluated. */
  function Digit(r: int, d: nat): int
  {
    match d
    case 0 => 1
    case 1 => r
    case 2 => r * r
    case 3 => r * r * r
    case 4 => r * r * r * r
    case 5 => r * r * r * r * r
    case 6 => r * r * r * r * r * r
    case 7 => r * r * r * r * r * r * r
    case 8 => r * r * r * r * r * r * r * r
    case 9 => r * r * r * r * r * r * r * r * r
    case 10 => r * r * r * r * r * r * r * r * r * r
    case 11 => r * r * r * r * r * r * r * r * r * r * r
    case 12 => r * r * r * r * r * r * r * r * r * r * r * r
    case 13 => r * r * r * r * r * r * r * r * r * r * r * r * r
    case 14 => r * r * r * r * r * r * r * r * r * r * r * r * r * r
    case 15 => r * r * r * r * r * r * r * r * r * r * r * r * r * r * r
    case _ => 0
  }

  function Sixteenth(r: int): int
  {
    var a := r * r;
    var b := a * a;
    var c := b * b;
    c * c
  }

  /** 2^(16 * a + b). */
  function TwoPower16(a: nat, b: nat): int
  {
    Sixteenth(if a < 16 then Digit(2, a) else Digit(2, 15) * Digit(2, a - 15)) * Digit(2, b)
  }

  /** e is r^(16 * hi + mid). */
  predicate IsPower(r: nat, hi: nat, mid: nat, e: nat)
  {
    hi < 16 && mid < 16 && e == Sixteenth(Digit(r, hi)) * Digit(r, mid)
  }

  predicate InRange(lo: nat, sa: nat, sb: nat, ta: nat, tb: nat)
  {
    lo < 16 && sa < 31 && sb < 16 && ta < 31 && tb < 16
  }

  /** With r^k for e, s and t in hexadecimal: e <= u * 2^s and u^16 * r^lo < 2^t. */
  predicate Below(r: nat, lo: nat, e: nat, u: nat, sa: nat, sb: nat, ta: nat, tb: nat)
  {
    e <= u * TwoPower16(sa, sb) && Sixteenth(u) * Digit(r, lo) < TwoPower16(ta, tb)
  }

  predicate Above(r: nat, lo: nat, e: nat, u: nat, sa: nat, sb: nat, ta: nat, tb: nat)
  {
    u * TwoPower16(sa, sb) <= e && TwoPower16(ta, tb) < Sixteenth(u) * Digit(r, lo)
  }

  lemma DigitIs(r: nat, d: nat)
    requires d < 16
    ensures Digit(r, d) == Pow(r, d)
  {
    hide Digit;
    DigitZero(r);
    if d > 0 {
      DigitIs(r, d - 1);
      DigitNext(r, d - 1);
    }
  }

  lemma DigitZero(r: int)
    ensures Digit(r, 0) == 1
  {
  }

  lemma DigitNext(r: int, d: nat)
    requires d < 15
    ensures Digit(r, d + 1) == Digit(r, d) * r
  {
  }

  lemma SixteenthIs(r: nat, k: nat)
    ensures Sixteenth(Pow(r, k)) == Pow(r, 16 * k)
  {
    hide Pow;
    var a := Pow(r, k);
    PowAdd(r, k, k);
    PowAdd(r, 2 * k, 2 * k);
    PowAdd(r, 4 * k, 4 * k);
    PowAdd(r, 8 * k, 8 * k);
  }

  lemma PowerIs(r: nat, hi: nat, mid: nat, e: nat)
    requires IsPower(r, hi, mid, e)
    ensures e == Pow(r, 16 * hi + mid)
  {
    hide Pow, Digit, Sixteenth;
    DigitIs(r, mid);
    DigitIs(r, hi);
    SixteenthIs(r, hi);
    PowAdd(r, 16 * hi, mid);
  }

  lemma TwoPowerIs(a: nat, b: nat)
    requires a < 31 && b < 16
    ensures TwoPower16(a, b) == Pow2(16 * a + b)
  {
    hide Pow, Digit, Sixteenth;
    DigitIs(2, b);
    if a < 16 {
      DigitIs(2, a);
    } else {
      DigitIs(2, 15);
      DigitIs(2, a - 15);
      PowAdd(2, 15, a - 15);
    }
    SixteenthIs(2, a);
    PowSum(16 * a, b);
  }

  /** u * 2^s to the sixteenth. */
  lemma ScaledSixteenth(u: nat, s: nat)
    ensures Pow(u * Pow2(s), 16) == Sixteenth(u) * Pow2(16 * s)
  {
    hide Pow, Sixteenth;
    PowMul(u, Pow2(s), 16);
    PowPow(2, s, 16);
    PowBasics(u);
    SixteenthIs(u, 1);
  }

  lemma BelowMeans(r: nat, k: nat, lo: nat, u: nat, s: nat, t: nat)
    requires r > 0 && Pow(r, k) <= u * Pow2(s) && Sixteenth(u) * Pow(r, lo) < Pow2(t)
    ensures Pow(r, 16 * k + lo) < Pow2(16 * s + t)
  {
    hide Pow, Sixteenth;
    ScaledSixteenth(u, s);
    PowPow(r, k, 16);
    PowAdd(r, 16 * k, lo);
    PowSum(16 * s, t);
    PowBase(Pow(r, k), u * Pow2(s), 16);
    MulMono(Pow(r, 16 * k), Sixteenth(u) * Pow2(16 * s), Pow(r, lo));
    Exchange(Sixteenth(u), Pow2(16 * s), Pow(r, lo), Pow2(t));
  }

  lemma AboveMeans(r: nat, k: nat, lo: nat, u: nat, s: nat, t: nat)
    requires r > 0 && u * Pow2(s) <= Pow(r, k) && Pow2(t) < Sixteenth(u) * Pow(r, lo)
    ensures Pow2(16 * s + t) < Pow(r, 16 * k + lo)
  {
    hide Pow, Sixteenth;
    ScaledSixteenth(u, s);
    PowPow(r, k, 16);
    PowAdd(r, 16 * k, lo);
    PowSum(16 * s, t);
    PowBase(u * Pow2(s), Pow(r, k), 16);
    MulMono(Sixteenth(u) * Pow2(16 * s), Pow(r, 16 * k), Pow(r, lo));
    Exchange(Sixteenth(u), Pow2(16 * s), Pow(r, lo), Pow2(t));
  }

  lemma Exchange(u: nat, p: nat, c: nat, q: nat)
    requires p > 0
    ensures u * c < q ==> (u * p) * c < p * q
    ensures q < u * c ==> p * q < (u * p) * c
  {
    assert (u * p) * c == p * (u * c);
  }

  // ----- bounds of the logarithm -----

  /** p / n is near enough to the table. */
  predicate NearLow(mult: nat, p: nat, n: nat)
  {
    var low := mult * n - p * LOG_ONE;
    n > 0 && low * 1023 < LOG_ONE && low * 1074 < LOG_ONE + n
  }

  predicate NearHigh(mult: nat, p: nat, n: nat)
  {
    var high := p * LOG_ONE - mult * n;
    p > 0 && high * 1023 < LOG_ONE + n && high * 1074 < LOG_ONE
  }

  /** p / n is a bound of the logarithm. */
  predicate LowHolds(radix: nat, p: nat, n: nat)
    requires 2 <= radix <= 36
  {
    Pow(radix, p) < Pow2(n) && NearLow(LOG_TABLE[radix - 2], p, n)
  }

  predicate HighHolds(radix: nat, p: nat, n: nat)
    requires 2 <= radix <= 36
  {
    Pow2(n) < Pow(radix, p) && NearHigh(LOG_TABLE[radix - 2], p, n)
  }

  lemma LowFrom(r: nat, hi: nat, mid: nat, lo: nat, e: nat, u: nat, sa: nat, sb: nat, ta: nat, tb: nat, p: nat, n: nat)
    requires 2 <= r <= 36 && IsPower(r, hi, mid, e) && InRange(lo, sa, sb, ta, tb) && Below(r, lo, e, u, sa, sb, ta, tb)
    requires p == 256 * hi + 16 * mid + lo && n == 16 * (16 * sa + sb) + 16 * ta + tb && NearLow(LOG_TABLE[r - 2], p, n)
    ensures LowHolds(r, p, n)
  {
    hide Pow, Digit, Sixteenth, TwoPower16, NearLow;
    PowerIs(r, hi, mid, e);
    DigitIs(r, lo);
    TwoPowerIs(sa, sb);
    TwoPowerIs(ta, tb);
    BelowMeans(r, 16 * hi + mid, lo, u, 16 * sa + sb, 16 * ta + tb);
  }

  lemma HighFrom(r: nat, hi: nat, mid: nat, lo: nat, e: nat, u: nat, sa: nat, sb: nat, ta: nat, tb: nat, p: nat, n: nat)
    requires 2 <= r <= 36 && IsPower(r, hi, mid, e) && InRange(lo, sa, sb, ta, tb) && Above(r, lo, e, u, sa, sb, ta, tb)
    requires p == 256 * hi + 16 * mid + lo && n == 16 * (16 * sa + sb) + 16 * ta + tb && NearHigh(LOG_TABLE[r - 2], p, n)
    ensures HighHolds(r, p, n)
  {
    hide Pow, Digit, Sixteenth, TwoPower16, NearHigh;
    PowerIs(r, hi, mid, e);
    DigitIs(r, lo);
    TwoPowerIs(sa, sb);
    TwoPowerIs(ta, tb);
    AboveMeans(r, 16 * hi + mid, lo, u, 16 * sa + sb, 16 * ta + tb);
  }

  lemma Low3()
    ensures LowHolds(3, 971, 1539)
  {
    hide LowHolds;
    LowFrom(3, 3, 12, 11, 42391158275216203514294433201, 8976677, 4, 8, 24, 3, 971, 1539);
  }

  lemma High3()
    ensures HighHolds(3, 665, 1054)
  {
    hide HighHolds;
    HighFrom(3, 2, 9, 9, 36472996377170786403, 16585998, 2, 9, 24, 14, 665, 1054);
  }

  lemma Low5()
    ensures LowHolds(5, 497, 1154)
  {
    hide LowHolds;
    LowFrom(5, 1, 15, 1, 4656612873077392578125, 16543613, 3, 0, 24, 2, 497, 1154);
  }

  lemma High5()
    ensures HighHolds(5, 146, 339)
  {
    hide HighHolds;
    HighFrom(5, 0, 9, 2, 1953125, 1953125, 0, 0, 21, 3, 146, 339);
  }

  lemma Low6()
    ensures LowHolds(6, 306, 791)
  {
    hide LowHolds;
    LowFrom(6, 1, 3, 2, 609359740010496, 9080168, 1, 10, 23, 7, 306, 791);
  }

  lemma High6()
    ensures HighHolds(6, 359, 928)
  {
    hide HighHolds;
    HighFrom(6, 1, 6, 7, 131621703842267136, 15322783, 2, 1, 25, 0, 359, 928);
  }

  lemma Low7()
    ensures LowHolds(7, 462, 1297)
  {
    hide LowHolds;
    LowFrom(7, 1, 12, 14, 459986536544739960976801, 12767192, 3, 7, 26, 1, 462, 1297);
  }

  lemma High7()
    ensures HighHolds(7, 109, 306)
  {
    hide HighHolds;
    HighFrom(7, 0, 6, 13, 117649, 117649, 0, 0, 19, 2, 109, 306);
  }

  lemma Low9()
    ensures LowHolds(9, 153, 485)
  {
    hide LowHolds;
    LowFrom(9, 0, 9, 9, 387420489, 12106891, 0, 5, 25, 5, 153, 485);
  }

  lemma High9()
    ensures HighHolds(9, 512, 1623)
  {
    hide HighHolds;
    HighFrom(9, 2, 0, 0, 3433683820292512484657849089281, 11361106, 4, 14, 23, 7, 512, 1623);
  }

  lemma Low10()
    ensures LowHolds(10, 497, 1651)
  {
    hide LowHolds;
    LowFrom(10, 1, 15, 1, 10000000000000000000000000000000, 16543613, 4, 15, 24, 3, 497, 1651);
  }

  lemma High10()
    ensures HighHolds(10, 146, 485)
  {
    hide HighHolds;
    HighFrom(10, 0, 9, 2, 1000000000, 15625000, 0, 6, 24, 5, 146, 485);
  }

  lemma Low11()
    ensures LowHolds(11, 37, 128)
  {
    hide LowHolds;
    LowFrom(11, 0, 2, 5, 121, 121, 0, 0, 8, 0, 37, 128);
  }

  lemma High11()
    ensures HighHolds(11, 875, 3027)
  {
    hide HighHolds;
    HighFrom(11, 3, 6, 11, 171871947701161912897410416779483616222663749691203457641, 14699944, 10, 3, 26, 3, 875, 3027);
  }

  lemma Low12()
    ensures LowHolds(12, 306, 1097)
  {
    hide LowHolds;
    LowFrom(12, 1, 3, 2, 319479999370622926848, 9080168, 2, 13, 23, 9, 306, 1097);
  }

  lemma High12()
    ensures HighHolds(12, 53, 190)
  {
    hide HighHolds;
    HighFrom(12, 0, 3, 5, 1728, 1728, 0, 0, 11, 14, 53, 190);
  }

  lemma Low13()
    ensures LowHolds(13, 227, 840)
  {
    hide LowHolds;
    LowFrom(13, 0, 14, 3, 3937376385699289, 14667871, 1, 12, 24, 8, 227, 840);
  }

  lemma High13()
    ensures HighHolds(13, 1145, 4237)
  {
    hide HighHolds;
    HighFrom(13, 4, 7, 9, 12302064898724710532827150598154059319480431430194019567533837617701744247540837, 13925443, 14, 15, 25, 13, 1145, 4237);
  }

  lemma Low14()
    ensures LowHolds(14, 462, 1759)
  {
    hide LowHolds;
    LowFrom(14, 1, 12, 14, 123476695691247935826229781856256, 12767192, 5, 3, 26, 15, 462, 1759);
  }

  lemma High14()
    ensures HighHolds(14, 109, 415)
  {
    hide HighHolds;
    HighFrom(14, 0, 6, 13, 7529536, 7529536, 0, 0, 25, 15, 109, 415);
  }

  lemma Low15()
    ensures LowHolds(15, 290, 1133)
  {
    hide LowHolds;
    LowFrom(15, 1, 2, 2, 1477891880035400390625, 10501054, 2, 15, 23, 13, 290, 1133);
  }

  lemma High15()
    ensures HighHolds(15, 247, 965)
  {
    hide HighHolds;
    HighFrom(15, 0, 15, 7, 437893890380859375, 12744389, 2, 3, 25, 5, 247, 965);
  }

  lemma Low17()
    ensures LowHolds(17, 80, 327)
  {
    hide LowHolds;
    LowFrom(17, 0, 5, 0, 1419857, 1419857, 0, 0, 20, 7, 80, 327);
  }

  lemma High17()
    ensures HighHolds(17, 263, 1075)
  {
    hide HighHolds;
    HighFrom(17, 1, 0, 7, 48661191875666868481, 11064274, 2, 10, 25, 3, 263, 1075);
  }

  lemma Low18()
    ensures LowHolds(18, 153, 638)
  {
    hide LowHolds;
    LowFrom(18, 0, 9, 9, 198359290368, 12106891, 0, 14, 25, 14, 153, 638);
  }

  lemma High18()
    ensures HighHolds(18, 359, 1497)
  {
    hide HighHolds;
    HighFrom(18, 1, 6, 7, 4130428534112329328517709824, 13994436, 4, 4, 25, 9, 359, 1497);
  }

  lemma Low19()
    ensures LowHolds(19, 121, 514)
  {
    hide LowHolds;
    LowFrom(19, 0, 7, 9, 893871739, 13966746, 0, 6, 26, 2, 121, 514);
  }

  lemma High19()
    ensures HighHolds(19, 722, 3067)
  {
    hide HighHolds;
    HighFrom(19, 2, 13, 2, 3498743002442937227729601361122964878585526371203662724899, 9351316, 10, 8, 23, 11, 722, 3067);
  }

  lemma Low20()
    ensures LowHolds(20, 351, 1517)
  {
    hide LowHolds;
    LowFrom(20, 1, 5, 15, 2097152000000000000000000000, 14210855, 4, 3, 27, 13, 351, 1517);
  }

  lemma High20()
    ensures HighHolds(20, 146, 631)
  {
    hide HighHolds;
    HighFrom(20, 0, 9, 2, 512000000000, 15625000, 0, 15, 24, 7, 146, 631);
  }

  lemma Low21()
    ensures LowHolds(21, 469, 2060)
  {
    hide LowHolds;
    LowFrom(21, 1, 13, 5, 220983347100817338120002444455525554981, 10895321, 6, 8, 24, 12, 469, 2060);
  }

  lemma High21()
    ensures HighHolds(21, 130, 571)
  {
    hide HighHolds;
    HighFrom(21, 0, 8, 2, 37822859361, 9234096, 0, 12, 23, 11, 130, 571);
  }

  lemma Low22()
    ensures LowHolds(22, 37, 165)
  {
    hide LowHolds;
    LowFrom(22, 0, 2, 5, 484, 484, 0, 0, 10, 5, 37, 165);
  }

  lemma High22()
    ensures HighHolds(22, 838, 3737)
  {
    hide HighHolds;
    HighFrom(22, 3, 4, 6, 6397044955556976591131187821114346488001084082080638724121570381398016, 15550354, 13, 0, 25, 9, 838, 3737);
  }

  lemma Low23()
    ensures LowHolds(23, 785, 3551)
  {
    hide LowHolds;
    LowFrom(23, 3, 1, 1, 5304738315342148305325700564919212656132041732898221764838321536663, 13204588, 12, 6, 23, 15, 785, 3551);
  }

  lemma High23()
    ensures HighHolds(23, 191, 864)
  {
    hide HighHolds;
    HighFrom(23, 0, 11, 15, 952809757913927, 14197971, 1, 10, 28, 0, 191, 864);
  }

  lemma Low24()
    ensures LowHolds(24, 306, 1403)
  {
    hide LowHolds;
    LowFrom(24, 1, 3, 2, 167499529910025153071284224, 9080168, 4, 0, 23, 11, 306, 1403);
  }

  lemma High24()
    ensures HighHolds(24, 53, 243)
  {
    hide HighHolds;
    HighFrom(24, 0, 3, 5, 13824, 13824, 0, 0, 15, 3, 53, 243);
  }

  lemma Low25()
    ensures LowHolds(25, 497, 2308)
  {
    hide LowHolds;
    LowFrom(25, 1, 15, 1, 21684043449710088680149056017398834228515625, 16313262, 7, 8, 24, 4, 497, 2308);
  }

  lemma High25()
    ensures HighHolds(25, 73, 339)
  {
    hide HighHolds;
    HighFrom(25, 0, 4, 9, 390625, 390625, 0, 0, 21, 3, 73, 339);
  }

  lemma Low26()
    ensures LowHolds(26, 227, 1067)
  {
    hide LowHolds;
    LowFrom(26, 0, 14, 3, 64509974703297150976, 14667871, 2, 10, 24, 11, 227, 1067);
  }

  lemma High26()
    ensures HighHolds(26, 237, 1114)
  {
    hide HighHolds;
    HighFrom(26, 0, 14, 13, 64509974703297150976, 14667870, 2, 10, 27, 10, 237, 1114);
  }

  lemma Low27()
    ensures LowHolds(27, 102, 485)
  {
    hide LowHolds;
    LowFrom(27, 0, 6, 6, 387420489, 12106891, 0, 5, 25, 5, 102, 485);
  }

  lemma High27()
    ensures HighHolds(27, 461, 2192)
  {
    hide HighHolds;
    HighFrom(27, 1, 12, 13, 11972515182562019788602740026717047105681, 9223290, 6, 14, 27, 0, 461, 2192);
  }

  lemma Low28()
    ensures LowHolds(28, 353, 1697)
  {
    hide LowHolds;
    LowFrom(28, 1, 6, 1, 68782299287045573887647111184384, 14223847, 5, 2, 24, 1, 353, 1697);
  }

  lemma High28()
    ensures HighHolds(28, 109, 524)
  {
    hide HighHolds;
    HighFrom(28, 0, 6, 13, 481890304, 15059072, 0, 5, 27, 12, 109, 524);
  }

  lemma Low29()
    ensures LowHolds(29, 169, 821)
  {
    hide LowHolds;
    LowFrom(29, 0, 10, 9, 420707233300201, 12538053, 1, 9, 26, 5, 169, 821);
  }

  lemma High29()
    ensures HighHolds(29, 345, 1676)
  {
    hide HighHolds;
    HighFrom(29, 1, 5, 9, 5132842708382182842735812571629, 8491575, 4, 15, 25, 12, 345, 1676);
  }

  lemma Low30()
    ensures LowHolds(30, 43, 211)
  {
    hide LowHolds;
    LowFrom(30, 0, 2, 11, 900, 900, 0, 0, 13, 3, 43, 211);
  }

  lemma High30()
    ensures HighHolds(30, 247, 1212)
  {
    hide HighHolds;
    HighFrom(30, 0, 15, 7, 14348907000000000000000, 12744389, 3, 2, 25, 12, 247, 1212);
  }

  lemma Low31()
    ensures LowHolds(31, 131, 649)
  {
    hide LowHolds;
    LowFrom(31, 0, 8, 3, 852891037441, 13014085, 1, 0, 24, 9, 131, 649);
  }

  lemma High31()
    ensures HighHolds(31, 1288, 6381)
  {
    hide HighHolds;
    HighFrom(31, 5, 0, 8, 203673959694231926278508213064335912651522265833517324977930700775281458464274730787275574290324159404665088284489766401, 10586371, 23, 5, 25, 13, 1288, 6381);
  }

  lemma Low33()
    ensures LowHolds(33, 45, 227)
  {
    hide LowHolds;
    LowFrom(33, 0, 2, 13, 1089, 1089, 0, 0, 14, 3, 45, 227);
  }

  lemma High33()
    ensures HighHolds(33, 383, 1932)
  {
    hide HighHolds;
    HighFrom(33, 1, 7, 15, 84298649517881922539738734663399137, 8511988, 5, 13, 27, 12, 383, 1932);
  }

  lemma Low34()
    ensures LowHolds(34, 80, 407)
  {
    hide LowHolds;
    LowFrom(34, 0, 5, 0, 45435424, 11358856, 0, 2, 23, 7, 80, 407);
  }

  lemma High34()
    ensures HighHolds(34, 263, 1338)
  {
    hide HighHolds;
    HighFrom(34, 1, 0, 7, 3189059870763703892770816, 11064274, 3, 10, 25, 10, 263, 1338);
  }

  lemma Low35()
    ensures LowHolds(35, 116, 595)
  {
    hide LowHolds;
    LowFrom(35, 0, 7, 4, 64339296875, 15707837, 0, 12, 25, 3, 116, 595);
  }

  lemma High35()
    ensures HighHolds(35, 147, 754)
  {
    hide HighHolds;
    HighFrom(35, 0, 9, 3, 78815638671875, 9395556, 1, 7, 24, 2, 147, 754);
  }

  lemma Low36()
    ensures LowHolds(36, 153, 791)
  {
    hide LowHolds;
    LowFrom(36, 0, 9, 9, 101559956668416, 12106891, 1, 7, 26, 7, 153, 791);
  }

  lemma High36()
    ensures HighHolds(36, 206, 1065)
  {
    hide HighHolds;
    HighFrom(36, 0, 12, 14, 4738381338321616896, 8619065, 2, 7, 27, 9, 206, 1065);
  }

  lemma Certify(radix: nat) returns (p1: nat, n1: nat, p2: nat, n2: nat)
    requires 3 <= radix <= 36 && radix !in {4, 8, 16, 32}
    ensures LowHolds(radix, p1, n1) && HighHolds(radix, p2, n2)
  {
    hide LowHolds, HighHolds;
    match radix
    case 3 =>
      Low3();
      High3();
      p1, n1, p2, n2 := 971, 1539, 665, 1054;
    case 5 =>
      Low5();
      High5();
      p1, n1, p2, n2 := 497, 1154, 146, 339;
    case 6 =>
      Low6();
      High6();
      p1, n1, p2, n2 := 306, 791, 359, 928;
    case 7 =>
      Low7();
      High7();
      p1, n1, p2, n2 := 462, 1297, 109, 306;
    case 9 =>
      Low9();
      High9();
      p1, n1, p2, n2 := 153, 485, 512, 1623;
    case 10 =>
      Low10();
      High10();
      p1, n1, p2, n2 := 497, 1651, 146, 485;
    case 11 =>
      Low11();
      High11();
      p1, n1, p2, n2 := 37, 128, 875, 3027;
    case 12 =>
      Low12();
      High12();
      p1, n1, p2, n2 := 306, 1097, 53, 190;
    case 13 =>
      Low13();
      High13();
      p1, n1, p2, n2 := 227, 840, 1145, 4237;
    case 14 =>
      Low14();
      High14();
      p1, n1, p2, n2 := 462, 1759, 109, 415;
    case 15 =>
      Low15();
      High15();
      p1, n1, p2, n2 := 290, 1133, 247, 965;
    case 17 =>
      Low17();
      High17();
      p1, n1, p2, n2 := 80, 327, 263, 1075;
    case 18 =>
      Low18();
      High18();
      p1, n1, p2, n2 := 153, 638, 359, 1497;
    case 19 =>
      Low19();
      High19();
      p1, n1, p2, n2 := 121, 514, 722, 3067;
    case 20 =>
      Low20();
      High20();
      p1, n1, p2, n2 := 351, 1517, 146, 631;
    case 21 =>
      Low21();
      High21();
      p1, n1, p2, n2 := 469, 2060, 130, 571;
    case 22 =>
      Low22();
      High22();
      p1, n1, p2, n2 := 37, 165, 838, 3737;
    case 23 =>
      Low23();
      High23();
      p1, n1, p2, n2 := 785, 3551, 191, 864;
    case 24 =>
      Low24();
      High24();
      p1, n1, p2, n2 := 306, 1403, 53, 243;
    case 25 =>
      Low25();
      High25();
      p1, n1, p2, n2 := 497, 2308, 73, 339;
    case 26 =>
      Low26();
      High26();
      p1, n1, p2, n2 := 227, 1067, 237, 1114;
    case 27 =>
      Low27();
      High27();
      p1, n1, p2, n2 := 102, 485, 461, 2192;
    case 28 =>
      Low28();
      High28();
      p1, n1, p2, n2 := 353, 1697, 109, 524;
    case 29 =>
      Low29();
      High29();
      p1, n1, p2, n2 := 169, 821, 345, 1676;
    case 30 =>
      Low30();
      High30();
      p1, n1, p2, n2 := 43, 211, 247, 1212;
    case 31 =>
      Low31();
      High31();
      p1, n1, p2, n2 := 131, 649, 1288, 6381;
    case 33 =>
      Low33();
      High33();
      p1, n1, p2, n2 := 45, 227, 383, 1932;
    case 34 =>
      Low34();
      High34();
      p1, n1, p2, n2 := 80, 407, 263, 1338;
    case 35 =>
      Low35();
      High35();
      p1, n1, p2, n2 := 116, 595, 147, 754;
    case 36 =>
      Low36();
      High36();
      p1, n1, p2, n2 := 153, 791, 206, 1065;
  }

  // ----- comparing ratios -----

  /** From b^u < c^v to other exponents of no larger ratio. */
  lemma RatioLess(b: nat, u: nat, c: nat, v: nat, i: nat, j: nat)
    requires b > 0 && c > 0 && v > 0 && j > 0 && Pow(b, u) < Pow(c, v) && i * v <= u * j
    ensures Pow(b, i) < Pow(c, j)
  {
    hide Pow;
    assert j * v == v * j;
    if Pow(c, j) <= Pow(b, i) {
      PowBase(Pow(c, j), Pow(b, i), v);
      PowPow(c, j, v);
      PowPow(b, i, v);
      PowMono(b, i * v, u * j);
      PowPow(b, u, j);
      PowPow(c, v, j);
      PowLess(Pow(b, u), Pow(c, v), j);
    }
  }

  lemma PowStep(a: nat, n: nat)
    requires n > 0
    ensures Pow(a, n) == a * Pow(a, n - 1)
  {
  }

  lemma LessProduct(a: nat, b: nat, x: nat, y: nat)
    requires a < b && x < y
    ensures a * x < b * y
  {
    MulMono(a, b, x);
    MulLess(b, x, y);
  }

  lemma {:induction false} PowLess(a: nat, b: nat, n: nat)
    requires a < b && n > 0
    ensures Pow(a, n) < Pow(b, n)
  {
    hide Pow;
    PowStep(a, n);
    PowStep(b, n);
    if n == 1 {
      PowBasics(a);
      PowBasics(b);
    } else {
      PowLess(a, b, n - 1);
      LessProduct(a, b, Pow(a, n - 1), Pow(b, n - 1));
    }
  }

  // ----- the estimate -----

  /** Truncating division by the table gives a quotient that the bounds of the logarithm allow. */
  lemma RatioLow(a: nat, q: int, mult: nat, p: nat, n: nat, slack: int)
    requires q * LOG_ONE <= a * mult - slack && (mult * n - p * LOG_ONE) * a < LOG_ONE + slack * n
    ensures q * n <= p * a
  {
    MulMono(q * LOG_ONE, a * mult - slack, n);
    assert (q * LOG_ONE) * n == LOG_ONE * (q * n);
    assert (a * mult - slack) * n == (mult * n) * a - slack * n;
    assert (mult * n - p * LOG_ONE) * a == (mult * n) * a - LOG_ONE * (p * a);

  }

  lemma RatioHigh(a: nat, q: int, mult: nat, p: nat, n: nat, slack: int)
    requires q * LOG_ONE >= a * mult + slack && (p * LOG_ONE - mult * n) * a < LOG_ONE + slack * n
    ensures p * a <= q * n
  {
    MulMono(a * mult + slack, q * LOG_ONE, n);
    assert (q * LOG_ONE) * n == LOG_ONE * (q * n);
    assert (a * mult + slack) * n == (mult * n) * a + slack * n;
    assert (p * LOG_ONE - mult * n) * a == LOG_ONE * (p * a) - (mult * n) * a;

  }

  /** A bound for the largest number holds for those below. */
  lemma UpTo(c: int, a: nat, most: nat, limit: nat)
    requires c * most < limit && a <= most && limit > 0
    ensures c * a < limit
  {
    if c > 0 {
      MulMono(a, most, c);
    } else {
      MulMono(c, 0, a);
    }
  }

  /** The powers that enclose 2^a. */
  predicate Encloses(radix: nat, q: int, a: int)
  {
    if a >= 0 then q >= 0 && Pow(radix, q) <= Pow2(a) < Pow(radix, q + 1)
    else q < 0 && Pow(radix, -q - 1) < Pow2(-a) <= Pow(radix, -q)
  }

  lemma EnclosesMeans(radix: nat, q: int, a: int)
    requires radix > 0 && Encloses(radix, q, a)
    ensures FloorLog(1 + q, a + 1, radix)
  {
    hide Pow, Pow2;
    PowBasics(radix);
    PowOne();
  }

  lemma AboveOne(radix: nat, mult: nat, p1: nat, n1: nat, p2: nat, n2: nat, a: nat, q: int)
    requires radix > 1 && 0 < a <= 1023 && NearLow(mult, p1, n1) && NearHigh(mult, p2, n2)
    requires Pow(radix, p1) < Pow2(n1) && Pow2(n2) < Pow(radix, p2)
    requires q * LOG_ONE <= a * mult < (q + 1) * LOG_ONE
    ensures q >= 0 && Pow(radix, q) < Pow2(a) < Pow(radix, q + 1)
  {
    hide Pow;
    Signs(a, mult, q);
    UpTo(mult * n1 - p1 * LOG_ONE, a, 1023, LOG_ONE);
    RatioLow(a, q, mult, p1, n1, 0);
    RatioLess(radix, p1, 2, n1, q, a);
    UpTo(p2 * LOG_ONE - mult * n2, a, 1023, LOG_ONE + n2);
    RatioHigh(a, q + 1, mult, p2, n2, 1);
    assert a * p2 == p2 * a && n2 * (q + 1) == (q + 1) * n2;
    RatioLess(2, n2, radix, p2, a, q + 1);
  }

  lemma BelowOne(radix: nat, mult: nat, p1: nat, n1: nat, p2: nat, n2: nat, a: int, q: int)
    requires radix > 1 && mult > 0 && -1074 <= a < 0 && NearLow(mult, p1, n1) && NearHigh(mult, p2, n2)
    requires Pow(radix, p1) < Pow2(n1) && Pow2(n2) < Pow(radix, p2)
    requires q * LOG_ONE <= a * mult < (q + 1) * LOG_ONE
    ensures q < 0 && Pow(radix, -q - 1) < Pow2(-a) < Pow(radix, -q)
  {
    hide Pow;
    var b: nat := -a;
    Negated(a, mult, q);
    UpTo(mult * n1 - p1 * LOG_ONE, b, 1074, LOG_ONE + n1);
    RatioLow(b, -q - 1, mult, p1, n1, 1);
    RatioLess(radix, p1, 2, n1, -q - 1, b);
    UpTo(p2 * LOG_ONE - mult * n2, b, 1074, LOG_ONE);
    RatioHigh(b, -q, mult, p2, n2, 0);
    assert b * p2 == p2 * b && n2 * -q == -q * n2;
    RatioLess(2, n2, radix, p2, b, -q);
  }

  lemma Signs(a: nat, mult: nat, q: int)
    requires a * mult < (q + 1) * LOG_ONE
    ensures q >= 0
  {
  }

  lemma Negated(a: int, mult: nat, q: int)
    requires a < 0 && mult > 0 && q * LOG_ONE <= a * mult < (q + 1) * LOG_ONE
    ensures q < 0 && -q * LOG_ONE >= -a * mult && (-q - 1) * LOG_ONE <= -a * mult - 1
  {
    DenPositive(-a, mult);
    assert -a * mult == -(a * mult);
  }

  // ----- powers of two -----

  lemma SameRadix(v: nat, a: int, bits: nat, g: int)
    ensures Pow2(bits) > 0
    ensures Num(v, a, Pow2(bits), g) == Num(v, a, 2, g * bits) && Den(a, Pow2(bits), g) == Den(a, 2, g * bits)
  {
    hide Pow;
    TwoPower(bits, Pos(g));
    TwoPower(bits, Pos(-g));
    TwoIs(bits * Pos(g));
    TwoIs(bits * Pos(-g));
    Sides(bits, g);
  }

  lemma Sides(bits: nat, g: int)
    ensures Pos(g * bits) == bits * Pos(g) && Pos(-(g * bits)) == bits * Pos(-g)
  {
    if g >= 0 {
      MulMono(0, g, bits);
    } else {
      MulMono(g, 0, bits);
      assert (-g) * bits == -(g * bits);
    }
  }

  /** Division that truncates toward zero. */
  function TruncDiv(a: int, b: nat): int
    requires b > 0
  {
    if a >= 0 then a / b else -((-a) / b)
  }

  /** For radix 2^bits. */
  function MulLog2(a: int, bits: nat): int
    requires bits > 0
  {
    TruncDiv(if a < 0 then a - (bits - 1) else a, bits)
  }

  lemma MulLog2Floors(a: int, bits: nat)
    requires bits > 0
    ensures var q := MulLog2(a, bits); q * bits <= a < q * bits + bits
  {
    if a >= 0 {
      DivIs(a, bits);
    } else {
      var n := -a + bits - 1;
      DivIs(n, bits);
      assert (-(n / bits)) * bits == -(n / bits * bits);
    }
  }

  lemma TwoFloor(e: int, bits: nat)
    requires bits > 0
    ensures Pow2(bits) > 0 && FloorLog(1 + MulLog2(e - 1, bits), e, Pow2(bits))
  {
    hide Num, Den, Pow2, MulLog2;
    var a, q := e - 1, MulLog2(e - 1, bits);
    MulLog2Floors(a, bits);
    SameRadix(1, a, bits, -q);
    SameRadix(1, a, bits, -(1 + q));
    assert (-q) * bits == -(q * bits) && (-(1 + q)) * bits == -(q * bits) - bits;
    TwoCompare(a, -(q * bits));
    TwoCompare(a, -(q * bits) - bits);
  }

  lemma TwoCompare(a: int, f: int)
    ensures Num(1, a, 2, f) < Den(a, 2, f) <==> a + f < 0
  {
    hide Num, Den;
    TwoPowers(1, a, f);
    var p, q := Pos(a) + Pos(f), Pos(-a) + Pos(-f);
    if p < q {
      LessTwo(p, q);
    } else {
      MonoPow2(q, p);
    }
  }

  lemma LessTwo(p: nat, q: nat)
    requires p < q
    ensures Pow2(p) < Pow2(q)
  {
    MonoPow2(p + 1, q);
    PowSum(1, p);
    PowOne();
  }

  // ----- all radixes -----

  /** The bits of a radix that is a power of two, 0 for the others. */
  function RadixBits(radix: nat): (bits: nat)
    ensures bits != 0 ==> radix == Pow(2, bits)
  {
    match radix
    case 2 => 1
    case 4 => 2
    case 8 => 3
    case 16 => 4
    case 32 => 5
    case _ => 0
  }

  /** mul_log2_radix. */
  function MulLog2Radix(a: int, radix: nat): int
    requires 2 <= radix <= 36
  {
    if RadixBits(radix) != 0 then MulLog2(a, RadixBits(radix)) else a * LOG_TABLE[radix - 2] / LOG_ONE
  }

  /** The exponent estimate of js_dtoa is the exact logarithm, rounded down, for all doubles and radixes. */
  lemma EstimateIsFloor(e: int, radix: nat)
    requires 2 <= radix <= 36 && -1073 <= e <= 1024
    ensures FloorLog(1 + MulLog2Radix(e - 1, radix), e, radix)
  {
    hide FloorLog, Pow, NearLow, NearHigh, MulLog2;
    if RadixBits(radix) != 0 {
      TwoFloor(e, RadixBits(radix));
    } else {
      var a, mult := e - 1, LOG_TABLE[radix - 2];
      var q := MulLog2Radix(a, radix);
      FloorDiv(a * mult, LOG_ONE);
      var p1, n1, p2, n2 := Certify(radix);
      if a == 0 {
        PowZero(radix);
      } else if a > 0 {
        AboveOne(radix, mult, p1, n1, p2, n2, a, q);
      } else {
        BelowOne(radix, mult, p1, n1, p2, n2, a, q);
      }
      EnclosesMeans(radix, q, a);
    }
  }

  lemma FloorDiv(n: int, d: nat)
    requires d > 0
    ensures n / d * d <= n < (n / d + 1) * d
  {
  }

  lemma PowZero(radix: nat)
    requires radix > 1
    ensures Encloses(radix, 0, 0)
  {
    PowBasics(radix);
    PowOne();
  }
}
