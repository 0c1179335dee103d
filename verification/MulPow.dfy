/** Scaling a big number by a power of the radix, and rounding the result to an integer. */
module MulPow {
  import opened Rounding
  import opened Bits
  import opened Limbs
  import opened LimbLoops
  import opened Reciprocal
  import opened Powers
  import opened BigNum

  /** What is left of a radix when its powers of two are taken out. */
  predicate OddPart(r1: nat)
  {
    1 <= r1 <= 35 && r1 % 2 == 1
  }

  function PerLimb(r1: nat): (d: nat)
    requires OddPart(r1) && r1 != 1
    ensures 0 < d <= 32
  {
    DIGITS_PER_LIMB[r1 - 2]
  }

  /** How many chunks of `d` digits make up `f` digits. */
  function Chunks(f: nat, d: nat): nat
    requires d > 0
  {
    (f + d - 1) / d
  }

  lemma ChunkOff(f: nat, d: nat, n: nat)
    requires d > 0 && f > 0 && n == if f < d then f else d
    ensures Chunks(f - n, d) == Chunks(f, d) - 1
  {
    if f < d {
      DivUnique(f + d - 1, d, 1, f - 1);
      DivUnique(d - 1, d, 0, d - 1);
    } else {
      var q, r := Quotient(f - 1, d);
      DivUnique(f - 1, d, q, r);
      MulSucc(q, d);
      DivUnique(f + d - 1, d, q + 1, r);
    }
  }

  lemma ChunksCover(f: nat, d: nat)
    requires d > 0
    ensures f <= d * Chunks(f, d)
  {
    DivIs(f + d - 1, d);
  }

  lemma DigitsFit(r1: nat, n: nat)
    requires OddPart(r1) && r1 != 1 && n <= PerLimb(r1)
    ensures 0 < Pow(r1, n) < BASE
  {
    var d := PerLimb(r1);
    PowMono(r1, n, d);
    if r1 <= 9 {
      DigitsFitLow(r1);
    } else if r1 <= 21 {
      DigitsFitMiddle(r1);
    } else {
      DigitsFitHigh(r1);
    }
  }

  lemma DigitsFitLow(r1: nat)
    requires OddPart(r1) && 3 <= r1 <= 9
    ensures Pow(r1, PerLimb(r1)) < BASE
  {
    hide Pow;
    PowAdd(r1, 5, 5);
    PowAdd(r1, 10, PerLimb(r1) - 10);
    LowPowers();
  }

  lemma LowPowers()
    ensures Pow(3, 5) == 243 && Pow(3, 10) == 243 * 243
    ensures Pow(5, 5) == 3125 && Pow(5, 3) == 125
    ensures Pow(7, 5) == 16807 && Pow(7, 1) == 7
    ensures Pow(9, 5) == 59049 && Pow(9, 0) == 1
  {
    assert Pow(3, 5) == 243;
    PowAdd(3, 5, 5);
  }

  lemma DigitsFitMiddle(r1: nat)
    requires OddPart(r1) && 11 <= r1 <= 21
    ensures Pow(r1, PerLimb(r1)) < BASE
  {
    PowAdd(r1, 4, PerLimb(r1) - 4);
    assert Pow(11, 4) == 14641 && Pow(11, 5) == 161051;
    assert Pow(13, 4) == 28561;
    assert Pow(15, 4) == 50625;
    assert Pow(17, 4) == 83521 && Pow(17, 3) == 4913;
    assert Pow(19, 4) == 130321 && Pow(19, 3) == 6859;
    assert Pow(21, 4) == 194481 && Pow(21, 3) == 9261;
  }

  lemma DigitsFitHigh(r1: nat)
    requires OddPart(r1) && 23 <= r1 <= 35
    ensures Pow(r1, PerLimb(r1)) < BASE
  {
    PowAdd(r1, 3, PerLimb(r1) - 3);
    assert Pow(23, 3) == 12167 && Pow(23, 4) == 279841;
    assert Pow(25, 3) == 15625;
    assert Pow(27, 3) == 19683;
    assert Pow(29, 3) == 24389;
    assert Pow(31, 3) == 29791;
    assert Pow(33, 3) == 35937;
    assert Pow(35, 3) == 42875;
  }

  // ----- multiplication -----

  lemma PowSplit(b: nat, m: nat, k: nat, n: nat)
    requires n <= k <= m
    ensures Pow(b, m - k) * Pow(b, n) == Pow(b, m - (k - n))
  {
    PowAdd(b, m - k, n);
  }

  /** One multiplication by a limb; the carry becomes a new limb. */
  method MulLimb(a: BigNum, b: Limb)
    requires a.Valid() && a.len < a.tab.Length && b > 0
    modifies a, a.tab
    ensures a.Valid() && a.Value() == old(a.Value()) * b && a.len <= old(a.len) + 1
    ensures old(Normal(a.Limbs())) ==> Normal(a.Limbs())
  {
    hide Val, Pow;
    ghost var s := a.Limbs();
    var h := Mul1(a.tab, a.len, b, 0);
    ghost var t := a.tab[..a.len];
    CarryKeeps(s, t, b, h);
    if h != 0 {
      a.tab[a.len] := h;
      a.len := a.len + 1;
      ghost var u := a.Limbs();
      assert u[..|s|] == t;
      ValSnoc(u, |s|);
      assert u[..|s| + 1] == u;
    }
  }

  lemma CarryKeeps(s: seq<Limb>, t: seq<Limb>, b: nat, h: nat)
    requires |s| == |t| > 0 && Val(t) + Pow(BASE, |s|) * h == Val(s) * b && b > 0
    ensures h == 0 && Normal(s) ==> Normal(t)
    ensures h > 0 ==> Val(s) * b >= Pow(BASE, |s|)
  {
    hide Val, Pow;
    MulMono(1, b, Val(s));
    if h > 0 {
      MulMono(1, h, Pow(BASE, |s|));
    }
  }

  /** The loop of mul_pow for f >= 0. */
  method MulUp(a: BigNum, r1: nat, f: nat)
    requires a.Valid() && OddPart(r1) && r1 != 1 && a.len + Chunks(f, PerLimb(r1)) <= a.tab.Length
    modifies a, a.tab
    ensures a.Valid() && a.Value() == old(a.Value()) * Pow(r1, f)
    ensures a.len <= old(a.len) + Chunks(f, PerLimb(r1))
    ensures old(Normal(a.Limbs())) ==> Normal(a.Limbs())
  {
    hide Pow, Normal, Chunks, PerLimb;
    var d := PerLimb(r1);
    var k: nat, n0: nat, b: nat := f, 0, 0;
    ghost var v := a.Value();
    PowBasics(r1);
    while k != 0
      invariant 0 <= k <= f
      invariant a.Valid() && a.Value() == v * Pow(r1, f - k)
      invariant a.len + Chunks(k, d) <= old(a.len) + Chunks(f, d)
      invariant old(Normal(a.Limbs())) ==> Normal(a.Limbs())
      invariant n0 != 0 ==> b == Pow(r1, n0) && 0 < b < BASE
    {
      var n := if k < d then k else d;
      ChunkOff(k, d, n);
      if n != n0 {
        DigitsFit(r1, n);
        var p := PowUi(r1, n);
        Small(Pow(r1, n), U64);
        b := p;
        n0 := n;
      }
      MulLimb(a, b);
      PowSplit(r1, f, k, n);
      Associate(v, Pow(r1, f - k), Pow(r1, n));
      k := k - n;
    }
  }

  // ----- division -----

  /** One division by a power of the radix. */
  method DivLimb(a: BigNum, ghost d: nat, b: Limb, inv: Limb, shift: nat) returns (r: Limb)
    requires a.Valid() && d > 0 && Normalised(d, b, inv, shift)
    modifies a, a.tab
    ensures a.Valid() && a.Value() == old(a.Value()) / d && r == old(a.Value()) % d
    ensures Normal(a.Limbs())
  {
    hide Val, Pow, Pow2;
    ghost var v := a.Value();
    r := Div1Norm(a.tab, a.len, b, 0, inv, shift, d);
    DivUnique(v, d, a.Value(), r);
    a.Renorm();
  }

  /** Dividing by a further power. */
  lemma DivMore(v: nat, r1: nat, f: nat, k: nat, n: nat)
    requires n <= k <= f && r1 > 0
    ensures var p, q := Pow(r1, f - k), Pow(r1, f - (k - n));
            v / q == v / p / Pow(r1, n) && (v % q == 0 <==> v % p == 0 && v / p % Pow(r1, n) == 0)
  {
    hide Pow;
    PowSplit(r1, f, k, n);
    DivDiv(v, Pow(r1, f - k), Pow(r1, n));
  }

  /** The loop of mul_pow for f < 0: `rest` tells whether anything was cut off. */
  method DivDown(a: BigNum, r1: nat, f: nat) returns (rest: nat)
    requires a.Valid() && OddPart(r1) && r1 != 1 && f > 0
    modifies a, a.tab
    ensures a.Valid() && Normal(a.Limbs())
    ensures Pow(r1, f) > 0 && a.Value() == old(a.Value()) / Pow(r1, f)
    ensures rest == 0 <==> old(a.Value()) % Pow(r1, f) == 0
  {
    hide Pow, Normal, PerLimb, Or, Normalised;
    var d := PerLimb(r1);
    var k: nat, n0: nat := f, 0;
    var b: Limb, inv: Limb, shift: nat := 0, 0, 0;
    rest := 0;
    ghost var v := a.Value();
    PowBasics(r1);
    DivUnique(v, 1, v, 0);
    while k != 0
      invariant 0 <= k <= f
      invariant a.Valid() && (k < f ==> Normal(a.Limbs()))
      invariant Pow(r1, f - k) > 0 && a.Value() == v / Pow(r1, f - k)
      invariant rest == 0 <==> v % Pow(r1, f - k) == 0
      invariant n0 != 0 ==> Pow(r1, n0) > 0 && Normalised(Pow(r1, n0), b, inv, shift)
    {
      var n := if k < d then k else d;
      if n != n0 {
        DigitsFit(r1, n);
        b, inv, shift := PowUiInv(r1, n);
        n0 := n;
      }
      var r := DivLimb(a, Pow(r1, n), b, inv, shift);
      OrIsZero(rest, r);
      rest := Or(rest, r);
      DivMore(v, r1, f, k, n);
      k := k - n;
    }
  }

  /** Records in the last bit that something was cut off. */
  method MarkRest(a: BigNum, rest: nat, ghost num: nat, ghost den: nat)
    requires a.Valid() && Normal(a.Limbs()) && den > 0
    requires a.Value() == num / den && (rest == 0 <==> num % den == 0)
    modifies a.tab
    ensures a.Valid() && a.Value() == Sticky(num, den) && Normal(a.Limbs())
  {
    hide Or, Pow;
    ghost var s := a.Limbs();
    LastBit(s);
    OrOne(a.tab[0]);
    OrZero(a.tab[0]);
    a.tab[0] := Or(a.tab[0], if rest != 0 then 1 else 0);
    assert a.Limbs()[1..] == s[1..];
  }

  lemma LastBit(s: seq<Limb>)
    requires s != []
    ensures Val(s) % 2 == s[0] % 2
  {
    var v := Val(s[1..]);
    assert Val(s) == s[0] + 2 * (0x8000_0000 * v);
  }

  // ----- mul_pow -----

  function Max(x: int, y: int): int
  {
    if x >= y then x else y
  }

  /** The bits that are added below so that enough of them are left for rounding. */
  function ExtraBits(v: nat, eOffset: int, isInt: bool, e: int): (n: nat)
  {
    if isInt then Max(2 + e - eOffset, 0) else Max(e - (BitLen(v) - 1), 0)
  }

  /** The limbs that mul_pow needs on top of those in use. */
  function Room(v: nat, r1: nat, rs: nat, f: int, isInt: bool, e: int): nat
    requires OddPart(r1)
  {
    if r1 == 1 then 0
    else if f >= 0 then Chunks(f, PerLimb(r1))
    else
      var l := Chunks(-f, PerLimb(r1));
      (LIMB_BITS * l + ExtraBits(v, -f * rs + LIMB_BITS * l, isInt, e) + LIMB_BITS - 1) / LIMB_BITS
  }

  /** What mul_pow leaves: v * r1^f, shifted up by `up` bits and with a sticky last bit if f < 0. */
  function Scaled(v: nat, r1: nat, f: int, up: nat): nat
    requires r1 > 0
  {
    if f >= 0 then v * Pow(r1, f) else Sticky(v * Pow2(up), Pow(r1, -f))
  }

  /** mul_pow. The result stands for v * (r1 * 2^rs)^f when it is multiplied by 2^-eOffset. */
  method MulPower(a: BigNum, r1: nat, rs: nat, f: int, isInt: bool, e: int) returns (eOffset: int, ghost up: nat)
    requires a.Valid() && Normal(a.Limbs()) && OddPart(r1)
    requires a.len + Room(a.Value(), r1, rs, f, isInt, e) <= a.tab.Length
    modifies a, a.tab
    ensures a.Valid() && Normal(a.Limbs())
    ensures eOffset == -f * rs + up && a.Value() == Scaled(old(a.Value()), r1, f, up)
    ensures r1 == 1 || f >= 0 ==> up == 0
    ensures r1 != 1 && f < 0 ==>
              up == LIMB_BITS * Chunks(-f, PerLimb(r1)) +
                    ExtraBits(old(a.Value()), -f * rs + LIMB_BITS * Chunks(-f, PerLimb(r1)), isInt, e)
    ensures r1 == 1 || f >= 0 ==> a.len <= old(a.len + Room(a.Value(), r1, rs, f, isInt, e))
  {
    eOffset, up := -f * rs, 0;
    if r1 == 1 {
      ScaledByOne(a.Value(), f);
    } else if f >= 0 {
      MulUp(a, r1, f);
    } else {
      var l := Chunks(-f, PerLimb(r1));
      eOffset := eOffset + LIMB_BITS * l;
      var extra;
      if isInt {
        extra := Max(2 + e - eOffset, 0);
      } else {
        var top := a.FloorLog2();
        extra := Max(e - top, 0);
      }
      eOffset := eOffset + extra;
      up := LIMB_BITS * l + extra;
      DownTo(a, r1, -f, LIMB_BITS * l + extra);
    }
  }

  lemma ScaledByOne(v: nat, f: int)
    ensures Scaled(v, 1, f, 0) == v
  {
    PowOfOneIs(if f >= 0 then f else -f);
    PowOne();
    DivUnique(v, 1, v, 0);
  }

  lemma {:induction false} PowOfOneIs(n: nat)
    ensures Pow(1, n) == 1
  {
    if n > 0 {
      PowOfOneIs(n - 1);
    }
  }

  /** The part of mul_pow for f < 0 after its sizes are known. */
  method DownTo(a: BigNum, r1: nat, f: nat, up: nat)
    requires a.Valid() && Normal(a.Limbs()) && OddPart(r1) && r1 != 1 && f > 0
    requires a.len + (up + LIMB_BITS - 1) / LIMB_BITS <= a.tab.Length
    modifies a, a.tab
    ensures a.Valid() && Normal(a.Limbs())
    ensures Pow(r1, f) > 0 && a.Value() == Sticky(old(a.Value()) * Pow2(up), Pow(r1, f))
  {
    hide Pow2, Pow, Sticky, Normal, Round;
    ghost var v := a.Value();
    PowOne();
    RoundWhole(v, RNDZ);
    var shift: int := up;
    a.ShrRound(-shift, RNDZ);
    ghost var num := v * Pow2(up);
    assert a.Value() == num;
    var rest := DivDown(a, r1, f);
    MarkRest(a, rest, num, Pow(r1, f));
  }
}
