/** The big numbers of dtoa.c: a fixed array of limbs of which the low `len` are in use. */
module BigNum {
  import opened Rounding
  import opened Bits
  import opened Limbs
  import opened LimbLoops

  // ----- bits of limb sequences -----

  /** No zero limbs at the top, except for zero itself. */
  ghost predicate Normal(s: seq<Limb>)
  {
    |s| == 1 || (|s| > 1 && Val(s) >= Pow(BASE, |s| - 1))
  }

  lemma TopLimb(s: seq<Limb>)
    requires s != []
    ensures s[|s| - 1] == 0 <==> Val(s) < Pow(BASE, |s| - 1)
    ensures s[|s| - 1] == 0 ==> Val(s[..|s| - 1]) == Val(s)
    ensures Val(s) == Val(s[..|s| - 1]) + Pow(BASE, |s| - 1) * s[|s| - 1]
  {
    hide Val, Pow;
    var n := |s| - 1;
    assert s[..n + 1] == s;
    ValSnoc(s, n);
    ValBound(s[..n]);
    TopDigit(Val(s[..n]), Pow(BASE, n), s[n]);
  }

  lemma TopDigit(r: nat, p: nat, x: nat)
    requires r < p
    ensures x == 0 <==> r + p * x < p
    ensures x == 0 ==> p * x == 0
  {
    if x > 0 {
      MulMono(1, x, p);
    }
  }

  lemma ValOne(x: Limb)
    ensures Val([x]) == x
  {
    assert [x][1..] == [];
  }

  lemma ValTwo(x: Limb, y: Limb)
    ensures Val([x, y]) == x + BASE * y
  {
    assert [x, y][1..] == [y];
    ValOne(y);
  }

  lemma BasePower(l: nat)
    ensures Pow(BASE, l) == Pow2(LIMB_BITS * l)
  {
    hide Pow;
    BaseIsPower();
    PowPow(2, LIMB_BITS, l);
  }

  /** Dropping whole limbs. */
  lemma DropLimbs(s: seq<Limb>, l: nat)
    requires l <= |s|
    ensures Val(s) == Val(s[l..]) * Pow2(LIMB_BITS * l) + Val(s[..l]) && Val(s[..l]) < Pow2(LIMB_BITS * l)
  {
    hide Val, Pow, Pow2;
    ValAppend(s[..l], s[l..]);
    assert s[..l] + s[l..] == s;
    ValBound(s[..l]);
    BasePower(l);
    assert Pow(BASE, l) * Val(s[l..]) == Val(s[l..]) * Pow(BASE, l);
  }

  /** Dividing by a power of two in two steps, first by whole limbs. */
  lemma ShiftSplit(s: seq<Limb>, l: nat, k: nat)
    requires l <= |s|
    ensures Val(s) / Pow2(LIMB_BITS * l + k) == Val(s[l..]) / Pow2(k)
    ensures Val(s) % Pow2(LIMB_BITS * l + k) == 0 <==> Val(s[..l]) == 0 && Val(s[l..]) % Pow2(k) == 0
  {
    hide Val, Pow, Pow2;
    DropLimbs(s, l);
    var a, b := Pow2(LIMB_BITS * l), Pow2(k);
    DivUnique(Val(s), a, Val(s[l..]), Val(s[..l]));
    DivDiv(Val(s), a, b);
    PowSum(LIMB_BITS * l, k);
  }

  /** The low bits of a number are in its low limb. */
  lemma LowLimb(s: seq<Limb>, k: nat)
    requires s != [] && k < LIMB_BITS
    ensures Val(s) / Pow2(k) % 2 == s[0] / Pow2(k) % 2
    ensures Val(s) % Pow2(k) == s[0] % Pow2(k)
  {
    hide Pow2;
    var v, p, c := Val(s[1..]), Pow2(k), Pow2(LIMB_BITS - k - 1);
    PowSum(LIMB_BITS - k, k);
    PowSum(1, LIMB_BITS - k - 1);
    BaseIsPower();
    PowOne();
    assert BASE == 2 * c * p;
    LowBits(s[0], v, p, c);
  }

  lemma Associate(v: nat, a: nat, b: nat)
    ensures (v * a) * b == v * (a * b)
  {
  }

  lemma LowBits(x: nat, v: nat, p: nat, c: nat)
    requires p > 0 && BASE == 2 * c * p
    ensures (x + BASE * v) / p % 2 == x / p % 2 && (x + BASE * v) % p == x % p
  {
    var q, r := Quotient(x, p);
    DivUnique(x, p, q, r);
    var w := c * v;
    HighPart(v, c, p, w);
    AddMultiple(x, q, r, p, 2 * w);
    DivUnique(x + BASE * v, p, q + 2 * w, r);
    SameLastBit(q, w);
  }

  lemma HighPart(v: nat, c: nat, p: nat, w: nat)
    requires BASE == 2 * c * p && w == c * v
    ensures BASE * v == (2 * w) * p
  {
    assert (2 * c * p) * v == (2 * (c * v)) * p;
  }

  lemma AddMultiple(x: nat, q: nat, r: nat, p: nat, m: nat)
    requires x == q * p + r
    ensures x + m * p == (q + m) * p + r
  {
  }

  lemma SameLastBit(q: nat, w: nat)
    ensures (q + 2 * w) % 2 == q % 2
  {
  }

  // ----- the class -----

  class BigNum {
    const tab: array<Limb>
    var len: nat

    ghost predicate Valid()
      reads this
    {
      1 <= len <= tab.Length
    }

    ghost function Limbs(): (s: seq<Limb>)
      requires Valid()
      reads this, tab
      ensures s != []
    {
      tab[..len]
    }

    ghost function Value(): (v: nat)
      requires Valid()
      reads this, tab
    {
      Val(Limbs())
    }

    /** The number zero, in an array of `size` limbs. */
    constructor (size: nat)
      requires size > 0
      ensures Valid() && fresh(tab) && tab.Length == size && Value() == 0 && Normal(Limbs())
    {
      tab := new Limb[size](_ => 0);
      len := 1;
      new;
      assert Limbs() == [0];
      ValOne(0);
    }

    /** mpb_set_u64. */
    method SetU64(m: nat)
      requires m < U64 && tab.Length >= 2
      modifies this`len, tab
      ensures Valid() && Value() == m && Normal(Limbs()) && len <= 2
    {
      tab[0] := m % BASE;
      tab[1] := m / BASE;
      if tab[1] == 0 {
        len := 1;
        assert Limbs() == [m];
        ValOne(m);
      } else {
        len := 2;
        assert Limbs() == [m % BASE, m / BASE];
        ValTwo(m % BASE, m / BASE);
        TopLimb(Limbs());
      }
    }

    /** mpb_get_u64. */
    method GetU64() returns (m: nat)
      requires Valid()
      ensures m == Value() % U64
    {
      if len == 1 {
        assert Limbs() == [tab[0]];
        ValOne(tab[0]);
        m := tab[0];
      } else {
        BaseIsPower();
        OrIsSum(tab[1], LIMB_BITS, tab[0]);
        OrSym(tab[1] * BASE, tab[0]);
        m := Or(tab[0], tab[1] * BASE);
        ghost var s := Limbs();
        assert s[1..][1..] == s[2..];
        ghost var rest := Val(s[2..]);
        assert Val(s) == tab[0] + BASE * (tab[1] + BASE * rest);
        DivUnique(Val(s), U64, rest, m);
      }
    }

    /** mpb_renorm. */
    method Renorm()
      requires Valid()
      modifies this`len
      ensures Valid() && Value() == old(Value()) && Normal(Limbs()) && len <= old(len)
    {
      while len > 1 && tab[len - 1] == 0
        invariant Valid() && Value() == old(Value()) && len <= old(len)
        decreases len
      {
        TopLimb(Limbs());
        assert Limbs()[..len - 1] == tab[..len - 1];
        len := len - 1;
      }
      TopLimb(Limbs());
    }

    /** mpb_get_bit. */
    method GetBit(k: nat) returns (bit: nat)
      requires Valid()
      ensures bit == Value() / Pow2(k) % 2
    {
      hide Val, Pow2;
      var l, j := k / LIMB_BITS, k % LIMB_BITS;
      ghost var s := Limbs();
      assert k == LIMB_BITS * l + j;
      if l >= len {
        HighBits(s, k);
        return 0;
      }
      bit := tab[l] / Pow2(j) % 2;
      ShiftSplit(s, l, j);
      LowLimb(s[l..], j);
    }

    /** mpb_floor_log2: the position of the highest bit, or -1. */
    method FloorLog2() returns (n: int)
      requires Valid() && Normal(Limbs())
      ensures n == BitLen(Value()) - 1
    {
      var v := tab[len - 1];
      if v == 0 {
        TopLimb(Limbs());
        assert len == 1 && Limbs() == [0];
        return -1;
      }
      TopBits(Limbs());
      n := len * LIMB_BITS - 1 - (LIMB_BITS - BitLen(v));
    }

    /** Whether any of the low `k` bits is set. */
    method AnyLowBit(k: nat) returns (any: bool)
      requires Valid()
      ensures any <==> Value() % Pow2(k) != 0
    {
      hide Val, Pow2, Or;
      var l, j := k / LIMB_BITS, k % LIMB_BITS;
      var bits := 0;
      var m := if l < len then l else len;
      ghost var s := Limbs();
      assert Val(tab[..0]) == 0 by { ValIsZero(tab[..0]); }
      for i := 0 to m
        invariant bits == 0 <==> Val(tab[..i]) == 0
      {
        OrIsZero(bits, tab[i]);
        ValIsZero(tab[..i]);
        ValIsZero(tab[..i + 1]);
        assert tab[..i + 1] == tab[..i] + [tab[i]];
        bits := Or(bits, tab[i]);
      }
      assert tab[..m] == s[..m];
      if l < len {
        OrIsZero(bits, tab[l] % Pow2(j));
        bits := Or(bits, tab[l] % Pow2(j));
        ShiftSplit(s, l, j);
        LowLimb(s[l..], j);
      } else {
        assert s[..m] == s;
        HighBits(s, k);
      }
      any := bits != 0;
    }

    /** Whether rounding at bit `shift` goes up. */
    method RoundsUp(shift: nat, mode: Mode) returns (up: Limb)
      requires Valid() && shift > 0
      ensures var v, p := Value(), Pow2(shift);
              up == Bump(2 * (v % p) > p, 2 * (v % p) == p, v / p % 2 == 1, mode)
      ensures up <= 1
    {
      hide Val, Pow2, Bump;
      ghost var v, h := Value(), Pow2(shift - 1);
      PowSum(1, shift - 1);
      PowOne();
      BumpFromBits(v, h, mode);
      if mode == RNDZ {
        return 0;
      }
      var bit1 := GetBit(shift - 1);
      if bit1 == 0 {
        return 0;
      }
      var bit2 := true;
      if mode == RNDN {
        bit2 := false;
        if shift >= 2 {
          bit2 := AnyLowBit(shift - 1);
        }
      }
      if bit2 {
        return 1;
      }
      up := GetBit(shift);
    }

    /** The part of mpb_shr_round that shifts up. */
    method ShiftUp(shift: nat)
      requires Valid() && len + (shift + LIMB_BITS - 1) / LIMB_BITS <= tab.Length
      modifies this`len, tab
      ensures Valid() && Value() == old(Value()) * Pow2(shift)
      ensures old(Normal(Limbs()) && Value() > 0) ==> Normal(Limbs())
    {
      hide Val, Pow, Pow2, Normal;
      var l, k := shift / LIMB_BITS, shift % LIMB_BITS;
      PowSum(k, LIMB_BITS * l);
      PowOne();
      ghost var v := Value();
      if k != 0 {
        ShiftUpBits(k);
      }
      assert Value() == v * Pow2(k);
      if l > 0 {
        MoveUpLimbs(l);
      }
      Associate(v, Pow2(k), Pow2(LIMB_BITS * l));
    }

    /** Shifts up by less than a limb, into one more limb. */
    method ShiftUpBits(k: nat)
      requires Valid() && len < tab.Length && 0 < k < LIMB_BITS
      modifies this`len, tab
      ensures Valid() && Value() == old(Value()) * Pow2(k) && Normal(Limbs()) && len <= old(len) + 1
    {
      hide Val, Pow, Pow2, Normal;
      ghost var was := Limbs();
      var carry := Shl(tab, len, k, 0);
      tab[len] := carry;
      ghost var s := tab[..len + 1];
      assert s[..len] == tab[..len];
      ValSnoc(s, len);
      assert s[..len + 1] == s;
      len := len + 1;
      Renorm();
    }

    /** Moves the limbs up by `l` and clears the low ones. */
    method MoveUpLimbs(l: nat)
      requires Valid() && len + l <= tab.Length
      modifies this`len, tab
      ensures Valid() && Value() == old(Value()) * Pow2(LIMB_BITS * l)
      ensures old(Normal(Limbs()) && Value() > 0) ==> Normal(Limbs())
    {
      hide Val, Pow, Pow2, Normal;
      ghost var s := Limbs();
      CopyUp(tab, len, l);
      len := len + l;
      ghost var t := Limbs();
      assert t[l..] == s && t[..l] == tab[..l];
      ValIsZero(t[..l]);
      DropLimbs(t, l);
      NormalUp(s, t, l);
    }

    /** Drops `l` limbs and shifts the others down by `k` bits. */
    method ShiftDown(l: nat, k: nat)
      requires Valid() && l < len && k < LIMB_BITS && l + k > 0
      modifies this`len, tab
      ensures Valid() && Value() == old(Value()) / Pow2(LIMB_BITS * l + k)
      ensures Value() + 1 < Pow(BASE, old(len))
      ensures len <= old(len) && (old(Normal(Limbs())) ==> Normal(Limbs()))
    {
      hide Val, Pow, Pow2, Normal, Low;
      ghost var s := Limbs();
      ShiftSplit(s, l, k);
      NormalDown(s, l);
      RoomToRound(s, LIMB_BITS * l + k);
      if l > 0 {
        len := len - l;
        CopyDown(tab, len, l);
      }
      assert Limbs() == s[l..];
      PowOne();
      if k != 0 {
        ghost var v := Value();
        var rest := Shr(tab, len, k, 0);
        LowZero(k);
        DivUnique(v, Pow2(k), Val(tab[..len]), rest);
        Renorm();
      }
    }

    /** Adds one, in one more limb if there is a carry. */
    method Increment()
      requires Valid() && (len < tab.Length || Value() + 1 < Pow(BASE, len))
      modifies this`len, tab
      ensures Valid() && Value() == old(Value()) + 1
      ensures old(Normal(Limbs())) ==> Normal(Limbs())
    {
      hide Val, Pow;
      ghost var s := Limbs();
      var a := AddUi(tab, 1, len);
      ghost var t := tab[..len];
      assert Val(t) + Pow(BASE, |s|) * a == Val(s) + 1;
      CarryIs(Val(t), Pow(BASE, |s|), a, Val(s) + 1);
      if a != 0 {
        tab[len] := a;
        len := len + 1;
        ghost var u := Limbs();
        assert u[..|s|] == t;
        ValSnoc(u, |s|);
        assert u[..|s| + 1] == u;
      }
    }

    /** The part of mpb_shr_round that shifts down and rounds. */
    method RoundDown(shift: nat, mode: Mode)
      requires Valid() && shift > 0
      modifies this`len, tab
      ensures Valid() && Value() == Round(old(Value()), Pow2(shift), mode)
      ensures old(Normal(Limbs())) ==> Normal(Limbs())
    {
      hide Val, Pow, Pow2, Bump, Normal;
      var up := RoundsUp(shift, mode);
      var l, k := shift / LIMB_BITS, shift % LIMB_BITS;
      if l >= len {
        HighBits(Limbs(), shift);
        len := 1;
        tab[0] := up;
        assert Limbs() == [up];
        ValOne(up);
        NormalOne(up);
      } else {
        ShiftDown(l, k);
        if up != 0 {
          Increment();
        }
      }
    }

    /** mpb_shr_round. */
    method ShrRound(shift: int, mode: Mode)
      requires Valid() && (shift < 0 ==> len + (-shift + LIMB_BITS - 1) / LIMB_BITS <= tab.Length)
      modifies this`len, tab
      ensures Valid()
      ensures Value() == if shift < 0 then old(Value()) * Pow2(-shift) else Round(old(Value()), Pow2(shift), mode)
      ensures old(Normal(Limbs()) && (shift >= 0 || Value() > 0)) ==> Normal(Limbs())
    {
      hide Val, Pow2, Round, Normal;
      if shift == 0 {
        PowOne();
        RoundWhole(Value(), mode);
      } else if shift < 0 {
        ShiftUp(-shift);
      } else {
        RoundDown(shift, mode);
      }
    }
  }

  /** The rounding decision from the bit below the cut and the bits below that. */
  lemma BumpFromBits(v: nat, h: nat, mode: Mode)
    requires h > 0
    ensures var p := 2 * h;
            var bit1, rest := v / h % 2 == 1, v % h != 0;
            Bump(2 * (v % p) > p, 2 * (v % p) == p, v / p % 2 == 1, mode) ==
            if mode == RNDZ || !bit1 then 0
            else if mode == RNDNA || rest then 1
            else v / p % 2
  {
    DivDiv(v, h, 2);
    assert v % (h * 2) == v / h % 2 * h + v % h;
    assert v / h % 2 * h == if v / h % 2 == 1 then h else 0;
  }

  lemma NormalOne(x: Limb)
    ensures Normal([x])
  {
  }

  lemma NormalDown(s: seq<Limb>, l: nat)
    requires l < |s|
    ensures Normal(s) ==> Normal(s[l..])
  {
    hide Val, Pow;
    TopLimb(s);
    TopLimb(s[l..]);
  }

  lemma LowZero(k: nat)
    ensures Low(0, k) == 0
  {
    DivUnique(0, Pow2(k), 0, 0);
  }

  lemma CarryIs(t: nat, p: nat, a: nat, v: nat)
    requires t + p * a == v && a <= 1
    ensures a == 0 ==> t == v
    ensures a == 1 ==> v >= p && t + p == v
  {
  }

  lemma RoundWhole(v: nat, mode: Mode)
    ensures Round(v, 1, mode) == v
  {
    DivUnique(v, 1, v, 0);
  }

  /** A number shifted down leaves room for one more. */
  lemma RoomToRound(s: seq<Limb>, shift: nat)
    requires s != [] && shift > 0
    ensures Val(s) / Pow2(shift) + 1 < Pow(BASE, |s|)
  {
    hide Val, Pow;
    ValBound(s);
    PowOne();
    PowOfOne(BASE);
    PowMono(2, 1, shift);
    PowMono(BASE, 1, |s|);
    HalfOrLess(Val(s), Pow2(shift), Pow(BASE, |s|));
  }

  lemma HalfOrLess(v: nat, p: nat, b: nat)
    requires v < b && p >= 2 && b >= 4
    ensures v / p + 1 < b
  {
    var q, r := Quotient(v, p);
    DivUnique(v, p, q, r);
    MulMono(2, p, q);
  }

  lemma PowOfOne(b: nat)
    ensures Pow(b, 1) == b
  {
    assert Pow(b, 0) == 1;
  }

  lemma NormalUp(s: seq<Limb>, t: seq<Limb>, l: nat)
    requires s != [] && |t| == |s| + l && Val(t) == Val(s) * Pow2(LIMB_BITS * l)
    ensures Normal(s) && Val(s) > 0 ==> Normal(t)
  {
    hide Val, Pow, Pow2;
    if Normal(s) && Val(s) > 0 {
      var n := |s| - 1;
      PowZero(BASE);
      assert Val(s) >= Pow(BASE, n);
      BasePower(l);
      PowAdd(BASE, n, l);
      MulMono(Pow(BASE, n), Val(s), Pow(BASE, l));
    }
  }

  lemma PowZero(b: nat)
    ensures Pow(b, 0) == 1
  {
  }

  /** Bits above the last limb are zero. */
  lemma HighBits(s: seq<Limb>, k: nat)
    requires k >= LIMB_BITS * |s|
    ensures Val(s) < Pow2(k) && Val(s) / Pow2(k) == 0 && Val(s) % Pow2(k) == Val(s)
  {
    ValBound(s);
    BasePower(|s|);
    PowMono(2, LIMB_BITS * |s|, k);
    DivUnique(Val(s), Pow2(k), 0, Val(s));
  }

  lemma TopBits(s: seq<Limb>)
    requires s != [] && s[|s| - 1] != 0
    ensures BitLen(Val(s)) == (|s| - 1) * LIMB_BITS + BitLen(s[|s| - 1])
  {
    hide Val, Pow, Pow2, BitLen;
    var n, v := |s| - 1, s[|s| - 1];
    var b := BitLen(v);
    TopLimb(s);
    ValBound(s[..n]);
    BitLenBounds(v);
    BasePower(n);
    PowSum(LIMB_BITS * n, b);
    PowSum(LIMB_BITS * n, b - 1);
    ScaleBounds(Val(s[..n]), Pow(BASE, n), v, Pow2(b - 1), Pow2(b));
    BitLenIs(Val(s), LIMB_BITS * n + b);
  }

  lemma ScaleBounds(r: nat, p: nat, v: nat, lo: nat, hi: nat)
    requires r < p && lo <= v < hi
    ensures p * lo <= r + p * v < p * hi
  {
    MulMono(lo, v, p);
    MulMono(v + 1, hi, p);
    MulSucc(v, p);
  }
}
