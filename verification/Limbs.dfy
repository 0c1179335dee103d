/** Numbers as little-endian sequences of 32-bit limbs, and the loops that work on them in place. */
module Limbs {
  import opened Rounding
  import opened Bits

  const LIMB_BITS: nat := 32
  const BASE: nat := 0x1_0000_0000
  const U64: nat := 0x1_0000_0000_0000_0000

  type Limb = x: nat | x < 0x1_0000_0000

  function Val(s: seq<Limb>): nat
  {
    if s == [] then 0 else s[0] + BASE * Val(s[1..])
  }

  lemma BaseIsPower()
    ensures Pow2(LIMB_BITS) == BASE
  {
    PowAdd(2, 8, 8);
    PowAdd(2, 16, 16);
    assert Pow(2, 8) == 0x100;
  }

  lemma {:induction false} ValAppend(s: seq<Limb>, t: seq<Limb>)
    ensures Val(s + t) == Val(s) + Pow(BASE, |s|) * Val(t)
  {
    if s == [] {
      assert s + t == t;
    } else {
      ValAppend(s[1..], t);
      assert (s + t)[1..] == s[1..] + t;
      var p, v := Pow(BASE, |s| - 1), Val(t);
      assert BASE * (p * v) == BASE * p * v;
    }
  }

  lemma ValSnoc(s: seq<Limb>, i: nat)
    requires i < |s|
    ensures Val(s[..i + 1]) == Val(s[..i]) + Pow(BASE, i) * s[i]
  {
    assert s[..i + 1] == s[..i] + [s[i]];
    ValAppend(s[..i], [s[i]]);
    assert [s[i]][1..] == [];
  }

  lemma ValCons(s: seq<Limb>, i: nat)
    requires i < |s|
    ensures Val(s[i..]) == s[i] + BASE * Val(s[i..][1..])
  {
  }

  lemma {:induction false} ValBound(s: seq<Limb>)
    ensures Val(s) < Pow(BASE, |s|)
  {
    if s != [] {
      ValBound(s[1..]);
    }
  }

  lemma {:induction false} ValIsZero(s: seq<Limb>)
    ensures Val(s) == 0 <==> forall i :: 0 <= i < |s| ==> s[i] == 0
  {
    if s != [] {
      ValIsZero(s[1..]);
      if forall i :: 0 <= i < |s| ==> s[i] == 0 {
        forall i | 0 <= i < |s[1..]|
          ensures s[1..][i] == 0
        {
        }
      }
    }
  }
}
