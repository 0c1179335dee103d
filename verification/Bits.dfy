/** Bitwise operations on naturals, for the places where the limb arithmetic uses them. */
module Bits {
  import opened Rounding

  function Or(x: nat, y: nat): nat
  {
    if x == 0 && y == 0 then 0
    else 2 * Or(x / 2, y / 2) + (if x % 2 == 1 || y % 2 == 1 then 1 else 0)
  }

  function And(x: nat, y: nat): nat
  {
    if x == 0 || y == 0 then 0
    else 2 * And(x / 2, y / 2) + (if x % 2 == 1 && y % 2 == 1 then 1 else 0)
  }

  lemma {:induction false} OrZero(x: nat)
    ensures Or(x, 0) == x && Or(0, x) == x
  {
    if x > 0 {
      OrZero(x / 2);
    }
  }

  lemma {:induction false} OrIsZero(x: nat, y: nat)
    ensures Or(x, y) == 0 <==> x == 0 && y == 0
  {
    if x != 0 || y != 0 {
      OrIsZero(x / 2, y / 2);
    }
  }

  /** Numbers whose bits do not overlap. */
  lemma {:induction false} OrIsSum(x: nat, s: nat, y: nat)
    requires y < Pow2(s)
    ensures Or(x * Pow2(s), y) == x * Pow2(s) + y
    decreases s
  {
    var h := x * Pow2(s);
    if s == 0 {
      OrZero(x);
    } else if h == 0 {
      OrZero(y);
    } else {
      var p := Pow2(s - 1);
      assert h == 2 * (x * p);
      assert h / 2 == x * p && h % 2 == 0;
      OrIsSum(x, s - 1, y / 2);
    }
  }

  lemma {:induction false} OrSym(x: nat, y: nat)
    ensures Or(x, y) == Or(y, x)
  {
    if x != 0 || y != 0 {
      OrSym(x / 2, y / 2);
    }
  }

  /** Setting the last bit. */
  lemma OrOne(x: nat)
    ensures Or(x, 1) == if x % 2 == 0 then x + 1 else x
  {
    OrZero(x / 2);
  }

  lemma {:induction false} AndOnes(s: nat, y: nat)
    requires y < Pow2(s)
    ensures And(Pow2(s) - 1, y) == y
    decreases s
  {
    if y > 0 {
      var p := Pow2(s - 1);
      assert Pow2(s) == 2 * p;
      assert (2 * p - 1) / 2 == p - 1 && (2 * p - 1) % 2 == 1;
      AndOnes(s - 1, y / 2);
    }
  }

  /** The number of bits up to the highest one that is set: 32 - clz32(x). */
  function BitLen(x: nat): nat
  {
    if x == 0 then 0 else 1 + BitLen(x / 2)
  }

  lemma {:induction false} BitLenBounds(x: nat)
    requires x > 0
    ensures BitLen(x) > 0 && Pow2(BitLen(x) - 1) <= x < Pow2(BitLen(x))
  {
    if x > 1 {
      BitLenBounds(x / 2);
      var n := BitLen(x / 2);
      assert BitLen(x) == 1 + n;
      assert Pow2(n) == 2 * Pow2(n - 1) && Pow2(n + 1) == 2 * Pow2(n);
    } else {
      assert BitLen(1) == 1 + BitLen(0);
    }
  }

  lemma BitLenIs(x: nat, n: nat)
    requires n > 0 && Pow2(n - 1) <= x < Pow2(n)
    ensures BitLen(x) == n
  {
    hide Pow, BitLen;
    BitLenBounds(x);
    if BitLen(x) < n {
      PowMono(2, BitLen(x), n - 1);
    } else if BitLen(x) > n {
      PowMono(2, n, BitLen(x) - 1);
    }
  }
}
