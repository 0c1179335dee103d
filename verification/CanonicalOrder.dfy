/** sort_cc: the canonical order of combining characters. */
module CanonicalOrder {

  /** Combining classes, between 0 and 255; starters have class 0. */
  type Classes = nat -> nat

  /** Moves x, which comes after s, in front of the characters with a higher class. */
  function Insert(cc: Classes, s: seq<nat>, x: nat): (t: seq<nat>)
  {
    var k := |s| - 1;
    if s == [] || cc(x) == 0 || cc(s[k]) <= cc(x) then s + [x]
    else Insert(cc, s[..k], x) + [s[k]]
  }

  function Order(cc: Classes, s: seq<nat>): (t: seq<nat>)
  {
    if s == [] then [] else Insert(cc, Order(cc, s[..|s| - 1]), s[|s| - 1])
  }

  /** No character of a class other than 0 comes after one of a higher class. */
  ghost predicate IsOrdered(cc: Classes, s: seq<nat>)
  {
    forall k :: 0 < k < |s| ==> Fits(cc, s, k)
  }

  predicate Fits(cc: Classes, s: seq<nat>, k: nat)
    requires 0 < k < |s|
  {
    cc(s[k]) == 0 || cc(s[k - 1]) <= cc(s[k])
  }

  lemma {:induction false} InsertKeeps(cc: Classes, s: seq<nat>, x: nat)
    ensures multiset(Insert(cc, s, x)) == multiset(s) + multiset{x}
    ensures |Insert(cc, s, x)| == |s| + 1
    decreases |s|
  {
    var k := |s| - 1;
    if !(s == [] || cc(x) == 0 || cc(s[k]) <= cc(x)) {
      InsertKeeps(cc, s[..k], x);
      assert s == s[..k] + [s[k]];
    }
  }

  lemma {:induction false} OrderKeeps(cc: Classes, s: seq<nat>)
    ensures multiset(Order(cc, s)) == multiset(s) && |Order(cc, s)| == |s|
    decreases |s|
  {
    if s != [] {
      var k := |s| - 1;
      OrderKeeps(cc, s[..k]);
      InsertKeeps(cc, Order(cc, s[..k]), s[k]);
      assert s == s[..k] + [s[k]];
    }
  }

  lemma {:induction false} InsertOrders(cc: Classes, s: seq<nat>, x: nat)
    requires IsOrdered(cc, s)
    ensures IsOrdered(cc, Insert(cc, s, x))
    ensures var t := Insert(cc, s, x);
            t != [] && (t[|t| - 1] == x || (s != [] && t[|t| - 1] == s[|s| - 1] && cc(x) < cc(s[|s| - 1]) && cc(x) != 0))
    decreases |s|
  {
    var k := |s| - 1;
    var t := Insert(cc, s, x);
    if s == [] || cc(x) == 0 || cc(s[k]) <= cc(x) {
      forall i | 0 < i < |t|
        ensures Fits(cc, t, i)
      {
        assert i < |s| ==> Fits(cc, s, i);
      }
    } else {
      FrontOrdered(cc, s, k);
      InsertOrders(cc, s[..k], x);
      var u := Insert(cc, s[..k], x);
      forall i | 0 < i < |t|
        ensures Fits(cc, t, i)
      {
        if i < |u| {
          assert Fits(cc, u, i);
        } else if k > 0 {
          assert Fits(cc, s, k);
        }
      }
    }
  }

  lemma FrontOrdered(cc: Classes, s: seq<nat>, n: nat)
    requires IsOrdered(cc, s) && n <= |s|
    ensures IsOrdered(cc, s[..n])
  {
    forall k | 0 < k < n
      ensures Fits(cc, s[..n], k)
    {
      assert Fits(cc, s, k);
    }
  }

  lemma {:induction false} OrderOrders(cc: Classes, s: seq<nat>)
    ensures IsOrdered(cc, Order(cc, s))
    decreases |s|
  {
    if s != [] {
      OrderOrders(cc, s[..|s| - 1]);
      InsertOrders(cc, Order(cc, s[..|s| - 1]), s[|s| - 1]);
    }
  }

  lemma InsertLast(cc: Classes, s: seq<nat>, x: nat)
    requires s == [] || cc(x) == 0 || cc(s[|s| - 1]) <= cc(x)
    ensures Insert(cc, s, x) == s + [x]
  {
  }

  /** Ordering what is in order changes nothing. */
  lemma {:induction false} OrderedStays(cc: Classes, s: seq<nat>)
    requires IsOrdered(cc, s)
    ensures Order(cc, s) == s
    decreases |s|
  {
    if s != [] {
      hide Insert;
      var k := |s| - 1;
      FrontOrdered(cc, s, k);
      OrderedStays(cc, s[..k]);
      if k > 0 {
        assert Fits(cc, s, k);
      }
      InsertLast(cc, s[..k], s[k]);
      assert s == s[..k] + [s[k]];
    }
  }

  /** Two combining characters of different classes may be inserted in either order. */
  lemma {:induction false} InsertCommutes(cc: Classes, s: seq<nat>, x: nat, y: nat)
    requires 0 < cc(x) < cc(y)
    ensures Insert(cc, Insert(cc, s, x), y) == Insert(cc, Insert(cc, s, y), x)
    decreases |s|
  {
    var k := |s| - 1;
    if s == [] || cc(s[k]) <= cc(x) {
      assert (s + [x])[..|s|] == s && (s + [y])[..|s|] == s;
    } else if cc(s[k]) <= cc(y) {
      assert (s + [y])[..|s|] == s;
      var u := Insert(cc, s[..k], x) + [s[k]];
      assert u[|u| - 1] == s[k];
    } else {
      InsertCommutes(cc, s[..k], x, y);
      LastMoves(cc, s, x, y);
      LastMoves(cc, s, y, x);
    }
  }

  lemma LastMoves(cc: Classes, s: seq<nat>, x: nat, y: nat)
    requires s != [] && cc(x) > 0 && cc(y) > 0 && cc(s[|s| - 1]) > cc(x) && cc(s[|s| - 1]) > cc(y)
    ensures Insert(cc, Insert(cc, s, x), y) == Insert(cc, Insert(cc, s[..|s| - 1], x), y) + [s[|s| - 1]]
  {
    var k := |s| - 1;
    var u := Insert(cc, s[..k], x);
    assert Insert(cc, s, x) == u + [s[k]];
    assert (u + [s[k]])[..|u|] == u;
  }

  lemma OrderSnoc(cc: Classes, s: seq<nat>, x: nat)
    ensures Order(cc, s + [x]) == Insert(cc, Order(cc, s), x)
  {
    assert (s + [x])[..|s|] == s;
  }

  /** What follows does not matter for two sequences that order to the same. */
  lemma {:induction false} OrderTail(cc: Classes, s: seq<nat>, t: seq<nat>, u: seq<nat>)
    requires Order(cc, s) == Order(cc, t)
    ensures Order(cc, s + u) == Order(cc, t + u)
    decreases |u|
  {
    if u == [] {
      assert s + u == s && t + u == t;
    } else {
      var k := |u| - 1;
      OrderTail(cc, s, t, u[..k]);
      assert s + u == (s + u[..k]) + [u[k]] && t + u == (t + u[..k]) + [u[k]];
      OrderSnoc(cc, s + u[..k], u[k]);
      OrderSnoc(cc, t + u[..k], u[k]);
    }
  }

  lemma OrderSwap(cc: Classes, s: seq<nat>, y: nat, x: nat)
    requires 0 < cc(y) < cc(x)
    ensures Order(cc, s + [y] + [x]) == Order(cc, s + [x] + [y])
  {
    hide Insert, Order;
    OrderSnoc(cc, s + [y], x);
    OrderSnoc(cc, s, y);
    InsertCommutes(cc, Order(cc, s), y, x);
    OrderSnoc(cc, s, x);
    OrderSnoc(cc, s + [x], y);
  }

  /** A combining character may move in front of others of lower classes. */
  lemma {:induction false} OrderMove(cc: Classes, s: seq<nat>, mid: seq<nat>, x: nat)
    requires forall k :: 0 <= k < |mid| ==> 0 < cc(mid[k]) < cc(x)
    ensures Order(cc, s + mid + [x]) == Order(cc, s + [x] + mid)
    decreases |mid|
  {
    hide Insert, Order;
    if mid == [] {
      assert s + mid + [x] == s + [x] + mid;
    } else {
      var k := |mid| - 1;
      var front, y := mid[..k], mid[k];
      assert s + mid + [x] == s + front + [y] + [x];
      OrderSwap(cc, s + front, y, x);
      OrderMove(cc, s, front, x);
      OrderTail(cc, s + front + [x], s + [x] + front, [y]);
      assert s + [x] + mid == s + [x] + front + [y];
    }
  }

  /** Where the insertion ends: after k, which does not have to move. */
  lemma {:induction false} InsertAt(cc: Classes, s: seq<nat>, x: nat, n: nat)
    requires n <= |s| && cc(x) > 0
    requires forall k :: n <= k < |s| ==> cc(s[k]) > cc(x)
    requires n > 0 ==> cc(s[n - 1]) <= cc(x)
    ensures Insert(cc, s, x) == s[..n] + [x] + s[n..]
    decreases |s|
  {
    var k := |s| - 1;
    if n < |s| {
      InsertAt(cc, s[..k], x, n);
      assert s[..k][..n] == s[..n] && s[..k][n..] + [s[k]] == s[n..];
    } else {
      assert s[..n] == s && s[n..] == [];
    }
  }

  // ----- what the order keeps -----

  /** The starters and the characters of class k, as they come. */
  function Only(cc: Classes, s: seq<nat>, k: nat): (t: seq<nat>)
  {
    if s == [] then []
    else
      var x := s[|s| - 1];
      Only(cc, s[..|s| - 1], k) + if cc(x) == 0 || cc(x) == k then [x] else []
  }

  /** Starters keep their places among the characters of each class, and those of a class their order. */
  ghost predicate SameOfEach(cc: Classes, s: seq<nat>, t: seq<nat>)
  {
    forall k: nat :: Only(cc, s, k) == Only(cc, t, k)
  }

  lemma OnlySnoc(cc: Classes, s: seq<nat>, x: nat, k: nat)
    ensures Only(cc, s + [x], k) == Only(cc, s, k) + if cc(x) == 0 || cc(x) == k then [x] else []
  {
    assert (s + [x])[..|s|] == s;
  }

  lemma {:induction false} InsertOnly(cc: Classes, s: seq<nat>, x: nat, k: nat)
    ensures Only(cc, Insert(cc, s, x), k) == Only(cc, s + [x], k)
    decreases |s|
  {
    var n := |s| - 1;
    if !(s == [] || cc(x) == 0 || cc(s[n]) <= cc(x)) {
      var front, y := s[..n], s[n];
      assert s == front + [y];
      InsertOnly(cc, front, x, k);
      OnlySnoc(cc, Insert(cc, front, x), y, k);
      OnlySnoc(cc, front, x, k);
      OnlySnoc(cc, front, y, k);
      OnlySnoc(cc, s, x, k);
    }
  }

  lemma {:induction false} OrderOnly(cc: Classes, s: seq<nat>, k: nat)
    ensures Only(cc, Order(cc, s), k) == Only(cc, s, k)
    decreases |s|
  {
    if s != [] {
      var n := |s| - 1;
      var front, x := s[..n], s[n];
      assert s == front + [x];
      OrderOnly(cc, front, k);
      InsertOnly(cc, Order(cc, front), x, k);
      OnlySnoc(cc, Order(cc, front), x, k);
      OnlySnoc(cc, front, x, k);
    }
  }

  /** If no starter comes after the last character of class k, the text ends with a class that is not lower. */
  lemma {:induction false} EndsAbove(cc: Classes, t: seq<nat>, k: nat)
    requires IsOrdered(cc, t) && k > 0
    requires var u := Only(cc, t, k); u != [] && cc(u[|u| - 1]) == k
    ensures t != [] && cc(t[|t| - 1]) >= k
    decreases |t|
  {
    var n := |t| - 1;
    if cc(t[n]) != 0 && cc(t[n]) != k {
      FrontOrdered(cc, t, n);
      EndsAbove(cc, t[..n], k);
      assert Fits(cc, t, n);
    }
  }

  lemma SameLast(cc: Classes, t: seq<nat>, u: seq<nat>)
    requires IsOrdered(cc, t) && IsOrdered(cc, u) && SameOfEach(cc, t, u) && t != [] && u != []
    ensures t[|t| - 1] == u[|u| - 1]
  {
    var a, b := t[|t| - 1], u[|u| - 1];
    OnlyEnds(cc, t);
    OnlyEnds(cc, u);
    assert Only(cc, t, cc(a)) == Only(cc, u, cc(a)) && Only(cc, t, cc(b)) == Only(cc, u, cc(b));
    if cc(a) != 0 && cc(b) != 0 && cc(a) != cc(b) {
      if cc(a) < cc(b) {
        EndsAbove(cc, t, cc(b));
      } else {
        EndsAbove(cc, u, cc(a));
      }
    }
  }

  lemma OnlyEnds(cc: Classes, t: seq<nat>)
    requires t != []
    ensures var a := t[|t| - 1];
            forall k: nat :: k == cc(a) || cc(a) == 0 ==> Only(cc, t, k) != [] && Only(cc, t, k)[|Only(cc, t, k)| - 1] == a
  {
  }

  lemma NotEmptyToo(cc: Classes, t: seq<nat>, u: seq<nat>)
    requires SameOfEach(cc, t, u) && t != []
    ensures u != []
  {
    var k := cc(t[|t| - 1]);
    OnlyEnds(cc, t);
    assert Only(cc, t, k) == Only(cc, u, k);
  }

  lemma CancelLast(p: seq<nat>, q: seq<nat>, a: nat)
    requires p + [a] == q + [a]
    ensures p == q
  {
    assert p == (p + [a])[..|p|] && q == (q + [a])[..|q|];
    assert |p + [a]| == |p| + 1 && |q + [a]| == |q| + 1;
  }

  lemma {:induction false} OneOrder(cc: Classes, t: seq<nat>, u: seq<nat>)
    requires IsOrdered(cc, t) && IsOrdered(cc, u) && SameOfEach(cc, t, u)
    ensures t == u
    decreases |t|
  {
    if t != [] {
      NotEmptyToo(cc, t, u);
    }
    if u != [] {
      NotEmptyToo(cc, u, t);
    }
    if t != [] {
      SameLast(cc, t, u);
      var t', u', a := t[..|t| - 1], u[..|u| - 1], t[|t| - 1];
      assert t == t' + [a] && u == u' + [a];
      forall k: nat
        ensures Only(cc, t', k) == Only(cc, u', k)
      {
        OnlySnoc(cc, t', a, k);
        OnlySnoc(cc, u', a, k);
        assert Only(cc, t, k) == Only(cc, u, k);
        if cc(a) == 0 || cc(a) == k {
          CancelLast(Only(cc, t', k), Only(cc, u', k), a);
        } else {
          assert Only(cc, t', k) + [] == Only(cc, t', k) && Only(cc, u', k) + [] == Only(cc, u', k);
        }
      }
      FrontOrdered(cc, t, |t| - 1);
      FrontOrdered(cc, u, |u| - 1);
      OneOrder(cc, t', u');
    }
  }

  /** The canonical order is the only text in order that has the same starters and characters of each class. */
  lemma OrderDetermined(cc: Classes, s: seq<nat>, t: seq<nat>)
    ensures t == Order(cc, s) <==> IsOrdered(cc, t) && SameOfEach(cc, s, t)
  {
    hide Order, IsOrdered, Only;
    OrderOrders(cc, s);
    forall k: nat
      ensures Only(cc, Order(cc, s), k) == Only(cc, s, k)
    {
      OrderOnly(cc, s, k);
    }
    if IsOrdered(cc, t) && SameOfEach(cc, s, t) {
      OneOrder(cc, Order(cc, s), t);
    }
  }
}
