/** unicode_normalize: decomposition, canonical order and composition. */
module Normalize {
  import opened CanonicalOrder

  // ----- Hangul -----

  const L_BASE: nat := 0x1100
  const V_BASE: nat := 0x1161
  const T_BASE: nat := 0x11A7
  const S_BASE: nat := 0xAC00

  predicate IsSyllable(c: nat) { S_BASE <= c < S_BASE + 11172 }

  predicate IsL(c: nat) { L_BASE <= c < L_BASE + 19 }

  predicate IsV(c: nat) { V_BASE <= c < V_BASE + 21 }

  /** Trailing consonants; the place before the first one is U+11A7, which is none. */
  predicate IsT(c: nat) { T_BASE < c < T_BASE + 28 }

  predicate IsLV(c: nat) { IsSyllable(c) && (c - S_BASE) % 28 == 0 }

  function Jamo(c: nat): (s: seq<nat>)
    requires IsSyllable(c)
  {
    var d := c - S_BASE;
    var v := d % 28;
    [L_BASE + d / 588, V_BASE + d % 588 / 28] + if v != 0 then [T_BASE + v] else []
  }

  // ----- the tables -----

  /** The decomposition of a character (empty if it has none), its combining class, and the character that
      a pair composes to (zero if there is none). */
  datatype Tables = Tables(dec: nat -> seq<nat>, cc: nat -> nat, pair: (nat, nat) -> nat, ghost rank: nat -> nat)

  /** What holds of the generated tables: a pair composes to the character that decomposes to it, which is a
      starter if the first of the pair is one; decompositions are finite; the jamo take no part. */
  ghost predicate GoodTables(t: Tables)
  {
    (forall c, k :: 0 <= k < |t.dec(c)| ==> t.rank(t.dec(c)[k]) < t.rank(c)) &&
    (forall c :: t.cc(c) < 256) &&
    (forall c, d :: t.pair(c, d) != 0 ==> Composes(t, c, d)) &&
    (forall c :: IsSyllable(c) || IsL(c) || IsV(c) || IsT(c) || c == T_BASE ==> t.cc(c) == 0) &&
    (forall c :: IsL(c) || IsV(c) || IsT(c) ==> t.dec(c) == [])
  }

  ghost predicate Composes(t: Tables, c: nat, d: nat)
  {
    var p := t.pair(c, d);
    t.dec(p) == [c, d] && !IsSyllable(p) && !IsSyllable(c) && !IsL(d) && (t.cc(c) == 0 ==> t.cc(p) == 0)
  }

  // ----- decomposition -----

  /** The full decomposition of a character. */
  ghost function DecompChar(t: Tables, c: nat): (s: seq<nat>)
    requires GoodTables(t)
    decreases t.rank(c) + 1, 0
  {
    if IsSyllable(c) then Jamo(c)
    else if t.dec(c) == [] then [c]
    else DecompAll(t, t.dec(c), t.rank(c))
  }

  ghost function DecompAll(t: Tables, s: seq<nat>, bound: nat): (r: seq<nat>)
    requires GoodTables(t) && forall k :: 0 <= k < |s| ==> t.rank(s[k]) < bound
    decreases bound, |s|
  {
    if s == [] then [] else DecompChar(t, s[0]) + DecompAll(t, s[1..], bound)
  }

  /** The full decomposition of a text. */
  ghost function Decomp(t: Tables, s: seq<nat>): (r: seq<nat>)
    requires GoodTables(t)
  {
    if s == [] then [] else DecompChar(t, s[0]) + Decomp(t, s[1..])
  }

  lemma {:induction false} AllIsDecomp(t: Tables, s: seq<nat>, bound: nat)
    requires GoodTables(t) && forall k :: 0 <= k < |s| ==> t.rank(s[k]) < bound
    ensures DecompAll(t, s, bound) == Decomp(t, s)
    decreases |s|
  {
    hide GoodTables;
    if s != [] {
      AllIsDecomp(t, s[1..], bound);
    }
  }

  lemma {:induction false} DecompAppend(t: Tables, s: seq<nat>, u: seq<nat>)
    requires GoodTables(t)
    ensures Decomp(t, s + u) == Decomp(t, s) + Decomp(t, u)
    decreases |s|
  {
    hide GoodTables, DecompChar;
    if s == [] {
      assert s + u == u;
    } else {
      DecompAppend(t, s[1..], u);
      assert (s + u)[1..] == s[1..] + u;
    }
  }

  lemma DecompOne(t: Tables, c: nat)
    requires GoodTables(t)
    ensures Decomp(t, [c]) == DecompChar(t, c)
  {
    hide GoodTables, DecompChar;
    assert [c][1..] == [];
  }

  /** A character that is its own decomposition. */
  ghost predicate Final(t: Tables, c: nat)
    requires GoodTables(t)
  {
    DecompChar(t, c) == [c]
  }

  ghost predicate AllFinal(t: Tables, s: seq<nat>)
    requires GoodTables(t)
  {
    forall k :: 0 <= k < |s| ==> Final(t, s[k])
  }

  lemma JamoFinal(t: Tables, c: nat)
    requires GoodTables(t) && (IsL(c) || IsV(c) || IsT(c))
    ensures Final(t, c)
  {
  }

  lemma FinalMeans(t: Tables, c: nat)
    requires GoodTables(t)
    ensures Final(t, c) <==> !IsSyllable(c) && t.dec(c) == []
  {
    if !IsSyllable(c) && t.dec(c) != [] {
      NotItself(t, t.dec(c), t.rank(c), c);
    }
  }

  /** What a decomposition leads to has a lower rank, so the character itself is not in it, unless through a syllable. */
  lemma {:induction false} NotItself(t: Tables, s: seq<nat>, bound: nat, x: nat)
    requires GoodTables(t) && forall k :: 0 <= k < |s| ==> t.rank(s[k]) < bound
    requires bound <= t.rank(x) && !IsSyllable(x) && t.dec(x) != []
    ensures x !in DecompAll(t, s, bound)
    decreases bound, |s|
  {
    if s != [] {
      var d := s[0];
      if IsSyllable(d) {
        forall y | y in Jamo(d)
          ensures y != x
        {
          JamoAre(d);
        }
      } else if t.dec(d) != [] {
        NotItself(t, t.dec(d), t.rank(d), x);
      }
      NotItself(t, s[1..], bound, x);
    }
  }

  lemma JamoAre(c: nat)
    requires IsSyllable(c)
    ensures var s := Jamo(c);
            2 <= |s| <= 3 && IsL(s[0]) && IsV(s[1]) && (|s| == 3 ==> IsT(s[2])) && (IsLV(c) <==> |s| == 2)
  {
  }

  /** Everything in a full decomposition is final. */
  lemma {:induction false} DecompCharFinal(t: Tables, c: nat)
    requires GoodTables(t)
    ensures AllFinal(t, DecompChar(t, c))
    decreases t.rank(c) + 1, 0
  {
    hide GoodTables, Final;
    if IsSyllable(c) {
      JamoAre(c);
      var s := Jamo(c);
      forall k | 0 <= k < |s|
        ensures Final(t, s[k])
      {
        JamoFinal(t, s[k]);
      }
    } else if t.dec(c) == [] {
      FinalMeans(t, c);
    } else {
      RankFalls(t, c);
      DecompAllFinal(t, t.dec(c), t.rank(c));
    }
  }

  lemma RankFalls(t: Tables, c: nat)
    requires GoodTables(t)
    ensures forall k :: 0 <= k < |t.dec(c)| ==> t.rank(t.dec(c)[k]) < t.rank(c)
  {
  }

  lemma {:induction false} DecompAllFinal(t: Tables, s: seq<nat>, bound: nat)
    requires GoodTables(t) && forall k :: 0 <= k < |s| ==> t.rank(s[k]) < bound
    ensures AllFinal(t, DecompAll(t, s, bound))
    decreases bound, |s|
  {
    hide GoodTables, Final, DecompChar;
    if s != [] {
      DecompCharFinal(t, s[0]);
      DecompAllFinal(t, s[1..], bound);
    }
  }

  lemma {:induction false} DecompFinal(t: Tables, s: seq<nat>)
    requires GoodTables(t)
    ensures AllFinal(t, Decomp(t, s))
    decreases |s|
  {
    hide GoodTables, Final, DecompChar;
    if s != [] {
      DecompCharFinal(t, s[0]);
      DecompFinal(t, s[1..]);
    }
  }

  lemma {:induction false} FinalStays(t: Tables, s: seq<nat>)
    requires GoodTables(t) && AllFinal(t, s)
    ensures Decomp(t, s) == s
    decreases |s|
  {
    hide GoodTables, DecompChar;
    if s != [] {
      assert Final(t, s[0]);
      FinalStays(t, s[1..]);
    }
  }

  // ----- composition -----

  /** compose_pair. */
  function ComposePair(t: Tables, c0: nat, c1: nat): nat
  {
    if IsL(c0) && IsV(c1) then S_BASE + (c0 - L_BASE) * 588 + (c1 - V_BASE) * 28
    else if IsLV(c0) && T_BASE <= c1 < T_BASE + 28 then c0 + c1 - T_BASE
    else t.pair(c0, c1)
  }

  /** The place among the first n of a starter that x is not blocked from, or -1. */
  function StarterPos(t: Tables, out: seq<nat>, n: nat, last: nat): (p: int)
    requires n <= |out|
    ensures -1 <= p < n
  {
    if n == 0 then -1
    else
      var c := t.cc(out[n - 1]);
      if c == 0 then n - 1 else if c >= last then -1 else StarterPos(t, out, n - 1, 256)
  }

  /** One step of the composition loop. */
  function Take(t: Tables, out: seq<nat>, x: nat): seq<nat>
  {
    var sp := StarterPos(t, out, |out|, t.cc(x));
    if sp >= 0 && ComposePair(t, out[sp], x) != 0 then out[sp := ComposePair(t, out[sp], x)] else out + [x]
  }

  function ComposeAll(t: Tables, out: seq<nat>, rest: seq<nat>): seq<nat>
    decreases |rest|
  {
    if rest == [] then out else ComposeAll(t, Take(t, out, rest[0]), rest[1..])
  }

  /** A pair that composes is the decomposition of what it composes to; only U+11A7 after an LV syllable is lost. */
  lemma PairDecomposes(t: Tables, c0: nat, c1: nat)
    requires GoodTables(t) && Final(t, c1) && ComposePair(t, c0, c1) != 0 && t.cc(c0) == 0
    ensures var p := ComposePair(t, c0, c1);
            t.cc(p) == 0 &&
            DecompChar(t, p) == if IsLV(c0) && c1 == T_BASE then DecompChar(t, c0) else DecompChar(t, c0) + [c1]
    ensures var p := ComposePair(t, c0, c1);
            !IsL(p) && (IsLV(p) <==> (IsL(c0) && IsV(c1)) || (IsLV(c0) && c1 == T_BASE))
  {
    var p := ComposePair(t, c0, c1);
    if IsL(c0) && IsV(c1) {
      HangulPair(c0, c1);
      JamoFinal(t, c0);
    } else if IsLV(c0) && T_BASE <= c1 < T_BASE + 28 {
      HangulTriple(c0, c1);
    } else {
      TablePair(t, c0, c1);
    }
  }

  lemma HangulPair(c0: nat, c1: nat)
    requires IsL(c0) && IsV(c1)
    ensures var p := S_BASE + (c0 - L_BASE) * 588 + (c1 - V_BASE) * 28;
            IsSyllable(p) && IsLV(p) && Jamo(p) == [c0, c1]
  {
    var a, b := c0 - L_BASE, c1 - V_BASE;
    var d := a * 588 + b * 28;
    assert d / 588 == a && d % 588 == b * 28 && d % 28 == 0;
  }

  lemma HangulTriple(c0: nat, c1: nat)
    requires IsLV(c0) && T_BASE <= c1 < T_BASE + 28
    ensures var p := c0 + c1 - T_BASE;
            IsSyllable(p) && Jamo(p) == (if c1 == T_BASE then Jamo(c0) else Jamo(c0) + [c1]) && (IsLV(p) <==> c1 == T_BASE)
  {
    var d, v := c0 - S_BASE, c1 - T_BASE;
    var q := d / 28;
    assert d == 28 * q;
    assert (d + v) % 28 == v && (d + v) / 28 == q;
    assert (d + v) / 588 == d / 588 && (d + v) % 588 == d % 588 + v;
  }

  lemma TablePair(t: Tables, c0: nat, c1: nat)
    requires GoodTables(t) && Final(t, c1) && t.pair(c0, c1) != 0
    ensures var p := t.pair(c0, c1);
            !IsSyllable(p) && !IsL(p) && !IsSyllable(c0) && DecompChar(t, p) == DecompChar(t, c0) + [c1] &&
            (t.cc(c0) == 0 ==> t.cc(p) == 0)
  {
    var p := t.pair(c0, c1);
    assert Composes(t, c0, c1);
    assert t.dec(p)[0] == c0 && t.dec(p)[1] == c1;
    RankFalls(t, p);
    AllIsDecomp(t, t.dec(p), t.rank(p));
    DecompAppend(t, [c0], [c1]);
    assert [c0] + [c1] == [c0, c1];
    DecompOne(t, c0);
    DecompOne(t, c1);
  }

  // ----- what the composition loop keeps -----

  lemma {:induction false} StarterPosIs(t: Tables, out: seq<nat>, n: nat, last: nat)
    requires n <= |out|
    ensures var p := StarterPos(t, out, n, last);
            p >= 0 ==> t.cc(out[p]) == 0 && (forall k :: p < k < n ==> t.cc(out[k]) > 0) && (p < n - 1 ==> t.cc(out[n - 1]) < last)
  {
    if n > 0 && t.cc(out[n - 1]) != 0 && t.cc(out[n - 1]) < last {
      StarterPosIs(t, out, n - 1, 256);
    }
  }

  /** A starter can only be composed with the character right before it. */
  lemma StarterNext(t: Tables, out: seq<nat>)
    requires out != []
    ensures StarterPos(t, out, |out|, 0) == if t.cc(out[|out| - 1]) == 0 then |out| - 1 else -1
  {
  }

  /** The state of the loop: `out` has been made of the first i characters of `all`. */
  ghost predicate Composing(t: Tables, all: seq<nat>, out: seq<nat>, i: nat)
    requires GoodTables(t)
  {
    0 < i <= |all| && out != [] && IsOrdered(t.cc, out) &&
    (forall k :: 0 <= k < |out| && t.cc(out[k]) != 0 ==> Final(t, out[k])) &&
    (i < |all| ==> t.cc(all[i]) == 0 || t.cc(out[|out| - 1]) <= t.cc(all[i])) &&
    |Decomp(t, out)| <= i
  }

  /** How Hangul at the end of `out` came about. */
  ghost predicate HangulSeen(all: seq<nat>, out: seq<nat>, i: nat)
    requires 0 < i <= |all| && out != []
  {
    var last := out[|out| - 1];
    (IsL(last) ==> all[i - 1] == last) && (IsLV(last) ==> i >= 2 && IsL(all[i - 2]) && IsV(all[i - 1]))
  }

  /** The step that loses a character. */
  predicate Drops(t: Tables, out: seq<nat>, x: nat)
  {
    var sp := StarterPos(t, out, |out|, t.cc(x));
    sp >= 0 && IsLV(out[sp]) && x == T_BASE
  }

  lemma {:induction false} MidRises(t: Tables, out: seq<nat>, p: nat, k: nat, n: nat)
    requires p < k <= n < |out| && IsOrdered(t.cc, out) && forall k :: p < k < |out| ==> t.cc(out[k]) > 0
    ensures t.cc(out[k]) <= t.cc(out[n])
    decreases n
  {
    if k < n {
      MidRises(t, out, p, k, n - 1);
      assert Fits(t.cc, out, n);
    }
  }

  /** The parts of `out` in a composition step, and what they decompose to. */
  lemma StepParts(t: Tables, out: seq<nat>, sp: nat, p: nat)
    requires GoodTables(t) && sp < |out|
    requires forall k :: 0 <= k < |out| && t.cc(out[k]) != 0 ==> Final(t, out[k])
    requires forall k :: sp < k < |out| ==> t.cc(out[k]) > 0
    ensures Decomp(t, out) == Decomp(t, out[..sp]) + DecompChar(t, out[sp]) + out[sp + 1..]
    ensures Decomp(t, out[sp := p]) == Decomp(t, out[..sp]) + DecompChar(t, p) + out[sp + 1..]
  {
    hide GoodTables, DecompChar, Decomp;
    var pre, mid := out[..sp], out[sp + 1..];
    FinalStays(t, mid);
    DecompOne(t, out[sp]);
    DecompOne(t, p);
    DecompAppend(t, pre, [out[sp]]);
    DecompAppend(t, pre + [out[sp]], mid);
    DecompAppend(t, pre, [p]);
    DecompAppend(t, pre + [p], mid);
    assert out == pre + [out[sp]] + mid && out[sp := p] == pre + [p] + mid;
  }

  /** What a step that composes does to the text that `out` stands for. */
  lemma StepComposes(t: Tables, all: seq<nat>, out: seq<nat>, i: nat)
    requires GoodTables(t) && Composing(t, all, out, i) && i < |all| && Final(t, all[i])
    requires var sp := StarterPos(t, out, |out|, t.cc(all[i])); sp >= 0 && ComposePair(t, out[sp], all[i]) != 0
    ensures var out' := Take(t, out, all[i]);
            if Drops(t, out, all[i]) then |Decomp(t, out')| == |Decomp(t, out)|
            else |Decomp(t, out')| == |Decomp(t, out)| + 1 &&
                 Order(t.cc, Decomp(t, out) + [all[i]]) == Order(t.cc, Decomp(t, out'))
  {
    hide GoodTables, DecompChar, Decomp, Final, ComposePair, Order;
    var x := all[i];
    var sp := StarterPos(t, out, |out|, t.cc(x));
    var p := ComposePair(t, out[sp], x);
    StarterPosIs(t, out, |out|, t.cc(x));
    StepParts(t, out, sp, p);
    PairDecomposes(t, out[sp], x);
    if !Drops(t, out, x) {
      var s, mid := Decomp(t, out[..sp]) + DecompChar(t, out[sp]), out[sp + 1..];
      assert Decomp(t, out[sp := p]) == s + [x] + mid;
      forall k | 0 <= k < |mid|
        ensures 0 < t.cc(mid[k]) < t.cc(x)
      {
        MidRises(t, out, sp, sp + 1 + k, |out| - 1);
      }
      OrderMove(t.cc, s, mid, x);
    }
  }

  lemma StepAppends(t: Tables, out: seq<nat>, x: nat)
    requires GoodTables(t) && Final(t, x)
    ensures Decomp(t, out + [x]) == Decomp(t, out) + [x]
  {
    DecompAppend(t, out, [x]);
    DecompOne(t, x);
  }

  lemma OrderedStep(t: Tables, all: seq<nat>, out: seq<nat>, i: nat)
    requires GoodTables(t) && Composing(t, all, out, i) && i < |all| && Final(t, all[i]) && IsOrdered(t.cc, all)
    ensures var out' := Take(t, out, all[i]);
            out' != [] && IsOrdered(t.cc, out') &&
            (forall k :: 0 <= k < |out'| && t.cc(out'[k]) != 0 ==> Final(t, out'[k])) &&
            (i + 1 < |all| ==> t.cc(all[i + 1]) == 0 || t.cc(out'[|out'| - 1]) <= t.cc(all[i + 1]))
  {
    hide GoodTables, Decomp, Final, ComposePair;
    var x := all[i];
    var out' := Take(t, out, x);
    var sp := StarterPos(t, out, |out|, t.cc(x));
    StarterPosIs(t, out, |out|, t.cc(x));
    if i + 1 < |all| {
      assert Fits(t.cc, all, i + 1);
    }
    if sp >= 0 && ComposePair(t, out[sp], x) != 0 {
      PairDecomposes(t, out[sp], x);
      forall k | 0 < k < |out'|
        ensures Fits(t.cc, out', k)
      {
        assert Fits(t.cc, out, k);
      }
    } else {
      forall k | 0 < k < |out'|
        ensures Fits(t.cc, out', k)
      {
        assert k < |out| ==> Fits(t.cc, out, k);
      }
    }
  }

  lemma HangulStep(t: Tables, all: seq<nat>, out: seq<nat>, i: nat)
    requires GoodTables(t) && Composing(t, all, out, i) && i < |all| && Final(t, all[i])
    requires HangulSeen(all, out, i) && !Drops(t, out, all[i])
    ensures HangulSeen(all, Take(t, out, all[i]), i + 1)
  {
    var x := all[i];
    var out' := Take(t, out, x);
    var sp := StarterPos(t, out, |out|, t.cc(x));
    StarterPosIs(t, out, |out|, t.cc(x));
    FinalMeans(t, x);
    if sp >= 0 && ComposePair(t, out[sp], x) != 0 {
      PairDecomposes(t, out[sp], x);
    }
  }

  /** L, V and U+11A7 in a row: what normalization loses the last of. */
  ghost predicate HasDrop(all: seq<nat>)
  {
    exists k :: 0 <= k < |all| - 2 && DropAt(all, k)
  }

  predicate DropAt(all: seq<nat>, k: nat)
    requires k + 2 < |all|
  {
    IsL(all[k]) && IsV(all[k + 1]) && all[k + 2] == T_BASE
  }

  /** Without them, no step loses anything. */
  lemma NeverDrops(t: Tables, all: seq<nat>, out: seq<nat>, i: nat)
    requires GoodTables(t) && Composing(t, all, out, i) && i < |all| && HangulSeen(all, out, i) && !HasDrop(all)
    ensures !Drops(t, out, all[i])
  {
    if Drops(t, out, all[i]) {
      StarterNext(t, out);
      assert DropAt(all, i - 2);
    }
  }

  /** The rest of the loop keeps what `out` and the rest stand for. */
  lemma {:induction false} ComposeKeeps(t: Tables, all: seq<nat>, out: seq<nat>, i: nat)
    requires GoodTables(t) && AllFinal(t, all) && IsOrdered(t.cc, all) && !HasDrop(all)
    requires Composing(t, all, out, i) && HangulSeen(all, out, i)
    requires Order(t.cc, Decomp(t, out) + all[i..]) == all
    ensures Order(t.cc, Decomp(t, ComposeAll(t, out, all[i..]))) == all
    decreases |all| - i
  {
    hide GoodTables, Decomp, Final, Take, Order, Drops, HasDrop, IsOrdered;
    if i == |all| {
      assert Decomp(t, out) + all[i..] == Decomp(t, out);
    } else {
      var x := all[i];
      var out' := Take(t, out, x);
      assert Final(t, x);
      assert all[i..][0] == x && all[i..][1..] == all[i + 1..];
      NeverDrops(t, all, out, i);
      HangulStep(t, all, out, i);
      OrderedStep(t, all, out, i);
      StepKeeps(t, all, out, i);
      OrderTail(t.cc, Decomp(t, out) + [x], Decomp(t, out'), all[i + 1..]);
      assert Decomp(t, out) + [x] + all[i + 1..] == Decomp(t, out) + all[i..];
      ComposeKeeps(t, all, out', i + 1);
    }
  }

  lemma StepKeeps(t: Tables, all: seq<nat>, out: seq<nat>, i: nat)
    requires GoodTables(t) && Composing(t, all, out, i) && i < |all| && Final(t, all[i])
    ensures var out' := Take(t, out, all[i]);
            |Decomp(t, out')| <= |Decomp(t, out)| + 1 &&
            if Drops(t, out, all[i]) then |Decomp(t, out')| == |Decomp(t, out)|
            else Order(t.cc, Decomp(t, out) + [all[i]]) == Order(t.cc, Decomp(t, out'))
  {
    hide GoodTables, Decomp, Final, Order, ComposePair, Composing;
    var x := all[i];
    var sp := StarterPos(t, out, |out|, t.cc(x));
    if sp >= 0 && ComposePair(t, out[sp], x) != 0 {
      StepComposes(t, all, out, i);
    } else {
      StepAppends(t, out, x);
      if sp >= 0 {
        DropPair(t, out[sp], x);
      }
    }
  }

  lemma DropPair(t: Tables, c: nat, x: nat)
    ensures IsLV(c) && x == T_BASE ==> ComposePair(t, c, x) != 0
  {
  }

  /** Where the loop is with respect to a place k with L, V and U+11A7. */
  ghost predicate TowardsDrop(t: Tables, all: seq<nat>, out: seq<nat>, i: nat, k: nat)
    requires GoodTables(t) && out != [] && k + 2 < |all|
  {
    (i == k + 1 ==> out[|out| - 1] == all[k]) &&
    (i == k + 2 ==> IsLV(out[|out| - 1])) &&
    (i >= k + 3 ==> |Decomp(t, out)| < i)
  }

  lemma DropStep(t: Tables, all: seq<nat>, out: seq<nat>, i: nat, k: nat)
    requires GoodTables(t) && Composing(t, all, out, i) && i < |all| && Final(t, all[i])
    requires k + 2 < |all| && DropAt(all, k) && TowardsDrop(t, all, out, i, k)
    requires var out' := Take(t, out, all[i]);
             out' != [] && |Decomp(t, out')| <= |Decomp(t, out)| + 1 &&
             (Drops(t, out, all[i]) ==> |Decomp(t, out')| == |Decomp(t, out)|)
    ensures TowardsDrop(t, all, Take(t, out, all[i]), i + 1, k)
  {
    hide Decomp, Final;
    var x, last := all[i], out[|out| - 1];
    StarterNext(t, out);
    if i == k {
      NoPairWithL(t, out, x);
    } else if i == k + 1 {
      HangulPair(last, x);
    }
  }

  lemma PairSecond(t: Tables, c: nat, d: nat)
    requires GoodTables(t)
    ensures t.pair(c, d) != 0 ==> !IsL(d)
  {
  }

  lemma NoPairWithL(t: Tables, out: seq<nat>, x: nat)
    requires GoodTables(t) && IsL(x)
    ensures forall c :: ComposePair(t, c, x) == 0
  {
    forall c
      ensures ComposePair(t, c, x) == 0
    {
      PairSecond(t, c, x);
    }
  }

  /** With L, V and U+11A7 in a row, the result decomposes to fewer characters. */
  lemma {:induction false} ComposeDrops(t: Tables, all: seq<nat>, out: seq<nat>, i: nat, k: nat)
    requires GoodTables(t) && AllFinal(t, all) && IsOrdered(t.cc, all)
    requires Composing(t, all, out, i) && k + 2 < |all| && DropAt(all, k) && TowardsDrop(t, all, out, i, k)
    ensures |Decomp(t, ComposeAll(t, out, all[i..]))| < |all|
    decreases |all| - i
  {
    hide GoodTables, Decomp, Final, Take, Order, Drops, IsOrdered, DropAt;
    if i < |all| {
      var x := all[i];
      assert Final(t, x);
      assert all[i..][0] == x && all[i..][1..] == all[i + 1..];
      OrderedStep(t, all, out, i);
      StepKeeps(t, all, out, i);
      DropStep(t, all, out, i, k);
      ComposeDrops(t, all, Take(t, out, x), i + 1, k);
    }
  }

  // ----- the normal forms -----

  ghost function NFD(t: Tables, s: seq<nat>): (r: seq<nat>)
    requires GoodTables(t)
  {
    Order(t.cc, Decomp(t, s))
  }

  /** What the composition makes of a text in canonical order. */
  function Composed(t: Tables, d: seq<nat>): (r: seq<nat>)
  {
    if |d| <= 1 then d else ComposeAll(t, [d[0]], d[1..])
  }

  ghost function NFC(t: Tables, s: seq<nat>): (r: seq<nat>)
    requires GoodTables(t)
  {
    Composed(t, NFD(t, s))
  }

  lemma NfdIsFinal(t: Tables, s: seq<nat>)
    requires GoodTables(t)
    ensures AllFinal(t, NFD(t, s)) && IsOrdered(t.cc, NFD(t, s))
    ensures NFD(t, NFD(t, s)) == NFD(t, s)
  {
    hide GoodTables, Decomp, Final, Order, IsOrdered;
    var d := Decomp(t, s);
    DecompFinal(t, s);
    OrderOrders(t.cc, d);
    OrderKeeps(t.cc, d);
    var r := Order(t.cc, d);
    forall k | 0 <= k < |r|
      ensures Final(t, r[k])
    {
      assert r[k] in multiset(r);
      assert r[k] in d;
    }
    FinalStays(t, r);
    OrderedStays(t.cc, r);
  }

  lemma ComposingStarts(t: Tables, all: seq<nat>)
    requires GoodTables(t) && AllFinal(t, all) && IsOrdered(t.cc, all) && |all| > 1
    ensures Composing(t, all, [all[0]], 1) && HangulSeen(all, [all[0]], 1)
    ensures Decomp(t, [all[0]]) == [all[0]]
  {
    DecompOne(t, all[0]);
    assert Final(t, all[0]);
    FinalMeans(t, all[0]);
    assert Fits(t.cc, all, 1);
  }

  /** Normalization keeps canonical equivalence: composing and decomposing again gives the same decomposition,
      if and only if the decomposition does not have L, V and U+11A7 in a row. */
  lemma NormalizationKeeps(t: Tables, s: seq<nat>)
    requires GoodTables(t)
    ensures NFD(t, NFC(t, s)) == NFD(t, s) <==> !HasDrop(NFD(t, s))
  {
    hide GoodTables, Decomp, Final, Order, IsOrdered, Composing, HangulSeen;
    var all := NFD(t, s);
    NfdIsFinal(t, s);
    if |all| > 1 {
      ComposingStarts(t, all);
      assert all[1..] == all[1..|all|];
      if HasDrop(all) {
        var k :| 0 <= k < |all| - 2 && DropAt(all, k);
        ComposeDrops(t, all, [all[0]], 1, k);
        OrderKeeps(t.cc, Decomp(t, NFC(t, s)));
      } else {
        assert [all[0]] + all[1..] == all;
        OrderedStays(t.cc, all);
        ComposeKeeps(t, all, [all[0]], 1);
      }
    }
  }

  /** Every LV pair followed by U+11A7 is an input for which it does not. */
  lemma DropIsLost(t: Tables, l: nat, v: nat)
    requires GoodTables(t) && t.dec(T_BASE) == [] && IsL(l) && IsV(v)
    ensures NFD(t, [l, v, T_BASE]) == [l, v, T_BASE] && HasDrop([l, v, T_BASE])
    ensures NFD(t, NFC(t, [l, v, T_BASE])) != [l, v, T_BASE]
  {
    hide Order;
    var s := [l, v, T_BASE];
    JamoFinal(t, l);
    JamoFinal(t, v);
    FinalMeans(t, T_BASE);
    assert s == [l] + [v] + [T_BASE];
    DecompAppend(t, [l] + [v], [T_BASE]);
    DecompAppend(t, [l], [v]);
    DecompOne(t, l);
    DecompOne(t, v);
    DecompOne(t, T_BASE);
    OrderedStays(t.cc, s);
    assert DropAt(s, 0);
    NormalizationKeeps(t, s);
  }

  /** The smallest of them, with tables that have nothing but the jamo. */
  lemma DropExample()
    ensures var t := Tables(c => [], c => 0, (c, d) => 0, c => 0);
            GoodTables(t) && NFD(t, NFC(t, [0x1100, 0x1161, 0x11A7])) != NFD(t, [0x1100, 0x1161, 0x11A7])
  {
    var t := Tables(c => [], c => 0, (c, d) => 0, c => 0);
    DropIsLost(t, 0x1100, 0x1161);
  }

  // ----- the rule of composition (sections 3.11 and 3.12 of the Unicode Standard) -----

  /** The syllable of a leading consonant, a vowel and, from 1 on, a trailing consonant. */
  function Syllable(l: nat, v: nat, t: nat): nat
  {
    0xAC00 + (l * 21 + v) * 28 + t
  }

  /** p is the syllable of a consonant and a vowel, or of a syllable without a trailing consonant and one. As a trailing
      consonant the code takes U+11A7, too. */
  ghost predicate HangulJoin(c: nat, x: nat, p: nat)
  {
    (exists l: nat, v: nat :: l < 19 && v < 21 && c == 0x1100 + l && x == 0x1161 + v && p == Syllable(l, v, 0)) ||
    (exists l: nat, v: nat, k: nat :: l < 19 && v < 21 && k < 28 && c == Syllable(l, v, 0) && x == 0x11A7 + k && p == Syllable(l, v, k))
  }

  ghost predicate HangulPairing(c: nat, x: nat)
  {
    exists p: nat :: HangulJoin(c, x, p)
  }

  /** c and x are joined to p. */
  ghost predicate Joins(t: Tables, c: nat, x: nat, p: nat)
  {
    HangulJoin(c, x, p) || (!HangulPairing(c, x) && p != 0 && t.pair(c, x) == p)
  }

  /** x joins the starter at place s: no character between them is a starter or has at least the class of x. */
  ghost predicate JoinsAt(t: Tables, out: seq<nat>, x: nat, s: nat, p: nat)
  {
    s < |out| && t.cc(out[s]) == 0 && (forall k :: s < k < |out| ==> 0 < t.cc(out[k]) < t.cc(x)) && Joins(t, out[s], x, p)
  }

  /** The text with one more character: it joins a starter if there is one that it can join, or else it stays. */
  ghost predicate NextText(t: Tables, out: seq<nat>, x: nat, out': seq<nat>)
  {
    if exists s: nat, p: nat :: JoinsAt(t, out, x, s, p)
    then exists s: nat, p: nat :: JoinsAt(t, out, x, s, p) && out' == out[s := p]
    else out' == out + [x]
  }

  /** r comes out when the characters of `rest` come to `out` one by one. */
  ghost predicate ComposesFrom(t: Tables, out: seq<nat>, rest: seq<nat>, r: seq<nat>)
    decreases |rest|
  {
    if rest == [] then r == out
    else exists out' :: NextText(t, out, rest[0], out') && ComposesFrom(t, out', rest[1..], r)
  }

  ghost predicate Composition(t: Tables, d: seq<nat>, r: seq<nat>)
  {
    if d == [] then r == [] else ComposesFrom(t, d[..1], d[1..], r)
  }

  lemma SyllablePlace(l: nat, v: nat, k: nat)
    requires l < 19 && v < 21 && k < 28
    ensures IsSyllable(Syllable(l, v, k)) && (IsLV(Syllable(l, v, k)) <==> k == 0)
    ensures Jamo(Syllable(l, v, k)) == Letters(l, v, k)
  {
    var m := l * 21 + v;
    assert m / 21 == l && m % 21 == v;
    var d := m * 28 + k;
    assert d / 28 == m && d % 28 == k;
    assert d / 588 == l && d % 588 == v * 28 + k;
    assert (v * 28 + k) / 28 == v;
  }

  lemma LVPlace(c: nat)
    requires IsLV(c)
    ensures exists l: nat, v: nat :: l < 19 && v < 21 && c == Syllable(l, v, 0)
  {
    var m := (c - S_BASE) / 28;
    assert m < 399;
    var l, v := m / 21, m % 21;
    assert l < 19 && m == l * 21 + v && c == Syllable(l, v, 0);
  }

  lemma HangulJoins(t: Tables, c: nat, x: nat, p: nat)
    ensures HangulJoin(c, x, p) <==>
            ((IsL(c) && IsV(x)) || (IsLV(c) && T_BASE <= x < T_BASE + 28)) && p == ComposePair(t, c, x)
  {
    if IsL(c) && IsV(x) {
      var l, v := c - L_BASE, x - V_BASE;
      assert Syllable(l, v, 0) == ComposePair(t, c, x);
      assert HangulJoin(c, x, Syllable(l, v, 0));
    }
    if IsLV(c) && T_BASE <= x < T_BASE + 28 {
      LVPlace(c);
      var l: nat, v: nat :| l < 19 && v < 21 && c == Syllable(l, v, 0);
      var k := x - T_BASE;
      assert Syllable(l, v, k) == c + k;
      assert HangulJoin(c, x, Syllable(l, v, k));
    }
    if HangulJoin(c, x, p) {
      if l: nat, v: nat, k: nat :| l < 19 && v < 21 && k < 28 && c == Syllable(l, v, 0) && x == 0x11A7 + k && p == Syllable(l, v, k) {
        SyllablePlace(l, v, 0);
      }
    }
  }

  /** compose_pair joins exactly what the rule joins. */
  lemma JoinsIs(t: Tables, c: nat, x: nat, p: nat)
    ensures Joins(t, c, x, p) <==> p != 0 && ComposePair(t, c, x) == p
  {
    hide HangulJoin;
    HangulJoins(t, c, x, p);
    HangulJoins(t, c, x, ComposePair(t, c, x));
    forall q
      ensures HangulJoin(c, x, q) <==> ((IsL(c) && IsV(x)) || (IsLV(c) && T_BASE <= x < T_BASE + 28)) && q == ComposePair(t, c, x)
    {
      HangulJoins(t, c, x, q);
    }
  }

  /** In a text in order, the starter that is looked for is the one that x is not blocked from. */
  lemma StarterIs(t: Tables, out: seq<nat>, x: nat, s: nat)
    requires IsOrdered(t.cc, out) && forall c :: t.cc(c) < 256
    ensures (s < |out| && t.cc(out[s]) == 0 && forall k :: s < k < |out| ==> 0 < t.cc(out[k]) < t.cc(x)) <==>
            StarterPos(t, out, |out|, t.cc(x)) == s
  {
    var sp := StarterPos(t, out, |out|, t.cc(x));
    StarterPosIs(t, out, |out|, t.cc(x));
    if sp >= 0 {
      forall k | sp < k < |out|
        ensures 0 < t.cc(out[k]) < t.cc(x)
      {
        MidRises(t, out, sp, k, |out| - 1);
      }
    }
    if s < |out| && t.cc(out[s]) == 0 && forall k :: s < k < |out| ==> 0 < t.cc(out[k]) < t.cc(x) {
      StarterFound(t, out, |out|, t.cc(x), s);
    }
  }

  lemma {:induction false} StarterFound(t: Tables, out: seq<nat>, n: nat, last: nat, s: nat)
    requires s < n <= |out| && t.cc(out[s]) == 0 && forall k :: s < k < n ==> 0 < t.cc(out[k]) < last
    requires forall k :: s < k < n ==> t.cc(out[k]) < 256
    ensures StarterPos(t, out, n, last) == s
    decreases n
  {
    if s < n - 1 {
      StarterFound(t, out, n - 1, 256, s);
    }
  }

  lemma TakeIs(t: Tables, out: seq<nat>, x: nat, out': seq<nat>)
    requires IsOrdered(t.cc, out) && forall c :: t.cc(c) < 256
    ensures NextText(t, out, x, out') <==> out' == Take(t, out, x)
  {
    hide Joins, ComposePair, StarterPos;
    var sp := StarterPos(t, out, |out|, t.cc(x));
    forall s: nat, p: nat
      ensures JoinsAt(t, out, x, s, p) <==> s == sp && p != 0 && ComposePair(t, out[s], x) == p
    {
      StarterIs(t, out, x, s);
      if s < |out| {
        JoinsIs(t, out[s], x, p);
      }
    }
    if sp >= 0 && ComposePair(t, out[sp], x) != 0 {
      assert JoinsAt(t, out, x, sp, ComposePair(t, out[sp], x));
    }
  }

  lemma {:induction false} ComposeAllIs(t: Tables, all: seq<nat>, out: seq<nat>, i: nat, r: seq<nat>)
    requires GoodTables(t) && AllFinal(t, all) && IsOrdered(t.cc, all) && Composing(t, all, out, i)
    ensures ComposesFrom(t, out, all[i..], r) <==> r == ComposeAll(t, out, all[i..])
    decreases |all| - i
  {
    hide GoodTables, Decomp, Final, Take, Order, NextText, IsOrdered;
    if i < |all| {
      var x := all[i];
      var out' := Take(t, out, x);
      assert Final(t, x);
      assert all[i..][0] == x && all[i..][1..] == all[i + 1..];
      OrderedStep(t, all, out, i);
      StepKeeps(t, all, out, i);
      ClassesSmall(t);
      ComposeAllIs(t, all, out', i + 1, r);
      forall u
        ensures NextText(t, out, x, u) <==> u == out'
      {
        TakeIs(t, out, x, u);
      }
    }
  }

  lemma ClassesSmall(t: Tables)
    requires GoodTables(t)
    ensures forall c :: t.cc(c) < 256
  {
  }

  /** The composition is the one text that the rule gives. */
  lemma ComposedIs(t: Tables, d: seq<nat>, r: seq<nat>)
    requires GoodTables(t) && AllFinal(t, d) && IsOrdered(t.cc, d)
    ensures Composition(t, d, r) <==> r == Composed(t, d)
  {
    hide GoodTables, Decomp, Final, ComposeAll, ComposesFrom, IsOrdered, Composing, HangulSeen;
    if |d| > 1 {
      ComposingStarts(t, d);
      assert d[..1] == [d[0]] && d[1..] == d[1..|d|];
      ComposeAllIs(t, d, [d[0]], 1, r);
    } else if |d| == 1 {
      assert d[..1] == d && d[1..] == [];
      NothingMore(t, d, r);
    }
  }

  lemma NothingMore(t: Tables, d: seq<nat>, r: seq<nat>)
    ensures ComposesFrom(t, d, [], r) <==> r == d
  {
  }

  /** The normal form is the composition, by the rule, of the decomposition. */
  lemma NFCIs(t: Tables, s: seq<nat>, r: seq<nat>)
    requires GoodTables(t)
    ensures r == NFC(t, s) <==> Composition(t, NFD(t, s), r)
  {
    hide GoodTables, Composition, Composed, AllFinal, IsOrdered, NFD;
    NfdIsFinal(t, s);
    ComposedIs(t, NFD(t, s), r);
  }

  /** A starter and a character that have a composition become that. */
  lemma PairIsComposed(t: Tables, c: nat, x: nat)
    requires GoodTables(t) && Final(t, c) && Final(t, x) && t.cc(c) == 0 && !HangulPairing(c, x) && t.pair(c, x) != 0
    ensures NFC(t, [c, x]) == [t.pair(c, x)]
  {
    hide Order, HangulPairing;
    PairNfd(t, c, x);
    JoinsIs(t, c, x, t.pair(c, x));
    assert [c, x][1..] == [x] && [x][1..] == [];
    assert ComposeAll(t, [c], [x]) == ComposeAll(t, Take(t, [c], x), []);
  }

  lemma PairNfd(t: Tables, c: nat, x: nat)
    requires GoodTables(t) && Final(t, c) && Final(t, x) && t.cc(c) == 0
    ensures NFD(t, [c, x]) == [c, x]
  {
    hide Order, Decomp;
    assert AllFinal(t, [c, x]);
    FinalStays(t, [c, x]);
    OrderedStays(t.cc, [c, x]);
  }

  /** A consonant, a vowel and a trailing consonant become their syllable. */
  lemma SyllableIsComposed(t: Tables, l: nat, v: nat, k: nat)
    requires GoodTables(t) && l < 19 && v < 21 && 0 < k < 28
    ensures NFC(t, [0x1100 + l, 0x1161 + v, 0x11A7 + k]) == [Syllable(l, v, k)]
    ensures NFC(t, [0x1100 + l, 0x1161 + v]) == [Syllable(l, v, 0)]
  {
    hide Order, Decomp;
    var d := [0x1100 + l, 0x1161 + v, 0x11A7 + k];
    JamoFinal(t, 0x1100 + l);
    JamoFinal(t, 0x1161 + v);
    JamoFinal(t, 0x11A7 + k);
    assert AllFinal(t, d);
    FinalStays(t, d);
    OrderedStays(t.cc, d);
    PairNfd(t, 0x1100 + l, 0x1161 + v);
    SyllablePlace(l, v, 0);
    assert Take(t, [d[0]], d[1]) == [Syllable(l, v, 0)] && Take(t, [Syllable(l, v, 0)], d[2]) == [Syllable(l, v, k)];
    assert d[1..] == [d[1], d[2]] && d[1..][1..] == [d[2]] && [d[2]][1..] == [];
    assert [d[0], d[1]][1..] == [d[1]] && [d[1]][1..] == [];
    NothingLeft(t, [Syllable(l, v, 0)]);
    NothingLeft(t, [Syllable(l, v, k)]);
    assert ComposeAll(t, [d[0]], d[1..]) == ComposeAll(t, [Syllable(l, v, 0)], [d[2]]);
    assert ComposeAll(t, [d[0]], [d[1]]) == ComposeAll(t, [Syllable(l, v, 0)], []);
  }

  lemma NothingLeft(t: Tables, out: seq<nat>)
    ensures ComposeAll(t, out, []) == out
  {
  }

  // ----- the rule of decomposition -----

  function Letters(l: nat, v: nat, k: nat): seq<nat>
  {
    [0x1100 + l, 0x1161 + v] + if k != 0 then [0x11A7 + k] else []
  }

  /** What a character is replaced by. */
  ghost predicate Replaces(t: Tables, c: nat, s: seq<nat>)
  {
    (exists l: nat, v: nat, k: nat :: l < 19 && v < 21 && k < 28 && c == Syllable(l, v, k) && s == Letters(l, v, k)) ||
    (!IsSyllable(c) && s != [] && t.dec(c) == s)
  }

  /** Replacing characters does not change the full decomposition; and that has none left to replace. */
  lemma DecompReplaces(t: Tables, pre: seq<nat>, c: nat, s: seq<nat>, post: seq<nat>)
    requires GoodTables(t) && Replaces(t, c, s)
    ensures Decomp(t, pre + [c] + post) == Decomp(t, pre + s + post)
  {
    hide Decomp, DecompChar;
    DecompAppend(t, pre + [c], post);
    DecompAppend(t, pre, [c]);
    DecompAppend(t, pre + s, post);
    DecompAppend(t, pre, s);
    DecompOne(t, c);
    if l: nat, v: nat, k: nat :| l < 19 && v < 21 && k < 28 && c == Syllable(l, v, k) && s == Letters(l, v, k) {
      SyllableReplaces(t, l, v, k);
    } else {
      CharReplaces(t, c);
    }
  }

  lemma SyllableReplaces(t: Tables, l: nat, v: nat, k: nat)
    requires GoodTables(t) && l < 19 && v < 21 && k < 28
    ensures var s := Letters(l, v, k); DecompChar(t, Syllable(l, v, k)) == s && Decomp(t, s) == s
  {
    hide Decomp;
    var s := Letters(l, v, k);
    SyllablePlace(l, v, k);
    JamoFinal(t, 0x1100 + l);
    JamoFinal(t, 0x1161 + v);
    if k != 0 {
      JamoFinal(t, 0x11A7 + k);
    }
    assert AllFinal(t, s);
    FinalStays(t, s);
  }

  lemma CharReplaces(t: Tables, c: nat)
    requires GoodTables(t) && !IsSyllable(c) && t.dec(c) != []
    ensures DecompChar(t, c) == Decomp(t, t.dec(c))
  {
    RankFalls(t, c);
    AllIsDecomp(t, t.dec(c), t.rank(c));
  }

  // ----- the program -----

  class Normalizer {
    const t: Tables
    var buf: seq<nat>

    constructor (t: Tables)
      ensures this.t == t && buf == []
    {
      this.t := t;
      buf := [];
    }

    /** dbuf_put_u32. */
    method Put(c: nat)
      modifies this
      ensures buf == old(buf) + [c]
    {
      buf := buf + [c];
    }

    /** The body of the loop of to_nfd_rec. */
    method PutDecomp(c: nat)
      requires GoodTables(t)
      modifies this
      ensures buf == old(buf) + DecompChar(t, c)
      decreases t.rank(c) + 1, 0
    {
      hide GoodTables, Decomp;
      ghost var was := buf;
      if S_BASE <= c < S_BASE + 11172 {
        var d := c - S_BASE;
        Put(L_BASE + d / 588);
        Put(V_BASE + d % 588 / 28);
        if d % 28 != 0 {
          Put(T_BASE + d % 28);
        }
        assert buf == was + Jamo(c);
      } else if t.dec(c) != [] {
        RankFalls(t, c);
        AllIsDecomp(t, t.dec(c), t.rank(c));
        ToNfd(t.dec(c), t.rank(c));
      } else {
        Put(c);
      }
    }

    /** to_nfd_rec. */
    method ToNfd(src: seq<nat>, ghost bound: nat)
      requires GoodTables(t) && forall k :: 0 <= k < |src| ==> t.rank(src[k]) < bound
      modifies this
      ensures buf == old(buf) + Decomp(t, src)
      decreases bound, 1
    {
      hide GoodTables, DecompChar, Decomp;
      ghost var was := buf;
      NothingToDo(t);
      assert src[..0] == [];
      for i := 0 to |src|
        invariant buf == was + Decomp(t, src[..i])
      {
        PutDecomp(src[i]);
        assert src[..i + 1] == src[..i] + [src[i]];
        DecompAppend(t, src[..i], [src[i]]);
        DecompOne(t, src[i]);
      }
      assert src[..|src|] == src;
    }

    /** The insertion loop of sort_cc: the character at j moves down, but not below start. */
    method SinkCc(start: nat, j: nat)
      requires start < j < |buf| && t.cc(buf[j]) != 0 && (start > 0 ==> t.cc(buf[start - 1]) == 0)
      modifies this
      ensures |buf| == old(|buf|) && buf[..start] == old(buf)[..start]
      ensures buf == Insert(t.cc, old(buf)[..j], old(buf)[j]) + old(buf)[j + 1..]
    {
      hide Insert, Moved;
      ghost var was := buf;
      var ch := buf[j];
      var cc1 := t.cc(ch);
      var k: int := j - 1;
      MovedNone(was, j);
      while k >= start && t.cc(buf[k]) > cc1
        invariant start - 1 <= k < j && |buf| == |was|
        invariant forall m :: k < m < j ==> t.cc(was[m]) > cc1
        invariant buf == Moved(was, k + 1, j, buf[k + 1])
      {
        MovedMore(was, k + 1, j, buf[k + 1]);
        buf := buf[k + 1 := buf[k]];
        k := k - 1;
      }
      MovedLast(was, k + 1, j, buf[k + 1], ch);
      buf := buf[k + 1 := ch];
      MovedIsInsert(t.cc, was, k + 1, j);
      MovedFront(was, start, k + 1, j, ch);
    }

    /** sort_cc. */
    method SortCc()
      modifies this
      ensures buf == Order(t.cc, old(buf))
    {
      hide Insert, Order, SortedTo;
      ghost var was := buf;
      var i := 0;
      SortedToNothing(t.cc, was);
      while i < |buf|
        invariant |buf| == |was| && 0 <= i <= |was| + 1
        invariant SortedTo(t.cc, was, buf, if i <= |was| then i else |was|)
        invariant 0 < i <= |was| ==> t.cc(buf[i - 1]) == 0
        decreases |was| + 1 - i
      {
        SortedToAt(t.cc, was, buf, i);
        if t.cc(buf[i]) != 0 {
          i := SortRun(i, was);
        }
        if i < |buf| {
          SortedToStarter(t.cc, was, buf, i);
        }
        i := i + 1;
      }
      SortedToAll(t.cc, was, buf);
    }

    /** The combining characters from start on. */
    method SortRun(start: nat, ghost was: seq<nat>) returns (j: nat)
      requires start < |buf| == |was| && SortedTo(t.cc, was, buf, start) && t.cc(buf[start]) != 0
      requires start > 0 ==> t.cc(buf[start - 1]) == 0
      modifies this
      ensures |buf| == |was| && start < j <= |buf| && SortedTo(t.cc, was, buf, j)
      ensures j < |buf| ==> t.cc(buf[j]) == 0 && was[j] == buf[j]
    {
      hide Insert, Order, SortedTo;
      j := start + 1;
      ghost var front := buf[..start];
      SortedToFirst(t.cc, was, start, buf);
      while j < |buf|
        invariant start < j <= |buf| == |was| && buf[..start] == front && SortedTo(t.cc, was, buf, j)
      {
        SortedToAt(t.cc, was, buf, j);
        if t.cc(buf[j]) == 0 {
          break;
        }
        assert start > 0 ==> buf[start - 1] == front[start - 1];
        ghost var b := buf;
        SinkCc(start, j);
        SortedToSunk(t.cc, was, b, j);
        j := j + 1;
      }
      if j < |buf| {
        SortedToAt(t.cc, was, buf, j);
      }
    }

    /** The search for a starter that the character is not blocked from. */
    method FindStarter(n: nat, cc1: nat) returns (sp: int)
      requires n <= |buf|
      ensures sp == StarterPos(t, buf[..n], n, cc1)
    {
      var last := cc1;
      sp := n - 1;
      while sp >= 0
        invariant -1 <= sp < n
        invariant StarterPos(t, buf[..n], n, cc1) == StarterPos(t, buf[..n], sp + 1, last)
        decreases sp
      {
        var cc := t.cc(buf[sp]);
        assert buf[sp] == buf[..n][sp];
        if cc == 0 {
          break;
        }
        if cc >= last {
          return -1;
        }
        last := 256;
        sp := sp - 1;
      }
    }

    /** The composition loop, in place. */
    method ComposeInPlace()
      requires |buf| > 1
      modifies this
      ensures buf == Composed(t, old(buf))
    {
      hide ComposePair, StarterPos, Take, ComposeAll;
      ghost var goal := Composed(t, buf);
      var i, outLen := 1, 1;
      assert buf[..1] == [buf[0]];
      while i < |buf|
        invariant 1 <= outLen <= i <= |buf|
        invariant ComposeAll(t, buf[..outLen], buf[i..]) == goal
        decreases |buf| - i
      {
        ghost var out, rest := buf[..outLen], buf[i..];
        assert rest[0] == buf[i] && rest[1..] == buf[i + 1..];
        ComposeNext(t, out, rest);
        var sp := FindStarter(outLen, t.cc(buf[i]));
        var p := if sp >= 0 then ComposePair(t, buf[sp], buf[i]) else 0;
        if p != 0 {
          assert out[sp] == buf[sp];
          buf := buf[sp := p];
          assert buf[..outLen] == out[sp := p] && buf[i + 1..] == rest[1..];
          i := i + 1;
        } else {
          assert sp >= 0 ==> out[sp] == buf[sp];
          buf := buf[outLen := buf[i]];
          assert buf[..outLen + 1] == out + [rest[0]] && buf[i + 1..] == rest[1..];
          outLen := outLen + 1;
          i := i + 1;
        }
      }
      assert buf[i..] == [];
      ComposeNext(t, buf[..outLen], []);
      buf := buf[..outLen];
    }

    /** unicode_normalize, for tables without or with the compatibility decompositions. NFC leaves Latin-1 alone. */
    method Normalize(src: seq<nat>, compose: bool, isCompat: bool)
      requires GoodTables(t) && buf == []
      modifies this
      ensures var latin1 := compose && !isCompat && forall k :: 0 <= k < |src| ==> src[k] < 0x100;
              buf == (if latin1 then src else if compose then NFC(t, src) else NFD(t, src)) &&
              (!latin1 && compose ==> Composition(t, NFD(t, src), buf)) &&
              (NFD(t, buf) == NFD(t, src) <==> latin1 || !compose || !HasDrop(NFD(t, src)))
    {
      hide GoodTables, Decomp, Order, HasDrop, Composed, Composition;
      NormalizationKeeps(t, src);
      NFCIs(t, src, NFC(t, src));
      NfdIsFinal(t, src);
      if compose && !isCompat {
        var latin1 := true;
        for i := 0 to |src|
          invariant latin1 <==> forall k :: 0 <= k < i ==> src[k] < 0x100
        {
          if src[i] >= 0x100 {
            latin1 := false;
          }
        }
        if latin1 {
          buf := src;
          return;
        }
      }
      ghost var bound := RankBound(t, src);
      ToNfd(src, bound);
      assert buf == Decomp(t, src);
      SortCc();
      if |buf| <= 1 || !compose {
        NothingComposed(t, buf);
        return;
      }
      ComposeInPlace();
    }
  }

  /** The first i characters are in order, the rest is as it was. */
  ghost predicate SortedTo(cc: Classes, was: seq<nat>, buf: seq<nat>, i: nat)
  {
    i <= |was| && buf == Order(cc, was[..i]) + was[i..]
  }

  lemma SortedToNothing(cc: Classes, was: seq<nat>)
    ensures SortedTo(cc, was, was, 0)
  {
    assert was[..0] == [];
  }

  lemma SortedToAll(cc: Classes, was: seq<nat>, buf: seq<nat>)
    requires SortedTo(cc, was, buf, |was|)
    ensures buf == Order(cc, was)
  {
    assert was[..|was|] == was && was[|was|..] == [];
  }

  lemma SortedToAt(cc: Classes, was: seq<nat>, buf: seq<nat>, i: nat)
    requires SortedTo(cc, was, buf, i) && i < |was|
    ensures |buf| == |was| && buf[i] == was[i] && buf[..i] == Order(cc, was[..i]) && buf[i + 1..] == was[i + 1..]
  {
    hide Order;
    OrderKeeps(cc, was[..i]);
  }

  lemma SortedToStarter(cc: Classes, was: seq<nat>, buf: seq<nat>, i: nat)
    requires SortedTo(cc, was, buf, i) && i < |buf| == |was| && cc(buf[i]) == 0
    ensures SortedTo(cc, was, buf, i + 1) && cc(buf[i]) == 0
  {
    hide Order;
    SortedToAt(cc, was, buf, i);
    OrderStarter(cc, was, i);
    assert was[i..] == [was[i]] + was[i + 1..];
  }

  lemma SortedToSunk(cc: Classes, was: seq<nat>, buf: seq<nat>, j: nat)
    requires SortedTo(cc, was, buf, j) && j < |buf| == |was|
    ensures SortedTo(cc, was, Insert(cc, buf[..j], buf[j]) + buf[j + 1..], j + 1)
  {
    hide Order, Insert;
    SortedToAt(cc, was, buf, j);
    OrderSnoc(cc, was[..j], was[j]);
    assert was[..j + 1] == was[..j] + [was[j]];
  }

  /** The first combining character after a starter stays where it is. */
  lemma SortedToFirst(cc: Classes, was: seq<nat>, i: nat, buf: seq<nat>)
    requires SortedTo(cc, was, buf, i) && i < |buf| == |was| && (i > 0 ==> cc(buf[i - 1]) == 0)
    ensures SortedTo(cc, was, buf, i + 1)
  {
    SortedToAt(cc, was, buf, i);
    OrderFirst(cc, was, i, buf);
  }

  lemma NothingToDo(t: Tables)
    requires GoodTables(t)
    ensures Decomp(t, []) == []
  {
  }

  /** The text with the characters from n to j moved up by one, and h in the gap. */
  function Moved(was: seq<nat>, n: nat, j: nat, h: nat): (r: seq<nat>)
    requires n <= j < |was|
    ensures |r| == |was|
  {
    was[..n] + [h] + was[n..j] + was[j + 1..]
  }

  lemma MovedNone(was: seq<nat>, j: nat)
    requires j < |was|
    ensures was == Moved(was, j, j, was[j])
  {
  }

  lemma MovedMore(was: seq<nat>, n: nat, j: nat, h: nat)
    requires 0 < n <= j < |was|
    ensures var b := Moved(was, n, j, h);
            b[n - 1] == was[n - 1] && b[n := b[n - 1]] == Moved(was, n - 1, j, was[n - 1])
    ensures Moved(was, n - 1, j, was[n - 1])[n - 1] == was[n - 1]
  {
    assert was[n - 1..j] == [was[n - 1]] + was[n..j];
  }

  lemma MovedLast(was: seq<nat>, n: nat, j: nat, h: nat, x: nat)
    requires n <= j < |was|
    ensures Moved(was, n, j, h)[n := x] == Moved(was, n, j, x)
    ensures n > 0 ==> Moved(was, n, j, h)[n - 1] == was[n - 1]
  {
  }

  lemma MovedFront(was: seq<nat>, start: nat, n: nat, j: nat, x: nat)
    requires start <= n <= j < |was|
    ensures Moved(was, n, j, x)[..start] == was[..start]
  {
  }

  lemma MovedIsInsert(cc: Classes, was: seq<nat>, n: nat, j: nat)
    requires n <= j < |was| && cc(was[j]) > 0
    requires forall m :: n <= m < j ==> cc(was[m]) > cc(was[j])
    requires n > 0 ==> cc(was[n - 1]) <= cc(was[j])
    ensures Moved(was, n, j, was[j]) == Insert(cc, was[..j], was[j]) + was[j + 1..]
  {
    var s := was[..j];
    InsertAt(cc, s, was[j], n);
    assert s[..n] == was[..n] && s[n..] == was[n..j];
  }

  /** A starter stays where it is. */
  lemma OrderStarter(cc: Classes, was: seq<nat>, i: nat)
    requires i < |was| && cc(was[i]) == 0
    ensures Order(cc, was[..i + 1]) == Order(cc, was[..i]) + [was[i]]
  {
    assert was[..i + 1] == was[..i] + [was[i]];
    OrderSnoc(cc, was[..i], was[i]);
  }

  lemma OrderFirst(cc: Classes, was: seq<nat>, i: nat, buf: seq<nat>)
    requires i < |was| == |buf| && buf == Order(cc, was[..i]) + was[i..]
    requires i > 0 ==> cc(buf[i - 1]) == 0
    ensures buf == Order(cc, was[..i + 1]) + was[i + 1..]
  {
    hide Order;
    OrderKeeps(cc, was[..i]);
    assert was[..i + 1] == was[..i] + [was[i]];
    OrderSnoc(cc, was[..i], was[i]);
    assert was[i..] == [was[i]] + was[i + 1..];
  }

  lemma ComposeNext(t: Tables, out: seq<nat>, rest: seq<nat>)
    ensures rest == [] ==> ComposeAll(t, out, rest) == out
    ensures rest != [] ==>
              var sp := StarterPos(t, out, |out|, t.cc(rest[0]));
              var p := if sp >= 0 then ComposePair(t, out[sp], rest[0]) else 0;
              ComposeAll(t, out, rest) == ComposeAll(t, if p != 0 then out[sp := p] else out + [rest[0]], rest[1..])
  {
    hide ComposePair, StarterPos;
  }

  lemma NothingComposed(t: Tables, d: seq<nat>)
    ensures |d| <= 1 ==> Composed(t, d) == d
  {
  }

  lemma {:induction false} RankBound(t: Tables, s: seq<nat>) returns (bound: nat)
    ensures forall k :: 0 <= k < |s| ==> t.rank(s[k]) < bound
    decreases |s|
  {
    bound := 0;
    if s != [] {
      var k := |s| - 1;
      bound := RankBound(t, s[..k]);
      assert forall i :: 0 <= i < k ==> s[..k][i] == s[i];
      if t.rank(s[k]) >= bound {
        bound := t.rank(s[k]) + 1;
      }
    }
  }
}
