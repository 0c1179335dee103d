/** What the outcomes of a pattern have in their captures. */
module RegexCaptures {
  import opened CharInput
  import opened RegexSyntax
  import opened RegexOutcomes
  import opened RegexLoops
  import opened RegexAdvance
  import opened RegexCorrect

  /** Only captures lo to hi - 1 may differ. */
  predicate Keeps(x: St, y: St, lo: nat, hi: nat)
  {
    |y.caps| == |x.caps| && forall i :: 0 <= i < |x.caps| && (i < 2 * lo || i >= 2 * hi) ==> y.caps[i] == x.caps[i]
  }

  predicate AllKeep(x: St, ys: seq<St>, lo: nat, hi: nat)
  {
    forall i :: 0 <= i < |ys| ==> Keeps(x, ys[i], lo, hi)
  }

  lemma KeepsOn(x: St, y: St, z: St, lo: nat, hi: nat, lo': nat, hi': nat)
    requires Keeps(x, y, lo, hi) && Keeps(y, z, lo', hi')
    ensures Keeps(x, z, if lo <= lo' then lo else lo', if hi <= hi' then hi' else hi)
  {
  }

  lemma AllKeepOn(x: St, y: St, zs: seq<St>, lo: nat, hi: nat, lo': nat, hi': nat)
    requires Keeps(x, y, lo, hi) && AllKeep(y, zs, lo', hi')
    ensures AllKeep(x, zs, if lo <= lo' then lo else lo', if hi <= hi' then hi' else hi)
  {
    hide Keeps;
    forall i | 0 <= i < |zs|
      ensures Keeps(x, zs[i], if lo <= lo' then lo else lo', if hi <= hi' then hi' else hi)
    {
      KeepsOn(x, y, zs[i], lo, hi, lo', hi');
    }
  }

  lemma {:induction false} FlatKeep(x: St, zss: seq<seq<St>>, lo: nat, hi: nat)
    requires forall i :: 0 <= i < |zss| ==> AllKeep(x, zss[i], lo, hi)
    ensures AllKeep(x, Flat(zss), lo, hi)
  {
    hide Keeps;
    if zss != [] {
      FlatKeep(x, zss[1..], lo, hi);
    }
  }

  /** A pattern changes the captures of its own groups only. */
  lemma {:induction false} CapturesKept(e: Env, r: Re, cc: nat, bw: bool, x: St)
    requires ValidSt(e, x)
    ensures AllKeep(x, Outcomes(e, r, cc, bw, x), cc, cc + Groups(r))
    decreases r, 3, 0
  {
    hide Outcomes, Keeps, AllKeep, ValidSt;
    match r {
      case Seq(a, b) => SeqKept(e, a, b, cc, bw, x);
      case Alt(a, b) => AltKept(e, a, b, cc, bw, x);
      case Group(a) => InGroupKept(e, a, cc, bw, x);
      case Look(a, negated, behind) => InLookKept(e, a, negated, behind, cc, bw, x);
      case Quant(a, min, max, greedy) => QuantKept(e, a, min, max, greedy, cc, bw, x);
      case _ => LeafKept(e, r, cc, bw, x);
    }
  }

  lemma SeqKept(e: Env, a: Re, b: Re, cc: nat, bw: bool, x: St)
    requires ValidSt(e, x)
    ensures AllKeep(x, Outcomes(e, Seq(a, b), cc, bw, x), cc, cc + Groups(Seq(a, b)))
    decreases Seq(a, b), 2, 0
  {
    hide Outcomes, Keeps, AllKeep, Then, ValidSt;
    OutcomesSeq(e, a, b, cc, bw, x);
    if bw {
      ThenKept(e, b, cc + Groups(a), a, cc, bw, x, Seq(a, b));
    } else {
      ThenKept(e, a, cc, b, cc + Groups(a), bw, x, Seq(a, b));
    }
  }

  lemma InGroupKept(e: Env, a: Re, cc: nat, bw: bool, x: St)
    requires ValidSt(e, x)
    ensures AllKeep(x, Outcomes(e, Group(a), cc, bw, x), cc, cc + Groups(Group(a)))
    decreases Group(a), 2, 0
  {
    hide Outcomes, Keeps;
    OutcomesGroup(e, a, cc, bw, x);
    var x0 := SetSlot(x, Opening(cc, bw));
    CapturesKept(e, a, cc + 1, bw, x0);
    GroupKept(x, x0, Outcomes(e, a, cc + 1, bw, x0), cc, bw, cc + 1 + Groups(a));
  }

  lemma InLookKept(e: Env, a: Re, negated: bool, behind: bool, cc: nat, bw: bool, x: St)
    requires ValidSt(e, x)
    ensures AllKeep(x, Outcomes(e, Look(a, negated, behind), cc, bw, x), cc, cc + Groups(a))
    decreases Look(a, negated, behind), 2, 0
  {
    hide Outcomes, Keeps;
    OutcomesLook(e, a, negated, behind, cc, bw, x);
    CapturesKept(e, a, cc, behind, x);
    LookKept(x, Outcomes(e, a, cc, behind, x), cc, cc + Groups(a));
  }

  lemma AltKept(e: Env, a: Re, b: Re, cc: nat, bw: bool, x: St)
    requires ValidSt(e, x)
    ensures AllKeep(x, Outcomes(e, Alt(a, b), cc, bw, x), cc, cc + Groups(a) + Groups(b))
    decreases Alt(a, b), 2, 0
  {
    hide Outcomes, Keeps;
    var mid, hi := cc + Groups(a), cc + Groups(a) + Groups(b);
    OutcomesAlt(e, a, b, cc, bw, x);
    CapturesKept(e, a, cc, bw, x);
    CapturesKept(e, b, mid, bw, x);
    KeepsSelf(x, cc, hi);
    AllKeepOn(x, x, Outcomes(e, a, cc, bw, x), cc, hi, cc, mid);
    AllKeepOn(x, x, Outcomes(e, b, mid, bw, x), cc, hi, mid, hi);
  }

  lemma QuantKept(e: Env, a: Re, min: nat, max: nat, greedy: bool, cc: nat, bw: bool, x: St)
    requires ValidSt(e, x)
    ensures AllKeep(x, Outcomes(e, Quant(a, min, max, greedy), cc, bw, x), cc, cc + Groups(a))
    decreases Quant(a, min, max, greedy), 2, 0
  {
    hide Outcomes, Times, Keeps;
    var x0, hi := if min == 0 then Reset(x, cc, cc + Groups(a)) else x, cc + Groups(a);
    OutcomesQuant(e, a, min, max, greedy, cc, bw, x);
    ResetKept(x, cc, hi);
    KeepsSelf(x, cc, hi);
    TimesKept(e, a, cc, bw, min, Extra(min, max), greedy, x0);
    AllKeepOn(x, x0, Times(e, a, cc, bw, min, Extra(min, max), greedy, x0), cc, hi, cc, hi);
  }

  lemma KeepsSelf(x: St, lo: nat, hi: nat)
    ensures Keeps(x, x, lo, hi)
  {
  }

  lemma ResetKept(x: St, lo: nat, hi: nat)
    ensures Keeps(x, Reset(x, lo, hi), lo, hi)
    ensures forall i :: 2 * lo <= i < 2 * hi && i < |x.caps| ==> Reset(x, lo, hi).caps[i] == Unset
  {
  }

  lemma LeafKept(e: Env, r: Re, cc: nat, bw: bool, x: St)
    requires ValidSt(e, x) && !r.Seq? && !r.Alt? && !r.Group? && !r.Look? && !r.Quant?
    ensures AllKeep(x, Outcomes(e, r, cc, bw, x), cc, cc + Groups(r))
  {
    hide BackReference, Holds, Accepts;
  }

  lemma GroupKept(x: St, x0: St, ys: seq<St>, cc: nat, bw: bool, hi: nat)
    requires x0 == SetSlot(x, Opening(cc, bw)) && AllKeep(x0, ys, cc + 1, hi) && hi > cc
    ensures AllKeep(x, seq(|ys|, i requires 0 <= i < |ys| => SetSlot(ys[i], Closing(cc, bw))), cc, hi)
  {
  }

  lemma LookKept(x: St, ys: seq<St>, lo: nat, hi: nat)
    requires AllKeep(x, ys, lo, hi)
    ensures AllKeep(x, [x], lo, hi) && (ys != [] ==> AllKeep(x, [x.(caps := ys[0].caps)], lo, hi))
  {
  }

  lemma ThenKept(e: Env, a: Re, ca: nat, b: Re, cb: nat, bw: bool, x: St, whole: Re)
    requires ValidSt(e, x) && a < whole && b < whole
    ensures AllKeep(x, Then(e, a, ca, b, cb, bw, x, whole), if ca <= cb then ca else cb,
                    if ca + Groups(a) <= cb + Groups(b) then cb + Groups(b) else ca + Groups(a))
    decreases whole, 0, 0
  {
    hide Outcomes, Keeps;
    var ys := Outcomes(e, a, ca, bw, x);
    var zss := seq(|ys|, i requires 0 <= i < |ys| => Outcomes(e, b, cb, bw, ys[i]));
    CapturesKept(e, a, ca, bw, x);
    forall i | 0 <= i < |ys|
      ensures AllKeep(x, zss[i], if ca <= cb then ca else cb,
                      if ca + Groups(a) <= cb + Groups(b) then cb + Groups(b) else ca + Groups(a))
    {
      assert Follows(e, bw, x, ys[i]);
      CapturesKept(e, b, cb, bw, ys[i]);
      AllKeepOn(x, ys[i], zss[i], ca, ca + Groups(a), cb, cb + Groups(b));
    }
    FlatKeep(x, zss, if ca <= cb then ca else cb, if ca + Groups(a) <= cb + Groups(b) then cb + Groups(b) else ca + Groups(a));
  }

  lemma {:induction false} TimesKept(e: Env, a: Re, cc: nat, bw: bool, min: nat, k: Bound, greedy: bool, x: St)
    requires ValidSt(e, x)
    ensures AllKeep(x, Times(e, a, cc, bw, min, k, greedy, x), cc, cc + Groups(a))
    decreases a, 5, min
  {
    hide Outcomes, Times, Repeat, Keeps;
    TimesUnfolds(e, a, cc, bw, min, k, greedy, x);
    if min == 0 {
      RepeatKept(e, a, cc, bw, k, greedy, x);
    } else {
      var ys, zss := Outcomes(e, a, cc, bw, x), Remaining(e, a, cc, bw, min - 1, k, greedy, x);
      CapturesKept(e, a, cc, bw, x);
      forall i | 0 <= i < |ys|
        ensures AllKeep(x, zss[i], cc, cc + Groups(a))
      {
        assert Follows(e, bw, x, ys[i]);
        TimesKept(e, a, cc, bw, min - 1, k, greedy, ys[i]);
        AllKeepOn(x, ys[i], zss[i], cc, cc + Groups(a), cc, cc + Groups(a));
      }
      FlatKeep(x, zss, cc, cc + Groups(a));
    }
  }

  /** What follows and has moved has less room. */
  lemma Nearer(e: Env, bw: bool, x: St, all: seq<St>, j: nat)
    requires ValidSt(e, x) && AllFollow(e, bw, x, all) && j < |all| && all[j].pos != x.pos
    ensures ValidSt(e, all[j]) && Room(e, bw, all[j]) < Room(e, bw, x)
  {
    assert Follows(e, bw, x, all[j]);
  }

  lemma {:induction false} RepeatKept(e: Env, a: Re, cc: nat, bw: bool, k: Bound, greedy: bool, x: St)
    requires ValidSt(e, x)
    ensures AllKeep(x, Repeat(e, a, cc, bw, k, greedy, x), cc, cc + Groups(a))
    decreases a, 4, Room(e, bw, x)
  {
    hide Outcomes, Repeat, Keeps, ValidSt, Advancing, Flat;
    RepeatUnfolds(e, a, cc, bw, k, greedy, x);
    KeepsSelf(x, cc, cc + Groups(a));
    if !Done(k) {
      var all := Outcomes(e, a, cc, bw, x);
      var ys, zss := Advancing(all, x.pos), Onward(e, a, cc, bw, Less(k), greedy, x);
      CapturesKept(e, a, cc, bw, x);
      forall i | 0 <= i < |ys|
        ensures AllKeep(x, zss[i], cc, cc + Groups(a))
      {
        assert ys[i] in all && ys[i].pos != x.pos;
        var j :| 0 <= j < |all| && all[j] == ys[i];
        Nearer(e, bw, x, all, j);
        RepeatKept(e, a, cc, bw, Less(k), greedy, ys[i]);
        AllKeepOn(x, ys[i], zss[i], cc, cc + Groups(a), cc, cc + Groups(a));
      }
      FlatKeep(x, zss, cc, cc + Groups(a));
    }
  }

  /** A group that has matched has captured what lies between where it was entered and where it was left, from the
      lower end to the upper one in both directions. */
  lemma GroupCaptures(e: Env, a: Re, cc: nat, bw: bool, x: St, k: nat)
    requires ValidSt(e, x) && 2 * cc + 1 < |x.caps| && k < |Outcomes(e, Group(a), cc, bw, x)|
    ensures var y := Outcomes(e, Group(a), cc, bw, x)[k];
            |y.caps| == |x.caps| &&
            y.caps[2 * cc] == Ptr(if bw then y.pos else x.pos) && y.caps[2 * cc + 1] == Ptr(if bw then x.pos else y.pos)
  {
    hide Outcomes;
    OutcomesGroup(e, a, cc, bw, x);
    var x0 := SetSlot(x, Opening(cc, bw));
    CapturesKept(e, a, cc + 1, bw, x0);
    assert Keeps(x0, Outcomes(e, a, cc + 1, bw, x0)[k], cc + 1, cc + 1 + Groups(a));
  }

  /** Before the first iteration of an optional quantifier its groups have captured nothing: so they stay where it
      matches nothing. */
  lemma SkippedCaptures(e: Env, a: Re, max: nat, greedy: bool, cc: nat, bw: bool, x: St)
    requires ValidSt(e, x)
    ensures exists y :: y in Outcomes(e, Quant(a, 0, max, greedy), cc, bw, x) && y.pos == x.pos &&
              Keeps(x, y, cc, cc + Groups(a)) && forall i :: 2 * cc <= i < 2 * (cc + Groups(a)) && i < |y.caps| ==> y.caps[i] == Unset
  {
    hide Outcomes, Times, Repeat;
    var y := Reset(x, cc, cc + Groups(a));
    ResetKept(x, cc, cc + Groups(a));
    OutcomesQuant(e, a, 0, max, greedy, cc, bw, x);
    TimesUnfolds(e, a, cc, bw, 0, Extra(0, max), greedy, y);
    RepeatUnfolds(e, a, cc, bw, Extra(0, max), greedy, y);
    assert y in Repeat(e, a, cc, bw, Extra(0, max), greedy, y);
  }
}
