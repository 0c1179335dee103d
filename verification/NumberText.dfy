/** The digits of a number in text: leading zeros, a point, and underscores between digits. */
module NumberText {
  import opened Rounding
  import opened Bits
  import opened Limbs
  import opened BigNum
  import opened DtoaRoom
  import opened RealValue
  import opened Atod

  const POINT: nat := '.' as int
  const UNDERSCORE: nat := '_' as int

  /** The digits, each at the place of its value. */
  const UPPER_DIGITS: string := "0123456789ABCDEFGHIJKLMNOPQRSTUVWXYZ"
  const LOWER_DIGITS: string := "0123456789abcdefghijklmnopqrstuvwxyz"

  /** to_digit. */
  function ToDigit(c: nat): (d: nat)
    ensures d <= 36
  {
    if 0x30 <= c <= 0x39 then c - 0x30
    else if 0x41 <= c <= 0x5A then c - 0x41 + 10
    else if 0x61 <= c <= 0x7A then c - 0x61 + 10
    else 36
  }

  /** c is the digit d in one of the two alphabets. */
  predicate IsDigit(c: nat, d: nat)
  {
    d < |UPPER_DIGITS| == |LOWER_DIGITS| && (UPPER_DIGITS[d] as int == c || LOWER_DIGITS[d] as int == c)
  }

  lemma DigitPlaces()
    ensures |UPPER_DIGITS| == |LOWER_DIGITS| == 36
    ensures forall d :: 0 <= d < 36 ==> UPPER_DIGITS[d] as int == if d < 10 then '0' as int + d else 'A' as int + d - 10
    ensures forall d :: 0 <= d < 36 ==> LOWER_DIGITS[d] as int == if d < 10 then '0' as int + d else 'a' as int + d - 10
  {
  }

  /** to_digit gives the value of every digit, and 36 for what is none. */
  lemma DigitValue(c: nat, d: nat)
    ensures d < 36 ==> (ToDigit(c) == d <==> IsDigit(c, d))
    ensures ToDigit(c) == 36 <==> forall k: nat :: !IsDigit(c, k)
  {
    hide UPPER_DIGITS, LOWER_DIGITS;
    DigitPlaces();
    if ToDigit(c) < 36 {
      assert IsDigit(c, ToDigit(c));
    }
  }

  /** The digits of the text below the radix have these values; other characters are none. */
  ghost predicate Spells(s: seq<nat>, radix: nat, ds: seq<nat>)
  {
    if s == [] then ds == []
    else
      var c, front := s[|s| - 1], s[..|s| - 1];
      if exists d: nat :: d < radix && IsDigit(c, d)
      then ds != [] && ds[|ds| - 1] < radix && IsDigit(c, ds[|ds| - 1]) && Spells(front, radix, ds[..|ds| - 1])
      else Spells(front, radix, ds)
  }

  lemma {:induction false} DigitsSpell(s: seq<nat>, radix: nat)
    requires radix <= 36
    ensures Spells(s, radix, DigitsOf(s, radix))
    decreases |s|
  {
    hide IsDigit, ToDigit;
    if s != [] {
      var c, front := s[|s| - 1], s[..|s| - 1];
      DigitsSpell(front, radix);
      forall d: nat | d < 36
        ensures ToDigit(c) == d <==> IsDigit(c, d)
      {
        DigitValue(c, d);
      }
      if ToDigit(c) < radix {
        var all := DigitsOf(front, radix) + [ToDigit(c)];
        assert IsDigit(c, ToDigit(c)) && DigitsOf(s, radix) == all && all[..|all| - 1] == DigitsOf(front, radix);
      } else {
        assert DigitsOf(s, radix) == DigitsOf(front, radix) + [] == DigitsOf(front, radix);
        assert forall d: nat :: d < radix ==> !IsDigit(c, d);
      }
    }
  }

  /** The digits in a text; points and underscores are none. */
  function DigitsOf(s: seq<nat>, radix: nat): (ds: seq<nat>)
    ensures |ds| <= |s|
  {
    if s == [] then []
    else
      var d := ToDigit(s[|s| - 1]);
      DigitsOf(s[..|s| - 1], radix) + if d < radix then [d] else []
  }

  /** How many digits come before the first point, or -1 if there is no point. */
  function PointAt(s: seq<nat>, radix: nat): (n: int)
    ensures -1 <= n <= |DigitsOf(s, radix)|
  {
    if s == [] then -1
    else
      var front := s[..|s| - 1];
      if PointAt(front, radix) >= 0 then PointAt(front, radix)
      else if s[|s| - 1] == POINT then |DigitsOf(front, radix)|
      else -1
  }

  /** How many come after it. */
  function FractionDigits(s: seq<nat>, radix: nat): nat
  {
    if PointAt(s, radix) < 0 then 0 else |DigitsOf(s, radix)| - PointAt(s, radix)
  }

  lemma OneMore(s: seq<nat>, c: nat, radix: nat)
    ensures DigitsOf(s + [c], radix) == DigitsOf(s, radix) + if ToDigit(c) < radix then [ToDigit(c)] else []
    ensures PointAt(s + [c], radix) ==
            if PointAt(s, radix) >= 0 then PointAt(s, radix) else if c == POINT then |DigitsOf(s, radix)| else -1
  {
    assert (s + [c])[..|s|] == s;
  }

  function Zeros(n: nat): (s: seq<nat>)
    ensures |s| == n
  {
    seq(n, _ => 0)
  }

  /** The text that has been read: its digits are some zeros and the significant ones, and its point is known. */
  ghost predicate Read(s: seq<nat>, radix: nat, zeros: nat, ds: seq<nat>, dot: int)
  {
    DigitsOf(s, radix) == Zeros(zeros) + ds && PointAt(s, radix) == dot && -1 <= dot <= zeros + |ds|
  }

  lemma ReadPoint(text: seq<nat>, start: nat, p: nat, radix: nat, zeros: nat, ds: seq<nat>)
    requires start <= p < |text| && text[p] == POINT && radix <= 36 && Read(text[start..p], radix, zeros, ds, -1)
    ensures Read(text[start..p + 1], radix, zeros, ds, zeros + |ds|)
  {
    hide DigitsOf, PointAt, Zeros;
    OneMore(text[start..p], POINT, radix);
    assert text[start..p + 1] == text[start..p] + [POINT];
  }

  lemma ReadSeparator(text: seq<nat>, start: nat, p: nat, radix: nat, zeros: nat, ds: seq<nat>, dot: int)
    requires start <= p < |text| && text[p] == UNDERSCORE && radix <= 36 && Read(text[start..p], radix, zeros, ds, dot)
    ensures Read(text[start..p + 1], radix, zeros, ds, dot)
  {
    hide DigitsOf, PointAt, Zeros;
    OneMore(text[start..p], UNDERSCORE, radix);
    assert text[start..p + 1] == text[start..p] + [UNDERSCORE];
  }

  lemma ReadDigit(text: seq<nat>, start: nat, p: nat, radix: nat, zeros: nat, ds: seq<nat>, dot: int)
    requires start <= p < |text| && ToDigit(text[p]) < radix && radix <= 36 && Read(text[start..p], radix, zeros, ds, dot)
    ensures Read(text[start..p + 1], radix, zeros, ds + [ToDigit(text[p])], dot)
    ensures ds == [] && ToDigit(text[p]) == 0 ==> Read(text[start..p + 1], radix, zeros + 1, [], dot)
  {
    hide DigitsOf, PointAt, ToDigit;
    DigitFacts(radix);
    OneMore(text[start..p], text[p], radix);
    assert text[start..p + 1] == text[start..p] + [text[p]];
    assert Zeros(zeros) + (ds + [ToDigit(text[p])]) == Zeros(zeros) + ds + [ToDigit(text[p])];
    assert Zeros(zeros + 1) == Zeros(zeros) + [0];
  }

  lemma DigitFacts(radix: nat)
    requires radix <= 36
    ensures ToDigit(POINT) >= radix && ToDigit(UNDERSCORE) >= radix && ToDigit(0) >= radix
    ensures forall c :: ToDigit(c) == 0 <==> c == 0x30
  {
  }

  predicate DigitAt(text: seq<nat>, k: nat, radix: nat)
  {
    k < |text| && exists d: nat :: d < radix && IsDigit(text[k], d)
  }

  /** The number goes on at k: with a digit, with its first point, which may come first of all only in front of a
      digit, or with a separator in front of a digit. */
  predicate Continues(text: seq<nat>, p0: nat, start: nat, k: nat, radix: nat, separated: bool, intOnly: bool)
    requires start <= k < |text|
  {
    DigitAt(text, k, radix) ||
    (text[k] == '.' as int && !intOnly && (k > p0 || DigitAt(text, k + 1, radix)) && forall j :: start <= j < k ==> text[j] != '.' as int) ||
    (text[k] == '_' as int && separated && k > p0 && DigitAt(text, k + 1, radix))
  }

  /** How the number goes on up to p. */
  predicate GoesOn(text: seq<nat>, p0: nat, start: nat, p: nat, radix: nat, separated: bool, intOnly: bool)
    requires start <= p <= |text|
  {
    forall k :: start <= k < p ==> Continues(text, p0, start, k, radix, separated, intOnly)
  }

  lemma DigitsAre(text: seq<nat>, k: nat, radix: nat)
    requires radix <= 36
    ensures DigitAt(text, k, radix) <==> k < |text| && ToDigit(text[k]) < radix
  {
    hide IsDigit, ToDigit;
    if k < |text| {
      forall d: nat | d < 36
        ensures ToDigit(text[k]) == d <==> IsDigit(text[k], d)
      {
        DigitValue(text[k], d);
      }
      if ToDigit(text[k]) < radix {
        assert IsDigit(text[k], ToDigit(text[k]));
      }
    }
  }

  lemma {:induction false} PointFound(text: seq<nat>, start: nat, p: nat, radix: nat)
    requires start <= p <= |text|
    ensures PointAt(text[start..p], radix) < 0 <==> forall j :: start <= j < p ==> text[j] != POINT
    decreases p
  {
    hide DigitsOf;
    if p > start {
      assert text[start..p][..p - 1 - start] == text[start..p - 1];
      PointFound(text, start, p - 1, radix);
    }
  }

  /** What comes next, seen from the tests of the loops. */
  lemma ContinuesIs(text: seq<nat>, p0: nat, start: nat, k: nat, radix: nat, separated: bool, intOnly: bool)
    requires start <= k < |text| && radix <= 36
    ensures Continues(text, p0, start, k, radix, separated, intOnly) <==>
            ToDigit(text[k]) < radix || (PointAt(text[start..k], radix) < 0 && TakesPoint(text, p0, k, radix, intOnly)) ||
            TakesSeparator(text, p0, k, radix, separated)
  {
    hide DigitAt, ToDigit, PointAt;
    DigitsAre(text, k, radix);
    DigitsAre(text, k + 1, radix);
    PointFound(text, start, k, radix);
  }

  /** Whether a point may be read at p. */
  predicate TakesPoint(text: seq<nat>, p0: nat, p: nat, radix: nat, intOnly: bool)
    requires p < |text|
  {
    text[p] == POINT && (p > p0 || (p + 1 < |text| && ToDigit(text[p + 1]) < radix)) && !intOnly
  }

  /** Whether the separator is at p, between digits up to `most`. */
  predicate TakesSeparator(text: seq<nat>, p0: nat, p: nat, most: nat, separated: bool)
    requires p < |text|
  {
    separated && text[p] == UNDERSCORE && p > p0 && p + 1 < |text| && ToDigit(text[p + 1]) < most
  }

  /** One character further, or not. */
  lemma Further(
    text: seq<nat>, p0: nat, start: nat, p: nat, radix: nat, separated: bool, intOnly: bool, zeros: nat, ds: seq<nat>, dot: int)
    requires start <= p < |text| && radix <= 36 && Read(text[start..p], radix, zeros, ds, dot)
    requires GoesOn(text, p0, start, p, radix, separated, intOnly)
    ensures var goes := ToDigit(text[p]) < radix || (dot < 0 && TakesPoint(text, p0, p, radix, intOnly)) || TakesSeparator(text, p0, p, radix, separated);
            (goes <==> Continues(text, p0, start, p, radix, separated, intOnly)) &&
            (goes ==> GoesOn(text, p0, start, p + 1, radix, separated, intOnly))
  {
    hide ToDigit, TakesPoint, TakesSeparator, Continues, DigitsOf, PointAt;
    ContinuesIs(text, p0, start, p, radix, separated, intOnly);
  }

  /** The two loops of js_atod over the digits. The text starts at p0, its digits at start, behind a prefix. */
  method ScanDigits(text: seq<nat>, p0: nat, start: nat, radix: nat, separated: bool, intOnly: bool)
    returns (p: nat, ds: seq<nat>, intDigits: int)
    requires p0 <= start < |text| && text[|text| - 1] == 0 && 2 <= radix <= 36
    ensures start <= p < |text|
    ensures (ds != [] ==> ds[0] != 0) && forall k :: 0 <= k < |ds| ==> ds[k] < radix
    ensures exists zeros :: DigitsOf(text[start..p], radix) == Zeros(zeros) + ds && Spells(text[start..p], radix, Zeros(zeros) + ds)
    ensures |ds| - intDigits == FractionDigits(text[start..p], radix)
    ensures GoesOn(text, p0, start, p, radix, separated, intOnly) && !Continues(text, p0, start, p, radix, separated, intOnly)
    ensures ToDigit(text[p]) >= radix
  {
    hide DigitsOf, PointAt, Read, ToDigit, FractionDigits, Spells, Continues, GoesOn;
    DigitFacts(radix);
    var pos, dot: int;
    p, pos, dot := SkipZeros(text, p0, start, radix, separated, intOnly);
    var sig := pos;
    ds := [];
    while true
      invariant start <= p < |text| && pos == sig + |ds| && dot >= -1 && Read(text[start..p], radix, sig, ds, dot)
      invariant ds == [] ==> !(dot < 0 && TakesPoint(text, p0, p, radix, intOnly)) && !ZeroNext(text, p0, p, separated)
      invariant (ds != [] ==> ds[0] != 0) && forall k :: 0 <= k < |ds| ==> ds[k] < radix
      invariant GoesOn(text, p0, start, p, radix, separated, intOnly)
      decreases |text| - p
    {
      if TakesPoint(text, p0, p, radix, intOnly) {
        if dot >= 0 {
          break;
        }
        Further(text, p0, start, p, radix, separated, intOnly, sig, ds, dot);
        ReadPoint(text, start, p, radix, sig, ds);
        dot := pos;
        p := p + 1;
      }
      if TakesSeparator(text, p0, p, radix, separated) {
        Further(text, p0, start, p, radix, separated, intOnly, sig, ds, dot);
        ReadSeparator(text, start, p, radix, sig, ds, dot);
        p := p + 1;
      }
      var c := ToDigit(text[p]);
      if c >= radix {
        break;
      }
      Further(text, p0, start, p, radix, separated, intOnly, sig, ds, dot);
      ReadDigit(text, start, p, radix, sig, ds, dot);
      ds := ds + [c];
      p := p + 1;
      pos := pos + 1;
    }
    Further(text, p0, start, p, radix, separated, intOnly, sig, ds, dot);
    ReadAll(text[start..p], radix, sig, ds, dot);
    DigitsSpell(text[start..p], radix);
    if dot < 0 {
      dot := pos;
    }
    intDigits := dot - sig;
  }

  lemma ReadAll(s: seq<nat>, radix: nat, zeros: nat, ds: seq<nat>, dot: int)
    requires Read(s, radix, zeros, ds, dot)
    ensures DigitsOf(s, radix) == Zeros(zeros) + ds
    ensures FractionDigits(s, radix) == if dot < 0 then 0 else zeros + |ds| - dot
  {
    hide DigitsOf, PointAt;
  }

  /** A zero comes next, perhaps behind a separator. */
  predicate ZeroNext(text: seq<nat>, p0: nat, p: nat, separated: bool)
    requires p < |text|
  {
    text[p] == 0x30 || (TakesSeparator(text, p0, p, 1, separated) && text[p + 1] == 0x30)
  }

  /** The first loop. */
  method SkipZeros(text: seq<nat>, p0: nat, start: nat, radix: nat, separated: bool, intOnly: bool)
    returns (p: nat, pos: nat, dot: int)
    requires p0 <= start < |text| && text[|text| - 1] == 0 && 2 <= radix <= 36
    ensures start <= p < |text| && dot >= -1 && Read(text[start..p], radix, pos, [], dot)
    ensures !(dot < 0 && TakesPoint(text, p0, p, radix, intOnly)) && !ZeroNext(text, p0, p, separated)
    ensures GoesOn(text, p0, start, p, radix, separated, intOnly)
  {
    hide DigitsOf, PointAt, Read, ToDigit, Continues;
    DigitFacts(radix);
    p, pos, dot := start, 0, -1;
    NothingRead(text[start..p], radix);
    while true
      invariant start <= p < |text| && dot >= -1 && Read(text[start..p], radix, pos, [], dot)
      invariant GoesOn(text, p0, start, p, radix, separated, intOnly)
      decreases |text| - p
    {
      if TakesPoint(text, p0, p, radix, intOnly) {
        if dot >= 0 {
          break;
        }
        Further(text, p0, start, p, radix, separated, intOnly, pos, [], dot);
        ReadPoint(text, start, p, radix, pos, []);
        dot := pos;
        p := p + 1;
      }
      if TakesSeparator(text, p0, p, 1, separated) {
        Further(text, p0, start, p, radix, separated, intOnly, pos, [], dot);
        ReadSeparator(text, start, p, radix, pos, [], dot);
        p := p + 1;
      }
      if text[p] != 0x30 {
        break;
      }
      Further(text, p0, start, p, radix, separated, intOnly, pos, [], dot);
      ReadDigit(text, start, p, radix, pos, [], dot);
      p := p + 1;
      pos := pos + 1;
    }
  }

  lemma NothingRead(s: seq<nat>, radix: nat)
    requires s == []
    ensures Read(s, radix, 0, [], -1)
  {
  }

  // ----- the value -----

  lemma {:induction false} LeadingZeros(n: nat, ds: seq<nat>, bits: nat)
    ensures Horner(Zeros(n) + ds, bits) == Horner(ds, bits)
    decreases n + |ds|
  {
    hide Pow2;
    var all := Zeros(n) + ds;
    if ds != [] {
      assert all[..|all| - 1] == Zeros(n) + ds[..|ds| - 1];
      LeadingZeros(n, ds[..|ds| - 1], bits);
    } else if n > 0 {
      assert all[..|all| - 1] == Zeros(n - 1) + [];
      LeadingZeros(n - 1, [], bits);
    } else {
      assert all == [];
    }
  }

  /** js_atod for radix 2^bits from the digits on: the result is nearest to the value of the digits in the text,
      with the point where it is, times the power that the exponent says. */
  method ParseText(a: BigNum, text: seq<nat>, p0: nat, start: nat, bits: nat, separated: bool, intOnly: bool, expn: int, isBinExp: bool)
    returns (p: nat, r: nat)
    requires p0 <= start < |text| && text[|text| - 1] == 0 && 1 <= bits <= 5 && a.tab.Length >= LIMBS
    modifies a, a.tab
    ensures start <= p < |text| && GoesOn(text, p0, start, p, Pow2(bits), separated, intOnly)
    ensures !Continues(text, p0, start, p, Pow2(bits), separated, intOnly)
    ensures var s, radix := text[start..p], Pow2(bits);
            Spells(s, radix, DigitsOf(s, radix)) &&
            IsNearest(Exact(Horner(DigitsOf(s, radix), bits),
                            (if isBinExp then expn else expn * bits) - FractionDigits(s, radix) * bits), r)
  {
    hide IsNearest, Exact, NearestBits, Horner, DigitsOf, PointAt, Pow2, Spells, Continues, GoesOn;
    TwoToBits(bits);
    var ds, intDigits;
    p, ds, intDigits := ScanDigits(text, p0, start, Pow2(bits), separated, intOnly);
    ghost var zeros :| DigitsOf(text[start..p], Pow2(bits)) == Zeros(zeros) + ds;
    LeadingZeros(zeros, ds, bits);
    r := ParseDigits(a, ds, bits, intDigits, expn, isBinExp);
  }

  lemma TwoToBits(bits: nat)
    requires 1 <= bits <= 5
    ensures 2 <= Pow2(bits) <= 32
  {
    PowOne();
    MonoPow2(1, bits);
    MonoPow2(bits, 5);
    assert Pow(2, 5) == 32;
  }
}
