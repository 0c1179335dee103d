/** Comparison functions, sorted segments and rearrangements of a segment of a sequence. */
module SortOrder {

  /** A comparator that orders its arguments by a total preorder. */
  ghost predicate Preorder<T(!new)>(cmp: (T, T) -> int)
  {
    (forall x, y :: cmp(x, y) < 0 <==> cmp(y, x) > 0) &&
    (forall x :: cmp(x, x) == 0) &&
    (forall x, y, z :: cmp(x, y) <= 0 && cmp(y, z) <= 0 ==> cmp(x, z) <= 0)
  }

  ghost predicate Le<T>(cmp: (T, T) -> int, x: T, y: T)
  {
    cmp(x, y) <= 0
  }

  lemma LeTrans<T(!new)>(cmp: (T, T) -> int, x: T, y: T, z: T)
    requires Preorder(cmp) && Le(cmp, x, y) && Le(cmp, y, z)
    ensures Le(cmp, x, z)
  {
  }

  lemma LeTotal<T(!new)>(cmp: (T, T) -> int, x: T, y: T)
    requires Preorder(cmp)
    ensures Le(cmp, x, y) || Le(cmp, y, x)
    ensures cmp(x, y) > 0 ==> Le(cmp, y, x)
  {
  }

  ghost predicate SortedIn<T>(cmp: (T, T) -> int, s: seq<T>, lo: nat, hi: nat)
  {
    hi <= |s| && forall i, j :: lo <= i < j < hi ==> Le(cmp, s[i], s[j])
  }

  /** t is s with the elements of one segment in another order. */
  ghost predicate Rearranged<T>(s: seq<T>, t: seq<T>, lo: nat, hi: nat)
  {
    lo <= hi <= |s| == |t| && s[..lo] == t[..lo] && s[hi..] == t[hi..] && multiset(s[lo..hi]) == multiset(t[lo..hi])
  }

  lemma RearrangedTrans<T>(s: seq<T>, t: seq<T>, u: seq<T>, lo: nat, hi: nat)
    requires Rearranged(s, t, lo, hi) && Rearranged(t, u, lo, hi)
    ensures Rearranged(s, u, lo, hi)
  {
  }

  /** A rearrangement of a part is one of the whole. */
  lemma RearrangedWiden<T>(s: seq<T>, t: seq<T>, lo: nat, hi: nat, lo': nat, hi': nat)
    requires Rearranged(s, t, lo, hi) && lo' <= lo && hi <= hi' <= |s|
    ensures Rearranged(s, t, lo', hi')
  {
    assert s[..lo'] == s[..lo][..lo'] && t[..lo'] == t[..lo][..lo'];
    assert s[hi'..] == s[hi..][hi' - hi..] && t[hi'..] == t[hi..][hi' - hi..];
    assert s[lo'..hi'] == s[..lo][lo'..] + s[lo..hi] + s[hi..][..hi' - hi];
    assert t[lo'..hi'] == t[..lo][lo'..] + t[lo..hi] + t[hi..][..hi' - hi];
  }

  lemma RearrangedSelf<T>(s: seq<T>, lo: nat, hi: nat)
    requires lo <= hi <= |s|
    ensures Rearranged(s, s, lo, hi)
  {
  }

  /** Exchanging two elements of the segment. */
  lemma RearrangedSwap<T>(s: seq<T>, lo: nat, hi: nat, i: nat, j: nat)
    requires lo <= i < hi <= |s| && lo <= j < hi
    ensures Rearranged(s, s[i := s[j]][j := s[i]], lo, hi)
  {
    var t := s[i := s[j]][j := s[i]];
    var m := s[lo..hi];
    assert t[lo..hi] == m[i - lo := m[j - lo]][j - lo := m[i - lo]];
  }

  /** Elements outside the segment stay where they are, and inside nothing new appears. */
  lemma RearrangedElements<T>(s: seq<T>, t: seq<T>, lo: nat, hi: nat)
    requires Rearranged(s, t, lo, hi)
    ensures forall k :: 0 <= k < |s| && !(lo <= k < hi) ==> t[k] == s[k]
    ensures forall k :: lo <= k < hi ==> t[k] in s[lo..hi]
  {
    forall k | 0 <= k < |s| && !(lo <= k < hi)
      ensures t[k] == s[k]
    {
      if k < lo {
        assert t[k] == t[..lo][k] && s[k] == s[..lo][k];
      } else {
        assert t[k] == t[hi..][k - hi] && s[k] == s[hi..][k - hi];
      }
    }
    forall k | lo <= k < hi
      ensures t[k] in s[lo..hi]
    {
      assert t[k] == t[lo..hi][k - lo];
      assert t[k] in multiset(t[lo..hi]);
    }
  }

  function Swapped<T>(s: seq<T>, i: nat, j: nat): (t: seq<T>)
    requires i < |s| && j < |s|
    ensures |t| == |s|
  {
    s[i := s[j]][j := s[i]]
  }

  /** A rearrangement followed by an exchange inside the segment. */
  lemma RearrangedAgain<T>(s: seq<T>, t: seq<T>, lo: nat, hi: nat, i: nat, j: nat)
    requires Rearranged(s, t, lo, hi) && lo <= i < hi && lo <= j < hi
    ensures Rearranged(s, Swapped(t, i, j), lo, hi)
  {
    RearrangedSwap(t, lo, hi, i, j);
    RearrangedTrans(s, t, Swapped(t, i, j), lo, hi);
  }
}
