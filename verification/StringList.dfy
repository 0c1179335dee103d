/** REStringList: a set of strings as a set of characters, for those of length one, and a hash table. */
module StringList {
  import opened Rounding
  import opened RegexSyntax
  import opened CharSets

  type Str = seq<nat>

  const U32: nat := 0x1_0000_0000

  /** re_string_hash. */
  function HashFrom(s: Str, h: nat): nat
    decreases |s|
  {
    if s == [] then h else HashFrom(s[1..], (h * 263 + s[0]) % U32)
  }

  function Hash(s: Str): (h: nat)
    ensures h < U32
  {
    HashFrom(s, 1) * 0x61C88647 % U32
  }

  /** h >> n. */
  function Shr(h: nat, n: nat): nat
  {
    h / Pow2(n)
  }

  /** The bucket of a string in a table of 2^bits buckets. */
  function Slot(s: Str, bits: nat): (i: nat)
    requires bits <= 32
    ensures i < Pow2(bits)
  {
    SlotFits(Hash(s), bits);
    Shr(Hash(s), 32 - bits)
  }

  lemma SlotFits(h: nat, bits: nat)
    requires bits <= 32 && h < U32
    ensures Shr(h, 32 - bits) < Pow2(bits)
  {
    hide Pow, Pow2;
    PowSum(bits, 32 - bits);
    TwoTo32();
    var q, r := Quotient(h, Pow2(32 - bits));
    DivUnique(h, Pow2(32 - bits), q, r);
    if q >= Pow2(bits) {
      MulMono(Pow2(bits), q, Pow2(32 - bits));
    }
  }

  /** More strings than there is memory for. */
  const LIMIT: nat := 0x1000_0000

  /** A table that has to grow is not too large for that. */
  lemma MayGrow(bits: nat, count: nat)
    requires Pow2(bits) <= count <= LIMIT
    ensures bits < 30
  {
    hide Pow;
    PowSum(8, 8);
    PowSum(16, 12);
    PowSum(8, 4);
    SmallPowers();
    if bits >= 30 {
      MonoPow2(28, bits);
      MonoPow2(29, bits);
      PowSum(1, 28);
    }
  }

  lemma SmallPowers()
    ensures Pow2(8) == 0x100 && Pow2(4) == 0x10 && Pow2(1) == 2 && Pow2(0) == 1
  {
    assert Pow(2, 8) == 0x100;
    assert Pow(2, 4) == 0x10;
  }

  lemma TwoTo32()
    ensures Pow2(32) == U32
  {
    PowSum(8, 8);
    PowSum(16, 16);
    assert Pow(2, 8) == 0x100;
  }

  // ----- tables -----

  type Table = seq<seq<Str>>

  /** The strings of a table. */
  ghost function All(b: Table): multiset<Str>
  {
    if b == [] then multiset{} else All(b[..|b| - 1]) + multiset(b[|b| - 1])
  }

  lemma {:induction false} AllUpdate(b: Table, i: nat, x: seq<Str>)
    requires i < |b|
    ensures All(b[i := x]) + multiset(b[i]) == All(b) + multiset(x)
    decreases |b|
  {
    var k := |b| - 1;
    if i < k {
      AllUpdate(b[..k], i, x);
      assert b[i := x][..k] == b[..k][i := x] && b[i := x][k] == b[k] && b[..k][i] == b[i];
      AlsoWith(All(b[..k][i := x]), multiset(b[i]), All(b[..k]), multiset(x), multiset(b[k]));
    } else {
      assert b[i := x][..k] == b[..k] && b[i := x][k] == x;
    }
  }

  lemma AlsoWith(m: multiset<Str>, x: multiset<Str>, n: multiset<Str>, y: multiset<Str>, z: multiset<Str>)
    requires m + x == n + y
    ensures (m + z) + x == (n + z) + y
  {
    forall q
      ensures ((m + z) + x)[q] == ((n + z) + y)[q]
    {
      assert (m + x)[q] == (n + y)[q];
    }
  }

  lemma {:induction false} AllHas(b: Table, p: Str)
    ensures p in All(b) <==> exists i :: 0 <= i < |b| && p in b[i]
    decreases |b|
  {
    if b != [] {
      var k := |b| - 1;
      AllHas(b[..k], p);
      assert p in multiset(b[k]) <==> p in b[k];
      assert b == b[..k] + [b[k]];
      if p in All(b[..k]) {
        var i :| 0 <= i < k && p in b[..k][i];
        assert p in b[i];
      }
      if exists i :: 0 <= i < |b| && p in b[i] {
        var i :| 0 <= i < |b| && p in b[i];
        if i < k {
          assert p in b[..k][i];
        }
      }
    }
  }

  lemma {:induction false} AllEmpty(b: Table)
    requires forall i :: 0 <= i < |b| ==> b[i] == []
    ensures All(b) == multiset{}
    decreases |b|
  {
    if b != [] {
      AllEmpty(b[..|b| - 1]);
    }
  }

  /** Every string is in the bucket that its hash selects. */
  ghost predicate Placed(b: Table, bits: nat)
  {
    bits <= 32 && forall i, p :: 0 <= i < |b| && p in b[i] ==> Slot(p, bits) == i
  }

  /** No string occurs twice. */
  ghost predicate Distinct(m: multiset<Str>)
  {
    forall p :: m[p] <= 1
  }

  /** A string of the table is in its own bucket. */
  lemma InOwnBucket(b: Table, bits: nat, p: Str)
    requires Placed(b, bits) && |b| == Pow2(bits)
    ensures p in All(b) <==> p in b[Slot(p, bits)]
  {
    AllHas(b, p);
  }

  class StringList {
    const cr: CharRange
    var buckets: Table
    var bits: nat
    var count: nat

    constructor ()
      ensures Valid() && fresh(cr) && count == 0 && buckets == [] && cr.points == []
    {
      cr := new CharRange();
      buckets := [];
      bits := 0;
      count := 0;
    }

    /** The counts are right, no string is there twice, and those of length one are not in the table. */
    ghost predicate Sound()
      reads this
    {
      count == |All(buckets)| && Distinct(All(buckets)) && bits <= 30 &&
      (buckets == [] || |buckets| == Pow2(bits)) && (buckets == [] ==> bits == 0) &&
      forall p :: p in All(buckets) ==> |p| != 1
    }

    ghost predicate Valid()
      reads this
    {
      Sound() && Placed(buckets, bits)
    }

    ghost predicate Has(p: Str)
      reads this
    {
      p in All(buckets)
    }

    /** The set of strings that the list stands for. */
    ghost predicate Contains(p: Str)
      reads this, cr
    {
      if |p| == 1 then InPoints(cr.points, p[0]) else Has(p)
    }

    /** The string is where it is looked for. */
    ghost predicate Finds(p: Str)
      requires Sound()
      reads this
    {
      count != 0 && buckets != [] && p in buckets[Slot(p, bits)]
    }

    lemma FindsAll(p: Str)
      requires Valid()
      ensures Finds(p) <==> Has(p)
    {
      hide All, Slot, Hash, Pow2;
      if buckets == [] {
        AllEmpty(buckets);
      } else {
        InOwnBucket(buckets, bits, p);
        if Has(p) {
          HasSome(All(buckets), p);
        }
      }
    }

    /** The search in re_string_find2. */
    method Find(p: Str) returns (found: bool)
      requires Sound()
      ensures found <==> Finds(p)
      ensures Valid() ==> (found <==> Has(p))
    {
      hide All, Slot, Hash, Pow2;
      if Valid() {
        FindsAll(p);
      }
      if count != 0 {
        if buckets == [] {
          AllEmpty(buckets);
        }
        found := p in buckets[Slot(p, bits)];
      } else {
        found := false;
      }
    }

    /** The growth of the table in re_string_find2: the strings move to a table of twice the size. */
    method Grow()
      requires Valid() && bits < 30
      modifies this`buckets, this`bits
      ensures Valid() && All(buckets) == old(All(buckets)) && count == old(count)
      ensures bits == (if old(bits) + 1 > 4 then old(bits) + 1 else 4) && |buckets| == Pow2(bits)
    {
      hide All, Slot, Hash, Pow2, Distinct;
      var newBits := if bits + 1 > 4 then bits + 1 else 4;
      var newTable: Table := seq(Pow2(newBits), _ => []);
      AllEmpty(newTable);
      ghost var was := buckets;
      AllStart(was);
      for i := 0 to |buckets|
        invariant buckets == was && bits == old(bits) && count == old(count)
        invariant |newTable| == Pow2(newBits) && Placed(newTable, newBits)
        invariant All(newTable) == All(was[..i])
      {
        newTable := MoveBucket(newTable, newBits, buckets[i]);
        AllNext(was, i);
      }
      assert was[..|was|] == was;
      buckets, bits := newTable, newBits;
    }

    /** Adds a string that is not there, in front of its bucket, or in the first one if the table was empty
        but allocated. */
    method Insert(p: Str)
      requires Valid() && !Has(p) && |p| != 1 && count < LIMIT
      modifies this`buckets, this`bits, this`count
      ensures Sound() && All(buckets) == old(All(buckets)) + multiset{p} && count == old(count) + 1
      ensures Valid() <==> old(count) > 0 || old(buckets) == [] || Slot(p, bits) == 0
      ensures Finds(p) <==> Valid()
      ensures if old(count) < |old(buckets)| then bits == old(bits) else bits == (if old(bits) + 1 > 4 then old(bits) + 1 else 4)
    {
      hide All, Slot, Hash, Pow2, Placed, Distinct;
      var h := if count != 0 then Slot(p, bits) else 0;
      SizeOfSlot(buckets, bits, p);
      if count + 1 > |buckets| {
        if buckets != [] {
          MayGrow(bits, count);
        }
        Grow();
        h := Slot(p, bits);
        SizeOfSlot(buckets, bits, p);
      }
      PutAt(p, h);
    }

    /** Puts a string in front of a bucket. */
    method PutAt(p: Str, h: nat)
      requires Valid() && !Has(p) && |p| != 1 && h < |buckets|
      modifies this`buckets, this`count
      ensures Sound() && All(buckets) == old(All(buckets)) + multiset{p} && count == old(count) + 1
      ensures Valid() <==> Slot(p, bits) == h
      ensures Finds(p) <==> Valid()
    {
      hide All, Slot, Hash, Pow2, Placed, Distinct;
      ghost var b := buckets;
      AllUpdate(b, h, [p] + b[h]);
      assert multiset([p] + b[h]) == multiset{p} + multiset(b[h]);
      AddOne(All(b), All(b[h := [p] + b[h]]), multiset(b[h]), p);
      PlacedUpdate(b, bits, h, p);
      AllHas(b, p);
      buckets := buckets[h := [p] + buckets[h]];
      count := count + 1;
    }

    /** re_string_find2 with the flag to add: afterwards the string is there, in its own bucket unless the
        table was empty but allocated. */
    method FindOrAdd(p: Str)
      requires Valid() && |p| != 1 && count < LIMIT
      modifies this`buckets, this`bits, this`count
      ensures Sound() && forall q :: Has(q) <==> old(Has(q)) || q == p
      ensures 0 < count <= old(count) + 1 && (old(count > 0 || buckets == []) ==> Valid())
      ensures Valid() <==> old(Has(p)) || old(count > 0 || buckets == []) || Slot(p, bits) == 0
      ensures Finds(p) <==> Valid()
      ensures if old(Has(p)) || old(count) < |old(buckets)| then bits == old(bits)
              else bits == (if old(bits) + 1 > 4 then old(bits) + 1 else 4)
    {
      hide All, Slot, Hash, Pow2, Placed, Distinct;
      var found := Find(p);
      if found {
        HasSome(All(buckets), p);
        FindsAll(p);
        return;
      }
      Insert(p);
    }

    /** re_string_add. */
    method Add(p: Str)
      requires Valid() && count < LIMIT && (count > 0 || buckets == []) && IsSet(cr.points)
      modifies this`buckets, this`bits, this`count, cr
      ensures Valid() && IsSet(cr.points) && (|p| == 1 || count > 0) && (|p| == 1 ==> count == old(count) && buckets == old(buckets))
      ensures forall q :: Contains(q) <==> old(Contains(q)) || q == p
    {
      hide All, Slot, Hash, Pow2, Placed, Distinct, InPoints, IsSet, Increasing;
      if |p| == 1 {
        cr.UnionInterval(p[0], p[0]);
        forall q: Str
          ensures Contains(q) <==> old(Contains(q)) || q == p
        {
          if |q| == 1 {
            assert q == p <==> q[0] == p[0];
          }
        }
      } else {
        FindOrAdd(p);
      }
    }

    /** Removes the string at place j of bucket i. */
    method Remove(i: nat, j: nat)
      requires Valid() && i < |buckets| && j < |buckets[i]|
      modifies this`buckets, this`count
      ensures Valid() && count == old(count) - 1
      ensures buckets == old(buckets[i := buckets[i][..j] + buckets[i][j + 1..]])
    {
      hide All, Slot, Hash, Pow2, Placed, Distinct;
      ghost var b, row := buckets, buckets[i];
      ghost var rest := row[..j] + row[j + 1..];
      AllUpdate(b, i, rest);
      assert row == row[..j] + [row[j]] + row[j + 1..];
      assert multiset(row) == multiset(rest) + multiset{row[j]};
      TakeOne(All(b), All(b[i := rest]), multiset(rest), row[j]);
      PlacedFewer(b, bits, i, rest);
      buckets := buckets[i := buckets[i][..j] + buckets[i][j + 1..]];
      count := count - 1;
    }

    /** Whether an intersection or difference with b keeps a string. */
    ghost predicate Keeps(b: StringList, inter: bool, p: Str)
      reads b
    {
      b.Has(p) == inter
    }

    /** A bucket with only the strings that are kept. */
    ghost predicate RowKept(b: StringList, inter: bool, row: seq<Str>, wasRow: seq<Str>)
      reads b
    {
      forall q :: q in row <==> q in wasRow && Keeps(b, inter, q)
    }

    /** The loop over one bucket in re_string_list_op: goes on after a string that stays, and removes the
        others while the loop is at them. */
    method FilterBucket(b: StringList, inter: bool, i: nat)
      requires Valid() && b.Valid() && b != this && i < |buckets|
      modifies this`buckets, this`count
      ensures Valid() && |buckets| == |old(buckets)| && count <= old(count)
      ensures forall k :: 0 <= k < |buckets| && k != i ==> buckets[k] == old(buckets)[k]
      ensures forall q :: q in buckets[i] <==> q in old(buckets[i]) && Keeps(b, inter, q)
    {
      hide Slot, Hash, Pow2, Placed, All, Sound;
      ghost var was := buckets;
      ghost var seen: nat := 0;
      var j := 0;
      while j < |buckets[i]|
        invariant Valid() && |buckets| == |was| && count <= old(count)
        invariant 0 <= j <= seen <= |was[i]| && j <= |buckets[i]| && buckets[i][j..] == was[i][seen..]
        invariant forall k :: 0 <= k < |buckets| && k != i ==> buckets[k] == was[k]
        invariant forall q :: q in buckets[i][..j] <==> q in was[i][..seen] && Keeps(b, inter, q)
        decreases |buckets[i]| - j
      {
        ghost var row := buckets[i];
        var p := buckets[i][j];
        assert row[j..][0] == p && row[j..][1..] == row[j + 1..] && was[i][seen..][1..] == was[i][seen + 1..];
        assert was[i][..seen + 1] == was[i][..seen] + [p];
        var ret := b.Find(p);
        if ret == inter {
          assert row[..j + 1] == row[..j] + [p];
          j := j + 1;
        } else {
          Remove(i, j);
          assert buckets[i][..j] == row[..j] && buckets[i][j..] == row[j + 1..];
        }
        seen := seen + 1;
      }
      assert buckets[i][..j] == buckets[i] && was[i][..seen] == was[i];
    }

    /** The part of re_string_list_op for intersection and difference. */
    method Filter(b: StringList, inter: bool)
      requires Valid() && b.Valid() && b != this
      modifies this`buckets, this`count
      ensures Valid() && count <= old(count)
      ensures forall q :: Has(q) <==> old(Has(q)) && Keeps(b, inter, q)
    {
      hide Slot, Hash, Pow2, Placed, All, Sound;
      ghost var was := buckets;
      for i := 0 to |buckets|
        invariant Valid() && |buckets| == |was| && count <= old(count)
        invariant forall k :: i <= k < |buckets| ==> buckets[k] == was[k]
        invariant forall k :: 0 <= k < i ==> RowKept(b, inter, buckets[k], was[k])
      {
        FilterBucket(b, inter, i);
        assert RowKept(b, inter, buckets[i], was[i]);
      }
      forall q: Str
        ensures Has(q) <==> q in All(was) && Keeps(b, inter, q)
      {
        AllHas(buckets, q);
        AllHas(was, q);
        if k :| 0 <= k < |was| && q in was[k] && Keeps(b, inter, q) {
          assert RowKept(b, inter, buckets[k], was[k]);
        }
        if k :| 0 <= k < |buckets| && q in buckets[k] {
          assert RowKept(b, inter, buckets[k], was[k]);
        }
      }
    }

    lemma NothingLeft()
      requires Sound() && forall q :: !Has(q)
      ensures count == 0
    {
      hide All;
      forall q
        ensures All(buckets)[q] == multiset{}[q]
      {
        assert !Has(q);
      }
      assert All(buckets) == multiset{};
    }

    /** The part of re_string_list_op for union. */
    method AddAll(b: StringList)
      requires Valid() && b.Valid() && b != this && count + b.count <= LIMIT
      requires b.count == 0 || count > 0 || buckets == []
      modifies this`buckets, this`bits, this`count
      ensures Valid() && count <= old(count) + b.count
      ensures forall q :: Has(q) <==> old(Has(q)) || b.Has(q)
    {
      hide Slot, Hash, Pow2, Placed, All, Distinct;
      if b.count == 0 {
        return;
      }
      ghost var was := All(buckets);
      AllStart(b.buckets);
      for i := 0 to |b.buckets|
        invariant Valid() && b.Valid() && (count > 0 || buckets == [])
        invariant count <= old(count) + |All(b.buckets[..i])|
        invariant forall q :: Has(q) <==> q in was || q in All(b.buckets[..i])
      {
        AllNext(b.buckets, i);
        AllFewer(b.buckets, i + 1);
        AddBucket(b.buckets[i], b.bits, b.buckets, i);
      }
      assert b.buckets[..|b.buckets|] == b.buckets;
    }

    /** The inner loop: the strings of one bucket. */
    method AddBucket(row: seq<Str>, ghost bBits: nat, ghost bTable: Table, ghost i: nat)
      requires Valid() && (count > 0 || buckets == []) && count + |row| <= LIMIT
      requires i < |bTable| && row == bTable[i] && forall p :: p in All(bTable) ==> |p| != 1
      modifies this`buckets, this`bits, this`count
      ensures Valid() && (count > 0 || buckets == []) && count <= old(count) + |row|
      ensures forall q :: Has(q) <==> old(Has(q)) || q in multiset(row)
    {
      hide Slot, Hash, Pow2, Placed, All, Sound;
      ghost var was := All(buckets);
      for k := 0 to |row|
        invariant Valid() && (count > 0 || buckets == []) && count <= old(count) + k
        invariant forall q :: Has(q) <==> q in was || q in row[..k]
      {
        AllHas(bTable, row[k]);
        assert row[..k + 1] == row[..k] + [row[k]];
        FindOrAdd(row[k]);
      }
      assert row[..|row|] == row;
    }

    /** re_string_list_op: a = a op b, for union, intersection and difference. */
    method ListOp(b: StringList, op: SetOp)
      requires op != XOR && Valid() && b.Valid() && b != this && b.cr != cr && IsSet(cr.points) && IsSet(b.cr.points)
      requires op == UNION ==> count + b.count <= LIMIT && (b.count == 0 || count > 0 || buckets == [])
      modifies this`buckets, this`bits, this`count, cr
      ensures Valid() && IsSet(cr.points)
      ensures forall q :: Contains(q) <==> Apply(op, old(Contains(q)), old(b.Contains(q)))
      ensures op != UNION ==> bits == old(bits) && forall q :: Has(q) <==> old(Has(q)) && Keeps(b, op == INTER, q)
    {
      hide Slot, Hash, Pow2, Placed, All, Distinct, InPoints, IsSet, Increasing, Sound;
      cr.Op1(b.cr.points, op);
      if op == UNION {
        AddAll(b);
      } else {
        Filter(b, op == INTER);
      }
    }
  }

  lemma HasSome(m: multiset<Str>, p: Str)
    requires p in m
    ensures |m| > 0
  {
  }

  lemma TakeOne(m: multiset<Str>, n: multiset<Str>, x: multiset<Str>, p: Str)
    requires n + (x + multiset{p}) == m + x
    ensures n + multiset{p} == m && |n| == |m| - 1 && n <= m
    ensures Distinct(m) ==> Distinct(n)
  {
    forall q
      ensures (n + multiset{p})[q] == m[q]
    {
      assert (n + (x + multiset{p}))[q] == (m + x)[q];
    }
    assert |n + multiset{p}| == |n| + 1;
    if Distinct(m) {
      forall q
        ensures n[q] <= 1
      {
        assert n[q] <= m[q];
      }
    }
  }

  lemma PlacedFewer(b: Table, bits: nat, i: nat, rest: seq<Str>)
    requires Placed(b, bits) && i < |b| && forall p :: p in rest ==> p in b[i]
    ensures Placed(b[i := rest], bits)
  {
    var c := b[i := rest];
    forall k, p | 0 <= k < |c| && p in c[k]
      ensures Slot(p, bits) == k
    {
      assert p in b[k];
    }
  }

  lemma {:induction false} AllFewer(b: Table, n: nat)
    requires n <= |b|
    ensures |All(b[..n])| <= |All(b)|
    decreases |b| - n
  {
    if n < |b| {
      AllNext(b, n);
      AllFewer(b, n + 1);
    } else {
      assert b[..n] == b;
    }
  }

  /** A string that is added to a list that was emptied is in the list, but it is found again only if its hash
      selects the first bucket. */
  method AddToEmptied(p: Str) returns (s: StringList, found: bool)
    requires |p| != 1
    ensures s.Sound() && s.Has(p) && (found <==> Slot(p, 4) == 0)
  {
    hide All, Slot, Hash, Pow2, Placed, Distinct;
    s := new StringList();
    AllEmpty([]);
    s.FindOrAdd(p);
    var none := new StringList();
    s.ListOp(none, INTER);
    s.NothingLeft();
    s.FindOrAdd(p);
    found := s.Find(p);
  }

  /** The empty string is one that is not found. */
  lemma EmptyStringLost()
    ensures Slot([], 4) == 6
  {
    SmallPowers();
    PowSum(8, 8);
    PowSum(16, 8);
    PowSum(24, 4);
    assert Hash([]) == 0x61C88647;
    DivUnique(0x61C88647, Pow2(28), 6, 0x61C88647 - 6 * 0x1000_0000);
  }

  lemma SizeOfSlot(b: Table, bits: nat, p: Str)
    requires bits <= 32
    ensures |b| == Pow2(bits) ==> Slot(p, bits) < |b| && |b| > 0
  {
  }

  lemma AllStart(b: Table)
    ensures All(b[..0]) == multiset{}
  {
  }

  lemma AllNext(b: Table, i: nat)
    requires i < |b|
    ensures All(b[..i + 1]) == All(b[..i]) + multiset(b[i])
  {
    assert b[..i + 1][..i] == b[..i];
  }

  lemma AddOne(m: multiset<Str>, n: multiset<Str>, x: multiset<Str>, p: Str)
    requires n + x == m + (multiset{p} + x)
    ensures n == m + multiset{p} && |n| == |m| + 1
    ensures p !in m && Distinct(m) ==> Distinct(n)
  {
    forall q
      ensures n[q] == (m + multiset{p})[q]
    {
      assert (n + x)[q] == (m + (multiset{p} + x))[q];
    }
  }

  lemma PlacedUpdate(b: Table, bits: nat, h: nat, p: Str)
    requires Placed(b, bits) && h < |b|
    ensures Placed(b[h := [p] + b[h]], bits) <==> Slot(p, bits) == h
  {
    var c := b[h := [p] + b[h]];
    assert p in c[h];
    forall i, q | 0 <= i < |c| && q in c[i] && q != p
      ensures Slot(q, bits) == i
    {
      assert q in b[i];
    }
  }

  /** Puts each string of a bucket in front of its new bucket. */
  method MoveBucket(b: Table, bits: nat, strings: seq<Str>) returns (c: Table)
    requires bits <= 32 && |b| == Pow2(bits) && Placed(b, bits)
    ensures |c| == Pow2(bits) && Placed(c, bits) && All(c) == All(b) + multiset(strings)
  {
    hide All, Slot, Hash, Pow2;
    c := b;
    for k := 0 to |strings|
      invariant |c| == Pow2(bits) && Placed(c, bits) && All(c) == All(b) + multiset(strings[..k])
    {
      var p := strings[k];
      var h := Slot(p, bits);
      AllUpdate(c, h, [p] + c[h]);
      assert multiset([p] + c[h]) == multiset{p} + multiset(c[h]);
      AddOne(All(c), All(c[h := [p] + c[h]]), multiset(c[h]), p);
      PlacedUpdate(c, bits, h, p);
      assert strings[..k + 1] == strings[..k] + [p];
      c := c[h := [p] + c[h]];
    }
    assert strings[..|strings|] == strings;
  }
}
