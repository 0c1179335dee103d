/** The compressed property tables: lookup through an index, and expansion to a set. */
module CharTables {
  import opened RegexSyntax
  import opened CharSets

  type Byte = x: nat | x < 0x100

  const BLOCK_LEN: nat := 32

  /** The bytes of the item at p: one or two packed lengths, or one length with up to two extra bytes. */
  function ItemSize(b: Byte): (n: nat)
    ensures 1 <= n <= 3
  {
    if b < 64 || b >= 0x80 then 1 else if b < 0x60 then 2 else 3
  }

  /** The first of two lengths. */
  function FirstLength(b: Byte): (n: nat)
    ensures n > 0
  {
    b / 8 + 1
  }

  /** The second of two lengths, or the only one. */
  function LastLength(t: seq<Byte>, p: nat): (n: nat)
    requires p < |t| && p + ItemSize(t[p]) <= |t|
    ensures n > 0
  {
    var b: nat := t[p];
    var b1: nat := if p + 1 < |t| then t[p + 1] else 0;
    var b2: nat := if p + 2 < |t| then t[p + 2] else 0;
    if b < 64 then b % 8 + 1
    else if b >= 0x80 then b - 0x80 + 1
    else if b < 0x60 then (b - 0x40) * 0x100 + b1 + 1
    else (b - 0x60) * 0x10000 + b1 * 0x100 + b2 + 1
  }

  /** The items fill the table from p on. */
  ghost predicate Items(t: seq<Byte>, p: nat)
    decreases |t| - p
  {
    p == |t| || (p < |t| && p + ItemSize(t[p]) <= |t| && Items(t, p + ItemSize(t[p])))
  }

  /** Where an item leaves off: the code reached, and whether the next run is in the set. */
  function CodeAfter(t: seq<Byte>, p: nat, code: nat): nat
    requires p < |t| && p + ItemSize(t[p]) <= |t|
  {
    code + (if t[p] < 64 then FirstLength(t[p]) else 0) + LastLength(t, p)
  }

  function BitAfter(b: Byte, bit: bool): bool
  {
    if b < 64 then bit else !bit
  }

  /** The plain scan: runs alternate between characters outside and inside of the set. */
  ghost predicate Scan(t: seq<Byte>, p: nat, code: nat, bit: bool, c: nat)
    requires Items(t, p)
    decreases |t| - p
  {
    if p == |t| then false
    else if t[p] < 64 && c < code + FirstLength(t[p]) then bit
    else if c < CodeAfter(t, p, code) then (if t[p] < 64 then !bit else bit)
    else Scan(t, p + ItemSize(t[p]), CodeAfter(t, p, code), BitAfter(t[p], bit), c)
  }

  /** Scanning from p with `code` and `bit` comes to p', with code' and bit'. */
  ghost predicate Path(t: seq<Byte>, p: nat, code: nat, bit: bool, p': nat, code': nat, bit': bool)
    requires Items(t, p)
    decreases |t| - p
  {
    (p == p' && code == code' && bit == bit') ||
    (p < |t| && Path(t, p + ItemSize(t[p]), CodeAfter(t, p, code), BitAfter(t[p], bit), p', code', bit'))
  }

  /** The code that the runs from p on reach. */
  ghost function EndCode(t: seq<Byte>, p: nat, code: nat): (end: nat)
    requires Items(t, p)
    decreases |t| - p
  {
    if p == |t| then code else EndCode(t, p + ItemSize(t[p]), CodeAfter(t, p, code))
  }

  lemma {:induction false} BeyondEnd(t: seq<Byte>, p: nat, code: nat, bit: bool, c: nat)
    requires Items(t, p)
    ensures code <= EndCode(t, p, code)
    ensures c >= EndCode(t, p, code) ==> !Scan(t, p, code, bit, c)
    decreases |t| - p
  {
    if p != |t| {
      BeyondEnd(t, p + ItemSize(t[p]), CodeAfter(t, p, code), BitAfter(t[p], bit), c);
    }
  }

  /** The scan may start at any place that it comes to before c. */
  lemma {:induction false} PathScan(t: seq<Byte>, p: nat, code: nat, bit: bool, p': nat, code': nat, bit': bool, c: nat)
    requires Items(t, p) && Path(t, p, code, bit, p', code', bit') && code' <= c
    ensures Items(t, p') && code <= code' && Scan(t, p, code, bit, c) == Scan(t, p', code', bit', c)
    ensures EndCode(t, p', code') == EndCode(t, p, code)
    decreases |t| - p
  {
    if !(p == p' && code == code' && bit == bit') {
      PathScan(t, p + ItemSize(t[p]), CodeAfter(t, p, code), BitAfter(t[p], bit), p', code', bit', c);
    }
  }

  // ----- the index -----

  /** An entry of the index: 21 bits of code, 3 bits of offset into the block. */
  function EntryCode(v: nat): nat { v % 0x200000 }

  function EntryPos(k: nat, v: nat): nat { (k + 1) * BLOCK_LEN + v / 0x200000 }

  /** Each entry but the last says where the scan is at the start of a block; the last one is the code at which
      the table ends. */
  ghost predicate GoodIndex(t: seq<Byte>, index: seq<nat>)
    requires Items(t, 0)
  {
    index != [] &&
    (forall i, j :: 0 <= i < j < |index| ==> EntryCode(index[i]) < EntryCode(index[j])) &&
    EntryCode(index[|index| - 1]) == index[|index| - 1] &&
    EndCode(t, 0, 0) == index[|index| - 1] &&
    forall k :: 0 <= k < |index| - 1 ==> EntryReached(t, index, k)
  }

  ghost predicate EntryReached(t: seq<Byte>, index: seq<nat>, k: nat)
    requires Items(t, 0) && k < |index|
  {
    Path(t, 0, 0, false, EntryPos(k, index[k]), EntryCode(index[k]), false)
  }

  // ----- writing a table -----

  /** How run lengths are written: two in one byte, or one in one, two or three bytes. */
  datatype Item = Pair(a: nat, b: nat) | Short(n: nat) | Medium(n: nat) | Long(n: nat)

  predicate ItemFits(i: Item)
  {
    match i
    case Pair(a, b) => 1 <= a <= 8 && 1 <= b <= 8
    case Short(n) => 1 <= n <= 0x80
    case Medium(n) => 1 <= n <= 0x2000
    case Long(n) => 1 <= n <= 0x20_0000
  }

  predicate AllFit(items: seq<Item>)
  {
    forall k :: 0 <= k < |items| ==> ItemFits(items[k])
  }

  /** The lengths less one; the high byte comes first. */
  function ItemBytes(i: Item): (s: seq<Byte>)
    requires ItemFits(i)
  {
    match i
    case Pair(a, b) => [8 * (a - 1) + b - 1]
    case Short(n) => [0x80 + n - 1]
    case Medium(n) => [0x40 + (n - 1) / 0x100, (n - 1) % 0x100]
    case Long(n) => [0x60 + (n - 1) / 0x10000, (n - 1) / 0x100 % 0x100, (n - 1) % 0x100]
  }

  function ItemRuns(i: Item): seq<nat>
  {
    match i
    case Pair(a, b) => [a, b]
    case Short(n) => [n]
    case Medium(n) => [n]
    case Long(n) => [n]
  }

  function Packed(items: seq<Item>): (s: seq<Byte>)
    requires AllFit(items)
  {
    if items == [] then [] else ItemBytes(items[0]) + Packed(items[1..])
  }

  function AllRuns(items: seq<Item>): seq<nat>
  {
    if items == [] then [] else ItemRuns(items[0]) + AllRuns(items[1..])
  }

  function Total(runs: seq<nat>): nat
  {
    if runs == [] then 0 else runs[0] + Total(runs[1..])
  }

  /** c lies in a run of an odd number, counted from 0. */
  ghost predicate InOddRun(runs: seq<nat>, c: nat)
  {
    exists k :: 0 <= k < |runs| && k % 2 == 1 && RunAt(runs, k, c)
  }

  predicate RunAt(runs: seq<nat>, k: nat, c: nat)
    requires k < |runs|
  {
    Total(runs[..k]) <= c < Total(runs[..k + 1])
  }

  lemma TotalCons(runs: seq<nat>, k: nat)
    requires runs != [] && k <= |runs[1..]|
    ensures Total(runs[..k + 1]) == runs[0] + Total(runs[1..][..k])
  {
    assert runs[..k + 1][1..] == runs[1..][..k];
  }

  /** The same by going over the runs. */
  predicate RunBit(runs: seq<nat>, bit: bool, c: nat)
  {
    if runs == [] then false else if c < runs[0] then bit else RunBit(runs[1..], !bit, c - runs[0])
  }

  lemma {:induction false} RunBitIs(runs: seq<nat>, bit: bool, c: nat)
    ensures RunBit(runs, bit, c) <==> exists k :: 0 <= k < |runs| && RunAt(runs, k, c) && (k % 2 == 1) != bit
    decreases |runs|
  {
    if runs != [] {
      var rest := runs[1..];
      TotalCons(runs, 0);
      assert Total(runs[..0]) == 0 && Total(rest[..0]) == 0;
      if c < runs[0] {
        assert RunAt(runs, 0, c);
        forall k | 0 < k < |runs|
          ensures !RunAt(runs, k, c)
        {
          TotalCons(runs, k - 1);
        }
      } else {
        RunBitIs(rest, !bit, c - runs[0]);
        forall k | 0 < k < |runs|
          ensures RunAt(runs, k, c) <==> RunAt(rest, k - 1, c - runs[0])
        {
          TotalCons(runs, k - 1);
          TotalCons(runs, k);
        }
        if k :| 0 <= k < |rest| && RunAt(rest, k, c - runs[0]) && (k % 2 == 1) != !bit {
          assert RunAt(runs, k + 1, c);
        }
        if k :| 0 <= k < |runs| && RunAt(runs, k, c) && (k % 2 == 1) != bit {
          assert k > 0 && RunAt(rest, k - 1, c - runs[0]);
        }
      }
    }
  }

  /** The bytes of an item are read as its lengths. */
  lemma ItemRead(t: seq<Byte>, p: nat, i: Item)
    requires ItemFits(i) && p + |ItemBytes(i)| <= |t| && t[p..p + |ItemBytes(i)|] == ItemBytes(i)
    ensures p < |t| && ItemSize(t[p]) == |ItemBytes(i)|
    ensures i.Pair? <==> t[p] < 64
    ensures i.Pair? ==> FirstLength(t[p]) == i.a && LastLength(t, p) == i.b
    ensures !i.Pair? ==> LastLength(t, p) == i.n
  {
    var b := ItemBytes(i);
    assert t[p] == t[p..p + |b|][0];
    if |b| > 1 {
      assert t[p + 1] == t[p..p + |b|][1];
    }
    if |b| > 2 {
      assert t[p + 2] == t[p..p + |b|][2];
    }
  }

  /** The first item of the rest of a table. */
  lemma FirstItem(pre: seq<Byte>, items: seq<Item>, t: seq<Byte>)
    requires AllFit(items) && items != [] && t == pre + Packed(items)
    ensures ItemFits(items[0]) && AllFit(items[1..]) && AllRuns(items) == ItemRuns(items[0]) + AllRuns(items[1..])
    ensures var p, i, b := |pre|, items[0], ItemBytes(items[0]);
            t == (pre + b) + Packed(items[1..]) &&
            p < |t| && ItemSize(t[p]) == |b| && |pre + b| == p + |b| <= |t| && (i.Pair? <==> t[p] < 64) &&
            (i.Pair? ==> FirstLength(t[p]) == i.a && LastLength(t, p) == i.b) && (!i.Pair? ==> LastLength(t, p) == i.n)
  {
    hide LastLength, FirstLength, ItemSize, ItemFits, ItemBytes;
    var b := ItemBytes(items[0]);
    assert Packed(items) == b + Packed(items[1..]);
    Prepended(pre, b, Packed(items[1..]));
    ItemRead(t, |pre|, items[0]);
  }

  lemma Prepended(pre: seq<Byte>, b: seq<Byte>, rest: seq<Byte>)
    ensures pre + (b + rest) == (pre + b) + rest && (pre + (b + rest))[|pre|..|pre| + |b|] == b
  {
  }

  /** How the scan goes on behind it. */
  lemma FirstMoves(t: seq<Byte>, p: nat, i: Item, code: nat, bit: bool)
    requires p < |t| && p + ItemSize(t[p]) <= |t| && (i.Pair? <==> t[p] < 64)
    requires (i.Pair? ==> FirstLength(t[p]) == i.a && LastLength(t, p) == i.b) && (!i.Pair? ==> LastLength(t, p) == i.n)
    ensures CodeAfter(t, p, code) == code + Total(ItemRuns(i)) && BitAfter(t[p], bit) == (bit != (|ItemRuns(i)| % 2 == 1))
  {
    hide LastLength, FirstLength, ItemSize;
    ItemTotal(i);
  }

  lemma {:induction false} PackedItems(pre: seq<Byte>, items: seq<Item>, t: seq<Byte>)
    requires AllFit(items) && t == pre + Packed(items)
    ensures Items(t, |pre|)
    decreases |items|
  {
    hide ItemBytes, ItemSize;
    if items != [] {
      FirstItem(pre, items, t);
      PackedItems(pre + ItemBytes(items[0]), items[1..], t);
    }
  }

  lemma {:induction false} PackedBits(pre: seq<Byte>, items: seq<Item>, t: seq<Byte>, code: nat, bit: bool, c: nat)
    requires AllFit(items) && code <= c && t == pre + Packed(items) && Items(t, |pre|)
    ensures Scan(t, |pre|, code, bit, c) == RunBit(AllRuns(items), bit, c - code)
    decreases |items|
  {
    hide Packed, AllFit, AllRuns, ItemBytes, LastLength, FirstLength, ItemSize, Items, Scan, RunBit, CodeAfter, BitAfter;
    if items == [] {
      NothingPacked(t, |pre|, code, bit, c);
    } else {
      var i, rest := items[0], AllRuns(items[1..]);
      FirstItem(pre, items, t);
      ScanItem(t, |pre|, code, bit, c);
      RunsOf(i, rest, bit, c - code);
      ItemTotal(i);
      FirstMoves(t, |pre|, i, code, bit);
      var next := code + Total(ItemRuns(i));
      if c >= next {
        PackedBits(pre + ItemBytes(i), items[1..], t, next, BitAfter(t[|pre|], bit), c);
      }
    }
  }

  lemma NothingPacked(t: seq<Byte>, p: nat, code: nat, bit: bool, c: nat)
    requires Items(t, p) && code <= c
    ensures Packed([]) == [] && AllRuns([]) == [] && !RunBit([], bit, c - code) && Total([]) == 0
    ensures p == |t| ==> !Scan(t, p, code, bit, c) && EndCode(t, p, code) == code
    ensures Path(t, p, code, bit, p, code, bit)
  {
  }

  lemma RunsOf(i: Item, rest: seq<nat>, bit: bool, c: nat)
    ensures i.Pair? ==>
              RunBit(ItemRuns(i) + rest, bit, c) ==
              if c < i.a then bit else if c < i.a + i.b then !bit else RunBit(rest, bit, c - i.a - i.b)
    ensures !i.Pair? ==> RunBit(ItemRuns(i) + rest, bit, c) == if c < i.n then bit else RunBit(rest, !bit, c - i.n)
  {
    var all := ItemRuns(i) + rest;
    if i.Pair? {
      assert all[1..] == [i.b] + rest && all[1..][1..] == rest;
    } else {
      assert all[1..] == rest;
    }
  }

  /** A written table has the characters in its odd runs, however the lengths have been written. */
  lemma PackedScan(items: seq<Item>, c: nat)
    requires AllFit(items)
    ensures Items(Packed(items), 0) && (Scan(Packed(items), 0, 0, false, c) <==> InOddRun(AllRuns(items), c))
  {
    PackedItems([], items, Packed(items));
    PackedBits([], items, Packed(items), 0, false, c);
    RunBitIs(AllRuns(items), false, c);
  }

  // ----- writing an index -----

  lemma {:induction false} TotalAppend(a: seq<nat>, b: seq<nat>)
    ensures Total(a + b) == Total(a) + Total(b)
    decreases |a|
  {
    if a == [] {
      assert a + b == b;
    } else {
      assert (a + b)[1..] == a[1..] + b;
      TotalAppend(a[1..], b);
    }
  }

  /** The scan of a written table comes to the place of each item. */
  lemma {:induction false} PackedPath(pre: seq<Byte>, items: seq<Item>, t: seq<Byte>, j: nat, code: nat, bit: bool)
    requires AllFit(items) && j <= |items| && t == pre + Packed(items) && Items(t, |pre|)
    ensures AllFit(items[..j])
    ensures var runs := AllRuns(items[..j]);
            Path(t, |pre|, code, bit, |pre| + |Packed(items[..j])|, code + Total(runs), bit != (|runs| % 2 == 1))
    decreases j
  {
    hide AllRuns, ItemBytes, LastLength, FirstLength, ItemSize, Items, Path, Total, CodeAfter, BitAfter, ItemFits, Packed;
    if j == 0 {
      assert items[..0] == [];
      NothingPacked(t, |pre|, code, bit, code);
    } else {
      var i, b, front := items[0], ItemBytes(items[0]), items[..j];
      FirstItem(pre, items, t);
      FirstMoves(t, |pre|, i, code, bit);
      ItemsAt(t, |pre|);
      assert front[1..] == items[1..][..j - 1] && front[0] == i;
      FirstItem([], front, Packed(front));
      assert Packed(front) == b + Packed(front[1..]);
      TotalAppend(ItemRuns(i), AllRuns(front[1..]));
      PackedPath(pre + b, items[1..], t, j - 1, code + Total(ItemRuns(i)), BitAfter(t[|pre|], bit));
      var runs := AllRuns(front);
      PathOn(t, |pre|, code, bit, |pre| + |Packed(front)|, code + Total(runs), bit != (|runs| % 2 == 1));
    }
  }

  lemma PathOn(t: seq<Byte>, p: nat, code: nat, bit: bool, p': nat, code': nat, bit': bool)
    requires Items(t, p) && p < |t| && p + ItemSize(t[p]) <= |t| && Items(t, p + ItemSize(t[p]))
    requires Path(t, p + ItemSize(t[p]), CodeAfter(t, p, code), BitAfter(t[p], bit), p', code', bit')
    ensures Path(t, p, code, bit, p', code', bit')
  {
  }

  lemma ItemTotal(i: Item)
    ensures Total(ItemRuns(i)) == if i.Pair? then i.a + i.b else i.n
    ensures |ItemRuns(i)| == if i.Pair? then 2 else 1
  {
    match i
    case Pair(a, b) =>
      assert [a, b][1..] == [b] && [b][1..] == [];
      assert Total([b]) == b + Total([]);
    case _ =>
      var runs := ItemRuns(i);
      assert runs[1..] == [];
  }

  lemma {:induction false} PackedEnd(pre: seq<Byte>, items: seq<Item>, t: seq<Byte>, code: nat)
    requires AllFit(items) && t == pre + Packed(items) && Items(t, |pre|)
    ensures EndCode(t, |pre|, code) == code + Total(AllRuns(items))
    decreases |items|
  {
    hide Packed, AllRuns, ItemBytes, LastLength, FirstLength, ItemSize, Items, EndCode, Total, CodeAfter, BitAfter, AllFit;
    if items == [] {
      NothingPacked(t, |pre|, code, false, code);
    } else {
      FirstItem(pre, items, t);
      FirstMoves(t, |pre|, items[0], code, false);
      ItemsAt(t, |pre|);
      TotalAppend(ItemRuns(items[0]), AllRuns(items[1..]));
      PackedEnd(pre + ItemBytes(items[0]), items[1..], t, code + Total(ItemRuns(items[0])));
      EndOn(t, |pre|, code);
    }
  }

  lemma EndOn(t: seq<Byte>, p: nat, code: nat)
    requires Items(t, p) && p < |t| && p + ItemSize(t[p]) <= |t| && Items(t, p + ItemSize(t[p]))
    ensures EndCode(t, p, code) == EndCode(t, p + ItemSize(t[p]), CodeAfter(t, p, code))
  {
  }

  /** The entry of block k for the item that starts there or up to 7 bytes later, after an even number of runs. */
  predicate EntryFor(items: seq<Item>, j: nat, k: nat, v: nat)
    requires AllFit(items) && j <= |items|
  {
    var p, code := |Packed(items[..j])|, Total(AllRuns(items[..j]));
    32 * (k + 1) <= p < 32 * (k + 1) + 8 && |AllRuns(items[..j])| % 2 == 0 && code < 0x20_0000 &&
    v == code + 0x20_0000 * (p - 32 * (k + 1))
  }

  /** An index that is written for a table: the items of the blocks in order, and at the end the first code after the
      table. */
  ghost predicate IndexFor(items: seq<Item>, starts: seq<nat>, index: seq<nat>)
    requires AllFit(items)
  {
    |index| == |starts| + 1 && Total(AllRuns(items)) < 0x20_0000 && index[|starts|] == Total(AllRuns(items)) &&
    (forall k :: 0 <= k < |starts| ==> starts[k] <= |items| && EntryFor(items, starts[k], k, index[k])) &&
    (forall k, l :: 0 <= k < l < |starts| ==> Total(AllRuns(items[..starts[k]])) < Total(AllRuns(items[..starts[l]]))) &&
    (forall k :: 0 <= k < |starts| ==> Total(AllRuns(items[..starts[k]])) < Total(AllRuns(items)))
  }

  /** Such an index is one that the lookup can use. */
  lemma IndexIsGood(items: seq<Item>, starts: seq<nat>, index: seq<nat>)
    requires AllFit(items) && IndexFor(items, starts, index)
    ensures Items(Packed(items), 0) && GoodIndex(Packed(items), index)
  {
    hide Packed, AllRuns, Total, Path, Items, EndCode;
    var t := Packed(items);
    PackedItems([], items, t);
    PackedEnd([], items, t, 0);
    forall k | 0 <= k < |starts|
      ensures EntryCode(index[k]) == Total(AllRuns(items[..starts[k]])) && EntryReached(t, index, k)
    {
      assert EntryFor(items, starts[k], k, index[k]);
      var p, code := |Packed(items[..starts[k]])|, Total(AllRuns(items[..starts[k]]));
      EntryParts(code, p - 32 * (k + 1));
      PackedPath([], items, t, starts[k], 0, false);
    }
    EntryParts(Total(AllRuns(items)), 0);
    forall i, j | 0 <= i < j < |index|
      ensures EntryCode(index[i]) < EntryCode(index[j])
    {
    }
  }

  lemma EntryParts(code: nat, off: nat)
    requires code < 0x20_0000
    ensures (code + 0x20_0000 * off) % 0x20_0000 == code && (code + 0x20_0000 * off) / 0x20_0000 == off
  {
  }

  // ----- lookup -----

  /** get_index_pos: the place and the code to start from, or none. */
  method GetIndexPos(c: nat, index: seq<nat>) returns (found: bool, pos: nat, code: nat, ghost k: int)
    requires index != [] && forall i, j :: 0 <= i < j < |index| ==> EntryCode(index[i]) < EntryCode(index[j])
    requires EntryCode(index[|index| - 1]) == index[|index| - 1]
    ensures found <==> c < EntryCode(index[0]) || c < index[|index| - 1]
    ensures found && c < EntryCode(index[0]) ==> pos == 0 && code == 0
    ensures found && c >= EntryCode(index[0]) ==>
              0 <= k < |index| - 1 && EntryCode(index[k]) <= c < EntryCode(index[k + 1]) &&
              pos == EntryPos(k, index[k]) && code == EntryCode(index[k])
  {
    k := -1;
    if c < EntryCode(index[0]) {
      return true, 0, 0, -1;
    }
    var idxMin, idxMax := 0, |index| - 1;
    if c >= index[idxMax] {
      return false, 0, 0, -1;
    }
    while idxMax - idxMin > 1
      invariant 0 <= idxMin < idxMax < |index| && EntryCode(index[idxMin]) <= c < EntryCode(index[idxMax])
    {
      var idx := (idxMax + idxMin) / 2;
      if c < EntryCode(index[idx]) {
        idxMax := idx;
      } else {
        idxMin := idx;
      }
    }
    k := idxMin;
    return true, EntryPos(idxMin, index[idxMin]), EntryCode(index[idxMin]), idxMin;
  }

  /** lre_is_in_table: the lookup through the index agrees with the plain scan. */
  method IsInTable(c: nat, t: seq<Byte>, index: seq<nat>) returns (r: bool)
    requires Items(t, 0) && GoodIndex(t, index)
    ensures r == Scan(t, 0, 0, false, c)
    ensures forall items :: AllFit(items) && Packed(items) == t ==> (r <==> InOddRun(AllRuns(items), c))
  {
    hide Scan, Path, EndCode, Items, InOddRun, Packed, AllFit;
    PackedAs(t, c);
    var found, pos, code, k := GetIndexPos(c, index);
    if !found {
      BeyondEnd(t, 0, 0, false, c);
      return false;
    }
    if c >= EntryCode(index[0]) {
      assert EntryReached(t, index, k);
      PathScan(t, 0, 0, false, pos, code, false, c);
    }
    BelowLast(index, c);
    r := ScanFrom(c, t, pos, code);
  }

  lemma PackedAs(t: seq<Byte>, c: nat)
    requires Items(t, 0)
    ensures forall items :: AllFit(items) && Packed(items) == t ==> (Scan(t, 0, 0, false, c) <==> InOddRun(AllRuns(items), c))
  {
    hide Scan, InOddRun, Packed, AllFit;
    forall items | AllFit(items) && Packed(items) == t
      ensures Scan(t, 0, 0, false, c) <==> InOddRun(AllRuns(items), c)
    {
      PackedScan(items, c);
    }
  }

  lemma BelowLast(index: seq<nat>, c: nat)
    requires index != [] && forall i, j :: 0 <= i < j < |index| ==> EntryCode(index[i]) < EntryCode(index[j])
    requires EntryCode(index[|index| - 1]) == index[|index| - 1] && (c < EntryCode(index[0]) || c < index[|index| - 1])
    ensures c < index[|index| - 1]
  {
  }

  /** The loop of lre_is_in_table, which does not test for the end of the table: it never gets there. */
  method ScanFrom(c: nat, t: seq<Byte>, pos0: nat, code0: nat) returns (r: bool)
    requires Items(t, pos0) && code0 <= c < EndCode(t, pos0, code0)
    ensures r == Scan(t, pos0, code0, false, c)
  {
    var pos: nat, code: nat, bit := pos0, code0, false;
    while true
      invariant Items(t, pos) && code <= c < EndCode(t, pos, code) && Scan(t, pos, code, bit, c) == Scan(t, pos0, code0, false, c)
      decreases |t| - pos
    {
      var b := t[pos];
      if b < 64 {
        code := code + FirstLength(b);
        if c < code {
          return bit;
        }
        bit := !bit;
      }
      code := code + LastLength(t, pos);
      if c < code {
        return bit;
      }
      bit := !bit;
      pos := pos + ItemSize(b);
    }
  }

  // ----- expansion -----

  /** What has been put out so far is the set below `code`. */
  ghost predicate Expanded(t: seq<Byte>, p: nat, code: nat, bit: bool, done: seq<nat>)
    requires Items(t, 0) && Items(t, p)
  {
    UpTo(done, code) &&
    (forall c: nat :: c < code ==> (Scan(t, 0, 0, false, c) <==> InPoints(done, c))) &&
    (forall c: nat :: c >= code ==> (Scan(t, 0, 0, false, c) <==> Scan(t, p, code, bit, c)))
  }

  /** Boundaries up to code. */
  ghost predicate UpTo(done: seq<nat>, code: nat)
  {
    IsSet(done) && forall k :: 0 <= k < |done| ==> done[k] <= code
  }

  /** The set with one more run of n characters, if it is inside. */
  function AddRun(done: seq<nat>, code: nat, n: nat, inside: bool): seq<nat>
  {
    if inside then done + [code, code + n] else done
  }

  lemma RunUpTo(done: seq<nat>, code: nat, n: nat, inside: bool)
    requires UpTo(done, code)
    ensures UpTo(AddRun(done, code, n, inside), code + n)
  {
  }

  lemma RunHas(done: seq<nat>, code: nat, n: nat, inside: bool, c: nat)
    requires UpTo(done, code)
    ensures InPoints(AddRun(done, code, n, inside), c) <==> InPoints(done, c) || (inside && code <= c < code + n)
    ensures c >= code ==> !InPoints(done, c)
  {
    if c >= code {
      NotInside(done, c);
    }
    if inside {
      InsideFront(done + [code, code + n], c);
      assert (done + [code, code + n])[..|done|] == done;
    }
  }

  /** One item of the table. */
  lemma ExpandItem(t: seq<Byte>, p: nat, code: nat, bit: bool, done: seq<nat>)
    requires Items(t, 0) && Items(t, p) && p < |t| && Expanded(t, p, code, bit, done)
    ensures var b := t[p];
            var mid := if b < 64 then code + FirstLength(b) else code;
            var bit1 := if b < 64 then !bit else bit;
            var done1 := AddRun(done, code, mid - code, b < 64 && bit);
            Expanded(t, p + ItemSize(b), CodeAfter(t, p, code), BitAfter(b, bit), AddRun(done1, mid, LastLength(t, p), bit1))
  {
    hide InPoints, UpTo, Scan, Items, AddRun;
    ItemsAt(t, p);
    var b, n := t[p], LastLength(t, p);
    var mid := if b < 64 then code + FirstLength(b) else code;
    var bit1 := if b < 64 then !bit else bit;
    var done1 := AddRun(done, code, mid - code, b < 64 && bit);
    RunUpTo(done, code, mid - code, b < 64 && bit);
    RunUpTo(done1, mid, n, bit1);
    forall c: nat
      ensures c < mid + n ==> (Scan(t, 0, 0, false, c) <==> InPoints(AddRun(done1, mid, n, bit1), c))
      ensures c >= mid + n ==> (Scan(t, 0, 0, false, c) <==> Scan(t, p + ItemSize(b), mid + n, BitAfter(b, bit), c))
    {
      if c >= code {
        ScanItem(t, p, code, bit, c);
      }
      RunHas(done, code, mid - code, b < 64 && bit, c);
      RunHas(done1, mid, n, bit1, c);
    }
  }

  /** The scan over one item. */
  lemma ScanItem(t: seq<Byte>, p: nat, code: nat, bit: bool, c: nat)
    requires Items(t, p) && p < |t| && code <= c
    ensures var b, n := t[p], LastLength(t, p);
            var mid := if b < 64 then code + FirstLength(b) else code;
            CodeAfter(t, p, code) == mid + n && Items(t, p + ItemSize(b)) &&
            Scan(t, p, code, bit, c) ==
            if c < mid then bit
            else if c < mid + n then (if b < 64 then !bit else bit)
            else Scan(t, p + ItemSize(b), mid + n, BitAfter(b, bit), c)
  {
  }

  /** unicode_prop1: the expanded table is the set that the scan decides. */
  method Prop1(t: seq<Byte>) returns (cr: CharRange)
    requires Items(t, 0)
    ensures fresh(cr) && IsSet(cr.points) && forall c: nat :: InPoints(cr.points, c) <==> Scan(t, 0, 0, false, c)
    ensures forall items, c: nat :: AllFit(items) && Packed(items) == t ==>
              (InPoints(cr.points, c) <==> InOddRun(AllRuns(items), c))
  {
    hide InPoints, IsSet, Scan, Expanded, Items, InOddRun, Packed, AllFit;
    cr := new CharRange();
    var p: nat, c: nat, bit := 0, 0, false;
    ExpandStarts(t);
    while p < |t|
      invariant 0 <= p <= |t| && Items(t, p) && Expanded(t, p, c, bit, cr.points)
      decreases |t| - p
    {
      ItemsAt(t, p);
      ExpandItem(t, p, c, bit, cr.points);
      var b, c0 := t[p], c;
      if b < 64 {
        c := c + FirstLength(b);
        if bit {
          cr.AddInterval(c0, c);
        }
        bit := !bit;
        c0 := c;
      }
      c := c + LastLength(t, p);
      if bit {
        cr.AddInterval(c0, c);
      }
      bit := !bit;
      p := p + ItemSize(b);
    }
    ExpandEnds(t, c, bit, cr.points);
    forall c: nat
      ensures forall items :: AllFit(items) && Packed(items) == t ==> (InPoints(cr.points, c) <==> InOddRun(AllRuns(items), c))
    {
      PackedAs(t, c);
    }
  }

  lemma ItemsAt(t: seq<Byte>, p: nat)
    requires Items(t, p) && p < |t|
    ensures p + ItemSize(t[p]) <= |t| && Items(t, p + ItemSize(t[p]))
  {
  }

  lemma ExpandStarts(t: seq<Byte>)
    requires Items(t, 0)
    ensures Expanded(t, 0, 0, false, [])
  {
  }

  lemma ExpandEnds(t: seq<Byte>, code: nat, bit: bool, done: seq<nat>)
    requires Items(t, 0) && Items(t, |t|) && Expanded(t, |t|, code, bit, done)
    ensures IsSet(done) && forall c: nat :: InPoints(done, c) <==> Scan(t, 0, 0, false, c)
  {
    hide IsSet, InPoints;
    forall c: nat
      ensures InPoints(done, c) <==> Scan(t, 0, 0, false, c)
    {
      RunHas(done, code, 0, false, c);
    }
  }
}
