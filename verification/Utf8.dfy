/** The UTF-8 encoder and decoder of cutils.c, for up to 31 bits. */
module Utf8 {
  import opened Rounding

  type Byte = x: nat | x < 0x100

  /** utf8_min_code: the least code that takes l more bytes. */
  const MIN_CODE: seq<nat> := [0x80, 0x800, 0x10000, 0x200000, 0x4000000]

  /** utf8_first_code_mask plus one. */
  const FIRST_RANGE: seq<nat> := [0x20, 0x10, 0x8, 0x4, 0x2]

  /** unicode_to_utf8; nothing for codes of more than 31 bits. */
  method Encode(c: nat) returns (q: seq<Byte>)
    requires c < 0x1_0000_0000
    ensures q == if c < 0x8000_0000 then Encoding(c) else []
  {
    hide Encoding;
    q := [];
    if c < 0x80 {
      q := q + [c];
    } else {
      if c < 0x800 {
        q := q + [c / 0x40 + 0xc0];
      } else {
        if c < 0x10000 {
          q := q + [c / 0x1000 + 0xe0];
        } else {
          if c < 0x200000 {
            q := q + [c / 0x40000 + 0xf0];
          } else {
            if c < 0x4000000 {
              q := q + [c / 0x1000000 + 0xf8];
            } else if c < 0x80000000 {
              q := q + [c / 0x40000000 + 0xfc];
              q := q + [c / 0x1000000 % 0x40 + 0x80];
            } else {
              return [];
            }
            q := q + [c / 0x40000 % 0x40 + 0x80];
          }
          q := q + [c / 0x1000 % 0x40 + 0x80];
        }
        q := q + [c / 0x40 % 0x40 + 0x80];
      }
      q := q + [c % 0x40 + 0x80];
    }
    EncodingIs(c);
  }

  /** How many continuation bytes a code takes. */
  function Extra(c: nat): (l: nat)
    ensures l <= 5
  {
    if c < 0x80 then 0 else if c < 0x800 then 1 else if c < 0x10000 then 2 else if c < 0x200000 then 3
    else if c < 0x4000000 then 4 else 5
  }

  /** The bits that mark a first byte with l continuation bytes. */
  function Mark(l: nat): nat
    requires l <= 5
  {
    [0, 0xc0, 0xe0, 0xf0, 0xf8, 0xfc][l]
  }

  function Sixes(l: nat): (p: nat)
    ensures p > 0
  {
    Pow(0x40, l)
  }

  /** l continuation bytes with the low bits of c, highest first. */
  function Tail(c: nat, l: nat): (s: seq<Byte>)
    ensures |s| == l
  {
    if l == 0 then [] else [c / Sixes(l - 1) % 0x40 + 0x80] + Tail(c, l - 1)
  }

  /** What section 2 of RFC 2279 prescribes. */
  function Encoding(c: nat): (s: seq<Byte>)
    requires c < 0x8000_0000
  {
    SixBits();
    var l := Extra(c);
    [Mark(l) + c / Sixes(l)] + Tail(c, l)
  }

  lemma SixBits()
    ensures Sixes(0) == 1 && Sixes(1) == 0x40 && Sixes(2) == 0x1000 && Sixes(3) == 0x40000 && Sixes(4) == 0x1000000
    ensures Sixes(5) == 0x40000000
  {
  }

  lemma TailIs(c: nat)
    ensures Tail(c, 0) == [] && Tail(c, 1) == [c % 0x40 + 0x80]
    ensures Tail(c, 2) == [c / 0x40 % 0x40 + 0x80] + Tail(c, 1)
    ensures Tail(c, 3) == [c / 0x1000 % 0x40 + 0x80] + Tail(c, 2)
    ensures Tail(c, 4) == [c / 0x40000 % 0x40 + 0x80] + Tail(c, 3)
    ensures Tail(c, 5) == [c / 0x1000000 % 0x40 + 0x80] + Tail(c, 4)
  {
    SixBits();
    assert c / 1 == c;
  }

  lemma EncodingIs(c: nat)
    ensures c < 0x80 ==> Encoding(c) == [c]
    ensures 0x80 <= c < 0x800 ==> Encoding(c) == [c / 0x40 + 0xc0, c % 0x40 + 0x80]
    ensures 0x800 <= c < 0x10000 ==> Encoding(c) == [c / 0x1000 + 0xe0, c / 0x40 % 0x40 + 0x80, c % 0x40 + 0x80]
    ensures 0x10000 <= c < 0x200000 ==>
              Encoding(c) == [c / 0x40000 + 0xf0, c / 0x1000 % 0x40 + 0x80, c / 0x40 % 0x40 + 0x80, c % 0x40 + 0x80]
    ensures 0x200000 <= c < 0x4000000 ==>
              Encoding(c) == [c / 0x1000000 + 0xf8, c / 0x40000 % 0x40 + 0x80, c / 0x1000 % 0x40 + 0x80,
                              c / 0x40 % 0x40 + 0x80, c % 0x40 + 0x80]
    ensures 0x4000000 <= c < 0x80000000 ==>
              Encoding(c) == [c / 0x40000000 + 0xfc, c / 0x1000000 % 0x40 + 0x80, c / 0x40000 % 0x40 + 0x80,
                              c / 0x1000 % 0x40 + 0x80, c / 0x40 % 0x40 + 0x80, c % 0x40 + 0x80]
  {
    hide Tail, Sixes;
    SixBits();
    TailIs(c);
  }

  predicate Continues(b: Byte) { 0x80 <= b < 0xc0 }

  /** The code that continuation bytes add up to. */
  function Fold(c: nat, s: seq<Byte>): nat
  {
    if s == [] then c else Fold(c, s[..|s| - 1]) * 0x40 + s[|s| - 1] % 0x40
  }

  datatype Decoded = Code(c: nat, len: nat) | Invalid

  /** The number of continuation bytes that a first byte announces, 6 if it is none. */
  function Announced(b: Byte): (l: nat)
    ensures l <= 6
  {
    if b < 0x80 then 0 else if b < 0xc0 then 6 else if b < 0xe0 then 1 else if b < 0xf0 then 2
    else if b < 0xf8 then 3 else if b < 0xfc then 4 else if b < 0xfe then 5 else 6
  }

  /** unicode_from_utf8: the code and the bytes it takes. */
  method Decode(p: seq<Byte>) returns (r: Decoded)
    requires p != []
    ensures r == Decoding(p)
  {
    var c := p[0];
    if c < 0x80 {
      return Code(c, 1);
    }
    var l := Announced(c);
    if l == 6 || l > |p| - 1 {
      return Invalid;
    }
    c := c % FIRST_RANGE[l - 1];
    ghost var first := c;
    for i := 0 to l
      invariant c == Fold(first, p[1..1 + i])
      invariant forall k :: 1 <= k < 1 + i ==> Continues(p[k])
    {
      var b := p[1 + i];
      if b < 0x80 || b >= 0xc0 {
        return Invalid;
      }
      assert p[1..2 + i][..i] == p[1..1 + i];
      c := c * 0x40 + b % 0x40;
    }
    if c < MIN_CODE[l - 1] {
      return Invalid;
    }
    r := Code(c, 1 + l);
  }

  function Decoding(p: seq<Byte>): Decoded
    requires p != []
  {
    var l := Announced(p[0]);
    if l == 0 then Code(p[0], 1)
    else if l == 6 || l > |p| - 1 || exists k :: 1 <= k < 1 + l && !Continues(p[k]) then Invalid
    else
      var c := Fold(p[0] % FIRST_RANGE[l - 1], p[1..1 + l]);
      if c < MIN_CODE[l - 1] then Invalid else Code(c, 1 + l)
  }

  // ----- inverses -----

  /** Folding the continuation bytes of c gives c back. */
  lemma {:induction false} FoldTail(c: nat, l: nat, n: nat)
    requires n <= l
    ensures Fold(c / Sixes(l), Tail(c, l)[..n]) == c / Sixes(l - n)
    decreases n
  {
    hide Tail, Sixes;
    var s := Tail(c, l);
    if n > 0 {
      FoldTail(c, l, n - 1);
      assert s[..n][..n - 1] == s[..n - 1];
      TailAt(c, l, n - 1);
      SixMore(c, l - n);
      assert l - 1 - (n - 1) == l - n && l - (n - 1) == l - n + 1;
    }
  }

  lemma SixMore(c: nat, n: nat)
    ensures c / Sixes(n) == c / Sixes(n + 1) * 0x40 + c / Sixes(n) % 0x40
    ensures (c / Sixes(n) % 0x40 + 0x80) % 0x40 == c / Sixes(n) % 0x40
  {
    DivDiv(c, Sixes(n), 0x40);
  }

  lemma {:induction false} TailAt(c: nat, l: nat, k: nat)
    requires k < l
    ensures Tail(c, l)[k] == c / Sixes(l - 1 - k) % 0x40 + 0x80
    decreases l
  {
    if k > 0 {
      TailAt(c, l - 1, k - 1);
    }
  }

  /** And continuation bytes are those of the code that they fold to. */
  lemma {:induction false} TailFold(first: nat, s: seq<Byte>, k: nat)
    requires forall i :: 0 <= i < |s| ==> Continues(s[i])
    ensures Fold(first, s) / Sixes(|s|) == first
    ensures k < |s| ==> s[k] == Fold(first, s) / Sixes(|s| - 1 - k) % 0x40 + 0x80
    decreases |s|
  {
    if s != [] {
      var n := |s| - 1;
      var v := Fold(first, s[..n]);
      var b := s[n] % 0x40;
      TailFold(first, s[..n], if k < n then k else 0);
      DivUnique(v * 0x40 + b, 0x40, v, b);
      DropSix(v * 0x40 + b, v, n);
      if k < n {
        DropSix(v * 0x40 + b, v, n - 1 - k);
      }
    }
  }

  lemma DropSix(x: nat, v: nat, n: nat)
    requires x / 0x40 == v
    ensures x / Sixes(n + 1) == v / Sixes(n)
  {
    DivDiv(x, 0x40, Sixes(n));
  }

  /** The decoder takes back what the encoder put out, whatever follows. */
  lemma EncodeThenDecode(c: nat, rest: seq<Byte>)
    requires c < 0x8000_0000
    ensures Decoding(Encoding(c) + rest) == Code(c, |Encoding(c)|)
  {
    var l := Extra(c);
    var p := Encoding(c) + rest;
    SixBits();
    assert p[0] == Mark(l) + c / Sixes(l);
    assert p[1..1 + l] == Tail(c, l)[..l];
    FoldTail(c, l, l);
    forall k | 1 <= k < 1 + l
      ensures Continues(p[k])
    {
      TailAt(c, l, k - 1);
    }
    FirstByte(c, l);
  }

  lemma FirstByte(c: nat, l: nat)
    requires c < 0x8000_0000 && l == Extra(c)
    ensures var b := Mark(l) + c / Sixes(l);
            b < 0x100 && Announced(b) == l && (l > 0 ==> b % FIRST_RANGE[l - 1] == c / Sixes(l) && c >= MIN_CODE[l - 1])
  {
    SixBits();
  }

  /** And what the decoder accepts is the encoding of the code. */
  lemma DecodeThenEncode(p: seq<Byte>)
    requires p != [] && Decoding(p).Code?
    ensures var r := Decoding(p);
            r.c < 0x8000_0000 && r.len <= |p| && Encoding(r.c) == p[..r.len]
  {
    var r, l := Decoding(p), Announced(p[0]);
    SixBits();
    if l > 0 {
      var first, s := p[0] % FIRST_RANGE[l - 1], p[1..1 + l];
      TailFold(first, s, 0);
      LastByte(p[0], l, first, r.c);
      forall k | 0 <= k < l
        ensures Tail(r.c, l)[k] == s[k]
      {
        TailFold(first, s, k);
        TailAt(r.c, l, k);
      }
      assert Tail(r.c, l) == s;
    }
    assert p[..r.len] == [p[0]] + p[1..1 + l];
  }

  lemma LastByte(b: Byte, l: nat, first: nat, c: nat)
    requires 1 <= l <= 5 && Announced(b) == l && first == b % FIRST_RANGE[l - 1]
    requires c / Sixes(l) == first && c >= MIN_CODE[l - 1]
    ensures c < 0x8000_0000 && Extra(c) == l && b == Mark(l) + c / Sixes(l)
  {
    SixBits();
  }
}
