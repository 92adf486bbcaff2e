/** The CRC32C checksum of ibdb/src/base/crc32c.cpp and crc32c.h.

    `Crc` is the reference: the message is divided by the Castagnoli polynomial one bit at
    a time, least significant bit of each byte first (sections 12.1 and B.4 of RFC 3720).
    `Extend` is the program's slicing-by-4 loop and is proved to compute `Crc`. */
module Crc32c {
  import opened Coding

  /** The polynomial 0x1EDC6F41 with its bits reversed. */
  const POLY: bv32 := 0x82f6_3b78
  const ONES: bv32 := 0xffff_ffff

  // ---------- reference: division bit by bit ----------

  // Named bit operations, so that a proof can hide their bits.
  function Xor(a: bv32, b: bv32): bv32 { a ^ b }
  function Low(s: bv32): bv32 { s & 0xff }
  function High(s: bv32): bv32 { s >> 8 }
  function Up(s: bv32): bv32 { s << 8 }
  function Half(s: bv32): bv32 { s >> 1 }
  predicate Odd(s: bv32) { s & 1 == 1 }

  function Shift1(s: bv32): bv32 {
    if Odd(s) then Xor(Half(s), POLY) else Half(s)
  }

  function DivideBit(s: bv32, bit: bool): bv32 {
    Shift1(if bit then Xor(s, 1) else s)
  }

  function Divide(s: bv32, bits: seq<bool>): bv32
    decreases |bits|
  {
    if bits == [] then s else Divide(DivideBit(s, bits[0]), bits[1..])
  }

  /** The low `n` bits of `w`, least significant first. */
  function LowBits(n: nat, w: bv32): seq<bool> {
    if n == 0 then [] else [Odd(w)] + LowBits(n - 1, Half(w))
  }

  function Bits(data: Bytes): seq<bool> {
    if data == [] then [] else LowBits(8, data[0] as bv32) + Bits(data[1..])
  }

  /** The CRC of a string whose prefix has CRC `init` and whose remaining bytes are `data`. */
  function Crc(init: bv32, data: Bytes): bv32 {
    Xor(Divide(Xor(init, ONES), Bits(data)), ONES)
  }

  // ---------- algebra of the register ----------

  lemma XorLaws(a: bv32, b: bv32, c: bv32)
    ensures Xor(Xor(a, b), c) == Xor(a, Xor(b, c))
    ensures Xor(a, b) == Xor(b, a)
    ensures Xor(Xor(a, b), b) == a
    ensures Xor(a, 0) == a
  {
  }

  lemma XorInjective(s: bv32, x: bv32, y: bv32)
    requires Xor(s, x) == Xor(s, y) || Xor(x, s) == Xor(y, s)
    ensures x == y
  {
    hide Xor;
    XorLaws(x, s, x);
    XorLaws(y, s, y);
    XorLaws(s, x, x);
    XorLaws(s, y, y);
  }

  lemma HalfXor(a: bv32, b: bv32)
    ensures Half(Xor(a, b)) == Xor(Half(a), Half(b))
    ensures Odd(Xor(a, b)) == (Odd(a) != Odd(b))
  {
  }

  lemma Shift1Linear(a: bv32, b: bv32)
    ensures Shift1(Xor(a, b)) == Xor(Shift1(a), Shift1(b))
  {
    hide Xor, Half, Odd;
    HalfXor(a, b);
    var x, y := Half(a), Half(b);
    XorLaws(x, y, POLY);
    XorLaws(x, POLY, y);
    XorLaws(y, POLY, POLY);
    XorLaws(x, POLY, Xor(y, POLY));
    XorLaws(POLY, y, POLY);
  }

  function Shift(n: nat, s: bv32): bv32 {
    if n == 0 then s else Shift(n - 1, Shift1(s))
  }

  lemma {:induction false} ShiftLinear(n: nat, a: bv32, b: bv32)
    ensures Shift(n, Xor(a, b)) == Xor(Shift(n, a), Shift(n, b))
  {
    hide Shift1, Xor;
    if n > 0 {
      Shift1Linear(a, b);
      ShiftLinear(n - 1, Shift1(a), Shift1(b));
    }
  }

  lemma {:induction false} ShiftAdd(m: nat, n: nat, s: bv32)
    ensures Shift(m + n, s) == Shift(n, Shift(m, s))
  {
    hide Shift1;
    if m > 0 { ShiftAdd(m - 1, n, Shift1(s)); }
  }

  lemma Shift1Even(x: bv32)
    requires !Odd(x)
    ensures Shift1(x) == Half(x)
  {
  }

  lemma Shift2High(x: bv32)
    requires x & 3 == 0
    ensures Shift(2, x) == x >> 2
  {
    Shift1Even(x);
    Shift1Even(x >> 1);
    assert Shift(2, x) == Shift(1, Shift1(x)) == Shift(0, Shift1(Shift1(x)));
    assert Half(Half(x)) == x >> 2;
  }

  lemma Shift4High(x: bv32)
    requires x & 15 == 0
    ensures Shift(4, x) == x >> 4
  {
    hide Shift;
    Shift2High(x);
    Shift2High(x >> 2);
    ShiftAdd(2, 2, x);
    assert (x >> 2) >> 2 == x >> 4;
  }

  /** When the low byte is clear, eight steps only move the other bytes down. */
  lemma ShiftHigh(x: bv32)
    requires Low(x) == 0
    ensures Shift(8, x) == High(x)
  {
    hide Shift;
    Shift4High(x);
    Shift4High(x >> 4);
    ShiftAdd(4, 4, x);
    assert (x >> 4) >> 4 == x >> 8;
  }

  lemma Split(c: bv32)
    ensures c == Xor(Low(c), c & 0xffff_ff00)
    ensures Low(c & 0xffff_ff00) == 0 && High(c & 0xffff_ff00) == High(c)
  {
  }

  /** Splits the lowest byte off a word that is about to be shifted out. */
  lemma ShiftSplit(n: nat, c: bv32)
    ensures Shift(n + 8, c) == Xor(Shift(n + 8, Low(c)), Shift(n, High(c)))
  {
    hide Shift, Xor, Low, High;
    var hi := c & 0xffff_ff00;
    Split(c);
    ShiftLinear(n + 8, Low(c), hi);
    ShiftHigh(hi);
    ShiftAdd(8, n, hi);
  }

  // ---------- the register after whole bytes ----------

  function Feed(s: bv32, data: Bytes): bv32
    decreases |data|
  {
    if data == [] then s else Feed(Shift(8, Xor(s, data[0] as bv32)), data[1..])
  }

  function Shr(n: nat, w: bv32): bv32 {
    if n == 0 then w else Shr(n - 1, Half(w))
  }

  lemma SplitBit(w: bv32)
    ensures var hi := w & 0xffff_fffe;
            !Odd(hi) && Half(hi) == Half(w) && w == if Odd(w) then Xor(1, hi) else hi
  {
  }

  lemma LowBitOut(s: bv32, w: bv32)
    ensures Shift1(Xor(s, w)) == Xor(DivideBit(s, Odd(w)), Half(w))
  {
    hide Shift1, Xor, Half, Odd;
    var hi := w & 0xffff_fffe;
    SplitBit(w);
    XorLaws(s, 1, hi);
    Shift1Linear(if Odd(w) then Xor(s, 1) else s, hi);
    Shift1Even(hi);
  }

  lemma {:induction false} DivideLowBits(n: nat, s: bv32, w: bv32)
    ensures Xor(Divide(s, LowBits(n, w)), Shr(n, w)) == Shift(n, Xor(s, w))
    decreases n
  {
    hide Shift1, Xor, DivideBit, Half, Odd;
    if n > 0 {
      LowBitOut(s, w);
      DivideLowBits(n - 1, DivideBit(s, Odd(w)), Half(w));
      assert LowBits(n, w)[1..] == LowBits(n - 1, Half(w));
    }
  }

  lemma {:induction false} DivideConcat(s: bv32, x: seq<bool>, y: seq<bool>)
    ensures Divide(s, x + y) == Divide(Divide(s, x), y)
    decreases |x|
  {
    hide DivideBit;
    if x == [] {
      assert x + y == y;
    } else {
      assert (x + y)[1..] == x[1..] + y;
      DivideConcat(DivideBit(s, x[0]), x[1..], y);
    }
  }

  lemma {:induction false} ShrAdd(m: nat, n: nat, w: bv32)
    ensures Shr(m + n, w) == Shr(n, Shr(m, w))
  {
    if m > 0 { ShrAdd(m - 1, n, Half(w)); }
  }

  lemma Shr2(w: bv32)
    ensures Shr(2, w) == w >> 2
  {
    assert Shr(2, w) == Shr(1, Half(w)) == Shr(0, Half(Half(w)));
  }

  lemma ShrByte(b: bv8)
    ensures Shr(8, b as bv32) == 0
  {
    var w := b as bv32;
    Shr2(w); Shr2(w >> 2); Shr2(w >> 4); Shr2(w >> 6);
    assert (w >> 2) >> 2 == w >> 4 && (w >> 4) >> 2 == w >> 6 && (w >> 6) >> 2 == 0;
    ShrAdd(2, 6, w); ShrAdd(2, 4, w >> 2); ShrAdd(2, 2, w >> 4);
  }

  /** Eight divisions by one bit are one step of the byte register. */
  lemma {:induction false} FeedDivides(s: bv32, data: Bytes)
    ensures Divide(s, Bits(data)) == Feed(s, data)
    decreases |data|
  {
    hide Shift1, Xor, DivideBit, Shift, Shr, LowBits;
    if data != [] {
      var w := data[0] as bv32;
      DivideConcat(s, LowBits(8, w), Bits(data[1..]));
      DivideLowBits(8, s, w);
      ShrByte(data[0]);
      XorLaws(Divide(s, LowBits(8, w)), 0, 0);
      FeedDivides(Shift(8, Xor(s, w)), data[1..]);
    }
  }

  lemma {:induction false} FeedConcat(s: bv32, x: Bytes, y: Bytes)
    ensures Feed(s, x + y) == Feed(Feed(s, x), y)
    decreases |x|
  {
    hide Shift, Xor;
    if x == [] {
      assert x + y == y;
    } else {
      assert (x + y)[1..] == x[1..] + y;
      FeedConcat(Shift(8, Xor(s, x[0] as bv32)), x[1..], y);
    }
  }

  /** Extending by `x` and then by `y` is extending by their concatenation. */
  lemma CrcConcat(init: bv32, x: Bytes, y: Bytes)
    ensures Crc(Crc(init, x), y) == Crc(init, x + y)
  {
    hide Xor, Feed, Divide, Bits;
    var s := Xor(init, ONES);
    FeedDivides(s, x);
    FeedDivides(Feed(s, x), y);
    FeedDivides(s, x + y);
    FeedConcat(s, x, y);
    XorLaws(Feed(s, x), ONES, ONES);
  }

  // ---------- the lookup tables ----------

  /** Entry `i` of table `k`. Table 0 holds the effect of one zero byte on the register, and
      each further table feeds one more zero byte to the entry of the table before it. */
  function Table(k: nat, i: bv32): bv32
    decreases k
  {
    if k == 0 then Shift(8, i)
    else Xor(Table(0, Low(Table(k - 1, i))), High(Table(k - 1, i)))
  }

  lemma {:induction false} TableIsShift(k: nat, i: bv32)
    ensures Table(k, i) == Shift(8 * k + 8, i)
  {
    hide Shift, Xor, Low, High;
    if k > 0 {
      TableIsShift(k - 1, i);
      OneByte(Table(k - 1, i));
      ShiftAdd(8 * k, 8, i);
    }
  }

  /** One lookup in table 0 advances the register by a byte. */
  lemma OneByte(s: bv32)
    ensures Xor(Table(0, Low(s)), High(s)) == Shift(8, s)
  {
    hide Shift1, Xor, Low, High;
    ShiftSplit(0, s);
  }

  /** The four lookups of STEP4 advance the register by four bytes. */
  lemma FourBytes(c: bv32)
    ensures Xor(Xor(Xor(Table(3, Low(c)), Table(2, Low(High(c)))), Table(1, Low(High(High(c))))),
                Table(0, High(High(High(c)))))
         == Shift(32, c)
  {
    hide Xor, Table, Shift, Low, High;
    var c1 := High(c);
    var c2 := High(c1);
    ShiftSplit(24, c);
    ShiftSplit(16, c1);
    ShiftSplit(8, c2);
    TableIsShift(3, Low(c));
    TableIsShift(2, Low(c1));
    TableIsShift(1, Low(c2));
    TableIsShift(0, High(c2));
    var t3, t2, t1, t0 := Shift(32, Low(c)), Shift(24, Low(c1)), Shift(16, Low(c2)), Shift(8, High(c2));
    XorLaws(t3, t2, Xor(t1, t0));
    XorLaws(Xor(t3, t2), t1, t0);
  }

  lemma UpHigh(r: bv32)
    requires r & 0xff00_0000 == 0
    ensures Low(Up(r)) == 0 && High(Up(r)) == r
  {
  }

  /** Feeding a byte and then a word whose top byte is clear is shifting out one longer word. */
  lemma FeedThenShift(n: nat, s: bv32, b: bv32, r: bv32)
    requires r & 0xff00_0000 == 0
    ensures Shift(n, Xor(Shift(8, Xor(s, b)), r)) == Shift(n + 8, Xor(s, Xor(b, Up(r))))
  {
    hide Xor, Shift, Up, High, Low;
    var x := Xor(s, b);
    UpHigh(r);
    ShiftHigh(Up(r));
    ShiftLinear(8, x, Up(r));
    ShiftAdd(8, n, Xor(x, Up(r)));
    XorLaws(s, b, Up(r));
  }

  lemma WordXor(a: bv8, b: bv8, c: bv8, d: bv8)
    ensures var r2 := Xor(c as bv32, Up(d as bv32));
            var r1 := Xor(b as bv32, Up(r2));
            r2 & 0xff00_0000 == 0 && r1 & 0xff00_0000 == 0
            && (d as bv32) & 0xff00_0000 == 0 && Word(a, b, c, d) == Xor(a as bv32, Up(r1))
  {
  }

  lemma FeedOne(s: bv32, b: bv8, rest: Bytes)
    ensures Feed(s, [b] + rest) == Feed(Shift(8, Xor(s, b as bv32)), rest)
  {
    hide Xor, Shift;
    assert ([b] + rest)[1..] == rest;
  }

  /** The little-endian word read from four bytes acts as those bytes fed one by one. */
  lemma FeedWord(s: bv32, a: bv8, b: bv8, c: bv8, d: bv8)
    ensures Feed(s, [a, b, c, d]) == Shift(32, Xor(s, Word(a, b, c, d)))
  {
    hide Xor, Shift, Word, Up;
    var s1 := Shift(8, Xor(s, a as bv32));
    var s2 := Shift(8, Xor(s1, b as bv32));
    var s3 := Shift(8, Xor(s2, c as bv32));
    assert Feed(s, [a, b, c, d]) == Shift(8, Xor(s3, d as bv32)) by {
      assert [a, b, c, d] == [a] + ([b] + ([c] + ([d] + [])));
      FeedOne(s, a, [b] + ([c] + ([d] + [])));
      FeedOne(s1, b, [c] + ([d] + []));
      FeedOne(s2, c, [d] + []);
      FeedOne(s3, d, []);
    }
    var r2 := Xor(c as bv32, Up(d as bv32));
    WordXor(a, b, c, d);
    FeedThenShift(8, s2, c as bv32, d as bv32);
    FeedThenShift(16, s1, b as bv32, r2);
    FeedThenShift(24, s, a as bv32, Xor(b as bv32, Up(r2)));
  }

  // ---------- the program's loop ----------

  function Step1(l: bv32, b: bv8): bv32 {
    var c := Xor(l & 0xff, b as bv32);
    Xor(Table(0, c), l >> 8)
  }

  function Step4(l: bv32, word: bv32): bv32 {
    var c := Xor(l, word);
    Xor(Xor(Xor(Table(3, c & 0xff), Table(2, (c >> 8) & 0xff)), Table(1, (c >> 16) & 0xff)), Table(0, c >> 24))
  }

  lemma ByteIntoLow(l: bv32, b: bv8)
    ensures Low(Xor(l, b as bv32)) == Xor(l & 0xff, b as bv32) && High(Xor(l, b as bv32)) == l >> 8
  {
  }

  lemma Step1Feeds(l: bv32, b: bv8)
    ensures Step1(l, b) == Feed(l, [b])
  {
    hide Shift, Table, Xor, Low, High;
    OneByte(Xor(l, b as bv32));
    ByteIntoLow(l, b);
    FeedOne(l, b, []);
  }

  lemma BytesOfWord(c: bv32)
    ensures Low(c) == c & 0xff && Low(High(c)) == (c >> 8) & 0xff
    ensures Low(High(High(c))) == (c >> 16) & 0xff && High(High(High(c))) == c >> 24
  {
  }

  lemma Step4Shifts(l: bv32, word: bv32)
    ensures Step4(l, word) == Shift(32, Xor(l, word))
  {
    hide Shift, Table, Xor, Low, High;
    var c := Xor(l, word);
    FourBytes(c);
    BytesOfWord(c);
  }

  lemma Step4Feeds(l: bv32, data: Bytes)
    requires |data| == 4
    ensures Step4(l, DecodeFixed32(data)) == Feed(l, data)
  {
    hide Shift, Table, Feed, Word, Xor, Low, High, Step4;
    Step4Shifts(l, DecodeFixed32(data));
    FeedWord(l, data[0], data[1], data[2], data[3]);
    assert data == [data[0], data[1], data[2], data[3]];
  }

  lemma Advance(init: bv32, data: Bytes, p: nat, n: nat)
    requires p + n <= |data|
    ensures Feed(init, data[..p + n]) == Feed(Feed(init, data[..p]), data[p..p + n])
  {
    assert data[..p + n] == data[..p] + data[p..p + n];
    FeedConcat(init, data[..p], data[p..p + n]);
  }

  method NextByte(l: bv32, data: Bytes, p: nat, ghost init: bv32) returns (r: bv32)
    requires p < |data| && l == Feed(init, data[..p])
    ensures r == Feed(init, data[..p + 1])
  {
    hide Feed, Step1;
    r := Step1(l, data[p]);
    Step1Feeds(l, data[p]);
    Advance(init, data, p, 1);
    assert data[p..p + 1] == [data[p]];
  }

  method NextWord(l: bv32, data: Bytes, p: nat, ghost init: bv32) returns (r: bv32)
    requires p + 4 <= |data| && l == Feed(init, data[..p])
    ensures r == Feed(init, data[..p + 4])
  {
    hide Feed, Step4;
    r := Step4(l, DecodeFixed32(data[p..p + 4]));
    Step4Feeds(l, data[p..p + 4]);
    Advance(init, data, p, 4);
  }

  /** `addr` is the address of the first byte, which decides how many bytes the alignment
      prologue consumes. */
  method Extend(crc: bv32, data: Bytes, addr: nat) returns (r: bv32)
    ensures r == Crc(crc, data)
  {
    hide Xor, Divide, Bits;
    ghost var init := Xor(crc, ONES);
    var p, e := 0, |data|;
    var l := Xor(crc, ONES);
    // the first 4-byte aligned position, which may lie past the end
    var x := ((addr + 3) / 4) * 4 - addr;
    if x <= e {
      while p != x
        invariant 0 <= p <= x
        invariant l == Feed(init, data[..p])
      {
        l := NextByte(l, data, p, init);
        p := p + 1;
      }
    }
    while e - p >= 16
      invariant 0 <= p <= e
      invariant l == Feed(init, data[..p])
    {
      l := NextWord(l, data, p, init);
      l := NextWord(l, data, p + 4, init);
      l := NextWord(l, data, p + 8, init);
      l := NextWord(l, data, p + 12, init);
      p := p + 16;
    }
    while e - p >= 4
      invariant 0 <= p <= e
      invariant l == Feed(init, data[..p])
    {
      l := NextWord(l, data, p, init);
      p := p + 4;
    }
    while p != e
      invariant 0 <= p <= e
      invariant l == Feed(init, data[..p])
    {
      l := NextByte(l, data, p, init);
      p := p + 1;
    }
    FeedDivides(init, data);
    assert data[..e] == data;
    r := Xor(l, ONES);
  }

  // ---------- burst detection ----------

  lemma Shift1Injective(a: bv32, b: bv32)
    requires Shift1(a) == Shift1(b)
    ensures a == b
  {
  }

  lemma {:induction false} ShiftInjective(n: nat, a: bv32, b: bv32)
    requires Shift(n, a) == Shift(n, b)
    ensures a == b
  {
    hide Shift1;
    if n > 0 {
      ShiftInjective(n - 1, Shift1(a), Shift1(b));
      Shift1Injective(a, b);
    }
  }

  /** Equal input never brings two different registers together. */
  lemma {:induction false} FeedInjective(a: bv32, b: bv32, data: Bytes)
    requires Feed(a, data) == Feed(b, data)
    ensures a == b
    decreases |data|
  {
    hide Shift, Xor;
    if data != [] {
      var w := data[0] as bv32;
      FeedInjective(Shift(8, Xor(a, w)), Shift(8, Xor(b, w)), data[1..]);
      ShiftInjective(8, Xor(a, w), Xor(b, w));
      XorInjective(w, a, b);
    }
  }

  /** Different strings of at most four bytes never bring one register to the same value. */
  lemma WindowInjective(s: bv32, u: Bytes, v: Bytes)
    requires |u| == |v| <= 4
    requires Feed(s, u) == Feed(s, v)
    ensures u == v
  {
    hide Feed, Xor, Shift, Word;
    var pad := seq(4 - |u|, _ => 0 as bv8);
    var x, y := u + pad, v + pad;
    FeedConcat(s, u, pad);
    FeedConcat(s, v, pad);
    assert x == [x[0], x[1], x[2], x[3]] && y == [y[0], y[1], y[2], y[3]];
    FeedWord(s, x[0], x[1], x[2], x[3]);
    FeedWord(s, y[0], y[1], y[2], y[3]);
    ShiftInjective(32, Xor(s, DecodeFixed32(x)), Xor(s, DecodeFixed32(y)));
    XorInjective(s, DecodeFixed32(x), DecodeFixed32(y));
    DecodeInjective32(x, y);
    assert u == x[..4][..|u|] && v == y[..4][..|u|];
  }

  /** `x` and `y` have one length and agree outside the four bytes that start at `k`. */
  ghost predicate DifferInWindow(x: Bytes, y: Bytes, k: nat) {
    |x| == |y| && forall i :: 0 <= i < |x| && !(k <= i < k + 4) ==> x[i] == y[i]
  }

  /** A change confined to four consecutive bytes always changes the CRC. */
  lemma BurstDetected(init: bv32, x: Bytes, y: Bytes, k: nat)
    requires DifferInWindow(x, y, k)
    requires x != y
    ensures Crc(init, x) != Crc(init, y)
  {
    hide Feed, Divide, Bits, Xor;
    var lo := if k <= |x| then k else |x|;
    var hi := if k + 4 <= |x| then k + 4 else |x|;
    var p, u, v, q := x[..lo], x[lo..hi], y[lo..hi], x[hi..];
    assert x == (p + u) + q;
    assert y[..lo] == p && y[hi..] == q;
    assert y == (p + v) + q;
    var s := Xor(init, ONES);
    if Crc(init, x) == Crc(init, y) {
      FeedDivides(s, x);
      FeedDivides(s, y);
      XorInjective(ONES, Feed(s, x), Feed(s, y));
      FeedConcat(s, p + u, q);
      FeedConcat(s, p + v, q);
      FeedInjective(Feed(s, p + u), Feed(s, p + v), q);
      FeedConcat(s, p, u);
      FeedConcat(s, p, v);
      WindowInjective(Feed(s, p), u, v);
    }
  }

  // ---------- the stored form ----------

  const MASK_DELTA: bv32 := 0xa282_ead8

  function Mask(crc: bv32): bv32 {
    ((crc >> 15) | (crc << 17)) + MASK_DELTA
  }

  function Unmask(masked: bv32): bv32 {
    var rot := masked - MASK_DELTA;
    (rot >> 17) | (rot << 15)
  }

  lemma MaskUnmask(c: bv32)
    ensures Unmask(Mask(c)) == c
    ensures Mask(Unmask(c)) == c
  {
  }
}
