/** Fixed-width little-endian encoding of unsigned words, as ibdb/src/base/coding.h does it. */
module Coding {
  type Bytes = seq<bv8>

  const TWO32: nat := 0x1_0000_0000
  const TWO64: nat := 0x1_0000_0000_0000_0000

  // ---------- bytes and their values ----------

  function Pack(b0: bool, b1: bool, b2: bool, b3: bool, b4: bool, b5: bool, b6: bool, b7: bool): bv8 {
    (if b0 then 1 else 0) | (if b1 then 2 else 0) | (if b2 then 4 else 0) | (if b3 then 8 else 0)
    | (if b4 then 16 else 0) | (if b5 then 32 else 0) | (if b6 then 64 else 0) | (if b7 then 128 else 0)
  }

  function HalfNat(n: nat): nat { n / 2 }
  predicate OddNat(n: nat) { n % 2 == 1 }

  function ToByte(n: nat): bv8
    requires n < 256
  {
    var h1 := HalfNat(n);
    var h2 := HalfNat(h1);
    var h3 := HalfNat(h2);
    var h4 := HalfNat(h3);
    var h5 := HalfNat(h4);
    var h6 := HalfNat(h5);
    Pack(OddNat(n), OddNat(h1), OddNat(h2), OddNat(h3), OddNat(h4), OddNat(h5), OddNat(h6), OddNat(HalfNat(h6)))
  }

  function Value(b: bv8): (n: nat)
    ensures n < 256
  {
    (if b & 1 != 0 then 1 else 0) + (if b & 2 != 0 then 2 else 0)
    + (if b & 4 != 0 then 4 else 0) + (if b & 8 != 0 then 8 else 0)
    + (if b & 16 != 0 then 16 else 0) + (if b & 32 != 0 then 32 else 0)
    + (if b & 64 != 0 then 64 else 0) + (if b & 128 != 0 then 128 else 0)
  }

  function One(bit: bool): nat { if bit then 1 else 0 }

  lemma PackBits(b0: bool, b1: bool, b2: bool, b3: bool, b4: bool, b5: bool, b6: bool, b7: bool)
    ensures var b := Pack(b0, b1, b2, b3, b4, b5, b6, b7);
            (b & 1 != 0) == b0 && (b & 2 != 0) == b1 && (b & 4 != 0) == b2 && (b & 8 != 0) == b3
            && (b & 16 != 0) == b4 && (b & 32 != 0) == b5 && (b & 64 != 0) == b6 && (b & 128 != 0) == b7
  {
  }

  lemma ValueOfPack(b0: bool, b1: bool, b2: bool, b3: bool, b4: bool, b5: bool, b6: bool, b7: bool)
    ensures Value(Pack(b0, b1, b2, b3, b4, b5, b6, b7))
         == One(b0) + 2 * One(b1) + 4 * One(b2) + 8 * One(b3)
             + 16 * One(b4) + 32 * One(b5) + 64 * One(b6) + 128 * One(b7)
  {
    PackBits(b0, b1, b2, b3, b4, b5, b6, b7);
    hide Pack;
  }

  lemma Halve(n: nat) returns (h: nat)
    ensures h == HalfNat(n) && n == 2 * h + One(OddNat(n))
  {
    h := HalfNat(n);
  }

  lemma HalveFourTimes(n: nat) returns (h1: nat, h2: nat, h3: nat, h4: nat)
    ensures h1 == HalfNat(n) && h2 == HalfNat(h1) && h3 == HalfNat(h2) && h4 == HalfNat(h3)
    ensures n == 16 * h4 + One(OddNat(n)) + 2 * One(OddNat(h1)) + 4 * One(OddNat(h2)) + 8 * One(OddNat(h3))
  {
    hide One, HalfNat, OddNat;
    h1 := Halve(n);
    h2 := Halve(h1);
    h3 := Halve(h2);
    h4 := Halve(h3);
  }

  lemma ByteRoundTrip(n: nat)
    requires n < 256
    ensures Value(ToByte(n)) == n
  {
    hide Pack, Value, One, HalfNat, OddNat;
    var h1, h2, h3, h4 := HalveFourTimes(n);
    var h5, h6, h7, h8 := HalveFourTimes(h4);
    ValueOfPack(OddNat(n), OddNat(h1), OddNat(h2), OddNat(h3), OddNat(h4), OddNat(h5), OddNat(h6), OddNat(h7));
  }

  // ---------- words ----------

  function Fixed32(v: bv32): (b: Bytes)
    ensures |b| == 4
  {
    [(v & 0xff) as bv8, ((v >> 8) & 0xff) as bv8, ((v >> 16) & 0xff) as bv8, (v >> 24) as bv8]
  }

  /** The 32-bit word whose bytes, least significant first, are a, b, c and d. */
  function Word(a: bv8, b: bv8, c: bv8, d: bv8): bv32 {
    (a as bv32) | ((b as bv32) << 8) | ((c as bv32) << 16) | ((d as bv32) << 24)
  }

  function DecodeFixed32(b: Bytes): bv32
    requires |b| >= 4
  {
    Word(b[0], b[1], b[2], b[3])
  }

  function Fixed64(v: bv64): (b: Bytes)
    ensures |b| == 8
  {
    Fixed32((v & 0xffff_ffff) as bv32) + Fixed32((v >> 32) as bv32)
  }

  function DecodeFixed64(b: Bytes): bv64
    requires |b| >= 8
  {
    (DecodeFixed32(b) as bv64) | ((DecodeFixed32(b[4..]) as bv64) << 32)
  }

  /** The value of `x` once it is stored in an unsigned 64-bit variable. */
  function U64(x: int): nat { x % TWO64 }

  lemma U64Fits(x: int)
    requires 0 <= x < TWO64
    ensures U64(x) == x
  {
  }

  /** The value of `x` once it is stored in an unsigned 32-bit variable. */
  function U32(x: int): nat { x % TWO32 }

  lemma U32Fits(x: int)
    requires 0 <= x < TWO32
    ensures U32(x) == x
  {
  }

  /** Copies the bytes of `v` into the front of a buffer and leaves the rest of it alone. */
  method EncodeFixed32(buf: array<bv8>, v: bv32)
    requires buf.Length >= 4
    modifies buf
    ensures buf[..4] == Fixed32(v)
    ensures buf[4..] == old(buf[4..])
  {
    var bytes := Fixed32(v);
    forall i | 0 <= i < 4 { buf[i] := bytes[i]; }
  }

  method EncodeFixed64(buf: array<bv8>, v: bv64)
    requires buf.Length >= 8
    modifies buf
    ensures buf[..8] == Fixed64(v)
    ensures buf[8..] == old(buf[8..])
  {
    var bytes := Fixed64(v);
    forall i | 0 <= i < 8 { buf[i] := bytes[i]; }
  }

  lemma WordRoundTrip(v: bv32)
    ensures Word((v & 0xff) as bv8, ((v >> 8) & 0xff) as bv8, ((v >> 16) & 0xff) as bv8, (v >> 24) as bv8) == v
  {
  }

  /** The lowest byte comes first. */
  lemma LowestFirst()
    ensures Fixed32(0x0403_0201) == [1, 2, 3, 4]
    ensures Fixed64(0x0807_0605_0403_0201) == [1, 2, 3, 4, 5, 6, 7, 8]
  {
  }

  lemma RoundTrip32(v: bv32, rest: Bytes)
    ensures DecodeFixed32(Fixed32(v) + rest) == v
  {
    WordRoundTrip(v);
  }

  lemma WordBytes(a: bv8, b: bv8, c: bv8, d: bv8)
    ensures Fixed32(Word(a, b, c, d)) == [a, b, c, d]
  {
  }

  /** Decoding loses nothing: two different 4-byte strings decode to different words. */
  lemma DecodeInjective32(x: Bytes, y: Bytes)
    requires |x| >= 4 && |y| >= 4
    requires DecodeFixed32(x) == DecodeFixed32(y)
    ensures x[..4] == y[..4]
  {
    WordBytes(x[0], x[1], x[2], x[3]);
    WordBytes(y[0], y[1], y[2], y[3]);
  }

  lemma Halves(v: bv64)
    ensures (((v & 0xffff_ffff) as bv32) as bv64) | ((((v >> 32) as bv32) as bv64) << 32) == v
  {
  }

  lemma RoundTrip64(v: bv64, rest: Bytes)
    ensures DecodeFixed64(Fixed64(v) + rest) == v
  {
    var lo, hi := (v & 0xffff_ffff) as bv32, (v >> 32) as bv32;
    var b := Fixed64(v) + rest;
    RoundTrip32(lo, Fixed32(hi) + rest);
    RoundTrip32(hi, rest);
    assert b == Fixed32(lo) + (Fixed32(hi) + rest);
    assert b[4..] == Fixed32(hi) + rest;
    Halves(v);
  }

  // ---------- words as numbers ----------

  /** The `k` lowest base-256 digits of `n`, lowest first. */
  function Digits(n: nat, k: nat): (b: Bytes)
    ensures |b| == k
    decreases k
  {
    if k == 0 then [] else [ToByte(n % 256)] + Digits(n / 256, k - 1)
  }

  function Number(b: Bytes): nat
    decreases |b|
  {
    if b == [] then 0 else Value(b[0]) + 256 * Number(b[1..])
  }

  function Power256(k: nat): nat {
    if k == 0 then 1 else 256 * Power256(k - 1)
  }

  lemma {:induction false} DigitsNumber(n: nat, k: nat)
    requires n < Power256(k)
    ensures Number(Digits(n, k)) == n
    decreases k
  {
    hide ToByte, Value;
    if k > 0 {
      ByteRoundTrip(n % 256);
      DigitsNumber(n / 256, k - 1);
      assert Digits(n, k)[1..] == Digits(n / 256, k - 1);
    }
  }

  /** The 32-bit and 64-bit words that `n` is stored as. */
  function Word32(n: nat): bv32 { DecodeFixed32(Digits(n, 4)) }
  function Word64(n: nat): bv64 { DecodeFixed64(Digits(n, 8)) }

  /** The numbers that words stand for. */
  function Number32(v: bv32): nat { Number(Fixed32(v)) }
  function Number64(v: bv64): nat { Number(Fixed64(v)) }

  lemma NumberOfWord32(n: nat)
    requires n < TWO32
    ensures Number32(Word32(n)) == n
  {
    var b := Digits(n, 4);
    WordBytes(b[0], b[1], b[2], b[3]);
    assert b == [b[0], b[1], b[2], b[3]];
    hide Digits, Word, Fixed32;
    Powers();
    DigitsNumber(n, 4);
  }

  lemma NumberOfWord64(n: nat)
    requires n < TWO64
    ensures Number64(Word64(n)) == n
  {
    var b := Digits(n, 8);
    hide Digits, Fixed32, Word;
    FixedOfDecode64(b);
    Powers();
    DigitsNumber(n, 8);
  }

  lemma Powers()
    ensures Power256(4) == TWO32 && Power256(8) == TWO64
  {
    assert Power256(2) == 65536;
    assert Power256(6) == 256 * (256 * Power256(4));
  }

  lemma Rejoined(lo: bv32, hi: bv32)
    ensures var v := (lo as bv64) | ((hi as bv64) << 32);
            (v & 0xffff_ffff) as bv32 == lo && (v >> 32) as bv32 == hi
  {
  }

  lemma FixedOfDecode64(b: Bytes)
    requires |b| == 8
    ensures Fixed64(DecodeFixed64(b)) == b
  {
    Rejoined(DecodeFixed32(b), DecodeFixed32(b[4..]));
    WordBytes(b[0], b[1], b[2], b[3]);
    WordBytes(b[4], b[5], b[6], b[7]);
    assert b == [b[0], b[1], b[2], b[3]] + [b[4], b[5], b[6], b[7]];
  }
}
