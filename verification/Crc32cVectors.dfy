/** Values of the checksum: two strings of section B.4 of RFC 3720, which the tests of
    ibdb/src/base/crc32c.cpp use too, two short ones, and values of the stored form. */
module Crc32cVectors {
  import opened Coding
  import opened Crc32c
  import opened Crc32cTables

  function If(bit: bool, v: bv32): bv32 { if bit then v else 0 }

  /** Eight steps of the register, by the literals of table 0 at the powers of two. */
  function ByteStep(x: bv32): bv32 {
    var a := Xor(Xor(x >> 8, If(x & 1 != 0, 0xf26b_8303)), If(x & 2 != 0, 0xe13b_70f7));
    var b := Xor(Xor(a, If(x & 4 != 0, 0xc79a_971f)), If(x & 8 != 0, 0x8ad9_58cf));
    var c := Xor(Xor(b, If(x & 16 != 0, 0x105e_c76f)), If(x & 32 != 0, 0x20bd_8ede));
    Xor(Xor(c, If(x & 64 != 0, 0x417b_1dbc)), If(x & 128 != 0, 0x82f6_3b78))
  }

  // Named, so that a proof can hide the bits.
  function Masked(x: bv32, mask: bv32): bv32 { x & mask }
  predicate Has(x: bv32, bit: bv32) { x & bit != 0 }

  lemma OneBit(x: bv32, bit: bv32)
    requires bit in {1, 2, 4, 8, 16, 32, 64, 128}
    ensures Masked(x, bit) == If(Has(x, bit), bit)
  {
  }

  lemma MaskedSplit(x: bv32, mask: bv32, bit: bv32)
    requires mask & bit == 0
    ensures Masked(x, mask | bit) == Xor(Masked(x, mask), Masked(x, bit))
  {
  }

  /** One bit more of the low byte. */
  lemma AddBit(x: bv32, mask: bv32, bit: bv32, entry: bv32)
    requires mask & bit == 0 && bit in {1, 2, 4, 8, 16, 32, 64, 128} && Table(0, bit) == entry
    ensures Shift(8, Masked(x, mask | bit)) == Xor(Shift(8, Masked(x, mask)), If(Has(x, bit), entry))
  {
    OneBit(x, bit);
    MaskedSplit(x, mask, bit);
    hide Shift, Xor, Masked, Has;
    var acc := Masked(x, mask);
    if Has(x, bit) {
      ShiftLinear(8, acc, bit);
    } else {
      XorLaws(acc, 0, 0);
      XorLaws(Shift(8, acc), 0, 0);
    }
  }

  lemma HighPart(x: bv32)
    ensures Shift(8, x & 0xffff_ff00) == x >> 8
  {
    Split(x);
    ShiftHigh(x & 0xffff_ff00);
    hide Shift;
  }

  lemma Ends(x: bv32)
    ensures Shift(8, Masked(x, 0xffff_ff00)) == x >> 8 && Masked(x, 0xffff_ffff) == x
  {
    hide Shift;
    HighPart(x);
  }

  lemma ShiftIsByteStep(x: bv32)
    ensures Shift(8, x) == ByteStep(x)
  {
    hide Shift, Table, Xor, If, Masked;
    Literals0();
    Ends(x);
    AddBit(x, 0xffff_ff00, 1, 0xf26b_8303);
    AddBit(x, 0xffff_ff01, 2, 0xe13b_70f7);
    AddBit(x, 0xffff_ff03, 4, 0xc79a_971f);
    AddBit(x, 0xffff_ff07, 8, 0x8ad9_58cf);
    AddBit(x, 0xffff_ff0f, 16, 0x105e_c76f);
    AddBit(x, 0xffff_ff1f, 32, 0x20bd_8ede);
    AddBit(x, 0xffff_ff3f, 64, 0x417b_1dbc);
    AddBit(x, 0xffff_ff7f, 128, 0x82f6_3b78);
  }

  /** Four bytes more. */
  function WordStep(x: bv32): bv32 { ByteStep(ByteStep(ByteStep(ByteStep(x)))) }

  lemma ShiftIsWordStep(x: bv32)
    ensures Shift(32, x) == WordStep(x)
  {
    hide Shift, ByteStep;
    var a := Shift(8, x);
    var b := Shift(8, a);
    var c := Shift(8, b);
    ShiftIsByteStep(x);
    ShiftIsByteStep(a);
    ShiftIsByteStep(b);
    ShiftIsByteStep(c);
    ShiftAdd(8, 24, x);
    ShiftAdd(8, 16, a);
    ShiftAdd(8, 8, b);
  }

  /** The words that a string of 32 bytes consists of. */
  ghost predicate Holds(data: Bytes, words: seq<bv32>) {
    && |data| == 32 && |words| == 8
    && forall k :: 0 <= k < 8 ==>
         Word(data[4 * k], data[4 * k + 1], data[4 * k + 2], data[4 * k + 3]) == words[k]
  }

  /** The register after four more bytes of a string, on numbers. */
  lemma Four(data: Bytes, words: seq<bv32>, k: nat, s: bv32, mixed: bv32, r: bv32)
    requires Holds(data, words) && k < 8 && Feed(ONES, data[..4 * k]) == s
    requires s ^ words[k] == mixed && WordStep(mixed) == r
    ensures Feed(ONES, data[..4 * k + 4]) == r
  {
    hide Feed, Word, Shift, ONES, WordStep;
    var p := 4 * k;
    Advance(ONES, data, p, 4);
    FeedWord(s, data[p], data[p + 1], data[p + 2], data[p + 3]);
    ShiftIsWordStep(mixed);
    assert data[p..p + 4] == [data[p], data[p + 1], data[p + 2], data[p + 3]];
  }

  lemma Start(data: Bytes)
    ensures Feed(ONES, data[..0]) == 0xffff_ffff
  {
  }

  lemma FromRegister(data: Bytes, r: bv32)
    requires Feed(ONES, data) == r
    ensures Crc(0, data) == r ^ 0xffff_ffff
  {
    FeedDivides(ONES, data);
    hide Feed, Divide, Bits;
  }

  lemma Whole(data: Bytes)
    requires |data| == 32
    ensures data[..32] == data
  {
  }

  lemma StepsAllClear()
    ensures WordStep(0xffff_ffff) == 0xb798_b438 && WordStep(0xb798_b438) == 0x73d7_4d75
    ensures WordStep(0x73d7_4d75) == 0xd49f_4aa2 && WordStep(0xd49f_4aa2) == 0xbd8f_6515
    ensures WordStep(0xbd8f_6515) == 0x433a_a9c1 && WordStep(0x433a_a9c1) == 0x7b04_1311
    ensures WordStep(0x7b04_1311) == 0x0836_3896 && WordStep(0x0836_3896) == 0x756e_c955
  {
  }

  const CLEAR: Bytes := seq(32, _ => 0)
  const CLEAR_WORDS: seq<bv32> := seq(8, _ => 0)

  lemma WordsAllClear()
    ensures Holds(CLEAR, CLEAR_WORDS)
  {
  }

  /** The CRC of 32 bytes that are 0. */
  lemma OfAllClear()
    ensures Crc(0, CLEAR) == 0x8a91_36aa
  {
    WordsAllClear();
    Start(CLEAR);
    StepsAllClear();
    hide Feed, ONES, Holds, CLEAR, Crc, WordStep;
    Four(CLEAR, CLEAR_WORDS, 0, 0xffff_ffff, 0xffff_ffff, 0xb798_b438);
    Four(CLEAR, CLEAR_WORDS, 1, 0xb798_b438, 0xb798_b438, 0x73d7_4d75);
    Four(CLEAR, CLEAR_WORDS, 2, 0x73d7_4d75, 0x73d7_4d75, 0xd49f_4aa2);
    Four(CLEAR, CLEAR_WORDS, 3, 0xd49f_4aa2, 0xd49f_4aa2, 0xbd8f_6515);
    Four(CLEAR, CLEAR_WORDS, 4, 0xbd8f_6515, 0xbd8f_6515, 0x433a_a9c1);
    Four(CLEAR, CLEAR_WORDS, 5, 0x433a_a9c1, 0x433a_a9c1, 0x7b04_1311);
    Four(CLEAR, CLEAR_WORDS, 6, 0x7b04_1311, 0x7b04_1311, 0x0836_3896);
    Four(CLEAR, CLEAR_WORDS, 7, 0x0836_3896, 0x0836_3896, 0x756e_c955);
    Whole(CLEAR);
    FromRegister(CLEAR, 0x756e_c955);
  }

  lemma StepsAllSet()
    ensures WordStep(0x0000_0000) == 0x0000_0000 && WordStep(0xffff_ffff) == 0xb798_b438
    ensures WordStep(0x4867_4bc7) == 0xc44f_f94d && WordStep(0x3bb0_06b2) == 0x10d0_b3ef
    ensures WordStep(0xef2f_4c10) == 0xad5f_d6fa && WordStep(0x52a0_2905) == 0xee65_7f3b
    ensures WordStep(0x119a_80c4) == 0x9561_6c2a && WordStep(0x6a9e_93d5) == 0x9d57_54bc
  {
  }

  const SET: Bytes := seq(32, _ => 0xff)
  const SET_WORDS: seq<bv32> := seq(8, _ => 0xffff_ffff)

  lemma WordsAllSet()
    ensures Holds(SET, SET_WORDS)
  {
  }

  /** The CRC of 32 bytes that are 0xff. */
  lemma OfAllSet()
    ensures Crc(0, SET) == 0x62a8_ab43
  {
    WordsAllSet();
    Start(SET);
    StepsAllSet();
    hide Feed, ONES, Holds, SET, Crc, WordStep;
    Four(SET, SET_WORDS, 0, 0xffff_ffff, 0x0000_0000, 0x0000_0000);
    Four(SET, SET_WORDS, 1, 0x0000_0000, 0xffff_ffff, 0xb798_b438);
    Four(SET, SET_WORDS, 2, 0xb798_b438, 0x4867_4bc7, 0xc44f_f94d);
    Four(SET, SET_WORDS, 3, 0xc44f_f94d, 0x3bb0_06b2, 0x10d0_b3ef);
    Four(SET, SET_WORDS, 4, 0x10d0_b3ef, 0xef2f_4c10, 0xad5f_d6fa);
    Four(SET, SET_WORDS, 5, 0xad5f_d6fa, 0x52a0_2905, 0xee65_7f3b);
    Four(SET, SET_WORDS, 6, 0xee65_7f3b, 0x119a_80c4, 0x9561_6c2a);
    Four(SET, SET_WORDS, 7, 0x9561_6c2a, 0x6a9e_93d5, 0x9d57_54bc);
    Whole(SET);
    FromRegister(SET, 0x9d57_54bc);
  }

  /** The register after one byte, on numbers. */
  lemma FeedByte(s: bv32, a: bv8, mixed: bv32, r: bv32)
    requires s ^ (a as bv32) == mixed && ByteStep(mixed) == r
    ensures Feed(s, [a]) == r
  {
    assert Xor(s, a as bv32) == mixed;
    hide Shift, ByteStep, Xor;
    ShiftIsByteStep(mixed);
    FeedOne(s, a, []);
    assert [a] + [] == [a];
  }

  lemma StepsShort()
    ensures ByteStep(0xffff_fffd) == 0x4cb9_dc59
    ensures ByteStep(0xffff_fffb) == 0x6a18_3bb1 && ByteStep(0x6a18_3bb6) == 0x94de_8d1a
  {
  }

  /** The CRCs of a type byte alone and of a type byte with one byte of payload. */
  lemma OfShort()
    ensures Crc(0, [2]) == 0xb346_23a6
    ensures Crc(0, [4, 7]) == 0x6b21_72e5
  {
    StepsShort();
    hide ByteStep, Crc, Feed;
    FeedByte(ONES, 2, 0xffff_fffd, 0x4cb9_dc59);
    FromRegister([2], 0x4cb9_dc59);
    FeedByte(ONES, 4, 0xffff_fffb, 0x6a18_3bb1);
    FeedByte(0x6a18_3bb1, 7, 0x6a18_3bb6, 0x94de_8d1a);
    FeedConcat(ONES, [4], [7]);
    FromRegister([4] + [7], 0x94de_8d1a);
    assert [4 as bv8] + [7] == [4, 7];
  }

  /** The stored form: rotated right by 15 bits, and then the constant is added. */
  lemma Masks()
    ensures Mask(0) == 0xa282_ead8
    ensures Mask(0x8000) == 0xa282_ead9
    ensures Mask(0x1234_5678) == 0x4f73_0f40
  {
  }
}
