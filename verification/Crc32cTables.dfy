/** The literal tables of ibdb/src/base/crc32c.cpp. Each table is linear, so its eight entries
    at the powers of two determine it; these are the literals at those places. */
module Crc32cTables {
  import opened Crc32c

  lemma TableLinear(k: nat, a: bv32, b: bv32)
    ensures Table(k, Xor(a, b)) == Xor(Table(k, a), Table(k, b))
  {
    hide Table, Shift, Xor;
    TableIsShift(k, a);
    TableIsShift(k, b);
    TableIsShift(k, Xor(a, b));
    ShiftLinear(8 * k + 8, a, b);
  }

  /** One step of the recurrence, on numbers. */
  lemma NextEntry(k: nat, i: bv32, prev: bv32, low: bv32, shifted: bv32, cur: bv32)
    requires Table(k, i) == prev && prev & 0xff == low
    requires Shift(8, low) == shifted && shifted ^ (prev >> 8) == cur
    ensures Table(k + 1, i) == cur
  {
  }

  lemma Literals0()
    ensures Table(0, 1) == 0xf26b_8303 && Table(0, 2) == 0xe13b_70f7
    ensures Table(0, 4) == 0xc79a_971f && Table(0, 8) == 0x8ad9_58cf
    ensures Table(0, 16) == 0x105e_c76f && Table(0, 32) == 0x20bd_8ede
    ensures Table(0, 64) == 0x417b_1dbc && Table(0, 128) == 0x82f6_3b78
  {
  }

  lemma Literals1()
    ensures Table(1, 1) == 0x13a2_9877 && Table(1, 2) == 0x2745_30ee
    ensures Table(1, 4) == 0x4e8a_61dc && Table(1, 8) == 0x9d14_c3b8
    ensures Table(1, 16) == 0x3fc5_f181 && Table(1, 32) == 0x7f8b_e302
    ensures Table(1, 64) == 0xff17_c604 && Table(1, 128) == 0xfbc3_faf9
  {
    Literals0();
    hide Table;
    NextEntry(0, 1, 0xf26b_8303, 0x03, 0x1350_f3f4, 0x13a2_9877);
    NextEntry(0, 2, 0xe13b_70f7, 0xf7, 0x27a4_0b9e, 0x2745_30ee);
    NextEntry(0, 4, 0xc79a_971f, 0x1f, 0x4e4d_fb4b, 0x4e8a_61dc);
    NextEntry(0, 8, 0x8ad9_58cf, 0xcf, 0x9d9e_1ae0, 0x9d14_c3b8);
    NextEntry(0, 16, 0x105e_c76f, 0x6f, 0x3fd5_af46, 0x3fc5_f181);
    NextEntry(0, 32, 0x20bd_8ede, 0xde, 0x7fab_5e8c, 0x7f8b_e302);
    NextEntry(0, 64, 0x417b_1dbc, 0xbc, 0xff56_bd19, 0xff17_c604);
    NextEntry(0, 128, 0x82f6_3b78, 0x78, 0xfb41_0cc2, 0xfbc3_faf9);
  }

  lemma Literals2()
    ensures Table(2, 1) == 0xa541_927e && Table(2, 2) == 0x4f6f_520d
    ensures Table(2, 4) == 0x9ede_a41a && Table(2, 8) == 0x3851_3ec5
    ensures Table(2, 16) == 0x70a2_7d8a && Table(2, 32) == 0xe144_fb14
    ensures Table(2, 64) == 0xc765_80d9 && Table(2, 128) == 0x8b27_7743
  {
    Literals1();
    hide Table;
    NextEntry(1, 1, 0x13a2_9877, 0x77, 0xa552_30e6, 0xa541_927e);
    NextEntry(1, 2, 0x2745_30ee, 0xee, 0x4f48_173d, 0x4f6f_520d);
    NextEntry(1, 4, 0x4e8a_61dc, 0xdc, 0x9e90_2e7b, 0x9ede_a41a);
    NextEntry(1, 8, 0x9d14_c3b8, 0xb8, 0x38cc_2a06, 0x3851_3ec5);
    NextEntry(1, 16, 0x3fc5_f181, 0x81, 0x709d_b87b, 0x70a2_7d8a);
    NextEntry(1, 32, 0x7f8b_e302, 0x02, 0xe13b_70f7, 0xe144_fb14);
    NextEntry(1, 64, 0xff17_c604, 0x04, 0xc79a_971f, 0xc765_80d9);
    NextEntry(1, 128, 0xfbc3_faf9, 0xf9, 0x8bdc_b4b9, 0x8b27_7743);
  }

  lemma Literals3()
    ensures Table(3, 1) == 0xdd45_aab8 && Table(3, 2) == 0xbf67_2381
    ensures Table(3, 4) == 0x7b22_31f3 && Table(3, 8) == 0xf644_63e6
    ensures Table(3, 16) == 0xe964_b13d && Table(3, 32) == 0xd725_148b
    ensures Table(3, 64) == 0xaba6_5fe7 && Table(3, 128) == 0x52a0_c93f
  {
    Literals2();
    hide Table;
    NextEntry(2, 1, 0xa541_927e, 0x7e, 0xdde0_eb2a, 0xdd45_aab8);
    NextEntry(2, 2, 0x4f6f_520d, 0x0d, 0xbf28_4cd3, 0xbf67_2381);
    NextEntry(2, 4, 0x9ede_a41a, 0x1a, 0x7bbc_ef57, 0x7b22_31f3);
    NextEntry(2, 8, 0x3851_3ec5, 0xc5, 0xf67c_32d8, 0xf644_63e6);
    NextEntry(2, 16, 0x70a2_7d8a, 0x8a, 0xe914_1340, 0xe964_b13d);
    NextEntry(2, 32, 0xe144_fb14, 0x14, 0xd7c4_5070, 0xd725_148b);
    NextEntry(2, 64, 0xc765_80d9, 0xd9, 0xab61_3a67, 0xaba6_5fe7);
    NextEntry(2, 128, 0x8b27_7743, 0x43, 0x522b_ee48, 0x52a0_c93f);
  }
}
