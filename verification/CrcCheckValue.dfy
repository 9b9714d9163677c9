/** The CRC-32 of the digits 1 to 9, the check value that tables of checksums list to identify an algorithm. */
module CrcCheckValue {
  import opened Crc32

  lemma EightTurns(x: bv32, a: bv32, b: bv32, c: bv32, d: bv32, e: bv32, f: bv32, g: bv32, h: bv32)
    requires BitStep(x) == a && BitStep(a) == b && BitStep(b) == c && BitStep(c) == d
    requires BitStep(d) == e && BitStep(e) == f && BitStep(f) == g && BitStep(g) == h
    ensures Pow(8, x) == h
  {
    hide BitStep;
    assert Pow(1, x) == BitStep(Pow(0, x)) && Pow(2, x) == BitStep(Pow(1, x)) && Pow(3, x) == BitStep(Pow(2, x));
    assert Pow(4, x) == BitStep(Pow(3, x)) && Pow(5, x) == BitStep(Pow(4, x)) && Pow(6, x) == BitStep(Pow(5, x));
    assert Pow(7, x) == BitStep(Pow(6, x));
  }

  /** The byte takes the register from one word to the other. */
  predicate Feeds(from: bv32, byte: bv8, to: bv32) { Pow(8, Xor(from, byte as bv32)) == to }

  lemma One()
    ensures Feeds(0xffff_ffff, 0x31, 0x7c23_1048)
  {
    EightTurns(0xffff_ffce, 0x7fff_ffe7, 0xd247_7cd3, 0x849b_3d49, 0xaff5_1d84,
               0x57fa_8ec2, 0x2bfd_4761, 0xf846_2090, 0x7c23_1048);
  }

  lemma Two()
    ensures Feeds(0x7c23_1048, 0x32, 0xb0ac_bb32)
  {
    EightTurns(0x7c23_107a, 0x3e11_883d, 0xf2b0_473e, 0x7958_239f, 0xd114_92ef,
               0x8532_ca57, 0xaf21_e60b, 0xba28_7025, 0xb0ac_bb32);
  }

  lemma Three()
    ensures Feeds(0xb0ac_bb32, 0x33, 0x77b7_9c2d)
  {
    EightTurns(0xb0ac_bb01, 0xb5ee_dea0, 0x5af7_6f50, 0x2d7b_b7a8, 0x16bd_dbd4,
               0x0b5e_edea, 0x05af_76f5, 0xef6f_385a, 0x77b7_9c2d);
  }

  lemma Four()
    ensures Feeds(0x77b7_9c2d, 0x34, 0x641c_1f5c)
  {
    EightTurns(0x77b7_9c19, 0xd663_4d2c, 0x6b31_a696, 0x3598_d34b, 0xf774_ea85,
               0x9602_f662, 0x4b01_7b31, 0xc838_3eb8, 0x641c_1f5c);
  }

  lemma Five()
    ensures Feeds(0x641c_1f5c, 0x35, 0x340a_c5e3)
  {
    EightTurns(0x641c_1f69, 0xdfb6_8c94, 0x6fdb_464a, 0x37ed_a325, 0xf64e_52b2,
               0x7b27_2959, 0xd02b_178c, 0x6815_8bc6, 0x340a_c5e3);
  }

  lemma Six()
    ensures Feeds(0x340a_c5e3, 0x36, 0xf68d_2c9e)
  {
    EightTurns(0x340a_c5d5, 0xf7bd_e1ca, 0x7bde_f0e5, 0xd057_fb52, 0x682b_fda9,
               0xd9ad_7df4, 0x6cd6_befa, 0x366b_5f7d, 0xf68d_2c9e);
  }

  lemma Seven()
    ensures Feeds(0xf68d_2c9e, 0x37, 0xaffc_9660)
  {
    EightTurns(0xf68d_2ca9, 0x96fe_1574, 0x4b7f_0aba, 0x25bf_855d, 0xff67_418e,
               0x7fb3_a0c7, 0xd261_5343, 0x8488_2a81, 0xaffc_9660);
  }

  lemma Eight()
    ensures Feeds(0xaffc_9660, 0x38, 0x651f_2550)
  {
    EightTurns(0xaffc_9658, 0x57fe_4b2c, 0x2bff_2596, 0x15ff_92cb, 0xe747_4a45,
               0x9e1b_2602, 0x4f0d_9301, 0xca3e_4aa0, 0x651f_2550);
  }

  lemma Nine()
    ensures Feeds(0x651f_2550, 0x39, 0x340b_c6d9)
  {
    EightTurns(0x651f_2569, 0xdf37_1194, 0x6f9b_88ca, 0x37cd_c465, 0xf65e_6112,
               0x7b2f_3089, 0xd02f_1b64, 0x6817_8db2, 0x340b_c6d9);
  }

  lemma Next(digits: seq<bv8>, from: bv32, byte: bv8, to: bv32)
    requires Feed(ONES, digits) == from && Feeds(from, byte, to)
    ensures Feed(ONES, digits + [byte]) == to
  {
    hide Feed, Pow, Xor;
    FeedMore(ONES, digits, byte);
  }

  /** So the polynomial, the order of the bits, the initial register and the final complement are those of CRC-32. */
  lemma CheckValue()
    ensures ReferenceCrc([0x31, 0x32, 0x33, 0x34, 0x35, 0x36, 0x37, 0x38, 0x39]) == 0xcbf4_3926
  {
    hide Feed, Feeds, Pow, Serial, Bits;
    FeedNothing(ONES);
    One();
    Two();
    Three();
    Four();
    Five();
    Six();
    Seven();
    Eight();
    Nine();
    var d: seq<bv8> := [];
    Next(d, 0xffff_ffff, 0x31, 0x7c23_1048);
    d := d + [0x31];
    Next(d, 0x7c23_1048, 0x32, 0xb0ac_bb32);
    d := d + [0x32];
    Next(d, 0xb0ac_bb32, 0x33, 0x77b7_9c2d);
    d := d + [0x33];
    Next(d, 0x77b7_9c2d, 0x34, 0x641c_1f5c);
    d := d + [0x34];
    Next(d, 0x641c_1f5c, 0x35, 0x340a_c5e3);
    d := d + [0x35];
    Next(d, 0x340a_c5e3, 0x36, 0xf68d_2c9e);
    d := d + [0x36];
    Next(d, 0xf68d_2c9e, 0x37, 0xaffc_9660);
    d := d + [0x37];
    Next(d, 0xaffc_9660, 0x38, 0x651f_2550);
    d := d + [0x38];
    Next(d, 0x651f_2550, 0x39, 0x340b_c6d9);
    d := d + [0x39];
    assert d == [0x31, 0x32, 0x33, 0x34, 0x35, 0x36, 0x37, 0x38, 0x39];
    FeedIsSerial(ONES, d);
  }

  lemma FeedIsSerial(s: bv32, data: seq<bv8>)
    ensures Feed(s, data) == Serial(s, Bits(data))
  {}
}
