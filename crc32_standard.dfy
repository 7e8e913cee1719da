/** Known values of CRC-32/ISO-HDLC, evaluated on the model: entries of
    the lookup table and the catalogued check value. */
module Crc32Standard {
  import opened Bytes
  import opened Crc32

  lemma EightRounds(c: bv32)
    ensures Rounds(c, 8) == Round(Round(Round(Round(Round(Round(Round(Round(c))))))))
  {
    assert Rounds(c, 1) == Round(c);
    assert Rounds(c, 2) == Round(Round(c));
    assert Rounds(c, 3) == Round(Round(Round(c)));
    assert Rounds(c, 4) == Round(Round(Round(Round(c))));
    assert Rounds(c, 5) == Round(Round(Round(Round(Round(c)))));
    assert Rounds(c, 6) == Round(Round(Round(Round(Round(Round(c))))));
    assert Rounds(c, 7) == Round(Round(Round(Round(Round(Round(Round(c)))))));
  }

  /** Known entries of the standard table. */
  lemma StandardTableEntries()
    ensures TableEntry(0) == 0
    ensures TableEntry(1) == 0x7707_3096
    ensures TableEntry(128) == Polynomial
    ensures TableEntry(255) == 0x2D02_EF8D
  {
    EightRounds(0);
    EightRounds(1);
    EightRounds(128);
    EightRounds(255);
  }

  /** One step of the division on known values, with the table entry
      evaluated round by round. */
  lemma KnownUpdate(c: bv32, b: byte, i: byte, e: bv32, r: bv32)
    requires TableIndex(c, b) == i
    requires Round(Round(Round(Round(Round(Round(Round(Round(i as bv32)))))))) == e
    requires r == e ^ (c >> 8)
    ensures Update(Register(c), b) == Register(r)
  {
    EightRounds(i as bv32);
  }

  lemma FoldNext(c: Register, s: seq<byte>, k: nat, before: Register, after: Register)
    requires k < |s| && Fold(c, s[..k]) == before && Update(before, s[k]) == after
    ensures Fold(c, s[..k + 1]) == after
  {
    assert s[..k + 1][..k] == s[..k];
  }

  /** ASCII "123456789", the message the check value is catalogued for. */
  const CheckMessage: seq<byte> := [0x31, 0x32, 0x33, 0x34, 0x35, 0x36, 0x37, 0x38, 0x39]

  /** The working value after the first five bytes of the check message. */
  lemma CheckMessageHalfway()
    ensures Fold(Register(0xffff_ffff), CheckMessage[..5]) == Register(0x340a_c5e3)
  {
    var s := CheckMessage;
    var start := Register(0xffff_ffff);
    assert s[..0] == [];
    KnownUpdate(0xffff_ffff, 0x31, 206, 0x7cdc_efb7, 0x7c23_1048);
    FoldNext(start, s, 0, start, Register(0x7c23_1048));
    KnownUpdate(0x7c23_1048, 0x32, 122, 0xb0d0_9822, 0xb0ac_bb32);
    FoldNext(start, s, 1, Register(0x7c23_1048), Register(0xb0ac_bb32));
    KnownUpdate(0xb0ac_bb32, 0x33, 1, 0x7707_3096, 0x77b7_9c2d);
    FoldNext(start, s, 2, Register(0xb0ac_bb32), Register(0x77b7_9c2d));
    KnownUpdate(0x77b7_9c2d, 0x34, 25, 0x646b_a8c0, 0x641c_1f5c);
    FoldNext(start, s, 3, Register(0x77b7_9c2d), Register(0x641c_1f5c));
    KnownUpdate(0x641c_1f5c, 0x35, 105, 0x346e_d9fc, 0x340a_c5e3);
    FoldNext(start, s, 4, Register(0x641c_1f5c), Register(0x340a_c5e3));
  }

  /** The check value of CRC-32/ISO-HDLC: the checksum of ASCII "123456789"
      from the default seed 0. */
  lemma CheckValue()
    ensures Checksum(CheckMessage, 0) == 0xCBF4_3926
  {
    var s := CheckMessage;
    var start := Register(0xffff_ffff);
    CheckMessageHalfway();
    KnownUpdate(0x340a_c5e3, 0x36, 213, 0xf6b9_265b, 0xf68d_2c9e);
    FoldNext(start, s, 5, Register(0x340a_c5e3), Register(0xf68d_2c9e));
    KnownUpdate(0xf68d_2c9e, 0x37, 169, 0xaf0a_1b4c, 0xaffc_9660);
    FoldNext(start, s, 6, Register(0xf68d_2c9e), Register(0xaffc_9660));
    KnownUpdate(0xaffc_9660, 0x38, 88, 0x65b0_d9c6, 0x651f_2550);
    FoldNext(start, s, 7, Register(0xaffc_9660), Register(0x651f_2550));
    KnownUpdate(0x651f_2550, 0x39, 105, 0x346e_d9fc, 0x340b_c6d9);
    FoldNext(start, s, 8, Register(0x651f_2550), Register(0x340b_c6d9));
    assert s[..9] == s;
  }
}
