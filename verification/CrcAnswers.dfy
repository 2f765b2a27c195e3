/** Check values of the CRC: inputs and results written out as numbers. */
module CrcAnswers {
  import opened Common
  import opened Crc32
  import opened CrcKernel

  /** Feeding a byte leads from one register to the other. */
  ghost predicate Link(x: bv32, b: byte, y: bv32) {
    Shifts(Xor(x, Bv(b)), 8) == y
  }

  lemma {:induction false} Linked(data: bytes, rs: seq<bv32>)
    requires |rs| == |data| + 1 && forall i :: 0 <= i < |data| ==> Link(rs[i], data[i], rs[i + 1])
    ensures Feed(rs[0], data) == rs[|data|]
    decreases |data|
  {
    hide *;
    if data == [] {
      FeedNothing(rs[0]);
    } else {
      var n := |data| - 1;
      Linked(data[..n], rs[..n + 1]);
      assert data[..n] + [data[n]] == data;
      FeedConcat(rs[0], data[..n], [data[n]]);
      FeedOne(rs[n], data[n]);
      LinkIs(rs[n], data[n], rs[n + 1]);
    }
  }

  lemma FeedNothing(c: bv32)
    ensures Feed(c, []) == c
  {}

  lemma FeedOne(x: bv32, b: byte)
    ensures Feed(x, [b]) == Shifts(Xor(x, Bv(b)), 8)
  {
    hide *;
    FeedWord(x, [b]);
    WordStep([b]);
    WordOfNone();
    assert [b][..0] == [];
    UpIs(Bv(b));
    XorZero(Bv(b));
  }

  lemma LinkIs(x: bv32, b: byte, y: bv32)
    ensures Link(x, b, y) <==> Shifts(Xor(x, Bv(b)), 8) == y
  {}

  /** A link by its bits. */
  lemma ByBits(x: bv32, b: byte, v: bv32)
    requires v == x ^ ((b as bv8) as bv32)
    ensures Link(x, b, Shift(Shift(Shift(Shift(Shift(Shift(Shift(Shift(v)))))))))
  {
    hide Shift, Shifts;
    EightShifts(v);
  }

  lemma CrcOfFeed(data: bytes, f: bv32)
    requires Feed(0xFFFF_FFFF, data) == f
    ensures CrcU32(0, data) == (!f) as int
  {
    hide Feed;
  }

  /** The nine digits from 1 to 9, and the registers while they are fed. */
  const CHECK_BYTES: bytes := [49, 50, 51, 52, 53, 54, 55, 56, 57]

  const CHECK_REGISTERS: seq<bv32> := [0xFFFF_FFFF, 0x7C23_1048, 0xB0AC_BB32, 0x77B7_9C2D, 0x641C_1F5C, 0x340A_C5E3,
    0xF68D_2C9E, 0xAFFC_9660, 0x651F_2550, 0x340B_C6D9]

  lemma CheckLinks0()
    ensures |CHECK_BYTES| == 9 && |CHECK_REGISTERS| == 10
    ensures forall i :: 0 <= i < 5 ==> Link(CHECK_REGISTERS[i], CHECK_BYTES[i], CHECK_REGISTERS[i + 1])
  {
    hide Link, Shift, Shifts, Feed, Bv;
    ShiftsByBits();
    ByBits(0xFFFF_FFFF, 49, 0xFFFF_FFCE);
    ByBits(0x7C23_1048, 50, 0x7C23_107A);
    ByBits(0xB0AC_BB32, 51, 0xB0AC_BB01);
    ByBits(0x77B7_9C2D, 52, 0x77B7_9C19);
    ByBits(0x641C_1F5C, 53, 0x641C_1F69);
  }

  lemma CheckLinks5()
    ensures |CHECK_BYTES| == 9 && |CHECK_REGISTERS| == 10
    ensures forall i :: 5 <= i < 9 ==> Link(CHECK_REGISTERS[i], CHECK_BYTES[i], CHECK_REGISTERS[i + 1])
  {
    hide Link, Shift, Shifts, Feed, Bv;
    ShiftsByBits();
    ByBits(0x340A_C5E3, 54, 0x340A_C5D5);
    ByBits(0xF68D_2C9E, 55, 0xF68D_2CA9);
    ByBits(0xAFFC_9660, 56, 0xAFFC_9658);
    ByBits(0x651F_2550, 57, 0x651F_2569);
  }

  /** The check value of this CRC, which both complements and the order of the bits go into. */
  lemma CheckValue()
    ensures CrcU32(0, [49, 50, 51, 52, 53, 54, 55, 56, 57]) == 0xCBF4_3926
  {
    hide Link, Feed, Shifts, Crc, CrcU32;
    CheckLinks0();
    CheckLinks5();
    Linked(CHECK_BYTES, CHECK_REGISTERS);
    CrcOfFeed(CHECK_BYTES, 0x340B_C6D9);
  }

  /** The start of a packet without headers and payload: lengths 16 and 0, and their CRC. */
  const EMPTY_BYTES: bytes := [0, 0, 0, 16, 0, 0, 0, 0, 5, 194, 72, 235]

  const EMPTY_REGISTERS: seq<bv32> := [0xFFFF_FFFF, 0x2DFD_1072, 0xBE26_ED00, 0x00BE_26ED, 0xC30C_3087, 0x731F_1AB3,
    0x521B_FD2C, 0x328A_771E, 0xFA3D_B714, 0x6A4A_1D45, 0x73B6_5C9E, 0x6FC3_C1BD, 0x8267_3700]

  lemma EmptyLinks0()
    ensures |EMPTY_BYTES| == 12 && |EMPTY_REGISTERS| == 13
    ensures forall i :: 0 <= i < 6 ==> Link(EMPTY_REGISTERS[i], EMPTY_BYTES[i], EMPTY_REGISTERS[i + 1])
  {
    hide Link, Shift, Shifts, Feed, Bv;
    ShiftsByBits();
    ByBits(0xFFFF_FFFF, 0, 0xFFFF_FFFF);
    ByBits(0x2DFD_1072, 0, 0x2DFD_1072);
    ByBits(0xBE26_ED00, 0, 0xBE26_ED00);
    ByBits(0x00BE_26ED, 16, 0x00BE_26FD);
    ByBits(0xC30C_3087, 0, 0xC30C_3087);
    ByBits(0x731F_1AB3, 0, 0x731F_1AB3);
  }

  lemma EmptyLinks6()
    ensures |EMPTY_BYTES| == 12 && |EMPTY_REGISTERS| == 13
    ensures forall i :: 6 <= i < 12 ==> Link(EMPTY_REGISTERS[i], EMPTY_BYTES[i], EMPTY_REGISTERS[i + 1])
  {
    hide Link, Shift, Shifts, Feed, Bv;
    ShiftsByBits();
    ByBits(0x521B_FD2C, 0, 0x521B_FD2C);
    ByBits(0x328A_771E, 0, 0x328A_771E);
    ByBits(0xFA3D_B714, 5, 0xFA3D_B711);
    ByBits(0x6A4A_1D45, 194, 0x6A4A_1D87);
    ByBits(0x73B6_5C9E, 72, 0x73B6_5CD6);
    ByBits(0x6FC3_C1BD, 235, 0x6FC3_C156);
  }

  /** The two CRCs of that packet. */
  lemma EmptyPacketCrcs()
    ensures CrcU32(0, [0, 0, 0, 16, 0, 0, 0, 0]) == 0x05C2_48EB
    ensures CrcU32(0, [0, 0, 0, 16, 0, 0, 0, 0, 0x05, 0xC2, 0x48, 0xEB]) == 0x7D98_C8FF
  {
    hide Link, Feed, Shifts, Crc, CrcU32;
    EmptyLinks0();
    EmptyLinks6();
    Linked(EMPTY_BYTES, EMPTY_REGISTERS);
    CrcOfFeed(EMPTY_BYTES, 0x8267_3700);
    Linked(EMPTY_BYTES[..8], EMPTY_REGISTERS[..9]);
    assert EMPTY_BYTES[..8] == [0, 0, 0, 16, 0, 0, 0, 0];
    CrcOfFeed([0, 0, 0, 16, 0, 0, 0, 0], 0xFA3D_B714);
  }
}
