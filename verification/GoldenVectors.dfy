// Octets that were worked out by hand, which tests/test_radio_framing.c and
// tests/test_frame_codec.c compare with what the code puts on the wire.
module GoldenVectors {
  import opened Bytes
  import opened Options
  import opened ShiftRegister
  import opened Crc32
  import opened CrcBoundary
  import SP = SpacePacket
  import P = Profile
  import opened BusFrame

  const SAMPLE: seq<byte> := [0x00, 0x05, 0x09, 0xC4, 0x00, 0x00, 0x03, 0xE8]

  const FRONT: seq<byte> := [0x08, 0x01, 0xC0, 0x00, 0x00, 0x1B,
                             0x01, 0x00, 0x00, 0x00, 0x00, 0x00, 0x00, 0x00,
                             0x00, 0x00, 0x00, 0x01, 0x00, 0x00, 0x00, 0x08]

  const CRC: seq<byte> := [0xA6, 0x30, 0x25, 0x9D]

  // The header of the worked example: telemetry, APID 0x042, sequence count 5, eight
  // octets of data
  lemma GoldenHeader()
    ensures SP.WriteHeader(SP.Header(0, false, 0x042, 3, 5), 8) == [0x00, 0x42, 0xC0, 0x05, 0x00, 0x07]
  {
  }

  // The bus frame from 1 to 2 with three octets
  lemma GoldenFrame()
    ensures Wire(Frame(2, 1, [0x10, 0x20, 0x30])) == [0x02, 0x01, 0x00, 0x03, 0x10, 0x20, 0x30]
  {
  }

  const COVERED: seq<byte> := FRONT + SAMPLE

  // One octet takes the register from one value to the next.
  predicate Goes(from: bv32, b: byte, to: bv32) {
    AbsorbByte(from, b) == to
  }

  lemma FoldTwo<S, B>(f: (S, B) -> S, x: S, s: seq<B>)
    requires |s| >= 2
    ensures Fold(f, x, s) == Fold(f, f(f(x, s[0]), s[1]), s[2..])
  {
    assert s[1..][1..] == s[2..];
  }

  lemma FoldFive<S, B>(f: (S, B) -> S, x: S, s: seq<B>)
    requires |s| == 5
    ensures Fold(f, x, s) == f(f(f(f(f(x, s[0]), s[1]), s[2]), s[3]), s[4])
  {
    var y := f(f(x, s[0]), s[1]);
    FoldTwo(f, x, s);
    FoldTwo(f, y, s[2..]);
    assert s[2..][2..] == [s[4]];
    FoldOne(f, f(f(y, s[2]), s[3]), s[4]);
  }

  lemma FiveGo(c: seq<byte>, s: seq<byte>, p: bv32, q: bv32, r: bv32, t: bv32, u: bv32, v: bv32)
    requires |s| == 5 && Register(c) == p
    requires Goes(p, s[0], q) && Goes(q, s[1], r) && Goes(r, s[2], t) && Goes(t, s[3], u) && Goes(u, s[4], v)
    ensures Register(c + s) == v
  {
    RegisterFolds(c, s);
    FoldFive(AbsorbByte, p, s);
  }

  lemma Steps1()
    ensures Goes(0xFFFF_FFFF, 0x08, 0x2326_9840)
    ensures Goes(0x2326_9840, 0x01, 0x01F8_579E)
    ensures Goes(0x01F8_579E, 0xC0, 0x8CD2_84A4)
    ensures Goes(0x8CD2_84A4, 0x00, 0xD137_B575)
    ensures Goes(0xD137_B575, 0x00, 0x20BE_B206)
  {
  }

  lemma Part1(c: seq<byte>, s: seq<byte>)
    requires Register(c) == 0xFFFF_FFFF && s == [0x08, 0x01, 0xC0, 0x00, 0x00]
    ensures Register(c + s) == 0x20BE_B206
  {
    Steps1();
    FiveGo(c, s, 0xFFFF_FFFF, 0x2326_9840, 0x01F8_579E,
           0x8CD2_84A4, 0xD137_B575, 0x20BE_B206);
  }

  lemma Steps2()
    ensures Goes(0x20BE_B206, 0x1B, 0x6326_D26B)
    ensures Goes(0x6326_D26B, 0x01, 0xAD04_AE94)
    ensures Goes(0xAD04_AE94, 0x00, 0xF7CF_53F3)
    ensures Goes(0xF7CF_53F3, 0x00, 0x2443_6CF5)
    ensures Goes(0x2443_6CF5, 0x00, 0xCDF3_45FF)
  {
  }

  lemma Part2(c: seq<byte>, s: seq<byte>)
    requires Register(c) == 0x20BE_B206 && s == [0x1B, 0x01, 0x00, 0x00, 0x00]
    ensures Register(c + s) == 0xCDF3_45FF
  {
    Steps2();
    FiveGo(c, s, 0x20BE_B206, 0x6326_D26B, 0xAD04_AE94,
           0xF7CF_53F3, 0x2443_6CF5, 0xCDF3_45FF);
  }

  lemma Steps3()
    ensures Goes(0xCDF3_45FF, 0x00, 0x2DCF_1CC8)
    ensures Goes(0x2DCF_1CC8, 0x00, 0x9592_859E)
    ensures Goes(0x9592_859E, 0x00, 0x1722_2CC6)
    ensures Goes(0x1722_2CC6, 0x00, 0x7210_45A9)
    ensures Goes(0x7210_45A9, 0x00, 0xAF78_0B09)
  {
  }

  lemma Part3(c: seq<byte>, s: seq<byte>)
    requires Register(c) == 0xCDF3_45FF && s == [0x00, 0x00, 0x00, 0x00, 0x00]
    ensures Register(c + s) == 0xAF78_0B09
  {
    Steps3();
    FiveGo(c, s, 0xCDF3_45FF, 0x2DCF_1CC8, 0x9592_859E,
           0x1722_2CC6, 0x7210_45A9, 0xAF78_0B09);
  }

  lemma Steps4()
    ensures Goes(0xAF78_0B09, 0x00, 0x7973_C0AF)
    ensures Goes(0x7973_C0AF, 0x00, 0x4610_CDB9)
    ensures Goes(0x4610_CDB9, 0x01, 0xC5FC_2B73)
    ensures Goes(0xC5FC_2B73, 0x00, 0xC9C9_DCAD)
    ensures Goes(0xC9C9_DCAD, 0x00, 0xA8AE_1689)
  {
  }

  lemma Part4(c: seq<byte>, s: seq<byte>)
    requires Register(c) == 0xAF78_0B09 && s == [0x00, 0x00, 0x01, 0x00, 0x00]
    ensures Register(c + s) == 0xA8AE_1689
  {
    Steps4();
    FiveGo(c, s, 0xAF78_0B09, 0x7973_C0AF, 0x4610_CDB9,
           0xC5FC_2B73, 0xC9C9_DCAD, 0xA8AE_1689);
  }

  lemma Steps5()
    ensures Goes(0xA8AE_1689, 0x00, 0x94CC_9592)
    ensures Goes(0x94CC_9592, 0x08, 0x104E_B6CF)
    ensures Goes(0x104E_B6CF, 0x00, 0x0BCB_9197)
    ensures Goes(0x0BCB_9197, 0x05, 0x1E0A_39F9)
    ensures Goes(0x1E0A_39F9, 0x09, 0xBDA3_F825)
  {
  }

  lemma Part5(c: seq<byte>, s: seq<byte>)
    requires Register(c) == 0xA8AE_1689 && s == [0x00, 0x08, 0x00, 0x05, 0x09]
    ensures Register(c + s) == 0xBDA3_F825
  {
    Steps5();
    FiveGo(c, s, 0xA8AE_1689, 0x94CC_9592, 0x104E_B6CF,
           0x0BCB_9197, 0x1E0A_39F9, 0xBDA3_F825);
  }

  lemma Steps6()
    ensures Goes(0xBDA3_F825, 0xC4, 0xD7B0_7116)
    ensures Goes(0xD7B0_7116, 0x00, 0xF403_0520)
    ensures Goes(0xF403_0520, 0x00, 0x3B9A_23CD)
    ensures Goes(0x3B9A_23CD, 0x03, 0x7CE7_7594)
    ensures Goes(0x7CE7_7594, 0xE8, 0x59CF_DA62)
  {
  }

  lemma Part6(c: seq<byte>, s: seq<byte>)
    requires Register(c) == 0xBDA3_F825 && s == [0xC4, 0x00, 0x00, 0x03, 0xE8]
    ensures Register(c + s) == 0x59CF_DA62
  {
    Steps6();
    FiveGo(c, s, 0xBDA3_F825, 0xD7B0_7116, 0xF403_0520,
           0x3B9A_23CD, 0x7CE7_7594, 0x59CF_DA62);
  }

  lemma NothingFed(c: seq<byte>)
    requires |c| == 0
    ensures Register(c) == 0xFFFF_FFFF
  {
    assert MessageBits(c) == [];
  }

  // The octets from place k on, five at a time
  lemma NextFive(s: seq<byte>, k: nat)
    requires k + 5 <= |s|
    ensures s[..k + 5] == s[..k] + s[k..k + 5]
  {
  }

  lemma FivesOf(s: seq<byte>)
    requires s == COVERED
    ensures |s| == 30
    ensures s[0..5] == [0x08, 0x01, 0xC0, 0x00, 0x00]
    ensures s[5..10] == [0x1B, 0x01, 0x00, 0x00, 0x00]
    ensures s[10..15] == [0x00, 0x00, 0x00, 0x00, 0x00]
    ensures s[15..20] == [0x00, 0x00, 0x01, 0x00, 0x00]
    ensures s[20..25] == [0x00, 0x08, 0x00, 0x05, 0x09]
    ensures s[25..30] == [0xC4, 0x00, 0x00, 0x03, 0xE8]
  {
    assert s == [0x08, 0x01, 0xC0, 0x00, 0x00, 0x1B, 0x01, 0x00, 0x00, 0x00,
                 0x00, 0x00, 0x00, 0x00, 0x00, 0x00, 0x00, 0x01, 0x00, 0x00,
                 0x00, 0x08, 0x00, 0x05, 0x09, 0xC4, 0x00, 0x00, 0x03, 0xE8];
  }

  lemma GoldenRegister(s: seq<byte>)
    requires s == COVERED
    ensures Register(s) == 0x59CF_DA62
  {
    FivesOf(s);
    NothingFed(s[..0]);
    NextFive(s, 0);
    Part1(s[..0], s[0..5]);
    NextFive(s, 5);
    Part2(s[..5], s[5..10]);
    NextFive(s, 10);
    Part3(s[..10], s[10..15]);
    NextFive(s, 15);
    Part4(s[..15], s[15..20]);
    NextFive(s, 20);
    Part5(s[..20], s[20..25]);
    NextFive(s, 25);
    Part6(s[..25], s[25..30]);
    assert s[..30] == s;
  }

  lemma GoldenOctets(reg: bv32)
    requires reg == 0x59CF_DA62
    ensures Octets(reg ^ ONES) == CRC
  {
  }

  lemma GoldenCrc()
    ensures Crc(COVERED) == ReadU32(CRC)
  {
    GoldenRegister(COVERED);
    GoldenOctets(Register(COVERED));
  }

  lemma GoldenFront()
    ensures SP.WriteHeader(P.PacketHeader(0, 0), 28) == [0x08, 0x01, 0xC0, 0x00, 0x00, 0x1B]
    ensures P.ProfileHeader(0, 1, None, 8) == [0x01, 0x00, 0x00, 0x00, 0x00, 0x00, 0x00, 0x00,
                                               0x00, 0x00, 0x00, 0x01, 0x00, 0x00, 0x00, 0x08]
  {
  }

  lemma GoldenField(crc: nat)
    requires crc == ReadU32(CRC)
    ensures WriteU32(crc) == CRC
  {
    U32Canonical(CRC);
  }

  lemma GoldenSealed(covered: seq<byte>)
    requires covered == COVERED
    ensures P.Sealed(covered) == COVERED + CRC
  {
    GoldenCrc();
    GoldenField(Crc(covered));
  }

  lemma GoldenCovered(content: nat, count: nat, items: u32, payload: seq<byte>)
    requires content == 0 && count == 0 && items == 1 && payload == SAMPLE
    ensures P.Covered(content, count, items, None, payload) == COVERED
  {
    GoldenFront();
  }

  // The first packet that the radio sends of these eight octets of telemetry
  lemma GoldenPacket(content: nat, count: u16, items: u32, payload: seq<byte>, capacity: nat)
    requires content == 0 && count == 0 && items == 1 && payload == SAMPLE && capacity == 240
    ensures P.Build(content, count, items, None, payload, capacity) == SP.Success(COVERED + CRC)
  {
    P.BuildTells(content, count, items, None, payload, capacity);
    GoldenCovered(content, count, items, payload);
    GoldenSealed(COVERED);
  }
}
