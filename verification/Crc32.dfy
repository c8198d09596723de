/** The table-driven CRC-32 of crc32_embedded.hpp, and the division by its polynomial that it stands for. */
module Crc32 {
  /** The polynomial of section 8 of RFC 1952, lowest power first. */
  const POLYNOMIAL: bv32 := 0xEDB8_8320

  const ONES: bv32 := 0xFFFF_FFFF

  // ---- The table, sixteen entries to a row ------------------------------------------------------

  const ROW0: seq<bv32> := [
    0x0000_0000, 0x7707_3096, 0xEE0E_612C, 0x9909_51BA, 0x076D_C419, 0x706A_F48F, 0xE963_A535, 0x9E64_95A3,
    0x0EDB_8832, 0x79DC_B8A4, 0xE0D5_E91E, 0x97D2_D988, 0x09B6_4C2B, 0x7EB1_7CBD, 0xE7B8_2D07, 0x90BF_1D91]
  const ROW1: seq<bv32> := [
    0x1DB7_1064, 0x6AB0_20F2, 0xF3B9_7148, 0x84BE_41DE, 0x1ADA_D47D, 0x6DDD_E4EB, 0xF4D4_B551, 0x83D3_85C7,
    0x136C_9856, 0x646B_A8C0, 0xFD62_F97A, 0x8A65_C9EC, 0x1401_5C4F, 0x6306_6CD9, 0xFA0F_3D63, 0x8D08_0DF5]
  const ROW2: seq<bv32> := [
    0x3B6E_20C8, 0x4C69_105E, 0xD560_41E4, 0xA267_7172, 0x3C03_E4D1, 0x4B04_D447, 0xD20D_85FD, 0xA50A_B56B,
    0x35B5_A8FA, 0x42B2_986C, 0xDBBB_C9D6, 0xACBC_F940, 0x32D8_6CE3, 0x45DF_5C75, 0xDCD6_0DCF, 0xABD1_3D59]
  const ROW3: seq<bv32> := [
    0x26D9_30AC, 0x51DE_003A, 0xC8D7_5180, 0xBFD0_6116, 0x21B4_F4B5, 0x56B3_C423, 0xCFBA_9599, 0xB8BD_A50F,
    0x2802_B89E, 0x5F05_8808, 0xC60C_D9B2, 0xB10B_E924, 0x2F6F_7C87, 0x5868_4C11, 0xC161_1DAB, 0xB666_2D3D]
  const ROW4: seq<bv32> := [
    0x76DC_4190, 0x01DB_7106, 0x98D2_20BC, 0xEFD5_102A, 0x71B1_8589, 0x06B6_B51F, 0x9FBF_E4A5, 0xE8B8_D433,
    0x7807_C9A2, 0x0F00_F934, 0x9609_A88E, 0xE10E_9818, 0x7F6A_0DBB, 0x086D_3D2D, 0x9164_6C97, 0xE663_5C01]
  const ROW5: seq<bv32> := [
    0x6B6B_51F4, 0x1C6C_6162, 0x8565_30D8, 0xF262_004E, 0x6C06_95ED, 0x1B01_A57B, 0x8208_F4C1, 0xF50F_C457,
    0x65B0_D9C6, 0x12B7_E950, 0x8BBE_B8EA, 0xFCB9_887C, 0x62DD_1DDF, 0x15DA_2D49, 0x8CD3_7CF3, 0xFBD4_4C65]
  const ROW6: seq<bv32> := [
    0x4DB2_6158, 0x3AB5_51CE, 0xA3BC_0074, 0xD4BB_30E2, 0x4ADF_A541, 0x3DD8_95D7, 0xA4D1_C46D, 0xD3D6_F4FB,
    0x4369_E96A, 0x346E_D9FC, 0xAD67_8846, 0xDA60_B8D0, 0x4404_2D73, 0x3303_1DE5, 0xAA0A_4C5F, 0xDD0D_7CC9]
  const ROW7: seq<bv32> := [
    0x5005_713C, 0x2702_41AA, 0xBE0B_1010, 0xC90C_2086, 0x5768_B525, 0x206F_85B3, 0xB966_D409, 0xCE61_E49F,
    0x5EDE_F90E, 0x29D9_C998, 0xB0D0_9822, 0xC7D7_A8B4, 0x59B3_3D17, 0x2EB4_0D81, 0xB7BD_5C3B, 0xC0BA_6CAD]
  const ROW8: seq<bv32> := [
    0xEDB8_8320, 0x9ABF_B3B6, 0x03B6_E20C, 0x74B1_D29A, 0xEAD5_4739, 0x9DD2_77AF, 0x04DB_2615, 0x73DC_1683,
    0xE363_0B12, 0x9464_3B84, 0x0D6D_6A3E, 0x7A6A_5AA8, 0xE40E_CF0B, 0x9309_FF9D, 0x0A00_AE27, 0x7D07_9EB1]
  const ROW9: seq<bv32> := [
    0xF00F_9344, 0x8708_A3D2, 0x1E01_F268, 0x6906_C2FE, 0xF762_575D, 0x8065_67CB, 0x196C_3671, 0x6E6B_06E7,
    0xFED4_1B76, 0x89D3_2BE0, 0x10DA_7A5A, 0x67DD_4ACC, 0xF9B9_DF6F, 0x8EBE_EFF9, 0x17B7_BE43, 0x60B0_8ED5]
  const ROWA: seq<bv32> := [
    0xD6D6_A3E8, 0xA1D1_937E, 0x38D8_C2C4, 0x4FDF_F252, 0xD1BB_67F1, 0xA6BC_5767, 0x3FB5_06DD, 0x48B2_364B,
    0xD80D_2BDA, 0xAF0A_1B4C, 0x3603_4AF6, 0x4104_7A60, 0xDF60_EFC3, 0xA867_DF55, 0x316E_8EEF, 0x4669_BE79]
  const ROWB: seq<bv32> := [
    0xCB61_B38C, 0xBC66_831A, 0x256F_D2A0, 0x5268_E236, 0xCC0C_7795, 0xBB0B_4703, 0x2202_16B9, 0x5505_262F,
    0xC5BA_3BBE, 0xB2BD_0B28, 0x2BB4_5A92, 0x5CB3_6A04, 0xC2D7_FFA7, 0xB5D0_CF31, 0x2CD9_9E8B, 0x5BDE_AE1D]
  const ROWC: seq<bv32> := [
    0x9B64_C2B0, 0xEC63_F226, 0x756A_A39C, 0x026D_930A, 0x9C09_06A9, 0xEB0E_363F, 0x7207_6785, 0x0500_5713,
    0x95BF_4A82, 0xE2B8_7A14, 0x7BB1_2BAE, 0x0CB6_1B38, 0x92D2_8E9B, 0xE5D5_BE0D, 0x7CDC_EFB7, 0x0BDB_DF21]
  const ROWD: seq<bv32> := [
    0x86D3_D2D4, 0xF1D4_E242, 0x68DD_B3F8, 0x1FDA_836E, 0x81BE_16CD, 0xF6B9_265B, 0x6FB0_77E1, 0x18B7_4777,
    0x8808_5AE6, 0xFF0F_6A70, 0x6606_3BCA, 0x1101_0B5C, 0x8F65_9EFF, 0xF862_AE69, 0x616B_FFD3, 0x166C_CF45]
  const ROWE: seq<bv32> := [
    0xA00A_E278, 0xD70D_D2EE, 0x4E04_8354, 0x3903_B3C2, 0xA767_2661, 0xD060_16F7, 0x4969_474D, 0x3E6E_77DB,
    0xAED1_6A4A, 0xD9D6_5ADC, 0x40DF_0B66, 0x37D8_3BF0, 0xA9BC_AE53, 0xDEBB_9EC5, 0x47B2_CF7F, 0x30B5_FFE9]
  const ROWF: seq<bv32> := [
    0xBDBD_F21C, 0xCABA_C28A, 0x53B3_9330, 0x24B4_A3A6, 0xBAD0_3605, 0xCDD7_0693, 0x54DE_5729, 0x23D9_67BF,
    0xB366_7A2E, 0xC461_4AB8, 0x5D68_1B02, 0x2A6F_2B94, 0xB40B_BE37, 0xC30C_8EA1, 0x5A05_DF1B, 0x2D02_EF8D]

  function Row(r: nat): (row: seq<bv32>)
    requires r < 16
    ensures |row| == 16
  {
    match r
    case 0 => ROW0
    case 1 => ROW1
    case 2 => ROW2
    case 3 => ROW3
    case 4 => ROW4
    case 5 => ROW5
    case 6 => ROW6
    case 7 => ROW7
    case 8 => ROW8
    case 9 => ROW9
    case 10 => ROWA
    case 11 => ROWB
    case 12 => ROWC
    case 13 => ROWD
    case 14 => ROWE
    case _ => ROWF
  }

  /** crc32_table at index x. */
  function Table(x: bv32): bv32
    requires x < 256
  {
    Index(x);
    Row(High(x))[Low(x)]
  }

  function High(x: bv32): nat {
    ToNat(x >> 4)
  }

  function Low(x: bv32): nat {
    ToNat(x & 15)
  }

  function ToNat(y: bv32): nat {
    y as int
  }

  lemma {:induction false} Index(x: bv32)
    requires x < 256
    ensures High(x) < 16 && Low(x) < 16 && High(x) as bv32 == x >> 4 && Low(x) as bv32 == x & 15
  {
    hide ToNat;
    NibbleRange(x);
    SmallInt(x >> 4);
    SmallInt(x & 15);
  }

  lemma {:induction false} NibbleRange(x: bv32)
    requires x < 256
    ensures x >> 4 < 16 && x & 15 < 16
  {
  }

  lemma {:induction false} SmallInt(y: bv32)
    requires y < 16
    ensures ToNat(y) < 16 && ToNat(y) as bv32 == y
  {
  }

  function Xor(a: bv32, b: bv32): bv32 {
    a ^ b
  }

  // ---- Division, one bit at a time ----------------------------------------------------------------

  /** The register moves on by one power; what falls out at the top is reduced. */
  function Shift(c: bv32): bv32 {
    if Odd(c) then Xor(Half(c), POLYNOMIAL) else Half(c)
  }

  predicate Odd(c: bv32) {
    c & 1 == 1
  }

  function Half(c: bv32): bv32 {
    c >> 1
  }

  function Shift8(c: bv32): bv32 {
    Shift(Shift(Shift(Shift(Shift(Shift(Shift(Shift(c))))))))
  }

  lemma {:induction false} OddXor(a: bv32, b: bv32)
    ensures Odd(Xor(a, b)) <==> Odd(a) != Odd(b)
  {
  }

  lemma {:induction false} HalfXor(a: bv32, b: bv32)
    ensures Half(Xor(a, b)) == Xor(Half(a), Half(b))
  {
  }

  lemma {:induction false} XorAssociates(a: bv32, b: bv32, c: bv32)
    ensures Xor(Xor(a, b), c) == Xor(a, Xor(b, c))
  {
    assert (a ^ b) ^ c == a ^ (b ^ c);
  }

  lemma {:induction false} XorBasics(a: bv32, b: bv32)
    ensures Xor(a, b) == Xor(b, a) && Xor(a, a) == 0 && Xor(a, 0) == a
  {
  }

  lemma {:induction false} XorRules(a: bv32, b: bv32, p: bv32)
    ensures Xor(Xor(a, p), Xor(b, p)) == Xor(a, b)
    ensures Xor(Xor(a, p), b) == Xor(Xor(a, b), p) && Xor(a, Xor(b, p)) == Xor(Xor(a, b), p)
  {
    hide Xor;
    XorAssociates(a, b, p);
    XorAssociates(a, p, b);
    XorBasics(p, b);
    XorAssociates(a, p, Xor(b, p));
    XorAssociates(p, p, b);
    XorBasics(p, p);
    XorBasics(b, p);
    XorBasics(0, b);
    XorBasics(b, b);
  }

  /** Division is linear. */
  lemma {:induction false} ShiftXor(a: bv32, b: bv32)
    ensures Shift(Xor(a, b)) == Xor(Shift(a), Shift(b))
  {
    hide Xor, Odd, Half;
    OddXor(a, b);
    HalfXor(a, b);
    XorRules(Half(a), Half(b), POLYNOMIAL);
  }

  function ShiftBy(c: bv32, n: nat): bv32
    decreases n
  {
    if n == 0 then c else ShiftBy(Shift(c), n - 1)
  }

  lemma {:induction false} ShiftByXor(a: bv32, b: bv32, n: nat)
    ensures ShiftBy(Xor(a, b), n) == Xor(ShiftBy(a, n), ShiftBy(b, n))
    decreases n
  {
    hide Shift, Xor;
    if n > 0 {
      ShiftXor(a, b);
      ShiftByXor(Shift(a), Shift(b), n - 1);
    }
  }

  lemma {:induction false} ShiftByEight(c: bv32)
    ensures ShiftBy(c, 8) == Shift8(c)
  {
    hide Shift;
    var c4 := Shift(Shift(Shift(Shift(c))));
    assert ShiftBy(c, 8) == ShiftBy(Shift(Shift(c)), 6) == ShiftBy(c4, 4);
    assert ShiftBy(c4, 4) == ShiftBy(Shift(Shift(c4)), 2);
  }

  lemma {:induction false} Shift8Xor(a: bv32, b: bv32)
    ensures Shift8(Xor(a, b)) == Xor(Shift8(a), Shift8(b))
  {
    hide Shift8, Xor;
    ShiftByXor(a, b, 8);
    ShiftByEight(a);
    ShiftByEight(b);
    ShiftByEight(Xor(a, b));
  }

  /** Nothing is reduced while the bits that fall out are zero. */
  lemma {:induction false} Shift8High(c: bv32)
    requires c & 0xFF == 0
    ensures Shift8(c) == c >> 8
  {
  }

  // ---- All entries are right --------------------------------------------------------------------

  lemma {:induction false} Low0()
    ensures Shift8(0) == 0x0000_0000 && Shift8(1) == 0x7707_3096
  {
  }

  lemma {:induction false} Low1()
    ensures Shift8(2) == 0xEE0E_612C && Shift8(3) == 0x9909_51BA
  {
  }

  lemma {:induction false} Low2()
    ensures Shift8(4) == 0x076D_C419 && Shift8(5) == 0x706A_F48F
  {
  }

  lemma {:induction false} Low3()
    ensures Shift8(6) == 0xE963_A535 && Shift8(7) == 0x9E64_95A3
  {
  }

  lemma {:induction false} Low4()
    ensures Shift8(8) == 0x0EDB_8832 && Shift8(9) == 0x79DC_B8A4
  {
  }

  lemma {:induction false} Low5()
    ensures Shift8(10) == 0xE0D5_E91E && Shift8(11) == 0x97D2_D988
  {
  }

  lemma {:induction false} Low6()
    ensures Shift8(12) == 0x09B6_4C2B && Shift8(13) == 0x7EB1_7CBD
  {
  }

  lemma {:induction false} Low7()
    ensures Shift8(14) == 0xE7B8_2D07 && Shift8(15) == 0x90BF_1D91
  {
  }

  lemma {:induction false} Head0()
    ensures Shift8(0x00) == 0x0000_0000 && Shift8(0x10) == 0x1DB7_1064
  {
  }

  lemma {:induction false} Head1()
    ensures Shift8(0x20) == 0x3B6E_20C8 && Shift8(0x30) == 0x26D9_30AC
  {
  }

  lemma {:induction false} Head2()
    ensures Shift8(0x40) == 0x76DC_4190 && Shift8(0x50) == 0x6B6B_51F4
  {
  }

  lemma {:induction false} Head3()
    ensures Shift8(0x60) == 0x4DB2_6158 && Shift8(0x70) == 0x5005_713C
  {
  }

  lemma {:induction false} Head4()
    ensures Shift8(0x80) == 0xEDB8_8320 && Shift8(0x90) == 0xF00F_9344
  {
  }

  lemma {:induction false} Head5()
    ensures Shift8(0xA0) == 0xD6D6_A3E8 && Shift8(0xB0) == 0xCB61_B38C
  {
  }

  lemma {:induction false} Head6()
    ensures Shift8(0xC0) == 0x9B64_C2B0 && Shift8(0xD0) == 0x86D3_D2D4
  {
  }

  lemma {:induction false} Head7()
    ensures Shift8(0xE0) == 0xA00A_E278 && Shift8(0xF0) == 0xBDBD_F21C
  {
  }

  lemma {:induction false} LowEntry(j: nat)
    requires j < 16
    ensures ROW0[j] == Shift8(j as bv32)
  {
    hide Shift8;
    match j / 2
    case 0 => Low0();
    case 1 => Low1();
    case 2 => Low2();
    case 3 => Low3();
    case 4 => Low4();
    case 5 => Low5();
    case 6 => Low6();
    case _ => Low7();
  }

  lemma {:induction false} HeadEntry(r: nat)
    requires r < 16
    ensures Row(r)[0] == Shift8(r as bv32 << 4)
  {
    hide Shift8;
    match r / 2
    case 0 => Head0();
    case 1 => Head1();
    case 2 => Head2();
    case 3 => Head3();
    case 4 => Head4();
    case 5 => Head5();
    case 6 => Head6();
    case _ => Head7();
  }

  lemma {:induction false} Row1(j: nat)
    requires j < 16
    ensures ROW1[j] == ROW1[0] ^ ROW0[j]
  {
  }

  lemma {:induction false} Row2(j: nat)
    requires j < 16
    ensures ROW2[j] == ROW2[0] ^ ROW0[j]
  {
  }

  lemma {:induction false} Row3(j: nat)
    requires j < 16
    ensures ROW3[j] == ROW3[0] ^ ROW0[j]
  {
  }

  lemma {:induction false} Row4(j: nat)
    requires j < 16
    ensures ROW4[j] == ROW4[0] ^ ROW0[j]
  {
  }

  lemma {:induction false} Row5(j: nat)
    requires j < 16
    ensures ROW5[j] == ROW5[0] ^ ROW0[j]
  {
  }

  lemma {:induction false} Row6(j: nat)
    requires j < 16
    ensures ROW6[j] == ROW6[0] ^ ROW0[j]
  {
  }

  lemma {:induction false} Row7(j: nat)
    requires j < 16
    ensures ROW7[j] == ROW7[0] ^ ROW0[j]
  {
  }

  lemma {:induction false} Row8(j: nat)
    requires j < 16
    ensures ROW8[j] == ROW8[0] ^ ROW0[j]
  {
  }

  lemma {:induction false} Row9(j: nat)
    requires j < 16
    ensures ROW9[j] == ROW9[0] ^ ROW0[j]
  {
  }

  lemma {:induction false} RowA(j: nat)
    requires j < 16
    ensures ROWA[j] == ROWA[0] ^ ROW0[j]
  {
  }

  lemma {:induction false} RowB(j: nat)
    requires j < 16
    ensures ROWB[j] == ROWB[0] ^ ROW0[j]
  {
  }

  lemma {:induction false} RowC(j: nat)
    requires j < 16
    ensures ROWC[j] == ROWC[0] ^ ROW0[j]
  {
  }

  lemma {:induction false} RowD(j: nat)
    requires j < 16
    ensures ROWD[j] == ROWD[0] ^ ROW0[j]
  {
  }

  lemma {:induction false} RowE(j: nat)
    requires j < 16
    ensures ROWE[j] == ROWE[0] ^ ROW0[j]
  {
  }

  lemma {:induction false} RowF(j: nat)
    requires j < 16
    ensures ROWF[j] == ROWF[0] ^ ROW0[j]
  {
  }

  lemma {:induction false} RowIsHeadXor(r: nat, j: nat)
    requires r < 16 && j < 16
    ensures Row(r)[j] == Xor(Row(r)[0], ROW0[j])
  {
    match r
    case 0 =>
    case 1 => Row1(j);
    case 2 => Row2(j);
    case 3 => Row3(j);
    case 4 => Row4(j);
    case 5 => Row5(j);
    case 6 => Row6(j);
    case 7 => Row7(j);
    case 8 => Row8(j);
    case 9 => Row9(j);
    case 10 => RowA(j);
    case 11 => RowB(j);
    case 12 => RowC(j);
    case 13 => RowD(j);
    case 14 => RowE(j);
    case _ => RowF(j);
  }

  lemma {:induction false} LowAndHead(r: nat, j: nat)
    requires r < 16 && j < 16
    ensures ROW0[j] == Shift8(j as bv32) && Row(r)[0] == Shift8(r as bv32 << 4)
  {
    hide Shift8, Row;
    LowEntry(j);
    HeadEntry(r);
  }

  lemma {:induction false} Nibbles(x: bv32)
    requires x < 256
    ensures x == Xor((x >> 4) << 4, x & 15)
  {
  }

  /** Each of the 256 entries is the division of its index by eight more powers. */
  lemma {:induction false} TableIsShift8(x: bv32)
    requires x < 256
    ensures Table(x) == Shift8(x)
  {
    hide Shift8, Row, Xor, High, Low;
    Index(x);
    LowAndHead(High(x), Low(x));
    RowIsHeadXor(High(x), Low(x));
    Nibbles(x);
    Shift8Xor((x >> 4) << 4, x & 15);
  }

  // ---- Messages -----------------------------------------------------------------------------------

  /** One step of crc32_rec and of Crc32Impl. */
  function Update(crc: bv32, b: bv8): bv32 {
    ByteIndex(crc, b);
    Xor(Table(Xor(crc & 0xFF, b as bv32)), crc >> 8)
  }

  lemma {:induction false} ByteIndex(crc: bv32, b: bv8)
    ensures Xor(crc & 0xFF, b as bv32) < 256
  {
  }

  /** Crc32Impl: any characters, also NUL. */
  function Impl(crc: bv32, s: seq<bv8>): bv32
    decreases s
  {
    if s == [] then Xor(crc, ONES) else Impl(Update(crc, s[0]), s[1..])
  }

  /** crc32_rec: the characters up to the first NUL. */
  function Rec(crc: bv32, s: seq<bv8>): bv32
    requires 0 in s
    decreases s
  {
    if s[0] == 0 then Xor(crc, ONES) else Rec(Update(crc, s[0]), s[1..])
  }

  /** The register after one more bit of the message. */
  function Feed(c: bv32, bit: bool): bv32 {
    if Odd(c) != bit then Xor(Half(c), POLYNOMIAL) else Half(c)
  }

  function Divide(c: bv32, bits: seq<bool>): bv32
    decreases bits
  {
    if bits == [] then c else Divide(Feed(c, bits[0]), bits[1..])
  }

  /** The bits of a byte, lowest first. */
  function BitsOf(b: bv8): seq<bool> {
    [Has(b, 1), Has(b, 2), Has(b, 4), Has(b, 8), Has(b, 16), Has(b, 32), Has(b, 64), Has(b, 128)]
  }

  predicate Has(b: bv8, bit: bv8) {
    b & bit == bit
  }

  function Bits(s: seq<bv8>): seq<bool> {
    if s == [] then [] else BitsOf(s[0]) + Bits(s[1..])
  }

  lemma {:induction false} DivideConcat(c: bv32, s: seq<bool>, t: seq<bool>)
    ensures Divide(c, s + t) == Divide(Divide(c, s), t)
    decreases s
  {
    hide Feed;
    if s == [] {
      assert s + t == t;
    } else {
      assert (s + t)[1..] == s[1..] + t;
      DivideConcat(Feed(c, s[0]), s[1..], t);
    }
  }

  /** Feeding the lowest bit of x, and then the rest of x, is shifting the register with x added. */
  lemma {:induction false} FeedLowest(c: bv32, x: bv32)
    ensures Xor(Feed(c, Odd(x)), Half(x)) == Shift(Xor(c, x))
  {
    hide Xor, Odd, Half;
    OddXor(c, x);
    HalfXor(c, x);
    XorRules(Half(c), Half(x), POLYNOMIAL);
  }

  function LowBits(x: bv32, n: nat): seq<bool>
    decreases n
  {
    if n == 0 then [] else [Odd(x)] + LowBits(Half(x), n - 1)
  }

  function HalfBy(x: bv32, n: nat): bv32
    decreases n
  {
    if n == 0 then x else HalfBy(Half(x), n - 1)
  }

  lemma {:induction false} FeedLowBits(c: bv32, x: bv32, n: nat)
    ensures Xor(Divide(c, LowBits(x, n)), HalfBy(x, n)) == ShiftBy(Xor(c, x), n)
    decreases n
  {
    hide Xor, Odd, Half, Shift, Feed;
    if n > 0 {
      var bits := LowBits(x, n);
      assert bits[1..] == LowBits(Half(x), n - 1);
      FeedLowest(c, x);
      FeedLowBits(Feed(c, Odd(x)), Half(x), n - 1);
    }
  }

  lemma {:induction false} EightBits(x: bv32)
    ensures var x2 := Half(Half(x)); var x4 := Half(Half(x2)); var x6 := Half(Half(x4));
            && LowBits(x, 8)
               == [Odd(x), Odd(Half(x)), Odd(x2), Odd(Half(x2)), Odd(x4), Odd(Half(x4)), Odd(x6), Odd(Half(x6))]
            && HalfBy(x, 8) == Half(Half(x6))
  {
    hide Odd, Half, LowBits, HalfBy;
    FourBits(x, 4);
    FourBits(Half(Half(Half(Half(x)))), 0);
    NoBits(Half(Half(Half(Half(Half(Half(Half(Half(x)))))))));
    Eight(Odd(x), Odd(Half(x)), Odd(Half(Half(x))), Odd(Half(Half(Half(x)))),
          Odd(Half(Half(Half(Half(x))))), Odd(Half(Half(Half(Half(Half(x)))))),
          Odd(Half(Half(Half(Half(Half(Half(x))))))), Odd(Half(Half(Half(Half(Half(Half(Half(x)))))))));
  }

  lemma {:induction false} Eight(a: bool, b: bool, c: bool, d: bool, e: bool, f: bool, g: bool, h: bool)
    ensures [a, b, c, d] + ([e, f, g, h] + []) == [a, b, c, d, e, f, g, h]
  {
  }

  lemma {:induction false} FourBits(x: bv32, n: nat)
    ensures LowBits(x, n + 4) == [Odd(x), Odd(Half(x)), Odd(Half(Half(x))), Odd(Half(Half(Half(x))))]
            + LowBits(Half(Half(Half(Half(x)))), n)
    ensures HalfBy(x, n + 4) == HalfBy(Half(Half(Half(Half(x)))), n)
  {
    hide Odd, Half, LowBits, HalfBy;
    TwoBits(x, n + 2);
    TwoBits(Half(Half(x)), n);
    Four(Odd(x), Odd(Half(x)), Odd(Half(Half(x))), Odd(Half(Half(Half(x)))), LowBits(Half(Half(Half(Half(x)))), n));
  }

  lemma {:induction false} Four(a: bool, b: bool, c: bool, d: bool, s: seq<bool>)
    ensures [a, b] + ([c, d] + s) == [a, b, c, d] + s
  {
  }

  lemma {:induction false} TwoBits(x: bv32, n: nat)
    ensures LowBits(x, n + 2) == [Odd(x), Odd(Half(x))] + LowBits(Half(Half(x)), n)
    ensures HalfBy(x, n + 2) == HalfBy(Half(Half(x)), n)
  {
    hide Odd, Half;
    assert LowBits(Half(x), n + 1) == [Odd(Half(x))] + LowBits(Half(Half(x)), n);
  }

  lemma {:induction false} NoBits(x: bv32)
    ensures LowBits(x, 0) == [] && HalfBy(x, 0) == x
  {
  }

  lemma {:induction false} ByteBits(b: bv8)
    ensures LowBits(b as bv32, 8) == BitsOf(b) && HalfBy(b as bv32, 8) == 0
  {
    hide Odd, Half, Has, LowBits, HalfBy;
    EightBits(b as bv32);
    LowNibble(b);
    HighNibble(b);
  }

  lemma {:induction false} LowNibble(b: bv8)
    ensures var x := b as bv32; var x2 := Half(Half(x));
            Odd(x) == Has(b, 1) && Odd(Half(x)) == Has(b, 2) && Odd(x2) == Has(b, 4) && Odd(Half(x2)) == Has(b, 8)
  {
  }

  lemma {:induction false} HighNibble(b: bv8)
    ensures var x := b as bv32; var x4 := Half(Half(Half(Half(x)))); var x6 := Half(Half(x4));
            && Odd(x4) == Has(b, 16) && Odd(Half(x4)) == Has(b, 32) && Odd(x6) == Has(b, 64)
            && Odd(Half(x6)) == Has(b, 128)
            && Half(Half(x6)) == 0
  {
  }

  /** Dividing by the eight bits of a byte. */
  lemma {:induction false} DivideByte(c: bv32, b: bv8)
    ensures Divide(c, BitsOf(b)) == Shift8(Xor(c, b as bv32))
  {
    hide Xor, Shift8, BitsOf, Divide;
    ByteBits(b);
    FeedLowBits(c, b as bv32, 8);
    ShiftByEight(Xor(c, b as bv32));
    XorBasics(Divide(c, BitsOf(b)), 0);
  }

  lemma {:induction false} SplitRegister(crc: bv32, x: bv32)
    ensures Xor(crc & 0xFFFF_FF00, Xor(crc & 0xFF, x)) == Xor(crc, x)
    ensures (crc & 0xFFFF_FF00) & 0xFF == 0 && (crc & 0xFFFF_FF00) >> 8 == crc >> 8
  {
    hide Xor;
    Masks(crc);
    XorAssociates(crc & 0xFFFF_FF00, crc & 0xFF, x);
  }

  lemma {:induction false} Masks(crc: bv32)
    ensures Xor(crc & 0xFFFF_FF00, crc & 0xFF) == crc
    ensures (crc & 0xFFFF_FF00) & 0xFF == 0 && (crc & 0xFFFF_FF00) >> 8 == crc >> 8
  {
  }

  /** A step through the table is a division by eight bits. */
  lemma {:induction false} UpdateDivides(crc: bv32, b: bv8)
    ensures Update(crc, b) == Divide(crc, BitsOf(b))
  {
    hide Xor, Table, Shift8, Divide, BitsOf;
    var low, high := Xor(crc & 0xFF, b as bv32), crc & 0xFFFF_FF00;
    ByteIndex(crc, b);
    SplitRegister(crc, b as bv32);
    DivideByte(crc, b);
    Shift8Xor(high, low);
    Shift8High(high);
    TableIsShift8(low);
    XorBasics(Shift8(high), Shift8(low));
  }

  /** The table-driven CRC of any byte string is its division bit by bit, inverted before and after. */
  lemma {:induction false} TableDriven(crc: bv32, s: seq<bv8>)
    ensures Impl(crc, s) == Xor(Divide(crc, Bits(s)), ONES)
    decreases s
  {
    hide Xor, Update, BitsOf;
    if s != [] {
      UpdateDivides(crc, s[0]);
      DivideConcat(crc, BitsOf(s[0]), Bits(s[1..]));
      TableDriven(Update(crc, s[0]), s[1..]);
    }
  }

  ghost predicate IsFirst(s: seq<bv8>, n: nat) {
    n < |s| && s[n] == 0 && forall i | 0 <= i < n :: s[i] != 0
  }

  /** On a C string, it is the CRC of what comes before the NUL. */
  lemma {:induction false} StringCrc(crc: bv32, s: seq<bv8>, n: nat)
    requires 0 in s && IsFirst(s, n)
    ensures Rec(crc, s) == Impl(crc, s[..n]) == Xor(Divide(crc, Bits(s[..n])), ONES)
    decreases s
  {
    hide Xor, Update;
    if n > 0 {
      var t := s[1..];
      assert t[n - 1] == 0;
      assert s[..n][1..] == t[..n - 1];
      StringCrc(Update(crc, s[0]), t, n - 1);
    }
    TableDriven(crc, s[..n]);
  }

  // ---- The residue ---------------------------------------------------------------------------------

  /** The four bytes of a word, lowest first. */
  function LittleEndian(w: bv32): seq<bv8> {
    [Byte(w), Byte(Rest(w)), Byte(Rest(Rest(w))), Byte(Rest(Rest(Rest(w))))]
  }

  function Rest(w: bv32): bv32 {
    w >> 8
  }

  function Byte(w: bv32): bv8 {
    (w & 0xFF) as bv8
  }

  lemma {:induction false} LowestByte(w: bv32)
    ensures Byte(w) as bv32 == w & 0xFF && Xor(w & 0xFF, w & 0xFFFF_FF00) == w
    ensures (w & 0xFFFF_FF00) & 0xFF == 0 && (w & 0xFFFF_FF00) >> 8 == Rest(w) && Rest(Rest(Rest(Rest(w)))) == 0
  {
  }

  /** Feeding the lowest byte of w, and then the rest of w, is shifting the register with w added. */
  lemma {:induction false} FeedWord(c: bv32, w: bv32)
    ensures Xor(Divide(c, BitsOf(Byte(w))), Rest(w)) == Shift8(Xor(c, w))
  {
    hide Xor, Shift8, Divide, BitsOf, Byte, Rest;
    LowestByte(w);
    DivideByte(c, Byte(w));
    Shift8Xor(Xor(c, w & 0xFF), w & 0xFFFF_FF00);
    Shift8High(w & 0xFFFF_FF00);
    XorAssociates(c, w & 0xFF, w & 0xFFFF_FF00);
  }

  lemma {:induction false} FeedFourBytes(c: bv32, w: bv32)
    ensures Divide(c, Bits(LittleEndian(w))) == Shift8(Shift8(Shift8(Shift8(Xor(c, w)))))
  {
    hide Xor, Shift8, Divide, BitsOf, Byte, Rest;
    var c1 := Divide(c, BitsOf(Byte(w)));
    var c2 := Divide(c1, BitsOf(Byte(Rest(w))));
    var c3 := Divide(c2, BitsOf(Byte(Rest(Rest(w)))));
    var c4 := Divide(c3, BitsOf(Byte(Rest(Rest(Rest(w))))));
    LowestByte(w);
    FeedWord(c, w);
    FeedWord(c1, Rest(w));
    FeedWord(c2, Rest(Rest(w)));
    FeedWord(c3, Rest(Rest(Rest(w))));
    XorBasics(c4, 0);
    FourBytes(Byte(w), Byte(Rest(w)), Byte(Rest(Rest(w))), Byte(Rest(Rest(Rest(w)))), c);
  }

  lemma {:induction false} FourBytes(b0: bv8, b1: bv8, b2: bv8, b3: bv8, c: bv32)
    ensures Divide(c, Bits([b0, b1, b2, b3])) ==
            Divide(Divide(Divide(Divide(c, BitsOf(b0)), BitsOf(b1)), BitsOf(b2)), BitsOf(b3))
  {
    hide Divide, BitsOf;
    var c1 := Divide(c, BitsOf(b0));
    var c2 := Divide(c1, BitsOf(b1));
    assert [b0, b1, b2, b3][1..] == [b1, b2, b3] && [b1, b2, b3][1..] == [b2, b3] && [b2, b3][1..] == [b3]
           && [b3][1..] == [];
    assert Bits([b3]) == BitsOf(b3) + [] == BitsOf(b3);
    DivideConcat(c2, BitsOf(b2), Bits([b3]));
    DivideConcat(c1, BitsOf(b1), Bits([b2, b3]));
    DivideConcat(c, BitsOf(b0), Bits([b1, b2, b3]));
  }

  lemma {:induction false} BitsConcat(s: seq<bv8>, t: seq<bv8>)
    ensures Bits(s + t) == Bits(s) + Bits(t)
  {
    hide BitsOf;
    if s == [] {
      assert s + t == t;
    } else {
      assert (s + t)[1..] == s[1..] + t;
      BitsConcat(s[1..], t);
      assert BitsOf(s[0]) + (Bits(s[1..]) + Bits(t)) == (BitsOf(s[0]) + Bits(s[1..])) + Bits(t);
    }
  }

  lemma {:induction false} ShiftedOnes()
    ensures Xor(Shift8(Shift8(Shift8(Shift8(ONES)))), ONES) == 0x2144_DF1C
  {
    assert Shift8(ONES) == 0x2DFD_1072;
    assert Shift8(0x2DFD_1072) == 0xBE26_ED00;
    assert Shift8(0xBE26_ED00) == 0x00BE_26ED;
    assert Shift8(0x00BE_26ED) == 0xDEBB_20E3;
  }

  /** The CRC of any byte string followed by its CRC is always the same. */
  lemma {:induction false} Residue(s: seq<bv8>)
    ensures Impl(ONES, s + LittleEndian(Impl(ONES, s))) == 0x2144_DF1C
  {
    hide Xor, Shift8, Divide, Impl, LittleEndian;
    var c, w := Divide(ONES, Bits(s)), Impl(ONES, s);
    TableDriven(ONES, s);
    TableDriven(ONES, s + LittleEndian(w));
    BitsConcat(s, LittleEndian(w));
    DivideConcat(ONES, Bits(s), Bits(LittleEndian(w)));
    FeedFourBytes(c, w);
    Cancels(c);
    ShiftedOnes();
  }

  lemma {:induction false} Cancels(c: bv32)
    ensures Xor(c, Xor(c, ONES)) == ONES
  {
  }
}
