/** The 256-entry table of frame_arq.c, written out, is the one that BuildCrcTable computes. */
module CrcTable {
  import opened Bytes
  import opened Bits
  import opened Crc
  import opened CrcLoops

  // ---- The literal, in the rows of eight of the source ------------------------

  function Rows0(k: nat): (r: seq<bv32>)
    requires k < 8
    ensures |r| == 8
  {
    match k
    case 0 => [0x0000_0000, 0x7707_3096, 0xEE0E_612C, 0x9909_51BA, 0x076D_C419, 0x706A_F48F, 0xE963_A535, 0x9E64_95A3]
    case 1 => [0x0EDB_8832, 0x79DC_B8A4, 0xE0D5_E91E, 0x97D2_D988, 0x09B6_4C2B, 0x7EB1_7CBD, 0xE7B8_2D07, 0x90BF_1D91]
    case 2 => [0x1DB7_1064, 0x6AB0_20F2, 0xF3B9_7148, 0x84BE_41DE, 0x1ADA_D47D, 0x6DDD_E4EB, 0xF4D4_B551, 0x83D3_85C7]
    case 3 => [0x136C_9856, 0x646B_A8C0, 0xFD62_F97A, 0x8A65_C9EC, 0x1401_5C4F, 0x6306_6CD9, 0xFA0F_3D63, 0x8D08_0DF5]
    case 4 => [0x3B6E_20C8, 0x4C69_105E, 0xD560_41E4, 0xA267_7172, 0x3C03_E4D1, 0x4B04_D447, 0xD20D_85FD, 0xA50A_B56B]
    case 5 => [0x35B5_A8FA, 0x42B2_986C, 0xDBBB_C9D6, 0xACBC_F940, 0x32D8_6CE3, 0x45DF_5C75, 0xDCD6_0DCF, 0xABD1_3D59]
    case 6 => [0x26D9_30AC, 0x51DE_003A, 0xC8D7_5180, 0xBFD0_6116, 0x21B4_F4B5, 0x56B3_C423, 0xCFBA_9599, 0xB8BD_A50F]
    case _ => [0x2802_B89E, 0x5F05_8808, 0xC60C_D9B2, 0xB10B_E924, 0x2F6F_7C87, 0x5868_4C11, 0xC161_1DAB, 0xB666_2D3D]
  }

  function Rows8(k: nat): (r: seq<bv32>)
    requires k < 8
    ensures |r| == 8
  {
    match k
    case 0 => [0x76DC_4190, 0x01DB_7106, 0x98D2_20BC, 0xEFD5_102A, 0x71B1_8589, 0x06B6_B51F, 0x9FBF_E4A5, 0xE8B8_D433]
    case 1 => [0x7807_C9A2, 0x0F00_F934, 0x9609_A88E, 0xE10E_9818, 0x7F6A_0DBB, 0x086D_3D2D, 0x9164_6C97, 0xE663_5C01]
    case 2 => [0x6B6B_51F4, 0x1C6C_6162, 0x8565_30D8, 0xF262_004E, 0x6C06_95ED, 0x1B01_A57B, 0x8208_F4C1, 0xF50F_C457]
    case 3 => [0x65B0_D9C6, 0x12B7_E950, 0x8BBE_B8EA, 0xFCB9_887C, 0x62DD_1DDF, 0x15DA_2D49, 0x8CD3_7CF3, 0xFBD4_4C65]
    case 4 => [0x4DB2_6158, 0x3AB5_51CE, 0xA3BC_0074, 0xD4BB_30E2, 0x4ADF_A541, 0x3DD8_95D7, 0xA4D1_C46D, 0xD3D6_F4FB]
    case 5 => [0x4369_E96A, 0x346E_D9FC, 0xAD67_8846, 0xDA60_B8D0, 0x4404_2D73, 0x3303_1DE5, 0xAA0A_4C5F, 0xDD0D_7CC9]
    case 6 => [0x5005_713C, 0x2702_41AA, 0xBE0B_1010, 0xC90C_2086, 0x5768_B525, 0x206F_85B3, 0xB966_D409, 0xCE61_E49F]
    case _ => [0x5EDE_F90E, 0x29D9_C998, 0xB0D0_9822, 0xC7D7_A8B4, 0x59B3_3D17, 0x2EB4_0D81, 0xB7BD_5C3B, 0xC0BA_6CAD]
  }

  function Rows16(k: nat): (r: seq<bv32>)
    requires k < 8
    ensures |r| == 8
  {
    match k
    case 0 => [0xEDB8_8320, 0x9ABF_B3B6, 0x03B6_E20C, 0x74B1_D29A, 0xEAD5_4739, 0x9DD2_77AF, 0x04DB_2615, 0x73DC_1683]
    case 1 => [0xE363_0B12, 0x9464_3B84, 0x0D6D_6A3E, 0x7A6A_5AA8, 0xE40E_CF0B, 0x9309_FF9D, 0x0A00_AE27, 0x7D07_9EB1]
    case 2 => [0xF00F_9344, 0x8708_A3D2, 0x1E01_F268, 0x6906_C2FE, 0xF762_575D, 0x8065_67CB, 0x196C_3671, 0x6E6B_06E7]
    case 3 => [0xFED4_1B76, 0x89D3_2BE0, 0x10DA_7A5A, 0x67DD_4ACC, 0xF9B9_DF6F, 0x8EBE_EFF9, 0x17B7_BE43, 0x60B0_8ED5]
    case 4 => [0xD6D6_A3E8, 0xA1D1_937E, 0x38D8_C2C4, 0x4FDF_F252, 0xD1BB_67F1, 0xA6BC_5767, 0x3FB5_06DD, 0x48B2_364B]
    case 5 => [0xD80D_2BDA, 0xAF0A_1B4C, 0x3603_4AF6, 0x4104_7A60, 0xDF60_EFC3, 0xA867_DF55, 0x316E_8EEF, 0x4669_BE79]
    case 6 => [0xCB61_B38C, 0xBC66_831A, 0x256F_D2A0, 0x5268_E236, 0xCC0C_7795, 0xBB0B_4703, 0x2202_16B9, 0x5505_262F]
    case _ => [0xC5BA_3BBE, 0xB2BD_0B28, 0x2BB4_5A92, 0x5CB3_6A04, 0xC2D7_FFA7, 0xB5D0_CF31, 0x2CD9_9E8B, 0x5BDE_AE1D]
  }

  function Rows24(k: nat): (r: seq<bv32>)
    requires k < 8
    ensures |r| == 8
  {
    match k
    case 0 => [0x9B64_C2B0, 0xEC63_F226, 0x756A_A39C, 0x026D_930A, 0x9C09_06A9, 0xEB0E_363F, 0x7207_6785, 0x0500_5713]
    case 1 => [0x95BF_4A82, 0xE2B8_7A14, 0x7BB1_2BAE, 0x0CB6_1B38, 0x92D2_8E9B, 0xE5D5_BE0D, 0x7CDC_EFB7, 0x0BDB_DF21]
    case 2 => [0x86D3_D2D4, 0xF1D4_E242, 0x68DD_B3F8, 0x1FDA_836E, 0x81BE_16CD, 0xF6B9_265B, 0x6FB0_77E1, 0x18B7_4777]
    case 3 => [0x8808_5AE6, 0xFF0F_6A70, 0x6606_3BCA, 0x1101_0B5C, 0x8F65_9EFF, 0xF862_AE69, 0x616B_FFD3, 0x166C_CF45]
    case 4 => [0xA00A_E278, 0xD70D_D2EE, 0x4E04_8354, 0x3903_B3C2, 0xA767_2661, 0xD060_16F7, 0x4969_474D, 0x3E6E_77DB]
    case 5 => [0xAED1_6A4A, 0xD9D6_5ADC, 0x40DF_0B66, 0x37D8_3BF0, 0xA9BC_AE53, 0xDEBB_9EC5, 0x47B2_CF7F, 0x30B5_FFE9]
    case 6 => [0xBDBD_F21C, 0xCABA_C28A, 0x53B3_9330, 0x24B4_A3A6, 0xBAD0_3605, 0xCDD7_0693, 0x54DE_5729, 0x23D9_67BF]
    case _ => [0xB366_7A2E, 0xC461_4AB8, 0x5D68_1B02, 0x2A6F_2B94, 0xB40B_BE37, 0xC30C_8EA1, 0x5A05_DF1B, 0x2D02_EF8D]
  }

  function TableRow(k: nat): (r: seq<bv32>)
    requires k < 32
    ensures |r| == 8
  {
    if k < 8 then Rows0(k)
    else if k < 16 then Rows8(k - 8)
    else if k < 24 then Rows16(k - 16)
    else Rows24(k - 24)
  }

  function Entry(n: nat): bv32
    requires n < 256
  {
    TableRow(n / 8)[n % 8]
  }

  // ---- It satisfies the relations of a CRC table ------------------------------

  const FIRST: bv32 := 0x7707_3096

  function XorWord(x: bv32, y: bv32): bv32 { x ^ y }

  function HalfWord(x: bv32): bv32 { x >> 1 }

  predicate Odd(x: bv32) { x & 1 == 1 }

  /** One shift of a machine word. */
  function ShiftWord(x: bv32): bv32 {
    if Odd(x) then XorWord(HalfWord(x), 0xEDB8_8320) else HalfWord(x)
  }

  /** In a row, each odd entry differs from its neighbour by entry 1. */
  predicate PairsDiffer(row: seq<bv32>)
    requires |row| == 8
  {
    && row[1] == XorWord(row[0], FIRST) && row[3] == XorWord(row[2], FIRST)
    && row[5] == XorWord(row[4], FIRST) && row[7] == XorWord(row[6], FIRST)
  }

  /** A row is the even entries of the two rows with twice its numbers, shifted once. */
  predicate IsShifted(row: seq<bv32>, low: seq<bv32>, high: seq<bv32>)
    requires |row| == |low| == |high| == 8
  {
    && row[0] == ShiftWord(low[0]) && row[1] == ShiftWord(low[2]) && row[2] == ShiftWord(low[4])
         && row[3] == ShiftWord(low[6])
    && row[4] == ShiftWord(high[0]) && row[5] == ShiftWord(high[2]) && row[6] == ShiftWord(high[4])
         && row[7] == ShiftWord(high[6])
  }

  lemma PairsOf0()
    ensures forall k: nat :: k < 8 ==> PairsDiffer(Rows0(k))
  {
    assert PairsDiffer(Rows0(0)) && PairsDiffer(Rows0(1)) && PairsDiffer(Rows0(2)) && PairsDiffer(Rows0(3));
    assert PairsDiffer(Rows0(4)) && PairsDiffer(Rows0(5)) && PairsDiffer(Rows0(6)) && PairsDiffer(Rows0(7));
  }

  lemma PairsOf8()
    ensures forall k: nat :: k < 8 ==> PairsDiffer(Rows8(k))
  {
    assert PairsDiffer(Rows8(0)) && PairsDiffer(Rows8(1)) && PairsDiffer(Rows8(2)) && PairsDiffer(Rows8(3));
    assert PairsDiffer(Rows8(4)) && PairsDiffer(Rows8(5)) && PairsDiffer(Rows8(6)) && PairsDiffer(Rows8(7));
  }

  lemma PairsOf16()
    ensures forall k: nat :: k < 8 ==> PairsDiffer(Rows16(k))
  {
    assert PairsDiffer(Rows16(0)) && PairsDiffer(Rows16(1)) && PairsDiffer(Rows16(2)) && PairsDiffer(Rows16(3));
    assert PairsDiffer(Rows16(4)) && PairsDiffer(Rows16(5)) && PairsDiffer(Rows16(6)) && PairsDiffer(Rows16(7));
  }

  lemma PairsOf24()
    ensures forall k: nat :: k < 8 ==> PairsDiffer(Rows24(k))
  {
    assert PairsDiffer(Rows24(0)) && PairsDiffer(Rows24(1)) && PairsDiffer(Rows24(2)) && PairsDiffer(Rows24(3));
    assert PairsDiffer(Rows24(4)) && PairsDiffer(Rows24(5)) && PairsDiffer(Rows24(6)) && PairsDiffer(Rows24(7));
  }

  lemma ShiftedOf0()
    ensures IsShifted(Rows0(0), Rows0(0), Rows0(1))
    ensures IsShifted(Rows0(1), Rows0(2), Rows0(3))
  {}

  lemma ShiftedOf2()
    ensures IsShifted(Rows0(2), Rows0(4), Rows0(5))
    ensures IsShifted(Rows0(3), Rows0(6), Rows0(7))
  {}

  lemma ShiftedOf4()
    ensures IsShifted(Rows0(4), Rows8(0), Rows8(1))
    ensures IsShifted(Rows0(5), Rows8(2), Rows8(3))
  {}

  lemma ShiftedOf6()
    ensures IsShifted(Rows0(6), Rows8(4), Rows8(5))
    ensures IsShifted(Rows0(7), Rows8(6), Rows8(7))
  {}

  lemma ShiftedOf8()
    ensures IsShifted(Rows8(0), Rows16(0), Rows16(1))
    ensures IsShifted(Rows8(1), Rows16(2), Rows16(3))
  {}

  lemma ShiftedOf10()
    ensures IsShifted(Rows8(2), Rows16(4), Rows16(5))
    ensures IsShifted(Rows8(3), Rows16(6), Rows16(7))
  {}

  lemma ShiftedOf12()
    ensures IsShifted(Rows8(4), Rows24(0), Rows24(1))
    ensures IsShifted(Rows8(5), Rows24(2), Rows24(3))
  {}

  lemma ShiftedOf14()
    ensures IsShifted(Rows8(6), Rows24(4), Rows24(5))
    ensures IsShifted(Rows8(7), Rows24(6), Rows24(7))
  {}

  lemma RowPairsDiffer(k: nat)
    requires k < 32
    ensures PairsDiffer(TableRow(k))
  {
    PairsOf0();
    PairsOf8();
    PairsOf16();
    PairsOf24();
    hide Rows0, Rows8, Rows16, Rows24, PairsDiffer;
  }

  lemma RowIsShifted(k: nat)
    requires k < 16
    ensures IsShifted(TableRow(k), TableRow(2 * k), TableRow(2 * k + 1))
  {
    hide Rows0, Rows8, Rows16, Rows24, IsShifted;
    if k < 2 {
      ShiftedOf0();
    } else if k < 4 {
      ShiftedOf2();
    } else if k < 6 {
      ShiftedOf4();
    } else if k < 8 {
      ShiftedOf6();
    } else if k < 10 {
      ShiftedOf8();
    } else if k < 12 {
      ShiftedOf10();
    } else if k < 14 {
      ShiftedOf12();
    } else if k < 16 {
      ShiftedOf14();
    }
  }

  lemma OddEntry(m: nat)
    requires m < 128
    ensures Entry(2 * m + 1) == XorWord(Entry(2 * m), FIRST)
  {
    var k, j := m / 4, m % 4;
    RowPairsDiffer(k);
    PairAt(TableRow(k), j);
    hide PairsDiffer, TableRow, XorWord;
    assert m == 4 * k + j;
    EntryAt(2 * m, k, 2 * j);
    EntryAt(2 * m + 1, k, 2 * j + 1);
  }

  lemma EntryAt(n: nat, k: nat, j: nat)
    requires n == 8 * k + j && j < 8 && n < 256
    ensures k < 32 && Entry(n) == TableRow(k)[j]
  {
    hide TableRow;
    assert n / 8 == k && n % 8 == j;
  }

  lemma PairAt(row: seq<bv32>, j: nat)
    requires |row| == 8 && PairsDiffer(row) && j < 4
    ensures row[2 * j + 1] == XorWord(row[2 * j], FIRST)
  {
    hide XorWord;
  }

  lemma HalvedEntry(m: nat)
    requires m < 128
    ensures Entry(m) == ShiftWord(Entry(2 * m))
  {
    hide TableRow, ShiftWord, Entry;
    var k, j := m / 8, m % 8;
    HalvedAt(k, j);
    EntryAt(m, k, j);
    if j < 4 {
      EntryAt(2 * m, 2 * k, 2 * j);
    } else {
      EntryAt(2 * m, 2 * k + 1, 2 * j - 8);
    }
  }

  lemma HalvedAt(k: nat, j: nat)
    requires k < 16 && j < 8
    ensures TableRow(k)[j] == ShiftWord(if j < 4 then TableRow(2 * k)[2 * j] else TableRow(2 * k + 1)[2 * j - 8])
  {
    RowIsShifted(k);
    hide IsShifted, TableRow, ShiftWord;
    ShiftedAt(TableRow(k), TableRow(2 * k), TableRow(2 * k + 1), j);
  }

  lemma ShiftedAt(row: seq<bv32>, low: seq<bv32>, high: seq<bv32>, j: nat)
    requires |row| == |low| == |high| == 8 && IsShifted(row, low, high) && j < 8
    ensures row[j] == ShiftWord(if j < 4 then low[2 * j] else high[2 * j - 8])
  {
    hide ShiftWord;
  }

  // ---- Machine words and registers --------------------------------------------

  /** The low `k` bits of a machine word, low bit first. */
  function WordBits(x: bv32, k: nat): (r: seq<bool>)
    ensures |r| == k
  {
    if k == 0 then [] else [Odd(x)] + WordBits(HalfWord(x), k - 1)
  }

  lemma XorOfHalves(x: bv32, y: bv32)
    ensures HalfWord(XorWord(x, y)) == XorWord(HalfWord(x), HalfWord(y))
  {}

  lemma XorOfOdds(x: bv32, y: bv32)
    ensures Odd(XorWord(x, y)) <==> Odd(x) != Odd(y)
  {}

  lemma {:induction false} WordBitsOfXor(x: bv32, y: bv32, k: nat)
    ensures WordBits(XorWord(x, y), k) == Xor(WordBits(x, k), WordBits(y, k))
    decreases k
  {
    hide XorWord, HalfWord, Odd;
    if k > 0 {
      XorOfHalves(x, y);
      XorOfOdds(x, y);
      WordBitsOfXor(HalfWord(x), HalfWord(y), k - 1);
    }
  }

  function HalfWords(x: bv32, k: nat): bv32 {
    if k == 0 then x else HalfWords(HalfWord(x), k - 1)
  }

  lemma {:induction false} LastBit(x: bv32, k: nat)
    ensures WordBits(x, k + 1) == WordBits(x, k) + [Odd(HalfWords(x, k))]
    decreases k
  {
    hide HalfWord, Odd;
    if k > 0 {
      LastBit(HalfWord(x), k - 1);
    }
  }

  lemma EightHalves(x: bv32, k: nat)
    ensures HalfWords(x, k + 8) == HalfWords(x >> 8, k)
  {
    var a, b, c, d := HalfWord(x), HalfWord(HalfWord(x)), HalfWord(HalfWord(HalfWord(x))),
        HalfWord(HalfWord(HalfWord(HalfWord(x))));
    assert HalfWords(x, k + 8) == HalfWords(a, k + 7) == HalfWords(b, k + 6) == HalfWords(c, k + 5)
           == HalfWords(d, k + 4);
    var e, f, g := HalfWord(d), HalfWord(HalfWord(d)), HalfWord(HalfWord(HalfWord(d)));
    assert HalfWords(d, k + 4) == HalfWords(e, k + 3) == HalfWords(f, k + 2) == HalfWords(g, k + 1)
           == HalfWords(HalfWord(g), k);
    assert HalfWord(g) == x >> 8;
  }

  lemma NothingAfterThirtyTwo(x: bv32, n: nat)
    requires n == 32
    ensures HalfWords(x, n) == 0
  {
    var a := x >> 8;
    var b := a >> 8;
    var c := b >> 8;
    assert c >> 8 == 0;
    hide HalfWord;
    EightHalves(x, n - 8);
    EightHalves(a, n - 16);
    EightHalves(b, n - 24);
    EightHalves(c, n - 32);
  }

  /** A word shifted once has a zero at the top. */
  lemma HalfAsBits(x: bv32, n: nat)
    requires n == 32
    ensures WordBits(HalfWord(x), n) == WordBits(x, n)[1..] + [false]
  {
    NothingAfterThirtyTwo(x, n);
    LastBit(HalfWord(x), n - 1);
    assert HalfWords(HalfWord(x), n - 1) == HalfWords(x, n);
    assert !Odd(0);
    hide HalfWord, Odd;
    assert WordBits(x, n)[1..] == WordBits(HalfWord(x), n - 1);
  }

  /** The same literal as a machine word and as a number, four bits at a time. */
  predicate SameNibble(x: bv32, n: nat) {
    && (Odd(x) <==> n % 2 == 1) && (Odd(HalfWord(x)) <==> n / 2 % 2 == 1)
    && (Odd(HalfWord(HalfWord(x))) <==> n / 4 % 2 == 1) && (Odd(HalfWord(HalfWord(HalfWord(x)))) <==> n / 8 % 2 == 1)
  }

  lemma NibbleByNibble(x: bv32, n: nat, k: nat)
    requires SameNibble(x, n) && WordBits(x >> 4, k) == ToBits(n / 16, k)
    ensures WordBits(x, k + 4) == ToBits(n, k + 4)
  {
    var x1, x2, x3 := HalfWord(x), HalfWord(HalfWord(x)), HalfWord(HalfWord(HalfWord(x)));
    assert HalfWord(x3) == x >> 4;
    hide HalfWord, Odd;
    assert WordBits(x, k + 4) == [Odd(x)] + WordBits(x1, k + 3);
    assert WordBits(x1, k + 3) == [Odd(x1)] + WordBits(x2, k + 2);
    assert WordBits(x2, k + 2) == [Odd(x2)] + WordBits(x3, k + 1);
    assert WordBits(x3, k + 1) == [Odd(x3)] + WordBits(x >> 4, k);
    BitsStep(n, k + 3);
    BitsStep(n / 2, k + 2);
    BitsStep(n / 4, k + 1);
    BitsStep(n / 8, k);
    assert n / 2 / 2 == n / 4 && n / 4 / 2 == n / 8 && n / 8 / 2 == n / 16;
  }

  lemma BitsStep(n: nat, k: nat)
    ensures ToBits(n, k + 1) == [n % 2 == 1] + ToBits(n / 2, k)
  {}

  lemma PolynomialAsWord(n: nat)
    requires n == 32
    ensures WordBits(0xEDB8_8320, n) == POLYNOMIAL
  {
    NibbleByNibble(0xE, 0xE, n - 32);
    NibbleByNibble(0xED, 0xED, n - 28);
    NibbleByNibble(0xEDB, 0xEDB, n - 24);
    NibbleByNibble(0xEDB8, 0xEDB8, n - 20);
    NibbleByNibble(0xE_DB88, 0xE_DB88, n - 16);
    NibbleByNibble(0xED_B883, 0xED_B883, n - 12);
    NibbleByNibble(0xEDB_8832, 0xEDB_8832, n - 8);
    NibbleByNibble(0xEDB8_8320, 0xEDB8_8320, n - 4);
  }

  lemma ShiftWordAsBits(x: bv32, n: nat)
    requires n == 32
    ensures WordBits(ShiftWord(x), n) == Shift(WordBits(x, n))
  {
    PolynomialAsWord(n);
    HalfAsBits(x, n);
    WordBitsOfXor(HalfWord(x), 0xEDB8_8320, n);
    hide HalfWord, Odd, XorWord;
    assert WordBits(x, n)[0] == Odd(x);
  }

  // ---- The entries that BuildCrcTable computes obey the same relations --------

  lemma {:induction false} ShiftsThenOne(c: Register, n: nat)
    ensures Shift(Shifts(c, n)) == Shifts(Shift(c), n)
    decreases n
  {
    hide Shift;
    if n > 0 {
      ShiftsThenOne(Shift(c), n - 1);
    }
  }

  lemma {:induction false} ShiftsAreLinear(a: Register, b: Register, n: nat)
    ensures Shifts(Xor(a, b), n) == Xor(Shifts(a, n), Shifts(b, n))
    decreases n
  {
    hide Shift, Xor;
    if n > 0 {
      ShiftIsLinear(a, b);
      ShiftsAreLinear(Shift(a), Shift(b), n - 1);
    }
  }

  lemma TopBitOfSmall(m: nat)
    requires m < 128
    ensures !BitOf(m, 7)
  {
    NoBitAbove(m, 7);
    assert Power2(7) == 128;
  }

  lemma {:induction false} NoBitAbove(m: nat, k: nat)
    requires m < Power2(k)
    ensures !BitOf(m, k)
  {
    if k > 0 {
      NoBitAbove(m / 2, k - 1);
    }
  }

  lemma BitsOfDouble(m: nat)
    requires m < 128
    ensures Pad(ByteBits(2 * m), 32) == [false] + Pad(ByteBits(m), 32)[..31]
    ensures Pad(ByteBits(2 * m + 1), 32) == [true] + Pad(ByteBits(m), 32)[..31]
    ensures !Pad(ByteBits(m), 32)[31]
  {
    BitsStep(2 * m, 7);
    BitsStep(2 * m + 1, 7);
    TopBitOfSmall(m);
    hide BitOf;
    assert ByteBits(m) == ByteBits(m)[..7] + [false];
    assert ByteBits(2 * m) == [false] + ByteBits(m)[..7];
    assert ByteBits(2 * m + 1) == [true] + ByteBits(m)[..7];
  }

  /** Entry `m` is entry `2 m` shifted once more. */
  lemma HalvedTableEntry(m: nat)
    requires m < 128
    ensures TableEntry(ByteBits(m)) == Shift(TableEntry(ByteBits(2 * m)))
  {
    BitsOfDouble(m);
    var c, d := Pad(ByteBits(m), 32), Pad(ByteBits(2 * m), 32);
    assert Shift(d) == c by {
      assert d[1..] + [false] == c;
    }
    ShiftsThenOne(d, |ByteBits(m)|);
    hide Shift, Shifts;
  }

  /** An odd entry differs from its neighbour by entry 1. */
  lemma OddTableEntry(m: nat)
    requires m < 128
    ensures TableEntry(ByteBits(2 * m + 1)) == Xor(TableEntry(ByteBits(2 * m)), TableEntry(ByteBits(1)))
  {
    BitsOfDouble(m);
    BitsOfDouble(0);
    NoBits(8);
    var c, d, one := Pad(ByteBits(2 * m + 1), 32), Pad(ByteBits(2 * m), 32), Pad(ByteBits(1), 32);
    assert c == Xor(d, one);
    ShiftsAreLinear(d, one, |ByteBits(m)|);
    hide Shifts;
  }

  lemma {:induction false} NoBits(k: nat)
    ensures ToBits(0, k) == seq(k, i => false)
  {
    forall i | 0 <= i < k ensures !BitOf(0, i) {
      ZeroHasNoBit(i);
    }
  }

  lemma {:induction false} ZeroHasNoBit(i: nat)
    ensures !BitOf(0, i)
  {
    if i > 0 {
      ZeroHasNoBit(i - 1);
    }
  }

  const ZEROS: Register := seq(32, i => false)

  lemma {:induction false} ShiftsOfZeros(n: nat)
    ensures Shifts(ZEROS, n) == ZEROS
    decreases n
  {
    assert Shift(ZEROS) == ZEROS;
    hide Shift;
    if n > 0 {
      ShiftsOfZeros(n - 1);
    }
  }

  lemma {:induction false} WordBitsOfZero(n: nat)
    ensures WordBits(0, n) == seq(n, i => false)
  {
    assert !Odd(0) && HalfWord(0) == 0;
    hide Odd, HalfWord;
    if n > 0 {
      WordBitsOfZero(n - 1);
    }
  }

  // ---- So they are the same table ---------------------------------------------

  /** Entry `k` of the literal is what BuildCrcTable computes. */
  predicate Matches(k: nat, n: nat)
    requires k < 256
  {
    n == 32 && WordBits(Entry(k), n) == TableEntry(ByteBits(k))
  }

  lemma EntryZeroMatches(n: nat)
    requires n == 32
    ensures Matches(0, n)
  {
    NoBits(8);
    assert Pad(ByteBits(0), 32) == ZEROS;
    ShiftsOfZeros(|ByteBits(0)|);
    WordBitsOfZero(n);
    assert Entry(0) == 0;
    hide Shifts, WordBits;
  }

  lemma MatchHalves(m: nat, n: nat)
    requires m < 128 && n == 32
    ensures Matches(2 * m, n) <==> Matches(m, n)
  {
    HalvedEntry(m);
    HalvedTableEntry(m);
    ShiftWordAsBits(Entry(2 * m), n);
    hide Entry, TableEntry, ByteBits, ShiftWord, WordBits;
    if Matches(m, n) {
      ShiftIsInjective(WordBits(Entry(2 * m), n), TableEntry(ByteBits(2 * m)));
    }
  }

  lemma MatchNeighbour(m: nat, n: nat)
    requires m < 128 && n == 32 && Matches(2 * m, n) && Matches(1, n)
    ensures Matches(2 * m + 1, n)
  {
    hide Entry, TableEntry, ByteBits, WordBits, XorWord, Xor;
    FirstEntry();
    OddEntry(m);
    OddTableEntry(m);
    WordBitsOfXor(Entry(2 * m), FIRST, n);
  }

  lemma FirstEntry()
    ensures Entry(1) == FIRST
  {}

  /** Entry 128 is the polynomial itself. */
  lemma HighEntryMatches(n: nat)
    requires n == 32
    ensures Matches(128, n)
  {
    PolynomialAsWord(n);
    assert Entry(128) == 0xEDB8_8320;
    BitsOfDouble(64);
    hide Entry, WordBits;
    HighTableEntry();
  }

  lemma EntryOneMatches(n: nat)
    requires n == 32
    ensures Matches(1, n)
  {
    HighEntryMatches(n);
    hide Matches;
    MatchHalves(64, n);
    MatchHalves(32, n);
    MatchHalves(16, n);
    MatchHalves(8, n);
    MatchHalves(4, n);
    MatchHalves(2, n);
    MatchHalves(1, n);
  }

  lemma {:induction false} EntryMatches(k: nat, n: nat)
    requires k < 256 && n == 32
    ensures Matches(k, n)
    decreases k
  {
    hide Matches;
    if k == 0 {
      EntryZeroMatches(n);
    } else if k == 1 {
      EntryOneMatches(n);
    } else if k % 2 == 0 {
      EntryMatches(k / 2, n);
      MatchHalves(k / 2, n);
    } else {
      EntryMatches(k - 1, n);
      EntryOneMatches(n);
      MatchNeighbour(k / 2, n);
    }
  }

  /** The literal as registers. */
  function LiteralTable(): (t: seq<Register>)
    ensures |t| == 256
  {
    seq(256, k requires 0 <= k < 256 => WordBits(Entry(k), 32))
  }

  /** The literal table of the C engine equals the one that the C# session builds. */
  lemma LiteralTableIsCrcTable()
    ensures IsCrcTable(LiteralTable())
  {
    forall k: byte ensures LiteralTable()[k] == TableEntry(ByteBits(k)) {
      EntryMatches(k, 32);
      hide WordBits, Entry, TableEntry, ByteBits;
    }
  }

  lemma HighTableEntry()
    ensures TableEntry(ByteBits(128)) == POLYNOMIAL
  {
    var low := seq(7, i => false);
    BitsOfPower(7);
    assert ByteBits(128) == low + [true] by {
      assert Power2(7) == 128;
    }
    var bits := Pad(low + [true], 32);
    assert Xor(ZEROS, bits) == bits;
    ShiftsCarry(ZEROS, 7, [true]);
    ShiftsOfZeros(7);
    assert Xor(ZEROS, Pad([true], 32)) == Pad([true], 32);
    assert Shift(Pad([true], 32)) == POLYNOMIAL by {
      assert Pad([true], 32)[1..] + [false] == ZEROS;
      assert Xor(ZEROS, POLYNOMIAL) == POLYNOMIAL;
    }
    ShiftsThenOne(bits, 7);
    hide Shift;
    assert Shifts(bits, 7 + 1) == Shifts(Shift(bits), 7);
  }

  lemma {:induction false} BitsOfPower(k: nat)
    ensures ToBits(Power2(k), k + 1) == seq(k, i => false) + [true]
  {
    BitsStep(Power2(k), k);
    NoBits(k);
    hide ToBits;
    if k > 0 {
      BitsOfPower(k - 1);
    }
  }
}
