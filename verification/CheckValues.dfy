/** The inversions of the CRC, its standard check value, and whole frames byte by byte. */
module CheckValues {
  import opened Bytes
  import opened Bits
  import opened Crc
  import opened CrcTable
  import opened Frames

  // ---- The initial and final inversion ----------------------------------------

  function Complement(bits: seq<bool>): (r: seq<bool>)
    ensures |r| == |bits|
  {
    seq(|bits|, i requires 0 <= i < |bits| => !bits[i])
  }

  lemma {:induction false} BitsOfComplement(n: nat, k: nat, i: nat)
    requires n < Power2(k) && i < k
    ensures BitOf(Power2(k) - 1 - n, i) == !BitOf(n, i)
  {
    if i > 0 {
      BitsOfComplement(n / 2, k - 1, i - 1);
      assert (Power2(k) - 1 - n) / 2 == Power2(k - 1) - 1 - n / 2;
    }
  }

  lemma PowerOfThirtyTwo(k: nat)
    requires k == 32
    ensures Power2(k) == 0x1_0000_0000
  {
    assert Power2(0) == 1;
    hide Power2;
    PowerOfFourMore(0);
    PowerOfFourMore(4);
    PowerOfFourMore(8);
    PowerOfFourMore(12);
    PowerOfFourMore(16);
    PowerOfFourMore(20);
    PowerOfFourMore(24);
    PowerOfFourMore(28);
  }

  lemma PowerOfFourMore(k: nat)
    ensures Power2(k + 4) == 16 * Power2(k)
  {
    assert Power2(k + 4) == 2 * Power2(k + 3) == 4 * Power2(k + 2) == 8 * Power2(k + 1);
  }

  lemma InitialIsAllOnes()
    ensures INITIAL == Complement(ZEROS)
  {
    PowerOfThirtyTwo(32);
    forall i | 0 <= i < 32 ensures INITIAL[i] {
      BitsOfComplement(0, 32, i);
      ZeroHasNoBit(i);
    }
  }

  function Flipped(s: seq<byte>): (r: seq<byte>)
    ensures |r| == |s|
  {
    seq(|s|, i requires 0 <= i < |s| => 255 - s[i])
  }

  lemma FlippedByte(b: byte)
    ensures ByteBits(255 - b) == Complement(ByteBits(b))
  {
    assert Power2(8) == 256;
    forall i | 0 <= i < 8 ensures ByteBits(255 - b)[i] == !ByteBits(b)[i] {
      BitsOfComplement(b, 8, i);
    }
  }

  lemma {:induction false} FlippedBits(s: seq<byte>)
    ensures StringBits(Flipped(s)) == Complement(StringBits(s))
  {
    hide ByteBits;
    if s != [] {
      FlippedByte(s[0]);
      assert Flipped(s)[1..] == Flipped(s[1..]);
      FlippedBits(s[1..]);
    }
  }

  /**
   The frame check sequence of section 3.2.9 of IEEE 802.3: the first 32 bits of the message are
   complemented, the remainder is taken from a register of zeros, and the result is complemented.
   */
  lemma FrameCheckSequence(message: seq<byte>)
    requires |message| >= 4
    ensures FrameCrc(message)
            == Complement(Update(seq(32, i => false), Flipped(message[..4]) + message[4..]))
  {
    hide ByteBits, Update, Shifts, StringBits;
    var first, rest := message[..4], message[4..];
    assert message == first + rest;
    UpdateOfSum(INITIAL, first, rest);
    UpdateOfSum(ZEROS, Flipped(first), rest);
    UpdateIsPushAll(INITIAL, first);
    UpdateIsPushAll(ZEROS, Flipped(first));
    PushAllIsXorThenShift(INITIAL, StringBits(first));
    PushAllIsXorThenShift(ZEROS, StringBits(Flipped(first)));
    FlippedBits(first);
    InitialIsAllOnes();
    assert Xor(INITIAL, Pad(StringBits(first), 32)) == Xor(ZEROS, Pad(StringBits(Flipped(first)), 32));
    var c := Update(INITIAL, message);
    assert Xor(c, INITIAL) == Complement(c);
  }

  // ---- Check values, by the table ---------------------------------------------

  /** The word and the number have the same low eight bits. */
  predicate SameByte(x: bv32, n: nat) {
    SameNibble(x, n) && SameNibble(x >> 4, n / 16)
  }

  lemma ByteAsWord(b: byte, x: bv32)
    requires SameByte(x, b)
    ensures ByteBits(b) == WordBits(x, 8)
  {
    assert WordBits((x >> 4) >> 4, 0) == ToBits(b / 16 / 16, 0);
    hide SameNibble;
    NibbleByNibble(x >> 4, b / 16, 0);
    NibbleByNibble(x, b, 4);
  }

  lemma {:induction false} WordBitsInTwo(x: bv32, j: nat, k: nat)
    ensures WordBits(x, j + k) == WordBits(x, j) + WordBits(HalfWords(x, j), k)
    decreases j
  {
    hide HalfWord, Odd;
    if j > 0 {
      WordBitsInTwo(HalfWord(x), j - 1, k);
    }
  }

  lemma LowByteOfWord(x: bv32, n: nat)
    requires n == 32
    ensures WordBits(x, n)[..8] == WordBits(x, 8)
    ensures Pad(WordBits(x, n)[8..], 32) == WordBits(x >> 8, n)
  {
    hide WordBits, HalfWords;
    WordBitsInTwo(x, 8, n - 8);
    EightHalves(x, 0);
    NoHalves(x >> 8);
    WordBitsInTwo(x >> 8, n - 8, 8);
    EightHalves(x, n - 8);
    NothingAfterThirtyTwo(x, n);
    WordBitsOfZero(8);
  }

  lemma NoHalves(x: bv32)
    ensures HalfWords(x, 0) == x
  {}

  /** `word` is the byte, `n` the index and `y` the next register. */
  predicate LooksUp(x: bv32, b: byte, word: bv32, n: byte, y: bv32) {
    SameByte(word, b) && SameByte(XorWord(x, word), n) && y == XorWord(Entry(n), x >> 8)
  }

  /** One byte of a message, by one look-up. */
  lemma CheckStep(c: Register, x: bv32, b: byte, word: bv32, n: byte, y: bv32, k: nat)
    requires k == 32 && c == WordBits(x, k) && LooksUp(x, b, word, n, y)
    ensures ByteStep(c, b) == WordBits(y, k)
  {
    hide WordBits, ByteBits, Entry, XorWord, SameByte, ByteStep, TableEntry, Xor;
    TableStepIsByteStep(c, b);
    ByteAsWord(b, word);
    ByteAsWord(n, XorWord(x, word));
    LowByteOfWord(x, k);
    WordBitsOfXor(x, word, 8);
    EntryMatches(n, k);
    WordBitsOfXor(Entry(n), x >> 8, k);
  }

  lemma UpdateByOne(c: Register, s: seq<byte>, b: byte)
    ensures Update(c, s + [b]) == ByteStep(Update(c, s), b)
  {
    assert (s + [b])[..|s|] == s;
    hide ByteStep;
  }

  lemma LowOnes(k: nat)
    requires k == 32
    ensures WordBits(0xFFFF, k - 16) == ToBits(0xFFFF, k - 16)
  {
    NibbleByNibble(0xF, 0xF, k - 32);
    NibbleByNibble(0xFF, 0xFF, k - 28);
    NibbleByNibble(0xFFF, 0xFFF, k - 24);
    NibbleByNibble(0xFFFF, 0xFFFF, k - 20);
  }

  lemma AllOnes(k: nat)
    requires k == 32
    ensures WordBits(0xFFFF_FFFF, k) == INITIAL
  {
    LowOnes(k);
    NibbleByNibble(0xF_FFFF, 0xF_FFFF, k - 16);
    NibbleByNibble(0xFF_FFFF, 0xFF_FFFF, k - 12);
    NibbleByNibble(0xFFF_FFFF, 0xFFF_FFFF, k - 8);
    NibbleByNibble(0xFFFF_FFFF, 0xFFFF_FFFF, k - 4);
  }

  /** The last inversion, and the four bytes as they are stored. */
  lemma EndOfCheck(s: seq<byte>, x: bv32, z: bv32, bytes: seq<byte>, k: nat)
    requires k == 32 && At(s, |s|, x, k) && z == XorWord(x, 0xFFFF_FFFF)
    requires |bytes| == 4 && IsStoredAs(z, bytes)
    ensures StoreWord(FrameCrc(s)) == bytes
  {
    hide WordBits, XorWord, SameByte, Update, ByteBits, StoreWord, ByteStep;
    AllOnes(k);
    assert s[..|s|] == s;
    WordBitsOfXor(x, 0xFFFF_FFFF, k);
    assert FrameCrc(s) == WordBits(z, k);
    StoredWord(z, bytes, k);
  }

  predicate IsStoredAs(z: bv32, bytes: seq<byte>)
    requires |bytes| == 4
  {
    && SameByte(z, bytes[0]) && SameByte(HighBytes(z), bytes[1])
    && SameByte(HighBytes(HighBytes(z)), bytes[2]) && SameByte(HighBytes(HighBytes(HighBytes(z))), bytes[3])
  }

  lemma StoredWord(z: bv32, bytes: seq<byte>, k: nat)
    requires k == 32 && |bytes| == 4 && IsStoredAs(z, bytes)
    ensures StoreWord(WordBits(z, k)) == bytes
  {
    hide WordBits, SameByte, ByteBits, ByteValue, HighBytes;
    ByteAsWord(bytes[0], z);
    ByteAsWord(bytes[1], HighBytes(z));
    ByteAsWord(bytes[2], HighBytes(HighBytes(z)));
    ByteAsWord(bytes[3], HighBytes(HighBytes(HighBytes(z))));
    WordOfFourBytes(z, k);
    FourParts(ByteBits(bytes[0]), ByteBits(bytes[1]), ByteBits(bytes[2]), ByteBits(bytes[3]));
    ByteBitsRoundTrip(bytes[0]);
    ByteBitsRoundTrip(bytes[1]);
    ByteBitsRoundTrip(bytes[2]);
    ByteBitsRoundTrip(bytes[3]);
  }

  lemma FourParts(a: seq<bool>, b: seq<bool>, c: seq<bool>, d: seq<bool>)
    requires |a| == |b| == |c| == |d| == 8
    ensures var w := a + (b + (c + d));
      w[0..8] == a && w[8..16] == b && w[16..24] == c && w[24..32] == d
  {}

  /** The word without its low byte. */
  function HighBytes(z: bv32): bv32 { z >> 8 }

  lemma WordOfFourBytes(z: bv32, k: nat)
    requires k == 32
    ensures var a := HighBytes(z);
      var b := HighBytes(a);
      WordBits(z, k) == WordBits(z, 8) + (WordBits(a, 8) + (WordBits(b, 8) + WordBits(HighBytes(b), 8)))
  {
    hide WordBits, HighBytes;
    FirstByte(z, k - 8);
    FirstByte(HighBytes(z), k - 16);
    FirstByte(HighBytes(HighBytes(z)), k - 24);
  }

  lemma FirstByte(z: bv32, k: nat)
    ensures WordBits(z, 8 + k) == WordBits(z, 8) + WordBits(HighBytes(z), k)
  {
    hide WordBits, HalfWords;
    WordBitsInTwo(z, 8, k);
    EightHalves(z, 0);
    NoHalves(z >> 8);
  }

  /** The register after the first `i` bytes, as a machine word. */
  ghost predicate At(s: seq<byte>, i: nat, x: bv32, k: nat)
    requires i <= |s|
  {
    Update(INITIAL, s[..i]) == WordBits(x, k)
  }

  lemma AtTheStart(s: seq<byte>, k: nat)
    requires k == 32
    ensures At(s, 0, 0xFFFF_FFFF, k)
  {
    hide WordBits;
    AllOnes(k);
    assert s[..0] == [];
  }

  lemma Checked(s: seq<byte>, i: nat, x: bv32, b: byte, word: bv32, n: byte, y: bv32, k: nat)
    requires k == 32 && i < |s| && s[i] == b && At(s, i, x, k) && LooksUp(x, b, word, n, y)
    ensures At(s, i + 1, y, k)
  {
    hide WordBits, Update, LooksUp;
    assert s[..i + 1] == s[..i] + [b];
    UpdateByOne(INITIAL, s[..i], b);
    CheckStep(Update(INITIAL, s[..i]), x, b, word, n, y, k);
  }

  lemma StandardCheckValueSteps0()
    ensures LooksUp(0xFFFF_FFFF, 0x31, 0x31, 0xCE, 0x7C23_1048)
    ensures LooksUp(0x7C23_1048, 0x32, 0x32, 0x7A, 0xB0AC_BB32)
  {}

  lemma StandardCheckValueSteps2()
    ensures LooksUp(0xB0AC_BB32, 0x33, 0x33, 0x01, 0x77B7_9C2D)
  {}

  lemma StandardCheckValueSteps3()
    ensures LooksUp(0x77B7_9C2D, 0x34, 0x34, 0x19, 0x641C_1F5C)
    ensures LooksUp(0x641C_1F5C, 0x35, 0x35, 0x69, 0x340A_C5E3)
  {}

  lemma StandardCheckValueSteps5()
    ensures LooksUp(0x340A_C5E3, 0x36, 0x36, 0xD5, 0xF68D_2C9E)
  {}

  lemma StandardCheckValueSteps6()
    ensures LooksUp(0xF68D_2C9E, 0x37, 0x37, 0xA9, 0xAFFC_9660)
    ensures LooksUp(0xAFFC_9660, 0x38, 0x38, 0x58, 0x651F_2550)
  {}

  lemma StandardCheckValueSteps8()
    ensures LooksUp(0x651F_2550, 0x39, 0x39, 0x69, 0x340B_C6D9)
  {}

  lemma StandardCheckValueEnd()
    ensures XorWord(0x340B_C6D9, 0xFFFF_FFFF) == 0xCBF4_3926 && IsStoredAs(0xCBF4_3926, [0x26, 0x39, 0xF4, 0xCB])
  {}

  const DIGITS: seq<byte> := [0x31, 0x32, 0x33, 0x34, 0x35, 0x36, 0x37, 0x38, 0x39]

  lemma ThreeDigits(k: nat)
    requires k == 32
    ensures At(DIGITS, 3, 0x77B7_9C2D, k)
  {
    hide LooksUp, At;
    AtTheStart(DIGITS, k);
    StandardCheckValueSteps0();
    StandardCheckValueSteps2();
    Checked(DIGITS, 0, 0xFFFF_FFFF, 0x31, 0x31, 0xCE, 0x7C23_1048, k);
    Checked(DIGITS, 1, 0x7C23_1048, 0x32, 0x32, 0x7A, 0xB0AC_BB32, k);
    Checked(DIGITS, 2, 0xB0AC_BB32, 0x33, 0x33, 0x01, 0x77B7_9C2D, k);
  }

  lemma SixDigits(k: nat)
    requires k == 32
    ensures At(DIGITS, 6, 0xF68D_2C9E, k)
  {
    hide LooksUp, At;
    ThreeDigits(k);
    StandardCheckValueSteps3();
    StandardCheckValueSteps5();
    Checked(DIGITS, 3, 0x77B7_9C2D, 0x34, 0x34, 0x19, 0x641C_1F5C, k);
    Checked(DIGITS, 4, 0x641C_1F5C, 0x35, 0x35, 0x69, 0x340A_C5E3, k);
    Checked(DIGITS, 5, 0x340A_C5E3, 0x36, 0x36, 0xD5, 0xF68D_2C9E, k);
  }

  lemma StandardCheckValueInSteps(k: nat)
    requires k == 32
    ensures StoreWord(FrameCrc([0x31, 0x32, 0x33, 0x34, 0x35, 0x36, 0x37, 0x38, 0x39])) == [0x26, 0x39, 0xF4, 0xCB]
  {
    hide LooksUp, IsStoredAs, At, XorWord, FrameCrc, StoreWord;
    SixDigits(k);
    StandardCheckValueSteps6();
    StandardCheckValueSteps8();
    StandardCheckValueEnd();
    Checked(DIGITS, 6, 0xF68D_2C9E, 0x37, 0x37, 0xA9, 0xAFFC_9660, k);
    Checked(DIGITS, 7, 0xAFFC_9660, 0x38, 0x38, 0x58, 0x651F_2550, k);
    Checked(DIGITS, 8, 0x651F_2550, 0x39, 0x39, 0x69, 0x340B_C6D9, k);
    EndOfCheck(DIGITS, 0x340B_C6D9, 0xCBF4_3926, [0x26, 0x39, 0xF4, 0xCB], k);
  }

  /** The check value of CRC-32: the digits 1 to 9 give 0xCBF43926, stored low byte first. */
  lemma StandardCheckValue()
    ensures StoreWord(FrameCrc([0x31, 0x32, 0x33, 0x34, 0x35, 0x36, 0x37, 0x38, 0x39])) == [0x26, 0x39, 0xF4, 0xCB]
  {
    hide FrameCrc, StoreWord;
    StandardCheckValueInSteps(32);
  }

  lemma EmptyDataFrameCheckSteps0()
    ensures LooksUp(0xFFFF_FFFF, 0x00, 0x00, 0xFF, 0x2DFD_1072)
    ensures LooksUp(0x2DFD_1072, 0x00, 0x00, 0x72, 0xBE26_ED00)
  {}

  lemma EmptyDataFrameCheckSteps2()
    ensures LooksUp(0xBE26_ED00, 0x00, 0x00, 0x00, 0x00BE_26ED)
  {}

  lemma EmptyDataFrameCheckSteps3()
    ensures LooksUp(0x00BE_26ED, 0x00, 0x00, 0xED, 0xDEBB_20E3)
    ensures LooksUp(0xDEBB_20E3, 0x00, 0x00, 0xE3, 0x39DD_08E2)
  {}

  lemma EmptyDataFrameCheckEnd()
    ensures XorWord(0x39DD_08E2, 0xFFFF_FFFF) == 0xC622_F71D && IsStoredAs(0xC622_F71D, [0x1D, 0xF7, 0x22, 0xC6])
  {}

  lemma EmptyDataFrameCheckInSteps(k: nat)
    requires k == 32
    ensures StoreWord(FrameCrc([0, 0, 0, 0, 0])) == [0x1D, 0xF7, 0x22, 0xC6]
  {
    hide LooksUp, IsStoredAs, At, XorWord, FrameCrc, StoreWord;
    var s: seq<byte> := [0, 0, 0, 0, 0];
    AtTheStart(s, k);
    EmptyDataFrameCheckSteps0();
    EmptyDataFrameCheckSteps2();
    EmptyDataFrameCheckSteps3();
    EmptyDataFrameCheckEnd();
    Checked(s, 0, 0xFFFF_FFFF, 0x00, 0x00, 0xFF, 0x2DFD_1072, k);
    Checked(s, 1, 0x2DFD_1072, 0x00, 0x00, 0x72, 0xBE26_ED00, k);
    Checked(s, 2, 0xBE26_ED00, 0x00, 0x00, 0x00, 0x00BE_26ED, k);
    Checked(s, 3, 0x00BE_26ED, 0x00, 0x00, 0xED, 0xDEBB_20E3, k);
    Checked(s, 4, 0xDEBB_20E3, 0x00, 0x00, 0xE3, 0x39DD_08E2, k);
    EndOfCheck(s, 0x39DD_08E2, 0xC622_F71D, [0x1D, 0xF7, 0x22, 0xC6], k);
  }

  /** The covered bytes of an empty data frame with number 0 give 0xC622F71D. */
  lemma EmptyDataFrameCheck()
    ensures StoreWord(FrameCrc([0, 0, 0, 0, 0])) == [0x1D, 0xF7, 0x22, 0xC6]
  {
    hide FrameCrc, StoreWord;
    EmptyDataFrameCheckInSteps(32);
  }

  lemma OneByteFrameCheckSteps0()
    ensures LooksUp(0xFFFF_FFFF, 0x05, 0x05, 0xFA, 0x5D97_E4FD)
    ensures LooksUp(0x5D97_E4FD, 0x01, 0x01, 0xFC, 0xB456_29D3)
  {}

  lemma OneByteFrameCheckSteps2()
    ensures LooksUp(0xB456_29D3, 0x00, 0x00, 0xD3, 0x1F6E_D547)
  {}

  lemma OneByteFrameCheckSteps3()
    ensures LooksUp(0x1F6E_D547, 0x00, 0x00, 0x47, 0xE8A7_BAE6)
    ensures LooksUp(0xE8A7_BAE6, 0x00, 0x00, 0xE6, 0x4981_E0F7)
  {}

  lemma OneByteFrameCheckSteps5()
    ensures LooksUp(0x4981_E0F7, 0x41, 0x41, 0xB6, 0x224B_9759)
  {}

  lemma OneByteFrameCheckEnd()
    ensures XorWord(0x224B_9759, 0xFFFF_FFFF) == 0xDDB4_68A6 && IsStoredAs(0xDDB4_68A6, [0xA6, 0x68, 0xB4, 0xDD])
  {}

  lemma OneByteFrameCheckInSteps(k: nat)
    requires k == 32
    ensures StoreWord(FrameCrc([5, 1, 0, 0, 0, 0x41])) == [0xA6, 0x68, 0xB4, 0xDD]
  {
    hide LooksUp, IsStoredAs, At, XorWord, FrameCrc, StoreWord;
    var s: seq<byte> := [5, 1, 0, 0, 0, 0x41];
    AtTheStart(s, k);
    OneByteFrameCheckSteps0();
    OneByteFrameCheckSteps2();
    OneByteFrameCheckSteps3();
    OneByteFrameCheckSteps5();
    OneByteFrameCheckEnd();
    Checked(s, 0, 0xFFFF_FFFF, 0x05, 0x05, 0xFA, 0x5D97_E4FD, k);
    Checked(s, 1, 0x5D97_E4FD, 0x01, 0x01, 0xFC, 0xB456_29D3, k);
    Checked(s, 2, 0xB456_29D3, 0x00, 0x00, 0xD3, 0x1F6E_D547, k);
    Checked(s, 3, 0x1F6E_D547, 0x00, 0x00, 0x47, 0xE8A7_BAE6, k);
    Checked(s, 4, 0xE8A7_BAE6, 0x00, 0x00, 0xE6, 0x4981_E0F7, k);
    Checked(s, 5, 0x4981_E0F7, 0x41, 0x41, 0xB6, 0x224B_9759, k);
    EndOfCheck(s, 0x224B_9759, 0xDDB4_68A6, [0xA6, 0x68, 0xB4, 0xDD], k);
  }

  /** Those of the data frame with number 5 and the one byte 0x41 give 0xDDB468A6. */
  lemma OneByteFrameCheck()
    ensures StoreWord(FrameCrc([5, 1, 0, 0, 0, 0x41])) == [0xA6, 0x68, 0xB4, 0xDD]
  {
    hide FrameCrc, StoreWord;
    OneByteFrameCheckInSteps(32);
  }

  lemma FirstAckCheckSteps0()
    ensures LooksUp(0xFFFF_FFFF, 0x40, 0x40, 0xBF, 0x5B21_51E2)
    ensures LooksUp(0x5B21_51E2, 0x00, 0x00, 0xE2, 0x4E5F_A205)
  {}

  lemma FirstAckCheckSteps2()
    ensures LooksUp(0x4E5F_A205, 0x00, 0x00, 0x05, 0x7024_AB2D)
  {}

  lemma FirstAckCheckSteps3()
    ensures LooksUp(0x7024_AB2D, 0x00, 0x00, 0x2D, 0x45AF_78DE)
    ensures LooksUp(0x45AF_78DE, 0x00, 0x00, 0xDE, 0x612E_50AB)
  {}

  lemma FirstAckCheckEnd()
    ensures XorWord(0x612E_50AB, 0xFFFF_FFFF) == 0x9ED1_AF54 && IsStoredAs(0x9ED1_AF54, [0x54, 0xAF, 0xD1, 0x9E])
  {}

  lemma FirstAckCheckInSteps(k: nat)
    requires k == 32
    ensures StoreWord(FrameCrc([64, 0, 0, 0, 0])) == [0x54, 0xAF, 0xD1, 0x9E]
  {
    hide LooksUp, IsStoredAs, At, XorWord, FrameCrc, StoreWord;
    var s: seq<byte> := [64, 0, 0, 0, 0];
    AtTheStart(s, k);
    FirstAckCheckSteps0();
    FirstAckCheckSteps2();
    FirstAckCheckSteps3();
    FirstAckCheckEnd();
    Checked(s, 0, 0xFFFF_FFFF, 0x40, 0x40, 0xBF, 0x5B21_51E2, k);
    Checked(s, 1, 0x5B21_51E2, 0x00, 0x00, 0xE2, 0x4E5F_A205, k);
    Checked(s, 2, 0x4E5F_A205, 0x00, 0x00, 0x05, 0x7024_AB2D, k);
    Checked(s, 3, 0x7024_AB2D, 0x00, 0x00, 0x2D, 0x45AF_78DE, k);
    Checked(s, 4, 0x45AF_78DE, 0x00, 0x00, 0xDE, 0x612E_50AB, k);
    EndOfCheck(s, 0x612E_50AB, 0x9ED1_AF54, [0x54, 0xAF, 0xD1, 0x9E], k);
  }

  /** Those of the ACK for number 0 give 0x9ED1AF54. */
  lemma FirstAckCheck()
    ensures StoreWord(FrameCrc([64, 0, 0, 0, 0])) == [0x54, 0xAF, 0xD1, 0x9E]
  {
    hide FrameCrc, StoreWord;
    FirstAckCheckInSteps(32);
  }

  lemma FirstNackCheckSteps0()
    ensures LooksUp(0xFFFF_FFFF, 0x80, 0x80, 0x7F, 0xC045_9352)
    ensures LooksUp(0xC045_9352, 0x00, 0x00, 0x52, 0x85A5_754B)
  {}

  lemma FirstNackCheckSteps2()
    ensures LooksUp(0x85A5_754B, 0x00, 0x00, 0x4B, 0xE18B_3D6D)
  {}

  lemma FirstNackCheckSteps3()
    ensures LooksUp(0xE18B_3D6D, 0x00, 0x00, 0x6D, 0x33E2_96D8)
    ensures LooksUp(0x33E2_96D8, 0x00, 0x00, 0xD8, 0x883B_B870)
  {}

  lemma FirstNackCheckEnd()
    ensures XorWord(0x883B_B870, 0xFFFF_FFFF) == 0x77C4_478F && IsStoredAs(0x77C4_478F, [0x8F, 0x47, 0xC4, 0x77])
  {}

  lemma FirstNackCheckInSteps(k: nat)
    requires k == 32
    ensures StoreWord(FrameCrc([128, 0, 0, 0, 0])) == [0x8F, 0x47, 0xC4, 0x77]
  {
    hide LooksUp, IsStoredAs, At, XorWord, FrameCrc, StoreWord;
    var s: seq<byte> := [128, 0, 0, 0, 0];
    AtTheStart(s, k);
    FirstNackCheckSteps0();
    FirstNackCheckSteps2();
    FirstNackCheckSteps3();
    FirstNackCheckEnd();
    Checked(s, 0, 0xFFFF_FFFF, 0x80, 0x80, 0x7F, 0xC045_9352, k);
    Checked(s, 1, 0xC045_9352, 0x00, 0x00, 0x52, 0x85A5_754B, k);
    Checked(s, 2, 0x85A5_754B, 0x00, 0x00, 0x4B, 0xE18B_3D6D, k);
    Checked(s, 3, 0xE18B_3D6D, 0x00, 0x00, 0x6D, 0x33E2_96D8, k);
    Checked(s, 4, 0x33E2_96D8, 0x00, 0x00, 0xD8, 0x883B_B870, k);
    EndOfCheck(s, 0x883B_B870, 0x77C4_478F, [0x8F, 0x47, 0xC4, 0x77], k);
  }

  /** Those of the NACK for number 0 give 0x77C4478F. */
  lemma FirstNackCheck()
    ensures StoreWord(FrameCrc([128, 0, 0, 0, 0])) == [0x8F, 0x47, 0xC4, 0x77]
  {
    hide FrameCrc, StoreWord;
    FirstNackCheckInSteps(32);
  }

  // ---- Frames byte by byte ----------------------------------------------------

  /** A length goes out low byte first. */
  lemma LengthExample()
    ensures Le32(0x0403_0201) == [1, 2, 3, 4]
  {}

  lemma EmptyFrameBytes(max: nat, marker: byte, seqByte: byte, crc: seq<byte>)
    requires StoreWord(FrameCrc([seqByte, 0, 0, 0, 0])) == crc
    ensures Crc32Format(max).Encode(marker, seqByte, []) == Eight(marker) + [seqByte, 0, 0, 0, 0] + crc
  {
    hide FrameCrc, StoreWord;
    assert Le32(0) == [0, 0, 0, 0];
    hide Le32;
    assert Covered(seqByte, []) == [seqByte, 0, 0, 0, 0];
    assert Fill(8, marker) == Eight(marker);
  }

  function Eight(b: byte): seq<byte> {
    [b, b, b, b, b, b, b, b]
  }

  /** The empty data frame with command 1 and number 0, as it is on the line. */
  lemma DataFrameExample(max: nat)
    requires max < UINT32_LIMIT
    ensures Crc32Format(max).FrameBytes(Data(0, Message(1, [])))
            == [129, 129, 129, 129, 129, 129, 129, 129] + [0, 0, 0, 0, 0] + [0x1D, 0xF7, 0x22, 0xC6]
  {
    EmptyDataFrameCheck();
    hide FrameCrc, StoreWord;
    hide Le32, Covered, Fill;
    EmptyFrameBytes(max, 129, 0, [0x1D, 0xF7, 0x22, 0xC6]);
    hide Format.Encode;
  }

  lemma OneByteFrameBytes(crc: seq<byte>)
    requires StoreWord(FrameCrc([5, 1, 0, 0, 0, 0x41])) == crc
    ensures Crc32Format(1).Encode(255, 5, [0x41]) == Eight(255) + [5, 1, 0, 0, 0] + crc + [0x41]
  {
    hide FrameCrc, StoreWord;
    assert Le32(1) == [1, 0, 0, 0];
    hide Le32;
    assert Covered(5, [0x41]) == [5, 1, 0, 0, 0, 0x41];
    assert Fill(8, 255) == Eight(255);
  }

  /** A data frame with command 127, number 5 and one byte: the payload follows the checksum. */
  lemma PayloadFrameExample()
    ensures Crc32Format(1).FrameBytes(Data(5, Message(127, [0x41])))
            == [255, 255, 255, 255, 255, 255, 255, 255] + [5, 1, 0, 0, 0] + [0xA6, 0x68, 0xB4, 0xDD] + [0x41]
  {
    OneByteFrameCheck();
    hide FrameCrc, StoreWord;
    hide Le32, Covered, Fill;
    OneByteFrameBytes([0xA6, 0x68, 0xB4, 0xDD]);
    hide Format.Encode;
  }

  /** The ACK for number 0. */
  lemma AckFrameExample(max: nat)
    requires max < UINT32_LIMIT
    ensures Crc32Format(max).FrameBytes(Ack(0))
            == [128, 128, 128, 128, 128, 128, 128, 128] + [64, 0, 0, 0, 0] + [0x54, 0xAF, 0xD1, 0x9E]
  {
    FirstAckCheck();
    hide FrameCrc, StoreWord;
    EmptyFrameBytes(max, 128, 64, [0x54, 0xAF, 0xD1, 0x9E]);
    hide Format.Encode;
  }

  /** The NACK for number 0. */
  lemma NackFrameExample(max: nat)
    requires max < UINT32_LIMIT
    ensures Crc32Format(max).FrameBytes(Nack(0))
            == [128, 128, 128, 128, 128, 128, 128, 128] + [128, 0, 0, 0, 0] + [0x8F, 0x47, 0xC4, 0x77]
  {
    FirstNackCheck();
    hide FrameCrc, StoreWord;
    EmptyFrameBytes(max, 128, 128, [0x8F, 0x47, 0xC4, 0x77]);
    hide Format.Encode;
  }
}
