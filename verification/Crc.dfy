/**
 The CRC-32 of a frame. The 32-bit register is kept as its bits, low bit first; `Update` is
 the bit-by-bit definition that the table form is proved against.
 */
module Crc {
  import opened Bytes
  import opened Bits

  type Register = r: seq<bool> | |r| == 32 witness seq(32, i => false)

  /** The reflected generator of section 8 of RFC 1952. */
  const POLYNOMIAL: Register := ToBits(0xEDB8_8320, 32)

  const INITIAL: Register := ToBits(0xFFFF_FFFF, 32)

  lemma TopOfPolynomial()
    ensures POLYNOMIAL[31]
  {
    BitOfHigherNibble(0xEDB8_8320, 31);
    BitOfHigherNibble(0xEDB_8832, 27);
    BitOfHigherNibble(0xED_B883, 23);
    BitOfHigherNibble(0xE_DB88, 19);
    BitOfHigherNibble(0xEDB8, 15);
    BitOfHigherNibble(0xEDB, 11);
    BitOfHigherNibble(0xED, 7);
    assert BitOf(0x7, 2) && BitOf(0xE, 3);
  }

  lemma BitOfHigherNibble(n: nat, i: nat)
    requires i >= 4
    ensures BitOf(n, i) == BitOf(n / 16, i - 4)
  {
    var n1, n2, n3 := n / 2, n / 4, n / 8;
    assert BitOf(n, i) == BitOf(n1, i - 1) == BitOf(n2, i - 2) == BitOf(n3, i - 3);
  }

  // ---- One bit ----------------------------------------------------------------

  /** One shift to the right, folding the polynomial in when the bit that falls out is 1. */
  function Shift(c: Register): Register {
    var right := c[1..] + [false];
    if c[0] then Xor(right, POLYNOMIAL) else right
  }

  function Shifts(c: Register, n: nat): Register
    decreases n
  {
    if n == 0 then c else Shifts(Shift(c), n - 1)
  }

  /** No two register values shift to the same one: the polynomial has its top bit set. */
  lemma ShiftIsInjective(a: Register, b: Register)
    requires Shift(a) == Shift(b)
    ensures a == b
  {
    TopOfPolynomial();
    assert a[0] == Shift(a)[31] == Shift(b)[31] == b[0];
    forall i | 1 <= i < 32 ensures a[i] == b[i] {
      assert Shift(a)[i - 1] == (a[i] != (a[0] && POLYNOMIAL[i - 1]));
      assert Shift(b)[i - 1] == (b[i] != (b[0] && POLYNOMIAL[i - 1]));
    }
  }

  /** Shifting is linear over exclusive or. */
  lemma ShiftIsLinear(a: Register, b: Register)
    ensures Shift(Xor(a, b)) == Xor(Shift(a), Shift(b))
  {
    forall i | 0 <= i < 32 ensures Shift(Xor(a, b))[i] == Xor(Shift(a), Shift(b))[i] {}
  }

  lemma {:induction false} ShiftsAreInjective(a: Register, b: Register, n: nat)
    requires Shifts(a, n) == Shifts(b, n)
    ensures a == b
    decreases n
  {
    if n > 0 {
      ShiftsAreInjective(Shift(a), Shift(b), n - 1);
      ShiftIsInjective(a, b);
    }
  }

  /** One place up; the bit that leaves the top is dropped. */
  function Up(p: Register): Register {
    [false] + p[..31]
  }

  /** A difference above the low bit passes through one shift unchanged, one place lower. */
  lemma ShiftOfUp(x: Register, p: Register)
    requires !p[31]
    ensures Shift(Xor(x, Up(p))) == Xor(Shift(x), p)
  {
    ShiftIsLinear(x, Up(p));
    assert Shift(Up(p)) == p;
  }

  // ---- Strings of bits --------------------------------------------------------

  function Push(c: Register, bit: bool): Register {
    Shift(c[0 := c[0] != bit])
  }

  function PushAll(c: Register, bits: seq<bool>): Register
    decreases |bits|
  {
    if bits == [] then c else PushAll(Push(c, bits[0]), bits[1..])
  }

  lemma {:induction false} PushAllOfSum(c: Register, s: seq<bool>, t: seq<bool>)
    ensures PushAll(c, s + t) == PushAll(PushAll(c, s), t)
    decreases |s|
  {
    if s == [] {
      assert s + t == t;
    } else {
      assert (s + t)[1..] == s[1..] + t;
      PushAllOfSum(Push(c, s[0]), s[1..], t);
    }
  }

  /** Up to 32 bits may be folded in all at once before shifting. */
  lemma {:induction false} PushAllIsXorThenShift(c: Register, bits: seq<bool>)
    requires |bits| <= 32
    ensures PushAll(c, bits) == Shifts(Xor(c, Pad(bits, 32)), |bits|)
    decreases |bits|
  {
    if bits == [] {
      assert Xor(c, Pad(bits, 32)) == c;
    } else {
      var first, p := c[0 := c[0] != bits[0]], Pad(bits[1..], 32);
      assert Xor(c, Pad(bits, 32)) == Xor(first, Up(p));
      ShiftOfUp(first, p);
      PushAllIsXorThenShift(Shift(first), bits[1..]);
    }
  }

  lemma {:induction false} PushAllIsInjective(a: Register, b: Register, bits: seq<bool>)
    requires PushAll(a, bits) == PushAll(b, bits)
    ensures a == b
    decreases |bits|
  {
    if bits != [] {
      PushAllIsInjective(Push(a, bits[0]), Push(b, bits[0]), bits[1..]);
      var a', b' := a[0 := a[0] != bits[0]], b[0 := b[0] != bits[0]];
      ShiftIsInjective(a', b');
      assert forall i :: 1 <= i < 32 ==> a[i] == a'[i] && b[i] == b'[i];
    }
  }

  /** Two different bit strings of the same length up to 32 leave the register different. */
  lemma WindowIsInjective(c: Register, s: seq<bool>, t: seq<bool>)
    requires |s| == |t| <= 32
    requires PushAll(c, s) == PushAll(c, t)
    ensures s == t
  {
    PushAllIsXorThenShift(c, s);
    PushAllIsXorThenShift(c, t);
    var x, y := Pad(s, 32), Pad(t, 32);
    ShiftsAreInjective(Xor(c, x), Xor(c, y), |s|);
    forall i | 0 <= i < |s| ensures s[i] == t[i] {
      assert Xor(c, x)[i] == (c[i] != s[i]);
      assert Xor(c, y)[i] == (c[i] != t[i]);
    }
  }

  // ---- Bytes ------------------------------------------------------------------

  /** The bit-by-bit loop body of fa_crc_update: fold the byte in, shift eight times. */
  function ByteStep(c: Register, b: byte): Register {
    Shifts(Xor(c, Pad(ByteBits(b), 32)), |ByteBits(b)|)
  }

  /** The register after a byte string. */
  function Update(c: Register, data: seq<byte>): Register
    decreases |data|
  {
    if data == [] then c else ByteStep(Update(c, data[..|data| - 1]), data[|data| - 1])
  }

  /** What BuildCrcTable computes for the index whose low byte is `low`. */
  function TableEntry(low: seq<bool>): Register
    requires |low| == 8
  {
    Shifts(Pad(low, 32), |low|)
  }

  /** The loop body of the table-driven fa_crc_update. */
  function TableStep(c: Register, b: byte): Register {
    Xor(TableEntry(Xor(c[..8], ByteBits(b))), Pad(c[8..], 32))
  }

  lemma {:induction false} ShiftsCarry(x: Register, n: nat, high: seq<bool>)
    requires |high| + n <= 32
    ensures Shifts(Xor(x, Pad(seq(n, i => false) + high, 32)), n) == Xor(Shifts(x, n), Pad(high, 32))
    decreases n
  {
    var d := Pad(seq(n, i => false) + high, 32);
    if n == 0 {
      assert d == Pad(high, 32);
    } else {
      var d' := Pad(seq(n - 1, i => false) + high, 32);
      assert d == Up(d');
      ShiftOfUp(x, d');
      ShiftsCarry(Shift(x), n - 1, high);
    }
  }

  /** The table form of the byte step equals the bit-by-bit form, for every register and byte. */
  lemma TableStepIsByteStep(c: Register, b: byte)
    ensures TableStep(c, b) == ByteStep(c, b)
  {
    var x := Pad(Xor(c[..8], ByteBits(b)), 32);
    ShiftsCarry(x, 8, c[8..]);
    assert Xor(x, Pad(seq(8, i => false) + c[8..], 32)) == Xor(c, Pad(ByteBits(b), 32));
  }

  lemma ByteStepIsPushAll(c: Register, b: byte)
    ensures ByteStep(c, b) == PushAll(c, ByteBits(b))
  {
    PushAllIsXorThenShift(c, ByteBits(b));
  }

  lemma {:induction false} UpdateIsPushAll(c: Register, data: seq<byte>)
    ensures Update(c, data) == PushAll(c, StringBits(data))
    decreases |data|
  {
    if data != [] {
      var init, last := data[..|data| - 1], data[|data| - 1];
      UpdateIsPushAll(c, init);
      ByteStepIsPushAll(Update(c, init), last);
      assert data == init + [last];
      StringBitsOfSum(init, [last]);
      assert StringBits([last]) == ByteBits(last);
      PushAllOfSum(c, StringBits(init), ByteBits(last));
    }
  }

  lemma {:induction false} UpdateOfSum(c: Register, s: seq<byte>, t: seq<byte>)
    ensures Update(c, s + t) == Update(Update(c, s), t)
    decreases |t|
  {
    if t == [] {
      assert s + t == s;
    } else {
      assert (s + t)[..|s + t| - 1] == s + t[..|t| - 1];
      UpdateOfSum(c, s, t[..|t| - 1]);
    }
  }

  // ---- Error detection --------------------------------------------------------

  /** `s` and `t` differ, and all their differing bits lie within 32 consecutive ones. */
  ghost predicate Burst(s: seq<byte>, t: seq<byte>) {
    |s| == |t| && s != t &&
    exists lo: nat :: lo <= 8 * |s| && AgreeOutside(StringBits(s), StringBits(t), lo)
  }

  ghost predicate AgreeOutside(s: seq<bool>, t: seq<bool>, lo: nat)
    requires |s| == |t|
  {
    forall i :: 0 <= i < |s| && !(lo <= i < lo + 32) ==> s[i] == t[i]
  }

  /** Every error burst of at most 32 bits changes the CRC, whatever the message and wherever it falls. */
  lemma BurstChangesCrc(c: Register, s: seq<byte>, t: seq<byte>)
    requires Burst(s, t)
    ensures Update(c, s) != Update(c, t)
  {
    var a, b := StringBits(s), StringBits(t);
    var lo: nat :| lo <= 8 * |s| && AgreeOutside(a, b, lo);
    UpdateIsPushAll(c, s);
    UpdateIsPushAll(c, t);
    if Update(c, s) == Update(c, t) {
      var p, u, v, q := CutWindow(a, b, lo);
      WindowDecides(c, p, u, v, q);
      StringBitsAreInjective(s, t);
    }
  }

  lemma CutWindow(a: seq<bool>, b: seq<bool>, lo: nat) returns (p: seq<bool>, u: seq<bool>, v: seq<bool>, q: seq<bool>)
    requires |a| == |b| && lo <= |a| && AgreeOutside(a, b, lo)
    ensures a == p + u + q && b == p + v + q && |u| == |v| <= 32
  {
    var hi := if lo + 32 <= |a| then lo + 32 else |a|;
    p, u, v, q := a[..lo], a[lo..hi], b[lo..hi], a[hi..];
    assert b == p + v + q;
  }

  lemma WindowDecides(c: Register, p: seq<bool>, s: seq<bool>, t: seq<bool>, q: seq<bool>)
    requires |s| == |t| <= 32
    requires PushAll(c, p + s + q) == PushAll(c, p + t + q)
    ensures s == t
  {
    PushAllOfSum(c, p + s, q);
    PushAllOfSum(c, p + t, q);
    PushAllIsInjective(PushAll(c, p + s), PushAll(c, p + t), q);
    PushAllOfSum(c, p, s);
    PushAllOfSum(c, p, t);
    WindowIsInjective(PushAll(c, p), s, t);
  }

  /** The checksum of a frame whose covered bytes are given: initial and final value all ones. */
  function FrameCrc(covered: seq<byte>): Register {
    Xor(Update(INITIAL, covered), INITIAL)
  }

  lemma BurstChangesFrameCrc(s: seq<byte>, t: seq<byte>)
    requires Burst(s, t)
    ensures FrameCrc(s) != FrameCrc(t)
  {
    BurstChangesCrc(INITIAL, s, t);
    var a, b := Update(INITIAL, s), Update(INITIAL, t);
    var i :| 0 <= i < 32 && a[i] != b[i];
    assert Xor(a, INITIAL)[i] != Xor(b, INITIAL)[i];
  }

  /** Four bytes anywhere in the message are such a window. */
  lemma FourBytesAreABurst(prefix: seq<byte>, s: seq<byte>, t: seq<byte>, suffix: seq<byte>)
    requires |s| == |t| <= 4 && s != t
    ensures Burst(prefix + s + suffix, prefix + t + suffix)
  {
    StringBitsOfSum(prefix + s, suffix);
    StringBitsOfSum(prefix + t, suffix);
    StringBitsOfSum(prefix, s);
    StringBitsOfSum(prefix, t);
    assert AgreeOutside(StringBits(prefix + s + suffix), StringBits(prefix + t + suffix), 8 * |prefix|);
    assert (prefix + s + suffix)[|prefix|..|prefix| + |s|] == s;
    assert (prefix + t + suffix)[|prefix|..|prefix| + |t|] == t;
  }
}
