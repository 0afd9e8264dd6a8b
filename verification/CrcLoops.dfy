/** The CRC loops as both programs run them, over arrays, proved against `Crc.Update`. */
module CrcLoops {
  import opened Bytes
  import opened Bits
  import opened Crc

  /** The inner loop of both programs: one shift for each of the eight bits of a byte. */
  method ShiftOut(crc: Register, bits: seq<bool>) returns (r: Register)
    requires |bits| == 8
    ensures r == Shifts(crc, |bits|)
  {
    r := crc;
    var k := 0;
    while k < |bits|
      invariant k <= |bits|
      invariant Shifts(crc, |bits|) == Shifts(r, |bits| - k)
    {
      r := if r[0] then Xor(r[1..] + [false], POLYNOMIAL) else r[1..] + [false];
      k := k + 1;
    }
  }

  /** fa_crc_update without a table: fold each byte in and shift eight times. */
  method UpdateBitwise(crc: Register, data: array<byte>, from: nat, length: nat) returns (r: Register)
    requires from + length <= data.Length
    ensures r == Update(crc, data[from..from + length])
  {
    hide Shifts;
    r := crc;
    var i := 0;
    while i < length
      invariant i <= length
      invariant r == Update(crc, data[from..from + i])
    {
      var bits := ByteBits(data[from + i]);
      r := ShiftOut(Xor(r, Pad(bits, 32)), bits);
      assert data[from..from + i + 1][..i] == data[from..from + i];
      i := i + 1;
    }
  }

  /** The contents of a correct 256-entry table. */
  predicate IsCrcTable(t: seq<Register>) {
    |t| == 256 && forall n: byte :: t[n] == TableEntry(ByteBits(n))
  }

  /** The table that the C# session builds when it is loaded. */
  method BuildCrcTable() returns (t: array<Register>)
    ensures fresh(t) && IsCrcTable(t[..])
  {
    hide Shifts;
    t := new Register[256](_ => seq(32, i => false));
    var n := 0;
    while n < 256
      invariant n <= 256
      invariant forall m: byte :: m < n ==> t[m] == TableEntry(ByteBits(m))
    {
      var bits := ByteBits(n);
      var entry := ShiftOut(Pad(bits, 32), bits);
      t[n] := entry;
      n := n + 1;
    }
  }

  /** One table look-up, indexed by the low byte of the folded register. */
  method StepByTable(table: array<Register>, crc: Register, b: byte) returns (r: Register)
    requires IsCrcTable(table[..])
    ensures r == ByteStep(crc, b)
  {
    hide TableEntry, ByteStep;
    var low := Xor(crc[..8], ByteBits(b));
    ByteValueRoundTrip(low);
    var entry := table[ByteValue(low)];
    assert entry == table[..][ByteValue(low)];
    r := Xor(entry, Pad(crc[8..], 32));
    TableStepIsByteStep(crc, b);
  }

  /** fa_crc_update with a table. */
  method UpdateByTable(table: array<Register>, crc: Register, data: array<byte>, from: nat, length: nat)
    returns (r: Register)
    requires IsCrcTable(table[..]) && from + length <= data.Length
    ensures r == Update(crc, data[from..from + length])
  {
    hide IsCrcTable, ByteStep;
    r := crc;
    var i := 0;
    while i < length
      invariant i <= length
      invariant r == Update(crc, data[from..from + i])
    {
      r := StepByTable(table, r, data[from + i]);
      assert data[from..from + i + 1][..i] == data[from..from + i];
      i := i + 1;
    }
  }
}
