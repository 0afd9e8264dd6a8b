/** Bytes on the wire and the little-endian fields of a frame header. */
module Bytes {
  /** The C type uint8_t. */
  type byte = x: int | 0 <= x < 256

  const UINT32_LIMIT := 0x1_0000_0000

  datatype Option<+T> = None | Some(value: T) {
    function GetOr(default: T): T {
      if Some? then value else default
    }
  }

  /** `n` copies of one byte. */
  function Fill(n: nat, b: byte): (r: seq<byte>)
    ensures |r| == n && forall i :: 0 <= i < n ==> r[i] == b
  {
    seq(n, i => b)
  }

  /** The four bytes that fa_wr_u32 stores, low byte first. */
  function Le32(v: nat): (r: seq<byte>)
    requires v < UINT32_LIMIT
    ensures |r| == 4
  {
    [v % 256, v / 0x100 % 256, v / 0x1_0000 % 256, v / 0x100_0000]
  }

  /** The value that fa_rd_u32 loads. */
  function FromLe32(s: seq<byte>): (v: nat)
    requires |s| == 4
    ensures v < UINT32_LIMIT
  {
    s[0] as nat + 0x100 * s[1] as nat + 0x1_0000 * s[2] as nat + 0x100_0000 * s[3] as nat
  }

  /** Loading what was stored gives the value back. */
  lemma Le32RoundTrip(v: nat)
    requires v < UINT32_LIMIT
    ensures FromLe32(Le32(v)) == v
  {
    assert v / 0x100 / 0x100 == v / 0x1_0000;
    assert v / 0x1_0000 / 0x100 == v / 0x100_0000;
  }

  /** Storing what was loaded gives the same four bytes back. */
  lemma FromLe32RoundTrip(s: seq<byte>)
    requires |s| == 4
    ensures Le32(FromLe32(s)) == s
  {
    var v, q1, q2 := FromLe32(s), FromLe32(s[1..] + [0]), FromLe32(s[2..] + [0, 0]);
    LowByte(q1, s[0]);
    LowByte(q2, s[1]);
    LowByte(s[3] as nat, s[2]);
    assert v == 256 * q1 + s[0] as nat && q1 == 256 * q2 + s[1] as nat && q2 == 256 * s[3] as nat + s[2] as nat;
    assert v / 0x1_0000 == v / 0x100 / 0x100 && v / 0x100_0000 == v / 0x1_0000 / 0x100;
  }

  lemma LowByte(q: nat, b: byte)
    ensures (256 * q + b as nat) / 256 == q && (256 * q + b as nat) % 256 == b as nat
  {}
}
