/** Unsigned machine words as their bits, low bit first. */
module Bits {
  import opened Bytes

  /** Bitwise exclusive or. */
  function Xor(a: seq<bool>, b: seq<bool>): (r: seq<bool>)
    requires |a| == |b|
    ensures |r| == |a|
  {
    seq(|a|, i requires 0 <= i < |a| => a[i] != b[i])
  }

  /** The word with the given low bits and zeros above. */
  function Pad(s: seq<bool>, k: nat): (r: seq<bool>)
    requires |s| <= k
    ensures |r| == k
  {
    s + seq(k - |s|, i => false)
  }

  /** Bit `i` of `n`. */
  predicate BitOf(n: nat, i: nat) {
    if i == 0 then n % 2 == 1 else BitOf(n / 2, i - 1)
  }

  /** The low `k` bits of `n`. */
  function ToBits(n: nat, k: nat): (r: seq<bool>)
    ensures |r| == k
  {
    seq(k, i requires 0 <= i => BitOf(n, i))
  }

  function FromBits(s: seq<bool>): nat {
    if s == [] then 0 else (if s[0] then 1 else 0) + 2 * FromBits(s[1..])
  }

  function Power2(k: nat): (p: nat)
    ensures p > 0
  {
    if k == 0 then 1 else 2 * Power2(k - 1)
  }

  lemma {:induction false} ToBitsRoundTrip(n: nat, k: nat, limit: nat)
    requires n < limit && limit == Power2(k)
    ensures FromBits(ToBits(n, k)) == n
  {
    if k > 0 {
      assert ToBits(n, k)[1..] == ToBits(n / 2, k - 1);
      ToBitsRoundTrip(n / 2, k - 1, Power2(k - 1));
    }
  }

  lemma {:induction false} FromBitsRoundTrip(s: seq<bool>, limit: nat)
    requires limit == Power2(|s|)
    ensures FromBits(s) < limit
    ensures ToBits(FromBits(s), |s|) == s
  {
    if s != [] {
      var n := FromBits(s);
      FromBitsRoundTrip(s[1..], Power2(|s| - 1));
      assert ToBits(n, |s|)[1..] == ToBits(n / 2, |s| - 1);
    }
  }

  function ByteBits(b: byte): (r: seq<bool>)
    ensures |r| == 8
  {
    ToBits(b, 8)
  }

  function ByteValue(s: seq<bool>): (b: byte)
    requires |s| == 8
  {
    FromBitsRoundTrip(s, 256);
    FromBits(s)
  }

  lemma ByteBitsRoundTrip(b: byte)
    ensures ByteValue(ByteBits(b)) == b
  {
    ToBitsRoundTrip(b, 8, 256);
  }

  lemma ByteValueRoundTrip(s: seq<bool>)
    requires |s| == 8
    ensures ByteBits(ByteValue(s)) == s
  {
    FromBitsRoundTrip(s, 256);
  }

  /** The bits of a byte string, in the order the CRC register takes them in. */
  function StringBits(s: seq<byte>): (r: seq<bool>)
    ensures |r| == 8 * |s|
  {
    if s == [] then [] else ByteBits(s[0]) + StringBits(s[1..])
  }

  lemma {:induction false} StringBitsAreInjective(s: seq<byte>, t: seq<byte>)
    requires |s| == |t| && StringBits(s) == StringBits(t)
    ensures s == t
  {
    if s != [] {
      assert ByteBits(s[0]) == StringBits(s)[..8] == ByteBits(t[0]);
      assert StringBits(s[1..]) == StringBits(s)[8..] == StringBits(t[1..]);
      ByteBitsRoundTrip(s[0]);
      ByteBitsRoundTrip(t[0]);
      StringBitsAreInjective(s[1..], t[1..]);
    }
  }

  lemma {:induction false} StringBitsOfSum(s: seq<byte>, t: seq<byte>)
    ensures StringBits(s + t) == StringBits(s) + StringBits(t)
  {
    if s == [] {
      assert s + t == t;
    } else {
      assert (s + t)[1..] == s[1..] + t;
      StringBitsOfSum(s[1..], t);
    }
  }

  /** The four bytes that fa_wr_u32 stores for a 32-bit word. */
  function StoreWord(w: seq<bool>): (r: seq<byte>)
    requires |w| == 32
    ensures |r| == 4
  {
    [ByteValue(w[0..8]), ByteValue(w[8..16]), ByteValue(w[16..24]), ByteValue(w[24..32])]
  }

  /** The 32-bit word that fa_rd_u32 loads. */
  function LoadWord(s: seq<byte>): (w: seq<bool>)
    requires |s| == 4
    ensures |w| == 32
  {
    ByteBits(s[0]) + ByteBits(s[1]) + ByteBits(s[2]) + ByteBits(s[3])
  }

  lemma StoreWordRoundTrip(w: seq<bool>)
    requires |w| == 32
    ensures LoadWord(StoreWord(w)) == w
  {
    ByteValueRoundTrip(w[0..8]);
    ByteValueRoundTrip(w[8..16]);
    ByteValueRoundTrip(w[16..24]);
    ByteValueRoundTrip(w[24..32]);
  }

  lemma LoadWordIsInjective(s: seq<byte>, t: seq<byte>)
    requires |s| == |t| == 4 && LoadWord(s) == LoadWord(t)
    ensures s == t
  {
    forall i | 0 <= i < 4 ensures s[i] == t[i] {
      assert ByteBits(s[i]) == LoadWord(s)[8 * i..8 * i + 8] == LoadWord(t)[8 * i..8 * i + 8] == ByteBits(t[i]);
      ByteBitsRoundTrip(s[i]);
      ByteBitsRoundTrip(t[i]);
    }
  }
}
