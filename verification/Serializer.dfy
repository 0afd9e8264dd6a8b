/**
 The generated functions as they run: loops over fields and elements that stop at the first
 error, proved against the interpreters of `Codec`.
 */
module Serializer {
  import opened Bytes
  import opened Callbacks
  import opened Schemas
  import opened Layouts
  import opened Codec

  const BUFFERS_ERROR_EOF := -2

  /** All of `bytes` was taken and counted, or the callback refused a byte and its code is returned. */
  ghost predicate Wrote(sink: Writer, before: Line, bytes: seq<byte>, r: int)
    reads sink
  {
    var (after, code) := Written(before, bytes);
    sink.Out() == after && r == if code < 0 then code else |bytes|
  }

  /** write_byte. */
  method WriteByte(b: byte, sink: Writer) returns (r: int)
    modifies sink
    ensures Wrote(sink, old(sink.Out()), [b], r)
  {
    ghost var before := sink.Out();
    assert Written(before.Offer(b), []) == (before.Offer(b), 0) && [b][1..] == [];
    r := sink.Write(b);
    if r >= 0 {
      r := 1;
    }
  }

  /** buffers_write for the unsigned types: byte by byte, the 64-bit one as two halves. */
  method WriteNat(v: nat, width: nat, big: bool, sink: Writer) returns (r: int)
    requires width == 1 || width == 2 || width == 4 || width == 8
    modifies sink
    ensures Wrote(sink, old(sink.Out()), NatBytes(v, width, big), r)
  {
    hide Written, LowFirst, HighFirst;
    if width == 1 {
      OneByteOf(v, big);
      r := WriteByte(v % 256, sink);
      return;
    }
    var half := width / 2;
    var low, high := v, v / HalfBase(half);
    HalvesMakeTheWhole(v, half, big);
    ghost var first := NatBytes(if big then high else low, half, big);
    ghost var second := NatBytes(if big then low else high, half, big);
    WrittenOfSum(sink.Out(), first, second);
    var r1 := WriteNat(if big then high else low, half, big, sink);
    if r1 < 0 {
      return r1;
    }
    r := WriteNat(if big then low else high, half, big, sink);
    if r >= 0 {
      r := r1 + r;
    }
  }

  lemma OneByteOf(v: nat, big: bool)
    ensures NatBytes(v, 1, big) == [v % 256]
  {}

  /** The value of a half: 2^8, 2^16 or 2^32. */
  function HalfBase(half: nat): (n: nat)
    ensures n > 0
  {
    if half == 1 then 0x100 else if half == 2 then 0x1_0000 else 0x1_0000_0000
  }

  lemma DroppingIsDividing(v: nat)
    ensures DropBytes(v, 1) == v / 0x100
    ensures DropBytes(v, 2) == v / 0x1_0000
    ensures DropBytes(v, 4) == v / 0x1_0000_0000
  {
    assert DropBytes(v, 4) == DropBytes(v / 256, 3) == DropBytes(v / 256 / 256, 2) == DropBytes(v / 256 / 256 / 256, 1);
  }

  lemma {:induction false} BytesSplit(v: nat, low: nat, high: nat)
    ensures LowFirst(v, low + high) == LowFirst(v, low) + LowFirst(DropBytes(v, low), high)
    ensures HighFirst(v, low + high) == HighFirst(DropBytes(v, low), high) + HighFirst(v, low)
    decreases low
  {
    if low > 0 {
      BytesSplit(v / 256, low - 1, high);
    }
  }

  lemma HalvesMakeTheWhole(v: nat, half: nat, big: bool)
    requires half == 1 || half == 2 || half == 4
    ensures NatBytes(v, 2 * half, big)
            == if big then HighFirst(v / HalfBase(half), half) + HighFirst(v, half)
               else LowFirst(v, half) + LowFirst(v / HalfBase(half), half)
  {
    DroppingIsDividing(v);
    BytesSplit(v, half, half);
    hide DropBytes, LowFirst, HighFirst;
  }

  // ---- Write ------------------------------------------------------------------

  /** The loop that looks for the first NUL. */
  method ScanLength(chars: seq<int>) returns (len: nat)
    ensures len == StrLen(chars)
  {
    len := 0;
    assert chars[0..] == chars;
    while len < |chars|
      invariant len <= |chars| && StrLen(chars) == len + StrLen(chars[len..])
    {
      if chars[len] == 0 {
        return;
      }
      assert chars[len..][1..] == chars[len + 1..];
      len := len + 1;
    }
  }

  /** A number, signed or not, through its unsigned type. */
  method WriteUnit(unit: Wire, n: int, big: bool, sink: Writer) returns (r: int)
    requires unit.Valid()
    modifies sink
    ensures Wrote(sink, old(sink.Out()), UnitBytes(unit, n, big), r)
  {
    r := WriteNat(ToUnsigned(unit, n), unit.width, big, sink);
  }

  /** The element loop of a string. */
  method WriteChars(unit: Wire, chars: seq<int>, big: bool, sink: Writer) returns (total: int)
    requires unit.Valid()
    modifies sink
    ensures Wrote(sink, old(sink.Out()), CharBytes(unit, chars, big), total)
  {
    hide UnitBytes;
    total := 0;
    var i := 0;
    assert chars[0..] == chars;
    while i < |chars|
      invariant i <= |chars| && total >= 0
      invariant Written(old(sink.Out()), CharBytes(unit, chars, big))
                == Written(sink.Out(), CharBytes(unit, chars[i..], big))
      invariant |CharBytes(unit, chars, big)| == total + |CharBytes(unit, chars[i..], big)|
    {
      assert chars[i..][1..] == chars[i + 1..];
      WrittenOfSum(sink.Out(), UnitBytes(unit, chars[i], big), CharBytes(unit, chars[i + 1..], big));
      hide Written;
      var res := WriteUnit(unit, chars[i], big, sink);
      if res < 0 {
        return res;
      }
      total := total + res;
      i := i + 1;
    }
  }

  method WriteText(l: Layout, v: Value, big: bool, sink: Writer) returns (total: int)
    requires l.Text? && ValidLayout(l) && Shaped(l, v)
    modifies sink
    ensures Wrote(sink, old(sink.Out()), Write(l, v, big), total)
  {
    hide Written, NatBytes, CharBytes;
    var len := ScanLength(v.chars);
    WrittenOfSum(sink.Out(), NatBytes(len, l.prefix, big), CharBytes(l.unit, v.chars[..len], big));
    var res := WriteNat(len, l.prefix, big, sink);
    if res < 0 {
      return res;
    }
    total := WriteChars(l.unit, v.chars[..len], big, sink);
    if total >= 0 {
      total := res + total;
    }
  }

  /** A generated write function: the number of bytes written, or the callback's error. */
  method WriteValue(l: Layout, v: Value, big: bool, sink: Writer) returns (total: int)
    requires ValidLayout(l) && Shaped(l, v)
    modifies sink
    ensures Wrote(sink, old(sink.Out()), Write(l, v, big), total)
    ensures old(sink.Out()).Willing() ==>
      total == |Write(l, v, big)| && sink.tx == old(sink.tx) + Write(l, v, big) && sink.Out().Willing()
    ensures total < 0 ==> exists k: nat :: k < |Write(l, v, big)| && FirstRefusal(old(sink.answers), k, total)
    decreases l
  {
    ghost var before := sink.Out();
    if before.Willing() {
      WillingTakesAll(before, Write(l, v, big));
    }
    ghost var code := Written(before, Write(l, v, big)).1;
    if code < 0 {
      FailsExactlyWhenRefused(before, Write(l, v, big), code);
    }
    hide Written;
    match l
    case Scalar(w) => total := WriteUnit(w, v.n, big, sink);
    case Boolean => total := WriteByte(v.n, sink);
    case Text(_, _, _) => total := WriteText(l, v, big, sink);
    case Group(parts) => total := WriteParts(parts, v.items, big, sink);
  }

  /** Its body: field after field, or element after element. */
  method WriteParts(parts: seq<Layout>, vs: seq<Value>, big: bool, sink: Writer) returns (total: int)
    requires (forall i :: 0 <= i < |parts| ==> ValidLayout(parts[i])) && AllShaped(parts, vs)
    modifies sink
    ensures Wrote(sink, old(sink.Out()), WriteAll(parts, vs, big), total)
    decreases parts
  {
    hide ValidLayout;
    total := 0;
    var i := 0;
    while i < |parts|
      invariant i <= |parts| && total >= 0 && AllShaped(parts[i..], vs[i..])
      invariant Written(old(sink.Out()), WriteAll(parts, vs, big))
                == Written(sink.Out(), WriteAll(parts[i..], vs[i..], big))
      invariant |WriteAll(parts, vs, big)| == total + |WriteAll(parts[i..], vs[i..], big)|
    {
      assert parts[i..][1..] == parts[i + 1..] && vs[i..][1..] == vs[i + 1..];
      WrittenOfSum(sink.Out(), Write(parts[i], vs[i], big), WriteAll(parts[i + 1..], vs[i + 1..], big));
      hide Written;
      var res := WriteValue(parts[i], vs[i], big, sink);
      if res < 0 {
        return res;
      }
      total := total + res;
      i := i + 1;
    }
  }

  // ---- Read -------------------------------------------------------------------

  /** The bytes that can be read before the first answer that is not one. */
  function Ready(rx: seq<Option<byte>>): seq<byte> {
    if rx == [] || rx[0].None? then [] else [rx[0].value] + Ready(rx[1..])
  }

  /**
   The value read and the bytes counted, or the error: the callback's own code where the input ends,
   except that its ordinary end, -1, becomes -2; and -2 for a prefix above the capacity.
   */
  ghost predicate Gave<T>(src: Reader, before: seq<byte>, got: Got<T>, r: int, v: T)
    reads src
  {
    match got
    case Failed(Ended) => r == if src.none == -1 then -2 else src.none
    case Failed(Oversize) => r == -2
    case Got(x, rest) => v == x && Ready(src.rx) == rest && |rest| <= |before| && r == |before| - |rest|
  }

  /** read_byte. */
  method ReadByte(src: Reader) returns (res: int, b: byte)
    modifies src
    ensures var s := Ready(old(src.rx));
      if s == [] then res == (if src.none == -1 then -2 else src.none)
      else res == 1 && b == s[0] && Ready(src.rx) == s[1..]
  {
    var v := src.Read();
    if v == -1 {
      return BUFFERS_ERROR_EOF, 0;
    }
    if v < 0 {
      return v, 0;
    }
    return 1, v;
  }

  /** buffers_read for the unsigned types: byte by byte, the 64-bit one as two halves. */
  method TakeNat(width: nat, big: bool, src: Reader) returns (r: int, v: nat)
    requires width == 1 || width == 2 || width == 4 || width == 8
    modifies src
    ensures Gave(src, old(Ready(src.rx)), ReadNat(width, old(Ready(src.rx)), big), r, v)
  {
    ghost var s := Ready(src.rx);
    if width == 1 {
      var res, b := ReadByte(src);
      if res < 0 {
        return res, 0;
      }
      OneByte(s[..1], big);
      return 1, b;
    }
    var half := width / 2;
    var r1, first := TakeNat(half, big, src);
    if r1 < 0 {
      return r1, 0;
    }
    var r2, second := TakeNat(half, big, src);
    if r2 < 0 {
      return r2, 0;
    }
    assert s[..width] == s[..half] + s[half..][..half];
    JoinedHalves(s[..half], s[half..][..half], big);
    r := r1 + r2;
    v := if big then first * HalfBase(half) + second else second * HalfBase(half) + first;
  }

  lemma OneByte(s: seq<byte>, big: bool)
    requires |s| == 1
    ensures NatOf(s, big) == s[0] as nat
  {
    assert s[1..] == [] && s[..|s| - 1] == [];
    assert FromLowFirst(s[1..]) == 0 && FromHighFirst(s[..|s| - 1]) == 0;
  }

  lemma {:induction false} LowFirstJoins(a: seq<byte>, b: seq<byte>)
    ensures FromLowFirst(a + b) == FromLowFirst(a) + Values(|a|) * FromLowFirst(b)
  {
    if a == [] {
      assert a + b == b;
    } else {
      assert (a + b)[1..] == a[1..] + b;
      LowFirstJoins(a[1..], b);
      assert FromLowFirst(a + b) == a[0] as nat + 256 * FromLowFirst(a[1..] + b);
      assert FromLowFirst(a) == a[0] as nat + 256 * FromLowFirst(a[1..]) && Values(|a|) == 256 * Values(|a| - 1);
      hide FromLowFirst, Values;
      Reassociate(Values(|a| - 1), FromLowFirst(b));
    }
  }

  lemma {:induction false} HighFirstJoins(a: seq<byte>, b: seq<byte>)
    ensures FromHighFirst(a + b) == FromHighFirst(a) * Values(|b|) + FromHighFirst(b)
    decreases |b|
  {
    if b == [] {
      assert a + b == a;
    } else {
      var c := b[..|b| - 1];
      assert (a + b)[..|a + b| - 1] == a + c;
      HighFirstJoins(a, c);
      assert FromHighFirst(a + b) == b[|b| - 1] as nat + 256 * FromHighFirst(a + c);
      assert FromHighFirst(b) == b[|b| - 1] as nat + 256 * FromHighFirst(c) && Values(|b|) == 256 * Values(|c|);
      hide FromHighFirst, Values;
      Reassociate(Values(|c|), FromHighFirst(a));
    }
  }

  lemma Reassociate(x: nat, y: nat)
    ensures 256 * (x * y) == (256 * x) * y == y * (256 * x) && x * y == y * x
  {}

  lemma JoinedHalves(a: seq<byte>, b: seq<byte>, big: bool)
    requires |a| == |b| && (|a| == 1 || |a| == 2 || |a| == 4)
    ensures NatOf(a + b, big)
            == if big then NatOf(a, big) * HalfBase(|a|) + NatOf(b, big)
                else NatOf(b, big) * HalfBase(|a|) + NatOf(a, big)
  {
    LowFirstJoins(a, b);
    HighFirstJoins(a, b);
    ValuesOfWidths();
    hide FromLowFirst, FromHighFirst;
    assert Values(|a|) == HalfBase(|a|);
    hide Values, HalfBase;
    Commute(Values(|a|), FromLowFirst(b));
  }

  lemma Commute(x: nat, y: nat)
    ensures x * y == y * x
  {}

  method TakeUnit(unit: Wire, big: bool, src: Reader) returns (r: int, n: int)
    requires unit.Valid()
    modifies src
    ensures Gave(src, old(Ready(src.rx)), ReadUnit(unit, old(Ready(src.rx)), big), r, n)
  {
    var u;
    r, u := TakeNat(unit.width, big, src);
    n := FromUnsigned(unit, u);
  }

  /** What is read after `done`, as one result. */
  ghost function After<T>(done: seq<T>, got: Got<seq<T>>): Got<seq<T>> {
    match got
    case Failed(why) => Failed(why)
    case Got(vs, rest) => Got(done + vs, rest)
  }

  lemma AfterOneMore<T>(done: seq<T>, v: T, got: Got<seq<T>>)
    ensures After(done, After([v], got)) == After(done + [v], got)
    ensures got.Failed? ==> After(done, got) == got
  {
    if got.Got? {
      assert done + ([v] + got.value) == done + [v] + got.value;
    }
  }

  lemma AfterNothing<T>(done: seq<T>, got: Got<seq<T>>, rest: seq<byte>)
    ensures After([], got) == got
    ensures After(done, Got([], rest)) == Got(done, rest)
  {
    if got.Got? {
      assert [] + got.value == got.value;
    }
    assert done + [] == done;
  }

  /** The element loop of a string, over the characters that are there. */
  method TakeChars(unit: Wire, count: nat, dst: seq<int>, big: bool, src: Reader) returns (total: int, chars: seq<int>)
    requires unit.Valid() && count <= |dst|
    modifies src
    ensures |chars| == |dst| && chars[count..] == dst[count..]
    ensures Gave(src, old(Ready(src.rx)), ReadChars(unit, count, old(Ready(src.rx)), big), total, chars[..count])
  {
    hide ReadUnit, Ready;
    total, chars := 0, dst;
    var i := 0;
    AfterNothing<int>([], ReadChars(unit, count, Ready(src.rx), big), []);
    while i < count
      invariant i <= count && |chars| == |dst| && chars[i..] == dst[i..]
      invariant ReadChars(unit, count, old(Ready(src.rx)), big)
                == After(chars[..i], ReadChars(unit, count - i, Ready(src.rx), big))
      invariant |Ready(src.rx)| <= |old(Ready(src.rx))| && total == |old(Ready(src.rx))| - |Ready(src.rx)|
    {
      ghost var s := Ready(src.rx);
      var res, c := TakeUnit(unit, big, src);
      if res < 0 {
        return res, dst;
      }
      AfterOneMore(chars[..i], c, ReadChars(unit, count - i - 1, Ready(src.rx), big));
      chars := chars[i := c];
      assert chars[..i + 1] == chars[..i] + [c];
      total := total + res;
      i := i + 1;
    }
    AfterNothing<int>(chars[..count], Failed(Ended), Ready(src.rx));
  }

  /** A variable-mode string: the prefix is checked against the capacity before anything is stored. */
  method TakeText(l: Layout, dst: Value, big: bool, src: Reader) returns (total: int, v: Value)
    requires l.Text? && ValidLayout(l) && Shaped(l, dst)
    modifies src
    ensures Gave(src, old(Ready(src.rx)), Read(l, dst, old(Ready(src.rx)), big), total, v)
  {
    hide ReadNat, ReadChars, Values;
    var res, len := TakeNat(l.prefix, big, src);
    if res < 0 {
      return res, dst;
    }
    if len > l.capacity {
      return BUFFERS_ERROR_EOF, dst;
    }
    var read, chars := TakeChars(l.unit, len, dst.chars, big, src);
    if read < 0 {
      return read, dst;
    }
    ghost var placed := Place(chars[..len], dst.chars);
    if len < l.capacity {
      chars := chars[len := 0];
    }
    assert chars == placed;
    return res + read, Chars(chars);
  }

  /** A generated read function: the number of bytes read, or the error. */
  method TakeValue(l: Layout, dst: Value, big: bool, src: Reader) returns (total: int, v: Value)
    requires ValidLayout(l) && Shaped(l, dst)
    modifies src
    ensures Gave(src, old(Ready(src.rx)), Read(l, dst, old(Ready(src.rx)), big), total, v)
    ensures forall w, rest | Shaped(l, w) ::
      old(Ready(src.rx)) == Write(l, w, big) + rest ==>
        total == |Write(l, w, big)| && v == Restored(l, w, dst) && Ready(src.rx) == rest
    ensures forall w, k | Shaped(l, w) && 0 <= k < |Write(l, w, big)| ::
      old(Ready(src.rx)) == Write(l, w, big)[..k] ==> total == if src.none == -1 then -2 else src.none
    ensures l.Text? && l.prefix <= |old(Ready(src.rx))| && NatOf(old(Ready(src.rx))[..l.prefix], big) > l.capacity
            ==> total == -2
    decreases l
  {
    forall w, k | Shaped(l, w) && 0 <= k < |Write(l, w, big)|
      ensures Read(l, dst, Write(l, w, big)[..k], big) == Failed(Ended) {
      CutIsEnded(l, w, dst, k, big);
    }
    forall w, rest | Shaped(l, w)
      ensures Read(l, dst, Write(l, w, big) + rest, big) == Got(Restored(l, w, dst), rest) {
      RoundTrip(l, w, dst, rest, big);
    }
    hide Write, Restored;
    match l
    case Scalar(w) =>
      hide ReadUnit;
      var n;
      total, n := TakeUnit(w, big, src);
      v := Int(n);
    case Boolean =>
      var res, b := ReadByte(src);
      if res < 0 {
        return res, dst;
      }
      return 1, Int(if b != 0 then 1 else 0);
    case Text(_, _, _) => total, v := TakeText(l, dst, big, src);
    case Group(parts) =>
      var items;
      total, items := TakeParts(parts, dst.items, big, src);
      v := Items(items);
  }

  /** Its body: field after field, or element after element. */
  method TakeParts(parts: seq<Layout>, dst: seq<Value>, big: bool, src: Reader) returns (total: int, items: seq<Value>)
    requires (forall i :: 0 <= i < |parts| ==> ValidLayout(parts[i])) && AllShaped(parts, dst)
    modifies src
    ensures Gave(src, old(Ready(src.rx)), ReadAll(parts, dst, old(Ready(src.rx)), big), total, items)
    decreases parts
  {
    hide ValidLayout, Ready, Read;
    total, items := 0, dst;
    var i := 0;
    AfterNothing<Value>([], ReadAll(parts, items, Ready(src.rx), big), []);
    while i < |parts|
      invariant i <= |parts| && |items| == |parts| && items[i..] == dst[i..] && AllShaped(parts[i..], dst[i..])
      invariant ReadAll(parts, dst, old(Ready(src.rx)), big)
                == After(items[..i], ReadAll(parts[i..], dst[i..], Ready(src.rx), big))
      invariant |Ready(src.rx)| <= |old(Ready(src.rx))| && total == |old(Ready(src.rx))| - |Ready(src.rx)|
    {
      assert parts[i..][1..] == parts[i + 1..] && dst[i..][1..] == dst[i + 1..];
      var res, item := TakeValue(parts[i], items[i], big, src);
      if res < 0 {
        return res, dst;
      }
      AfterOneMore(items[..i], item, ReadAll(parts[i + 1..], dst[i + 1..], Ready(src.rx), big));
      items := items[i := item];
      assert items[..i + 1] == items[..i] + [item];
      total := total + res;
      i := i + 1;
    }
    AfterNothing<Value>(items[..i], Failed(Ended), Ready(src.rx));
    assert items[..i] == items;
  }

  // ---- Size -------------------------------------------------------------------

  /** A generated size function. */
  method SizeOf(l: Layout, v: Value) returns (size: nat)
    requires Shaped(l, v)
    ensures size == Size(l, v)
    decreases l
  {
    match l
    case Scalar(w) => size := w.width;
    case Boolean => size := 1;
    case Text(_, prefix, unit) =>
      var len := ScanLength(v.chars);
      size := prefix + len * unit.width;
    case Group(parts) =>
      size := 0;
      var i := 0;
      while i < |parts|
        invariant i <= |parts| && AllShaped(parts[i..], v.items[i..])
        invariant SizeAll(parts, v.items) == size + SizeAll(parts[i..], v.items[i..])
      {
        assert parts[i..][1..] == parts[i + 1..] && v.items[i..][1..] == v.items[i + 1..];
        var one := SizeOf(parts[i], v.items[i]);
        size := size + one;
        i := i + 1;
      }
  }
}
