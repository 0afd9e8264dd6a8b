/**
 The generated write, read and size functions, for every layout, both byte orders and both string
 modes: reading what was written restores the instance, and the sizes agree.
 */
module Codec {
  import opened Bytes
  import opened Schemas
  import opened Layouts

  /** The value has the shape of the layout. Only an enum can hold a number that its wire type does not. */
  predicate Shaped(l: Layout, v: Value)
    decreases l
  {
    match l
    case Scalar(_) => v.Int?
    case Boolean => v.Int? && 0 <= v.n <= 1
    case Text(capacity, _, unit) => v.Chars? && |v.chars| == capacity && forall c :: c in v.chars ==> unit.Holds(c)
    case Group(parts) => v.Items? && AllShaped(parts, v.items)
  }

  predicate AllShaped(parts: seq<Layout>, vs: seq<Value>)
    decreases parts
  {
    |vs| == |parts| && (parts != [] ==> Shaped(parts[0], vs[0]) && AllShaped(parts[1..], vs[1..]))
  }

  /** The length of a string: up to the first NUL, or all of it. */
  function StrLen(chars: seq<int>): (n: nat)
    ensures n <= |chars| && (n < |chars| ==> chars[n] == 0)
    ensures forall i :: 0 <= i < n ==> chars[i] != 0
  {
    if chars == [] || chars[0] == 0 then 0 else 1 + StrLen(chars[1..])
  }

  // ---- Writing ----------------------------------------------------------------

  function UnitBytes(unit: Wire, c: int, big: bool): (r: seq<byte>)
    ensures |r| == unit.width
  {
    NatBytes(ToUnsigned(unit, c), unit.width, big)
  }

  function CharBytes(unit: Wire, chars: seq<int>, big: bool): (r: seq<byte>)
    ensures |r| == unit.width * |chars|
  {
    if chars == [] then [] else UnitBytes(unit, chars[0], big) + CharBytes(unit, chars[1..], big)
  }

  function Write(l: Layout, v: Value, big: bool): seq<byte>
    requires Shaped(l, v)
    decreases l
  {
    match l
    case Scalar(w) => UnitBytes(w, v.n, big)
    case Boolean => [v.n]
    case Text(_, prefix, unit) =>
      var len := StrLen(v.chars);
      NatBytes(len, prefix, big) + CharBytes(unit, v.chars[..len], big)
    case Group(parts) => WriteAll(parts, v.items, big)
  }

  function WriteAll(parts: seq<Layout>, vs: seq<Value>, big: bool): seq<byte>
    requires AllShaped(parts, vs)
    decreases parts
  {
    if parts == [] then [] else Write(parts[0], vs[0], big) + WriteAll(parts[1..], vs[1..], big)
  }

  // ---- Reading ----------------------------------------------------------------

  /** The input ran out, or a length prefix announces more than the string can hold. */
  datatype Failure = Ended | Oversize

  /** What was read and what is left of the input. */
  datatype Got<T> = Got(value: T, rest: seq<byte>) | Failed(why: Failure)

  function ReadNat(width: nat, s: seq<byte>, big: bool): Got<nat> {
    if |s| < width then Failed(Ended) else Got(NatOf(s[..width], big), s[width..])
  }

  function ReadUnit(unit: Wire, s: seq<byte>, big: bool): Got<int> {
    match ReadNat(unit.width, s, big)
    case Failed(why) => Failed(why)
    case Got(u, rest) => Got(FromUnsigned(unit, u), rest)
  }

  function ReadChars(unit: Wire, count: nat, s: seq<byte>, big: bool): (r: Got<seq<int>>)
    ensures r.Got? ==> |r.value| == count
  {
    if count == 0 then Got([], s)
    else
      match ReadUnit(unit, s, big)
      case Failed(why) => Failed(why)
      case Got(c, rest) =>
        match ReadChars(unit, count - 1, rest, big)
        case Failed(why) => Failed(why)
        case Got(cs, rest') => Got([c] + cs, rest')
  }

  /** A NUL follows the characters when there is room; what was there before stays behind it. */
  function Place(chars: seq<int>, dst: seq<int>): (r: seq<int>)
    requires |chars| <= |dst|
    ensures |r| == |dst|
  {
    if |chars| < |dst| then chars + [0] + dst[|chars| + 1..] else chars
  }

  /** Read over the instance `dst`. */
  function Read(l: Layout, dst: Value, s: seq<byte>, big: bool): Got<Value>
    requires Shaped(l, dst)
    decreases l
  {
    match l
    case Scalar(w) =>
      (match ReadUnit(w, s, big) case Failed(why) => Failed(why) case Got(n, rest) => Got(Int(n), rest))
    case Boolean => if s == [] then Failed(Ended) else Got(Int(if s[0] == 0 then 0 else 1), s[1..])
    case Text(capacity, prefix, unit) =>
      (match ReadNat(prefix, s, big)
       case Failed(why) => Failed(why)
       case Got(len, body) =>
         if len > capacity then Failed(Oversize)
         else (match ReadChars(unit, len, body, big)
               case Failed(why) => Failed(why)
               case Got(chars, rest) => Got(Chars(Place(chars, dst.chars)), rest)))
    case Group(parts) =>
      (match ReadAll(parts, dst.items, s, big)
       case Failed(why) => Failed(why)
       case Got(vs, rest) => Got(Items(vs), rest))
  }

  function ReadAll(parts: seq<Layout>, dst: seq<Value>, s: seq<byte>, big: bool): Got<seq<Value>>
    requires AllShaped(parts, dst)
    decreases parts
  {
    if parts == [] then Got([], s)
    else
      match Read(parts[0], dst[0], s, big)
      case Failed(why) => Failed(why)
      case Got(v, rest) =>
        match ReadAll(parts[1..], dst[1..], rest, big)
        case Failed(why) => Failed(why)
        case Got(vs, rest') => Got([v] + vs, rest')
  }

  // ---- What a reader gets back ------------------------------------------------

  /** The instance that results from writing `v` and reading it over `dst`. */
  function Restored(l: Layout, v: Value, dst: Value): Value
    requires Shaped(l, v) && Shaped(l, dst)
    decreases l
  {
    match l
    case Scalar(w) => Int(FromUnsigned(w, ToUnsigned(w, v.n)))
    case Boolean => v
    case Text(_, _, _) => Chars(Place(v.chars[..StrLen(v.chars)], dst.chars))
    case Group(parts) => Items(AllRestored(parts, v.items, dst.items))
  }

  function AllRestored(parts: seq<Layout>, vs: seq<Value>, dst: seq<Value>): seq<Value>
    requires AllShaped(parts, vs) && AllShaped(parts, dst)
    decreases parts
  {
    if parts == [] then [] else [Restored(parts[0], vs[0], dst[0])] + AllRestored(parts[1..], vs[1..], dst[1..])
  }

  lemma {:induction false} CharsRoundTrip(unit: Wire, chars: seq<int>, rest: seq<byte>, big: bool)
    requires unit.Valid() && forall c :: c in chars ==> unit.Holds(c)
    ensures ReadChars(unit, |chars|, CharBytes(unit, chars, big) + rest, big) == Got(chars, rest)
  {
    hide ReadUnit, UnitBytes, FromUnsigned, Wire.Holds;
    var s := CharBytes(unit, chars, big) + rest;
    if chars == [] {
      assert s == rest;
    } else {
      UnitRoundTrip(unit, chars[0], CharBytes(unit, chars[1..], big) + rest, big);
      assert s == UnitBytes(unit, chars[0], big) + (CharBytes(unit, chars[1..], big) + rest);
      NumberComesBackExactly(unit, chars[0]);
      assert chars[0] in chars && forall c :: c in chars[1..] ==> c in chars;
      assert chars == [chars[0]] + chars[1..];
      CharsRoundTrip(unit, chars[1..], rest, big);
    }
  }

  lemma UnitRoundTrip(unit: Wire, n: int, rest: seq<byte>, big: bool)
    ensures ReadUnit(unit, UnitBytes(unit, n, big) + rest, big) == Got(FromUnsigned(unit, ToUnsigned(unit, n)), rest)
  {
    var bytes := UnitBytes(unit, n, big);
    NatRoundTrip(ToUnsigned(unit, n), unit.width, big);
    assert (bytes + rest)[..unit.width] == bytes && (bytes + rest)[unit.width..] == rest;
  }

  lemma TextRoundTrip(l: Layout, v: Value, dst: Value, rest: seq<byte>, big: bool)
    requires l.Text? && ValidLayout(l) && Shaped(l, v) && Shaped(l, dst)
    ensures Read(l, dst, Write(l, v, big) + rest, big) == Got(Restored(l, v, dst), rest)
  {
    hide NatBytes, NatOf, Values, CharBytes, ReadChars;
    var len := StrLen(v.chars);
    var s, chars := Write(l, v, big) + rest, v.chars[..len];
    NatRoundTrip(len, l.prefix, big);
    assert s[..l.prefix] == NatBytes(len, l.prefix, big);
    assert s[l.prefix..] == CharBytes(l.unit, chars, big) + rest;
    CharsRoundTrip(l.unit, chars, rest, big);
  }

  /** Reading what was written, over any instance, restores it and takes exactly the bytes that were written. */
  lemma {:induction false} RoundTrip(l: Layout, v: Value, dst: Value, rest: seq<byte>, big: bool)
    requires ValidLayout(l) && Shaped(l, v) && Shaped(l, dst)
    ensures Read(l, dst, Write(l, v, big) + rest, big) == Got(Restored(l, v, dst), rest)
    decreases l
  {
    match l
    case Scalar(w) => UnitRoundTrip(w, v.n, rest, big);
    case Boolean =>
    case Text(_, _, _) => TextRoundTrip(l, v, dst, rest, big);
    case Group(parts) => AllRoundTrip(parts, v.items, dst.items, rest, big);
  }

  lemma {:induction false} AllRoundTrip(parts: seq<Layout>, vs: seq<Value>, dst: seq<Value>, rest: seq<byte>, big: bool)
    requires (forall l :: l in parts ==> ValidLayout(l)) && AllShaped(parts, vs) && AllShaped(parts, dst)
    ensures ReadAll(parts, dst, WriteAll(parts, vs, big) + rest, big) == Got(AllRestored(parts, vs, dst), rest)
    decreases parts
  {
    if parts == [] {
      assert WriteAll(parts, vs, big) + rest == rest;
    } else {
      var first, others := Write(parts[0], vs[0], big), WriteAll(parts[1..], vs[1..], big);
      assert WriteAll(parts, vs, big) + rest == first + (others + rest);
      RoundTrip(parts[0], vs[0], dst[0], others + rest, big);
      AllRoundTrip(parts[1..], vs[1..], dst[1..], rest, big);
    }
  }

  /**
   A string read over another: its characters, a NUL behind them when there is room, and behind that
   what was there before.
   */
  lemma RestoredText(l: Layout, v: Value, dst: Value)
    requires l.Text? && Shaped(l, v) && Shaped(l, dst)
    ensures var r := Restored(l, v, dst);
      && r.Chars? && |r.chars| == l.capacity
      && forall i :: 0 <= i < l.capacity ==>
        (if v.chars[i] != 0 && (forall j :: 0 <= j < i ==> v.chars[j] != 0) then r.chars[i] == v.chars[i]
         else if i == StrLen(v.chars) then r.chars[i] == 0
         else r.chars[i] == dst.chars[i])
  {}

  /** Any byte but zero reads as true, and is written as one. */
  lemma FlagIsNormalised(b: byte, dst: Value, rest: seq<byte>, big: bool)
    requires Shaped(Boolean, dst)
    ensures var got := Read(Boolean, dst, [b] + rest, big);
      && got == Got(Int(if b == 0 then 0 else 1), rest)
      && Shaped(Boolean, got.value) && Write(Boolean, got.value, big) == [if b == 0 then 0 else 1]
  {}

  // ---- A message byte by byte -------------------------------------------------

  /** A signed 16-bit number, a flag, a string of five with a one-byte prefix, and an unsigned 32-bit number. */
  const SAMPLE := Group([Scalar(Wire(2, true)), Boolean, Text(5, 1, Wire(1, true)), Scalar(Wire(4, false))])

  const SAMPLE_VALUE := Items([Int(-2), Int(1), Chars([72, 105, 0, 7, 7]), Int(0x0403_0201)])

  lemma NumberExamples()
    ensures UnitBytes(Wire(2, true), -2, false) == [0xFE, 0xFF] && UnitBytes(Wire(2, true), -2, true) == [0xFF, 0xFE]
    ensures UnitBytes(Wire(4, false), 0x0403_0201, false) == [1, 2, 3, 4]
    ensures UnitBytes(Wire(4, false), 0x0403_0201, true) == [4, 3, 2, 1]
  {
    ValuesOfWidths();
  }

  lemma TextExample(big: bool)
    ensures Write(Text(5, 1, Wire(1, true)), Chars([72, 105, 0, 7, 7]), big) == [2, 72, 105]
  {
    ValuesOfWidths();
    var chars := [72, 105, 0, 7, 7];
    assert StrLen(chars) == 2;
    assert chars[..2] == [72, 105];
  }

  lemma OnePart(l: Layout, v: Value, parts: seq<Layout>, vs: seq<Value>, big: bool)
    requires Shaped(l, v) && AllShaped(parts, vs)
    ensures AllShaped([l] + parts, [v] + vs)
    ensures WriteAll([l] + parts, [v] + vs, big) == Write(l, v, big) + WriteAll(parts, vs, big)
  {
    assert ([l] + parts)[1..] == parts && ([v] + vs)[1..] == vs;
  }

  lemma NoParts(big: bool)
    ensures AllShaped([], []) && WriteAll([], [], big) == []
  {}

  lemma GroupWrites(parts: seq<Layout>, vs: seq<Value>, big: bool)
    requires AllShaped(parts, vs)
    ensures Shaped(Group(parts), Items(vs)) && Write(Group(parts), Items(vs), big) == WriteAll(parts, vs, big)
  {}

  lemma GroupOfFour(a: Layout, b: Layout, c: Layout, d: Layout, va: Value, vb: Value, vc: Value, vd: Value, big: bool)
    requires Shaped(a, va) && Shaped(b, vb) && Shaped(c, vc) && Shaped(d, vd)
    ensures Shaped(Group([a, b, c, d]), Items([va, vb, vc, vd]))
    ensures Write(Group([a, b, c, d]), Items([va, vb, vc, vd]), big)
            == Write(a, va, big) + Write(b, vb, big) + Write(c, vc, big) + Write(d, vd, big)
  {
    NoParts(big);
    hide AllShaped, WriteAll, Shaped, Write;
    var p1, v1 := [d] + [], [vd] + [];
    var p2, v2 := [c] + p1, [vc] + v1;
    var p3, v3 := [b] + p2, [vb] + v2;
    OnePart(d, vd, [], [], big);
    OnePart(c, vc, p1, v1, big);
    OnePart(b, vb, p2, v2, big);
    OnePart(a, va, p3, v3, big);
    assert [a] + p3 == [a, b, c, d] && [va] + v3 == [va, vb, vc, vd];
    GroupWrites([a] + p3, [va] + v3, big);
  }

  /** The fields go out in order, in either byte order; the string without its NUL and what is behind it. */
  lemma WriteExample(big: bool)
    ensures Shaped(SAMPLE, SAMPLE_VALUE)
    ensures Write(SAMPLE, SAMPLE_VALUE, big)
            == (if big then [0xFF, 0xFE] else [0xFE, 0xFF]) + [1] + [2, 72, 105]
               + if big then [4, 3, 2, 1] else [1, 2, 3, 4]
  {
    NumberExamples();
    TextExample(big);
    ValuesOfWidths();
    hide UnitBytes, CharBytes, NatBytes, Values, StrLen;
    GroupOfFour(Scalar(Wire(2, true)), Boolean, Text(5, 1, Wire(1, true)), Scalar(Wire(4, false)),
                Int(-2), Int(1), Chars([72, 105, 0, 7, 7]), Int(0x0403_0201), big);
  }

  // ---- The instance is the same up to the first NUL ---------------------------

  /** The same numbers, and strings that agree up to and including the first NUL. */
  predicate Same(l: Layout, v: Value, r: Value)
    requires Shaped(l, v)
    decreases l
  {
    match l
    case Scalar(_) => r == v
    case Boolean => r == v
    case Text(capacity, _, _) =>
      r.Chars? && |r.chars| == capacity && StrLen(r.chars) == StrLen(v.chars)
      && r.chars[..StrLen(v.chars)] == v.chars[..StrLen(v.chars)]
    case Group(parts) => r.Items? && AllSame(parts, v.items, r.items)
  }

  predicate AllSame(parts: seq<Layout>, vs: seq<Value>, rs: seq<Value>)
    requires AllShaped(parts, vs)
    decreases parts
  {
    |rs| == |vs| && (parts != [] ==> Same(parts[0], vs[0], rs[0]) && AllSame(parts[1..], vs[1..], rs[1..]))
  }

  /** Every number is one that its wire type holds; what is not can only be an enum outside its declared range. */
  predicate Fits(l: Layout, v: Value)
    requires Shaped(l, v)
    decreases l
  {
    match l
    case Scalar(w) => w.Holds(v.n)
    case Group(parts) => AllFit(parts, v.items)
    case _ => true
  }

  predicate AllFit(parts: seq<Layout>, vs: seq<Value>)
    requires AllShaped(parts, vs)
    decreases parts
  {
    parts == [] || (Fits(parts[0], vs[0]) && AllFit(parts[1..], vs[1..]))
  }

  lemma {:induction false} PlacedIsSameString(chars: seq<int>, dst: seq<int>)
    requires |chars| == |dst|
    ensures var n, r := StrLen(chars), Place(chars[..StrLen(chars)], dst);
      StrLen(r) == n && r[..n] == chars[..n]
  {
    var n, r := StrLen(chars), Place(chars[..StrLen(chars)], dst);
    assert forall i :: 0 <= i < n ==> r[i] == chars[i];
    if n < |chars| {
      assert r[n] == 0;
    }
  }

  /** The round trip gives the same instance exactly when every number fits its wire type. */
  lemma {:induction false} RestoredIsSameExactly(l: Layout, v: Value, dst: Value)
    requires ValidLayout(l) && Shaped(l, v) && Shaped(l, dst)
    ensures Same(l, v, Restored(l, v, dst)) <==> Fits(l, v)
    decreases l
  {
    match l
    case Scalar(w) => NumberComesBackExactly(w, v.n);
    case Boolean =>
    case Text(_, _, _) => PlacedIsSameString(v.chars, dst.chars);
    case Group(parts) => AllRestoredAreSameExactly(parts, v.items, dst.items);
  }

  lemma {:induction false} AllRestoredAreSameExactly(parts: seq<Layout>, vs: seq<Value>, dst: seq<Value>)
    requires (forall l :: l in parts ==> ValidLayout(l)) && AllShaped(parts, vs) && AllShaped(parts, dst)
    ensures AllSame(parts, vs, AllRestored(parts, vs, dst)) <==> AllFit(parts, vs)
    decreases parts
  {
    if parts != [] {
      RestoredIsSameExactly(parts[0], vs[0], dst[0]);
      AllRestoredAreSameExactly(parts[1..], vs[1..], dst[1..]);
    }
  }

  // ---- Sizes ------------------------------------------------------------------

  /** The generated size function. */
  function Size(l: Layout, v: Value): nat
    requires Shaped(l, v)
    decreases l
  {
    match l
    case Scalar(w) => w.width
    case Boolean => 1
    case Text(_, prefix, unit) => prefix + StrLen(v.chars) * unit.width
    case Group(parts) => SizeAll(parts, v.items)
  }

  function SizeAll(parts: seq<Layout>, vs: seq<Value>): nat
    requires AllShaped(parts, vs)
    decreases parts
  {
    if parts == [] then 0 else Size(parts[0], vs[0]) + SizeAll(parts[1..], vs[1..])
  }

  /**
   The size is the number of bytes that write emits, never more than the layout's capacity, and all of
   it when there are no strings.
   */
  lemma {:induction false} SizesAgree(l: Layout, v: Value, big: bool)
    requires Shaped(l, v)
    ensures |Write(l, v, big)| == Size(l, v) <= Capacity(l)
    ensures Fixed(l) ==> Size(l, v) == Capacity(l)
    decreases l
  {
    match l
    case Scalar(_) =>
    case Boolean =>
    case Text(capacity, _, unit) => Monotonic(unit.width, StrLen(v.chars), capacity);
    case Group(parts) => AllSizesAgree(parts, v.items, big);
  }

  lemma Monotonic(k: nat, x: nat, y: nat)
    requires x <= y
    ensures k * x == x * k <= k * y
  {}

  lemma {:induction false} AllSizesAgree(parts: seq<Layout>, vs: seq<Value>, big: bool)
    requires AllShaped(parts, vs)
    ensures |WriteAll(parts, vs, big)| == SizeAll(parts, vs) <= Capacities(parts)
    ensures (forall l :: l in parts ==> Fixed(l)) ==> SizeAll(parts, vs) == Capacities(parts)
    decreases parts
  {
    if parts != [] {
      SizesAgree(parts[0], vs[0], big);
      AllSizesAgree(parts[1..], vs[1..], big);
    }
  }

  // ---- Input that ends too early ----------------------------------------------

  /** Cut short anywhere, what was written reads as end of input. */
  lemma {:induction false} CutIsEnded(l: Layout, v: Value, dst: Value, k: nat, big: bool)
    requires ValidLayout(l) && Shaped(l, v) && Shaped(l, dst) && k < |Write(l, v, big)|
    ensures Read(l, dst, Write(l, v, big)[..k], big) == Failed(Ended)
    decreases l
  {
    match l
    case Scalar(_) =>
    case Boolean =>
    case Text(_, _, _) => CutTextIsEnded(l, v, dst, k, big);
    case Group(parts) => AllCutIsEnded(parts, v.items, dst.items, k, big);
  }

  lemma {:induction false} AllCutIsEnded(parts: seq<Layout>, vs: seq<Value>, dst: seq<Value>, k: nat, big: bool)
    requires (forall l :: l in parts ==> ValidLayout(l)) && AllShaped(parts, vs) && AllShaped(parts, dst)
    requires k < |WriteAll(parts, vs, big)|
    ensures ReadAll(parts, dst, WriteAll(parts, vs, big)[..k], big) == Failed(Ended)
    decreases parts
  {
    var first, others := Write(parts[0], vs[0], big), WriteAll(parts[1..], vs[1..], big);
    if k < |first| {
      assert WriteAll(parts, vs, big)[..k] == first[..k];
      CutIsEnded(parts[0], vs[0], dst[0], k, big);
    } else {
      assert WriteAll(parts, vs, big)[..k] == first + others[..k - |first|];
      RoundTrip(parts[0], vs[0], dst[0], others[..k - |first|], big);
      AllCutIsEnded(parts[1..], vs[1..], dst[1..], k - |first|, big);
    }
  }

  lemma CutTextIsEnded(l: Layout, v: Value, dst: Value, k: nat, big: bool)
    requires l.Text? && ValidLayout(l) && Shaped(l, v) && Shaped(l, dst) && k < |Write(l, v, big)|
    ensures Read(l, dst, Write(l, v, big)[..k], big) == Failed(Ended)
  {
    hide NatBytes, NatOf, Values, CharBytes, ReadChars;
    var len := StrLen(v.chars);
    var whole, chars := Write(l, v, big), v.chars[..len];
    if k >= l.prefix {
      NatRoundTrip(len, l.prefix, big);
      assert whole[..k][..l.prefix] == NatBytes(len, l.prefix, big);
      assert whole[..k][l.prefix..] == CharBytes(l.unit, chars, big)[..k - l.prefix];
      ShortCharsAreEnded(l.unit, len, whole[..k][l.prefix..], big);
    }
  }

  lemma {:induction false} ShortCharsAreEnded(unit: Wire, count: nat, s: seq<byte>, big: bool)
    requires |s| < unit.width * count
    ensures ReadChars(unit, count, s, big) == Failed(Ended)
    decreases count
  {
    if count > 0 && |s| >= unit.width {
      assert unit.width * count == unit.width + unit.width * (count - 1);
      ShortCharsAreEnded(unit, count - 1, s[unit.width..], big);
    }
  }
}
