/**
 What the generated functions do, as interpreters: a struct's layout is what its chain of
 generated calls walks through, and write, read and size follow it.
 */
module Layouts {
  import opened Bytes
  import opened Schemas

  /** A struct is the group of its fields, an array the group of its elements; only variable-mode strings are `Text`. */
  datatype Layout =
    | Scalar(wire: Wire)
    | Boolean
    | Text(capacity: nat, prefix: nat, unit: Wire)
    | Group(parts: seq<Layout>)

  /** The contents of a field in memory. */
  datatype Value =
    | Int(n: int)
    | Chars(chars: seq<int>)
    | Items(items: seq<Value>)

  // ---- From schema to layout --------------------------------------------------

  const CHAR := Wire(1, true)
  const WCHAR := Wire(2, true)

  function FieldLayout(s: Schema, f: Field, visiting: set<string>, fixedMode: bool): Result<Layout>
    decreases s.Keys - visiting, 1
  {
    match ElementLayout(s, f.ty, visiting, fixedMode)
    case Err(e) => Err(e)
    case Ok(l) => Arrayed(f, l, fixedMode)
  }

  function ElementLayout(s: Schema, ty: FieldType, visiting: set<string>, fixedMode: bool): (r: Result<Layout>)
    ensures ty.Character? && r.Ok? ==> r.value.Scalar?
    decreases s.Keys - visiting, 0
  {
    match ty
    case Number(w) => Ok(Scalar(w))
    case Flag => Ok(Boolean)
    case Character(wide) => Ok(Scalar(if wide then WCHAR else CHAR))
    case Struct(name) =>
      if name !in s then Err(Unknown(name))
      else if name in visiting then Err(Circular(name))
      else
        match StructLayouts(s, s[name], visiting + {name}, fixedMode)
        case Err(e) => Err(e)
        case Ok(parts) => Ok(Group(parts))
  }

  /** The layout of the whole field, given that of one element. */
  function Arrayed(f: Field, element: Layout, fixedMode: bool): Result<Layout>
    requires f.ty.Character? ==> element.Scalar?
  {
    if f.arrayLen.None? then Ok(element)
    else if fixedMode || !f.IsString() then Ok(Group(Copies(element, f.arrayLen.value)))
    else
      match PrefixSize(f.arrayLen.value)
      case Err(e) => Err(e)
      case Ok(prefix) => Ok(Text(f.arrayLen.value, prefix, element.wire))
  }

  function StructLayouts(s: Schema, fields: seq<Field>, visiting: set<string>, fixedMode: bool): Result<seq<Layout>>
    decreases s.Keys - visiting, |fields| + 2
  {
    if fields == [] then Ok([])
    else
      match FieldLayout(s, fields[0], visiting, fixedMode)
      case Err(e) => Err(e)
      case Ok(first) =>
        match StructLayouts(s, fields[1..], visiting, fixedMode)
        case Err(e) => Err(e)
        case Ok(rest) => Ok([first] + rest)
  }

  /** What a field that is no struct becomes, whatever the schema: only a variable-mode string has a prefix. */
  lemma PlainFieldLayout(s: Schema, f: Field, visiting: set<string>, fixedMode: bool)
    requires !f.ty.Struct?
    ensures var unit := if f.ty.Character? then Wire(if f.ty.wide then 2 else 1, true)
                        else if f.ty.Number? then f.ty.wire else Wire(1, false);
      var one := if f.ty.Flag? then Boolean else Scalar(unit);
      var r := FieldLayout(s, f, visiting, fixedMode);
      match f.arrayLen
      case None => r == Ok(one) && FieldSize(s, f, visiting, fixedMode) == Ok(unit.width)
      case Some(n) =>
        if fixedMode || !f.ty.Character? then
          r == Ok(Group(Copies(one, n))) && FieldSize(s, f, visiting, fixedMode) == Ok(unit.width * n)
        else if n > 0xFFFF_FFFF then r == Err(LengthTooLarge(n))
        else
          var p := if n < 256 then 1 else if n < 65536 then 2 else 4;
          r == Ok(Text(n, p, unit)) && FieldSize(s, f, visiting, fixedMode) == Ok(unit.width * n + p)
  {}

  /** A struct's layout is that of its fields, each of them once and in the order of the declaration. */
  lemma {:induction false} FieldsAreInOrder(s: Schema, fields: seq<Field>, visiting: set<string>, fixedMode: bool)
    requires StructLayouts(s, fields, visiting, fixedMode).Ok?
    ensures var parts := StructLayouts(s, fields, visiting, fixedMode).value;
      |parts| == |fields|
      && forall i :: 0 <= i < |fields| ==> FieldLayout(s, fields[i], visiting, fixedMode) == Ok(parts[i])
    decreases |fields|
  {
    hide FieldLayout;
    if fields != [] {
      FieldsAreInOrder(s, fields[1..], visiting, fixedMode);
    }
  }

  function Copies(l: Layout, count: nat): (r: seq<Layout>)
    ensures |r| == count && forall i :: 0 <= i < count ==> r[i] == l
  {
    seq(count, i => l)
  }

  /** The most bytes a layout takes. */
  function Capacity(l: Layout): nat
    decreases l
  {
    match l
    case Scalar(w) => w.width
    case Boolean => 1
    case Text(capacity, prefix, unit) => prefix + unit.width * capacity
    case Group(parts) => Capacities(parts)
  }

  function Capacities(parts: seq<Layout>): nat
    decreases parts
  {
    if parts == [] then 0 else Capacity(parts[0]) + Capacities(parts[1..])
  }

  predicate ValidLayout(l: Layout)
    decreases l
  {
    match l
    case Scalar(w) => w.Valid()
    case Boolean => true
    case Text(capacity, prefix, unit) => (prefix == 1 || prefix == 2 || prefix == 4) && capacity < Values(prefix)
        && unit.Valid()
    case Group(parts) => forall i :: 0 <= i < |parts| ==> ValidLayout(parts[i])
  }

  /** No strings: every instance takes the same number of bytes. */
  predicate Fixed(l: Layout)
    decreases l
  {
    match l
    case Text(_, _, _) => false
    case Group(parts) => forall i :: 0 <= i < |parts| ==> Fixed(parts[i])
    case _ => true
  }

  // ---- Layouts and sizes ------------------------------------------------------

  lemma {:induction false} CopiesHaveCapacity(l: Layout, count: nat)
    ensures Capacities(Copies(l, count)) == Capacity(l) * count
  {
    if count > 0 {
      assert Copies(l, count)[1..] == Copies(l, count - 1);
      CopiesHaveCapacity(l, count - 1);
    }
  }

  /** wire_size_of is what the field's layout takes at most, and fails just when there is no layout. */
  lemma {:induction false} FieldLayoutHasItsSize(s: Schema, f: Field, visiting: set<string>, fixedMode: bool)
    ensures FieldSize(s, f, visiting, fixedMode)
            == match FieldLayout(s, f, visiting, fixedMode)
               case Err(e) => Err(e)
               case Ok(l) => Ok(Capacity(l))
    decreases s.Keys - visiting, 1
  {
    var element := ElementLayout(s, f.ty, visiting, fixedMode);
    ElementLayoutHasItsSize(s, f.ty, visiting, fixedMode);
    if element.Ok? {
      ArrayedHasItsSize(f, element.value, fixedMode);
    }
    hide WithArray, Arrayed, ElementSize, ElementLayout;
  }

  lemma {:induction false} ElementLayoutHasItsSize(s: Schema, ty: FieldType, visiting: set<string>, fixedMode: bool)
    ensures ElementSize(s, ty, visiting, fixedMode)
            == match ElementLayout(s, ty, visiting, fixedMode)
               case Err(e) => Err(e)
               case Ok(l) => Ok(Capacity(l))
    decreases s.Keys - visiting, 0
  {
    if ty.Struct? && ty.name in s && ty.name !in visiting {
      StructLayoutsHaveItsSize(s, s[ty.name], visiting + {ty.name}, fixedMode);
    }
  }

  lemma ArrayedHasItsSize(f: Field, l: Layout, fixedMode: bool)
    requires f.ty.Character? ==> l.Scalar?
    ensures WithArray(f, Capacity(l), fixedMode)
            == match Arrayed(f, l, fixedMode)
               case Err(e) => Err(e)
               case Ok(whole) => Ok(Capacity(whole))
  {
    if f.arrayLen.Some? {
      CopiesHaveCapacity(l, f.arrayLen.value);
      hide Copies, Values;
    }
  }

  lemma {:induction false} StructLayoutsHaveItsSize(s: Schema, fields: seq<Field>, visiting: set<string>,
                                                    fixedMode: bool)
    ensures StructSize(s, fields, visiting, fixedMode)
            == match StructLayouts(s, fields, visiting, fixedMode)
               case Err(e) => Err(e)
               case Ok(parts) => Ok(Capacities(parts))
    decreases s.Keys - visiting, |fields| + 2
  {
    if fields != [] {
      FieldLayoutHasItsSize(s, fields[0], visiting, fixedMode);
      StructLayoutsHaveItsSize(s, fields[1..], visiting, fixedMode);
    }
  }

  /** Every number in the schema has one of the wire types. */
  predicate Resolved(s: Schema) {
    forall name :: name in s ==> FieldsResolved(s[name])
  }

  predicate FieldsResolved(fields: seq<Field>) {
    forall f :: f in fields && f.ty.Number? ==> f.ty.wire.Valid()
  }

  lemma {:induction false} FieldLayoutIsWellformed(s: Schema, f: Field, visiting: set<string>, fixedMode: bool)
    requires Resolved(s) && FieldsResolved([f])
    requires FieldLayout(s, f, visiting, fixedMode).Ok?
    ensures var l := FieldLayout(s, f, visiting, fixedMode).value; ValidLayout(l) && (fixedMode ==> Fixed(l))
    decreases s.Keys - visiting, 0
  {
    assert f in [f];
    if f.ty.Struct? {
      StructLayoutsAreWellformed(s, s[f.ty.name], visiting + {f.ty.name}, fixedMode);
    }
    if f.arrayLen.Some? && f.IsString() {
      ValuesOfWidths();
    }
  }

  lemma {:induction false} StructLayoutsAreWellformed(s: Schema, fields: seq<Field>, visiting: set<string>,
                                                      fixedMode: bool)
    requires Resolved(s) && FieldsResolved(fields)
    requires StructLayouts(s, fields, visiting, fixedMode).Ok?
    ensures forall l :: l in StructLayouts(s, fields, visiting, fixedMode).value ==>
      ValidLayout(l) && (fixedMode ==> Fixed(l))
    decreases s.Keys - visiting, |fields| + 2
  {
    if fields != [] {
      assert fields[0] in fields;
      FieldLayoutIsWellformed(s, fields[0], visiting, fixedMode);
      StructLayoutsAreWellformed(s, fields[1..], visiting, fixedMode);
    }
  }

  // ---- Numbers as bytes -------------------------------------------------------

  /** The low `width` bytes of `v`, low byte first. */
  function LowFirst(v: nat, width: nat): (r: seq<byte>)
    ensures |r| == width
  {
    if width == 0 then [] else [v % 256] + LowFirst(v / 256, width - 1)
  }

  /** The same bytes, high byte first. */
  function HighFirst(v: nat, width: nat): (r: seq<byte>)
    ensures |r| == width
  {
    if width == 0 then [] else HighFirst(v / 256, width - 1) + [v % 256]
  }

  function FromLowFirst(s: seq<byte>): nat {
    if s == [] then 0 else s[0] as nat + 256 * FromLowFirst(s[1..])
  }

  function FromHighFirst(s: seq<byte>): nat {
    if s == [] then 0 else s[|s| - 1] as nat + 256 * FromHighFirst(s[..|s| - 1])
  }

  function NatBytes(v: nat, width: nat, big: bool): (r: seq<byte>)
    ensures |r| == width
  {
    if big then HighFirst(v, width) else LowFirst(v, width)
  }

  function NatOf(s: seq<byte>, big: bool): nat {
    if big then FromHighFirst(s) else FromLowFirst(s)
  }

  lemma {:induction false} NatRoundTrip(v: nat, width: nat, big: bool)
    requires v < Values(width)
    ensures NatOf(NatBytes(v, width, big), big) == v
  {
    if width > 0 {
      NatRoundTrip(v / 256, width - 1, big);
      if big {
        var s := HighFirst(v, width);
        assert s[..|s| - 1] == HighFirst(v / 256, width - 1);
      } else {
        assert LowFirst(v, width)[1..] == LowFirst(v / 256, width - 1);
      }
    }
  }

  /** `v` without its low `k` bytes. */
  function DropBytes(v: nat, k: nat): nat {
    if k == 0 then v else DropBytes(v / 256, k - 1)
  }

  /** The byte order: byte `i` of the number is at place `i`, or at place `i` from the end. */
  lemma {:induction false} BytesAreInOrder(v: nat, width: nat, i: nat, big: bool)
    requires i < width
    ensures NatBytes(v, width, big)[if big then width - 1 - i else i] as int == DropBytes(v, i) % 256
    decreases width
  {
    if i > 0 {
      BytesAreInOrder(v / 256, width - 1, i - 1, big);
    }
  }

  /** The cast to the unsigned type of the same width. */
  function ToUnsigned(w: Wire, n: int): (u: nat)
    ensures u < Values(w.width)
  {
    n % Values(w.width)
  }

  function FromUnsigned(w: Wire, u: nat): int {
    if w.signed && u >= Values(w.width) / 2 then u - Values(w.width) else u
  }

  lemma ValuesAreEven(width: nat)
    requires width > 0
    ensures Values(width) % 2 == 0
  {}

  /** Just below zero the remainder is one modulus higher. */
  lemma RemainderBelowZero(n: int, m: int)
    requires m > 0 && -m <= n < 0
    ensures n % m == n + m
  {
    assert n == m * (n / m) + n % m;
    assert n / m == -1;
  }

  lemma RemainderIsSmall(n: nat, m: nat)
    requires n < m
    ensures n % m == n
  {}

  /** A number comes back from the wire unchanged exactly when its wire type holds it. */
  lemma NumberComesBackExactly(w: Wire, n: int)
    requires w.Valid()
    ensures FromUnsigned(w, ToUnsigned(w, n)) == n <==> w.Holds(n)
    ensures w.Holds(FromUnsigned(w, ToUnsigned(w, n)))
  {
    ValuesAreEven(w.width);
    var m, u := Values(w.width), ToUnsigned(w, n);
    if w.Holds(n) {
      if n < 0 {
        RemainderBelowZero(n, m);
      } else {
        RemainderIsSmall(n, m);
      }
    }
    hide Values, ToUnsigned;
  }
}
