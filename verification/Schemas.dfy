/**
 The sizes that the serializer generator computes from a parsed header, and the errors with
 which it refuses one: a struct that contains itself, an unknown type, an over-long string.
 */
module Schemas {
  import opened Bytes

  /** The integer types that go on the wire. */
  datatype Wire = Wire(width: nat, signed: bool) {
    predicate Valid() {
      width == 1 || width == 2 || width == 4 || width == 8
    }

    /** The values it holds. */
    predicate Holds(v: int) {
      if signed then -(Values(width) / 2) <= v < Values(width) / 2 else 0 <= v < Values(width)
    }
  }

  /** The number of values of `width` bytes. */
  function Values(width: nat): (n: nat)
    ensures n > 0
  {
    if width == 0 then 1 else 256 * Values(width - 1)
  }

  /** A resolved field type. An enum is a number of its wire type. */
  datatype FieldType =
    | Number(wire: Wire)
    | Flag                  // bool
    | Character(wide: bool) // char or wchar_t
    | Struct(name: string)

  datatype Field = Field(ty: FieldType, arrayLen: Option<nat>) {
    /** A char or wchar_t array; only these get a length prefix. */
    predicate IsString() {
      arrayLen.Some? && ty.Character?
    }
  }

  type Schema = map<string, seq<Field>>

  datatype SchemaError =
    | Circular(name: string)
    | Unknown(name: string)
    | LengthTooLarge(length: nat)

  datatype Result<+T> = Ok(value: T) | Err(error: SchemaError)

  // ---- Enums and length prefixes ----------------------------------------------

  function EnumWireType(minVal: int, maxVal: int): (w: Wire)
    ensures w.Valid()
  {
    if minVal >= 0 then
      if maxVal <= 0xFF then Wire(1, false)
      else if maxVal <= 0xFFFF then Wire(2, false)
      else if maxVal <= 0xFFFF_FFFF then Wire(4, false)
      else Wire(8, false)
    else
      if minVal >= -128 && maxVal <= 127 then Wire(1, true)
      else if minVal >= -32768 && maxVal <= 32767 then Wire(2, true)
      else if minVal >= -2147483648 && maxVal <= 2147483647 then Wire(4, true)
      else Wire(8, true)
  }

  lemma ValuesOfWidths()
    ensures Values(1) == 0x100 && Values(2) == 0x1_0000 && Values(4) == 0x1_0000_0000
    ensures Values(8) == 0x1_0000_0000_0000_0000
  {
    assert Values(0) == 1 && Values(1) == 256 * Values(0) && Values(2) == 256 * Values(1);
    assert Values(3) == 256 * Values(2) && Values(4) == 256 * Values(3) && Values(5) == 256 * Values(4);
    assert Values(6) == 256 * Values(5) && Values(7) == 256 * Values(6) && Values(8) == 256 * Values(7);
  }

  /**
   The chosen type holds every value of the enum exactly when some 64-bit type does: with a
   negative value nothing above 2^63 - 1 fits, without one nothing above 2^64 - 1.
   */
  lemma EnumTypeHoldsItsValues(minVal: int, maxVal: int)
    requires minVal <= maxVal
    ensures (forall v :: minVal <= v <= maxVal ==> EnumWireType(minVal, maxVal).Holds(v))
            <==> if minVal >= 0 then maxVal <= 0xFFFF_FFFF_FFFF_FFFF
                 else minVal >= -0x8000_0000_0000_0000 && maxVal <= 0x7FFF_FFFF_FFFF_FFFF
  {
    ValuesOfWidths();
    var w := EnumWireType(minVal, maxVal);
    hide Values;
    assert w.Holds(minVal) && w.Holds(maxVal)
           <==> if minVal >= 0 then maxVal <= 0xFFFF_FFFF_FFFF_FFFF
                else minVal >= -0x8000_0000_0000_0000 && maxVal <= 0x7FFF_FFFF_FFFF_FFFF;
    if w.Holds(minVal) && w.Holds(maxVal) {
      assert forall v :: minVal <= v <= maxVal ==> w.Holds(v);
    }
  }

  /** And it is the narrowest of its signedness that does. */
  lemma EnumTypeIsNarrowest(minVal: int, maxVal: int, w: Wire)
    requires minVal <= maxVal && w.Valid() && (w.signed <==> minVal < 0)
    requires w.Holds(minVal) && w.Holds(maxVal)
    ensures EnumWireType(minVal, maxVal).width <= w.width
  {
    ValuesOfWidths();
  }

  const MAX_STRING := 0xFFFF_FFFF

  /** The width of a string's length prefix. */
  function PrefixSize(arrayLen: nat): (r: Result<nat>)
    ensures r.Ok? <==> arrayLen <= MAX_STRING
  {
    if arrayLen < 256 then Ok(1)
    else if arrayLen < 65536 then Ok(2)
    else if arrayLen <= MAX_STRING then Ok(4)
    else Err(LengthTooLarge(arrayLen))
  }

  /** There is one just up to 2^32 - 1; it holds every length up to the capacity, and no smaller one does. */
  lemma PrefixIsNarrowest(arrayLen: nat, w: nat)
    ensures PrefixSize(arrayLen).Ok? <==> arrayLen <= 0xFFFF_FFFF
    ensures PrefixSize(arrayLen).Ok? ==>
      var p := PrefixSize(arrayLen).value;
      && (p == 1 || p == 2 || p == 4) && arrayLen < Values(p)
      && ((w == 1 || w == 2 || w == 4) && arrayLen < Values(w) ==> p <= w)
    ensures PrefixSize(arrayLen).Err? ==> PrefixSize(arrayLen).error == LengthTooLarge(arrayLen)
  {
    ValuesOfWidths();
    hide Values;
  }

  // ---- Wire sizes -------------------------------------------------------------

  /** wire_size_of: one field, recursing into nested structs that are not being visited. */
  function FieldSize(s: Schema, f: Field, visiting: set<string>, fixedMode: bool): Result<nat>
    decreases s.Keys - visiting, 1
  {
    match ElementSize(s, f.ty, visiting, fixedMode)
    case Err(e) => Err(e)
    case Ok(size) => WithArray(f, size, fixedMode)
  }

  function ElementSize(s: Schema, ty: FieldType, visiting: set<string>, fixedMode: bool): Result<nat>
    decreases s.Keys - visiting, 0
  {
    match ty
    case Number(w) => Ok(w.width)
    case Flag => Ok(1)
    case Character(wide) => Ok(if wide then 2 else 1)
    case Struct(name) =>
      if name !in s then Err(Unknown(name))
      else if name in visiting then Err(Circular(name))
      else StructSize(s, s[name], visiting + {name}, fixedMode)
  }

  /** The size of the whole field, given that of one element. */
  function WithArray(f: Field, element: nat, fixedMode: bool): Result<nat> {
    var total := element * f.arrayLen.GetOr(1);
    if fixedMode || !f.IsString() then Ok(total)
    else
      match PrefixSize(f.arrayLen.value)
      case Err(e) => Err(e)
      case Ok(prefix) => Ok(total + prefix)
  }

  /** struct_wire_size: the sum over the fields, or the first error. */
  function StructSize(s: Schema, fields: seq<Field>, visiting: set<string>, fixedMode: bool): Result<nat>
    decreases s.Keys - visiting, |fields| + 2
  {
    if fields == [] then Ok(0)
    else
      match FieldSize(s, fields[0], visiting, fixedMode)
      case Err(e) => Err(e)
      case Ok(first) =>
        match StructSize(s, fields[1..], visiting, fixedMode)
        case Err(e) => Err(e)
        case Ok(rest) => Ok(first + rest)
  }

  /** compute_max_wire_size over the structs in the order of the header. */
  function MaxSize(s: Schema, names: seq<string>, fixedMode: bool): (r: Result<nat>)
    requires forall n :: n in names ==> n in s
  {
    if names == [] then Ok(0)
    else
      match StructSize(s, s[names[0]], {}, fixedMode)
      case Err(e) => Err(e)
      case Ok(first) =>
        match MaxSize(s, names[1..], fixedMode)
        case Err(e) => Err(e)
        case Ok(rest) => Ok(if first > rest then first else rest)
  }

  // ---- When it fails ----------------------------------------------------------

  /** A path through the schema: each struct has a field of the next one's type. */
  ghost predicate IsPath(s: Schema, p: seq<string>) {
    && (forall i :: 0 <= i < |p| ==> p[i] in s)
    && (forall i :: 0 <= i < |p| - 1 ==> Contains(s, p[i], p[i + 1]))
  }

  ghost predicate Contains(s: Schema, outer: string, inner: string)
    requires outer in s
  {
    exists f :: f in s[outer] && f.ty == Struct(inner)
  }

  /** Following fields from `start` one can come back to where one was. */
  ghost predicate CycleReachable(s: Schema, start: string) {
    exists p, i: nat :: IsPath(s, p) && i + 1 < |p| && p[0] == start && p[i] == p[|p| - 1]
  }

  ghost predicate Reachable(s: Schema, start: string, name: string) {
    exists p :: IsPath(s, p) && p != [] && p[0] == start && p[|p| - 1] == name
  }

  /** What in the schema an error is about, somewhere below `start`. */
  ghost predicate Cause(s: Schema, start: string, fixedMode: bool, e: SchemaError) {
    match e
    case Circular(_) => CycleReachable(s, start)
    case Unknown(name) =>
      name !in s && exists at :: Reachable(s, start, at) && exists f :: f in s[at] && f.ty == Struct(name)
    case LengthTooLarge(n) =>
      && !fixedMode && n > MAX_STRING
      && exists at :: Reachable(s, start, at) && exists f :: f in s[at] && f.IsString() && f.arrayLen == Some(n)
  }

  /** An error has its cause below the start of the trail that led to it. */
  lemma {:induction false} FieldErrorHasCause(s: Schema, f: Field, trail: seq<string>, visiting: set<string>,
                                              fixedMode: bool)
    requires IsPath(s, trail) && trail != [] && f in s[trail[|trail| - 1]]
    requires forall n :: n in visiting ==> n in trail
    requires FieldSize(s, f, visiting, fixedMode).Err?
    ensures Cause(s, trail[0], fixedMode, FieldSize(s, f, visiting, fixedMode).error)
    decreases s.Keys - visiting, 0
  {
    var at := trail[|trail| - 1];
    assert Reachable(s, trail[0], at);
    if f.ty.Struct? && f.ty.name in s {
      var name := f.ty.name;
      var longer := trail + [name];
      assert Contains(s, at, name);
      assert IsPath(s, longer);
      if name in visiting {
        var i: nat :| i < |trail| && trail[i] == name;
        assert longer[i] == longer[|longer| - 1];
      } else if StructSize(s, s[name], visiting + {name}, fixedMode).Err? {
        StructErrorHasCause(s, s[name], longer, visiting + {name}, fixedMode);
      }
    }
  }

  lemma {:induction false} StructErrorHasCause(s: Schema, fields: seq<Field>, trail: seq<string>,
                                               visiting: set<string>, fixedMode: bool)
    requires IsPath(s, trail) && trail != [] && (forall f :: f in fields ==> f in s[trail[|trail| - 1]])
    requires forall n :: n in visiting ==> n in trail
    requires StructSize(s, fields, visiting, fixedMode).Err?
    ensures Cause(s, trail[0], fixedMode, StructSize(s, fields, visiting, fixedMode).error)
    decreases s.Keys - visiting, |fields| + 2
  {
    assert fields[0] in fields && forall f :: f in fields[1..] ==> f in fields;
    if FieldSize(s, fields[0], visiting, fixedMode).Err? {
      FieldErrorHasCause(s, fields[0], trail, visiting, fixedMode);
    } else {
      StructErrorHasCause(s, fields[1..], trail, visiting, fixedMode);
    }
  }

  /** A struct that has a size has one for each of its fields. */
  lemma {:induction false} FieldsHaveSizes(s: Schema, fields: seq<Field>, visiting: set<string>, fixedMode: bool,
                                           f: Field)
    requires StructSize(s, fields, visiting, fixedMode).Ok? && f in fields
    ensures FieldSize(s, f, visiting, fixedMode).Ok?
    decreases |fields|
  {
    if f != fields[0] {
      FieldsHaveSizes(s, fields[1..], visiting, fixedMode, f);
    }
  }

  lemma NextOnPath(s: Schema, p: seq<string>, visiting: set<string>, fixedMode: bool)
    requires IsPath(s, p) && |p| > 1 && StructSize(s, s[p[0]], visiting, fixedMode).Ok?
    ensures p[1] !in visiting && StructSize(s, s[p[1]], visiting + {p[1]}, fixedMode).Ok?
    ensures IsPath(s, p[1..])
  {
    assert Contains(s, p[0], p[0 + 1]);
    var f :| f in s[p[0]] && f.ty == Struct(p[1]);
    FieldsHaveSizes(s, s[p[0]], visiting, fixedMode, f);
    forall i | 0 <= i < |p[1..]| - 1 ensures Contains(s, p[1..][i], p[1..][i + 1]) {
      assert Contains(s, p[i + 1], p[i + 1 + 1]);
    }
  }

  /**
   Below a struct that has a size no path meets what is being visited, or itself again, and every
   struct has a size.
   */
  lemma {:induction false} PathsDoNotReturn(s: Schema, p: seq<string>, visiting: set<string>,
                                            fixedMode: bool) returns (v: set<string>)
    requires IsPath(s, p) && p != [] && StructSize(s, s[p[0]], visiting, fixedMode).Ok?
    ensures forall i :: 1 <= i < |p| ==> p[i] !in visiting
    ensures forall i, j :: 1 <= i < j < |p| ==> p[i] != p[j]
    ensures StructSize(s, s[p[|p| - 1]], v, fixedMode).Ok?
    decreases |p|
  {
    v := visiting;
    if |p| > 1 {
      NextOnPath(s, p, visiting, fixedMode);
      v := PathsDoNotReturn(s, p[1..], visiting + {p[1]}, fixedMode);
      assert forall i :: 1 <= i < |p| ==> p[i] == p[1..][i - 1];
    }
  }

  /** No path comes back; a return to the start itself would be met one step later. */
  lemma SizedHasNoCycle(s: Schema, p: seq<string>, i: nat, fixedMode: bool)
    requires IsPath(s, p) && i + 1 < |p|
    requires StructSize(s, s[p[0]], {}, fixedMode).Ok?
    ensures p[i] != p[|p| - 1]
  {
    if i > 0 {
      var _ := PathsDoNotReturn(s, p, {}, fixedMode);
    } else if p[0] == p[|p| - 1] {
      var longer := p + [p[1]];
      forall k | 0 <= k < |longer| - 1 ensures Contains(s, longer[k], longer[k + 1]) {
        assert Contains(s, p[0], p[0 + 1]);
      }
      assert longer[1] == longer[|longer| - 1];
      var _ := PathsDoNotReturn(s, longer, {}, fixedMode);
    }
  }

  lemma SizedHasNoCause(s: Schema, start: string, fixedMode: bool, e: SchemaError)
    requires start in s && StructSize(s, s[start], {}, fixedMode).Ok?
    ensures !Cause(s, start, fixedMode, e)
  {
    if Cause(s, start, fixedMode, e) {
      if e.Circular? {
        var p, i: nat :| IsPath(s, p) && i + 1 < |p| && p[0] == start && p[i] == p[|p| - 1];
        SizedHasNoCycle(s, p, i, fixedMode);
      } else {
        var at, f :| Reachable(s, start, at) && f in s[at]
          && if e.Unknown? then f.ty == Struct(e.name) else f.IsString() && f.arrayLen == Some(e.length);
        var p :| IsPath(s, p) && p != [] && p[0] == start && p[|p| - 1] == at;
        var v := PathsDoNotReturn(s, p, {}, fixedMode);
        FieldsHaveSizes(s, s[at], v, fixedMode, f);
      }
    }
  }

  /** struct_wire_size fails exactly when something below the struct is wrong. */
  lemma SizeFailsExactly(s: Schema, start: string, fixedMode: bool)
    requires start in s
    ensures StructSize(s, s[start], {}, fixedMode).Err? <==> exists e :: Cause(s, start, fixedMode, e)
  {
    if StructSize(s, s[start], {}, fixedMode).Err? {
      assert IsPath(s, [start]);
      StructErrorHasCause(s, s[start], [start], {}, fixedMode);
    } else if e :| Cause(s, start, fixedMode, e) {
      SizedHasNoCause(s, start, fixedMode, e);
    }
  }

  /**
   With every type known and every string short enough, the circular-reference error is reported
   exactly when a cycle can be reached from the struct.
   */
  lemma CircularErrorIffCycle(s: Schema, start: string, fixedMode: bool)
    requires start in s
    requires forall e :: Cause(s, start, fixedMode, e) ==> e.Circular?
    ensures var r := StructSize(s, s[start], {}, fixedMode);
      r.Err? && r.error.Circular? <==> CycleReachable(s, start)
  {
    var r := StructSize(s, s[start], {}, fixedMode);
    if r.Err? {
      assert IsPath(s, [start]);
      StructErrorHasCause(s, s[start], [start], {}, fixedMode);
    } else {
      SizedHasNoCause(s, start, fixedMode, Circular(start));
    }
  }

  /** The maximum bounds the size of every struct and is one of them; it fails when one of them does. */
  lemma {:induction false} MaxSizeBounds(s: Schema, names: seq<string>, fixedMode: bool)
    requires forall n :: n in names ==> n in s
    ensures var r := MaxSize(s, names, fixedMode);
      && (r.Ok? <==> forall n :: n in names ==> StructSize(s, s[n], {}, fixedMode).Ok?)
      && (r.Ok? ==> forall n :: n in names ==> StructSize(s, s[n], {}, fixedMode).value <= r.value)
      && (r.Ok? && names != [] ==> exists n :: n in names && StructSize(s, s[n], {}, fixedMode) == r)
      && (r.Ok? && names == [] ==> r.value == 0)
  {
    if names != [] {
      MaxSizeBounds(s, names[1..], fixedMode);
      var r, first, rest := MaxSize(s, names, fixedMode), StructSize(s, s[names[0]], {}, fixedMode),
          MaxSize(s, names[1..], fixedMode);
      assert names[0] in names && forall n :: n in names[1..] ==> n in names;
      assert forall n :: n in names ==> n == names[0] || n in names[1..];
      if r.Ok? && names[1..] == [] {
        assert r == first;
      }
    }
  }
}
