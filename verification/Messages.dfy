/** What the generator promises for a whole schema, and what that means for the frames that carry its messages. */
module Messages {
  import opened Bytes
  import opened Schemas
  import opened Layouts
  import opened Codec
  import opened Frames

  /** The layout of a struct that has one. */
  function LayoutOf(s: Schema, name: string, fixedMode: bool): Layout
    requires name in s && StructSize(s, s[name], {}, fixedMode).Ok?
  {
    StructLayoutsHaveItsSize(s, s[name], {}, fixedMode);
    Group(StructLayouts(s, s[name], {}, fixedMode).value)
  }

  lemma LayoutIsSound(s: Schema, name: string, fixedMode: bool)
    requires Resolved(s) && name in s && StructSize(s, s[name], {}, fixedMode).Ok?
    ensures var l := LayoutOf(s, name, fixedMode);
      && ValidLayout(l) && (fixedMode ==> Fixed(l))
      && Capacity(l) == StructSize(s, s[name], {}, fixedMode).value
  {
    StructLayoutsHaveItsSize(s, s[name], {}, fixedMode);
    StructLayoutsAreWellformed(s, s[name], {}, fixedMode);
    hide StructSize, StructLayouts, ValidLayout, Fixed;
    var parts := LayoutOf(s, name, fixedMode).parts;
    assert forall i :: 0 <= i < |parts| ==> parts[i] in parts;
    GroupIsSound(parts, fixedMode);
  }

  lemma GroupIsSound(parts: seq<Layout>, fixedMode: bool)
    requires forall l :: l in parts ==> ValidLayout(l) && (fixedMode ==> Fixed(l))
    ensures ValidLayout(Group(parts)) && (fixedMode ==> Fixed(Group(parts)))
  {}

  /**
   For every struct that the generator accepts, in both byte orders and both string modes: what was
   written is read back, over any instance, from exactly its own bytes; it is the same instance up
   to the first NUL of its strings exactly when its numbers fit; and cut short it is refused.
   */
  lemma SchemaRoundTrip(s: Schema, name: string, fixedMode: bool, big: bool, v: Value, dst: Value, rest: seq<byte>)
    requires Resolved(s) && name in s && StructSize(s, s[name], {}, fixedMode).Ok?
    requires var l := LayoutOf(s, name, fixedMode); Shaped(l, v) && Shaped(l, dst)
    ensures var l := LayoutOf(s, name, fixedMode);
      && Read(l, dst, Write(l, v, big) + rest, big) == Got(Restored(l, v, dst), rest)
      && (Same(l, v, Restored(l, v, dst)) <==> Fits(l, v))
      && forall k :: 0 <= k < |Write(l, v, big)| ==> Read(l, dst, Write(l, v, big)[..k], big) == Failed(Ended)
  {
    LayoutIsSound(s, name, fixedMode);
    var l := LayoutOf(s, name, fixedMode);
    hide LayoutOf;
    RoundTrip(l, v, dst, rest, big);
    RestoredIsSameExactly(l, v, dst);
    forall k | 0 <= k < |Write(l, v, big)| ensures Read(l, dst, Write(l, v, big)[..k], big) == Failed(Ended) {
      CutIsEnded(l, v, dst, k, big);
    }
  }

  /** The size function, the bytes written, the struct's SIZE constant and the header's MAX_SIZE agree. */
  lemma SchemaSizes(s: Schema, names: seq<string>, name: string, fixedMode: bool, big: bool, v: Value)
    requires Resolved(s) && (forall n :: n in names ==> n in s) && name in names
    requires MaxSize(s, names, fixedMode).Ok?
    requires StructSize(s, s[name], {}, fixedMode).Ok? && Shaped(LayoutOf(s, name, fixedMode), v)
    ensures var l := LayoutOf(s, name, fixedMode);
      && |Write(l, v, big)|
           == Size(l, v) <= StructSize(s, s[name], {}, fixedMode).value <= MaxSize(s, names, fixedMode).value
      && (fixedMode ==> Size(l, v) == StructSize(s, s[name], {}, fixedMode).value)
  {
    LayoutIsSound(s, name, fixedMode);
    MaxSizeBounds(s, names, fixedMode);
    SizesAgree(LayoutOf(s, name, fixedMode), v, big);
  }

  /**
   An engine created for MAX_SIZE carries every message of the schema: framed, judged and read, it is
   the instance again.
   */
  lemma MessageSurvivesItsFrame(s: Schema, names: seq<string>, name: string, fixedMode: bool, big: bool,
                                v: Value, dst: Value, fmt: Format, cmd: byte, seq6: nat)
    requires Resolved(s) && (forall n :: n in names ==> n in s) && name in names
    requires MaxSize(s, names, fixedMode) == Ok(fmt.max) && fmt.Valid()
    requires StructSize(s, s[name], {}, fixedMode).Ok?
    requires var l := LayoutOf(s, name, fixedMode); Shaped(l, v) && Shaped(l, dst) && Fits(l, v)
    requires 1 <= cmd <= 127 && seq6 < SEQUENCES
    ensures var l := LayoutOf(s, name, fixedMode);
      var m := Message(cmd, Write(l, v, big));
      && fmt.Sendable(m)
      && var judged := fmt.Judge(fmt.DataBytes(seq6, m));
         && judged.Some? && Meaning(judged.value) == Data(seq6, m)
         && var back := Read(l, dst, m.payload, big);
            back.Got? && back.rest == [] && Same(l, v, back.value)
  {
    var l := LayoutOf(s, name, fixedMode);
    SchemaSizes(s, names, name, fixedMode, big, v);
    SchemaRoundTrip(s, name, fixedMode, big, v, dst, []);
    assert Write(l, v, big) + [] == Write(l, v, big);
    DataRoundTrip(fmt, seq6, Message(cmd, Write(l, v, big)));
  }
}
