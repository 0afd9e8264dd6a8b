/**
 The wire format: eight marker bytes, a sequence/type byte, a 4-byte length, a 4-byte checksum
 and the payload. `Encode` builds it and `Judge` is the verdict on bytes that have arrived.
 Framing does not depend on how the checksum is computed, so that is a parameter of the format.
 */
module Frames {
  import opened Bytes
  import opened Bits
  import opened Crc

  const HEADER_LENGTH := 17
  const CONTROL_MARKER: byte := 128
  const SEQUENCES := 64

  /** A command number and its payload: what put takes and get delivers. */
  datatype Message = Message(cmd: byte, payload: seq<byte>)

  /** A frame as the protocol sees it. `Corrupt` is any arrival that fails its checksum. */
  datatype Frame =
    | Data(seq6: nat, msg: Message)
    | Ack(seq6: nat)
    | Nack(seq6: nat)
    | Reserved
    | Corrupt

  /** What a completed assembly amounts to. */
  datatype Event =
    | Valid(marker: byte, seqByte: byte, payload: seq<byte>)
    | BadCrc
    | TooLong

  /** The bytes that the checksum covers: sequence byte, length, payload. */
  function Covered(seqByte: byte, payload: seq<byte>): seq<byte>
    requires |payload| < UINT32_LIMIT
  {
    [seqByte] + Le32(|payload|) + payload
  }

  /** Eight equal bytes of at least 128 at position `i`. */
  predicate MarkerAt(s: seq<byte>, i: nat) {
    i + 8 <= |s| && s[i] >= 128 && forall j :: i <= j < i + 8 ==> s[j] == s[i]
  }

  function LengthField(s: seq<byte>): (n: nat)
    requires |s| >= HEADER_LENGTH
    ensures n < UINT32_LIMIT
  {
    FromLe32(s[9..13])
  }

  /** The largest payload a receiver takes, and the checksum of the covered bytes. */
  datatype Format = Format(max: nat, sum: seq<byte> -> Register) {

    predicate Valid() {
      max < UINT32_LIMIT
    }

    predicate Sendable(m: Message) {
      1 <= m.cmd <= 127 && |m.payload| <= max
    }

    // ---- Building -------------------------------------------------------------

    function Encode(marker: byte, seqByte: byte, payload: seq<byte>): (r: seq<byte>)
      requires |payload| < UINT32_LIMIT
      ensures |r| == HEADER_LENGTH + |payload|
    {
      Fill(8, marker) + [seqByte] + Le32(|payload|) + StoreWord(sum(Covered(seqByte, payload))) + payload
    }

    function DataBytes(seq6: nat, m: Message): (r: seq<byte>)
      requires seq6 < SEQUENCES && m.cmd <= 127 && |m.payload| < UINT32_LIMIT
      ensures |r| == HEADER_LENGTH + |m.payload|
    {
      Encode(m.cmd + 128, seq6, m.payload)
    }

    function ControlBytes(kind: nat, seq6: nat): (r: seq<byte>)
      requires kind < 4 && seq6 < SEQUENCES
      ensures |r| == HEADER_LENGTH
    {
      Encode(CONTROL_MARKER, 64 * kind + seq6, [])
    }

    predicate Wellformed(f: Frame) {
      match f
      case Data(s, m) => s < SEQUENCES && Sendable(m)
      case Ack(s) => s < SEQUENCES
      case Nack(s) => s < SEQUENCES
      case Reserved => false
      case Corrupt => false
    }

    /** The bytes a sender writes for a frame. */
    function FrameBytes(f: Frame): seq<byte>
      requires Valid() && Wellformed(f)
    {
      match f
      case Data(s, m) => DataBytes(s, m)
      case Ack(s) => ControlBytes(1, s)
      case Nack(s) => ControlBytes(2, s)
    }

    /** The bytes of a frame that may be none, or one that cannot be sent. */
    function BytesOf(f: Option<Frame>): seq<byte>
      requires Valid()
    {
      if f.Some? && Wellformed(f.value) then FrameBytes(f.value) else []
    }

    // ---- Judging --------------------------------------------------------------

    /** The verdict on the bytes from a marker on, or None while more are needed. */
    function Judge(s: seq<byte>): Option<Event> {
      if |s| < HEADER_LENGTH then None
      else if LengthField(s) > max then Some(TooLong)
      else if |s| < HEADER_LENGTH + LengthField(s) then None
      else
        var payload := s[HEADER_LENGTH..HEADER_LENGTH + LengthField(s)];
        if LoadWord(s[13..17]) == sum(Covered(s[8], payload)) then Some(Event.Valid(s[0], s[8], payload))
        else Some(BadCrc)
    }
  }

  /** What a valid frame means: the marker and the type bits decide. */
  function Interpret(marker: byte, seqByte: byte, payload: seq<byte>): Frame {
    var kind, seq6 := seqByte / 64, seqByte % 64;
    if marker == CONTROL_MARKER || kind != 0 then
      if kind == 1 then Ack(seq6) else if kind == 2 then Nack(seq6) else Reserved
    else
      Data(seq6, Message((marker + 128) % 256, payload))
  }

  function Meaning(e: Event): Frame {
    match e
    case Valid(m, s, p) => Interpret(m, s, p)
    case BadCrc => Corrupt
    case TooLong => Reserved
  }

  // ---- Round trip -------------------------------------------------------------

  lemma SplitHeader<T>(a: seq<T>, b: T, c: seq<T>, d: seq<T>, e: seq<T>)
    requires |a| == 8 && |c| == |d| == 4
    ensures var r := a + [b] + c + d + e;
      r[..8] == a && r[8] == b && r[9..13] == c && r[13..17] == d && r[17..] == e
  {}

  lemma EncodeFields(fmt: Format, marker: byte, seqByte: byte, payload: seq<byte>)
    requires |payload| < UINT32_LIMIT
    ensures var r := fmt.Encode(marker, seqByte, payload);
      && r[..8] == Fill(8, marker) && r[0] == marker && r[8] == seqByte && r[9..13] == Le32(|payload|)
      && r[13..17] == StoreWord(fmt.sum(Covered(seqByte, payload))) && r[17..] == payload
  {
    SplitHeader(Fill(8, marker), seqByte, Le32(|payload|), StoreWord(fmt.sum(Covered(seqByte, payload))), payload);
    assert fmt.Encode(marker, seqByte, payload)[0] == fmt.Encode(marker, seqByte, payload)[..8][0];
  }

  /** Nothing is decided before the last byte that the length field announces. */
  lemma JudgeWaits(fmt: Format, s: seq<byte>, k: nat)
    requires |s| >= HEADER_LENGTH && LengthField(s) <= fmt.max && k < HEADER_LENGTH + LengthField(s) == |s|
    ensures fmt.Judge(s[..k]) == None
  {
    if k >= HEADER_LENGTH {
      assert s[..k][9..13] == s[9..13];
    }
  }

  /** A whole encoded frame is accepted. */
  lemma EncodeIsJudgedValid(fmt: Format, marker: byte, seqByte: byte, payload: seq<byte>)
    requires |payload| <= fmt.max < UINT32_LIMIT
    ensures var r := fmt.Encode(marker, seqByte, payload);
      LengthField(r) == |payload| && fmt.Judge(r) == Some(Event.Valid(marker, seqByte, payload))
  {
    var r, crc := fmt.Encode(marker, seqByte, payload), fmt.sum(Covered(seqByte, payload));
    EncodeFields(fmt, marker, seqByte, payload);
    Le32RoundTrip(|payload|);
    StoreWordRoundTrip(crc);
    assert r[HEADER_LENGTH..HEADER_LENGTH + |payload|] == payload;
  }

  /** Decoding the bytes of a data frame gives the frame back. */
  lemma DataRoundTrip(fmt: Format, seq6: nat, m: Message)
    requires fmt.Valid() && seq6 < SEQUENCES && fmt.Sendable(m)
    ensures fmt.Judge(fmt.DataBytes(seq6, m)) == Some(Event.Valid(m.cmd + 128, seq6, m.payload))
    ensures Interpret(m.cmd + 128, seq6, m.payload) == Data(seq6, m)
  {
    hide LengthField, Le32;
    EncodeIsJudgedValid(fmt, m.cmd + 128, seq6, m.payload);
  }

  /** Decoding the bytes of a control frame gives the frame back. */
  lemma ControlRoundTrip(fmt: Format, kind: nat, seq6: nat)
    requires fmt.Valid() && kind < 4 && seq6 < SEQUENCES
    ensures fmt.Judge(fmt.ControlBytes(kind, seq6)) == Some(Event.Valid(CONTROL_MARKER, 64 * kind + seq6, []))
    ensures Interpret(CONTROL_MARKER, 64 * kind + seq6, [])
            == if kind == 1 then Ack(seq6) else if kind == 2 then Nack(seq6) else Reserved
  {
    hide LengthField, Le32;
    EncodeIsJudgedValid(fmt, CONTROL_MARKER, 64 * kind + seq6, []);
    assert (64 * kind + seq6) / 64 == kind;
  }

  /** Decoding what was encoded gives the frame back. */
  lemma FrameRoundTrip(fmt: Format, f: Frame)
    requires fmt.Valid() && fmt.Wellformed(f)
    ensures var e := fmt.Judge(fmt.FrameBytes(f));
      e.Some? && e.value.Valid? && Meaning(e.value) == f
  {
    hide LengthField, Le32;
    match f
    case Data(s, m) => DataRoundTrip(fmt, s, m);
    case Ack(s) => ControlRoundTrip(fmt, 1, s);
    case Nack(s) => ControlRoundTrip(fmt, 2, s);
  }

  // ---- Damage -----------------------------------------------------------------

  /** The format of frame_arq.c: the checksum is the CRC-32 of the covered bytes. */
  function Crc32Format(max: nat): Format {
    Format(max, FrameCrc)
  }

  /** `bad` is an encoded frame after damage that leaves the markers and the length field alone. */
  predicate SameShape(fmt: Format, bad: seq<byte>, marker: byte, seqByte: byte, payload: seq<byte>)
    requires |payload| < UINT32_LIMIT
  {
    var good := fmt.Encode(marker, seqByte, payload);
    |bad| == |good| && bad[..8] == good[..8] && bad[9..13] == good[9..13]
  }

  /** The damage flips covered bits within one window of 32, or changes only the checksum field. */
  ghost predicate Damaged(fmt: Format, bad: seq<byte>, seqByte: byte, payload: seq<byte>)
    requires |payload| < UINT32_LIMIT && |bad| == HEADER_LENGTH + |payload|
  {
    var stored := StoreWord(fmt.sum(Covered(seqByte, payload)));
    || (bad[13..17] == stored && Burst(Covered(bad[8], bad[17..]), Covered(seqByte, payload)))
    || (bad[13..17] != stored && bad[8] == seqByte && bad[17..] == payload)
  }

  /** Such damage is always seen as a checksum error. */
  lemma DamageIsDetected(max: nat, bad: seq<byte>, marker: byte, seqByte: byte, payload: seq<byte>)
    requires |payload| <= max < UINT32_LIMIT
    requires SameShape(Crc32Format(max), bad, marker, seqByte, payload)
    requires Damaged(Crc32Format(max), bad, seqByte, payload)
    ensures Crc32Format(max).Judge(bad) == Some(BadCrc) && LengthField(bad) == |payload|
  {
    var covered := Covered(seqByte, payload);
    if bad[13..17] == StoreWord(FrameCrc(covered)) {
      StoreWordRoundTrip(FrameCrc(covered));
      BurstChangesFrameCrc(Covered(bad[8], bad[17..]), covered);
    } else if LoadWord(bad[13..17]) == FrameCrc(covered) {
      StoreWordRoundTrip(FrameCrc(covered));
      LoadWordIsInjective(bad[13..17], StoreWord(FrameCrc(covered)));
    }
    MismatchIsJudgedBad(Crc32Format(max), bad, marker, seqByte, payload);
  }

  lemma MismatchIsJudgedBad(fmt: Format, bad: seq<byte>, marker: byte, seqByte: byte, payload: seq<byte>)
    requires |payload| <= fmt.max < UINT32_LIMIT
    requires SameShape(fmt, bad, marker, seqByte, payload)
    requires LoadWord(bad[13..17]) != fmt.sum(Covered(bad[8], bad[17..]))
    ensures fmt.Judge(bad) == Some(BadCrc) && LengthField(bad) == |payload|
  {
    EncodeFields(fmt, marker, seqByte, payload);
    Le32RoundTrip(|payload|);
    assert bad[HEADER_LENGTH..HEADER_LENGTH + |payload|] == bad[17..];
  }

  /** Up to four consecutive payload bytes changed, whatever to. */
  lemma PayloadDamageIsDetected(max: nat, marker: byte, seqByte: byte, before: seq<byte>, was: seq<byte>,
                                now: seq<byte>, after: seq<byte>)
    requires |before + was + after| <= max < UINT32_LIMIT
    requires |was| == |now| <= 4 && was != now
    ensures var good := Crc32Format(max).Encode(marker, seqByte, before + was + after);
      Crc32Format(max).Judge(good[..HEADER_LENGTH] + (before + now + after)) == Some(BadCrc)
  {
    hide FrameCrc, Format.Judge, Burst, LengthField, Le32;
    var fmt, payload := Crc32Format(max), before + was + after;
    var good := fmt.Encode(marker, seqByte, payload);
    var bad := good[..HEADER_LENGTH] + (before + now + after);
    HeaderSurvives(good, before + now + after);
    EncodeFields(fmt, marker, seqByte, payload);
    var head := [seqByte] + Le32(|payload|) + before;
    FourBytesAreABurst(head, now, was, after);
    assert Covered(bad[8], bad[17..]) == head + now + after;
    assert Covered(seqByte, payload) == head + was + after;
    DamageIsDetected(max, bad, marker, seqByte, payload);
  }

  lemma HeaderSurvives(good: seq<byte>, rest: seq<byte>)
    requires |good| >= HEADER_LENGTH
    ensures var bad := good[..HEADER_LENGTH] + rest;
      && bad[..8] == good[..8] && bad[8] == good[8] && bad[9..13] == good[9..13]
      && bad[13..17] == good[13..17] && bad[17..] == rest
  {}

  /** The sequence byte changed. */
  lemma SequenceDamageIsDetected(max: nat, marker: byte, seqByte: byte, other: byte, payload: seq<byte>)
    requires |payload| <= max < UINT32_LIMIT && other != seqByte
    ensures Crc32Format(max).Judge(Crc32Format(max).Encode(marker, seqByte, payload)[8 := other]) == Some(BadCrc)
  {
    hide FrameCrc, Format.Judge, Burst, LengthField, Le32;
    var fmt := Crc32Format(max);
    var good := fmt.Encode(marker, seqByte, payload);
    var bad := good[8 := other];
    EncodeFields(fmt, marker, seqByte, payload);
    assert bad[..8] == good[..8] && bad[9..13] == good[9..13] && bad[13..17] == good[13..17] && bad[17..] == good[17..];
    var rest := Le32(|payload|) + payload;
    FourBytesAreABurst([], [other], [seqByte], rest);
    assert Covered(other, payload) == [] + [other] + rest && Covered(seqByte, payload) == [] + [seqByte] + rest;
    DamageIsDetected(max, bad, marker, seqByte, payload);
  }

  /** The CRC field changed. */
  lemma ChecksumDamageIsDetected(max: nat, marker: byte, seqByte: byte, payload: seq<byte>, field: seq<byte>)
    requires |payload| <= max < UINT32_LIMIT
    requires |field| == 4 && field != Crc32Format(max).Encode(marker, seqByte, payload)[13..17]
    ensures var good := Crc32Format(max).Encode(marker, seqByte, payload);
      Crc32Format(max).Judge(good[..13] + field + good[17..]) == Some(BadCrc)
  {
    hide FrameCrc, Format.Judge, Burst, LengthField, Le32;
    var fmt := Crc32Format(max);
    var good := fmt.Encode(marker, seqByte, payload);
    var bad := good[..13] + field + good[17..];
    EncodeFields(fmt, marker, seqByte, payload);
    assert bad[..8] == good[..8] && bad[8] == good[8] && bad[9..13] == good[9..13] && bad[13..17] == field
           && bad[17..] == good[17..];
    DamageIsDetected(max, bad, marker, seqByte, payload);
  }
}
