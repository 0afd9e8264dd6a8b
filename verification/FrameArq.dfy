/**
 The engine of frame_arq.c as a class over its two buffers, proved against the assembler
 (what a read makes of the bytes) and the endpoint (what a frame does to the ARQ state).
 */
module FrameArqEngine {
  import opened Bytes
  import opened Callbacks
  import opened Bits
  import opened Crc
  import opened CrcLoops
  import opened Frames
  import opened Assembler
  import opened Endpoints

  const FRAME_ARQ_ERROR_BUSY := -7
  const FRAME_ARQ_ERROR_ARG := -6
  const FRAME_ARQ_ERROR_OVERFLOW := -4
  const FRAME_ARQ_ERROR_CRC := -3
  const FRAME_ARQ_INCOMPLETE := -2
  const FRAME_ARQ_RESEND_NEEDED := -1
  const FRAME_ARQ_SUCCESS := 0

  /** The value that get returns for each outcome. */
  function Code(o: Outcome): int {
    match o
    case Nothing => FRAME_ARQ_SUCCESS
    case Deliver(m) => m.cmd
    case ResendNeeded => FRAME_ARQ_RESEND_NEEDED
    case CrcError => FRAME_ARQ_ERROR_CRC
    case Overflow => FRAME_ARQ_ERROR_OVERFLOW
  }

  /** fa_wr_u32 for a length. */
  method StoreLength(p: array<byte>, at: nat, v: nat)
    requires at + 4 <= p.Length && v < UINT32_LIMIT
    modifies p
    ensures p[..] == old(p[..at]) + Le32(v) + old(p[at + 4..])
  {
    p[at], p[at + 1], p[at + 2], p[at + 3] := v % 256, v / 0x100 % 256, v / 0x1_0000 % 256, v / 0x100_0000;
  }

  /** fa_wr_u32 for a CRC. */
  method StoreCrc(p: array<byte>, at: nat, crc: Register)
    requires at + 4 <= p.Length
    modifies p
    ensures p[..] == old(p[..at]) + StoreWord(crc) + old(p[at + 4..])
  {
    var w := StoreWord(crc);
    p[at], p[at + 1], p[at + 2], p[at + 3] := w[0], w[1], w[2], w[3];
  }

  /** fa_frame_crc: the five bytes from the sequence byte on, then the payload. */
  method FrameCrcOf(buf: array<byte>, size: nat) returns (crc: Register)
    requires HEADER_LENGTH + size <= buf.Length
    ensures crc == FrameCrc(buf[8..13] + buf[HEADER_LENGTH..HEADER_LENGTH + size])
  {
    hide Update;
    crc := UpdateBitwise(INITIAL, buf, 8, 5);
    crc := UpdateBitwise(crc, buf, HEADER_LENGTH, size);
    UpdateOfSum(INITIAL, buf[8..13], buf[HEADER_LENGTH..HEADER_LENGTH + size]);
    crc := Xor(crc, INITIAL);
  }

  /** The bytes in front of the CRC: eight markers, the sequence byte, the length. */
  function Head(marker: byte, seqByte: byte, length: nat): (r: seq<byte>)
    requires length < UINT32_LIMIT
    ensures |r| == 13 && r[8..] == [seqByte] + Le32(length)
  {
    Fill(8, marker) + [seqByte] + Le32(length)
  }

  lemma HeadStarts(fmt: Format, marker: byte, seqByte: byte, payload: seq<byte>)
    requires |payload| < UINT32_LIMIT
    ensures Head(marker, seqByte, |payload|) + StoreWord(fmt.sum(Covered(seqByte, payload))) + payload
            == fmt.Encode(marker, seqByte, payload)
    ensures Head(marker, seqByte, |payload|)[8..] + payload == Covered(seqByte, payload)
  {}

  method FillHead(p: array<byte>, marker: byte, seqByte: byte, length: nat)
    requires HEADER_LENGTH <= p.Length && length < UINT32_LIMIT
    modifies p
    ensures p[..13] == Head(marker, seqByte, length)
  {
    hide Le32;
    var i := 0;
    while i < 8
      invariant i <= 8 && forall j :: 0 <= j < i ==> p[j] == marker
    {
      p[i] := marker;
      i := i + 1;
    }
    p[8] := seqByte;
    assert p[..9] == Fill(8, marker) + [seqByte];
    StoreLength(p, 9, length);
    assert p[..13] == Fill(8, marker) + [seqByte] + Le32(length);
  }

  /** Fill a buffer with a whole frame, as put and fa_write_control do. */
  method FillFrame(fmt: Format, p: array<byte>, marker: byte, seqByte: byte, payload: seq<byte>)
    requires fmt == Crc32Format(fmt.max)
    requires HEADER_LENGTH + |payload| <= p.Length && |payload| < UINT32_LIMIT
    modifies p
    ensures p[..HEADER_LENGTH + |payload|] == fmt.Encode(marker, seqByte, payload)
  {
    hide FrameCrc, Le32, Head, Format.Encode, Covered;
    HeadStarts(fmt, marker, seqByte, payload);
    ghost var head := Head(marker, seqByte, |payload|);
    FillHead(p, marker, seqByte, |payload|);
    var i := 0;
    while i < |payload|
      invariant i <= |payload| && p[..13] == head
      invariant p[HEADER_LENGTH..HEADER_LENGTH + i] == payload[..i]
    {
      p[HEADER_LENGTH + i] := payload[i];
      assert p[..13] == head;
      i := i + 1;
    }
    assert p[8..13] == p[..13][8..];
    assert p[HEADER_LENGTH..HEADER_LENGTH + |payload|] == payload;
    var crc := FrameCrcOf(p, |payload|);
    StoreCrc(p, 13, crc);
    assert p[..HEADER_LENGTH + |payload|] == head + StoreWord(crc) + payload;
  }

  /** The verdict on a whole frame, as read_frame computes it. */
  lemma JudgeOfWhole(fmt: Format, s: seq<byte>)
    requires fmt == Crc32Format(fmt.max)
    requires |s| >= HEADER_LENGTH && LengthField(s) <= fmt.max && |s| == HEADER_LENGTH + LengthField(s)
    ensures s[9..13] == Le32(LengthField(s))
    ensures fmt.Judge(s)
            == if LoadWord(s[13..17]) == FrameCrc(s[8..13] + s[HEADER_LENGTH..])
               then Some(Event.Valid(s[0], s[8], s[HEADER_LENGTH..])) else Some(BadCrc)
  {
    hide FrameCrc;
    FromLe32RoundTrip(s[9..13]);
    assert s[HEADER_LENGTH..HEADER_LENGTH + LengthField(s)] == s[HEADER_LENGTH..];
    assert s[8..13] + s[HEADER_LENGTH..] == Covered(s[8], s[HEADER_LENGTH..]);
  }

  class FrameArq {
    const fmt: Format
    const port: Reader
    const sink: Writer
    const readBuffer: array<byte>
    const retainBuffer: array<byte>
    var retainLength: nat
    var start: byte
    var byteCount: nat
    var txSeq: byte
    var expectedRxSeq: byte
    var awaitingAck: bool
    var resendNeeded: bool
    ghost var retained: Option<Message>

    /** The bytes of the frame under assembly. */
    function Held(): seq<byte>
      reads this`byteCount, readBuffer
      requires byteCount <= readBuffer.Length
    {
      readBuffer[..byteCount]
    }

    /** The ARQ state. */
    ghost function Model(): Endpoint
      reads this
    {
      Endpoint(txSeq, expectedRxSeq, awaitingAck, resendNeeded, retained)
    }

    /** The two buffers hold the largest frame, and lengths fit the C types. */
    ghost predicate Wired() {
      && fmt == Crc32Format(fmt.max)
      && readBuffer.Length == retainBuffer.Length == HEADER_LENGTH + fmt.max < 0x8000_0000
      && readBuffer != retainBuffer
    }

    /** While an ACK is awaited the retain buffer is the encoding of the outstanding message. */
    ghost predicate Sender()
      reads this, retainBuffer
      requires Wired()
    {
      && Model().Valid()
      && retainLength <= retainBuffer.Length
      && (awaitingAck ==>
        && retained.Some? && fmt.Sendable(retained.value)
        && retainBuffer[..retainLength] == fmt.DataBytes(txSeq, retained.value))
    }

    ghost predicate Receiver()
      reads this`byteCount, this`start, readBuffer
      requires Wired()
    {
      && byteCount <= readBuffer.Length
      && Partial(fmt, Held())
      && (byteCount > 0 ==> start == readBuffer[0])
    }

    ghost predicate Valid()
      reads this, readBuffer, retainBuffer
      ensures Valid() ==> byteCount <= readBuffer.Length == HEADER_LENGTH + fmt.max && fmt.Valid()
    {
      Wired() && Sender() && Receiver()
    }

    /** fa_init_state, with the buffers that frame_arq_create allocates. */
    constructor (max: nat, port: Reader, sink: Writer)
      requires HEADER_LENGTH + max < 0x8000_0000
      ensures Valid() && fresh(readBuffer) && fresh(retainBuffer)
      ensures Model() == FRESH && Held() == [] && fmt.max == max && this.port == port && this.sink == sink
    {
      fmt := Crc32Format(max);
      this.port, this.sink := port, sink;
      readBuffer := new byte[HEADER_LENGTH + max];
      retainBuffer := new byte[HEADER_LENGTH + max];
      retainLength, start, byteCount := 0, 0, 0;
      txSeq, expectedRxSeq, awaitingAck, resendNeeded := 63, 0, false, false;
      retained := None;
    }

    // ---- Receiving ------------------------------------------------------------

    /** Assemble the eight marker bytes, restarting on every byte that does not fit. */
    method ReadFrameMarker() returns (res: int)
      requires Wired() && Receiver() && byteCount < 8
      modifies this`byteCount, this`start, readBuffer, port
      ensures Receiver()
      ensures Pump(fmt, old(Held()), old(port.rx))
              == if res == FRAME_ARQ_SUCCESS then Pump(fmt, Held(), port.rx) else Pumped(Held(), None, port.rx)
      ensures if res == FRAME_ARQ_SUCCESS then byteCount == 8 else res == FRAME_ARQ_INCOMPLETE
    {
      hide LengthField, FrameCrc;
      while byteCount < 8
        invariant byteCount <= 8 && Receiver()
        invariant Pump(fmt, old(Held()), old(port.rx)) == Pump(fmt, Held(), port.rx)
        decreases |port.rx|
      {
        ghost var held, rx := Held(), port.rx;
        var b := port.Read();
        if b < 0 {
          return FRAME_ARQ_INCOMPLETE;
        }
        FeedKeepsPartial(fmt, held, b);
        if b < 128 {
          byteCount := 0;
        } else if byteCount == 0 {
          start := b;
          readBuffer[0] := b;
          byteCount := 1;
        } else if b == start {
          readBuffer[byteCount] := b;
          byteCount := byteCount + 1;
        } else {
          start := b;
          readBuffer[0] := b;
          byteCount := 1;
        }
        assert Held() == Extend(held, b);
      }
      return FRAME_ARQ_SUCCESS;
    }

    /** Take bytes in until `goal` are held; the rest of the header and the payload are read so. */
    method ReadUpTo(goal: nat) returns (res: int)
      requires Wired() && 8 <= byteCount <= goal <= readBuffer.Length
      requires MarkerAt(Held(), 0) && start == readBuffer[0]
      requires goal == HEADER_LENGTH
               || (byteCount >= HEADER_LENGTH && goal - HEADER_LENGTH == LengthField(Held()) <= fmt.max)
      modifies this`byteCount, readBuffer, port
      ensures byteCount <= goal && old(Held()) <= Held()
      ensures MarkerAt(Held(), 0) && start == readBuffer[0]
      ensures Settle(fmt, old(Held()), old(port.rx))
              == if res == FRAME_ARQ_SUCCESS then Settle(fmt, Held(), port.rx) else Pumped(Held(), None, port.rx)
      ensures if res == FRAME_ARQ_SUCCESS then byteCount == goal else res == FRAME_ARQ_INCOMPLETE && Receiver()
    {
      hide FromLe32, FrameCrc;
      ghost var first := Held();
      while byteCount < goal
        invariant byteCount <= goal && first <= Held() && start == readBuffer[0]
        invariant Settle(fmt, first, old(port.rx)) == Settle(fmt, Held(), port.rx)
        decreases goal - byteCount
      {
        ghost var held := Held();
        if |held| >= HEADER_LENGTH {
          LengthIsStable(first, held);
        }
        assert fmt.Judge(held) == None;
        assert MarkerAt(held, 0);
        var b := port.Read();
        if b < 0 {
          return FRAME_ARQ_INCOMPLETE;
        }
        readBuffer[byteCount] := b;
        byteCount := byteCount + 1;
        assert Held() == held + [b] == Extend(held, b);
      }
      return FRAME_ARQ_SUCCESS;
    }

    /** What read_frame has established when it returns, for the pump that it ran. */
    ghost predicate Reported(p: Pumped, res: int)
      reads this`byteCount, this`start, readBuffer
      requires Wired() && byteCount <= readBuffer.Length
    {
      match p.event
      case None => res == FRAME_ARQ_INCOMPLETE && Receiver() && Held() == p.buf
      case Some(BadCrc) => res == FRAME_ARQ_ERROR_CRC && byteCount == 0 && p.buf == []
      case Some(TooLong) => res == FRAME_ARQ_ERROR_OVERFLOW && byteCount == 0 && p.buf == []
      case Some(Valid(m, s, payload)) =>
        && res == FRAME_ARQ_SUCCESS && p.buf == []
        && byteCount == HEADER_LENGTH + |payload|
        && m >= 128 && readBuffer[0] == m && readBuffer[8] == s
        && readBuffer[9..13] == Le32(|payload|) && readBuffer[HEADER_LENGTH..byteCount] == payload
    }

    /** Pump bytes in: a complete valid frame, an error, or nothing complete yet. */
    method ReadFrame() returns (res: int)
      requires Wired() && Receiver()
      modifies this`byteCount, this`start, readBuffer, port
      ensures byteCount <= readBuffer.Length
      ensures port.rx == Pump(fmt, old(Held()), old(port.rx)).rest
      ensures Reported(Pump(fmt, old(Held()), old(port.rx)), res)
    {
      hide FrameCrc, Pump, FromLe32;
      if byteCount < 8 {
        res := ReadFrameMarker();
        if res != FRAME_ARQ_SUCCESS {
          return;
        }
      }
      if byteCount < HEADER_LENGTH {
        res := ReadUpTo(HEADER_LENGTH);
        if res != FRAME_ARQ_SUCCESS {
          return;
        }
      }
      res := ReadPayload();
    }

    /** The header fields read from the buffer are those of the bytes held. */
    lemma HeldFields()
      requires HEADER_LENGTH <= byteCount <= readBuffer.Length
      ensures Held()[8..13] == readBuffer[8..13] && Held()[9..13] == readBuffer[9..13]
      ensures Held()[13..17] == readBuffer[13..17] && Held()[HEADER_LENGTH..] == readBuffer[HEADER_LENGTH..byteCount]
    {}

    /** The end of read_frame, once the header is held: bound the size, collect the payload, compare the CRC. */
    method ReadPayload() returns (res: int)
      requires Wired() && HEADER_LENGTH <= byteCount <= readBuffer.Length
      requires MarkerAt(Held(), 0) && start == readBuffer[0]
      requires byteCount == HEADER_LENGTH || fmt.Judge(Held()) == None
      modifies this`byteCount, readBuffer, port
      ensures byteCount <= readBuffer.Length
      ensures port.rx == Settle(fmt, old(Held()), old(port.rx)).rest
      ensures Reported(Settle(fmt, old(Held()), old(port.rx)), res)
    {
      hide FrameCrc, Pump;
      ghost var header := Held();
      var size := FromLe32(readBuffer[9..13]);
      HeldFields();
      if size > fmt.max {
        byteCount := 0;
        return FRAME_ARQ_ERROR_OVERFLOW;
      }
      res := ReadUpTo(HEADER_LENGTH + size);
      if res != FRAME_ARQ_SUCCESS {
        return;
      }
      ghost var whole := Held();
      LengthIsStable(header, whole);
      var crc := FrameCrcOf(readBuffer, size);
      JudgeOfWhole(fmt, whole);
      HeldFields();
      if LoadWord(readBuffer[13..17]) != crc {
        byteCount := 0;
        return FRAME_ARQ_ERROR_CRC;
      }
      return FRAME_ARQ_SUCCESS;
    }

    // ---- Writing --------------------------------------------------------------

    /** The loop that streams a buffer out, stopping at the first byte that is refused. */
    method WriteAll(buf: array<byte>, length: nat) returns (res: int)
      requires length <= buf.Length
      modifies sink
      ensures (sink.Out(), res) == Written(old(sink.Out()), buf[..length])
    {
      var i := 0;
      assert buf[0..length] == buf[..length];
      while i < length
        invariant i <= length
        invariant Written(old(sink.Out()), buf[..length]) == Written(sink.Out(), buf[i..length])
      {
        assert buf[i..length][0] == buf[i] && buf[i..length][1..] == buf[i + 1..length];
        res := sink.Write(buf[i]);
        if res < 0 {
          return;
        }
        i := i + 1;
      }
      return FRAME_ARQ_SUCCESS;
    }

    /** fa_write_control: stream a header-only ACK or NACK. */
    method WriteControl(kind: nat, seq6: byte) returns (res: int)
      requires Wired() && kind < 4 && seq6 < 64
      modifies sink
      ensures (sink.Out(), res) == Written(old(sink.Out()), fmt.ControlBytes(kind, seq6))
    {
      hide FrameCrc;
      var hdr := new byte[HEADER_LENGTH];
      FillFrame(fmt, hdr, CONTROL_MARKER, 64 * kind + seq6, []);
      res := WriteAll(hdr, HEADER_LENGTH);
    }

    // ---- The interface --------------------------------------------------------

    /** What get has done about a frame: the new state, the return code and the bytes answered. */
    ghost predicate Reacted(r: Reaction, line: Line, code: int)
      reads this, sink
      requires fmt.Valid()
    {
      code == Code(r.outcome) && Model() == r.ep && sink.Out() == Written(line, fmt.BytesOf(r.reply)).0
    }

    /** A corrupt arrival: its sequence number cannot be trusted, so NACK our own expected one. */
    method OnCorrupt() returns (code: int)
      requires Wired() && Sender()
      modifies sink
      ensures Reacted(React(old(Model()), Corrupt), old(sink.Out()), code)
      ensures !React(old(Model()), Corrupt).outcome.Deliver?
      ensures code == -3 && sink.Out() == Written(old(sink.Out()), fmt.ControlBytes(2, expectedRxSeq)).0
    {
      hide FrameCrc, Written;
      var _ := WriteControl(2, expectedRxSeq);
      return FRAME_ARQ_ERROR_CRC;
    }

    /** The control-frame branch of get. */
    method OnControl(kind: nat, seq6: byte) returns (code: int)
      requires Wired() && Sender() && seq6 < 64
      modifies this`awaitingAck, this`resendNeeded
      ensures Sender()
      ensures var f := if kind == 1 then Ack(seq6) else if kind == 2 then Nack(seq6) else Reserved;
        Reacted(React(old(Model()), f), old(sink.Out()), code) && !React(old(Model()), f).outcome.Deliver?
      ensures Model()
              == if kind == 1 && old(awaitingAck) && seq6 == old(txSeq)
                 then old(Model()).(awaitingAck := false, resendNeeded := false)
                 else if kind == 2 && old(awaitingAck) then old(Model()).(resendNeeded := true)
                 else old(Model())
      ensures code == if kind == 2 && old(awaitingAck) then -1 else 0
    {
      hide FrameCrc;
      if kind == 1 {
        if awaitingAck && seq6 == txSeq {
          awaitingAck := false;
          resendNeeded := false;
        }
        return FRAME_ARQ_SUCCESS;
      }
      if kind == 2 {
        if awaitingAck {
          resendNeeded := true;
          return FRAME_ARQ_RESEND_NEEDED;
        }
        return FRAME_ARQ_SUCCESS;
      }
      return FRAME_ARQ_SUCCESS;
    }

    /** The data-frame branch of get: deliver and ACK, re-ACK a duplicate, or NACK what is not expected. */
    method OnData(cmd: byte, seq6: byte, ghost payload: seq<byte>) returns (code: int)
      requires Wired() && Sender() && seq6 < 64
      modifies this`expectedRxSeq, sink
      ensures Sender()
      ensures var r := React(old(Model()), Data(seq6, Message(cmd, payload)));
        Reacted(r, old(sink.Out()), code) && (r.outcome.Deliver? ==> code == cmd && r.outcome.msg.payload == payload)
      ensures Model()
              == if seq6 == old(expectedRxSeq) then old(Model()).(expectedRxSeq := (seq6 + 1) % 64) else old(Model())
      ensures code == if seq6 == old(expectedRxSeq) then cmd else 0
      ensures var again := seq6 == old(expectedRxSeq) || seq6 == (old(expectedRxSeq) + 63) % 64;
        var answer := if again then fmt.ControlBytes(1, seq6) else fmt.ControlBytes(2, old(expectedRxSeq));
        sink.Out() == Written(old(sink.Out()), answer).0
    {
      hide FrameCrc, Written;
      if seq6 == expectedRxSeq {
        var _ := WriteControl(1, seq6);
        expectedRxSeq := (seq6 + 1) % 64;
        return cmd;
      }
      if seq6 == (expectedRxSeq + 63) % 64 {
        var _ := WriteControl(1, seq6);
        return FRAME_ARQ_SUCCESS;
      }
      var _ := WriteControl(2, expectedRxSeq);
      return FRAME_ARQ_SUCCESS;
    }

    /** What get has done about a valid frame, whose payload lies in the read buffer, case by case. */
    ghost predicate Told(was: Endpoint, line: Line, m: byte, s: byte, payload: seq<byte>, code: int, size: nat)
      reads this, sink, readBuffer
      requires was.Valid()
    {
      if m == 128 || s >= 64 then
        var ack := 64 <= s < 128 && was.awaitingAck && s - 64 == was.txSeq;
        var nack := 128 <= s < 192 && was.awaitingAck;
        && code == (if nack then -1 else 0) && sink.Out() == line
        && Model() == if ack then was.(awaitingAck := false, resendNeeded := false)
                      else if nack then was.(resendNeeded := true) else was
      else if s == was.expectedRxSeq then
        && code == m - 128 && size == |payload| && 17 + size <= readBuffer.Length
        && readBuffer[17..17 + size] == payload
        && Model() == was.(expectedRxSeq := (s + 1) % 64)
        && sink.Out() == Written(line, fmt.ControlBytes(1, s)).0
      else
        var again := s == (was.expectedRxSeq + 63) % 64;
        var answer := if again then fmt.ControlBytes(1, s) else fmt.ControlBytes(2, was.expectedRxSeq);
        code == 0 && Model() == was && sink.Out() == Written(line, answer).0
    }

    /** The second half of get, on a valid frame in the read buffer. */
    method OnValid(ghost m: byte, ghost s: byte, ghost payload: seq<byte>) returns (code: int, size: nat)
      requires Wired() && Sender() && |payload| <= fmt.max && m >= 128
      requires byteCount == HEADER_LENGTH + |payload| && readBuffer[0] == m && readBuffer[8] == s
      requires readBuffer[9..13] == Le32(|payload|) && readBuffer[HEADER_LENGTH..byteCount] == payload
      modifies this`byteCount, this`expectedRxSeq, this`awaitingAck, this`resendNeeded, sink
      ensures Sender() && byteCount == 0
      ensures var r := React(old(Model()), Interpret(m, s, payload));
        && Reacted(r, old(sink.Out()), code)
        && (r.outcome.Deliver? ==> code > 0 && size == |r.outcome.msg.payload| && r.outcome.msg.payload == payload)
      ensures Told(old(Model()), old(sink.Out()), m, s, payload, code, size)
    {
      hide FrameCrc, FromLe32, Le32, React, Format.Encode, Format.ControlBytes, Written;
      var marker, seqByte := readBuffer[0], readBuffer[8];
      var kind, seq6 := seqByte / 64, seqByte % 64;
      Le32RoundTrip(|payload|);
      byteCount, size := 0, 0;
      if marker == CONTROL_MARKER || kind != 0 {
        code := OnControl(kind, seq6);
      } else {
        size := FromLe32(readBuffer[9..13]);
        code := OnData(marker - 128, seq6, payload);
      }
    }

    /**
     frame_arq_get. One pump of the assembler decides the event; the endpoint's reaction to it
     decides the new state, the return code, the answer on the wire and the delivered payload,
     which stays at readBuffer[17..17 + size] until the next call.
     */
    method Get() returns (code: int, size: nat)
      requires Valid()
      modifies this`byteCount, this`start, this`expectedRxSeq, this`awaitingAck, this`resendNeeded
      modifies readBuffer, port, sink
      ensures Valid() && retainBuffer[..] == old(retainBuffer[..])
      ensures var p := Pump(fmt, old(Held()), old(port.rx));
        && port.rx == p.rest && Held() == p.buf
        && match p.event
           case None => code == FRAME_ARQ_SUCCESS && Model() == old(Model()) && sink.Out() == old(sink.Out())
           case Some(e) =>
             var r := ReactTo(old(Model()), e);
             && Reacted(r, old(sink.Out()), code)
             && (r.outcome.Deliver? ==>
                   code > 0 && size <= fmt.max
                       && readBuffer[HEADER_LENGTH..HEADER_LENGTH + size] == r.outcome.msg.payload)
      ensures match Pump(fmt, old(Held()), old(port.rx)).event
              case None => code == 0 && Model() == old(Model()) && sink.Out() == old(sink.Out())
              case Some(TooLong) => code == -4 && Model() == old(Model()) && sink.Out() == old(sink.Out())
              case Some(BadCrc) =>
                && code == -3 && Model() == old(Model())
                && sink.Out() == Written(old(sink.Out()), fmt.ControlBytes(2, old(expectedRxSeq))).0
              case Some(Valid(marker, seqByte, payload)) =>
                Told(old(Model()), old(sink.Out()), marker, seqByte, payload, code, size)
    {
      hide FrameCrc, Pump, FromLe32, Le32, LengthField, React, Format.Encode, Format.Judge, Told;
      ghost var p := Pump(fmt, Held(), port.rx);
      size := 0;
      var res := ReadFrame();
      if res == FRAME_ARQ_INCOMPLETE {
        return FRAME_ARQ_SUCCESS, size;
      }
      if res == FRAME_ARQ_ERROR_CRC {
        code := OnCorrupt();
        byteCount := 0;
        return;
      }
      if res < 0 {
        byteCount := 0;
        return res, size;
      }
      code, size := OnValid(p.event.value.marker, p.event.value.seqByte, p.event.value.payload);
    }

    /**
     frame_arq_put. An accepted message is stamped and retained before anything is written, so
     it is outstanding even when the write fails; a rejected one changes nothing.
     */
    method Put(cmd: byte, payload: seq<byte>) returns (code: int)
      requires Valid()
      modifies this`txSeq, this`awaitingAck, this`resendNeeded, this`retainLength, this`retained
      modifies retainBuffer, sink
      ensures Valid() && Held() == old(Held())
      ensures var m := Message(cmd, payload);
        match PutCheck(fmt, old(Model()), m)
        case BadArgument => code == FRAME_ARQ_ERROR_ARG && Model() == old(Model()) && sink.Out() == old(sink.Out())
        case TooLarge => code == FRAME_ARQ_ERROR_OVERFLOW && Model() == old(Model()) && sink.Out() == old(sink.Out())
        case Busy => code == FRAME_ARQ_ERROR_BUSY && Model() == old(Model()) && sink.Out() == old(sink.Out())
        case Accepted =>
          && Model() == Stamp(old(Model()), m) && fmt.Wellformed(Outstanding(Model()))
          && (sink.Out(), code) == Written(old(sink.Out()), fmt.FrameBytes(Outstanding(Model())))
      ensures PutCheck(fmt, old(Model()), Message(cmd, payload)) != Accepted
              ==> retainBuffer[..] == old(retainBuffer[..])
      ensures
        if cmd < 1 || cmd > 127 then code == -6
        else if |payload| > fmt.max then code == -4
        else if old(awaitingAck) then code == -7
        else
          && txSeq == (old(txSeq) + 1) % 64 && expectedRxSeq == old(expectedRxSeq)
          && awaitingAck && !resendNeeded && retained == Some(Message(cmd, payload))
          && (sink.Out(), code) == Written(old(sink.Out()), fmt.DataBytes(txSeq, Message(cmd, payload)))
      ensures cmd < 1 || cmd > 127 || |payload| > fmt.max || old(awaitingAck)
              ==> Model() == old(Model()) && sink.Out() == old(sink.Out()) && retainBuffer[..] == old(retainBuffer[..])
    {
      hide FrameCrc, Written, Format.Encode, Partial;
      if cmd < 1 || cmd > 127 {
        return FRAME_ARQ_ERROR_ARG;
      }
      if |payload| > fmt.max {
        return FRAME_ARQ_ERROR_OVERFLOW;
      }
      if awaitingAck {
        return FRAME_ARQ_ERROR_BUSY;
      }
      txSeq := (txSeq + 1) % 64;
      FillFrame(fmt, retainBuffer, cmd + 128, txSeq, payload);
      retainLength := HEADER_LENGTH + |payload|;
      awaitingAck := true;
      resendNeeded := false;
      retained := Some(Message(cmd, payload));
      code := WriteAll(retainBuffer, retainLength);
    }

    /** frame_arq_resend: the outstanding frame again, byte for byte the one that put built. */
    method Resend() returns (code: int)
      requires Valid()
      modifies this`resendNeeded, sink
      ensures Valid()
      ensures !old(awaitingAck) ==>
        code == FRAME_ARQ_SUCCESS && Model() == old(Model()) && sink.Out() == old(sink.Out())
      ensures old(awaitingAck) ==>
        && fmt.Wellformed(Outstanding(old(Model())))
        && (sink.Out(), code) == Written(old(sink.Out()), fmt.FrameBytes(Outstanding(old(Model()))))
        && Model() == old(Model()).(resendNeeded := code != FRAME_ARQ_SUCCESS && old(resendNeeded))
    {
      hide FrameCrc, Written;
      if !awaitingAck || retainLength == 0 {
        resendNeeded := false;
        return FRAME_ARQ_SUCCESS;
      }
      code := WriteAll(retainBuffer, retainLength);
      if code == FRAME_ARQ_SUCCESS {
        resendNeeded := false;
      }
    }

    /** frame_arq_reset: a fresh session on the same buffers. */
    method Reset()
      requires Valid()
      modifies this`byteCount, this`retainLength, this`txSeq, this`expectedRxSeq
      modifies this`awaitingAck, this`resendNeeded, this`retained
      ensures Valid() && Model() == FRESH && Held() == []
    {
      byteCount, retainLength, txSeq, expectedRxSeq := 0, 0, 63, 0;
      awaitingAck, resendNeeded, retained := false, false, None;
    }
  }
}
