/** The session object of EspSerialSession.cs: its fields under the ARQ lock, and the frames it hands to WriteFrame. */
module HostSession {
  import opened Bytes
  import opened Crc
  import opened CrcLoops
  import opened Frames
  import opened Bits
  import opened Endpoints
  import opened Sessions
  import HostDecoder
  import HostReader
  import FrameArqEngine

  const TYPE_ACK := 1
  const TYPE_NACK := 2

  class EspSerialSession {
    const fmt: Format
    const crcTable: array<Register>
    var ackTimeoutMs: int
    var maxRetries: nat
    var txSeq: byte
    var expectedRxSeq: byte
    var awaiting: bool
    var retain: array?<byte>
    var retries: nat
    var deliveryNotified: bool
    var sendQueue: seq<Message>
    /** What WriteFrame has been called with, in order. */
    var writes: seq<seq<byte>>
    /** What Send accepted and what PrepareTransmit stamped since the port was opened. */
    ghost var accepted: seq<Message>
    ghost var sent: seq<Message>

    ghost function Model(): Host
      reads this
    {
      Host(Endpoint(txSeq, expectedRxSeq, awaiting, false, if sent == [] then None else Some(sent[|sent| - 1])),
           sendQueue)
    }

    /** The retained bytes are the encoding of the outstanding message. */
    ghost predicate Retaining()
      reads this`awaiting, this`retain, this`sent, this`txSeq, retain
    {
      awaiting ==>
        && retain != null && sent != [] && txSeq < SEQUENCES && fmt.Sendable(sent[|sent| - 1]) && fmt.Valid()
        && retain[..] == fmt.DataBytes(txSeq, sent[|sent| - 1])
    }

    /**
     The one-shot notice has been given exactly when the retries are used up; so it is while MaxRetries
     is left alone.
     */
    predicate Counting()
      reads this`awaiting, this`deliveryNotified, this`retries, this`maxRetries
    {
      awaiting ==> (deliveryNotified <==> retries >= Limit())
    }

    function Limit(): nat
      reads this`maxRetries
    {
      if maxRetries == 0 then 1 else maxRetries
    }

    ghost predicate Wired()
      reads crcTable
    {
      fmt == Crc32Format(fmt.max) && fmt.max == HostDecoder.MAX_FRAME_LENGTH && IsCrcTable(crcTable[..])
    }

    ghost predicate Valid()
      reads this, retain, crcTable
      ensures Valid() ==> fmt.Valid()
    {
      && Wired()
      && Model().ep.Valid() && Conserved(Model(), accepted, sent)
      && (forall m :: m in accepted ==> fmt.Sendable(m))
      && Retaining()
    }

    /** What has happened since `w` was all that was written. */
    ghost predicate Did(d: Decision, w: seq<seq<byte>>)
      reads this
    {
      && Model() == d.host && fmt.Valid()
      && match d.frame
         case None => writes == w
         case Some(f) => fmt.Wellformed(f) && writes == w + [fmt.FrameBytes(f)]
    }

    constructor (ackTimeoutMs: int, maxRetries: nat)
      ensures Valid() && Counting() && Model() == Host(FRESH, []) && writes == [] && accepted == []
      ensures this.ackTimeoutMs == ackTimeoutMs && this.maxRetries == maxRetries
    {
      hide IsCrcTable, FrameCrc;
      fmt := Crc32Format(HostDecoder.MAX_FRAME_LENGTH);
      this.ackTimeoutMs, this.maxRetries := ackTimeoutMs, maxRetries;
      var table := BuildCrcTable();
      crcTable := table;
      txSeq, expectedRxSeq, awaiting, retain := 0x3F, 0, false, null;
      retries, deliveryNotified, sendQueue, writes := 0, false, [], [];
      accepted, sent := [], [];
    }

    /** The locked part of Open: a new run. */
    method Open()
      requires Valid()
      modifies this`txSeq, this`expectedRxSeq, this`awaiting, this`retries, this`sendQueue, this`accepted, this`sent
      ensures Valid() && Counting() && Model() == Host(FRESH, []) && accepted == []
      ensures txSeq == 63 && expectedRxSeq == 0 && !awaiting && retries == 0 && sendQueue == []
    {
      hide IsCrcTable, Crc32Format;
      txSeq, expectedRxSeq, awaiting, retries, sendQueue := 0x3F, 0, false, 0, [];
      accepted, sent := [], [];
    }

    // ---- Building frames ------------------------------------------------------

    /** The marker, sequence and length bytes, which both builders write first. */
    method WriteHead(frame: array<byte>, marker: byte, seqByte: byte, length: nat)
      requires HEADER_LENGTH <= frame.Length && length < UINT32_LIMIT
      modifies frame
      ensures frame[..13] == FrameArqEngine.Head(marker, seqByte, length)
    {
      hide Le32;
      var i := 0;
      while i < 8
        invariant i <= 8 && forall j :: 0 <= j < i ==> frame[j] == marker
      {
        frame[i] := marker;
        i := i + 1;
      }
      frame[8] := seqByte;
      assert frame[..9] == Fill(8, marker) + [seqByte];
      FrameArqEngine.StoreLength(frame, 9, length);
      assert frame[..13] == Fill(8, marker) + [seqByte] + Le32(length);
    }

    /** The bytes are those that frame_arq_put builds for the same message. */
    method BuildDataFrame(cmd: byte, seq6: byte, payload: seq<byte>) returns (frame: array<byte>)
      requires Wired()
      requires seq6 < SEQUENCES && fmt.Sendable(Message(cmd, payload))
      ensures fresh(frame) && frame[..] == fmt.DataBytes(seq6, Message(cmd, payload))
    {
      hide IsCrcTable, FrameCrc, FrameArqEngine.Head, Format.Encode, Covered;
      var marker := cmd + 128;
      var seqByte := seq6 % 64;
      ghost var table := crcTable[..];
      FrameArqEngine.HeadStarts(fmt, marker, seqByte, payload);
      frame := new byte[HEADER_LENGTH + |payload|];
      WriteHead(frame, marker, seqByte, |payload|);
      ghost var head := frame[..13];
      forall k | 0 <= k < |payload| {
        frame[HEADER_LENGTH + k] := payload[k];
      }
      assert frame[..13] == head && frame[HEADER_LENGTH..] == payload;
      assert crcTable[..] == table;
      var crc := HostReader.Crc32(crcTable, seqByte, |payload|, payload);
      FrameArqEngine.StoreCrc(frame, 13, crc);
      assert frame[..] == head + StoreWord(crc) + payload;
    }

    /** The bytes are those that fa_write_control builds. */
    method BuildControlFrame(kind: nat, seq6: byte) returns (frame: array<byte>)
      requires Wired()
      requires kind < 4 && seq6 < SEQUENCES
      ensures fresh(frame) && frame[..] == fmt.ControlBytes(kind, seq6)
    {
      hide IsCrcTable, FrameCrc, FrameArqEngine.Head, Format.Encode, Covered;
      var seqByte := kind * 64 + seq6 % 64;
      FrameArqEngine.HeadStarts(fmt, CONTROL_MARKER, seqByte, []);
      frame := new byte[HEADER_LENGTH];
      WriteHead(frame, CONTROL_MARKER, seqByte, 0);
      ghost var head := frame[..13];
      var crc := HostReader.Crc32(crcTable, seqByte, 0, []);
      FrameArqEngine.StoreCrc(frame, 13, crc);
      assert frame[..] == head + StoreWord(crc) + [];
    }

    // ---- Writing --------------------------------------------------------------

    method WriteFrame(frame: array<byte>)
      modifies this`writes
      ensures writes == old(writes) + [frame[..]]
    {
      writes := writes + [frame[..]];
    }

    method SendControl(kind: nat, seq6: byte)
      requires Valid() && 1 <= kind <= 2 && seq6 < SEQUENCES
      modifies this`writes
      ensures var f := if kind == TYPE_ACK then Ack(seq6) else Nack(seq6);
        writes == old(writes) + [fmt.FrameBytes(f)]
    {
      hide IsCrcTable, FrameCrc, Format.ControlBytes;
      var frame := BuildControlFrame(kind, seq6);
      WriteFrame(frame);
    }

    /** Stamp, build and retain; the caller holds the lock and writes the result afterwards. */
    method PrepareTransmit(cmd: byte, payload: seq<byte>) returns (frame: array<byte>)
      requires Wired()
      requires txSeq < SEQUENCES && fmt.Sendable(Message(cmd, payload))
      modifies this`txSeq, this`retain, this`awaiting, this`retries, this`deliveryNotified, this`sent
      ensures Model().ep == Stamp(old(Model()).ep, Message(cmd, payload))
      ensures fresh(frame) && retain == frame && frame[..] == fmt.FrameBytes(Outstanding(Model().ep))
      ensures Retaining() && Counting() && sent == old(sent) + [Message(cmd, payload)]
      ensures txSeq == (old(txSeq) + 1) % 64 && awaiting && retries == 0 && !deliveryNotified
    {
      hide IsCrcTable, Crc32Format, Format.DataBytes;
      txSeq := (txSeq + 1) % 64;
      frame := BuildDataFrame(cmd, txSeq, payload);
      retain, awaiting, retries, deliveryNotified := frame, true, 0, false;
      sent := sent + [Message(cmd, payload)];
    }

    // ---- Calls and events -----------------------------------------------------

    /** Send: refuse what cannot be framed, else transmit or queue. */
    method Send(cmd: int, data: seq<byte>) returns (ok: bool)
      requires Valid() && 0 <= cmd < 256
      modifies this`txSeq, this`expectedRxSeq, this`awaiting, this`retain, this`retries, this`deliveryNotified
      modifies this`sendQueue, this`writes, this`accepted, this`sent
      ensures old(Counting()) ==> Counting()
      ensures Valid()
      ensures ok <==> 1 <= cmd <= 127 && |data| <= 32768
      ensures ok ==>
        if old(awaiting) then sendQueue == old(sendQueue) + [Message(cmd, data)] && writes == old(writes)
        else txSeq == (old(txSeq) + 1) % 64 && writes == old(writes) + [fmt.DataBytes(txSeq, Message(cmd, data))]
      ensures if ok then Did(Submit(old(Model()), Message(cmd, data)), old(writes))
              && accepted == old(accepted) + [Message(cmd, data)]
              else Model() == old(Model()) && writes == old(writes) && accepted == old(accepted)
    {
      hide IsCrcTable, Crc32Format, Format.DataBytes, Format.FrameBytes;
      if cmd > 127 || cmd < 1 || |data| > HostDecoder.MAX_FRAME_LENGTH {
        return false;
      }
      SubmitConserves(Model(), Message(cmd, data), accepted, sent);
      if awaiting {
        sendQueue := sendQueue + [Message(cmd, data)];
      } else {
        var frame := PrepareTransmit(cmd, data);
        WriteFrame(frame);
      }
      accepted := accepted + [Message(cmd, data)];
      ok := true;
    }

    /** Resend: the outstanding frame again, byte for byte. */
    method Resend() returns (ok: bool)
      requires Valid()
      modifies this`writes
      ensures Valid() && ok == awaiting && Did(Retransmit(old(Model())), old(writes))
      ensures ok ==> sent != [] && writes == old(writes) + [fmt.DataBytes(txSeq, sent[|sent| - 1])]
      ensures !ok ==> writes == old(writes)
    {
      hide IsCrcTable, Crc32Format, Format.DataBytes;
      if !awaiting || retain == null {
        return false;
      }
      WriteFrame(retain);
      ok := true;
    }

    method HandleAck(seq6: byte)
      requires Valid() && seq6 < SEQUENCES
      modifies this`txSeq, this`awaiting, this`retain, this`retries, this`deliveryNotified
      modifies this`sendQueue, this`writes, this`sent
      ensures old(Counting()) ==> Counting()
      ensures Valid() && Did(Handle(old(Model()), Ack(seq6), ackTimeoutMs < 0), old(writes))
      ensures
        if !old(awaiting) || seq6 != old(txSeq) then Model() == old(Model()) && writes == old(writes)
        else if old(sendQueue) == [] then !awaiting && txSeq == old(txSeq) && writes == old(writes)
        else
          && awaiting && txSeq == (old(txSeq) + 1) % 64 && sendQueue == old(sendQueue)[1..] && retries == 0
          && fmt.Sendable(old(sendQueue)[0])
          && writes == old(writes) + [fmt.DataBytes(txSeq, old(sendQueue)[0])]
    {
      hide IsCrcTable, Crc32Format, Format.DataBytes, Format.FrameBytes, Handle, React, Format.Sendable;
      ghost var before, d := Model(), Handle(Model(), Ack(seq6), ackTimeoutMs < 0);
      AckDecision(before, seq6, ackTimeoutMs < 0);
      HandleConserves(before, Ack(seq6), ackTimeoutMs < 0, accepted, sent);
      assert forall m :: m in sendQueue ==> m in accepted;
      assert before.ep.Valid() && (awaiting ==> sent != []);
      assert sent + [] == sent;
      assert fmt.Valid();
      hide Conserved, EspSerialSession.Wired, EspSerialSession.Retaining, EspSerialSession.Counting;
      if !awaiting || seq6 != txSeq {
        return;
      }
      awaiting := false;
      NothingAwaited();
      if |sendQueue| > 0 {
        assert sendQueue[0] in accepted;
        TransmitQueued();
        assert Model() == d.host && sent == old(sent) + Started(before, d);
      }
    }

    /** The next queued message goes out. */
    method TransmitQueued()
      requires Wired() && sendQueue != [] && txSeq < SEQUENCES && fmt.Sendable(sendQueue[0])
      modifies this`txSeq, this`awaiting, this`retain, this`retries, this`deliveryNotified
      modifies this`sendQueue, this`writes, this`sent
      ensures Model() == Host(Stamp(old(Model()).ep, old(sendQueue[0])), old(sendQueue[1..]))
      ensures fmt.Valid() && fmt.Wellformed(Outstanding(Model().ep))
      ensures writes == old(writes) + [fmt.FrameBytes(Outstanding(Model().ep))]
      ensures Retaining() && Counting() && sent == old(sent) + [old(sendQueue[0])]
      ensures awaiting && txSeq == (old(txSeq) + 1) % 64 && retries == 0
      ensures writes == old(writes) + [fmt.DataBytes(txSeq, old(sendQueue[0]))]
    {
      hide IsCrcTable, FrameCrc, Format.DataBytes;
      var m := sendQueue[0];
      sendQueue := sendQueue[1..];
      var next := PrepareTransmit(m.cmd, m.payload);
      WriteFrame(next);
    }

    lemma NothingAwaited()
      ensures !awaiting ==> Retaining() && Counting()
    {}

    /** A NACK: in explicit mode the application is told which frame to resend, else it is resent. */
    method HandleNack(seq6: byte) returns (requested: Option<(byte, byte)>)
      requires Valid() && seq6 < SEQUENCES
      modifies this`writes
      ensures Valid()
      ensures var d := Handle(old(Model()), Nack(seq6), ackTimeoutMs < 0);
        && Did(d, old(writes)) && (d.outcome.ResendNeeded? <==> requested.Some?)
        && (requested.Some? ==> requested.value == (sent[|sent| - 1].cmd, txSeq))
      ensures requested.Some? <==> awaiting && ackTimeoutMs < 0
      ensures awaiting ==>
        && sent != []
        && writes == old(writes) + if ackTimeoutMs < 0 then [] else [fmt.DataBytes(txSeq, sent[|sent| - 1])]
      ensures !awaiting ==> writes == old(writes)
    {
      hide IsCrcTable, Crc32Format;
      requested := None;
      if !awaiting {
        return;
      }
      var cmd := retain[0] - 128;
      if ackTimeoutMs < 0 {
        requested := Some((cmd, txSeq));
      } else {
        var _ := Resend();
      }
    }

    /** The property setters. */
    method SetMaxRetries(value: int)
      requires Valid()
      modifies this`maxRetries
      ensures Valid() && maxRetries == if value < 0 then 0 else value
    {
      hide IsCrcTable, FrameCrc;
      maxRetries := if value < 0 then 0 else value;
    }

    method SetAckTimeout(value: int)
      requires Valid()
      modifies this`ackTimeoutMs
      ensures Valid() && ackTimeoutMs == value && Counting() == old(Counting())
    {
      hide IsCrcTable, FrameCrc;
      ackTimeoutMs := value;
    }

    /**
     The timer: resend for ever, and report once, when the retries have reached the limit. With the
     limit left alone that is exactly at the last allowed retry.
     */
    method OnAckTimeout() returns (failure: Option<(byte, byte, nat)>)
      requires Valid()
      modifies this`writes, this`retries, this`deliveryNotified
      ensures Valid()
      ensures if awaiting && ackTimeoutMs > 0
              then Did(Retransmit(old(Model())), old(writes)) && retries == old(retries) + 1
              else Model() == old(Model()) && writes == old(writes) && retries == old(retries)
      ensures awaiting && ackTimeoutMs > 0 ==>
        sent != [] && writes == old(writes) + [fmt.DataBytes(txSeq, sent[|sent| - 1])]
      ensures failure.Some? <==> awaiting && ackTimeoutMs > 0 && retries >= maxRetries && !old(deliveryNotified)
      ensures deliveryNotified <==> old(deliveryNotified) || failure.Some?
      ensures failure.Some? ==> failure.value == (sent[|sent| - 1].cmd, txSeq, retries)
      ensures old(Counting()) ==>
        Counting() && (failure.Some? <==> awaiting && ackTimeoutMs > 0 && retries == Limit())
    {
      hide IsCrcTable, FrameCrc;
      failure := None;
      if !awaiting || ackTimeoutMs <= 0 {
        return;
      }
      retries := retries + 1;
      if retries >= maxRetries && !deliveryNotified {
        deliveryNotified := true;
        failure := Some((retain[0] - 128, txSeq, retries));
      }
      WriteFrame(retain);
    }

    /** A frame that fails its checksum or announces too much: NACK our own expected number. */
    method OnBadFrame()
      requires Valid()
      modifies this`writes
      ensures Valid() && Did(Handle(old(Model()), Corrupt, ackTimeoutMs < 0), old(writes))
      ensures writes == old(writes) + [fmt.ControlBytes(2, expectedRxSeq)]
    {
      hide IsCrcTable, Crc32Format, Format.ControlBytes;
      SendControl(TYPE_NACK, expectedRxSeq);
    }

    /** The data-frame branches of DispatchValidFrame: the decision that the engine's get makes. */
    method OnData(cmd: byte, seq6: byte, payload: seq<byte>) returns (event: Outcome)
      requires Valid() && seq6 < SEQUENCES
      modifies this`writes, this`expectedRxSeq
      ensures Valid()
      ensures var d := Handle(old(Model()), Data(seq6, Message(cmd, payload)), ackTimeoutMs < 0);
        Did(d, old(writes)) && event == d.outcome
      ensures expectedRxSeq == if seq6 == old(expectedRxSeq) then (seq6 + 1) % 64 else old(expectedRxSeq)
      ensures event == if seq6 == old(expectedRxSeq) then Deliver(Message(cmd, payload)) else Nothing
      ensures var again := seq6 == old(expectedRxSeq) || seq6 == (old(expectedRxSeq) + 63) % 64;
        writes == old(writes)
                  + [if again then fmt.ControlBytes(1, seq6) else fmt.ControlBytes(2, old(expectedRxSeq))]
    {
      hide IsCrcTable, Crc32Format, Format.ControlBytes, Format.DataBytes;
      assert fmt.Valid();
      var expected := expectedRxSeq;
      event := Nothing;
      if seq6 == expected {
        SendControl(TYPE_ACK, seq6);
        expectedRxSeq := (seq6 + 1) % 64;
        event := Deliver(Message(cmd, payload));
      } else if seq6 == (expected + 63) % 64 {
        SendControl(TYPE_ACK, seq6);
      } else {
        SendControl(TYPE_NACK, expected);
      }
    }

    lemma ReservedIsIgnored()
      requires Valid()
      ensures Did(Handle(Model(), Reserved, ackTimeoutMs < 0), writes)
    {
      hide IsCrcTable, Crc32Format;
    }

    /** DispatchValidFrame: what a frame that passed its checksum leads to. */
    method DispatchValidFrame(rawCmd: byte, rawSeq: byte, payload: seq<byte>) returns (event: Outcome)
      requires Valid() && rawCmd >= 128
      modifies this`txSeq, this`expectedRxSeq, this`awaiting, this`retain, this`retries, this`deliveryNotified
      modifies this`sendQueue, this`writes, this`accepted, this`sent
      ensures old(Counting()) ==> Counting()
      ensures Valid() && accepted == old(accepted)
      ensures var d := Handle(old(Model()), Interpret(rawCmd, rawSeq, payload), ackTimeoutMs < 0);
        Did(d, old(writes)) && event == d.outcome
      ensures event.Deliver? <==> rawCmd != 128 && rawSeq < 64 && rawSeq == old(expectedRxSeq)
      ensures event.Deliver? ==> event.msg == Message(rawCmd - 128, payload)
      ensures rawSeq >= 192 || (rawCmd == 128 && rawSeq < 64)
              ==> Model() == old(Model()) && writes == old(writes) && event == Nothing
    {
      hide EspSerialSession.Valid, EspSerialSession.Did;
      var kind := rawSeq / 64;
      var seq6 := rawSeq % 64;
      event := Nothing;
      if rawCmd == CONTROL_MARKER || kind != 0 {
        if kind == TYPE_ACK {
          AckTellsNothing(Model(), seq6, ackTimeoutMs < 0);
          HandleAck(seq6);
        } else if kind == TYPE_NACK {
          NackTellsAtMostThat(Model(), seq6, ackTimeoutMs < 0);
          var requested := HandleNack(seq6);
          if requested.Some? {
            event := ResendNeeded;
          }
        } else {
          ReservedIsIgnored();
        }
        return;
      }
      event := OnData(rawCmd - 128, seq6, payload);
    }
  }

  /** What an ACK decides, spelled out. */
  lemma AckDecision(h: Host, seq6: nat, explicitMode: bool)
    requires !h.ep.resendNeeded
    ensures var idle := h.(ep := h.ep.(awaitingAck := false));
      Handle(h, Ack(seq6), explicitMode)
      == if !h.ep.awaitingAck || seq6 != h.ep.txSeq then Decision(h, None, Nothing)
         else if h.queue == [] then Decision(idle, None, Nothing)
         else Submit(idle.(queue := h.queue[1..]), h.queue[0])
  {}

  lemma AckTellsNothing(h: Host, seq6: nat, explicitMode: bool)
    ensures Handle(h, Ack(seq6), explicitMode).outcome == Nothing
    ensures Handle(h, Reserved, explicitMode).outcome == Nothing
  {}

  lemma NackTellsAtMostThat(h: Host, seq6: nat, explicitMode: bool)
    ensures var o := Handle(h, Nack(seq6), explicitMode).outcome; o == Nothing || o == ResendNeeded
  {}
}
