/** The device program of main.cpp: one pass of its loop over the engine, with its response slot in place. */
module DemoDevice {
  import opened Bytes
  import opened Callbacks
  import opened Frames
  import opened Assembler
  import opened Endpoints
  import opened FrameArqEngine
  import Demo

  // ---- What one pass does -----------------------------------------------------

  /** The ARQ state, the response slot and the line out. */
  datatype State = State(ep: Endpoint, resp: Option<Message>, line: Line)

  /** get, and handle_command on a delivered request: a request with a response takes the slot. */
  function GetStep(fmt: Format, asks: Message -> bool, s: State, r: Reaction, answer: Message): State
    requires fmt.Valid()
  {
    var slot := Demo.AfterGet(asks, Demo.Slot(s.ep, s.resp), r, answer);
    State(slot.ep, slot.resp, Written(s.line, fmt.BytesOf(r.reply)).0)
  }

  /** frame_arq_resend; the flag stays up when the callback fails. */
  function ResendStep(fmt: Format, s: State): State
    requires fmt.Valid()
  {
    if s.ep.awaitingAck && s.ep.retained.Some? then
      var (line, code) := Written(s.line, fmt.BytesOf(Some(Outstanding(s.ep))));
      s.(ep := s.ep.(resendNeeded := code != 0 && s.ep.resendNeeded), line := line)
    else s
  }

  /** What frame_arq_put returns for the queued response. */
  function PutCode(fmt: Format, s: State): int
    requires fmt.Valid() && s.resp.Some?
  {
    Written(s.line, fmt.BytesOf(Some(Outstanding(Stamp(s.ep, s.resp.value))))).1
  }

  /**
   The queued response goes out when nothing is outstanding; only BUSY keeps it, and what cannot be
   sent is dropped.
   */
  function PutStep(fmt: Format, s: State): State
    requires fmt.Valid()
  {
    if s.resp.None? || s.ep.awaitingAck then s
    else if !fmt.Sendable(s.resp.value) then s.(resp := None)
    else
      var ep := Stamp(s.ep, s.resp.value);
      State(ep, if PutCode(fmt, s) == FRAME_ARQ_ERROR_BUSY then s.resp else None,
            Written(s.line, fmt.BytesOf(Some(Outstanding(ep)))).0)
  }

  function LoopStep(fmt: Format, asks: Message -> bool, s: State, r: Reaction, answer: Message, timedOut: bool): State
    requires fmt.Valid()
  {
    var s1 := GetStep(fmt, asks, s, r, answer);
    var s2 := if r.outcome.ResendNeeded? then ResendStep(fmt, s1) else s1;
    var s3 := PutStep(fmt, s2);
    if s3.ep.awaitingAck && timedOut then ResendStep(fmt, s3) else s3
  }

  /** The endpoint without the resend flag, which only asks the caller to act. */
  function Plain(ep: Endpoint): Endpoint {
    ep.(resendNeeded := false)
  }

  function SlotOf(s: State): Demo.Slot {
    Demo.Slot(Plain(s.ep), s.resp)
  }

  /** On a line that takes every byte the loop is the loop of the demo's system. */
  lemma WillingLoopIsTheDemos(fmt: Format, asks: Message -> bool, s: State, r: Reaction, answer: Message,
                              timedOut: bool)
    requires fmt.Valid() && s.line.Willing()
    ensures SlotOf(LoopStep(fmt, asks, s, r, answer, timedOut))
            == Demo.AfterSend(fmt, Demo.AfterGet(asks, SlotOf(s), r.(ep := Plain(r.ep)), answer))
  {
    hide Format.BytesOf;
    var s1 := GetStep(fmt, asks, s, r, answer);
    var s2 := if r.outcome.ResendNeeded? then ResendStep(fmt, s1) else s1;
    WillingTakesAll(s.line, fmt.BytesOf(r.reply));
    if s1.ep.retained.Some? {
      WillingTakesAll(s1.line, fmt.BytesOf(Some(Outstanding(s1.ep))));
    }
    if s2.resp.Some? {
      WillingTakesAll(s2.line, fmt.BytesOf(Some(Outstanding(Stamp(s2.ep, s2.resp.value)))));
    }
    hide Written;
  }

  /** The bytes of a data frame. */
  function DataBytes(fmt: Format, seq6: nat, m: Option<Message>): seq<byte>
    requires fmt.Valid()
  {
    if m.Some? then fmt.BytesOf(Some(Data(seq6, m.value))) else []
  }

  /** The response in the slot after a delivered request has been handled. */
  function Loaded(asks: Message -> bool, resp: Option<Message>, r: Reaction, answer: Message): Option<Message> {
    if r.outcome.Deliver? && asks(r.outcome.msg) then Some(answer) else resp
  }

  /**
   What a pass puts out over a line that takes every byte: the reply, the outstanding frame if a NACK
   asked for it, the queued response if it goes, and once the time is up the frame that is outstanding
   at the end of the pass.
   */
  function PassBytes(fmt: Format, asks: Message -> bool, resp: Option<Message>, r: Reaction, answer: Message,
                     timedOut: bool, last: Endpoint): seq<byte>
    requires fmt.Valid()
  {
    var loaded := Loaded(asks, resp, r, answer);
    var goes := loaded.Some? && !r.ep.awaitingAck && fmt.Sendable(loaded.value);
    fmt.BytesOf(r.reply)
    + (if r.outcome.ResendNeeded? then DataBytes(fmt, r.ep.txSeq, r.ep.retained) else [])
    + (if goes then DataBytes(fmt, (r.ep.txSeq + 1) % 64, loaded) else [])
    + (if timedOut && last.awaitingAck then DataBytes(fmt, last.txSeq, last.retained) else [])
  }

  /** The endpoint and the slot after a pass: a response that can go has gone, one that never can is dropped. */
  predicate Passed(fmt: Format, asks: Message -> bool, resp: Option<Message>, r: Reaction, answer: Message,
                   last: Endpoint, left: Option<Message>)
  {
    var loaded := Loaded(asks, resp, r, answer);
    var goes := loaded.Some? && !r.ep.awaitingAck && fmt.Sendable(loaded.value);
    && left == (if r.ep.awaitingAck then loaded else None)
    && last.expectedRxSeq == r.ep.expectedRxSeq
    && if goes then last.txSeq == (r.ep.txSeq + 1) % 64 && last.awaitingAck && last.retained == loaded
       else last.txSeq == r.ep.txSeq && last.awaitingAck == r.ep.awaitingAck && last.retained == r.ep.retained
  }

  lemma GetOverWillingLine(fmt: Format, asks: Message -> bool, s: State, r: Reaction, answer: Message)
    requires fmt.Valid() && s.line.Willing()
    ensures var t := GetStep(fmt, asks, s, r, answer);
      && t.ep == r.ep && t.line.Willing() && t.line.tx == s.line.tx + fmt.BytesOf(r.reply)
      && t.resp == if r.outcome.Deliver? && asks(r.outcome.msg) then Some(answer) else s.resp
  {
    WillingTakesAll(s.line, fmt.BytesOf(r.reply));
  }

  lemma ResendOverWillingLine(fmt: Format, s: State)
    requires fmt.Valid() && s.line.Willing() && (s.ep.awaitingAck ==> s.ep.retained.Some?)
    ensures var t := ResendStep(fmt, s);
      && Plain(t.ep) == Plain(s.ep) && t.resp == s.resp && t.line.Willing()
      && t.line.tx == s.line.tx + if s.ep.awaitingAck then DataBytes(fmt, s.ep.txSeq, s.ep.retained) else []
  {
    if s.ep.awaitingAck {
      WillingTakesAll(s.line, fmt.BytesOf(Some(Outstanding(s.ep))));
    }
  }

  lemma PutOverWillingLine(fmt: Format, s: State)
    requires fmt.Valid() && s.line.Willing() && (s.ep.awaitingAck ==> s.ep.retained.Some?)
    ensures var t := PutStep(fmt, s);
      var goes := s.resp.Some? && !s.ep.awaitingAck && fmt.Sendable(s.resp.value);
      && t.resp == (if s.ep.awaitingAck then s.resp else None) && t.line.Willing()
      && Plain(t.ep) == Plain(if goes then Stamp(s.ep, s.resp.value) else s.ep)
      && (t.ep.awaitingAck ==> t.ep.retained.Some?)
      && t.line.tx == s.line.tx + if goes then DataBytes(fmt, (s.ep.txSeq + 1) % 64, s.resp) else []
  {
    hide Format.BytesOf, Format.Sendable;
    if s.resp.Some? && !s.ep.awaitingAck {
      WillingTakesAll(s.line, fmt.BytesOf(Some(Outstanding(Stamp(s.ep, s.resp.value)))));
    }
    hide Written, Line.Willing;
  }

  lemma PassOverWillingLine(fmt: Format, asks: Message -> bool, s: State, r: Reaction, answer: Message,
                            timedOut: bool)
    requires fmt.Valid() && s.line.Willing() && (r.ep.awaitingAck ==> r.ep.retained.Some?)
    requires r.outcome.ResendNeeded? ==> r.ep.awaitingAck
    ensures var t := LoopStep(fmt, asks, s, r, answer, timedOut);
      && t.line.Willing() && t.line.tx == s.line.tx + PassBytes(fmt, asks, s.resp, r, answer, timedOut, t.ep)
      && Passed(fmt, asks, s.resp, r, answer, t.ep, t.resp)
  {
    hide GetStep, ResendStep, PutStep, DataBytes, Format.BytesOf;
    GetOverWillingLine(fmt, asks, s, r, answer);
    var s1 := GetStep(fmt, asks, s, r, answer);
    if r.outcome.ResendNeeded? {
      ResendOverWillingLine(fmt, s1);
    }
    var s2 := if r.outcome.ResendNeeded? then ResendStep(fmt, s1) else s1;
    PutOverWillingLine(fmt, s2);
    ResendOverWillingLine(fmt, PutStep(fmt, s2));
  }

  /**
   A response that could be sent stays in the slot exactly when the callback's first refusal is the
   BUSY code and falls on a byte of the frame.
   */
  lemma KeptExactlyWhenBusy(fmt: Format, s: State)
    requires fmt.Valid() && s.resp.Some? && !s.ep.awaitingAck && s.ep.txSeq < SEQUENCES && fmt.Sendable(s.resp.value)
    ensures PutStep(fmt, s).resp.Some?
            <==> exists k: nat :: k < HEADER_LENGTH + |s.resp.value.payload|
                               && FirstRefusal(s.line.answers, k, FRAME_ARQ_ERROR_BUSY)
  {
    hide Format.Encode;
    var bytes := fmt.BytesOf(Some(Outstanding(Stamp(s.ep, s.resp.value))));
    assert |bytes| == HEADER_LENGTH + |s.resp.value.payload|;
    FailsExactlyWhenRefused(s.line, bytes, FRAME_ARQ_ERROR_BUSY);
  }

  /** Then it is sent a second time, under the next number, once the first copy is acknowledged. */
  lemma BusyCallbackSendsTwice(fmt: Format, ep: Endpoint, m: Message, tx: seq<byte>)
    requires fmt.Valid() && ep.Valid() && !ep.awaitingAck && fmt.Sendable(m)
    ensures var first := PutStep(fmt, State(ep, Some(m), Line(tx, [FRAME_ARQ_ERROR_BUSY])));
      var acked := first.(ep := React(first.ep, Ack(first.ep.txSeq)).ep);
      var second := PutStep(fmt, acked);
      && first.ep == Stamp(ep, m) && first.resp == Some(m)
      && second.ep == Stamp(first.ep.(awaitingAck := false), m) && second.ep.txSeq != first.ep.txSeq
      && second.line.tx == tx + fmt.FrameBytes(Outstanding(second.ep))
  {
    hide Format.Encode;
    var s := State(ep, Some(m), Line(tx, [FRAME_ARQ_ERROR_BUSY]));
    var bytes := fmt.BytesOf(Some(Outstanding(Stamp(ep, m))));
    assert bytes != [] && s.line.Refuses();
    var first := PutStep(fmt, s);
    assert first.line == Line(tx, []) && first.resp == Some(m);
    WillingTakesAll(first.line, fmt.BytesOf(Some(Outstanding(Stamp(first.ep, m)))));
  }

  lemma PutIsRefusedOrSent(fmt: Format, ep: Endpoint, m: Message)
    requires !ep.awaitingAck
    ensures PutCheck(fmt, ep, m) != Busy && (PutCheck(fmt, ep, m) == Accepted <==> fmt.Sendable(m))
  {}

  lemma NoReply(fmt: Format, line: Line)
    requires fmt.Valid()
    ensures Written(line, fmt.BytesOf(None)) == (line, 0)
  {}

  // ---- The program ------------------------------------------------------------

  class Device {
    const arq: FrameArq
    const asks: Message -> bool
    const respBuffer: array<byte>
    var respLen: nat
    var respCmd: byte
    var respPending: bool

    ghost predicate Valid()
      reads this, arq, arq.readBuffer, arq.retainBuffer, respBuffer
      ensures Valid() ==> respLen <= respBuffer.Length && arq.fmt.Valid()
    {
      && arq.Valid() && respLen <= respBuffer.Length
      && respBuffer != arq.readBuffer && respBuffer != arq.retainBuffer
    }

    function Queued(): Option<Message>
      reads this, respBuffer
      requires respLen <= respBuffer.Length
    {
      if respPending then Some(Message(respCmd, respBuffer[..respLen])) else None
    }

    ghost function Now(): State
      reads this, arq, arq.sink, respBuffer
      requires respLen <= respBuffer.Length
    {
      State(arq.Model(), Queued(), arq.sink.Out())
    }

    constructor (arq: FrameArq, asks: Message -> bool, maxSize: nat)
      requires arq.Valid()
      ensures Valid() && this.arq == arq && this.asks == asks && respBuffer.Length == maxSize && fresh(respBuffer)
      ensures Queued() == None
    {
      this.arq, this.asks := arq, asks;
      respBuffer := new byte[maxSize];
      respLen, respCmd, respPending := 0, 0, false;
    }

    /** queue_response: a failed write queues nothing, else the slot is taken whatever it held. */
    method QueueResponse(cmd: byte, count: int)
      requires Valid() && count <= respBuffer.Length
      modifies this
      ensures Valid()
      ensures if count < 0 then unchanged(this) else respCmd == cmd && respLen == count && respPending
    {
      if count < 0 {
        return;
      }
      respCmd, respLen, respPending := cmd, count, true;
    }

    /** handle_command: for a request with a response, the message writer fills the buffer. */
    method HandleCommand(m: Message, answer: Message)
      requires Valid() && |answer.payload| <= respBuffer.Length
      modifies this, respBuffer
      ensures Valid()
      ensures Queued() == if asks(m) then Some(answer) else old(Queued())
    {
      if asks(m) {
        forall k | 0 <= k < |answer.payload| {
          respBuffer[k] := answer.payload[k];
        }
        assert respBuffer[..|answer.payload|] == answer.payload;
        QueueResponse(answer.cmd, |answer.payload|);
      }
    }

    /** What get makes of the bytes that have arrived. */
    ghost function Arrival(): Reaction
      reads this, arq, arq.readBuffer, arq.retainBuffer, arq.port
      requires arq.Valid()
    {
      match Pump(arq.fmt, arq.Held(), arq.port.rx).event
      case None => Reaction(arq.Model(), None, Nothing)
      case Some(e) => ReactTo(arq.Model(), e)
    }

    lemma ArrivalIsValid()
      requires arq.Valid()
      ensures Arrival().ep.awaitingAck ==> Arrival().ep.retained.Some?
      ensures Arrival().outcome.ResendNeeded? ==> Arrival().ep.awaitingAck
    {
      hide Pump, Partial;
    }

    /** frame_arq_resend, as the loop calls it. */
    method ResendFrame()
      requires Valid()
      modifies arq, arq.sink
      ensures Valid() && Now() == ResendStep(arq.fmt, old(Now()))
    {
      hide Format.FrameBytes, Written;
      var _ := arq.Resend();
    }

    /** The first part of loop: get, and what it asks for. */
    method Receive(answer: Message)
      requires Valid() && |answer.payload| <= respBuffer.Length
      modifies this, arq, arq.readBuffer, arq.port, arq.sink, respBuffer
      ensures Valid()
      ensures var r := old(Arrival());
        var s := GetStep(arq.fmt, asks, old(Now()), r, answer);
        Now() == if r.outcome.ResendNeeded? then ResendStep(arq.fmt, s) else s
    {
      NoReply(arq.fmt, arq.sink.Out());
      hide FrameArq.Valid, Format.BytesOf, React, Pump, Written, ResendStep;
      var cmd, size := arq.Get();
      if cmd == FRAME_ARQ_RESEND_NEEDED {
        ResendFrame();
      } else if cmd > 0 {
        HandleCommand(Message(cmd, arq.readBuffer[HEADER_LENGTH..HEADER_LENGTH + size]), answer);
      }
    }

    /** The middle of loop: send a queued response once nothing is outstanding. */
    method SendQueued()
      requires Valid()
      modifies this, arq, arq.retainBuffer, arq.sink
      ensures Valid() && Now() == PutStep(arq.fmt, old(Now()))
    {
      hide FrameArq.Valid, Format.FrameBytes, Written;
      if respPending && !arq.awaitingAck {
        PutIsRefusedOrSent(arq.fmt, arq.Model(), Message(respCmd, respBuffer[..respLen]));
        hide PutCheck;
        var r := arq.Put(respCmd, respBuffer[..respLen]);
        if r != FRAME_ARQ_ERROR_BUSY {
          respPending := false;
        }
      }
    }

    /** One pass of loop: get, then what it asks for, then the queued response, then the retransmit timer. */
    method Loop(answer: Message, timedOut: bool)
      requires Valid() && |answer.payload| <= respBuffer.Length
      modifies this, arq, arq.readBuffer, arq.retainBuffer, arq.port, arq.sink, respBuffer
      ensures Valid()
      ensures Now() == LoopStep(arq.fmt, asks, old(Now()), old(Arrival()), answer, timedOut)
      ensures old(arq.sink.Out().Willing()) ==>
        && arq.sink.Out().Willing()
        && arq.sink.tx == old(arq.sink.tx) + PassBytes(arq.fmt, asks, old(Queued()), old(Arrival()), answer, timedOut,
                                                       arq.Model())
        && Passed(arq.fmt, asks, old(Queued()), old(Arrival()), answer, arq.Model(), Queued())
    {
      ArrivalIsValid();
      if arq.sink.Out().Willing() {
        PassOverWillingLine(arq.fmt, asks, Now(), Arrival(), answer, timedOut);
      }
      hide Device.Valid, GetStep, PutStep, ResendStep, PassBytes, Passed;
      Receive(answer);
      SendQueued();
      if arq.awaitingAck && timedOut {
        ResendFrame();
      }
    }
  }
}
