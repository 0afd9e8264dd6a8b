/**
 The C# session above the decoder: a send queue on top of the same sequence numbers. The
 functions say what each locked section decides; `HostSession` runs them on the real fields.
 */
module Sessions {
  import opened Bytes
  import opened Frames
  import opened Endpoints

  /** The ARQ state and the messages that wait behind the outstanding one. */
  datatype Host = Host(ep: Endpoint, queue: seq<Message>)

  /** What one call decides: the new state, the frame it writes, and what the application is told. */
  datatype Decision = Decision(host: Host, frame: Option<Frame>, outcome: Outcome)

  /** Send: at once when nothing is outstanding, else queued. */
  function Submit(h: Host, m: Message): Decision {
    if h.ep.awaitingAck then Decision(h.(queue := h.queue + [m]), None, Nothing)
    else
      var ep := Stamp(h.ep, m);
      Decision(h.(ep := ep), Some(Outstanding(ep)), Nothing)
  }

  /** Resend, and what a timeout writes. */
  function Retransmit(h: Host): Decision {
    Decision(h, if h.ep.awaitingAck && h.ep.retained.Some? then Some(Outstanding(h.ep)) else None, Nothing)
  }

  /**
   A frame from the device. The decision is the engine's own (`React`); then an ACK that ends the
   wait lets the next queued message go, and a NACK is answered here unless the caller asked to
   do so. The session does not keep the engine's resend flag.
   */
  function Handle(h: Host, f: Frame, explicitMode: bool): Decision {
    var r := React(h.ep, f);
    var h' := h.(ep := r.ep.(resendNeeded := false));
    if h.ep.awaitingAck && !r.ep.awaitingAck && h.queue != [] then
      Submit(h'.(queue := h.queue[1..]), h.queue[0])
    else if r.outcome.ResendNeeded? && !explicitMode then Retransmit(h')
    else Decision(h', r.reply, r.outcome)
  }

  /**
   Send-queue conservation: what was passed to Send is what has been put on the wire, then what
   waits in the queue, and nothing waits unless a frame is outstanding.
   */
  predicate Conserved(h: Host, accepted: seq<Message>, sent: seq<Message>) {
    && accepted == sent + h.queue
    && (h.queue != [] ==> h.ep.awaitingAck)
    && (h.ep.awaitingAck ==> sent != [] && h.ep.retained == Some(sent[|sent| - 1]))
  }

  /** The messages whose ACK has been received. */
  function Acknowledged(h: Host, sent: seq<Message>): seq<Message> {
    if h.ep.awaitingAck && sent != [] then sent[..|sent| - 1] else sent
  }

  /** Acknowledged, then the one outstanding if any, then the queue: the whole Send history. */
  lemma HistoryIsPartitioned(h: Host, accepted: seq<Message>, sent: seq<Message>)
    requires Conserved(h, accepted, sent)
    ensures accepted
            == Acknowledged(h, sent) + (if h.ep.awaitingAck then [h.ep.retained.value] else []) + h.queue
  {
    if h.ep.awaitingAck {
      assert sent == sent[..|sent| - 1] + [sent[|sent| - 1]];
    } else {
      assert sent + [] == sent;
    }
  }

  /** What a decision adds to the frames sent for the first time. */
  function Started(h: Host, d: Decision): seq<Message> {
    if d.host.ep.txSeq != h.ep.txSeq && d.host.ep.retained.Some? then [d.host.ep.retained.value] else []
  }

  lemma SubmitConserves(h: Host, m: Message, accepted: seq<Message>, sent: seq<Message>)
    requires h.ep.Valid() && Conserved(h, accepted, sent)
    ensures var d := Submit(h, m);
      Conserved(d.host, accepted + [m], sent + Started(h, d)) && d.host.ep.Valid()
  {
    if h.ep.awaitingAck {
      assert sent + [] == sent;
      assert sent + (h.queue + [m]) == sent + h.queue + [m];
    } else {
      assert (h.ep.txSeq + 1) % SEQUENCES != h.ep.txSeq;
      assert accepted == sent;
      assert sent + [m] + [] == sent + [m];
    }
  }

  lemma HandleConserves(h: Host, f: Frame, explicitMode: bool, accepted: seq<Message>, sent: seq<Message>)
    requires h.ep.Valid() && Conserved(h, accepted, sent)
    ensures var d := Handle(h, f, explicitMode);
      Conserved(d.host, accepted, sent + Started(h, d)) && d.host.ep.Valid()
  {
    var r := React(h.ep, f);
    var ep := r.ep.(resendNeeded := false);
    assert ep.txSeq == h.ep.txSeq && ep.retained == h.ep.retained;
    if h.ep.awaitingAck && !r.ep.awaitingAck && h.queue != [] {
      assert h.queue == [h.queue[0]] + h.queue[1..];
      assert (h.ep.txSeq + 1) % SEQUENCES != h.ep.txSeq;
      assert accepted == sent + [h.queue[0]] + h.queue[1..];
    } else {
      assert sent + [] == sent;
    }
  }

  /**
   What the session adds to the engine's reaction, the queue and its own resend, leaves deliveries,
   answers and expected numbers alone, for every frame.
   That both run the same reaction is what the contracts of FrameArq.Get and DispatchValidFrame say.
   */
  lemma DecidesAsTheEngine(h: Host, f: Frame, explicitMode: bool)
    requires h.ep.Valid()
    ensures var r, d := React(h.ep, f), Handle(h, f, explicitMode);
      && d.host.ep.expectedRxSeq == r.ep.expectedRxSeq
      && (r.reply.Some? ==> d.frame == r.reply && d.outcome == r.outcome)
      && (d.outcome.Deliver? <==> r.outcome.Deliver?)
      && (d.host.ep.awaitingAck <==> r.ep.awaitingAck || (h.ep.awaitingAck && h.queue != []))
      && (r.outcome.ResendNeeded?
          ==> if explicitMode then d.outcome == r.outcome else d.frame == Some(Outstanding(h.ep)))
  {}
}
