/** The calls on the engine object are the calls of `Wires`, and a whole batch of them depends only on the bytes. */
module EngineCalls {
  import opened Bytes
  import opened Callbacks
  import opened Frames
  import opened Assembler
  import opened Streams
  import opened Endpoints
  import opened FrameArqEngine
  import opened Wires

  // ---- One call ---------------------------------------------------------------

  /** The engine is the object at this end. */
  ghost predicate IsAt(arq: FrameArq, e: End)
    reads arq, arq.readBuffer, arq.retainBuffer, arq.sink
  {
    arq.Valid() && arq.Model() == e.ep && arq.Held() == e.held && arq.sink.Out().Willing()
  }

  /** The object is where the call of `Wires` leaves its end, and has written what the call adds to the line. */
  ghost predicate Did(arq: FrameArq, p: Pair, q: Pair, tx: seq<byte>)
    reads arq, arq.readBuffer, arq.retainBuffer, arq.sink
  {
    && IsAt(arq, q.a) && p.b.unread <= q.b.unread && q.b == p.b.(unread := q.b.unread)
    && arq.sink.tx == tx + q.b.unread[|p.b.unread|..]
  }

  lemma Added(p: Pair, q: Pair, out: seq<byte>)
    requires q.b.unread == p.b.unread + out
    ensures p.b.unread <= q.b.unread && q.b.unread[|p.b.unread|..] == out
  {}

  /** A put, accepted or not. */
  method MakePut(arq: FrameArq, m: Message, ghost p: Pair) returns (code: int)
    requires IsAt(arq, p.a)
    modifies arq, arq.retainBuffer, arq.sink
    ensures var q := CallA(arq.fmt, p, PutCall(m));
      && Did(arq, p, q, old(arq.sink.tx))
      && (code == 0 <==> arq.fmt.Sendable(m) && !p.a.ep.awaitingAck)
      && q.a.sent == (if code == 0 then p.a.sent + [m] else p.a.sent)
      && q.a.unread == p.a.unread && q.a.delivered == p.a.delivered
  {
    PutCallDoes(arq.fmt, p, m);
    WillingTakesAll(arq.sink.Out(), PutOut(arq.fmt, p.a.ep, m));
    Added(p, CallA(arq.fmt, p, PutCall(m)), PutOut(arq.fmt, p.a.ep, m));
    hide FrameArq.Valid, Written, Format.FrameBytes, Format.DataBytes, Format.Wellformed, CallA, PutOut, PutCheck,
        Format.Sendable, Line.Willing;
    code := arq.Put(m.cmd, m.payload);
  }

  function PutOut(fmt: Format, ep: Endpoint, m: Message): seq<byte>
    requires fmt.Valid()
  {
    if PutCheck(fmt, ep, m) == Accepted then fmt.BytesOf(Some(Outstanding(Stamp(ep, m)))) else []
  }

  lemma PutCallDoes(fmt: Format, p: Pair, m: Message)
    requires fmt.Valid()
    ensures var q := CallA(fmt, p, PutCall(m));
      && (PutCheck(fmt, p.a.ep, m) == Accepted <==> fmt.Sendable(m) && !p.a.ep.awaitingAck)
      && q.b == p.b.(unread := p.b.unread + PutOut(fmt, p.a.ep, m))
      && (PutCheck(fmt, p.a.ep, m) == Accepted ==>
            var f := Outstanding(Stamp(p.a.ep, m));
            fmt.Wellformed(f) && PutOut(fmt, p.a.ep, m) == fmt.FrameBytes(f))
      && (PutCheck(fmt, p.a.ep, m) != Accepted ==> PutOut(fmt, p.a.ep, m) == [])
      && q.a == if PutCheck(fmt, p.a.ep, m) == Accepted then p.a.(ep := Stamp(p.a.ep, m), sent := p.a.sent + [m])
                else p.a
  {}

  /** A resend, of what is outstanding if anything is. */
  method MakeResend(arq: FrameArq, ghost p: Pair) returns (code: int)
    requires IsAt(arq, p.a)
    modifies arq, arq.sink
    ensures code == 0
    ensures var q := CallA(arq.fmt, p, ResendCall);
      && Did(arq, p, q, old(arq.sink.tx))
      && q.a.sent == p.a.sent && q.a.unread == p.a.unread && q.a.delivered == p.a.delivered
  {
    ghost var q := CallA(arq.fmt, p, ResendCall);
    if p.a.ep.awaitingAck && p.a.ep.retained.Some? {
      ghost var out := arq.fmt.BytesOf(Some(Outstanding(p.a.ep)));
      WillingTakesAll(arq.sink.Out(), out);
      Added(p, q, out);
    } else {
      Added(p, q, []);
    }
    hide Written, Format.FrameBytes, CallA;
    code := arq.Resend();
  }

  /** A get, whatever the read callback answers. */
  method MakeGet(arq: FrameArq, ghost p: Pair) returns (given: Option<Message>)
    requires IsAt(arq, p.a) && Arrived(arq.port.rx) <= p.a.unread
    modifies arq, arq.readBuffer, arq.port, arq.sink
    ensures var q := CallA(arq.fmt, p, GetCall(old(arq.port.rx)));
      && Did(arq, p, q, old(arq.sink.tx)) && q.a.sent == p.a.sent
      && q.a.delivered == (if given.Some? then p.a.delivered + [given.value] else p.a.delivered)
      && q.a.unread == Arrived(arq.port.rx) + p.a.unread[|Arrived(old(arq.port.rx))|..]
  {
    hide FrameArq.Valid, Written, Format.FrameBytes, React, Pump, Arrived, Format.BytesOf;
    ghost var x := GetEffect(arq.fmt, p.a, arq.port.rx);
    Added(p, CallA(arq.fmt, p, GetCall(arq.port.rx)), x.out);
    WillingTakesAll(arq.sink.Out(), x.out);
    NoBytes(arq.fmt);
    hide CallA;
    var code, size := arq.Get();
    given := None;
    if code > 0 {
      given := Some(Message(code, arq.readBuffer[HEADER_LENGTH..HEADER_LENGTH + size]));
    }
  }

  lemma NoBytes(fmt: Format)
    requires fmt.Valid()
    ensures fmt.BytesOf(None) == []
  {}

  // ---- All the answers there are ----------------------------------------------

  /** The endpoint, the line out, and the messages given to the caller. */
  datatype Course = Course(ep: Endpoint, line: Line, given: seq<Message>)

  function Step(fmt: Format, c: Course, e: Event): Course
    requires fmt.Valid()
  {
    var r := ReactTo(c.ep, e);
    Course(r.ep, Written(c.line, fmt.BytesOf(r.reply)).0,
           if r.outcome.Deliver? then c.given + [r.outcome.msg] else c.given)
  }

  /** The reactions to a list of events, one after the other. */
  function Steps(fmt: Format, c: Course, events: seq<Event>): Course
    requires fmt.Valid()
    decreases |events|
  {
    if events == [] then c else Steps(fmt, Step(fmt, c, events[0]), events[1..])
  }

  /** Where the object and its caller are. */
  ghost function Now(arq: FrameArq, given: seq<Message>): Course
    reads arq, arq.sink
  {
    Course(arq.Model(), arq.sink.Out(), given)
  }

  /** One more call of get: one more event, if the pump has one. */
  method GetOne(arq: FrameArq, given: seq<Message>) returns (given': seq<Message>)
    requires arq.Valid()
    modifies arq, arq.readBuffer, arq.port, arq.sink
    ensures arq.Valid()
    ensures var p := Pump(arq.fmt, old(arq.Held()), old(arq.port.rx));
      && arq.Held() == p.buf && arq.port.rx == p.rest
      && Now(arq, given') == match p.event
                             case None => old(Now(arq, given))
                             case Some(e) => Step(arq.fmt, old(Now(arq, given)), e)
  {
    NoBytes(arq.fmt);
    hide FrameArq.Valid, Format.FrameBytes, React, Pump, Format.BytesOf, Written;
    var code, size := arq.Get();
    given' := given;
    if code > 0 {
      given' := given + [Message(code, arq.readBuffer[HEADER_LENGTH..HEADER_LENGTH + size])];
    }
  }

  /**
   Calling get until the answers run out: the state, the replies on the line and the messages given
   to the caller are those of the events of the bytes alone, wherever the answers had gaps.
   */
  method GetAll(arq: FrameArq) returns (given: seq<Message>)
    requires arq.Valid()
    modifies arq, arq.readBuffer, arq.port, arq.sink
    ensures arq.Valid() && arq.port.rx == []
    ensures var (events, held) := Parse(arq.fmt, old(arq.Held()), Arrived(old(arq.port.rx)));
      arq.Held() == held && Now(arq, given) == Steps(arq.fmt, old(Now(arq, [])), events)
  {
    hide FrameArq.Valid, Pump, Step, Parse;
    ghost var fmt, before := arq.fmt, Now(arq, []);
    ghost var all := PumpAll(fmt, arq.Held(), arq.port.rx);
    ChunkingDoesNotMatter(fmt, arq.Held(), arq.port.rx);
    given := [];
    while |arq.port.rx| > 0
      invariant arq.Valid()
      invariant var left := PumpAll(fmt, arq.Held(), arq.port.rx);
        Steps(fmt, before, all.0) == Steps(fmt, Now(arq, given), left.0) && all.1 == left.1
      decreases |arq.port.rx|
    {
      ghost var p := Pump(fmt, arq.Held(), arq.port.rx);
      ghost var left := PumpAll(fmt, p.buf, p.rest).0;
      assert p.event.Some? ==> ([p.event.value] + left)[1..] == left;
      given := GetOne(arq, given);
    }
  }

  // ---- A damaged frame --------------------------------------------------------

  lemma DamagedLineHasOneEvent(max: nat, noise: seq<byte>, bad: seq<byte>, marker: byte, seqByte: byte,
                               payload: seq<byte>, bytes: seq<byte>)
    requires marker >= 128 && |payload| <= max < UINT32_LIMIT
    requires SameShape(Crc32Format(max), bad, marker, seqByte, payload)
    requires Damaged(Crc32Format(max), bad, seqByte, payload)
    requires Quiet(noise, bad[0]) && bytes == noise + bad
    ensures Parse(Crc32Format(max), [], bytes).0 == [BadCrc]
  {
    hide Crc32Format, SameShape, Damaged, Framed, Scan;
    DamagedFrameIsCorrupt(max, bad, marker, seqByte, payload);
    var pieces := [Piece(noise, bad)];
    assert Stream(pieces, []) == noise + bad + [] == bytes;
    LineScansToVerdicts(Crc32Format(max), pieces, []);
    ParseIsScan(Crc32Format(max), bytes);
    assert Verdicts(Crc32Format(max), pieces) == [BadCrc] + Verdicts(Crc32Format(max), []);
  }

  /**
   Damage that a checksum sees, from the bytes that come in to the bytes that go out: a NACK of the
   expected number, nothing given to the caller, and the state as before.
   */
  method GetDamaged(arq: FrameArq, ghost noise: seq<byte>, ghost bad: seq<byte>, ghost marker: byte,
                    ghost seqByte: byte, ghost payload: seq<byte>) returns (given: seq<Message>)
    requires arq.Valid() && arq.Held() == [] && Arrived(arq.port.rx) == noise + bad
    requires marker >= 128 && |payload| <= arq.fmt.max && SameShape(arq.fmt, bad, marker, seqByte, payload)
    requires Damaged(arq.fmt, bad, seqByte, payload) && Quiet(noise, bad[0])
    modifies arq, arq.readBuffer, arq.port, arq.sink
    ensures given == [] && arq.Valid() && arq.Model() == old(arq.Model())
    ensures arq.sink.Out() == Written(old(arq.sink.Out()), arq.fmt.ControlBytes(2, old(arq.expectedRxSeq))).0
  {
    hide Written, Parse, SameShape, Damaged, Format.ControlBytes;
    DamagedLineHasOneEvent(arq.fmt.max, noise, bad, marker, seqByte, payload, Arrived(arq.port.rx));
    ghost var c := Now(arq, []);
    assert Steps(arq.fmt, c, [BadCrc]) == Steps(arq.fmt, Step(arq.fmt, c, BadCrc), []);
    given := GetAll(arq);
  }
}
