/** The read task of the C# session: what a batch of bytes does to the session depends only on its frames. */
module HostCalls {
  import opened Bytes
  import opened Crc
  import opened CrcLoops
  import opened Frames
  import opened Streams
  import opened Endpoints
  import opened Sessions
  import opened HostDecoder
  import opened HostReader
  import opened HostSession

  /** The session's state, the frames written, and the messages given to the application. */
  datatype Course = Course(host: Host, writes: seq<seq<byte>>, given: seq<Message>)

  /** A frame that fails its checksum or announces too much counts as corrupt. */
  function FrameOf(e: Event): Frame {
    if e.Valid? then Interpret(e.marker, e.seqByte, e.payload) else Corrupt
  }

  function Step(fmt: Format, c: Course, e: Event, explicitMode: bool): Course
    requires fmt.Valid()
  {
    var d := Handle(c.host, FrameOf(e), explicitMode);
    Course(d.host, if d.frame.Some? then c.writes + [fmt.BytesOf(d.frame)] else c.writes,
           if d.outcome.Deliver? then c.given + [d.outcome.msg] else c.given)
  }

  /** The decisions on a list of frames, one after the other. */
  function Steps(fmt: Format, c: Course, events: seq<Event>, explicitMode: bool): Course
    requires fmt.Valid()
    decreases |events|
  {
    if events == [] then c else Steps(fmt, Step(fmt, c, events[0], explicitMode), events[1..], explicitMode)
  }

  ghost function Now(session: EspSerialSession, given: seq<Message>): Course
    reads session
  {
    Course(session.Model(), session.writes, given)
  }

  lemma CorruptTellsNothing(h: Host, explicitMode: bool)
    ensures !Handle(h, Corrupt, explicitMode).outcome.Deliver?
  {}

  /** One frame of the read loop. */
  method Take(session: EspSerialSession, e: Event, given: seq<Message>) returns (given': seq<Message>)
    requires session.Valid() && (e.Valid? ==> e.marker >= 128)
    modifies session`txSeq, session`expectedRxSeq, session`awaiting, session`retain, session`retries
    modifies session`deliveryNotified, session`sendQueue, session`writes, session`accepted, session`sent
    ensures session.Valid() && session.accepted == old(session.accepted)
    ensures Now(session, given') == Step(session.fmt, old(Now(session, given)), e, session.ackTimeoutMs < 0)
  {
    hide EspSerialSession.Valid, Handle, Interpret, Format.FrameBytes;
    CorruptTellsNothing(session.Model(), session.ackTimeoutMs < 0);
    given' := given;
    if e.Valid? {
      var event := session.DispatchValidFrame(e.marker, e.seqByte, e.payload);
      if event.Deliver? {
        given' := given + [event.msg];
      }
    } else {
      session.OnBadFrame();
    }
  }

  // ---- A batch of bytes -------------------------------------------------------

  lemma FedHasMarker(fmt: Format, buf: seq<byte>, b: byte)
    requires buf == [] || buf[0] >= 128
    ensures var h := HostFeed(fmt, buf, b);
      && (h.buf == [] || h.buf[0] >= 128)
      && (h.chunk.Some? && h.chunk.value.Taken? && h.chunk.value.event.Valid? ==> h.chunk.value.event.marker >= 128)
  {
    hide LengthField;
  }

  lemma {:induction false} EventsHaveMarkers(fmt: Format, buf: seq<byte>, s: seq<byte>)
    requires buf == [] || buf[0] >= 128
    ensures forall e :: e in Events(HostParse(fmt, buf, s).0) && e.Valid? ==> e.marker >= 128
    decreases |s|
  {
    if s != [] {
      FedHasMarker(fmt, buf, s[0]);
      var h := HostFeed(fmt, buf, s[0]);
      hide HostFeed;
      EventsHaveMarkers(fmt, h.buf, s[1..]);
      if h.chunk.Some? {
        var later := HostParse(fmt, h.buf, s[1..]).0;
        assert ([h.chunk.value] + later)[1..] == later;
      }
    }
  }

  /**
   The read loop over a batch of bytes: the session's state, the frames that it writes and the messages
   that it gives are those of the frames cut out, and the rest is log text.
   */
  method ReadAll(session: EspSerialSession, s: seq<byte>) returns (given: seq<Message>, log: seq<byte>)
    requires session.Valid()
    modifies session`txSeq, session`expectedRxSeq, session`awaiting, session`retain, session`retries
    modifies session`deliveryNotified, session`sendQueue, session`writes, session`accepted, session`sent
    ensures session.Valid() && session.accepted == old(session.accepted)
    ensures var chunks := HostParse(Crc32Format(32768), [], s).0;
      && log == LogText(chunks)
      && Now(session, given) == Steps(session.fmt, old(Now(session, [])), Events(chunks), session.ackTimeoutMs < 0)
  {
    hide Step, HostParse, FrameCrc, IsCrcTable, Crc32Format, Events, LogText;
    ghost var fmt, before, explicitMode := session.fmt, Now(session, []), session.ackTimeoutMs < 0;
    var events;
    events, log := ReadLoop(session.crcTable, s);
    EventsHaveMarkers(Crc32Format(32768), [], s);
    given := [];
    var i := 0;
    assert events[0..] == events;
    while i < |events|
      invariant i <= |events| && session.Valid() && session.accepted == old(session.accepted)
      invariant Steps(fmt, before, events, explicitMode) == Steps(fmt, Now(session, given), events[i..], explicitMode)
    {
      assert events[i..][0] == events[i] && events[i..][1..] == events[i + 1..] && events[i] in events;
      hide EspSerialSession.Valid;
      given := Take(session, events[i], given);
      i := i + 1;
    }
  }

  // ---- A damaged frame --------------------------------------------------------

  lemma DamagedInputHasOneEvent(max: nat, noise: seq<byte>, bad: seq<byte>, marker: byte, seqByte: byte,
                                payload: seq<byte>, s: seq<byte>)
    requires marker >= 128 && |payload| <= max < UINT32_LIMIT
    requires SameShape(Crc32Format(max), bad, marker, seqByte, payload)
    requires Damaged(Crc32Format(max), bad, seqByte, payload)
    requires Harmless(noise) && s == noise + bad
    ensures var chunks := HostParse(Crc32Format(max), [], s).0; Events(chunks) == [BadCrc] && LogText(chunks) == noise
  {
    hide Crc32Format, SameShape, Damaged, Framed, HostParse, Harmless, Events, LogText;
    DamagedFrameIsCorrupt(max, bad, marker, seqByte, payload);
    var pieces := [Piece(noise, bad)];
    assert Stream(pieces, []) == noise + bad + [] == s;
    assert Harmless([]) by {
      NothingIsHarmless();
    }
    HostGivesVerdicts(Crc32Format(max), pieces, []);
    HostLogsTheNoise(Crc32Format(max), pieces, []);
    assert Verdicts(Crc32Format(max), pieces) == [BadCrc] + Verdicts(Crc32Format(max), []);
    assert Noises(pieces) + [] == noise + Noises([]) + [] == noise;
  }

  lemma NothingIsHarmless()
    ensures Harmless([])
  {}

  lemma OneCorruptFrame(fmt: Format, c: Course, explicitMode: bool)
    requires fmt.Valid() && c.host.ep.expectedRxSeq < SEQUENCES && !c.host.ep.resendNeeded
    ensures Steps(fmt, c, [BadCrc], explicitMode)
            == Course(c.host, c.writes + [fmt.ControlBytes(2, c.host.ep.expectedRxSeq)], c.given)
  {
    hide Format.ControlBytes;
    assert Steps(fmt, c, [BadCrc], explicitMode) == Steps(fmt, Step(fmt, c, BadCrc, explicitMode), [], explicitMode);
  }

  /**
   Damage that a checksum sees, from the bytes that come in to the bytes that go out: a NACK of the
   expected number, nothing given to the application, and the state as before.
   */
  method ReadDamaged(session: EspSerialSession, s: seq<byte>, ghost noise: seq<byte>, ghost bad: seq<byte>,
                     ghost marker: byte, ghost seqByte: byte, ghost payload: seq<byte>)
      returns (given: seq<Message>, log: seq<byte>)
    requires session.Valid() && Harmless(noise) && s == noise + bad
    requires marker >= 128 && |payload| <= 32768 && SameShape(Crc32Format(32768), bad, marker, seqByte, payload)
    requires Damaged(Crc32Format(32768), bad, seqByte, payload)
    modifies session`txSeq, session`expectedRxSeq, session`awaiting, session`retain, session`retries
    modifies session`deliveryNotified, session`sendQueue, session`writes, session`accepted, session`sent
    ensures given == [] && log == noise && session.Valid() && session.Model() == old(session.Model())
    ensures session.writes == old(session.writes) + [session.fmt.ControlBytes(2, old(session.expectedRxSeq))]
  {
    DamagedInputHasOneEvent(32768, noise, bad, marker, seqByte, payload, s);
    OneCorruptFrame(session.fmt, Now(session, []), session.ackTimeoutMs < 0);
    hide SameShape, Damaged, HostParse, Harmless, Format.ControlBytes, EspSerialSession.Valid, Steps, Crc32Format,
        Step, Handle, React, Events, LogText, EspSerialSession.Wired, EspSerialSession.Retaining, Conserved;
    given, log := ReadAll(session, s);
  }
}
