/**
 A device whose engine takes smaller messages than the session sends. The engine drops a longer frame
 without an answer, so the message is never acknowledged, and everything behind it stays in the queue.
 */
module Oversize {
  import opened Bytes
  import opened Frames
  import opened Assembler
  import opened Streams
  import opened Endpoints
  import opened Links
  import opened Duplex
  import opened Hosted
  import opened HostedProgress

  // ---- On the bytes -----------------------------------------------------------

  /**
   A data frame is a valid event exactly when its payload is within the receiver's maximum; else its
   header is dropped.
   */
  lemma TakenExactlyWhenItFits(fmt: Format, seq6: nat, m: Message, rest: seq<byte>)
    requires fmt.Valid() && seq6 < SEQUENCES && 1 <= m.cmd <= 127 && |m.payload| < UINT32_LIMIT
    ensures Scan(fmt, fmt.DataBytes(seq6, m) + rest)
            == if |m.payload| <= fmt.max then [Event.Valid(m.cmd + 128, seq6, m.payload)] + Scan(fmt, rest)
               else [TooLong] + Scan(fmt, m.payload + rest)
  {
    var body := fmt.DataBytes(seq6, m);
    if |m.payload| <= fmt.max {
      DataRoundTrip(fmt, seq6, m);
      hide LengthField, Format.Judge, Format.Encode, Scan;
      EncodeIsFramed(fmt, m.cmd + 128, seq6, m.payload);
      FrameScans(fmt, body, rest);
    } else {
      EncodeFields(fmt, m.cmd + 128, seq6, m.payload);
      Le32RoundTrip(|m.payload|);
      hide Format.Encode, FromLe32, Le32;
      LongHeaderScans(fmt, body, m.payload, rest);
    }
  }

  lemma LongHeaderScans(fmt: Format, body: seq<byte>, payload: seq<byte>, rest: seq<byte>)
    requires |body| >= HEADER_LENGTH && MarkerAt(body, 0) && LengthField(body) > fmt.max
             && body[HEADER_LENGTH..] == payload
    ensures Scan(fmt, body + rest) == [TooLong] + Scan(fmt, payload + rest)
  {
    var t := body + rest;
    assert forall i :: 0 <= i < 8 ==> t[i] == body[i];
    LengthIsStable(body, t);
    hide FromLe32;
    assert t[0..] == t && t[HEADER_LENGTH..] == payload + rest;
  }

  /** Such an event changes nothing and is not answered. */
  lemma TooLongIsIgnored(ep: Endpoint)
    ensures ReactTo(ep, TooLong) == Reaction(ep, None, Overflow)
  {}

  // ---- In the joined system ---------------------------------------------------

  predicate Fits(max: nat, m: Message) {
    |m.payload| <= max
  }

  /** The device never takes a longer message off the line: such a frame is lost to it. */
  predicate TakesOnly(max: nat, s: System, e: Happening) {
    e == Device(Get) && s.link.ab != [] && s.link.ab[0].frame.Data? ==> Fits(max, s.link.ab[0].frame.msg)
  }

  predicate RunTakesOnly(fmt: Format, max: nat, s: System, events: seq<Happening>)
    decreases |events|
  {
    events == [] || (TakesOnly(max, s, events[0]) && RunTakesOnly(fmt, max, Happen(fmt, s, events[0]), events[1..]))
  }

  predicate AllFit(max: nat, ms: seq<Message>) {
    forall m :: m in ms ==> Fits(max, m)
  }

  lemma DeliversOnlyWhatFits(fmt: Format, max: nat, s: System, e: Happening)
    requires AllFit(max, s.link.b.delivered) && TakesOnly(max, s, e)
    ensures AllFit(max, Happen(fmt, s, e).link.b.delivered)
  {
    if e == Device(Get) {
      TakesOffTheLine(fmt, s);
    } else {
      DeliversNothing(fmt, s, e);
    }
  }

  lemma TakesOffTheLine(fmt: Format, s: System)
    ensures var d, d' := s.link.b.delivered, Happen(fmt, s, Device(Get)).link.b.delivered;
      d' == d || (s.link.ab != [] && s.link.ab[0].frame.Data? && d' == d + [s.link.ab[0].frame.msg])
  {}

  lemma DeliversNothing(fmt: Format, s: System, e: Happening)
    requires e != Device(Get)
    ensures Happen(fmt, s, e).link.b.delivered == s.link.b.delivered
  {}

  lemma {:induction false} RunDeliversOnlyWhatFits(fmt: Format, max: nat, s: System, events: seq<Happening>)
    requires AllFit(max, s.link.b.delivered) && RunTakesOnly(fmt, max, s, events)
    ensures AllFit(max, HappenAll(fmt, s, events).link.b.delivered)
    decreases |events|
  {
    if events != [] {
      DeliversOnlyWhatFits(fmt, max, s, events[0]);
      hide AllFit, Happen, TakesOnly;
      RunDeliversOnlyWhatFits(fmt, max, Happen(fmt, s, events[0]), events[1..]);
    }
  }

  /**
   The first message that is too long blocks the session: whatever is retried, neither it nor anything
   behind it is delivered, and everything behind it stays in the queue.
   */
  lemma TooLongBlocksTheQueue(fmt: Format, max: nat, events: seq<Happening>, i: nat)
    requires TimelyRun(fmt, OPENED, events) && RunTakesOnly(fmt, max, OPENED, events)
    requires var s := HappenAll(fmt, OPENED, events); i < |s.history| && !Fits(max, s.history[i])
    ensures var s := HappenAll(fmt, OPENED, events);
      && |s.link.b.delivered| <= i && |s.link.a.sent| <= i + 1
      && s.queue == s.history[|s.link.a.sent|..] && s.history[i + 1..] == s.queue[i + 1 - |s.link.a.sent|..]
      && (|s.link.a.sent| == i + 1 ==> s.link.a.ep.awaitingAck)
  {
    var s := HappenAll(fmt, OPENED, events);
    HistoryIsDelivered(fmt, events);
    RunDeliversOnlyWhatFits(fmt, max, OPENED, events);
    hide HappenAll, TimelyRun, RunTakesOnly;
    var d := s.link.b.delivered;
    assert forall k :: 0 <= k < |d| ==> d[k] == s.history[k] && d[k] in d;
  }

  /** If everything in the history fits, so does every frame on the line. */
  lemma {:induction false} ShortHistoryIsTaken(fmt: Format, max: nat, s: System, events: seq<Happening>)
    requires Sound(s) && TimelyRun(fmt, s, events) && AllFit(max, HappenAll(fmt, s, events).history)
    ensures RunTakesOnly(fmt, max, s, events)
    ensures s.history <= HappenAll(fmt, s, events).history
    decreases |events|
  {
    if events != [] {
      var next := Happen(fmt, s, events[0]);
      EventKeepsSound(fmt, s, events[0]);
      HistoryOnlyGrows(fmt, s, events[0]);
      ShortHistoryIsTaken(fmt, max, next, events[1..]);
      OnTheLineIsHistory(s);
      hide Sound, Happen, HappenAll;
      assert forall m :: m in s.history ==> m in HappenAll(fmt, next, events[1..]).history;
    }
  }

  lemma HistoryOnlyGrows(fmt: Format, s: System, e: Happening)
    ensures s.history <= Happen(fmt, s, e).history
  {}

  lemma OnTheLineIsHistory(s: System)
    requires Sound(s)
    ensures s.link.ab != [] && s.link.ab[0].frame.Data? ==> s.link.ab[0].frame.msg in s.history
  {
    if s.link.ab != [] && s.link.ab[0].frame.Data? {
      var p := s.link.ab[0];
      assert IsCopy(s.link.a.sent, p);
      assert s.history[p.index] == s.link.a.sent[p.index];
    }
  }

  /** A run that adds nothing to the history. */
  predicate AddsNothing(fmt: Format, s: System, events: seq<Happening>) {
    HappenAll(fmt, s, events).history == s.history
  }

  /** Timely, within what the device takes, and at its end the whole history is delivered. */
  predicate Delivers(fmt: Format, max: nat, s: System, events: seq<Happening>) {
    && TimelyRun(fmt, s, events) && RunTakesOnly(fmt, max, s, events) && AddsNothing(fmt, s, events)
    && HappenAll(fmt, s, events).link.b.delivered == s.history
  }

  /** The history can still be delivered if and only if every message in it fits. */
  lemma DeliverableExactlyWhenItFits(fmt: Format, max: nat, s: System, explicitMode: bool)
    requires Sound(s) && AllFit(max, s.link.b.delivered)
    ensures (exists events :: Delivers(fmt, max, s, events)) <==> AllFit(max, s.history)
  {
    hide Sound, HappenAll, TimelyRun, RunTakesOnly;
    if AllFit(max, s.history) {
      var events := Attempts(fmt, s, explicitMode, Remaining(s));
      AttemptsDeliverTheHistory(fmt, s, explicitMode, Remaining(s));
      ShortHistoryIsTaken(fmt, max, s, events);
      assert Delivers(fmt, max, s, events);
    }
    if events :| Delivers(fmt, max, s, events) {
      RunDeliversOnlyWhatFits(fmt, max, s, events);
    }
  }
}
