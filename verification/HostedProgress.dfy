/**
 The whole Send history gets through: retries with prompt writes, and receptions until the line is
 empty, each followed at once by the write of whatever it made the session capture.
 */
module HostedProgress {
  import opened Frames
  import opened Endpoints
  import opened Links
  import opened Sessions
  import opened Duplex
  import opened Progress
  import opened Hosted

  // ---- What is left to do -----------------------------------------------------

  /** Messages accepted by Send whose ACK the session has not seen. */
  function Remaining(s: System): nat {
    |s.queue| + if s.link.a.ep.awaitingAck then 1 else 0
  }

  function Undelivered(s: System): nat {
    if |s.link.b.delivered| <= |s.history| then |s.history| - |s.link.b.delivered| else 0
  }

  /**
   What a frame may still cause when nothing new is delivered or acknowledged: a data frame its
   answer, a NACK a resend, a corrupt frame a NACK. A copy the receiver is already past gets a NACK.
   */
  function Burden(delivered: nat, p: Packet): nat {
    match p.frame
    case Data(_, _) => if p.index + 1 >= delivered then 2 else 4
    case Nack(_) => 3
    case Corrupt => 4
    case _ => 1
  }

  function Burdens(delivered: nat, s: seq<Packet>): nat {
    if s == [] then 0 else Burden(delivered, s[0]) + Burdens(delivered, s[1..])
  }

  lemma {:induction false} BurdensOfSum(delivered: nat, s: seq<Packet>, t: seq<Packet>)
    ensures Burdens(delivered, s + t) == Burdens(delivered, s) + Burdens(delivered, t)
  {
    if s == [] {
      assert s + t == t;
    } else {
      assert (s + t)[1..] == s[1..] + t;
      BurdensOfSum(delivered, s[1..], t);
    }
  }

  lemma BurdensOfOne(delivered: nat, s: seq<Packet>, p: Packet)
    ensures Burdens(delivered, s + [p]) == Burdens(delivered, s) + Burden(delivered, p)
  {
    BurdensOfSum(delivered, s, [p]);
    assert [p][1..] == [];
  }

  /** Both lines; towards the host no data frame is ever refused. */
  function Traffic(s: System): nat {
    Burdens(|s.link.b.delivered|, s.link.ab) + Burdens(0, s.link.ba)
  }

  // ---- One reception at the session -------------------------------------------

  /** The state after the session has handled a frame and written what that made it capture. */
  function HostReads(fmt: Format, s: System): System {
    Happen(fmt, Happen(fmt, s, Handled(false)), Write(|s.link.a.pending|))
  }

  /**
   The events of it. The read task writes what it dequeues, and in the automatic mode what a NACK
   asks for, before it takes another byte; in explicit mode the application answers the NACK.
   */
  function HostTurn(s: System, explicitMode: bool): seq<Happening> {
    var write := Write(|s.link.a.pending|);
    if explicitMode && s.link.ba != [] && s.link.ba[0].frame.Nack? then [Handled(true), Retry, write]
    else [Handled(explicitMode), write]
  }

  /** The packet that the session puts on the line when it handles this one, if any, and its new state. */
  ghost predicate ReadsAs(s: System, t: System, written: seq<Packet>)
    requires s.link.ba != []
  {
    && t.link.b == s.link.b && t.link.ba == s.link.ba[1..] && t.link.ab == s.link.ab + written
    && t.link.a.pending == s.link.a.pending && t.history == s.history
  }

  /** What was captured last is written next. */
  lemma CapturedIsWritten(l: Link, pending: seq<Packet>, p: Packet)
    requires l.a.pending == pending + [p]
    ensures StepA(l, WriteOut(|pending|)) == l.(a := l.a.(pending := pending), ab := l.ab + [p])
  {
    assert Remove(pending + [p], |pending|) == pending;
  }

  lemma ReadsAck(fmt: Format, s: System) returns (written: seq<Packet>)
    requires Sound(s) && s.link.ba != [] && s.link.ba[0].frame.Ack?
    ensures var t := HostReads(fmt, s);
      && ReadsAs(s, t, written)
      && if written == [] && t.link.a.ep.awaitingAck == s.link.a.ep.awaitingAck
         then t.queue == s.queue && t.link.a.sent == s.link.a.sent
         else Remaining(t) < Remaining(s)
  {
    var l := StepA(s.link, Receive);
    assert s.link.ab + [] == s.link.ab;
    assert l.ab == s.link.ab && l.ba == s.link.ba[1..] && l.a.pending == s.link.a.pending;
    if s.link.a.ep.awaitingAck && !l.a.ep.awaitingAck && s.queue != [] {
      var p := Packet(Outstanding(Stamp(l.a.ep, s.queue[0])), |l.a.sent|);
      CapturedIsWritten(StepA(l, Capture(s.queue[0])), s.link.a.pending, p);
      written := [p];
    } else {
      assert HostReads(fmt, s) == s.(link := l);
      written := [];
    }
  }

  lemma ReadsNack(fmt: Format, s: System) returns (written: seq<Packet>)
    requires Sound(s) && s.link.ba != [] && s.link.ba[0].frame.Nack?
    ensures var t := HostReads(fmt, s);
      && ReadsAs(s, t, written) && t.queue == s.queue && t.link.a.sent == s.link.a.sent
      && t.link.a.ep.awaitingAck == s.link.a.ep.awaitingAck
      && written == if s.link.a.ep.awaitingAck then [Packet(Outstanding(s.link.a.ep), |s.link.a.sent| - 1)] else []
  {
    var l := StepA(s.link, Receive);
    assert s.link.ab + [] == s.link.ab;
    assert l.ab == s.link.ab && l.ba == s.link.ba[1..] && l.a.pending == s.link.a.pending;
    if s.link.a.ep.awaitingAck {
      var p := Packet(Outstanding(s.link.a.ep), |s.link.a.sent| - 1);
      CapturedIsWritten(StepA(l, Recapture), s.link.a.pending, p);
      written := [p];
    } else {
      assert HostReads(fmt, s) == s.(link := l);
      written := [];
    }
  }

  /** Data, corrupt and reserved frames only make the session answer. */
  lemma ReadsOther(fmt: Format, s: System) returns (written: seq<Packet>)
    requires Sound(s) && s.link.ba != [] && !s.link.ba[0].frame.Ack? && !s.link.ba[0].frame.Nack?
    ensures var t := HostReads(fmt, s);
      && ReadsAs(s, t, written) && t.queue == s.queue && t.link.a.sent == s.link.a.sent
      && t.link.a.ep.awaitingAck == s.link.a.ep.awaitingAck
      && written == Answer(s.link.a, s.link.ba[0].frame)
  {
    written := Answer(s.link.a, s.link.ba[0].frame);
    assert HostReads(fmt, s) == s.(link := StepA(s.link, Receive));
  }

  /** What an answer to a frame weighs. */
  lemma AnswerIsLighter(s: System)
    requires Sound(s) && s.link.ba != []
    ensures var answer := Answer(s.link.a, s.link.ba[0].frame);
      |answer| <= 1 && (answer != [] ==> Burden(|s.link.b.delivered|, answer[0]) < Burden(0, s.link.ba[0]))
  {
    if s.link.ba[0].frame.Data? {
      NoGapIsEverSeen(s.link);
    }
  }

  lemma LoadAfterReading(s: System, t: System, written: seq<Packet>)
    requires s.link.ba != [] && ReadsAs(s, t, written)
    requires |written| <= 1 && (written != [] ==> Burden(|s.link.b.delivered|, written[0]) < Burden(0, s.link.ba[0]))
    ensures Traffic(t) < Traffic(s)
  {
    if written == [] {
      assert t.link.ab == s.link.ab;
    } else {
      assert written == [written[0]];
      BurdensOfOne(|s.link.b.delivered|, s.link.ab, written[0]);
    }
  }

  /** What reading a frame puts on the line weighs less than the frame, unless less remains to be done. */
  lemma HostReadsEffect(fmt: Format, s: System) returns (written: seq<Packet>)
    requires Sound(s) && s.link.ba != []
    ensures var t := HostReads(fmt, s);
      && ReadsAs(s, t, written) && Remaining(t) <= Remaining(s)
      && (Remaining(t) < Remaining(s)
          || (Traffic(t) < Traffic(s) && t.link.a.sent == s.link.a.sent
              && t.link.a.ep.awaitingAck == s.link.a.ep.awaitingAck))
  {
    hide HostReads, React, Burdens, Traffic;
    var t := HostReads(fmt, s);
    match s.link.ba[0].frame
    case Ack(_) =>
      written := ReadsAck(fmt, s);
      if Remaining(t) == Remaining(s) {
        LoadAfterReading(s, t, written);
      }
    case Nack(_) =>
      written := ReadsNack(fmt, s);
      assert |s.link.a.sent| >= |s.link.b.delivered|;
      LoadAfterReading(s, t, written);
    case _ =>
      written := ReadsOther(fmt, s);
      AnswerIsLighter(s);
      LoadAfterReading(s, t, written);
  }

  /** The ACK that is awaited is never read in vain. */
  lemma LastAckIsProgress(fmt: Format, s: System)
    requires Sound(s) && s.link.ba != [] && IsLastAck(s.link.ba[0], |s.link.a.sent|) && s.link.a.ep.awaitingAck
    ensures Remaining(HostReads(fmt, s)) < Remaining(s)
  {
    LastAckEndsTheWait(s.link);
    var _ := ReadsAck(fmt, s);
    var l, k := StepA(s.link, Receive), |s.link.a.pending|;
    hide React, Inv, Recent, Incoming;
    assert s.queue == [] ==> HostReads(fmt, s) == s.(link := l);
  }

  lemma HostReadsHopes(fmt: Format, s: System)
    requires Sound(s) && s.link.ba != [] && Hopeful(s.link)
    ensures var t := HostReads(fmt, s); Remaining(t) < Remaining(s) || Hopeful(t.link)
  {
    var t, n := HostReads(fmt, s), |s.link.a.sent|;
    var written := HostReadsEffect(fmt, s);
    if Remaining(t) == Remaining(s) && s.link.a.ep.awaitingAck {
      if IsLastAck(s.link.ba[0], n) {
        LastAckIsProgress(fmt, s);
      }
      hide HostReads, Sound, Remaining, Traffic;
      if p :| p in s.link.ab && IsLastData(p, n) {
        assert p in t.link.ab;
      } else {
        var p :| p in s.link.ba && IsLastAck(p, n);
        assert p in t.link.ba;
      }
    }
  }

  /** At most one frame is captured, and it is the newest there is. */
  lemma HandlingCapturesTheNewest(fmt: Format, s: System)
    requires Sound(s) && s.link.ba != []
    ensures Timely(Happen(fmt, s, Handled(false)), Write(|s.link.a.pending|))
  {
    hide Inv, Recent, Incoming, React;
    var l := StepA(s.link, Receive);
    assert l.a.pending == s.link.a.pending && l.a.sent == s.link.a.sent;
  }

  lemma ModesAgree(fmt: Format, s: System)
    requires Sound(s) && s.link.ba != []
    ensures if s.link.ba[0].frame.Nack?
            then Happen(fmt, Happen(fmt, s, Handled(true)), Retry) == Happen(fmt, s, Handled(false))
            else Happen(fmt, s, Handled(true)) == Happen(fmt, s, Handled(false))
  {
    hide Inv, Recent, Incoming;
  }

  lemma EventKeepsSound(fmt: Format, s: System, e: Happening)
    requires Sound(s) && Timely(s, e)
    ensures Sound(Happen(fmt, s, e))
  {
    HappenKeepsLink(fmt, s, e);
    HappenConserves(fmt, s, e);
    hide Happen, LinkSound, Conserved;
  }

  /** In either mode the turn is a timely run, and does the same. */
  lemma HostTurnRuns(fmt: Format, s: System, explicitMode: bool)
    requires Sound(s) && s.link.ba != []
    ensures var turn := HostTurn(s, explicitMode);
      TimelyRun(fmt, s, turn) && HappenAll(fmt, s, turn) == HostReads(fmt, s) && Sound(HostReads(fmt, s))
  {
    hide Happen, Sound;
    var handled, write := Happen(fmt, s, Handled(false)), Write(|s.link.a.pending|);
    HandlingCapturesTheNewest(fmt, s);
    ModesAgree(fmt, s);
    EventKeepsSound(fmt, s, Handled(false));
    EventKeepsSound(fmt, handled, write);
    if explicitMode && s.link.ba[0].frame.Nack? {
      FirstOfRun(fmt, s, Handled(true), [Retry, write]);
      FirstOfRun(fmt, Happen(fmt, s, Handled(true)), Retry, [write]);
      assert [Handled(true), Retry, write] == [Handled(true)] + [Retry, write] && [Retry, write] == [Retry] + [write];
    } else {
      FirstOfRun(fmt, s, Handled(explicitMode), [write]);
      assert [Handled(explicitMode), write] == [Handled(explicitMode)] + [write];
    }
    FirstOfRun(fmt, handled, write, []);
    assert [write] == [write] + [];
    NoEvents(fmt, HostReads(fmt, s));
  }

  lemma NoEvents(fmt: Format, s: System)
    ensures HappenAll(fmt, s, []) == s && TimelyRun(fmt, s, [])
  {}

  lemma FirstOfRun(fmt: Format, s: System, e: Happening, rest: seq<Happening>)
    ensures HappenAll(fmt, s, [e] + rest) == HappenAll(fmt, Happen(fmt, s, e), rest)
    ensures TimelyRun(fmt, s, [e] + rest) <==> Timely(s, e) && TimelyRun(fmt, Happen(fmt, s, e), rest)
  {
    hide Happen, Timely;
    assert ([e] + rest)[0] == e && ([e] + rest)[1..] == rest;
  }

  lemma {:induction false} RunsInARow(fmt: Format, s: System, first: seq<Happening>, second: seq<Happening>)
    ensures HappenAll(fmt, s, first + second) == HappenAll(fmt, HappenAll(fmt, s, first), second)
    ensures TimelyRun(fmt, s, first + second)
            <==> TimelyRun(fmt, s, first) && TimelyRun(fmt, HappenAll(fmt, s, first), second)
    decreases |first|
  {
    hide Happen, Timely;
    if first == [] {
      assert first + second == second;
    } else {
      assert (first + second)[0] == first[0] && (first + second)[1..] == first[1..] + second;
      RunsInARow(fmt, Happen(fmt, s, first[0]), first[1..], second);
    }
  }

  // ---- One reception at the device --------------------------------------------

  /** A frame that is not delivered is answered by something lighter. */
  lemma DeviceAnswerIsLighter(s: System)
    requires Sound(s) && s.link.ab != []
    ensures var p := s.link.ab[0];
      var r, answer := React(s.link.b.ep, p.frame), Answer(s.link.b, p.frame);
      && |answer| <= 1
      && (!r.outcome.Deliver? && answer != [] ==> Burden(0, answer[0]) < Burden(|s.link.b.delivered|, p))
  {
    var p, d := s.link.ab[0], |s.link.b.delivered|;
    if p.frame.Data? {
      assert IsCopy(s.link.a.sent, p) && p.index <= d < p.index + SEQUENCES;
      CopiesAreTold(s.link.b.ep, s.link.a.sent, p, d);
    }
  }

  lemma DeviceGets(fmt: Format, s: System)
    requires s.link.ab != []
    ensures var t, p := Happen(fmt, s, Device(Get)), s.link.ab[0];
      var r := React(s.link.b.ep, p.frame);
      && t.link.a == s.link.a && t.queue == s.queue && t.history == s.history
      && t.link.ab == s.link.ab[1..] && t.link.ba == s.link.ba + Answer(s.link.b, p.frame)
      && |t.link.b.delivered| == |s.link.b.delivered| + (if r.outcome.Deliver? then 1 else 0)
      && t.link == Apply(s.link, Move(B, Receive))
  {
    hide React;
  }

  lemma NoMoreThanTheHistory(s: System)
    requires Sound(s)
    ensures |s.link.b.delivered| <= |s.history|
  {}

  lemma DeviceReadsEffect(fmt: Format, s: System)
    requires Sound(s) && s.link.ab != []
    ensures var t := Happen(fmt, s, Device(Get));
      && Sound(t) && t.link.a == s.link.a && t.queue == s.queue && t.history == s.history
      && (Hopeful(s.link) ==> Hopeful(t.link))
      && Undelivered(t) <= Undelivered(s) && (Undelivered(t) < Undelivered(s) || Traffic(t) < Traffic(s))
  {
    var t, answer := Happen(fmt, s, Device(Get)), Answer(s.link.b, s.link.ab[0].frame);
    EventKeepsSound(fmt, s, Device(Get));
    DeviceAnswerIsLighter(s);
    DeviceGets(fmt, s);
    if Hopeful(s.link) {
      ReceiverStaysHopeful(s.link);
    }
    NoMoreThanTheHistory(s);
    NoMoreThanTheHistory(t);
    hide Happen, Sound, Hopeful, React, Answer, Apply;
    if answer == [] {
      assert t.link.ba == s.link.ba;
    } else {
      assert answer == [answer[0]];
      BurdensOfOne(0, s.link.ba, answer[0]);
    }
  }

  // ---- Receiving until the line is empty --------------------------------------

  /** The measure: what remains to be acknowledged or delivered. */
  function Left(s: System): nat {
    Remaining(s) + Undelivered(s)
  }

  /** One reception, at whichever end. */
  function Reception(s: System, explicitMode: bool): seq<Happening> {
    if s.link.ba != [] then HostTurn(s, explicitMode) else [Device(Get)]
  }

  lemma ReceptionEffect(fmt: Format, s: System, explicitMode: bool)
    requires Sound(s) && (s.link.ab != [] || s.link.ba != [])
    ensures var turn := Reception(s, explicitMode);
      var t := HappenAll(fmt, s, turn);
      && TimelyRun(fmt, s, turn) && Sound(t) && t.history == s.history && t.link.a.pending == s.link.a.pending
      && Remaining(t) <= Remaining(s)
      && (Hopeful(s.link) ==> Remaining(t) < Remaining(s) || Hopeful(t.link))
      && (Left(t) < Left(s) || (Left(t) == Left(s) && Traffic(t) < Traffic(s)))
  {
    hide Happen, Sound, Hopeful, HostReads, HostTurn, Traffic, Remaining, HappenAll;
    if s.link.ba != [] {
      HostTurnRuns(fmt, s, explicitMode);
      var _ := HostReadsEffect(fmt, s);
      if Hopeful(s.link) {
        HostReadsHopes(fmt, s);
      }
    } else {
      FirstOfRun(fmt, s, Device(Get), []);
      assert [Device(Get)] + [] == [Device(Get)];
      NoEvents(fmt, Happen(fmt, s, Device(Get)));
      DeviceReadsEffect(fmt, s);
      SameHost(s, Happen(fmt, s, Device(Get)));
    }
  }

  lemma SameHost(s: System, t: System)
    requires t.link.a == s.link.a && t.queue == s.queue
    ensures Remaining(t) == Remaining(s) && t.link.a.pending == s.link.a.pending
  {}

  /** The receptions, in either mode, until nothing is on the line. */
  ghost function Receptions(fmt: Format, s: System, explicitMode: bool): seq<Happening>
    requires Sound(s)
    decreases Left(s), Traffic(s)
  {
    if s.link.ab == [] && s.link.ba == [] then []
    else
      ReceptionEffect(fmt, s, explicitMode);
      var turn := Reception(s, explicitMode);
      turn + Receptions(fmt, HappenAll(fmt, s, turn), explicitMode)
  }

  lemma SilenceIsNotHopeful(s: System)
    requires Sound(s) && s.link.ab == [] && s.link.ba == [] && Hopeful(s.link)
    ensures Remaining(s) == 0
  {}

  /**
   The receptions are a timely run that empties the line and leaves no frame captured that was not
   before; if the outstanding message or its ACK was on the line, fewer messages remain.
   */
  lemma {:induction false} ReceptionsComplete(fmt: Format, s: System, explicitMode: bool)
    requires Sound(s)
    ensures var events := Receptions(fmt, s, explicitMode);
      var t := HappenAll(fmt, s, events);
      && TimelyRun(fmt, s, events) && Sound(t) && t.history == s.history
      && t.link.ab == [] && t.link.ba == [] && t.link.a.pending == s.link.a.pending
      && Remaining(t) <= Remaining(s)
      && (Hopeful(s.link) ==> Remaining(t) < Remaining(s) || Remaining(t) == 0)
    decreases Left(s), Traffic(s)
  {
    hide Sound, Hopeful, Remaining, Undelivered, HappenAll, TimelyRun, Reception;
    if s.link.ba == [] && s.link.ab == [] {
      NoEvents(fmt, s);
      if Hopeful(s.link) {
        SilenceIsNotHopeful(s);
      }
    } else {
      ReceptionEffect(fmt, s, explicitMode);
      var turn := Reception(s, explicitMode);
      var next := HappenAll(fmt, s, turn);
      hide Traffic, Left;
      ReceptionsComplete(fmt, next, explicitMode);
      RunsInARow(fmt, s, turn, Receptions(fmt, next, explicitMode));
    }
  }

  // ---- Retrying ---------------------------------------------------------------

  /** Retry, write what the retry captured, and receive. */
  ghost function Attempt(fmt: Format, s: System, explicitMode: bool): seq<Happening>
    requires Sound(s)
  {
    RetryIsWritten(fmt, s);
    [Retry, Write(|s.link.a.pending|)] + Receptions(fmt, Retried(fmt, s), explicitMode)
  }

  function Retried(fmt: Format, s: System): System {
    Happen(fmt, Happen(fmt, s, Retry), Write(|s.link.a.pending|))
  }

  /** The retried frame is the newest there is, so its write is timely, and then it is on the line. */
  lemma RetryIsWritten(fmt: Format, s: System)
    requires Sound(s)
    ensures var t, events := Retried(fmt, s), [Retry, Write(|s.link.a.pending|)];
      && TimelyRun(fmt, s, events) && HappenAll(fmt, s, events) == t && Sound(t) && Hopeful(t.link)
      && t.history == s.history && Remaining(t) == Remaining(s) && t.link.a.pending == s.link.a.pending
      && t.link.b == s.link.b && t.link.ba == s.link.ba && s.link.ab <= t.link.ab
  {
    var k, retried := |s.link.a.pending|, Happen(fmt, s, Retry);
    RetryEffect(fmt, s);
    hide Happen, Sound, Hopeful, Remaining;
    EventKeepsSound(fmt, s, Retry);
    EventKeepsSound(fmt, retried, Write(k));
    FirstOfRun(fmt, s, Retry, [Write(k)]);
    FirstOfRun(fmt, retried, Write(k), []);
    assert [Retry, Write(k)] == [Retry] + [Write(k)] && [Write(k)] == [Write(k)] + [];
    NoEvents(fmt, Retried(fmt, s));
  }

  lemma RetryEffect(fmt: Format, s: System)
    requires Sound(s)
    ensures var t := Retried(fmt, s);
      && Timely(Happen(fmt, s, Retry), Write(|s.link.a.pending|)) && Hopeful(t.link)
      && t.history == s.history && Remaining(t) == Remaining(s) && t.link.a.pending == s.link.a.pending
      && t.link.b == s.link.b && t.link.ba == s.link.ba && s.link.ab <= t.link.ab
  {
    if s.link.a.ep.awaitingAck {
      var p := Packet(Outstanding(s.link.a.ep), |s.link.a.sent| - 1);
      CapturedIsWritten(StepA(s.link, Recapture), s.link.a.pending, p);
      hide Inv, Recent, Incoming;
      assert p in s.link.ab + [p] && IsLastData(p, |s.link.a.sent|);
    }
  }

  /** One attempt gets at least one message through. */
  lemma AttemptDelivers(fmt: Format, s: System, explicitMode: bool)
    requires Sound(s)
    ensures var events := Attempt(fmt, s, explicitMode);
      var t := HappenAll(fmt, s, events);
      && TimelyRun(fmt, s, events) && Sound(t) && t.history == s.history && t.link.a.pending == s.link.a.pending
      && (Remaining(t) < Remaining(s) || Remaining(t) == 0)
  {
    RetryIsWritten(fmt, s);
    hide Sound, Hopeful, Remaining, HappenAll, TimelyRun, Retried;
    var first := [Retry, Write(|s.link.a.pending|)];
    ReceptionsComplete(fmt, Retried(fmt, s), explicitMode);
    RunsInARow(fmt, s, first, Receptions(fmt, Retried(fmt, s), explicitMode));
  }

  ghost function Attempts(fmt: Format, s: System, explicitMode: bool, n: nat): seq<Happening>
    requires Sound(s)
    decreases n
  {
    if n == 0 then []
    else
      AttemptDelivers(fmt, s, explicitMode);
      var first := Attempt(fmt, s, explicitMode);
      first + Attempts(fmt, HappenAll(fmt, s, first), explicitMode, n - 1)
  }

  /**
   From every sound system, whatever is queued, captured or lost, and in either mode: as many
   attempts as messages remain are a timely run after which the device has delivered the whole Send
   history. No frame is captured and left unwritten on the way.
   */
  lemma {:induction false} AttemptsDeliverTheHistory(fmt: Format, s: System, explicitMode: bool, n: nat)
    requires Sound(s) && n >= Remaining(s)
    ensures var events := Attempts(fmt, s, explicitMode, n);
      var t := HappenAll(fmt, s, events);
      && TimelyRun(fmt, s, events) && Sound(t) && t.history == s.history
      && Remaining(t) == 0 && t.link.b.delivered == s.history && t.link.a.pending == s.link.a.pending
    decreases n
  {
    hide HappenAll, TimelyRun, Attempt;
    if n == 0 {
      NothingRemainsIsDelivered(s);
      NoEvents(fmt, s);
    } else {
      hide Sound, Remaining;
      AttemptDelivers(fmt, s, explicitMode);
      var first := Attempt(fmt, s, explicitMode);
      var t := HappenAll(fmt, s, first);
      AttemptsDeliverTheHistory(fmt, t, explicitMode, n - 1);
      RunsInARow(fmt, s, first, Attempts(fmt, t, explicitMode, n - 1));
    }
  }

  lemma NothingRemainsIsDelivered(s: System)
    requires Sound(s) && Remaining(s) == 0
    ensures s.link.b.delivered == s.history
  {
    assert s.link.a.sent + [] == s.link.a.sent;
  }

  // ---- Frames that were captured before ---------------------------------------

  function Flush(n: nat): seq<Happening> {
    if n == 0 then [] else [Write(0)] + Flush(n - 1)
  }

  /** Threads that hold captured frames may all write them first, as long as none is too old. */
  lemma {:induction false} FlushWritesAll(fmt: Format, s: System)
    requires Sound(s) && forall p :: p in s.link.a.pending ==> |s.link.a.sent| < p.index + SEQUENCES
    ensures var events := Flush(|s.link.a.pending|);
      var t := HappenAll(fmt, s, events);
      && TimelyRun(fmt, s, events) && Sound(t) && t.history == s.history
      && t.link.a.pending == [] && Remaining(t) == Remaining(s)
    decreases |s.link.a.pending|
  {
    if s.link.a.pending == [] {
      NoEvents(fmt, s);
    } else {
      var next := Happen(fmt, s, Write(0));
      assert s.link.a.pending[0] in s.link.a.pending;
      assert next.link.a.pending == s.link.a.pending[1..] && next.link.a.sent == s.link.a.sent;
      assert Remaining(next) == Remaining(s) && next.history == s.history;
      EventKeepsSound(fmt, s, Write(0));
      hide Happen, Sound, Remaining, HappenAll, TimelyRun;
      FlushWritesAll(fmt, next);
      FirstOfRun(fmt, s, Write(0), Flush(|next.link.a.pending|));
    }
  }
}
