/**
 Every request gets its answer: rounds of one retry, one pass of the loop and receptions until the
 line is empty. As in `HostedProgress`, the session writes at once whatever it captures.
 */
module DemoProgress {
  import opened Bytes
  import opened Frames
  import opened Endpoints
  import opened Links
  import opened Sessions
  import opened Duplex
  import opened Progress
  import opened Hosted
  import opened HostedProgress
  import opened Demo
  import opened Staleness

  // ---- What is still to be done -----------------------------------------------

  /** A message to deliver may turn into a response to send, that into a frame to be acknowledged. */
  function ToDo(s: System, resp: Option<Message>): nat {
    Remaining(s) + 3 * Undelivered(s) + 2 * |InSlot(resp)| + if s.link.b.ep.awaitingAck then 1 else 0
  }

  /** A response waits although nothing is outstanding at the device. */
  predicate Ready(s: System, resp: Option<Message>) {
    resp.Some? && !s.link.b.ep.awaitingAck
  }

  /** Less is to be done, or nothing hopeful has been lost. */
  ghost predicate Closer(s: System, resp: Option<Message>, t: System, resp': Option<Message>) {
    && ToDo(t, resp') <= ToDo(s, resp)
    && (ToDo(t, resp') < ToDo(s, resp)
        || ((Hopeful(s.link) ==> Hopeful(t.link)) && (Hopeful(s.link.Flip()) ==> Hopeful(t.link.Flip()))
            && (Ready(t, resp') ==> Ready(s, resp))))
  }

  /** Whatever the session writes, its answer to the frame is on the line. */
  lemma AnswerStays(fmt: Format, s: System)
    requires Sound(s) && s.link.ba != []
    ensures var l, t := StepA(s.link, Receive), HostReads(fmt, s);
      l.ab <= t.link.ab && l.ba == t.link.ba && l.b == t.link.b
  {
    hide Inv, Recent, Incoming, React;
  }

  lemma HostReadsIsCloser(fmt: Format, s: System, resp: Option<Message>)
    requires Sound(s) && s.link.ba != []
    ensures var t := HostReads(fmt, s);
      Closer(s, resp, t, resp) && (ToDo(t, resp) < ToDo(s, resp) || Traffic(t) < Traffic(s))
  {
    var written := HostReadsEffect(fmt, s);
    AnswerStays(fmt, s);
    if Hopeful(s.link) {
      HostReadsHopes(fmt, s);
    }
    if Hopeful(s.link.Flip()) {
      ReceiverStaysHopeful(s.link.Flip());
      hide Sound, HostReads, Remaining, Traffic;
      MoreOnTheLine(StepA(s.link, Receive), HostReads(fmt, s).link);
    }
    hide Sound, HostReads, Remaining, Traffic, Hopeful;
  }

  lemma MoreOnTheLine(l: Link, l': Link)
    requires Hopeful(l.Flip()) && l.ab <= l'.ab && l.ba == l'.ba && l.b == l'.b
    ensures Hopeful(l'.Flip())
  {
    assert forall p :: p in l.ab ==> p in l'.ab;
  }

  lemma HopesAfterGet(fmt: Format, s: System)
    requires Sound(s)
    ensures Hopeful(s.link) ==> Hopeful(Happen(fmt, s, Device(Get)).link)
    ensures Hopeful(s.link.Flip()) ==> Hopeful(Happen(fmt, s, Device(Get)).link.Flip())
  {
    if s.link.ab != [] {
      if Hopeful(s.link) {
        ReceiverStaysHopeful(s.link);
      }
      if Hopeful(s.link.Flip()) {
        SenderStaysHopeful(s.link.Flip());
      }
      assert Happen(fmt, s, Device(Get)).link == Apply(s.link, Move(B, Receive));
      hide Hopeful, Sound, React;
    }
  }

  lemma NothingNewIsAwaited(l: Link)
    ensures NextReaction(l).ep.awaitingAck ==> l.b.ep.awaitingAck
  {}

  lemma GetIsCloser(fmt: Format, s: System, resp: Option<Message>, answer: Message, asked: bool)
    requires Sound(s) && (asked ==> NextReaction(s.link).outcome.Deliver?)
    ensures Closer(s, resp, Happen(fmt, s, Device(Get)), if asked then Some(answer) else resp)
  {
    HopesAfterGet(fmt, s);
    DeliveryIsProgress(fmt, s, resp, answer, asked);
    hide Happen, Hopeful, Sound, NextReaction, ToDo;
  }

  lemma ResendIsCloser(fmt: Format, s: System, resp: Option<Message>)
    requires Sound(s)
    ensures var t := Happen(fmt, s, Device(Resend));
      Closer(s, resp, t, resp) && Hopeful(t.link.Flip())
  {
    ResendEffect(fmt, s);
    var t := Happen(fmt, s, Device(Resend));
    if s.link.b.ep.awaitingAck {
      var p := Packet(Outstanding(s.link.b.ep), |s.link.b.sent| - 1);
      ResendWritesOnePacket(s.link.Flip());
      assert |s.link.b.sent| > 0;
      hide Sound;
      assert t.link.ab == s.link.ab && t.link.ba == s.link.ba + [p];
      hide Happen;
      HopeOfTheResent(s.link, t.link, p);
    }
  }

  lemma HopeOfTheResent(l: Link, l': Link, p: Packet)
    requires l'.a == l.a && l'.b == l.b && l'.ab == l.ab && l'.ba == l.ba + [p] && IsLastData(p, |l.b.sent|)
    ensures Hopeful(l'.Flip()) && (Hopeful(l) ==> Hopeful(l'))
  {
    assert p in l'.ba && forall q :: q in l.ba ==> q in l'.ba;
  }

  lemma PutIsCloser(fmt: Format, s: System, resp: Option<Message>)
    requires Sound(s) && (resp.Some? ==> fmt.Sendable(resp.value))
    ensures var (t, rest) := SendPart(fmt, s, resp);
      Closer(s, resp, t, rest) && (ToDo(t, rest) < ToDo(s, resp) || !Ready(t, rest))
  {
    if Ready(s, resp) {
      PutEffect(fmt, s, resp.value);
      hide Happen, Sound, Hopeful;
    }
  }

  /** Closer is transitive. */
  lemma CloserStill(s: System, r: Option<Message>, t: System, r': Option<Message>, u: System, r'': Option<Message>)
    requires Closer(s, r, t, r') && Closer(t, r', u, r'')
    ensures Closer(s, r, u, r'')
  {
    hide Hopeful, ToDo, Ready;
  }

  lemma RetriedIsCloser(fmt: Format, s: System, resp: Option<Message>)
    requires Sound(s)
    ensures Closer(s, resp, Retried(fmt, s), resp) && Hopeful(Retried(fmt, s).link)
  {
    RetryIsWritten(fmt, s);
    var t := Retried(fmt, s);
    if Hopeful(s.link.Flip()) {
      hide Sound, Remaining, Retried;
      MoreOnTheLine(s.link, t.link);
    }
    hide Sound, Remaining, Retried, Hopeful;
  }

  ghost predicate NearerDone(d: Demo, d': Demo) {
    Closer(d.sys, d.resp, d'.sys, d'.resp)
  }

  /**
   A pass of the loop: nothing is lost, a response that could go has gone, and the timer puts the
   device's message on the line.
   */
  lemma LoopIsCloser(fmt: Format, asks: Message -> bool, d: Demo, answer: Message, timedOut: bool)
    requires Serving(fmt, asks, d) && fmt.Sendable(answer)
    ensures var d' := Advance(fmt, asks, d, Loop(answer, timedOut));
      && NearerDone(d, d')
      && (ToDo(d'.sys, d'.resp) < ToDo(d.sys, d.resp) || !Ready(d'.sys, d'.resp))
      && (timedOut ==> Hopeful(d'.sys.link.Flip()))
  {
    hide Happen, NextReaction, Hopeful, ToDo, Ready, Conserved, LinkSound;
    var s, r := d.sys, NextReaction(d.sys.link);
    var asked := r.outcome.Deliver? && asks(r.outcome.msg);
    var resp := if asked then Some(answer) else d.resp;
    var got, part := Happen(fmt, s, Device(Get)), GetPart(fmt, s);
    GetIsCloser(fmt, s, d.resp, answer, asked);
    DeviceKeepsSound(fmt, s, Get);
    GetPartEffect(fmt, s);
    if r.outcome.ResendNeeded? {
      ResendIsCloser(fmt, got, resp);
      hide Closer, Sound;
      CloserStill(s, d.resp, got, resp, part, resp);
    }
    hide Closer, Sound, GetPart, SendPart;
    SendPartEffect(fmt, part, resp);
    PutIsCloser(fmt, part, resp);
    var (sent, rest) := SendPart(fmt, part, resp);
    CloserStill(s, d.resp, part, resp, sent, rest);
    CloserStays(part, resp, sent, rest, s, d.resp);
    if timedOut {
      ResendIsCloser(fmt, sent, rest);
      var t := Happen(fmt, sent, Device(Resend));
      CloserStill(s, d.resp, sent, rest, t, rest);
      CloserStays(sent, rest, t, rest, s, d.resp);
    }
  }

  /** What is to be done only falls, and readiness comes only with a fall. */
  lemma CloserStays(s: System, r: Option<Message>, t: System, r': Option<Message>, from: System, r0: Option<Message>)
    requires Closer(from, r0, s, r) && Closer(s, r, t, r')
    ensures ToDo(t, r') <= ToDo(s, r) <= ToDo(from, r0)
    ensures ToDo(t, r') < ToDo(s, r) || (Ready(t, r') ==> Ready(s, r))
  {
    hide Hopeful, ToDo, Ready;
  }

  // ---- Receiving until the line is empty --------------------------------------

  /** Nothing is delivered by this get: then what it causes weighs less than what it takes. */
  lemma GetIsLighter(fmt: Format, s: System)
    requires Sound(s) && s.link.ab != []
    ensures var r := NextReaction(s.link);
      var resend := if r.outcome.ResendNeeded? then 2 else 0;
      !r.outcome.Deliver? ==> Traffic(Happen(fmt, s, Device(Get))) + resend < Traffic(s)
  {
    var t, p, answer := Happen(fmt, s, Device(Get)), s.link.ab[0], Answer(s.link.b, s.link.ab[0].frame);
    DeviceAnswerIsLighter(s);
    DeviceGets(fmt, s);
    assert NextReaction(s.link).outcome.ResendNeeded? ==> answer == [] && Burden(|s.link.b.delivered|, p) == 3;
    hide Happen, Sound, React, Answer, Apply, NextReaction;
    if answer == [] {
      assert t.link.ba == s.link.ba;
    } else {
      assert answer == [answer[0]];
      BurdensOfOne(0, s.link.ba, answer[0]);
    }
  }

  lemma ResendIsLight(fmt: Format, s: System)
    requires Sound(s)
    ensures Traffic(Happen(fmt, s, Device(Resend))) <= Traffic(s) + 2
  {
    if s.link.b.ep.awaitingAck {
      var p := Packet(Outstanding(s.link.b.ep), |s.link.b.sent| - 1);
      ResendWritesOnePacket(s.link.Flip());
      hide Sound;
      BurdensOfOne(0, s.link.ba, p);
    }
  }

  /** A pass of the loop that takes a frame leaves less to do, or less on the line. */
  lemma LoopIsLighter(fmt: Format, asks: Message -> bool, d: Demo, answer: Message)
    requires Serving(fmt, asks, d) && fmt.Sendable(answer) && d.sys.link.ab != []
    ensures var d' := Advance(fmt, asks, d, Loop(answer, false));
      ToDo(d'.sys, d'.resp) < ToDo(d.sys, d.resp) || Traffic(d'.sys) < Traffic(d.sys)
  {
    hide Happen, NextReaction, Sound, Traffic, Ready, Hopeful;
    var s, r := d.sys, NextReaction(d.sys.link);
    var asked := r.outcome.Deliver? && asks(r.outcome.msg);
    var resp := if asked then Some(answer) else d.resp;
    var got, part := Happen(fmt, s, Device(Get)), GetPart(fmt, s);
    GetIsLighter(fmt, s);
    DeliveryIsProgress(fmt, s, d.resp, answer, asked);
    DeviceKeepsSound(fmt, s, Get);
    ResendIsLight(fmt, got);
    ResendIsCloser(fmt, got, resp);
    GetPartEffect(fmt, s);
    PutIsCloser(fmt, part, resp);
    PutOrNothing(fmt, part, resp);
    hide ToDo, SendPart;
  }

  lemma DeliveryIsProgress(fmt: Format, s: System, resp: Option<Message>, answer: Message, asked: bool)
    requires Sound(s) && (asked ==> NextReaction(s.link).outcome.Deliver?)
    ensures var t, resp' := Happen(fmt, s, Device(Get)), if asked then Some(answer) else resp;
      && ToDo(t, resp') <= ToDo(s, resp)
      && (NextReaction(s.link).outcome.Deliver? ==> ToDo(t, resp') < ToDo(s, resp))
      && (s.link.b.ep.awaitingAck != t.link.b.ep.awaitingAck ==> ToDo(t, resp') < ToDo(s, resp))
  {
    GetEffect(fmt, s);
    NothingNewIsAwaited(s.link);
    DeviceKeepsSound(fmt, s, Get);
    NoMoreThanTheHistory(s);
    NoMoreThanTheHistory(Happen(fmt, s, Device(Get)));
    hide Happen, Sound, NextReaction;
  }

  lemma PutOrNothing(fmt: Format, s: System, resp: Option<Message>)
    requires Sound(s) && (resp.Some? ==> fmt.Sendable(resp.value))
    ensures var (t, rest) := SendPart(fmt, s, resp);
      ToDo(t, rest) < ToDo(s, resp) || (t == s && rest == resp)
  {
    if Ready(s, resp) {
      PutEffect(fmt, s, resp.value);
      hide Happen, Sound;
    }
  }

  // ---- Turns ------------------------------------------------------------------

  /** Events at the session, as turns. */
  function Turns(events: seq<Happening>): seq<Turn> {
    if events == [] then [] else [AtHost(events[0])] + Turns(events[1..])
  }

  predicate OfTheHost(events: seq<Happening>) {
    forall e :: e in events ==> !e.Device? && !e.Send?
  }

  lemma {:induction false} HostRun(fmt: Format, asks: Message -> bool, d: Demo, events: seq<Happening>)
    requires OfTheHost(events) && TimelyRun(fmt, d.sys, events)
    ensures DisciplinedRun(fmt, asks, d, Turns(events))
    ensures AdvanceAll(fmt, asks, d, Turns(events)) == d.(sys := HappenAll(fmt, d.sys, events))
    decreases |events|
  {
    if events != [] {
      var e, rest := events[0], events[1..];
      assert e in events;
      FirstTurn(fmt, asks, d, AtHost(e), Turns(rest));
      hide Happen, Timely;
      HostRun(fmt, asks, d.(sys := Happen(fmt, d.sys, e)), rest);
    }
  }

  /** A timely run of the session keeps the service going. */
  lemma {:induction false} HostRunKeepsServing(fmt: Format, asks: Message -> bool, d: Demo, events: seq<Happening>)
    requires Serving(fmt, asks, d) && OfTheHost(events) && TimelyRun(fmt, d.sys, events)
    ensures Serving(fmt, asks, d.(sys := HappenAll(fmt, d.sys, events)))
    decreases |events|
  {
    if events != [] {
      assert events[0] in events;
      HostKeepsServing(fmt, asks, d, events[0]);
      hide Serving, Happen, Timely;
      HostRunKeepsServing(fmt, asks, d.(sys := Happen(fmt, d.sys, events[0])), events[1..]);
    }
  }

  /** The next reception, at whichever end. */
  function NextTurns(d: Demo, answer: Message, explicitMode: bool): seq<Turn> {
    if d.sys.link.ba != [] then Turns(HostTurn(d.sys, explicitMode)) else [Loop(answer, false)]
  }

  function Next(fmt: Format, asks: Message -> bool, d: Demo, answer: Message): Demo {
    if d.sys.link.ba != [] then d.(sys := HostReads(fmt, d.sys)) else Advance(fmt, asks, d, Loop(answer, false))
  }

  lemma NextEffect(fmt: Format, asks: Message -> bool, d: Demo, answer: Message, explicitMode: bool)
    requires Serving(fmt, asks, d) && fmt.Sendable(answer) && (d.sys.link.ab != [] || d.sys.link.ba != [])
    ensures var turns, e := NextTurns(d, answer, explicitMode), Next(fmt, asks, d, answer);
      && DisciplinedRun(fmt, asks, d, turns) && AdvanceAll(fmt, asks, d, turns) == e
      && Serving(fmt, asks, e) && NearerDone(d, e) && e.sys.history == d.sys.history
      && e.sys.link.a.pending == d.sys.link.a.pending
      && (ToDo(e.sys, e.resp) < ToDo(d.sys, d.resp)
          || (ToDo(e.sys, e.resp) == ToDo(d.sys, d.resp) && Traffic(e.sys) < Traffic(d.sys)))
  {
    if d.sys.link.ba != [] {
      NextAtHost(fmt, asks, d, explicitMode);
    } else {
      NextAtDevice(fmt, asks, d, answer);
    }
    hide Serving, ToDo, Traffic, HostReads, HostTurn, Advance;
  }

  lemma NextAtHost(fmt: Format, asks: Message -> bool, d: Demo, explicitMode: bool)
    requires Serving(fmt, asks, d) && d.sys.link.ba != []
    ensures var turns, e := Turns(HostTurn(d.sys, explicitMode)), d.(sys := HostReads(fmt, d.sys));
      && DisciplinedRun(fmt, asks, d, turns) && AdvanceAll(fmt, asks, d, turns) == e
      && Serving(fmt, asks, e) && NearerDone(d, e) && e.sys.history == d.sys.history
      && e.sys.link.a.pending == d.sys.link.a.pending
      && (ToDo(e.sys, e.resp) < ToDo(d.sys, d.resp) || Traffic(e.sys) < Traffic(d.sys))
  {
    var s, events := d.sys, HostTurn(d.sys, explicitMode);
    HostTurnRuns(fmt, s, explicitMode);
    HostRun(fmt, asks, d, events);
    HostRunKeepsServing(fmt, asks, d, events);
    HostReadsIsCloser(fmt, s, d.resp);
    var _ := HostReadsEffect(fmt, s);
    hide Serving, HostReads, Turns, HostTurn, Closer, ToDo, Traffic;
  }

  lemma NextAtDevice(fmt: Format, asks: Message -> bool, d: Demo, answer: Message)
    requires Serving(fmt, asks, d) && fmt.Sendable(answer) && d.sys.link.ab != []
    ensures var turns, e := [Loop(answer, false)], Advance(fmt, asks, d, Loop(answer, false));
      && DisciplinedRun(fmt, asks, d, turns) && AdvanceAll(fmt, asks, d, turns) == e
      && Serving(fmt, asks, e) && NearerDone(d, e) && e.sys.history == d.sys.history
      && e.sys.link.a.pending == d.sys.link.a.pending
      && (ToDo(e.sys, e.resp) < ToDo(d.sys, d.resp) || Traffic(e.sys) < Traffic(d.sys))
  {
    AdvanceKeepsServing(fmt, asks, d, Loop(answer, false));
    LoopIsCloser(fmt, asks, d, answer, false);
    LoopIsLighter(fmt, asks, d, answer);
    LoopEffect(fmt, asks, d, answer, false);
    hide Serving, Sound, Advance, Closer, ToDo, Traffic;
    FirstTurn(fmt, asks, d, Loop(answer, false), []);
    assert [Loop(answer, false)] + [] == [Loop(answer, false)];
  }

  ghost function Settling(fmt: Format, asks: Message -> bool, d: Demo, answer: Message, explicitMode: bool): seq<Turn>
    requires Serving(fmt, asks, d) && fmt.Sendable(answer)
    decreases ToDo(d.sys, d.resp), Traffic(d.sys)
  {
    if d.sys.link.ab == [] && d.sys.link.ba == [] then []
    else
      NextEffect(fmt, asks, d, answer, explicitMode);
      NextTurns(d, answer, explicitMode) + Settling(fmt, asks, Next(fmt, asks, d, answer), answer, explicitMode)
  }

  lemma FirstTurn(fmt: Format, asks: Message -> bool, d: Demo, t: Turn, rest: seq<Turn>)
    ensures AdvanceAll(fmt, asks, d, [t] + rest) == AdvanceAll(fmt, asks, Advance(fmt, asks, d, t), rest)
    ensures DisciplinedRun(fmt, asks, d, [t] + rest)
            <==> Disciplined(fmt, asks, d, t) && DisciplinedRun(fmt, asks, Advance(fmt, asks, d, t), rest)
  {
    hide Advance, Disciplined;
    assert ([t] + rest)[0] == t && ([t] + rest)[1..] == rest;
  }

  /** What a run may be: disciplined, adding nothing to the history, and losing nothing. */
  ghost predicate Leads(fmt: Format, asks: Message -> bool, d: Demo, turns: seq<Turn>) {
    var e := AdvanceAll(fmt, asks, d, turns);
    && DisciplinedRun(fmt, asks, d, turns) && Serving(fmt, asks, e) && NearerDone(d, e)
    && e.sys.history == d.sys.history && e.sys.link.a.pending == d.sys.link.a.pending
  }

  lemma LeadsOn(fmt: Format, asks: Message -> bool, d: Demo, first: seq<Turn>, rest: seq<Turn>)
    requires Leads(fmt, asks, d, first) && Leads(fmt, asks, AdvanceAll(fmt, asks, d, first), rest)
    ensures Leads(fmt, asks, d, first + rest)
  {
    hide Serving, Closer, AdvanceAll, DisciplinedRun;
    TurnsInARow(fmt, asks, d, first, rest);
    var next := AdvanceAll(fmt, asks, d, first);
    var e := AdvanceAll(fmt, asks, next, rest);
    CloserStill(d.sys, d.resp, next.sys, next.resp, e.sys, e.resp);
  }

  lemma NoTurns(fmt: Format, asks: Message -> bool, d: Demo)
    requires Serving(fmt, asks, d)
    ensures Leads(fmt, asks, d, []) && AdvanceAll(fmt, asks, d, []) == d
  {
    hide Serving, ToDo, Hopeful, Ready;
  }

  lemma {:induction false} SettlingLeads(fmt: Format, asks: Message -> bool, d: Demo, answer: Message,
                                         explicitMode: bool)
    requires Serving(fmt, asks, d) && fmt.Sendable(answer)
    ensures var turns := Settling(fmt, asks, d, answer, explicitMode);
      var e := AdvanceAll(fmt, asks, d, turns);
      Leads(fmt, asks, d, turns) && e.sys.link.ab == [] && e.sys.link.ba == []
    decreases ToDo(d.sys, d.resp), Traffic(d.sys)
  {
    hide Serving, Advance, AdvanceAll, NearerDone, Disciplined, DisciplinedRun, NextTurns, Next;
    if d.sys.link.ab == [] && d.sys.link.ba == [] {
      NoTurns(fmt, asks, d);
    } else {
      var first, next := NextTurns(d, answer, explicitMode), Next(fmt, asks, d, answer);
      NextEffect(fmt, asks, d, answer, explicitMode);
      hide Traffic, ToDo;
      SettlingLeads(fmt, asks, next, answer, explicitMode);
      LeadsOn(fmt, asks, d, first, Settling(fmt, asks, next, answer, explicitMode));
      TurnsInARow(fmt, asks, d, first, Settling(fmt, asks, next, answer, explicitMode));
    }
  }

  // ---- Rounds -----------------------------------------------------------------

  /** The host retries and writes at once; the device makes a pass with its timer up. */
  function Prompted(fmt: Format, asks: Message -> bool, d: Demo, answer: Message): Demo {
    Advance(fmt, asks, d.(sys := Retried(fmt, d.sys)), Loop(answer, true))
  }

  function Prompt(d: Demo, answer: Message): seq<Turn> {
    Turns([Retry, Write(|d.sys.link.a.pending|)]) + [Loop(answer, true)]
  }

  lemma PromptLeads(fmt: Format, asks: Message -> bool, d: Demo, answer: Message)
    requires Serving(fmt, asks, d) && fmt.Sendable(answer)
    ensures var e := Prompted(fmt, asks, d, answer);
      && Leads(fmt, asks, d, Prompt(d, answer)) && AdvanceAll(fmt, asks, d, Prompt(d, answer)) == e
      && (ToDo(e.sys, e.resp) < ToDo(d.sys, d.resp)
          || (Hopeful(e.sys.link) && Hopeful(e.sys.link.Flip()) && !Ready(e.sys, e.resp)))
  {
    var events, retried := [Retry, Write(|d.sys.link.a.pending|)], d.(sys := Retried(fmt, d.sys));
    RetryIsWritten(fmt, d.sys);
    RetriedIsCloser(fmt, d.sys, d.resp);
    HostRun(fmt, asks, d, events);
    HostRunKeepsServing(fmt, asks, d, events);
    AdvanceKeepsServing(fmt, asks, retried, Loop(answer, true));
    LoopIsCloser(fmt, asks, retried, answer, true);
    LoopEffect(fmt, asks, retried, answer, true);
    hide Serving, Sound, Hopeful, Closer, ToDo, Ready, Retried, Turns, Happen, GetPart, SendPart, HappenAll, TimelyRun;
    var e := Prompted(fmt, asks, d, answer);
    FirstTurn(fmt, asks, retried, Loop(answer, true), []);
    assert [Loop(answer, true)] + [] == [Loop(answer, true)];
    LeadsOn(fmt, asks, d, Turns(events), [Loop(answer, true)]);
    TurnsInARow(fmt, asks, d, Turns(events), [Loop(answer, true)]);
    CloserKeepsHope(d, retried, e);
  }

  lemma CloserKeepsHope(d: Demo, written: Demo, e: Demo)
    requires NearerDone(d, written) && NearerDone(written, e)
    ensures ToDo(e.sys, e.resp) < ToDo(d.sys, d.resp) || (Hopeful(written.sys.link) ==> Hopeful(e.sys.link))
    ensures ToDo(e.sys, e.resp) <= ToDo(written.sys, written.resp) <= ToDo(d.sys, d.resp)
  {
    hide Hopeful, ToDo, Ready;
  }

  lemma {:induction false} TurnsInARow(fmt: Format, asks: Message -> bool, d: Demo, first: seq<Turn>, second: seq<Turn>)
    ensures AdvanceAll(fmt, asks, d, first + second) == AdvanceAll(fmt, asks, AdvanceAll(fmt, asks, d, first), second)
    ensures DisciplinedRun(fmt, asks, d, first + second)
            <==> (&& DisciplinedRun(fmt, asks, d, first)
                  && DisciplinedRun(fmt, asks, AdvanceAll(fmt, asks, d, first), second))
    decreases |first|
  {
    hide Advance, Disciplined;
    if first == [] {
      assert first + second == second;
    } else {
      assert (first + second)[0] == first[0] && (first + second)[1..] == first[1..] + second;
      TurnsInARow(fmt, asks, Advance(fmt, asks, d, first[0]), first[1..], second);
    }
  }

  ghost function Bout(fmt: Format, asks: Message -> bool, d: Demo, answer: Message, explicitMode: bool): seq<Turn>
    requires Serving(fmt, asks, d) && fmt.Sendable(answer)
  {
    PromptLeads(fmt, asks, d, answer);
    Prompt(d, answer) + Settling(fmt, asks, Prompted(fmt, asks, d, answer), answer, explicitMode)
  }

  /** With the line empty and nothing lost, everything is done. */
  lemma SilenceIsDone(fmt: Format, asks: Message -> bool, d: Demo)
    requires Serving(fmt, asks, d) && d.sys.link.ab == [] && d.sys.link.ba == []
    requires Hopeful(d.sys.link) && Hopeful(d.sys.link.Flip()) && !Ready(d.sys, d.resp)
    ensures ToDo(d.sys, d.resp) == 0
  {
    SilenceIsNotHopeful(d.sys);
    NothingRemainsIsDelivered(d.sys);
    hide Sound;
  }

  lemma BoutHelps(fmt: Format, asks: Message -> bool, d: Demo, answer: Message, explicitMode: bool)
    requires Serving(fmt, asks, d) && fmt.Sendable(answer)
    ensures var turns := Bout(fmt, asks, d, answer, explicitMode);
      var e := AdvanceAll(fmt, asks, d, turns);
      && Leads(fmt, asks, d, turns)
      && (ToDo(e.sys, e.resp) < ToDo(d.sys, d.resp) || ToDo(e.sys, e.resp) == 0)
  {
    PromptLeads(fmt, asks, d, answer);
    var p := Prompted(fmt, asks, d, answer);
    var rest := Settling(fmt, asks, p, answer, explicitMode);
    SettlingLeads(fmt, asks, p, answer, explicitMode);
    LeadsOn(fmt, asks, d, Prompt(d, answer), rest);
    TurnsInARow(fmt, asks, d, Prompt(d, answer), rest);
    hide Serving, Prompted, Prompt, Settling, AdvanceAll, DisciplinedRun, Hopeful, ToDo, Ready, Closer;
    var e := AdvanceAll(fmt, asks, p, rest);
    if !(ToDo(e.sys, e.resp) < ToDo(d.sys, d.resp)) {
      NothingWasLost(d, p, e);
      SilenceIsDone(fmt, asks, e);
    }
  }

  lemma NothingWasLost(d: Demo, p: Demo, e: Demo)
    requires NearerDone(d, p) && NearerDone(p, e) && ToDo(e.sys, e.resp) >= ToDo(d.sys, d.resp)
    requires ToDo(p.sys, p.resp) < ToDo(d.sys, d.resp)
      || (Hopeful(p.sys.link) && Hopeful(p.sys.link.Flip()) && !Ready(p.sys, p.resp))
    ensures Hopeful(e.sys.link) && Hopeful(e.sys.link.Flip()) && !Ready(e.sys, e.resp)
  {
    hide Hopeful, ToDo, Ready;
  }

  ghost function Bouts(fmt: Format, asks: Message -> bool, d: Demo, answer: Message, explicitMode: bool,
                       n: nat): seq<Turn>
    requires Serving(fmt, asks, d) && fmt.Sendable(answer)
    decreases n
  {
    if n == 0 then []
    else
      BoutHelps(fmt, asks, d, answer, explicitMode);
      var first := Bout(fmt, asks, d, answer, explicitMode);
      first + Bouts(fmt, asks, AdvanceAll(fmt, asks, d, first), answer, explicitMode, n - 1)
  }

  lemma DoneMeans(fmt: Format, asks: Message -> bool, d: Demo)
    requires Serving(fmt, asks, d) && ToDo(d.sys, d.resp) <= 0
    ensures d.sys.link.b.delivered == d.sys.history && d.sys.link.a.delivered == d.answers
    ensures |d.answers| == |Asked(asks, d.sys.history)|
  {
    DeliveredIsInHistory(d.sys);
    InvIsInOrder(d.sys.link);
    assert d.sys.link.b.sent + [] == d.sys.link.b.sent;
  }

  /**
   From every state that a disciplined run can reach, whatever has been lost, and in either mode of
   the session: after as many bouts as there is left to do every request has been delivered, its
   answer is at the host, and no frame is captured that was not before.
   */
  lemma {:induction false} EveryRequestIsAnswered(fmt: Format, asks: Message -> bool, d: Demo, answer: Message,
                                                  explicitMode: bool, n: nat)
    requires Serving(fmt, asks, d) && fmt.Sendable(answer) && n >= ToDo(d.sys, d.resp)
    ensures var turns := Bouts(fmt, asks, d, answer, explicitMode, n);
      var e := AdvanceAll(fmt, asks, d, turns);
      && DisciplinedRun(fmt, asks, d, turns) && e.sys.history == d.sys.history
      && e.sys.link.a.pending == d.sys.link.a.pending
      && e.sys.link.b.delivered == e.sys.history && e.sys.link.a.delivered == e.answers
      && |e.answers| == |Asked(asks, e.sys.history)|
    decreases n
  {
    hide Serving, ToDo, AdvanceAll, DisciplinedRun, Bout, Asked, Closer;
    if n == 0 {
      DoneMeans(fmt, asks, d);
      NoTurns(fmt, asks, d);
    } else {
      BoutHelps(fmt, asks, d, answer, explicitMode);
      var first := Bout(fmt, asks, d, answer, explicitMode);
      var e := AdvanceAll(fmt, asks, d, first);
      EveryRequestIsAnswered(fmt, asks, e, answer, explicitMode, n - 1);
      TurnsInARow(fmt, asks, d, first, Bouts(fmt, asks, e, answer, explicitMode, n - 1));
    }
  }
}
