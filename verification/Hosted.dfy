/**
 The demo's system: a C# session at one end and a frame_arq engine at the other. The session
 captures a frame under one lock and writes it under another, so its writes may be late and out
 of order; the engine writes at once.
 */
module Hosted {
  import opened Bytes
  import opened Frames
  import opened Endpoints
  import opened Links
  import opened Sessions
  import opened Duplex
  import opened Staleness

  /** The link with the session at end A, the messages in its queue, and everything passed to Send. */
  datatype System = System(link: Link, queue: seq<Message>, history: seq<Message>)

  const OPENED := System(CONNECTED, [], [])

  datatype Happening =
    | Send(m: Message)
    | Retry                     // Resend, or a timeout
    | Write(k: nat)             // a captured frame gets the send lock
    | Handled(explicitMode: bool)
    | Device(action: Action)    // put, resend, get at the device, and what its line does
    | LoseHost(k: nat)
    | GarbleHost(k: nat)

  /** The session's locked state inside the system. */
  function HostOf(s: System): Host {
    Host(s.link.a.ep.(resendNeeded := false), s.queue)
  }

  /** The part of Handle that follows the endpoint's own reaction. */
  function AfterReceive(s: System, l: Link, nacked: bool): System {
    if s.link.a.ep.awaitingAck && !l.a.ep.awaitingAck && s.queue != []
    then s.(link := StepA(l, Capture(s.queue[0])), queue := s.queue[1..])
    else if nacked then s.(link := StepA(l, Recapture))
    else s.(link := l)
  }

  function Happen(fmt: Format, s: System, e: Happening): System {
    match e
    case Send(m) =>
      if !fmt.Sendable(m) then s
      else if s.link.a.ep.awaitingAck then s.(queue := s.queue + [m], history := s.history + [m])
      else s.(link := StepA(s.link, Capture(m)), history := s.history + [m])
    case Retry => s.(link := StepA(s.link, Recapture))
    case Write(k) => s.(link := StepA(s.link, WriteOut(k)))
    case Handled(explicitMode) =>
      var nacked := s.link.ba != [] && s.link.ba[0].frame.Nack? && !explicitMode;
      AfterReceive(s, StepA(s.link, Receive), nacked)
    case Device(action) => s.(link := Perform(fmt, s.link, Act(B, action)))
    case LoseHost(k) => s.(link := StepA(s.link, Lose(k)))
    case GarbleHost(k) => s.(link := StepA(s.link, Garble(k)))
  }

  function HappenAll(fmt: Format, s: System, events: seq<Happening>): System
    decreases |events|
  {
    if events == [] then s else HappenAll(fmt, Happen(fmt, s, events[0]), events[1..])
  }

  // ---- The system runs the session's decisions --------------------------------

  /** The session's new state and the frame it captures or answers are the ones the session decides. */
  ghost predicate Follows(s: System, t: System, d: Decision) {
    && HostOf(t) == d.host
    && match d.frame
       case None => t.link.a.pending == s.link.a.pending && t.link.ab == s.link.ab
       case Some(f) =>
         if f.Data? then
           t.link.ab == s.link.ab && t.link.a.sent != []
           && t.link.a.pending == s.link.a.pending + [Packet(f, |t.link.a.sent| - 1)]
         else
           t.link.a.pending == s.link.a.pending && |t.link.ab| == |s.link.ab| + 1
           && t.link.ab[..|s.link.ab|] == s.link.ab && t.link.ab[|s.link.ab|].frame == f
  }

  lemma SendFollowsSubmit(fmt: Format, s: System, m: Message)
    requires Settled(s) && fmt.Sendable(m)
    ensures Follows(s, Happen(fmt, s, Send(m)), Submit(HostOf(s), m))
  {}

  lemma RetryFollowsRetransmit(fmt: Format, s: System)
    requires Settled(s)
    ensures Follows(s, Happen(fmt, s, Retry), Retransmit(HostOf(s)))
  {}

  lemma DataIsHandled(s: System, explicitMode: bool)
    requires Settled(s) && s.link.ba != [] && s.link.ba[0].frame.Data?
    ensures var l, r := StepA(s.link, Receive), React(s.link.a.ep, s.link.ba[0].frame);
      && Handle(HostOf(s), s.link.ba[0].frame, explicitMode)
         == Decision(Host(l.a.ep.(resendNeeded := false), s.queue), r.reply, r.outcome)
      && !(s.link.a.ep.awaitingAck && !l.a.ep.awaitingAck)
      && l.a.pending == s.link.a.pending
      && l.ab == s.link.ab + Answer(s.link.a, s.link.ba[0].frame)
  {}

  lemma AckIsHandled(s: System)
    requires Settled(s) && s.link.ba != [] && s.link.ba[0].frame.Ack?
    ensures var l := StepA(s.link, Receive);
      l.ab == s.link.ab && l.a.pending == s.link.a.pending && l.a.sent == s.link.a.sent
  {}

  lemma NackIsHandled(s: System, explicitMode: bool)
    requires Settled(s) && s.link.ba != [] && s.link.ba[0].frame.Nack?
    ensures var l := StepA(s.link, Receive);
      l == s.link.(a := s.link.a.(ep := React(s.link.a.ep, s.link.ba[0].frame).ep), ba := s.link.ba[1..])
    ensures s.link.a.ep.awaitingAck ==>
      s.link.a.sent != [] && s.link.a.ep.retained == Some(s.link.a.sent[|s.link.a.sent| - 1])
  {
    assert s.link.ab + [] == s.link.ab;
  }

  lemma HandledFollowsHandle(fmt: Format, s: System, explicitMode: bool)
    requires Settled(s) && s.link.ba != []
    ensures Follows(s, Happen(fmt, s, Handled(explicitMode)), Handle(HostOf(s), s.link.ba[0].frame, explicitMode))
  {
    hide Inv, Conserved;
    match s.link.ba[0].frame
    case Data(_, _) => DataIsHandled(s, explicitMode);
    case Ack(_) => AckIsHandled(s);
    case Nack(_) => NackIsHandled(s, explicitMode);
    case _ =>
  }
  // ---- What every step keeps --------------------------------------------------

  /** Send-queue conservation, and both halves of the link. */
  ghost predicate Settled(s: System) {
    Inv(s.link) && Conserved(HostOf(s), s.history, s.link.a.sent)
  }

  /**
   No data frame on the host's line is 64 messages behind the receiver, nor behind any frame that
   will be handled before it.
   */
  ghost predicate Recent(l: Link) {
    && (forall i :: 0 <= i < |l.ab| && l.ab[i].frame.Data? ==> |l.b.delivered| < l.ab[i].index + SEQUENCES)
    && (forall i, j :: 0 <= i < j < |l.ab| && l.ab[i].frame.Data? && l.ab[j].frame.Data? ==>
          l.ab[i].index + 1 < l.ab[j].index + SEQUENCES)
  }

  ghost predicate LinkSound(l: Link) {
    Inv(l) && Recent(l) && Incoming(l)
  }

  ghost predicate Sound(s: System) {
    LinkSound(s.link) && Conserved(HostOf(s), s.history, s.link.a.sent)
  }

  /** A write is timely when its frame is fewer than 63 messages behind the newest. */
  predicate TimelyStep(l: Link, s: Step) {
    s.WriteOut? && s.k < |l.a.pending| ==> |l.a.sent| < l.a.pending[s.k].index + SEQUENCES
  }

  predicate Timely(s: System, e: Happening) {
    e.Write? ==> TimelyStep(s.link, WriteOut(e.k))
  }

  predicate TimelyRun(fmt: Format, s: System, events: seq<Happening>)
    decreases |events|
  {
    events == [] || (Timely(s, events[0]) && TimelyRun(fmt, Happen(fmt, s, events[0]), events[1..]))
  }

  lemma WriteOutKeepsRecent(l: Link, k: nat)
    requires Inv(l) && Recent(l) && TimelyStep(l, WriteOut(k))
    ensures Recent(StepA(l, WriteOut(k)))
  {
    if k < |l.a.pending| {
      var p, fwd := l.a.pending[k], l.ab;
      assert forall i :: 0 <= i < |fwd| && fwd[i].frame.Data? ==> IsCopy(l.a.sent, fwd[i]);
    }
  }

  lemma ReceiveKeepsRecent(l: Link)
    requires Recent(l)
    ensures Recent(StepA(l, Receive))
  {
    if l.ba != [] {
      AnswerIsNoData(l.a, l.ba[0].frame);
      hide React;
    }
  }

  lemma LoseKeepsRecent(l: Link, k: nat)
    requires Recent(l)
    ensures Recent(StepA(l, Lose(k)))
  {
    if k < |l.ab| {
      var rest := Remove(l.ab, k);
      assert forall i :: 0 <= i < |rest| ==> rest[i] == l.ab[if i < k then i else i + 1];
    }
  }

  /**
   Every step at the session's end keeps both halves and the window of the device's line, however late
   its writes are.
   */
  lemma HostStepKeepsSteady(l: Link, s: Step)
    requires Inv(l) && Incoming(l)
    ensures Inv(StepA(l, s)) && Incoming(StepA(l, s))
  {
    WindowIsSafe(l.b, l.a, l.ba, l.ab);
    StepKeepsInv(l, s);
    assert forall p :: p in l.a.pending ==> IsCopy(l.a.sent, p);
    StepKeepsIncoming(l, s);
  }

  /** Every step at the session's end keeps the link sound, as long as writes are timely. */
  lemma HostStepKeepsLink(l: Link, s: Step)
    requires LinkSound(l) && TimelyStep(l, s)
    ensures LinkSound(StepA(l, s))
  {
    HostStepKeepsSteady(l, s);
    hide Half, Windowed, React;
    match s
    case WriteOut(k) => WriteOutKeepsRecent(l, k);
    case Receive => ReceiveKeepsRecent(l);
    case Lose(k) => LoseKeepsRecent(l, k);
    case _ =>
  }

  /** A recent frame is never mistaken for a new one. */
  lemma RecentIsSafe(l: Link)
    requires Recent(l)
    ensures SafeHead(l.ab, |l.b.delivered|)
  {}

  lemma DeviceReceives(l: Link)
    requires Inv(l) && Recent(l)
    ensures var l' := StepA(l.Flip(), Receive).Flip();
      && l'.ab == (if l.ab == [] then [] else l.ab[1..])
      && (|l'.b.delivered| == |l.b.delivered|
          || (|l'.b.delivered| == |l.b.delivered| + 1 && l.ab != [] && l.ab[0].frame.Data?
              && l.ab[0].index == |l.b.delivered|))
  {
    if l.ab != [] && l.ab[0].frame.Data? {
      assert IsCopy(l.a.sent, l.ab[0]);
      CopiesAreTold(l.b.ep, l.a.sent, l.ab[0], |l.b.delivered|);
    }
  }

  lemma DeliveryKeepsRecent(l: Link)
    requires Inv(l) && Recent(l)
    ensures Recent(StepA(l.Flip(), Receive).Flip())
  {
    DeviceReceives(l);
    hide StepA, Inv;
  }

  /** The device's own line is not affected by how the session behaves. */
  lemma DeviceActionKeepsLink(fmt: Format, l: Link, a: Action)
    requires LinkSound(l)
    ensures LinkSound(Perform(fmt, l, Act(B, a)))
  {
    RecentIsSafe(l);
    ActKeepsOutgoing(fmt, l.Flip(), a);
    ActKeepsOtherHalf(fmt, l.Flip(), a);
    DeviceActionKeepsRecent(fmt, l, a);
    hide Half, Windowed, Recent, ActA;
  }

  lemma ActKeepsOtherHalf(fmt: Format, l: Link, a: Action)
    requires Half(l.b, l.a, l.ba, l.ab) && l.a.pending == [] && (a.Get? ==> SafeHead(l.ba, |l.a.delivered|))
    ensures var l' := ActA(fmt, l, a); Half(l'.b, l'.a, l'.ba, l'.ab)
  {
    hide Half;
    match a
    case Put(m) =>
      StepKeepsOtherHalf(l, Capture(m));
      StepKeepsOtherHalf(StepA(l, Capture(m)), WriteOut(0));
    case Resend =>
      StepKeepsOtherHalf(l, Recapture);
      StepKeepsOtherHalf(StepA(l, Recapture), WriteOut(0));
    case Get => StepKeepsOtherHalf(l, Receive);
    case Vanish(k) => StepKeepsOtherHalf(l, Lose(k));
    case Corrupted(k) => StepKeepsOtherHalf(l, Garble(k));
  }

  lemma DeviceActionKeepsRecent(fmt: Format, l: Link, a: Action)
    requires Inv(l) && Recent(l)
    ensures Recent(Perform(fmt, l, Act(B, a)))
  {
    if a.Get? {
      DeliveryKeepsRecent(l);
    } else {
      var l' := Perform(fmt, l, Act(B, a));
      assert l'.ab == l.ab && l'.b.delivered == l.b.delivered;
    }
  }

  // ---- Whole runs -------------------------------------------------------------

  lemma SendConserves(fmt: Format, s: System, m: Message)
    requires Settled(s)
    ensures var t := Happen(fmt, s, Send(m)); Conserved(HostOf(t), t.history, t.link.a.sent)
  {
    var sent := s.link.a.sent;
    if s.link.a.ep.awaitingAck {
      assert sent + (s.queue + [m]) == sent + s.queue + [m];
    } else {
      assert s.history == sent && sent + [m] + [] == sent + [m];
    }
  }

  lemma HandledConserves(fmt: Format, s: System, explicitMode: bool)
    requires Settled(s)
    ensures var t := Happen(fmt, s, Handled(explicitMode)); Conserved(HostOf(t), t.history, t.link.a.sent)
  {
    var l := StepA(s.link, Receive);
    assert l.a == s.link.a.(ep := l.a.ep, delivered := l.a.delivered);
    assert l.a.ep.txSeq == s.link.a.ep.txSeq && l.a.ep.retained == s.link.a.ep.retained;
    assert l.a.ep.awaitingAck ==> s.link.a.ep.awaitingAck;
    hide Inv, React;
    if s.queue != [] {
      var sent := s.link.a.sent;
      assert s.queue == [s.queue[0]] + s.queue[1..];
      assert sent + s.queue == sent + [s.queue[0]] + s.queue[1..];
    }
  }

  /** Writing, retrying and the line do not touch the session's state, nor does the device. */
  lemma HostIsUntouched(fmt: Format, s: System, e: Happening)
    requires !e.Send? && !e.Handled?
    ensures var t := Happen(fmt, s, e);
      t.link.a.ep == s.link.a.ep && t.link.a.sent == s.link.a.sent && t.queue == s.queue && t.history == s.history
  {}

  /** Send-queue conservation over every event, timely or not. */
  lemma HappenConserves(fmt: Format, s: System, e: Happening)
    requires Settled(s)
    ensures var t := Happen(fmt, s, e); Conserved(HostOf(t), t.history, t.link.a.sent)
  {
    hide Inv, Conserved, Happen;
    match e
    case Send(m) => SendConserves(fmt, s, m);
    case Handled(explicitMode) => HandledConserves(fmt, s, explicitMode);
    case _ => HostIsUntouched(fmt, s, e);
  }

  lemma HappenKeepsLink(fmt: Format, s: System, e: Happening)
    requires LinkSound(s.link) && Timely(s, e)
    ensures LinkSound(Happen(fmt, s, e).link)
  {
    hide LinkSound;
    match e
    case Send(m) => HostStepKeepsLink(s.link, Capture(m));
    case Retry => HostStepKeepsLink(s.link, Recapture);
    case Write(k) => HostStepKeepsLink(s.link, WriteOut(k));
    case Handled(explicitMode) =>
      HostStepKeepsLink(s.link, Receive);
      var l := StepA(s.link, Receive);
      HostStepKeepsLink(l, Recapture);
      if s.queue != [] {
        HostStepKeepsLink(l, Capture(s.queue[0]));
      }
    case Device(a) => DeviceActionKeepsLink(fmt, s.link, a);
    case LoseHost(k) => HostStepKeepsLink(s.link, Lose(k));
    case GarbleHost(k) => HostStepKeepsLink(s.link, Garble(k));
  }

  lemma {:induction false} TimelyRunIsSound(fmt: Format, s: System, events: seq<Happening>)
    requires Sound(s) && TimelyRun(fmt, s, events)
    ensures Sound(HappenAll(fmt, s, events))
    decreases |events|
  {
    if events != [] {
      HappenKeepsLink(fmt, s, events[0]);
      HappenConserves(fmt, s, events[0]);
      hide Conserved, Inv, Recent, Happen;
      TimelyRunIsSound(fmt, Happen(fmt, s, events[0]), events[1..]);
    }
  }

  /**
   Exactly-once, in-order delivery of the Send history through queue, delayed writes and a bad
   line, and of the device's messages the other way, whenever each write is fewer than 63
   messages late.
   */
  lemma HistoryIsDelivered(fmt: Format, events: seq<Happening>)
    requires TimelyRun(fmt, OPENED, events)
    ensures var s := HappenAll(fmt, OPENED, events);
      && DeliveredInOrder(s.link.a, s.link.b) && DeliveredInOrder(s.link.b, s.link.a)
      && s.link.b.delivered <= s.history
      && s.history == s.link.a.sent + s.queue
      && (!s.link.a.ep.awaitingAck ==> s.link.b.delivered == s.history)
  {
    assert Sound(OPENED);
    TimelyRunIsSound(fmt, OPENED, events);
  }

  // ---- Exactly when the history is delivered ----------------------------------

  /** The device is about to take a copy that is 64, 128, ... messages old for the next message. */
  ghost predicate MistakenEvent(s: System, e: Happening) {
    e == Device(Get) && Mistaken(s.link.a, s.link.b, s.link.ab)
  }

  ghost predicate NoMistake(fmt: Format, s: System, events: seq<Happening>)
    decreases |events|
  {
    events == [] || (!MistakenEvent(s, events[0]) && NoMistake(fmt, Happen(fmt, s, events[0]), events[1..]))
  }

  /** What every event but a mistaken reception keeps. */
  ghost predicate Steady(s: System) {
    Settled(s) && Incoming(s.link)
  }

  /** Both directions in order, and what the device has delivered is a beginning of the Send history. */
  ghost predicate AsSent(s: System) {
    && InOrder(s.link)
    && s.history == s.link.a.sent + s.queue && s.link.b.delivered <= s.history
    && (!s.link.a.ep.awaitingAck ==> s.link.b.delivered == s.history)
  }

  lemma SteadyIsAsSent(s: System)
    requires Steady(s)
    ensures AsSent(s)
  {
    InvIsInOrder(s.link);
    hide Half;
  }

  lemma DeviceActionKeepsSteady(fmt: Format, l: Link, a: Action)
    requires Inv(l) && Incoming(l) && (a.Get? ==> !Mistaken(l.a, l.b, l.ab))
    ensures var l' := Perform(fmt, l, Act(B, a)); Inv(l') && Incoming(l')
  {
    ActKeepsOutgoing(fmt, l.Flip(), a);
    if a.Get? {
      ReceiveIsSafeExactly(l.Flip());
    } else {
      ActKeepsOtherHalf(fmt, l.Flip(), a);
    }
    hide Half, Windowed, ActA;
  }

  lemma EventKeepsSteadyLink(fmt: Format, s: System, e: Happening)
    requires Steady(s) && !MistakenEvent(s, e)
    ensures Inv(Happen(fmt, s, e).link) && Incoming(Happen(fmt, s, e).link)
  {
    hide Inv, Incoming, Mistaken, Conserved;
    match e
    case Send(m) => HostStepKeepsSteady(s.link, Capture(m));
    case Retry => HostStepKeepsSteady(s.link, Recapture);
    case Write(k) => HostStepKeepsSteady(s.link, WriteOut(k));
    case Handled(explicitMode) =>
      HostStepKeepsSteady(s.link, Receive);
      var l := StepA(s.link, Receive);
      HostStepKeepsSteady(l, Recapture);
      if s.queue != [] {
        HostStepKeepsSteady(l, Capture(s.queue[0]));
      }
    case Device(a) => DeviceActionKeepsSteady(fmt, s.link, a);
    case LoseHost(k) => HostStepKeepsSteady(s.link, Lose(k));
    case GarbleHost(k) => HostStepKeepsSteady(s.link, Garble(k));
  }

  lemma EventIsAsSentExactly(fmt: Format, s: System, e: Happening)
    requires Steady(s)
    ensures AsSent(Happen(fmt, s, e)) <==> !MistakenEvent(s, e)
    ensures !MistakenEvent(s, e) ==> Steady(Happen(fmt, s, e))
  {
    if MistakenEvent(s, e) {
      MistakenIsOutOfOrder(s.link.Flip());
      hide Half, StepA, Mistaken;
    } else {
      EventKeepsSteadyLink(fmt, s, e);
      HappenConserves(fmt, s, e);
      hide Happen, Inv, Incoming, Conserved, AsSent, MistakenEvent;
      SteadyIsAsSent(Happen(fmt, s, e));
    }
  }

  lemma {:induction false} RunIsAsSentExactly(fmt: Format, s: System, events: seq<Happening>)
    requires Steady(s)
    ensures (forall k :: 0 <= k <= |events| ==> AsSent(HappenAll(fmt, s, events[..k]))) <==> NoMistake(fmt, s, events)
    decreases |events|
  {
    hide Steady, AsSent, MistakenEvent, Happen;
    SteadyIsAsSent(s);
    if events == [] {
      assert forall k :: 0 <= k <= |events| ==> events[..k] == [];
    } else {
      var next, rest := Happen(fmt, s, events[0]), events[1..];
      EventIsAsSentExactly(fmt, s, events[0]);
      forall k | 1 <= k <= |events| ensures HappenAll(fmt, s, events[..k]) == HappenAll(fmt, next, rest[..k - 1]) {
        assert events[..k][0] == events[0] && events[..k][1..] == rest[..k - 1];
      }
      assert events[..0] == [] && rest[..0] == [];
      if MistakenEvent(s, events[0]) {
        assert !AsSent(HappenAll(fmt, s, events[..1]));
      } else {
        RunIsAsSentExactly(fmt, next, rest);
        assert forall k :: 0 <= k <= |rest| ==> HappenAll(fmt, next, rest[..k]) == HappenAll(fmt, s, events[..k + 1]);
      }
    }
  }

  /**
   However late the session writes: at every moment of a run the device has delivered a beginning
   of the Send history, once each, and all of it when nothing is awaited, if and only if it never
   takes a copy 64, 128, ... messages old for the next message.
   */
  lemma HistoryIsDeliveredExactly(fmt: Format, events: seq<Happening>)
    ensures (forall k :: 0 <= k <= |events| ==> AsSent(HappenAll(fmt, OPENED, events[..k])))
            <==> NoMistake(fmt, OPENED, events)
  {
    assert Steady(OPENED);
    hide AsSent, NoMistake, Steady;
    RunIsAsSentExactly(fmt, OPENED, events);
  }

  // ---- The device's messages need no proviso ----------------------------------

  /** Only what the device sends: it does not depend on how late the session writes. */
  ghost predicate DeviceSide(l: Link) {
    Incoming(l) && HoldsData(l.a)
  }

  lemma HostStepKeepsDeviceSide(l: Link, s: Step)
    requires DeviceSide(l)
    ensures DeviceSide(StepA(l, s))
  {
    StepKeepsIncoming(l, s);
    hide Half, Windowed, React;
  }

  lemma HappenKeepsDeviceSide(fmt: Format, s: System, e: Happening)
    requires DeviceSide(s.link)
    ensures DeviceSide(Happen(fmt, s, e).link)
  {
    hide DeviceSide;
    match e
    case Send(m) => HostStepKeepsDeviceSide(s.link, Capture(m));
    case Retry => HostStepKeepsDeviceSide(s.link, Recapture);
    case Write(k) => HostStepKeepsDeviceSide(s.link, WriteOut(k));
    case Handled(explicitMode) =>
      HostStepKeepsDeviceSide(s.link, Receive);
      var l := StepA(s.link, Receive);
      HostStepKeepsDeviceSide(l, Recapture);
      if s.queue != [] {
        HostStepKeepsDeviceSide(l, Capture(s.queue[0]));
      }
    case Device(a) => DeviceActionKeepsDeviceSide(fmt, s.link, a);
    case LoseHost(k) => HostStepKeepsDeviceSide(s.link, Lose(k));
    case GarbleHost(k) => HostStepKeepsDeviceSide(s.link, Garble(k));
  }

  lemma DeviceActionKeepsDeviceSide(fmt: Format, l: Link, a: Action)
    requires DeviceSide(l)
    ensures DeviceSide(Perform(fmt, l, Act(B, a)))
  {
    ActKeepsOutgoing(fmt, l.Flip(), a);
    assert ActA(fmt, l.Flip(), a).b.pending == l.a.pending;
    hide Flow, ActA;
  }

  lemma {:induction false} RunKeepsDeviceSide(fmt: Format, s: System, events: seq<Happening>)
    requires DeviceSide(s.link)
    ensures DeviceSide(HappenAll(fmt, s, events).link)
    decreases |events|
  {
    if events != [] {
      HappenKeepsDeviceSide(fmt, s, events[0]);
      hide DeviceSide, Happen;
      RunKeepsDeviceSide(fmt, Happen(fmt, s, events[0]), events[1..]);
    }
  }

  /** The device's messages arrive exactly once and in order in every run, however late the session writes. */
  lemma DeviceMessagesAreDelivered(fmt: Format, events: seq<Happening>)
    ensures var l := HappenAll(fmt, OPENED, events).link; DeliveredInOrder(l.b, l.a)
  {
    RunKeepsDeviceSide(fmt, OPENED, events);
  }

  // ---- What may happen to frames ----------------------------------------------

  /** Any captured frame can be the next to be written, and any frame on either channel can vanish or arrive corrupt. */
  lemma LineHappens(fmt: Format, s: System, k: nat)
    ensures var l, n := s.link, s.link.a;
      && (k < |n.pending| ==>
            Happen(fmt, s, Write(k)).link
            == l.(a := n.(pending := n.pending[..k] + n.pending[k + 1..]), ab := l.ab + [n.pending[k]]))
      && (k < |l.ab| ==>
            && Happen(fmt, s, LoseHost(k)).link == l.(ab := l.ab[..k] + l.ab[k + 1..])
            && Happen(fmt, s, GarbleHost(k)).link == l.(ab := l.ab[..k] + [Packet(Corrupt, 0)] + l.ab[k + 1..]))
      && (k < |l.ba| ==>
            && Happen(fmt, s, Device(Vanish(k))).link == l.(ba := l.ba[..k] + l.ba[k + 1..])
            && Happen(fmt, s, Device(Corrupted(k))).link == l.(ba := l.ba[..k] + [Packet(Corrupt, 0)] + l.ba[k + 1..]))
  {}
}
