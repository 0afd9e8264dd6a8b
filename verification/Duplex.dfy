/**
 Two frame_arq engines on a line that may lose and corrupt frames. An engine writes a frame as
 soon as it is built, so nothing is ever captured and left behind: the sequence numbers never
 confuse two frames, and delivery is exactly once and in order without any proviso.
 */
module Duplex {
  import opened Bytes
  import opened Frames
  import opened Endpoints
  import opened Links

  /** What one engine's caller does, and what the line does to what it wrote. */
  datatype Action =
    | Put(m: Message)
    | Resend
    | Get
    | Vanish(k: nat)
    | Corrupted(k: nat)

  datatype Act = Act(side: Side, action: Action)

  function ActA(fmt: Format, l: Link, a: Action): Link {
    match a
    case Put(m) =>
      if PutCheck(fmt, l.a.ep, m) == Accepted then StepA(StepA(l, Capture(m)), WriteOut(0)) else l
    case Resend => if l.a.ep.awaitingAck then StepA(StepA(l, Recapture), WriteOut(0)) else l
    case Get => StepA(l, Receive)
    case Vanish(k) => StepA(l, Lose(k))
    case Corrupted(k) => StepA(l, Garble(k))
  }

  function Perform(fmt: Format, l: Link, a: Act): Link {
    match a.side
    case A => ActA(fmt, l, a.action)
    case B => ActA(fmt, l.Flip(), a.action).Flip()
  }

  function PerformAll(fmt: Format, l: Link, acts: seq<Act>): Link
    decreases |acts|
  {
    if acts == [] then l else PerformAll(fmt, Perform(fmt, l, acts[0]), acts[1..])
  }

  /**
   The window: a channel holds copies of the message before the last, then copies of the last,
   and of the last only once it is delivered.
   */
  ghost predicate Windowed(s: Node, r: Node, fwd: seq<Packet>) {
    && s.pending == []
    && (forall i :: 0 <= i < |fwd| && fwd[i].frame.Data? ==>
          |s.sent| <= fwd[i].index + (if |r.delivered| == |s.sent| then 1 else 2))
    && (forall i, j :: 0 <= i < j < |fwd| && fwd[i].frame.Data? && fwd[j].frame.Data? ==> fwd[i].index <= fwd[j].index)
  }

  /** Data flows from `s` to `r` in order, inside the window. */
  ghost predicate Flow(s: Node, r: Node, fwd: seq<Packet>, back: seq<Packet>) {
    Half(s, r, fwd, back) && Windowed(s, r, fwd)
  }

  ghost predicate Outgoing(l: Link) {
    Flow(l.a, l.b, l.ab, l.ba)
  }

  ghost predicate Incoming(l: Link) {
    Flow(l.b, l.a, l.ba, l.ab)
  }

  ghost predicate Good(fmt: Format, l: Link) {
    Outgoing(l) && Incoming(l) && forall m :: m in l.a.sent || m in l.b.sent ==> fmt.Sendable(m)
  }

  /** In the window every data frame is safe to receive. */
  lemma WindowIsSafe(s: Node, r: Node, fwd: seq<Packet>, back: seq<Packet>)
    requires Flow(s, r, fwd, back)
    ensures SafeHead(fwd, |r.delivered|)
  {
    if fwd != [] && fwd[0].frame.Data? {
      assert IsCopy(s.sent, fwd[0]);
    }
  }

  /** The gap branch of get is never reached: every data frame is the expected one or the last one again. */
  lemma NoGapIsEverSeen(l: Link)
    requires Incoming(l) && l.ba != [] && l.ba[0].frame.Data?
    ensures var r := React(l.a.ep, l.ba[0].frame);
      r.reply == Some(Ack(l.ba[0].frame.seq6))
      && (r.outcome.Deliver? <==> l.ba[0].index == |l.a.delivered|)
  {
    assert IsCopy(l.b.sent, l.ba[0]);
    CopiesAreTold(l.a.ep, l.b.sent, l.ba[0], |l.a.delivered|);
  }

  /** Whatever this end does with its own frames, the data coming in stays in its window. */
  lemma StepKeepsIncoming(l: Link, s: Step)
    requires Incoming(l) && HoldsData(l.a)
    ensures Incoming(StepA(l, s))
  {
    WindowIsSafe(l.b, l.a, l.ba, l.ab);
    StepKeepsOtherHalf(l, s);
    if s.Receive? && l.ba != [] && l.ba[0].frame.Data? {
      var p, d := l.ba[0], |l.a.delivered|;
      assert IsCopy(l.b.sent, p);
      CopiesAreTold(l.a.ep, l.b.sent, p, d);
      hide React, Half;
    }
  }

  lemma AnswerIsNoData(n: Node, f: Frame)
    ensures forall p :: p in Answer(n, f) ==> !p.frame.Data?
  {}

  /** With nothing left behind, capturing and writing puts exactly one more packet on the line. */
  lemma PutWritesOnePacket(l: Link, m: Message)
    requires l.a.pending == [] && !l.a.ep.awaitingAck
    ensures var ep := Stamp(l.a.ep, m);
      StepA(StepA(l, Capture(m)), WriteOut(0))
      == l.(a := l.a.(ep := ep, sent := l.a.sent + [m]), ab := l.ab + [Packet(Outstanding(ep), |l.a.sent|)])
  {
    var p := Packet(Outstanding(Stamp(l.a.ep, m)), |l.a.sent|);
    assert StepA(l, Capture(m)).a.pending == [p];
    assert Remove([p], 0) == [];
  }

  lemma ResendWritesOnePacket(l: Link)
    requires l.a.pending == [] && l.a.ep.awaitingAck && l.a.ep.retained.Some? && l.a.sent != []
    ensures StepA(StepA(l, Recapture), WriteOut(0))
            == l.(ab := l.ab + [Packet(Outstanding(l.a.ep), |l.a.sent| - 1)])
  {
    var p := Packet(Outstanding(l.a.ep), |l.a.sent| - 1);
    assert StepA(l, Recapture).a.pending == [p];
    assert Remove([p], 0) == [];
  }

  lemma PutKeepsOutgoing(fmt: Format, l: Link, m: Message)
    requires Outgoing(l) && PutCheck(fmt, l.a.ep, m) == Accepted
    ensures Outgoing(ActA(fmt, l, Put(m)))
  {
    StepKeepsOwnHalf(l, Capture(m));
    StepKeepsOwnHalf(StepA(l, Capture(m)), WriteOut(0));
    PutWritesOnePacket(l, m);
    PutKeepsWindow(l.a, l.b, l.ab, l.ba, m);
    hide StepA, React, Half, Windowed;
  }

  lemma PutKeepsWindow(s: Node, r: Node, fwd: seq<Packet>, back: seq<Packet>, m: Message)
    requires Flow(s, r, fwd, back) && !s.ep.awaitingAck
    ensures Windowed(s.(ep := Stamp(s.ep, m), sent := s.sent + [m]), r,
                     fwd + [Packet(Outstanding(Stamp(s.ep, m)), |s.sent|)])
  {}

  lemma ResendKeepsOutgoing(fmt: Format, l: Link)
    requires Outgoing(l) && l.a.ep.awaitingAck
    ensures Outgoing(ActA(fmt, l, Resend))
  {
    StepKeepsOwnHalf(l, Recapture);
    StepKeepsOwnHalf(StepA(l, Recapture), WriteOut(0));
    ResendWritesOnePacket(l);
    ResendKeepsWindow(l.a, l.b, l.ab, l.ba);
    hide StepA, React, Half, Windowed;
  }

  lemma ResendKeepsWindow(s: Node, r: Node, fwd: seq<Packet>, back: seq<Packet>)
    requires Flow(s, r, fwd, back) && s.ep.awaitingAck
    ensures Windowed(s, r, fwd + [Packet(Outstanding(s.ep), |s.sent| - 1)])
  {}

  lemma GetKeepsOutgoing(l: Link)
    requires Outgoing(l)
    ensures Outgoing(StepA(l, Receive))
  {
    StepKeepsOwnHalf(l, Receive);
    if l.ba != [] {
      AnswerIsNoData(l.a, l.ba[0].frame);
      hide React, Half;
      var l' := StepA(l, Receive);
      assert l'.a.pending == l.a.pending && l'.a.sent == l.a.sent;
      assert Windowed(l'.a, l'.b, l'.ab);
    }
  }

  lemma VanishKeepsOutgoing(l: Link, k: nat)
    requires Outgoing(l)
    ensures Outgoing(StepA(l, Lose(k)))
  {
    StepKeepsOwnHalf(l, Lose(k));
    hide Half;
    if k < |l.ab| {
      RemoveKeepsOrder(l.ab, k);
    }
  }

  lemma GarbleKeepsOutgoing(l: Link, k: nat)
    requires Outgoing(l)
    ensures Outgoing(StepA(l, Garble(k)))
  {
    StepKeepsOwnHalf(l, Garble(k));
    hide Half;
  }

  lemma ActKeepsOutgoing(fmt: Format, l: Link, a: Action)
    requires Outgoing(l)
    ensures Outgoing(ActA(fmt, l, a))
  {
    hide Flow;
    match a
    case Put(m) => if PutCheck(fmt, l.a.ep, m) == Accepted { PutKeepsOutgoing(fmt, l, m); }
    case Resend => if l.a.ep.awaitingAck { ResendKeepsOutgoing(fmt, l); }
    case Get => GetKeepsOutgoing(l);
    case Vanish(k) => VanishKeepsOutgoing(l, k);
    case Corrupted(k) => GarbleKeepsOutgoing(l, k);
  }

  lemma ActKeepsIncoming(fmt: Format, l: Link, a: Action)
    requires Incoming(l) && l.a.pending == []
    ensures Incoming(ActA(fmt, l, a))
  {
    hide Flow;
    match a
    case Put(m) =>
      StepKeepsIncoming(l, Capture(m));
      StepKeepsIncoming(StepA(l, Capture(m)), WriteOut(0));
    case Resend =>
      StepKeepsIncoming(l, Recapture);
      StepKeepsIncoming(StepA(l, Recapture), WriteOut(0));
    case Get => StepKeepsIncoming(l, Receive);
    case Vanish(k) => StepKeepsIncoming(l, Lose(k));
    case Corrupted(k) => StepKeepsIncoming(l, Garble(k));
  }

  lemma ActSendsOnlySendable(fmt: Format, l: Link, a: Action)
    ensures ActA(fmt, l, a).b.sent == l.b.sent
    ensures ActA(fmt, l, a).a.sent
            == if a.Put? && PutCheck(fmt, l.a.ep, a.m) == Accepted then l.a.sent + [a.m] else l.a.sent
  {}

  lemma ActKeepsGood(fmt: Format, l: Link, a: Action)
    requires Good(fmt, l)
    ensures Good(fmt, ActA(fmt, l, a))
  {
    ActKeepsOutgoing(fmt, l, a);
    ActKeepsIncoming(fmt, l, a);
    ActSendsOnlySendable(fmt, l, a);
    hide ActA, Half;
  }

  lemma PerformKeepsGood(fmt: Format, l: Link, a: Act)
    requires Good(fmt, l)
    ensures Good(fmt, Perform(fmt, l, a))
  {
    match a.side
    case A => ActKeepsGood(fmt, l, a.action);
    case B => ActKeepsGood(fmt, l.Flip(), a.action);
  }

  lemma {:induction false} PerformAllKeepsGood(fmt: Format, l: Link, acts: seq<Act>)
    requires Good(fmt, l)
    ensures Good(fmt, PerformAll(fmt, l, acts))
    decreases |acts|
  {
    if acts != [] {
      PerformKeepsGood(fmt, l, acts[0]);
      PerformAllKeepsGood(fmt, Perform(fmt, l, acts[0]), acts[1..]);
    }
  }

  /**
   Exactly-once, in-order delivery, full duplex: for every sequence of puts, resends, gets,
   losses and corruptions at both ends, in any order.
   */
  lemma DuplexDeliversInOrder(fmt: Format, acts: seq<Act>)
    ensures var l := PerformAll(fmt, CONNECTED, acts);
      DeliveredInOrder(l.a, l.b) && DeliveredInOrder(l.b, l.a)
  {
    PerformAllKeepsGood(fmt, CONNECTED, acts);
  }

  // ---- What the line can do ---------------------------------------------------

  /** A frame of ours can vanish, or arrive corrupt in its place, and nothing else changes; so at either end. */
  lemma LineActs(fmt: Format, l: Link, k: nat)
    ensures k < |l.ab| ==>
      && Perform(fmt, l, Act(A, Vanish(k))) == l.(ab := l.ab[..k] + l.ab[k + 1..])
      && Perform(fmt, l, Act(A, Corrupted(k))) == l.(ab := l.ab[..k] + [Packet(Corrupt, 0)] + l.ab[k + 1..])
    ensures k < |l.ba| ==>
      && Perform(fmt, l, Act(B, Vanish(k))) == l.(ba := l.ba[..k] + l.ba[k + 1..])
      && Perform(fmt, l, Act(B, Corrupted(k))) == l.(ba := l.ba[..k] + [Packet(Corrupt, 0)] + l.ba[k + 1..])
  {}
}
