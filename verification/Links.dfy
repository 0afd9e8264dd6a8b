/**
 Two endpoints and the two FIFO channels between them, as a transition system of small steps.
 Capturing a frame and writing it are separate steps, because in the concurrent session they
 are; an engine that does both at once is two steps in a row. Every packet carries the index
 of its message, which no endpoint can see.
 */
module Links {
  import opened Bytes
  import opened Frames
  import opened Endpoints

  /** A frame in flight. `index` numbers the message that a data frame or an ACK is about. */
  datatype Packet = Packet(frame: Frame, index: nat)

  /**
   One end: its ARQ state, the messages it accepted for sending and delivered, the frames captured but
   not yet written.
   */
  datatype Node = Node(ep: Endpoint, sent: seq<Message>, delivered: seq<Message>, pending: seq<Packet>)

  datatype Link = Link(a: Node, b: Node, ab: seq<Packet>, ba: seq<Packet>) {
    /** The same link seen from the other end. */
    function Flip(): Link {
      Link(b, a, ba, ab)
    }
  }

  const UNUSED := Node(FRESH, [], [], [])
  const CONNECTED := Link(UNUSED, UNUSED, [], [])

  datatype Step =
    | Capture(m: Message)    // stamp a message and build its frame
    | Recapture              // take the outstanding frame again
    | WriteOut(k: nat)       // put a captured frame on the wire
    | Receive                // handle the next arriving frame
    | Lose(k: nat)           // a frame of ours vanishes on the way
    | Garble(k: nat)         // a frame of ours arrives corrupt

  datatype Side = A | B
  datatype Move = Move(side: Side, step: Step)

  function Remove<T>(s: seq<T>, k: nat): (r: seq<T>)
    requires k < |s|
  {
    s[..k] + s[k + 1..]
  }

  /** The answer of a receiver; an ACK is about the message it is delivering or has delivered last. */
  function Answer(n: Node, f: Frame): seq<Packet> {
    var r, d := React(n.ep, f), |n.delivered|;
    match r.reply
    case None => []
    case Some(reply) => [Packet(reply, if r.outcome.Deliver? || d == 0 then d else d - 1)]
  }

  function Receiver(n: Node, p: Packet): Node {
    var r := React(n.ep, p.frame);
    n.(ep := r.ep, delivered := if r.outcome.Deliver? then n.delivered + [r.outcome.msg] else n.delivered)
  }

  /** A step of end A; a step that is not enabled changes nothing. */
  function StepA(l: Link, s: Step): Link {
    match s
    case Capture(m) =>
      if l.a.ep.awaitingAck then l
      else
        var ep := Stamp(l.a.ep, m);
        l.(a := l.a.(ep := ep, sent := l.a.sent + [m],
                     pending := l.a.pending + [Packet(Outstanding(ep), |l.a.sent|)]))
    case Recapture =>
      if l.a.ep.awaitingAck && l.a.ep.retained.Some? && l.a.sent != []
      then l.(a := l.a.(pending := l.a.pending + [Packet(Outstanding(l.a.ep), |l.a.sent| - 1)]))
      else l
    case WriteOut(k) =>
      if k < |l.a.pending|
      then l.(a := l.a.(pending := Remove(l.a.pending, k)), ab := l.ab + [l.a.pending[k]])
      else l
    case Receive =>
      if l.ba == [] then l
      else l.(a := Receiver(l.a, l.ba[0]), ba := l.ba[1..], ab := l.ab + Answer(l.a, l.ba[0].frame))
    case Lose(k) => if k < |l.ab| then l.(ab := Remove(l.ab, k)) else l
    case Garble(k) => if k < |l.ab| then l.(ab := l.ab[k := Packet(Corrupt, 0)]) else l
  }

  function Apply(l: Link, m: Move): Link {
    match m.side
    case A => StepA(l, m.step)
    case B => StepA(l.Flip(), m.step).Flip()
  }

  function Run(l: Link, moves: seq<Move>): Link
    decreases |moves|
  {
    if moves == [] then l else Run(Apply(l, moves[0]), moves[1..])
  }

  // ---- The invariant ----------------------------------------------------------

  /** A copy of message `p.index`, under its number modulo 64. */
  predicate IsCopy(sent: seq<Message>, p: Packet) {
    p.index < |sent| && p.frame == Data(p.index % SEQUENCES, sent[p.index])
  }

  /**
   The ACKs on their way to a sender of `n` messages of which `d` are delivered: copies of the
   ACK for the message before the last, then copies of the one for the last, which exist only
   once the last is delivered and are the only ones left when it is no longer awaited.
   */
  ghost predicate AcksInOrder(back: seq<Packet>, n: nat, d: nat, awaiting: bool) {
    && (forall i :: 0 <= i < |back| && back[i].frame.Ack? ==>
          && back[i].frame.seq6 == back[i].index % SEQUENCES
          && back[i].index < n <= back[i].index + 2
          && (back[i].index + 1 == n ==> d == n)
          && (!awaiting ==> back[i].index + 1 == n))
    && (forall i, j :: 0 <= i < j < |back| && back[i].frame.Ack? && back[j].frame.Ack? ==>
          back[i].index <= back[j].index)
  }

  /** Data flowing from `s` to `r`: `fwd` carries the data, `back` the ACKs. */
  ghost predicate Half(s: Node, r: Node, fwd: seq<Packet>, back: seq<Packet>) {
    var n, d := |s.sent|, |r.delivered|;
    && s.ep.txSeq == (n + 63) % SEQUENCES
    && r.ep.expectedRxSeq == d % SEQUENCES
    && d <= n <= d + 1 && r.delivered == s.sent[..d]
    && (n == d + 1 ==> s.ep.awaitingAck)
    && (s.ep.awaitingAck ==> n > 0 && s.ep.retained == Some(s.sent[n - 1]))
    && (forall p :: p in s.pending ==> IsCopy(s.sent, p))
    && (forall i :: 0 <= i < |fwd| && fwd[i].frame.Data? ==> IsCopy(s.sent, fwd[i]))
    && AcksInOrder(back, n, d, s.ep.awaitingAck)
  }

  ghost predicate Inv(l: Link) {
    Half(l.a, l.b, l.ab, l.ba) && Half(l.b, l.a, l.ba, l.ab)
  }

  /**
   The data frame that a receiver with `d` deliveries is about to handle is the expected one,
   or its number is not 64, 128, 192, ... behind the expected one.
   */
  predicate SafeHead(fwd: seq<Packet>, d: nat) {
    fwd != [] && fwd[0].frame.Data? && fwd[0].index < d ==> (d - fwd[0].index) % SEQUENCES != 0
  }

  predicate SafeMove(l: Link, m: Move) {
    m.step.Receive? ==> match m.side
      case A => SafeHead(l.ba, |l.a.delivered|)
      case B => SafeHead(l.ab, |l.b.delivered|)
  }

  predicate SafeRun(l: Link, moves: seq<Move>)
    decreases |moves|
  {
    moves == [] || (SafeMove(l, moves[0]) && SafeRun(Apply(l, moves[0]), moves[1..]))
  }

  // ---- Each step keeps it -----------------------------------------------------

  /** Of the last two messages, only the last has the sender's number. */
  lemma LastIsTold(i: nat, n: nat)
    requires i < n <= i + 2
    ensures i % SEQUENCES == (n + 63) % SEQUENCES <==> i + 1 == n
  {}

  lemma SameNumber(i: nat, d: nat)
    requires i <= d
    ensures i % SEQUENCES == d % SEQUENCES <==> (d - i) % SEQUENCES == 0
  {}

  lemma PreviousNumber(d: nat)
    requires d > 0
    ensures (d % SEQUENCES + 63) % SEQUENCES == (d - 1) % SEQUENCES
  {}

  lemma NextNumber(d: nat)
    ensures (d % SEQUENCES + 1) % SEQUENCES == (d + 1) % SEQUENCES
  {}

  /**
   The 6-bit test in terms of message numbers. A receiver with `d` deliveries delivers a copy of
   message `p.index` exactly when that is a multiple of 64 behind `d`, acknowledges it again
   exactly when it is a multiple of 64 behind `d - 1`, and asks for number `d` otherwise.
   */
  lemma CopiesAreTold(ep: Endpoint, sent: seq<Message>, p: Packet, d: nat)
    requires ep.expectedRxSeq == d % SEQUENCES
    requires IsCopy(sent, p) && p.index <= d
    ensures React(ep, p.frame)
            == if (d - p.index) % SEQUENCES == 0 then
                 Reaction(ep.(expectedRxSeq := (d + 1) % SEQUENCES), Some(Ack(d % SEQUENCES)), Deliver(sent[p.index]))
               else if (d - 1 - p.index) % SEQUENCES == 0 then Reaction(ep, Some(Ack((d - 1) % SEQUENCES)), Nothing)
               else Reaction(ep, Some(Nack(d % SEQUENCES)), Nothing)
  {
    SameNumber(p.index, d);
    NextNumber(d);
    if p.index < d {
      SameNumber(p.index, d - 1);
      PreviousNumber(d);
    }
  }

  /** The receiving end, towards the data it receives. */
  lemma ReceiveAsReceiver(s: Node, r: Node, fwd: seq<Packet>, back: seq<Packet>)
    requires Half(s, r, fwd, back) && fwd != [] && SafeHead(fwd, |r.delivered|)
    ensures Half(s, Receiver(r, fwd[0]), fwd[1..], back + Answer(r, fwd[0].frame))
  {
    if fwd[0].frame.Data? {
      ReceiveCopy(s, r, fwd, back);
    }
  }

  lemma ReceiveCopy(s: Node, r: Node, fwd: seq<Packet>, back: seq<Packet>)
    requires Half(s, r, fwd, back) && fwd != [] && SafeHead(fwd, |r.delivered|) && fwd[0].frame.Data?
    ensures Half(s, Receiver(r, fwd[0]), fwd[1..], back + Answer(r, fwd[0].frame))
  {
    var p, d, n := fwd[0], |r.delivered|, |s.sent|;
    assert IsCopy(s.sent, p);
    CopiesAreTold(r.ep, s.sent, p, d);
    hide React;
    var r', back' := Receiver(r, p), back + Answer(r, p.frame);
    assert p.index == d ==> s.sent[..d + 1] == s.sent[..d] + [s.sent[d]];
    assert AcksInOrder(back', n, |r'.delivered|, s.ep.awaitingAck);
  }

  /** The receiving end, towards the ACKs for what it sends. */
  lemma ReceiveAsSender(s: Node, r: Node, fwd: seq<Packet>, back: seq<Packet>)
    requires Half(s, r, fwd, back) && back != []
    ensures Half(Receiver(s, back[0]), r, fwd + Answer(s, back[0].frame), back[1..])
  {
    if back[0].frame.Ack? {
      AckIsRead(s, r, fwd, back);
    }
  }

  lemma AckIsRead(s: Node, r: Node, fwd: seq<Packet>, back: seq<Packet>)
    requires Half(s, r, fwd, back) && back != [] && back[0].frame.Ack?
    ensures Half(Receiver(s, back[0]), r, fwd + Answer(s, back[0].frame), back[1..])
  {
    var p, n := back[0], |s.sent|;
    LastIsTold(p.index, n);
    var s' := Receiver(s, p);
    assert s' == s.(ep := s'.ep) && s'.ep.txSeq == s.ep.txSeq && s'.ep.retained == s.ep.retained;
    assert !s'.ep.awaitingAck ==> !s.ep.awaitingAck || p.index + 1 == n;
    assert fwd + Answer(s, p.frame) == fwd;
  }

  lemma CopiesStay(sent: seq<Message>, m: Message)
    ensures forall p :: IsCopy(sent, p) ==> IsCopy(sent + [m], p)
  {}

  lemma CaptureKeepsHalf(l: Link, m: Message)
    requires Half(l.a, l.b, l.ab, l.ba)
    ensures var l' := StepA(l, Capture(m)); Half(l'.a, l'.b, l'.ab, l'.ba)
  {
    if !l.a.ep.awaitingAck {
      var n := |l.a.sent|;
      assert ((n + 63) % SEQUENCES + 1) % SEQUENCES == n % SEQUENCES == (n + 1 + 63) % SEQUENCES;
      CopiesStay(l.a.sent, m);
    }
  }

  lemma RecaptureKeepsHalf(l: Link)
    requires Half(l.a, l.b, l.ab, l.ba)
    ensures var l' := StepA(l, Recapture); Half(l'.a, l'.b, l'.ab, l'.ba)
  {
    var n := |l.a.sent|;
    if l.a.ep.awaitingAck {
      assert (n + 63) % SEQUENCES == (n - 1) % SEQUENCES;
      assert IsCopy(l.a.sent, Packet(Outstanding(l.a.ep), n - 1));
    }
  }

  lemma WriteOutKeepsHalf(l: Link, k: nat)
    requires Half(l.a, l.b, l.ab, l.ba)
    ensures var l' := StepA(l, WriteOut(k)); Half(l'.a, l'.b, l'.ab, l'.ba)
  {
    if k < |l.a.pending| {
      var p := l.a.pending[k];
      assert p in l.a.pending && IsCopy(l.a.sent, p);
      assert forall q :: q in Remove(l.a.pending, k) ==> q in l.a.pending;
    }
  }

  /** A channel that loses a frame carries what it carried before. */
  lemma RemoveKeepsOrder(s: seq<Packet>, k: nat)
    requires k < |s|
    ensures forall i :: 0 <= i < |s| - 1 ==> Remove(s, k)[i] == s[if i < k then i else i + 1]
  {}

  /** The data that this end sends: no step of ours can spoil it, not even receiving. */
  lemma StepKeepsOwnHalf(l: Link, s: Step)
    requires Half(l.a, l.b, l.ab, l.ba)
    ensures var l' := StepA(l, s); Half(l'.a, l'.b, l'.ab, l'.ba)
  {
    match s
    case Capture(m) => CaptureKeepsHalf(l, m);
    case Recapture => RecaptureKeepsHalf(l);
    case WriteOut(k) => WriteOutKeepsHalf(l, k);
    case Receive => if l.ba != [] { ReceiveAsSender(l.a, l.b, l.ab, l.ba); }
    case Lose(k) => if k < |l.ab| { RemoveKeepsOrder(l.ab, k); }
    case Garble(k) =>
  }

  /** Only data frames are ever captured. */
  predicate HoldsData(n: Node) {
    forall p :: p in n.pending ==> p.frame.Data?
  }

  /** What this end sends matters to the data coming in only through its ACKs. */
  lemma OnlyAcksMatter(l: Link, l': Link)
    requires Half(l.b, l.a, l.ba, l.ab)
    requires l'.b == l.b && l'.ba == l.ba
    requires l'.a.delivered == l.a.delivered && l'.a.ep.expectedRxSeq == l.a.ep.expectedRxSeq
    requires AcksInOrder(l.ab, |l.b.sent|, |l.a.delivered|, l.b.ep.awaitingAck) ==>
      AcksInOrder(l'.ab, |l.b.sent|, |l.a.delivered|, l.b.ep.awaitingAck)
    ensures Half(l'.b, l'.a, l'.ba, l'.ab)
  {}

  lemma AcksSurviveLoss(back: seq<Packet>, k: nat, n: nat, d: nat, awaiting: bool)
    requires AcksInOrder(back, n, d, awaiting) && k < |back|
    ensures AcksInOrder(Remove(back, k), n, d, awaiting)
    ensures AcksInOrder(back[k := Packet(Corrupt, 0)], n, d, awaiting)
  {
    RemoveKeepsOrder(back, k);
  }

  lemma AcksBeforeData(back: seq<Packet>, p: Packet, n: nat, d: nat, awaiting: bool)
    requires AcksInOrder(back, n, d, awaiting) && p.frame.Data?
    ensures AcksInOrder(back + [p], n, d, awaiting)
  {}

  /** The data sent to this end: only receiving an old frame can spoil it. */
  lemma StepKeepsOtherHalf(l: Link, s: Step)
    requires HoldsData(l.a)
    requires Half(l.b, l.a, l.ba, l.ab) && (s.Receive? ==> SafeHead(l.ba, |l.a.delivered|))
    ensures var l' := StepA(l, s); Half(l'.b, l'.a, l'.ba, l'.ab)
  {
    hide Half, AcksInOrder, Remove;
    var n, d, awaiting := |l.b.sent|, |l.a.delivered|, l.b.ep.awaitingAck;
    if s.Receive? {
      if l.ba != [] {
        ReceiveAsReceiver(l.b, l.a, l.ba, l.ab);
      }
    } else {
      if AcksInOrder(l.ab, n, d, awaiting) {
        match s
        case WriteOut(k) =>
          if k < |l.a.pending| {
            assert l.a.pending[k] in l.a.pending;
            AcksBeforeData(l.ab, l.a.pending[k], n, d, awaiting);
          }
        case Lose(k) => if k < |l.ab| { AcksSurviveLoss(l.ab, k, n, d, awaiting); }
        case Garble(k) => if k < |l.ab| { AcksSurviveLoss(l.ab, k, n, d, awaiting); }
        case _ =>
      }
      OnlyAcksMatter(l, StepA(l, s));
    }
  }

  lemma StepKeepsInv(l: Link, s: Step)
    requires Inv(l) && (s.Receive? ==> SafeHead(l.ba, |l.a.delivered|))
    ensures Inv(StepA(l, s))
  {
    assert forall p :: p in l.a.pending ==> IsCopy(l.a.sent, p);
    StepKeepsOwnHalf(l, s);
    StepKeepsOtherHalf(l, s);
    hide Half, StepA;
  }

  lemma MoveKeepsInv(l: Link, m: Move)
    requires Inv(l) && SafeMove(l, m)
    ensures Inv(Apply(l, m))
  {
    match m.side
    case A => StepKeepsInv(l, m.step);
    case B => StepKeepsInv(l.Flip(), m.step);
  }

  // ---- Delivery ---------------------------------------------------------------

  /** What `r` has delivered is what `s` sent, in order and once each, but for at most the message still awaited. */
  ghost predicate DeliveredInOrder(s: Node, r: Node) {
    && r.delivered <= s.sent
    && |s.sent| <= |r.delivered| + 1
    && (!s.ep.awaitingAck ==> r.delivered == s.sent)
  }

  /**
   Exactly-once, in-order delivery in both directions at once: for every interleaving of
   captures, delayed writes, receptions, losses and corruptions in which no data frame is
   received exactly 64, 128, 192, ... messages late.
   */
  lemma SafeRunsDeliverInOrder(moves: seq<Move>)
    requires SafeRun(CONNECTED, moves)
    ensures var l := Run(CONNECTED, moves);
      Inv(l) && DeliveredInOrder(l.a, l.b) && DeliveredInOrder(l.b, l.a)
  {
    RunKeepsInv(CONNECTED, moves);
  }

  lemma {:induction false} RunKeepsInv(l: Link, moves: seq<Move>)
    requires Inv(l) && SafeRun(l, moves)
    ensures Inv(Run(l, moves))
    decreases |moves|
  {
    if moves != [] {
      MoveKeepsInv(l, moves[0]);
      RunKeepsInv(Apply(l, moves[0]), moves[1..]);
    }
  }

  // ---- What the line can do ---------------------------------------------------

  /** `t` is `s` with some frames gone and some arriving corrupt. */
  ghost predicate Spoilt(s: seq<Packet>, t: seq<Packet>)
    decreases |s|
  {
    if s == [] then t == []
    else
      || Spoilt(s[1..], t)
      || (t != [] && (t[0] == s[0] || t[0] == Packet(Corrupt, 0)) && Spoilt(s[1..], t[1..]))
  }

  predicate LineOnly(moves: seq<Move>) {
    forall m :: m in moves ==> m.side == A && (m.step.Lose? || m.step.Garble?)
  }

  lemma {:induction false} Unspoilt(s: seq<Packet>)
    ensures Spoilt(s, s)
  {
    if s != [] {
      Unspoilt(s[1..]);
    }
  }

  lemma {:induction false} SpoiltTwice(s: seq<Packet>, t: seq<Packet>, u: seq<Packet>)
    requires Spoilt(s, t) && Spoilt(t, u)
    ensures Spoilt(s, u)
    decreases |s|
  {
    if s != [] {
      if Spoilt(s[1..], t) {
        SpoiltTwice(s[1..], t, u);
      } else if Spoilt(t[1..], u) {
        SpoiltTwice(s[1..], t[1..], u);
      } else {
        SpoiltTwice(s[1..], t[1..], u[1..]);
      }
    }
  }

  lemma {:induction false} OneFrameIsSpoilt(before: seq<Packet>, p: Packet, behind: seq<Packet>)
    ensures Spoilt(before + [p] + behind, before + behind)
    ensures Spoilt(before + [p] + behind, before + [Packet(Corrupt, 0)] + behind)
  {
    var s, c := before + [p] + behind, Packet(Corrupt, 0);
    if before == [] {
      Unspoilt(behind);
      assert s[0] == p && s[1..] == behind && before + behind == behind;
      assert ([] + [c] + behind)[0] == c && ([] + [c] + behind)[1..] == behind;
    } else {
      OneFrameIsSpoilt(before[1..], p, behind);
      assert s[0] == before[0] && s[1..] == before[1..] + [p] + behind;
      assert (before + behind)[0] == before[0] && (before + behind)[1..] == before[1..] + behind;
      assert (before + [c] + behind)[1..] == before[1..] + [c] + behind;
    }
  }

  lemma LineStepSpoils(l: Link, s: Step)
    requires s.Lose? || s.Garble?
    ensures StepA(l, s) == l.(ab := StepA(l, s).ab) && Spoilt(l.ab, StepA(l, s).ab)
  {
    Unspoilt(l.ab);
    if s.k < |l.ab| {
      var before, behind := l.ab[..s.k], l.ab[s.k + 1..];
      OneFrameIsSpoilt(before, l.ab[s.k], behind);
      assert l.ab == before + [l.ab[s.k]] + behind;
      assert l.ab[s.k := Packet(Corrupt, 0)] == before + [Packet(Corrupt, 0)] + behind;
      hide Spoilt;
    }
  }

  lemma {:induction false} LineRunSpoils(l: Link, moves: seq<Move>)
    requires LineOnly(moves)
    ensures Run(l, moves) == l.(ab := Run(l, moves).ab) && Spoilt(l.ab, Run(l, moves).ab)
    decreases |moves|
  {
    if moves == [] {
      Unspoilt(l.ab);
    } else {
      assert moves[0] in moves;
      var next := Apply(l, moves[0]);
      LineStepSpoils(l, moves[0].step);
      LineRunSpoils(next, moves[1..]);
      SpoiltTwice(l.ab, next.ab, Run(l, moves).ab);
    }
  }

  /** Step by step from the front, behind the frames `done` that are as they are to be. */
  lemma {:induction false} SpoilFrom(l: Link, done: seq<Packet>, s: seq<Packet>, t: seq<Packet>)
      returns (moves: seq<Move>)
    requires l.ab == done + s && Spoilt(s, t)
    ensures LineOnly(moves) && Run(l, moves) == l.(ab := done + t)
    decreases |s|
  {
    var k := |done|;
    if s == [] {
      moves := [];
    } else if Spoilt(s[1..], t) {
      var next := StepA(l, Lose(k));
      assert next.ab == done + s[1..];
      var rest := SpoilFrom(next, done, s[1..], t);
      moves := [Move(A, Lose(k))] + rest;
    } else if t[0] == s[0] {
      assert done + s == (done + [s[0]]) + s[1..] && done + t == (done + [t[0]]) + t[1..];
      moves := SpoilFrom(l, done + [s[0]], s[1..], t[1..]);
    } else {
      var next := StepA(l, Garble(k));
      assert next.ab == (done + [t[0]]) + s[1..];
      assert done + t == (done + [t[0]]) + t[1..];
      var rest := SpoilFrom(next, done + [t[0]], s[1..], t[1..]);
      moves := [Move(A, Garble(k))] + rest;
    }
  }

  /** The line can lose any of the frames and corrupt any of them, and can do nothing else. */
  lemma LineSpoilsExactly(l: Link, t: seq<Packet>)
    ensures Spoilt(l.ab, t) <==> exists moves :: LineOnly(moves) && Run(l, moves) == l.(ab := t)
  {
    if Spoilt(l.ab, t) {
      var moves := SpoilFrom(l, [], l.ab, t);
      assert [] + t == t;
      assert LineOnly(moves) && Run(l, moves) == l.(ab := t);
    }
    if moves :| LineOnly(moves) && Run(l, moves) == l.(ab := t) {
      LineRunSpoils(l, moves);
    }
  }

  /** End B's moves are end A's, with the two ends and the two channels exchanged. */
  lemma EndsAreAlike(l: Link, s: Step)
    ensures var x, y := Apply(Link(l.b, l.a, l.ba, l.ab), Move(A, s)), Apply(l, Move(B, s));
      y == Link(x.b, x.a, x.ba, x.ab)
  {}
}
