/**
 How late a delayed write may be. In the concurrent session a frame is captured under one lock
 and written later under another, so an old frame can reach the wire after newer ones.
 */
module Staleness {
  import opened Bytes
  import opened Frames
  import opened Endpoints
  import opened Links

  /** The copy at the head is 64, 128, ... messages old and does not happen to equal the expected message. */
  ghost predicate Mistaken(s: Node, r: Node, fwd: seq<Packet>) {
    && !SafeHead(fwd, |r.delivered|)
    && (|r.delivered| >= |s.sent| || fwd[0].frame.msg != s.sent[|r.delivered|])
  }

  /** Exactly when one reception breaks the protocol: it delivers a message that is not the next one. */
  lemma ReceiveIsSafeExactly(l: Link)
    requires Inv(l)
    ensures Inv(StepA(l, Receive)) <==> !Mistaken(l.b, l.a, l.ba)
  {
    if SafeHead(l.ba, |l.a.delivered|) {
      StepKeepsInv(l, Receive);
    } else {
      ReceiveAsSender(l.a, l.b, l.ab, l.ba);
      StaleCopyIsDelivered(l);
      if |l.a.delivered| < |l.b.sent| && l.ba[0].frame.msg == l.b.sent[|l.a.delivered|] {
        TwinIsHarmless(l);
      }
    }
  }

  lemma StaleCopyIsDelivered(l: Link)
    requires Inv(l) && !SafeHead(l.ba, |l.a.delivered|)
    ensures StepA(l, Receive).a.delivered == l.a.delivered + [l.ba[0].frame.msg]
    ensures StepA(l, Receive).b == l.b
  {
    CopiesAreTold(l.a.ep, l.b.sent, l.ba[0], |l.a.delivered|);
  }

  /** An old copy with the same content as the expected message stands in for it. */
  lemma TwinIsHarmless(l: Link)
    requires Inv(l) && !SafeHead(l.ba, |l.a.delivered|)
    requires |l.a.delivered| < |l.b.sent| && l.ba[0].frame.msg == l.b.sent[|l.a.delivered|]
    ensures Half(l.b, StepA(l, Receive).a, StepA(l, Receive).ba, StepA(l, Receive).ab)
  {
    var d := |l.a.delivered|;
    CopiesAreTold(l.a.ep, l.b.sent, l.ba[0], d);
    hide React;
    var l' := StepA(l, Receive);
    assert l.b.sent[..d + 1] == l.b.sent[..d] + [l.b.sent[d]];
    assert AcksInOrder(l'.ab, |l.b.sent|, d + 1, l.b.ep.awaitingAck);
  }

  // ---- Whole runs -------------------------------------------------------------

  ghost predicate MistakenMove(l: Link, m: Move) {
    m.step.Receive? && match m.side
      case A => Mistaken(l.b, l.a, l.ba)
      case B => Mistaken(l.a, l.b, l.ab)
  }

  ghost predicate NeverMistaken(l: Link, moves: seq<Move>)
    decreases |moves|
  {
    moves == [] || (!MistakenMove(l, moves[0]) && NeverMistaken(Apply(l, moves[0]), moves[1..]))
  }

  ghost predicate InOrder(l: Link) {
    DeliveredInOrder(l.a, l.b) && DeliveredInOrder(l.b, l.a)
  }

  /** A mistaken reception is seen at once: what is delivered is no longer a beginning of what was sent. */
  lemma MistakenIsOutOfOrder(l: Link)
    requires Inv(l) && Mistaken(l.b, l.a, l.ba)
    ensures !DeliveredInOrder(StepA(l, Receive).b, StepA(l, Receive).a)
  {
    StaleCopyIsDelivered(l);
    hide StepA, Half;
  }

  lemma InvIsInOrder(l: Link)
    requires Inv(l)
    ensures InOrder(l)
  {}

  lemma MoveIsInOrderExactly(l: Link, m: Move)
    requires Inv(l)
    ensures InOrder(Apply(l, m)) <==> !MistakenMove(l, m)
    ensures !MistakenMove(l, m) ==> Inv(Apply(l, m))
  {
    hide Half, StepA, Mistaken;
    var seen := if m.side == A then l else l.Flip();
    if !m.step.Receive? {
      MoveKeepsInv(l, m);
    } else if MistakenMove(l, m) {
      MistakenIsOutOfOrder(seen);
    } else {
      ReceiveIsSafeExactly(seen);
    }
    if Inv(Apply(l, m)) {
      InvIsInOrder(Apply(l, m));
    }
  }

  /**
   Both directions are delivered in order and once each at every moment of a run if and only if no
   reception in it is mistaken.
   */
  lemma {:induction false} RunIsInOrderExactly(l: Link, moves: seq<Move>)
    requires Inv(l)
    ensures (forall k :: 0 <= k <= |moves| ==> InOrder(Run(l, moves[..k]))) <==> NeverMistaken(l, moves)
    decreases |moves|
  {
    hide InOrder, Half, Apply, MistakenMove;
    InvIsInOrder(l);
    if moves == [] {
      assert forall k :: 0 <= k <= |moves| ==> moves[..k] == [];
    } else {
      var next, rest := Apply(l, moves[0]), moves[1..];
      MoveIsInOrderExactly(l, moves[0]);
      forall k | 1 <= k <= |moves| ensures Run(l, moves[..k]) == Run(next, rest[..k - 1]) {
        assert moves[..k][0] == moves[0] && moves[..k][1..] == rest[..k - 1];
      }
      assert moves[..0] == [] && rest[..0] == [];
      if MistakenMove(l, moves[0]) {
        assert !InOrder(Run(l, moves[..1]));
      } else {
        RunIsInOrderExactly(next, rest);
        assert forall k :: 0 <= k <= |rest| ==> Run(next, rest[..k]) == Run(l, moves[..k + 1]);
      }
    }
  }

  // ---- A write that is 64 messages late ---------------------------------------

  /** One message through: captured, written behind whatever is already captured, received, its ACK received. */
  function Exchange(m: Message): seq<Move> {
    [Move(A, Capture(m)), Move(A, WriteOut(1)), Move(B, Receive), Move(A, Receive)]
  }

  function Exchanges(m: Message, k: nat): seq<Move> {
    if k == 0 then [] else Exchange(m) + Exchanges(m, k - 1)
  }

  function Repeated(m: Message, k: nat): (r: seq<Message>)
    ensures |r| == k
  {
    seq(k, i => m)
  }

  /** `k` messages through, with a copy of the first still waiting to be written. */
  function Behind(m: Message, k: nat): Link
    requires k > 0
  {
    var ep := Endpoint((k - 1) % SEQUENCES, 0, false, false, Some(m));
    Link(Node(ep, Repeated(m, k), [], [Packet(Data(0, m), 0)]),
         Node(FRESH.(expectedRxSeq := k % SEQUENCES), [], Repeated(m, k), []), [], [])
  }

  lemma RunOfSum(l: Link, s: seq<Move>, t: seq<Move>)
    ensures Run(l, s + t) == Run(Run(l, s), t)
    decreases |s|
  {
    if s == [] {
      assert s + t == t;
    } else {
      assert (s + t)[1..] == s[1..] + t;
      RunOfSum(Apply(l, s[0]), s[1..], t);
    }
  }

  /** The middle of a round: message number `k` is on the wire. */
  function Midway(m: Message, k: nat): Link
    requires k > 0
  {
    var ep := Endpoint(k % SEQUENCES, 0, true, false, Some(m));
    Link(Node(ep, Repeated(m, k + 1), [], [Packet(Data(0, m), 0)]),
         Node(FRESH.(expectedRxSeq := k % SEQUENCES), [], Repeated(m, k), []),
         [Packet(Data(k % SEQUENCES, m), k)], [])
  }

  lemma FirstHalfOfExchange(m: Message, k: nat)
    requires k > 0
    ensures Run(Behind(m, k), [Move(A, Capture(m)), Move(A, WriteOut(1))]) == Midway(m, k)
  {
    var l1 := Apply(Behind(m, k), Move(A, Capture(m)));
    assert ((k - 1) % SEQUENCES + 1) % SEQUENCES == k % SEQUENCES;
    assert l1.a.sent == Repeated(m, k + 1);
    var p := Packet(Data(k % SEQUENCES, m), k);
    assert l1.a.pending == [Packet(Data(0, m), 0), p];
    var l2 := Apply(l1, Move(A, WriteOut(1)));
    assert l2.a.pending == [Packet(Data(0, m), 0)] && l2.ab == [p];
    RunOfTwo(Behind(m, k), Move(A, Capture(m)), Move(A, WriteOut(1)));
  }

  lemma SecondHalfOfExchange(m: Message, k: nat)
    requires k > 0
    ensures Run(Midway(m, k), [Move(B, Receive), Move(A, Receive)]) == Behind(m, k + 1)
  {
    var l3 := Apply(Midway(m, k), Move(B, Receive));
    assert (k % SEQUENCES + 1) % SEQUENCES == (k + 1) % SEQUENCES;
    assert l3.b.delivered == Repeated(m, k + 1);
    assert l3.ab == [] && l3.ba == [Packet(Ack(k % SEQUENCES), k)];
    RunOfTwo(Midway(m, k), Move(B, Receive), Move(A, Receive));
  }

  lemma RunOfTwo(l: Link, x: Move, y: Move)
    ensures Run(l, [x, y]) == Apply(Apply(l, x), y)
  {
    assert [x, y][1..] == [y] && [y][1..] == [];
    assert Run(Apply(l, x), [y]) == Apply(Apply(l, x), y);
  }

  lemma OneExchange(m: Message, k: nat)
    requires k > 0
    ensures Run(Behind(m, k), Exchange(m)) == Behind(m, k + 1)
  {
    var first, second := [Move(A, Capture(m)), Move(A, WriteOut(1))], [Move(B, Receive), Move(A, Receive)];
    assert Exchange(m) == first + second;
    RunOfSum(Behind(m, k), first, second);
    FirstHalfOfExchange(m, k);
    SecondHalfOfExchange(m, k);
  }

  lemma {:induction false} ManyExchanges(m: Message, k: nat, n: nat)
    requires k > 0
    ensures Run(Behind(m, k), Exchanges(m, n)) == Behind(m, k + n)
    decreases n
  {
    if n > 0 {
      RunOfSum(Behind(m, k), Exchange(m), Exchanges(m, n - 1));
      OneExchange(m, k);
      ManyExchanges(m, k + 1, n - 1);
    }
  }

  /** A first message sent twice over, only one of the two copies written. */
  function Start(m: Message): seq<Move> {
    [Move(A, Capture(m)), Move(A, Recapture)] + [Move(A, WriteOut(0)), Move(B, Receive)] + [Move(A, Receive)]
  }

  /** The first message captured twice. */
  function CapturedTwice(m: Message): Link {
    var p := Packet(Data(0, m), 0);
    CONNECTED.(a := Node(Endpoint(0, 0, true, false, Some(m)), [m], [], [p, p]))
  }

  /** One copy written and delivered, its ACK on the way back. */
  function OneDelivered(m: Message): Link {
    Link(Node(Endpoint(0, 0, true, false, Some(m)), [m], [], [Packet(Data(0, m), 0)]),
         Node(FRESH.(expectedRxSeq := 1), [], [m], []), [], [Packet(Ack(0), 0)])
  }

  lemma FirstSteps(m: Message)
    ensures Run(CONNECTED, [Move(A, Capture(m)), Move(A, Recapture)]) == CapturedTwice(m)
  {
    RunOfTwo(CONNECTED, Move(A, Capture(m)), Move(A, Recapture));
  }

  lemma NextSteps(m: Message)
    ensures Run(CapturedTwice(m), [Move(A, WriteOut(0)), Move(B, Receive)]) == OneDelivered(m)
  {
    var p := Packet(Data(0, m), 0);
    RunOfTwo(CapturedTwice(m), Move(A, WriteOut(0)), Move(B, Receive));
    var l := Apply(CapturedTwice(m), Move(A, WriteOut(0)));
    assert Remove([p, p], 0) == [p];
    assert l == CapturedTwice(m).(a := CapturedTwice(m).a.(pending := [p]), ab := [p]);
  }

  lemma StartLeavesACopyBehind(m: Message)
    ensures Run(CONNECTED, Start(m)) == Behind(m, 1)
  {
    var s1, s2 := [Move(A, Capture(m)), Move(A, Recapture)], [Move(A, WriteOut(0)), Move(B, Receive)];
    RunOfSum(CONNECTED, s1 + s2, [Move(A, Receive)]);
    RunOfSum(CONNECTED, s1, s2);
    FirstSteps(m);
    NextSteps(m);
    assert Repeated(m, 1) == [m];
  }

  /** The first message, 63 more, and then the write that was left behind. */
  function LateRun(m: Message): seq<Move> {
    Start(m) + Exchanges(m, 63) + [Move(A, WriteOut(0)), Move(B, Receive)]
  }

  /** A write that arrives 64 messages late is delivered a second time: more comes out than went in. */
  lemma SixtyFourLateIsDeliveredTwice(m: Message)
    ensures var l := Run(CONNECTED, LateRun(m));
      |l.a.sent| == 64 && |l.b.delivered| == 65 && !DeliveredInOrder(l.a, l.b)
  {
    var last := [Move(A, WriteOut(0)), Move(B, Receive)];
    RunOfSum(CONNECTED, Start(m) + Exchanges(m, 63), last);
    RunOfSum(CONNECTED, Start(m), Exchanges(m, 63));
    StartLeavesACopyBehind(m);
    ManyExchanges(m, 1, 63);
    LastWriteIsDelivered(m);
  }

  lemma LastWriteIsDelivered(m: Message)
    ensures var l := Run(Behind(m, 64), [Move(A, WriteOut(0)), Move(B, Receive)]);
      l.a.sent == Repeated(m, 64) && |l.b.delivered| == 65
  {
    RunOfTwo(Behind(m, 64), Move(A, WriteOut(0)), Move(B, Receive));
    var l1 := Apply(Behind(m, 64), Move(A, WriteOut(0)));
    assert l1.ab == [Packet(Data(0, m), 0)];
  }
}
