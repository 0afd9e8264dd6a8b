/** Delivery is reached: draining a lossless line terminates, and one resend then completes the outstanding frame. */
module Progress {
  import opened Frames
  import opened Endpoints
  import opened Links
  import opened Duplex

  // ---- Draining terminates ----------------------------------------------------

  /** A data frame or a corrupt one costs two receptions at most: itself and its answer. */
  function Weight(p: Packet): nat {
    if p.frame.Data? || p.frame.Corrupt? then 2 else 1
  }

  function Load(s: seq<Packet>): nat {
    if s == [] then 0 else Weight(s[0]) + Load(s[1..])
  }

  lemma {:induction false} LoadOfSum(s: seq<Packet>, t: seq<Packet>)
    ensures Load(s + t) == Load(s) + Load(t)
  {
    if s == [] {
      assert s + t == t;
    } else {
      assert (s + t)[1..] == s[1..] + t;
      LoadOfSum(s[1..], t);
    }
  }

  /** Every reception makes the line lighter, whatever is received. */
  lemma ReceiveLightens(l: Link)
    requires l.ba != []
    ensures var l' := StepA(l, Receive);
      Load(l'.ab) + Load(l'.ba) < Load(l.ab) + Load(l.ba)
  {
    var answer := Answer(l.a, l.ba[0].frame);
    LoadOfSum(l.ab, answer);
    assert answer != [] ==> answer[1..] == [];
    assert Load(answer) < Weight(l.ba[0]);
  }

  /** Both ends receive until nothing is on the line. */
  function Drain(l: Link): (r: Link)
    ensures r.ab == [] && r.ba == []
    decreases Load(l.ab) + Load(l.ba)
  {
    if l.ba != [] then
      ReceiveLightens(l);
      Drain(Apply(l, Move(A, Receive)))
    else if l.ab != [] then
      ReceiveLightens(l.Flip());
      Drain(Apply(l, Move(B, Receive)))
    else l
  }

  // ---- The outstanding frame gets through -------------------------------------

  predicate IsLastData(p: Packet, n: nat) {
    p.frame.Data? && p.index + 1 == n
  }

  predicate IsLastAck(p: Packet, n: nat) {
    p.frame.Ack? && p.index + 1 == n
  }

  /** The awaited frame or its ACK is on the line, unless nothing is awaited. */
  ghost predicate Hopeful(l: Link) {
    l.a.ep.awaitingAck ==>
      (exists p :: p in l.ab && IsLastData(p, |l.a.sent|)) || (exists p :: p in l.ba && IsLastAck(p, |l.a.sent|))
  }

  lemma SenderStaysHopeful(l: Link)
    requires Inv(l) && Hopeful(l) && l.ba != []
    ensures Hopeful(StepA(l, Receive))
  {
    var l', n := StepA(l, Receive), |l.a.sent|;
    if l'.a.ep.awaitingAck {
      LastAckEndsTheWait(l);
      if p :| p in l.ab && IsLastData(p, n) {
        assert p in l'.ab;
      } else {
        var p :| p in l.ba && IsLastAck(p, n);
        assert p in l'.ba;
      }
    }
  }

  lemma LastAckEndsTheWait(l: Link)
    requires Inv(l) && l.ba != []
    ensures IsLastAck(l.ba[0], |l.a.sent|) ==> !StepA(l, Receive).a.ep.awaitingAck
    ensures StepA(l, Receive).a.ep.awaitingAck ==> l.a.ep.awaitingAck
  {
    if l.ba[0].frame.Ack? {
      LastIsTold(l.ba[0].index, |l.a.sent|);
    }
  }

  lemma ReceiverStaysHopeful(l: Link)
    requires Inv(l) && Hopeful(l) && l.ab != []
    ensures Hopeful(Apply(l, Move(B, Receive)))
  {
    var l', n := Apply(l, Move(B, Receive)), |l.a.sent|;
    if l.a.ep.awaitingAck {
      LastDataIsAcknowledged(l);
      if p :| p in l.ab && IsLastData(p, n) {
        if p == l.ab[0] {
          assert l'.ba[|l.ba|] in l'.ba;
        } else {
          assert p in l'.ab;
        }
      } else {
        var p :| p in l.ba && IsLastAck(p, n);
        assert p in l'.ba;
      }
    }
  }

  /** A copy of the last message is delivered or acknowledged again, whatever else is on the line. */
  lemma LastDataIsAcknowledged(l: Link)
    requires Inv(l) && l.ab != []
    ensures var l' := Apply(l, Move(B, Receive));
      IsLastData(l.ab[0], |l.a.sent|) ==> |l'.ba| == |l.ba| + 1 && IsLastAck(l'.ba[|l.ba|], |l.a.sent|)
  {
    if IsLastData(l.ab[0], |l.a.sent|) {
      assert IsCopy(l.a.sent, l.ab[0]);
      CopiesAreTold(l.b.ep, l.a.sent, l.ab[0], |l.b.delivered|);
    }
  }

  lemma ReceiveSendsNothingNew(l: Link)
    ensures StepA(l, Receive).a.sent == l.a.sent && StepA(l, Receive).b.sent == l.b.sent
  {}

  lemma GoodIsInv(fmt: Format, l: Link)
    requires Good(fmt, l)
    ensures Inv(l)
  {}

  lemma NothingHopedForInVain(l: Link)
    requires Hopeful(l) && l.ab == [] && l.ba == []
    ensures !l.a.ep.awaitingAck
  {}

  lemma {:induction false} DrainKeeps(fmt: Format, l: Link)
    requires Good(fmt, l)
    ensures Good(fmt, Drain(l)) && Drain(l).a.sent == l.a.sent && Drain(l).b.sent == l.b.sent
    ensures Hopeful(l) ==> !Drain(l).a.ep.awaitingAck
    decreases Load(l.ab) + Load(l.ba)
  {
    GoodIsInv(fmt, l);
    hide Good, Hopeful, StepA;
    if l.ba != [] {
      ReceiveLightens(l);
      PerformKeepsGood(fmt, l, Act(A, Get));
      ReceiveSendsNothingNew(l);
      if Hopeful(l) {
        SenderStaysHopeful(l);
      }
      DrainKeeps(fmt, Apply(l, Move(A, Receive)));
    } else if l.ab == [] {
      if Hopeful(l) {
        NothingHopedForInVain(l);
      }
    } else {
      ReceiveLightens(l.Flip());
      PerformKeepsGood(fmt, l, Act(B, Get));
      ReceiveSendsNothingNew(l.Flip());
      if Hopeful(l) {
        ReceiverStaysHopeful(l);
      }
      DrainKeeps(fmt, Apply(l, Move(B, Receive)));
    }
  }

  lemma ResendMakesHopeful(fmt: Format, l: Link)
    requires Good(fmt, l)
    ensures var l' := Perform(fmt, l, Act(A, Resend));
      Good(fmt, l') && Hopeful(l') && l'.a.sent == l.a.sent
  {
    PerformKeepsGood(fmt, l, Act(A, Resend));
    if l.a.ep.awaitingAck {
      ResendWritesOnePacket(l);
      hide Good, StepA;
      var p := Packet(Outstanding(l.a.ep), |l.a.sent| - 1);
      assert p in l.ab + [p] && IsLastData(p, |l.a.sent|);
    }
  }

  lemma NothingAwaitedIsDelivered(fmt: Format, l: Link)
    requires Good(fmt, l) && !l.a.ep.awaitingAck
    ensures l.b.delivered == l.a.sent
  {}

  /**
   From every reachable state, one resend and a lossless drain complete the outstanding frame:
   delivered, once, and no longer awaited.
   */
  lemma ResendThenDrainCompletes(fmt: Format, l: Link)
    requires Good(fmt, l)
    ensures var l' := Drain(Perform(fmt, l, Act(A, Resend)));
      Good(fmt, l') && !l'.a.ep.awaitingAck && l'.a.sent == l.a.sent && l'.b.delivered == l.a.sent
  {
    hide Good, Perform, Drain, Hopeful;
    ResendMakesHopeful(fmt, l);
    DrainKeeps(fmt, Perform(fmt, l, Act(A, Resend)));
    NothingAwaitedIsDelivered(fmt, Drain(Perform(fmt, l, Act(A, Resend))));
  }

  // ---- Any number of messages over a bad line ---------------------------------

  /** One message and everything that may happen while it is outstanding. */
  datatype Round = Round(m: Message, meanwhile: seq<Act>)

  predicate NoPutByA(acts: seq<Act>) {
    forall act :: act in acts ==> !(act.side.A? && act.action.Put?)
  }

  /** Put, any acts at either end and any losses, then one resend that gets through. */
  function PlayRound(fmt: Format, l: Link, r: Round): Link {
    Drain(Perform(fmt, PerformAll(fmt, Perform(fmt, l, Act(A, Put(r.m))), r.meanwhile), Act(A, Resend)))
  }

  function PlayRounds(fmt: Format, l: Link, rs: seq<Round>): Link
    decreases |rs|
  {
    if rs == [] then l else PlayRounds(fmt, PlayRound(fmt, l, rs[0]), rs[1..])
  }

  function Messages(rs: seq<Round>): (r: seq<Message>)
    ensures |r| == |rs|
  {
    seq(|rs|, i requires 0 <= i < |rs| => rs[i].m)
  }

  lemma {:induction false} OnlyPutsSend(fmt: Format, l: Link, acts: seq<Act>)
    requires NoPutByA(acts)
    ensures PerformAll(fmt, l, acts).a.sent == l.a.sent
    decreases |acts|
  {
    if acts != [] {
      assert acts[0] in acts;
      OnlyPutsSend(fmt, Perform(fmt, l, acts[0]), acts[1..]);
    }
  }

  lemma PutSends(fmt: Format, l: Link, m: Message)
    requires Good(fmt, l) && !l.a.ep.awaitingAck && fmt.Sendable(m)
    ensures var l' := Perform(fmt, l, Act(A, Put(m)));
      Good(fmt, l') && l'.a.sent == l.a.sent + [m]
  {
    PerformKeepsGood(fmt, l, Act(A, Put(m)));
    PutWritesOnePacket(l, m);
  }

  lemma RoundDelivers(fmt: Format, l: Link, r: Round)
    requires Good(fmt, l) && !l.a.ep.awaitingAck
    requires fmt.Sendable(r.m) && NoPutByA(r.meanwhile)
    ensures var l' := PlayRound(fmt, l, r);
      Good(fmt, l') && !l'.a.ep.awaitingAck && l'.a.sent == l.a.sent + [r.m] && l'.b.delivered == l'.a.sent
  {
    hide Good, Perform, Drain;
    var l1 := Perform(fmt, l, Act(A, Put(r.m)));
    PutSends(fmt, l, r.m);
    PerformAllKeepsGood(fmt, l1, r.meanwhile);
    OnlyPutsSend(fmt, l1, r.meanwhile);
    ResendThenDrainCompletes(fmt, PerformAll(fmt, l1, r.meanwhile));
  }

  /** However bad the line is meanwhile, every message of the list is delivered, in order and once. */
  lemma {:induction false} AllRoundsDeliver(fmt: Format, l: Link, rs: seq<Round>)
    requires Good(fmt, l) && !l.a.ep.awaitingAck
    requires forall r :: r in rs ==> fmt.Sendable(r.m) && NoPutByA(r.meanwhile)
    ensures var l' := PlayRounds(fmt, l, rs);
      l'.a.sent == l.a.sent + Messages(rs) && l'.b.delivered == l'.a.sent && !l'.a.ep.awaitingAck
    decreases |rs|
  {
    hide Good, PlayRound, NoPutByA, Format.Sendable;
    if rs == [] {
      assert Messages(rs) == [];
      NothingAwaitedIsDelivered(fmt, l);
    } else {
      assert rs[0] in rs;
      RoundDelivers(fmt, l, rs[0]);
      AllRoundsDeliver(fmt, PlayRound(fmt, l, rs[0]), rs[1..]);
      assert Messages(rs) == [rs[0].m] + Messages(rs[1..]);
    }
  }
}
