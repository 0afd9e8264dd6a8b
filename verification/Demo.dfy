/**
 The request/response discipline of the demo on top of the system: the device has one slot for
 an outbound response (main.cpp), the host asks again only when it has its answer.
 */
module Demo {
  import opened Bytes
  import opened Frames
  import opened Endpoints
  import opened Links
  import opened Sessions
  import opened Duplex
  import opened Hosted

  /** The ARQ state of the device and its response slot. */
  datatype Slot = Slot(ep: Endpoint, resp: Option<Message>)

  /**
   The first part of the loop: a delivered request that has a response puts it into the slot, over
   whatever is there.
   */
  function AfterGet(asks: Message -> bool, s: Slot, r: Reaction, answer: Message): Slot {
    Slot(r.ep, if r.outcome.Deliver? && asks(r.outcome.msg) then Some(answer) else s.resp)
  }

  /** The second part: the response is sent once nothing is outstanding; one that cannot be sent is dropped. */
  function AfterSend(fmt: Format, s: Slot): Slot {
    if s.resp.Some? && !s.ep.awaitingAck
    then Slot(if fmt.Sendable(s.resp.value) then Stamp(s.ep, s.resp.value) else s.ep, None)
    else s
  }

  // ---- The system -------------------------------------------------------------

  /** The demo: `asks` tells which messages have a response, `answers` are the responses queued so far. */
  datatype Demo = Demo(sys: System, resp: Option<Message>, answers: seq<Message>) {
    function Device(): Slot {
      Slot(sys.link.b.ep, resp)
    }
  }

  const STARTED := Demo(OPENED, None, [])

  datatype Turn =
    | AtHost(e: Happening)
    | Loop(answer: Message, timedOut: bool)
    | LineLoses(k: nat)
    | LineGarbles(k: nat)

  /** What get will do with the next frame. */
  function NextReaction(l: Link): Reaction {
    if l.ab == [] then Reaction(l.b.ep, None, Nothing) else React(l.b.ep, l.ab[0].frame)
  }

  /** The actions of the device in one loop: get, an asked-for resend, the queued response, the timer. */
  function GetPart(fmt: Format, s: System): System {
    var t := Happen(fmt, s, Device(Get));
    if NextReaction(s.link).outcome.ResendNeeded? then Happen(fmt, t, Device(Resend)) else t
  }

  function SendPart(fmt: Format, s: System, resp: Option<Message>): (System, Option<Message>) {
    if resp.Some? && !s.link.b.ep.awaitingAck
    then (Happen(fmt, s, Device(Put(resp.value))), None)
    else (s, resp)
  }

  function Advance(fmt: Format, asks: Message -> bool, d: Demo, t: Turn): Demo {
    match t
    case AtHost(e) => d.(sys := Happen(fmt, d.sys, e))
    case Loop(answer, timedOut) =>
      var r := NextReaction(d.sys.link);
      var asked := r.outcome.Deliver? && asks(r.outcome.msg);
      var (sys, resp) := SendPart(fmt, GetPart(fmt, d.sys), if asked then Some(answer) else d.resp);
      Demo(if timedOut then Happen(fmt, sys, Device(Resend)) else sys, resp,
           if asked then d.answers + [answer] else d.answers)
    case LineLoses(k) => d.(sys := Happen(fmt, d.sys, Device(Vanish(k))))
    case LineGarbles(k) => d.(sys := Happen(fmt, d.sys, Device(Corrupted(k))))
  }

  function AdvanceAll(fmt: Format, asks: Message -> bool, d: Demo, turns: seq<Turn>): Demo
    decreases |turns|
  {
    if turns == [] then d else AdvanceAll(fmt, asks, Advance(fmt, asks, d, turns[0]), turns[1..])
  }

  // ---- What the device's actions do -------------------------------------------

  /** Get: the next reaction, and one more message delivered if it says so. */
  lemma GetEffect(fmt: Format, s: System)
    ensures var t, r := Happen(fmt, s, Device(Get)), NextReaction(s.link);
      && t.link.b == s.link.b.(ep := r.ep, delivered := t.link.b.delivered)
      && t.link.b.delivered == (if r.outcome.Deliver? then s.link.b.delivered + [r.outcome.msg] else s.link.b.delivered)
      && t.link.a == s.link.a && t.history == s.history && t.queue == s.queue
  {}

  /** Resend: nothing but the device's line changes. */
  lemma ResendEffect(fmt: Format, s: System)
    requires Sound(s)
    ensures var t := Happen(fmt, s, Device(Resend));
      t.link.b == s.link.b && t.link.a == s.link.a && t.history == s.history && t.queue == s.queue
  {
    if s.link.b.ep.awaitingAck {
      ResendWritesOnePacket(s.link.Flip());
    }
  }

  /** An accepted put: one more message sent. */
  lemma PutEffect(fmt: Format, s: System, m: Message)
    requires Sound(s) && fmt.Sendable(m) && !s.link.b.ep.awaitingAck
    ensures var t := Happen(fmt, s, Device(Put(m)));
      && t.link.b == s.link.b.(ep := Stamp(s.link.b.ep, m), sent := s.link.b.sent + [m])
      && t.link.a == s.link.a && t.history == s.history && t.queue == s.queue
  {
    PutWritesOnePacket(s.link.Flip(), m);
  }

  lemma DeviceKeepsSound(fmt: Format, s: System, a: Action)
    requires Sound(s)
    ensures Sound(Happen(fmt, s, Device(a)))
  {
    HappenKeepsLink(fmt, s, Device(a));
    HappenConserves(fmt, s, Device(a));
    hide Conserved, Happen, Recent, Half;
  }

  lemma GetPartEffect(fmt: Format, s: System)
    requires Sound(s)
    ensures var t, r := GetPart(fmt, s), NextReaction(s.link);
      && Sound(t) && t.link.b.sent == s.link.b.sent && t.link.b.ep == r.ep
      && t.link.b.delivered == (if r.outcome.Deliver? then s.link.b.delivered + [r.outcome.msg] else s.link.b.delivered)
      && t.link.a == s.link.a && t.history == s.history && t.queue == s.queue
  {
    hide Sound, Happen, NextReaction;
    DeviceKeepsSound(fmt, s, Get);
    GetEffect(fmt, s);
    var t := Happen(fmt, s, Device(Get));
    DeviceKeepsSound(fmt, t, Resend);
    ResendEffect(fmt, t);
  }

  lemma SendPartEffect(fmt: Format, s: System, resp: Option<Message>)
    requires Sound(s) && (resp.Some? ==> fmt.Sendable(resp.value))
    ensures var (t, rest) := SendPart(fmt, s, resp);
      && Sound(t) && Slot(t.link.b.ep, rest) == AfterSend(fmt, Slot(s.link.b.ep, resp))
      && t.link.b.delivered == s.link.b.delivered
      && t.link.b.sent + InSlot(rest) == s.link.b.sent + InSlot(resp)
      && t.link.a == s.link.a && t.history == s.history && t.queue == s.queue
  {
    if resp.Some? && !s.link.b.ep.awaitingAck {
      DeviceKeepsSound(fmt, s, Put(resp.value));
      PutEffect(fmt, s, resp.value);
      hide Sound, Happen;
      assert s.link.b.sent + [resp.value] + [] == s.link.b.sent + [resp.value];
    }
  }

  function InSlot(resp: Option<Message>): seq<Message> {
    if resp.Some? then [resp.value] else []
  }

  /** The loop does to the device's state what its two parts say. */
  lemma LoopFollowsItsParts(fmt: Format, asks: Message -> bool, d: Demo, answer: Message, timedOut: bool)
    requires Sound(d.sys) && fmt.Sendable(answer) && (d.resp.Some? ==> fmt.Sendable(d.resp.value))
    ensures var r := NextReaction(d.sys.link);
      Advance(fmt, asks, d, Loop(answer, timedOut)).Device()
      == AfterSend(fmt, AfterGet(asks, d.Device(), r, answer))
  {
    LoopEffect(fmt, asks, d, answer, timedOut);
  }

  /** What a loop changes, and what it leaves alone. */
  lemma LoopEffect(fmt: Format, asks: Message -> bool, d: Demo, answer: Message, timedOut: bool)
    requires Sound(d.sys) && fmt.Sendable(answer) && (d.resp.Some? ==> fmt.Sendable(d.resp.value))
    ensures var d', r := Advance(fmt, asks, d, Loop(answer, timedOut)), NextReaction(d.sys.link);
      var loaded := AfterGet(asks, d.Device(), r, answer);
      && Sound(d'.sys) && d'.Device() == AfterSend(fmt, loaded)
      && d'.sys.link.b.delivered
           == (if r.outcome.Deliver? then d.sys.link.b.delivered + [r.outcome.msg] else d.sys.link.b.delivered)
      && d'.sys.link.b.sent + InSlot(d'.resp) == d.sys.link.b.sent + InSlot(loaded.resp)
      && d'.sys.link.a == d.sys.link.a && d'.sys.history == d.sys.history
  {
    hide Sound, Happen, NextReaction, GetPart, SendPart, AfterSend;
    GetPartEffect(fmt, d.sys);
    var r, s := NextReaction(d.sys.link), GetPart(fmt, d.sys);
    var loaded := AfterGet(asks, d.Device(), r, answer);
    SendPartEffect(fmt, s, loaded.resp);
    var t := SendPart(fmt, s, loaded.resp).0;
    DeviceKeepsSound(fmt, t, Resend);
    ResendEffect(fmt, t);
  }

  // ---- One answer for each request --------------------------------------------

  /** The requests that have a response. */
  function Asked(asks: Message -> bool, ms: seq<Message>): (r: seq<Message>) {
    if ms == [] then [] else (if asks(ms[0]) then [ms[0]] else []) + Asked(asks, ms[1..])
  }

  lemma {:induction false} AskedOfSum(asks: Message -> bool, s: seq<Message>, t: seq<Message>)
    ensures Asked(asks, s + t) == Asked(asks, s) + Asked(asks, t)
  {
    if s == [] {
      assert s + t == t;
    } else {
      AskedOfSum(asks, s[1..], t);
      var head := if asks(s[0]) then [s[0]] else [];
      assert (s + t)[0] == s[0] && (s + t)[1..] == s[1..] + t;
      assert Asked(asks, s + t) == head + Asked(asks, s[1..] + t);
      assert Asked(asks, s) == head + Asked(asks, s[1..]);
      hide Asked;
      assert head + (Asked(asks, s[1..]) + Asked(asks, t)) == head + Asked(asks, s[1..]) + Asked(asks, t);
    }
  }

  lemma AskedOneMore(asks: Message -> bool, s: seq<Message>, m: Message)
    ensures Asked(asks, s + [m]) == if asks(m) then Asked(asks, s) + [m] else Asked(asks, s)
  {
    AskedOfSum(asks, s, [m]);
    assert [m][1..] == [];
  }

  /**
   The answers queued so far are those sent and then the one in the slot, one for each request
   delivered, and at most one request is ahead of the answers the host has received.
   */
  ghost predicate Serving(fmt: Format, asks: Message -> bool, d: Demo) {
    && Sound(d.sys)
    && d.answers == d.sys.link.b.sent + InSlot(d.resp)
    && |d.answers| == |Asked(asks, d.sys.link.b.delivered)|
    && |Asked(asks, d.sys.history)| <= |d.sys.link.a.delivered| + 1
    && (d.resp.Some? ==> fmt.Sendable(d.resp.value))
  }

  /** The host asks only when every earlier request has been answered; its writes are timely; responses fit a frame. */
  predicate Disciplined(fmt: Format, asks: Message -> bool, d: Demo, t: Turn) {
    match t
    case AtHost(Send(m)) => asks(m) ==> |Asked(asks, d.sys.history)| == |d.sys.link.a.delivered|
    case AtHost(e) => !e.Device? && Timely(d.sys, e)
    case Loop(answer, _) => fmt.Sendable(answer)
    case _ => true
  }

  predicate DisciplinedRun(fmt: Format, asks: Message -> bool, d: Demo, turns: seq<Turn>)
    decreases |turns|
  {
    turns == [] || (Disciplined(fmt, asks, d, turns[0])
                    && DisciplinedRun(fmt, asks, Advance(fmt, asks, d, turns[0]), turns[1..]))
  }

  /** queue_response never runs while a response is still in the slot. */
  lemma SlotIsFreeWhenAsked(fmt: Format, asks: Message -> bool, d: Demo)
    requires Serving(fmt, asks, d)
    requires var r := NextReaction(d.sys.link); r.outcome.Deliver? && asks(r.outcome.msg)
    ensures d.resp.None?
  {
    var s, m := d.sys, NextReaction(d.sys.link).outcome.msg;
    GetEffect(fmt, s);
    DeviceKeepsSound(fmt, s, Get);
    var t := Happen(fmt, s, Device(Get));
    DeliveredIsInHistory(t);
    DeliveredIsInHistory(s);
    hide Happen, NextReaction, Sound;
    AskedOneMore(asks, s.link.b.delivered, m);
    assert s.history == t.link.b.delivered + s.history[|t.link.b.delivered|..];
    AskedOfSum(asks, t.link.b.delivered, s.history[|t.link.b.delivered|..]);
  }

  lemma DeliveredIsInHistory(s: System)
    requires Sound(s)
    ensures s.link.b.delivered <= s.history && s.link.a.delivered <= s.link.b.sent
  {}

  lemma LoopKeepsServing(fmt: Format, asks: Message -> bool, d: Demo, answer: Message, timedOut: bool)
    requires Serving(fmt, asks, d) && fmt.Sendable(answer)
    ensures Serving(fmt, asks, Advance(fmt, asks, d, Loop(answer, timedOut)))
  {
    var r := NextReaction(d.sys.link);
    if r.outcome.Deliver? && asks(r.outcome.msg) {
      SlotIsFreeWhenAsked(fmt, asks, d);
    }
    LoopEffect(fmt, asks, d, answer, timedOut);
    if r.outcome.Deliver? {
      AskedOneMore(asks, d.sys.link.b.delivered, r.outcome.msg);
    }
    hide Sound, NextReaction, GetPart, SendPart, Happen;
  }

  /** An event at the session's end: the device is untouched, and only Send adds to the history. */
  lemma HostEffect(fmt: Format, s: System, e: Happening)
    requires !e.Device?
    ensures var t := Happen(fmt, s, e);
      && t.link.b == s.link.b && s.link.a.delivered <= t.link.a.delivered
      && t.history == (if e.Send? && fmt.Sendable(e.m) then s.history + [e.m] else s.history)
  {}

  lemma LineEffect(fmt: Format, s: System, a: Action)
    requires a.Vanish? || a.Corrupted?
    ensures var t := Happen(fmt, s, Device(a));
      t.link.b == s.link.b && t.link.a == s.link.a && t.history == s.history
  {}

  lemma HostKeepsServing(fmt: Format, asks: Message -> bool, d: Demo, e: Happening)
    requires Serving(fmt, asks, d) && Disciplined(fmt, asks, d, AtHost(e))
    ensures Serving(fmt, asks, Advance(fmt, asks, d, AtHost(e)))
  {
    HappenKeepsLink(fmt, d.sys, e);
    HappenConserves(fmt, d.sys, e);
    HostEffect(fmt, d.sys, e);
    if e.Send? {
      AskedOneMore(asks, d.sys.history, e.m);
    }
    hide Happen, LinkSound, Conserved;
  }

  lemma AdvanceKeepsServing(fmt: Format, asks: Message -> bool, d: Demo, t: Turn)
    requires Serving(fmt, asks, d) && Disciplined(fmt, asks, d, t)
    ensures Serving(fmt, asks, Advance(fmt, asks, d, t))
  {
    match t
    case AtHost(e) => HostKeepsServing(fmt, asks, d, e);
    case Loop(answer, timedOut) => LoopKeepsServing(fmt, asks, d, answer, timedOut);
    case LineLoses(k) =>
      DeviceKeepsSound(fmt, d.sys, Vanish(k));
      LineEffect(fmt, d.sys, Vanish(k));
    case LineGarbles(k) =>
      DeviceKeepsSound(fmt, d.sys, Corrupted(k));
      LineEffect(fmt, d.sys, Corrupted(k));
  }

  lemma {:induction false} RunKeepsServing(fmt: Format, asks: Message -> bool, d: Demo, turns: seq<Turn>)
    requires Serving(fmt, asks, d) && DisciplinedRun(fmt, asks, d, turns)
    ensures Serving(fmt, asks, AdvanceAll(fmt, asks, d, turns))
    decreases |turns|
  {
    if turns != [] {
      AdvanceKeepsServing(fmt, asks, d, turns[0]);
      hide Serving, Disciplined, Advance;
      RunKeepsServing(fmt, asks, Advance(fmt, asks, d, turns[0]), turns[1..]);
    }
  }

  /**
   For every disciplined run over a bad line: the requests reach the device in order, each one
   delivered has exactly one answer, and the host receives the answers in order, at most one of
   them still missing.
   */
  lemma OneAnswerForEachRequest(fmt: Format, asks: Message -> bool, turns: seq<Turn>)
    requires DisciplinedRun(fmt, asks, STARTED, turns)
    ensures var d := AdvanceAll(fmt, asks, STARTED, turns);
      && d.sys.link.b.delivered <= d.sys.history
      && |d.answers| == |Asked(asks, d.sys.link.b.delivered)|
      && d.sys.link.a.delivered <= d.answers
      && |d.answers| <= |Asked(asks, d.sys.history)| <= |d.sys.link.a.delivered| + 1
  {
    StartIsServing(fmt, asks);
    hide Serving;
    RunKeepsServing(fmt, asks, STARTED, turns);
    ServingMeans(fmt, asks, AdvanceAll(fmt, asks, STARTED, turns));
  }

  lemma StartIsServing(fmt: Format, asks: Message -> bool)
    ensures Serving(fmt, asks, STARTED)
  {}

  lemma ServingMeans(fmt: Format, asks: Message -> bool, d: Demo)
    requires Serving(fmt, asks, d)
    ensures d.sys.link.b.delivered <= d.sys.history
    ensures |d.answers| == |Asked(asks, d.sys.link.b.delivered)|
    ensures d.sys.link.a.delivered <= d.answers
    ensures |d.answers| <= |Asked(asks, d.sys.history)| <= |d.sys.link.a.delivered| + 1
  {
    DeliveredIsInHistory(d.sys);
    hide Sound;
    var s := d.sys.link.b.delivered;
    assert d.sys.history == s + d.sys.history[|s|..];
    AskedOfSum(asks, s, d.sys.history[|s|..]);
  }

  /** A turn of the line takes a frame of the device away, or has it arrive corrupt. */
  lemma LineTurns(fmt: Format, asks: Message -> bool, d: Demo, k: nat)
    requires k < |d.sys.link.ba|
    ensures var l := d.sys.link;
      && Advance(fmt, asks, d, LineLoses(k)) == d.(sys := d.sys.(link := l.(ba := l.ba[..k] + l.ba[k + 1..])))
      && Advance(fmt, asks, d, LineGarbles(k))
         == d.(sys := d.sys.(link := l.(ba := l.ba[..k] + [Packet(Corrupt, 0)] + l.ba[k + 1..])))
  {}
}
