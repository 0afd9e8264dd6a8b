/** A pass of the device's loop is a turn of the demo's system, down to the bytes that it puts on the line. */
module DemoPasses {
  import opened Bytes
  import opened Frames
  import opened Assembler
  import opened Endpoints
  import opened Links
  import opened Duplex
  import opened Hosted
  import opened Demo
  import opened DemoDevice

  /** The bytes of the frames in a channel. */
  function PacketBytes(fmt: Format, ps: seq<Packet>): seq<byte>
    requires fmt.Valid()
    decreases |ps|
  {
    if ps == [] then [] else fmt.BytesOf(Some(ps[0].frame)) + PacketBytes(fmt, ps[1..])
  }

  lemma {:induction false} PacketBytesOfSum(fmt: Format, s: seq<Packet>, t: seq<Packet>)
    requires fmt.Valid()
    ensures PacketBytes(fmt, s + t) == PacketBytes(fmt, s) + PacketBytes(fmt, t)
    decreases |s|
  {
    hide Format.BytesOf;
    if s == [] {
      assert s + t == t;
    } else {
      PacketBytesOfSum(fmt, s[1..], t);
      assert (s + t)[1..] == s[1..] + t;
    }
  }

  /** The channel from the device has these bytes more. */
  ghost predicate Gained(fmt: Format, s: System, t: System, bytes: seq<byte>)
    requires fmt.Valid()
  {
    s.link.ba <= t.link.ba && PacketBytes(fmt, t.link.ba[|s.link.ba|..]) == bytes
  }

  lemma TailsAddUp<T>(a: seq<T>, b: seq<T>, c: seq<T>)
    requires a <= b <= c
    ensures a <= c && c[|a|..] == b[|a|..] + c[|b|..]
  {
    assert c == b + c[|b|..] == a + b[|a|..] + c[|b|..];
  }

  lemma GainedTwice(fmt: Format, s: System, t: System, u: System, first: seq<byte>, second: seq<byte>)
    requires fmt.Valid() && Gained(fmt, s, t, first) && Gained(fmt, t, u, second)
    ensures Gained(fmt, s, u, first + second)
  {
    hide PacketBytes;
    TailsAddUp(s.link.ba, t.link.ba, u.link.ba);
    PacketBytesOfSum(fmt, t.link.ba[|s.link.ba|..], u.link.ba[|t.link.ba|..]);
  }

  lemma GainedPackets(fmt: Format, s: System, t: System, ps: seq<Packet>)
    requires fmt.Valid() && t.link.ba == s.link.ba + ps
    ensures Gained(fmt, s, t, PacketBytes(fmt, ps))
  {
    assert t.link.ba[|s.link.ba|..] == ps;
  }

  lemma OnePacket(fmt: Format, p: Packet)
    requires fmt.Valid()
    ensures PacketBytes(fmt, [p]) == fmt.BytesOf(Some(p.frame))
  {
    assert [p][1..] == [];
  }

  // ---- The parts of a turn ----------------------------------------------------

  lemma GetGains(fmt: Format, s: System)
    requires fmt.Valid()
    ensures Gained(fmt, s, Happen(fmt, s, Device(Get)), fmt.BytesOf(NextReaction(s.link).reply))
  {
    var t := Happen(fmt, s, Device(Get));
    var ps := if s.link.ab == [] then [] else Answer(s.link.b, s.link.ab[0].frame);
    assert t.link.ba == s.link.ba + ps;
    GainedPackets(fmt, s, t, ps);
    if ps != [] {
      OnePacket(fmt, ps[0]);
    }
  }

  lemma ResendGains(fmt: Format, s: System)
    requires fmt.Valid() && Sound(s)
    ensures var ep := s.link.b.ep;
      Gained(fmt, s, Happen(fmt, s, Device(Resend)),
             if ep.awaitingAck then DataBytes(fmt, ep.txSeq, ep.retained) else [])
  {
    var t, ep := Happen(fmt, s, Device(Resend)), s.link.b.ep;
    if ep.awaitingAck {
      ResendWritesOnePacket(s.link.Flip());
      var p := Packet(Outstanding(ep), |s.link.b.sent| - 1);
      hide Sound, Happen, Format.BytesOf;
      GainedPackets(fmt, s, t, [p]);
      OnePacket(fmt, p);
    } else {
      GainedPackets(fmt, s, t, []);
    }
  }

  lemma PutGains(fmt: Format, s: System, m: Message)
    requires fmt.Valid() && Sound(s) && !s.link.b.ep.awaitingAck
    ensures Gained(fmt, s, Happen(fmt, s, Device(Put(m))),
                   if fmt.Sendable(m) then DataBytes(fmt, (s.link.b.ep.txSeq + 1) % 64, Some(m)) else [])
  {
    var t := Happen(fmt, s, Device(Put(m)));
    assert s.link.b.pending == [];
    hide Sound, Format.BytesOf;
    if fmt.Sendable(m) {
      PutWritesOnePacket(s.link.Flip(), m);
      var p := Packet(Outstanding(Stamp(s.link.b.ep, m)), |s.link.b.sent|);
      hide Sound, Happen, Format.BytesOf;
      GainedPackets(fmt, s, t, [p]);
      OnePacket(fmt, p);
    } else {
      GainedPackets(fmt, s, t, []);
    }
  }

  // ---- A whole turn -----------------------------------------------------------

  lemma GetPartGains(fmt: Format, s: System)
    requires fmt.Valid() && Sound(s)
    ensures var r := NextReaction(s.link);
      Gained(fmt, s, GetPart(fmt, s),
             fmt.BytesOf(r.reply)
             + if r.outcome.ResendNeeded? then DataBytes(fmt, r.ep.txSeq, r.ep.retained) else [])
  {
    hide Sound, Happen, NextReaction, Format.BytesOf, Gained;
    var r := NextReaction(s.link);
    GetEffect(fmt, s);
    DeviceKeepsSound(fmt, s, Get);
    GetGains(fmt, s);
    var t := Happen(fmt, s, Device(Get));
    if r.outcome.ResendNeeded? {
      NackedIsAwaited(s);
      ResendGains(fmt, t);
      GainedTwice(fmt, s, t, GetPart(fmt, s), fmt.BytesOf(r.reply), DataBytes(fmt, r.ep.txSeq, r.ep.retained));
    } else {
      assert fmt.BytesOf(r.reply) + [] == fmt.BytesOf(r.reply);
    }
  }

  lemma NackedIsAwaited(s: System)
    requires NextReaction(s.link).outcome.ResendNeeded?
    ensures NextReaction(s.link).ep.awaitingAck
  {}

  lemma Unchanged(fmt: Format, s: System)
    requires fmt.Valid()
    ensures Gained(fmt, s, s, [])
  {}

  lemma SendPartGains(fmt: Format, s: System, resp: Option<Message>)
    requires fmt.Valid() && Sound(s)
    ensures var (t, rest) := SendPart(fmt, s, resp);
      var goes := resp.Some? && !s.link.b.ep.awaitingAck && fmt.Sendable(resp.value);
      && Gained(fmt, s, t, if goes then DataBytes(fmt, (s.link.b.ep.txSeq + 1) % 64, resp) else [])
      && Sound(t) && rest == (if s.link.b.ep.awaitingAck then resp else None)
      && t.link.b.ep == if goes then Stamp(s.link.b.ep, resp.value) else s.link.b.ep
  {
    hide Sound, Format.BytesOf, Gained, DataBytes;
    if resp.Some? && !s.link.b.ep.awaitingAck {
      DeviceKeepsSound(fmt, s, Put(resp.value));
      PutGains(fmt, s, resp.value);
      if fmt.Sendable(resp.value) {
        PutEffect(fmt, s, resp.value);
        hide Happen;
      }
    } else {
      Unchanged(fmt, s);
    }
  }

  /** A turn of the system adds the bytes of the pass to the device's channel, and leaves its state as the pass does. */
  lemma TurnGains(fmt: Format, asks: Message -> bool, d: Demo, answer: Message, timedOut: bool)
    requires fmt.Valid() && Sound(d.sys)
    ensures var r, d' := NextReaction(d.sys.link), Advance(fmt, asks, d, Loop(answer, timedOut));
      && Gained(fmt, d.sys, d'.sys, PassBytes(fmt, asks, d.resp, r, answer, timedOut, d'.sys.link.b.ep))
      && Passed(fmt, asks, d.resp, r, answer, d'.sys.link.b.ep, d'.resp)
  {
    hide Sound, Happen, NextReaction, GetPart, SendPart, Gained, Format.BytesOf, DataBytes, Format.Sendable;
    var s, r, d' := d.sys, NextReaction(d.sys.link), Advance(fmt, asks, d, Loop(answer, timedOut));
    var loaded := if r.outcome.Deliver? && asks(r.outcome.msg) then Some(answer) else d.resp;
    var goes := loaded.Some? && !r.ep.awaitingAck && fmt.Sendable(loaded.value);
    GetPartGains(fmt, s);
    GetPartEffect(fmt, s);
    var t := GetPart(fmt, s);
    SendPartGains(fmt, t, loaded);
    var u := SendPart(fmt, t, loaded).0;
    var first := fmt.BytesOf(r.reply)
                 + if r.outcome.ResendNeeded? then DataBytes(fmt, r.ep.txSeq, r.ep.retained) else [];
    var second := if goes then DataBytes(fmt, (r.ep.txSeq + 1) % 64, loaded) else [];
    GainedTwice(fmt, s, t, u, first, second);
    TimerGains(fmt, s, u, timedOut, first + second);
    assert d'.sys == if timedOut then Happen(fmt, u, Device(Resend)) else u;
  }

  lemma TimerGains(fmt: Format, s: System, u: System, timedOut: bool, before: seq<byte>)
    requires fmt.Valid() && Sound(u) && Gained(fmt, s, u, before)
    ensures var v, ep := if timedOut then Happen(fmt, u, Device(Resend)) else u, u.link.b.ep;
      && v.link.b.ep == ep
      && Gained(fmt, s, v,
                before + (if timedOut && ep.awaitingAck then DataBytes(fmt, ep.txSeq, ep.retained) else []))
  {
    hide Sound, Happen, Gained, Format.BytesOf, DataBytes;
    if timedOut {
      ResendGains(fmt, u);
      ResendEffect(fmt, u);
      var ep := u.link.b.ep;
      GainedTwice(fmt, s, u, Happen(fmt, u, Device(Resend)), before,
                  if ep.awaitingAck then DataBytes(fmt, ep.txSeq, ep.retained) else []);
    } else {
      assert before + [] == before;
    }
  }

  // ---- The object and the system ----------------------------------------------

  /** Equal up to the resend flag, which the engine clears when it resends and the system leaves up. */
  predicate SameEndpoint(x: Endpoint, y: Endpoint) {
    Plain(x) == Plain(y)
  }

  /** The object is the device of the system, over a line that takes every byte. */
  ghost predicate IsDevice(dev: DemoDevice.Device, d: Demo)
    reads dev, dev.arq, dev.arq.readBuffer, dev.arq.retainBuffer, dev.arq.sink, dev.respBuffer
  {
    && dev.Valid() && SameEndpoint(dev.arq.Model(), d.sys.link.b.ep)
    && dev.Queued() == d.resp && dev.arq.sink.Out().Willing()
  }

  /** What the read callback brings is the next frame for the device, or nothing when none is on its way. */
  ghost predicate BringsNext(dev: DemoDevice.Device, l: Link)
    reads dev, dev.arq, dev.arq.readBuffer, dev.arq.retainBuffer, dev.arq.port
    requires dev.arq.Valid()
  {
    match Pump(dev.arq.fmt, dev.arq.Held(), dev.arq.port.rx).event
    case None => l.ab == []
    case Some(e) => l.ab != [] && !e.TooLong? && Meaning(e) == l.ab[0].frame
  }

  /** The resend flag changes neither the answer nor the outcome. */
  lemma SameReaction(x: Endpoint, y: Endpoint, f: Frame)
    requires SameEndpoint(x, y)
    ensures var r, q := React(x, f), React(y, f);
      r.reply == q.reply && r.outcome == q.outcome && SameEndpoint(r.ep, q.ep)
  {}

  lemma SamePass(fmt: Format, asks: Message -> bool, resp: Option<Message>, r: Reaction, q: Reaction,
                 answer: Message, timedOut: bool, x: Endpoint, y: Endpoint, rest: Option<Message>,
                 left: Option<Message>)
    requires fmt.Valid() && r.reply == q.reply && r.outcome == q.outcome && SameEndpoint(r.ep, q.ep)
    requires Passed(fmt, asks, resp, r, answer, x, rest) && Passed(fmt, asks, resp, q, answer, y, left)
    ensures SameEndpoint(x, y) && rest == left
    ensures PassBytes(fmt, asks, resp, r, answer, timedOut, x) == PassBytes(fmt, asks, resp, q, answer, timedOut, y)
  {
    hide Format.BytesOf, DataBytes;
  }

  /**
   A pass of the object is the turn of the system: state and slot follow, and what it writes is the
   bytes of the packets that the turn adds to the device's channel.
   */
  method TakeTurn(dev: DemoDevice.Device, ghost d: Demo, answer: Message, timedOut: bool)
    requires IsDevice(dev, d) && BringsNext(dev, d.sys.link) && Sound(d.sys)
    requires |answer.payload| <= dev.respBuffer.Length
    modifies dev, dev.arq, dev.arq.readBuffer, dev.arq.retainBuffer, dev.arq.port, dev.arq.sink, dev.respBuffer
    ensures var d' := Advance(dev.arq.fmt, dev.asks, d, Loop(answer, timedOut));
      && IsDevice(dev, d') && d.sys.link.ba <= d'.sys.link.ba
      && dev.arq.sink.tx
         == old(dev.arq.sink.tx) + PacketBytes(dev.arq.fmt, d'.sys.link.ba[|d.sys.link.ba|..])
  {
    ghost var fmt, q, r := dev.arq.fmt, NextReaction(d.sys.link), dev.Arrival();
    ghost var d' := Advance(fmt, dev.asks, d, Loop(answer, timedOut));
    if d.sys.link.ab != [] {
      SameReaction(dev.arq.Model(), d.sys.link.b.ep, d.sys.link.ab[0].frame);
    }
    TurnGains(fmt, dev.asks, d, answer, timedOut);
    hide PassBytes, Passed, Advance, Sound, NextReaction, React, Pump, DemoDevice.Device.Valid, LoopStep;
    dev.Loop(answer, timedOut);
    SamePass(fmt, dev.asks, d.resp, r, q, answer, timedOut, dev.arq.Model(), d'.sys.link.b.ep, dev.Queued(), d'.resp);
  }
}
