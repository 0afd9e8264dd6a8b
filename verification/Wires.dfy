/**
 Two engines over two byte lines. Every call is one of the calls proved of the class, its answers
 come in any chunks, and bytes that have not been read may be damaged. Each step is an action of
 `Duplex`, so what is proved there of frames holds of the bytes.
 */
module Wires {
  import opened Bytes
  import opened Frames
  import opened Assembler
  import opened Streams
  import opened Endpoints
  import opened Links
  import opened Duplex

  // ---- What bytes mean --------------------------------------------------------

  /** Whatever follows these bytes, they bring exactly these frames. */
  ghost predicate Means(fmt: Format, w: seq<byte>, fs: seq<Frame>) {
    forall ext :: Meanings(Scan(fmt, w + ext)) == fs + Meanings(Scan(fmt, ext))
  }

  lemma NothingMeansNothing(fmt: Format)
    ensures Means(fmt, [], [])
  {
    forall ext ensures Meanings(Scan(fmt, [] + ext)) == [] + Meanings(Scan(fmt, ext)) {
      assert [] + ext == ext;
      assert [] + Meanings(Scan(fmt, ext)) == Meanings(Scan(fmt, ext));
    }
  }

  lemma BothMean(fmt: Format, u: seq<byte>, fs: seq<Frame>, w: seq<byte>, gs: seq<Frame>)
    requires Means(fmt, u, fs) && Means(fmt, w, gs)
    ensures Means(fmt, u + w, fs + gs)
  {
    hide Scan, Meanings;
    forall ext ensures Meanings(Scan(fmt, u + w + ext)) == fs + gs + Meanings(Scan(fmt, ext)) {
      assert u + w + ext == u + (w + ext);
      assert fs + (gs + Meanings(Scan(fmt, ext))) == fs + gs + Meanings(Scan(fmt, ext));
    }
  }

  /** Bytes bring one list of frames only. */
  lemma MeaningIsUnique(fmt: Format, w: seq<byte>, fs: seq<Frame>, gs: seq<Frame>)
    requires Means(fmt, w, fs) && Means(fmt, w, gs)
    ensures fs == gs
  {
    assert Scan(fmt, []) == [] && Meanings([]) == [];
    hide Scan, Meanings;
    assert Meanings(Scan(fmt, w + [])) == fs + [] == gs + [];
    assert fs + [] == fs && gs + [] == gs;
  }

  /** A frame, sound or damaged, means its verdict. */
  lemma FrameMeansItsVerdict(fmt: Format, body: seq<byte>)
    requires Framed(fmt, body)
    ensures fmt.Judge(body).Some? && Means(fmt, body, [Meaning(fmt.Judge(body).value)])
  {
    FramedIsJudged(fmt, body);
    var e := fmt.Judge(body).value;
    hide Scan, Format.Judge, Framed, Meanings, Meaning;
    forall ext ensures Meanings(Scan(fmt, body + ext)) == [Meaning(e)] + Meanings(Scan(fmt, ext)) {
      FrameScans(fmt, body, ext);
      MeaningsOfMore(e, Scan(fmt, ext));
    }
  }

  lemma MeaningsOfMore(e: Event, events: seq<Event>)
    ensures Meanings([e] + events) == [Meaning(e)] + Meanings(events)
  {}

  lemma FrameBytesMeanTheFrame(fmt: Format, f: Frame)
    requires fmt.Valid() && fmt.Wellformed(f)
    ensures Means(fmt, fmt.FrameBytes(f), [f])
  {
    hide Format.Judge, Format.FrameBytes, Means, Framed;
    FrameBytesAreFramed(fmt, f);
    FrameMeansItsVerdict(fmt, fmt.FrameBytes(f));
  }

  lemma {:induction false} TextIsSkipped(fmt: Format, text: seq<byte>, ext: seq<byte>)
    requires forall i :: 0 <= i < |text| ==> text[i] < 128
    ensures Scan(fmt, text + ext) == Scan(fmt, ext)
    decreases |text|
  {
    hide Scan;
    if text == [] {
      assert text + ext == ext;
    } else {
      var rest := text[1..] + ext;
      assert text + ext == [text[0]] + rest;
      BrokenRunIsSkipped(fmt, [], text[0], rest);
      TextIsSkipped(fmt, text[1..], ext);
    }
  }

  /** Log text on the same line means nothing. */
  lemma TextMeansNothing(fmt: Format, text: seq<byte>)
    requires forall i :: 0 <= i < |text| ==> text[i] < 128
    ensures Means(fmt, text, [])
  {
    hide Scan, Meanings;
    forall ext ensures Meanings(Scan(fmt, text + ext)) == [] + Meanings(Scan(fmt, ext)) {
      TextIsSkipped(fmt, text, ext);
      assert [] + Meanings(Scan(fmt, ext)) == Meanings(Scan(fmt, ext));
    }
  }

  /** A frame damaged in its payload, sequence byte or CRC arrives corrupt, whatever follows. */
  lemma DamagedFrameMeansCorrupt(max: nat, bad: seq<byte>, marker: byte, seqByte: byte, payload: seq<byte>)
    requires marker >= 128 && |payload| <= max < UINT32_LIMIT
    requires SameShape(Crc32Format(max), bad, marker, seqByte, payload)
    requires Damaged(Crc32Format(max), bad, seqByte, payload)
    ensures Means(Crc32Format(max), bad, [Corrupt])
  {
    hide Means, Format.Judge, Framed, SameShape, Damaged, Crc32Format;
    DamagedFrameIsCorrupt(max, bad, marker, seqByte, payload);
    FrameMeansItsVerdict(Crc32Format(max), bad);
  }

  /** Bytes without a marker that end below 128, such as the rest of a frame with a damaged marker, mean nothing. */
  lemma QuietMeansNothing(fmt: Format, noise: seq<byte>)
    requires (forall j: nat :: !MarkerAt(noise, j)) && (noise != [] ==> noise[|noise| - 1] < 128)
    ensures Means(fmt, noise, [])
  {
    hide Scan, Meanings;
    forall ext ensures Meanings(Scan(fmt, noise + ext)) == [] + Meanings(Scan(fmt, ext)) {
      var t := noise + ext;
      forall j | 0 <= j < |noise| ensures !MarkerAt(t, j) {
        if j + 8 <= |noise| {
          assert !MarkerAt(noise, j);
          assert forall i :: j <= i < j + 8 ==> t[i] == noise[i];
        } else {
          assert t[|noise| - 1] < 128;
        }
      }
      ScanSkips(fmt, t, |noise|);
      assert t[|noise|..] == ext;
      assert [] + Meanings(Scan(fmt, ext)) == Meanings(Scan(fmt, ext));
    }
  }

  // ---- One call of get --------------------------------------------------------

  lemma {:induction false} PumpIsParseOn(fmt: Format, buf: seq<byte>, rx: seq<Option<byte>>, ext: seq<byte>)
    ensures var p := Pump(fmt, buf, rx);
      Parse(fmt, buf, Arrived(rx) + ext).0 == Prepend(p.event, Parse(fmt, p.buf, Arrived(p.rest) + ext)).0
    decreases |rx|
  {
    hide Format.Judge;
    if rx != [] && rx[0].Some? {
      var (next, event) := Feed(fmt, buf, rx[0].value);
      var s := Arrived(rx) + ext;
      assert s[0] == rx[0].value && s[1..] == Arrived(rx[1..]) + ext;
      if event.None? {
        PumpIsParseOn(fmt, next, rx[1..], ext);
      }
    }
  }

  lemma {:induction false} PumpKeepsPartial(fmt: Format, buf: seq<byte>, rx: seq<Option<byte>>)
    requires Partial(fmt, buf)
    ensures var p := Pump(fmt, buf, rx); Partial(fmt, p.buf) && (p.event.Some? ==> p.buf == [])
    decreases |rx|
  {
    hide Partial, Format.Judge;
    if rx != [] && rx[0].Some? {
      FeedKeepsPartial(fmt, buf, rx[0].value);
      if Feed(fmt, buf, rx[0].value).1.None? {
        PumpKeepsPartial(fmt, Feed(fmt, buf, rx[0].value).0, rx[1..]);
      }
    }
  }

  lemma PartialParsesAsScan(fmt: Format, buf: seq<byte>, s: seq<byte>)
    requires Partial(fmt, buf)
    ensures Parse(fmt, buf, s).0 == Scan(fmt, buf + s)
  {
    if |buf| < 8 {
      SearchIsScan(fmt, buf, s);
    } else {
      CollectIsScan(fmt, buf, s);
    }
  }

  /** A call of get takes the first of the frames on its way, or leaves them all. */
  lemma PumpTakesTheFirst(fmt: Format, held: seq<byte>, rx: seq<Option<byte>>, behind: seq<byte>, fs: seq<Frame>)
    requires Partial(fmt, held) && Means(fmt, held + Arrived(rx) + behind, fs)
    ensures var p := Pump(fmt, held, rx);
      match p.event
      case None => Means(fmt, p.buf + Arrived(p.rest) + behind, fs)
      case Some(e) => fs != [] && Meaning(e) == fs[0] && Means(fmt, p.buf + Arrived(p.rest) + behind, fs[1..])
  {
    var p := Pump(fmt, held, rx);
    PumpKeepsPartial(fmt, held, rx);
    forall ext ensures Scan(fmt, held + Arrived(rx) + behind + ext)
                       == (if p.event.Some? then [p.event.value] else [])
                          + Scan(fmt, p.buf + Arrived(p.rest) + behind + ext) {
      PumpScans(fmt, held, rx, behind, ext);
    }
    hide Scan, Pump, Partial;
    if p.event.Some? {
      FirstIsTaken(fmt, held + Arrived(rx) + behind, p.event.value, p.buf + Arrived(p.rest) + behind, fs);
    } else {
      NothingIsTaken(fmt, held + Arrived(rx) + behind, p.buf + Arrived(p.rest) + behind, fs);
    }
  }

  lemma PumpScans(fmt: Format, held: seq<byte>, rx: seq<Option<byte>>, behind: seq<byte>, ext: seq<byte>)
    requires Partial(fmt, held)
    ensures var p := Pump(fmt, held, rx);
      Scan(fmt, held + Arrived(rx) + behind + ext)
      == (if p.event.Some? then [p.event.value] else []) + Scan(fmt, p.buf + Arrived(p.rest) + behind + ext)
  {
    hide Scan, Pump, Partial, Parse, Arrived;
    var p, more := Pump(fmt, held, rx), behind + ext;
    PumpKeepsPartial(fmt, held, rx);
    PumpIsParseOn(fmt, held, rx, more);
    PartialParsesAsScan(fmt, held, Arrived(rx) + more);
    PartialParsesAsScan(fmt, p.buf, Arrived(p.rest) + more);
    Regroup(held, Arrived(rx), behind, ext);
    Regroup(p.buf, Arrived(p.rest), behind, ext);
    PrependIsPlus(p.event, Parse(fmt, p.buf, Arrived(p.rest) + more));
  }

  lemma Regroup(a: seq<byte>, b: seq<byte>, c: seq<byte>, d: seq<byte>)
    ensures a + b + c + d == a + (b + (c + d))
  {}

  lemma PrependIsPlus(event: Option<Event>, r: (seq<Event>, seq<byte>))
    ensures Prepend(event, r).0 == (if event.Some? then [event.value] else []) + r.0
  {}

  lemma NothingIsTaken(fmt: Format, u: seq<byte>, w: seq<byte>, fs: seq<Frame>)
    requires Means(fmt, u, fs) && forall ext :: Scan(fmt, u + ext) == [] + Scan(fmt, w + ext)
    ensures Means(fmt, w, fs)
  {
    hide Scan;
    forall ext ensures Meanings(Scan(fmt, w + ext)) == fs + Meanings(Scan(fmt, ext)) {
      assert [] + Scan(fmt, w + ext) == Scan(fmt, w + ext);
      assert Scan(fmt, u + ext) == Scan(fmt, w + ext);
    }
  }

  lemma FirstIsTaken(fmt: Format, u: seq<byte>, e: Event, w: seq<byte>, fs: seq<Frame>)
    requires Means(fmt, u, fs) && forall ext :: Scan(fmt, u + ext) == [e] + Scan(fmt, w + ext)
    ensures fs != [] && Meaning(e) == fs[0] && Means(fmt, w, fs[1..])
  {
    NothingScansToNothing(fmt);
    hide Scan, Meanings, Meaning;
    assert Meanings(Scan(fmt, u + [])) == fs + Meanings(Scan(fmt, []));
    OneTaken(e, Scan(fmt, w + []), fs, Meanings(Scan(fmt, [])));
    forall ext ensures Meanings(Scan(fmt, w + ext)) == fs[1..] + Meanings(Scan(fmt, ext)) {
      assert Scan(fmt, u + ext) == [e] + Scan(fmt, w + ext);
      OneTaken(e, Scan(fmt, w + ext), fs, Meanings(Scan(fmt, ext)));
    }
  }

  lemma NothingScansToNothing(fmt: Format)
    ensures Meanings(Scan(fmt, [])) == []
  {}

  lemma OneTaken(e: Event, events: seq<Event>, fs: seq<Frame>, others: seq<Frame>)
    requires Meanings([e] + events) == fs + others && (fs != [] || others == [])
    ensures fs != [] && Meaning(e) == fs[0] && Meanings(events) == fs[1..] + others
  {
    MeaningsOfMore(e, events);
    hide Meanings, Meaning;
    assert ([Meaning(e)] + Meanings(events))[1..] == Meanings(events);
    assert fs == [] ==> fs + others == [];
    assert |[Meaning(e)] + Meanings(events)| > 0;
    assert (fs + others)[0] == fs[0] && (fs + others)[1..] == fs[1..] + others;
  }

  // ---- Two engines ------------------------------------------------------------

  /** An engine, the bytes it holds, those on their way to it, and what its caller has put and been given. */
  datatype End = End(ep: Endpoint, held: seq<byte>, unread: seq<byte>, sent: seq<Message>, delivered: seq<Message>)

  datatype Pair = Pair(a: End, b: End) {
    function Flip(): Pair {
      Pair(b, a)
    }
  }

  const AT_REST := Pair(End(FRESH, [], [], [], []), End(FRESH, [], [], [], []))

  /** A call at one end, with the answers that its read callback gives, or what happens to the line it writes to. */
  datatype Call =
    | PutCall(m: Message)
    | ResendCall
    | GetCall(rx: seq<Option<byte>>)
    | LogText(text: seq<byte>)
    | Damage(from: nat, length: nat, bytes: seq<byte>)

  /** What a call changes at its end, what it writes, and what it gives its caller. */
  datatype Effect = Effect(ep: Endpoint, held: seq<byte>, unread: seq<byte>, out: seq<byte>, given: Option<Message>)

  /** Put and resend. */
  function WriteEffect(fmt: Format, e: End, ep: Endpoint, f: Frame): Effect
    requires fmt.Valid()
  {
    Effect(ep, e.held, e.unread, fmt.BytesOf(Some(f)), None)
  }

  /** The answers of the read callback during one call of get are the next of the unread bytes, in any chunks. */
  function GetEffect(fmt: Format, e: End, rx: seq<Option<byte>>): Effect
    requires fmt.Valid() && Arrived(rx) <= e.unread
  {
    var q := Pump(fmt, e.held, rx);
    var unread := Arrived(q.rest) + e.unread[|Arrived(rx)|..];
    match q.event
    case None => Effect(e.ep, q.buf, unread, [], None)
    case Some(v) =>
      var r := ReactTo(e.ep, v);
      Effect(r.ep, q.buf, unread, fmt.BytesOf(r.reply), if r.outcome.Deliver? then Some(r.outcome.msg) else None)
  }

  function Applied(p: Pair, x: Effect): Pair {
    Pair(p.a.(ep := x.ep, held := x.held, unread := x.unread,
              delivered := if x.given.Some? then p.a.delivered + [x.given.value] else p.a.delivered),
         p.b.(unread := p.b.unread + x.out))
  }

  /** One call at end `a`. */
  function CallA(fmt: Format, p: Pair, c: Call): Pair
    requires fmt.Valid()
  {
    match c
    case PutCall(m) =>
      if PutCheck(fmt, p.a.ep, m) != Accepted then p
      else
        var ep := Stamp(p.a.ep, m);
        Applied(p.(a := p.a.(sent := p.a.sent + [m])), WriteEffect(fmt, p.a, ep, Outstanding(ep)))
    case ResendCall =>
      if !p.a.ep.awaitingAck || p.a.ep.retained.None? then p
      else Applied(p, WriteEffect(fmt, p.a, p.a.ep.(resendNeeded := false), Outstanding(p.a.ep)))
    case GetCall(rx) => if Arrived(rx) <= p.a.unread then Applied(p, GetEffect(fmt, p.a, rx)) else p
    case LogText(text) =>
      if forall i :: 0 <= i < |text| ==> text[i] < 128 then p.(b := p.b.(unread := p.b.unread + text)) else p
    case Damage(from, length, bytes) =>
      if from + length <= |p.b.unread|
      then p.(b := p.b.(unread := p.b.unread[..from] + bytes + p.b.unread[from + length..]))
      else p
  }

  function CallAt(fmt: Format, p: Pair, side: Side, c: Call): Pair
    requires fmt.Valid()
  {
    match side
    case A => CallA(fmt, p, c)
    case B => CallA(fmt, p.Flip(), c).Flip()
  }

  /** The bytes from `from` on are one frame of those on the line, and `bytes` leaves these frames in its place. */
  ghost predicate Hits(fmt: Format, e: End, from: nat, length: nat, bytes: seq<byte>,
                       before: seq<Frame>, f: Frame, behind: seq<Frame>, left: seq<Frame>)
    requires from + length <= |e.unread|
  {
    && Means(fmt, e.held + e.unread[..from], before)
    && Means(fmt, e.unread[from..from + length], [f])
    && Means(fmt, e.unread[from + length..], behind)
    && Means(fmt, bytes, left)
  }

  /**
   Damage that the checksum sees or that leaves nothing behind: one frame on the line becomes bytes
   that arrive corrupt, or nothing.
   */
  ghost predicate Tolerable(fmt: Format, p: Pair, c: Call) {
    c.Damage? && c.from + c.length <= |p.b.unread| ==>
      exists before, f, behind, left ::
        Hits(fmt, p.b, c.from, c.length, c.bytes, before, f, behind, left) && (left == [] || left == [Corrupt])
  }

  /** Any frame on the line may be damaged so, wherever it stands. */
  lemma DamageIsTolerable(fmt: Format, p: Pair, front: seq<byte>, before: seq<Frame>, f: Frame, behind: seq<byte>,
                          fs: seq<Frame>, bytes: seq<byte>)
    requires fmt.Valid() && fmt.Wellformed(f) && p.b.unread == front + fmt.FrameBytes(f) + behind
    requires Means(fmt, p.b.held + front, before) && Means(fmt, behind, fs)
    requires Means(fmt, bytes, [Corrupt]) || Means(fmt, bytes, [])
    ensures Tolerable(fmt, p, Damage(|front|, |fmt.FrameBytes(f)|, bytes))
  {
    hide Means, Format.FrameBytes;
    FrameBytesMeanTheFrame(fmt, f);
    var at, end := |front|, |front| + |fmt.FrameBytes(f)|;
    var line := p.b.unread;
    assert line[..at] == front && line[at..end] == fmt.FrameBytes(f) && line[end..] == behind;
    var left := if Means(fmt, bytes, [Corrupt]) then [Corrupt] else [];
    assert Hits(fmt, p.b, at, |fmt.FrameBytes(f)|, bytes, before, f, fs, left);
  }

  // ---- Each call is an action on frames ---------------------------------------

  function FramesOf(s: seq<Packet>): (r: seq<Frame>)
    ensures |r| == |s|
  {
    seq(|s|, i requires 0 <= i < |s| => s[i].frame)
  }

  predicate SameEnd(e: End, n: Node) {
    && e.ep.(resendNeeded := false) == n.ep.(resendNeeded := false)
    && e.sent == n.sent && e.delivered == n.delivered
  }

  /** The bytes held and unread at each end bring exactly the frames on the line to it. */
  ghost predicate Carried(fmt: Format, e: End, line: seq<Packet>) {
    && Partial(fmt, e.held) && Means(fmt, e.held + e.unread, FramesOf(line))
    && forall p :: p in line ==> p.frame != Reserved
  }

  ghost predicate Refines(fmt: Format, p: Pair, l: Link) {
    && Good(fmt, l) && SameEnd(p.a, l.a) && SameEnd(p.b, l.b)
    && Carried(fmt, p.a, l.ba) && Carried(fmt, p.b, l.ab)
  }

  /** A line that gains bytes for a packet carries it. */
  lemma CarriedMore(fmt: Format, e: End, line: seq<Packet>, bytes: seq<byte>, more: seq<Packet>)
    requires Carried(fmt, e, line) && Means(fmt, bytes, FramesOf(more)) && forall p :: p in more ==> p.frame != Reserved
    ensures Carried(fmt, e.(unread := e.unread + bytes), line + more)
  {
    hide Means, Partial;
    BothMean(fmt, e.held + e.unread, FramesOf(line), bytes, FramesOf(more));
    assert e.held + e.unread + bytes == e.held + (e.unread + bytes);
    assert FramesOf(line) + FramesOf(more) == FramesOf(line + more);
  }

  lemma FrameIsCarried(fmt: Format, f: Frame, index: nat)
    requires fmt.Valid() && fmt.Wellformed(f)
    ensures Means(fmt, fmt.BytesOf(Some(f)), FramesOf([Packet(f, index)]))
  {
    FrameBytesMeanTheFrame(fmt, f);
    hide Means, Format.FrameBytes;
    assert FramesOf([Packet(f, index)]) == [f];
  }

  lemma OutstandingIsSendable(fmt: Format, l: Link)
    requires Good(fmt, l) && l.a.ep.awaitingAck
    ensures l.a.ep.retained.Some? && fmt.Wellformed(Outstanding(l.a.ep)) && l.a.sent != [] && l.a.pending == []
  {
    assert l.a.sent[|l.a.sent| - 1] in l.a.sent;
  }

  lemma NothingCaptured(fmt: Format, l: Link)
    requires Good(fmt, l)
    ensures l.a.pending == [] && l.a.ep.txSeq < SEQUENCES
  {}

  lemma PutRefines(fmt: Format, p: Pair, l: Link, m: Message)
    requires fmt.Valid() && Refines(fmt, p, l)
    ensures Refines(fmt, CallA(fmt, p, PutCall(m)), ActA(fmt, l, Put(m)))
  {
    hide Good, StepA, Means, Partial, React;
    ActKeepsGood(fmt, l, Put(m));
    if PutCheck(fmt, p.a.ep, m) == Accepted {
      NothingCaptured(fmt, l);
      var ep := Stamp(l.a.ep, m);
      var packet := Packet(Outstanding(ep), |l.a.sent|);
      PutWritesOnePacket(l, m);
      FrameIsCarried(fmt, Outstanding(ep), |l.a.sent|);
      hide Format.BytesOf, FramesOf;
      CarriedMore(fmt, p.b, l.ab, fmt.BytesOf(Some(Outstanding(ep))), [packet]);
      hide Carried;
      assert Outstanding(Stamp(p.a.ep, m)) == Outstanding(ep);
    }
  }

  lemma ResendRefines(fmt: Format, p: Pair, l: Link)
    requires fmt.Valid() && Refines(fmt, p, l)
    ensures Refines(fmt, CallA(fmt, p, ResendCall), ActA(fmt, l, Resend))
  {
    hide Good, StepA, Means, Partial, React;
    ActKeepsGood(fmt, l, Resend);
    if l.a.ep.awaitingAck {
      OutstandingIsSendable(fmt, l);
      var packet := Packet(Outstanding(l.a.ep), |l.a.sent| - 1);
      ResendWritesOnePacket(l);
      FrameIsCarried(fmt, Outstanding(l.a.ep), |l.a.sent| - 1);
      hide Format.BytesOf, FramesOf;
      CarriedMore(fmt, p.b, l.ab, fmt.BytesOf(Some(Outstanding(l.a.ep))), [packet]);
      hide Carried;
      assert Outstanding(p.a.ep) == Outstanding(l.a.ep);
    }
  }

  /** The resend flag changes no reaction but itself. */
  lemma FlagDoesNotMatter(ep: Endpoint, ep': Endpoint, f: Frame)
    requires ep.(resendNeeded := false) == ep'.(resendNeeded := false)
    ensures var r, r' := React(ep, f), React(ep', f);
      r.reply == r'.reply && r.outcome == r'.outcome
      && r.ep.(resendNeeded := false) == r'.ep.(resendNeeded := false)
  {}

  lemma AnswerIsCarried(fmt: Format, l: Link)
    requires fmt.Valid() && Good(fmt, l) && l.ba != []
    ensures var reply, answer := React(l.a.ep, l.ba[0].frame).reply, Answer(l.a, l.ba[0].frame);
      Means(fmt, fmt.BytesOf(reply), FramesOf(answer)) && forall p :: p in answer ==> p.frame != Reserved
  {
    var p := l.ba[0];
    var reply, answer := React(l.a.ep, p.frame).reply, Answer(l.a, p.frame);
    assert p.frame.Data? ==> IsCopy(l.b.sent, p);
    if reply.Some? {
      assert fmt.Wellformed(reply.value);
      FrameIsCarried(fmt, reply.value, answer[0].index);
      assert answer == [Packet(reply.value, answer[0].index)];
    } else {
      NothingMeansNothing(fmt);
      assert FramesOf(answer) == [];
    }
  }

  /** What a get takes off the line. */
  lemma GetTakes(fmt: Format, e: End, line: seq<Packet>, rx: seq<Option<byte>>)
    requires Carried(fmt, e, line) && Arrived(rx) <= e.unread
    ensures var q := Pump(fmt, e.held, rx);
      var e' := e.(held := q.buf, unread := Arrived(q.rest) + e.unread[|Arrived(rx)|..]);
      match q.event
      case None => Carried(fmt, e', line)
      case Some(v) => line != [] && !v.TooLong? && Meaning(v) == line[0].frame && Carried(fmt, e', line[1..])
  {
    var q, behind := Pump(fmt, e.held, rx), e.unread[|Arrived(rx)|..];
    assert e.held + e.unread == e.held + Arrived(rx) + behind;
    PumpKeepsPartial(fmt, e.held, rx);
    PumpTakesTheFirst(fmt, e.held, rx, behind, FramesOf(line));
    hide Means, Partial, Pump, Arrived;
    assert q.buf + (Arrived(q.rest) + behind) == q.buf + Arrived(q.rest) + behind;
    if q.event.Some? {
      assert FramesOf(line)[1..] == FramesOf(line[1..]);
      assert line[0] in line;
    }
  }

  lemma GetsNothing(fmt: Format, p: Pair, l: Link, rx: seq<Option<byte>>)
    requires fmt.Valid() && Refines(fmt, p, l) && Arrived(rx) <= p.a.unread && Pump(fmt, p.a.held, rx).event.None?
    ensures Refines(fmt, CallA(fmt, p, GetCall(rx)), l)
  {
    GetTakes(fmt, p.a, l.ba, rx);
    hide Good, Means, Partial, Arrived, Pump, FramesOf;
    assert p.b.unread + [] == p.b.unread;
    assert CallA(fmt, p, GetCall(rx)).b == p.b;
  }

  lemma GetsFrame(fmt: Format, p: Pair, l: Link, rx: seq<Option<byte>>)
    requires fmt.Valid() && Refines(fmt, p, l) && Arrived(rx) <= p.a.unread && Pump(fmt, p.a.held, rx).event.Some?
    ensures Refines(fmt, CallA(fmt, p, GetCall(rx)), ActA(fmt, l, Get))
  {
    hide Good, Means, Partial, Arrived, Pump, FramesOf;
    GetTakes(fmt, p.a, l.ba, rx);
    ActKeepsGood(fmt, l, Get);
    FlagDoesNotMatter(p.a.ep, l.a.ep, l.ba[0].frame);
    AnswerIsCarried(fmt, l);
    var r, v := React(l.a.ep, l.ba[0].frame), Pump(fmt, p.a.held, rx).event.value;
    assert ReactTo(p.a.ep, v) == React(p.a.ep, l.ba[0].frame);
    hide React, ReactTo;
    CarriedMore(fmt, p.b, l.ab, fmt.BytesOf(r.reply), Answer(l.a, l.ba[0].frame));
    hide Carried, Format.BytesOf, Answer;
  }

  lemma GetRefines(fmt: Format, p: Pair, l: Link, rx: seq<Option<byte>>) returns (action: Option<Action>)
    requires fmt.Valid() && Refines(fmt, p, l)
    ensures Refines(fmt, CallA(fmt, p, GetCall(rx)), if action.Some? then ActA(fmt, l, action.value) else l)
  {
    hide Refines, Pump, Arrived;
    action := None;
    if Arrived(rx) <= p.a.unread {
      if Pump(fmt, p.a.held, rx).event.Some? {
        action := Some(Get);
        GetsFrame(fmt, p, l, rx);
      } else {
        GetsNothing(fmt, p, l, rx);
      }
    }
  }

  lemma LogTextRefines(fmt: Format, p: Pair, l: Link, text: seq<byte>)
    requires fmt.Valid() && Refines(fmt, p, l)
    ensures Refines(fmt, CallA(fmt, p, LogText(text)), l)
  {
    if forall i :: 0 <= i < |text| ==> text[i] < 128 {
      TextMeansNothing(fmt, text);
      hide Means, Good, Partial;
      assert FramesOf([]) == [] && l.ab + [] == l.ab;
      CarriedMore(fmt, p.b, l.ab, text, []);
    }
  }

  lemma DamageRefines(fmt: Format, p: Pair, l: Link, c: Call) returns (action: Option<Action>)
    requires fmt.Valid() && Refines(fmt, p, l) && c.Damage? && Tolerable(fmt, p, c)
    ensures Refines(fmt, CallA(fmt, p, c), if action.Some? then ActA(fmt, l, action.value) else l)
  {
    action := None;
    var e := p.b;
    if c.from + c.length <= |e.unread| {
      var before, f, behind, left :|
        Hits(fmt, e, c.from, c.length, c.bytes, before, f, behind, left) && (left == [] || left == [Corrupt]);
      hide Good, Means, Partial;
      DamagedLine(fmt, e, l.ab, c, before, f, behind, left);
      var k := |before|;
      if left == [] {
        action := Some(Vanish(k));
        ActKeepsGood(fmt, l, Vanish(k));
      } else {
        action := Some(Corrupted(k));
        ActKeepsGood(fmt, l, Corrupted(k));
      }
    }
  }

  /** The line after the damage carries the same frames but one. */
  lemma DamagedLine(fmt: Format, e: End, line: seq<Packet>, c: Call,
                    before: seq<Frame>, f: Frame, behind: seq<Frame>, left: seq<Frame>)
    requires Carried(fmt, e, line) && c.Damage? && c.from + c.length <= |e.unread|
    requires Hits(fmt, e, c.from, c.length, c.bytes, before, f, behind, left) && (left == [] || left == [Corrupt])
    ensures var e' := e.(unread := e.unread[..c.from] + c.bytes + e.unread[c.from + c.length..]);
      && |before| < |line|
      && Carried(fmt, e', if left == [] then Remove(line, |before|) else line[|before| := Packet(Corrupt, 0)])
  {
    hide Means, Partial, FramesOf;
    DamagedBytes(fmt, e, c, before, f, behind, left);
    MeaningIsUnique(fmt, e.held + e.unread, FramesOf(line), before + [f] + behind);
    DamagedFrames(line, before, f, behind);
  }

  lemma DamagedBytes(fmt: Format, e: End, c: Call, before: seq<Frame>, f: Frame, behind: seq<Frame>, left: seq<Frame>)
    requires c.Damage? && c.from + c.length <= |e.unread|
    requires Hits(fmt, e, c.from, c.length, c.bytes, before, f, behind, left)
    ensures Means(fmt, e.held + e.unread, before + [f] + behind)
    ensures Means(fmt, e.held + (e.unread[..c.from] + c.bytes + e.unread[c.from + c.length..]), before + left + behind)
  {
    var a, hit, post := e.unread[..c.from], e.unread[c.from..c.from + c.length], e.unread[c.from + c.length..];
    hide Means;
    ThreeMean(fmt, e.held + a, before, hit, [f], post, behind);
    ThreeMean(fmt, e.held + a, before, c.bytes, left, post, behind);
    assert e.unread == a + hit + post;
    Regrouped(e.held, a, hit, post);
    Regrouped(e.held, a, c.bytes, post);
  }

  lemma ThreeMean(fmt: Format, u: seq<byte>, fs: seq<Frame>, w: seq<byte>, gs: seq<Frame>, x: seq<byte>, hs: seq<Frame>)
    requires Means(fmt, u, fs) && Means(fmt, w, gs) && Means(fmt, x, hs)
    ensures Means(fmt, u + w + x, fs + gs + hs)
  {
    hide Means;
    BothMean(fmt, u, fs, w, gs);
    BothMean(fmt, u + w, fs + gs, x, hs);
  }

  lemma Regrouped(a: seq<byte>, b: seq<byte>, c: seq<byte>, d: seq<byte>)
    ensures a + b + c + d == a + (b + c + d)
  {}

  lemma DamagedFrames(line: seq<Packet>, before: seq<Frame>, f: Frame, behind: seq<Frame>)
    requires FramesOf(line) == before + [f] + behind
    ensures |before| < |line|
    ensures FramesOf(Remove(line, |before|)) == before + [] + behind
    ensures FramesOf(line[|before| := Packet(Corrupt, 0)]) == before + [Corrupt] + behind
    ensures forall p :: p in Remove(line, |before|) ==> p in line
  {
    var k := |before|;
    assert |line| == k + 1 + |behind|;
    var whole := before + [f] + behind;
    assert forall i :: 0 <= i < |line| ==> line[i].frame == whole[i];
    RemoveKeepsOrder(line, k);
  }

  // ---- Whole runs -------------------------------------------------------------

  datatype CallAtSide = CallAtSide(side: Side, call: Call)

  function Calls(fmt: Format, p: Pair, calls: seq<CallAtSide>): Pair
    requires fmt.Valid()
    decreases |calls|
  {
    if calls == [] then p else Calls(fmt, CallAt(fmt, p, calls[0].side, calls[0].call), calls[1..])
  }

  ghost predicate TolerableRun(fmt: Format, p: Pair, calls: seq<CallAtSide>)
    requires fmt.Valid()
    decreases |calls|
  {
    calls == []
    || (&& Tolerable(fmt, if calls[0].side == A then p else p.Flip(), calls[0].call)
        && TolerableRun(fmt, CallAt(fmt, p, calls[0].side, calls[0].call), calls[1..]))
  }

  /** Every call refines an action at the same end, or none. */
  lemma CallRefines(fmt: Format, p: Pair, l: Link, c: Call) returns (action: Option<Action>)
    requires fmt.Valid() && Refines(fmt, p, l) && Tolerable(fmt, p, c)
    ensures Refines(fmt, CallA(fmt, p, c), if action.Some? then ActA(fmt, l, action.value) else l)
  {
    hide Refines, Tolerable;
    match c
    case PutCall(m) =>
      PutRefines(fmt, p, l, m);
      action := Some(Put(m));
    case ResendCall =>
      ResendRefines(fmt, p, l);
      action := Some(Resend);
    case GetCall(rx) => action := GetRefines(fmt, p, l, rx);
    case LogText(text) =>
      LogTextRefines(fmt, p, l, text);
      action := None;
    case Damage(_, _, _) => action := DamageRefines(fmt, p, l, c);
  }

  lemma RefinesFlipped(fmt: Format, p: Pair, l: Link)
    requires Refines(fmt, p, l)
    ensures Refines(fmt, p.Flip(), l.Flip())
  {
    hide Means, Partial, Half, Windowed;
  }

  /** A run on bytes is a run on frames. */
  lemma {:induction false} RunRefines(fmt: Format, p: Pair, l: Link, calls: seq<CallAtSide>) returns (acts: seq<Act>)
    requires fmt.Valid() && Refines(fmt, p, l) && TolerableRun(fmt, p, calls)
    ensures Refines(fmt, Calls(fmt, p, calls), PerformAll(fmt, l, acts))
    decreases |calls|
  {
    acts := [];
    if calls != [] {
      var side, c := calls[0].side, calls[0].call;
      var p', l' := if side == A then p else p.Flip(), if side == A then l else l.Flip();
      RefinesFlipped(fmt, p, l);
      var action := CallRefines(fmt, p', l', c);
      var q, m := CallA(fmt, p', c), if action.Some? then ActA(fmt, l', action.value) else l';
      RefinesFlipped(fmt, q, m);
      var next, now := CallAt(fmt, p, side, c), if side == A then m else m.Flip();
      hide Refines, Tolerable, CallA, ActA;
      var rest := RunRefines(fmt, next, now, calls[1..]);
      if action.Some? {
        var act := Act(side, action.value);
        assert Perform(fmt, l, act) == now;
        acts := [act] + rest;
        assert acts[0] == act && acts[1..] == rest;
      } else {
        acts := rest;
      }
    }
  }

  lemma AtRestRefines(fmt: Format)
    ensures Refines(fmt, AT_REST, CONNECTED)
  {
    NothingMeansNothing(fmt);
    assert FramesOf([]) == [] && AT_REST.a.held + AT_REST.a.unread == [];
    hide Means;
  }

  /**
   Guaranteed delivery on the bytes: for every sequence of puts, resends, gets with any chunking, log
   text and tolerable damage at both ends, each engine's caller has been given a beginning of what
   the other put, in order and once each, at most one message behind, and all of it when no
   acknowledgement is awaited.
   */
  lemma BytesAreDeliveredInOrder(fmt: Format, calls: seq<CallAtSide>)
    requires fmt.Valid() && TolerableRun(fmt, AT_REST, calls)
    ensures var p := Calls(fmt, AT_REST, calls);
      && p.b.delivered <= p.a.sent && |p.a.sent| <= |p.b.delivered| + 1
      && p.a.delivered <= p.b.sent && |p.b.sent| <= |p.a.delivered| + 1
      && (!p.a.ep.awaitingAck ==> p.b.delivered == p.a.sent)
      && (!p.b.ep.awaitingAck ==> p.a.delivered == p.b.sent)
  {
    AtRestRefines(fmt);
    var acts := RunRefines(fmt, AT_REST, CONNECTED, calls);
    DuplexDeliversInOrder(fmt, acts);
    hide Calls, PerformAll, Good, Carried;
  }

  /** Any bytes of ours on the line can become any others, and log text can follow them; so at either end. */
  lemma LineCalls(fmt: Format, p: Pair, before: seq<byte>, was: seq<byte>, now: seq<byte>, behind: seq<byte>)
    requires fmt.Valid()
    ensures p.b.unread == before + was + behind ==>
      CallAt(fmt, p, A, Damage(|before|, |was|, now)) == p.(b := p.b.(unread := before + now + behind))
    ensures p.a.unread == before + was + behind ==>
      CallAt(fmt, p, B, Damage(|before|, |was|, now)) == p.(a := p.a.(unread := before + now + behind))
    ensures (forall i :: 0 <= i < |now| ==> now[i] < 128) ==>
      && CallAt(fmt, p, A, LogText(now)) == p.(b := p.b.(unread := p.b.unread + now))
      && CallAt(fmt, p, B, LogText(now)) == p.(a := p.a.(unread := p.a.unread + now))
  {
    var line := before + was + behind;
    assert line[..|before|] == before && line[|before| + |was|..] == behind;
  }

  /** A call at end B is the same call at end A with the ends exchanged. */
  lemma EndsCallAlike(fmt: Format, p: Pair, c: Call)
    requires fmt.Valid()
    ensures var q, r := CallAt(fmt, Pair(p.b, p.a), A, c), CallAt(fmt, p, B, c);
      r == Pair(q.b, q.a)
  {}
}
