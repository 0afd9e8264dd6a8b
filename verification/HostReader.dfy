/** The header state machine and the read loop of the C# session, as they run, proved against `HostParse`. */
module HostReader {
  import opened Bytes
  import opened Bits
  import opened Crc
  import opened CrcLoops
  import opened Frames
  import opened Streams
  import opened HostDecoder

  /** Crc32Byte over the sequence byte, the length and the payload. */
  method Crc32(table: array<Register>, seqByte: byte, length: nat, payload: seq<byte>) returns (c: Register)
    requires IsCrcTable(table[..]) && length == |payload| < UINT32_LIMIT
    ensures c == FrameCrc(Covered(seqByte, payload))
  {
    hide IsCrcTable, ByteStep, Le32;
    ghost var covered := Covered(seqByte, payload);
    c := StepByTable(table, INITIAL, seqByte);
    assert covered[..1][..0] == [] && Update(INITIAL, covered[..0]) == INITIAL;
    var len := Le32(length);
    var i := 0;
    while i < 4
      invariant i <= 4
      invariant c == Update(INITIAL, covered[..1 + i])
    {
      c := StepByTable(table, c, len[i]);
      assert covered[..2 + i][..1 + i] == covered[..1 + i];
      i := i + 1;
    }
    i := 0;
    while i < |payload|
      invariant i <= |payload|
      invariant c == Update(INITIAL, covered[..5 + i])
    {
      c := StepByTable(table, c, payload[i]);
      assert covered[..6 + i][..5 + i] == covered[..5 + i];
      i := i + 1;
    }
    assert covered[..5 + |payload|] == covered;
    c := Xor(c, INITIAL);
  }

  /** The value of up to four bytes, low byte first. */
  function PartialLe(s: seq<byte>): nat {
    if s == [] then 0 else s[0] as nat + 256 * PartialLe(s[1..])
  }

  function Scale(k: nat): nat {
    if k == 0 then 1 else 256 * Scale(k - 1)
  }

  lemma {:induction false} PartialLeExtends(s: seq<byte>, b: byte)
    ensures PartialLe(s + [b]) == PartialLe(s) + b as nat * Scale(|s|)
  {
    if s == [] {
      assert [] + [b] == [b] && [b][1..] == [];
    } else {
      assert (s + [b])[1..] == s[1..] + [b];
      PartialLeExtends(s[1..], b);
      TimesCommutes(b, Scale(|s| - 1));
    }
  }

  lemma TimesCommutes(x: nat, y: nat)
    ensures 256 * (x * y) == x * (256 * y)
  {}

  lemma PartialLeIsFromLe32(s: seq<byte>)
    requires |s| == 4
    ensures PartialLe(s) == FromLe32(s)
  {
    assert s[1..][1..] == s[2..] && s[2..][1..] == s[3..] && s[3..][1..] == [];
    assert PartialLe(s[3..]) == s[3] as nat;
    assert PartialLe(s[2..]) == s[2] as nat + 256 * PartialLe(s[3..]);
    assert PartialLe(s[1..]) == s[1] as nat + 256 * PartialLe(s[2..]);
  }

  /** One step of the header: the bytes held, and the text that goes to the log. */
  function HeaderStep(held: seq<byte>, b: byte): (r: (seq<byte>, seq<byte>))
    ensures r.0 != [] ==> r.0 == held + [b] && r.1 == []
  {
    if held == [] then if b < 128 then ([], [b]) else ([b], [])
    else if |held| < 8 && b != held[0] then ([], held + [b])
    else (held + [b], [])
  }

  class StateMachine {
    var state: nat
    var rawCmd: byte
    var rawSeq: byte
    var rawLen: nat
    var rawCrc: nat
    ghost var header: seq<byte>

    ghost predicate Valid()
      reads this
      ensures Valid() ==> state == |header|
    {
      && state == |header| <= HEADER_LENGTH
      && (forall i :: 0 <= i < state && i < 8 ==> header[i] == rawCmd >= 128)
      && (state > 8 ==> header[8] == rawSeq)
      && (state > 0 ==>
            rawLen == PartialLe(if state <= 9 then [] else if state <= 13 then header[9..] else header[9..13]))
      && (state > 0 ==> rawCrc == PartialLe(if state <= 13 then [] else header[13..]))
    }

    constructor ()
      ensures Valid() && header == []
    {
      state, rawCmd, rawSeq, rawLen, rawCrc := 0, 0, 0, 0, 0;
      header := [];
    }

    lemma HeaderIsComplete()
      requires Valid() && state == HEADER_LENGTH
      ensures MarkerAt(header, 0) && rawLen == LengthField(header)
    {
      PartialLeIsFromLe32(header[9..13]);
    }

    method Reset()
      requires Valid()
      modifies this
      ensures Valid() && header == []
    {
      state := 0;
      header := [];
    }

    /** Take one byte; `text` is what is appended to the log. */
    method Step(data: byte) returns (accepted: bool, text: seq<byte>)
      requires Valid()
      modifies this
      ensures Valid()
      ensures (header, text) == HeaderStep(if |old(header)| == HEADER_LENGTH then [] else old(header), data)
      ensures accepted <==> text == []
    {
      if state == 17 {
        state := 0;
        header := [];
      }
      text := [];
      if state == 0 {
        if data < 128 {
          return false, [data];
        }
        state, rawCmd, rawSeq, rawLen, rawCrc := 1, data, 0, 0, 0;
        header := [data];
      } else if state < 8 {
        if rawCmd != data {
          var i := 0;
          while i < state
            invariant i <= state && text == header[..i]
          {
            text := text + [rawCmd];
            i := i + 1;
          }
          assert header[..state] == header;
          text := text + [data];
          state := 0;
          header := [];
          return false, text;
        }
        state := state + 1;
        header := header + [data];
      } else if state == 8 {
        rawSeq := data;
        state := state + 1;
        header := header + [data];
        assert header[9..] == [];
      } else if state < 13 {
        PartialLeExtends(header[9..], data);
        rawLen := rawLen + data as nat * Scale(state - 9);
        state := state + 1;
        assert header[9..] + [data] == (header + [data])[9..];
        header := header + [data];
        assert state == 13 ==> header[9..] == header[9..13];
      } else {
        PartialLeExtends(header[13..], data);
        rawCrc := rawCrc + data as nat * Scale(state - 13);
        state := state + 1;
        assert header[13..] + [data] == (header + [data])[13..];
        assert header[9..13] == (header + [data])[9..13];
        header := header + [data];
      }
      accepted := true;
    }
  }

  // ---- The read loop ----------------------------------------------------------

  /** While the header is incomplete the state machine does what the decoder does. */
  lemma HeaderStepIsHostFeed(fmt: Format, held: seq<byte>, b: byte)
    requires |held| < HEADER_LENGTH - 1
    ensures HostFeed(fmt, held, b)
            == var (next, text) := HeaderStep(held, b);
               Fed(next, if text == [] then None else Some(Text(text)))
  {}

  /** A held header whose payload is all there is cut out whole. */
  lemma HeaderAndPayloadAreTaken(fmt: Format, held: seq<byte>, b: byte, payload: seq<byte>, rest: seq<byte>)
    requires |held| == HEADER_LENGTH - 1 && MarkerAt(held, 0)
    requires var header := held + [b];
      LengthField(header) == |payload| <= fmt.max
    ensures var whole := held + [b] + payload;
      && fmt.Judge(whole).Some?
      && HostParse(fmt, held, [b] + payload + rest)
         == PrependChunk(Some(Taken(whole, fmt.Judge(whole).value)), HostParse(fmt, [], rest))
  {
    var header := held + [b];
    var whole := header + payload;
    assert whole[9..13] == header[9..13];
    assert MarkerAt(whole, 0) && Framed(fmt, whole);
    BodyIsCollected(fmt, whole, HEADER_LENGTH - 1);
    hide LengthField, Format.Judge, HostFeed, HostParse;
    assert whole[..HEADER_LENGTH - 1] == held && whole[HEADER_LENGTH - 1..] == [b] + payload;
    HostParseOfSum(fmt, held, [b] + payload, rest);
  }

  /** A header that announces too much is cut out alone. */
  lemma HeaderAloneIsTaken(fmt: Format, held: seq<byte>, b: byte, rest: seq<byte>)
    requires |held| == HEADER_LENGTH - 1 && LengthField(held + [b]) > fmt.max
    ensures HostParse(fmt, held, [b] + rest) == PrependChunk(Some(Taken(held + [b], TooLong)), HostParse(fmt, [], rest))
  {
    assert ([b] + rest)[1..] == rest;
  }

  /** A payload that has not fully arrived keeps the loop waiting. */
  lemma {:induction false} PartOfAFrameIsHeld(fmt: Format, buf: seq<byte>, s: seq<byte>)
    requires |buf| >= HEADER_LENGTH && LengthField(buf) <= fmt.max
    requires |buf| + |s| < HEADER_LENGTH + LengthField(buf)
    ensures HostParse(fmt, buf, s) == ([], buf + s)
    decreases |s|
  {
    hide FromLe32;
    if s == [] {
      assert buf + s == buf;
    } else {
      assert (buf + [s[0]])[9..13] == buf[9..13];
      PartOfAFrameIsHeld(fmt, buf + [s[0]], s[1..]);
      assert buf + s == buf + [s[0]] + s[1..];
    }
  }

  lemma ChecksumFieldTells(field: seq<byte>, crc: Register)
    requires |field| == 4
    ensures PartialLe(field) == FromLe32(StoreWord(crc)) <==> LoadWord(field) == crc
  {
    var stored := StoreWord(crc);
    PartialLeIsFromLe32(field);
    FromLe32RoundTrip(field);
    FromLe32RoundTrip(stored);
    StoreWordRoundTrip(crc);
    hide FromLe32, Le32, PartialLe;
    if LoadWord(field) == crc {
      LoadWordIsInjective(field, stored);
    }
  }

  /** The verdict of the read loop on a complete header and its payload. */
  method JudgeFrame(table: array<Register>, mach: StateMachine, payload: seq<byte>) returns (e: Event)
    requires IsCrcTable(table[..]) && mach.Valid() && mach.state == HEADER_LENGTH
    requires mach.rawLen == |payload| <= MAX_FRAME_LENGTH
    ensures Crc32Format(MAX_FRAME_LENGTH).Judge(mach.header + payload) == Some(e)
  {
    hide FrameCrc, IsCrcTable;
    var crc := Crc32(table, mach.rawSeq, |payload|, payload);
    ghost var header, whole := mach.header, mach.header + payload;
    assert whole[9..13] == header[9..13] && whole[13..17] == header[13..17] == header[13..];
    assert whole[HEADER_LENGTH..HEADER_LENGTH + |payload|] == payload;
    PartialLeIsFromLe32(header[9..13]);
    ChecksumFieldTells(header[13..], crc);
    hide PartialLe, FromLe32, StoreWord, LoadWord;
    if FromLe32(StoreWord(crc)) != mach.rawCrc {
      e := BadCrc;
    } else {
      e := Event.Valid(mach.rawCmd, mach.rawSeq, payload);
    }
  }

  /** What the decoder dispatches and logs, from the bytes held and those still to come. */
  ghost function Yield(fmt: Format, held: seq<byte>, s: seq<byte>): (seq<Event>, seq<byte>) {
    var chunks := HostParse(fmt, held, s).0;
    (Events(chunks), LogText(chunks))
  }

  function Joined(events: seq<Event>, log: seq<byte>, y: (seq<Event>, seq<byte>)): (seq<Event>, seq<byte>) {
    (events + y.0, log + y.1)
  }

  lemma JoinedTwice(e: seq<Event>, l: seq<byte>, e': seq<Event>, l': seq<byte>, y: (seq<Event>, seq<byte>))
    ensures Joined(e, l, Joined(e', l', y)) == Joined(e + e', l + l', y)
    ensures e + [] == e && l + [] == l
  {
    assert e + (e' + y.0) == e + e' + y.0;
    assert l + (l' + y.1) == l + l' + y.1;
  }

  lemma JoinedToNothing(y: (seq<Event>, seq<byte>))
    ensures Joined([], [], y) == y == Joined(y.0, y.1, ([], []))
  {
    assert [] + y.0 == y.0 == y.0 + [] && [] + y.1 == y.1 == y.1 + [];
  }

  lemma NothingFollows(fmt: Format, held: seq<byte>, events: seq<Event>, log: seq<byte>)
    ensures Joined(events, log, Yield(fmt, held, [])) == (events, log)
  {
    JoinedToNothing((events, log));
  }

  lemma ChunkYields(c: Chunk, chunks: seq<Chunk>)
    ensures (Events([c] + chunks), LogText([c] + chunks))
            == Joined(match c case Text(_) => [] case Taken(_, e) => [e],
                      match c case Text(t) => t case Taken(_, _) => [],
                      (Events(chunks), LogText(chunks)))
  {
    assert ([c] + chunks)[1..] == chunks;
  }

  lemma HeaderByteYields(fmt: Format, held: seq<byte>, b: byte, rest: seq<byte>)
    requires |held| < HEADER_LENGTH - 1
    ensures var (next, text) := HeaderStep(held, b);
      Yield(fmt, held, [b] + rest) == Joined([], text, Yield(fmt, next, rest))
  {
    HeaderStepIsHostFeed(fmt, held, b);
    hide HostFeed;
    assert ([b] + rest)[1..] == rest;
    var (next, text) := HeaderStep(held, b);
    hide HeaderStep;
    var chunks := HostParse(fmt, next, rest).0;
    if text == [] {
      assert [] + Events(chunks) == Events(chunks) && [] + LogText(chunks) == LogText(chunks);
    } else {
      ChunkYields(Text(text), chunks);
    }
  }

  lemma HeaderAloneYields(fmt: Format, held: seq<byte>, b: byte, rest: seq<byte>)
    requires |held| == HEADER_LENGTH - 1 && LengthField(held + [b]) > fmt.max
    ensures Yield(fmt, held, [b] + rest) == Joined([TooLong], [], Yield(fmt, [], rest))
  {
    HeaderAloneIsTaken(fmt, held, b, rest);
    hide LengthField, HostParse;
    ChunkYields(Taken(held + [b], TooLong), HostParse(fmt, [], rest).0);
  }

  lemma FrameYields(fmt: Format, held: seq<byte>, b: byte, payload: seq<byte>, rest: seq<byte>, e: Event)
    requires |held| == HEADER_LENGTH - 1 && MarkerAt(held, 0)
    requires LengthField(held + [b]) == |payload| <= fmt.max
    requires fmt.Judge(held + [b] + payload) == Some(e)
    ensures Yield(fmt, held, [b] + payload + rest) == Joined([e], [], Yield(fmt, [], rest))
  {
    HeaderAndPayloadAreTaken(fmt, held, b, payload, rest);
    hide LengthField, HostParse, Format.Judge;
    ChunkYields(Taken(held + [b] + payload, e), HostParse(fmt, [], rest).0);
  }

  lemma UnfinishedFrameYieldsNothing(fmt: Format, held: seq<byte>, b: byte, rest: seq<byte>)
    requires |held| == HEADER_LENGTH - 1
    requires |rest| < LengthField(held + [b]) <= fmt.max
    ensures Yield(fmt, held, [b] + rest) == ([], [])
  {
    assert ([b] + rest)[1..] == rest;
    PartOfAFrameIsHeld(fmt, held + [b], rest);
  }

  /**
   The read loop of Open over the bytes that have arrived: it dispatches exactly the events, and
   logs exactly the text, that the decoder cuts the input into.
   */
  method ReadLoop(table: array<Register>, s: seq<byte>) returns (events: seq<Event>, log: seq<byte>)
    requires IsCrcTable(table[..])
    ensures (events, log) == Yield(Crc32Format(MAX_FRAME_LENGTH), [], s)
  {
    ghost var fmt := Crc32Format(MAX_FRAME_LENGTH);
    assert fmt.max == MAX_FRAME_LENGTH;
    hide Crc32Format, FrameCrc, IsCrcTable, Format.Judge, HostParse, FromLe32, HeaderStep, Yield, Joined,
        StateMachine.Valid, LengthField;
    JoinedToNothing(Yield(fmt, [], s));
    assert s[0..] == s;
    var mach := new StateMachine();
    events, log := [], [];
    var i := 0;
    while i < |s|
      invariant i <= |s| && mach.Valid() && |mach.header| < HEADER_LENGTH && fresh(mach)
      invariant Yield(fmt, [], s) == Joined(events, log, Yield(fmt, mach.header, s[i..]))
      decreases |s| - i
    {
      ghost var held, b, rest := mach.header, s[i], s[i + 1..];
      assert s[i..] == [b] + rest;
      var accepted, text := mach.Step(s[i]);
      i := i + 1;
      ghost var was := (events, log);
      log := log + text;
      if mach.state != 17 {
        HeaderByteYields(fmt, held, b, rest);
        JoinedTwice(was.0, was.1, [], text, Yield(fmt, mach.header, rest));
      } else {
        var len: int := if mach.rawLen >= 0x8000_0000 then mach.rawLen - UINT32_LIMIT else mach.rawLen;
        mach.HeaderIsComplete();
        if len < 0 || len > MAX_FRAME_LENGTH {
          HeaderAloneYields(fmt, held, b, rest);
          JoinedTwice(was.0, was.1, [TooLong], [], Yield(fmt, [], rest));
          events := events + [TooLong];
        } else if |s| - i < len {
          UnfinishedFrameYieldsNothing(fmt, held, b, rest);
          JoinedToNothing((events, log));
          return;
        } else {
          var payload := s[i..i + len];
          i := i + len;
          assert [b] + rest == [b] + payload + s[i..];
          var e := JudgeFrame(table, mach, payload);
          FrameYields(fmt, held, b, payload, s[i..], e);
          JoinedTwice(was.0, was.1, [e], [], Yield(fmt, [], s[i..]));
          events := events + [e];
        }
        mach.Reset();
      }
    }
    assert s[i..] == [];
    NothingFollows(fmt, mach.header, events, log);
  }
}
