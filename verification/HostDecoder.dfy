/**
 The byte decoder of the C# session: the 17-byte header state machine, which also collects log
 text, and the read loop around it. It is compared with the assembler of frame_arq.c.
 */
module HostDecoder {
  import opened Bytes
  import opened Frames
  import opened Assembler
  import opened Streams

  const MAX_FRAME_LENGTH := 32768

  // ---- One byte ---------------------------------------------------------------

  /** The consumed input is cut into log text and frames. */
  datatype Chunk =
    | Text(bytes: seq<byte>)
    | Taken(bytes: seq<byte>, event: Event)

  /** What is held, and the chunk that this byte completes. */
  datatype Fed = Fed(buf: seq<byte>, chunk: Option<Chunk>)

  /** StateMachine.Step and the read loop: unlike the C assembler, a mismatch drops the new byte too. */
  function HostFeed(fmt: Format, buf: seq<byte>, b: byte): (h: Fed)
    ensures if h.chunk.None? then h.buf == buf + [b] else h.buf == [] && h.chunk.value.bytes == buf + [b]
    ensures h.chunk.Some? && h.chunk.value.Taken? ==> fmt.Judge(buf + [b]) == Some(h.chunk.value.event)
  {
    if |buf| < 8 then
      if buf == [] then
        if b < 128 then Fed([], Some(Text([b]))) else Fed([b], None)
      else if b != buf[0] then Fed([], Some(Text(buf + [b])))
      else Fed(buf + [b], None)
    else
      match fmt.Judge(buf + [b])
      case None => Fed(buf + [b], None)
      case Some(e) => Fed([], Some(Taken(buf + [b], e)))
  }

  /** A whole stream: its chunks, and what is still held at the end. */
  function HostParse(fmt: Format, buf: seq<byte>, s: seq<byte>): (r: (seq<Chunk>, seq<byte>))
    decreases |s|
  {
    if s == [] then ([], buf)
    else
      var h := HostFeed(fmt, buf, s[0]);
      PrependChunk(h.chunk, HostParse(fmt, h.buf, s[1..]))
  }

  function PrependChunk(c: Option<Chunk>, r: (seq<Chunk>, seq<byte>)): (seq<Chunk>, seq<byte>) {
    match c
    case None => r
    case Some(chunk) => ([chunk] + r.0, r.1)
  }

  function Events(chunks: seq<Chunk>): seq<Event> {
    if chunks == [] then []
    else (match chunks[0] case Text(_) => [] case Taken(_, e) => [e]) + Events(chunks[1..])
  }

  /** The log text that GetNextLogData will return. */
  function LogText(chunks: seq<Chunk>): seq<byte> {
    if chunks == [] then []
    else (match chunks[0] case Text(t) => t case Taken(_, _) => []) + LogText(chunks[1..])
  }

  function AllBytes(chunks: seq<Chunk>): seq<byte> {
    if chunks == [] then [] else chunks[0].bytes + AllBytes(chunks[1..])
  }

  /**
   Nothing is lost or invented: the chunks and the bytes held make up the consumed input, and what is
   cut out is judged frames.
   */
  lemma {:induction false} InputIsCutIntoChunks(fmt: Format, buf: seq<byte>, s: seq<byte>)
    ensures var (chunks, rest) := HostParse(fmt, buf, s);
      && AllBytes(chunks) + rest == buf + s
      && forall c :: c in chunks && c.Taken? ==> fmt.Judge(c.bytes) == Some(c.event)
    decreases |s|
  {
    hide HostFeed, Format.Judge;
    if s == [] {
      assert buf + s == buf;
    } else {
      var h := HostFeed(fmt, buf, s[0]);
      InputIsCutIntoChunks(fmt, h.buf, s[1..]);
      assert buf + s == buf + [s[0]] + s[1..];
      if h.chunk.Some? {
        PrependedBytes(h.chunk.value, HostParse(fmt, h.buf, s[1..]).0, HostParse(fmt, h.buf, s[1..]).1);
      }
    }
  }

  lemma PrependedBytes(c: Chunk, chunks: seq<Chunk>, rest: seq<byte>)
    ensures AllBytes([c] + chunks) + rest == c.bytes + (AllBytes(chunks) + rest)
  {
    assert ([c] + chunks)[1..] == chunks;
  }

  // ---- Agreement with the C assembler -----------------------------------------

  lemma {:induction false} HostParseOfSum(fmt: Format, buf: seq<byte>, s: seq<byte>, t: seq<byte>)
    ensures var (c1, b1) := HostParse(fmt, buf, s);
      var (c2, b2) := HostParse(fmt, b1, t);
      HostParse(fmt, buf, s + t) == (c1 + c2, b2)
    decreases |s|
  {
    if s == [] {
      assert s + t == t;
      assert [] + HostParse(fmt, buf, t).0 == HostParse(fmt, buf, t).0;
    } else {
      assert (s + t)[1..] == s[1..] + t;
      var h := HostFeed(fmt, buf, s[0]);
      HostParseOfSum(fmt, h.buf, s[1..], t);
      hide HostFeed;
      if h.chunk.Some? {
        var c1, c2 := HostParse(fmt, h.buf, s[1..]).0, HostParse(fmt, HostParse(fmt, h.buf, s[1..]).1, t).0;
        assert ([h.chunk.value] + c1) + c2 == [h.chunk.value] + (c1 + c2);
      }
    }
  }

  lemma {:induction false} EventsOfSum(a: seq<Chunk>, b: seq<Chunk>)
    ensures Events(a + b) == Events(a) + Events(b)
  {
    if a == [] {
      assert a + b == b;
    } else {
      assert (a + b)[1..] == a[1..] + b;
      EventsOfSum(a[1..], b);
    }
  }

  // ---- When the decoder is ready for a frame ----------------------------------

  /** How many bytes at the start equal the first. */
  function RunLength(s: seq<byte>): (n: nat)
    requires s != []
    ensures 1 <= n <= |s| && (n < |s| ==> s[n] != s[0])
    ensures forall i :: 0 <= i < n ==> s[i] == s[0]
  {
    if |s| == 1 || s[1] != s[0] then 1 else 1 + RunLength(s[1..])
  }

  /**
   Every byte of at least 128 that opens a candidate marker is followed, within the next seven, by
   a different one, which ends the candidate and is dropped with it.
   */
  predicate Harmless(noise: seq<byte>)
    decreases |noise|
  {
    noise == []
    || if noise[0] < 128 then Harmless(noise[1..])
       else var n := RunLength(noise); n < 8 && n < |noise| && Harmless(noise[n + 1..])
  }

  lemma {:induction false} AsciiIsHarmless(s: seq<byte>)
    requires forall i :: 0 <= i < |s| ==> s[i] < 128
    ensures Harmless(s)
    decreases |s|
  {
    if s != [] {
      AsciiIsHarmless(s[1..]);
    }
  }

  /** Up to eight equal high bytes are held. */
  lemma {:induction false} RunIsHeld(fmt: Format, s: seq<byte>, k: nat, n: nat)
    requires s != [] && s[0] >= 128 && k <= n <= RunLength(s) && n <= 8
    ensures HostParse(fmt, s[..k], s[k..]) == HostParse(fmt, s[..n], s[n..])
    decreases n - k
  {
    if k < n {
      assert s[k..][0] == s[k] == s[0] && s[k..][1..] == s[k + 1..];
      assert k > 0 ==> s[..k][0] == s[0];
      assert s[..k] + [s[k]] == s[..k + 1];
      assert HostFeed(fmt, s[..k], s[k]) == Fed(s[..k + 1], None);
      RunIsHeld(fmt, s, k + 1, n);
    }
  }

  /** A marker that has been taken in ends as a frame or is still held. */
  lemma {:induction false} MarkerDoesNotVanish(fmt: Format, buf: seq<byte>, s: seq<byte>)
    requires |buf| >= 8
    ensures HostParse(fmt, buf, s).1 != [] || Events(HostParse(fmt, buf, s).0) != []
    decreases |s|
  {
    hide Format.Judge;
    if s != [] && HostFeed(fmt, buf, s[0]).chunk.None? {
      MarkerDoesNotVanish(fmt, buf + [s[0]], s[1..]);
    }
  }

  /** What an open candidate followed by a different byte does. */
  lemma CandidateIsDropped(fmt: Format, s: seq<byte>)
    requires s != [] && s[0] >= 128 && RunLength(s) < 8 && RunLength(s) < |s|
    ensures var n := RunLength(s);
      HostParse(fmt, [], s) == PrependChunk(Some(Text(s[..n + 1])), HostParse(fmt, [], s[n + 1..]))
  {
    var n := RunLength(s);
    RunIsHeld(fmt, s, 0, n);
    assert s[..0] == [] && s[0..] == s;
    assert s[n..][0] == s[n] && s[n..][1..] == s[n + 1..] && s[..n] + [s[n]] == s[..n + 1];
    assert HostFeed(fmt, s[..n], s[n]) == Fed([], Some(Text(s[..n + 1])));
  }

  /** Noise all goes to the log, and leaves the decoder as at the start, exactly when it is harmless. */
  lemma {:induction false} LoggedExactlyWhenHarmless(fmt: Format, noise: seq<byte>)
    ensures Harmless(noise) <==> HostParse(fmt, [], noise).1 == [] && Events(HostParse(fmt, [], noise).0) == []
    decreases |noise|
  {
    if noise != [] {
      if noise[0] < 128 {
        LoggedExactlyWhenHarmless(fmt, noise[1..]);
        TextIsNoEvent([noise[0]], HostParse(fmt, [], noise[1..]).0);
      } else {
        var n := RunLength(noise);
        if n < 8 && n < |noise| {
          LoggedExactlyWhenHarmless(fmt, noise[n + 1..]);
          CandidateIsDropped(fmt, noise);
          TextIsNoEvent(noise[..n + 1], HostParse(fmt, [], noise[n + 1..]).0);
        } else {
          var k := if n < 8 then n else 8;
          RunIsHeld(fmt, noise, 0, k);
          assert noise[..0] == [] && noise[0..] == noise;
          if n >= 8 {
            MarkerDoesNotVanish(fmt, noise[..8], noise[8..]);
          } else {
            assert noise[n..] == [];
          }
        }
      }
    }
  }

  lemma TextIsNoEvent(bytes: seq<byte>, chunks: seq<Chunk>)
    ensures Events([Text(bytes)] + chunks) == Events(chunks)
  {
    assert ([Text(bytes)] + chunks)[1..] == chunks;
    assert [] + Events(chunks) == Events(chunks);
  }

  /** Without a marker in it, input holds no frame for the session either. */
  lemma {:induction false} NoMarkerNoFrame(fmt: Format, s: seq<byte>)
    requires forall j: nat :: !MarkerAt(s, j)
    ensures Events(HostParse(fmt, [], s).0) == []
    decreases |s|
  {
    if s != [] {
      if s[0] < 128 {
        WithoutMarker(s, 1);
        NoMarkerNoFrame(fmt, s[1..]);
        TextIsNoEvent([s[0]], HostParse(fmt, [], s[1..]).0);
      } else {
        var n := RunLength(s);
        assert n < 8 by {
          if n >= 8 {
            assert MarkerAt(s, 0);
          }
        }
        if n < |s| {
          WithoutMarker(s, n + 1);
          NoMarkerNoFrame(fmt, s[n + 1..]);
          CandidateIsDropped(fmt, s);
          TextIsNoEvent(s[..n + 1], HostParse(fmt, [], s[n + 1..]).0);
        } else {
          RunIsHeld(fmt, s, 0, n);
          assert s[..0] == [] && s[0..] == s && s[n..] == [];
        }
      }
    }
  }

  lemma WithoutMarker(s: seq<byte>, k: nat)
    requires k <= |s| && forall j: nat :: !MarkerAt(s, j)
    ensures forall j: nat :: !MarkerAt(s[k..], j)
  {
    forall j: nat ensures !MarkerAt(s[k..], j) {
      if MarkerAt(s[k..], j) {
        assert forall i :: j + k <= i < j + k + 8 ==> s[i] == s[k..][i - k];
        assert MarkerAt(s, j + k);
      }
    }
  }

  /** Collecting a framed body from some point inside it ends with its verdict. */
  lemma {:induction false} BodyIsCollected(fmt: Format, body: seq<byte>, k: nat)
    requires Framed(fmt, body) && k < |body|
    ensures fmt.Judge(body).Some?
    ensures HostParse(fmt, body[..k], body[k..]) == ([Taken(body, fmt.Judge(body).value)], [])
    decreases |body| - k
  {
    FramedIsJudged(fmt, body);
    JudgeWaits(fmt, body, k);
    if k + 1 < |body| {
      JudgeWaits(fmt, body, k + 1);
    }
    hide LengthField, Format.Judge;
    assert body[..k] + [body[k]] == body[..k + 1];
    assert body[k..][1..] == body[k + 1..];
    if k + 1 < |body| {
      assert HostFeed(fmt, body[..k], body[k]) == Fed(body[..k + 1], None);
      BodyIsCollected(fmt, body, k + 1);
    } else {
      assert body[..k + 1] == body;
      var h := Fed([], Some(Taken(body, fmt.Judge(body).value)));
      assert HostFeed(fmt, body[..k], body[k]) == h;
      assert HostParse(fmt, h.buf, body[k..][1..]) == ([], []);
      assert [h.chunk.value] + [] == [h.chunk.value];
    }
  }

  /** The last thing the decoder cuts out is this frame, and nothing is held behind it. */
  ghost predicate EndsWith(r: (seq<Chunk>, seq<byte>), body: seq<byte>) {
    r.1 == [] && r.0 != [] && r.0[|r.0| - 1].Taken? && r.0[|r.0| - 1].bytes == body
  }

  /** Behind any noise at all a frame is found exactly when the noise leaves the decoder as at the start. */
  lemma FoundExactlyWhenReady(fmt: Format, noise: seq<byte>, body: seq<byte>)
    requires Framed(fmt, body)
    ensures EndsWith(HostParse(fmt, [], noise + body), body) <==> HostParse(fmt, [], noise).1 == []
  {
    hide Format.Judge, HostFeed, HostParse;
    assert |body| >= HEADER_LENGTH;
    var whole, held := HostParse(fmt, [], noise + body), HostParse(fmt, [], noise).1;
    var (c2, rest) := HostParse(fmt, held, body);
    HostParseOfSum(fmt, [], noise, body);
    if held == [] {
      BodyIsCollected(fmt, body, 0);
      assert body[..0] == [] && body[0..] == body;
    } else if EndsWith(whole, body) {
      InputIsCutIntoChunks(fmt, held, body);
      if c2 != [] {
        assert c2[|c2| - 1] == whole.0[|whole.0| - 1];
        assert AllBytes(c2) == held + body;
        LastChunkIsNotAll(fmt, held, body, c2);
      }
    }
  }

  lemma LastChunkIsNotAll(fmt: Format, held: seq<byte>, body: seq<byte>, c: seq<Chunk>)
    requires c == HostParse(fmt, held, body).0 && c != [] && c[|c| - 1].bytes == body && AllBytes(c) == held + body
    ensures held == []
  {
    hide HostParse;
    var before := c[..|c| - 1];
    assert c == before + [c[|c| - 1]];
    AllBytesOfSum(before, [c[|c| - 1]]);
    assert [c[|c| - 1]][1..] == [];
    assert |AllBytes(before)| == |held|;
    if before != [] {
      assert before[0] == c[0];
      FirstChunkIsLonger(fmt, held, body);
    }
  }

  lemma {:induction false} AllBytesOfSum(a: seq<Chunk>, b: seq<Chunk>)
    ensures AllBytes(a + b) == AllBytes(a) + AllBytes(b)
  {
    if a == [] {
      assert a + b == b;
    } else {
      assert (a + b)[1..] == a[1..] + b;
      AllBytesOfSum(a[1..], b);
    }
  }

  lemma {:induction false} FirstChunkIsLonger(fmt: Format, buf: seq<byte>, s: seq<byte>)
    requires HostParse(fmt, buf, s).0 != []
    ensures |HostParse(fmt, buf, s).0[0].bytes| > |buf|
    decreases |s|
  {
    hide Format.Judge;
    if s != [] && HostFeed(fmt, buf, s[0]).chunk.None? {
      FirstChunkIsLonger(fmt, HostFeed(fmt, buf, s[0]).buf, s[1..]);
    }
  }

  /** Behind noise without a marker the session finds the frame exactly when the noise is harmless. */
  lemma FoundExactlyWhenHarmless(fmt: Format, noise: seq<byte>, body: seq<byte>)
    requires Framed(fmt, body) && forall j: nat :: !MarkerAt(noise, j)
    ensures EndsWith(HostParse(fmt, [], noise + body), body) <==> Harmless(noise)
  {
    FoundExactlyWhenReady(fmt, noise, body);
    LoggedExactlyWhenHarmless(fmt, noise);
    NoMarkerNoFrame(fmt, noise);
  }

  /** Harmless noise and a frame give the frame's verdict, and the decoder is as at the start behind it. */
  lemma PieceIsExtracted(fmt: Format, p: Piece, rest: seq<byte>)
    requires Framed(fmt, p.body) && Harmless(p.noise)
    ensures fmt.Judge(p.body).Some?
    ensures Events(HostParse(fmt, [], p.noise + p.body + rest).0)
            == [fmt.Judge(p.body).value] + Events(HostParse(fmt, [], rest).0)
  {
    assert |p.body| >= HEADER_LENGTH;
    hide LengthField, Format.Judge, HostFeed, HostParse, Framed;
    BodyIsCollected(fmt, p.body, 0);
    LoggedExactlyWhenHarmless(fmt, p.noise);
    assert p.body[..0] == [] && p.body[0..] == p.body;
    var e := fmt.Judge(p.body).value;
    OneChunk(Taken(p.body, e));
    hide Events;
    HostEventsOfSum(fmt, p.noise, p.body);
    HostEventsOfSum(fmt, p.noise + p.body, rest);
    assert [] + [e] == [e];
  }

  lemma OneChunk(c: Chunk)
    ensures Events([c]) == match c case Text(_) => [] case Taken(_, e) => [e]
  {
    assert [c][1..] == [];
  }

  /** Where the decoder is back at its start, the events of the rest follow. */
  lemma HostEventsOfSum(fmt: Format, s: seq<byte>, t: seq<byte>)
    requires HostParse(fmt, [], s).1 == []
    ensures HostParse(fmt, [], s + t).1 == HostParse(fmt, [], t).1
    ensures Events(HostParse(fmt, [], s + t).0) == Events(HostParse(fmt, [], s).0) + Events(HostParse(fmt, [], t).0)
  {
    hide HostParse, Events;
    HostParseOfSum(fmt, [], s, t);
    EventsOfSum(HostParse(fmt, [], s).0, HostParse(fmt, [], t).0);
  }

  /** On frames separated by harmless noise the session extracts exactly the frames. */
  lemma {:induction false} HostGivesVerdicts(fmt: Format, pieces: seq<Piece>, tail: seq<byte>)
    requires forall p :: p in pieces ==> Framed(fmt, p.body) && Harmless(p.noise)
    requires forall j: nat :: !MarkerAt(tail, j)
    ensures Events(HostParse(fmt, [], Stream(pieces, tail)).0) == Verdicts(fmt, pieces)
    decreases |pieces|
  {
    hide LengthField, Format.Judge, HostParse, Framed, Harmless, MarkerAt;
    if pieces == [] {
      NoMarkerNoFrame(fmt, tail);
    } else {
      HostGivesVerdicts(fmt, pieces[1..], tail);
      PieceIsExtracted(fmt, pieces[0], Stream(pieces[1..], tail));
    }
  }

  // ---- The log ----------------------------------------------------------------

  lemma {:induction false} TextIsAllBytes(chunks: seq<Chunk>)
    requires Events(chunks) == []
    ensures LogText(chunks) == AllBytes(chunks)
  {
    if chunks != [] {
      assert chunks[0].Text?;
      TextIsAllBytes(chunks[1..]);
    }
  }

  /** While no frame is cut out, the log and the bytes held are the input. */
  lemma NoFrameAllLogged(fmt: Format, buf: seq<byte>, s: seq<byte>)
    requires Events(HostParse(fmt, buf, s).0) == []
    ensures LogText(HostParse(fmt, buf, s).0) + HostParse(fmt, buf, s).1 == buf + s
  {
    InputIsCutIntoChunks(fmt, buf, s);
    TextIsAllBytes(HostParse(fmt, buf, s).0);
  }

  lemma {:induction false} LogOfSum(a: seq<Chunk>, b: seq<Chunk>)
    ensures LogText(a + b) == LogText(a) + LogText(b)
  {
    if a == [] {
      assert a + b == b;
    } else {
      assert (a + b)[1..] == a[1..] + b;
      LogOfSum(a[1..], b);
    }
  }

  function Noises(pieces: seq<Piece>): seq<byte> {
    if pieces == [] then [] else pieces[0].noise + Noises(pieces[1..])
  }

  lemma PieceIsLogged(fmt: Format, p: Piece, rest: seq<byte>)
    requires Framed(fmt, p.body) && Harmless(p.noise)
    ensures LogText(HostParse(fmt, [], p.noise + p.body + rest).0) == p.noise + LogText(HostParse(fmt, [], rest).0)
  {
    assert |p.body| >= HEADER_LENGTH;
    hide LengthField, Format.Judge, HostFeed, HostParse, Framed;
    BodyIsCollected(fmt, p.body, 0);
    LoggedExactlyWhenHarmless(fmt, p.noise);
    NoFrameAllLogged(fmt, [], p.noise);
    assert p.body[..0] == [] && p.body[0..] == p.body;
    var noise, body := HostParse(fmt, [], p.noise), HostParse(fmt, [], p.body);
    assert noise.0 + body.0 + HostParse(fmt, [], rest).0 == HostParse(fmt, [], p.noise + p.body + rest).0 by {
      HostParseOfSum(fmt, [], p.noise, p.body);
      HostParseOfSum(fmt, [], p.noise + p.body, rest);
    }
    LogOfSum(noise.0, body.0);
    LogOfSum(noise.0 + body.0, HostParse(fmt, [], rest).0);
    assert LogText(body.0) == [] by {
      assert body.0[1..] == [];
    }
    hide LogText;
    assert LogText(noise.0) + [] == p.noise;
  }

  /** Between and behind the frames the log text is what is not frames, all of it and in order. */
  lemma {:induction false} HostLogsTheNoise(fmt: Format, pieces: seq<Piece>, tail: seq<byte>)
    requires forall p :: p in pieces ==> Framed(fmt, p.body) && Harmless(p.noise)
    requires Harmless(tail)
    ensures LogText(HostParse(fmt, [], Stream(pieces, tail)).0) == Noises(pieces) + tail
    decreases |pieces|
  {
    hide LengthField, Format.Judge, HostParse, Framed, Harmless;
    if pieces == [] {
      LoggedExactlyWhenHarmless(fmt, tail);
      NoFrameAllLogged(fmt, [], tail);
    } else {
      HostLogsTheNoise(fmt, pieces[1..], tail);
      PieceIsLogged(fmt, pieces[0], Stream(pieces[1..], tail));
      assert Noises(pieces) + tail == pieces[0].noise + (Noises(pieces[1..]) + tail);
    }
  }

  /**
   Both decoders agree: on frames that both sides accept, separated by noise that is quiet to the
   one and harmless to the other, they extract the same events, the verdicts on the frames, in order.
   */
  lemma DecodersAgree(fmt: Format, pieces: seq<Piece>, tail: seq<byte>, rx: seq<Option<byte>>)
    requires forall p :: p in pieces ==>
      && Framed(fmt, p.body) && Framed(fmt.(max := MAX_FRAME_LENGTH), p.body)
      && Quiet(p.noise, p.body[0]) && Harmless(p.noise)
    requires (forall j: nat :: !MarkerAt(tail, j)) && Arrived(rx) == Stream(pieces, tail)
    ensures PumpAll(fmt, [], rx).0 == Events(HostParse(fmt.(max := MAX_FRAME_LENGTH), [], Stream(pieces, tail)).0)
  {
    var host := fmt.(max := MAX_FRAME_LENGTH);
    hide LengthField, Harmless, MarkerAt;
    LineGivesVerdicts(fmt, pieces, tail, rx);
    HostGivesVerdicts(host, pieces, tail);
    VerdictsDoNotDependOnMax(fmt, host, pieces);
  }

  /** Text below 128 is both. */
  lemma TextIsQuietAndHarmless(s: seq<byte>, marker: byte)
    requires (forall i :: 0 <= i < |s| ==> s[i] < 128) && marker >= 128
    ensures Quiet(s, marker) && Harmless(s)
  {
    AsciiIsHarmless(s);
    forall j: nat ensures !MarkerAt(s, j) {}
  }

  lemma {:induction false} VerdictsDoNotDependOnMax(f: Format, g: Format, pieces: seq<Piece>)
    requires f.sum == g.sum
    requires forall p :: p in pieces ==> Framed(f, p.body) && Framed(g, p.body)
    ensures Verdicts(f, pieces) == Verdicts(g, pieces)
    decreases |pieces|
  {
    if pieces != [] {
      assert f.Judge(pieces[0].body) == g.Judge(pieces[0].body);
      VerdictsDoNotDependOnMax(f, g, pieces[1..]);
    }
  }

  /**
   They do not agree in general. After a single stray byte of at least 128 the C assembler still
   finds the frame, while the session loses its marker and finds nothing.
   */
  lemma StrayByteLosesTheFrame(fmt: Format, stray: byte, seq6: nat)
    requires fmt.Valid() && seq6 < SEQUENCES && stray > 128
    ensures var line := [stray] + fmt.ControlBytes(1, seq6);
      && Meanings(Parse(fmt, [], line).0) == [Ack(seq6)]
      && Events(HostParse(fmt, [], line).0) == []
  {
    var body := fmt.FrameBytes(Ack(seq6));
    FrameBytesAreFramed(fmt, Ack(seq6));
    EncodeFields(fmt, 128, 64 + seq6, []);
    assert Quiet([stray], body[0]);
    FrameBehindNoise(fmt, [stray], body, Ack(seq6));
    var line, after := [stray] + body, ([stray] + body)[2..];
    assert line == [stray, 128] + after;
    StrayIsDropped(fmt, stray, 128, after);
    TooShortForAFrame(fmt, [], after);
  }

  lemma StrayIsDropped(fmt: Format, x: byte, y: byte, rest: seq<byte>)
    requires x >= 128 && x != y
    ensures Events(HostParse(fmt, [], [x, y] + rest).0) == Events(HostParse(fmt, [], rest).0)
  {
    var s, chunks := [y] + rest, HostParse(fmt, [], rest).0;
    assert ([x, y] + rest)[1..] == s && s[1..] == rest;
    assert HostFeed(fmt, [x], y) == Fed([], Some(Text([x] + [y])));
    assert HostParse(fmt, [x], s).0 == [Text([x] + [y])] + chunks;
    assert ([Text([x] + [y])] + chunks)[1..] == chunks;
  }

  lemma {:induction false} TooShortForAFrame(fmt: Format, buf: seq<byte>, s: seq<byte>)
    requires |buf| + |s| < HEADER_LENGTH
    ensures Events(HostParse(fmt, buf, s).0) == []
    decreases |s|
  {
    if s != [] {
      var h := HostFeed(fmt, buf, s[0]);
      TooShortForAFrame(fmt, h.buf, s[1..]);
      var chunks := HostParse(fmt, h.buf, s[1..]).0;
      if h.chunk.Some? {
        assert ([h.chunk.value] + chunks)[1..] == chunks;
      }
    }
  }
}
