/** What the assembler makes of a line that carries frames, noise and damaged frames. */
module Streams {
  import opened Bytes
  import opened Crc
  import opened Frames
  import opened Assembler

  /** Noise followed by the bytes of one frame, damaged or not. */
  datatype Piece = Piece(noise: seq<byte>, body: seq<byte>)

  /** Bytes that start with a marker and are as long as their length field says. */
  predicate Framed(fmt: Format, body: seq<byte>) {
    && MarkerAt(body, 0)
    && |body| >= HEADER_LENGTH
    && LengthField(body) <= fmt.max
    && |body| == HEADER_LENGTH + LengthField(body)
  }

  /** Noise that cannot be mistaken for the start of a frame with the given marker. */
  ghost predicate Quiet(noise: seq<byte>, marker: byte) {
    && (forall j: nat :: !MarkerAt(noise, j))
    && (noise != [] ==> noise[|noise| - 1] != marker)
  }

  lemma FramedIsJudged(fmt: Format, body: seq<byte>)
    requires Framed(fmt, body)
    ensures fmt.Judge(body).Some?
  {}

  /** The frame behind some noise is found where it starts if and only if the noise is quiet. */
  lemma AlignedExactlyWhenQuiet(noise: seq<byte>, body: seq<byte>, rest: seq<byte>)
    requires MarkerAt(body, 0)
    ensures FindMarker(noise + body + rest, 0) == Some(|noise|) <==> Quiet(noise, body[0])
  {
    var t := noise + body + rest;
    assert t[|noise|..] == body + rest;
    assert MarkerAt(t, |noise|) by {
      assert forall j :: |noise| <= j < |noise| + 8 ==> t[j] == body[j - |noise|];
    }
    if Quiet(noise, body[0]) {
      forall j | 0 <= j < |noise| ensures !MarkerAt(t, j) {
        NoMarkerInQuiet(noise, body, rest, j);
      }
    } else if exists j: nat :: MarkerAt(noise, j) {
      var j: nat :| MarkerAt(noise, j);
      assert MarkerAt(t, j) by {
        assert forall i :: j <= i < j + 8 ==> t[i] == noise[i];
      }
    } else {
      assert MarkerAt(t, |noise| - 1) by {
        assert forall i :: |noise| <= i < |noise| + 7 ==> t[i] == body[i - |noise|];
      }
    }
  }

  lemma NoMarkerInQuiet(noise: seq<byte>, body: seq<byte>, rest: seq<byte>, j: nat)
    requires MarkerAt(body, 0) && Quiet(noise, body[0]) && j < |noise|
    ensures !MarkerAt(noise + body + rest, j)
  {
    var t, n := noise + body + rest, |noise|;
    assert t[n - 1] == noise[n - 1] && t[n] == body[0];
    if MarkerAt(t, j) && j + 8 <= n {
      assert forall i :: j <= i < j + 8 ==> t[i] == noise[i];
      assert MarkerAt(noise, j);
    }
  }

  /** One piece gives exactly one event, the verdict on its body, and the scan goes on behind it. */
  lemma PieceScansToItsVerdict(fmt: Format, p: Piece, rest: seq<byte>)
    requires Framed(fmt, p.body) && Quiet(p.noise, p.body[0])
    ensures fmt.Judge(p.body).Some?
    ensures Scan(fmt, p.noise + p.body + rest) == [fmt.Judge(p.body).value] + Scan(fmt, rest)
  {
    FramedIsJudged(fmt, p.body);
    hide FromLe32, Format.Judge;
    AlignedExactlyWhenQuiet(p.noise, p.body, rest);
    var t := p.noise + p.body + rest;
    var h := t[|p.noise|..];
    assert h == p.body + rest;
    assert h[..|p.body|] == p.body && h[|p.body|..] == rest;
    LengthIsStable(p.body, h);
  }

  /** A frame on its own. */
  lemma FrameScans(fmt: Format, next: seq<byte>, rest: seq<byte>)
    requires Framed(fmt, next)
    ensures fmt.Judge(next).Some? && Scan(fmt, next + rest) == [fmt.Judge(next).value] + Scan(fmt, rest)
  {
    PieceScansToItsVerdict(fmt, Piece([], next), rest);
    assert [] + next + rest == next + rest;
  }

  function Stream(pieces: seq<Piece>, tail: seq<byte>): seq<byte>
    decreases |pieces|
  {
    if pieces == [] then tail else pieces[0].noise + pieces[0].body + Stream(pieces[1..], tail)
  }

  /** The verdicts on the bodies, in order. */
  function Verdicts(fmt: Format, pieces: seq<Piece>): (r: seq<Event>)
    requires forall p :: p in pieces ==> Framed(fmt, p.body)
    decreases |pieces|
  {
    if pieces == [] then []
    else
      FramedIsJudged(fmt, pieces[0].body);
      [fmt.Judge(pieces[0].body).value] + Verdicts(fmt, pieces[1..])
  }

  /**
   Resynchronisation: whatever quiet noise lies between and behind the frames, the assembler
   reports exactly the verdicts on the frames, in order, however the bytes are chunked.
   */
  lemma {:induction false} LineGivesVerdicts(fmt: Format, pieces: seq<Piece>, tail: seq<byte>, rx: seq<Option<byte>>)
    requires forall p :: p in pieces ==> Framed(fmt, p.body) && Quiet(p.noise, p.body[0])
    requires forall j: nat :: !MarkerAt(tail, j)
    requires Arrived(rx) == Stream(pieces, tail)
    ensures PumpAll(fmt, [], rx).0 == Verdicts(fmt, pieces)
  {
    ChunkingDoesNotMatter(fmt, [], rx);
    ParseIsScan(fmt, Stream(pieces, tail));
    LineScansToVerdicts(fmt, pieces, tail);
  }

  lemma {:induction false} LineScansToVerdicts(fmt: Format, pieces: seq<Piece>, tail: seq<byte>)
    requires forall p :: p in pieces ==> Framed(fmt, p.body) && Quiet(p.noise, p.body[0])
    requires forall j: nat :: !MarkerAt(tail, j)
    ensures Scan(fmt, Stream(pieces, tail)) == Verdicts(fmt, pieces)
    decreases |pieces|
  {
    hide LengthField, Format.Judge;
    if pieces == [] {
      assert FindMarker(tail, 0) == None;
    } else {
      LineScansToVerdicts(fmt, pieces[1..], tail);
      PieceScansToItsVerdict(fmt, pieces[0], Stream(pieces[1..], tail));
    }
  }

  /** The bytes of every well-formed frame make a piece whose verdict means that frame. */
  lemma FrameBytesAreFramed(fmt: Format, f: Frame)
    requires fmt.Valid() && fmt.Wellformed(f)
    ensures Framed(fmt, fmt.FrameBytes(f))
    ensures fmt.Judge(fmt.FrameBytes(f)).Some? && Meaning(fmt.Judge(fmt.FrameBytes(f)).value) == f
  {
    FrameRoundTrip(fmt, f);
    match f
    case Data(s, m) => EncodeIsFramed(fmt, m.cmd + 128, s, m.payload);
    case Ack(s) => EncodeIsFramed(fmt, 128, 64 + s, []);
    case Nack(s) => EncodeIsFramed(fmt, 128, 128 + s, []);
  }

  lemma EncodeIsFramed(fmt: Format, marker: byte, seqByte: byte, payload: seq<byte>)
    requires marker >= 128 && |payload| <= fmt.max < UINT32_LIMIT
    ensures Framed(fmt, fmt.Encode(marker, seqByte, payload))
  {
    EncodeFields(fmt, marker, seqByte, payload);
    EncodeIsJudgedValid(fmt, marker, seqByte, payload);
    var r := fmt.Encode(marker, seqByte, payload);
    assert forall j :: 0 <= j < 8 ==> r[j] == r[..8][j];
  }

  /** A damaged frame is a piece too, and its verdict is the checksum error. */
  lemma DamagedFrameIsCorrupt(max: nat, bad: seq<byte>, marker: byte, seqByte: byte, payload: seq<byte>)
    requires marker >= 128 && |payload| <= max < UINT32_LIMIT
    requires SameShape(Crc32Format(max), bad, marker, seqByte, payload)
    requires Damaged(Crc32Format(max), bad, seqByte, payload)
    ensures Framed(Crc32Format(max), bad)
    ensures Crc32Format(max).Judge(bad) == Some(BadCrc) && Meaning(BadCrc) == Corrupt
  {
    hide FrameCrc;
    DamageIsDetected(max, bad, marker, seqByte, payload);
    EncodeFields(Crc32Format(max), marker, seqByte, payload);
    assert forall j :: 0 <= j < 8 ==> bad[j] == bad[..8][j] == marker;
  }

  // ---- Channels of bytes and channels of frames -------------------------------

  /** The piece carries the frame: its bytes, or, for a corrupt arrival, bytes that fail their checksum. */
  ghost predicate Carries(fmt: Format, p: Piece, f: Frame)
    requires fmt.Valid()
  {
    && Framed(fmt, p.body) && Quiet(p.noise, p.body[0])
    && if f.Corrupt? then fmt.Judge(p.body) == Some(BadCrc) else fmt.Wellformed(f) && p.body == fmt.FrameBytes(f)
  }

  function Meanings(events: seq<Event>): (r: seq<Frame>)
    ensures |r| == |events|
  {
    seq(|events|, i requires 0 <= i < |events| => Meaning(events[i]))
  }

  /**
   A byte line that carries a list of frames behaves as a channel of those frames: reading it
   to the end, in whatever chunks, yields exactly the frames, corrupt ones included, in order.
   */
  lemma {:induction false} LineCarriesFrames(fmt: Format, pieces: seq<Piece>, frames: seq<Frame>, tail: seq<byte>,
                                             rx: seq<Option<byte>>)
    requires fmt.Valid() && |pieces| == |frames|
    requires forall i :: 0 <= i < |pieces| ==> Carries(fmt, pieces[i], frames[i])
    requires forall j: nat :: !MarkerAt(tail, j)
    requires Arrived(rx) == Stream(pieces, tail)
    ensures Meanings(PumpAll(fmt, [], rx).0) == frames
  {
    forall p | p in pieces ensures Framed(fmt, p.body) && Quiet(p.noise, p.body[0]) {
      var i :| 0 <= i < |pieces| && pieces[i] == p;
      assert Carries(fmt, pieces[i], frames[i]);
    }
    LineGivesVerdicts(fmt, pieces, tail, rx);
    VerdictsMean(fmt, pieces, frames);
  }

  lemma CarriesMeans(fmt: Format, p: Piece, f: Frame)
    requires fmt.Valid() && Carries(fmt, p, f)
    ensures fmt.Judge(p.body).Some? && Meaning(fmt.Judge(p.body).value) == f
  {
    FramedIsJudged(fmt, p.body);
    hide Format.Judge, LengthField;
    if !f.Corrupt? {
      FrameBytesAreFramed(fmt, f);
    }
  }

  lemma {:induction false} VerdictsMean(fmt: Format, pieces: seq<Piece>, frames: seq<Frame>)
    requires fmt.Valid() && |pieces| == |frames|
    requires forall i :: 0 <= i < |pieces| ==> Carries(fmt, pieces[i], frames[i])
    requires forall p :: p in pieces ==> Framed(fmt, p.body)
    ensures Meanings(Verdicts(fmt, pieces)) == frames
    decreases |pieces|
  {
    hide Format.Judge, LengthField, Carries;
    if pieces != [] {
      CarriesMeans(fmt, pieces[0], frames[0]);
      VerdictsMean(fmt, pieces[1..], frames[1..]);
      assert frames == [frames[0]] + frames[1..];
    }
  }

  lemma FrameBehindNoise(fmt: Format, noise: seq<byte>, body: seq<byte>, f: Frame)
    requires Framed(fmt, body) && Quiet(noise, body[0])
    requires fmt.Judge(body).Some? && Meaning(fmt.Judge(body).value) == f
    ensures Meanings(Parse(fmt, [], noise + body).0) == [f]
  {
    var line, piece := noise + body, Piece(noise, body);
    hide Framed, Format.Judge, Parse;
    LineScansToVerdicts(fmt, [piece], []);
    assert Stream([piece], []) == line;
    ParseIsScan(fmt, line);
    assert Verdicts(fmt, [piece]) == [fmt.Judge(body).value];
  }

  // ---- Damage to the marker ---------------------------------------------------

  /**
   Damage to a marker byte can do more than lose the frame. A short message whose payload is itself a
   data frame: with one marker byte of the outer frame damaged, the assembler delivers the inner
   frame, which nobody sent.
   */
  lemma MarkerDamageCanForge(fmt: Format, cmd: byte, seq6: nat, inner: Frame)
    requires fmt.Valid() && fmt.Wellformed(inner) && inner.Data? && 1 <= cmd <= 127 && seq6 < SEQUENCES
    requires var payload := fmt.FrameBytes(inner);
      && |payload| <= fmt.max && |payload| < 128
      && fmt.DataBytes(seq6, Message(cmd, payload))[16] != payload[0]
    ensures var payload := fmt.FrameBytes(inner);
      Meanings(Parse(fmt, [], fmt.DataBytes(seq6, Message(cmd, payload))[0 := 0]).0) == [inner]
  {
    var payload := fmt.FrameBytes(inner);
    var outer := fmt.DataBytes(seq6, Message(cmd, payload));
    var noise := outer[..17][0 := 0];
    FrameBytesAreFramed(fmt, inner);
    EncodeFields(fmt, cmd + 128, seq6, payload);
    hide LengthField, Format.Judge, Format.Encode, Framed;
    assert outer[0 := 0] == noise + payload;
    assert noise[8] == seq6 && noise[9] == noise[9..13][0] == |payload|;
    HeadIsQuiet(noise, payload[0]);
    FrameBehindNoise(fmt, noise, payload, inner);
  }

  /** A zero at the start and two low bytes in the middle leave no room for a marker in a header. */
  lemma HeadIsQuiet(noise: seq<byte>, marker: byte)
    requires |noise| == HEADER_LENGTH && noise[0] < 128 && noise[8] < 128 && noise[9] < 128 && noise[16] != marker
    ensures Quiet(noise, marker)
  {
    forall j: nat ensures !MarkerAt(noise, j) {
      if j + 8 <= |noise| {
        var low := if j == 0 then 0 else if j <= 8 then 8 else 9;
        assert j <= low < j + 8 && noise[low] < 128;
      }
    }
  }
}
