/** When a piece of the line is a pure loss: when the assembler goes on behind it as if it had not been there. */
module Losses {
  import opened Bytes
  import opened Bits
  import opened Frames
  import opened Assembler
  import opened Streams

  /** Whatever follows, the frame behind the noise is all that is seen of both. */
  ghost predicate PureLoss(fmt: Format, noise: seq<byte>, next: seq<byte>) {
    forall rest :: Scan(fmt, noise + next + rest) == Scan(fmt, next + rest)
  }

  // ---- Bytes that nothing can follow unseen -----------------------------------

  /** Enough zeros to complete any frame that a receiver takes. */
  function Zeros(fmt: Format): seq<byte> {
    Fill(HEADER_LENGTH + fmt.max, 0)
  }

  /** A marker followed by enough zeros is an event. */
  lemma MarkerIsSeen(fmt: Format, s: seq<byte>, j: nat)
    requires MarkerAt(s, j)
    ensures Scan(fmt, s + Zeros(fmt)) != []
  {
    var t := s + Zeros(fmt);
    assert MarkerAt(t, j) by {
      assert forall i :: j <= i < j + 8 ==> t[i] == s[i];
    }
    var i := FindMarker(t, 0).value;
    assert i <= j;
    hide Format.Judge, FromLe32;
    assert |t[i..]| >= HEADER_LENGTH + fmt.max;
  }

  lemma NoMarkerInZeros(fmt: Format, x: byte, k: nat)
    requires k < 8
    ensures Scan(fmt, Fill(k, x) + Zeros(fmt)) == []
  {
    var t := Fill(k, x) + Zeros(fmt);
    forall j: nat ensures !MarkerAt(t, j) {
      if j + 8 <= |t| {
        assert t[j + 7] == 0;
      }
    }
  }

  /** After a marker, or a byte of at least 128 at the end, something can follow that tells the difference. */
  lemma TailIsSeen(fmt: Format, tail: seq<byte>)
    requires (exists j: nat :: MarkerAt(tail, j)) || (tail != [] && tail[|tail| - 1] >= 128)
    ensures exists rest :: Scan(fmt, tail + rest) != Scan(fmt, rest)
  {
    if j: nat :| MarkerAt(tail, j) {
      MarkerIsSeen(fmt, tail, j);
      NoMarkerInZeros(fmt, 0, 0);
      assert Fill(0, 0) + Zeros(fmt) == Zeros(fmt);
    } else {
      var x := tail[|tail| - 1];
      var run := tail + Fill(7, x);
      assert MarkerAt(run, |tail| - 1);
      MarkerIsSeen(fmt, run, |tail| - 1);
      NoMarkerInZeros(fmt, x, 7);
      assert run + Zeros(fmt) == tail + (Fill(7, x) + Zeros(fmt));
    }
  }

  // ---- Words ------------------------------------------------------------------

  /** The first bytes of `s`, as far as they go, are this marker. */
  predicate Opens(s: seq<byte>, marker: byte) {
    s != [] && marker >= 128 && forall i :: 0 <= i < |s| && i < 8 ==> s[i] == marker
  }

  /** When a frame appears in front of itself, what is left over has a marker or ends in a marker byte. */
  lemma {:induction false} Overhang(next: seq<byte>, before: seq<byte>, tail: seq<byte>, marker: byte)
    requires next + tail == before + next && |before| == |tail| > 0 && Opens(next, marker)
    ensures (exists j: nat :: MarkerAt(tail, j)) || tail[|tail| - 1] >= 128
    decreases |next|
  {
    var whole := next + tail;
    var n, m := |next|, |tail|;
    assert whole[|whole| - 1] == tail[m - 1] == next[n - 1];
    if n >= 8 {
      if m >= n {
        assert tail[m - n..] == whole[|whole| - n..] == next;
        assert MarkerAt(tail, m - n) by {
          assert forall i :: m - n <= i < m - n + 8 ==> tail[i] == next[i - (m - n)];
        }
      } else {
        var shorter := next[m..];
        assert next[..m] == whole[..m] == before;
        assert next == before + shorter;
        assert whole == before + shorter + tail == before + (shorter + tail);
        assert whole[m..] == shorter + tail == next;
        assert forall i :: 0 <= i < |shorter| ==> shorter[i] == (shorter + tail)[i] == next[i];
        Overhang(shorter, before, tail, marker);
      }
    }
  }

  /** A valid verdict determines the bytes. */
  lemma ValidDetermines(fmt: Format, s: seq<byte>, t: seq<byte>)
    requires Framed(fmt, s) && Framed(fmt, t) && fmt.Judge(s) == fmt.Judge(t)
    requires fmt.Judge(s).value.Valid?
    ensures s == t
  {
    var payload := fmt.Judge(s).value.payload;
    var n := |payload|;
    assert s[HEADER_LENGTH..HEADER_LENGTH + LengthField(s)] == s[HEADER_LENGTH..];
    assert t[HEADER_LENGTH..HEADER_LENGTH + LengthField(t)] == t[HEADER_LENGTH..];
    FromLe32RoundTrip(s[9..13]);
    FromLe32RoundTrip(t[9..13]);
    if s[13..17] != t[13..17] {
      LoadWordIsInjective(s[13..17], t[13..17]);
    }
    hide FromLe32, Le32, LoadWord;
    assert s == s[..8] + [s[8]] + s[9..13] + s[13..17] + s[17..];
    assert t == t[..8] + [t[8]] + t[9..13] + t[13..17] + t[17..];
    assert s[..8] == t[..8];
  }

  // ---- Exactly when -----------------------------------------------------------

  /** A marker inside the noise comes first, whatever follows. */
  lemma EarlierMarker(noise: seq<byte>, next: seq<byte>) returns (front: seq<byte>, h: seq<byte>)
    requires MarkerAt(next, 0) && !Quiet(noise, next[0])
    ensures noise + next == front + h && front < noise && MarkerAt(h, 0) && Quiet(front, h[0]) && |h| > |next|
  {
    var t := noise + next;
    AlignedExactlyWhenQuiet(noise, next, []);
    assert t + [] == t;
    assert MarkerAt(t, |noise|) by {
      assert forall i :: |noise| <= i < |noise| + 8 ==> t[i] == next[i - |noise|];
    }
    var j := FindMarker(t, 0).value;
    front, h := noise[..j], t[j..];
    assert MarkerAt(h, 0) by {
      assert forall i :: 0 <= i < 8 ==> h[i] == t[j + i];
    }
    AlignedExactlyWhenQuiet(front, h, []);
    assert front + h + [] == t;
  }

  /** How much the header takes with it, as far as it is there. */
  function Size(fmt: Format, h: seq<byte>): (n: nat)
    requires |h| >= HEADER_LENGTH
    ensures n <= |h|
  {
    var size := HEADER_LENGTH + LengthField(h);
    if LengthField(h) <= fmt.max && size <= |h| then size else 0
  }

  /** A header that announces too much, or more than there is, is not a frame that was sent. */
  lemma NotCutOut(fmt: Format, front: seq<byte>, h: seq<byte>, v: Event)
    requires |h| >= HEADER_LENGTH && MarkerAt(h, 0) && Quiet(front, h[0]) && Size(fmt, h) == 0 && v.Valid?
    ensures Scan(fmt, front + h) != [v]
  {
    AlignedExactlyWhenQuiet(front, h, []);
    hide Format.Judge, FromLe32, Quiet;
    var t := front + h;
    assert t + [] == t && t[|front|..] == h && front + h + [] == t;
    assert FindMarker(t, 0) == Some(|front|);
    if LengthField(h) > fmt.max {
      assert Scan(fmt, t) == [TooLong] + Scan(fmt, h[HEADER_LENGTH..]);
      assert Scan(fmt, t)[0] == TooLong;
    } else {
      assert Scan(fmt, t) == [];
    }
  }

  lemma CutOutIsFramed(fmt: Format, h: seq<byte>)
    requires |h| >= HEADER_LENGTH && MarkerAt(h, 0) && Size(fmt, h) > 0
    ensures var cut := h[..Size(fmt, h)]; Framed(fmt, cut) && cut[0] == h[0] && fmt.Judge(cut).Some?
  {
    var cut := h[..Size(fmt, h)];
    assert cut[9..13] == h[9..13];
    assert forall i :: 0 <= i < 8 ==> cut[i] == h[i];
  }

  /** A frame inside the noise is seen, even if it looks like the one behind. */
  lemma InnerFrameIsSeen(fmt: Format, noise: seq<byte>, next: seq<byte>, front: seq<byte>, cut: seq<byte>,
                         tail: seq<byte>)
    requires Framed(fmt, next) && fmt.Judge(next).Some? && fmt.Judge(next).value.Valid?
    requires Framed(fmt, cut) && Quiet(front, cut[0]) && front < noise && noise + next == front + cut + tail
    ensures !PureLoss(fmt, noise, next)
  {
    hide Quiet, Scan, LengthField, Framed, PureLoss, MarkerAt, Format.Judge;
    PieceScansToItsVerdict(fmt, Piece(front, cut), tail);
    if fmt.Judge(cut) == fmt.Judge(next) {
      ValidDetermines(fmt, cut, next);
      OverhangIsSeen(fmt, noise, next, front, tail);
    } else {
      assert Scan(fmt, noise + next)[0] == fmt.Judge(cut).value;
      SeenAtOnce(fmt, noise, next);
    }
  }

  /** Unless the noise is quiet, something can follow that tells the difference. */
  lemma NoiseIsSeen(fmt: Format, noise: seq<byte>, next: seq<byte>)
    requires Framed(fmt, next) && fmt.Judge(next).Some? && fmt.Judge(next).value.Valid?
    requires !Quiet(noise, next[0])
    ensures !PureLoss(fmt, noise, next)
  {
    assert |next| >= HEADER_LENGTH;
    hide PureLoss, Quiet, Scan, Format.Judge, LengthField;
    var front, h := EarlierMarker(noise, next);
    hide Framed, MarkerAt;
    if Size(fmt, h) == 0 {
      NotCutOut(fmt, front, h, fmt.Judge(next).value);
      SeenAtOnce(fmt, noise, next);
    } else {
      var cut, tail := h[..Size(fmt, h)], h[Size(fmt, h)..];
      CutOutIsFramed(fmt, h);
      hide Size;
      assert front + cut + tail == noise + next;
      InnerFrameIsSeen(fmt, noise, next, front, cut, tail);
    }
  }

  /** Nothing need follow if the first event already differs. */
  lemma SeenAtOnce(fmt: Format, noise: seq<byte>, next: seq<byte>)
    requires Framed(fmt, next) && fmt.Judge(next).Some? && Scan(fmt, noise + next) != [fmt.Judge(next).value]
    ensures !PureLoss(fmt, noise, next)
  {
    FrameScans(fmt, next, []);
    hide Framed, Format.Judge;
    assert noise + next + [] == noise + next;
    assert Scan(fmt, []) == [];
    assert Scan(fmt, noise + next + []) != Scan(fmt, next + []);
  }

  lemma Cancel(a: seq<byte>, b: seq<byte>, c: seq<byte>)
    requires a + b == a + c
    ensures b == c
  {
    assert b == (a + b)[|a|..] && c == (a + c)[|a|..];
  }

  lemma OverhangIsSeen(fmt: Format, noise: seq<byte>, next: seq<byte>, front: seq<byte>, tail: seq<byte>)
    requires Framed(fmt, next) && front < noise && noise + next == front + next + tail
    requires Quiet(front, next[0])
    ensures !PureLoss(fmt, noise, next)
  {
    var before := noise[|front|..];
    SameOverhang(noise, next, front, before, tail);
    Overhang(next, before, tail, next[0]);
    TailIsSeen(fmt, tail);
    hide Scan, Framed, Quiet, MarkerAt, PureLoss;
    var rest :| Scan(fmt, tail + rest) != Scan(fmt, rest);
    ShiftedByOneFrame(fmt, noise, next, front, tail, rest);
    Witnessed(fmt, noise, next, rest);
  }

  lemma SameOverhang(noise: seq<byte>, next: seq<byte>, front: seq<byte>, before: seq<byte>, tail: seq<byte>)
    requires front < noise && before == noise[|front|..] && noise + next == front + next + tail
    ensures next + tail == before + next && |before| == |tail| > 0
  {
    assert noise == front + before;
    assert noise + next == front + (before + next) && front + next + tail == front + (next + tail);
    Cancel(front, before + next, next + tail);
    assert |before + next| == |next + tail|;
  }

  lemma ShiftedByOneFrame(fmt: Format, noise: seq<byte>, next: seq<byte>, front: seq<byte>, tail: seq<byte>,
                          rest: seq<byte>)
    requires Framed(fmt, next) && Quiet(front, next[0]) && noise + next == front + next + tail
    requires Scan(fmt, tail + rest) != Scan(fmt, rest)
    ensures Scan(fmt, noise + next + rest) != Scan(fmt, next + rest)
  {
    PieceScansToItsVerdict(fmt, Piece(front, next), tail + rest);
    FrameScans(fmt, next, rest);
    hide Framed, Scan, Quiet, Format.Judge;
    assert front + next + (tail + rest) == noise + next + rest;
    HeadsDoNotMatter(fmt.Judge(next).value, Scan(fmt, tail + rest), Scan(fmt, rest));
  }

  lemma Witnessed(fmt: Format, noise: seq<byte>, next: seq<byte>, rest: seq<byte>)
    requires Scan(fmt, noise + next + rest) != Scan(fmt, next + rest)
    ensures !PureLoss(fmt, noise, next)
  {
    hide Scan;
  }

  lemma HeadsDoNotMatter(v: Event, a: seq<Event>, b: seq<Event>)
    requires a != b
    ensures [v] + a != [v] + b
  {
    assert a == ([v] + a)[1..] && b == ([v] + b)[1..];
  }

  /** Noise before a valid frame is a pure loss if and only if it is quiet. */
  lemma PureLossExactlyWhenQuiet(fmt: Format, noise: seq<byte>, next: seq<byte>)
    requires Framed(fmt, next) && fmt.Judge(next).Some? && fmt.Judge(next).value.Valid?
    ensures PureLoss(fmt, noise, next) <==> Quiet(noise, next[0])
  {
    if Quiet(noise, next[0]) {
      forall rest ensures Scan(fmt, noise + next + rest) == Scan(fmt, next + rest) {
        PieceScansToItsVerdict(fmt, Piece(noise, next), rest);
        FrameScans(fmt, next, rest);
      }
    } else {
      NoiseIsSeen(fmt, noise, next);
    }
  }

  /**
   A frame with a damaged marker byte in front of a frame that was sent: it is lost, and nothing else
   happens whatever follows, if and only if what is left of it is quiet before that frame.
   */
  lemma MarkerDamageIsALossExactly(fmt: Format, marker: byte, seqByte: byte, payload: seq<byte>, i: nat, x: byte,
                                   f: Frame)
    requires fmt.Valid() && |payload| <= fmt.max && i < 8 && x != marker && fmt.Wellformed(f)
    ensures var broken := fmt.Encode(marker, seqByte, payload)[i := x];
      PureLoss(fmt, broken, fmt.FrameBytes(f)) <==> Quiet(broken, fmt.FrameBytes(f)[0])
  {
    FrameBytesAreFramed(fmt, f);
    FrameRoundTrip(fmt, f);
    hide Format.Judge, Format.Encode, Format.FrameBytes, Framed, Scan;
    PureLossExactlyWhenQuiet(fmt, fmt.Encode(marker, seqByte, payload)[i := x], fmt.FrameBytes(f));
  }
}
