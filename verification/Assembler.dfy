/**
 The resumable frame assembler of read_frame_marker and read_frame, one byte at a time, and a
 one-pass reference parser that it is proved equal to. The state between calls is the bytes
 assembled so far, read_buffer[..byte_count].
 */
module Assembler {
  import opened Bytes
  import opened Frames

  // ---- The assembler ----------------------------------------------------------

  /** Bytes of a marker so far: all equal, all at least 128. */
  predicate MarkerRun(buf: seq<byte>) {
    forall i :: 0 <= i < |buf| ==> buf[i] == buf[0] && buf[i] >= 128
  }

  /** What may be held between two calls: part of a marker, or a marker with part of its frame. */
  predicate Partial(fmt: Format, buf: seq<byte>) {
    if |buf| < 8 then MarkerRun(buf) else MarkerAt(buf, 0) && fmt.Judge(buf) == None
  }

  /** Take one byte in; a byte that cannot continue a marker restarts the search. */
  function Extend(buf: seq<byte>, b: byte): seq<byte> {
    if |buf| >= 8 then buf + [b]
    else if b < 128 then []
    else if buf == [] || b == buf[0] then buf + [b]
    else [b]
  }

  /** Take one byte in and clear the buffer if that completed something. */
  function Feed(fmt: Format, buf: seq<byte>, b: byte): (r: (seq<byte>, Option<Event>)) {
    var next := Extend(buf, b);
    match fmt.Judge(next)
    case None => (next, None)
    case Some(e) => ([], Some(e))
  }

  lemma FeedKeepsPartial(fmt: Format, buf: seq<byte>, b: byte)
    requires Partial(fmt, buf)
    ensures Partial(fmt, Feed(fmt, buf, b).0)
  {
    hide LengthField;
    var next := Extend(buf, b);
    if |buf| >= 8 {
      assert MarkerAt(next, 0);
    } else if |next| == 8 {
      assert next == buf + [b];
      assert MarkerAt(next, 0);
    }
  }

  function Prepend(event: Option<Event>, r: (seq<Event>, seq<byte>)): (seq<Event>, seq<byte>) {
    match event
    case None => r
    case Some(e) => ([e] + r.0, r.1)
  }

  /** All the events of a byte stream, and the bytes still held at its end. */
  function Parse(fmt: Format, buf: seq<byte>, s: seq<byte>): (r: (seq<Event>, seq<byte>))
    decreases |s|
  {
    if s == [] then ([], buf)
    else
      var (next, event) := Feed(fmt, buf, s[0]);
      Prepend(event, Parse(fmt, next, s[1..]))
  }

  // ---- Calls that may find no byte --------------------------------------------

  /**
   The outcome of pumping until an event or until the transport has no byte: what is held, the event,
   the unread answers.
   */
  datatype Pumped = Pumped(buf: seq<byte>, event: Option<Event>, rest: seq<Option<byte>>)

  /** One call of read_frame against the answers that read_cb will give; None is "no byte available". */
  function Pump(fmt: Format, buf: seq<byte>, rx: seq<Option<byte>>): (p: Pumped)
    ensures |p.rest| <= |rx| && (rx != [] ==> |p.rest| < |rx|)
    decreases |rx|
  {
    if rx == [] then Pumped(buf, None, [])
    else match rx[0]
      case None => Pumped(buf, None, rx[1..])
      case Some(b) =>
        var (next, event) := Feed(fmt, buf, b);
        if event.Some? then Pumped(next, event, rx[1..]) else Pump(fmt, next, rx[1..])
  }

  /** The same, when the bytes held may already complete something. */
  function Settle(fmt: Format, buf: seq<byte>, rx: seq<Option<byte>>): Pumped {
    match fmt.Judge(buf)
    case None => Pump(fmt, buf, rx)
    case Some(e) => Pumped([], Some(e), rx)
  }

  /** The bytes among the answers. */
  function Arrived(rx: seq<Option<byte>>): seq<byte>
    decreases |rx|
  {
    if rx == [] then []
    else if rx[0].Some? then [rx[0].value] + Arrived(rx[1..])
    else Arrived(rx[1..])
  }

  /** The events of calling read_frame again and again until the answers run out. */
  function PumpAll(fmt: Format, buf: seq<byte>, rx: seq<Option<byte>>): (r: (seq<Event>, seq<byte>))
    decreases |rx|
  {
    if rx == [] then ([], buf)
    else
      var p := Pump(fmt, buf, rx);
      Prepend(p.event, PumpAll(fmt, p.buf, p.rest))
  }

  lemma {:induction false} PumpIsParse(fmt: Format, buf: seq<byte>, rx: seq<Option<byte>>)
    ensures var p := Pump(fmt, buf, rx);
      Parse(fmt, buf, Arrived(rx)) == Prepend(p.event, Parse(fmt, p.buf, Arrived(p.rest)))
    decreases |rx|
  {
    hide LengthField;
    if rx != [] && rx[0].Some? {
      var (next, event) := Feed(fmt, buf, rx[0].value);
      assert Arrived(rx)[1..] == Arrived(rx[1..]);
      if event.None? {
        PumpIsParse(fmt, next, rx[1..]);
      }
    }
  }

  /** Chunking does not matter: wherever the transport runs dry, the same events come out. */
  lemma {:induction false} ChunkingDoesNotMatter(fmt: Format, buf: seq<byte>, rx: seq<Option<byte>>)
    ensures PumpAll(fmt, buf, rx) == Parse(fmt, buf, Arrived(rx))
    decreases |rx|
  {
    hide Format.Judge;
    if rx != [] {
      var p := Pump(fmt, buf, rx);
      PumpIsParse(fmt, buf, rx);
      ChunkingDoesNotMatter(fmt, p.buf, p.rest);
    }
  }

  // ---- The reference parser ---------------------------------------------------

  /** The leftmost marker at or after `from`. */
  function FindMarker(s: seq<byte>, from: nat): (r: Option<nat>)
    ensures r.Some? ==> from <= r.value && MarkerAt(s, r.value) && forall j :: from <= j < r.value ==> !MarkerAt(s, j)
    ensures r.None? ==> forall j :: from <= j ==> !MarkerAt(s, j)
    decreases |s| - from
  {
    if from + 8 > |s| then None
    else if MarkerAt(s, from) then Some(from)
    else FindMarker(s, from + 1)
  }

  /** Find the leftmost marker, cut the frame out, go on after it. */
  function Scan(fmt: Format, s: seq<byte>): seq<Event>
    decreases |s|
  {
    match FindMarker(s, 0)
    case None => []
    case Some(i) =>
      var h := s[i..];
      if |h| < HEADER_LENGTH then []
      else if LengthField(h) > fmt.max then [TooLong] + Scan(fmt, h[HEADER_LENGTH..])
      else
        var size := HEADER_LENGTH + LengthField(h);
        if |h| < size then []
        else [fmt.Judge(h[..size]).GetOr(TooLong)] + Scan(fmt, h[size..])
  }

  lemma ShiftedMarker(s: seq<byte>, k: nat, j: nat)
    requires k + j + 8 <= |s|
    ensures MarkerAt(s[k..], j) <==> MarkerAt(s, k + j)
  {
    var t := s[k..];
    assert forall i :: 0 <= i < |t| ==> t[i] == s[k + i];
    if MarkerAt(t, j) {
      forall i | k + j <= i < k + j + 8 ensures s[i] == s[k + j] {
        assert t[i - k] == t[j];
      }
    }
  }

  /** Dropping bytes before the leftmost marker moves it by as much. */
  lemma FindMarkerSkips(s: seq<byte>, k: nat)
    requires k <= |s| && forall j :: 0 <= j < k ==> !MarkerAt(s, j)
    ensures FindMarker(s, 0) == match FindMarker(s[k..], 0) case None => None case Some(i) => Some(k + i)
  {
    var t := s[k..];
    forall j: nat | j + 8 <= |t| ensures MarkerAt(t, j) <==> MarkerAt(s, k + j) {
      ShiftedMarker(s, k, j);
    }
    match FindMarker(s, 0)
    case None =>
      assert FindMarker(t, 0) == None;
    case Some(i) =>
      assert MarkerAt(t, i - k);
      assert MarkerAt(s, k + FindMarker(t, 0).value);
  }

  /** Bytes before the leftmost marker do not matter. */
  lemma ScanSkips(fmt: Format, s: seq<byte>, k: nat)
    requires k <= |s| && forall j :: 0 <= j < k ==> !MarkerAt(s, j)
    ensures Scan(fmt, s) == Scan(fmt, s[k..])
  {
    hide LengthField;
    FindMarkerSkips(s, k);
    if FindMarker(s[k..], 0).Some? {
      assert s[k..][FindMarker(s[k..], 0).value..] == s[FindMarker(s, 0).value..];
    }
  }

  /** A byte that cannot continue the run ends every marker that would start in it. */
  lemma BrokenRunIsSkipped(fmt: Format, buf: seq<byte>, b: byte, rest: seq<byte>)
    requires |buf| < 8 && MarkerRun(buf) && (b < 128 || (buf != [] && b != buf[0]))
    ensures Scan(fmt, buf + [b] + rest) == Scan(fmt, [b] + rest)
    ensures b < 128 ==> Scan(fmt, [b] + rest) == Scan(fmt, rest)
  {
    var t := buf + [b] + rest;
    forall j | 0 <= j < |buf| ensures !MarkerAt(t, j) {
      assert t[j] == buf[0] && t[|buf|] == b;
    }
    ScanSkips(fmt, t, |buf|);
    assert t[|buf|..] == [b] + rest;
    if b < 128 {
      ScanSkips(fmt, [b] + rest, 1);
      assert ([b] + rest)[1..] == rest;
    }
  }

  /** Searching for a marker: the held run and the stream are scanned together. */
  lemma {:induction false} SearchIsScan(fmt: Format, buf: seq<byte>, s: seq<byte>)
    requires |buf| < 8 && MarkerRun(buf)
    ensures Parse(fmt, buf, s).0 == Scan(fmt, buf + s)
    decreases |s|, 1
  {
    hide LengthField, Scan;
    if s == [] {
      assert buf + s == buf;
      ShortHasNoMarker(fmt, buf);
    } else {
      var b, rest := s[0], s[1..];
      assert buf + s == buf + [b] + rest;
      if b < 128 {
        BrokenRunIsSkipped(fmt, buf, b, rest);
        SearchIsScan(fmt, [], rest);
        assert [] + rest == rest;
      } else if buf == [] || b == buf[0] {
        if |buf| == 7 {
          CollectIsScan(fmt, buf + [b], rest);
        } else {
          SearchIsScan(fmt, buf + [b], rest);
        }
      } else {
        BrokenRunIsSkipped(fmt, buf, b, rest);
        SearchIsScan(fmt, [b], rest);
      }
    }
  }

  lemma ShortHasNoMarker(fmt: Format, s: seq<byte>)
    requires |s| < 8
    ensures Scan(fmt, s) == []
  {}

  /** Collecting a frame: the marker at the front is the leftmost one, and the frame is cut where the scan cuts it. */
  lemma {:induction false} CollectIsScan(fmt: Format, buf: seq<byte>, s: seq<byte>)
    requires MarkerAt(buf, 0) && fmt.Judge(buf) == None
    ensures Parse(fmt, buf, s).0 == Scan(fmt, buf + s)
    decreases |s|, 0
  {
    hide LengthField, Scan;
    if s == [] {
      assert buf + s == buf;
      WaitingScansToNothing(fmt, buf);
    } else {
      var b, rest := s[0], s[1..];
      var next := buf + [b];
      assert next + rest == buf + s;
      match fmt.Judge(next)
      case None =>
        CollectIsScan(fmt, next, rest);
      case Some(e) =>
        CutIsScan(fmt, buf, b, rest);
        SearchIsScan(fmt, [], rest);
        assert [] + rest == rest;
    }
  }

  lemma WaitingScansToNothing(fmt: Format, s: seq<byte>)
    requires MarkerAt(s, 0) && fmt.Judge(s) == None
    ensures Scan(fmt, s) == []
  {
    hide FromLe32;
    assert s[0..] == s;
  }

  /** Where the assembler completes a frame, the scan cuts the same bytes. */
  lemma CutIsScan(fmt: Format, buf: seq<byte>, b: byte, rest: seq<byte>)
    requires MarkerAt(buf, 0) && fmt.Judge(buf) == None && fmt.Judge(buf + [b]).Some?
    ensures Scan(fmt, buf + [b] + rest) == [fmt.Judge(buf + [b]).value] + Scan(fmt, rest)
  {
    hide FromLe32;
    var next := buf + [b];
    var t := next + rest;
    assert MarkerAt(t, 0);
    assert t[0..] == t;
    assert t[..|next|] == next && t[|next|..] == rest;
    LengthIsStable(next, t);
    if |buf| >= HEADER_LENGTH {
      LengthIsStable(buf, next);
    }
  }

  lemma LengthIsStable(s: seq<byte>, t: seq<byte>)
    requires HEADER_LENGTH <= |s| <= |t| && t[..|s|] == s
    ensures LengthField(t) == LengthField(s)
  {
    assert t[9..13] == s[9..13];
  }

  /** The byte-at-a-time assembler and the reference parser extract the same events from every stream. */
  lemma ParseIsScan(fmt: Format, s: seq<byte>)
    ensures Parse(fmt, [], s).0 == Scan(fmt, s)
  {
    SearchIsScan(fmt, [], s);
    assert [] + s == s;
  }
}
