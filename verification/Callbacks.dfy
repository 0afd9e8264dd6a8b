/** The byte-wise read and write callbacks, as the engine and the generated serializers are given them. */
module Callbacks {
  import opened Bytes

  /** What a callback returns instead of a byte. */
  type negative = x: int | x < 0 witness -1

  /** The read callback: the answers it will give, with `none` for a byte that is not there. */
  class Reader {
    var rx: seq<Option<byte>>
    const none: negative

    constructor (rx: seq<Option<byte>>, none: negative)
      ensures this.rx == rx && this.none == none
    {
      this.rx, this.none := rx, none;
    }

    method Read() returns (b: int)
      modifies this
      ensures if old(rx) == [] then rx == [] && b == none
              else rx == old(rx)[1..] && b == match old(rx)[0] case None => none as int case Some(v) => v as int
    {
      if rx == [] {
        return none;
      }
      b := match rx[0] case None => none as int case Some(v) => v as int;
      rx := rx[1..];
    }
  }

  /**
   What was taken and the answers still to come. A negative answer refuses the byte it is given; when
   `answers` is used up every byte is taken.
   */
  datatype Line = Line(tx: seq<byte>, answers: seq<int>) {
    predicate Refuses() {
      answers != [] && answers[0] < 0
    }

    /** The line after one byte. */
    function Offer(b: byte): Line {
      Line(if Refuses() then tx else tx + [b], if answers == [] then [] else answers[1..])
    }

    /** No answer will be a refusal. */
    predicate Willing() {
      forall i :: 0 <= i < |answers| ==> answers[i] >= 0
    }
  }

  class Writer {
    var tx: seq<byte>
    var answers: seq<int>

    constructor (answers: seq<int>)
      ensures Out() == Line([], answers)
    {
      tx, this.answers := [], answers;
    }

    function Out(): Line
      reads this
    {
      Line(tx, answers)
    }

    /** Write one byte; a negative answer means it was not taken. */
    method Write(b: byte) returns (res: int)
      modifies this
      ensures Out() == old(Out()).Offer(b)
      ensures if old(Out()).Refuses() then res == old(answers[0]) else res >= 0
    {
      res := 0;
      if answers != [] {
        res := answers[0];
        answers := answers[1..];
      }
      if res >= 0 {
        tx := tx + [b];
      }
    }
  }

  /** Stream `bytes` out, stopping at the first refusal: the line afterwards, and 0 or the refusal. */
  function Written(line: Line, bytes: seq<byte>): (r: (Line, int))
    ensures r.1 <= 0
    ensures r.1 == 0 ==> r.0.tx == line.tx + bytes
    decreases |bytes|
  {
    if bytes == [] then (line, 0)
    else if line.Refuses() then (line.Offer(bytes[0]), line.answers[0])
    else
      assert line.tx + [bytes[0]] + bytes[1..] == line.tx + bytes;
      Written(line.Offer(bytes[0]), bytes[1..])
  }

  /** A willing line takes everything and stays willing. */
  lemma {:induction false} WillingTakesAll(line: Line, bytes: seq<byte>)
    requires line.Willing()
    ensures var (after, res) := Written(line, bytes);
      res == 0 && after.tx == line.tx + bytes && after.Willing()
    decreases |bytes|
  {
    if bytes != [] {
      WillingTakesAll(line.Offer(bytes[0]), bytes[1..]);
    }
  }

  /** A refused write has put out a proper beginning of its bytes. */
  lemma {:induction false} RefusedPartWay(line: Line, bytes: seq<byte>)
    requires Written(line, bytes).1 < 0
    ensures exists k :: 0 <= k < |bytes| && Written(line, bytes).0.tx == line.tx + bytes[..k]
    decreases |bytes|
  {
    if line.Refuses() {
      assert line.tx == line.tx + bytes[..0];
    } else {
      var next := line.Offer(bytes[0]);
      RefusedPartWay(next, bytes[1..]);
      var k :| 0 <= k < |bytes[1..]| && Written(next, bytes[1..]).0.tx == next.tx + bytes[1..][..k];
      hide Written, Line.Offer;
      assert bytes[..k + 1] == [bytes[0]] + bytes[1..][..k];
      assert next.tx + bytes[1..][..k] == line.tx + bytes[..k + 1];
    }
  }

  /** Byte `k` is the first that is refused, with this code. */
  predicate FirstRefusal(answers: seq<int>, k: nat, code: int) {
    k < |answers| && answers[k] == code < 0 && forall j :: 0 <= j < k ==> answers[j] >= 0
  }

  /** A write fails with a code exactly when that is the callback's first refusal, and falls on one of the bytes. */
  lemma {:induction false} FailsExactlyWhenRefused(line: Line, bytes: seq<byte>, code: int)
    requires code < 0
    ensures Written(line, bytes).1 == code <==> exists k: nat :: k < |bytes| && FirstRefusal(line.answers, k, code)
    decreases |bytes|
  {
    if bytes != [] {
      if line.Refuses() {
        assert line.answers[0] == code ==> FirstRefusal(line.answers, 0, code);
      } else {
        var next := line.Offer(bytes[0]);
        FailsExactlyWhenRefused(next, bytes[1..], code);
        assert forall k: nat :: FirstRefusal(next.answers, k, code) <==> FirstRefusal(line.answers, k + 1, code);
        if k: nat :| k < |bytes| && FirstRefusal(line.answers, k, code) {
          assert k > 0 && FirstRefusal(next.answers, k - 1, code);
        }
      }
    }
  }

  /** Writing two strings is writing the second if the first was taken. */
  lemma {:induction false} WrittenOfSum(line: Line, first: seq<byte>, second: seq<byte>)
    ensures var (after, res) := Written(line, first);
      Written(line, first + second) == if res < 0 then (after, res) else Written(after, second)
    decreases |first|
  {
    if first == [] {
      assert first + second == second;
    } else {
      assert (first + second)[1..] == first[1..] + second;
      if !line.Refuses() {
        WrittenOfSum(line.Offer(first[0]), first[1..], second);
      }
    }
  }
}
