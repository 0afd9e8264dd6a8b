/**
 One end of the stop-and-wait protocol: how frame_arq_put, frame_arq_resend and the second half
 of frame_arq_get change the sequence numbers and flags. Both implementations are proved
 against these functions, and the two-ended system is built from them.
 */
module Endpoints {
  import opened Bytes
  import opened Frames

  /** The ARQ fields of frame_arq_t; `retained` is the message in the retain buffer. */
  datatype Endpoint = Endpoint(
    txSeq: nat,
    expectedRxSeq: nat,
    awaitingAck: bool,
    resendNeeded: bool,
    retained: Option<Message>)
  {
    predicate Valid() {
      && txSeq < SEQUENCES && expectedRxSeq < SEQUENCES
      && (resendNeeded ==> awaitingAck)
      && (awaitingAck ==> retained.Some?)
    }
  }

  const FRESH := Endpoint(63, 0, false, false, None)

  /** What get tells its caller. */
  datatype Outcome =
    | Nothing
    | Deliver(msg: Message)
    | ResendNeeded
    | CrcError
    | Overflow

  datatype Reaction = Reaction(ep: Endpoint, reply: Option<Frame>, outcome: Outcome)

  /** What get does with a completed frame. */
  function React(ep: Endpoint, f: Frame): Reaction {
    match f
    case Corrupt => Reaction(ep, Some(Nack(ep.expectedRxSeq)), CrcError)
    case Reserved => Reaction(ep, None, Nothing)
    case Ack(s) =>
      if ep.awaitingAck && s == ep.txSeq
      then Reaction(ep.(awaitingAck := false, resendNeeded := false), None, Nothing)
      else Reaction(ep, None, Nothing)
    case Nack(_) =>
      if ep.awaitingAck then Reaction(ep.(resendNeeded := true), None, ResendNeeded)
      else Reaction(ep, None, Nothing)
    case Data(s, m) =>
      if s == ep.expectedRxSeq
      then Reaction(ep.(expectedRxSeq := (s + 1) % SEQUENCES), Some(Ack(s)), Deliver(m))
      else if s == (ep.expectedRxSeq + 63) % SEQUENCES then Reaction(ep, Some(Ack(s)), Nothing)
      else Reaction(ep, Some(Nack(ep.expectedRxSeq)), Nothing)
  }

  /** What get does with any event; an over-long frame is dropped without an answer. */
  function ReactTo(ep: Endpoint, e: Event): Reaction {
    if e.TooLong? then Reaction(ep, None, Overflow) else React(ep, Meaning(e))
  }

  datatype PutResult = Accepted | BadArgument | TooLarge | Busy

  function PutCheck(fmt: Format, ep: Endpoint, m: Message): PutResult {
    if m.cmd < 1 || m.cmd > 127 then BadArgument
    else if |m.payload| > fmt.max then TooLarge
    else if ep.awaitingAck then Busy
    else Accepted
  }

  /** The state after a put that is accepted: the next number is taken before anything is written. */
  function Stamp(ep: Endpoint, m: Message): Endpoint {
    ep.(txSeq := (ep.txSeq + 1) % SEQUENCES, awaitingAck := true, resendNeeded := false, retained := Some(m))
  }

  /** The outstanding frame, as put built it. */
  function Outstanding(ep: Endpoint): Frame
    requires ep.retained.Some?
  {
    Data(ep.txSeq, ep.retained.value)
  }
}
