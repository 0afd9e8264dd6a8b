# Verification of the frame_arq protocol stack

This project models, in Dafny, the stop-and-wait ARQ engine `src/source/frame_arq.c`, the C# session that
talks to it (`examples/demo/EspSerialSession.cs`), the device program around it (`examples/demo/src/main.cpp`)
and the serializer generator whose messages it carries (`examples/demo/buffers_gen_c.py`), and proves what
the four promise together. `dafny verify dfyconfig.toml` checks everything.

## The pieces

| files | what they are |
|---|---|
| `Bytes`, `Bits`, `Callbacks`, `Crc`, `CrcLoops`, `CrcTable`, `CheckValues` | bytes, header fields and the write callback; CRC-32 as algebra over its 32-bit register; both C loops; the literal table; its standard definition and check value, and frames byte by byte |
| `Frames`, `Assembler`, `Streams`, `Losses` | the wire format, the resumable assembler, a one-pass reference scanner that it is proved equal to, and when damage is a pure loss |
| `Endpoints`, `FrameArq` | what a frame does to the ARQ state (`React`), and the engine as a class over its two buffers |
| `Links`, `Duplex`, `Progress`, `Staleness` | two endpoints, two lossy FIFO channels and delayed writes, as a transition system |
| `Wires`, `EngineCalls` | two engines over two byte lines, proved to refine that system, and the calls on the engine object that are its steps |
| `HostDecoder`, `HostReader`, `Sessions`, `HostSession`, `HostCalls` | the C# byte decoder with its log, the session object with its send queue, and what a batch of bytes does to it |
| `Hosted`, `HostedProgress`, `Oversize`, `Demo`, `DemoProgress`, `DemoDevice`, `DemoPasses` | the session and the engine joined, what a smaller receiver does to it, the request/response slot, their liveness, the loop of `main.cpp` as a class, and that its passes are the turns of the joined system |
| `Schemas`, `Layouts`, `Codec`, `Serializer`, `Messages` | sizes and errors of the generator, the generated functions as interpreters and as loops, whole-schema results |

Code that runs over mutable state is a class or a method with loops, proved against a function
(`FrameArq.Get` against `Pump` and `ReactTo`, `EspSerialSession.HandleAck` against `Handle`, `WriteValue` against
`Write`). Beside that the contracts of `FrameArq.Get` (with `Told`), of `Put` and of the session's methods spell out each case over
the fields, the codes and the bytes, without those functions.
`EngineCalls.MakePut`, `MakeResend` and `MakeGet` say that a call on the engine object is a step of `Wires`,
`Wires.RunRefines` that every run of such steps is a run of `Duplex`, and `DemoPasses.TakeTurn` that a pass of the device
object is a turn of `Demo`. The line may lose any frames and have any others arrive corrupt, and nothing else
(`Links.LineSpoilsExactly`). Frames in channels carry the index of their message, which no endpoint can see; it exists
only to state what is delivered.
The framing results hold for any checksum function; `Crc32Format` puts the real one in.

## What is proved

* Delivery (`Duplex`): for every interleaving of put, resend, get, loss and detected corruption at both ends,
  each side has delivered a prefix of what the other put, in order and once each, at most one message behind,
  and none when nothing is awaited. The gap branch is never reached between two engines. The same holds on the bytes
  (`BytesAreDeliveredInOrder`): with log text between frames, read callbacks that run dry anywhere, and damage that
  turns a frame into one that fails its checksum or into nothing.
* Progress (`Progress`): draining terminates, one resend and a drain complete the outstanding message from every
  reachable state, and so any list of messages gets through any amount of trouble. From every sound state of the joined
  system retries deliver the whole Send history, queue included (`HostedProgress`), and every request of a disciplined
  host gets its answer (`DemoProgress`). In these runs the session does what its read task does: what handling a frame
  makes it capture, the next queued message after an ACK or the resend that a NACK asks for, is written before the next
  frame is handled. In explicit mode the application answers the NACK. No frame is captured and left unwritten.
* Over-long messages (`Oversize`): an engine with a smaller maximum drops the frame unanswered. The history can still be
  delivered if and only if every message in it fits; the first that does not blocks itself and everything behind it.
* Late writes (`Staleness`, `Hosted`): the session takes a frame under one lock and writes it under another. At every
  moment of a run both directions are in order, and the device has delivered a beginning of the Send history, if and
  only if the device never takes a copy that is 64, 128, ... messages old, and whose content is not that of the next
  message, for the next message (`RunIsInOrderExactly`, `HistoryIsDeliveredExactly`). It suffices that each write is
  fewer than 63 messages behind the newest one, and no weaker bound does: a run with one write 63 behind delivers a
  message twice. What the device sends arrives once and in order however late the session writes.
* Framing: chunking changes neither events nor state, replies and deliveries (`GetAll`); garbage in front of a frame is skipped exactly when it is quiet
  (`AlignedExactlyWhenQuiet`), and by the session exactly when it is harmless (`FoundExactlyWhenHarmless`); damage
  confined to four payload bytes, the sequence byte or the CRC is always judged a CRC error.
* Damage from end to end: bytes of a damaged frame in, a NACK of the expected number out, nothing delivered and no state
  changed, for the engine in any chunking (`GetDamaged`) and for the session (`ReadDamaged`).
* The CRC: it is the frame check sequence of IEEE 802.3 (`FrameCheckSequence`, `StandardCheckValue`). The bit-by-bit loop,
  the table loop, the table that `BuildCrcTable` fills and the 256 numbers in `frame_arq.c` agree; every burst of at most
  32 bits changes it.
* The two implementations build the same bytes, extract the same frames when what lies between them is quiet to the
  one and harmless to the other (text below 128 is both), and decide alike on every valid frame: `FrameArq.Get` and
  `EspSerialSession.DispatchValidFrame` are both proved against `React`, the latter through `Handle`, which adds the
  queue and the automatic resend.
* The serializer: round trip, sizes and cycle detection for every schema, in both byte orders and string modes,
  and through a frame.

## Where the code and its documentation differ

* A byte of at least 128 between frames can make the C# decoder lose the next frame, which the C assembler still
  finds: on a mismatch the C# state machine drops the new byte too (`StrayByteLosesTheFrame`). It finds the frame if and
  only if every byte of at least 128 that opens a candidate marker is followed by a different byte within the next seven
  (`FoundExactlyWhenHarmless`); in general, if and only if the noise leaves it as at the start (`FoundExactlyWhenReady`).
* `README.md` says that a peer answers a corrupt or out-of-sequence frame with a NACK. It does not say what an over-long
  frame gets: a NACK from the C# session, nothing from the engine (`OnBadFrame`, `ReactTo`).
* The header describes a negative result of `frame_arq_put` as an error, but when the write callback fails the
  message is already outstanding (`FrameArq.Put`). The loop of `main.cpp` keeps the response, and later sends it a
  second time as a new message, if and only if the first negative answer of the callback is the BUSY code and falls on a
  byte of the frame (`KeptExactlyWhenBusy`, `BusyCallbackSendsTwice`); the demo's callback never refuses a byte.
* The session sends up to 32768 bytes whatever the engine was created for, and an over-long message is not reported: it
  stays outstanding and blocks the queue (`TooLongBlocksTheQueue`).
* `enum_wire_type` picks a 64-bit type even for values that fit no 64-bit type (`EnumTypeHoldsItsValues` says when).
* "Guaranteed delivery" is not proof against damage that hits a marker byte. In front of a frame that was sent, the
  damaged one is lost and no more, whatever follows, if and only if what is left of it is quiet before that frame
  (`MarkerDamageIsALossExactly`); a short message whose payload is itself a frame can have that inner frame delivered in
  its place (`MarkerDamageCanForge`).

## What the delivery theorems assume

The steps of `Links` lose a frame or turn it into one that fails its checksum. On the bytes that is what `Tolerable`
damage does: to a payload, a sequence byte or a CRC field (`Frames`), or to a whole frame that vanishes. Damage to a
marker byte is among it when what is left means nothing whatever follows (`QuietMeansNothing`); otherwise the theorems of `Duplex`, `Wires`,
`Hosted` and `Demo` do not cover it. They also assume that the length field survives and that writes are not cut
short by a failing callback; and, but for `Oversize`, that no message is longer than the receiver takes, as the header
of the library asks (`src/frame_arq.h:74`).

## Model

| member | source | states |
|---|---|---|
| Bytes.Le32RoundTrip | src/source/frame_arq.c:92-101 | fa_rd_u32 undoes fa_wr_u32 |
| Callbacks.WillingTakesAll | src/source/frame_arq.c:298-303 | a write loop over a callback that never refuses puts out every byte and succeeds |
| Callbacks.RefusedPartWay | src/source/frame_arq.c:298-303 | a refused loop has put out a proper beginning of its bytes |
| Callbacks.FailsExactlyWhenRefused | src/source/frame_arq.c:298-303 | a write loop fails with a code if and only if that is the callback's first refusal and falls on one of the bytes |
| Callbacks.WrittenOfSum | examples/demo/buffers_gen_c.py:471-516 | writing in pieces, stopping at the first error, is writing the whole |
| Crc.ShiftIsInjective | src/source/frame_arq.c:65-78 | one shift of the register never merges two values, because the polynomial has its top bit |
| Crc.ShiftIsLinear | src/source/frame_arq.c:65-78 | one shift distributes over exclusive or |
| Crc.TableStepIsByteStep | src/source/frame_arq.c:58-63 | for every register and byte, the table step equals eight bit-by-bit shifts |
| Crc.BurstChangesCrc | src/source/frame_arq.c:58-78 | two messages of the same length that differ only within 32 consecutive bits never have the same CRC |
| Crc.BurstChangesFrameCrc | src/source/frame_arq.c:83-88 | the same with the initial and final inversion of fa_frame_crc |
| CrcLoops.UpdateBitwise | src/source/frame_arq.c:65-78 | the loop without a table computes the CRC register of the bytes |
| CrcLoops.UpdateByTable | src/source/frame_arq.c:58-63 | the loop with a table computes the same register |
| CrcLoops.BuildCrcTable | examples/demo/EspSerialSession.cs:930-941 | the loops that fill the table at start-up fill in a correct one |
| CrcTable.LiteralTableIsCrcTable | src/source/frame_arq.c:24-57 | the 256 numbers written out in the source are exactly that table |
| CheckValues.FrameCheckSequence | src/source/frame_arq.c:65-88 | for every message of at least four bytes the CRC is the frame check sequence of section 3.2.9 of IEEE 802.3: its first 32 bits complemented, the remainder from a register of zeros, the result complemented |
| CheckValues.StandardCheckValue | README.md:15 | a standard CRC-32: the digits 1 to 9 give 0xCBF43926 |
| CheckValues.DataFrameExample | src/source/frame_arq.c:284-293 | the 17 bytes of the empty data frame with command 1 and number 0 |
| CheckValues.PayloadFrameExample | src/source/frame_arq.c:284-293 | the 18 bytes of a data frame with command 127, number 5 and one payload byte, which follows the checksum |
| CheckValues.AckFrameExample | src/source/frame_arq.c:111-125 | the 17 bytes of the ACK for number 0 |
| CheckValues.NackFrameExample | src/source/frame_arq.c:111-125 | and of the NACK |
| Frames.EncodeIsJudgedValid | src/source/frame_arq.c:284-293 | a built frame passes its own checks with the fields it was built from, for every marker, sequence byte and payload |
| Frames.FrameRoundTrip | src/source/frame_arq.c:174-209 | decoding the bytes of any sendable frame gives that frame back |
| Frames.DamageIsDetected | src/source/frame_arq.c:174-180 | any change of covered bits within 32 consecutive ones, or of the CRC field alone, is judged a CRC error |
| Frames.PayloadDamageIsDetected | src/source/frame_arq.c:174-180 | up to four consecutive payload bytes changed, to anything, anywhere: CRC error |
| Frames.SequenceDamageIsDetected | src/source/frame_arq.c:174-180 | the sequence byte changed: CRC error |
| Frames.ChecksumDamageIsDetected | src/source/frame_arq.c:174-180 | the CRC field changed: CRC error |
| Frames.MismatchIsJudgedBad | src/source/frame_arq.c:174-180 | and so is any frame whose checksum field does not match its content |
| Assembler.FeedKeepsPartial | src/source/frame_arq.c:128-172 | between bytes the buffer is always a run of equal marker bytes or an unfinished frame within bounds |
| Assembler.ChunkingDoesNotMatter | src/source/frame_arq.c:128-180 | every pattern of missing bytes between the bytes of a stream gives the events, and the held bytes, of one pass over it |
| Assembler.ParseIsScan | src/source/frame_arq.c:128-180 | the byte-at-a-time assembler finds exactly the frames that a search for the first eight equal high bytes finds |
| Streams.AlignedExactlyWhenQuiet | src/source/frame_arq.c:128-150 | the first marker found is the frame's own if and only if the bytes before contain no marker and do not end in its marker byte |
| Streams.LineGivesVerdicts | src/source/frame_arq.c:128-180 | frames with quiet garbage between them are extracted exactly, each with its verdict and nothing else, in any chunking |
| Streams.DamagedFrameIsCorrupt | src/source/frame_arq.c:174-201 | a damaged frame occupies the place of a frame on the line and arrives as corrupt |
| Streams.LineCarriesFrames | src/source/frame_arq.c:128-252 | a byte line is a FIFO channel of frames: reading it yields the frames it carries, corrupt ones included |
| Losses.PureLossExactlyWhenQuiet | src/source/frame_arq.c:128-180 | before a frame that passes its checks, noise is invisible whatever follows if and only if it is quiet |
| Losses.MarkerDamageIsALossExactly | src/source/frame_arq.c:128-180 | a frame with a damaged marker byte before a frame that was sent is a loss and nothing else if and only if what is left of it is quiet |
| Streams.MarkerDamageCanForge | src/source/frame_arq.c:128-180 | a damaged outer marker can deliver a frame that was only payload |
| FrameArqEngine.FrameArq.constructor | src/source/frame_arq.c:337-351 | the state after fa_init_state: nothing sent, nothing expected but number 0, nothing held |
| FrameArqEngine.FrameArq.ReadFrameMarker | src/source/frame_arq.c:128-150 | consumes bytes exactly as the assembler does until eight marker bytes are held or no byte is available |
| FrameArqEngine.FrameArq.ReadFrame | src/source/frame_arq.c:153-180 | stops at the event of the assembler with that event's code, the bytes behind it unread, the frame in the buffer and the buffer in bounds |
| FrameArqEngine.FrameArq.WriteControl | src/source/frame_arq.c:111-125 | writes the bytes of the ACK or NACK: exactly those that the callback takes, with its code |
| FrameArqEngine.FillFrame | src/source/frame_arq.c:284-293 | the buffer holds the encoding of the frame |
| FrameArqEngine.FrameArq.Get | src/source/frame_arq.c:183-252 | one pump decides the event, and each event has its state, return code, delivered payload and answer on the line, case by case: nothing yet 0; over-long -4; corrupt -3 and a NACK of the expected number; ACK, NACK and reserved control frames; data delivered, acknowledged again or refused; the retained frame is untouched |
| FrameArqEngine.FrameArq.Put | src/source/frame_arq.c:264-304 | -6 for a command outside 1 to 127, else -4 for a payload above the maximum, else -7 while an ACK is awaited, each with nothing changed; else the message stamped with the next number, retained and outstanding, its bytes out as far as the callback takes them and its code returned |
| FrameArqEngine.FrameArq.Resend | src/source/frame_arq.c:306-324 | writes the bytes that put built for the outstanding message as far as the callback takes them, or nothing when there is none |
| FrameArqEngine.FrameArq.Reset | src/source/frame_arq.c:412-425 | back to the initial state on the same buffers |
| Links.CopiesAreTold | src/source/frame_arq.c:215-251 | in terms of unbounded message numbers: a copy is delivered exactly when a multiple of 64 behind the expected one, acknowledged again exactly when a multiple of 64 behind the last, else refused |
| Links.StepKeepsOwnHalf | src/source/frame_arq.c:183-324 | no step of an end can spoil the order of the data it sends or of the ACKs for it |
| Links.StepKeepsOtherHalf | src/source/frame_arq.c:207-252 | and only receiving a copy that is a multiple of 64 old can spoil the data it receives |
| Links.SafeRunsDeliverInOrder | src/source/frame_arq.c:183-324 | in every run without such a reception, with delayed writes, loss and corruption, both directions deliver a prefix of what was sent, once each |
| Links.LineSpoilsExactly | README.md:85-86 | by losses and corruptions a channel can become exactly any sequence with some frames gone and some corrupt |
| Duplex.NoGapIsEverSeen | src/source/frame_arq.c:236-251 | inside the window every data frame that arrives is the expected one or the previous one, so it is acknowledged |
| Duplex.StepKeepsIncoming | src/source/frame_arq.c:207-252 | the channel towards an end always holds copies of the previous message, then copies of the current one |
| Duplex.ActKeepsOutgoing | src/source/frame_arq.c:264-324 | and so does the channel that its puts and resends write to |
| Duplex.DuplexDeliversInOrder | src/source/frame_arq.c:183-324 | exactly-once in-order delivery in both directions for every sequence of puts, resends, gets, losses and corruptions |
| Wires.DamagedFrameMeansCorrupt | src/source/frame_arq.c:174-201 | damage to a payload, sequence byte or CRC leaves a corrupt arrival in the frame's place, whatever follows |
| Wires.QuietMeansNothing | src/source/frame_arq.c:128-150 | bytes without a marker that end below 128, log text or the rest of a damaged frame, bring nothing whatever follows |
| Wires.DamageIsTolerable | src/source/frame_arq.c:174-201 | such damage to any frame that was sent, wherever it stands on the line, is among what the delivery theorem allows |
| Wires.PumpTakesTheFirst | src/source/frame_arq.c:128-181 | a call of get, with any answers of the read callback, takes the first of the frames that the bytes bring, or leaves them all |
| Wires.CallRefines | src/source/frame_arq.c:183-324 | every put, resend, get, log text and tolerable damage on the bytes is one action on the frames, or none |
| Wires.RunRefines | src/source/frame_arq.c:183-324 | every run on the bytes refines a run on the frames |
| Wires.BytesAreDeliveredInOrder | src/source/frame_arq.c:183-324 | exactly-once in-order delivery in both directions on the bytes, at most one message behind |
| EngineCalls.MakePut | src/source/frame_arq.c:264-304 | a put of the engine object, accepted or refused, is that step of the byte system: state, and the bytes added to the line |
| EngineCalls.MakeResend | src/source/frame_arq.c:306-324 | and so is a resend |
| EngineCalls.MakeGet | src/source/frame_arq.c:183-252 | and a get: state, bytes held, left and answered, message given |
| EngineCalls.GetAll | src/source/frame_arq.c:183-252 | calling get until the answers run out leaves the state, replies and deliveries of the events of the bytes, wherever the answers had gaps |
| EngineCalls.GetDamaged | src/source/frame_arq.c:174-201 | damage that the checksum sees, bytes in to bytes out: a NACK of the expected number, nothing given to the caller, the state as before, in any chunking |
| Progress.ReceiveLightens | src/source/frame_arq.c:212-252 | each consumed frame lowers the measure: two for data and corrupt frames, one for control frames |
| Progress.ResendThenDrainCompletes | src/source/frame_arq.c:306-324 | from every reachable state, one resend and a lossless drain deliver the outstanding message once and end the wait |
| Progress.AllRoundsDeliver | src/source/frame_arq.c:183-324 | any list of messages is delivered, in order, whatever happens on the line between a put and a resend that gets through |
| Staleness.ReceiveIsSafeExactly | examples/demo/EspSerialSession.cs:294-329 | one reception keeps the protocol's invariant if and only if the copy is not a multiple of 64 old, or happens to equal the expected message |
| Staleness.MoveIsInOrderExactly | examples/demo/EspSerialSession.cs:294-329 | a move leaves both directions in order if and only if it is not such a reception |
| Staleness.RunIsInOrderExactly | examples/demo/EspSerialSession.cs:294-329 | both directions are in order at every moment of a run if and only if it has no such reception |
| Staleness.SixtyFourLateIsDeliveredTwice | examples/demo/EspSerialSession.cs:294-329 | a run in which a write is 63 messages behind the newest delivers 65 messages out of 64 |
| HostDecoder.InputIsCutIntoChunks | examples/demo/EspSerialSession.cs:78-111 | log text, judged frames and the bytes still held are the consumed input, cut into pieces in order |
| HostDecoder.LoggedExactlyWhenHarmless | examples/demo/EspSerialSession.cs:83-105 | noise all goes to the log, leaving the decoder as at the start, if and only if it is harmless |
| HostDecoder.FoundExactlyWhenReady | examples/demo/EspSerialSession.cs:78-111 | behind any noise a frame is cut out whole if and only if the noise leaves the decoder as at the start |
| HostDecoder.FoundExactlyWhenHarmless | examples/demo/EspSerialSession.cs:78-111 | behind noise without a marker a frame is cut out whole if and only if the noise is harmless |
| HostDecoder.NoMarkerNoFrame | examples/demo/EspSerialSession.cs:94-105 | input without eight equal high bytes holds no frame |
| HostDecoder.HostGivesVerdicts | examples/demo/EspSerialSession.cs:735-769 | frames separated by harmless noise are extracted exactly, each with its verdict |
| HostDecoder.NoFrameAllLogged | examples/demo/EspSerialSession.cs:78-111 | while no frame is cut out, the log text and the bytes held are the input |
| HostDecoder.HostLogsTheNoise | examples/demo/EspSerialSession.cs:735-769 | the log text of frames with harmless noise between and behind them is the noise, all of it and in order |
| HostDecoder.DecodersAgree | examples/demo/EspSerialSession.cs:78-111 | if the noise is quiet too, the C assembler, in any chunking, extracts the same events |
| HostDecoder.TextIsQuietAndHarmless | examples/demo/EspSerialSession.cs:85-89 | text below 128 is both |
| HostDecoder.StrayByteLosesTheFrame | examples/demo/EspSerialSession.cs:94-105 | after one stray byte of 129 or more the C assembler finds the frame and the session does not |
| HostReader.Crc32 | examples/demo/EspSerialSession.cs:942-954 | the CRC over sequence byte, length and payload is the one of the format |
| HostReader.StateMachine.Step | examples/demo/EspSerialSession.cs:78-111 | takes a byte into the header, or gives it and the marker bytes held to the log; the fields always are those of the header held |
| HostReader.JudgeFrame | examples/demo/EspSerialSession.cs:747-765 | the verdict on a header and its payload |
| HostReader.ReadLoop | examples/demo/EspSerialSession.cs:735-769 | over any input, dispatches exactly the events and logs exactly the text of the decoder |
| Sessions.DecidesAsTheEngine | examples/demo/EspSerialSession.cs:613-642 | what the queue and the automatic resend add to the engine's decision leaves its deliveries, answers and expected numbers alone |
| Sessions.SubmitConserves | examples/demo/EspSerialSession.cs:315-329 | Send keeps: history = sent + queue, and a non-empty queue only while a frame is outstanding |
| Sessions.HandleConserves | examples/demo/EspSerialSession.cs:560-590 | handling any frame keeps that, also when an ACK lets the next queued message go |
| Sessions.HistoryIsPartitioned | examples/demo/EspSerialSession.cs:303-329 | the Send history is the acknowledged messages, the outstanding one if any, and the queue |
| HostSession.EspSerialSession.Open | examples/demo/EspSerialSession.cs:643-655 | a fresh run: number 63 sent last, 0 expected, no retries, queue empty |
| HostSession.EspSerialSession.BuildDataFrame | examples/demo/EspSerialSession.cs:245-257 | the bytes of the data frame, the same that frame_arq_put builds |
| HostSession.EspSerialSession.BuildControlFrame | examples/demo/EspSerialSession.cs:259-269 | the bytes of the control frame, the same that fa_write_control builds |
| HostSession.EspSerialSession.PrepareTransmit | examples/demo/EspSerialSession.cs:303-313 | stamps, retains and marks outstanding; retry count and notice start again |
| HostSession.EspSerialSession.Send | examples/demo/EspSerialSession.cs:315-329 | refuses what cannot be framed, a command outside 1 to 127 or more than 32768 bytes, and changes nothing; else writes the frame with the next number when idle and queues when not |
| HostSession.EspSerialSession.Resend | examples/demo/EspSerialSession.cs:287-293 | writes the retained frame again, byte for byte, if one is outstanding |
| HostSession.EspSerialSession.HandleAck | examples/demo/EspSerialSession.cs:560-575 | ends the wait only for the outstanding number, then sends the next queued message |
| HostSession.EspSerialSession.HandleNack | examples/demo/EspSerialSession.cs:577-590 | in explicit mode tells the application the command and number to resend, else resends |
| HostSession.EspSerialSession.OnAckTimeout | examples/demo/EspSerialSession.cs:592-610 | always resends; reports the failure once per message, when the retries reach the limit, and exactly then while the limit is left alone |
| HostSession.EspSerialSession.OnBadFrame | examples/demo/EspSerialSession.cs:749-764 | writes exactly one frame, the NACK of the expected number, and changes nothing else |
| HostSession.EspSerialSession.OnData | examples/demo/EspSerialSession.cs:624-641 | delivers and ACKs, ACKs again, or NACKs, with the state of the deciding function |
| HostSession.EspSerialSession.DispatchValidFrame | examples/demo/EspSerialSession.cs:613-642 | every valid frame, control or data, has the effect of the deciding function |
| HostCalls.Take | examples/demo/EspSerialSession.cs:747-765 | a frame cut out is dispatched, or answered with a NACK if its checksum or length is wrong |
| HostCalls.ReadAll | examples/demo/EspSerialSession.cs:735-769 | over any batch of bytes the session's state, its writes and the messages given are the decisions on the frames cut out, in order, and the rest is log text |
| HostCalls.ReadDamaged | examples/demo/EspSerialSession.cs:757-761 | damage that the checksum sees, bytes in to bytes out: a NACK of the expected number, nothing given to the application, the noise in front logged |
| Hosted.SendFollowsSubmit | examples/demo/EspSerialSession.cs:315-329 | in the joined system Send does what the session decides |
| Hosted.RetryFollowsRetransmit | examples/demo/EspSerialSession.cs:592-610 | and so do Resend and a timeout |
| Hosted.HandledFollowsHandle | examples/demo/EspSerialSession.cs:613-642 | and so does handling the next frame, whatever it is |
| Hosted.HappenConserves | examples/demo/EspSerialSession.cs:303-329 | every event keeps the send-queue conservation |
| Hosted.HostStepKeepsLink | examples/demo/EspSerialSession.cs:287-329 | with timely writes no frame on the host's line is ever 64 behind when it is handled |
| Hosted.HistoryIsDelivered | examples/demo/EspSerialSession.cs:303-329 | with every write fewer than 63 messages behind the newest, the device delivers a prefix of the Send history, once each, all of it when nothing is awaited |
| Hosted.HistoryIsDeliveredExactly | examples/demo/EspSerialSession.cs:287-329 | at every moment the device has delivered a beginning of the Send history, all of it when nothing is awaited, if and only if it never takes an old copy for the next message |
| Hosted.DeviceMessagesAreDelivered | examples/demo/EspSerialSession.cs:613-642 | the host delivers the device's messages in order and once each in every run, however late its own writes |
| HostedProgress.HostTurnRuns | examples/demo/EspSerialSession.cs:560-590 | handling a frame and writing at once what that captured is a timely run, with the same effect in automatic and explicit mode |
| HostedProgress.HostReadsEffect | examples/demo/EspSerialSession.cs:560-590 | what it puts on the line weighs less than the frame it took, unless a message was acknowledged |
| HostedProgress.ReceptionsComplete | examples/demo/EspSerialSession.cs:735-769 | receiving so, in either mode, empties the line and leaves nothing captured; if the outstanding message or its ACK was on it fewer messages remain |
| HostedProgress.AttemptsDeliverTheHistory | examples/demo/EspSerialSession.cs:592-610 | from every sound state, in either mode, as many retries as messages remain deliver the whole Send history, queue included |
| HostedProgress.FlushWritesAll | examples/demo/EspSerialSession.cs:294-301 | frames that other threads had captured may all be written first if none is too old |
| Oversize.TakenExactlyWhenItFits | src/source/frame_arq.c:166-173 | a data frame is an event if and only if its payload is within the receiver's maximum; otherwise only its header is dropped |
| Oversize.TooLongBlocksTheQueue | examples/demo/EspSerialSession.cs:315-329 | the first message too long for the device, and everything behind it, is never delivered, and what is behind it never leaves the queue |
| Oversize.DeliverableExactlyWhenItFits | examples/demo/EspSerialSession.cs:315-329 | the Send history can still be delivered if and only if every message in it fits the device |
| Demo.LoopFollowsItsParts | examples/demo/src/main.cpp:184-230 | one loop changes the device as get, the asked-for resend, the queued response and the timer do in turn |
| Demo.SlotIsFreeWhenAsked | examples/demo/src/main.cpp:71-88 | queue_response never overwrites a waiting response when the host asks only after its last answer |
| Demo.OneAnswerForEachRequest | examples/demo/src/main.cpp:71-88 | over every such run on a bad line each delivered request has exactly one answer, and the host receives the answers in order, at most one missing |
| DemoProgress.LoopIsCloser | examples/demo/src/main.cpp:184-230 | a pass of the loop loses nothing that is on its way, and sends a response that can go |
| DemoProgress.BoutHelps | examples/demo/src/main.cpp:184-230 | a retry at the host, a pass with the timer up and receptions, in either mode of the session, leave less to do, or nothing |
| DemoProgress.EveryRequestIsAnswered | examples/demo/src/main.cpp:71-88 | from every state of a disciplined run, in either mode, every request is delivered and has its answer at the host after finitely many such bouts |
| DemoDevice.Device.QueueResponse | examples/demo/src/main.cpp:81-88 | a failed writer queues nothing, else the slot is taken |
| DemoDevice.Device.Receive | examples/demo/src/main.cpp:195-205 | get, the resend that a NACK asks for, and the response of a delivered request: state, slot and bytes written |
| DemoDevice.Device.SendQueued | examples/demo/src/main.cpp:207-220 | sends the queued response when nothing is outstanding: its bytes as far as the callback takes them, and the slot freed unless put reports BUSY |
| DemoDevice.Device.Loop | examples/demo/src/main.cpp:184-230 | the ARQ state, the slot and the bytes on the line after a pass over the real engine; over a callback that takes every byte these are, in order, the reply, the outstanding frame if a NACK asked, the queued response if it goes, and the outstanding frame again if the time is up |
| DemoDevice.WillingLoopIsTheDemos | examples/demo/src/main.cpp:184-230 | when the callback takes every byte the pass is the one of the joined system |
| DemoPasses.TurnGains | examples/demo/src/main.cpp:184-230 | a turn of the joined system adds the frames with those bytes to the device's channel, and leaves the same state and slot |
| DemoPasses.TakeTurn | examples/demo/src/main.cpp:184-230 | a pass of the device object is the turn of the joined system: state and slot follow, and it writes the bytes of the packets that the turn adds |
| DemoDevice.KeptExactlyWhenBusy | examples/demo/src/main.cpp:209-216 | a response that could be sent stays queued if and only if the callback's first refusal is the BUSY code and falls on a byte of the frame |
| DemoDevice.BusyCallbackSendsTwice | examples/demo/src/main.cpp:209-216 | then it goes out again under the next number once the first copy is acknowledged |
| Schemas.EnumTypeHoldsItsValues | examples/demo/buffers_gen_c.py:114-124 | the chosen wire type holds every value of the enum if and only if its range fits the 64-bit type of its signedness |
| Schemas.EnumTypeIsNarrowest | examples/demo/buffers_gen_c.py:114-124 | and no narrower type of that signedness does |
| Schemas.PrefixIsNarrowest | examples/demo/buffers_gen_c.py:127-141 | a length prefix exists up to 2^32 - 1, is 1, 2 or 4 bytes, holds every length up to the capacity, and no smaller one does |
| Schemas.StructErrorHasCause | examples/demo/buffers_gen_c.py:364-399 | every error is about something that can be reached from the struct: a cycle, an unknown type, an over-long string |
| Schemas.PathsDoNotReturn | examples/demo/buffers_gen_c.py:364-399 | below a struct that has a size no path of nested structs comes back to where it was |
| Schemas.SizeFailsExactly | examples/demo/buffers_gen_c.py:364-399 | a struct has no size if and only if there is such a cause |
| Schemas.CircularErrorIffCycle | examples/demo/buffers_gen_c.py:373-375 | the circular-reference error is reported if and only if a cycle is reachable, when nothing else is wrong |
| Schemas.MaxSizeBounds | examples/demo/buffers_gen_c.py:402-406 | the maximum bounds every struct, is the size of one of them, and fails when one of them fails |
| Layouts.PlainFieldLayout | examples/demo/buffers_gen_c.py:364-384 | what every kind of field but a struct becomes, and its size in bytes, in both modes |
| Layouts.FieldsAreInOrder | examples/demo/buffers_gen_c.py:392-399 | a struct is its fields, each once, in the order of the declaration |
| Layouts.FieldLayoutHasItsSize | examples/demo/buffers_gen_c.py:364-384 | the computed size is what the generated calls for the field can emit at most, with the same errors |
| Layouts.StructLayoutsHaveItsSize | examples/demo/buffers_gen_c.py:392-399 | the same for a whole struct |
| Layouts.NatRoundTrip | examples/demo/buffers_gen_c.py:880-1030 | reading the bytes of a number in the same byte order gives it back |
| Layouts.BytesAreInOrder | examples/demo/buffers_gen_c.py:880-1030 | each byte of the number is at its place, counted from the front or from the end |
| Layouts.NumberComesBackExactly | examples/demo/buffers_gen_c.py:462-469 | a number survives its wire type if and only if that type holds it |
| Codec.RoundTrip | examples/demo/buffers_gen_c.py:471-631 | reading what was written, over any instance, restores it and consumes exactly the written bytes |
| Codec.RestoredIsSameExactly | examples/demo/buffers_gen_c.py:588-631 | the restored instance is the written one up to the first NUL of its strings if and only if its numbers fit |
| Codec.SizesAgree | examples/demo/buffers_gen_c.py:519-573 | the size function gives the number of bytes written, at most the computed size and equal to it without strings |
| Codec.CutIsEnded | examples/demo/buffers_gen_c.py:588-631 | any proper beginning of a written instance is refused with the end-of-input error |
| Codec.RestoredText | examples/demo/buffers_gen_c.py:603-625 | a string read over another is its characters, a NUL when there is room, and behind that what was there before |
| Codec.FlagIsNormalised | examples/demo/buffers_gen_c.py:1130-1134 | any byte but zero reads as true and is written as one |
| Codec.WriteExample | examples/demo/buffers_gen_c.py:471-516 | the bytes of a message with a negative number, a flag, a string and an unsigned number, in both byte orders |
| Serializer.WriteNat | examples/demo/buffers_gen_c.py:844-1030 | the unsigned writers write the bytes of the number in order as far as the callback takes them, and return the count or its code |
| Serializer.TakeNat | examples/demo/buffers_gen_c.py:844-1030 | the unsigned readers return the number and its width; at the end of the input -2 if the callback answers -1, else its own code |
| Serializer.ScanLength | examples/demo/buffers_gen_c.py:491-502 | the loop finds the first NUL |
| Serializer.WriteValue | examples/demo/buffers_gen_c.py:471-516 | the generated write emits exactly the bytes of the interpreter and returns their count, all of them when no byte is refused, or stops with the callback's first refusal at the byte it refuses |
| Serializer.TakeText | examples/demo/buffers_gen_c.py:603-625 | the prefix is checked against the capacity before anything is stored, -2 if above; the NUL is placed when there is room |
| Serializer.TakeValue | examples/demo/buffers_gen_c.py:588-631 | over written bytes the generated read returns the instance and their count; over any proper beginning of them -2 if the callback's end is -1 and its own code otherwise; -2 for a prefix above the capacity; over any input the interpreter's result |
| Serializer.SizeOf | examples/demo/buffers_gen_c.py:519-573 | the generated size function returns the interpreter's size |
| Messages.SchemaRoundTrip | examples/demo/buffers_gen_c.py:471-631 | for every struct the generator accepts, both byte orders and both string modes: round trip, exact recovery condition, refusal of cut input |
| Messages.SchemaSizes | examples/demo/buffers_gen_c.py:364-406 | bytes written = size function <= SIZE constant <= MAX_SIZE, with equality in fixed mode |
| Messages.MessageSurvivesItsFrame | examples/demo/src/main.cpp:39-42 | an engine created for MAX_SIZE carries every message: written, framed, judged and read it is the same instance |

## Left out

* Serial port I/O, overlapped reads and writes, power notifications, port enumeration and event posting of the C#
  file: a write appends to a channel, a timeout may happen at any time.
* Timer hardware (`ArmAckTimer`, `DisarmAckTimer`, `millis`): `timedOut` and `Retry` are free choices of the environment.
* Memory allocation, handle casts and NULL checks of `frame_arq_create`, `frame_arq_create_za`, `frame_arq_destroy`; the model starts from `fa_init_state`.
* `frame_arq_discard`: it only drops a partial assembly, which is a loss to the protocol.
* One-sided reset and bytes of an earlier connection: the header asks that both ends reset, so a reset starts a new run.
* The channels of `Links` carry whole frames; what that assumes of the bytes is said above. A put that fails half way
  through its bytes may make the reader swallow the frames behind it, which no step of `Links` models.
* What the scan makes of the payload of an over-long frame: `Oversize` counts the frame as lost, which it is when its payload is quiet noise.
* Damage to the length bytes of a frame: it changes where the frame ends, so the checksum of other bytes is compared. Wider damage that CRC-32 misses by chance is not detected by the code either.
- EspSerialSession.Send: the lock is the method boundary and `writes` is the order in which WriteFrame is called; that calls may reach the wire in another order is modelled in `Hosted`.
- Device.HandleCommand: GPIO, random numbers and the message types are parameters (`asks`, `answer`).
- TakeValue: the instance is a value that is returned, so what a failed read leaves half overwritten in memory is not captured.
- WriteNat: 16-, 32- and 64-bit numbers are all written as two halves, in the byte order of the source, which does so only for 64 bits.
* Sizes and counters are unbounded in the generated functions: a message over 2 GB, or a declared array of more than 2^31 elements, would overflow the `int` loops and totals.
* Floats, field types whose C name contains a space, and 32-bit `wchar_t`: `wchar_t` is 16 bits and `long` and `size_t` are 32 bits, as on the wire.
* Header parsing, naming helpers, file output and the C# generator `buffers_gen_cs.py`.
* User interface and GPIO code of the demo, and the unused `TransmitData`.
