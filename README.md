# Length-prefixed message framing, modelled in Dafny

This project models the framing layer of a small chat application: one header,
`protocol/Framing.h`, that turns a connected byte stream into whole messages.
A frame is a 4-byte big-endian (network byte order) unsigned length followed by
exactly that many payload bytes, and both directions refuse payloads longer than
10 MiB (10 * 1024 * 1024 = 10,485,760 bytes).

The layer has four operations, and the model keeps their shape:

- `read_exact` and `write_exact` loop over a primitive receive/send that may move
  fewer bytes than asked for, until exactly `n` bytes have moved; a primitive call
  returning 0 throws "peer disconnected", a negative one "recv failed" or
  "send failed". They are `Framing.ReadExact` and `Framing.WriteExact`, `while`
  loops over `total`: `ReadExact` fills the caller's `array` at `buf[total..]`,
  and `WriteExact` sends `data[total..n]`.
- `send_frame` checks the bound before any write, then writes the header and,
  unless the payload is empty, the payload. `recv_frame` reads the header,
  checks the bound before reading any payload byte, allocates the zero-filled
  payload buffer and fills it in place. They are `Framing.SendFrame` and
  `Framing.RecvFrame`.

Files:

- `Wire.dfy` (module `Wire`): the pure part. `byte` and `u32` newtypes, the
  bound `MaxPayload` and the check `Fits`, the header codec `EncodeLength`
  (`htonl`) and `DecodeLength` (`ntohl`), the byte image `Frame` of a sent
  payload, and a reference parser `ParseFrame` / `ParseFrames` that reads frames
  back off a byte sequence, with the round-trip and ordering lemmas.
- `Stream.dfy` (module `Stream`): class `Socket`, the connection as an abstract
  stream. `inbox` is the queue of bytes the peer has sent and this end has not
  read; `outbox` is the sequence of bytes the local stack has accepted. `Recv`
  and `Send` stand for `::recv` and `::send`. How much each call moves is decided
  by an oracle the loops do not control. The socket counts its calls, and
  call number `k` takes entry `k` of `recvLimits` / `sendLimits`. A negative
  entry is an error, returned as is. Zero is a close. A positive entry caps the
  transfer. Calls past the end of an oracle move as much as they can. A receive
  whose entry is positive, or past the end, returns 0 when nothing is pending
  (the peer has closed). `RecvReturn` / `SendReturn` give what call number `k`
  returns, and `ReliableFrom(limits, k)` says that no call from number `k` on
  reports an error or a close.
- `Framing.dfy` (module `Framing`): the four operations. Each thrown
  `std::runtime_error` becomes `Failed(e)`, one tag per message the source throws.
  Next to each operation is a reference outcome, defined one primitive call at a
  time from the pending bytes, the oracle and the number of the first call:
  `ReadOutcome`, `WriteOutcome`, `SendFrameOutcome`, `RecvFrameOutcome`. The
  outcome is a `Transfer`: the status, the bytes moved and the number of the
  first call after it. Each method's contract says it ends exactly as its
  reference outcome does, and the lemmas say what those outcomes are.
- `Loopback.dfy` (module `Loopback`): callers that join a sending socket to a
  receiving one. They prove the round trip, in-order delivery of any number of
  frames, and what the stream's closes and errors lead to, from the contracts
  above alone.

What the contracts establish:

- Exact transfer. `ReadExact` never takes more than `n` bytes off the stream.
  What it takes is always a prefix of what was pending, and it is exactly what
  `buf` holds so far. It succeeds if and only if it took `n` bytes. Its status,
  its byte count and the number of calls it made are those of `ReadOutcome`.
  The first call with a zero cap ends the read with `PeerDisconnected`, and the
  first with a negative cap ends it with `RecvFailed`. The read succeeds exactly
  when `n` bytes were pending and every call it made had a positive cap or none, so a
  close announced for a later call is never reached. Over a reliable stream it
  succeeds if and only if `n` bytes were pending; otherwise it fails with
  `PeerDisconnected` having drained the queue. `WriteExact` likewise extends
  `outbox` by a prefix of the data, in order, and by all `n` bytes exactly when
  it succeeds; a zero cap gives `PeerDisconnected` and a negative one
  `SendFailed`.
- `SendFrame` fails with `PayloadTooLarge` exactly when the payload exceeds
  10 MiB, and then it writes nothing and makes no call. A payload of exactly
  10 MiB fits. On success `outbox` grows by `Frame(payload)`; for an empty
  payload that is the four bytes `0, 0, 0, 0`. On a transfer failure only a
  proper prefix of the frame was written.
- `RecvFrame` agrees with the reference parser. Its success is `ParseFrame`'s
  `Parsed(payload, rest)`. A header over the bound gives
  `IncomingPayloadTooLarge` with only the 4 header bytes consumed. Over a
  reliable stream the outcome is exactly `ParseFrame`'s, with a truncated frame
  reported as `PeerDisconnected`.
- The wire format round-trips: `DecodeLength(EncodeLength(x)) == x` and back.
  `ParseFrame(Frame(p) + rest) == Parsed(p, rest)`, and conversely only a
  well-formed frame parses. Frames sent in sequence parse back in sequence.

The code throws a single exception type, `std::runtime_error`, distinguished
only by its message, and uses "peer disconnected" for both a zero-byte receive
and a zero-byte send. The model gives one tag per message, five in all.

## Model

| member | source | states |
|---|---|---|
| `Wire.EncodeLength` | protocol/Framing.h:41-42 | the header of a length is exactly 4 bytes |
| `Wire.DecodeLength` | protocol/Framing.h:49-51 | the first header byte is the most significant byte of the length and the last byte the least significant |
| `Wire.DecodeEncode` | protocol/Framing.h:51 | decoding a header gives back the length that was encoded |
| `Wire.EncodeDecode` | protocol/Framing.h:49-51 | every 4-byte header is the encoding of the length it decodes to |
| `Wire.EncodeLengthInjective` | protocol/Framing.h:42 | distinct lengths get distinct headers |
| `Wire.FitsBoundary` | protocol/Framing.h:38-39 | the bound is 10,485,760 bytes and inclusive: a payload of exactly that size fits, one byte more does not |
| `Wire.HeaderFits` | protocol/Framing.h:53-55 | a decoded header passes the 10 MiB check iff its top byte is 0 and the remaining three bytes are at most 0xA00000 |
| `Wire.Frame` | protocol/Framing.h:36-44 | the bytes of a sent frame are 4 header bytes plus the payload's length |
| `Wire.EmptyFrame` | protocol/Framing.h:41-44 | an empty payload is sent as four zero bytes and nothing more |
| `Wire.ParseBody` | protocol/Framing.h:53-58 | after the header, the reading is refused exactly when the announced length is over the bound; a whole payload has the announced length and is followed by the rest of the bytes |
| `Wire.ParseFrame` | protocol/Framing.h:48-59 | an accepted frame accounts for the 4 header bytes, the payload and the rest, and nothing more |
| `Wire.ParseFrames` | protocol/Framing.h:48-59 | reading `count` frames in sequence gives `count` payloads and leaves no more bytes than there were |
| `Wire.ParseFrameOfFrame` | protocol/Framing.h:37-60 | reading back a sent frame gives its payload and leaves every later byte unread |
| `Wire.ParsedIsFrame` | protocol/Framing.h:48-59 | whatever the reader accepts is a well-formed frame of a payload within the bound, followed by the rest |
| `Wire.ParseFrameExtend` | protocol/Framing.h:49-58 | the reader looks at no byte past the frame: appending bytes changes neither its payload nor an oversize verdict |
| `Wire.ParseFramesOfFrames` | protocol/Framing.h:37-60 | frames sent one after the other are read back as the same payloads, in the same order |
| `Wire.FramesAppend` | protocol/Framing.h:37-45 | sending two batches of frames one after the other emits the same bytes as sending them as one batch |
| `Stream.RecvReturn` | protocol/Framing.h:17 | a receive returns at most the request and the pending bytes; it is negative exactly on a negative cap; 0 only on a zero cap or nothing pending; otherwise it moves at least one byte |
| `Stream.SendReturn` | protocol/Framing.h:29 | a send returns at most the request; it is negative exactly on a negative cap, 0 only on a zero cap, and otherwise moves at least one byte |
| `Stream.Socket.Recv` | protocol/Framing.h:17 | a receive returns `RecvReturn` for its call number, moves that many bytes from the front of the pending queue into the buffer at the offset, leaves every other buffer cell alone and counts the call |
| `Stream.Socket.Send` | protocol/Framing.h:29 | a send returns `SendReturn` for its call number, appends that many bytes from the offset to the emitted bytes, in order, and counts the call |
| `Framing.ReadRun` | protocol/Framing.h:15-21 | one pass of the loop per step: nothing more to do once `total` reaches n; otherwise one receive for the `n - total` bytes still missing, with a 0 return ending in PeerDisconnected, a negative one in RecvFailed, and a positive one added to `total` before the next pass |
| `Framing.ReadOutcome` | protocol/Framing.h:13-22 | read_exact as a whole: the loop started with `total` at 0 |
| `Framing.WriteRun` | protocol/Framing.h:27-33 | one pass of the loop per step: nothing more to do once `total` reaches n; otherwise one send of the `n - total` bytes still unsent, with a 0 return ending in PeerDisconnected, a negative one in SendFailed, and a positive one added to `total` before the next pass |
| `Framing.WriteOutcome` | protocol/Framing.h:25-34 | write_exact as a whole: the loop started with `total` at 0 |
| `Framing.SendFrameOutcome` | protocol/Framing.h:37-45 | send_frame's branches: a payload over the bound is refused before any call; otherwise the 4-byte header is written, and, unless that failed or the payload is empty, the payload after it |
| `Framing.RecvFrameOutcome` | protocol/Framing.h:48-60 | recv_frame's branches: the 4-byte header is read; a failure there ends it; a decoded length over the bound is refused with only the header taken; a zero length ends it; otherwise exactly that many payload bytes are read |
| `Framing.ReadRunShape` | protocol/Framing.h:15-21 | the loop ends in one of its three outcomes, succeeds exactly when all n bytes moved, never moves more than n or more than was pending, and fails only after making a call |
| `Framing.ReadRunReliable` | protocol/Framing.h:16-21 | with no error or close to come, the loop succeeds iff n bytes were pending, and otherwise fails with PeerDisconnected having taken everything |
| `Framing.ReadRunPositive` | protocol/Framing.h:16-20 | every call before the last had a positive cap or none, and so did the last one when the loop succeeded |
| `Framing.ReadRunLastCall` | protocol/Framing.h:18-19 | a RecvFailed comes from a last call with a negative cap; a PeerDisconnected from a last call whose cap was not negative and was zero or found nothing pending |
| `Framing.ReadRunCompletes` | protocol/Framing.h:16-21 | with n bytes pending and enough calls ahead with a positive cap or none, the loop succeeds |
| `Framing.ReadOutcomeEnding` | protocol/Framing.h:13-22 | the properties of every read's outcome, bundled in `ReadEnding`: one of three statuses, success iff n bytes moved, RecvFailed never on a reliable stream, and over a reliable stream success iff n bytes were pending |
| `Framing.ReadOutcomeStops` | protocol/Framing.h:18-19 | the first call with a zero cap ends the read with PeerDisconnected and the first with a negative cap with RecvFailed; no call is made after it |
| `Framing.ReadOutcomeSucceeds` | protocol/Framing.h:16-21 | a read succeeds iff n bytes were pending and every call it made had a positive cap or none, however the later caps are set |
| `Framing.WriteRunShape` | protocol/Framing.h:27-33 | the loop ends in one of its three outcomes, succeeds exactly when all n bytes moved, and fails only after making a call |
| `Framing.WriteRunPositive` | protocol/Framing.h:28-32 | every call before the last had a positive cap or none, and so did the last one when the loop succeeded |
| `Framing.WriteRunLastCall` | protocol/Framing.h:30-31 | a SendFailed comes from a last call with a negative cap and a PeerDisconnected from one with a zero cap |
| `Framing.WriteRunCompletes` | protocol/Framing.h:28-33 | with enough calls ahead with a positive cap or none, the loop succeeds |
| `Framing.WriteOutcomeEnding` | protocol/Framing.h:25-34 | the properties of every write's outcome, bundled in `WriteEnding`: one of three statuses, success iff n bytes moved, and always success over a reliable stream |
| `Framing.WriteOutcomeStops` | protocol/Framing.h:30-31 | the first call with a zero cap ends the write with PeerDisconnected and the first with a negative cap with SendFailed; no call is made after it |
| `Framing.WriteOutcomeSucceeds` | protocol/Framing.h:28-33 | a write succeeds iff every call it made had a positive cap or none |
| `Framing.SendFrameOutcomeEnding` | protocol/Framing.h:37-45 | a payload over the bound is refused with no byte and no call; success iff the whole frame moved; a transfer failure is one of write_exact's; a payload within the bound always goes through over a reliable stream |
| `Framing.RecvFrameOutcomeEnding` | protocol/Framing.h:48-60 | success moves exactly the frame the parser reads; an oversized header moves only the header; a transfer failure stops inside the header or inside a payload within the bound; over a reliable stream the outcome is the parser's |
| `Framing.ReadExact` | protocol/Framing.h:13-22 | takes at most n bytes off the stream, always a prefix of what was pending, and buf holds exactly those; leaves every cell of buf from the bytes taken onwards as it was, so a failed read leaves buf[moved..] untouched; ends with the status, byte count and call count of ReadOutcome for the stream it started from |
| `Framing.WriteExact` | protocol/Framing.h:25-34 | extends the emitted bytes by a prefix of data[..n], in order; ends with the status, byte count and call count of WriteOutcome for the stream it started from |
| `Framing.SendFrame` | protocol/Framing.h:37-45 | ends as SendFrameOutcome; writes nothing for a payload over 10 MiB; always emits a prefix of the frame, and on success header then payload (four zero bytes for an empty payload) |
| `Framing.RecvFrame` | protocol/Framing.h:48-60 | consumes a prefix of the pending bytes and ends as RecvFrameOutcome; on success returns the payload the reference parser reads and leaves the rest; on failure returns no payload |
| `Loopback.RoundTrip` | protocol/Framing.h:37-60 | a payload within the bound sent over a reliable stream and received at the other end arrives intact, consuming exactly its frame and leaving what follows |
| `Loopback.SendFrames` | protocol/Framing.h:37-45 | sending a list of payloads frame by frame emits the frames of the whole list when it succeeds, and always succeeds over a reliable stream |
| `Loopback.RecvFrames` | protocol/Framing.h:48-60 | receiving count frames one by one gives what the reference parser reads for count frames, and always succeeds over a reliable stream when the parser does |
| `Loopback.InOrder` | protocol/Framing.h:37-60 | any number of frames sent in sequence over a reliable stream are received in the same order, leaving what the peer sent after them |
| `Loopback.DisconnectMidHeader` | protocol/Framing.h:16-18 | a peer that closes after 2 header bytes makes the receive fail with PeerDisconnected |
| `Loopback.DisconnectMidPayload` | protocol/Framing.h:57-58 | a header of 100 followed by 40 bytes and a close fails with PeerDisconnected after consuming exactly 44 bytes |
| `Loopback.OversizedHeader` | protocol/Framing.h:53-55 | a header of 10,485,761 fails with IncomingPayloadTooLarge and no payload byte is consumed |
| `Loopback.ClosedAtFirstCall` | protocol/Framing.h:17-18 | a first receive that reports a close fails the frame with PeerDisconnected and takes nothing, however much is pending |
| `Loopback.ErrorMidHeader` | protocol/Framing.h:17-19 | a receive of 2 bytes followed by one that reports an error fails the frame with RecvFailed, taking only those 2 bytes |
| `Loopback.CloseNotReached` | protocol/Framing.h:16-21 | a close announced for the second receive is never reached when the first brings a whole empty frame: the receive succeeds and leaves what follows |
| `Loopback.ShortReadKeepsBuffer` | protocol/Framing.h:16-18 | a read of 4 bytes into a buffer of 7s with only 2 bytes pending and then a close fails with PeerDisconnected, leaving the buffer as 1, 2, 7, 7 |
| `Loopback.ErrorAfterHeader` | protocol/Framing.h:29-31 | a send of the header followed by one that reports an error fails the frame with SendFailed, with exactly the header emitted |

## Left out

- The `::recv` / `::send` system calls, file descriptors and blocking: they are OS I/O. They become the oracle-driven `Socket` above. A receive never blocks. The peer's close is the end of `inbox` or a zero oracle entry. On the send side, a close is only a zero oracle entry.
- `Wire.ParseFrame`, `Wire.ParseFrames`: their own contracts give only the lengths of what they read; which bytes those are is stated by `ParsedIsFrame` and `ParseFramesOfFrames` instead.
- Calls into the framing layer from the rest of the application: `SendFrames`, `RecvFrames` and the other `Loopback` methods are callers written for the model, not part of the header.
- Concurrency: frames from several threads interleaving on one socket, and unblocking a call from another thread. The model is sequential.
- `EINTR` and other interrupted calls: the code treats every negative return as a failure, and so does the model; no retry is modelled.
- The host layout of `uint32_t` and how `htonl` / `ntohl` work inside: the model has an explicit big-endian 4-byte encode and decode instead.
- The exception message strings: each becomes one `Error` tag.
- How the `std::string` payload buffer is allocated: the model allocates an `array<byte>` of the decoded length, zero-filled, and keeps only its contents.
- `errno` and the exact negative value a failing call returns: the value is passed through, but only its sign matters to the code.
