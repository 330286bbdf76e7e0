# Verification of the QuantumLink protocol core

A Dafny model of the shared Rust core `qlink-core`, with proofs over every input,
run and schedule. `dafny verify dfyconfig.toml` checks all of it.

- **Native UDP carrier** (`Carrier*.dfy`): the fragment and datagram codecs, the
  reassembly tables and their bounded memory of completed messages, the pending
  queues shared by concurrent receivers, and the listener that multiplexes
  sessions by address and generation. Main results: whatever is
  delivered for a fragmented message is that message, under any schedule, and it
  is delivered when a buffer is free and nothing expires; a repeat needs 256
  newer completions; receivers share messages in order and each loss is reported
  once; a message sent in one datagram completes at whichever receiver reads it,
  and every message sent over a quiet line is returned; whatever a caller gets was
  sent, with its kind; the listener keeps its table and queues under every
  interleaving, and brings a new source to the application.
- **STUN codec** (`Stun*.dfy`): encoder and decoder of sections 6 and 15 of RFC
  5389 with the program's own tag. Main results: the round trip, as an
  if-and-only-if, and exactly which byte strings are accepted, tags included.
- **Peer record stores** (`Peer*.dfy`): the memory store, the file store, its
  disk image, write failures and key rotation. Main results: the file store
  refines the memory store; the image always opens to the last snapshot that
  reached it; exactly which envelopes open; without write failures a reopened store agrees with the live one;
  no rollback short of expiry.
- **Packet tunnel, frames and handshake** (`Packet*.dfy`, `Replay.dfy`,
  `PqcFrames.dfy`, `Handshake.dfy`): leases, budgets, packet numbers, IPv4
  normalisation, frame protection and the replay window. Main results: the two
  directions do not interfere, frames and packets are conserved, every outcome of a
  submit or accept is decided by the bytes, the policy and the lease, one core's
  frames reach the other's tunnel as the packets submitted, tampering with a
  greeting is noticed, and a handshake leads to links on which, whatever bytes the
  network injects, only authentic frames open and each at most once.
- **Limiter, caches and probing** (`Admission.dfy`, `MdnsCache.dfy`,
  `Candidates.dfy`, `Probes.dfy`). Main results: exactly which calls are admitted
  and their exact bound, look-ups equal to the answer from the full log, a unique
  probe order, exactly when the probe loop meets its deadline, and that a
  reachable candidate gets connected.

Pure code is modelled by functions and lemmas. Code that updates state is
modelled by classes and loops, each method proved equal to a specification
function; the theorems are about those functions. Clock readings, nonces, socket
input and write failures are parameters. Hash functions, the checksum, the KEM,
JSON, base64 and address text are function values, with only their output
lengths or inverse laws assumed, and assumed where a theorem says so.

Three points where a closer look was needed:

- The probe loop does not always end within deadline plus pacing: the record
  fetch before it shares the same start time. `Probes.EndsInTime` gives the exact
  condition and `Probes.LateEntryEndsLate` what every late entry does.
- The limiter admits at most `2 * max_events - 1` calls in an interval one window
  long, one fewer than twice the limit, because the call that opens a window is
  itself admitted. `Admission.BurstAdmits` shows that the bound is reached.
- The observation type documents local-network candidates as having a lower
  priority than signed ones (`qlink-core/src/mdns_discovery.rs:118-124`), while the
  fold gives them the ordinary host priority. The model follows the code.
  `Candidates.LocalOutranksSigned` is an input on which the documented order
  fails, and `Candidates.LocalRanksBelowSignedExactly` says when it holds: no
  announced address is new, or every signed direct endpoint is a host of at least
  that priority.

## Model

| member | source | states |
|---|---|---|
| `CarrierDelivery.FragmentedMessageDelivered` | qlink-core/src/carrier_transport.rs:582-721 | Main theorem of the carrier. For every message that needs fragments, and every schedule that reorders, repeats and interleaves its fragments with any other traffic, with a free buffer at each of them, no expiry and the receive limit respected: it is delivered, nothing else is ever delivered for its key, and a second delivery needs 256 newer completions in between |
| `CarrierDelivery.ExactDelivery` | qlink-core/src/carrier_transport.rs:663-721 | Exactness without any assumption on the clock, free buffers or other traffic: whatever is delivered for a key is the message its fragments were cut from |
| `CarrierDelivery.AtMostOnce` | qlink-core/src/carrier_transport.rs:766-786 | The same key is delivered again only after at least 256 other messages were completed, for every schedule, honest or not |
| `CarrierDelivery.EventuallyDelivered` | qlink-core/src/carrier_transport.rs:802-851 | If every fragment arrives in any order and multiplicity, a buffer is free and nothing expires, some arrival delivers the message |
| `CarrierDelivery.FewKeysLeaveRoom` | qlink-core/src/carrier_transport.rs:690-700 | A schedule that mentions at most 64 fragmented messages always has a free buffer, so the room assumption can be checked from the schedule alone |
| `CarrierDelivery.QuietLineDelivers` | qlink-core/src/carrier_transport.rs:582-616 | The fragments as sent, over a quiet line, meet every assumption of the main theorem, so each admissible message is delivered |
| `CarrierDelivery.RunKeepsTables` | qlink-core/src/carrier_transport.rs:663-721 | The table invariant holds after every schedule of arrivals, well formed or not |
| `CarrierReassembly.AcceptPreserves` | qlink-core/src/carrier_transport.rs:663-721 | One datagram, whatever it holds, keeps: at most 64 buffers, each position-exact with a received length equal to the sum of its chunks and below the total; completed keys distinct, at most 256, and apart from the buffers |
| `CarrierReassembly.InsertFragmentExact` | qlink-core/src/carrier_transport.rs:802-851 | On a consistent buffer the only reachable insertion error is a changed total length; the message comes out exactly when no position is missing |
| `CarrierReassembly.StorePreserves` | qlink-core/src/carrier_transport.rs:663-721 | Storing past the checks fails exactly when a buffer for the key declares another length, and keeps the tables consistent either way |
| `CarrierReassembly.RememberKeyIsFifo` | qlink-core/src/carrier_transport.rs:766-786 | A new completed key goes to the back and the oldest leaves only when 256 are held |
| `CarrierReassembly.RememberedExactly` | qlink-core/src/carrier_transport.rs:766-786 | Over any history, a completed key is remembered exactly until 256 newer ones have completed |
| `CarrierReassembly.SumBound` | qlink-core/src/carrier_transport.rs:802-851 | Position-exact chunks never add up to more than the declared length, and reach it exactly when none is missing |
| `CarrierReassembly.WholeOutcome` | qlink-core/src/carrier_transport.rs:663-678 | A datagram that carries a whole message is delivered and touches no table; only an authenticated one over the limit is refused; a close is reported |
| `CarrierReassembly.FragmentTurnedAway` | qlink-core/src/carrier_transport.rs:678-689 | Which fragments leave the tables alone and with what answer: unreadable, already completed, of a wrong shape, or over the limit |
| `CarrierReassembly.FragmentTaken` | qlink-core/src/carrier_transport.rs:690-721 | Every other fragment first drops exactly the buffers older than thirty seconds, is refused exactly when it needs a buffer and 64 are live, and touches no buffer but its own, whose age it keeps |
| `CarrierCodec.DecodeDatagramExact` | qlink-core/src/carrier_transport.rs:909-959 | Datagram decoding accepts exactly the byte strings datagram encoding writes |
| `CarrierCodec.EncodedDatagramFits` | qlink-core/src/carrier_transport.rs:909-927 | What encoding accepts fits 1,200 bytes and decodes to itself |
| `CarrierCodec.DecodeFragmentExact` | qlink-core/src/carrier_transport.rs:961-1022 | Fragment decoding accepts exactly what fragment encoding writes, for every value of every field |
| `CarrierCodec.ShapeCheckExact` | qlink-core/src/carrier_transport.rs:1033-1073 | The shape check passes exactly the fragments that fill their own position of a message of admissible length |
| `CarrierCodec.FragmentsAreValid` | qlink-core/src/carrier_transport.rs:582-616 | Every fragment of a message between 1,189 bytes and 1 MiB passes the shape check, fits one datagram and decodes back |
| `CarrierCodec.DatagramRefusals` | qlink-core/src/carrier_transport.rs:929-959 | For every byte string, which of the five datagram faults is reported, in terms of the bytes |
| `CarrierCodec.KindByte` | qlink-core/src/carrier_transport.rs:929-959 | The kind a datagram is read as is the one its eighth byte names |
| `CarrierQueues.ReceiveOnePreserves` | qlink-core/src/carrier_transport.rs:618-661 | One received datagram keeps the tables consistent and both pending queues bounded, authenticated messages at most 64 KiB |
| `CarrierQueues.ReceiveLoopPreserves` | qlink-core/src/carrier_transport.rs:618-650 | The whole receive loop keeps the same |
| `CarrierQueues.DeliveryWithinLimit` | qlink-core/src/carrier_transport.rs:663-688 | A delivered authenticated message respects the limit in force, whether it came whole or in fragments |
| `CarrierReceivers.ReceiversShareInOrder` | qlink-core/src/carrier_transport.rs:618-650 | For every interleaving of concurrent receivers of both kinds: messages of a kind are handed out in completion order, none twice; each whole message lost, to a full queue or to the size limit, finished its reader with exactly that error, and no other loss or handout finished that reader |
| `CarrierReceivers.ReceiveOneCases` | qlink-core/src/carrier_transport.rs:723-751 | How one datagram moves the two queues: returned to the receiver that wants it, appended for the other kind, or refused with an error |
| `CarrierReceivers.RefusalIsAnswered` | qlink-core/src/carrier_transport.rs:663-678 | A whole authenticated message over the limit in force completes nothing and is answered with the size error |
| `CarrierEndToEnd.ResultsWereSent` | qlink-core/src/carrier_transport.rs:582-751 | For every history of fewer than 2^64 fragmented sends and every interleaving of receivers that read datagrams of those sends in any order and number, each message a caller gets was sent, with the kind asked for |
| `CarrierEndToEnd.IdsAreFresh` | qlink-core/src/carrier_transport.rs:582-616 | Each fragmented message of such a history has an id of its own, so honesty of the fragments needs no assumption |
| `CarrierEndToEnd.AcceptGenuine` | qlink-core/src/carrier_transport.rs:663-721 | A datagram of the history keeps every buffer to pieces of its own message and delivers only messages of the history |
| `CarrierEndToEnd.SendAll` | qlink-core/src/carrier_transport.rs:582-616 | A session object sending one message after another hands the transport prefixes of exactly the datagrams of the history |
| `CarrierEndToEnd.WholeMessageReceived` | qlink-core/src/carrier_transport.rs:618-678 | On every session a message sent in one datagram is returned to a caller waiting for its kind, put at the back of its own queue by a caller of the other kind, or reported: over the limit, or queue full. Nothing else changes |
| `CarrierEndToEnd.WholeMessageCompletes` | qlink-core/src/carrier_transport.rs:618-678 | Lifted to runs: after every interleaving, a receiver holding the lock that reads such a datagram logs its completion, lost exactly for those two reasons, and is finished with the message, sent back for its own, or told of the loss |
| `CarrierEndToEnd.CallIsServed` | qlink-core/src/carrier_transport.rs:618-650 | After every interleaving that leaves the lock free and nothing queued, a new call that reads such a message of its kind finishes with it |
| `CarrierEndToEnd.LookTakesOldest` | qlink-core/src/carrier_transport.rs:618-634 | A receiver that looks takes the oldest queued message of its kind and only that, and is told when it is over its limit |
| `CarrierEndToEnd.UnusableDatagramReported` | qlink-core/src/carrier_transport.rs:652-678 | A datagram too long, unreadable or a close is reported to the reader and changes nothing |
| `CarrierEndToEnd.SendThenReceive` | qlink-core/src/carrier_transport.rs:582-721 | From send to receive: every message up to 1 MiB that the limit lets in, sent under any id and read by a new session over a quiet line, whole or in fragments, is returned to the caller waiting for its kind |
| `CarrierEndToEnd.SendAndReceive` | qlink-core/src/carrier_transport.rs:582-721 | The same on two session objects |
| `CarrierSession.NoneMissing` | qlink-core/src/carrier_transport.rs:836-838 | The search for a missing chunk is exact |
| `CarrierSession.JoinChunks` | qlink-core/src/carrier_transport.rs:837-842 | The copying loop yields the chunks in order |
| `CarrierSession.InsertIntoBuffer` | qlink-core/src/carrier_transport.rs:802-851 | The insertion with its guards and loops computes the specified insertion |
| `CarrierSession.CutOne` | qlink-core/src/carrier_transport.rs:596-613 | One piece is wrapped as the specified datagram of at most 1,200 bytes |
| `CarrierSession.SendFragments` | qlink-core/src/carrier_transport.rs:582-616 | The cutting and sending loop hands over the specified datagrams, one for each position, up to the first failing send |
| `CarrierSession.NativeUdpSession.constructor` | qlink-core/src/carrier_transport.rs:520-530 | A new session has empty tables and queues |
| `CarrierSession.NativeUdpSession.SendMessage` | qlink-core/src/carrier_transport.rs:582-616 | Hands over one datagram or the fragments under a fresh id, up to the first failing send, and reports that failure; the too-long message is refused and takes no id |
| `CarrierSession.NativeUdpSession.RememberCompleted` | qlink-core/src/carrier_transport.rs:766-786 | Keeps order and set of completed keys as specified |
| `CarrierSession.NativeUdpSession.AcceptDatagram` | qlink-core/src/carrier_transport.rs:663-721 | Computes the specified acceptance in place and keeps the session valid; what that acceptance answers is fixed by `WholeOutcome`, `FragmentTurnedAway` and `FragmentTaken` |
| `CarrierSession.NativeUdpSession.AcceptFragment` | qlink-core/src/carrier_transport.rs:684-721 | Completed keys, shape, limit and free buffer are checked in this order, then the fragment is stored |
| `CarrierSession.NativeUdpSession.StoreFragment` | qlink-core/src/carrier_transport.rs:690-721 | Stores, completes or drops the buffer as specified |
| `CarrierSession.NativeUdpSession.PopPending` | qlink-core/src/carrier_transport.rs:723-730 | Takes the oldest pending message of a kind and leaves the other queue alone |
| `CarrierSession.NativeUdpSession.PushPending` | qlink-core/src/carrier_transport.rs:732-751 | Appends to the bounded queue or reports that it is full |
| `CarrierSession.NativeUdpSession.ReceiveMessage` | qlink-core/src/carrier_transport.rs:618-650 | Pending message first, then the socket, as the specified receive |
| `CarrierSession.NativeUdpSession.ReceiveFromSocket` | qlink-core/src/carrier_transport.rs:618-650 | The loop over the socket equals the specified loop on state, result and datagrams used |
| `CarrierSession.NativeUdpSession.ReceiveDatagram` | qlink-core/src/carrier_transport.rs:652-661 | One turn of the loop equals the specified step |
| `CarrierListener.ListenerInvariant` | qlink-core/src/carrier_transport.rs:154-231 | In every interleaving: at most 1,024 entries, generations never above the counter, every entry's session offered on the accept queue, each session offered at most once; what each session took and still holds is exactly what was logged for it, in order, and each datagram is logged at most once, for a session of its own source |
| `CarrierListener.GenerationsDistinct` | qlink-core/src/carrier_transport.rs:154-231 | No two addresses hold the same generation |
| `CarrierListener.CloseRemovesOnlyItself` | qlink-core/src/carrier_transport.rs:337-356 | Closing removes exactly its own entry: a newer session at the same address stays |
| `CarrierListener.CreationNeedsWellFormedDatagram` | qlink-core/src/carrier_transport.rs:154-231 | A step creates at most one session, only for a readable datagram that is not a close, with a new generation one above the counter |
| `CarrierListener.UnreadableIsDropped` | qlink-core/src/carrier_transport.rs:171-177 | A datagram too long or unreadable is only counted |
| `CarrierListener.KnownSourceIsServed` | qlink-core/src/carrier_transport.rs:179-195 | A live session gets its datagram at the back of its own queue, and leaves the table with a close; nobody else is touched |
| `CarrierListener.NewSourceIsServed` | qlink-core/src/carrier_transport.rs:196-228 | From any other source a close or a full table opens nothing; every other datagram opens a session of a new generation that begins with it, offered exactly when the accept queue has room; a stale entry is gone in every case |
| `CarrierListener.NewSessionIsAccepted` | qlink-core/src/carrier_transport.rs:179-246 | A new source reaches the application: once the sessions offered before it are accepted its own is, and the first datagram read there is the one that opened it |
| `CarrierListener.EndedSessionIsNotLive` | qlink-core/src/carrier_transport.rs:337-356 | A session that its owner drops or closes is no longer the live one of its address |
| `CarrierListener.NativeUdpListener.constructor` | qlink-core/src/carrier_transport.rs:144-152 | A new listener has no sessions |
| `CarrierListener.NativeUdpListener.TrySend` | qlink-core/src/carrier_transport.rs:154-231 | Queues the datagram exactly when the session queue is open and not full |
| `CarrierListener.NativeUdpListener.HandleDatagram` | qlink-core/src/carrier_transport.rs:154-231 | One turn of the dispatcher equals the specified step and keeps the invariant |
| `CarrierListener.NativeUdpListener.DispatchDatagram` | qlink-core/src/carrier_transport.rs:154-231 | The turn itself: unreadable datagrams are only counted, readable ones are routed |
| `CarrierListener.NativeUdpListener.Route` | qlink-core/src/carrier_transport.rs:172-228 | Known, full, closed and new sources are handled as specified |
| `CarrierListener.NativeUdpListener.OpenQueue` | qlink-core/src/carrier_transport.rs:203-206 | A new session queue holds exactly the datagram that opened it |
| `CarrierListener.NativeUdpListener.StartSession` | qlink-core/src/carrier_transport.rs:203-228 | Registers a session and takes it back when the accept queue is full |
| `CarrierListener.NativeUdpListener.ClearSession` | qlink-core/src/carrier_transport.rs:337-356 | Removes the entry only when it still carries the caller's generation and the lock is free |
| `StunMessages.RoundTrip` | qlink-core/src/ice.rs:230-479 | Decoding the encoding with the same password returns class, transaction id and attributes with fresh integrity and fingerprint if and only if the body is below 64 KiB and every attribute is representable (error code below 800, unknown type really unknown, IPv6 flow and scope zero) |
| `StunMessages.RoundTripUnchecked` | qlink-core/src/ice.rs:280-479 | A reader that asks for no integrity reads the same message |
| `StunMessages.UnsignedIsRefused` | qlink-core/src/ice.rs:410-479 | An unsigned message is refused by a reader with a password, as missing its integrity |
| `StunMessages.OtherPasswordExactly` | qlink-core/src/ice.rs:280-479 | A message signed with one password and read with another is accepted if and only if both give the same tag over the signed prefix, and otherwise refused for its integrity |
| `StunAccepted.DecodeExactly` | qlink-core/src/ice.rs:280-479 | For every byte string, password and message: the bytes decode to the message if and only if the class and cookie bytes are right, attributes tile the body to its declared end and decode to the message, the last fingerprint is the masked checksum of the prefix before it, and with a password the first integrity value is the tag of that password over the prefix before the last one |
| `StunAccepted.AcceptedIsTagged` | qlink-core/src/ice.rs:446-471 | Every byte string accepted under a password carries, in its first integrity attribute, the tag of that password over a prefix of its bytes |
| `StunAccepted.HeaderRefusals` | qlink-core/src/ice.rs:280-300 | Which header fault is reported, in terms of the bytes and in the order of the checks |
| `StunAccepted.TagRefusals` | qlink-core/src/ice.rs:410-479 | With attributes that decode, the answer is exactly the fingerprint mismatch, the missing or wrong integrity, or the attributes, in this order |
| `StunMessages.TooLongIsLost` | qlink-core/src/ice.rs:230-275 | A body of 64 KiB or more never comes back, because the length field is cut to 16 bits |
| `StunMessages.FingerprintAccepted` | qlink-core/src/ice.rs:410-479 | The prefix the decoder patches and checks is byte for byte what the encoder fed to the checksum |
| `StunMessages.IntegrityAccepted` | qlink-core/src/ice.rs:410-479 | Likewise for the integrity tag, whose input carries another length than the final header |
| `StunMessages.DecodeFitting` | qlink-core/src/ice.rs:280-408 | On a fitting message the decoder finds exactly the written attributes at their offsets before it checks tags |
| `StunCodec.ValueRoundTrip` | qlink-core/src/ice.rs:330-613 | An attribute value decodes back to itself exactly when it is representable |
| `StunCodec.V4RoundTrip` | qlink-core/src/ice.rs:540-613 | IPv4 XOR-MAPPED-ADDRESS round trip for every address, port and transaction id |
| `StunCodec.V6RoundTrip` | qlink-core/src/ice.rs:540-613 | IPv6 XOR-MAPPED-ADDRESS comes back exactly when flow label and scope are zero |
| `StunCodec.MappedBytes` | qlink-core/src/ice.rs:540-569 | The written address byte by byte: family, and port and address under the cookie and the transaction id |
| `StunCodec.ValueAccepted` | qlink-core/src/ice.rs:330-405 | Which value bytes each attribute type accepts |
| `StunCodec.DecodedWritesBack` | qlink-core/src/ice.rs:330-405 | A decoded attribute writes back the bytes it was read from, for an address the part that was read |
| `StunCodec.AttributeBytes` | qlink-core/src/ice.rs:526-538 | A written attribute byte by byte: type, length, value and zero padding to a multiple of four |
| `StunSections.SplitWritten` | qlink-core/src/ice.rs:310-330 | Splitting a written section returns its types and values with their offsets, padding skipped |
| `StunSections.SplitTiles` | qlink-core/src/ice.rs:310-408 | For every byte string, the attributes found tile the body: each stands at its offset with type, length and value, and the next begins behind its padding; without an error they reach the end |
| `StunSections.TilesSplit` | qlink-core/src/ice.rs:310-408 | And only that reading tiles the body to its end |
| `StunEndpoint.WriteAttributes` | qlink-core/src/ice.rs:230-248 | The growing buffer holds header and padded attributes |
| `StunEndpoint.AppendIntegrity` | qlink-core/src/ice.rs:250-263 | Patches the length, then appends the tag of the patched prefix |
| `StunEndpoint.AppendFingerprint` | qlink-core/src/ice.rs:264-275 | Patches the length again and appends the checksum |
| `StunEndpoint.EncodeMessage` | qlink-core/src/ice.rs:230-275 | The imperative encoder equals the specification |
| `StunEndpoint.ScanOne` | qlink-core/src/ice.rs:310-408 | One turn of the attribute loop, or the error the whole decode ends with |
| `StunEndpoint.ScanAttributes` | qlink-core/src/ice.rs:310-408 | The loop on the offset equals splitting and decoding the section |
| `StunEndpoint.VerifyTags` | qlink-core/src/ice.rs:410-479 | The tag checks with their order of errors; which tags pass is fixed by `StunAccepted.TagRefusals` |
| `StunEndpoint.DecodeMessage` | qlink-core/src/ice.rs:280-479 | The imperative decoder equals the specification on every input, so `StunAccepted.DecodeExactly` is about what it accepts |
| `Bytes.ConstantTimeEq` | qlink-core/src/ice.rs:627-633 | The accumulating comparison answers true exactly on equal byte strings, unequal lengths included |
| `Replay.ObserveExact` | qlink-core/src/replay.rs:23-54 | A number is accepted exactly when it was never accepted before and is fewer than 128 below every accepted one |
| `Replay.WindowRefinesSet` | qlink-core/src/replay.rs:23-54 | Over every run the 128-bit window agrees with the unbounded set of accepted numbers |
| `Replay.NeverTwice` | qlink-core/src/replay.rs:23-54 | No number is accepted twice |
| `PqcFrames.FrameOpens` | qlink-core/src/pqc_frame.rs:43-132 | A protected frame passes every check under the same key and decrypts to itself |
| `PqcFrames.FaultExact` | qlink-core/src/pqc_frame.rs:43-80 | For every byte string: the checks before the window pass if and only if the shape is right and the last 32 bytes are the tag of the key over counter, header and ciphertext; a right shape with another tag fails authentication |
| `PqcFrames.OpenExact` | qlink-core/src/pqc_frame.rs:43-93 | For every byte string: opening succeeds if and only if it is authentic and its counter passes the window, and yields the ciphertext under the stream byte by byte; a frame that is not authentic leaves the receiver as it was |
| `PqcFrames.ProtectExact` | qlink-core/src/pqc_frame.rs:33-41 | Protecting gives an authentic frame of the next counter that unmasks to the content, until counters or the length field run out; a frame too long uses up its counter |
| `PqcFrames.OrderedLineOpens` | qlink-core/src/pqc_frame.rs:33-93 | On an undisturbed line every frame opens, in order, to what was sent |
| `PqcFrames.OnlySentFramesOpen` | qlink-core/src/pqc_frame.rs:33-93 | Over every schedule in which the network injects any bytes but no forged tag: each opened frame is one the peer sent, with its content, and none is opened twice |
| `PqcFrames.DeliveryExact` | qlink-core/src/pqc_frame.rs:43-93 | Delivering a sent frame succeeds exactly when no frame of its counter was opened before and it lies within the window, and yields its content |
| `PqcFrames.LinkInvariant` | qlink-core/src/pqc_frame.rs:33-93 | Over every schedule in both directions, with any bytes injected by the network: every opened frame carries a tag of the shared key over its own bytes, no counter is opened twice, counters strictly increase from 1, windows hold exactly the opened counters |
| `PqcFrames.PqcFrameProtector.constructor` | qlink-core/src/pqc_frame.rs:22-31 | Counters start at 1 with an empty window |
| `PqcFrames.PqcFrameProtector.ProtectFrame` | qlink-core/src/pqc_frame.rs:33-41 | Equals the specified protection: an exhausted counter changes nothing, and a frame too long for the length field is refused after its counter was taken |
| `PqcFrames.PqcFrameProtector.OpenFrame` | qlink-core/src/pqc_frame.rs:43-93 | Equals the specified opening, which `OpenExact` fixes for every byte string: the window changes only past authentication |
| `Handshake.HonestHandshakeMirrors` | qlink-core/src/crypto.rs:94-219 | A handshake delivered unchanged succeeds exactly for the known suites and leaves mirrored directional keys (KEM correctness assumed) |
| `Handshake.ResponderChecksTranscript` | qlink-core/src/crypto.rs:94-219 | Unless the two transcripts collide, a responder finishes on the initiator's message exactly when each side saw the other's greeting unchanged, and then both hold mirrored keys; in any case it holds the initiator's transcript hash and suite |
| `Handshake.GreetingsExact` | qlink-core/src/crypto.rs:185-219 | Greetings are made and answered exactly for the known version and suites; an answer keeps the suite and offers the key of its secret |
| `Handshake.InitiatorFinishes` | qlink-core/src/crypto.rs:94-140 | The initiator finishes if and only if version, suite and key fit; its send and receive keys are the two directional hashes over suite, shared secret and transcript |
| `Handshake.ResponderFinishes` | qlink-core/src/crypto.rs:146-183 | The responder finishes if and only if version, suites, transcript hash and ciphertext length fit; it holds the same keys crossed over |
| `Handshake.KeysDerived` | qlink-core/src/crypto.rs:472-492 | The two directional keys are hashes of different inputs |
| `Handshake.EndToEnd` | qlink-core/src/crypto.rs:94-219 | After such a handshake the frame invariant holds over every schedule, injected bytes included, and while nobody forges a tag only frames of the peer open |
| `Handshake.OrderedEndToEnd` | qlink-core/src/crypto.rs:94-219 | And on an undisturbed line every frame opens, in order |
| `PacketIpv4.Fold` | qlink-core/src/packet_core.rs:456-465 | The carry-folding loop ends below 65536 and keeps the sum modulo 65535, zero only for zero |
| `PacketIpv4.ChecksumVerifies` | qlink-core/src/packet_core.rs:456-465 | A header carrying its own checksum sums to all ones |
| `PacketIpv4.NormalizedChecksum` | qlink-core/src/packet_core.rs:428-454 | The header of every packet normalisation accepts has one's-complement checksum zero |
| `PacketIpv4.NormalizedFields` | qlink-core/src/packet_core.rs:428-454 | Type of service and TTL are reset, the identification exactly for unfragmented packets; every other byte but the checksum is unchanged |
| `PacketIpv4.UnfragmentedMeans` | qlink-core/src/packet_core.rs:443-447 | The identification is cleared exactly when the more-fragments bit and all 13 offset bits are zero |
| `PacketIpv4.NormalizeRefuses` | qlink-core/src/packet_core.rs:428-441 | Exactly which packets are refused, and why, in terms of their bytes |
| `PacketIpv4.NormalizeIdempotent` | qlink-core/src/packet_core.rs:428-454 | Normalising twice is normalising once |
| `PacketIpv4.ComputeChecksum` | qlink-core/src/packet_core.rs:456-465 | The running-sum and folding loops compute the specified checksum, odd lengths included |
| `PacketIpv4.NormalizeInPlace` | qlink-core/src/packet_core.rs:428-454 | Rewrites the buffer as specified; a refused packet is left untouched |
| `PacketIpv4.NormalizeCopy` | qlink-core/src/packet_core.rs:295-296 | Normalising a copy in place gives the specified packet or error |
| `PacketCore.DecodeFrameExact` | qlink-core/src/packet_core.rs:476-529 | Frame decoding accepts exactly what frame encoding writes |
| `PacketProperties.DirectionsIndependent` | qlink-core/src/packet_core.rs:175-357 | Deleting every event that does not concern a direction from any run leaves that direction's leases, budgets, numbers, replay scope, queues and all its results as they were |
| `PacketProperties.FramesConserved` | qlink-core/src/packet_core.rs:267-317 | Over any run frames leave in the order queued, none lost or repeated, numbered without gap |
| `PacketProperties.PacketsConserved` | qlink-core/src/packet_core.rs:319-357 | Likewise for accepted packets on their way to the tunnel |
| `PacketProperties.CountersAgree` | qlink-core/src/packet_core.rs:267-357 | From a new core: next number less one, frames out, and popped plus queued frames agree; frames in, packets to tunnel, and popped plus queued packets agree |
| `PacketProperties.LeaseBudget` | qlink-core/src/packet_core.rs:175-201 | While an outbound lease is held with leases required, queued frames are numbered consecutively and all but the last total below the byte budget |
| `PacketProperties.LeaseBudgetFrom` | qlink-core/src/packet_core.rs:363-393 | The same from any point inside the lease |
| `PacketProperties.NumberIsRead` | qlink-core/src/packet_core.rs:496-529 | The number a frame was queued under is the one its receiver reads |
| `PacketProperties.FrameCarriesPacket` | qlink-core/src/packet_core.rs:267-313 | A queued frame decodes to its number, its family and the normalised packet |
| `PacketLink.AcceptedOncePerScope` | qlink-core/src/packet_core.rs:319-353 | Between two resets of the inbound scope, after any run, each packet number is accepted at most once, and never one accepted earlier in the scope |
| `PacketLink.RunRemembers` | qlink-core/src/packet_core.rs:175-252 | Over any run the replay window agrees with the set of numbers accepted since the last reset |
| `PacketLink.QueuedCarries` | qlink-core/src/packet_core.rs:267-313 | Over any run the queued frames read as consecutive numbers and the normalised packets submitted |
| `PacketLink.FramesReachTheOtherTunnel` | qlink-core/src/packet_core.rs:267-357 | Whatever order, loss and repetition one core's frames meet, each packet on the other's tunnel queue is the normalised packet submitted under that number, and within a scope none comes twice |
| `PacketOutcomes.SubmitExactly` | qlink-core/src/packet_core.rs:267-313 | Each outcome of a submit as an if-and-only-if over packet bytes, policy, lease, budget and time: queued exactly for an IPv4 packet to a protected destination under a lease that lets it through, with a header that fits; the six other outcomes likewise |
| `PacketOutcomes.SubmitChanges` | qlink-core/src/packet_core.rs:267-313 | What a submit changes: exactly the counter of its outcome, and for a queued packet number, queue and saturating budget |
| `PacketOutcomes.QueuedWasProtected` | qlink-core/src/packet_core.rs:267-313 | Over every run, each queued frame comes from a submit of a packet to a protected destination under a lease not expired and within budget at its time |
| `PacketOutcomes.AcceptExactly` | qlink-core/src/packet_core.rs:319-353 | Each outcome of an accepted frame as an if-and-only-if over its bytes, lease, budget, time and the numbers seen |
| `PacketOutcomes.AcceptChanges` | qlink-core/src/packet_core.rs:319-353 | What an accept changes: exactly the counter of its outcome, and for a fresh frame queue and budget |
| `PacketOutcomes.AcceptedWasLetThrough` | qlink-core/src/packet_core.rs:319-353 | Over every run, each packet on the tunnel queue comes from a well-shaped frame under a lease that let it through |
| `PacketOutcomes.BlockedExactly` | qlink-core/src/packet_core.rs:363-393 | A lease lets traffic through if and only if none is required, or one is held, not expired, and with budget left |
| `PacketOutcomes.InstallExactly` | qlink-core/src/packet_core.rs:175-201 | A lease is refused exactly when another of the same peer with no lower generation is held; otherwise it takes its direction with a new budget and scope |
| `PacketOutcomes.ClearExactly` | qlink-core/src/packet_core.rs:203-252 | Clearing empties its direction, for one peer exactly on matching peer and generation |
| `PacketTunnel.PacketTunnelCore.constructor` | qlink-core/src/packet_core.rs:154-167 | A new core has no leases, empty queues and number 1 |
| `PacketTunnel.Open` | qlink-core/src/packet_core.rs:135-168 | Refuses a small MTU, an unreadable route or an unknown suite, in this order, and otherwise gives a new core |
| `PacketTunnel.PacketTunnelCore.InstallPeerSession` | qlink-core/src/packet_core.rs:175-201 | The specified installation: idempotent, refusing an older generation of the same peer |
| `PacketTunnel.PacketTunnelCore.ClearPeerSessions` | qlink-core/src/packet_core.rs:203-209 | Clears both leases, budgets and the replay scope |
| `PacketTunnel.PacketTunnelCore.ClearPeerSessionDirection` | qlink-core/src/packet_core.rs:211-223 | Clears one direction only |
| `PacketTunnel.PacketTunnelCore.ClearPeerSession` | qlink-core/src/packet_core.rs:225-252 | Clears only the exact peer and generation |
| `PacketTunnel.PacketTunnelCore.SubmitTunnelPacket` | qlink-core/src/packet_core.rs:267-313 | The specified disposition, counters and queue, for every drop and error; which is which is fixed by `PacketOutcomes.SubmitExactly` |
| `PacketTunnel.PacketTunnelCore.QueueFrame` | qlink-core/src/packet_core.rs:303-312 | Charges, counts, numbers and queues the frame |
| `PacketTunnel.PacketTunnelCore.PopTransportFrame` | qlink-core/src/packet_core.rs:315-317 | Takes the oldest frame |
| `PacketTunnel.PacketTunnelCore.AcceptTransportFrame` | qlink-core/src/packet_core.rs:319-353 | The specified acceptance, with the window advanced before a replay is reported |
| `PacketTunnel.PacketTunnelCore.PopTunnelPacket` | qlink-core/src/packet_core.rs:355-357 | Takes the oldest packet |
| `PacketTunnel.Apply` | qlink-core/src/packet_core.rs:175-357 | One call on the object is one step of the specification |
| `PacketTunnel.Drive` | qlink-core/src/packet_core.rs:175-357 | Any list of calls on the object gives the state and outputs of the specified run, so the theorems about runs hold of it |
| `PacketTunnel.DriveNew` | qlink-core/src/packet_core.rs:135-357 | On an object driven from the start, numbers, counters and popped plus queued frames and packets agree |
| `PeerRecords.FileStoreRefinesMemoryStore` | qlink-core/src/peer_store.rs:599-687 | Driven by the same calls and clock readings from empty, the nested store holds exactly the flat store's records: load, length and the next prune's count agree at every step, and no mesh is kept empty |
| `PeerRecords.KeysAreIndependent` | qlink-core/src/peer_store.rs:144-188 | In both stores what a key holds depends only on the calls about that key and the clock |
| `PeerRecords.RollbackNeedsExpiry` | qlink-core/src/peer_store.rs:150-167 | A record replaced by one with no higher sequence was expired at the clock reading of the call that dropped it |
| `PeerRecords.SequenceOnlyRises` | qlink-core/src/peer_store.rs:610-635 | While a key is not forgotten and no held record is stale at a call's reading, the key stays held and its sequence only rises, equal only for the same record |
| `PeerRecords.StoreThenLoad` | qlink-core/src/peer_store.rs:150-167 | What every key holds after a store: the record, unless an unexpired one of no lower sequence is held; expired ones are gone |
| `PeerRecords.ForgetOrPruneThenLoad` | qlink-core/src/peer_store.rs:169-187 | What every key holds after a forget, a prune or a rotation |
| `PeerDisk.ImageOpens` | qlink-core/src/peer_store.rs:344-434 | Every image opens under its own key to the snapshot written; a clear one under any key; a protected one without a key is empty |
| `PeerDisk.SealedBytes` | qlink-core/src/peer_store.rs:265-287 | The sealed payload byte by byte: the clear bytes under the stream of key and nonce, then the tag over key, nonce and exactly those masked bytes |
| `PeerDisk.ImageBytes` | qlink-core/src/peer_store.rs:512-547 | What a write puts on disk: version 1 in the clear without a key, otherwise version 3 with the nonce and the sealed payload |
| `PeerDisk.EnvelopeOpensExactly` | qlink-core/src/peer_store.rs:407-434 | For every envelope: it opens if and only if the nonce has 24 bytes, the payload ends with the tag over its own masked bytes, and the unmasked bytes are a table |
| `PeerDisk.MalformedEnvelopeIsRefused` | qlink-core/src/peer_store.rs:407-434 | An envelope with unreadable fields, another nonce length or a payload shorter than the tag does not open |
| `PeerDisk.VersionsRead` | qlink-core/src/peer_store.rs:344-405 | Which files are read at all: version 1 as it stands, version 3 with a key, everything else as empty |
| `PeerDisk.WritesExactly` | qlink-core/src/peer_store.rs:610-686 | Which calls write, and that a write replaces the image by that of the new table under the key then in force |
| `PeerDisk.WrongKeyReadsEmpty` | qlink-core/src/peer_store.rs:407-434 | What another key makes of a protected image: empty while the tags differ, otherwise the table its own stream unmasks, or empty when that is none |
| `PeerDisk.DiskHoldsLastSnapshot` | qlink-core/src/peer_store.rs:473-547 | After any calls, rotations and write failures, on a store opened on any file, the image opens under the key now in memory to the last snapshot that reached it |
| `PeerDisk.ReopenedAgrees` | qlink-core/src/peer_store.rs:610-686 | If every due write succeeded and the store's clock never passed now, a reopened store and the live one hold the same unexpired records |
| `PeerDisk.UnwrittenCall` | qlink-core/src/peer_store.rs:610-686 | A call that writes nothing changes no record that is unexpired later |
| `PeerDisk.LiveTable` | qlink-core/src/peer_store.rs:439-451 | Write failures never change the live table |
| `PeerStores.CountRecords` | qlink-core/src/peer_store.rs:662-667 | The sum of the mesh table sizes is the number of records |
| `PeerStores.InMemoryPeerStore.constructor` | qlink-core/src/peer_store.rs:138-142 | Starts empty |
| `PeerStores.InMemoryPeerStore.Load` | qlink-core/src/peer_store.rs:145-148 | The record held for the pair |
| `PeerStores.InMemoryPeerStore.Store` | qlink-core/src/peer_store.rs:150-167 | The specified step, prune included |
| `PeerStores.InMemoryPeerStore.Forget` | qlink-core/src/peer_store.rs:169-174 | Removes exactly the pair |
| `PeerStores.InMemoryPeerStore.PruneExpired` | qlink-core/src/peer_store.rs:180-187 | Drops stale records and returns how many |
| `PeerStores.FilePeerStore.constructor` | qlink-core/src/peer_store.rs:330-335 | Starts with the table the found image opens to, or empty when there is none |
| `PeerStores.Open` | qlink-core/src/peer_store.rs:319-335 | A missing file opens empty, a found one as decoded, and only another read error refuses |
| `PeerStores.FilePeerStore.Load` | qlink-core/src/peer_store.rs:599-608 | The record held for the pair |
| `PeerStores.FilePeerStore.Len` | qlink-core/src/peer_store.rs:662-667 | The number of records over all meshes |
| `PeerStores.FilePeerStore.AtomicWrite` | qlink-core/src/peer_store.rs:551-596 | The image is replaced whole or left as it was, wherever the write fails |
| `PeerStores.FilePeerStore.TryPersistWithKey` | qlink-core/src/peer_store.rs:512-547 | On success the disk holds the specified image under the given key, whose bytes `PeerDisk.SealedBytes` and `ImageBytes` fix |
| `PeerStores.FilePeerStore.Insert` | qlink-core/src/peer_store.rs:622-632 | The guarded insertion, with an empty mesh map never left behind |
| `PeerStores.FilePeerStore.Store` | qlink-core/src/peer_store.rs:610-635 | The specified step on records and disk; the early return writes nothing |
| `PeerStores.FilePeerStore.Forget` | qlink-core/src/peer_store.rs:637-659 | Removes the pair and an emptied mesh, and writes only then |
| `PeerStores.FilePeerStore.Persist` | qlink-core/src/peer_store.rs:439-451 | A failed write is dropped and leaves the disk as it was |
| `PeerStores.FilePeerStore.Retain` | qlink-core/src/peer_store.rs:669-681 | Drops stale records and emptied meshes and counts the records gone |
| `PeerStores.FilePeerStore.PruneExpired` | qlink-core/src/peer_store.rs:669-686 | The specified step; writes only when something was removed, and returns the count |
| `PeerStores.FilePeerStore.RotateKey` | qlink-core/src/peer_store.rs:473-507 | Writes under the new key first; key and image change together or not at all |
| `Admission.AtMostTwoWindows` | qlink-core/src/admission.rs:300-322 | For calls in time order, one address is admitted fewer than twice the limit in any half-open interval one window long |
| `Admission.BurstAdmits` | qlink-core/src/admission.rs:300-322 | That bound is reached by calls in time order: for every limit with a window longer than one tick a burst is admitted 2 * maxEvents - 1 times |
| `Admission.WindowCountsExactly` | qlink-core/src/admission.rs:300-322 | Since its window opened an address was admitted exactly count times, never above the limit |
| `Admission.AdmittedExactly` | qlink-core/src/admission.rs:300-322 | A call is admitted if and only if it is among the first maxEvents calls of its address since the window opened, the window being found from the call times alone |
| `Admission.OthersNeverMatter` | qlink-core/src/admission.rs:300-322 | A call's outcome is the one it would have had if no other address had called |
| `Admission.AdmissionLimiter.constructor` | qlink-core/src/admission.rs:292-298 | Starts without buckets |
| `Admission.AdmissionLimiter.Check` | qlink-core/src/admission.rs:300-322 | The specified check in place; without a configured limit everything is admitted and nothing changes |
| `Admission.WithRateLimit` | qlink-core/src/admission.rs:53-58 | A positive count and window are configured as given; anything else leaves the limit as it was, so a configured limit is always positive |
| `MdnsCache.LookupIsAnswer` | qlink-core/src/mesh_connection.rs:685-725 | With a monotone clock a look-up equals the answer computed from the full log: latest announcement for each address list, in order of last announcement, still fresh; no peer is kept with an empty list |
| `MdnsCache.AnswerExact` | qlink-core/src/mesh_connection.rs:685-725 | An entry is in that answer if and only if it is the last announcement of its addresses by the peer and no older than the time to live |
| `MdnsCache.FreshMeans` | qlink-core/src/mesh_connection.rs:704-725 | Fresh means no older than the time to live, also before one has passed |
| `MdnsCache.FreshTwice` | qlink-core/src/mesh_connection.rs:704-725 | Pruning early never changes a later look |
| `MdnsCache.MdnsObservationCache.constructor` | qlink-core/src/mesh_connection.rs:671-676 | Starts empty |
| `MdnsCache.MdnsObservationCache.RecordObservation` | qlink-core/src/mesh_connection.rs:685-699 | Replaces the entry with the same address list and appends |
| `MdnsCache.MdnsObservationCache.ObservationsFor` | qlink-core/src/mesh_connection.rs:704-725 | Prunes in place and returns the fresh observations in order |
| `MdnsCache.MdnsObservationCache.ClearAll` | qlink-core/src/mesh_connection.rs:731-735 | Empties the cache |
| `Candidates.ProbeList` | qlink-core/src/mesh_connection.rs:1107-1134 | The probe list is a permutation of the record's direct endpoints and of new host entries for fingerprint-matching addresses, stably ordered with the cached address first |
| `Candidates.FoldExact` | qlink-core/src/mesh_connection.rs:1109-1131 | Exactly the announced addresses not listed yet are added, each once, as hosts, and in the end all are listed |
| `Candidates.TrustedExact` | qlink-core/src/mesh_connection.rs:1109-1117 | An address is trusted if and only if an observation with the right fingerprint announces it |
| `Candidates.FoldObservations` | qlink-core/src/mesh_connection.rs:1109-1131 | The nested loops equal the fold over trusted addresses |
| `Candidates.AddObserved` | qlink-core/src/mesh_connection.rs:1117-1130 | The inner loop equals the fold over one observation |
| `Candidates.OrderDirectCandidates` | qlink-core/src/mesh_connection.rs:2262-2294 | Filtered, sorted and promoted list meets the ordering predicate and is a permutation |
| `Candidates.Position` | qlink-core/src/mesh_connection.rs:2283-2288 | The first matching entry, or none matches |
| `Candidates.StableSortIsStable` | qlink-core/src/mesh_connection.rs:2277-2281 | The sort is ordered by rank then falling priority, stable, and a permutation |
| `Candidates.BeforeMeans` | qlink-core/src/mesh_connection.rs:2277-2303 | Hosts come before server-reflexive endpoints, those before relays, and within a type the higher priority first |
| `Candidates.DirectMembers` | qlink-core/src/mesh_connection.rs:2262-2275 | Exactly the hosts, server-reflexive and relay endpoints of the record are probed |
| `Candidates.StableOrderIsUnique` | qlink-core/src/mesh_connection.rs:2277-2281 | Sortedness and stability decide the order completely, whatever algorithm the library uses |
| `Candidates.OrderedIsUnique` | qlink-core/src/mesh_connection.rs:2262-2294 | Only one list meets the ordering predicate |
| `Candidates.LocalOutranksSigned` | qlink-core/src/mesh_connection.rs:1109-1131 | A local address is probed before a signed reflexive endpoint, against the documented order |
| `Candidates.LocalRanksBelowSignedExactly` | qlink-core/src/mesh_connection.rs:1107-1134 | Local candidates come after all signed ones exactly when no announced address is new or every signed direct endpoint is a host of at least the local priority |
| `Candidates.UncachedOrder` | qlink-core/src/mesh_connection.rs:2262-2294 | Without a cached path the list probed is exactly the stable order |
| `Probes.EndsInTime` | qlink-core/src/mesh_connection.rs:1210-1331 | With ideal timers, whatever each probe does, the loop ends within deadline plus pacing or at once; so within them if and only if it was entered within them |
| `Probes.LateEntryEndsLate` | qlink-core/src/mesh_connection.rs:1226-1232 | Entered at or past the deadline, with any candidates, the loop tries nothing and ends at once, so the unconditional bound is false |
| `Probes.AttemptsInOrder` | qlink-core/src/mesh_connection.rs:1210-1331 | Attempts follow candidate order, at most one each; an established attempt is unique, last, and names the address and path kind returned |
| `Probes.ExhaustedTriedAll` | qlink-core/src/mesh_connection.rs:1210-1331 | Giving up before the deadline means every candidate with a readable address was tried |
| `Probes.ProbeFitsBudget` | qlink-core/src/mesh_connection.rs:2362-2378 | A probe never outlasts its own timeout nor the overall deadline |
| `Probes.TurnExactly` | qlink-core/src/mesh_connection.rs:1226-1327 | One turn in absolute times: it stops at the deadline; a candidate with an address has until its timeout or the deadline; a success within that connects with the right path kind, a failure or time-out goes on, each with its length |
| `Probes.ReachableConnects` | qlink-core/src/mesh_connection.rs:1210-1331 | When a candidate always answers in time, and the deadline leaves room for it and for the slowest course of those before it, the loop ends connected |
| `Probes.ProbeCandidate` | qlink-core/src/mesh_connection.rs:1226-1327 | The body of the loop for one candidate equals one specified turn |
| `Probes.RaceNativeUdpDirectProbes` | qlink-core/src/mesh_connection.rs:1210-1331 | The loop equals the specification on result and ending time |

## Left out

- Sockets, TURN relay transport, TLS, the mDNS daemon, metrics, logging and file permissions: input and output only. A failing send is an input of `SendMessage`; a failing receive is not modelled.
- Cancellation in the middle of an asynchronous call: every call runs to its end. Poisoned locks are left out for the same reason.
- The internals of SHAKE256, ML-KEM, ML-DSA, SLH-DSA, CRC-32, base64 and JSON. Nothing is claimed about forging tags or colliding hashes; `Probes` and `Candidates` take address text as given functions.
- Overflow of the 64-bit counters: listener generations, metrics and packet numbers are unbounded naturals. Carrier message ids wrap, byte budgets saturate and frame counters stop at the limit, as in the code.
- PacketProperties.FrameCarriesPacket: like the theorems of `PacketLink`, stated for packet numbers below 2^64, because the model does not wrap the number.
- Handshake.HonestHandshakeMirrors: assumes that decapsulation inverts encapsulation; device signatures and the identity assertion are not modelled.
- Handshake.ResponderChecksTranscript: speaks of an initiator's finish delivered unchanged. A changed ciphertext gives other keys, which only the first protected frame shows.
- PeerDisk.WrongKeyReadsEmpty: says nothing about how likely two keys are to give the same tag, a property of the hash.
- Fallible serialisation: writing the record table as JSON always succeeds in the model, as it does for these types.
- Probes.RaceNativeUdpDirectProbes: one probe is a single answer after a time, or none. The session opening, assertion and key exchange inside it, and the timing fields of an attempt other than its length, are not modelled.
- The last-good path cache, the relay fallback and the development QUIC carrier: map updates, and code resting on other wire formats.
- `peer_acl.rs` (allow and deny lists by peer id), `inbound_identity.rs` (signature checks on an identity assertion), `control_transport.rs` (opening plain or TLS streams to the services), `discovery.rs` (record signing and field checks), the registry and provisioning clients (calls to a ledger service), the foreign-function layer (pointer marshalling) and the scripts.
