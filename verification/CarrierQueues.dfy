/**
 One carrier session as its receivers see it: two message kinds share the
 socket, and what arrives for the other kind waits in a bounded queue.
 */
module CarrierQueues {
  import opened Bytes
  import opened CarrierCodec
  import opened CarrierReassembly

  const MAX_PENDING_MESSAGES := 64
  const MAX_PENDING_AUTHENTICATED_MESSAGE_LEN := 64 * 1024

  datatype Session = Session(frames: seq<bytes>, authenticated: seq<bytes>, tables: Reassembler)

  const NEW_SESSION := Session([], [], EMPTY)

  function Pending(s: Session, kind: MessageKind): seq<bytes> {
    if kind == Frame then s.frames else s.authenticated
  }

  function WithPending(s: Session, kind: MessageKind, queue: seq<bytes>): Session {
    if kind == Frame then s.(frames := queue) else s.(authenticated := queue)
  }

  function PopPending(s: Session, kind: MessageKind): (Session, Option<bytes>) {
    var queue := Pending(s, kind);
    if queue == [] then (s, None) else (WithPending(s, kind, queue[1..]), Some(queue[0]))
  }

  function PushPending(s: Session, kind: MessageKind, message: bytes): (Session, Option<CarrierError>) {
    var queue := Pending(s, kind);
    if |queue| >= MAX_PENDING_MESSAGES then (s, Some(PendingQueueFull))
    else (WithPending(s, kind, queue + [message]), None)
  }

  /** The limit on authenticated messages while a caller waits for `wanted`. */
  function LimitFor(wanted: MessageKind, maxSize: nat): nat {
    if wanted == AuthenticatedMessage then maxSize else MAX_PENDING_AUTHENTICATED_MESSAGE_LEN
  }

  function ValidateReceived(kind: MessageKind, message: bytes, maxSize: nat): Result<bytes, CarrierError> {
    if kind == AuthenticatedMessage && |message| > maxSize then Err(MessageExceedsLimit) else Ok(message)
  }

  /** What one received datagram means for the caller waiting under the receive lock. */
  datatype Progress = Continue | SetAside | Returned(result: Result<bytes, CarrierError>)

  function ReceiveOne(s: Session, wanted: MessageKind, maxSize: nat, input: bytes, clock: Clock): (Session, Progress) {
    if |input| > MAX_UDP_DATAGRAM_LEN then (s, Returned(Err(DatagramExceedsLimit)))
    else match DecodeDatagram(input)
      case Err(e) => (s, Returned(Err(e)))
      case Ok(d) =>
        var (tables, result) := AcceptDatagram(s.tables, d, LimitFor(wanted, maxSize), clock);
        var s' := s.(tables := tables);
        match result
        case Err(e) => (s', Returned(Err(e)))
        case Ok(None) => (s', Continue)
        case Ok(Some(delivery)) =>
          if delivery.kind == wanted then (s', Returned(ValidateReceived(wanted, delivery.message, maxSize)))
          else
            var (s'', full) := PushPending(s', delivery.kind, delivery.message);
            (s'', if full.Some? then Returned(Err(full.value)) else SetAside)
  }

  datatype Inbound = Inbound(input: bytes, clock: Clock)

  /** Handling datagrams until one returns to the caller or none is left. */
  function ReceiveLoop(s: Session, wanted: MessageKind, maxSize: nat, inbox: seq<Inbound>)
    : (Session, Option<Result<bytes, CarrierError>>, nat)
    decreases |inbox|
  {
    if inbox == [] then (s, None, 0)
    else
      var (s', progress) := ReceiveOne(s, wanted, maxSize, inbox[0].input, inbox[0].clock);
      if progress.Returned? then (s', Some(progress.result), 1)
      else
        var (end, result, used) := ReceiveLoop(s', wanted, maxSize, inbox[1..]);
        (end, result, used + 1)
  }

  /** What holds of every session, whatever was sent and however it is read. */
  predicate SessionOk(s: Session) {
    && ReassemblerOk(s.tables)
    && |s.frames| <= MAX_PENDING_MESSAGES
    && |s.authenticated| <= MAX_PENDING_MESSAGES
    && (forall i :: 0 <= i < |s.authenticated| ==> |s.authenticated[i]| <= MAX_PENDING_AUTHENTICATED_MESSAGE_LEN)
  }

  /** A delivered authenticated message, whole or reassembled, respects the limit in force. */
  lemma DeliveryWithinLimit(r: Reassembler, d: Datagram, authenticatedMax: nat, clock: Clock)
    requires ReassemblerOk(r)
    ensures var result := AcceptDatagram(r, d, authenticatedMax, clock).1;
            result.Ok? && result.value.Some? && result.value.value.kind == AuthenticatedMessage ==>
              |result.value.value.message| <= authenticatedMax
  {
    var result := AcceptDatagram(r, d, authenticatedMax, clock).1;
    if d.kind == AuthenticatedFragment && result.Ok? && result.value.Some? {
      var f := DecodeFragment(d.payload).value;
      FragmentWithinLimit(r, f, authenticatedMax, clock);
    }
  }

  lemma FragmentWithinLimit(r: Reassembler, f: Fragment, authenticatedMax: nat, clock: Clock)
    requires ReassemblerOk(r)
    ensures var result := AcceptFragment(r, AuthenticatedMessage, f, authenticatedMax, clock).1;
            result.Ok? && result.value.Some? ==> |result.value.value.message| <= authenticatedMax
  {
    var result := AcceptFragment(r, AuthenticatedMessage, f, authenticatedMax, clock).1;
    if result.Ok? && result.value.Some? {
      ShapeCheckExact(f.totalLen, f.index, f.count, |f.payload|);
      var key := Key(AuthenticatedMessage, f.messageId);
      var table := PruneExpired(r.table, clock.pruneAt);
      NewBufferOk(f, clock.createdAt);
      InsertFragmentExact(if key in table then table[key] else NewBuffer(f.totalLen, f.count, clock.createdAt), f);
    }
  }

  lemma PushKeepsOk(s: Session, kind: MessageKind, message: bytes)
    requires SessionOk(s) && (kind == AuthenticatedMessage ==> |message| <= MAX_PENDING_AUTHENTICATED_MESSAGE_LEN)
    ensures SessionOk(PushPending(s, kind, message).0)
  {
  }

  /** Handling one datagram keeps the session consistent and its queues bounded. */
  lemma ReceiveOnePreserves(s: Session, wanted: MessageKind, maxSize: nat, input: bytes, clock: Clock)
    requires SessionOk(s)
    ensures SessionOk(ReceiveOne(s, wanted, maxSize, input, clock).0)
  {
    if DecodeDatagram(input).Ok? {
      var d, limit := DecodeDatagram(input).value, LimitFor(wanted, maxSize);
      AcceptPreserves(s.tables, d, limit, clock);
      DeliveryWithinLimit(s.tables, d, limit, clock);
      var (tables, result) := AcceptDatagram(s.tables, d, limit, clock);
      var s' := s.(tables := tables);
      assert SessionOk(s');
      if result.Ok? && result.value.Some? && result.value.value.kind != wanted {
        PushKeepsOk(s', result.value.value.kind, result.value.value.message);
      }
    }
  }

  lemma {:induction false} ReceiveLoopPreserves(s: Session, wanted: MessageKind, maxSize: nat, inbox: seq<Inbound>)
    requires SessionOk(s)
    ensures SessionOk(ReceiveLoop(s, wanted, maxSize, inbox).0)
    decreases |inbox|
  {
    if inbox != [] {
      ReceiveOnePreserves(s, wanted, maxSize, inbox[0].input, inbox[0].clock);
      ReceiveLoopPreserves(ReceiveOne(s, wanted, maxSize, inbox[0].input, inbox[0].clock).0, wanted, maxSize, inbox[1..]);
    }
  }
}
