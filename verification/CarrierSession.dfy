/** The native UDP session object: its methods update the tables and queues in place. */
module CarrierSession {
  import opened Bytes
  import opened CarrierCodec
  import opened CarrierReassembly
  import opened CarrierQueues

  /** The datagrams that carry a fragmented message, in sending order. */
  function FragmentDatagrams(kind: MessageKind, messageId: nat, payload: bytes): seq<bytes> {
    seq(ChunkCount(|payload|), i requires 0 <= i => DatagramWire(FragmentDatagram(kind, messageId, payload, i)))
  }

  /** The datagrams that carry a message: one, or its fragments; none when it is too long. */
  function DatagramsOf(kind: MessageKind, messageId: nat, payload: bytes): seq<bytes> {
    if |payload| <= MAX_CARRIER_PAYLOAD_LEN then [DatagramWire(Datagram(CompleteDatagramKind(kind), payload))]
    else if |payload| <= MAX_REASSEMBLED_MESSAGE_LEN then FragmentDatagrams(kind, messageId, payload)
    else []
  }

  /** The message id after a send: only a fragmented message takes one. */
  function NextId(messageId: nat, payload: bytes): nat {
    if NeedsFragments(payload) then (messageId + 1) % U64 else messageId
  }

  /** What the transport took of these datagrams when it takes that many before it fails. */
  function TakenOf(datagrams: seq<bytes>, taken: nat): seq<bytes> {
    if taken < |datagrams| then datagrams[..taken] else datagrams
  }

  method NoneMissing(chunks: seq<Option<bytes>>) returns (complete: bool)
    ensures complete <==> AllPresent(chunks)
  {
    for i := 0 to |chunks|
      invariant AllPresent(chunks[..i])
    {
      if chunks[i].None? {
        return false;
      }
    }
    assert chunks[..|chunks|] == chunks;
    complete := true;
  }

  method JoinChunks(chunks: seq<Option<bytes>>) returns (message: bytes)
    requires AllPresent(chunks)
    ensures message == Join(chunks)
  {
    message := [];
    for i := 0 to |chunks|
      invariant message == Join(chunks[..i])
    {
      assert chunks[..i + 1][..i] == chunks[..i];
      message := message + chunks[i].value;
    }
    assert chunks[..|chunks|] == chunks;
  }

  /** `FragmentBuffer::insert`, with its two passes over the chunks. */
  method InsertIntoBuffer(b: Buffer, f: Fragment) returns (updated: Buffer, result: Result<Option<bytes>, CarrierError>)
    ensures (updated, result) == InsertFragment(b, f)
  {
    updated := b;
    if f.totalLen != b.totalLen {
      return b, Err(TotalLengthChanged);
    }
    if f.totalLen > MAX_REASSEMBLED_MESSAGE_LEN {
      return b, Err(FragmentedMessageTooLarge);
    }
    if f.count != |b.chunks| {
      return b, Err(FragmentCountChanged);
    }
    if f.index >= |b.chunks| {
      return b, Err(FragmentIndexOutOfRange);
    }
    if b.chunks[f.index].Some? {
      return b, Ok(None);
    }
    updated := updated.(receivedLen := b.receivedLen + |f.payload|);
    if updated.receivedLen > b.totalLen {
      return updated, Err(FragmentsExceedDeclaredLength);
    }
    updated := updated.(chunks := b.chunks[f.index := Some(f.payload)]);

    var chunks := updated.chunks;
    var complete := NoneMissing(chunks);
    if !complete {
      return updated, Ok(None);
    }
    var message := JoinChunks(chunks);
    updated := updated.(chunks := seq(|chunks|, _ => None));
    if |message| != b.totalLen {
      return updated, Err(ReassembledLengthMismatch);
    }
    result := Ok(Some(message));
  }

  /** Wraps one piece of a message. */
  method CutOne(kind: MessageKind, messageId: nat, payload: bytes, index: nat, count: nat, piece: bytes) returns (datagram: bytes)
    requires NeedsFragments(payload) && messageId < U64 && index < count == ChunkCount(|payload|)
    requires piece == Chunk(payload, index)
    ensures datagram == DatagramWire(FragmentDatagram(kind, messageId, payload, index))
    ensures |datagram| <= MAX_UDP_DATAGRAM_LEN
  {
    FragmentsAreValid(kind, messageId, payload, index);
    var encoded := EncodeFragment(Fragment(messageId, |payload|, index, count, piece)).value;
    datagram := EncodeDatagram(Datagram(FragmentDatagramKind(kind), encoded)).value;
  }

  /** Cuts a message at multiples of the fragment size and sends every piece until a send fails. */
  method SendFragments(kind: MessageKind, messageId: nat, payload: bytes, count: nat, taken: nat)
    returns (failed: bool, datagrams: seq<bytes>)
    requires NeedsFragments(payload) && messageId < U64 && count == ChunkCount(|payload|)
    ensures datagrams == TakenOf(FragmentDatagrams(kind, messageId, payload), taken)
    ensures failed <==> taken < count
    ensures forall i :: 0 <= i < |datagrams| ==> |datagrams[i]| <= MAX_UDP_DATAGRAM_LEN
  {
    ChunkCountBounds(|payload|);
    datagrams := [];
    var index, offset := 0, 0;
    while offset < |payload|
      invariant offset == Min(|payload|, MAX_FRAGMENT_PAYLOAD_LEN * index)
      invariant index <= count && index <= taken && |datagrams| == index
      invariant forall i :: 0 <= i < index ==> datagrams[i] == DatagramWire(FragmentDatagram(kind, messageId, payload, i))
      invariant forall i :: 0 <= i < index ==> |datagrams[i]| <= MAX_UDP_DATAGRAM_LEN
      decreases |payload| - offset
    {
      var end := Min(|payload|, offset + MAX_FRAGMENT_PAYLOAD_LEN);
      var datagram := CutOne(kind, messageId, payload, index, count, payload[offset..end]);
      if index == taken {
        return true, datagrams;
      }
      datagrams := datagrams + [datagram];
      index, offset := index + 1, end;
    }
    failed := false;
  }

  /** From `s`, the rest of the inbox leads to the expected end of the receive loop. */
  ghost predicate LoopLeads(s: Session, wanted: MessageKind, maxSize: nat, inbox: seq<Inbound>, used: nat,
                            expected: (Session, Option<Result<bytes, CarrierError>>, nat))
    requires used <= |inbox|
  {
    var rest := ReceiveLoop(s, wanted, maxSize, inbox[used..]);
    rest.0 == expected.0 && rest.1 == expected.1 && rest.2 + used == expected.2
  }

  lemma LoopEnds(s: Session, wanted: MessageKind, maxSize: nat, inbox: seq<Inbound>,
                 expected: (Session, Option<Result<bytes, CarrierError>>, nat))
    ensures expected == ReceiveLoop(s, wanted, maxSize, inbox) ==> LoopLeads(s, wanted, maxSize, inbox, 0, expected)
    ensures LoopLeads(s, wanted, maxSize, inbox, |inbox|, expected) ==> expected == (s, None, |inbox|)
  {
    assert inbox[0..] == inbox;
  }

  lemma LoopTurn(s: Session, wanted: MessageKind, maxSize: nat, inbox: seq<Inbound>, used: nat,
                 expected: (Session, Option<Result<bytes, CarrierError>>, nat))
    requires used < |inbox| && LoopLeads(s, wanted, maxSize, inbox, used, expected)
    ensures var (s', progress) := ReceiveOne(s, wanted, maxSize, inbox[used].input, inbox[used].clock);
            if progress.Returned? then expected == (s', Some(progress.result), used + 1)
            else LoopLeads(s', wanted, maxSize, inbox, used + 1, expected)
  {
    assert inbox[used..][1..] == inbox[used + 1..];
  }

  class NativeUdpSession {
    var pendingFrames: seq<bytes>
    var pendingAuthenticated: seq<bytes>
    var reassembly: map<Key, Buffer>
    var completedOrder: seq<Key>
    var completedSet: set<Key>
    var nextMessageId: nat

    ghost function Model(): Session
      reads this
    {
      Session(pendingFrames, pendingAuthenticated, Reassembler(reassembly, CompletedKeys(completedOrder, completedSet)))
    }

    ghost predicate Valid()
      reads this
    {
      SessionOk(Model()) && nextMessageId < U64
    }

    constructor ()
      ensures Valid() && Model() == NEW_SESSION && nextMessageId == 1
    {
      pendingFrames, pendingAuthenticated, reassembly := [], [], map[];
      completedOrder, completedSet, nextMessageId := [], {}, 1;
    }

    /**
     Sends a message whole when it fits one datagram, and otherwise as fragments
     under a fresh message id. The transport takes `taken` datagrams and then
     fails; what it took is always a prefix of the message's datagrams.
     */
    method SendMessage(kind: MessageKind, payload: bytes, taken: nat) returns (error: Option<CarrierError>, sent: seq<bytes>)
      requires Valid()
      modifies this`nextMessageId
      ensures Valid() && Model() == old(Model())
      ensures sent == TakenOf(DatagramsOf(kind, old(nextMessageId), payload), taken)
      ensures error == if |payload| > MAX_REASSEMBLED_MESSAGE_LEN then Some(MessageTooLarge)
                       else if taken < |DatagramsOf(kind, old(nextMessageId), payload)| then Some(SendFailed)
                       else None
      ensures nextMessageId == NextId(old(nextMessageId), payload)
      ensures forall i :: 0 <= i < |sent| ==> |sent[i]| <= MAX_UDP_DATAGRAM_LEN
    {
      if |payload| <= MAX_CARRIER_PAYLOAD_LEN {
        var whole := Datagram(CompleteDatagramKind(kind), payload);
        EncodedDatagramFits(whole);
        if taken == 0 {
          return Some(SendFailed), [];
        }
        return None, [EncodeDatagram(whole).value];
      }
      if |payload| >= U32 || |payload| > MAX_REASSEMBLED_MESSAGE_LEN {
        return Some(MessageTooLarge), [];
      }
      var count := DivCeil(|payload|, MAX_FRAGMENT_PAYLOAD_LEN);
      ChunkCountBounds(|payload|);
      var messageId := nextMessageId;
      nextMessageId := (nextMessageId + 1) % U64;
      var failed;
      failed, sent := SendFragments(kind, messageId, payload, count, taken);
      error := if failed then Some(SendFailed) else None;
    }

    /** Remembers a completed key, forgetting the oldest ones past the bound. */
    method RememberCompleted(key: Key)
      requires CompletedOk(CompletedKeys(completedOrder, completedSet))
      modifies this`completedOrder, this`completedSet
      ensures CompletedKeys(completedOrder, completedSet) == RememberKey(old(CompletedKeys(completedOrder, completedSet)), key)
    {
      if key in completedSet {
        return;
      }
      completedSet := completedSet + {key};
      completedOrder := completedOrder + [key];
      ghost var grown := CompletedKeys(completedOrder, completedSet);
      while |completedOrder| > MAX_COMPLETED_FRAGMENT_KEYS
        invariant Evict(CompletedKeys(completedOrder, completedSet)) == Evict(grown)
      {
        var evicted := completedOrder[0];
        completedOrder := completedOrder[1..];
        completedSet := completedSet - {evicted};
      }
    }

    /** Accepts one datagram: a whole message, a fragment, or a close. */
    method AcceptDatagram(d: Datagram, authenticatedMax: nat, clock: Clock) returns (result: AcceptResult)
      requires Valid()
      modifies this`reassembly, this`completedOrder, this`completedSet
      ensures Valid()
      ensures var (tables, expected) := CarrierReassembly.AcceptDatagram(old(Model()).tables, d, authenticatedMax, clock);
              Model() == old(Model()).(tables := tables) && result == expected
    {
      AcceptPreserves(Model().tables, d, authenticatedMax, clock);
      var kind := MessageKindOf(d.kind);
      if kind.None? {
        return Err(CarrierClosed);
      }
      if d.kind == CompleteDatagramKind(kind.value) {
        if ExceedsLimit(kind.value, |d.payload|, authenticatedMax) {
          return Err(MessageExceedsLimit);
        }
        return Ok(Some(Delivery(kind.value, d.payload)));
      }
      var decoded := DecodeFragment(d.payload);
      if decoded.Err? {
        return Err(decoded.error);
      }
      result := AcceptFragment(kind.value, decoded.value, authenticatedMax, clock);
    }

    /** Checks a fragment and stores it unless its message is already complete. */
    method AcceptFragment(kind: MessageKind, fragment: Fragment, authenticatedMax: nat, clock: Clock) returns (result: AcceptResult)
      requires CompletedOk(Model().tables.completed)
      modifies this`reassembly, this`completedOrder, this`completedSet
      ensures (Model().tables, result) == CarrierReassembly.AcceptFragment(old(Model()).tables, kind, fragment, authenticatedMax, clock)
    {
      var key := Key(kind, fragment.messageId);
      if key in completedSet {
        return Ok(None);
      }
      var shape := ShapeError(fragment.totalLen, fragment.index, fragment.count, |fragment.payload|);
      if shape.Some? {
        return Err(shape.value);
      }
      if ExceedsLimit(kind, fragment.totalLen, authenticatedMax) {
        return Err(MessageExceedsLimit);
      }
      reassembly := PruneExpired(reassembly, clock.pruneAt);
      if key !in reassembly && |reassembly| >= MAX_REASSEMBLY_ENTRIES {
        return Err(TooManyInFlight);
      }
      result := StoreFragment(key, fragment, clock.createdAt);
    }

    /** Puts a checked fragment into the buffer of its message. */
    method StoreFragment(key: Key, fragment: Fragment, createdAt: nat) returns (result: AcceptResult)
      requires CompletedOk(Model().tables.completed)
      modifies this`reassembly, this`completedOrder, this`completedSet
      ensures (Model().tables, result) == Store(old(Model()).tables, old(reassembly), key, fragment, createdAt)
    {
      var entry := if key in reassembly then reassembly[key] else NewBuffer(fragment.totalLen, fragment.count, createdAt);
      var updated, completed := InsertIntoBuffer(entry, fragment);
      match completed {
        case Err(e) =>
          reassembly := reassembly - {key};
          result := Err(e);
        case Ok(None) =>
          reassembly := reassembly[key := updated];
          result := Ok(None);
        case Ok(Some(message)) =>
          reassembly := reassembly - {key};
          RememberCompleted(key);
          result := Ok(Some(Delivery(key.kind, message)));
      }
    }

    method PopPending(kind: MessageKind) returns (message: Option<bytes>)
      requires Valid()
      modifies this`pendingFrames, this`pendingAuthenticated
      ensures Valid() && (Model(), message) == CarrierQueues.PopPending(old(Model()), kind)
    {
      message := None;
      match kind {
        case Frame =>
          if pendingFrames != [] {
            message, pendingFrames := Some(pendingFrames[0]), pendingFrames[1..];
          }
        case AuthenticatedMessage =>
          if pendingAuthenticated != [] {
            message, pendingAuthenticated := Some(pendingAuthenticated[0]), pendingAuthenticated[1..];
          }
      }
    }

    method PushPending(kind: MessageKind, message: bytes) returns (full: Option<CarrierError>)
      requires Valid()
      modifies this`pendingFrames, this`pendingAuthenticated
      ensures (Model(), full) == CarrierQueues.PushPending(old(Model()), kind, message)
      ensures kind == Frame || |message| <= MAX_PENDING_AUTHENTICATED_MESSAGE_LEN ==> Valid()
    {
      full := None;
      match kind {
        case Frame =>
          if |pendingFrames| >= MAX_PENDING_MESSAGES {
            return Some(PendingQueueFull);
          }
          pendingFrames := pendingFrames + [message];
        case AuthenticatedMessage =>
          if |pendingAuthenticated| >= MAX_PENDING_MESSAGES {
            return Some(PendingQueueFull);
          }
          pendingAuthenticated := pendingAuthenticated + [message];
      }
    }

    /**
     Waits for a message of one kind. `inbox` is what the socket yields; the
     result is absent when the caller is still waiting after all of it.
     */
    method ReceiveMessage(wanted: MessageKind, maxSize: nat, inbox: seq<Inbound>)
      returns (result: Option<Result<bytes, CarrierError>>, used: nat)
      requires Valid()
      modifies this
      ensures Valid() && nextMessageId == old(nextMessageId)
      ensures var (popped, waiting) := CarrierQueues.PopPending(old(Model()), wanted);
              if waiting.Some?
              then Model() == popped && result == Some(ValidateReceived(wanted, waiting.value, maxSize)) && used == 0
              else (Model(), result, used) == ReceiveLoop(old(Model()), wanted, maxSize, inbox)
    {
      var waiting := PopPending(wanted);
      if waiting.Some? {
        return Some(ValidateReceived(wanted, waiting.value, maxSize)), 0;
      }
      result, used := ReceiveFromSocket(wanted, maxSize, inbox);
    }

    method ReceiveFromSocket(wanted: MessageKind, maxSize: nat, inbox: seq<Inbound>)
      returns (result: Option<Result<bytes, CarrierError>>, used: nat)
      requires Valid()
      modifies this
      ensures Valid() && nextMessageId == old(nextMessageId)
      ensures (Model(), result, used) == ReceiveLoop(old(Model()), wanted, maxSize, inbox)
    {
      ghost var expected := ReceiveLoop(Model(), wanted, maxSize, inbox);
      used := 0;
      LoopEnds(Model(), wanted, maxSize, inbox, expected);
      while used < |inbox|
        invariant Valid() && nextMessageId == old(nextMessageId)
        invariant used <= |inbox|
        invariant LoopLeads(Model(), wanted, maxSize, inbox, used, expected)
      {
        LoopTurn(Model(), wanted, maxSize, inbox, used, expected);
        var answer := ReceiveDatagram(wanted, maxSize, inbox[used]);
        used := used + 1;
        if answer.Some? {
          return answer, used;
        }
      }
      LoopEnds(Model(), wanted, maxSize, inbox, expected);
      result := None;
    }

    /** One turn of the receive loop, under the receive lock. */
    method ReceiveDatagram(wanted: MessageKind, maxSize: nat, next: Inbound) returns (answer: Option<Result<bytes, CarrierError>>)
      requires Valid()
      modifies this
      ensures Valid() && nextMessageId == old(nextMessageId)
      ensures var (s, progress) := ReceiveOne(old(Model()), wanted, maxSize, next.input, next.clock);
              Model() == s && answer == if progress.Returned? then Some(progress.result) else None
    {
      if |next.input| > MAX_UDP_DATAGRAM_LEN {
        return Some(Err(DatagramExceedsLimit));
      }
      var decoded := DecodeDatagram(next.input);
      if decoded.Err? {
        return Some(Err(decoded.error));
      }
      DeliveryWithinLimit(Model().tables, decoded.value, LimitFor(wanted, maxSize), next.clock);
      var accepted := AcceptDatagram(decoded.value, LimitFor(wanted, maxSize), next.clock);
      match accepted {
        case Err(e) => answer := Some(Err(e));
        case Ok(None) => answer := None;
        case Ok(Some(delivery)) =>
          if delivery.kind == wanted {
            return Some(ValidateReceived(wanted, delivery.message, maxSize));
          }
          var full := PushPending(delivery.kind, delivery.message);
          answer := if full.Some? then Some(Err(full.value)) else None;
      }
    }
  }
}
