/**
 A sender and the receivers of its datagrams, over a network that loses,
 repeats, reorders and delays: what a caller gets was sent, with that kind.
 */
module CarrierEndToEnd {
  import opened Bytes
  import opened CarrierCodec
  import opened CarrierReassembly
  import opened CarrierQueues
  import D = CarrierDelivery
  import R = CarrierReceivers
  import S = CarrierSession

  datatype Message = Message(kind: MessageKind, payload: bytes)

  function FragmentedCount(history: seq<Message>): nat {
    if history == [] then 0
    else
      var last := history[|history| - 1];
      FragmentedCount(history[..|history| - 1]) + if NeedsFragments(last.payload) then 1 else 0
  }

  /** The message id in force after these sends by a new session. */
  function IdAfter(history: seq<Message>): (id: nat)
    ensures id < U64
  {
    if history == [] then 1
    else S.NextId(IdAfter(history[..|history| - 1]), history[|history| - 1].payload)
  }

  /** The datagrams of message number `k`. */
  function SentBy(history: seq<Message>, k: nat): seq<bytes>
    requires k < |history|
  {
    S.DatagramsOf(history[k].kind, IdAfter(history[..k]), history[k].payload)
  }

  predicate WasSent(history: seq<Message>, kind: MessageKind, payload: bytes) {
    Message(kind, payload) in history
  }

  /** A datagram of message `k`: the network may deliver any of them, any number of times, in any order. */
  predicate DrawnFrom(history: seq<Message>, k: nat, input: bytes) {
    k < |history| && input in SentBy(history, k)
  }

  predicate Drawn(history: seq<Message>, input: bytes) {
    exists k :: 0 <= k < |history| && DrawnFrom(history, k, input)
  }

  // ---------------------------------------------------------------- fresh ids

  function KeyFor(history: seq<Message>, k: nat): Key
    requires k < |history|
  {
    Key(history[k].kind, IdAfter(history[..k]))
  }

  lemma {:induction false} CountGrows(history: seq<Message>, k: nat)
    requires k <= |history|
    ensures FragmentedCount(history[..k]) <= FragmentedCount(history)
    decreases |history|
  {
    if k < |history| {
      var before := history[..|history| - 1];
      CountGrows(before, k);
      assert before[..k] == history[..k];
    } else {
      assert history[..k] == history;
    }
  }

  lemma CountStep(history: seq<Message>, k: nat)
    requires k < |history| && NeedsFragments(history[k].payload)
    ensures FragmentedCount(history[..k]) + 1 == FragmentedCount(history[..k + 1]) <= FragmentedCount(history)
  {
    assert history[..k + 1][..k] == history[..k];
    CountGrows(history, k + 1);
  }

  lemma NoWrap(id: nat, payload: bytes)
    requires id + 1 < U64
    ensures S.NextId(id, payload) == if NeedsFragments(payload) then id + 1 else id
  {
  }

  lemma {:induction false} IdIsCount(history: seq<Message>)
    requires 1 + FragmentedCount(history) < U64
    ensures IdAfter(history) == 1 + FragmentedCount(history)
  {
    if history != [] {
      var n := |history| - 1;
      IdIsCount(history[..n]);
      if NeedsFragments(history[n].payload) {
        NoWrap(IdAfter(history[..n]), history[n].payload);
      }
    }
  }

  lemma IdOf(history: seq<Message>, k: nat)
    requires FragmentedCount(history) < U64 && k < |history| && NeedsFragments(history[k].payload)
    ensures IdAfter(history[..k]) == 1 + FragmentedCount(history[..k]) == FragmentedCount(history[..k + 1]) < U64
  {
    CountStep(history, k);
    assert 1 + FragmentedCount(history[..k]) < U64;
    IdIsCount(history[..k]);
  }

  /** With fewer than 2^64 fragmented messages every one has an id of its own. */
  lemma IdsAreFresh(history: seq<Message>, j: nat, k: nat)
    requires FragmentedCount(history) < U64 && j < k < |history|
    requires NeedsFragments(history[j].payload) && NeedsFragments(history[k].payload)
    ensures IdAfter(history[..j]) < IdAfter(history[..k])
  {
    IdOf(history, j);
    IdOf(history, k);
    CountGrows(history[..k], j + 1);
    assert history[..k][..j + 1] == history[..j + 1];
  }

  // ------------------------------------------------------------------- tables

  /** What is buffered under the key of a sent message are pieces of that message. */
  predicate TablesGenuine(history: seq<Message>, r: Reassembler) {
    forall k :: 0 <= k < |history| && NeedsFragments(history[k].payload) ==>
      D.HoldsPiecesOf(r, KeyFor(history, k), history[k].payload)
  }

  predicate ResultGenuine(history: seq<Message>, result: AcceptResult) {
    D.Delivers(result) ==> WasSent(history, result.value.value.kind, result.value.value.message)
  }

  lemma WholeReads(kind: MessageKind, payload: bytes)
    requires |payload| <= MAX_CARRIER_PAYLOAD_LEN
    ensures var d := Datagram(CompleteDatagramKind(kind), payload);
            DecodeDatagram(DatagramWire(d)) == Ok(d)
  {
    EncodedDatagramFits(Datagram(CompleteDatagramKind(kind), payload));
  }

  lemma AcceptWhole(history: seq<Message>, r: Reassembler, k: nat, max: nat, clock: Clock)
    requires k < |history|
    ensures var (r', result) := AcceptDatagram(r, Datagram(CompleteDatagramKind(history[k].kind), history[k].payload), max, clock);
            r' == r && ResultGenuine(history, result)
  {
    assert Message(history[k].kind, history[k].payload) == history[k];
  }

  /** A fragment of message `k` leaves the buffer of every other message as it was, or drops it. */
  lemma OtherPieces(history: seq<Message>, r: Reassembler, a: D.Arrival, k: nat, j: nat)
    requires FragmentedCount(history) < U64 && ReassemblerOk(r) && j < |history| && k < |history| && j != k
    requires NeedsFragments(history[k].payload) && NeedsFragments(history[j].payload)
    requires D.HoldsPiecesOf(r, KeyFor(history, j), history[j].payload)
    requires D.KeyOf(a.datagram) == Some(KeyFor(history, k))
    ensures D.HoldsPiecesOf(D.Step(r, a).0, KeyFor(history, j), history[j].payload)
  {
    if j < k {
      IdsAreFresh(history, j, k);
    } else {
      IdsAreFresh(history, k, j);
    }
    D.HonestFragmentKeepsPieces(r, a, KeyFor(history, j), history[j].payload);
  }

  lemma AcceptFragmentOf(history: seq<Message>, r: Reassembler, k: nat, index: nat, a: D.Arrival)
    requires FragmentedCount(history) < U64 && ReassemblerOk(r) && TablesGenuine(history, r)
    requires k < |history| && NeedsFragments(history[k].payload) && index < ChunkCount(|history[k].payload|)
    requires a.datagram == FragmentDatagram(history[k].kind, IdAfter(history[..k]), history[k].payload, index)
    ensures TablesGenuine(history, D.Step(r, a).0) && ResultGenuine(history, D.Step(r, a).1)
  {
    var key, payload := KeyFor(history, k), history[k].payload;
    D.HonestFragmentReads(key, payload, index);
    D.HonestFragmentKeepsPieces(r, a, key, payload);
    assert Message(history[k].kind, payload) == history[k];
    forall j | 0 <= j < |history| && NeedsFragments(history[j].payload)
      ensures D.HoldsPiecesOf(D.Step(r, a).0, KeyFor(history, j), history[j].payload)
    {
      if j != k {
        OtherPieces(history, r, a, k, j);
      }
    }
  }

  lemma AcceptGenuine(history: seq<Message>, r: Reassembler, input: bytes, max: nat, clock: Clock)
    requires FragmentedCount(history) < U64 && ReassemblerOk(r) && TablesGenuine(history, r) && Drawn(history, input)
    ensures DecodeDatagram(input).Ok?
    ensures var (r', result) := AcceptDatagram(r, DecodeDatagram(input).value, max, clock);
            TablesGenuine(history, r') && ResultGenuine(history, result)
  {
    var k :| 0 <= k < |history| && DrawnFrom(history, k, input);
    var m, id := history[k], IdAfter(history[..k]);
    if |m.payload| <= MAX_CARRIER_PAYLOAD_LEN {
      WholeReads(m.kind, m.payload);
      AcceptWhole(history, r, k, max, clock);
    } else {
      var i :| 0 <= i < |SentBy(history, k)| && SentBy(history, k)[i] == input;
      FragmentsAreValid(m.kind, id, m.payload, i);
      AcceptFragmentOf(history, r, k, i, D.Arrival(DecodeDatagram(input).value, max, clock));
    }
  }

  // ------------------------------------------------------------------ queues

  predicate QueueGenuine(history: seq<Message>, kind: MessageKind, queue: seq<bytes>) {
    forall i :: 0 <= i < |queue| ==> WasSent(history, kind, queue[i])
  }

  predicate SessionGenuine(history: seq<Message>, s: Session) {
    && TablesGenuine(history, s.tables)
    && QueueGenuine(history, Frame, s.frames) && QueueGenuine(history, AuthenticatedMessage, s.authenticated)
  }

  lemma PushGenuine(history: seq<Message>, s: Session, d: Delivery)
    requires SessionGenuine(history, s) && WasSent(history, d.kind, d.message)
    ensures SessionGenuine(history, PushPending(s, d.kind, d.message).0)
  {
  }

  lemma ReceiveGenuine(history: seq<Message>, s: Session, wanted: MessageKind, maxSize: nat, input: bytes, clock: Clock)
    requires FragmentedCount(history) < U64 && SessionOk(s) && SessionGenuine(history, s) && Drawn(history, input)
    ensures SessionGenuine(history, ReceiveOne(s, wanted, maxSize, input, clock).0)
    ensures var completed := R.Completed(s, wanted, maxSize, input, clock);
            completed.Some? ==> WasSent(history, completed.value.kind, completed.value.message)
  {
    var limit := LimitFor(wanted, maxSize);
    AcceptGenuine(history, s.tables, input, limit, clock);
    var (tables, result) := AcceptDatagram(s.tables, DecodeDatagram(input).value, limit, clock);
    var s' := s.(tables := tables);
    assert SessionGenuine(history, s');
    if D.Delivers(result) {
      PushGenuine(history, s', result.value.value);
    }
  }

  // --------------------------------------------------------------- receivers

  predicate HandoutsGenuine(history: seq<Message>, handouts: seq<R.Handout>) {
    forall i :: 0 <= i < |handouts| ==> WasSent(history, handouts[i].delivery.kind, handouts[i].delivery.message)
  }

  predicate SystemGenuine(history: seq<Message>, s: R.System) {
    SessionGenuine(history, s.session) && HandoutsGenuine(history, s.handouts)
  }

  predicate EventsDrawn(history: seq<Message>, events: seq<R.Event>) {
    forall i :: 0 <= i < |events| && events[i].Datagram? ==> Drawn(history, events[i].input)
  }

  lemma PopGenuine(history: seq<Message>, s: Session, kind: MessageKind)
    requires SessionGenuine(history, s)
    ensures var (s', message) := PopPending(s, kind);
            SessionGenuine(history, s') && (message.Some? ==> WasSent(history, kind, message.value))
  {
  }

  lemma HandOutGenuine(history: seq<Message>, handouts: seq<R.Handout>, h: R.Handout)
    requires HandoutsGenuine(history, handouts) && WasSent(history, h.delivery.kind, h.delivery.message)
    ensures HandoutsGenuine(history, handouts + [h])
  {
  }

  lemma LookGenuine(history: seq<Message>, s: R.System, id: nat, otherwise: R.Phase)
    requires SystemGenuine(history, s) && id < |s.receivers|
    ensures SystemGenuine(history, R.Look(s, id, otherwise))
  {
    var wanted := s.receivers[id].wanted;
    PopGenuine(history, s.session, wanted);
    var (_, message) := PopPending(s.session, wanted);
    if message.Some? {
      HandOutGenuine(history, s.handouts, R.Handout(id, Delivery(wanted, message.value)));
    }
  }

  lemma DatagramGenuine(history: seq<Message>, s: R.System, id: nat, input: bytes, clock: Clock)
    requires FragmentedCount(history) < U64 && SessionOk(s.session) && SystemGenuine(history, s)
    requires id < |s.receivers| && Drawn(history, input)
    ensures SystemGenuine(history, R.HandleDatagram(s, id, input, clock))
  {
    var me := s.receivers[id];
    ReceiveGenuine(history, s.session, me.wanted, me.maxSize, input, clock);
    var completed := R.Completed(s.session, me.wanted, me.maxSize, input, clock);
    if completed.Some? && completed.value.kind == me.wanted {
      HandOutGenuine(history, s.handouts, R.Handout(id, Delivery(me.wanted, completed.value.message)));
    }
  }

  lemma NextGenuine(history: seq<Message>, s: R.System, e: R.Event)
    requires FragmentedCount(history) < U64 && SessionOk(s.session) && SystemGenuine(history, s)
    requires e.Datagram? ==> Drawn(history, e.input)
    ensures SystemGenuine(history, R.Next(s, e))
  {
    var s' := R.Next(s, e);
    match e
    case Call(_, _) => assert s'.session == s.session && s'.handouts == s.handouts;
    case LookFirst(id) =>
      if id < |s.receivers| && s.receivers[id].phase == R.Starting {
        LookGenuine(history, s, id, R.Queued);
        assert s' == R.Look(s, id, R.Queued);
      }
    case TakeLock(_) => assert s'.session == s.session && s'.handouts == s.handouts;
    case LookLocked(id) =>
      if id < |s.receivers| && s.receivers[id].phase == R.Locked {
        LookGenuine(history, s, id, R.Holding);
        assert s'.session == R.Look(s, id, R.Holding).session && s'.handouts == R.Look(s, id, R.Holding).handouts;
      }
    case Datagram(id, input, clock) =>
      if id < |s.receivers| && s.receivers[id].phase == R.Holding {
        DatagramGenuine(history, s, id, input, clock);
        assert s' == R.HandleDatagram(s, id, input, clock);
      }
  }

  lemma {:induction false} RunGenuine(history: seq<Message>, events: seq<R.Event>)
    requires FragmentedCount(history) < U64 && EventsDrawn(history, events)
    ensures SystemGenuine(history, R.Run(events))
  {
    if events != [] {
      var n := |events| - 1;
      assert EventsDrawn(history, events[..n]);
      RunGenuine(history, events[..n]);
      R.ReceiversShareInOrder(events[..n]);
      NextGenuine(history, R.Run(events[..n]), events[n]);
    }
  }

  /**
   End to end: for every history of fewer than 2^64 fragmented sends and every
   interleaving of receivers that read datagrams of those sends, each message a
   caller gets was sent, with the kind the caller asked for.
   */
  lemma ResultsWereSent(history: seq<Message>, events: seq<R.Event>, id: nat)
    requires FragmentedCount(history) < U64 && EventsDrawn(history, events)
    requires var s := R.Run(events);
             id < |s.receivers| && s.receivers[id].phase.Finished? && s.receivers[id].phase.result.Ok?
    ensures var me := R.Run(events).receivers[id];
            WasSent(history, me.wanted, me.phase.result.value)
  {
    RunGenuine(history, events);
    R.ReceiversShareInOrder(events);
    var s := R.Run(events);
    assert R.Backed(s.handouts, id, s.receivers[id]);
  }

  // --------------------------------------------------- from send to receive

  /** The largest authenticated message that a caller waiting for a kind lets in. */
  function AuthenticatedLimit(wanted: MessageKind, maxSize: nat): nat {
    if wanted == AuthenticatedMessage then maxSize else 65536
  }

  predicate LetIn(kind: MessageKind, payload: bytes, wanted: MessageKind, maxSize: nat) {
    kind == AuthenticatedMessage ==> |payload| <= AuthenticatedLimit(wanted, maxSize)
  }

  /**
   A message sent in one datagram, on any session: the caller waiting for its
   kind gets it; a caller of the other kind puts it at the back of its queue, or
   reports the full queue; one over the limit is reported. Nothing else changes.
   */
  lemma WholeMessageReceived(s: Session, wanted: MessageKind, maxSize: nat, kind: MessageKind, id: nat, payload: bytes, clock: Clock)
    requires |payload| <= 1188
    ensures |S.DatagramsOf(kind, id, payload)| == 1
    ensures var (s', progress) := ReceiveOne(s, wanted, maxSize, S.DatagramsOf(kind, id, payload)[0], clock);
            if !LetIn(kind, payload, wanted, maxSize) then s' == s && progress == Returned(Err(MessageExceedsLimit))
            else if kind == wanted then s' == s && progress == Returned(Ok(payload))
            else if |Pending(s, kind)| >= 64 then s' == s && progress == Returned(Err(PendingQueueFull))
            else && progress == SetAside && s'.tables == s.tables && Pending(s', wanted) == Pending(s, wanted)
                 && Pending(s', kind) == Pending(s, kind) + [payload]
  {
    WholeReads(kind, payload);
    DatagramWireParts(Datagram(CompleteDatagramKind(kind), payload));
    WholeOutcome(s.tables, Datagram(CompleteDatagramKind(kind), payload), LimitFor(wanted, maxSize), clock);
  }

  /** Why a whole message that a receiver reads is lost, if it is. */
  function LossOf(s: R.System, id: nat, kind: MessageKind, payload: bytes): Option<CarrierError>
    requires id < |s.receivers|
  {
    var me := s.receivers[id];
    if !LetIn(kind, payload, me.wanted, me.maxSize) then Some(MessageExceedsLimit)
    else if kind != me.wanted && |Pending(s.session, kind)| >= 64 then Some(PendingQueueFull)
    else None
  }

  /**
   After any run, a receiver holding the lock that reads a message sent in one
   datagram logs it as completed, lost exactly for the two reasons, and is
   finished with it, sent back for its own, or told of the loss.
   */
  lemma WholeMessageCompletes(events: seq<R.Event>, id: nat, kind: MessageKind, messageId: nat, payload: bytes, clock: Clock)
    requires |payload| <= 1188
    requires var s := R.Run(events); id < |s.receivers| && s.receivers[id].phase == R.Holding
    ensures var s, input := R.Run(events), S.DatagramsOf(kind, messageId, payload)[0];
            var s', loss, me := R.Run(events + [R.Datagram(id, input, clock)]), LossOf(s, id, kind, payload), s.receivers[id];
            && s'.completions == s.completions + [R.Completion(id, Delivery(kind, payload), loss)]
            && |s'.receivers| == |s.receivers| && s'.holder.None?
            && s'.receivers[id].phase == (if loss.Some? then R.Finished(Err(loss.value))
                                          else if kind == me.wanted then R.Finished(Ok(payload)) else R.Queued)
            && s'.handouts == (if loss.None? && kind == me.wanted then s.handouts + [R.Handout(id, Delivery(kind, payload))]
                               else s.handouts)
  {
    var s, input := R.Run(events), S.DatagramsOf(kind, messageId, payload)[0];
    RunMore(events, R.Datagram(id, input, clock));
    WholeMessageSettles(s, id, kind, messageId, payload, clock);
  }

  lemma WholeMessageSettles(s: R.System, id: nat, kind: MessageKind, messageId: nat, payload: bytes, clock: Clock)
    requires |payload| <= 1188 && id < |s.receivers| && s.receivers[id].phase == R.Holding
    ensures var s' := R.HandleDatagram(s, id, S.DatagramsOf(kind, messageId, payload)[0], clock);
            var loss, me := LossOf(s, id, kind, payload), s.receivers[id];
            && s'.completions == s.completions + [R.Completion(id, Delivery(kind, payload), loss)]
            && |s'.receivers| == |s.receivers| && s'.holder.None?
            && s'.receivers[id].phase == (if loss.Some? then R.Finished(Err(loss.value))
                                          else if kind == me.wanted then R.Finished(Ok(payload)) else R.Queued)
            && s'.handouts == (if loss.None? && kind == me.wanted then s.handouts + [R.Handout(id, Delivery(kind, payload))]
                               else s.handouts)
  {
    var me, d := s.receivers[id], Datagram(CompleteDatagramKind(kind), payload);
    WholeMessageReceived(s.session, me.wanted, me.maxSize, kind, messageId, payload, clock);
    WholeReads(kind, payload);
    DatagramWireParts(d);
    WholeOutcome(s.session.tables, d, LimitFor(me.wanted, me.maxSize), clock);
  }

  /** A datagram that is too long, unreadable or a close is reported to the reader and changes nothing. */
  lemma UnusableDatagramReported(s: Session, wanted: MessageKind, maxSize: nat, input: bytes, clock: Clock)
    ensures |input| > 1200 ==> ReceiveOne(s, wanted, maxSize, input, clock) == (s, Returned(Err(DatagramExceedsLimit)))
    ensures |input| <= 1200 && DecodeDatagram(input).Err? ==>
      ReceiveOne(s, wanted, maxSize, input, clock) == (s, Returned(Err(DecodeDatagram(input).error)))
    ensures |input| <= 1200 && DecodeDatagram(input).Ok? && DecodeDatagram(input).value.kind == Close ==>
      ReceiveOne(s, wanted, maxSize, input, clock) == (s, Returned(Err(CarrierClosed)))
  {
    if DecodeDatagram(input).Ok? {
      WholeOutcome(s.tables, DecodeDatagram(input).value, LimitFor(wanted, maxSize), clock);
    }
  }

  lemma RunMore(events: seq<R.Event>, e: R.Event)
    ensures R.Run(events + [e]) == R.Next(R.Run(events), e)
  {
    assert (events + [e])[..|events|] == events;
  }

  lemma RunFour(events: seq<R.Event>, a: R.Event, b: R.Event, c: R.Event, d: R.Event)
    ensures R.Run(events + [a, b, c, d]) == R.Next(R.Next(R.Next(R.Next(R.Run(events), a), b), c), d)
  {
    RunMore(events, a);
    RunMore(events + [a], b);
    RunMore(events + [a] + [b], c);
    RunMore(events + [a] + [b] + [c], d);
    assert events + [a, b, c, d] == events + [a] + [b] + [c] + [d];
  }

  /** The steps of one call up to the lock. */
  function LockSteps(id: nat, wanted: MessageKind, maxSize: nat): seq<R.Event> {
    [R.Call(wanted, maxSize), R.LookFirst(id), R.TakeLock(id), R.LookLocked(id)]
  }

  /** Once it has called, a receiver of a kind with nothing queued takes the free lock and keeps it. */
  lemma CallerHolds(s: R.System, wanted: MessageKind, maxSize: nat)
    requires s.holder.None? && Pending(s.session, wanted) == []
    ensures var id := |s.receivers|;
            R.Next(R.Next(R.Next(R.Next(s, R.Call(wanted, maxSize)), R.LookFirst(id)), R.TakeLock(id)), R.LookLocked(id))
            == s.(receivers := s.receivers + [R.Receiver(wanted, maxSize, R.Holding)], holder := Some(id))
  {
    var id := |s.receivers|;
    var called := R.Next(s, R.Call(wanted, maxSize));
    var looked := R.Next(called, R.LookFirst(id));
    var locked := R.Next(looked, R.TakeLock(id));
    assert looked == s.(receivers := s.receivers + [R.Receiver(wanted, maxSize, R.Queued)]);
    assert locked == s.(receivers := s.receivers + [R.Receiver(wanted, maxSize, R.Locked)], holder := Some(id));
    assert R.Next(locked, R.LookLocked(id))
           == s.(receivers := s.receivers + [R.Receiver(wanted, maxSize, R.Holding)], holder := Some(id));
  }

  /**
   After any run that leaves the lock free and nothing queued for a kind, a new
   call for that kind that reads a message of it, sent in one datagram and let
   in by its limit, finishes with the message.
   */
  lemma CallIsServed(events: seq<R.Event>, kind: MessageKind, maxSize: nat, messageId: nat, payload: bytes, clock: Clock)
    requires |payload| <= 1188 && LetIn(kind, payload, kind, maxSize)
    requires R.Run(events).holder.None? && Pending(R.Run(events).session, kind) == []
    ensures var id, input := |R.Run(events).receivers|, S.DatagramsOf(kind, messageId, payload)[0];
            var s' := R.Run(events + LockSteps(id, kind, maxSize) + [R.Datagram(id, input, clock)]);
            |s'.receivers| == id + 1 && s'.receivers[id].phase == R.Finished(Ok(payload)) && s'.holder.None?
  {
    var id := |R.Run(events).receivers|;
    RunFour(events, R.Call(kind, maxSize), R.LookFirst(id), R.TakeLock(id), R.LookLocked(id));
    CallerHolds(R.Run(events), kind, maxSize);
    WholeMessageCompletes(events + LockSteps(id, kind, maxSize), id, kind, messageId, payload, clock);
  }

  /** A receiver that looks takes the oldest message of its kind, and only that; over its limit it is told so. */
  lemma LookTakesOldest(s: R.System, id: nat, otherwise: R.Phase)
    requires id < |s.receivers|
    ensures var s', me := R.Look(s, id, otherwise), s.receivers[id];
            var queue := Pending(s.session, me.wanted);
            && |s'.receivers| == |s.receivers|
            && (queue == [] ==> s'.receivers[id].phase == otherwise && s'.session == s.session && s'.handouts == s.handouts)
            && (queue != [] ==>
                  && Pending(s'.session, me.wanted) == queue[1..] && s'.session.tables == s.session.tables
                  && s'.handouts == s.handouts + [R.Handout(id, Delivery(me.wanted, queue[0]))]
                  && s'.receivers[id].phase
                     == R.Finished(if me.wanted == AuthenticatedMessage && |queue[0]| > me.maxSize then Err(MessageExceedsLimit)
                                   else Ok(queue[0])))
  {
  }

  /** What arrives when nothing else is on the line: the datagrams in order, at one time. */
  function InboxOf(datagrams: seq<bytes>): (inbox: seq<Inbound>)
    ensures |inbox| == |datagrams|
  {
    seq(|datagrams|, i requires 0 <= i < |datagrams| => Inbound(datagrams[i], Clock(0, 0)))
  }

  /** The arrivals of a message's fragments in sending order, under a limit that lets it in. */
  function Arrivals(key: Key, payload: bytes, limit: nat): (arrivals: seq<D.Arrival>)
    ensures |arrivals| == ChunkCount(|payload|)
  {
    seq(ChunkCount(|payload|), index requires 0 <= index =>
      D.Arrival(FragmentDatagram(key.kind, key.messageId, payload, index), limit, Clock(0, 0)))
  }

  lemma ArrivalsMeet(key: Key, payload: bytes, limit: nat)
    requires D.Sendable(key, payload) && !ExceedsLimit(key.kind, |payload|, limit)
    ensures var arrivals := Arrivals(key, payload, limit);
            && (forall i :: 0 <= i < |arrivals| ==> D.KeyOf(arrivals[i].datagram) == Some(key))
            && D.HonestFor(arrivals, key, payload) && D.AllArrive(arrivals, key, payload)
            && D.WithinLimits(arrivals, key, payload) && D.NoExpiry(arrivals, key) && D.RoomAlways(EMPTY, arrivals, key)
  {
    var arrivals := Arrivals(key, payload, limit);
    forall i | 0 <= i < |arrivals|
      ensures D.KeyOf(arrivals[i].datagram) == Some(key)
    {
      D.HonestFragmentReads(key, payload, i);
    }
    forall index | 0 <= index < ChunkCount(|payload|)
      ensures D.Arrives(arrivals, key, payload, index)
    {
      assert arrivals[index].datagram == FragmentDatagram(key.kind, key.messageId, payload, index);
    }
    assert |D.KeysOf(arrivals)| <= 1 by {
      SubsetCardinality(D.KeysOf(arrivals), {key});
    }
    D.FewKeysLeaveRoom(arrivals, key);
  }

  /** Each of these arrivals is taken in silence or completes the message. */
  lemma ArrivalOutcome(key: Key, payload: bytes, limit: nat, i: nat)
    requires D.Sendable(key, payload) && !ExceedsLimit(key.kind, |payload|, limit) && i < ChunkCount(|payload|)
    ensures var outcome := D.Outcome(EMPTY, Arrivals(key, payload, limit), i);
            outcome == Ok(None) || outcome == Ok(Some(Delivery(key.kind, payload)))
  {
    var arrivals := Arrivals(key, payload, limit);
    ArrivalsMeet(key, payload, limit);
    D.RunKeepsTables(EMPTY, arrivals[..i]);
    assert D.HonestFor(arrivals[..i], key, payload);
    D.RunHoldsPieces(EMPTY, arrivals[..i], key, payload);
    assert D.RoomFor(D.Run(EMPTY, arrivals[..i]), key, arrivals[i].clock);
    HonestOutcome(D.Run(EMPTY, arrivals[..i]), arrivals[i], key, payload, i);
  }

  lemma HonestOutcome(r: Reassembler, a: D.Arrival, key: Key, payload: bytes, i: nat)
    requires ReassemblerOk(r) && D.Sendable(key, payload) && D.HoldsPiecesOf(r, key, payload) && i < ChunkCount(|payload|)
    requires a.datagram == FragmentDatagram(key.kind, key.messageId, payload, i)
    requires !ExceedsLimit(key.kind, |payload|, a.authenticatedMax) && D.RoomFor(r, key, a.clock)
    ensures var outcome := D.Step(r, a).1; outcome == Ok(None) || outcome == Ok(Some(Delivery(key.kind, payload)))
  {
    if key !in r.completed.members {
      D.AcceptHonest(r, a, key, payload, i);
    } else {
      D.HonestFragmentReads(key, payload, i);
    }
  }

  lemma FragmentReceived(key: Key, payload: bytes, maxSize: nat, i: nat)
    requires D.Sendable(key, payload) && LetIn(key.kind, payload, key.kind, maxSize) && i < ChunkCount(|payload|)
    ensures var arrivals := Arrivals(key, payload, maxSize);
            var input := S.FragmentDatagrams(key.kind, key.messageId, payload)[i];
            var (s', progress) := ReceiveOne(Session([], [], D.Run(EMPTY, arrivals[..i])), key.kind, maxSize, input, Clock(0, 0));
            if D.Delivers(D.Outcome(EMPTY, arrivals, i)) then progress == Returned(Ok(payload))
            else progress == Continue && s' == Session([], [], D.Run(EMPTY, arrivals[..i + 1]))
  {
    var arrivals := Arrivals(key, payload, maxSize);
    FragmentsAreValid(key.kind, key.messageId, payload, i);
    D.RunStep(EMPTY, arrivals, i);
    ArrivalOutcome(key, payload, maxSize, i);
    SameLimit(D.Run(EMPTY, arrivals[..i]), arrivals[i].datagram, key.kind, maxSize, Clock(0, 0));
  }

  /** The limit in force matters to authenticated messages only. */
  lemma SameLimit(r: Reassembler, d: Datagram, kind: MessageKind, maxSize: nat, clock: Clock)
    requires MessageKindOf(d.kind) == Some(kind)
    ensures AcceptDatagram(r, d, LimitFor(kind, maxSize), clock) == AcceptDatagram(r, d, maxSize, clock)
  {
  }

  /** The datagram returns the payload, or is taken in silence and leads to the next state. */
  predicate Progresses(s: Session, next: Session, kind: MessageKind, maxSize: nat, arrived: Inbound, payload: bytes) {
    var (s', progress) := ReceiveOne(s, kind, maxSize, arrived.input, arrived.clock);
    progress == Returned(Ok(payload)) || (progress == Continue && s' == next)
  }

  /** A receive loop that progresses through these states up to a datagram that returns the payload returns it. */
  lemma {:induction false} LoopReturns(
    states: seq<Session>, kind: MessageKind, maxSize: nat, inbox: seq<Inbound>, payload: bytes, i: nat, last: nat)
    requires i <= last < |inbox| && |states| == |inbox| + 1
    requires forall k :: i <= k <= last ==> Progresses(states[k], states[k + 1], kind, maxSize, inbox[k], payload)
    requires ReceiveOne(states[last], kind, maxSize, inbox[last].input, inbox[last].clock).1 == Returned(Ok(payload))
    ensures ReceiveLoop(states[i], kind, maxSize, inbox[i..]).1 == Some(Ok(payload))
    decreases last - i
  {
    assert Progresses(states[i], states[i + 1], kind, maxSize, inbox[i], payload);
    assert inbox[i..][0] == inbox[i] && inbox[i..][1..] == inbox[i + 1..];
    if ReceiveOne(states[i], kind, maxSize, inbox[i].input, inbox[i].clock).1 == Continue {
      LoopReturns(states, kind, maxSize, inbox, payload, i + 1, last);
    }
  }

  lemma FragmentsReceived(key: Key, payload: bytes, maxSize: nat, last: nat)
    requires D.Sendable(key, payload) && LetIn(key.kind, payload, key.kind, maxSize) && last < ChunkCount(|payload|)
    requires D.Delivers(D.Outcome(EMPTY, Arrivals(key, payload, maxSize), last))
    ensures ReceiveLoop(NEW_SESSION, key.kind, maxSize, InboxOf(S.FragmentDatagrams(key.kind, key.messageId, payload))).1
            == Some(Ok(payload))
  {
    var inbox := InboxOf(S.FragmentDatagrams(key.kind, key.messageId, payload));
    var arrivals := Arrivals(key, payload, maxSize);
    var states := seq(|inbox| + 1, k requires 0 <= k <= |inbox| => Session([], [], D.Run(EMPTY, arrivals[..k])));
    forall k | 0 <= k <= last
      ensures Progresses(states[k], states[k + 1], key.kind, maxSize, inbox[k], payload)
    {
      FragmentReceived(key, payload, maxSize, k);
    }
    FragmentReceived(key, payload, maxSize, last);
    LoopReturns(states, key.kind, maxSize, inbox, payload, 0, last);
    assert inbox[0..] == inbox && arrivals[..0] == [];
  }

  /**
   From send to receive: every message up to 1 MiB that the caller's limit lets
   in, sent by any session and read by a new one over a quiet line, is returned
   to the caller that waits for its kind.
   */
  lemma SendThenReceive(kind: MessageKind, id: nat, payload: bytes, maxSize: nat)
    requires id < U64 && |payload| <= 1024 * 1024 && LetIn(kind, payload, kind, maxSize)
    ensures ReceiveLoop(NEW_SESSION, kind, maxSize, InboxOf(S.DatagramsOf(kind, id, payload))).1 == Some(Ok(payload))
  {
    if |payload| <= 1188 {
      WholeMessageReceived(NEW_SESSION, kind, maxSize, kind, id, payload, Clock(0, 0));
    } else {
      var key, arrivals := Key(kind, id), Arrivals(Key(kind, id), payload, maxSize);
      ArrivalsMeet(key, payload, maxSize);
      D.FragmentedMessageDelivered(arrivals, key, payload);
      var last :| 0 <= last < |arrivals| && D.Completes(EMPTY, arrivals, last, key);
      FragmentsReceived(key, payload, maxSize, last);
    }
  }

  /** The same on two session objects: what one sends, the other returns. */
  method SendAndReceive(kind: MessageKind, payload: bytes, maxSize: nat) returns (result: Option<Result<bytes, CarrierError>>)
    requires |payload| <= 1024 * 1024 && LetIn(kind, payload, kind, maxSize)
    ensures result == Some(Ok(payload))
  {
    var sender := new S.NativeUdpSession();
    var receiver := new S.NativeUdpSession();
    var _, sent := sender.SendMessage(kind, payload, |S.DatagramsOf(kind, 1, payload)|);
    var used;
    SendThenReceive(kind, 1, payload, maxSize);
    result, used := receiver.ReceiveMessage(kind, maxSize, InboxOf(sent));
  }

  lemma IdStep(history: seq<Message>, k: nat)
    requires k < |history|
    ensures IdAfter(history[..k + 1]) == S.NextId(IdAfter(history[..k]), history[k].payload)
  {
    assert history[..k + 1][..k] == history[..k];
  }

  /** A session sending one message after another; the transport takes `taken[k]` datagrams of message `k`. */
  method SendAll(session: S.NativeUdpSession, history: seq<Message>, taken: seq<nat>) returns (sent: seq<seq<bytes>>)
    requires session.Valid() && session.nextMessageId == 1 && |taken| == |history|
    modifies session`nextMessageId
    ensures |sent| == |history|
    ensures forall k :: 0 <= k < |history| ==> sent[k] == S.TakenOf(SentBy(history, k), taken[k])
  {
    sent := [];
    for k := 0 to |history|
      invariant session.Valid() && session.nextMessageId == IdAfter(history[..k])
      invariant |sent| == k
      invariant forall i :: 0 <= i < k ==> sent[i] == S.TakenOf(SentBy(history, i), taken[i])
    {
      IdStep(history, k);
      var _, datagrams := session.SendMessage(history[k].kind, history[k].payload, taken[k]);
      sent := sent + [datagrams];
    }
  }
}
