/**
 Any number of receivers of both kinds on one session, interleaved at every
 point where a receiver awaits: the lock-free look at the queue, taking the
 receive lock, looking again under the lock, and each datagram.
 */
module CarrierReceivers {
  import opened Bytes
  import opened CarrierCodec
  import opened CarrierReassembly
  import opened CarrierQueues

  datatype Phase =
    | Starting
    | Queued
    | Locked
    | Holding
    | Finished(result: Result<bytes, CarrierError>)

  datatype Receiver = Receiver(wanted: MessageKind, maxSize: nat, phase: Phase)

  /** A whole message read from the socket by `reader`, and the error it was lost with if it was not kept. */
  datatype Completion = Completion(reader: nat, delivery: Delivery, lost: Option<CarrierError>)

  /** A message given to `recipient`. */
  datatype Handout = Handout(recipient: nat, delivery: Delivery)

  datatype System = System(
    session: Session,
    receivers: seq<Receiver>,
    holder: Option<nat>,
    completions: seq<Completion>,
    handouts: seq<Handout>)

  const START := System(NEW_SESSION, [], None, [], [])

  datatype Event =
    | Call(wanted: MessageKind, maxSize: nat)
    | LookFirst(id: nat)
    | TakeLock(id: nat)
    | LookLocked(id: nat)
    | Datagram(id: nat, input: bytes, clock: Clock)

  function SetPhase(s: System, id: nat, phase: Phase): System
    requires id < |s.receivers|
  {
    s.(receivers := s.receivers[id := s.receivers[id].(phase := phase)])
  }

  function HandOut(s: System, id: nat, message: bytes): System
    requires id < |s.receivers|
  {
    var me := s.receivers[id];
    SetPhase(s.(handouts := s.handouts + [Handout(id, Delivery(me.wanted, message))]),
             id, Finished(ValidateReceived(me.wanted, message, me.maxSize)))
  }

  function Look(s: System, id: nat, otherwise: Phase): System
    requires id < |s.receivers|
  {
    var (session, message) := PopPending(s.session, s.receivers[id].wanted);
    if message.Some? then HandOut(s.(session := session), id, message.value)
    else SetPhase(s, id, otherwise)
  }

  /** What the tables alone make of a datagram, before queues and callers. */
  function Completed(s: Session, wanted: MessageKind, maxSize: nat, input: bytes, clock: Clock): Option<Delivery> {
    if |input| > MAX_UDP_DATAGRAM_LEN || DecodeDatagram(input).Err? then None
    else
      var result := AcceptDatagram(s.tables, DecodeDatagram(input).value, LimitFor(wanted, maxSize), clock).1;
      if result.Ok? then result.value else None
  }

  /** A whole authenticated message refused because it is over the limit in force. */
  function Refused(wanted: MessageKind, maxSize: nat, input: bytes): Option<Delivery> {
    if |input| > MAX_UDP_DATAGRAM_LEN || DecodeDatagram(input).Err? then None
    else
      var d := DecodeDatagram(input).value;
      if d.kind == CompleteDatagramKind(AuthenticatedMessage) && |d.payload| > LimitFor(wanted, maxSize)
      then Some(Delivery(AuthenticatedMessage, d.payload)) else None
  }

  function Logged(s: System, c: Completion): System {
    s.(completions := s.completions + [c])
  }

  /** What a datagram leaves: the session, what it completed or had refused, and the reader's progress. */
  function Settle(s: System, id: nat, session: Session, completed: Option<Delivery>, refused: Option<Delivery>, progress: Progress): System
    requires id < |s.receivers|
  {
    var released := s.(session := session, holder := None);
    if completed.None? then
      if !progress.Returned? then s.(session := session)
      else if refused.Some? then
        Logged(SetPhase(released, id, Finished(progress.result)), Completion(id, refused.value, Some(MessageExceedsLimit)))
      else SetPhase(released, id, Finished(progress.result))
    else if completed.value.kind == s.receivers[id].wanted then
      HandOut(Logged(released, Completion(id, completed.value, None)), id, completed.value.message)
    else if progress.Returned? then
      Logged(SetPhase(released, id, Finished(progress.result)), Completion(id, completed.value, Some(PendingQueueFull)))
    else
      Logged(SetPhase(released, id, Queued), Completion(id, completed.value, None))
  }

  function HandleDatagram(s: System, id: nat, input: bytes, clock: Clock): System
    requires id < |s.receivers|
  {
    var me := s.receivers[id];
    var (session, progress) := ReceiveOne(s.session, me.wanted, me.maxSize, input, clock);
    Settle(s, id, session, Completed(s.session, me.wanted, me.maxSize, input, clock),
           Refused(me.wanted, me.maxSize, input), progress)
  }

  /** The second look, under the lock, which a receiver that finds a message leaves. */
  function LookUnderLock(s: System, id: nat): System
    requires id < |s.receivers|
  {
    var looked := Look(s, id, Holding);
    if looked.receivers[id].phase.Finished? then looked.(holder := None) else looked
  }

  /** One interleaving step; a step whose receiver is not at that point does nothing. */
  function Next(s: System, e: Event): System {
    match e
    case Call(wanted, maxSize) => s.(receivers := s.receivers + [Receiver(wanted, maxSize, Starting)])
    case LookFirst(id) =>
      if id < |s.receivers| && s.receivers[id].phase == Starting then Look(s, id, Queued) else s
    case TakeLock(id) =>
      if id < |s.receivers| && s.receivers[id].phase == Queued && s.holder.None?
      then SetPhase(s.(holder := Some(id)), id, Locked) else s
    case LookLocked(id) =>
      if id < |s.receivers| && s.receivers[id].phase == Locked then LookUnderLock(s, id) else s
    case Datagram(id, input, clock) =>
      if id < |s.receivers| && s.receivers[id].phase == Holding then HandleDatagram(s, id, input, clock) else s
  }

  function Run(events: seq<Event>): System {
    if events == [] then START else Next(Run(events[..|events| - 1]), events[|events| - 1])
  }

  // --------------------------------------------------------------- invariants

  /** The kept completions of one kind, in the order they were completed. */
  function Kept(completions: seq<Completion>, kind: MessageKind): seq<bytes> {
    if completions == [] then []
    else
      var last := completions[|completions| - 1];
      Kept(completions[..|completions| - 1], kind)
      + if last.lost.None? && last.delivery.kind == kind then [last.delivery.message] else []
  }

  /** The messages of one kind given to receivers, in the order they were given. */
  function Given(handouts: seq<Handout>, kind: MessageKind): seq<bytes> {
    if handouts == [] then []
    else
      var last := handouts[|handouts| - 1];
      Given(handouts[..|handouts| - 1], kind) + if last.delivery.kind == kind then [last.delivery.message] else []
  }

  /** Messages of each kind leave in completion order: given ones first, queued ones next. */
  predicate InOrder(completions: seq<Completion>, handouts: seq<Handout>, session: Session) {
    forall kind :: Kept(completions, kind) == Given(handouts, kind) + Pending(session, kind)
  }

  /** Only the lock holder reads the socket, and it found no queued message of its kind. */
  predicate LockOk(holder: Option<nat>, receivers: seq<Receiver>, session: Session) {
    && (holder.Some? ==> holder.value < |receivers|)
    && (forall id :: 0 <= id < |receivers| ==>
          (receivers[id].phase.Locked? || receivers[id].phase.Holding? <==> holder == Some(id)))
    && (forall id :: 0 <= id < |receivers| && receivers[id].phase.Holding? ==> Pending(session, receivers[id].wanted) == [])
  }

  predicate HandoutOk(receivers: seq<Receiver>, h: Handout) {
    && h.recipient < |receivers|
    && h.delivery.kind == receivers[h.recipient].wanted
    && receivers[h.recipient].phase == Finished(ValidateReceived(h.delivery.kind, h.delivery.message, receivers[h.recipient].maxSize))
  }

  /** Each handout finished its own receiver, with the message or with the caller's size limit. */
  predicate HandoutsOk(receivers: seq<Receiver>, handouts: seq<Handout>) {
    && (forall i :: 0 <= i < |handouts| ==> HandoutOk(receivers, handouts[i]))
    && (forall i, j :: 0 <= i < j < |handouts| ==> handouts[i].recipient != handouts[j].recipient)
  }

  /** The reader of a lost message was told of this loss. */
  predicate LossReported(receivers: seq<Receiver>, c: Completion) {
    c.lost.Some? ==> c.reader < |receivers| && receivers[c.reader].phase == Finished(Err(c.lost.value))
  }

  /** Each lost message was reported, and each report tells of one loss only. */
  predicate DropsReported(receivers: seq<Receiver>, handouts: seq<Handout>, completions: seq<Completion>) {
    && (forall i :: 0 <= i < |completions| ==> LossReported(receivers, completions[i]))
    && (forall i, j :: 0 <= i < j < |completions| && completions[i].lost.Some? && completions[j].lost.Some? ==>
          completions[i].reader != completions[j].reader)
    && (forall i, j :: 0 <= i < |completions| && 0 <= j < |handouts| && completions[i].lost.Some? ==>
          completions[i].reader != handouts[j].recipient)
  }

  predicate Backed(handouts: seq<Handout>, id: nat, r: Receiver) {
    r.phase.Finished? && r.phase.result.Ok? ==>
      exists i :: 0 <= i < |handouts| && handouts[i] == Handout(id, Delivery(r.wanted, r.phase.result.value))
  }

  /** A receiver that returned a message got it by a handout. */
  predicate ResultsBacked(receivers: seq<Receiver>, handouts: seq<Handout>) {
    forall id :: 0 <= id < |receivers| ==> Backed(handouts, id, receivers[id])
  }

  predicate ReportsOk(receivers: seq<Receiver>, handouts: seq<Handout>, completions: seq<Completion>) {
    HandoutsOk(receivers, handouts) && DropsReported(receivers, handouts, completions) && ResultsBacked(receivers, handouts)
  }

  predicate SystemOk(s: System) {
    && SessionOk(s.session)
    && InOrder(s.completions, s.handouts, s.session)
    && LockOk(s.holder, s.receivers, s.session)
    && ReportsOk(s.receivers, s.handouts, s.completions)
  }

  // -------------------------------------------------------------------- order

  lemma KeptAppend(completions: seq<Completion>, c: Completion, kind: MessageKind)
    ensures Kept(completions + [c], kind) ==
            Kept(completions, kind) + if c.lost.None? && c.delivery.kind == kind then [c.delivery.message] else []
  {
    assert (completions + [c])[..|completions|] == completions;
  }

  lemma GivenAppend(handouts: seq<Handout>, h: Handout, kind: MessageKind)
    ensures Given(handouts + [h], kind) == Given(handouts, kind) + if h.delivery.kind == kind then [h.delivery.message] else []
  {
    assert (handouts + [h])[..|handouts|] == handouts;
  }

  predicate SameQueues(a: Session, b: Session) {
    a.frames == b.frames && a.authenticated == b.authenticated
  }

  lemma SameQueuesOrder(completions: seq<Completion>, handouts: seq<Handout>, session: Session, session': Session)
    requires InOrder(completions, handouts, session) && SameQueues(session, session')
    ensures InOrder(completions, handouts, session')
  {
    forall kind
      ensures Kept(completions, kind) == Given(handouts, kind) + Pending(session', kind)
    {
      assert Pending(session', kind) == Pending(session, kind);
    }
  }

  /** Giving the message in front of its queue to a receiver. */
  lemma PopOrder(completions: seq<Completion>, handouts: seq<Handout>, session: Session, id: nat, wanted: MessageKind)
    requires InOrder(completions, handouts, session) && Pending(session, wanted) != []
    ensures var message := Pending(session, wanted)[0];
            InOrder(completions, handouts + [Handout(id, Delivery(wanted, message))], PopPending(session, wanted).0)
  {
    var queue := Pending(session, wanted);
    var h, session' := Handout(id, Delivery(wanted, queue[0])), PopPending(session, wanted).0;
    forall kind
      ensures Kept(completions, kind) == Given(handouts + [h], kind) + Pending(session', kind)
    {
      GivenAppend(handouts, h, kind);
      if kind == wanted {
        assert queue == [queue[0]] + queue[1..];
        Regroup(Given(handouts, kind), [queue[0]], queue[1..]);
      } else {
        assert Pending(session', kind) == Pending(session, kind);
      }
    }
  }

  /** A completed message that goes straight to the receiver waiting for it, past an empty queue. */
  lemma DirectOrder(completions: seq<Completion>, handouts: seq<Handout>, session: Session, id: nat, d: Delivery)
    requires InOrder(completions, handouts, session) && Pending(session, d.kind) == []
    ensures InOrder(completions + [Completion(id, d, None)], handouts + [Handout(id, d)], session)
  {
    forall kind
      ensures Kept(completions + [Completion(id, d, None)], kind) == Given(handouts + [Handout(id, d)], kind) + Pending(session, kind)
    {
      KeptAppend(completions, Completion(id, d, None), kind);
      GivenAppend(handouts, Handout(id, d), kind);
    }
  }

  /** A completed message that waits in its queue, or is lost. */
  lemma LogOrder(completions: seq<Completion>, handouts: seq<Handout>, session: Session, session': Session, c: Completion)
    requires InOrder(completions, handouts, session)
    requires forall kind :: Pending(session', kind) ==
                            Pending(session, kind) + if c.lost.None? && c.delivery.kind == kind then [c.delivery.message] else []
    ensures InOrder(completions + [c], handouts, session')
  {
    forall kind
      ensures Kept(completions + [c], kind) == Given(handouts, kind) + Pending(session', kind)
    {
      KeptAppend(completions, c, kind);
      var more := if c.lost.None? && c.delivery.kind == kind then [c.delivery.message] else [];
      Regroup(Given(handouts, kind), Pending(session, kind), more);
    }
  }

  // ------------------------------------------------------------------ reports

  /** A receiver still at work was neither told of a loss nor given a message. */
  lemma ReaderIsNew(receivers: seq<Receiver>, handouts: seq<Handout>, completions: seq<Completion>, id: nat)
    requires ReportsOk(receivers, handouts, completions) && id < |receivers| && !receivers[id].phase.Finished?
    ensures forall i :: 0 <= i < |completions| && completions[i].lost.Some? ==> completions[i].reader != id
    ensures forall j :: 0 <= j < |handouts| ==> handouts[j].recipient != id
  {
    forall i | 0 <= i < |completions| && completions[i].lost.Some?
      ensures completions[i].reader != id
    {
      assert LossReported(receivers, completions[i]);
    }
    forall j | 0 <= j < |handouts|
      ensures handouts[j].recipient != id
    {
      assert HandoutOk(receivers, handouts[j]);
    }
  }

  /** A receiver still at work moving on, without a message, leaves all reports of the others standing. */
  lemma MoveReports(receivers: seq<Receiver>, handouts: seq<Handout>, completions: seq<Completion>, id: nat, r: Receiver)
    requires ReportsOk(receivers, handouts, completions) && id < |receivers| && !receivers[id].phase.Finished?
    requires r.phase.Finished? ==> r.phase.result.Err?
    ensures ReportsOk(receivers[id := r], handouts, completions)
  {
    ReaderIsNew(receivers, handouts, completions, id);
    var after := receivers[id := r];
    forall i | 0 <= i < |completions|
      ensures LossReported(after, completions[i])
    {
      assert LossReported(receivers, completions[i]);
    }
    forall i | 0 <= i < |handouts|
      ensures HandoutOk(after, handouts[i])
    {
      assert HandoutOk(receivers, handouts[i]);
    }
    forall other | 0 <= other < |after|
      ensures Backed(handouts, other, after[other])
    {
      assert Backed(handouts, other, receivers[other]);
    }
  }

  lemma BackedStays(handouts: seq<Handout>, h: Handout, id: nat, r: Receiver)
    requires Backed(handouts, id, r)
    ensures Backed(handouts + [h], id, r)
  {
    if r.phase.Finished? && r.phase.result.Ok? {
      var i :| 0 <= i < |handouts| && handouts[i] == Handout(id, Delivery(r.wanted, r.phase.result.value));
      assert (handouts + [h])[i] == handouts[i];
    }
  }

  /** Handing a message to a receiver still at work. */
  lemma HandOutReports(receivers: seq<Receiver>, handouts: seq<Handout>, completions: seq<Completion>, id: nat, message: bytes)
    requires ReportsOk(receivers, handouts, completions) && id < |receivers| && !receivers[id].phase.Finished?
    ensures var me := receivers[id];
            ReportsOk(receivers[id := me.(phase := Finished(ValidateReceived(me.wanted, message, me.maxSize)))],
                      handouts + [Handout(id, Delivery(me.wanted, message))], completions)
  {
    ReaderIsNew(receivers, handouts, completions, id);
    var me, h := receivers[id], Handout(id, Delivery(receivers[id].wanted, message));
    var after, more := receivers[id := me.(phase := Finished(ValidateReceived(me.wanted, message, me.maxSize)))], handouts + [h];
    forall i | 0 <= i < |completions|
      ensures LossReported(after, completions[i])
    {
      assert LossReported(receivers, completions[i]);
    }
    forall i | 0 <= i < |more|
      ensures HandoutOk(after, more[i])
    {
      if i < |handouts| {
        assert HandoutOk(receivers, handouts[i]);
      }
    }
    forall other | 0 <= other < |after|
      ensures Backed(more, other, after[other])
    {
      if other == id {
        assert more[|handouts|] == h;
      } else {
        BackedStays(handouts, h, other, receivers[other]);
      }
    }
  }

  /** Logging a completion, whose reader was told of it alone if it was lost. */
  lemma LogReports(receivers: seq<Receiver>, handouts: seq<Handout>, completions: seq<Completion>, c: Completion)
    requires ReportsOk(receivers, handouts, completions) && LossReported(receivers, c)
    requires c.lost.Some? ==>
      && (forall i :: 0 <= i < |completions| && completions[i].lost.Some? ==> completions[i].reader != c.reader)
      && (forall j :: 0 <= j < |handouts| ==> handouts[j].recipient != c.reader)
    ensures ReportsOk(receivers, handouts, completions + [c])
  {
    var more := completions + [c];
    forall i | 0 <= i < |more|
      ensures LossReported(receivers, more[i])
    {
      if i < |completions| {
        assert LossReported(receivers, completions[i]);
      }
    }
  }

  lemma NewcomerReports(receivers: seq<Receiver>, handouts: seq<Handout>, completions: seq<Completion>, r: Receiver)
    requires ReportsOk(receivers, handouts, completions) && !r.phase.Finished?
    ensures ReportsOk(receivers + [r], handouts, completions)
  {
    var more := receivers + [r];
    forall i | 0 <= i < |completions|
      ensures LossReported(more, completions[i])
    {
      assert LossReported(receivers, completions[i]);
    }
    forall i | 0 <= i < |handouts|
      ensures HandoutOk(more, handouts[i])
    {
      assert HandoutOk(receivers, handouts[i]);
    }
    forall id | 0 <= id < |more|
      ensures Backed(handouts, id, more[id])
    {
      if id < |receivers| {
        assert Backed(handouts, id, receivers[id]);
      }
    }
  }

  // --------------------------------------------------------------------- lock

  /** Nobody holds the lock once the holder leaves it, whatever the queues hold. */
  lemma ReleaseLock(receivers: seq<Receiver>, session: Session, session': Session, id: nat, phase: Phase)
    requires LockOk(Some(id), receivers, session) && !phase.Locked? && !phase.Holding?
    ensures LockOk(None, receivers[id := receivers[id].(phase := phase)], session')
  {
  }

  /** A receiver outside the lock moves on outside it. */
  lemma OutsideLock(holder: Option<nat>, receivers: seq<Receiver>, session: Session, session': Session, id: nat, phase: Phase)
    requires LockOk(holder, receivers, session) && id < |receivers|
    requires !receivers[id].phase.Locked? && !receivers[id].phase.Holding? && !phase.Locked? && !phase.Holding?
    requires forall kind :: Pending(session, kind) == [] ==> Pending(session', kind) == []
    ensures LockOk(holder, receivers[id := receivers[id].(phase := phase)], session')
  {
  }

  // -------------------------------------------------------------------- steps

  lemma PopKeepsEmpty(s: Session, wanted: MessageKind, kind: MessageKind)
    requires SessionOk(s)
    ensures SessionOk(PopPending(s, wanted).0)
    ensures Pending(s, kind) == [] ==> Pending(PopPending(s, wanted).0, kind) == []
  {
  }

  lemma LookFirstOk(s: System, id: nat)
    requires SystemOk(s) && id < |s.receivers| && s.receivers[id].phase == Starting
    ensures SystemOk(Look(s, id, Queued))
  {
    var me := s.receivers[id];
    var (session, message) := PopPending(s.session, me.wanted);
    if message.Some? {
      forall kind
        ensures SessionOk(session) && (Pending(s.session, kind) == [] ==> Pending(session, kind) == [])
      {
        PopKeepsEmpty(s.session, me.wanted, kind);
      }
      assert SessionOk(session) by {
        PopKeepsEmpty(s.session, me.wanted, me.wanted);
      }
      PopOrder(s.completions, s.handouts, s.session, id, me.wanted);
      HandOutReports(s.receivers, s.handouts, s.completions, id, message.value);
      OutsideLock(s.holder, s.receivers, s.session, session, id, Finished(ValidateReceived(me.wanted, message.value, me.maxSize)));
    } else {
      MoveReports(s.receivers, s.handouts, s.completions, id, me.(phase := Queued));
      OutsideLock(s.holder, s.receivers, s.session, s.session, id, Queued);
    }
  }

  lemma TakeLockOk(s: System, id: nat)
    requires SystemOk(s) && id < |s.receivers| && s.receivers[id].phase == Queued && s.holder.None?
    ensures SystemOk(SetPhase(s.(holder := Some(id)), id, Locked))
  {
    MoveReports(s.receivers, s.handouts, s.completions, id, s.receivers[id].(phase := Locked));
  }

  lemma LookLockedOk(s: System, id: nat)
    requires SystemOk(s) && id < |s.receivers| && s.receivers[id].phase == Locked
    ensures SystemOk(LookUnderLock(s, id))
  {
    var me := s.receivers[id];
    var (session, message) := PopPending(s.session, me.wanted);
    assert s.holder == Some(id);
    if message.Some? {
      PopKeepsEmpty(s.session, me.wanted, me.wanted);
      PopOrder(s.completions, s.handouts, s.session, id, me.wanted);
      HandOutReports(s.receivers, s.handouts, s.completions, id, message.value);
      ReleaseLock(s.receivers, s.session, session, id, Finished(ValidateReceived(me.wanted, message.value, me.maxSize)));
    } else {
      MoveReports(s.receivers, s.handouts, s.completions, id, me.(phase := Holding));
    }
  }

  lemma CallOk(s: System, wanted: MessageKind, maxSize: nat)
    requires SystemOk(s)
    ensures SystemOk(s.(receivers := s.receivers + [Receiver(wanted, maxSize, Starting)]))
  {
    NewcomerReports(s.receivers, s.handouts, s.completions, Receiver(wanted, maxSize, Starting));
  }

  /** How a datagram moves the queues, by what it completes. */
  lemma ReceiveOneCases(s: Session, wanted: MessageKind, maxSize: nat, input: bytes, clock: Clock)
    ensures var completed := Completed(s, wanted, maxSize, input, clock);
            var (s', progress) := ReceiveOne(s, wanted, maxSize, input, clock);
            if completed.None? then SameQueues(s, s') && (progress.Returned? ==> progress.result.Err?)
            else if completed.value.kind == wanted then
              && SameQueues(s, s')
              && progress == Returned(ValidateReceived(wanted, completed.value.message, maxSize))
            else if progress.Returned? then SameQueues(s, s') && progress.result == Err(PendingQueueFull)
            else
              && Pending(s', completed.value.kind) == Pending(s, completed.value.kind) + [completed.value.message]
              && Pending(s', wanted) == Pending(s, wanted)
  {
  }

  /** A refusal is answered with the size error and completes nothing. */
  lemma RefusalIsAnswered(s: Session, wanted: MessageKind, maxSize: nat, input: bytes, clock: Clock)
    requires Refused(wanted, maxSize, input).Some?
    ensures Completed(s, wanted, maxSize, input, clock).None?
    ensures ReceiveOne(s, wanted, maxSize, input, clock).1 == Returned(Err(MessageExceedsLimit))
  {
  }

  lemma OtherKindQueues(s: Session, wanted: MessageKind, maxSize: nat, input: bytes, clock: Clock)
    requires var d := Completed(s, wanted, maxSize, input, clock); d.Some? && d.value.kind != wanted
    ensures var d := Completed(s, wanted, maxSize, input, clock).value;
            var (s', progress) := ReceiveOne(s, wanted, maxSize, input, clock);
            forall kind :: Pending(s', kind) == Pending(s, kind) + if !progress.Returned? && d.kind == kind then [d.message] else []
  {
    ReceiveOneCases(s, wanted, maxSize, input, clock);
  }

  lemma SettleOk(s: System, id: nat, session: Session, completed: Option<Delivery>, refused: Option<Delivery>, progress: Progress)
    requires SystemOk(s) && id < |s.receivers| && s.receivers[id].phase == Holding && SessionOk(session)
    requires completed.None? ==> SameQueues(s.session, session) && (progress.Returned? ==> progress.result.Err?)
    requires completed.None? && refused.Some? ==> progress == Returned(Err(MessageExceedsLimit))
    requires completed.Some? && completed.value.kind == s.receivers[id].wanted ==> SameQueues(s.session, session)
    requires completed.Some? && completed.value.kind != s.receivers[id].wanted ==>
      && (progress.Returned? ==> progress.result == Err(PendingQueueFull))
      && forall kind :: Pending(session, kind) == Pending(s.session, kind)
           + if !progress.Returned? && completed.value.kind == kind then [completed.value.message] else []
    ensures SystemOk(Settle(s, id, session, completed, refused, progress))
  {
    assert s.holder == Some(id);
    if completed.None? {
      if refused.Some? {
        LoggedOk(s, id, session, Completion(id, refused.value, Some(MessageExceedsLimit)));
      } else {
        NothingCompletedOk(s, id, session, progress);
      }
    } else if completed.value.kind == s.receivers[id].wanted {
      OwnKindOk(s, id, session, completed.value.message);
    } else {
      LoggedOk(s, id, session, Completion(id, completed.value, if progress.Returned? then Some(PendingQueueFull) else None));
    }
  }

  lemma DatagramOk(s: System, id: nat, input: bytes, clock: Clock)
    requires SystemOk(s) && id < |s.receivers| && s.receivers[id].phase == Holding
    ensures SystemOk(HandleDatagram(s, id, input, clock))
  {
    var me := s.receivers[id];
    var completed := Completed(s.session, me.wanted, me.maxSize, input, clock);
    var refused := Refused(me.wanted, me.maxSize, input);
    ReceiveOneCases(s.session, me.wanted, me.maxSize, input, clock);
    ReceiveOnePreserves(s.session, me.wanted, me.maxSize, input, clock);
    if refused.Some? {
      RefusalIsAnswered(s.session, me.wanted, me.maxSize, input, clock);
    }
    if completed.Some? && completed.value.kind != me.wanted {
      OtherKindQueues(s.session, me.wanted, me.maxSize, input, clock);
    }
    var (session, progress) := ReceiveOne(s.session, me.wanted, me.maxSize, input, clock);
    SettleOk(s, id, session, completed, refused, progress);
  }

  lemma NothingCompletedOk(s: System, id: nat, session: Session, progress: Progress)
    requires SystemOk(s) && id < |s.receivers| && s.receivers[id].phase == Holding && s.holder == Some(id)
    requires SessionOk(session) && SameQueues(s.session, session)
    requires progress.Returned? ==> progress.result.Err?
    ensures SystemOk(s.(session := session))
    ensures progress.Returned? ==> SystemOk(SetPhase(s.(session := session, holder := None), id, Finished(progress.result)))
  {
    SameQueuesOrder(s.completions, s.handouts, s.session, session);
    if progress.Returned? {
      MoveReports(s.receivers, s.handouts, s.completions, id, s.receivers[id].(phase := Finished(progress.result)));
      ReleaseLock(s.receivers, s.session, session, id, Finished(progress.result));
    }
  }

  lemma OwnKindOk(s: System, id: nat, session: Session, message: bytes)
    requires SystemOk(s) && id < |s.receivers| && s.receivers[id].phase == Holding && s.holder == Some(id)
    requires SessionOk(session) && SameQueues(s.session, session)
    ensures var c := Completion(id, Delivery(s.receivers[id].wanted, message), None);
            SystemOk(HandOut(Logged(s.(session := session, holder := None), c), id, message))
  {
    var me, d := s.receivers[id], Delivery(s.receivers[id].wanted, message);
    SameQueuesOrder(s.completions, s.handouts, s.session, session);
    assert Pending(session, me.wanted) == [];
    DirectOrder(s.completions, s.handouts, session, id, d);
    LogReports(s.receivers, s.handouts, s.completions, Completion(id, d, None));
    HandOutReports(s.receivers, s.handouts, s.completions + [Completion(id, d, None)], id, message);
    ReleaseLock(s.receivers, s.session, session, id, Finished(ValidateReceived(me.wanted, message, me.maxSize)));
  }

  /** A message set aside, or lost and told to its reader, as the receiver leaves the lock. */
  lemma LoggedOk(s: System, id: nat, session: Session, c: Completion)
    requires SystemOk(s) && id < |s.receivers| && s.receivers[id].phase == Holding && s.holder == Some(id)
    requires SessionOk(session) && c.reader == id
    requires forall kind :: Pending(session, kind) ==
                            Pending(s.session, kind) + if c.lost.None? && c.delivery.kind == kind then [c.delivery.message] else []
    ensures var phase := if c.lost.Some? then Finished(Err(c.lost.value)) else Queued;
            SystemOk(Logged(SetPhase(s.(session := session, holder := None), id, phase), c))
  {
    var phase := if c.lost.Some? then Finished(Err(c.lost.value)) else Queued;
    var me := s.receivers[id].(phase := phase);
    ReaderIsNew(s.receivers, s.handouts, s.completions, id);
    MoveReports(s.receivers, s.handouts, s.completions, id, me);
    LogReports(s.receivers[id := me], s.handouts, s.completions, c);
    LogOrder(s.completions, s.handouts, s.session, session, c);
    ReleaseLock(s.receivers, s.session, session, id, phase);
  }

  /** The states a step can lead to: the same one, or the one its guarded action gives. */
  lemma NextIs(s: System, e: Event) returns (s': System)
    requires SystemOk(s)
    ensures Next(s, e) == s' && SystemOk(s')
  {
    s' := s;
    match e
    case Call(wanted, maxSize) =>
      CallOk(s, wanted, maxSize);
      s' := s.(receivers := s.receivers + [Receiver(wanted, maxSize, Starting)]);
    case LookFirst(id) =>
      if id < |s.receivers| && s.receivers[id].phase == Starting {
        LookFirstOk(s, id);
        s' := Look(s, id, Queued);
      }
    case TakeLock(id) =>
      if id < |s.receivers| && s.receivers[id].phase == Queued && s.holder.None? {
        TakeLockOk(s, id);
        s' := SetPhase(s.(holder := Some(id)), id, Locked);
      }
    case LookLocked(id) =>
      if id < |s.receivers| && s.receivers[id].phase == Locked {
        LookLockedOk(s, id);
        s' := LookUnderLock(s, id);
      }
    case Datagram(id, input, clock) =>
      if id < |s.receivers| && s.receivers[id].phase == Holding {
        DatagramOk(s, id, input, clock);
        s' := HandleDatagram(s, id, input, clock);
      }
  }

  /**
   In every interleaving of receivers and datagrams: messages of each kind are
   handed out in completion order, none twice. A whole message that is neither
   handed out nor queued was lost to a full queue or to the size limit, its
   reader finished with exactly that error, and no other loss and no handout
   finished that reader. A handed-out message reaches its caller unless it is an
   authenticated one over that caller's limit, which the caller is told.
   */
  lemma {:induction false} ReceiversShareInOrder(events: seq<Event>)
    ensures SystemOk(Run(events))
  {
    if events != [] {
      ReceiversShareInOrder(events[..|events| - 1]);
      var _ := NextIs(Run(events[..|events| - 1]), events[|events| - 1]);
    }
  }
}
