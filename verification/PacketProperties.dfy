/** What the packet core keeps over whole runs: independent directions, frame numbering, and byte budgets. */
module PacketProperties {
  import opened Bytes
  import opened PacketCore
  import opened Replay

  // ------------------------------------------------------------ independence

  /** Everything the outbound direction can see of the core. */
  datatype OutView = OutView(session: Option<PeerSession>, used: nat, nextPacketNumber: nat, outbox: seq<bytes>)

  /** Everything the inbound direction can see of the core. */
  datatype InView = InView(session: Option<PeerSession>, used: nat, replay: Window, outbox: seq<TunnelPacket>)

  function Out(c: Core): OutView {
    OutView(c.outSession, c.outBytes, c.nextPacketNumber, c.transportOutbox)
  }

  function In(c: Core): InView {
    InView(c.inSession, c.inBytes, c.replay, c.tunnelOutbox)
  }

  /** Events that concern one direction only; clearing all sessions concerns both. */
  predicate Concerns(e: Event, d: Direction) {
    match e
    case Install(s) => s.direction == d
    case ClearAll => true
    case ClearDirection(direction) => direction == d
    case ClearOne(_, direction, _) => direction == d
    case Submit(_, _, _) => d == Outbound
    case PopTransport => d == Outbound
    case Accept(_, _) => d == Inbound
    case PopTunnel => d == Inbound
  }

  predicate SameView(a: Core, b: Core, d: Direction) {
    if d == Outbound then Out(a) == Out(b) else In(a) == In(b)
  }

  /** The events of a run that concern one direction. */
  function Only(events: seq<Event>, d: Direction): seq<Event> {
    if events == [] then []
    else (if Concerns(events[0], d) then [events[0]] else []) + Only(events[1..], d)
  }

  /** What those events returned. */
  function OnlyOutputs(events: seq<Event>, outputs: seq<Output>, d: Direction): seq<Output>
    requires |outputs| == |events|
  {
    if events == [] then []
    else (if Concerns(events[0], d) then [outputs[0]] else []) + OnlyOutputs(events[1..], outputs[1..], d)
  }

  lemma OtherDirectionUntouched(cfg: Config, c: Core, e: Event, d: Direction)
    requires |c.replay.bitmap| == WINDOW && !Concerns(e, d)
    ensures SameView(Step(cfg, c, e).0, c, d)
  {
  }

  lemma StepDependsOnView(cfg: Config, a: Core, b: Core, e: Event, d: Direction)
    requires |a.replay.bitmap| == WINDOW && |b.replay.bitmap| == WINDOW
    requires Concerns(e, d) && SameView(a, b, d)
    ensures SameView(Step(cfg, a, e).0, Step(cfg, b, e).0, d)
    ensures Step(cfg, a, e).1 == Step(cfg, b, e).1
  {
    if e.Submit? {
      assert FrameFor(cfg, a, e.family, e.packet, e.now) == FrameFor(cfg, b, e.family, e.packet, e.now);
    }
  }

  /**
   The directions do not interfere: deleting from any run every event that does
   not concern a direction leaves that direction's leases, budgets, numbers,
   replay scope and queues as they were, and all its results.
   */
  lemma {:induction false} DirectionsIndependent(cfg: Config, a: Core, b: Core, events: seq<Event>, d: Direction)
    requires |a.replay.bitmap| == WINDOW && |b.replay.bitmap| == WINDOW && SameView(a, b, d)
    ensures var (endA, outputs) := Run(cfg, a, events);
            var (endB, alone) := Run(cfg, b, Only(events, d));
            SameView(endA, endB, d) && OnlyOutputs(events, outputs, d) == alone
    decreases |events|
  {
    if events != [] {
      var e, rest := events[0], events[1..];
      var a' := Step(cfg, a, e).0;
      var outputs := Run(cfg, a, events).1;
      assert outputs[1..] == Run(cfg, a', rest).1;
      if Concerns(e, d) {
        StepDependsOnView(cfg, a, b, e, d);
        DirectionsIndependent(cfg, a', Step(cfg, b, e).0, rest, d);
        assert Only(events, d)[1..] == Only(rest, d);
      } else {
        OtherDirectionUntouched(cfg, a, e, d);
        DirectionsIndependent(cfg, a', b, rest, d);
        assert Only(events, d) == Only(rest, d);
      }
    }
  }

  // --------------------------------------------------------------- numbering

  /** The frames a run took from the outbound queue, in order. */
  function PoppedFrames(outputs: seq<Output>): seq<bytes> {
    if outputs == [] then []
    else (if outputs[0].FrameOut? && outputs[0].frame.Some? then [outputs[0].frame.value] else []) + PoppedFrames(outputs[1..])
  }

  function PoppedPackets(outputs: seq<Output>): seq<TunnelPacket> {
    if outputs == [] then []
    else (if outputs[0].PacketOut? && outputs[0].packet.Some? then [outputs[0].packet.value] else []) + PoppedPackets(outputs[1..])
  }

  /** The frame that a step puts on the outbound queue, if any. */
  function QueuedBy(cfg: Config, c: Core, e: Event): seq<bytes> {
    if e.Submit? && FrameFor(cfg, c, e.family, e.packet, e.now).Ok?
    then [FrameFor(cfg, c, e.family, e.packet, e.now).value] else []
  }

  /** The frames a run puts on the outbound queue, in order. */
  function Queued(cfg: Config, c: Core, events: seq<Event>): seq<bytes>
    requires |c.replay.bitmap| == WINDOW
    decreases |events|
  {
    if events == [] then [] else QueuedBy(cfg, c, events[0]) + Queued(cfg, Step(cfg, c, events[0]).0, events[1..])
  }

  /** The packet that a step puts on the inbound queue, if any. */
  function AcceptedBy(cfg: Config, c: Core, e: Event): seq<TunnelPacket>
    requires |c.replay.bitmap| == WINDOW
  {
    if e.Accept? && Step(cfg, c, e).1 == AcceptedFrame(None)
    then [TunnelPacket(DecodeFrame(e.frame).value.family, DecodeFrame(e.frame).value.packet)] else []
  }

  function AcceptedPackets(cfg: Config, c: Core, events: seq<Event>): seq<TunnelPacket>
    requires |c.replay.bitmap| == WINDOW
    decreases |events|
  {
    if events == [] then [] else AcceptedBy(cfg, c, events[0]) + AcceptedPackets(cfg, Step(cfg, c, events[0]).0, events[1..])
  }

  /** The frames carry the packet numbers from `first` on, without gap. */
  predicate Numbered(frames: seq<bytes>, first: nat) {
    forall i :: 0 <= i < |frames| ==> HasNumber(frames[i], first + i)
  }

  predicate HasNumber(frame: bytes, number: nat) {
    |frame| >= FRAME_HEADER_LEN && frame[6..14] == BigEndian(number, 8)
  }

  /** A number below 2^64 is what the receiver reads from the frame. */
  lemma NumberIsRead(frame: bytes, number: nat)
    requires HasNumber(frame, number) && number < U64 && DecodeFrame(frame).Ok?
    ensures DecodeFrame(frame).value.number == number
  {
    FieldsRoundTrip(number);
  }

  /** A queued frame gives its receiver the number, the family and the normalised packet. */
  lemma FrameCarriesPacket(cfg: Config, c: Core, family: nat, packet: bytes, now: nat)
    requires FrameFor(cfg, c, family, packet, now).Ok? && c.nextPacketNumber < U64
    ensures PacketIpv4.Normalize(packet).Ok?
    ensures DecodeFrame(FrameFor(cfg, c, family, packet, now).value)
            == Ok(Decoded(c.nextPacketNumber, family, PacketIpv4.Normalize(packet).value))
  {
    var d := Decoded(c.nextPacketNumber, family, PacketIpv4.Normalize(packet).value);
    DecodeFrameExact(FrameFor(cfg, c, family, packet, now).value, d);
  }

  lemma StepQueue(cfg: Config, c: Core, e: Event)
    requires |c.replay.bitmap| == WINDOW
    ensures var (c', output) := Step(cfg, c, e);
            PoppedFrames([output]) + c'.transportOutbox == c.transportOutbox + QueuedBy(cfg, c, e)
  {
    var output := Step(cfg, c, e).1;
    assert [output][1..] == [];
  }

  lemma StepCounts(cfg: Config, c: Core, e: Event)
    requires |c.replay.bitmap| == WINDOW
    ensures var c', queued := Step(cfg, c, e).0, QueuedBy(cfg, c, e);
            && c'.nextPacketNumber == c.nextPacketNumber + |queued|
            && c'.metrics.framesOut == c.metrics.framesOut + |queued|
  {
  }

  lemma StepNumbers(cfg: Config, c: Core, e: Event)
    ensures Numbered(QueuedBy(cfg, c, e), c.nextPacketNumber)
  {
    if e.Submit? && FrameFor(cfg, c, e.family, e.packet, e.now).Ok? {
      FrameWireParts(c.nextPacketNumber, e.family, PacketIpv4.Normalize(e.packet).value);
    }
  }

  lemma StepDelivers(cfg: Config, c: Core, e: Event)
    requires |c.replay.bitmap| == WINDOW
    ensures var (c', output) := Step(cfg, c, e);
            var accepted := AcceptedBy(cfg, c, e);
            && c'.metrics.framesIn == c.metrics.framesIn + |accepted|
            && c'.metrics.packetsToTunnel == c.metrics.packetsToTunnel + |accepted|
            && PoppedPackets([output]) + c'.tunnelOutbox == c.tunnelOutbox + accepted
  {
    var output := Step(cfg, c, e).1;
    assert [output][1..] == [];
  }

  lemma {:induction false} FramesInOrder(cfg: Config, c: Core, events: seq<Event>)
    requires |c.replay.bitmap| == WINDOW
    ensures var (end, outputs) := Run(cfg, c, events);
            PoppedFrames(outputs) + end.transportOutbox == c.transportOutbox + Queued(cfg, c, events)
    decreases |events|
  {
    if events == [] {
      assert PoppedFrames([]) + c.transportOutbox == c.transportOutbox + [];
    } else {
      StepQueue(cfg, c, events[0]);
      var (c', output) := Step(cfg, c, events[0]);
      FramesInOrder(cfg, c', events[1..]);
      var (end, rest) := Run(cfg, c', events[1..]);
      PoppedFramesFirst(output, rest);
      JoinQueues(PoppedFrames([output]), PoppedFrames(rest), end.transportOutbox, c'.transportOutbox,
                 Queued(cfg, c', events[1..]), c.transportOutbox, QueuedBy(cfg, c, events[0]));
    }
  }

  lemma {:induction false} FramesNumbered(cfg: Config, c: Core, events: seq<Event>)
    requires |c.replay.bitmap| == WINDOW
    ensures Numbered(Queued(cfg, c, events), c.nextPacketNumber)
    decreases |events|
  {
    if events != [] {
      StepNumbers(cfg, c, events[0]);
      StepCounts(cfg, c, events[0]);
      var c' := Step(cfg, c, events[0]).0;
      FramesNumbered(cfg, c', events[1..]);
      NumberedAppend(QueuedBy(cfg, c, events[0]), Queued(cfg, c', events[1..]), c.nextPacketNumber);
    }
  }

  lemma {:induction false} FramesCounted(cfg: Config, c: Core, events: seq<Event>)
    requires |c.replay.bitmap| == WINDOW
    ensures var end, queued := Run(cfg, c, events).0, Queued(cfg, c, events);
            && end.nextPacketNumber == c.nextPacketNumber + |queued|
            && end.metrics.framesOut == c.metrics.framesOut + |queued|
    decreases |events|
  {
    if events != [] {
      StepCounts(cfg, c, events[0]);
      FramesCounted(cfg, Step(cfg, c, events[0]).0, events[1..]);
    }
  }

  /**
   Over any run: frames leave in the order they were queued, none lost or
   duplicated, numbered without gap, and the counters say how many there were.
   */
  lemma FramesConserved(cfg: Config, c: Core, events: seq<Event>)
    requires |c.replay.bitmap| == WINDOW
    ensures var (end, outputs) := Run(cfg, c, events);
            var queued := Queued(cfg, c, events);
            && PoppedFrames(outputs) + end.transportOutbox == c.transportOutbox + queued
            && Numbered(queued, c.nextPacketNumber)
            && end.nextPacketNumber == c.nextPacketNumber + |queued|
            && end.metrics.framesOut == c.metrics.framesOut + |queued|
  {
    FramesInOrder(cfg, c, events);
    FramesNumbered(cfg, c, events);
    FramesCounted(cfg, c, events);
  }

  lemma PoppedFramesFirst(output: Output, rest: seq<Output>)
    ensures PoppedFrames([output] + rest) == PoppedFrames([output]) + PoppedFrames(rest)
  {
    assert ([output] + rest)[1..] == rest && [output][1..] == [];
  }

  lemma PoppedPacketsFirst(output: Output, rest: seq<Output>)
    ensures PoppedPackets([output] + rest) == PoppedPackets([output]) + PoppedPackets(rest)
  {
    assert ([output] + rest)[1..] == rest && [output][1..] == [];
  }

  lemma JoinQueues<T>(popped: seq<T>, later: seq<T>, end: seq<T>, mid: seq<T>, more: seq<T>, start: seq<T>, first: seq<T>)
    requires popped + mid == start + first && later + end == mid + more
    ensures (popped + later) + end == start + (first + more)
  {
    assert (popped + later) + end == popped + (later + end) == popped + (mid + more) == (popped + mid) + more;
    assert (start + first) + more == start + (first + more);
  }

  lemma NumberedAppend(a: seq<bytes>, b: seq<bytes>, first: nat)
    requires Numbered(a, first) && Numbered(b, first + |a|)
    ensures Numbered(a + b, first)
  {
    forall i | 0 <= i < |a + b| ensures HasNumber((a + b)[i], first + i) {
      if i >= |a| {
        assert (a + b)[i] == b[i - |a|];
      }
    }
  }

  lemma {:induction false} PacketsConserved(cfg: Config, c: Core, events: seq<Event>)
    requires |c.replay.bitmap| == WINDOW
    ensures var (end, outputs) := Run(cfg, c, events);
            var accepted := AcceptedPackets(cfg, c, events);
            && PoppedPackets(outputs) + end.tunnelOutbox == c.tunnelOutbox + accepted
            && end.metrics.framesIn == c.metrics.framesIn + |accepted|
            && end.metrics.packetsToTunnel == c.metrics.packetsToTunnel + |accepted|
    decreases |events|
  {
    if events == [] {
      assert PoppedPackets([]) + c.tunnelOutbox == c.tunnelOutbox + [];
    } else {
      StepDelivers(cfg, c, events[0]);
      var (c', output) := Step(cfg, c, events[0]);
      PacketsConserved(cfg, c', events[1..]);
      var (end, rest) := Run(cfg, c', events[1..]);
      var first, more := AcceptedBy(cfg, c, events[0]), AcceptedPackets(cfg, c', events[1..]);
      PoppedPacketsFirst(output, rest);
      JoinQueues(PoppedPackets([output]), PoppedPackets(rest), end.tunnelOutbox, c'.tunnelOutbox, more, c.tunnelOutbox, first);
      assert Run(cfg, c, events).1 == [output] + rest;
    }
  }

  /** From a new core: `next - 1`, the counter, and popped plus queued frames all agree, and likewise inbound. */
  lemma CountersAgree(cfg: Config, events: seq<Event>)
    ensures var (end, outputs) := Run(cfg, NewCore(), events);
            && end.nextPacketNumber - 1 == end.metrics.framesOut == |PoppedFrames(outputs)| + |end.transportOutbox|
            && Numbered(PoppedFrames(outputs) + end.transportOutbox, 1)
            && end.metrics.framesIn == end.metrics.packetsToTunnel == |PoppedPackets(outputs)| + |end.tunnelOutbox|
  {
    FramesConserved(cfg, NewCore(), events);
    PacketsConserved(cfg, NewCore(), events);
    var (end, outputs) := Run(cfg, NewCore(), events);
    assert [] + Queued(cfg, NewCore(), events) == Queued(cfg, NewCore(), events);
    assert |PoppedFrames(outputs) + end.transportOutbox| == |PoppedFrames(outputs)| + |end.transportOutbox|;
    assert |PoppedPackets(outputs) + end.tunnelOutbox| == |PoppedPackets(outputs)| + |end.tunnelOutbox|;
  }

  // ------------------------------------------------------------------ budgets

  function TotalBytes(frames: seq<bytes>): nat {
    if frames == [] then 0 else TotalBytes(frames[..|frames| - 1]) + |frames[|frames| - 1]|
  }

  /** An event that replaces or clears the outbound lease. */
  predicate EndsLease(c: Core, e: Event) {
    match e
    case Install(s) => s.direction == Outbound && Replaces(c.outSession, s)
    case ClearAll => true
    case ClearDirection(direction) => direction == Outbound
    case ClearOne(peerId, direction, generation) => direction == Outbound && Matches(c.outSession, peerId, generation)
    case _ => false
  }

  /** No event of the run ends the outbound lease. */
  predicate LeaseHeld(cfg: Config, c: Core, events: seq<Event>)
    requires |c.replay.bitmap| == WINDOW
    decreases |events|
  {
    events == [] || (!EndsLease(c, events[0]) && LeaseHeld(cfg, Step(cfg, c, events[0]).0, events[1..]))
  }

  /** The frames queued under a lease so far: their total is what was charged, and all but the last were under budget. */
  predicate WithinBudget(s: PeerSession, used: nat, frames: seq<bytes>) {
    && used == (if TotalBytes(frames) < U64 then TotalBytes(frames) else U64 - 1)
    && (s.rekeyAfterBytes > 0 && frames != [] ==> TotalBytes(frames[..|frames| - 1]) < s.rekeyAfterBytes)
  }

  lemma StepUnderLease(cfg: Config, c: Core, e: Event, s: PeerSession, frames: seq<bytes>)
    requires |c.replay.bitmap| == WINDOW && cfg.requireSession && c.outSession == Some(s) && s.rekeyAfterBytes < U64
    requires !EndsLease(c, e) && WithinBudget(s, c.outBytes, frames)
    ensures var c' := Step(cfg, c, e).0;
            c'.outSession == Some(s) && WithinBudget(s, c'.outBytes, frames + QueuedBy(cfg, c, e))
  {
    var queued := QueuedBy(cfg, c, e);
    if queued != [] {
      assert (frames + queued)[..|frames|] == frames;
    } else {
      assert frames + queued == frames;
    }
  }

  lemma {:induction false} LeaseBudgetFrom(cfg: Config, c: Core, events: seq<Event>, s: PeerSession, frames: seq<bytes>)
    requires |c.replay.bitmap| == WINDOW && cfg.requireSession && c.outSession == Some(s) && s.rekeyAfterBytes < U64
    requires LeaseHeld(cfg, c, events) && WithinBudget(s, c.outBytes, frames)
    ensures var end := Run(cfg, c, events).0;
            end.outSession == Some(s) && WithinBudget(s, end.outBytes, frames + Queued(cfg, c, events))
    decreases |events|
  {
    if events == [] {
      assert frames + [] == frames;
    } else {
      StepUnderLease(cfg, c, events[0], s, frames);
      var c' := Step(cfg, c, events[0]).0;
      var first := QueuedBy(cfg, c, events[0]);
      LeaseBudgetFrom(cfg, c', events[1..], s, frames + first);
      Regroup(frames, first, Queued(cfg, c', events[1..]));
    }
  }

  /**
   While an outbound lease is held, with leases required: the frames queued
   carry consecutive packet numbers, and all but the last together stay below
   the lease's byte budget when it has one.
   */
  lemma LeaseBudget(cfg: Config, c: Core, events: seq<Event>, s: PeerSession)
    requires |c.replay.bitmap| == WINDOW && cfg.requireSession && c.outSession == Some(s) && c.outBytes == 0
    requires s.rekeyAfterBytes < U64 && LeaseHeld(cfg, c, events)
    ensures var queued := Queued(cfg, c, events);
            && Run(cfg, c, events).0.outSession == Some(s)
            && Numbered(queued, c.nextPacketNumber)
            && WithinBudget(s, Run(cfg, c, events).0.outBytes, queued)
  {
    LeaseBudgetFrom(cfg, c, events, s, []);
    FramesConserved(cfg, c, events);
    assert [] + Queued(cfg, c, events) == Queued(cfg, c, events);
  }
}
