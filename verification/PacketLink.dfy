/**
 One packet core's frames delivered to another: what reaches the other tunnel,
 and how often, under any order, loss and repetition.
 */
module PacketLink {
  import opened Bytes
  import opened PacketCore
  import opened PacketProperties
  import opened Replay
  import PacketIpv4

  // ------------------------------------------------------------ replay scopes

  /** The step starts a new inbound replay scope. */
  predicate Resets(c: Core, e: Event) {
    match e
    case Install(s) => s.direction == Inbound && Replaces(c.inSession, s)
    case ClearAll => true
    case ClearDirection(direction) => direction == Inbound
    case ClearOne(peerId, direction, generation) => direction == Inbound && Matches(c.inSession, peerId, generation)
    case _ => false
  }

  /** The number of the frame a step accepts, if it accepts one. */
  function NumberBy(cfg: Config, c: Core, e: Event): seq<nat>
    requires |c.replay.bitmap| == WINDOW
  {
    if e.Accept? && Step(cfg, c, e).1 == AcceptedFrame(None) then [DecodeFrame(e.frame).value.number] else []
  }

  /** The numbers a run accepts, in order. */
  function AcceptedNumbers(cfg: Config, c: Core, events: seq<Event>): seq<nat>
    requires |c.replay.bitmap| == WINDOW
    decreases |events|
  {
    if events == [] then [] else NumberBy(cfg, c, events[0]) + AcceptedNumbers(cfg, Step(cfg, c, events[0]).0, events[1..])
  }

  predicate NoResets(cfg: Config, c: Core, events: seq<Event>)
    requires |c.replay.bitmap| == WINDOW
    decreases |events|
  {
    events == [] || (!Resets(c, events[0]) && NoResets(cfg, Step(cfg, c, events[0]).0, events[1..]))
  }

  /** The numbers accepted since the last reset, when `seen` were accepted before. */
  function ScopeAfter(cfg: Config, c: Core, events: seq<Event>, seen: set<nat>): set<nat>
    requires |c.replay.bitmap| == WINDOW
    decreases |events|
  {
    if events == [] then seen
    else ScopeAfter(cfg, Step(cfg, c, events[0]).0, events[1..], ScopeBy(cfg, c, events[0], seen))
  }

  function ScopeBy(cfg: Config, c: Core, e: Event, seen: set<nat>): set<nat>
    requires |c.replay.bitmap| == WINDOW
  {
    if Resets(c, e) then {} else seen + set n | n in NumberBy(cfg, c, e)
  }

  lemma AcceptRemembers(cfg: Config, c: Core, frame: bytes, now: nat, seen: set<nat>)
    requires Remembers(c.replay, seen)
    ensures var (c', output) := DoAccept(cfg, c, frame, now);
            if output == AcceptedFrame(None)
            then DecodeFrame(frame).Ok? && DecodeFrame(frame).value.number !in seen
                 && Remembers(c'.replay, seen + {DecodeFrame(frame).value.number})
            else Remembers(c'.replay, seen)
  {
    if DecodeFrame(frame).Ok? {
      ObserveExact(c.replay, seen, DecodeFrame(frame).value.number);
    }
  }

  /** One step keeps the window in agreement with the scope, and accepts only a number new to it. */
  lemma StepRemembers(cfg: Config, c: Core, e: Event, seen: set<nat>)
    requires Remembers(c.replay, seen)
    ensures Remembers(Step(cfg, c, e).0.replay, ScopeBy(cfg, c, e, seen))
    ensures forall n :: n in NumberBy(cfg, c, e) ==> n !in seen
  {
    if e.Accept? {
      AcceptRemembers(cfg, c, e.frame, e.now, seen);
      var number := NumberBy(cfg, c, e);
      if Step(cfg, c, e).1 == AcceptedFrame(None) {
        assert (set n | n in number) == {DecodeFrame(e.frame).value.number};
      } else {
        assert ScopeBy(cfg, c, e, seen) == seen;
      }
    } else if !Resets(c, e) {
      assert ScopeBy(cfg, c, e, seen) == seen;
    }
  }

  lemma {:induction false} RunRemembers(cfg: Config, c: Core, events: seq<Event>, seen: set<nat>)
    requires Remembers(c.replay, seen)
    ensures Remembers(Run(cfg, c, events).0.replay, ScopeAfter(cfg, c, events, seen))
    decreases |events|
  {
    if events != [] {
      StepRemembers(cfg, c, events[0], seen);
      RunRemembers(cfg, Step(cfg, c, events[0]).0, events[1..], ScopeBy(cfg, c, events[0], seen));
    }
  }

  predicate Distinct(numbers: seq<nat>) {
    forall i, j :: 0 <= i < j < |numbers| ==> numbers[i] != numbers[j]
  }

  lemma {:induction false} ScopeAccepts(cfg: Config, c: Core, events: seq<Event>, seen: set<nat>)
    requires Remembers(c.replay, seen) && NoResets(cfg, c, events)
    ensures Distinct(AcceptedNumbers(cfg, c, events))
    ensures forall n :: n in AcceptedNumbers(cfg, c, events) ==> n !in seen
    decreases |events|
  {
    if events != [] {
      StepRemembers(cfg, c, events[0], seen);
      var first, c' := NumberBy(cfg, c, events[0]), Step(cfg, c, events[0]).0;
      ScopeAccepts(cfg, c', events[1..], ScopeBy(cfg, c, events[0], seen));
    }
  }

  /**
   Between two resets of the inbound scope, after any run, each packet number is
   accepted at most once, and never one accepted earlier in the same scope.
   */
  lemma AcceptedOncePerScope(cfg: Config, before: seq<Event>, scope: seq<Event>)
    requires NoResets(cfg, Run(cfg, NewCore(), before).0, scope)
    ensures var numbers := AcceptedNumbers(cfg, Run(cfg, NewCore(), before).0, scope);
            Distinct(numbers) && forall n :: n in numbers ==> n !in ScopeAfter(cfg, NewCore(), before, {})
  {
    RunRemembers(cfg, NewCore(), before, {});
    ScopeAccepts(cfg, Run(cfg, NewCore(), before).0, scope, ScopeAfter(cfg, NewCore(), before, {}));
  }

  // ------------------------------------------------------- from core to core

  /** The packet behind the frame a step queues, as the other side should see it. */
  function PacketBy(cfg: Config, c: Core, e: Event): seq<TunnelPacket> {
    if e.Submit? && FrameFor(cfg, c, e.family, e.packet, e.now).Ok? && PacketIpv4.Normalize(e.packet).Ok?
    then [TunnelPacket(e.family, PacketIpv4.Normalize(e.packet).value)] else []
  }

  /** The normalised packets behind the frames a run queues, in order. */
  function SubmittedPackets(cfg: Config, c: Core, events: seq<Event>): seq<TunnelPacket>
    requires |c.replay.bitmap| == WINDOW
    decreases |events|
  {
    if events == [] then [] else PacketBy(cfg, c, events[0]) + SubmittedPackets(cfg, Step(cfg, c, events[0]).0, events[1..])
  }

  /** Each frame reads as its number and its packet. */
  predicate Carries(frames: seq<bytes>, packets: seq<TunnelPacket>, first: nat) {
    |frames| == |packets| && forall i :: 0 <= i < |frames| ==> FrameCarries(frames[i], packets[i], first + i)
  }

  predicate FrameCarries(frame: bytes, p: TunnelPacket, number: nat) {
    DecodeFrame(frame) == Ok(Decoded(number, p.family, p.packet))
  }

  lemma CarriesJoins(a: seq<bytes>, p: seq<TunnelPacket>, b: seq<bytes>, q: seq<TunnelPacket>, first: nat)
    requires Carries(a, p, first) && Carries(b, q, first + |a|)
    ensures Carries(a + b, p + q, first)
  {
    forall i | 0 <= i < |a + b|
      ensures FrameCarries((a + b)[i], (p + q)[i], first + i)
    {
      if i >= |a| {
        assert FrameCarries(b[i - |a|], q[i - |a|], first + |a| + (i - |a|));
      }
    }
  }

  lemma StepCarries(cfg: Config, c: Core, e: Event)
    requires |c.replay.bitmap| == WINDOW && c.nextPacketNumber < U64
    ensures Carries(QueuedBy(cfg, c, e), PacketBy(cfg, c, e), c.nextPacketNumber)
  {
    if e.Submit? && FrameFor(cfg, c, e.family, e.packet, e.now).Ok? {
      FrameCarriesPacket(cfg, c, e.family, e.packet, e.now);
    }
  }

  /** The core after the first event of a run, what that event queued, and what the rest of the run adds. */
  lemma AfterFirst(cfg: Config, c: Core, events: seq<Event>) returns (c': Core, frames: seq<bytes>, packets: seq<TunnelPacket>)
    requires |c.replay.bitmap| == WINDOW && events != [] && c.nextPacketNumber < U64
    ensures |c'.replay.bitmap| == WINDOW && c'.nextPacketNumber == c.nextPacketNumber + |frames| <= c.nextPacketNumber + 1
    ensures Carries(frames, packets, c.nextPacketNumber)
    ensures Queued(cfg, c, events) == frames + Queued(cfg, c', events[1..])
    ensures SubmittedPackets(cfg, c, events) == packets + SubmittedPackets(cfg, c', events[1..])
  {
    StepCounts(cfg, c, events[0]);
    StepCarries(cfg, c, events[0]);
    c', frames, packets := Step(cfg, c, events[0]).0, QueuedBy(cfg, c, events[0]), PacketBy(cfg, c, events[0]);
  }

  /** Every queued frame reads as the next number and its normalised packet, while numbers fit 64 bits. */
  lemma {:induction false} QueuedCarries(cfg: Config, c: Core, events: seq<Event>)
    requires |c.replay.bitmap| == WINDOW && c.nextPacketNumber + |events| <= U64
    ensures Carries(Queued(cfg, c, events), SubmittedPackets(cfg, c, events), c.nextPacketNumber)
    decreases |events|
  {
    if events != [] {
      var c', frames, packets := AfterFirst(cfg, c, events);
      QueuedCarries(cfg, c', events[1..]);
      CarriesJoins(frames, packets, Queued(cfg, c', events[1..]), SubmittedPackets(cfg, c', events[1..]), c.nextPacketNumber);
    }
  }

  /** Every frame offered to the receiving core was queued by the sending one. */
  predicate OffersOnly(events: seq<Event>, frames: seq<bytes>) {
    forall i :: 0 <= i < |events| && events[i].Accept? ==> events[i].frame in frames
  }

  /** Each accepted packet is the submitted one its number says. */
  predicate Matching(numbers: seq<nat>, accepted: seq<TunnelPacket>, packets: seq<TunnelPacket>, first: nat) {
    |numbers| == |accepted|
    && forall k :: 0 <= k < |numbers| ==> first <= numbers[k] < first + |packets| && accepted[k] == packets[numbers[k] - first]
  }

  lemma StepMatches(cfg: Config, c: Core, e: Event, frames: seq<bytes>, packets: seq<TunnelPacket>, first: nat)
    requires |c.replay.bitmap| == WINDOW && Carries(frames, packets, first) && OffersOnly([e], frames)
    ensures Matching(NumberBy(cfg, c, e), AcceptedBy(cfg, c, e), packets, first)
  {
    if e.Accept? && Step(cfg, c, e).1 == AcceptedFrame(None) {
      assert [e][0].frame in frames;
      var i :| 0 <= i < |frames| && frames[i] == e.frame;
      assert FrameCarries(frames[i], packets[i], first + i);
    }
  }

  lemma MatchingJoins(n: seq<nat>, a: seq<TunnelPacket>, m: seq<nat>, b: seq<TunnelPacket>, packets: seq<TunnelPacket>, first: nat)
    requires Matching(n, a, packets, first) && Matching(m, b, packets, first)
    ensures Matching(n + m, a + b, packets, first)
  {
  }

  lemma {:induction false} RunMatches(cfg: Config, c: Core, events: seq<Event>, frames: seq<bytes>, packets: seq<TunnelPacket>, first: nat)
    requires |c.replay.bitmap| == WINDOW && Carries(frames, packets, first) && OffersOnly(events, frames)
    ensures Matching(AcceptedNumbers(cfg, c, events), AcceptedPackets(cfg, c, events), packets, first)
    decreases |events|
  {
    if events != [] {
      var c' := Step(cfg, c, events[0]).0;
      StepMatches(cfg, c, events[0], frames, packets, first);
      RunMatches(cfg, c', events[1..], frames, packets, first);
      MatchingJoins(NumberBy(cfg, c, events[0]), AcceptedBy(cfg, c, events[0]), AcceptedNumbers(cfg, c', events[1..]),
                    AcceptedPackets(cfg, c', events[1..]), packets, first);
    }
  }

  /**
   From core to core: whatever order, loss and repetition the frames of one core
   meet, each packet put on the other's tunnel queue is the normalised packet
   submitted under that number, and within one replay scope none comes twice.
   */
  lemma FramesReachTheOtherTunnel(sender: Config, sent: seq<Event>, receiver: Config, before: seq<Event>, scope: seq<Event>)
    requires 1 + |sent| <= U64
    requires OffersOnly(scope, Queued(sender, NewCore(), sent))
    requires NoResets(receiver, Run(receiver, NewCore(), before).0, scope)
    ensures var c := Run(receiver, NewCore(), before).0;
            var numbers := AcceptedNumbers(receiver, c, scope);
            && Matching(numbers, AcceptedPackets(receiver, c, scope), SubmittedPackets(sender, NewCore(), sent), 1)
            && Distinct(numbers)
  {
    QueuedCarries(sender, NewCore(), sent);
    var c := Run(receiver, NewCore(), before).0;
    RunMatches(receiver, c, scope, Queued(sender, NewCore(), sent), SubmittedPackets(sender, NewCore(), sent), 1);
    AcceptedOncePerScope(receiver, before, scope);
  }
}
