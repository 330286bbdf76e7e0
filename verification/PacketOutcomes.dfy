/**
 Which packets the tunnel core queues, drops or refuses, and which frames it
 accepts, told from the bytes, the route policy, the leases and the clock alone.
 */
module PacketOutcomes {
  import opened Bytes
  import opened PacketCore
  import opened PacketProperties
  import opened Replay
  import PacketIpv4

  /** A lease that lets traffic through: held, not expired, and within its byte budget when it has one. */
  predicate Lets(cfg: Config, session: Option<PeerSession>, used: nat, now: nat) {
    cfg.requireSession ==>
      session.Some? && now < session.value.expiresAt && (session.value.rekeyAfterBytes == 0 || used < session.value.rekeyAfterBytes)
  }

  predicate IsIpv4(packet: bytes) {
    |packet| >= 20 && 0x40 <= packet[0] < 0x50
  }

  predicate HeaderFits(packet: bytes)
    requires IsIpv4(packet)
  {
    20 <= (packet[0] - 0x40) as int * 4 <= |packet|
  }

  /** To a destination the policy protects; the destination stands in bytes 16 to 19. */
  predicate Protected(cfg: Config, packet: bytes) {
    IsIpv4(packet) && cfg.protects(packet[16..20])
  }

  lemma BlockedExactly(cfg: Config, session: Option<PeerSession>, used: nat, now: nat)
    ensures BlockedBy(cfg, session, used, now).None? <==> Lets(cfg, session, used, now)
    ensures BlockedBy(cfg, session, used, now) == Some(NotInstalled) <==> cfg.requireSession && session.None?
    ensures BlockedBy(cfg, session, used, now) == Some(Expired)
            <==> cfg.requireSession && session.Some? && session.value.expiresAt <= now
  {
  }

  /** Every outcome of a submit, exactly. */
  lemma SubmitExactly(cfg: Config, c: Core, family: nat, packet: bytes, now: nat)
    requires |c.replay.bitmap| == WINDOW
    ensures var result := Step(cfg, c, Submit(family, packet, now)).1.result;
            var passes := Protected(cfg, packet) && Lets(cfg, c.outSession, c.outBytes, now);
            && (result == Ok(QueuedForTransport) <==> passes && HeaderFits(packet) && family < U16 && |packet| < U32)
            && (result == Ok(DroppedUnprotected) <==> IsIpv4(packet) && !cfg.protects(packet[16..20]))
            && (result == Ok(DroppedPeerSessionUnavailable)
                <==> Protected(cfg, packet) && !Lets(cfg, c.outSession, c.outBytes, now))
            && (result == Err(OnlyIpv4Accepted) <==> !IsIpv4(packet))
            && (result == Err(NotNormalizable(PacketIpv4.BadHeaderLength)) <==> passes && !HeaderFits(packet))
            && (result == Err(FamilyTooLarge) <==> passes && HeaderFits(packet) && family >= U16)
            && (result == Err(PacketTooLarge) <==> passes && HeaderFits(packet) && family < U16 && |packet| >= U32)
  {
    BlockedExactly(cfg, c.outSession, c.outBytes, now);
    PacketIpv4.NormalizeRefuses(packet);
  }

  /** What a submit changes: one counter, and when it queues, the queue, the number and the charge. */
  lemma SubmitChanges(cfg: Config, c: Core, family: nat, packet: bytes, now: nat)
    requires |c.replay.bitmap| == WINDOW
    ensures var (c', output) := Step(cfg, c, Submit(family, packet, now));
            var m, m' := c.metrics, c'.metrics;
            && m'.packetsFromTunnel == m.packetsFromTunnel + 1
            && m'.framesOut == m.framesOut + (if output.result == Ok(QueuedForTransport) then 1 else 0)
            && m'.droppedMalformed == m.droppedMalformed + (if output.result == Err(OnlyIpv4Accepted) then 1 else 0)
            && m'.droppedUnprotected == m.droppedUnprotected + (if output.result == Ok(DroppedUnprotected) then 1 else 0)
            && m'.droppedSessionUnavailable
               == m.droppedSessionUnavailable + (if output.result == Ok(DroppedPeerSessionUnavailable) then 1 else 0)
            && m'.droppedReplay == m.droppedReplay && m'.framesIn == m.framesIn && m'.packetsToTunnel == m.packetsToTunnel
            && (if output.result == Ok(QueuedForTransport)
                then PacketIpv4.Normalize(packet).Ok?
                     && var frame := FrameWire(c.nextPacketNumber, family, PacketIpv4.Normalize(packet).value);
                        c' == c.(metrics := m', nextPacketNumber := c.nextPacketNumber + 1,
                                 transportOutbox := c.transportOutbox + [frame],
                                 outBytes := if !cfg.requireSession then c.outBytes
                                             else if c.outBytes + |frame| < U64 then c.outBytes + |frame| else U64 - 1)
                else c' == c.(metrics := m'))
  {
  }

  /**
   Over any run, each frame queued comes from a submit to a protected
   destination, made while the lease in force let it through.
   */
  lemma {:induction false} QueuedWasProtected(cfg: Config, c: Core, events: seq<Event>, k: nat) returns (i: nat)
    requires |c.replay.bitmap| == WINDOW && k < |Queued(cfg, c, events)|
    ensures i < |events| && events[i].Submit? && Protected(cfg, events[i].packet)
    ensures var at := Run(cfg, c, events[..i]).0;
            && Lets(cfg, at.outSession, at.outBytes, events[i].now)
            && QueuedBy(cfg, at, events[i]) == [Queued(cfg, c, events)[k]]
    decreases |events|
  {
    var first := QueuedBy(cfg, c, events[0]);
    if k < |first| {
      i := 0;
      SubmitExactly(cfg, c, events[0].family, events[0].packet, events[0].now);
      assert Run(cfg, c, events[..0]).0 == c;
    } else {
      var c' := Step(cfg, c, events[0]).0;
      var j := QueuedWasProtected(cfg, c', events[1..], k - |first|);
      i := j + 1;
      RunOneMore(cfg, c, events, j);
    }
  }

  lemma RunOneMore(cfg: Config, c: Core, events: seq<Event>, j: nat)
    requires |c.replay.bitmap| == WINDOW && j < |events|
    ensures Run(cfg, c, events[..j + 1]).0 == Run(cfg, Step(cfg, c, events[0]).0, events[1..][..j]).0
  {
    assert events[..j + 1][1..] == events[1..][..j];
  }

  /** A frame as the wire format asks: magic, lengths, and nothing behind the packet. */
  predicate FrameShaped(frame: bytes) {
    |frame| >= 20 && frame[..6] == FRAME_MAGIC && |frame| == 20 + FromBigEndian(frame[16..20])
  }

  /** Every outcome of accepting a frame, exactly, where `seen` are the numbers accepted in the replay scope. */
  lemma AcceptExactly(cfg: Config, c: Core, frame: bytes, now: nat, seen: set<nat>)
    requires Remembers(c.replay, seen)
    ensures var error := Step(cfg, c, Accept(frame, now)).1.error;
            var lets, shaped := Lets(cfg, c.inSession, c.inBytes, now), FrameShaped(frame);
            && (error == None <==> lets && shaped && Fresh(seen, FromBigEndian(frame[6..14])))
            && (error == Some(ReplayedFrame) <==> lets && shaped && !Fresh(seen, FromBigEndian(frame[6..14])))
            && (error.Some? && error.value.SessionBlocked? <==> !lets)
            && (error == Some(FrameTooShort) <==> lets && |frame| < 20)
            && (error == Some(BadFrameMagic) <==> lets && |frame| >= 20 && frame[..6] != FRAME_MAGIC)
            && (error == Some(FrameLengthMismatch) <==> lets && |frame| >= 20 && frame[..6] == FRAME_MAGIC && !shaped)
  {
    BlockedExactly(cfg, c.inSession, c.inBytes, now);
    if |frame| >= 14 {
      ObserveExact(c.replay, seen, FromBigEndian(frame[6..14]));
    }
  }

  /** What accepting changes: one counter each way, and for an accepted frame the tunnel queue and the charge. */
  lemma AcceptChanges(cfg: Config, c: Core, frame: bytes, now: nat)
    requires |c.replay.bitmap| == WINDOW
    ensures var (c', output) := Step(cfg, c, Accept(frame, now));
            var m, m', error := c.metrics, c'.metrics, output.error;
            && m' == m.(framesIn := m.framesIn + (if error.None? then 1 else 0),
                        packetsToTunnel := m.packetsToTunnel + (if error.None? then 1 else 0),
                        droppedReplay := m.droppedReplay + (if error == Some(ReplayedFrame) then 1 else 0),
                        droppedSessionUnavailable :=
                          m.droppedSessionUnavailable + (if error.Some? && error.value.SessionBlocked? then 1 else 0),
                        droppedMalformed := m.droppedMalformed
                          + (if error in {Some(FrameTooShort), Some(BadFrameMagic), Some(FrameLengthMismatch)} then 1 else 0))
            && (if error.None?
                then |frame| >= 20
                     && c' == c.(metrics := m', replay := c'.replay,
                                 tunnelOutbox := c.tunnelOutbox + [TunnelPacket(FromBigEndian(frame[14..16]), frame[20..])],
                                 inBytes := if !cfg.requireSession then c.inBytes
                                            else if c.inBytes + |frame| < U64 then c.inBytes + |frame| else U64 - 1)
                else c' == c.(metrics := m', replay := c'.replay))
            && (error != None && error != Some(ReplayedFrame) ==> c'.replay == c.replay)
  {
  }

  /** Over any run, each packet put on the tunnel queue came in a well-shaped frame while the lease in force let it through. */
  lemma {:induction false} AcceptedWasLetThrough(cfg: Config, c: Core, events: seq<Event>, k: nat) returns (i: nat)
    requires |c.replay.bitmap| == WINDOW && k < |AcceptedPackets(cfg, c, events)|
    ensures i < |events| && events[i].Accept? && FrameShaped(events[i].frame)
    ensures AcceptedPackets(cfg, c, events)[k] == TunnelPacket(FromBigEndian(events[i].frame[14..16]), events[i].frame[20..])
    ensures var at := Run(cfg, c, events[..i]).0;
            Lets(cfg, at.inSession, at.inBytes, events[i].now) && AcceptedBy(cfg, at, events[i]) == [AcceptedPackets(cfg, c, events)[k]]
    decreases |events|
  {
    var first := AcceptedBy(cfg, c, events[0]);
    if k < |first| {
      i := 0;
      BlockedExactly(cfg, c.inSession, c.inBytes, events[0].now);
      assert Run(cfg, c, events[..0]).0 == c;
    } else {
      var c' := Step(cfg, c, events[0]).0;
      var j := AcceptedWasLetThrough(cfg, c', events[1..], k - |first|);
      i := j + 1;
      RunOneMore(cfg, c, events, j);
    }
  }

  // ------------------------------------------------------------------- leases

  function Slot(c: Core, d: Direction): (Option<PeerSession>, nat) {
    if d == Outbound then (c.outSession, c.outBytes) else (c.inSession, c.inBytes)
  }

  /** A core with the slot of a direction set; setting the inbound one starts a new replay scope. */
  predicate SlotSet(c: Core, c': Core, d: Direction, session: Option<PeerSession>) {
    if d == Outbound then c' == c.(outSession := session, outBytes := 0)
    else c' == c.(inSession := session, inBytes := 0, replay := c'.replay) && Remembers(c'.replay, {})
  }

  /**
   Installing is refused exactly for an older or equal generation of the peer
   already there; installing the very lease that is there changes nothing; any
   other takes the slot, starting its budget afresh.
   */
  lemma InstallExactly(cfg: Config, c: Core, s: PeerSession)
    requires |c.replay.bitmap| == WINDOW
    ensures var (c', output) := Step(cfg, c, Install(s));
            var held := Slot(c, s.direction).0;
            && (output == Flag(false)
                <==> held.Some? && held.value != s && held.value.peerId == s.peerId && s.generation <= held.value.generation)
            && (output != Flag(false) ==> output == Flag(true))
            && (if held == Some(s) || output == Flag(false) then c' == c else SlotSet(c, c', s.direction, Some(s)))
  {
  }

  /** Clearing by peer and generation acts exactly when both match; by direction or altogether, always. */
  lemma ClearExactly(cfg: Config, c: Core, peerId: string, d: Direction, generation: nat)
    requires |c.replay.bitmap| == WINDOW
    ensures var (c', output) := Step(cfg, c, ClearOne(peerId, d, generation));
            var held := Slot(c, d).0;
            && (output == Flag(true) <==> held.Some? && held.value.peerId == peerId && held.value.generation == generation)
            && (output != Flag(true) ==> output == Flag(false) && c' == c)
            && (output == Flag(true) ==> SlotSet(c, c', d, None))
    ensures SlotSet(c, Step(cfg, c, ClearDirection(d)).0, d, None)
    ensures var c' := Step(cfg, c, ClearAll).0;
            && c' == c.(outSession := None, outBytes := 0, inSession := None, inBytes := 0, replay := c'.replay)
            && Remembers(c'.replay, {})
  {
  }
}
