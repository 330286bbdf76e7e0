/** The packet tunnel core as an object whose methods update it in place. */
module PacketTunnel {
  import opened Bytes
  import opened PacketIpv4
  import opened PacketCore
  import opened PacketProperties
  import opened Replay
  import H = Handshake

  class PacketTunnelCore {
    const config: Config
    var outboundSession: Option<PeerSession>
    var inboundSession: Option<PeerSession>
    var outboundBytes: nat
    var inboundBytes: nat
    var replayWindow: Window
    var nextPacketNumber: nat
    var transportOutbox: seq<bytes>
    var tunnelOutbox: seq<TunnelPacket>
    var metrics: Metrics

    ghost function Model(): Core
      reads this
    {
      Core(outboundSession, outboundBytes, nextPacketNumber, transportOutbox,
           inboundSession, inboundBytes, replayWindow, tunnelOutbox, metrics)
    }

    ghost predicate Valid()
      reads this
    {
      |replayWindow.bitmap| == WINDOW
    }

    constructor (config: Config)
      ensures Valid() && this.config == config && Model() == NewCore()
    {
      this.config := config;
      outboundSession, inboundSession, outboundBytes, inboundBytes := None, None, 0, 0;
      replayWindow, nextPacketNumber := NewWindow(), 1;
      transportOutbox, tunnelOutbox, metrics := [], [], Metrics(0, 0, 0, 0, 0, 0, 0, 0);
    }

    method InstallPeerSession(session: PeerSession) returns (done: bool)
      requires Valid()
      modifies this`outboundSession, this`outboundBytes, this`inboundSession, this`inboundBytes, this`replayWindow
      ensures Valid() && (Model(), Flag(done)) == Step(config, old(Model()), Install(session))
    {
      var slot := if session.direction == Outbound then outboundSession else inboundSession;
      if slot.Some? {
        if slot.value == session {
          return true;
        }
        if slot.value.peerId == session.peerId && slot.value.generation >= session.generation {
          return false;
        }
      }
      match session.direction {
        case Outbound =>
          outboundSession, outboundBytes := Some(session), 0;
        case Inbound =>
          inboundSession, inboundBytes := Some(session), 0;
          replayWindow := NewWindow();
      }
      done := true;
    }

    method ClearPeerSessions()
      requires Valid()
      modifies this`outboundSession, this`outboundBytes, this`inboundSession, this`inboundBytes, this`replayWindow
      ensures Valid() && Model() == Step(config, old(Model()), ClearAll).0
    {
      outboundSession, inboundSession := None, None;
      outboundBytes, inboundBytes := 0, 0;
      replayWindow := NewWindow();
    }

    method ClearPeerSessionDirection(direction: Direction)
      requires Valid()
      modifies this`outboundSession, this`outboundBytes, this`inboundSession, this`inboundBytes, this`replayWindow
      ensures Valid() && Model() == Step(config, old(Model()), ClearDirection(direction)).0
    {
      match direction {
        case Outbound =>
          outboundSession, outboundBytes := None, 0;
        case Inbound =>
          inboundSession, inboundBytes := None, 0;
          replayWindow := NewWindow();
      }
    }

    method ClearPeerSession(peerId: string, direction: Direction, generation: nat) returns (done: bool)
      requires Valid()
      modifies this`outboundSession, this`outboundBytes, this`inboundSession, this`inboundBytes, this`replayWindow
      ensures Valid() && (Model(), Flag(done)) == Step(config, old(Model()), ClearOne(peerId, direction, generation))
    {
      var slot := if direction == Outbound then outboundSession else inboundSession;
      done := Matches(slot, peerId, generation);
      if done {
        ClearPeerSessionDirection(direction);
      }
    }

    method SubmitTunnelPacket(family: nat, packet: bytes, now: nat) returns (result: Result<Disposition, PacketError>)
      requires Valid()
      modifies this`metrics, this`nextPacketNumber, this`outboundBytes, this`transportOutbox
      ensures Valid() && (Model(), Submitted(result)) == Step(config, old(Model()), Submit(family, packet, now))
    {
      metrics := metrics.(packetsFromTunnel := metrics.packetsFromTunnel + 1);
      var destination := Destination(packet);
      if destination.None? {
        metrics := metrics.(droppedMalformed := metrics.droppedMalformed + 1);
        return Err(OnlyIpv4Accepted);
      }
      if !config.protects(destination.value) {
        metrics := metrics.(droppedUnprotected := metrics.droppedUnprotected + 1);
        return Ok(DroppedUnprotected);
      }
      if BlockedBy(config, outboundSession, outboundBytes, now).Some? {
        metrics := metrics.(droppedSessionUnavailable := metrics.droppedSessionUnavailable + 1);
        return Ok(DroppedPeerSessionUnavailable);
      }
      var normalized := NormalizeCopy(packet);
      if normalized.Err? {
        return Err(NotNormalizable(normalized.error));
      }
      var frame := EncodeFrame(nextPacketNumber, family, normalized.value);
      if frame.Err? {
        return Err(frame.error);
      }
      QueueFrame(frame.value);
      result := Ok(QueuedForTransport);
    }

    /** Charges, counts and queues a frame, and moves to the next number. */
    method QueueFrame(frame: bytes)
      modifies this`metrics, this`nextPacketNumber, this`outboundBytes, this`transportOutbox
      ensures nextPacketNumber == old(nextPacketNumber) + 1 && transportOutbox == old(transportOutbox) + [frame]
      ensures outboundBytes == if config.requireSession then SaturatingAdd(old(outboundBytes), |frame|) else old(outboundBytes)
      ensures metrics == old(metrics).(framesOut := old(metrics).framesOut + 1)
    {
      nextPacketNumber := nextPacketNumber + 1;
      if config.requireSession {
        outboundBytes := SaturatingAdd(outboundBytes, |frame|);
      }
      metrics := metrics.(framesOut := metrics.framesOut + 1);
      transportOutbox := transportOutbox + [frame];
    }

    method PopTransportFrame() returns (frame: Option<bytes>)
      requires Valid()
      modifies this`transportOutbox
      ensures Valid() && (Model(), FrameOut(frame)) == Step(config, old(Model()), PopTransport)
    {
      frame := None;
      if transportOutbox != [] {
        frame, transportOutbox := Some(transportOutbox[0]), transportOutbox[1..];
      }
    }

    method AcceptTransportFrame(frame: bytes, now: nat) returns (error: Option<PacketError>)
      requires Valid()
      modifies this`metrics, this`replayWindow, this`inboundBytes, this`tunnelOutbox
      ensures Valid() && (Model(), AcceptedFrame(error)) == Step(config, old(Model()), Accept(frame, now))
    {
      var blocked := BlockedBy(config, inboundSession, inboundBytes, now);
      if blocked.Some? {
        metrics := metrics.(droppedSessionUnavailable := metrics.droppedSessionUnavailable + 1);
        return Some(SessionBlocked(blocked.value));
      }
      var decoded := DecodeFrame(frame);
      if decoded.Err? {
        metrics := metrics.(droppedMalformed := metrics.droppedMalformed + 1);
        return Some(decoded.error);
      }
      var (window, accepted) := Observe(replayWindow, decoded.value.number);
      replayWindow := window;
      if !accepted {
        metrics := metrics.(droppedReplay := metrics.droppedReplay + 1);
        return Some(ReplayedFrame);
      }
      metrics := metrics.(framesIn := metrics.framesIn + 1, packetsToTunnel := metrics.packetsToTunnel + 1);
      if config.requireSession {
        inboundBytes := SaturatingAdd(inboundBytes, |frame|);
      }
      tunnelOutbox := tunnelOutbox + [TunnelPacket(decoded.value.family, decoded.value.packet)];
      error := None;
    }

    method PopTunnelPacket() returns (packet: Option<TunnelPacket>)
      requires Valid()
      modifies this`tunnelOutbox
      ensures Valid() && (Model(), PacketOut(packet)) == Step(config, old(Model()), PopTunnel)
    {
      packet := None;
      if tunnelOutbox != [] {
        packet, tunnelOutbox := Some(tunnelOutbox[0]), tunnelOutbox[1..];
      }
    }
  }

  /** One event on the object. */
  method Apply(core: PacketTunnelCore, e: Event) returns (output: Output)
    requires core.Valid()
    modifies core
    ensures core.Valid() && (core.Model(), output) == Step(core.config, old(core.Model()), e)
  {
    match e {
      case Install(session) =>
        var done := core.InstallPeerSession(session);
        output := Flag(done);
      case ClearAll =>
        core.ClearPeerSessions();
        output := Nothing;
      case ClearDirection(direction) =>
        core.ClearPeerSessionDirection(direction);
        output := Nothing;
      case ClearOne(peerId, direction, generation) =>
        var done := core.ClearPeerSession(peerId, direction, generation);
        output := Flag(done);
      case Submit(family, packet, now) =>
        var result := core.SubmitTunnelPacket(family, packet, now);
        output := Submitted(result);
      case PopTransport =>
        var frame := core.PopTransportFrame();
        output := FrameOut(frame);
      case Accept(frame, now) =>
        var error := core.AcceptTransportFrame(frame, now);
        output := AcceptedFrame(error);
      case PopTunnel =>
        var packet := core.PopTunnelPacket();
        output := PacketOut(packet);
    }
  }

  lemma RunSplits(cfg: Config, c: Core, e: Event, rest: seq<Event>)
    requires |c.replay.bitmap| == WINDOW
    ensures var (c', output) := Step(cfg, c, e);
            var (end, outputs) := Run(cfg, c', rest);
            Run(cfg, c, [e] + rest) == (end, [output] + outputs)
  {
    assert ([e] + rest)[1..] == rest;
  }

  /** Any list of calls on the object does what the run of those events does, so the theorems about runs hold of it. */
  method Drive(core: PacketTunnelCore, events: seq<Event>) returns (outputs: seq<Output>)
    requires core.Valid()
    modifies core
    ensures core.Valid() && (core.Model(), outputs) == Run(core.config, old(core.Model()), events)
  {
    ghost var whole := Run(core.config, core.Model(), events);
    outputs := [];
    assert events[0..] == events && [] + whole.1 == whole.1;
    for i := 0 to |events|
      invariant core.Valid()
      invariant var (end, rest) := Run(core.config, core.Model(), events[i..]); (end, outputs + rest) == whole
    {
      ghost var rest := events[i + 1..];
      assert events[i..] == [events[i]] + rest;
      RunSplits(core.config, core.Model(), events[i], rest);
      var output := Apply(core, events[i]);
      Regroup(outputs, [output], Run(core.config, core.Model(), rest).1);
      outputs := outputs + [output];
    }
    assert events[|events|..] == [] && outputs + [] == outputs;
  }

  /** A core driven from the start: what it numbered, counted, popped and still holds agrees. */
  method DriveNew(config: Config, events: seq<Event>) returns (core: PacketTunnelCore, outputs: seq<Output>)
    ensures fresh(core) && core.Valid() && core.config == config
    ensures (core.Model(), outputs) == Run(config, NewCore(), events)
    ensures core.nextPacketNumber - 1 == core.metrics.framesOut == |PoppedFrames(outputs)| + |core.transportOutbox|
    ensures core.metrics.framesIn == core.metrics.packetsToTunnel == |PoppedPackets(outputs)| + |core.tunnelOutbox|
  {
    core := new PacketTunnelCore(config);
    outputs := Drive(core, events);
    CountersAgree(config, events);
  }

  /** The settings a core is opened with; the route policy is missing when a route cannot be read. */
  datatype Settings = Settings(mtu: nat, policy: Option<bytes -> bool>, suite: Option<string>, requireSession: bool)

  datatype StartError = MtuTooSmall | BadRoute | UnsupportedSuite

  const MIN_MTU := 576

  function StartFault(settings: Settings): Option<StartError> {
    if settings.mtu < MIN_MTU then Some(MtuTooSmall)
    else if settings.policy.None? then Some(BadRoute)
    else if !H.KnownSuite(if settings.suite.Some? then settings.suite.value else H.SUITE_FIPS203) then Some(UnsupportedSuite)
    else None
  }

  /** Opens a core, or refuses the settings. */
  method Open(settings: Settings) returns (core: PacketTunnelCore?, error: Option<StartError>)
    ensures error == StartFault(settings) && (core == null <==> error.Some?)
    ensures core != null ==>
      fresh(core) && core.Valid() && core.Model() == NewCore()
      && core.config == Config(settings.requireSession, settings.policy.value)
  {
    core, error := null, None;
    if settings.mtu < MIN_MTU {
      error := Some(MtuTooSmall);
      return;
    }
    if settings.policy.None? {
      error := Some(BadRoute);
      return;
    }
    var suite := H.SUITE_FIPS203;
    if settings.suite.Some? {
      suite := settings.suite.value;
    }
    if !H.KnownSuite(suite) {
      error := Some(UnsupportedSuite);
      return;
    }
    core := new PacketTunnelCore(Config(settings.requireSession, settings.policy.value));
  }
}
