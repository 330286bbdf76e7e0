/**
 The packet tunnel core: outbound packets become numbered transport frames,
 inbound frames become packets, each direction under its own session lease.
 */
module PacketCore {
  import opened Bytes
  import opened PacketIpv4
  import opened Replay

  // "QLPKT1"
  const FRAME_MAGIC: bytes := [0x51, 0x4C, 0x50, 0x4B, 0x54, 0x31]
  const FRAME_HEADER_LEN := 20

  datatype Direction = Outbound | Inbound

  datatype PeerSession = PeerSession(
    peerId: string,
    direction: Direction,
    generation: nat,
    transcriptBinding: bytes,
    expiresAt: nat,
    rekeyAfterBytes: nat)

  datatype TunnelPacket = TunnelPacket(family: nat, packet: bytes)

  datatype Disposition = QueuedForTransport | DroppedUnprotected | DroppedPeerSessionUnavailable

  datatype BlockReason = NotInstalled | Expired | RekeyRequired

  datatype PacketError =
    | OnlyIpv4Accepted
    | NotNormalizable(cause: Ipv4Error)
    | FamilyTooLarge
    | PacketTooLarge
    | SessionBlocked(reason: BlockReason)
    | FrameTooShort
    | BadFrameMagic
    | FrameLengthMismatch
    | ReplayedFrame

  datatype Metrics = Metrics(
    packetsFromTunnel: nat,
    packetsToTunnel: nat,
    framesOut: nat,
    framesIn: nat,
    droppedUnprotected: nat,
    droppedMalformed: nat,
    droppedSessionUnavailable: nat,
    droppedReplay: nat)

  /** The configuration: whether leases are required, and which destinations the route policy protects. */
  datatype Config = Config(requireSession: bool, protects: bytes -> bool)

  datatype Core = Core(
    outSession: Option<PeerSession>,
    outBytes: nat,
    nextPacketNumber: nat,
    transportOutbox: seq<bytes>,
    inSession: Option<PeerSession>,
    inBytes: nat,
    replay: Window,
    tunnelOutbox: seq<TunnelPacket>,
    metrics: Metrics)

  function NewCore(): (c: Core)
    ensures |c.replay.bitmap| == WINDOW
  {
    Core(None, 0, 1, [], None, 0, NewWindow(), [], Metrics(0, 0, 0, 0, 0, 0, 0, 0))
  }

  // ------------------------------------------------------------ transport frames

  function FrameWire(number: nat, family: nat, packet: bytes): bytes {
    FRAME_MAGIC + BigEndian(number, 8) + BigEndian(family, 2) + BigEndian(|packet|, 4) + packet
  }

  function EncodeFrame(number: nat, family: nat, packet: bytes): Result<bytes, PacketError> {
    if family >= U16 then Err(FamilyTooLarge)
    else if |packet| >= U32 then Err(PacketTooLarge)
    else Ok(FrameWire(number, family, packet))
  }

  datatype Decoded = Decoded(number: nat, family: nat, packet: bytes)

  function DecodeFrame(frame: bytes): Result<Decoded, PacketError> {
    if |frame| < FRAME_HEADER_LEN then Err(FrameTooShort)
    else if frame[..6] != FRAME_MAGIC then Err(BadFrameMagic)
    else if |frame| != FRAME_HEADER_LEN + FromBigEndian(frame[16..20]) then Err(FrameLengthMismatch)
    else Ok(Decoded(FromBigEndian(frame[6..14]), FromBigEndian(frame[14..16]), frame[20..]))
  }

  lemma FrameWireParts(number: nat, family: nat, packet: bytes)
    ensures var w := FrameWire(number, family, packet);
            && |w| == FRAME_HEADER_LEN + |packet|
            && w[..6] == FRAME_MAGIC && w[6..14] == BigEndian(number, 8) && w[14..16] == BigEndian(family, 2)
            && w[16..20] == BigEndian(|packet|, 4) && w[20..] == packet
  {
  }

  lemma FrameCut(frame: bytes)
    requires |frame| >= FRAME_HEADER_LEN
    ensures frame == frame[..6] + frame[6..14] + frame[14..16] + frame[16..20] + frame[20..]
  {
  }

  lemma FrameWireRead(frame: bytes, d: Decoded)
    requires DecodeFrame(frame) == Ok(d)
    ensures d.number < U64 && d.family < U16 && |d.packet| < U32 && frame == FrameWire(d.number, d.family, d.packet)
  {
    FieldsRead(frame[6..14]);
    FieldsRead(frame[14..16]);
    FieldsRead(frame[16..20]);
    FrameCut(frame);
  }

  /** Decoding accepts exactly what encoding writes. */
  lemma DecodeFrameExact(frame: bytes, d: Decoded)
    ensures DecodeFrame(frame) == Ok(d) <==>
            d.number < U64 && d.family < U16 && |d.packet| < U32 && frame == FrameWire(d.number, d.family, d.packet)
  {
    if d.number < U64 && d.family < U16 && |d.packet| < U32 && frame == FrameWire(d.number, d.family, d.packet) {
      FrameWireParts(d.number, d.family, d.packet);
      FieldsRoundTrip(d.number);
      FieldsRoundTrip(d.family);
      FieldsRoundTrip(|d.packet|);
    }
    if DecodeFrame(frame) == Ok(d) {
      FrameWireRead(frame, d);
    }
  }

  // ---------------------------------------------------------------------- leases

  function SaturatingAdd(a: nat, b: nat): nat {
    if a + b < U64 then a + b else U64 - 1
  }

  function BlockedBy(cfg: Config, session: Option<PeerSession>, used: nat, now: nat): Option<BlockReason> {
    if !cfg.requireSession then None
    else match session
      case None => Some(NotInstalled)
      case Some(s) =>
        if s.expiresAt <= now then Some(Expired)
        else if s.rekeyAfterBytes > 0 && used >= s.rekeyAfterBytes then Some(RekeyRequired)
        else None
  }

  /** Whether a lease takes the place of the current one; an equal one is already there. */
  predicate Replaces(current: Option<PeerSession>, s: PeerSession) {
    current.None? || (current.value != s && !(current.value.peerId == s.peerId && current.value.generation >= s.generation))
  }

  predicate Installed(current: Option<PeerSession>, s: PeerSession) {
    current == Some(s) || Replaces(current, s)
  }

  // ---------------------------------------------------------------------- events

  datatype Event =
    | Install(session: PeerSession)
    | ClearAll
    | ClearDirection(direction: Direction)
    | ClearOne(peerId: string, direction: Direction, generation: nat)
    | Submit(family: nat, packet: bytes, now: nat)
    | PopTransport
    | Accept(frame: bytes, now: nat)
    | PopTunnel

  datatype Output =
    | Nothing
    | Flag(done: bool)
    | Submitted(result: Result<Disposition, PacketError>)
    | FrameOut(frame: Option<bytes>)
    | AcceptedFrame(error: Option<PacketError>)
    | PacketOut(packet: Option<TunnelPacket>)

  function ClearOut(c: Core): Core {
    c.(outSession := None, outBytes := 0)
  }

  function ClearIn(c: Core): (c': Core)
    ensures |c'.replay.bitmap| == WINDOW
  {
    c.(inSession := None, inBytes := 0, replay := NewWindow())
  }

  function DoInstall(c: Core, s: PeerSession): (Core, Output) {
    match s.direction
    case Outbound =>
      (if Replaces(c.outSession, s) then c.(outSession := Some(s), outBytes := 0) else c, Flag(Installed(c.outSession, s)))
    case Inbound =>
      (if Replaces(c.inSession, s) then c.(inSession := Some(s), inBytes := 0, replay := NewWindow()) else c,
       Flag(Installed(c.inSession, s)))
  }

  predicate Matches(session: Option<PeerSession>, peerId: string, generation: nat) {
    session.Some? && session.value.peerId == peerId && session.value.generation == generation
  }

  function DoClearOne(c: Core, peerId: string, direction: Direction, generation: nat): (Core, Output) {
    match direction
    case Outbound =>
      var matches := Matches(c.outSession, peerId, generation);
      (if matches then ClearOut(c) else c, Flag(matches))
    case Inbound =>
      var matches := Matches(c.inSession, peerId, generation);
      (if matches then ClearIn(c) else c, Flag(matches))
  }

  /** What becomes of a submitted packet: refused before a frame is made, or the frame. */
  function FrameFor(cfg: Config, c: Core, family: nat, packet: bytes, now: nat): Result<bytes, Result<Disposition, PacketError>> {
    var destination := Destination(packet);
    if destination.None? then Err(Err(OnlyIpv4Accepted))
    else if !cfg.protects(destination.value) then Err(Ok(DroppedUnprotected))
    else if BlockedBy(cfg, c.outSession, c.outBytes, now).Some? then Err(Ok(DroppedPeerSessionUnavailable))
    else match Normalize(packet)
      case Err(e) => Err(Err(NotNormalizable(e)))
      case Ok(normalized) =>
        match EncodeFrame(c.nextPacketNumber, family, normalized)
        case Err(e) => Err(Err(e))
        case Ok(frame) => Ok(frame)
  }

  function CountRefusal(m: Metrics, outcome: Result<Disposition, PacketError>): Metrics {
    match outcome
    case Err(OnlyIpv4Accepted) => m.(droppedMalformed := m.droppedMalformed + 1)
    case Ok(DroppedUnprotected) => m.(droppedUnprotected := m.droppedUnprotected + 1)
    case Ok(DroppedPeerSessionUnavailable) => m.(droppedSessionUnavailable := m.droppedSessionUnavailable + 1)
    case _ => m
  }

  function DoSubmit(cfg: Config, c: Core, family: nat, packet: bytes, now: nat): (Core, Output) {
    var m := c.metrics.(packetsFromTunnel := c.metrics.packetsFromTunnel + 1);
    match FrameFor(cfg, c, family, packet, now)
    case Err(outcome) => (c.(metrics := CountRefusal(m, outcome)), Submitted(outcome))
    case Ok(frame) =>
      (c.(nextPacketNumber := c.nextPacketNumber + 1,
          outBytes := if cfg.requireSession then SaturatingAdd(c.outBytes, |frame|) else c.outBytes,
          transportOutbox := c.transportOutbox + [frame],
          metrics := m.(framesOut := m.framesOut + 1)),
       Submitted(Ok(QueuedForTransport)))
  }

  function DoAccept(cfg: Config, c: Core, frame: bytes, now: nat): (Core, Output)
    requires |c.replay.bitmap| == WINDOW
  {
    var m := c.metrics;
    var blocked := BlockedBy(cfg, c.inSession, c.inBytes, now);
    if blocked.Some? then
      (c.(metrics := m.(droppedSessionUnavailable := m.droppedSessionUnavailable + 1)), AcceptedFrame(Some(SessionBlocked(blocked.value))))
    else match DecodeFrame(frame)
      case Err(e) => (c.(metrics := m.(droppedMalformed := m.droppedMalformed + 1)), AcceptedFrame(Some(e)))
      case Ok(decoded) =>
        var (window, fresh_) := Observe(c.replay, decoded.number);
        if !fresh_ then
          (c.(replay := window, metrics := m.(droppedReplay := m.droppedReplay + 1)), AcceptedFrame(Some(ReplayedFrame)))
        else
          (c.(replay := window,
              inBytes := if cfg.requireSession then SaturatingAdd(c.inBytes, |frame|) else c.inBytes,
              tunnelOutbox := c.tunnelOutbox + [TunnelPacket(decoded.family, decoded.packet)],
              metrics := m.(framesIn := m.framesIn + 1, packetsToTunnel := m.packetsToTunnel + 1)),
           AcceptedFrame(None))
  }

  function Step(cfg: Config, c: Core, e: Event): (r: (Core, Output))
    requires |c.replay.bitmap| == WINDOW
    ensures |r.0.replay.bitmap| == WINDOW
  {
    match e
    case Install(s) => DoInstall(c, s)
    case ClearAll => (ClearIn(ClearOut(c)), Nothing)
    case ClearDirection(direction) => (if direction == Outbound then ClearOut(c) else ClearIn(c), Nothing)
    case ClearOne(peerId, direction, generation) => DoClearOne(c, peerId, direction, generation)
    case Submit(family, packet, now) => DoSubmit(cfg, c, family, packet, now)
    case PopTransport =>
      if c.transportOutbox == [] then (c, FrameOut(None))
      else (c.(transportOutbox := c.transportOutbox[1..]), FrameOut(Some(c.transportOutbox[0])))
    case Accept(frame, now) => DoAccept(cfg, c, frame, now)
    case PopTunnel =>
      if c.tunnelOutbox == [] then (c, PacketOut(None))
      else (c.(tunnelOutbox := c.tunnelOutbox[1..]), PacketOut(Some(c.tunnelOutbox[0])))
  }

  /** The core after a run of events, and what each event returned. */
  function Run(cfg: Config, c: Core, events: seq<Event>): (r: (Core, seq<Output>))
    requires |c.replay.bitmap| == WINDOW
    ensures |r.0.replay.bitmap| == WINDOW && |r.1| == |events|
    decreases |events|
  {
    if events == [] then (c, [])
    else
      var (c', output) := Step(cfg, c, events[0]);
      var (end, outputs) := Run(cfg, c', events[1..]);
      (end, [output] + outputs)
  }
}
