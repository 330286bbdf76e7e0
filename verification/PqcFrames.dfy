/**
 Frame protection after the handshake: a stream and a tag derived from the
 session key, the frame counter and the header, and a replay window on receipt.
 */
module PqcFrames {
  import opened Bytes
  import opened Replay

  // "QLPQC1"
  const FRAME_MAGIC: bytes := [0x51, 0x4C, 0x50, 0x51, 0x43, 0x31]
  const FRAME_VERSION: byte := 1
  const FRAME_HEADER_LEN := 19
  const FRAME_TAG_LEN := 32

  const STREAM_LABEL := Ascii("qlink.pqc_frame.stream.v1")
  const TAG_LABEL := Ascii("qlink.pqc_frame.tag.v1")

  datatype FrameError =
    | CounterExhausted
    | PayloadTooLarge
    | FrameTooShort
    | BadMagic
    | BadVersion
    | BadCounter
    | LengthMismatch
    | AuthenticationFailed
    | ReplayRejected

  /** The keys of one end, as the handshake leaves them. */
  datatype SessionKeys = SessionKeys(suite: string, handshakeHash: bytes, txKey: bytes, rxKey: bytes)

  datatype Protector = Protector(suite: string, txKey: bytes, rxKey: bytes, nextTxCounter: nat, rxWindow: Window)

  function NewProtector(keys: SessionKeys): Protector {
    Protector(keys.suite, keys.txKey, keys.rxKey, 1, NewWindow())
  }

  function FrameHeader(counter: nat, len: nat): (h: bytes)
    ensures |h| == FRAME_HEADER_LEN
  {
    FRAME_MAGIC + [FRAME_VERSION] + BigEndian(counter, 8) + BigEndian(len, 4)
  }

  function XorStream(xof: Xof, suite: string, key: bytes, counter: nat, header: bytes, input: bytes): (r: bytes)
    ensures |r| == |input|
  {
    XorAll(input, xof([STREAM_LABEL, Ascii(suite), key, BigEndian(counter, 8), header], |input|))
  }

  function FrameTag(xof: Xof, suite: string, key: bytes, counter: nat, header: bytes, ciphertext: bytes): (r: bytes)
    ensures |r| == FRAME_TAG_LEN
  {
    xof([TAG_LABEL, Ascii(suite), key, BigEndian(counter, 8), header, ciphertext], FRAME_TAG_LEN)
  }

  function FrameWire(xof: Xof, suite: string, key: bytes, counter: nat, frame: bytes): bytes {
    var header := FrameHeader(counter, |frame|);
    var ciphertext := XorStream(xof, suite, key, counter, header, frame);
    header + ciphertext + FrameTag(xof, suite, key, counter, header, ciphertext)
  }

  /** Protecting uses up a counter even when the frame turns out too large. */
  function Protect(xof: Xof, p: Protector, frame: bytes): (Protector, Result<bytes, FrameError>) {
    if p.nextTxCounter + 1 >= U64 then (p, Err(CounterExhausted))
    else
      (p.(nextTxCounter := p.nextTxCounter + 1),
       if |frame| >= U32 then Err(PayloadTooLarge) else Ok(FrameWire(xof, p.suite, p.txKey, p.nextTxCounter, frame)))
  }

  function ReadCounter(protected: bytes): nat
    requires |protected| >= FRAME_HEADER_LEN
  {
    FromBigEndian(protected[7..15])
  }

  /** The checks before the replay window: shape, version, counter, length, tag. */
  function FrameFault(xof: Xof, suite: string, key: bytes, protected: bytes): Option<FrameError> {
    if |protected| < FRAME_HEADER_LEN + FRAME_TAG_LEN then Some(FrameTooShort)
    else if protected[..6] != FRAME_MAGIC then Some(BadMagic)
    else if protected[6] != FRAME_VERSION then Some(BadVersion)
    else if ReadCounter(protected) == 0 then Some(BadCounter)
    else if |protected| != FRAME_HEADER_LEN + FromBigEndian(protected[15..19]) + FRAME_TAG_LEN then Some(LengthMismatch)
    else
      var end := |protected| - FRAME_TAG_LEN;
      if protected[end..] != FrameTag(xof, suite, key, ReadCounter(protected), protected[..19], protected[19..end])
      then Some(AuthenticationFailed) else None
  }

  function Open(xof: Xof, p: Protector, protected: bytes): (Protector, Result<bytes, FrameError>)
    requires |p.rxWindow.bitmap| == WINDOW
  {
    var fault := FrameFault(xof, p.suite, p.rxKey, protected);
    if fault.Some? then (p, Err(fault.value))
    else
      var counter := ReadCounter(protected);
      var (window, ok) := Observe(p.rxWindow, counter);
      var p' := p.(rxWindow := window);
      if !ok then (p', Err(ReplayRejected))
      else
        (p', Ok(XorStream(xof, p.suite, p.rxKey, counter, protected[..19], protected[19..|protected| - FRAME_TAG_LEN])))
  }

  // ----------------------------------------------------------------- one frame

  lemma FrameWireParts(xof: Xof, suite: string, key: bytes, counter: nat, frame: bytes)
    ensures var w := FrameWire(xof, suite, key, counter, frame);
            var header := FrameHeader(counter, |frame|);
            var ciphertext := XorStream(xof, suite, key, counter, header, frame);
            && |w| == FRAME_HEADER_LEN + |frame| + FRAME_TAG_LEN
            && w[..19] == header && w[19..|w| - FRAME_TAG_LEN] == ciphertext
            && w[|w| - FRAME_TAG_LEN..] == FrameTag(xof, suite, key, counter, header, ciphertext)
  {
  }

  lemma HeaderParts(counter: nat, len: nat, w: bytes)
    requires |w| >= FRAME_HEADER_LEN && w[..19] == FrameHeader(counter, len)
    ensures w[..6] == FRAME_MAGIC && w[6] == FRAME_VERSION
    ensures w[7..15] == BigEndian(counter, 8) && w[15..19] == BigEndian(len, 4)
  {
    var h := FrameHeader(counter, len);
    assert h[..6] == FRAME_MAGIC && h[7..15] == BigEndian(counter, 8) && h[15..19] == BigEndian(len, 4);
    assert w[..6] == w[..19][..6] && w[6] == w[..19][6] && w[7..15] == w[..19][7..15] && w[15..19] == w[..19][15..19];
  }

  /** A frame protected under a key passes every check under the same key and decrypts to itself. */
  lemma FrameOpens(xof: Xof, suite: string, key: bytes, counter: nat, frame: bytes)
    requires 0 < counter < U64 && |frame| < U32
    ensures var w := FrameWire(xof, suite, key, counter, frame);
            && FrameFault(xof, suite, key, w) == None
            && ReadCounter(w) == counter
            && XorStream(xof, suite, key, counter, w[..19], w[19..|w| - FRAME_TAG_LEN]) == frame
  {
    var w, header := FrameWire(xof, suite, key, counter, frame), FrameHeader(counter, |frame|);
    FrameWireParts(xof, suite, key, counter, frame);
    HeaderParts(counter, |frame|, w);
    FieldsRoundTrip(counter);
    FieldsRoundTrip(|frame|);
    XorAllUndo(frame, xof([STREAM_LABEL, Ascii(suite), key, BigEndian(counter, 8), header], |frame|));
  }

  // ------------------------------------------------------- what opens, exactly

  /** The frame has the right shape and its tag was made with this key, over exactly these bytes. */
  predicate Authentic(xof: Xof, suite: string, key: bytes, w: bytes) {
    && ShapedRight(w)
    && w[|w| - 32..] == xof([TAG_LABEL, Ascii(suite), key, w[7..15], w[..19], w[19..|w| - 32]], 32)
  }

  predicate ShapedRight(w: bytes) {
    && |w| >= 51 && w[..7] == FRAME_MAGIC + [1] && FromBigEndian(w[7..15]) > 0
    && |w| == 19 + FromBigEndian(w[15..19]) + 32
  }

  /** Byte by byte, the content is the ciphertext under the stream of this key, counter and header. */
  predicate Unmasks(xof: Xof, suite: string, key: bytes, w: bytes, content: bytes)
    requires |w| >= 51
  {
    var stream := xof([STREAM_LABEL, Ascii(suite), key, w[7..15], w[..19]], |w| - 51);
    |content| == |w| - 51 && forall i :: 0 <= i < |content| ==> content[i] == Xor(w[19 + i], stream[i])
  }

  lemma ShapeChecks(w: bytes)
    requires |w| >= 51
    ensures ShapedRight(w)
            <==> w[..6] == FRAME_MAGIC && w[6] == FRAME_VERSION && ReadCounter(w) != 0 && |w| == 51 + FromBigEndian(w[15..19])
  {
    assert w[..7] == w[..6] + [w[6]];
  }

  lemma TagBytes(xof: Xof, suite: string, key: bytes, w: bytes)
    requires |w| >= 51
    ensures FrameTag(xof, suite, key, ReadCounter(w), w[..19], w[19..|w| - 32])
            == xof([TAG_LABEL, Ascii(suite), key, w[7..15], w[..19], w[19..|w| - 32]], 32)
  {
    FieldsRead(w[7..15]);
  }

  /** The checks before the replay window pass exactly for authentic frames; a right shape with a wrong tag is told apart. */
  lemma FaultExact(xof: Xof, suite: string, key: bytes, w: bytes)
    ensures FrameFault(xof, suite, key, w) == None <==> Authentic(xof, suite, key, w)
    ensures FrameFault(xof, suite, key, w) == Some(AuthenticationFailed) <==> ShapedRight(w) && !Authentic(xof, suite, key, w)
  {
    if |w| >= 51 {
      ShapeChecks(w);
      TagBytes(xof, suite, key, w);
    }
  }

  /**
   For every byte string: opening succeeds exactly when the frame is authentic
   and its counter passes the window, and then yields its unmasked content. A
   frame that is not authentic leaves the receiver as it was.
   */
  lemma OpenExact(xof: Xof, p: Protector, w: bytes)
    requires |p.rxWindow.bitmap| == WINDOW
    ensures var (p', result) := Open(xof, p, w);
            var authentic := Authentic(xof, p.suite, p.rxKey, w);
            && (!authentic ==> p' == p && result.Err?)
            && (ShapedRight(w) && !authentic ==> result == Err(AuthenticationFailed))
            && (authentic ==>
                  var (window, ok) := Observe(p.rxWindow, FromBigEndian(w[7..15]));
                  && p' == p.(rxWindow := window)
                  && (if ok then result.Ok? && Unmasks(xof, p.suite, p.rxKey, w, result.value) else result == Err(ReplayRejected)))
  {
    FaultExact(xof, p.suite, p.rxKey, w);
    if |w| >= 51 {
      FieldsRead(w[7..15]);
    }
  }

  lemma UnmasksOnce(xof: Xof, suite: string, key: bytes, w: bytes, a: bytes, b: bytes)
    requires |w| >= 51 && Unmasks(xof, suite, key, w, a) && Unmasks(xof, suite, key, w, b)
    ensures a == b
  {
  }

  /** What protecting writes: the frame is authentic under its key, and its ciphertext is the frame under the stream. */
  lemma ProtectedIsAuthentic(xof: Xof, suite: string, key: bytes, counter: nat, frame: bytes)
    requires 0 < counter < U64 && |frame| < U32
    ensures var w := FrameWire(xof, suite, key, counter, frame);
            && Authentic(xof, suite, key, w) && FromBigEndian(w[7..15]) == counter
            && Unmasks(xof, suite, key, w, frame)
  {
    var w := FrameWire(xof, suite, key, counter, frame);
    FrameOpens(xof, suite, key, counter, frame);
    FaultExact(xof, suite, key, w);
    FieldsRead(w[7..15]);
    var stream := xof([STREAM_LABEL, Ascii(suite), key, w[7..15], w[..19]], |frame|);
    assert XorAll(w[19..|w| - 32], stream) == frame;
    forall i | 0 <= i < |frame|
      ensures frame[i] == Xor(w[19 + i], stream[i])
    {
      assert w[19..|w| - 32][i] == w[19 + i];
    }
  }

  // ------------------------------------------------------------- whole schedules

  /** A frame sent by one end: its counter, its content, and what went over the network. */
  datatype Sent = Sent(counter: nat, plain: bytes, wire: bytes)

  /** A frame that was opened, as it came, and the content that opening it gave. */
  datatype Opening = Opening(wire: bytes, content: bytes)

  /** Two ends, what each has sent, and what each has opened. */
  datatype Link = Link(a: Protector, b: Protector, fromA: seq<Sent>, fromB: seq<Sent>, openedByA: seq<Opening>, openedByB: seq<Opening>)

  /** The network delivers any frame of the other end, at any time and any number of times, and any other bytes. */
  datatype Event =
    | SendA(frame: bytes)
    | SendB(frame: bytes)
    | DeliverToA(index: nat)
    | DeliverToB(index: nat)
    | InjectToA(input: bytes)
    | InjectToB(input: bytes)

  function Send(xof: Xof, p: Protector, sent: seq<Sent>, frame: bytes): (Protector, seq<Sent>) {
    var (p', wire) := Protect(xof, p, frame);
    (p', if wire.Ok? then sent + [Sent(p.nextTxCounter, frame, wire.value)] else sent)
  }

  function Deliver(xof: Xof, p: Protector, openings: seq<Opening>, wire: bytes): (Protector, seq<Opening>)
    requires |p.rxWindow.bitmap| == WINDOW
  {
    var (p', result) := Open(xof, p, wire);
    (p', if result.Ok? then openings + [Opening(wire, result.value)] else openings)
  }

  predicate LinkShape(l: Link) {
    |l.a.rxWindow.bitmap| == WINDOW && |l.b.rxWindow.bitmap| == WINDOW
  }

  function DeliverA(xof: Xof, l: Link, wire: bytes): (l': Link)
    requires LinkShape(l)
    ensures LinkShape(l')
  {
    var (p, openings) := Deliver(xof, l.a, l.openedByA, wire);
    l.(a := p, openedByA := openings)
  }

  function DeliverB(xof: Xof, l: Link, wire: bytes): (l': Link)
    requires LinkShape(l)
    ensures LinkShape(l')
  {
    var (p, openings) := Deliver(xof, l.b, l.openedByB, wire);
    l.(b := p, openedByB := openings)
  }

  function Next(xof: Xof, l: Link, e: Event): (l': Link)
    requires LinkShape(l)
    ensures LinkShape(l')
  {
    match e
    case SendA(frame) => var (p, sent) := Send(xof, l.a, l.fromA, frame); l.(a := p, fromA := sent)
    case SendB(frame) => var (p, sent) := Send(xof, l.b, l.fromB, frame); l.(b := p, fromB := sent)
    case DeliverToA(index) => if index >= |l.fromB| then l else DeliverA(xof, l, l.fromB[index].wire)
    case DeliverToB(index) => if index >= |l.fromA| then l else DeliverB(xof, l, l.fromA[index].wire)
    case InjectToA(input) => DeliverA(xof, l, input)
    case InjectToB(input) => DeliverB(xof, l, input)
  }

  function Run(xof: Xof, a: SessionKeys, b: SessionKeys, events: seq<Event>): (l: Link)
    ensures LinkShape(l)
  {
    if events == [] then Link(NewProtector(a), NewProtector(b), [], [], [], [])
    else Next(xof, Run(xof, a, b, events[..|events| - 1]), events[|events| - 1])
  }

  /** Keys of two ends that fit together. */
  predicate Mirrored(a: SessionKeys, b: SessionKeys) {
    a.suite == b.suite && a.handshakeHash == b.handshakeHash && a.txKey == b.rxKey && a.rxKey == b.txKey
  }

  /** Counters start at 1 and strictly increase, so no two frames share a stream position. */
  predicate SentOk(xof: Xof, sender: Protector, sent: seq<Sent>) {
    && 0 < sender.nextTxCounter < U64
    && (forall i :: 0 <= i < |sent| ==>
          && 0 < sent[i].counter < sender.nextTxCounter && |sent[i].plain| < U32
          && sent[i].wire == FrameWire(xof, sender.suite, sender.txKey, sent[i].counter, sent[i].plain))
    && (forall i, j :: 0 <= i < j < |sent| ==> sent[i].counter < sent[j].counter)
  }

  /** An opened frame was authentic under the receiver's key, and its content is what that frame unmasks to. */
  predicate OpeningOk(xof: Xof, receiver: Protector, o: Opening) {
    Authentic(xof, receiver.suite, receiver.rxKey, o.wire) && Unmasks(xof, receiver.suite, receiver.rxKey, o.wire, o.content)
  }

  function CounterOf(o: Opening): nat {
    if |o.wire| >= 15 then FromBigEndian(o.wire[7..15]) else 0
  }

  /** The counters of the frames opened so far. */
  function OpenedCounters(openings: seq<Opening>): set<nat> {
    set i | 0 <= i < |openings| :: CounterOf(openings[i])
  }

  /** Only authentic frames were opened, no counter twice, and the receiver's window knows exactly those counters. */
  predicate OpenedOk(xof: Xof, receiver: Protector, openings: seq<Opening>) {
    && OpeningsOk(xof, receiver, openings)
    && Remembers(receiver.rxWindow, OpenedCounters(openings))
  }

  predicate DirectionOk(xof: Xof, sender: Protector, receiver: Protector, sent: seq<Sent>, openings: seq<Opening>) {
    && sender.suite == receiver.suite && sender.txKey == receiver.rxKey
    && SentOk(xof, sender, sent) && OpenedOk(xof, receiver, openings)
  }

  lemma OneMoreCounter(openings: seq<Opening>, last: Opening)
    ensures OpenedCounters(openings + [last]) == OpenedCounters(openings) + {CounterOf(last)}
  {
    var more := openings + [last];
    forall c ensures c in OpenedCounters(more) <==> c in OpenedCounters(openings) + {CounterOf(last)} {
      if c in OpenedCounters(openings) {
        var i :| 0 <= i < |openings| && CounterOf(openings[i]) == c;
        assert more[i] == openings[i];
      }
      if c == CounterOf(last) {
        assert more[|openings|] == last;
      }
    }
  }

  /** Whatever bytes arrive, the receiver's openings stay authentic, single and known to its window. */
  lemma DeliverKeepsOpened(xof: Xof, receiver: Protector, openings: seq<Opening>, wire: bytes)
    requires |receiver.rxWindow.bitmap| == WINDOW && OpenedOk(xof, receiver, openings)
    ensures var (receiver', openings') := Deliver(xof, receiver, openings, wire);
            OpenedOk(xof, receiver', openings') && receiver' == receiver.(rxWindow := receiver'.rxWindow)
  {
    OpenExact(xof, receiver, wire);
    if Authentic(xof, receiver.suite, receiver.rxKey, wire) {
      var counter := FromBigEndian(wire[7..15]);
      ObserveExact(receiver.rxWindow, OpenedCounters(openings), counter);
      var result := Open(xof, receiver, wire).1;
      if result.Ok? {
        OpenedOneMore(xof, receiver, openings, Opening(wire, result.value));
      }
    }
  }

  predicate OpeningsOk(xof: Xof, receiver: Protector, openings: seq<Opening>) {
    && (forall i :: 0 <= i < |openings| ==> OpeningOk(xof, receiver, openings[i]))
    && (forall i, j :: 0 <= i < j < |openings| ==> CounterOf(openings[i]) != CounterOf(openings[j]))
  }

  /** An opening with a new counter. */
  lemma OpenedOneMore(xof: Xof, receiver: Protector, openings: seq<Opening>, last: Opening)
    requires OpeningsOk(xof, receiver, openings) && OpeningOk(xof, receiver, last)
    requires CounterOf(last) !in OpenedCounters(openings)
    ensures OpeningsOk(xof, receiver, openings + [last])
    ensures OpenedCounters(openings + [last]) == OpenedCounters(openings) + {CounterOf(last)}
  {
    OneMoreCounter(openings, last);
    forall i | 0 <= i < |openings|
      ensures CounterOf(openings[i]) != CounterOf(last)
    {
      assert CounterOf(openings[i]) in OpenedCounters(openings);
    }
  }

  /**
   Delivering a frame the peer sent succeeds exactly when no frame of its
   counter was opened before and its counter is fewer than 128 below every
   opened one; a success yields the frame's own content.
   */
  lemma DeliveryExact(xof: Xof, sender: Protector, receiver: Protector, sent: seq<Sent>, openings: seq<Opening>, index: nat)
    requires |receiver.rxWindow.bitmap| == WINDOW && DirectionOk(xof, sender, receiver, sent, openings) && index < |sent|
    ensures var (receiver', result) := Open(xof, receiver, sent[index].wire);
            && (result.Ok? ==> result == Ok(sent[index].plain))
            && (result.Err? ==> result == Err(ReplayRejected))
            && (result.Ok? <==> forall i :: 0 <= i < |openings| ==>
                  CounterOf(openings[i]) != sent[index].counter && CounterOf(openings[i]) < sent[index].counter + WINDOW)
  {
    var counters, f := OpenedCounters(openings), sent[index];
    ProtectedIsAuthentic(xof, sender.suite, sender.txKey, f.counter, f.plain);
    OpenExact(xof, receiver, f.wire);
    ObserveExact(receiver.rxWindow, counters, f.counter);
    assert forall i :: 0 <= i < |openings| ==> CounterOf(openings[i]) in counters;
    var result := Open(xof, receiver, f.wire).1;
    if result.Ok? {
      UnmasksOnce(xof, receiver.suite, receiver.rxKey, f.wire, result.value, f.plain);
    }
  }

  lemma SendKeepsOk(xof: Xof, sender: Protector, sent: seq<Sent>, frame: bytes)
    requires SentOk(xof, sender, sent)
    ensures var (sender', sent') := Send(xof, sender, sent, frame);
            SentOk(xof, sender', sent') && sender' == sender.(nextTxCounter := sender'.nextTxCounter)
  {
  }

  predicate LinkOk(xof: Xof, l: Link) {
    DirectionOk(xof, l.a, l.b, l.fromA, l.openedByB) && DirectionOk(xof, l.b, l.a, l.fromB, l.openedByA)
  }

  lemma ReceiveKeepsOk(xof: Xof, l: Link, wire: bytes)
    requires LinkShape(l) && LinkOk(xof, l)
    ensures LinkOk(xof, DeliverA(xof, l, wire)) && LinkOk(xof, DeliverB(xof, l, wire))
  {
    DeliverKeepsOpened(xof, l.a, l.openedByA, wire);
    DeliverKeepsOpened(xof, l.b, l.openedByB, wire);
  }

  lemma NextKeepsOk(xof: Xof, l: Link, e: Event)
    requires LinkShape(l) && LinkOk(xof, l)
    ensures LinkOk(xof, Next(xof, l, e))
  {
    match e
    case SendA(frame) => SendKeepsOk(xof, l.a, l.fromA, frame);
    case SendB(frame) => SendKeepsOk(xof, l.b, l.fromB, frame);
    case DeliverToA(index) => if index < |l.fromB| { ReceiveKeepsOk(xof, l, l.fromB[index].wire); }
    case DeliverToB(index) => if index < |l.fromA| { ReceiveKeepsOk(xof, l, l.fromA[index].wire); }
    case InjectToA(input) => ReceiveKeepsOk(xof, l, input);
    case InjectToB(input) => ReceiveKeepsOk(xof, l, input);
  }

  /**
   Over every schedule between ends with mirrored keys, with any bytes injected
   by the network: every frame opened carries a tag made with the shared key over
   its own bytes, no counter is opened twice, counters strictly increase from 1,
   and each end's replay window holds exactly the counters it opened.
   */
  lemma {:induction false} LinkInvariant(xof: Xof, a: SessionKeys, b: SessionKeys, events: seq<Event>)
    requires Mirrored(a, b)
    ensures LinkOk(xof, Run(xof, a, b, events))
  {
    if events != [] {
      LinkInvariant(xof, a, b, events[..|events| - 1]);
      NextKeepsOk(xof, Run(xof, a, b, events[..|events| - 1]), events[|events| - 1]);
    }
  }

  // ------------------------------------------------------------ without forgery

  predicate WasSent(sent: seq<Sent>, wire: bytes) {
    exists j :: 0 <= j < |sent| && sent[j].wire == wire
  }

  /** Each opening is of a frame the peer sent, and gave its content. */
  predicate Genuine(sent: seq<Sent>, openings: seq<Opening>) {
    forall i :: 0 <= i < |openings| ==> OpeningGenuine(sent, openings[i])
  }

  predicate OpeningGenuine(sent: seq<Sent>, o: Opening) {
    exists j :: 0 <= j < |sent| && o == Opening(sent[j].wire, sent[j].plain)
  }

  /** The network injects no authentic frame that the peer did not send. */
  predicate Unforged(xof: Xof, a: SessionKeys, b: SessionKeys, events: seq<Event>) {
    forall i {:trigger events[i]} :: 0 <= i < |events| ==>
      var l := Run(xof, a, b, events[..i]);
      && (events[i].InjectToA? && Authentic(xof, l.a.suite, l.a.rxKey, events[i].input) ==> WasSent(l.fromB, events[i].input))
      && (events[i].InjectToB? && Authentic(xof, l.b.suite, l.b.rxKey, events[i].input) ==> WasSent(l.fromA, events[i].input))
  }

  lemma OneMoreGenuine(sent: seq<Sent>, openings: seq<Opening>, j: nat)
    requires Genuine(sent, openings) && j < |sent|
    ensures Genuine(sent, openings + [Opening(sent[j].wire, sent[j].plain)])
  {
    var last := Opening(sent[j].wire, sent[j].plain);
    assert OpeningGenuine(sent, last);
  }

  lemma DeliverGenuine(xof: Xof, sender: Protector, receiver: Protector, sent: seq<Sent>, openings: seq<Opening>, wire: bytes)
    requires |receiver.rxWindow.bitmap| == WINDOW && DirectionOk(xof, sender, receiver, sent, openings) && Genuine(sent, openings)
    requires Authentic(xof, receiver.suite, receiver.rxKey, wire) ==> WasSent(sent, wire)
    ensures Genuine(sent, Deliver(xof, receiver, openings, wire).1)
  {
    OpenExact(xof, receiver, wire);
    if Open(xof, receiver, wire).1.Ok? {
      var j :| 0 <= j < |sent| && sent[j].wire == wire;
      DeliveryExact(xof, sender, receiver, sent, openings, j);
      OneMoreGenuine(sent, openings, j);
    }
  }

  lemma SendGenuine(xof: Xof, sender: Protector, sent: seq<Sent>, openings: seq<Opening>, frame: bytes)
    requires Genuine(sent, openings)
    ensures Genuine(Send(xof, sender, sent, frame).1, openings)
  {
    var sent' := Send(xof, sender, sent, frame).1;
    forall i | 0 <= i < |openings|
      ensures OpeningGenuine(sent', openings[i])
    {
      assert OpeningGenuine(sent, openings[i]);
      var j :| 0 <= j < |sent| && openings[i] == Opening(sent[j].wire, sent[j].plain);
      assert sent'[j] == sent[j];
    }
  }

  lemma NextGenuine(xof: Xof, l: Link, e: Event)
    requires LinkShape(l) && LinkOk(xof, l) && Genuine(l.fromA, l.openedByB) && Genuine(l.fromB, l.openedByA)
    requires e.InjectToA? && Authentic(xof, l.a.suite, l.a.rxKey, e.input) ==> WasSent(l.fromB, e.input)
    requires e.InjectToB? && Authentic(xof, l.b.suite, l.b.rxKey, e.input) ==> WasSent(l.fromA, e.input)
    ensures var l' := Next(xof, l, e); Genuine(l'.fromA, l'.openedByB) && Genuine(l'.fromB, l'.openedByA)
  {
    match e
    case SendA(frame) => SendGenuine(xof, l.a, l.fromA, l.openedByB, frame);
    case SendB(frame) => SendGenuine(xof, l.b, l.fromB, l.openedByA, frame);
    case DeliverToA(index) =>
      if index < |l.fromB| {
        DeliverGenuine(xof, l.b, l.a, l.fromB, l.openedByA, l.fromB[index].wire);
      }
    case DeliverToB(index) =>
      if index < |l.fromA| {
        DeliverGenuine(xof, l.a, l.b, l.fromA, l.openedByB, l.fromA[index].wire);
      }
    case InjectToA(input) => DeliverGenuine(xof, l.b, l.a, l.fromB, l.openedByA, input);
    case InjectToB(input) => DeliverGenuine(xof, l.a, l.b, l.fromA, l.openedByB, input);
  }

  /**
   While nobody forges a tag, whatever else the network injects: each opened
   frame is one the peer sent, with its content, and none is opened twice.
   */
  lemma {:induction false} OnlySentFramesOpen(xof: Xof, a: SessionKeys, b: SessionKeys, events: seq<Event>)
    requires Mirrored(a, b) && Unforged(xof, a, b, events)
    ensures var l := Run(xof, a, b, events);
            && Genuine(l.fromA, l.openedByB) && Genuine(l.fromB, l.openedByA)
            && (forall i, j :: 0 <= i < j < |l.openedByB| ==> l.openedByB[i].wire != l.openedByB[j].wire)
            && (forall i, j :: 0 <= i < j < |l.openedByA| ==> l.openedByA[i].wire != l.openedByA[j].wire)
  {
    LinkInvariant(xof, a, b, events);
    if events != [] {
      var n := |events| - 1;
      UnforgedBefore(xof, a, b, events);
      OnlySentFramesOpen(xof, a, b, events[..n]);
      LinkInvariant(xof, a, b, events[..n]);
      assert events[n] == events[|events| - 1];
      NextGenuine(xof, Run(xof, a, b, events[..n]), events[n]);
    }
  }

  lemma UnforgedBefore(xof: Xof, a: SessionKeys, b: SessionKeys, events: seq<Event>)
    requires events != [] && Unforged(xof, a, b, events)
    ensures Unforged(xof, a, b, events[..|events| - 1])
  {
    var before := events[..|events| - 1];
    forall i | 0 <= i < |before|
      ensures before[i] == events[i] && before[..i] == events[..i]
    {
    }
  }

  // -------------------------------------------------------------- in good order

  /**
   What protecting gives: an authentic frame of the next counter that unmasks to
   the content, until the counters or the length field run out. A frame that is
   too long still uses up its counter.
   */
  lemma ProtectExact(xof: Xof, p: Protector, frame: bytes)
    requires 0 < p.nextTxCounter
    ensures var (p', result) := Protect(xof, p, frame);
            if p.nextTxCounter >= 0xFFFF_FFFF_FFFF_FFFF then p' == p && result == Err(CounterExhausted)
            else
              && p' == p.(nextTxCounter := p.nextTxCounter + 1)
              && (|frame| >= 0x1_0000_0000 ==> result == Err(PayloadTooLarge))
              && (|frame| < 0x1_0000_0000 ==>
                    && result.Ok? && Authentic(xof, p.suite, p.txKey, result.value)
                    && FromBigEndian(result.value[7..15]) == p.nextTxCounter
                    && Unmasks(xof, p.suite, p.txKey, result.value, frame))
  {
    if p.nextTxCounter + 1 < U64 && |frame| < U32 {
      ProtectedIsAuthentic(xof, p.suite, p.txKey, p.nextTxCounter, frame);
    }
  }

  /** Each frame is sent and then delivered. */
  function Exchange(frames: seq<bytes>): seq<Event> {
    if frames == [] then []
    else Exchange(frames[..|frames| - 1]) + [SendA(frames[|frames| - 1]), DeliverToB(|frames| - 1)]
  }

  /** The other end opened these contents in order, and every counter is used up to their number. */
  predicate OpenedInOrder(l: Link, frames: seq<bytes>) {
    && l.a.nextTxCounter == |frames| + 1 && |l.fromA| == |frames| && |l.openedByB| == |frames|
    && forall i :: 0 <= i < |frames| ==> l.openedByB[i].content == frames[i] && CounterOf(l.openedByB[i]) <= |frames|
  }

  lemma ExchangeOne(xof: Xof, l: Link, before: seq<bytes>, frame: bytes)
    requires LinkShape(l) && LinkOk(xof, l) && OpenedInOrder(l, before) && |before| + 2 < U64 && |frame| < U32
    ensures OpenedInOrder(Next(xof, Next(xof, l, SendA(frame)), DeliverToB(|before|)), before + [frame])
  {
    var n, sent := |before|, Next(xof, l, SendA(frame));
    ProtectExact(xof, l.a, frame);
    NextKeepsOk(xof, l, SendA(frame));
    assert sent.fromA[n].counter == n + 1 && sent.fromA[n].plain == frame && sent.openedByB == l.openedByB;
    DeliveryExact(xof, sent.a, sent.b, sent.fromA, sent.openedByB, n);
  }

  /** On an undisturbed line every frame opens, in order, to what was sent. */
  lemma {:induction false} OrderedLineOpens(xof: Xof, a: SessionKeys, b: SessionKeys, frames: seq<bytes>)
    requires Mirrored(a, b) && |frames| + 1 < U64 && forall i :: 0 <= i < |frames| ==> |frames[i]| < U32
    ensures OpenedInOrder(Run(xof, a, b, Exchange(frames)), frames)
  {
    if frames != [] {
      var n, before := |frames| - 1, frames[..|frames| - 1];
      OrderedLineOpens(xof, a, b, before);
      LinkInvariant(xof, a, b, Exchange(before));
      ExchangeOne(xof, Run(xof, a, b, Exchange(before)), before, frames[n]);
      RunTwoMore(xof, a, b, Exchange(before), SendA(frames[n]), DeliverToB(n));
      assert before + [frames[n]] == frames;
    }
  }

  lemma RunTwoMore(xof: Xof, a: SessionKeys, b: SessionKeys, events: seq<Event>, first: Event, second: Event)
    ensures Run(xof, a, b, events + [first, second]) == Next(xof, Next(xof, Run(xof, a, b, events), first), second)
  {
    var all := events + [first, second];
    assert all[..|all| - 1] == events + [first] && (events + [first])[..|events|] == events;
  }

  // ----------------------------------------------------- the protector object

  class PqcFrameProtector {
    const xof: Xof
    const suite: string
    const txKey: bytes
    const rxKey: bytes
    var nextTxCounter: nat
    var rxWindow: Window

    ghost function Model(): Protector
      reads this
    {
      Protector(suite, txKey, rxKey, nextTxCounter, rxWindow)
    }

    constructor (xof: Xof, keys: SessionKeys)
      ensures this.xof == xof && Model() == NewProtector(keys)
    {
      this.xof, suite, txKey, rxKey := xof, keys.suite, keys.txKey, keys.rxKey;
      nextTxCounter, rxWindow := 1, NewWindow();
    }

    method ProtectFrame(frame: bytes) returns (result: Result<bytes, FrameError>)
      modifies this`nextTxCounter
      ensures (Model(), result) == Protect(xof, old(Model()), frame)
    {
      var counter := nextTxCounter;
      if counter + 1 >= U64 {
        return Err(CounterExhausted);
      }
      nextTxCounter := counter + 1;
      if |frame| >= U32 {
        return Err(PayloadTooLarge);
      }
      var header := FRAME_MAGIC + [FRAME_VERSION] + BigEndian(counter, 8) + BigEndian(|frame|, 4);
      var ciphertext := XorStream(xof, suite, txKey, counter, header, frame);
      var tag := FrameTag(xof, suite, txKey, counter, header, ciphertext);
      result := Ok(header + ciphertext + tag);
    }

    method OpenFrame(protected: bytes) returns (result: Result<bytes, FrameError>)
      requires |rxWindow.bitmap| == WINDOW
      modifies this`rxWindow
      ensures (Model(), result) == Open(xof, old(Model()), protected)
    {
      if |protected| < FRAME_HEADER_LEN + FRAME_TAG_LEN {
        return Err(FrameTooShort);
      }
      if protected[..6] != FRAME_MAGIC {
        return Err(BadMagic);
      }
      if protected[6] != FRAME_VERSION {
        return Err(BadVersion);
      }
      var counter := FromBigEndian(protected[7..15]);
      if counter == 0 {
        return Err(BadCounter);
      }
      var end := FRAME_HEADER_LEN + FromBigEndian(protected[15..19]);
      if |protected| != end + FRAME_TAG_LEN {
        return Err(LengthMismatch);
      }
      var header, ciphertext, tag := protected[..19], protected[19..end], protected[end..];
      var authentic := ConstantTimeEq(tag, FrameTag(xof, suite, rxKey, counter, header, ciphertext));
      if !authentic {
        return Err(AuthenticationFailed);
      }
      var (window, ok) := Observe(rxWindow, counter);
      rxWindow := window;
      if !ok {
        return Err(ReplayRejected);
      }
      result := Ok(XorStream(xof, suite, rxKey, counter, header, ciphertext));
    }
  }
}
