/**
 The native UDP carrier's wire formats: datagrams of at most 1,200 bytes, and
 the fragment header that splits a larger message over several of them.
 */
module CarrierCodec {
  import opened Bytes

  // "QLCAR1"
  const CARRIER_MAGIC: bytes := [0x51, 0x4C, 0x43, 0x41, 0x52, 0x31]
  const CARRIER_VERSION: byte := 1
  const CARRIER_HEADER_LEN := 12
  const MAX_UDP_DATAGRAM_LEN := 1200
  const MAX_CARRIER_PAYLOAD_LEN := MAX_UDP_DATAGRAM_LEN - CARRIER_HEADER_LEN
  const FRAGMENT_HEADER_LEN := 16
  const MAX_FRAGMENT_PAYLOAD_LEN := MAX_CARRIER_PAYLOAD_LEN - FRAGMENT_HEADER_LEN
  const MAX_REASSEMBLED_MESSAGE_LEN := 1024 * 1024

  datatype MessageKind = Frame | AuthenticatedMessage

  datatype DatagramKind = FrameDatagram | AuthenticatedDatagram | Close | FrameFragment | AuthenticatedFragment

  datatype CarrierError =
    | PayloadTooLarge
    | MessageTooLarge
    | TooManyFragments
    | DatagramTooShort
    | BadMagic
    | BadVersion
    | BadKind
    | DatagramLengthMismatch
    | DatagramExceedsLimit
    | FragmentTooShort
    | ZeroFragmentCount
    | FragmentationNotRequired
    | FragmentedMessageTooLarge
    | FragmentCountMismatch
    | FragmentIndexOutOfRange
    | FragmentPayloadTooLarge
    | FragmentPayloadLengthMismatch
    | TotalLengthChanged
    | FragmentCountChanged
    | FragmentsExceedDeclaredLength
    | ReassembledLengthMismatch
    | TooManyInFlight
    | MessageExceedsLimit
    | PendingQueueFull
    | CarrierClosed
    | SendFailed

  datatype Datagram = Datagram(kind: DatagramKind, payload: bytes)

  datatype Fragment = Fragment(messageId: nat, totalLen: nat, index: nat, count: nat, payload: bytes)

  function CompleteDatagramKind(kind: MessageKind): DatagramKind {
    match kind
    case Frame => FrameDatagram
    case AuthenticatedMessage => AuthenticatedDatagram
  }

  function FragmentDatagramKind(kind: MessageKind): DatagramKind {
    match kind
    case Frame => FrameFragment
    case AuthenticatedMessage => AuthenticatedFragment
  }

  function MessageKindOf(kind: DatagramKind): Option<MessageKind> {
    match kind
    case FrameDatagram => Some(Frame)
    case FrameFragment => Some(Frame)
    case AuthenticatedDatagram => Some(AuthenticatedMessage)
    case AuthenticatedFragment => Some(AuthenticatedMessage)
    case Close => None
  }

  function WireValue(kind: DatagramKind): byte {
    match kind
    case FrameDatagram => 1
    case AuthenticatedDatagram => 2
    case Close => 3
    case FrameFragment => 4
    case AuthenticatedFragment => 5
  }

  function KindFromWire(value: byte): Result<DatagramKind, CarrierError> {
    match value
    case 1 => Ok(FrameDatagram)
    case 2 => Ok(AuthenticatedDatagram)
    case 3 => Ok(Close)
    case 4 => Ok(FrameFragment)
    case 5 => Ok(AuthenticatedFragment)
    case _ => Err(BadKind)
  }

  // ---------------------------------------------------------------- datagrams

  function DatagramWire(d: Datagram): bytes {
    CARRIER_MAGIC + [CARRIER_VERSION, WireValue(d.kind)] + BigEndian(|d.payload|, 4) + d.payload
  }

  function EncodeDatagram(d: Datagram): Result<bytes, CarrierError> {
    if |d.payload| >= U32 || |d.payload| > MAX_CARRIER_PAYLOAD_LEN then Err(PayloadTooLarge)
    else Ok(DatagramWire(d))
  }

  function DecodeDatagram(input: bytes): Result<Datagram, CarrierError> {
    if |input| < CARRIER_HEADER_LEN then Err(DatagramTooShort)
    else if input[..6] != CARRIER_MAGIC then Err(BadMagic)
    else if input[6] != CARRIER_VERSION then Err(BadVersion)
    else match KindFromWire(input[7])
      case Err(e) => Err(e)
      case Ok(kind) =>
        if |input| != CARRIER_HEADER_LEN + FromBigEndian(input[8..12]) then Err(DatagramLengthMismatch)
        else Ok(Datagram(kind, input[12..]))
  }

  lemma DatagramWireParts(d: Datagram)
    ensures var w := DatagramWire(d);
            && |w| == CARRIER_HEADER_LEN + |d.payload|
            && w[..6] == CARRIER_MAGIC && w[6] == CARRIER_VERSION && w[7] == WireValue(d.kind)
            && w[8..12] == BigEndian(|d.payload|, 4) && w[12..] == d.payload
  {
  }

  /**
   Decoding accepts exactly the byte strings that encoding writes, and gives
   back the datagram they were written from.
   */
  lemma DecodeDatagramExact(input: bytes, d: Datagram)
    ensures DecodeDatagram(input) == Ok(d) <==> |d.payload| < U32 && input == DatagramWire(d)
  {
    DatagramWireParts(d);
    if |d.payload| < U32 && input == DatagramWire(d) {
      FieldsRoundTrip(|d.payload|);
    }
    if DecodeDatagram(input) == Ok(d) {
      FieldsRead(input[8..12]);
      assert input == input[..6] + [input[6], input[7]] + input[8..12] + input[12..];
    }
  }

  /** Whatever `EncodeDatagram` accepts fits one UDP datagram and decodes to the same datagram. */
  lemma EncodedDatagramFits(d: Datagram)
    ensures EncodeDatagram(d).Ok? <==> |d.payload| <= MAX_CARRIER_PAYLOAD_LEN
    ensures EncodeDatagram(d).Ok? ==>
      |EncodeDatagram(d).value| <= MAX_UDP_DATAGRAM_LEN && DecodeDatagram(EncodeDatagram(d).value) == Ok(d)
  {
    DatagramWireParts(d);
    if |d.payload| <= MAX_CARRIER_PAYLOAD_LEN {
      DecodeDatagramExact(DatagramWire(d), d);
    }
  }

  /** The kind byte of every readable datagram. */
  lemma KindByte(input: bytes)
    requires DecodeDatagram(input).Ok?
    ensures |input| >= 12 && input[7] == match DecodeDatagram(input).value.kind
                                         case FrameDatagram => 1
                                         case AuthenticatedDatagram => 2
                                         case Close => 3
                                         case FrameFragment => 4
                                         case AuthenticatedFragment => 5
  {
  }

  /** Why an unreadable datagram is refused, in the order the fields stand. */
  lemma DatagramRefusals(input: bytes)
    ensures DecodeDatagram(input) == Err(DatagramTooShort) <==> |input| < 12
    ensures DecodeDatagram(input) == Err(BadMagic) <==> |input| >= 12 && input[..6] != CARRIER_MAGIC
    ensures DecodeDatagram(input) == Err(BadVersion) <==> |input| >= 12 && input[..6] == CARRIER_MAGIC && input[6] != 1
    ensures DecodeDatagram(input) == Err(BadKind)
            <==> |input| >= 12 && input[..6] == CARRIER_MAGIC && input[6] == 1 && !(1 <= input[7] <= 5)
    ensures DecodeDatagram(input) == Err(DatagramLengthMismatch)
            <==> |input| >= 12 && input[..6] == CARRIER_MAGIC && input[6] == 1 && 1 <= input[7] <= 5
                 && |input| != 12 + FromBigEndian(input[8..12])
  {
  }

  // ---------------------------------------------------------------- fragments

  function DivCeil(n: nat, d: nat): nat
    requires d > 0
  {
    if n % d == 0 then n / d else n / d + 1
  }

  function Min(a: nat, b: nat): nat {
    if a <= b then a else b
  }

  /** How many fragments a message of `totalLen` bytes is cut into. */
  function ChunkCount(totalLen: nat): nat {
    DivCeil(totalLen, MAX_FRAGMENT_PAYLOAD_LEN)
  }

  /** The length of the fragment at position `index`, by position alone. */
  function ChunkLen(totalLen: nat, index: nat): nat {
    Min(totalLen, MAX_FRAGMENT_PAYLOAD_LEN * (index + 1)) - Min(totalLen, MAX_FRAGMENT_PAYLOAD_LEN * index)
  }

  function ShapeError(totalLen: nat, index: nat, count: nat, payloadLen: nat): Option<CarrierError> {
    if totalLen <= MAX_CARRIER_PAYLOAD_LEN then Some(FragmentationNotRequired)
    else if totalLen > MAX_REASSEMBLED_MESSAGE_LEN then Some(FragmentedMessageTooLarge)
    else if count != ChunkCount(totalLen) then Some(FragmentCountMismatch)
    else if index >= count then Some(FragmentIndexOutOfRange)
    else
      var expected := if index + 1 == count
                      then totalLen - MAX_FRAGMENT_PAYLOAD_LEN * index
                      else MAX_FRAGMENT_PAYLOAD_LEN;
      if payloadLen != expected then Some(FragmentPayloadLengthMismatch) else None
  }

  /** What a fragment of a message of `totalLen` bytes must look like, stated by position. */
  predicate WellShaped(totalLen: nat, index: nat, count: nat, payloadLen: nat) {
    && MAX_CARRIER_PAYLOAD_LEN < totalLen <= MAX_REASSEMBLED_MESSAGE_LEN
    && count == ChunkCount(totalLen)
    && index < count
    && payloadLen == ChunkLen(totalLen, index)
  }

  lemma ChunkCountBounds(totalLen: nat)
    ensures MAX_FRAGMENT_PAYLOAD_LEN * ChunkCount(totalLen) >= totalLen
    ensures totalLen > 0 ==> MAX_FRAGMENT_PAYLOAD_LEN * (ChunkCount(totalLen) - 1) < totalLen
    ensures totalLen <= MAX_REASSEMBLED_MESSAGE_LEN ==> ChunkCount(totalLen) <= 895
  {
  }

  /**
   The shape check accepts a fragment exactly when its payload fills its own
   position: the accepted positions tile the message without gap or overlap.
   */
  lemma ShapeCheckExact(totalLen: nat, index: nat, count: nat, payloadLen: nat)
    ensures ShapeError(totalLen, index, count, payloadLen) == None <==> WellShaped(totalLen, index, count, payloadLen)
    ensures WellShaped(totalLen, index, count, payloadLen) ==> 0 < payloadLen <= MAX_FRAGMENT_PAYLOAD_LEN
  {
    ChunkCountBounds(totalLen);
  }

  function FragmentWire(f: Fragment): bytes {
    BigEndian(f.messageId, 8) + BigEndian(f.totalLen, 4) + BigEndian(f.index, 2) + BigEndian(f.count, 2) + f.payload
  }

  function EncodeFragment(f: Fragment): Result<bytes, CarrierError> {
    if f.count == 0 then Err(ZeroFragmentCount)
    else match ShapeError(f.totalLen, f.index, f.count, |f.payload|)
      case Some(e) => Err(e)
      case None =>
        if f.index >= f.count then Err(FragmentIndexOutOfRange)
        else if |f.payload| > MAX_FRAGMENT_PAYLOAD_LEN then Err(FragmentPayloadTooLarge)
        else Ok(FragmentWire(f))
  }

  function DecodeFragment(input: bytes): Result<Fragment, CarrierError> {
    if |input| < FRAGMENT_HEADER_LEN then Err(FragmentTooShort)
    else if FromBigEndian(input[14..16]) == 0 then Err(ZeroFragmentCount)
    else Ok(Fragment(FromBigEndian(input[..8]), FromBigEndian(input[8..12]),
                     FromBigEndian(input[12..14]), FromBigEndian(input[14..16]), input[16..]))
  }

  /** The integer fields of a fragment fit their widths on the wire. */
  predicate FieldsFit(f: Fragment) {
    f.messageId < U64 && f.totalLen < U32 && f.index < U16 && f.count < U16
  }

  lemma FragmentWireParts(f: Fragment)
    ensures var w := FragmentWire(f);
            && |w| == FRAGMENT_HEADER_LEN + |f.payload|
            && w[..8] == BigEndian(f.messageId, 8) && w[8..12] == BigEndian(f.totalLen, 4)
            && w[12..14] == BigEndian(f.index, 2) && w[14..16] == BigEndian(f.count, 2)
            && w[16..] == f.payload
  {
  }

  lemma FragmentCut(input: bytes)
    requires |input| >= FRAGMENT_HEADER_LEN
    ensures input == input[..8] + input[8..12] + input[12..14] + input[14..16] + input[16..]
  {
  }

  lemma FragmentWireRead(input: bytes, f: Fragment)
    requires DecodeFragment(input) == Ok(f)
    ensures FieldsFit(f) && 0 < f.count && input == FragmentWire(f)
  {
    FieldsRead(input[..8]);
    FieldsRead(input[8..12]);
    FieldsRead(input[12..14]);
    FieldsRead(input[14..16]);
    FragmentCut(input);
  }

  /** Fragment decoding accepts exactly what fragment encoding writes. */
  lemma DecodeFragmentExact(input: bytes, f: Fragment)
    ensures DecodeFragment(input) == Ok(f) <==> FieldsFit(f) && 0 < f.count && input == FragmentWire(f)
  {
    if FieldsFit(f) && 0 < f.count && input == FragmentWire(f) {
      FragmentWireParts(f);
      FieldsRoundTrip(f.messageId);
      FieldsRoundTrip(f.totalLen);
      FieldsRoundTrip(f.index);
      FieldsRoundTrip(f.count);
    }
    if DecodeFragment(input) == Ok(f) {
      FragmentWireRead(input, f);
    }
  }

  // ------------------------------------------------------------------ sending

  /** The bytes of `payload` at fragment position `index`. */
  function Chunk(payload: bytes, index: nat): (c: bytes)
    ensures |c| == ChunkLen(|payload|, index)
  {
    payload[Min(|payload|, MAX_FRAGMENT_PAYLOAD_LEN * index)..Min(|payload|, MAX_FRAGMENT_PAYLOAD_LEN * (index + 1))]
  }

  function FragmentOf(messageId: nat, payload: bytes, index: nat): Fragment {
    Fragment(messageId, |payload|, index, ChunkCount(|payload|), Chunk(payload, index))
  }

  /** The datagram, before encoding, that carries fragment `index` of a message. */
  function FragmentDatagram(kind: MessageKind, messageId: nat, payload: bytes, index: nat): Datagram {
    Datagram(FragmentDatagramKind(kind), FragmentWire(FragmentOf(messageId, payload, index)))
  }

  predicate NeedsFragments(payload: bytes) {
    MAX_CARRIER_PAYLOAD_LEN < |payload| <= MAX_REASSEMBLED_MESSAGE_LEN
  }

  /**
   Every fragment of an admissible message passes the shape check, fits one UDP
   datagram, and decodes back to itself.
   */
  lemma FragmentsAreValid(kind: MessageKind, messageId: nat, payload: bytes, index: nat)
    requires NeedsFragments(payload) && messageId < U64 && index < ChunkCount(|payload|)
    ensures var f := FragmentOf(messageId, payload, index);
            var d := FragmentDatagram(kind, messageId, payload, index);
            && WellShaped(f.totalLen, f.index, f.count, |f.payload|)
            && EncodeFragment(f) == Ok(d.payload)
            && DecodeFragment(d.payload) == Ok(f)
            && EncodeDatagram(d) == Ok(DatagramWire(d))
            && |DatagramWire(d)| <= MAX_UDP_DATAGRAM_LEN
            && DecodeDatagram(DatagramWire(d)) == Ok(d)
  {
    var f := FragmentOf(messageId, payload, index);
    var d := FragmentDatagram(kind, messageId, payload, index);
    ChunkCountBounds(|payload|);
    ShapeCheckExact(f.totalLen, f.index, f.count, |f.payload|);
    FragmentWireParts(f);
    DecodeFragmentExact(d.payload, f);
    EncodedDatagramFits(d);
  }
}
