/**
 STUN messages as the ICE checks use them: the header of section 6 and the
 attributes of section 15 of RFC 5389, with the project's own keyed tag as the
 MESSAGE-INTEGRITY value.
 */
module StunCodec {
  import opened Bytes

  const HEADER_LEN := 20
  const TRANSACTION_ID_LEN := 12
  const MAGIC_COOKIE := 0x2112_A442
  const FINGERPRINT_XOR := 0x5354_554E
  const MESSAGE_INTEGRITY_LEN := 20
  const FINGERPRINT_LEN := 4

  const ATTR_USERNAME := 0x0006
  const ATTR_MESSAGE_INTEGRITY := 0x0008
  const ATTR_ERROR_CODE := 0x0009
  const ATTR_XOR_MAPPED_ADDRESS := 0x0020
  const ATTR_PRIORITY := 0x0024
  const ATTR_USE_CANDIDATE := 0x0025
  const ATTR_FINGERPRINT := 0x8028
  const ATTR_ICE_CONTROLLED := 0x8029
  const ATTR_ICE_CONTROLLING := 0x802A

  type u16 = x: int | 0 <= x < U16
  type u32 = x: int | 0 <= x < U32
  type u64 = x: int | 0 <= x < U64
  type Digest = d: bytes | |d| == MESSAGE_INTEGRITY_LEN witness seq(MESSAGE_INTEGRITY_LEN, _ => 0)
  type TransactionId = t: bytes | |t| == TRANSACTION_ID_LEN witness seq(TRANSACTION_ID_LEN, _ => 0)
  type Octets16 = o: bytes | |o| == 16 witness seq(16, _ => 0)

  /**
   The primitives of other libraries: the keyed tag over a buffer and a
   password, the CRC-32 checksum, and UTF-8 validity. A string is the sequence
   of its UTF-8 bytes.
   */
  datatype Primitives = Primitives(integrity: (bytes, bytes) -> Digest, crc: bytes -> u32, isUtf8: bytes -> bool)

  datatype StunClass = Request | Indication | SuccessResponse | ErrorResponse

  datatype SocketAddr =
    | V4(ip: u32, port: u16)
    | V6(octets: Octets16, port: u16, flowInfo: u32, scopeId: u32)

  datatype StunAttribute =
    | Username(name: bytes)
    | MessageIntegrity(digest: Digest)
    | Fingerprint(crc: u32)
    | Priority(value32: u32)
    | IceControlling(tiebreaker: u64)
    | IceControlled(tiebreaker: u64)
    | UseCandidate
    | XorMappedAddress(addr: SocketAddr)
    | ErrorCode(code: u16, reason: bytes)
    | Unknown(typeCode: u16, value: bytes)

  datatype StunMessage = StunMessage(class_: StunClass, transactionId: TransactionId, attributes: seq<StunAttribute>)

  datatype StunError =
    | MessageTooShort
    | UnsupportedMessageType
    | BodyTruncated
    | BadMagicCookie
    | TruncatedAttributeHeader
    | TruncatedAttributeValue
    | UsernameNotUtf8
    | BadIntegrityLength
    | BadFingerprintLength
    | BadPriorityLength
    | UseCandidateNotEmpty
    | BadTiebreakerLength
    | BadMappedAddressHeader
    | TruncatedMappedAddress
    | UnsupportedAddressFamily
    | ErrorCodeTooShort
    | ReasonNotUtf8
    | FingerprintMismatch
    | MissingIntegrity
    | IntegrityMismatch

  function MessageType(c: StunClass): u16 {
    match c
    case Request => 0x0001
    case Indication => 0x0011
    case SuccessResponse => 0x0101
    case ErrorResponse => 0x0111
  }

  function ClassFromMessageType(value: nat): Result<StunClass, StunError> {
    if value == 0x0001 then Ok(Request)
    else if value == 0x0011 then Ok(Indication)
    else if value == 0x0101 then Ok(SuccessResponse)
    else if value == 0x0111 then Ok(ErrorResponse)
    else Err(UnsupportedMessageType)
  }

  predicate KnownType(typeCode: nat) {
    typeCode in {ATTR_USERNAME, ATTR_MESSAGE_INTEGRITY, ATTR_ERROR_CODE, ATTR_XOR_MAPPED_ADDRESS, ATTR_PRIORITY,
                 ATTR_USE_CANDIDATE, ATTR_FINGERPRINT, ATTR_ICE_CONTROLLED, ATTR_ICE_CONTROLLING}
  }

  // ---------------------------------------------------------- attribute values

  function PaddingLen(valueLen: nat): nat {
    (4 - valueLen % 4) % 4
  }

  function Zeros(n: nat): bytes {
    seq(n, _ => 0)
  }

  function PortXor(port: u16): u16 {
    Pow2Values();
    XorBits(port, MAGIC_COOKIE / U16, 16)
  }

  function AddressXor(ip: u32): u32 {
    Pow2Values();
    XorBits(ip, MAGIC_COOKIE, 32)
  }

  function Mask(tid: TransactionId): Octets16 {
    BigEndian(MAGIC_COOKIE, 4) + tid
  }

  function EncodeAddress(addr: SocketAddr, tid: TransactionId): bytes {
    match addr
    case V4(ip, port) => [0, 1] + BigEndian(PortXor(port), 2) + BigEndian(AddressXor(ip), 4)
    case V6(octets, port, _, _) => [0, 2] + BigEndian(PortXor(port), 2) + XorAll(octets, Mask(tid))
  }

  function ParseAddress(value: bytes, tid: TransactionId): Result<SocketAddr, StunError> {
    if |value| < 4 || value[0] != 0 then Err(BadMappedAddressHeader)
    else
      FieldsRead(value[2..4]);
      var port := PortXor(FromBigEndian(value[2..4]));
      if value[1] == 1 then
        if |value| < 8 then Err(TruncatedMappedAddress)
        else
          FieldsRead(value[4..8]);
          Ok(V4(AddressXor(FromBigEndian(value[4..8])), port))
      else if value[1] == 2 then
        if |value| < 20 then Err(TruncatedMappedAddress)
        else Ok(V6(XorAll(value[4..20], Mask(tid)), port, 0, 0))
      else Err(UnsupportedAddressFamily)
  }

  function TypeCode(a: StunAttribute): u16 {
    match a
    case Username(_) => ATTR_USERNAME
    case MessageIntegrity(_) => ATTR_MESSAGE_INTEGRITY
    case Fingerprint(_) => ATTR_FINGERPRINT
    case Priority(_) => ATTR_PRIORITY
    case IceControlling(_) => ATTR_ICE_CONTROLLING
    case IceControlled(_) => ATTR_ICE_CONTROLLED
    case UseCandidate => ATTR_USE_CANDIDATE
    case XorMappedAddress(_) => ATTR_XOR_MAPPED_ADDRESS
    case ErrorCode(_, _) => ATTR_ERROR_CODE
    case Unknown(typeCode, _) => typeCode
  }

  function Value(a: StunAttribute, tid: TransactionId): bytes {
    match a
    case Username(name) => name
    case MessageIntegrity(digest) => digest
    case Fingerprint(crc) => BigEndian(crc, 4)
    case Priority(v) => BigEndian(v, 4)
    case IceControlling(v) => BigEndian(v, 8)
    case IceControlled(v) => BigEndian(v, 8)
    case UseCandidate => []
    case XorMappedAddress(addr) => EncodeAddress(addr, tid)
    case ErrorCode(code, reason) => [0, 0, code / 100 % 256 % 8, code % 100] + reason
    case Unknown(_, value) => value
  }

  function PushAttribute(typeCode: u16, value: bytes): bytes {
    BigEndian(typeCode, 2) + BigEndian(|value|, 2) + value + Zeros(PaddingLen(|value|))
  }

  function ReadTiebreaker(value: bytes): u64
    requires |value| == 8
  {
    FieldsRead(value);
    FromBigEndian(value)
  }

  function ReadU32(value: bytes): u32
    requires |value| == 4
  {
    FieldsRead(value);
    FromBigEndian(value)
  }

  function ReadErrorCode(hundreds: int, units: int): u16
    requires 0 <= hundreds < 256 && 0 <= units < 256
  {
    hundreds % 8 * 100 + units
  }

  function DecodeValue(p: Primitives, typeCode: u16, value: bytes, tid: TransactionId): Result<StunAttribute, StunError> {
    if typeCode == ATTR_USERNAME then
      if p.isUtf8(value) then Ok(Username(value)) else Err(UsernameNotUtf8)
    else if typeCode == ATTR_MESSAGE_INTEGRITY then
      if |value| == MESSAGE_INTEGRITY_LEN then Ok(MessageIntegrity(value)) else Err(BadIntegrityLength)
    else if typeCode == ATTR_FINGERPRINT then
      if |value| == FINGERPRINT_LEN then Ok(Fingerprint(ReadU32(value))) else Err(BadFingerprintLength)
    else if typeCode == ATTR_PRIORITY then
      if |value| == 4 then Ok(Priority(ReadU32(value))) else Err(BadPriorityLength)
    else if typeCode == ATTR_USE_CANDIDATE then
      if |value| == 0 then Ok(UseCandidate) else Err(UseCandidateNotEmpty)
    else if typeCode == ATTR_ICE_CONTROLLING || typeCode == ATTR_ICE_CONTROLLED then
      if |value| != 8 then Err(BadTiebreakerLength)
      else if typeCode == ATTR_ICE_CONTROLLING then Ok(IceControlling(ReadTiebreaker(value)))
      else Ok(IceControlled(ReadTiebreaker(value)))
    else if typeCode == ATTR_XOR_MAPPED_ADDRESS then
      match ParseAddress(value, tid)
      case Ok(addr) => Ok(XorMappedAddress(addr))
      case Err(e) => Err(e)
    else if typeCode == ATTR_ERROR_CODE then
      if |value| < 4 then Err(ErrorCodeTooShort)
      else if p.isUtf8(value[4..]) then Ok(ErrorCode(ReadErrorCode(value[2], value[3]), value[4..]))
      else Err(ReasonNotUtf8)
    else Ok(Unknown(typeCode, value))
  }

  /** Strings inside an attribute are UTF-8, as the string type guarantees. */
  predicate Typed(p: Primitives, a: StunAttribute) {
    match a
    case Username(name) => p.isUtf8(name)
    case ErrorCode(_, reason) => p.isUtf8(reason)
    case _ => true
  }

  /** Integrity and fingerprint attributes stored in a message are never written. */
  predicate Recomputed(a: StunAttribute) {
    a.MessageIntegrity? || a.Fingerprint?
  }

  /**
   The attributes that survive encoding and decoding: error codes below 800,
   unknown attributes whose type is really unknown, and addresses without the
   flow and scope fields, which have no place on the wire.
   */
  predicate Representable(a: StunAttribute) {
    match a
    case ErrorCode(code, _) => code < 800
    case Unknown(typeCode, _) => !KnownType(typeCode)
    case XorMappedAddress(V6(_, _, flowInfo, scopeId)) => flowInfo == 0 && scopeId == 0
    case _ => true
  }

  lemma PortXorUndo(port: u16)
    ensures PortXor(PortXor(port)) == port
  {
    Pow2Values();
    XorBitsUndo(port, MAGIC_COOKIE / U16, 16);
  }

  lemma AddressXorUndo(ip: u32)
    ensures AddressXor(AddressXor(ip)) == ip
  {
    Pow2Values();
    XorBitsUndo(ip, MAGIC_COOKIE, 32);
  }

  lemma V4RoundTrip(ip: u32, port: u16, tid: TransactionId)
    ensures ParseAddress(EncodeAddress(V4(ip, port), tid), tid) == Ok(V4(ip, port))
  {
    var portField, ipField := PortXor(port), AddressXor(ip);
    var value := [0, 1] + BigEndian(portField, 2) + BigEndian(ipField, 4);
    assert value == EncodeAddress(V4(ip, port), tid);
    assert value[2..4] == BigEndian(portField, 2) && value[4..8] == BigEndian(ipField, 4);
    FieldsRoundTrip(portField);
    FieldsRoundTrip(ipField);
    PortXorUndo(port);
    AddressXorUndo(ip);
  }

  lemma V6RoundTrip(addr: SocketAddr, tid: TransactionId)
    requires addr.V6?
    ensures ParseAddress(EncodeAddress(addr, tid), tid) == Ok(addr.(flowInfo := 0, scopeId := 0))
  {
    var portField, masked := PortXor(addr.port), XorAll(addr.octets, Mask(tid));
    var value := [0, 2] + BigEndian(portField, 2) + masked;
    assert value == EncodeAddress(addr, tid);
    assert value[2..4] == BigEndian(portField, 2) && value[4..20] == masked;
    FieldsRoundTrip(portField);
    PortXorUndo(addr.port);
    XorAllUndo(addr.octets, Mask(tid));
  }

  lemma AddressValueRoundTrip(p: Primitives, addr: SocketAddr, tid: TransactionId)
    ensures DecodeValue(p, ATTR_XOR_MAPPED_ADDRESS, Value(XorMappedAddress(addr), tid), tid) == Ok(XorMappedAddress(addr))
            <==> Representable(XorMappedAddress(addr))
  {
    if addr.V4? {
      V4RoundTrip(addr.ip, addr.port, tid);
    } else {
      V6RoundTrip(addr, tid);
    }
  }

  lemma NumberValueRoundTrip(p: Primitives, a: StunAttribute, tid: TransactionId)
    requires a.Fingerprint? || a.Priority? || a.IceControlling? || a.IceControlled?
    ensures DecodeValue(p, TypeCode(a), Value(a, tid), tid) == Ok(a)
  {
    match a
    case Fingerprint(v) => FieldsRoundTrip(v);
    case Priority(v) => FieldsRoundTrip(v);
    case IceControlling(v) => FieldsRoundTrip(v);
    case IceControlled(v) => FieldsRoundTrip(v);
  }

  /** An attribute's value decodes back to the attribute exactly when it is representable. */
  lemma ValueRoundTrip(p: Primitives, a: StunAttribute, tid: TransactionId)
    requires Typed(p, a)
    ensures DecodeValue(p, TypeCode(a), Value(a, tid), tid) == Ok(a) <==> Representable(a)
  {
    match a
    case XorMappedAddress(addr) => AddressValueRoundTrip(p, addr, tid);
    case Fingerprint(_) => NumberValueRoundTrip(p, a, tid);
    case Priority(_) => NumberValueRoundTrip(p, a, tid);
    case IceControlling(_) => NumberValueRoundTrip(p, a, tid);
    case IceControlled(_) => NumberValueRoundTrip(p, a, tid);
    case ErrorCode(code, reason) => ErrorCodeRoundTrip(p, code, reason, tid);
    case _ =>
  }

  lemma ErrorCodeRoundTrip(p: Primitives, code: u16, reason: bytes, tid: TransactionId)
    requires p.isUtf8(reason)
    ensures DecodeValue(p, ATTR_ERROR_CODE, Value(ErrorCode(code, reason), tid), tid)
            == Ok(ErrorCode(code / 100 % 256 % 8 * 100 + code % 100, reason))
  {
    var value := Value(ErrorCode(code, reason), tid);
    assert value[4..] == reason;
    assert value[2] == code / 100 % 256 % 8 && value[3] == code % 100;
    assert value[2] % 8 == value[2];
  }

  /** The obfuscated address on the wire: port and address under the cookie, an IPv6 address also under the transaction id. */
  lemma MappedBytes(addr: SocketAddr, tid: TransactionId)
    ensures var w := Value(XorMappedAddress(addr), tid);
            && w[0] == 0 && w[1] == (if addr.V4? then 1 else 2) && w[2..4] == BigEndian(XorBits(addr.port, 0x2112, 16), 2)
            && (addr.V4? ==> |w| == 8 && w[4..8] == BigEndian(XorBits(addr.ip, 0x2112_A442, 32), 4))
            && (addr.V6? ==> |w| == 20 && forall i :: 0 <= i < 16 ==>
                  w[4 + i] == Xor(addr.octets[i], if i < 4 then [0x21, 0x12, 0xA4, 0x42][i] else tid[i - 4]))
  {
    match addr
    case V4(ip, port) => AddressCuts(1, BigEndian(PortXor(port), 2), BigEndian(AddressXor(ip), 4));
    case V6(octets, port, _, _) =>
      AddressCuts(2, BigEndian(PortXor(port), 2), XorAll(octets, Mask(tid)));
      MaskBytes(tid);
  }

  lemma AddressCuts(family: byte, port: bytes, address: bytes)
    requires |port| == 2
    ensures var w := [0, family] + port + address;
            && w[0] == 0 && w[1] == family && w[2..4] == port && w[4..] == address
            && forall i :: 0 <= i < |address| ==> w[4 + i] == address[i]
  {
  }

  lemma MaskBytes(tid: TransactionId)
    ensures forall i :: 0 <= i < 16 ==> Mask(tid)[i] == if i < 4 then [0x21, 0x12, 0xA4, 0x42][i] else tid[i - 4]
  {
    FieldBytes(MAGIC_COOKIE);
  }

  lemma XorFits(a: nat, b: nat)
    requires a < U16
    ensures XorBits(XorBits(a, b, 16), b, 16) == a
  {
    Pow2Values();
    XorBitsUndo(a, b, 16);
  }

  lemma XorFits32(a: nat, b: nat)
    requires a < U32
    ensures XorBits(XorBits(a, b, 32), b, 32) == a
  {
    Pow2Values();
    XorBitsUndo(a, b, 32);
  }

  /** What is read from an address value writes back as that value, apart from bytes behind it. */
  lemma ParsedAddressWritesBack(value: bytes, tid: TransactionId)
    requires ParseAddress(value, tid).Ok?
    ensures var w := EncodeAddress(ParseAddress(value, tid).value, tid);
            |w| <= |value| && w == value[..|w|]
  {
    PortWritesBack(value[2..4]);
    if value[1] == 1 {
      FieldsRead(value[4..8]);
      XorFits32(FromBigEndian(value[4..8]), MAGIC_COOKIE);
      JoinParts(value, 8);
    } else {
      XorAllUndo(value[4..20], Mask(tid));
      JoinParts(value, 20);
    }
  }

  lemma PortWritesBack(port: bytes)
    requires |port| == 2
    ensures FromBigEndian(port) < U16 && BigEndian(PortXor(PortXor(FromBigEndian(port))), 2) == port
  {
    FieldsRead(port);
    XorFits(FromBigEndian(port), MAGIC_COOKIE / U16);
  }

  lemma JoinParts(value: bytes, n: nat)
    requires 4 <= n <= |value|
    ensures value[..n] == [value[0], value[1]] + value[2..4] + value[4..n]
  {
  }

  /**
   For every type and value: what decoding gives has that type and writes back
   as that value. Two values hold more than is read: bytes behind an address,
   and the reserved bits of an error code.
   */
  lemma DecodedWritesBack(p: Primitives, typeCode: u16, value: bytes, tid: TransactionId)
    requires DecodeValue(p, typeCode, value, tid).Ok?
    ensures var a := DecodeValue(p, typeCode, value, tid).value;
            && TypeCode(a) == typeCode && (a.Unknown? ==> !KnownType(typeCode))
            && match a
               case ErrorCode(code, reason) => |value| >= 4 && code == value[2] as int % 8 * 100 + value[3] as int && reason == value[4..]
               case XorMappedAddress(_) => Value(a, tid) <= value
               case _ => Value(a, tid) == value
  {
    if typeCode == ATTR_XOR_MAPPED_ADDRESS {
      ParsedAddressWritesBack(value, tid);
    } else {
      FieldsRead(value);
    }
  }

  /** Exactly which values are accepted. */
  lemma ValueAccepted(p: Primitives, typeCode: u16, value: bytes, tid: TransactionId)
    ensures DecodeValue(p, typeCode, value, tid).Ok? <==>
            match typeCode
            case 0x0006 => p.isUtf8(value)
            case 0x0008 => |value| == 20
            case 0x0009 => |value| >= 4 && p.isUtf8(value[4..])
            case 0x0020 => |value| >= 8 && value[0] == 0 && (value[1] == 1 || (value[1] == 2 && |value| >= 20))
            case 0x0024 => |value| == 4
            case 0x0025 => |value| == 0
            case 0x8028 => |value| == 4
            case 0x8029 => |value| == 8
            case 0x802A => |value| == 8
            case _ => true
  {
  }

  /** An attribute on the wire: type, length, value, and zeros up to a multiple of four. */
  lemma AttributeBytes(typeCode: u16, value: bytes)
    ensures var w := PushAttribute(typeCode, value);
            && |w| % 4 == 0 && 4 + |value| <= |w| < 8 + |value|
            && w[..2] == BigEndian(typeCode, 2) && w[2..4] == BigEndian(|value|, 2) && w[4..4 + |value|] == value
            && forall i :: 4 + |value| <= i < |w| ==> w[i] == 0
  {
  }

  /** Decoding never yields an attribute whose own encoding is longer than the value read. */
  lemma ValueNotLonger(p: Primitives, typeCode: u16, value: bytes, tid: TransactionId)
    ensures var a := DecodeValue(p, typeCode, value, tid);
            a.Ok? ==> |Value(a.value, tid)| <= |value|
  {
  }
}
