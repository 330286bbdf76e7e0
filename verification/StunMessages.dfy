/**
 Whole STUN messages: what the encoder writes and hashes, what the decoder
 rebuilds and checks, and exactly when decoding undoes encoding.
 */
module StunMessages {
  import opened Bytes
  import opened StunCodec
  import opened StunSections

  // ----------------------------------------------------------------- encoding

  function PairOf(a: StunAttribute, tid: TransactionId): Pair {
    Pair(TypeCode(a), Value(a, tid))
  }

  function PairsOf(attrs: seq<StunAttribute>, tid: TransactionId): (pairs: seq<Pair>)
    ensures |pairs| == |attrs|
  {
    seq(|attrs|, i requires 0 <= i < |attrs| => PairOf(attrs[i], tid))
  }

  /** The stored attributes without integrity and fingerprint, which are always computed afresh. */
  function Written(attrs: seq<StunAttribute>): seq<StunAttribute> {
    if attrs == [] then []
    else Written(attrs[..|attrs| - 1]) + if Recomputed(attrs[|attrs| - 1]) then [] else [attrs[|attrs| - 1]]
  }

  function Header(c: StunClass, bodyLen: nat, tid: TransactionId): (h: bytes)
    ensures |h| == HEADER_LEN
  {
    BigEndian(MessageType(c), 2) + BigEndian(bodyLen, 2) + BigEndian(MAGIC_COOKIE, 4) + tid
  }

  function FingerprintOf(p: Primitives, buffer: bytes): u32 {
    Pow2Values();
    XorBits(p.crc(buffer), FINGERPRINT_XOR, 32)
  }

  /**
   The tag over a section: the header length already counts the integrity
   attribute, which is not there yet.
   */
  function IntegrityOf(p: Primitives, m: StunMessage, section: seq<StunAttribute>, password: bytes): Digest {
    var body := EncodePairs(PairsOf(section, m.transactionId));
    p.integrity(Header(m.class_, |body| + 4 + MESSAGE_INTEGRITY_LEN, m.transactionId) + body, password)
  }

  /** The attributes on the wire before the fingerprint. */
  function Signed(p: Primitives, m: StunMessage, password: Option<bytes>): seq<StunAttribute> {
    var section := Written(m.attributes);
    if password.None? then section else section + [MessageIntegrity(IntegrityOf(p, m, section, password.value))]
  }

  /** The bytes the fingerprint covers: the header length already counts the fingerprint. */
  function FingerprintInput(m: StunMessage, signed: seq<StunAttribute>): bytes {
    var body := EncodePairs(PairsOf(signed, m.transactionId));
    Header(m.class_, |body| + 4 + FINGERPRINT_LEN, m.transactionId) + body
  }

  function FingerprintAttribute(p: Primitives, m: StunMessage, signed: seq<StunAttribute>): StunAttribute {
    Fingerprint(FingerprintOf(p, FingerprintInput(m, signed)))
  }

  function Encode(p: Primitives, m: StunMessage, password: Option<bytes>): bytes {
    var signed := Signed(p, m, password);
    FingerprintInput(m, signed) + PushPair(PairOf(FingerprintAttribute(p, m, signed), m.transactionId))
  }

  // ----------------------------------------------------------------- decoding

  /** Decodes the values in order; the first failure wins. */
  function DecodeRaws(p: Primitives, raws: seq<Raw>, tid: TransactionId): Result<seq<StunAttribute>, StunError> {
    if raws == [] then Ok([])
    else
      var n := |raws| - 1;
      var before := DecodeRaws(p, raws[..n], tid);
      if before.Err? then before
      else
        var last := DecodeValue(p, raws[n].typeCode, raws[n].value, tid);
        if last.Err? then Err(last.error) else Ok(before.value + [last.value])
  }

  /** The offset of the last attribute of a type. */
  function LastOffset(raws: seq<Raw>, typeCode: u16): Option<nat> {
    if raws == [] then None
    else
      var last := raws[|raws| - 1];
      if last.typeCode == typeCode then Some(last.offset) else LastOffset(raws[..|raws| - 1], typeCode)
  }

  function LastFingerprint(attrs: seq<StunAttribute>): Option<u32> {
    if attrs == [] then None
    else
      var last := attrs[|attrs| - 1];
      if last.Fingerprint? then Some(last.crc) else LastFingerprint(attrs[..|attrs| - 1])
  }

  function FirstIntegrity(attrs: seq<StunAttribute>): Option<Digest> {
    if attrs == [] then None
    else if attrs[0].MessageIntegrity? then Some(attrs[0].digest)
    else FirstIntegrity(attrs[1..])
  }

  /** The prefix of a message up to `at`, with its length field overwritten. */
  function Patched(input: bytes, at: nat, bodyLen: nat): bytes
    requires 4 <= at <= |input|
  {
    input[..2] + BigEndian(bodyLen, 2) + input[4..at]
  }

  predicate FingerprintOk(p: Primitives, input: bytes, at: nat, attrs: seq<StunAttribute>) {
    && HEADER_LEN <= at <= |input|
    && LastFingerprint(attrs) == Some(FingerprintOf(p, Patched(input, at, at + 4 + FINGERPRINT_LEN - HEADER_LEN)))
  }

  predicate IntegrityOk(p: Primitives, input: bytes, at: nat, attrs: seq<StunAttribute>, password: bytes) {
    && HEADER_LEN <= at <= |input|
    && FirstIntegrity(attrs) == Some(p.integrity(Patched(input, at, at + 4 + MESSAGE_INTEGRITY_LEN - HEADER_LEN), password))
  }

  function CheckTags(p: Primitives, input: bytes, raws: seq<Raw>, attrs: seq<StunAttribute>, password: Option<bytes>): Option<StunError> {
    var fingerprintAt, integrityAt := LastOffset(raws, ATTR_FINGERPRINT), LastOffset(raws, ATTR_MESSAGE_INTEGRITY);
    if fingerprintAt.Some? && !FingerprintOk(p, input, fingerprintAt.value, attrs) then Some(FingerprintMismatch)
    else if password.None? then None
    else if integrityAt.None? then Some(MissingIntegrity)
    else if !IntegrityOk(p, input, integrityAt.value, attrs, password.value) then Some(IntegrityMismatch)
    else None
  }

  /** Decoding the attributes of a message cut to its declared length. */
  function DecodeBody(p: Primitives, input: bytes, tid: TransactionId, password: Option<bytes>): Result<seq<StunAttribute>, StunError>
    requires |input| >= HEADER_LEN
  {
    var split := SplitSection(input, HEADER_LEN);
    var attrs := DecodeRaws(p, split.raws, tid);
    if attrs.Err? then attrs
    else if split.error.Some? then Err(split.error.value)
    else
      var failure := CheckTags(p, input, split.raws, attrs.value, password);
      if failure.Some? then Err(failure.value) else attrs
  }

  function BodyLenField(input: bytes): nat
    requires |input| >= HEADER_LEN
  {
    FromBigEndian(input[2..4])
  }

  function Decode(p: Primitives, input: bytes, password: Option<bytes>): Result<StunMessage, StunError> {
    if |input| < HEADER_LEN then Err(MessageTooShort)
    else
      var c := ClassFromMessageType(FromBigEndian(input[..2]));
      if c.Err? then Err(c.error)
      else if |input| < HEADER_LEN + BodyLenField(input) then Err(BodyTruncated)
      else if FromBigEndian(input[4..8]) != MAGIC_COOKIE then Err(BadMagicCookie)
      else
        var attrs := DecodeBody(p, input[..HEADER_LEN + BodyLenField(input)], input[8..20], password);
        if attrs.Err? then Err(attrs.error) else Ok(StunMessage(c.value, input[8..20], attrs.value))
  }

  // --------------------------------------------------------------- round trip

  /** What decoding an encoded message should give back. */
  function Expected(p: Primitives, m: StunMessage, password: Option<bytes>): StunMessage {
    var signed := Signed(p, m, password);
    m.(attributes := signed + [FingerprintAttribute(p, m, signed)])
  }

  /** The true length of the encoded body, which the 16-bit header field may not be able to hold. */
  function BodyLen(p: Primitives, m: StunMessage, password: Option<bytes>): nat {
    SectionLen(PairsOf(Expected(p, m, password).attributes, m.transactionId))
  }

  predicate TypedAll(p: Primitives, attrs: seq<StunAttribute>) {
    forall i :: 0 <= i < |attrs| ==> Typed(p, attrs[i])
  }

  predicate RepresentableAll(attrs: seq<StunAttribute>) {
    forall i :: 0 <= i < |attrs| ==> Representable(attrs[i])
  }

  /** Every attribute the encoder writes survives the wire. */
  predicate RepresentableMessage(m: StunMessage) {
    forall i :: 0 <= i < |m.attributes| && !Recomputed(m.attributes[i]) ==> Representable(m.attributes[i])
  }

  lemma {:induction false} WrittenKeeps(p: Primitives, attrs: seq<StunAttribute>)
    ensures TypedAll(p, attrs) ==> TypedAll(p, Written(attrs))
    ensures forall i :: 0 <= i < |Written(attrs)| ==> !Recomputed(Written(attrs)[i])
    ensures RepresentableAll(Written(attrs)) <==>
            forall i :: 0 <= i < |attrs| && !Recomputed(attrs[i]) ==> Representable(attrs[i])
  {
    if attrs != [] {
      var n := |attrs| - 1;
      WrittenKeeps(p, attrs[..n]);
      var w, w' := Written(attrs[..n]), Written(attrs);
      assert w' == w || w' == w + [attrs[n]];
      assert RepresentableAll(w') <==> RepresentableAll(w) && (Recomputed(attrs[n]) || Representable(attrs[n])) by {
        assert forall i :: 0 <= i < |w| ==> w'[i] == w[i];
        if !Recomputed(attrs[n]) { assert w'[|w|] == attrs[n]; }
      }
      assert forall i :: 0 <= i < n ==> attrs[..n][i] == attrs[i];
    }
  }

  lemma PairsOfAppend(attrs: seq<StunAttribute>, a: StunAttribute, tid: TransactionId)
    ensures PairsOf(attrs + [a], tid) == PairsOf(attrs, tid) + [PairOf(a, tid)]
  {
  }

  /** Decoding what was written gives it back exactly when every attribute is representable. */
  lemma {:induction false} DecodePlaced(p: Primitives, attrs: seq<StunAttribute>, raws: seq<Raw>, tid: TransactionId)
    requires TypedAll(p, attrs) && |raws| == |attrs|
    requires forall i :: 0 <= i < |raws| ==> raws[i].typeCode == TypeCode(attrs[i]) && raws[i].value == Value(attrs[i], tid)
    ensures DecodeRaws(p, raws, tid) == Ok(attrs) <==> RepresentableAll(attrs)
  {
    if attrs != [] {
      var n := |attrs| - 1;
      DecodePlaced(p, attrs[..n], raws[..n], tid);
      ValueRoundTrip(p, attrs[n], tid);
      assert attrs == attrs[..n] + [attrs[n]];
      DecodeRawsStep(p, raws, attrs, tid);
    }
  }

  lemma DecodeRawsStep(p: Primitives, raws: seq<Raw>, attrs: seq<StunAttribute>, tid: TransactionId)
    requires raws != [] && |raws| == |attrs|
    ensures var n := |raws| - 1;
            DecodeRaws(p, raws, tid) == Ok(attrs)
            <==> DecodeRaws(p, raws[..n], tid) == Ok(attrs[..n])
                 && DecodeValue(p, raws[n].typeCode, raws[n].value, tid) == Ok(attrs[n])
  {
    var n := |raws| - 1;
    var before, last := DecodeRaws(p, raws[..n], tid), DecodeValue(p, raws[n].typeCode, raws[n].value, tid);
    if before.Ok? && last.Ok? {
      SameEnds(before.value, last.value, attrs);
    }
  }

  lemma SameEnds(front: seq<StunAttribute>, last: StunAttribute, attrs: seq<StunAttribute>)
    requires attrs != []
    ensures front + [last] == attrs <==> front == attrs[..|attrs| - 1] && last == attrs[|attrs| - 1]
  {
    assert (front + [last])[..|front|] == front;
    assert attrs == attrs[..|attrs| - 1] + [attrs[|attrs| - 1]];
  }

  lemma {:induction false} PlaceValues(pairs: seq<Pair>, offset: nat)
    ensures |Place(pairs, offset)| == |pairs|
    ensures forall i :: 0 <= i < |pairs| ==>
      Place(pairs, offset)[i].typeCode == pairs[i].typeCode && Place(pairs, offset)[i].value == pairs[i].value
    decreases |pairs|
  {
    if pairs != [] {
      PlaceValues(pairs[1..], offset + PairSize(pairs[0]));
    }
  }

  lemma EncodeOnePair(pair: Pair)
    ensures EncodePairs([pair]) == PushPair(pair)
  {
    assert [pair][1..] == [] && EncodePairs([pair]) == PushPair(pair) + EncodePairs([]);
  }

  /** The whole encoding: a header, then every expected attribute one behind the other. */
  lemma EncodeIsHeaderAndPairs(p: Primitives, m: StunMessage, password: Option<bytes>)
    ensures var pairs := PairsOf(Expected(p, m, password).attributes, m.transactionId);
            Encode(p, m, password) == Header(m.class_, BodyLen(p, m, password), m.transactionId) + EncodePairs(pairs)
  {
    var tid, signed := m.transactionId, Signed(p, m, password);
    var fingerprint := FingerprintAttribute(p, m, signed);
    PairsOfAppend(signed, fingerprint, tid);
    var last := PairOf(fingerprint, tid);
    EncodePairsAppend(PairsOf(signed, tid), [last]);
    EncodeOnePair(last);
    EncodedLength(PairsOf(signed, tid) + [last]);
    PairLength(last);
    var body := EncodePairs(PairsOf(signed, tid));
    assert BodyLen(p, m, password) == |body| + 8;
    Regroup(Header(m.class_, |body| + 8, tid), body, PushPair(last));
  }

  /** The 16-bit length field holds the true length modulo 65536. */
  lemma LengthFieldTruncates(v: nat)
    ensures FromBigEndian(BigEndian(v, 2)) == v % U16
  {
    var high, low: byte := v / 256 % 256, v % 256;
    assert BigEndian(v / 256, 1) == [high] by {
      assert BigEndian(v / 256 / 256, 0) == [];
    }
    assert BigEndian(v, 2) == [high, low];
    TwoBytes(high, low);
    assert v == v / 256 * 256 + low;
    assert v / 256 == v / U16 * 256 + high;
  }

  lemma TwoBytes(high: byte, low: byte)
    ensures FromBigEndian([high, low]) == high as int * 256 + low
  {
    assert [high, low][..1] == [high];
    assert [high][..0] == [];
    assert FromBigEndian([high]) == FromBigEndian([]) * 256 + high;
  }

  /** Where the four fields of a header and the body behind them stand. */
  lemma HeaderCuts(kind: bytes, length: bytes, cookie: bytes, tid: bytes, body: bytes)
    requires |kind| == 2 && |length| == 2 && |cookie| == 4 && |tid| == 12
    ensures var input := kind + length + cookie + tid + body;
            && input[..2] == kind && input[2..4] == length && input[4..8] == cookie && input[8..20] == tid
            && input[4..20] == cookie + tid && input[20..] == body
  {
  }

  /** Overwriting the length, up to any point of the body. */
  lemma HeaderPatched(kind: bytes, length: bytes, cookie: bytes, tid: bytes, first: bytes, rest: bytes, length': bytes)
    requires |kind| == 2 && |length| == 2 && |cookie| == 4 && |tid| == 12
    ensures var input := kind + length + cookie + tid + (first + rest);
            input[..2] + length' + input[4..20 + |first|] == kind + length' + cookie + tid + first
  {
    var input := kind + length + cookie + tid + (first + rest);
    HeaderCuts(kind, length, cookie, tid, first + rest);
    assert input[4..20 + |first|] == input[4..20] + first;
  }

  /** What the decoder reads from a header the encoder wrote. */
  lemma ReadHeader(c: StunClass, bodyLen: nat, tid: TransactionId, body: bytes)
    ensures var input := Header(c, bodyLen, tid) + body;
            && |input| == HEADER_LEN + |body|
            && input[..2] == BigEndian(MessageType(c), 2) && input[8..20] == tid
            && ClassFromMessageType(FromBigEndian(input[..2])) == Ok(c)
            && BodyLenField(input) == bodyLen % U16
            && FromBigEndian(input[4..8]) == MAGIC_COOKIE
  {
    HeaderCuts(BigEndian(MessageType(c), 2), BigEndian(bodyLen, 2), BigEndian(MAGIC_COOKIE, 4), tid, body);
    LengthFieldTruncates(bodyLen);
    FieldsRoundTrip(MessageType(c));
    FieldsRoundTrip(MAGIC_COOKIE);
  }

  /** Rewriting the length of a prefix gives the header the encoder hashed. */
  lemma PatchedPrefix(c: StunClass, bodyLen: nat, tid: TransactionId, first: bytes, rest: bytes, newLen: nat)
    ensures var input := Header(c, bodyLen, tid) + (first + rest);
            Patched(input, HEADER_LEN + |first|, newLen) == Header(c, newLen, tid) + first
  {
    HeaderPatched(BigEndian(MessageType(c), 2), BigEndian(bodyLen, 2), BigEndian(MAGIC_COOKIE, 4), tid, first, rest, BigEndian(newLen, 2));
  }

  /** Splitting an encoded message whose length fits gives the written attributes at their offsets. */
  lemma SplitEncoded(c: StunClass, bodyLen: nat, tid: TransactionId, pairs: seq<Pair>)
    requires SectionLen(pairs) < U16
    ensures SplitSection(Header(c, bodyLen, tid) + EncodePairs(pairs), HEADER_LEN) == Split(Place(pairs, HEADER_LEN), None)
  {
    var input := Header(c, bodyLen, tid) + EncodePairs(pairs);
    EncodedLength(pairs);
    assert SectionAt(input, HEADER_LEN, EncodePairs(pairs));
    EncodedIsLaid(input, HEADER_LEN, pairs);
    SplitWritten(input, HEADER_LEN, pairs);
    assert Place(pairs, HEADER_LEN) + [] == Place(pairs, HEADER_LEN);
  }

  lemma LastOffsetAppend(raws: seq<Raw>, last: Raw, typeCode: u16)
    ensures LastOffset(raws + [last], typeCode) ==
            if last.typeCode == typeCode then Some(last.offset) else LastOffset(raws, typeCode)
  {
    assert (raws + [last])[..|raws|] == raws;
  }

  lemma PlaceLast(attrs: seq<StunAttribute>, a: StunAttribute, tid: TransactionId, offset: nat)
    ensures Place(PairsOf(attrs + [a], tid), offset) ==
            Place(PairsOf(attrs, tid), offset)
            + [Raw(offset + SectionLen(PairsOf(attrs, tid)), TypeCode(a), Value(a, tid))]
  {
    PairsOfAppend(attrs, a, tid);
    PlaceAppend(PairsOf(attrs, tid), [PairOf(a, tid)], offset);
    assert [PairOf(a, tid)][1..] == [];
  }

  lemma {:induction false} FirstIntegrityAppend(plain: seq<StunAttribute>, rest: seq<StunAttribute>)
    requires forall i :: 0 <= i < |plain| ==> !Recomputed(plain[i])
    ensures FirstIntegrity(plain + rest) == FirstIntegrity(rest)
  {
    if plain == [] {
      assert plain + rest == rest;
    } else {
      FirstIntegrityAppend(plain[1..], rest);
      assert (plain + rest)[1..] == plain[1..] + rest;
    }
  }

  lemma FingerprintOffset(signed: seq<StunAttribute>, fingerprint: StunAttribute, tid: TransactionId)
    requires fingerprint.Fingerprint?
    ensures LastOffset(Place(PairsOf(signed + [fingerprint], tid), HEADER_LEN), ATTR_FINGERPRINT)
            == Some(HEADER_LEN + SectionLen(PairsOf(signed, tid)))
    ensures LastFingerprint(signed + [fingerprint]) == Some(fingerprint.crc)
  {
    var pairs := PairsOf(signed, tid);
    PlaceLast(signed, fingerprint, tid, HEADER_LEN);
    LastOffsetAppend(Place(pairs, HEADER_LEN),
                     Raw(HEADER_LEN + SectionLen(pairs), ATTR_FINGERPRINT, Value(fingerprint, tid)), ATTR_FINGERPRINT);
  }

  lemma FingerprintPrefix(p: Primitives, m: StunMessage, signed: seq<StunAttribute>, last: bytes)
    ensures var at := HEADER_LEN + SectionLen(PairsOf(signed, m.transactionId));
            var input := FingerprintInput(m, signed) + last;
            at <= |input| && Patched(input, at, at + 4 + FINGERPRINT_LEN - HEADER_LEN) == FingerprintInput(m, signed)
  {
    var tid, pairs := m.transactionId, PairsOf(signed, m.transactionId);
    EncodedLength(pairs);
    var body := EncodePairs(pairs);
    Regroup(Header(m.class_, |body| + 8, tid), body, last);
    PatchedPrefix(m.class_, |body| + 8, tid, body, last, |body| + 8);
  }

  /** The decoder's fingerprint input is exactly the encoder's. */
  lemma FingerprintAccepted(p: Primitives, m: StunMessage, password: Option<bytes>)
    ensures var e := Expected(p, m, password);
            var raws := Place(PairsOf(e.attributes, m.transactionId), HEADER_LEN);
            var at := LastOffset(raws, ATTR_FINGERPRINT);
            at.Some? && FingerprintOk(p, Encode(p, m, password), at.value, e.attributes)
  {
    var signed := Signed(p, m, password);
    var fingerprint := FingerprintAttribute(p, m, signed);
    FingerprintOffset(signed, fingerprint, m.transactionId);
    FingerprintPrefix(p, m, signed, PushPair(PairOf(fingerprint, m.transactionId)));
  }

  /** The decoder's integrity input is exactly the encoder's. */
  lemma IntegrityAccepted(p: Primitives, m: StunMessage, password: bytes)
    ensures var e := Expected(p, m, Some(password));
            var raws := Place(PairsOf(e.attributes, m.transactionId), HEADER_LEN);
            var at := LastOffset(raws, ATTR_MESSAGE_INTEGRITY);
            at.Some? && IntegrityOk(p, Encode(p, m, Some(password)), at.value, e.attributes, password)
  {
    IntegrityOffsetOf(p, m, password);
    IntegrityParts(p, m, password);
    TagFits(p, Encode(p, m, Some(password)), HEADER_LEN + |SignedBody(m)|, SignedPrefix(m), Expected(p, m, Some(password)).attributes,
            password, password);
  }

  /** The body before the integrity attribute. */
  function SignedBody(m: StunMessage): bytes {
    EncodePairs(PairsOf(Written(m.attributes), m.transactionId))
  }

  /** What the integrity tag is made over: the message up to the tag, with a length that includes it. */
  function SignedPrefix(m: StunMessage): bytes {
    Header(m.class_, |SignedBody(m)| + 4 + MESSAGE_INTEGRITY_LEN, m.transactionId) + SignedBody(m)
  }

  /** At this offset the attributes carry the tag of this password over the prefix. */
  predicate Tagged(p: Primitives, input: bytes, at: nat, prefix: bytes, attrs: seq<StunAttribute>, signer: bytes) {
    && HEADER_LEN <= at <= |input| && Patched(input, at, at + 4 + MESSAGE_INTEGRITY_LEN - HEADER_LEN) == prefix
    && FirstIntegrity(attrs) == Some(p.integrity(prefix, signer))
  }

  lemma IntegrityParts(p: Primitives, m: StunMessage, password: bytes)
    ensures Tagged(p, Encode(p, m, Some(password)), HEADER_LEN + |SignedBody(m)|, SignedPrefix(m),
                   Expected(p, m, Some(password)).attributes, password)
  {
    IntegrityOffsetOf(p, m, password);
    IntegrityPrefix(p, m, password);
    TagOverPrefix(p, m, password);
  }

  lemma TagOverPrefix(p: Primitives, m: StunMessage, password: bytes)
    ensures IntegrityOf(p, m, Written(m.attributes), password) == p.integrity(SignedPrefix(m), password)
  {
  }

  /** The integrity check, given the bytes that were hashed and the password they were signed with. */
  lemma TagFits(p: Primitives, input: bytes, at: nat, prefix: bytes, attrs: seq<StunAttribute>, signer: bytes, reader: bytes)
    requires Tagged(p, input, at, prefix, attrs, signer)
    ensures IntegrityOk(p, input, at, attrs, reader) <==> p.integrity(prefix, signer) == p.integrity(prefix, reader)
  {
  }

  lemma FirstTag(section: seq<StunAttribute>, integrity: StunAttribute, fingerprint: StunAttribute)
    requires integrity.MessageIntegrity? && forall i :: 0 <= i < |section| ==> !Recomputed(section[i])
    ensures FirstIntegrity(section + [integrity] + [fingerprint]) == Some(integrity.digest)
  {
    FirstIntegrityAppend(section, [integrity, fingerprint]);
    assert section + [integrity] + [fingerprint] == section + [integrity, fingerprint];
  }

  lemma IntegrityOffset(section: seq<StunAttribute>, integrity: StunAttribute, fingerprint: StunAttribute, tid: TransactionId)
    requires integrity.MessageIntegrity? && fingerprint.Fingerprint?
    ensures LastOffset(Place(PairsOf(section + [integrity] + [fingerprint], tid), HEADER_LEN), ATTR_MESSAGE_INTEGRITY)
            == Some(HEADER_LEN + SectionLen(PairsOf(section, tid)))
  {
    var signed := section + [integrity];
    PlaceLast(signed, fingerprint, tid, HEADER_LEN);
    PlaceLast(section, integrity, tid, HEADER_LEN);
    LastOffsetAppend(Place(PairsOf(signed, tid), HEADER_LEN),
                     Raw(HEADER_LEN + SectionLen(PairsOf(signed, tid)), ATTR_FINGERPRINT, Value(fingerprint, tid)),
                     ATTR_MESSAGE_INTEGRITY);
    LastOffsetAppend(Place(PairsOf(section, tid), HEADER_LEN),
                     Raw(HEADER_LEN + SectionLen(PairsOf(section, tid)), ATTR_MESSAGE_INTEGRITY, Value(integrity, tid)),
                     ATTR_MESSAGE_INTEGRITY);
  }

  /** An encoded message is its header, the written section, and the two tags. */
  lemma EncodeEndsWithTags(p: Primitives, m: StunMessage, password: bytes) returns (tags: bytes)
    ensures Encode(p, m, Some(password))
            == Header(m.class_, BodyLen(p, m, Some(password)), m.transactionId) + (SignedBody(m) + tags)
  {
    var tid, section, signed := m.transactionId, Written(m.attributes), Signed(p, m, Some(password));
    var first, second := PairOf(signed[|section|], tid), PairOf(FingerprintAttribute(p, m, signed), tid);
    PairsOfAppend(section, signed[|section|], tid);
    PairsOfAppend(signed, FingerprintAttribute(p, m, signed), tid);
    EncodePairsAppend(PairsOf(section, tid), [first]);
    EncodePairsAppend(PairsOf(signed, tid), [second]);
    EncodeIsHeaderAndPairs(p, m, Some(password));
    Regroup(EncodePairs(PairsOf(section, tid)), EncodePairs([first]), EncodePairs([second]));
    tags := EncodePairs([first]) + EncodePairs([second]);
  }

  lemma IntegrityPrefix(p: Primitives, m: StunMessage, password: bytes)
    ensures var input, at := Encode(p, m, Some(password)), HEADER_LEN + |SignedBody(m)|;
            at <= |input| && Patched(input, at, at + 4 + MESSAGE_INTEGRITY_LEN - HEADER_LEN) == SignedPrefix(m)
  {
    var tags := EncodeEndsWithTags(p, m, password);
    PatchedBehind(Encode(p, m, Some(password)), m.class_, BodyLen(p, m, Some(password)), m.transactionId, SignedBody(m), tags);
  }

  lemma PatchedBehind(input: bytes, c: StunClass, bodyLen: nat, tid: TransactionId, body: bytes, tags: bytes)
    requires input == Header(c, bodyLen, tid) + (body + tags)
    ensures var at := HEADER_LEN + |body|;
            && HEADER_LEN <= at <= |input|
            && Patched(input, at, at + 4 + MESSAGE_INTEGRITY_LEN - HEADER_LEN) == Header(c, |body| + 4 + MESSAGE_INTEGRITY_LEN, tid) + body
  {
    PatchedPrefix(c, bodyLen, tid, body, tags, |body| + 24);
  }

  // ------------------------------------------------- messages that do not fit

  lemma {:induction false} SectionLenAppend(pairs: seq<Pair>, last: Pair)
    ensures SectionLen(pairs + [last]) == SectionLen(pairs) + PairSize(last)
  {
    if pairs == [] {
      assert (pairs + [last])[1..] == [];
    } else {
      SectionLenAppend(pairs[1..], last);
      assert (pairs + [last])[1..] == pairs[1..] + [last];
    }
  }

  lemma {:induction false} RawSizeAppend(raws: seq<Raw>, last: Raw)
    ensures RawSize(raws + [last]) == RawSize(raws) + 4 + |last.value| + PaddingLen(|last.value|)
  {
    if raws == [] {
      assert (raws + [last])[1..] == [];
    } else {
      RawSizeAppend(raws[1..], last);
      assert (raws + [last])[1..] == raws[1..] + [last];
    }
  }

  lemma PaddedIsMonotone(a: nat, b: nat)
    requires a <= b
    ensures a + PaddingLen(a) <= b + PaddingLen(b)
  {
  }

  /** Decoded attributes never take more room than the values they were read from. */
  lemma {:induction false} DecodedSize(p: Primitives, raws: seq<Raw>, tid: TransactionId)
    requires DecodeRaws(p, raws, tid).Ok?
    ensures SectionLen(PairsOf(DecodeRaws(p, raws, tid).value, tid)) <= RawSize(raws)
  {
    if raws != [] {
      var n := |raws| - 1;
      DecodedSize(p, raws[..n], tid);
      var before := DecodeRaws(p, raws[..n], tid).value;
      var last := DecodeValue(p, raws[n].typeCode, raws[n].value, tid).value;
      ValueNotLonger(p, raws[n].typeCode, raws[n].value, tid);
      PaddedIsMonotone(|Value(last, tid)|, |raws[n].value|);
      PairsOfAppend(before, last, tid);
      SectionLenAppend(PairsOf(before, tid), PairOf(last, tid));
      RawSizeAppend(raws[..n], raws[n]);
      assert raws == raws[..n] + [raws[n]];
    }
  }

  /** What any message decodes to takes at most three bytes more than its header says. */
  lemma DecodeBodySize(p: Primitives, input: bytes, tid: TransactionId, password: Option<bytes>)
    requires |input| >= HEADER_LEN && DecodeBody(p, input, tid, password).Ok?
    ensures SectionLen(PairsOf(DecodeBody(p, input, tid, password).value, tid)) <= |input| - HEADER_LEN + 3
  {
    SplitSize(input, HEADER_LEN);
    DecodedSize(p, SplitSection(input, HEADER_LEN).raws, tid);
  }

  lemma DecodeSize(p: Primitives, input: bytes, password: Option<bytes>)
    requires |input| >= HEADER_LEN && Decode(p, input, password).Ok?
    ensures var m := Decode(p, input, password).value;
            SectionLen(PairsOf(m.attributes, m.transactionId)) <= BodyLenField(input) + 3
  {
    DecodeBodySize(p, input[..HEADER_LEN + BodyLenField(input)], input[8..20], password);
  }

  /** A body whose length does not fit the header never comes back whole. */
  lemma TooLongIsLost(p: Primitives, m: StunMessage, password: Option<bytes>, other: Option<bytes>)
    requires BodyLen(p, m, password) >= U16
    ensures Decode(p, Encode(p, m, password), other) != Ok(Expected(p, m, password))
  {
    var input, len := Encode(p, m, password), BodyLen(p, m, password);
    EncodedField(p, m, password);
    if Decode(p, input, other) == Ok(Expected(p, m, password)) {
      DecodeSize(p, input, other);
      AlignedDoesNotFit(len);
    }
  }

  lemma EncodedField(p: Primitives, m: StunMessage, password: Option<bytes>)
    ensures |Encode(p, m, password)| >= HEADER_LEN
    ensures BodyLenField(Encode(p, m, password)) == BodyLen(p, m, password) % U16
    ensures BodyLen(p, m, password) % 4 == 0
  {
    var pairs := PairsOf(Expected(p, m, password).attributes, m.transactionId);
    EncodeIsHeaderAndPairs(p, m, password);
    ReadHeader(m.class_, BodyLen(p, m, password), m.transactionId, EncodePairs(pairs));
    EncodedLength(pairs);
  }

  lemma AlignedDoesNotFit(len: nat)
    requires len % 4 == 0 && len >= U16
    ensures len % U16 + 3 < len
  {
  }

  // ------------------------------------------------------------ main theorems

  lemma ExpectedTyped(p: Primitives, m: StunMessage, password: Option<bytes>)
    requires TypedAll(p, m.attributes)
    ensures TypedAll(p, Expected(p, m, password).attributes)
    ensures RepresentableAll(Expected(p, m, password).attributes) <==> RepresentableMessage(m)
  {
    WrittenKeeps(p, m.attributes);
    var section, all := Written(m.attributes), Expected(p, m, password).attributes;
    assert section <= all;
    if RepresentableAll(all) {
      forall i | 0 <= i < |section| ensures Representable(section[i]) {
        assert all[i] == section[i];
      }
    }
  }

  /** A message whose declared length is its own is decoded whole. */
  lemma DecodeWhole(p: Primitives, c: StunClass, tid: TransactionId, body: bytes, password: Option<bytes>)
    requires |body| < U16
    ensures var input := Header(c, |body|, tid) + body;
            var attrs := DecodeBody(p, input, tid, password);
            Decode(p, input, password) == if attrs.Err? then Err(attrs.error) else Ok(StunMessage(c, tid, attrs.value))
  {
    var input := Header(c, |body|, tid) + body;
    ReadHeader(c, |body|, tid, body);
    assert input[..HEADER_LEN + BodyLenField(input)] == input;
  }

  /** Decoding an encoded message that fits comes down to decoding its attribute values and checking its tags. */
  lemma DecodeFitting(p: Primitives, m: StunMessage, password: Option<bytes>, other: Option<bytes>)
    requires TypedAll(p, m.attributes) && BodyLen(p, m, password) < U16
    ensures var e := Expected(p, m, password);
            var raws := Place(PairsOf(e.attributes, m.transactionId), HEADER_LEN);
            && (!RepresentableMessage(m) ==> Decode(p, Encode(p, m, password), other) != Ok(e))
            && (RepresentableMessage(m) ==>
                  Decode(p, Encode(p, m, password), other) ==
                  var failure := CheckTags(p, Encode(p, m, password), raws, e.attributes, other);
                  if failure.Some? then Err(failure.value) else Ok(e))
  {
    var e, tid := Expected(p, m, password), m.transactionId;
    var pairs := PairsOf(e.attributes, tid);
    EncodeIsHeaderAndPairs(p, m, password);
    EncodedLength(pairs);
    DecodeWhole(p, m.class_, tid, EncodePairs(pairs), other);
    SplitEncoded(m.class_, BodyLen(p, m, password), tid, pairs);
    ValuesDecode(p, m, password);
  }

  /** The written values decode to the expected attributes exactly when the message is representable. */
  lemma ValuesDecode(p: Primitives, m: StunMessage, password: Option<bytes>)
    requires TypedAll(p, m.attributes)
    ensures var attrs := Expected(p, m, password).attributes;
            DecodeRaws(p, Place(PairsOf(attrs, m.transactionId), HEADER_LEN), m.transactionId) == Ok(attrs)
            <==> RepresentableMessage(m)
  {
    var attrs, tid := Expected(p, m, password).attributes, m.transactionId;
    PlaceValues(PairsOf(attrs, tid), HEADER_LEN);
    ExpectedTyped(p, m, password);
    DecodePlaced(p, attrs, Place(PairsOf(attrs, tid), HEADER_LEN), tid);
  }

  /**
   Round trip, exactly: decoding an encoded message with the same password gives
   back its class, transaction id and attributes, with fresh integrity and
   fingerprint, if and only if the body fits the 16-bit length field and every
   written attribute is representable. The tags always verify.
   */
  lemma RoundTrip(p: Primitives, m: StunMessage, password: Option<bytes>)
    requires TypedAll(p, m.attributes)
    ensures Decode(p, Encode(p, m, password), password) == Ok(Expected(p, m, password))
            <==> BodyLen(p, m, password) < U16 && RepresentableMessage(m)
  {
    if BodyLen(p, m, password) >= U16 {
      TooLongIsLost(p, m, password, password);
    } else {
      DecodeFitting(p, m, password, password);
      FingerprintAccepted(p, m, password);
      if password.Some? {
        IntegrityAccepted(p, m, password.value);
      }
    }
  }

  /** A receiver that does not ask for integrity reads the same message. */
  lemma RoundTripUnchecked(p: Primitives, m: StunMessage, password: Option<bytes>)
    requires TypedAll(p, m.attributes) && BodyLen(p, m, password) < U16 && RepresentableMessage(m)
    ensures Decode(p, Encode(p, m, password), None) == Ok(Expected(p, m, password))
  {
    DecodeFitting(p, m, password, None);
    FingerprintAccepted(p, m, password);
  }

  lemma {:induction false} NoIntegrityOffset(raws: seq<Raw>)
    requires forall i :: 0 <= i < |raws| ==> raws[i].typeCode != ATTR_MESSAGE_INTEGRITY
    ensures LastOffset(raws, ATTR_MESSAGE_INTEGRITY) == None
  {
    if raws != [] {
      NoIntegrityOffset(raws[..|raws| - 1]);
    }
  }

  /** A message encoded without a password is refused by a receiver that asks for integrity. */
  lemma UnsignedIsRefused(p: Primitives, m: StunMessage, password: bytes)
    requires TypedAll(p, m.attributes) && BodyLen(p, m, None) < U16 && RepresentableMessage(m)
    ensures Decode(p, Encode(p, m, None), Some(password)) == Err(MissingIntegrity)
  {
    DecodeFitting(p, m, None, Some(password));
    FingerprintAccepted(p, m, None);
    UnsignedHasNoTag(p, m);
  }

  lemma UnsignedHasNoTag(p: Primitives, m: StunMessage)
    requires TypedAll(p, m.attributes) && RepresentableMessage(m)
    ensures LastOffset(Place(PairsOf(Expected(p, m, None).attributes, m.transactionId), HEADER_LEN), ATTR_MESSAGE_INTEGRITY) == None
  {
    var all := Expected(p, m, None).attributes;
    WrittenKeeps(p, m.attributes);
    PlaceValues(PairsOf(all, m.transactionId), HEADER_LEN);
    ExpectedTyped(p, m, None);
    forall i | 0 <= i < |all| ensures TypeCode(all[i]) != ATTR_MESSAGE_INTEGRITY {
      assert !all[i].MessageIntegrity? && Representable(all[i]);
    }
    NoIntegrityOffset(Place(PairsOf(all, m.transactionId), HEADER_LEN));
  }

  /**
   A message signed with one password and read with another is accepted exactly
   when both give the same tag over the signed prefix, and otherwise refused for
   its integrity.
   */
  lemma OtherPasswordExactly(p: Primitives, m: StunMessage, signer: bytes, reader: bytes)
    requires TypedAll(p, m.attributes) && BodyLen(p, m, Some(signer)) < U16 && RepresentableMessage(m)
    ensures var prefix := SignedPrefix(m);
            Decode(p, Encode(p, m, Some(signer)), Some(reader))
            == if p.integrity(prefix, signer) == p.integrity(prefix, reader) then Ok(Expected(p, m, Some(signer)))
               else Err(IntegrityMismatch)
  {
    DecodeFitting(p, m, Some(signer), Some(reader));
    FingerprintAccepted(p, m, Some(signer));
    IntegrityOffsetOf(p, m, signer);
    IntegrityParts(p, m, signer);
    TagFits(p, Encode(p, m, Some(signer)), HEADER_LEN + |SignedBody(m)|, SignedPrefix(m), Expected(p, m, Some(signer)).attributes,
            signer, reader);
  }

  lemma IntegrityOffsetOf(p: Primitives, m: StunMessage, password: bytes)
    ensures var e, section := Expected(p, m, Some(password)), Written(m.attributes);
            && LastOffset(Place(PairsOf(e.attributes, m.transactionId), HEADER_LEN), ATTR_MESSAGE_INTEGRITY)
               == Some(HEADER_LEN + |SignedBody(m)|)
            && FirstIntegrity(e.attributes) == Some(IntegrityOf(p, m, section, password))
  {
    EncodedLength(PairsOf(Written(m.attributes), m.transactionId));
    var tid, section, signed := m.transactionId, Written(m.attributes), Signed(p, m, Some(password));
    var integrity, fingerprint := MessageIntegrity(IntegrityOf(p, m, section, password)), FingerprintAttribute(p, m, signed);
    IntegrityOffset(section, integrity, fingerprint, tid);
    WrittenKeeps(p, m.attributes);
    FirstTag(section, integrity, fingerprint);
    assert Expected(p, m, Some(password)).attributes == section + [integrity] + [fingerprint];
  }
}
