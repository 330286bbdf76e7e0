/** The encoder and decoder as the program runs them: a growing buffer with a patched length, and one scanning loop. */
module StunEndpoint {
  import opened Bytes
  import opened StunCodec
  import opened StunSections
  import opened StunMessages

  function WithLength(buffer: bytes, bodyLen: nat): bytes
    requires |buffer| >= HEADER_LEN
  {
    buffer[..2] + BigEndian(bodyLen, 2) + buffer[4..]
  }

  lemma WithLengthOfHeader(c: StunClass, bodyLen: nat, tid: TransactionId, body: bytes, newLen: nat)
    ensures WithLength(Header(c, bodyLen, tid) + body, newLen) == Header(c, newLen, tid) + body
  {
    var input := Header(c, bodyLen, tid) + body;
    PatchedPrefix(c, bodyLen, tid, body, [], newLen);
    assert body + [] == body && input[4..] == input[4..HEADER_LEN + |body|];
  }

  /** Appending an attribute appends its encoding to the section. */
  lemma AppendWritten(attrs: seq<StunAttribute>, a: StunAttribute, tid: TransactionId)
    ensures EncodePairs(PairsOf(attrs + [a], tid)) == EncodePairs(PairsOf(attrs, tid)) + PushPair(PairOf(a, tid))
  {
    PairsOfAppend(attrs, a, tid);
    EncodePairsAppend(PairsOf(attrs, tid), [PairOf(a, tid)]);
    EncodeOnePair(PairOf(a, tid));
  }

  method WriteAttributes(m: StunMessage) returns (buffer: bytes)
    ensures buffer == Header(m.class_, 0, m.transactionId) + EncodePairs(PairsOf(Written(m.attributes), m.transactionId))
  {
    var tid := m.transactionId;
    buffer := BigEndian(MessageType(m.class_), 2) + BigEndian(0, 2) + BigEndian(MAGIC_COOKIE, 4) + tid;
    for i := 0 to |m.attributes|
      invariant buffer == Header(m.class_, 0, tid) + EncodePairs(PairsOf(Written(m.attributes[..i]), tid))
    {
      var attr := m.attributes[i];
      assert m.attributes[..i + 1][..i] == m.attributes[..i];
      if !Recomputed(attr) {
        AppendWritten(Written(m.attributes[..i]), attr, tid);
        Regroup(Header(m.class_, 0, tid), EncodePairs(PairsOf(Written(m.attributes[..i]), tid)), PushPair(PairOf(attr, tid)));
        buffer := buffer + PushAttribute(TypeCode(attr), Value(attr, tid));
      } else {
        assert Written(m.attributes[..i + 1]) == Written(m.attributes[..i]);
      }
    }
    assert m.attributes[..|m.attributes|] == m.attributes;
  }

  /** Patches the length to count the tag, then computes the tag and appends it. */
  method AppendIntegrity(p: Primitives, m: StunMessage, password: bytes, buffer: bytes) returns (signed: bytes)
    requires buffer == Header(m.class_, 0, m.transactionId) + EncodePairs(PairsOf(Written(m.attributes), m.transactionId))
    ensures signed == Header(m.class_, |buffer| - HEADER_LEN + 24, m.transactionId)
                      + EncodePairs(PairsOf(Signed(p, m, Some(password)), m.transactionId))
  {
    var tid := m.transactionId;
    ghost var section := Written(m.attributes);
    ghost var body := EncodePairs(PairsOf(section, tid));
    var withTag := |buffer| - HEADER_LEN + 4 + MESSAGE_INTEGRITY_LEN;
    WithLengthOfHeader(m.class_, 0, tid, body, withTag);
    var patched := WithLength(buffer, withTag);
    var digest := p.integrity(patched, password);
    AppendWritten(section, MessageIntegrity(digest), tid);
    Regroup(Header(m.class_, withTag, tid), body, PushPair(PairOf(MessageIntegrity(digest), tid)));
    signed := patched + PushAttribute(ATTR_MESSAGE_INTEGRITY, digest);
  }

  /** Patches the length to count the fingerprint, then computes the fingerprint and appends it. */
  method AppendFingerprint(p: Primitives, m: StunMessage, ghost signed: seq<StunAttribute>, ghost len: nat, buffer: bytes) returns (finished: bytes)
    requires buffer == Header(m.class_, len, m.transactionId) + EncodePairs(PairsOf(signed, m.transactionId))
    ensures finished == FingerprintInput(m, signed) + PushPair(PairOf(FingerprintAttribute(p, m, signed), m.transactionId))
  {
    var withFingerprint := |buffer| - HEADER_LEN + 4 + FINGERPRINT_LEN;
    WithLengthOfHeader(m.class_, len, m.transactionId, EncodePairs(PairsOf(signed, m.transactionId)), withFingerprint);
    var patched := WithLength(buffer, withFingerprint);
    assert patched == FingerprintInput(m, signed);
    var crc := FingerprintOf(p, patched);
    finished := patched + PushAttribute(ATTR_FINGERPRINT, BigEndian(crc, 4));
  }

  /** `StunMessage::encode`: the length is patched before each tag is computed over the buffer. */
  method EncodeMessage(p: Primitives, m: StunMessage, password: Option<bytes>) returns (buffer: bytes)
    ensures buffer == Encode(p, m, password)
  {
    buffer := WriteAttributes(m);
    ghost var len := 0;
    if password.Some? {
      len := |buffer| - HEADER_LEN + 24;
      buffer := AppendIntegrity(p, m, password.value, buffer);
    }
    buffer := AppendFingerprint(p, m, Signed(p, m, password), len, buffer);
  }

  lemma {:induction false} FirstErrorStays(p: Primitives, a: seq<Raw>, b: seq<Raw>, tid: TransactionId)
    requires DecodeRaws(p, a, tid).Err?
    ensures DecodeRaws(p, a + b, tid) == DecodeRaws(p, a, tid)
    decreases |b|
  {
    if b == [] {
      assert a + b == a;
    } else {
      var n := |b| - 1;
      FirstErrorStays(p, a, b[..n], tid);
      assert (a + b)[..|a + b| - 1] == a + b[..n];
    }
  }

  lemma DecodeOneMore(p: Primitives, raws: seq<Raw>, raw: Raw, tid: TransactionId)
    requires DecodeRaws(p, raws, tid).Ok?
    ensures var last := DecodeValue(p, raw.typeCode, raw.value, tid);
            DecodeRaws(p, raws + [raw], tid) ==
            if last.Err? then Err(last.error) else Ok(DecodeRaws(p, raws, tid).value + [last.value])
  {
    assert (raws + [raw])[..|raws|] == raws;
  }

  lemma SplitOneMore(done: seq<Raw>, raw: Raw, rest: Split)
    ensures AddAll(done, AddFirst(raw, rest)) == AddAll(done + [raw], rest)
  {
    assert done + ([raw] + rest.raws) == done + [raw] + rest.raws;
  }

  /** The scan stands at `offset` behind the attributes `done`, which gave `found`. */
  ghost predicate Scanned(p: Primitives, message: bytes, tid: TransactionId, offset: nat, done: seq<Raw>, found: seq<StunAttribute>) {
    && HEADER_LEN <= offset <= |message|
    && SplitSection(message, HEADER_LEN) == AddAll(done, SplitSection(message, offset))
    && DecodeRaws(p, done, tid) == Ok(found)
    && (forall i :: 0 <= i < |done| ==> HEADER_LEN <= done[i].offset <= |message|)
  }

  /** What the scan of a whole message should find. */
  ghost function ScanResult(p: Primitives, message: bytes, tid: TransactionId): Result<seq<StunAttribute>, StunError>
    requires |message| >= HEADER_LEN
  {
    var split := SplitSection(message, HEADER_LEN);
    var decoded := DecodeRaws(p, split.raws, tid);
    if decoded.Err? then decoded else if split.error.Some? then Err(split.error.value) else decoded
  }

  lemma ScanStarts(p: Primitives, message: bytes, tid: TransactionId)
    requires |message| >= HEADER_LEN
    ensures Scanned(p, message, tid, HEADER_LEN, [], [])
  {
    assert [] + SplitSection(message, HEADER_LEN).raws == SplitSection(message, HEADER_LEN).raws;
  }

  lemma ScanMeetsError(p: Primitives, message: bytes, tid: TransactionId, done: seq<Raw>, raw: Raw, rest: Split)
    requires |message| >= HEADER_LEN && SplitSection(message, HEADER_LEN) == AddAll(done + [raw], rest)
    requires DecodeRaws(p, done, tid).Ok? && DecodeValue(p, raw.typeCode, raw.value, tid).Err?
    ensures ScanResult(p, message, tid) == Err(DecodeValue(p, raw.typeCode, raw.value, tid).error)
  {
    DecodeOneMore(p, done, raw, tid);
    FirstErrorStays(p, done + [raw], rest.raws, tid);
  }

  lemma ScanSplits(message: bytes, offset: nat, done: seq<Raw>)
    requires HEADER_LEN <= offset <= |message|
    requires SplitSection(message, HEADER_LEN) == AddAll(done, SplitSection(message, offset))
    requires offset + 4 <= |message| && offset + 4 + LengthAt(message, offset) <= |message|
    ensures SplitSection(message, HEADER_LEN)
            == AddAll(done + [RawAt(message, offset)], SplitSection(message, NextOffset(message, offset)))
  {
    SplitOneMore(done, RawAt(message, offset), SplitSection(message, NextOffset(message, offset)));
  }

  lemma ScanStep(p: Primitives, message: bytes, tid: TransactionId, offset: nat, done: seq<Raw>, found: seq<StunAttribute>)
    requires Scanned(p, message, tid, offset, done, found)
    requires offset + 4 <= |message| && offset + 4 + LengthAt(message, offset) <= |message|
    ensures var raw := RawAt(message, offset);
            var attr := DecodeValue(p, raw.typeCode, raw.value, tid);
            if attr.Err? then ScanResult(p, message, tid) == Err(attr.error)
            else Scanned(p, message, tid, NextOffset(message, offset), done + [raw], found + [attr.value])
  {
    var raw, rest := RawAt(message, offset), SplitSection(message, NextOffset(message, offset));
    ScanSplits(message, offset, done);
    if DecodeValue(p, raw.typeCode, raw.value, tid).Err? {
      ScanMeetsError(p, message, tid, done, raw, rest);
    } else {
      DecodeOneMore(p, done, raw, tid);
    }
  }

  lemma ScanEnds(p: Primitives, message: bytes, tid: TransactionId, offset: nat, done: seq<Raw>, found: seq<StunAttribute>)
    requires Scanned(p, message, tid, offset, done, found)
    requires SplitSection(message, offset).raws == []
    ensures SplitSection(message, HEADER_LEN).raws == done
    ensures ScanResult(p, message, tid) ==
            var error := SplitSection(message, offset).error; if error.Some? then Err(error.value) else Ok(found)
  {
    assert done + [] == done;
  }

  lemma ScanTruncated(p: Primitives, message: bytes, tid: TransactionId, offset: nat, done: seq<Raw>, found: seq<StunAttribute>)
    requires Scanned(p, message, tid, offset, done, found) && offset < |message|
    ensures offset + 4 > |message| ==> ScanResult(p, message, tid) == Err(TruncatedAttributeHeader)
    ensures offset + 4 <= |message| < offset + 4 + LengthAt(message, offset) ==>
      ScanResult(p, message, tid) == Err(TruncatedAttributeValue)
  {
    if offset + 4 > |message| || offset + 4 + LengthAt(message, offset) > |message| {
      ScanEnds(p, message, tid, offset, done, found);
    }
  }

  /** One turn of the scanning loop: the attribute at `offset`, or the error the whole scan ends with. */
  method ScanOne(p: Primitives, message: bytes, tid: TransactionId, offset: nat, ghost done: seq<Raw>, ghost found: seq<StunAttribute>)
    returns (attr: Result<StunAttribute, StunError>, typeCode: u16, next: nat)
    requires Scanned(p, message, tid, offset, done, found) && offset < |message|
    ensures attr.Err? ==> ScanResult(p, message, tid) == Err(attr.error)
    ensures attr.Ok? ==>
      && offset + 4 <= |message| && offset + 4 + LengthAt(message, offset) <= |message|
      && typeCode == TypeAt(message, offset) && offset < next
      && Scanned(p, message, tid, next, done + [RawAt(message, offset)], found + [attr.value])
  {
    ScanTruncated(p, message, tid, offset, done, found);
    if offset + 4 > |message| {
      return Err(TruncatedAttributeHeader), 0, offset;
    }
    if offset + 4 + LengthAt(message, offset) > |message| {
      return Err(TruncatedAttributeValue), 0, offset;
    }
    ScanStep(p, message, tid, offset, done, found);
    var raw := RawAt(message, offset);
    typeCode := raw.typeCode;
    attr := DecodeValue(p, raw.typeCode, raw.value, tid);
    next := NextOffset(message, offset);
  }

  lemma {:induction false} LastOffsetWithin(message: bytes, raws: seq<Raw>, typeCode: u16)
    requires forall i :: 0 <= i < |raws| ==> HEADER_LEN <= raws[i].offset <= |message|
    ensures LastOffset(raws, typeCode).Some? ==> HEADER_LEN <= LastOffset(raws, typeCode).value <= |message|
  {
    if raws != [] {
      LastOffsetWithin(message, raws[..|raws| - 1], typeCode);
    }
  }

  /** The scanning loop of `decode`, over a message cut to its declared length. */
  method ScanAttributes(p: Primitives, message: bytes, tid: TransactionId)
    returns (attributes: Result<seq<StunAttribute>, StunError>, integrityAt: Option<nat>, fingerprintAt: Option<nat>)
    requires |message| >= HEADER_LEN
    ensures attributes == ScanResult(p, message, tid)
    ensures attributes.Ok? ==>
      var raws := SplitSection(message, HEADER_LEN).raws;
      && integrityAt == LastOffset(raws, ATTR_MESSAGE_INTEGRITY) && fingerprintAt == LastOffset(raws, ATTR_FINGERPRINT)
      && (integrityAt.Some? ==> HEADER_LEN <= integrityAt.value <= |message|)
      && (fingerprintAt.Some? ==> HEADER_LEN <= fingerprintAt.value <= |message|)
  {
    var found: seq<StunAttribute> := [];
    var offset := HEADER_LEN;
    integrityAt, fingerprintAt := None, None;
    ghost var done: seq<Raw> := [];
    ScanStarts(p, message, tid);
    while offset < |message|
      invariant Scanned(p, message, tid, offset, done, found)
      invariant integrityAt == LastOffset(done, ATTR_MESSAGE_INTEGRITY) && fingerprintAt == LastOffset(done, ATTR_FINGERPRINT)
      decreases |message| - offset
    {
      var attr, typeCode, next := ScanOne(p, message, tid, offset, done, found);
      if attr.Err? {
        return Err(attr.error), integrityAt, fingerprintAt;
      }
      if typeCode == ATTR_MESSAGE_INTEGRITY {
        integrityAt := Some(offset);
      }
      if typeCode == ATTR_FINGERPRINT {
        fingerprintAt := Some(offset);
      }
      LastOffsetAppend(done, RawAt(message, offset), ATTR_MESSAGE_INTEGRITY);
      LastOffsetAppend(done, RawAt(message, offset), ATTR_FINGERPRINT);
      found := found + [attr.value];
      done := done + [RawAt(message, offset)];
      offset := next;
    }
    ScanEnds(p, message, tid, offset, done, found);
    LastOffsetWithin(message, done, ATTR_MESSAGE_INTEGRITY);
    LastOffsetWithin(message, done, ATTR_FINGERPRINT);
    attributes := Ok(found);
  }

  /** Checks both tags against the rebuilt prefixes they were computed over. */
  method VerifyTags(p: Primitives, message: bytes, ghost raws: seq<Raw>, attributes: seq<StunAttribute>, password: Option<bytes>,
                    integrityAt: Option<nat>, fingerprintAt: Option<nat>) returns (failure: Option<StunError>)
    requires integrityAt == LastOffset(raws, ATTR_MESSAGE_INTEGRITY) && fingerprintAt == LastOffset(raws, ATTR_FINGERPRINT)
    requires integrityAt.Some? ==> HEADER_LEN <= integrityAt.value <= |message|
    requires fingerprintAt.Some? ==> HEADER_LEN <= fingerprintAt.value <= |message|
    ensures failure == CheckTags(p, message, raws, attributes, password)
  {
    if fingerprintAt.Some? {
      var at := fingerprintAt.value;
      var expected := FingerprintOf(p, Patched(message, at, at + 4 + FINGERPRINT_LEN - HEADER_LEN));
      if LastFingerprint(attributes) != Some(expected) {
        return Some(FingerprintMismatch);
      }
    }
    if password.None? {
      return None;
    }
    if integrityAt.None? {
      return Some(MissingIntegrity);
    }
    var at := integrityAt.value;
    var expected := p.integrity(Patched(message, at, at + 4 + MESSAGE_INTEGRITY_LEN - HEADER_LEN), password.value);
    var observed := FirstIntegrity(attributes);
    if observed.None? {
      return Some(IntegrityMismatch);
    }
    var same := ConstantTimeEq(expected, observed.value);
    failure := if same then None else Some(IntegrityMismatch);
  }

  /** `StunMessage::decode`: each tag is checked against the rebuilt prefix it was computed over. */
  method DecodeMessage(p: Primitives, input: bytes, password: Option<bytes>) returns (result: Result<StunMessage, StunError>)
    ensures result == Decode(p, input, password)
  {
    if |input| < HEADER_LEN {
      return Err(MessageTooShort);
    }
    var c := ClassFromMessageType(FromBigEndian(input[..2]));
    if c.Err? {
      return Err(c.error);
    }
    var totalLen := HEADER_LEN + FromBigEndian(input[2..4]);
    if |input| < totalLen {
      return Err(BodyTruncated);
    }
    if FromBigEndian(input[4..8]) != MAGIC_COOKIE {
      return Err(BadMagicCookie);
    }
    var tid: TransactionId := input[8..20];
    var message := input[..totalLen];
    var attributes, integrityAt, fingerprintAt := ScanAttributes(p, message, tid);
    if attributes.Err? {
      return Err(attributes.error);
    }
    ghost var raws := SplitSection(message, HEADER_LEN).raws;
    var failure := VerifyTags(p, message, raws, attributes.value, password, integrityAt, fingerprintAt);
    if failure.Some? {
      return Err(failure.value);
    }
    result := Ok(StunMessage(c.value, tid, attributes.value));
  }
}
