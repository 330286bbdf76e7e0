/**
 Exactly which byte strings a receiver accepts as a STUN message, in terms of
 the bytes: the header, the attributes that tile the body, the fingerprint and
 the integrity tag.
 */
module StunAccepted {
  import opened Bytes
  import opened StunCodec
  import opened StunSections
  import opened StunMessages

  // ------------------------------------------------------------------ the header

  predicate ClassBytes(c: StunClass, kind: bytes) {
    kind == match c case Request => [0, 1] case Indication => [0, 0x11] case SuccessResponse => [1, 1] case ErrorResponse => [1, 0x11]
  }

  lemma ClassCodes()
    ensures BigEndian(1, 2) == [0, 1] && BigEndian(0x11, 2) == [0, 0x11]
    ensures BigEndian(0x101, 2) == [1, 1] && BigEndian(0x111, 2) == [1, 0x11]
  {
    FieldBytes(1);
    FieldBytes(0x11);
    FieldBytes(0x101);
    FieldBytes(0x111);
  }

  lemma ClassExactly(kind: bytes, c: StunClass)
    requires |kind| == 2
    ensures ClassFromMessageType(FromBigEndian(kind)) == Ok(c) <==> ClassBytes(c, kind)
  {
    var code := match c case Request => 1 case Indication => 0x11 case SuccessResponse => 0x101 case ErrorResponse => 0x111;
    assert ClassFromMessageType(FromBigEndian(kind)) == Ok(c) <==> FromBigEndian(kind) == code;
    assert BigEndian(code, 2) == kind <==> ClassBytes(c, kind) by {
      ClassCodes();
    }
    FieldsRead(kind);
    FieldsRoundTrip(code);
  }

  lemma CookieDigits()
    ensures BigEndian(0x2112_A442, 4) == [0x21, 0x12, 0xA4, 0x42]
  {
    BigEndianStep(0x2112_A442, 3);
    BigEndianStep(0x21_12A4, 2);
    BigEndianStep(0x2112, 1);
    BigEndianStep(0x21, 0);
  }

  lemma CookieExactly(cookie: bytes)
    requires |cookie| == 4
    ensures FromBigEndian(cookie) == MAGIC_COOKIE <==> cookie == [0x21, 0x12, 0xA4, 0x42]
  {
    CookieDigits();
    FieldsRead(cookie);
    FieldsRoundTrip(0x2112_A442);
  }

  // -------------------------------------------------------------- the attributes

  /** Each raw attribute decodes to the attribute at its place. */
  predicate Decodes(p: Primitives, raws: seq<Raw>, attrs: seq<StunAttribute>, tid: TransactionId) {
    |raws| == |attrs| && forall i :: 0 <= i < |raws| ==> DecodeValue(p, raws[i].typeCode, raws[i].value, tid) == Ok(attrs[i])
  }

  lemma {:induction false} DecodedLength(p: Primitives, raws: seq<Raw>, tid: TransactionId)
    ensures DecodeRaws(p, raws, tid).Ok? ==> |DecodeRaws(p, raws, tid).value| == |raws|
  {
    if raws != [] {
      DecodedLength(p, raws[..|raws| - 1], tid);
    }
  }

  lemma {:induction false} DecodesExactly(p: Primitives, raws: seq<Raw>, attrs: seq<StunAttribute>, tid: TransactionId)
    ensures DecodeRaws(p, raws, tid) == Ok(attrs) <==> Decodes(p, raws, attrs, tid)
  {
    DecodedLength(p, raws, tid);
    if |raws| == |attrs| && raws != [] {
      var n := |raws| - 1;
      DecodesExactly(p, raws[..n], attrs[..n], tid);
      DecodeRawsStep(p, raws, attrs, tid);
      if Decodes(p, raws[..n], attrs[..n], tid) {
        forall i | 0 <= i < n
          ensures DecodeValue(p, raws[i].typeCode, raws[i].value, tid) == Ok(attrs[i])
        {
          assert raws[..n][i] == raws[i] && attrs[..n][i] == attrs[i];
        }
      }
    }
  }

  // -------------------------------------------------------------------- the tags

  predicate LastOf(raws: seq<Raw>, typeCode: u16, i: nat) {
    i < |raws| && raws[i].typeCode == typeCode && forall j :: i < j < |raws| ==> raws[j].typeCode != typeCode
  }

  predicate FirstOf(raws: seq<Raw>, typeCode: u16, i: nat) {
    i < |raws| && raws[i].typeCode == typeCode && forall j :: 0 <= j < i ==> raws[j].typeCode != typeCode
  }

  /** The prefix up to an offset, with the length field that would end the message behind the attribute standing there. */
  function HashedPrefix(input: bytes, at: nat, attributeLen: nat): bytes
    requires 20 <= at <= |input|
  {
    input[..2] + BigEndian(at + attributeLen - 20, 2) + input[4..at]
  }

  /** The last fingerprint, if there is one, is the masked checksum of the prefix before it. */
  ghost predicate Fingerprinted(p: Primitives, input: bytes, raws: seq<Raw>) {
    forall i: nat :: LastOf(raws, 0x8028, i) ==>
      && 20 <= raws[i].offset <= |input|
      && raws[i].value == BigEndian(XorBits(p.crc(HashedPrefix(input, raws[i].offset, 8)), 0x5354_554E, 32), 4)
  }

  /** The first MESSAGE-INTEGRITY holds the tag of the password over the prefix before the last one. */
  ghost predicate Authenticated(p: Primitives, input: bytes, raws: seq<Raw>, password: bytes) {
    exists first: nat, last: nat :: FirstOf(raws, 0x0008, first) && LastOf(raws, 0x0008, last)
      && SignedBy(p, input, raws[first], raws[last], password)
  }

  predicate SignedBy(p: Primitives, input: bytes, first: Raw, last: Raw, password: bytes) {
    20 <= last.offset <= |input| && first.value == p.integrity(HashedPrefix(input, last.offset, 24), password)
  }

  lemma {:induction false} LastOffsetIs(raws: seq<Raw>, typeCode: u16, i: nat)
    requires LastOf(raws, typeCode, i)
    ensures LastOffset(raws, typeCode) == Some(raws[i].offset)
  {
    if i < |raws| - 1 {
      LastOffsetIs(raws[..|raws| - 1], typeCode, i);
    }
  }

  lemma {:induction false} LastExists(raws: seq<Raw>, typeCode: u16) returns (i: nat)
    requires LastOffset(raws, typeCode).Some?
    ensures LastOf(raws, typeCode, i)
  {
    i := |raws| - 1;
    if raws[i].typeCode != typeCode {
      i := LastExists(raws[..i], typeCode);
    }
  }

  lemma {:induction false} LastFingerprintIs(attrs: seq<StunAttribute>, i: nat)
    requires i < |attrs| && attrs[i].Fingerprint? && forall j :: i < j < |attrs| ==> !attrs[j].Fingerprint?
    ensures LastFingerprint(attrs) == Some(attrs[i].crc)
  {
    if i < |attrs| - 1 {
      LastFingerprintIs(attrs[..|attrs| - 1], i);
    }
  }

  lemma {:induction false} FirstIntegrityIs(attrs: seq<StunAttribute>, i: nat)
    requires i < |attrs| && attrs[i].MessageIntegrity? && forall j :: 0 <= j < i ==> !attrs[j].MessageIntegrity?
    ensures FirstIntegrity(attrs) == Some(attrs[i].digest)
  {
    if i > 0 {
      FirstIntegrityIs(attrs[1..], i - 1);
    }
  }

  lemma FingerprintValue(p: Primitives, raws: seq<Raw>, attrs: seq<StunAttribute>, tid: TransactionId, i: nat)
    requires Decodes(p, raws, attrs, tid) && LastOf(raws, ATTR_FINGERPRINT, i)
    ensures LastFingerprint(attrs).Some? && raws[i].value == BigEndian(LastFingerprint(attrs).value, 4)
  {
    forall j | i <= j < |raws|
      ensures attrs[j].Fingerprint? <==> j == i
    {
      DecodedWritesBack(p, raws[j].typeCode, raws[j].value, tid);
    }
    DecodedWritesBack(p, raws[i].typeCode, raws[i].value, tid);
    LastFingerprintIs(attrs, i);
  }

  lemma IntegrityValue(p: Primitives, raws: seq<Raw>, attrs: seq<StunAttribute>, tid: TransactionId, i: nat)
    requires Decodes(p, raws, attrs, tid) && FirstOf(raws, ATTR_MESSAGE_INTEGRITY, i)
    ensures FirstIntegrity(attrs) == Some(raws[i].value)
  {
    forall j | 0 <= j <= i
      ensures attrs[j].MessageIntegrity? <==> j == i
    {
      DecodedWritesBack(p, raws[j].typeCode, raws[j].value, tid);
    }
    DecodedWritesBack(p, raws[i].typeCode, raws[i].value, tid);
    FirstIntegrityIs(attrs, i);
  }

  lemma {:induction false} FirstExists(raws: seq<Raw>, typeCode: u16, k: nat) returns (first: nat)
    requires k < |raws| && raws[k].typeCode == typeCode
    ensures FirstOf(raws, typeCode, first)
  {
    first := k;
    if j :| 0 <= j < k && raws[j].typeCode == typeCode {
      first := FirstExists(raws, typeCode, j);
    }
  }

  lemma FingerprintExactly(p: Primitives, input: bytes, raws: seq<Raw>, attrs: seq<StunAttribute>, tid: TransactionId)
    requires |input| >= 20 && Decodes(p, raws, attrs, tid)
    ensures var at := LastOffset(raws, ATTR_FINGERPRINT);
            (at.Some? ==> FingerprintOk(p, input, at.value, attrs)) <==> Fingerprinted(p, input, raws)
  {
    if LastOffset(raws, ATTR_FINGERPRINT).Some? {
      var i := LastExists(raws, ATTR_FINGERPRINT);
      LastOffsetIs(raws, ATTR_FINGERPRINT, i);
      FingerprintValue(p, raws, attrs, tid, i);
      FingerprintCompared(p, input, raws[i], attrs);
    } else if i: nat :| LastOf(raws, ATTR_FINGERPRINT, i) {
      LastOffsetIs(raws, ATTR_FINGERPRINT, i);
    }
  }

  lemma FingerprintCompared(p: Primitives, input: bytes, raw: Raw, attrs: seq<StunAttribute>)
    requires LastFingerprint(attrs).Some? && raw.value == BigEndian(LastFingerprint(attrs).value, 4)
    ensures FingerprintOk(p, input, raw.offset, attrs)
            <==> 20 <= raw.offset <= |input|
                 && raw.value == BigEndian(XorBits(p.crc(HashedPrefix(input, raw.offset, 8)), 0x5354_554E, 32), 4)
  {
    if 20 <= raw.offset <= |input| {
      FieldsRoundTrip(LastFingerprint(attrs).value);
      FieldsRoundTrip(FingerprintOf(p, HashedPrefix(input, raw.offset, 8)));
    }
  }

  lemma IntegrityExactly(p: Primitives, input: bytes, raws: seq<Raw>, attrs: seq<StunAttribute>, tid: TransactionId, password: bytes)
    requires |input| >= 20 && Decodes(p, raws, attrs, tid)
    ensures var at := LastOffset(raws, ATTR_MESSAGE_INTEGRITY);
            at.Some? && IntegrityOk(p, input, at.value, attrs, password) <==> Authenticated(p, input, raws, password)
  {
    if LastOffset(raws, ATTR_MESSAGE_INTEGRITY).Some? {
      var last := LastExists(raws, ATTR_MESSAGE_INTEGRITY);
      var first := FirstExists(raws, ATTR_MESSAGE_INTEGRITY, last);
      LastOffsetIs(raws, ATTR_MESSAGE_INTEGRITY, last);
      IntegrityValue(p, raws, attrs, tid, first);
      IntegrityCompared(p, input, raws[first], raws[last], attrs, password);
      OneEach(p, input, raws, first, last, password);
    } else if last: nat :| LastOf(raws, ATTR_MESSAGE_INTEGRITY, last) {
      LastOffsetIs(raws, ATTR_MESSAGE_INTEGRITY, last);
    }
  }

  lemma IntegrityCompared(p: Primitives, input: bytes, first: Raw, last: Raw, attrs: seq<StunAttribute>, password: bytes)
    requires FirstIntegrity(attrs) == Some(first.value)
    ensures IntegrityOk(p, input, last.offset, attrs, password) <==> SignedBy(p, input, first, last, password)
  {
  }

  lemma OneEach(p: Primitives, input: bytes, raws: seq<Raw>, first: nat, last: nat, password: bytes)
    requires FirstOf(raws, ATTR_MESSAGE_INTEGRITY, first) && LastOf(raws, ATTR_MESSAGE_INTEGRITY, last)
    ensures Authenticated(p, input, raws, password) <==> SignedBy(p, input, raws[first], raws[last], password)
  {
    if Authenticated(p, input, raws, password) {
      var f: nat, l: nat :| FirstOf(raws, 0x0008, f) && LastOf(raws, 0x0008, l) && SignedBy(p, input, raws[f], raws[l], password);
      OnlyFirst(raws, ATTR_MESSAGE_INTEGRITY, f, first);
      OnlyLast(raws, ATTR_MESSAGE_INTEGRITY, l, last);
    }
  }

  lemma OnlyFirst(raws: seq<Raw>, typeCode: u16, i: nat, j: nat)
    requires FirstOf(raws, typeCode, i) && FirstOf(raws, typeCode, j)
    ensures i == j
  {
  }

  lemma OnlyLast(raws: seq<Raw>, typeCode: u16, i: nat, j: nat)
    requires LastOf(raws, typeCode, i) && LastOf(raws, typeCode, j)
    ensures i == j
  {
  }

  // ----------------------------------------------------------------- the message

  /** The attributes in the body are these, and the tags among them hold. */
  ghost predicate BodyHolds(p: Primitives, input: bytes, raws: seq<Raw>, attrs: seq<StunAttribute>, tid: TransactionId, password: Option<bytes>) {
    && Decodes(p, raws, attrs, tid)
    && Fingerprinted(p, input, raws)
    && (password.Some? ==> Authenticated(p, input, raws, password.value))
  }

  /** Attributes that tile the body to its end are these, and their tags hold. */
  ghost predicate BodyAccepted(p: Primitives, input: bytes, attrs: seq<StunAttribute>, tid: TransactionId, password: Option<bytes>) {
    exists raws :: Tiles(input, raws, 20, |input|) && BodyHolds(p, input, raws, attrs, tid, password)
  }

  lemma BodyExactly(p: Primitives, input: bytes, tid: TransactionId, password: Option<bytes>, attrs: seq<StunAttribute>)
    requires |input| >= 20
    ensures DecodeBody(p, input, tid, password) == Ok(attrs)
            <==> BodyAccepted(p, input, attrs, tid, password)
  {
    var split := SplitSection(input, 20);
    var end := SplitTiles(input, 20);
    forall raws | Tiles(input, raws, 20, |input|)
      ensures split == Split(raws, None)
    {
      TilesSplit(input, raws, 20);
    }
    TagsExactly(p, input, split.raws, attrs, tid, password);
  }

  lemma TagsExactly(p: Primitives, input: bytes, raws: seq<Raw>, attrs: seq<StunAttribute>, tid: TransactionId, password: Option<bytes>)
    requires |input| >= 20
    ensures DecodeRaws(p, raws, tid) == Ok(attrs) && CheckTags(p, input, raws, attrs, password) == None
            <==> BodyHolds(p, input, raws, attrs, tid, password)
  {
    DecodesExactly(p, raws, attrs, tid);
    if Decodes(p, raws, attrs, tid) {
      FingerprintExactly(p, input, raws, attrs, tid);
      if password.Some? {
        IntegrityExactly(p, input, raws, attrs, tid, password.value);
      }
    }
  }

  /**
   What the bytes of an accepted message are: the class and the cookie in the
   header, then up to the declared length attributes that tile the body, decode
   to the message's and carry tags that hold.
   */
  ghost predicate Accepts(p: Primitives, input: bytes, password: Option<bytes>, m: StunMessage) {
    && |input| >= 20
    && ClassBytes(m.class_, input[..2]) && input[4..8] == [0x21, 0x12, 0xA4, 0x42] && m.transactionId == input[8..20]
    && var end := 20 + FromBigEndian(input[2..4]);
       && end <= |input|
       && BodyAccepted(p, input[..end], m.attributes, m.transactionId, password)
  }

  lemma DecodeByParts(p: Primitives, input: bytes, password: Option<bytes>, m: StunMessage)
    ensures Decode(p, input, password) == Ok(m)
            <==> && |input| >= 20 && ClassFromMessageType(FromBigEndian(input[..2])) == Ok(m.class_)
                 && FromBigEndian(input[4..8]) == MAGIC_COOKIE && m.transactionId == input[8..20]
                 && var end := 20 + FromBigEndian(input[2..4]);
                    end <= |input| && DecodeBody(p, input[..end], m.transactionId, password) == Ok(m.attributes)
  {
  }

  /** For every byte string, password and message: the bytes decode to the message exactly when they are accepted as it. */
  lemma DecodeExactly(p: Primitives, input: bytes, password: Option<bytes>, m: StunMessage)
    ensures Decode(p, input, password) == Ok(m) <==> Accepts(p, input, password, m)
  {
    DecodeByParts(p, input, password, m);
    if |input| >= 20 {
      ClassExactly(input[..2], m.class_);
      CookieExactly(input[4..8]);
      var end := 20 + FromBigEndian(input[2..4]);
      if end <= |input| {
        BodyExactly(p, input[..end], m.transactionId, password, m.attributes);
      }
    }
  }

  lemma BodyTagged(p: Primitives, input: bytes, attrs: seq<StunAttribute>, tid: TransactionId, password: bytes) returns (at: nat)
    requires BodyAccepted(p, input, attrs, tid, Some(password))
    ensures 20 <= at <= |input|
    ensures FirstIntegrity(attrs) == Some(p.integrity(HashedPrefix(input, at, 24), password))
  {
    var raws: seq<Raw> :| Tiles(input, raws, 20, |input|) && BodyHolds(p, input, raws, attrs, tid, Some(password));
    assert Authenticated(p, input, raws, password);
    var first: nat, last: nat :| FirstOf(raws, 0x0008, first) && LastOf(raws, 0x0008, last)
      && SignedBy(p, input, raws[first], raws[last], password);
    IntegrityValue(p, raws, attrs, tid, first);
    at := raws[last].offset;
  }

  /**
   Every message accepted under a password carries the tag of that password, in
   its first MESSAGE-INTEGRITY, over its bytes up to some offset.
   */
  lemma AcceptedIsTagged(p: Primitives, input: bytes, password: bytes) returns (at: nat)
    requires Decode(p, input, Some(password)).Ok?
    ensures 20 <= at <= |input|
    ensures FirstIntegrity(Decode(p, input, Some(password)).value.attributes)
            == Some(p.integrity(input[..2] + BigEndian(at + 4, 2) + input[4..at], password))
  {
    var m := Decode(p, input, Some(password)).value;
    DecodeExactly(p, input, Some(password), m);
    var end := 20 + FromBigEndian(input[2..4]);
    at := BodyTagged(p, input[..end], m.attributes, m.transactionId, password);
    assert input[..end][..2] == input[..2] && input[..end][4..at] == input[4..at];
  }

  // ----------------------------------------------------------------- the refusals

  /** Which header fault is reported, in terms of the bytes: the length, then the type, the declared length and the cookie. */
  lemma HeaderRefusals(p: Primitives, input: bytes, password: Option<bytes>)
    ensures var result := Decode(p, input, password);
            && (|input| < 20 ==> result == Err(MessageTooShort))
            && (|input| >= 20 ==>
                  var known := input[..2] in {[0, 1], [0, 0x11], [1, 1], [1, 0x11]};
                  && (!known ==> result == Err(UnsupportedMessageType))
                  && (known && |input| < 20 + FromBigEndian(input[2..4]) ==> result == Err(BodyTruncated))
                  && (known && |input| >= 20 + FromBigEndian(input[2..4]) && input[4..8] != [0x21, 0x12, 0xA4, 0x42] ==>
                        result == Err(BadMagicCookie)))
  {
    if |input| >= 20 {
      KnownTypes(input[..2]);
      CookieExactly(input[4..8]);
    }
  }

  lemma KnownTypes(kind: bytes)
    requires |kind| == 2
    ensures ClassFromMessageType(FromBigEndian(kind)).Ok? <==> kind in {[0, 1], [0, 0x11], [1, 1], [1, 0x11]}
  {
    ClassExactly(kind, Request);
    ClassExactly(kind, Indication);
    ClassExactly(kind, SuccessResponse);
    ClassExactly(kind, ErrorResponse);
  }

  /** With a right header whose attributes decode, the one fault left is in the tags: the fingerprint is checked first. */
  lemma TagRefusals(p: Primitives, input: bytes, raws: seq<Raw>, attrs: seq<StunAttribute>, tid: TransactionId, password: Option<bytes>)
    requires |input| >= 20 && Tiles(input, raws, 20, |input|) && Decodes(p, raws, attrs, tid)
    ensures DecodeBody(p, input, tid, password)
            == if !Fingerprinted(p, input, raws) then Err(FingerprintMismatch)
               else if password.None? then Ok(attrs)
               else if forall i :: 0 <= i < |raws| ==> raws[i].typeCode != 0x0008 then Err(MissingIntegrity)
               else if !Authenticated(p, input, raws, password.value) then Err(IntegrityMismatch)
               else Ok(attrs)
  {
    TilesSplit(input, raws, 20);
    DecodesExactly(p, raws, attrs, tid);
    FingerprintExactly(p, input, raws, attrs, tid);
    if password.Some? {
      IntegrityExactly(p, input, raws, attrs, tid, password.value);
      OffsetExactly(raws, 0x0008);
    }
  }

  lemma {:induction false} OffsetExactly(raws: seq<Raw>, typeCode: u16)
    ensures LastOffset(raws, typeCode).None? <==> forall i :: 0 <= i < |raws| ==> raws[i].typeCode != typeCode
  {
    if raws != [] {
      var n := |raws| - 1;
      OffsetExactly(raws[..n], typeCode);
      assert forall i :: 0 <= i < n ==> raws[..n][i] == raws[i];
    }
  }
}
