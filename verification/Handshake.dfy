/** The key agreement that gives the two ends of a session their mirrored keys. */
module Handshake {
  import opened Bytes
  import opened PqcFrames

  const SUITE_FIPS203 := "QLINK-FIPS203-MLKEM768-SHAKE256-v1"
  const SUITE_FIPS204 := "QLINK-FIPS204-MLDSA65-SHAKE256-v1"
  const SUITE_FIPS205 := "QLINK-FIPS205-SLHDSA-SHAKE128S-SHAKE256-v1"
  const TRANSCRIPT_LABEL := "QuantumLink transcript hash v1"
  const I2R_LABEL := "QuantumLink ML-KEM session key initiator-to-responder v1"
  const R2I_LABEL := "QuantumLink ML-KEM session key responder-to-initiator v1"
  const PROTOCOL_VERSION := 1
  const CIPHERTEXT_LEN := 1088
  const ENCAPSULATION_KEY_LEN := 1184

  datatype InitiatorHello = InitiatorHello(version: nat, suite: string, nonce: bytes)

  datatype ResponderHello = ResponderHello(version: nat, suite: string, encapsulationKey: bytes, nonce: bytes)

  datatype InitiatorFinish = InitiatorFinish(version: nat, suite: string, ciphertext: bytes, transcriptHash: bytes)

  datatype ResponderState = ResponderState(secret: bytes, hello: ResponderHello)

  datatype HandshakeError =
    | UnsupportedVersion
    | UnsupportedSuite
    | SuiteMismatch
    | InvalidEncapsulationKey
    | TranscriptMismatch
    | InvalidCiphertext

  /**
   The primitives of other libraries: the key encapsulation of FIPS 203 (with
   its random coins as an input), the extendable-output hash, and the
   serialisation of the two greetings that the transcript covers.
   */
  datatype Primitives = Primitives(
    xof: Xof,
    publicKey: bytes -> bytes,
    keyIsValid: bytes -> bool,
    encapsulate: (bytes, bytes) -> (bytes, bytes),
    decapsulate: (bytes, bytes) -> bytes,
    initiatorJson: InitiatorHello -> bytes,
    responderJson: ResponderHello -> bytes)

  /** Correctness of the key encapsulation: the holder of the secret recovers the shared value. */
  ghost predicate KemCorrect(p: Primitives) {
    forall secret: bytes, coins: bytes ::
      && |p.publicKey(secret)| == ENCAPSULATION_KEY_LEN && p.keyIsValid(p.publicKey(secret))
      && |p.encapsulate(p.publicKey(secret), coins).0| == CIPHERTEXT_LEN
      && p.decapsulate(secret, p.encapsulate(p.publicKey(secret), coins).0) == p.encapsulate(p.publicKey(secret), coins).1
  }

  predicate KnownSuite(suite: string) {
    suite == SUITE_FIPS203 || suite == SUITE_FIPS204 || suite == SUITE_FIPS205
  }

  function SuiteFault(version: nat, suite: string): Option<HandshakeError> {
    if version != PROTOCOL_VERSION then Some(UnsupportedVersion)
    else if !KnownSuite(suite) then Some(UnsupportedSuite)
    else None
  }

  function HashTranscript(p: Primitives, i: InitiatorHello, r: ResponderHello): bytes {
    p.xof([Ascii(TRANSCRIPT_LABEL), p.initiatorJson(i), p.responderJson(r)], 32)
  }

  /** The initiator-to-responder and responder-to-initiator keys. */
  function DeriveKeys(p: Primitives, shared: bytes, transcriptHash: bytes, suite: string): (bytes, bytes) {
    (p.xof([Ascii(I2R_LABEL), Ascii(suite), shared, transcriptHash], 32),
     p.xof([Ascii(R2I_LABEL), Ascii(suite), shared, transcriptHash], 32))
  }

  function StartHandshake(suite: string, nonce: bytes): Result<InitiatorHello, HandshakeError> {
    if KnownSuite(suite) then Ok(InitiatorHello(PROTOCOL_VERSION, suite, nonce)) else Err(UnsupportedSuite)
  }

  function AnswerHandshake(p: Primitives, i: InitiatorHello, secret: bytes, nonce: bytes): Result<ResponderState, HandshakeError> {
    var fault := SuiteFault(i.version, i.suite);
    if fault.Some? then Err(fault.value)
    else Ok(ResponderState(secret, ResponderHello(PROTOCOL_VERSION, i.suite, p.publicKey(secret), nonce)))
  }

  function FinishInitiator(p: Primitives, hello: InitiatorHello, r: ResponderHello, coins: bytes)
    : Result<(InitiatorFinish, SessionKeys), HandshakeError>
  {
    var fault := SuiteFault(r.version, r.suite);
    if fault.Some? then Err(fault.value)
    else if r.suite != hello.suite then Err(SuiteMismatch)
    else if |r.encapsulationKey| != ENCAPSULATION_KEY_LEN || !p.keyIsValid(r.encapsulationKey) then Err(InvalidEncapsulationKey)
    else
      var (ciphertext, shared) := p.encapsulate(r.encapsulationKey, coins);
      var hash := HashTranscript(p, hello, r);
      var (i2r, r2i) := DeriveKeys(p, shared, hash, r.suite);
      Ok((InitiatorFinish(PROTOCOL_VERSION, r.suite, ciphertext, hash), SessionKeys(r.suite, hash, i2r, r2i)))
  }

  function FinishResponder(p: Primitives, state: ResponderState, i: InitiatorHello, finish: InitiatorFinish): Result<SessionKeys, HandshakeError> {
    var fault := SuiteFault(finish.version, finish.suite);
    if fault.Some? then Err(fault.value)
    else if i.suite != state.hello.suite || finish.suite != state.hello.suite then Err(SuiteMismatch)
    else
      var hash := HashTranscript(p, i, state.hello);
      if finish.transcriptHash != hash then Err(TranscriptMismatch)
      else if |finish.ciphertext| != CIPHERTEXT_LEN then Err(InvalidCiphertext)
      else
        var (i2r, r2i) := DeriveKeys(p, p.decapsulate(state.secret, finish.ciphertext), hash, state.hello.suite);
        Ok(SessionKeys(state.hello.suite, hash, r2i, i2r))
  }

  lemma LabelsDiffer()
    ensures Ascii(I2R_LABEL) != Ascii(R2I_LABEL)
  {
    assert I2R_LABEL[31] == 'i' && R2I_LABEL[31] == 'r';
    assert Ascii(I2R_LABEL)[31] == 'i' as int % 256 && Ascii(R2I_LABEL)[31] == 'r' as int % 256;
  }

  /** The two keys are hashes of different inputs, each naming suite, shared secret and transcript. */
  lemma KeysDerived(p: Primitives, shared: bytes, hash: bytes, suite: string)
    ensures DeriveKeys(p, shared, hash, suite)
            == (p.xof([Ascii(I2R_LABEL), Ascii(suite), shared, hash], 32), p.xof([Ascii(R2I_LABEL), Ascii(suite), shared, hash], 32))
    ensures [Ascii(I2R_LABEL), Ascii(suite), shared, hash] != [Ascii(R2I_LABEL), Ascii(suite), shared, hash]
  {
    LabelsDiffer();
    assert [Ascii(I2R_LABEL), Ascii(suite), shared, hash][0] == Ascii(I2R_LABEL);
    assert [Ascii(R2I_LABEL), Ascii(suite), shared, hash][0] == Ascii(R2I_LABEL);
  }

  /** Greetings name the version and a known suite, exactly or not at all; an answer keeps the suite and offers the key of its secret. */
  lemma GreetingsExact(p: Primitives, suite: string, i: InitiatorHello, secret: bytes, nonce: bytes)
    ensures StartHandshake(suite, nonce)
            == if suite in {SUITE_FIPS203, SUITE_FIPS204, SUITE_FIPS205} then Ok(InitiatorHello(1, suite, nonce)) else Err(UnsupportedSuite)
    ensures AnswerHandshake(p, i, secret, nonce)
            == if i.version != 1 then Err(UnsupportedVersion)
               else if i.suite !in {SUITE_FIPS203, SUITE_FIPS204, SUITE_FIPS205} then Err(UnsupportedSuite)
               else Ok(ResponderState(secret, ResponderHello(1, i.suite, p.publicKey(secret), nonce)))
  {
  }

  /**
   The initiator finishes exactly on a greeting of the known version, its own
   suite and a valid key. It then sends with the initiator's key and receives
   with the responder's, both bound to the hash of both greetings.
   */
  lemma InitiatorFinishes(p: Primitives, hello: InitiatorHello, r: ResponderHello, coins: bytes)
    ensures var result := FinishInitiator(p, hello, r, coins);
            var hash := p.xof([Ascii(TRANSCRIPT_LABEL), p.initiatorJson(hello), p.responderJson(r)], 32);
            var (ciphertext, shared) := p.encapsulate(r.encapsulationKey, coins);
            && (result.Ok? <==> r.version == 1 && r.suite in {SUITE_FIPS203, SUITE_FIPS204, SUITE_FIPS205} && r.suite == hello.suite
                                && |r.encapsulationKey| == 1184 && p.keyIsValid(r.encapsulationKey))
            && (result.Ok? ==>
                  && result.value.0 == InitiatorFinish(1, r.suite, ciphertext, hash)
                  && result.value.1 == SessionKeys(r.suite, hash,
                                                   p.xof([Ascii(I2R_LABEL), Ascii(r.suite), shared, hash], 32),
                                                   p.xof([Ascii(R2I_LABEL), Ascii(r.suite), shared, hash], 32)))
  {
  }

  /** The responder finishes exactly on a message that names its version, its suite and its own transcript; its keys are crossed over. */
  lemma ResponderFinishes(p: Primitives, state: ResponderState, i: InitiatorHello, finish: InitiatorFinish)
    ensures var result := FinishResponder(p, state, i, finish);
            var hash := p.xof([Ascii(TRANSCRIPT_LABEL), p.initiatorJson(i), p.responderJson(state.hello)], 32);
            var shared := p.decapsulate(state.secret, finish.ciphertext);
            && (result.Ok? <==> finish.version == 1 && finish.suite in {SUITE_FIPS203, SUITE_FIPS204, SUITE_FIPS205}
                                && i.suite == finish.suite == state.hello.suite
                                && finish.transcriptHash == hash && |finish.ciphertext| == 1088)
            && (result.Ok? ==>
                  result.value == SessionKeys(state.hello.suite, hash,
                                              p.xof([Ascii(R2I_LABEL), Ascii(state.hello.suite), shared, hash], 32),
                                              p.xof([Ascii(I2R_LABEL), Ascii(state.hello.suite), shared, hash], 32)))
  {
  }

  /** What the two ends hold after a handshake delivered unchanged, or the first refusal. */
  function Honest(p: Primitives, suite: string, secret: bytes, nonceI: bytes, nonceR: bytes, coins: bytes)
    : Result<(SessionKeys, SessionKeys), HandshakeError>
  {
    var hello := StartHandshake(suite, nonceI);
    if hello.Err? then Err(hello.error)
    else
      var state := AnswerHandshake(p, hello.value, secret, nonceR);
      if state.Err? then Err(state.error)
      else
        var finished := FinishInitiator(p, hello.value, state.value.hello, coins);
        if finished.Err? then Err(finished.error)
        else
          var answered := FinishResponder(p, state.value, hello.value, finished.value.0);
          if answered.Err? then Err(answered.error) else Ok((finished.value.1, answered.value))
  }

  /** A handshake delivered unchanged succeeds for exactly the known suites, and leaves mirrored keys. */
  lemma HonestHandshakeMirrors(p: Primitives, suite: string, secret: bytes, nonceI: bytes, nonceR: bytes, coins: bytes)
    requires KemCorrect(p)
    ensures var keys := Honest(p, suite, secret, nonceI, nonceR, coins);
            && (keys.Ok? <==> KnownSuite(suite))
            && (keys.Ok? ==> Mirrored(keys.value.0, keys.value.1) && keys.value.0.suite == suite)
  {
    if KnownSuite(suite) {
      var shared := p.encapsulate(p.publicKey(secret), coins);
      assert p.decapsulate(secret, shared.0) == shared.1;
    }
  }

  /** These two transcripts hash alike only when they are the same. */
  predicate NoCollision(p: Primitives, i: InitiatorHello, r: ResponderHello, i': InitiatorHello, r': ResponderHello) {
    HashTranscript(p, i, r) == HashTranscript(p, i', r') ==> i == i' && r == r'
  }

  /**
   A responder that finishes on the initiator's message holds the initiator's
   transcript hash and suite. Unless the two transcripts collide, it finishes
   exactly when each side saw the other's greeting unchanged, and then both hold
   mirrored keys: tampering with either greeting is always noticed.
   */
  lemma ResponderChecksTranscript(p: Primitives, secret: bytes, nonce: bytes, seen: InitiatorHello, sent: InitiatorHello,
                                  seenByInitiator: ResponderHello, coins: bytes)
    requires AnswerHandshake(p, seen, secret, nonce).Ok? && FinishInitiator(p, sent, seenByInitiator, coins).Ok?
    ensures var state := AnswerHandshake(p, seen, secret, nonce).value;
            var (finish, keys) := FinishInitiator(p, sent, seenByInitiator, coins).value;
            var result := FinishResponder(p, state, seen, finish);
            && (result.Ok? ==>
                  && HashTranscript(p, seen, state.hello) == HashTranscript(p, sent, seenByInitiator)
                  && result.value.handshakeHash == keys.handshakeHash && result.value.suite == keys.suite
                  && seen.suite == sent.suite)
            && (KemCorrect(p) && NoCollision(p, seen, state.hello, sent, seenByInitiator) ==>
                  && (result.Ok? <==> seen == sent && seenByInitiator == state.hello)
                  && (result.Ok? ==> Mirrored(keys, result.value)))
  {
    var state := AnswerHandshake(p, seen, secret, nonce).value;
    if KemCorrect(p) && seenByInitiator == state.hello {
      var shared := p.encapsulate(p.publicKey(secret), coins);
      assert |shared.0| == CIPHERTEXT_LEN && p.decapsulate(secret, shared.0) == shared.1;
    }
  }

  /**
   End to end: after an honestly delivered handshake, over every schedule of
   protected frames in both directions and any injected bytes, only frames with
   a tag of the shared key open, none twice; and while nobody forges a tag, each
   opened frame is one the peer sent, with its content.
   */
  lemma EndToEnd(p: Primitives, suite: string, secret: bytes, nonceI: bytes, nonceR: bytes, coins: bytes, events: seq<Event>)
    requires KemCorrect(p) && KnownSuite(suite)
    ensures var keys := Honest(p, suite, secret, nonceI, nonceR, coins);
            && keys.Ok? && LinkOk(p.xof, Run(p.xof, keys.value.0, keys.value.1, events))
            && (Unforged(p.xof, keys.value.0, keys.value.1, events) ==>
                  var l := Run(p.xof, keys.value.0, keys.value.1, events);
                  Genuine(l.fromA, l.openedByB) && Genuine(l.fromB, l.openedByA))
  {
    HonestHandshakeMirrors(p, suite, secret, nonceI, nonceR, coins);
    var keys := Honest(p, suite, secret, nonceI, nonceR, coins).value;
    LinkInvariant(p.xof, keys.0, keys.1, events);
    if Unforged(p.xof, keys.0, keys.1, events) {
      OnlySentFramesOpen(p.xof, keys.0, keys.1, events);
    }
  }

  /** After an honest handshake every frame sent over an undisturbed line opens, in order. */
  lemma OrderedEndToEnd(p: Primitives, suite: string, secret: bytes, nonceI: bytes, nonceR: bytes, coins: bytes, frames: seq<bytes>)
    requires KemCorrect(p) && KnownSuite(suite)
    requires |frames| + 1 < U64 && forall i :: 0 <= i < |frames| ==> |frames[i]| < U32
    ensures var keys := Honest(p, suite, secret, nonceI, nonceR, coins);
            keys.Ok? && OpenedInOrder(Run(p.xof, keys.value.0, keys.value.1, Exchange(frames)), frames)
  {
    HonestHandshakeMirrors(p, suite, secret, nonceI, nonceR, coins);
    var keys := Honest(p, suite, secret, nonceI, nonceR, coins).value;
    OrderedLineOpens(p.xof, keys.0, keys.1, frames);
  }
}
