/**
 The disk image of the file store: version 1 is the table in the clear, version
 3 the same table masked and tagged under the store's key. JSON and base64 are
 foreign; only that reading undoes writing is used.
 */
module PeerDisk {
  import opened Bytes
  import opened PeerRecords

  const PLAINTEXT_FORMAT_VERSION := 1
  const LEGACY_PROTECTED_FORMAT_VERSION := 2
  const ENCRYPTED_FORMAT_VERSION := 3
  const PEER_STORE_NONCE_LEN := 24
  const PEER_STORE_TAG_LEN := 32
  const ENCRYPTION_AAD := Ascii("qlink-peer-store")
  const PEER_STORE_STREAM_LABEL := Ascii("QuantumLink peer-store SHAKE256 stream v3")
  const PEER_STORE_TAG_LABEL := Ascii("QuantumLink peer-store SHAKE256 tag v3")

  datatype Plaintext = Plaintext(version: nat, meshes: Meshes)
  datatype Envelope = Envelope(version: nat, nonce: string, ciphertext: string)

  datatype Formats = Formats(
    writePlain: (Plaintext, bool) -> bytes,
    writeEnvelope: Envelope -> bytes,
    readVersion: bytes -> Option<nat>,
    readPlain: bytes -> Option<Plaintext>,
    readEnvelope: bytes -> Option<Envelope>,
    toBase64: bytes -> string,
    fromBase64: string -> Option<bytes>,
    xof: Xof)

  /** The inverse laws of the foreign encoders; the flag of writePlain asks for pretty printing. */
  ghost predicate Lawful(f: Formats) {
    && (forall p, pretty :: f.readPlain(f.writePlain(p, pretty)) == Some(p))
    && (forall p, pretty :: f.readVersion(f.writePlain(p, pretty)) == Some(p.version))
    && (forall e :: f.readEnvelope(f.writeEnvelope(e)) == Some(e))
    && (forall e :: f.readVersion(f.writeEnvelope(e)) == Some(e.version))
    && (forall b :: f.fromBase64(f.toBase64(b)) == Some(b))
  }

  function Mask(f: Formats, key: bytes, nonce: bytes, input: bytes): (r: bytes)
    ensures |r| == |input|
  {
    XorAll(input, f.xof([PEER_STORE_STREAM_LABEL, key, nonce, ENCRYPTION_AAD], |input|))
  }

  function Tag(f: Formats, key: bytes, nonce: bytes, ciphertext: bytes): (r: bytes)
    ensures |r| == PEER_STORE_TAG_LEN
  {
    f.xof([PEER_STORE_TAG_LABEL, key, nonce, ENCRYPTION_AAD, ciphertext], PEER_STORE_TAG_LEN)
  }

  function SealedPayload(f: Formats, key: bytes, nonce: bytes, plain: bytes): bytes {
    var ciphertext := Mask(f, key, nonce, plain);
    ciphertext + Tag(f, key, nonce, ciphertext)
  }

  /** The bytes a write puts on disk. */
  function Image(f: Formats, snapshot: Meshes, key: Option<bytes>, nonce: bytes): bytes {
    var plain := Plaintext(PLAINTEXT_FORMAT_VERSION, snapshot);
    match key
    case None => f.writePlain(plain, true)
    case Some(k) =>
      var payload := SealedPayload(f, k, nonce, f.writePlain(plain, false));
      f.writeEnvelope(Envelope(ENCRYPTED_FORMAT_VERSION, f.toBase64(nonce), f.toBase64(payload)))
  }

  /** None stands for every refusal: bad base64, nonce length, short payload, tag, or inner table. */
  function OpenEnvelope(f: Formats, envelope: Envelope, key: bytes): Option<Meshes> {
    var nonce := f.fromBase64(envelope.nonce);
    var payload := f.fromBase64(envelope.ciphertext);
    if nonce.None? || |nonce.value| != PEER_STORE_NONCE_LEN then None
    else if payload.None? || |payload.value| < PEER_STORE_TAG_LEN then None
    else
      var split := |payload.value| - PEER_STORE_TAG_LEN;
      var ciphertext, tag := payload.value[..split], payload.value[split..];
      if tag != Tag(f, key, nonce.value, ciphertext) then None
      else
        match f.readPlain(Mask(f, key, nonce.value, ciphertext))
        case None => None
        case Some(plain) => Some(plain.meshes)
  }

  function DecodeOrEmpty(f: Formats, image: bytes, key: Option<bytes>): Meshes {
    match f.readVersion(image)
    case None => map[]
    case Some(version) =>
      if version == PLAINTEXT_FORMAT_VERSION then
        match f.readPlain(image)
        case Some(plain) => plain.meshes
        case None => map[]
      else if version == LEGACY_PROTECTED_FORMAT_VERSION then map[]
      else if version == ENCRYPTED_FORMAT_VERSION && key.Some? && f.readEnvelope(image).Some? then
        match OpenEnvelope(f, f.readEnvelope(image).value, key.value)
        case Some(meshes) => meshes
        case None => map[]
      else map[]
  }

  /** What a store opened on this file starts with; a missing file is an empty table. */
  function Opened(f: Formats, disk: Option<bytes>, key: Option<bytes>): Meshes {
    if disk.None? then map[] else DecodeOrEmpty(f, disk.value, key)
  }

  lemma SealedOpens(f: Formats, key: bytes, nonce: bytes, plain: Plaintext)
    requires Lawful(f) && |nonce| == PEER_STORE_NONCE_LEN
    ensures var payload := SealedPayload(f, key, nonce, f.writePlain(plain, false));
            OpenEnvelope(f, Envelope(ENCRYPTED_FORMAT_VERSION, f.toBase64(nonce), f.toBase64(payload)), key) == Some(plain.meshes)
  {
    var inner := f.writePlain(plain, false);
    var ciphertext := Mask(f, key, nonce, inner);
    var payload := SealedPayload(f, key, nonce, inner);
    var split := |payload| - PEER_STORE_TAG_LEN;
    assert payload[..split] == ciphertext && payload[split..] == Tag(f, key, nonce, ciphertext);
    XorAllUndo(inner, f.xof([PEER_STORE_STREAM_LABEL, key, nonce, ENCRYPTION_AAD], |inner|));
  }

  /**
   Every image opens under the key it was written with to the snapshot written.
   A clear image opens under any key; a protected one without a key is empty.
   */
  lemma ImageOpens(f: Formats, snapshot: Meshes, key: Option<bytes>, nonce: bytes)
    requires Lawful(f) && |nonce| == PEER_STORE_NONCE_LEN
    ensures DecodeOrEmpty(f, Image(f, snapshot, key, nonce), key) == snapshot
    ensures key.None? ==> forall other :: DecodeOrEmpty(f, Image(f, snapshot, key, nonce), other) == snapshot
    ensures key.Some? ==> DecodeOrEmpty(f, Image(f, snapshot, key, nonce), None) == map[]
  {
    if key.Some? {
      SealedOpens(f, key.value, nonce, Plaintext(PLAINTEXT_FORMAT_VERSION, snapshot));
    }
  }

  /**
   What any key makes of an image protected under another: nothing while the
   tags differ, and otherwise whatever table its own stream happens to unmask.
   */
  lemma WrongKeyReadsEmpty(f: Formats, snapshot: Meshes, key: bytes, nonce: bytes, other: bytes)
    requires Lawful(f) && |nonce| == PEER_STORE_NONCE_LEN
    ensures var ciphertext := Mask(f, key, nonce, f.writePlain(Plaintext(PLAINTEXT_FORMAT_VERSION, snapshot), false));
            var unmasked := f.readPlain(Mask(f, other, nonce, ciphertext));
            DecodeOrEmpty(f, Image(f, snapshot, Some(key), nonce), Some(other))
            == if Tag(f, other, nonce, ciphertext) == Tag(f, key, nonce, ciphertext) && unmasked.Some?
               then unmasked.value.meshes else map[]
  {
    var inner := f.writePlain(Plaintext(PLAINTEXT_FORMAT_VERSION, snapshot), false);
    var ciphertext := Mask(f, key, nonce, inner);
    var payload := SealedPayload(f, key, nonce, inner);
    var split := |payload| - PEER_STORE_TAG_LEN;
    assert payload[..split] == ciphertext && payload[split..] == Tag(f, key, nonce, ciphertext);
  }

  // ----- what is on disk, byte by byte -----

  /**
   A sealed payload is the table's bytes under the key's stream, then a tag over
   key, nonce and exactly those masked bytes.
   */
  lemma SealedBytes(f: Formats, key: bytes, nonce: bytes, plain: bytes)
    ensures var payload := SealedPayload(f, key, nonce, plain);
            var stream := f.xof([PEER_STORE_STREAM_LABEL, key, nonce, ENCRYPTION_AAD], |plain|);
            && |payload| == |plain| + 32
            && (forall i :: 0 <= i < |plain| ==> payload[i] == Xor(plain[i], stream[i]))
            && payload[|plain|..] == f.xof([PEER_STORE_TAG_LABEL, key, nonce, ENCRYPTION_AAD, payload[..|plain|]], 32)
  {
    var ciphertext := Mask(f, key, nonce, plain);
    var payload := SealedPayload(f, key, nonce, plain);
    assert payload[..|plain|] == ciphertext && payload[|plain|..] == Tag(f, key, nonce, ciphertext);
  }

  /** The file written with a key is an envelope of the nonce and the sealed table; without one it is the table itself. */
  lemma ImageBytes(f: Formats, snapshot: Meshes, key: Option<bytes>, nonce: bytes)
    requires Lawful(f)
    ensures key.None? ==> f.readPlain(Image(f, snapshot, key, nonce)) == Some(Plaintext(1, snapshot))
    ensures key.Some? ==>
      var e := f.readEnvelope(Image(f, snapshot, key, nonce));
      && e.Some? && e.value.version == 3 && f.fromBase64(e.value.nonce) == Some(nonce)
      && f.fromBase64(e.value.ciphertext) == Some(SealedPayload(f, key.value, nonce, f.writePlain(Plaintext(1, snapshot), false)))
  {
  }

  /** The table's bytes behind a payload, under the stream of a key and a nonce. */
  predicate UnmasksTo(f: Formats, key: bytes, nonce: bytes, payload: bytes, plain: bytes) {
    && |payload| >= 32 && |plain| == |payload| - 32
    && var stream := f.xof([PEER_STORE_STREAM_LABEL, key, nonce, ENCRYPTION_AAD], |plain|);
       forall i :: 0 <= i < |plain| ==> plain[i] == Xor(payload[i], stream[i])
  }

  /**
   Exactly when an envelope opens, and to what: its nonce has 24 bytes, its last
   32 bytes are the tag of this key over the bytes before them, and those bytes
   unmask to a table.
   */
  lemma EnvelopeOpensExactly(f: Formats, e: Envelope, key: bytes, nonce: bytes, payload: bytes, plain: bytes)
    requires f.fromBase64(e.nonce) == Some(nonce) && f.fromBase64(e.ciphertext) == Some(payload)
    requires UnmasksTo(f, key, nonce, payload, plain)
    ensures var masked := payload[..|plain|];
            OpenEnvelope(f, e, key)
            == if |nonce| == 24 && payload[|plain|..] == f.xof([PEER_STORE_TAG_LABEL, key, nonce, ENCRYPTION_AAD, masked], 32)
                  && f.readPlain(plain).Some?
               then Some(f.readPlain(plain).value.meshes) else None
  {
    assert Mask(f, key, nonce, payload[..|plain|]) == plain;
  }

  lemma MalformedEnvelopeIsRefused(f: Formats, e: Envelope, key: bytes)
    ensures var nonce, payload := f.fromBase64(e.nonce), f.fromBase64(e.ciphertext);
            nonce.None? || |nonce.value| != 24 || payload.None? || |payload.value| < 32 ==> OpenEnvelope(f, e, key).None?
  {
  }

  /** Which files are read at all: version 1 as it stands, version 3 with a key, everything else as empty. */
  lemma VersionsRead(f: Formats, image: bytes, key: Option<bytes>)
    ensures var version, table := f.readVersion(image), DecodeOrEmpty(f, image, key);
            && (version == Some(1) && f.readPlain(image).Some? ==> table == f.readPlain(image).value.meshes)
            && (version == Some(1) && f.readPlain(image).None? ==> table == map[])
            && (version == Some(3) && (key.None? || f.readEnvelope(image).None?) ==> table == map[])
            && (version == Some(3) && key.Some? && f.readEnvelope(image).Some? ==>
                  var content := OpenEnvelope(f, f.readEnvelope(image).value, key.value);
                  table == if content.Some? then content.value else map[])
            && (version !in {Some(1), Some(3)} ==> table == map[])
  {
  }

  // ----- runs of the file store -----

  /** What the environment decides about the write a call may make: whether it reaches the disk, and the nonce. */
  datatype Write = Write(succeeds: bool, nonce: bytes)
  datatype Step = Step(call: Call, write: Write)
  datatype FileStore = FileStore(records: Meshes, key: Option<bytes>, disk: Option<bytes>)

  /** The state after a call left these records, with a write attempted under the key if one is due. */
  function Persisted(f: Formats, s: FileStore, records: Meshes, due: bool, key: Option<bytes>, w: Write): (FileStore, Option<Meshes>) {
    if due && w.succeeds then (FileStore(records, key, Some(Image(f, records, key, w.nonce))), Some(records))
    else (s.(records := records), None)
  }

  /** The next state, and the snapshot this step put on disk, if it did. */
  function Next(f: Formats, s: FileStore, step: Step): (FileStore, Option<Meshes>) {
    var (records, due) := NextMeshes(s.records, step.call);
    Persisted(f, s, records, due, if step.call.Rotate? then step.call.newKey else s.key, step.write)
  }

  function OpenStore(f: Formats, disk: Option<bytes>, key: Option<bytes>): FileStore {
    FileStore(Opened(f, disk, key), key, disk)
  }

  function Run(f: Formats, start: FileStore, steps: seq<Step>): FileStore {
    if steps == [] then start
    else Next(f, Run(f, start, steps[..|steps| - 1]), steps[|steps| - 1]).0
  }

  /** The last snapshot that reached the disk. */
  function LastWritten(f: Formats, start: FileStore, steps: seq<Step>): Meshes {
    if steps == [] then start.records
    else
      var before := steps[..|steps| - 1];
      match Next(f, Run(f, start, before), steps[|steps| - 1]).1
      case Some(snapshot) => snapshot
      case None => LastWritten(f, start, before)
  }

  predicate NoncesFit(steps: seq<Step>) {
    forall t :: 0 <= t < |steps| ==> |steps[t].write.nonce| == PEER_STORE_NONCE_LEN
  }

  lemma NextKeepsImage(f: Formats, s: FileStore, step: Step, last: Meshes)
    requires Lawful(f) && |step.write.nonce| == PEER_STORE_NONCE_LEN
    requires Opened(f, s.disk, s.key) == last
    ensures var (after, wrote) := Next(f, s, step);
            Opened(f, after.disk, after.key) == (if wrote.Some? then wrote.value else last)
  {
    var (records, due) := NextMeshes(s.records, step.call);
    var key := if step.call.Rotate? then step.call.newKey else s.key;
    ImageOpens(f, records, key, step.write.nonce);
  }

  /**
   After any calls and any write failures, on a store opened on any file, the
   image opens under the key now in memory to the last snapshot that reached it.
   */
  lemma {:induction false} DiskHoldsLastSnapshot(f: Formats, disk: Option<bytes>, key: Option<bytes>, steps: seq<Step>)
    requires Lawful(f) && NoncesFit(steps)
    ensures var start := OpenStore(f, disk, key);
            var s := Run(f, start, steps);
            Opened(f, s.disk, s.key) == LastWritten(f, start, steps)
  {
    if steps != [] {
      var start, before := OpenStore(f, disk, key), steps[..|steps| - 1];
      DiskHoldsLastSnapshot(f, disk, key, before);
      NextKeepsImage(f, Run(f, start, before), steps[|steps| - 1], LastWritten(f, start, before));
    }
  }

  /** The live table is the one the calls alone produce: writes never change it. */
  lemma {:induction false} LiveTable(f: Formats, steps: seq<Step>, key: Option<bytes>)
    ensures Run(f, OpenStore(f, None, key), steps).records == RunMeshes(seq(|steps|, t requires 0 <= t < |steps| => steps[t].call))
  {
    if steps != [] {
      var n := |steps| - 1;
      LiveTable(f, steps[..n], key);
      var calls := seq(|steps|, t requires 0 <= t < |steps| => steps[t].call);
      assert calls[..n] == seq(n, t requires 0 <= t < n => steps[..n][t].call);
    }
  }

  /**
   Which calls write: a store that was taken, a forget that removed, a prune
   that removed, and every rotation. Nothing else touches the file, and only a
   rotation that was written changes the key.
   */
  lemma WritesExactly(f: Formats, s: FileStore, step: Step)
    ensures var after := Next(f, s, step).0;
            var due := match step.call
                       case Store(mesh, record, now) =>
                         var held := Keep(LoadMeshes(s.records, mesh, record.peerId), now);
                         held.None? || held.value.sequence < record.sequence
                       case Forget(mesh, peer) => LoadMeshes(s.records, mesh, peer).Some?
                       case Prune(now) => |Flatten(UnexpiredMeshes(s.records, now))| < |Flatten(s.records)|
                       case Rotate(_, _) => true;
            && (after.disk == if due && step.write.succeeds then Some(Image(f, after.records, after.key, step.write.nonce)) else s.disk)
            && (after.key == if step.call.Rotate? && step.write.succeeds then step.call.newKey else s.key)
  {
    if step.call.Store? {
      UnexpiredLoads(s.records, step.call.now, step.call.mesh, step.call.record.peerId);
    }
  }

  // ----- reopening -----

  predicate AllWritten(steps: seq<Step>) {
    forall t :: 0 <= t < |steps| ==> steps[t].write.succeeds
  }

  /** Clock readings made by the store itself; a prune brings its own time and says nothing about the clock. */
  predicate ClockAtMost(steps: seq<Step>, now: nat) {
    forall t :: 0 <= t < |steps| && (steps[t].call.Store? || steps[t].call.Rotate?) ==> steps[t].call.now <= now
  }

  lemma UnexpiredTwice(m: Flat, early: nat, late: nat)
    requires early <= late
    ensures Unexpired(Unexpired(m, early), late) == Unexpired(m, late)
  {
  }

  /** A call that writes nothing leaves the live table as it was, apart from records stale at its clock reading. */
  lemma UnwrittenCall(n: Meshes, c: Call, now: nat)
    requires !NextMeshes(n, c).1
    requires c.Store? || c.Rotate? ==> c.now <= now
    ensures Unexpired(Flatten(NextMeshes(n, c).0), now) == Unexpired(Flatten(n), now)
  {
    match c
    case Store(mesh, record, at) =>
      var kept := UnexpiredMeshes(n, at);
      assert NextMeshes(n, c).0 == kept by {
        assert mesh in kept && kept[mesh := PeersOf(kept, mesh)] == kept;
      }
      UnexpiredRefines(n, at);
      UnexpiredTwice(Flatten(n), at, now);
    case Forget(mesh, peer) =>
    case Prune(at) =>
      UnexpiredRefines(n, at);
      SameSizeSame(Unexpired(Flatten(n), at), Flatten(n));
    case Rotate(_, at) =>
  }

  lemma SameSizeSame(a: Flat, b: Flat)
    requires a.Keys <= b.Keys && |a| >= |b| && forall k :: k in a ==> a[k] == b[k]
    ensures a == b
  {
    assert b.Keys == a.Keys + (b.Keys - a.Keys);
    assert |b.Keys - a.Keys| == 0;
    assert a.Keys == b.Keys;
  }

  /**
   While every due write succeeds and the store's clock stays at or below now,
   a store reopened on the file and the live one hold the same unexpired records.
   */
  lemma {:induction false} ReopenedAgrees(f: Formats, disk: Option<bytes>, key: Option<bytes>, steps: seq<Step>, now: nat)
    requires Lawful(f) && NoncesFit(steps) && AllWritten(steps) && ClockAtMost(steps, now)
    ensures var s := Run(f, OpenStore(f, disk, key), steps);
            Unexpired(Flatten(Opened(f, s.disk, s.key)), now) == Unexpired(Flatten(s.records), now)
  {
    if steps != [] {
      var n := |steps| - 1;
      var before, step := steps[..n], steps[n];
      ReopenedAgrees(f, disk, key, before, now);
      var s := Run(f, OpenStore(f, disk, key), before);
      NextKeepsImage(f, s, step, Opened(f, s.disk, s.key));
      if !NextMeshes(s.records, step.call).1 {
        UnwrittenCall(s.records, step.call, now);
      }
    }
  }
}
