/** The two peer stores as objects, with the file store's atomic replacement of its image. */
module PeerStores {
  import opened Bytes
  import opened PeerRecords
  import opened PeerDisk

  class InMemoryPeerStore {
    var inner: Flat

    constructor ()
      ensures inner == RunFlat([])
    {
      inner := map[];
    }

    method Load(mesh: string, peer: string) returns (r: Option<Record>)
      ensures r == LoadFlat(inner, mesh, peer)
    {
      r := None;
      if (mesh, peer) in inner {
        r := Some(inner[(mesh, peer)]);
      }
    }

    method Store(mesh: string, record: Record, now: nat)
      modifies this
      ensures inner == NextFlat(old(inner), Call.Store(mesh, record, now))
    {
      var key := (mesh, record.peerId);
      inner := Unexpired(inner, now);
      if key in inner && record.sequence <= inner[key].sequence {
        return;
      }
      inner := inner[key := record];
    }

    method Forget(mesh: string, peer: string)
      modifies this
      ensures inner == NextFlat(old(inner), Call.Forget(mesh, peer))
    {
      inner := inner - {(mesh, peer)};
    }

    method PruneExpired(now: nat) returns (removed: nat)
      modifies this
      ensures inner == NextFlat(old(inner), Call.Prune(now))
      ensures removed == |old(inner)| - |inner|
    {
      var before := |inner|;
      inner := Unexpired(inner, now);
      FlatShrinks(old(inner), now);
      removed := before - |inner|;
    }
  }

  lemma {:induction false} TaggedSize(mesh: string, peers: set<string>, tagged: set<(string, string)>)
    requires forall k :: k in tagged <==> k.0 == mesh && k.1 in peers
    ensures |tagged| == |peers|
  {
    if peers == {} {
      assert tagged == {};
    } else {
      var p :| p in peers;
      var k := (mesh, p);
      assert k in tagged;
      TaggedSize(mesh, peers - {p}, tagged - {k});
    }
  }

  lemma FlattenKeys(n: Meshes, k: (string, string))
    ensures k in Flatten(n).Keys <==> k.0 in n && k.1 in n[k.0]
  {
    FlattenLoads(n, k.0, k.1);
    assert k == (k.0, k.1);
  }

  lemma SplitSize(all: set<(string, string)>, rest: set<(string, string)>, mesh: string, peers: set<string>)
    requires forall k :: k in rest <==> k.0 != mesh && k in all
    requires forall k :: k in all && k.0 == mesh <==> k.0 == mesh && k.1 in peers
    ensures |all| == |peers| + |rest|
  {
    TaggedSize(mesh, peers, all - rest);
    assert all == rest + (all - rest);
  }

  lemma FlattenSplits(n: Meshes, mesh: string)
    requires mesh in n
    ensures |Flatten(n)| == |n[mesh]| + |Flatten(n - {mesh})|
  {
    var all, rest := Flatten(n).Keys, Flatten(n - {mesh}).Keys;
    forall k: (string, string)
      ensures k in all <==> k.0 in n && k.1 in n[k.0]
      ensures k in rest <==> k.0 != mesh && k in all
    {
      FlattenKeys(n, k);
      FlattenKeys(n - {mesh}, k);
    }
    SplitSize(all, rest, mesh, n[mesh].Keys);
  }

  lemma FlatShrinks(m: Flat, now: nat)
    ensures |Unexpired(m, now)| <= |m|
  {
    var kept := Unexpired(m, now).Keys;
    assert m.Keys == kept + (m.Keys - kept);
  }

  lemma UnexpiredShrinks(n: Meshes, now: nat)
    ensures |Flatten(UnexpiredMeshes(n, now))| <= |Flatten(n)|
  {
    UnexpiredRefines(n, now);
    FlatShrinks(Flatten(n), now);
  }

  /** Sums the sizes of the mesh tables. */
  method CountRecords(n: Meshes) returns (count: nat)
    ensures count == |Flatten(n)|
  {
    count := 0;
    var rest := n;
    while rest != map[]
      invariant count + |Flatten(rest)| == |Flatten(n)|
      decreases |rest|
    {
      var mesh :| mesh in rest;
      FlattenSplits(rest, mesh);
      count := count + |rest[mesh]|;
      assert |(rest - {mesh}).Keys| == |rest.Keys| - 1;
      rest := rest - {mesh};
    }
  }

  /** Where replacing the image can fail; a failed temporary write may leave part of the bytes there. */
  datatype Fault = NoFault | NoFileName | CreateFails | WriteFails(written: nat) | RenameFails

  class FilePeerStore {
    const formats: Formats
    var key: Option<bytes>
    var records: Meshes
    var disk: Option<bytes>
    var temp: Option<bytes>

    ghost function Model(): FileStore
      reads this
    {
      FileStore(records, key, disk)
    }

    /** Opens the store on the file found at its path. */
    constructor (formats: Formats, found: Option<bytes>, encryptionKey: Option<bytes>)
      ensures this.formats == formats && Model() == OpenStore(formats, found, encryptionKey)
    {
      this.formats := formats;
      key, disk, temp := encryptionKey, found, None;
      records := if found.Some? then DecodeOrEmpty(formats, found.value, encryptionKey) else map[];
    }

    method Load(mesh: string, peer: string) returns (r: Option<Record>)
      ensures r == LoadMeshes(records, mesh, peer)
    {
      r := None;
      if mesh in records {
        if peer in records[mesh] {
          r := Some(records[mesh][peer]);
        }
      }
    }

    method Len() returns (n: nat)
      ensures n == |Flatten(records)|
    {
      n := CountRecords(records);
    }

    /** Temporary file, then rename: the image is replaced whole or not at all. */
    method AtomicWrite(encoded: bytes, fault: Fault) returns (ok: bool)
      modifies this`disk, this`temp
      ensures ok == fault.NoFault?
      ensures disk == if ok then Some(encoded) else old(disk)
    {
      if fault.NoFileName? || fault.CreateFails? {
        return false;
      }
      temp := Some([]);
      if fault.WriteFails? {
        temp := Some(if fault.written < |encoded| then encoded[..fault.written] else encoded);
        return false;
      }
      temp := Some(encoded);
      if fault.RenameFails? {
        return false;
      }
      disk, temp := temp, None;
      ok := true;
    }

    method TryPersistWithKey(snapshot: Meshes, key: Option<bytes>, nonce: bytes, fault: Fault) returns (ok: bool)
      modifies this`disk, this`temp
      ensures ok == fault.NoFault?
      ensures disk == if ok then Some(Image(formats, snapshot, key, nonce)) else old(disk)
    {
      var plain := Plaintext(PLAINTEXT_FORMAT_VERSION, snapshot);
      var encoded;
      if key.None? {
        encoded := formats.writePlain(plain, true);
      } else {
        var ciphertext := Mask(formats, key.value, nonce, formats.writePlain(plain, false));
        var payload := ciphertext + Tag(formats, key.value, nonce, ciphertext);
        encoded := formats.writeEnvelope(
          Envelope(ENCRYPTED_FORMAT_VERSION, formats.toBase64(nonce), formats.toBase64(payload)));
      }
      ok := AtomicWrite(encoded, fault);
    }

    /** Says whether a snapshot is due. */
    method Insert(mesh: string, record: Record) returns (due: bool)
      modifies this`records
      ensures (records, due) == InsertMeshes(old(records), mesh, record)
    {
      if mesh !in records {
        records := records[mesh := map[]];
      }
      var peers := records[mesh];
      if record.peerId in peers && record.sequence <= peers[record.peerId].sequence {
        assert old(records)[mesh := peers] == records;
        return false;
      }
      records := records[mesh := peers[record.peerId := record]];
      assert records == old(records)[mesh := peers[record.peerId := record]];
      due := true;
    }

    method Store(mesh: string, record: Record, now: nat, nonce: bytes, fault: Fault)
      modifies this
      ensures Model() == Next(formats, old(Model()), Step(Call.Store(mesh, record, now), Write(fault.NoFault?, nonce))).0
    {
      records := UnexpiredMeshes(records, now);
      var due := Insert(mesh, record);
      Persist(due, nonce, fault);
    }

    method Forget(mesh: string, peer: string, nonce: bytes, fault: Fault)
      modifies this
      ensures Model() == Next(formats, old(Model()), Step(Call.Forget(mesh, peer), Write(fault.NoFault?, nonce))).0
    {
      if mesh !in records || peer !in records[mesh] {
        return;
      }
      var peers := records[mesh] - {peer};
      records := records[mesh := peers];
      if peers == map[] {
        records := records - {mesh};
        assert records == old(records) - {mesh};
      }
      Persist(true, nonce, fault);
    }

    /** Drops stale records and the meshes left without any; returns how many records went. */
    method Retain(now: nat) returns (removed: nat)
      modifies this`records
      ensures (records, removed > 0) == PruneMeshes(old(records), now)
      ensures removed == |Flatten(old(records))| - |Flatten(records)|
    {
      var before := CountRecords(records);
      UnexpiredShrinks(records, now);
      records := UnexpiredMeshes(records, now);
      var after := CountRecords(records);
      removed := before - after;
    }

    /** Attempts the write a call made due; failures leave the live records authoritative. */
    method Persist(due: bool, nonce: bytes, fault: Fault)
      modifies this`disk, this`temp
      ensures Model() == Persisted(formats, old(Model()), records, due, key, Write(fault.NoFault?, nonce)).0
    {
      if due {
        var _ := TryPersistWithKey(records, key, nonce, fault);
      }
    }

    method PruneExpired(now: nat, nonce: bytes, fault: Fault) returns (removed: nat)
      modifies this
      ensures Model() == Next(formats, old(Model()), Step(Call.Prune(now), Write(fault.NoFault?, nonce))).0
      ensures removed == |Flatten(old(records))| - |Flatten(records)|
    {
      removed := Retain(now);
      assert (records, removed > 0) == NextMeshes(old(records), Call.Prune(now));
      Persist(removed > 0, nonce, fault);
    }

    /** Writes under the new key first; the key in memory changes only when that succeeds. */
    method RotateKey(newKey: Option<bytes>, now: nat, nonce: bytes, fault: Fault) returns (count: Option<nat>)
      modifies this
      ensures Model() == Next(formats, old(Model()), Step(Call.Rotate(newKey, now), Write(fault.NoFault?, nonce))).0
      ensures count == if fault.NoFault? then Some(|Flatten(records)|) else None
    {
      records := UnexpiredMeshes(records, now);
      var ok := TryPersistWithKey(records, newKey, nonce, fault);
      if !ok {
        return None;
      }
      key := newKey;
      var n := CountRecords(records);
      count := Some(n);
    }
  }

  /** What reading the file gives: nothing there, its bytes, or another error. */
  datatype ReadOutcome = Missing | Found(image: bytes) | Unreadable

  /** Opens the store; only a read error other than a missing file refuses. */
  method Open(formats: Formats, read: ReadOutcome, key: Option<bytes>) returns (store: FilePeerStore?)
    ensures store == null <==> read.Unreadable?
    ensures store != null ==>
      fresh(store) && store.formats == formats
      && store.Model() == OpenStore(formats, if read.Found? then Some(read.image) else None, key)
  {
    match read {
      case Missing => store := new FilePeerStore(formats, None, key);
      case Found(image) => store := new FilePeerStore(formats, Some(image), key);
      case Unreadable => store := null;
    }
  }
}
