/**
 The two tables that hold signed peer records: the flat one of the memory-only
 store and the nested one of the file store, driven by the same calls.
 */
module PeerRecords {
  import opened Bytes

  datatype Record = Record(peerId: string, sequence: nat, expiresAt: nat, content: bytes)

  type Flat = map<(string, string), Record>
  type Peers = map<string, Record>
  type Meshes = map<string, Peers>

  /** The trait calls with the clock reading each one makes, and the file store's key rotation. */
  datatype Call =
    | Store(mesh: string, record: Record, now: nat)
    | Forget(mesh: string, peer: string)
    | Prune(now: nat)
    | Rotate(newKey: Option<bytes>, now: nat)

  // ----- flat table -----

  function Unexpired(m: Flat, now: nat): Flat {
    map k | k in m && m[k].expiresAt > now :: m[k]
  }

  function StoreFlat(m: Flat, mesh: string, record: Record, now: nat): Flat {
    var kept := Unexpired(m, now);
    var key := (mesh, record.peerId);
    if key in kept && record.sequence <= kept[key].sequence then kept else kept[key := record]
  }

  function NextFlat(m: Flat, c: Call): Flat {
    match c
    case Store(mesh, record, now) => StoreFlat(m, mesh, record, now)
    case Forget(mesh, peer) => m - {(mesh, peer)}
    case Prune(now) => Unexpired(m, now)
    case Rotate(_, now) => Unexpired(m, now)
  }

  function RunFlat(calls: seq<Call>): Flat {
    if calls == [] then map[] else NextFlat(RunFlat(calls[..|calls| - 1]), calls[|calls| - 1])
  }

  // ----- nested table -----

  function UnexpiredPeers(peers: Peers, now: nat): Peers {
    map p | p in peers && peers[p].expiresAt > now :: peers[p]
  }

  function UnexpiredMeshes(n: Meshes, now: nat): Meshes {
    map m | m in n && UnexpiredPeers(n[m], now) != map[] :: UnexpiredPeers(n[m], now)
  }

  function PeersOf(n: Meshes, mesh: string): Peers {
    if mesh in n then n[mesh] else map[]
  }

  /** The new table, and whether a snapshot is due to be written. */
  function InsertMeshes(n: Meshes, mesh: string, record: Record): (Meshes, bool) {
    var peers := PeersOf(n, mesh);
    if record.peerId in peers && record.sequence <= peers[record.peerId].sequence
    then (n[mesh := peers], false)
    else (n[mesh := peers[record.peerId := record]], true)
  }

  function StoreMeshes(n: Meshes, mesh: string, record: Record, now: nat): (Meshes, bool) {
    InsertMeshes(UnexpiredMeshes(n, now), mesh, record)
  }

  function ForgetMeshes(n: Meshes, mesh: string, peer: string): (Meshes, bool) {
    if mesh in n && peer in n[mesh] then
      var peers := n[mesh] - {peer};
      (if peers == map[] then n - {mesh} else n[mesh := peers], true)
    else
      (n, false)
  }

  function PruneMeshes(n: Meshes, now: nat): (Meshes, bool) {
    var kept := UnexpiredMeshes(n, now);
    (kept, |Flatten(n)| > |Flatten(kept)|)
  }

  function NextMeshes(n: Meshes, c: Call): (Meshes, bool) {
    match c
    case Store(mesh, record, now) => StoreMeshes(n, mesh, record, now)
    case Forget(mesh, peer) => ForgetMeshes(n, mesh, peer)
    case Prune(now) => PruneMeshes(n, now)
    case Rotate(_, now) => (UnexpiredMeshes(n, now), true)
  }

  function RunMeshes(calls: seq<Call>): Meshes {
    if calls == [] then map[] else NextMeshes(RunMeshes(calls[..|calls| - 1]), calls[|calls| - 1]).0
  }

  // ----- refinement -----

  function Flatten(n: Meshes): Flat {
    map m, p | m in n && p in n[m] :: (m, p) := n[m][p]
  }

  function LoadMeshes(n: Meshes, mesh: string, peer: string): Option<Record> {
    if mesh in n && peer in n[mesh] then Some(n[mesh][peer]) else None
  }

  function LoadFlat(m: Flat, mesh: string, peer: string): Option<Record> {
    if (mesh, peer) in m then Some(m[(mesh, peer)]) else None
  }

  predicate NoEmptyMesh(n: Meshes) {
    forall m :: m in n ==> n[m] != map[]
  }

  lemma FlattenLoads(n: Meshes, mesh: string, peer: string)
    ensures LoadFlat(Flatten(n), mesh, peer) == LoadMeshes(n, mesh, peer)
  {
  }

  /** A flat table is decided by what it loads. */
  lemma FlattenIs(n: Meshes, m: Flat)
    requires forall mesh, peer :: LoadMeshes(n, mesh, peer) == LoadFlat(m, mesh, peer)
    ensures Flatten(n) == m
  {
    forall key: (string, string)
      ensures key in Flatten(n) <==> key in m
      ensures key in m ==> Flatten(n)[key] == m[key]
    {
      var (mesh, peer) := key;
      FlattenLoads(n, mesh, peer);
      assert LoadMeshes(n, mesh, peer) == LoadFlat(m, mesh, peer);
      assert key == (mesh, peer);
    }
  }

  function Keep(r: Option<Record>, now: nat): Option<Record> {
    if r.Some? && r.value.expiresAt > now then r else None
  }

  lemma UnexpiredLoads(n: Meshes, now: nat, mesh: string, peer: string)
    ensures LoadMeshes(UnexpiredMeshes(n, now), mesh, peer) == Keep(LoadMeshes(n, mesh, peer), now)
  {
    if LoadMeshes(n, mesh, peer).Some? && n[mesh][peer].expiresAt > now {
      assert peer in UnexpiredPeers(n[mesh], now);
    }
  }

  lemma UnexpiredRefines(n: Meshes, now: nat)
    ensures Flatten(UnexpiredMeshes(n, now)) == Unexpired(Flatten(n), now)
    ensures NoEmptyMesh(UnexpiredMeshes(n, now))
  {
    forall mesh, peer
      ensures LoadMeshes(UnexpiredMeshes(n, now), mesh, peer) == LoadFlat(Unexpired(Flatten(n), now), mesh, peer)
    {
      UnexpiredLoads(n, now, mesh, peer);
      FlattenLoads(n, mesh, peer);
    }
    FlattenIs(UnexpiredMeshes(n, now), Unexpired(Flatten(n), now));
  }

  lemma StoreLoads(n: Meshes, mesh: string, record: Record, now: nat, m: string, p: string)
    ensures LoadMeshes(StoreMeshes(n, mesh, record, now).0, m, p)
            == var kept := Keep(LoadMeshes(n, m, p), now);
               if (m, p) != (mesh, record.peerId) || (kept.Some? && record.sequence <= kept.value.sequence)
               then kept else Some(record)
  {
    UnexpiredLoads(n, now, m, p);
    UnexpiredLoads(n, now, mesh, record.peerId);
  }

  lemma StoreFlatLoads(f: Flat, mesh: string, record: Record, now: nat, m: string, p: string)
    ensures LoadFlat(StoreFlat(f, mesh, record, now), m, p)
            == var kept := Keep(LoadFlat(f, m, p), now);
               if (m, p) != (mesh, record.peerId) || (kept.Some? && record.sequence <= kept.value.sequence)
               then kept else Some(record)
  {
  }

  lemma StoreRefines(n: Meshes, mesh: string, record: Record, now: nat)
    ensures Flatten(StoreMeshes(n, mesh, record, now).0) == StoreFlat(Flatten(n), mesh, record, now)
    ensures NoEmptyMesh(StoreMeshes(n, mesh, record, now).0)
  {
    forall m, p
      ensures LoadMeshes(StoreMeshes(n, mesh, record, now).0, m, p)
              == LoadFlat(StoreFlat(Flatten(n), mesh, record, now), m, p)
    {
      StoreLoads(n, mesh, record, now, m, p);
      StoreFlatLoads(Flatten(n), mesh, record, now, m, p);
      FlattenLoads(n, m, p);
    }
    FlattenIs(StoreMeshes(n, mesh, record, now).0, StoreFlat(Flatten(n), mesh, record, now));
    StoreKeepsMeshes(n, mesh, record, now);
  }

  lemma StoreKeepsMeshes(n: Meshes, mesh: string, record: Record, now: nat)
    ensures NoEmptyMesh(StoreMeshes(n, mesh, record, now).0)
  {
    var after := StoreMeshes(n, mesh, record, now).0;
    assert record.peerId in after[mesh];
  }

  lemma ForgetLoads(n: Meshes, mesh: string, peer: string, m: string, p: string)
    ensures LoadMeshes(ForgetMeshes(n, mesh, peer).0, m, p)
            == if (m, p) == (mesh, peer) then None else LoadMeshes(n, m, p)
  {
    if m == mesh && mesh in n && peer in n[mesh] && p in n[mesh] && p != peer {
      assert p in n[mesh] - {peer};
    }
  }

  lemma ForgetFlatLoads(f: Flat, mesh: string, peer: string, m: string, p: string)
    ensures LoadFlat(f - {(mesh, peer)}, m, p) == if (m, p) == (mesh, peer) then None else LoadFlat(f, m, p)
  {
  }

  lemma ForgetKeepsMeshes(n: Meshes, mesh: string, peer: string)
    ensures NoEmptyMesh(n) ==> NoEmptyMesh(ForgetMeshes(n, mesh, peer).0)
  {
  }

  lemma ForgetRefines(n: Meshes, mesh: string, peer: string)
    ensures Flatten(ForgetMeshes(n, mesh, peer).0) == Flatten(n) - {(mesh, peer)}
    ensures NoEmptyMesh(n) ==> NoEmptyMesh(ForgetMeshes(n, mesh, peer).0)
  {
    var after := Flatten(n) - {(mesh, peer)};
    forall m, p
      ensures LoadMeshes(ForgetMeshes(n, mesh, peer).0, m, p) == LoadFlat(after, m, p)
    {
      ForgetLoads(n, mesh, peer, m, p);
      ForgetFlatLoads(Flatten(n), mesh, peer, m, p);
      FlattenLoads(n, m, p);
    }
    FlattenIs(ForgetMeshes(n, mesh, peer).0, after);
    ForgetKeepsMeshes(n, mesh, peer);
  }

  lemma NextRefines(n: Meshes, c: Call)
    ensures Flatten(NextMeshes(n, c).0) == NextFlat(Flatten(n), c)
    ensures NoEmptyMesh(n) ==> NoEmptyMesh(NextMeshes(n, c).0)
  {
    match c
    case Store(mesh, record, now) => StoreRefines(n, mesh, record, now);
    case Forget(mesh, peer) => ForgetRefines(n, mesh, peer);
    case Prune(now) => UnexpiredRefines(n, now);
    case Rotate(_, now) => UnexpiredRefines(n, now);
  }

  /**
   The file store refines the memory store: after the same calls from empty the
   same records are held, so every load, the length and the number a further
   prune removes agree, and no mesh is kept without a record.
   */
  lemma {:induction false} FileStoreRefinesMemoryStore(calls: seq<Call>, mesh: string, peer: string, now: nat)
    ensures Flatten(RunMeshes(calls)) == RunFlat(calls)
    ensures NoEmptyMesh(RunMeshes(calls))
    ensures LoadMeshes(RunMeshes(calls), mesh, peer) == LoadFlat(RunFlat(calls), mesh, peer)
    ensures |Flatten(RunMeshes(calls))| - |Flatten(UnexpiredMeshes(RunMeshes(calls), now))|
            == |RunFlat(calls)| - |Unexpired(RunFlat(calls), now)|
  {
    if calls == [] {
      FlattenIs(map[], map[]);
    } else {
      var before := calls[..|calls| - 1];
      FileStoreRefinesMemoryStore(before, mesh, peer, now);
      NextRefines(RunMeshes(before), calls[|calls| - 1]);
    }
    UnexpiredRefines(RunMeshes(calls), now);
    FlattenLoads(RunMeshes(calls), mesh, peer);
  }

  // ----- what each call does to each record -----

  /** A stored record is held afterwards unless a live one with at least its sequence was held; nothing stale stays. */
  lemma StoreThenLoad(m: Flat, mesh: string, record: Record, now: nat, other: string, peer: string)
    ensures var after := NextFlat(m, Store(mesh, record, now));
            var before := LoadFlat(m, other, peer);
            LoadFlat(after, other, peer)
            == if (other, peer) == (mesh, record.peerId)
                  && !(before.Some? && before.value.expiresAt > now && before.value.sequence >= record.sequence) then Some(record)
               else if before.Some? && before.value.expiresAt > now then before
               else None
  {
  }

  /** A forgotten record is gone and no other; pruning and rotating drop exactly what expires at or before the time. */
  lemma ForgetOrPruneThenLoad(m: Flat, mesh: string, peer: string, now: nat, key: Option<bytes>, other: string, p: string)
    ensures LoadFlat(NextFlat(m, Forget(mesh, peer)), other, p) == if (other, p) == (mesh, peer) then None else LoadFlat(m, other, p)
    ensures var before := LoadFlat(m, other, p);
            LoadFlat(NextFlat(m, Prune(now)), other, p) == LoadFlat(NextFlat(m, Rotate(key, now)), other, p)
            == if before.Some? && now < before.value.expiresAt then before else None
  {
  }

  // ----- no rollback -----

  /** What one call does to one key, whatever else the table holds. */
  function NextHeld(held: Option<Record>, c: Call, mesh: string, peer: string): Option<Record> {
    if c.Forget? then
      if (c.mesh, c.peer) == (mesh, peer) then None else held
    else
      var kept := Keep(held, c.now);
      if !c.Store? || (c.mesh, c.record.peerId) != (mesh, peer) then kept
      else if kept.Some? && c.record.sequence <= kept.value.sequence then kept
      else Some(c.record)
  }

  function Held(calls: seq<Call>, mesh: string, peer: string): Option<Record> {
    if calls == [] then None
    else NextHeld(Held(calls[..|calls| - 1], mesh, peer), calls[|calls| - 1], mesh, peer)
  }

  lemma NextFlatLoads(f: Flat, c: Call, mesh: string, peer: string)
    ensures LoadFlat(NextFlat(f, c), mesh, peer) == NextHeld(LoadFlat(f, mesh, peer), c, mesh, peer)
  {
    if c.Store? {
      StoreFlatLoads(f, c.mesh, c.record, c.now, mesh, peer);
    }
  }

  /** Keys do not influence one another, in either store. */
  lemma {:induction false} KeysAreIndependent(calls: seq<Call>, mesh: string, peer: string)
    ensures LoadFlat(RunFlat(calls), mesh, peer) == Held(calls, mesh, peer)
    ensures LoadMeshes(RunMeshes(calls), mesh, peer) == Held(calls, mesh, peer)
  {
    if calls != [] {
      var before := calls[..|calls| - 1];
      KeysAreIndependent(before, mesh, peer);
      NextFlatLoads(RunFlat(before), calls[|calls| - 1], mesh, peer);
    }
    FileStoreRefinesMemoryStore(calls, mesh, peer, 0);
  }

  predicate Forgets(c: Call, mesh: string, peer: string) {
    c.Forget? && (c.mesh, c.peer) == (mesh, peer)
  }

  /** The clock reading the call prunes with makes the record stale. */
  predicate Expires(c: Call, r: Record) {
    !c.Forget? && r.expiresAt <= c.now
  }

  predicate NotLower(held: Option<Record>, later: Option<Record>) {
    held.Some? && later.Some? && (later == held || later.value.sequence > held.value.sequence)
  }

  /** The record held before call i is the last one held before the record held at the end. */
  predicate Replaced(calls: seq<Call>, mesh: string, peer: string, i: nat) {
    && i < |calls|
    && Held(calls[..i], mesh, peer).Some? && Held(calls, mesh, peer).Some?
    && (forall m :: i < m < |calls| ==> Held(calls[..m], mesh, peer).None?)
  }

  /**
   A record replaced by one whose sequence is not higher was expired at the
   clock reading of the call that dropped it.
   */
  lemma RollbackNeedsExpiry(calls: seq<Call>, mesh: string, peer: string, i: nat)
    requires Replaced(calls, mesh, peer, i) && !Forgets(calls[i], mesh, peer)
    ensures NotLower(Held(calls[..i], mesh, peer), Held(calls, mesh, peer))
            || Expires(calls[i], Held(calls[..i], mesh, peer).value)
  {
    var next := calls[..i + 1];
    assert next[..i] == calls[..i] && next[i] == calls[i];
    assert Held(next, mesh, peer) == NextHeld(Held(calls[..i], mesh, peer), calls[i], mesh, peer);
    if i + 1 == |calls| {
      assert next == calls;
    }
  }

  /** From call i on the key is not forgotten, and no held record of it is stale at a call's clock reading. */
  predicate Undisturbed(calls: seq<Call>, mesh: string, peer: string, i: nat)
    requires i <= |calls|
  {
    forall t {:trigger calls[t]} :: i <= t < |calls| ==>
      && !Forgets(calls[t], mesh, peer)
      && (var held := Held(calls[..t], mesh, peer); held.Some? ==> !Expires(calls[t], held.value))
  }

  lemma UndisturbedBefore(calls: seq<Call>, mesh: string, peer: string, i: nat)
    requires i < |calls| && Undisturbed(calls, mesh, peer, i)
    ensures Undisturbed(calls[..|calls| - 1], mesh, peer, i)
  {
    var before := calls[..|calls| - 1];
    forall t | i <= t < |before|
      ensures before[t] == calls[t] && before[..t] == calls[..t]
    {
    }
  }

  /** Between expiries a key that is not forgotten stays held, and its record changes only upwards. */
  lemma {:induction false} SequenceOnlyRises(calls: seq<Call>, mesh: string, peer: string, i: nat)
    requires i <= |calls| && Held(calls[..i], mesh, peer).Some?
    requires Undisturbed(calls, mesh, peer, i)
    ensures NotLower(Held(calls[..i], mesh, peer), Held(calls, mesh, peer))
    decreases |calls|
  {
    if i == |calls| {
      assert calls[..i] == calls;
    } else {
      var n := |calls| - 1;
      UndisturbedBefore(calls, mesh, peer, i);
      assert calls[..n][..i] == calls[..i];
      SequenceOnlyRises(calls[..n], mesh, peer, i);
      assert !Forgets(calls[n], mesh, peer);
    }
  }
}
