/**
 What one carrier session delivers over a whole schedule of arrivals: any
 datagrams, in any order, with duplicates, interleaved with other traffic.
 */
module CarrierDelivery {
  import opened Bytes
  import opened CarrierCodec
  import opened CarrierReassembly

  datatype Arrival = Arrival(datagram: Datagram, authenticatedMax: nat, clock: Clock)

  function Step(r: Reassembler, a: Arrival): (Reassembler, AcceptResult) {
    AcceptDatagram(r, a.datagram, a.authenticatedMax, a.clock)
  }

  /** The session's tables after a schedule of arrivals. */
  function Run(r: Reassembler, arrivals: seq<Arrival>): Reassembler {
    if arrivals == [] then r
    else Step(Run(r, arrivals[..|arrivals| - 1]), arrivals[|arrivals| - 1]).0
  }

  /** What the receiver gets from arrival `i` of a schedule. */
  function Outcome(r: Reassembler, arrivals: seq<Arrival>, i: nat): AcceptResult
    requires i < |arrivals|
  {
    Step(Run(r, arrivals[..i]), arrivals[i]).1
  }

  /** The message a datagram carries a fragment of, if it is a readable fragment. */
  function KeyOf(d: Datagram): Option<Key> {
    if d.kind == FrameFragment && DecodeFragment(d.payload).Ok?
    then Some(Key(Frame, DecodeFragment(d.payload).value.messageId))
    else if d.kind == AuthenticatedFragment && DecodeFragment(d.payload).Ok?
    then Some(Key(AuthenticatedMessage, DecodeFragment(d.payload).value.messageId))
    else None
  }

  predicate Delivers(result: AcceptResult) {
    result.Ok? && result.value.Some?
  }

  /** Arrival `i` completes the fragmented message `key`. */
  predicate Completes(r: Reassembler, arrivals: seq<Arrival>, i: nat, key: Key)
    requires i < |arrivals|
  {
    KeyOf(arrivals[i].datagram) == Some(key) && Delivers(Outcome(r, arrivals, i))
  }

  lemma RunStep(r: Reassembler, arrivals: seq<Arrival>, i: nat)
    requires i < |arrivals|
    ensures Run(r, arrivals[..i + 1]) == Step(Run(r, arrivals[..i]), arrivals[i]).0
  {
    assert arrivals[..i + 1][..i] == arrivals[..i];
  }

  /** The tables are consistent after every schedule, whatever was sent. */
  lemma {:induction false} RunKeepsTables(r: Reassembler, arrivals: seq<Arrival>)
    requires ReassemblerOk(r)
    ensures ReassemblerOk(Run(r, arrivals))
  {
    if arrivals != [] {
      var n := |arrivals| - 1;
      RunKeepsTables(r, arrivals[..n]);
      AcceptPreserves(Run(r, arrivals[..n]), arrivals[n].datagram, arrivals[n].authenticatedMax, arrivals[n].clock);
    }
  }

  // ---------------------------------------------------------------- exactness

  /** Every readable fragment of `key` in the schedule was cut from `payload`. */
  predicate HonestFor(arrivals: seq<Arrival>, key: Key, payload: bytes) {
    forall i :: 0 <= i < |arrivals| && KeyOf(arrivals[i].datagram) == Some(key) ==>
      IsFragmentOf(arrivals[i].datagram, key, payload)
  }

  predicate IsFragmentOf(d: Datagram, key: Key, payload: bytes) {
    exists index :: 0 <= index < ChunkCount(|payload|) && d == FragmentDatagram(key.kind, key.messageId, payload, index)
  }

  /** A key and the message its sender split. */
  predicate Sendable(key: Key, payload: bytes) {
    NeedsFragments(payload) && key.messageId < U64
  }

  /** What is buffered for `key` are pieces of `payload` at their own positions. */
  predicate HoldsPiecesOf(r: Reassembler, key: Key, payload: bytes) {
    key in r.table ==>
      && r.table[key].totalLen == |payload|
      && PiecesOf(payload, r.table[key].chunks)
  }

  lemma JoinLast(payload: bytes, chunks: seq<Option<bytes>>, n: nat)
    requires |chunks| == n + 1 && AllPresent(chunks) && chunks[n].value == Chunk(payload, n)
    requires Join(chunks[..n]) == payload[..Min(|payload|, MAX_FRAGMENT_PAYLOAD_LEN * n)]
    ensures Join(chunks) == payload[..Min(|payload|, MAX_FRAGMENT_PAYLOAD_LEN * (n + 1))]
  {
    var lo, hi := Min(|payload|, MAX_FRAGMENT_PAYLOAD_LEN * n), Min(|payload|, MAX_FRAGMENT_PAYLOAD_LEN * (n + 1));
    assert Join(chunks) == payload[..lo] + payload[lo..hi];
  }

  predicate PiecesOf(payload: bytes, chunks: seq<Option<bytes>>) {
    forall i :: 0 <= i < |chunks| && chunks[i].Some? ==> chunks[i].value == Chunk(payload, i)
  }

  /** Joining the first `k` pieces of a message in order gives its prefix. */
  lemma {:induction false} JoinPieces(payload: bytes, chunks: seq<Option<bytes>>, k: nat)
    requires AllPresent(chunks) && PiecesOf(payload, chunks) && k <= |chunks|
    ensures Join(chunks[..k]) == payload[..Min(|payload|, MAX_FRAGMENT_PAYLOAD_LEN * k)]
  {
    if k > 0 {
      JoinPieces(payload, chunks, k - 1);
      assert chunks[..k][..k - 1] == chunks[..k - 1];
      JoinLast(payload, chunks[..k], k - 1);
    }
  }

  lemma JoinWhole(payload: bytes, chunks: seq<Option<bytes>>)
    requires AllPresent(chunks) && PiecesOf(payload, chunks) && |chunks| == ChunkCount(|payload|)
    ensures Join(chunks) == payload
  {
    JoinPieces(payload, chunks, |chunks|);
    ChunkCountBounds(|payload|);
    assert chunks[..|chunks|] == chunks;
    assert payload[..|payload|] == payload;
  }

  /** The tables as one call sees them after its checks passed. */
  function Entry(r: Reassembler, key: Key, f: Fragment, clock: Clock): Buffer {
    var table := PruneExpired(r.table, clock.pruneAt);
    if key in table then table[key] else NewBuffer(f.totalLen, f.count, clock.createdAt)
  }

  predicate RoomFor(r: Reassembler, key: Key, clock: Clock) {
    var table := PruneExpired(r.table, clock.pruneAt);
    key in table || |table| < MAX_REASSEMBLY_ENTRIES
  }

  /** An honest fragment is read back as it was cut, and passes the shape check. */
  lemma HonestFragmentReads(key: Key, payload: bytes, index: nat)
    requires Sendable(key, payload) && index < ChunkCount(|payload|)
    ensures var f := FragmentOf(key.messageId, payload, index);
            var d := FragmentDatagram(key.kind, key.messageId, payload, index);
            && DecodeFragment(d.payload) == Ok(f)
            && ShapeError(f.totalLen, f.index, f.count, |f.payload|) == None
            && WellShaped(f.totalLen, f.index, f.count, |f.payload|)
            && KeyOf(d) == Some(key)
  {
    FragmentsAreValid(key.kind, key.messageId, payload, index);
    var f := FragmentOf(key.messageId, payload, index);
    ShapeCheckExact(f.totalLen, f.index, f.count, |f.payload|);
  }

  predicate Admissible(r: Reassembler, a: Arrival, key: Key, payload: bytes) {
    && key !in r.completed.members
    && !ExceedsLimit(key.kind, |payload|, a.authenticatedMax)
    && RoomFor(r, key, a.clock)
  }

  lemma HonestStep(r: Reassembler, a: Arrival, key: Key, payload: bytes, index: nat)
    requires Sendable(key, payload) && index < ChunkCount(|payload|)
    requires a.datagram == FragmentDatagram(key.kind, key.messageId, payload, index)
    ensures Admissible(r, a, key, payload) ==>
      Step(r, a) == Store(r, PruneExpired(r.table, a.clock.pruneAt), key,
                          FragmentOf(key.messageId, payload, index), a.clock.createdAt)
    ensures !Admissible(r, a, key, payload) ==>
      && !Delivers(Step(r, a).1)
      && Step(r, a).0.table.Keys <= r.table.Keys
      && forall k :: k in Step(r, a).0.table ==> Step(r, a).0.table[k] == r.table[k]
  {
    HonestFragmentReads(key, payload, index);
    var f := FragmentOf(key.messageId, payload, index);
    assert Step(r, a) == AcceptFragment(r, key.kind, f, a.authenticatedMax, a.clock);
  }

  /** Inserting an honest fragment into a buffer that holds pieces of the same message. */
  lemma InsertHonest(b: Buffer, messageId: nat, payload: bytes, index: nat)
    requires BufferOk(b) && NeedsFragments(payload) && messageId < U64 && index < ChunkCount(|payload|)
    requires b.totalLen == |payload| && PiecesOf(payload, b.chunks)
    ensures var chunks := b.chunks[index := Some(Chunk(payload, index))];
            var (b', result) := InsertFragment(b, FragmentOf(messageId, payload, index));
            if AllPresent(chunks) then result == Ok(Some(payload))
            else result == Ok(None) && b'.chunks == chunks && b'.totalLen == b.totalLen && b'.createdAt == b.createdAt
  {
    var f := FragmentOf(messageId, payload, index);
    FragmentsAreValid(Frame, messageId, payload, index);
    InsertFragmentExact(b, f);
    var chunks := b.chunks[index := Some(Chunk(payload, index))];
    if b.chunks[index].Some? {
      assert chunks == b.chunks;
      SumBound(b);
    } else if AllPresent(chunks) {
      JoinWhole(payload, chunks);
    }
  }

  /** Accepting an honest fragment of a message not yet completed. */
  lemma AcceptHonest(r: Reassembler, a: Arrival, key: Key, payload: bytes, index: nat)
    requires ReassemblerOk(r) && Sendable(key, payload) && HoldsPiecesOf(r, key, payload)
    requires index < ChunkCount(|payload|)
    requires a.datagram == FragmentDatagram(key.kind, key.messageId, payload, index)
    requires Admissible(r, a, key, payload)
    ensures var entry := Entry(r, key, FragmentOf(key.messageId, payload, index), a.clock);
            var (r', result) := Step(r, a);
            && |entry.chunks| == ChunkCount(|payload|)
            && var chunks := entry.chunks[index := Some(Chunk(payload, index))];
               if AllPresent(chunks) then result == Ok(Some(Delivery(key.kind, payload))) && key !in r'.table
               else && result == Ok(None) && HoldsPiecesOf(r', key, payload)
                    && r'.completed == r.completed
                    && key in r'.table && r'.table[key].chunks == chunks && r'.table[key].createdAt == entry.createdAt
  {
    var f := FragmentOf(key.messageId, payload, index);
    HonestStep(r, a, key, payload, index);
    HonestFragmentReads(key, payload, index);
    NewBufferOk(f, a.clock.createdAt);
    var entry := Entry(r, key, f, a.clock);
    assert BufferOk(entry);
    InsertHonest(entry, key.messageId, payload, index);
  }

  lemma OtherTable(r: Reassembler, a: Arrival, key: Key)
    requires KeyOf(a.datagram) != Some(key)
    ensures var r' := Step(r, a).0;
            && (key in r'.table ==> key in r.table && r'.table[key] == r.table[key])
            && (key in r.table && a.clock.pruneAt - r.table[key].createdAt <= REASSEMBLY_TTL ==> key in r'.table)
  {
  }

  lemma OtherCompleted(r: Reassembler, a: Arrival, key: Key)
    requires ReassemblerOk(r) && KeyOf(a.datagram) != Some(key)
    ensures key in Step(r, a).0.completed.members ==> key in r.completed.members
  {
    StepCompleted(r, a);
    var added := if Delivers(Step(r, a).1) then KeyOf(a.datagram) else None;
    if added.Some? {
      RememberedMembers(r.completed, added.value);
    }
  }

  lemma AcceptOther(r: Reassembler, a: Arrival, key: Key)
    requires KeyOf(a.datagram) != Some(key)
    ensures var r' := Step(r, a).0;
            && (key in r'.table ==> key in r.table && r'.table[key] == r.table[key])
            && (key in r.table && a.clock.pruneAt - r.table[key].createdAt <= REASSEMBLY_TTL ==> key in r'.table)
            && (ReassemblerOk(r) && key in r'.completed.members ==> key in r.completed.members)
  {
    OtherTable(r, a, key);
    if ReassemblerOk(r) {
      OtherCompleted(r, a, key);
    }
  }

  lemma HonestFragmentKeepsPieces(r: Reassembler, a: Arrival, key: Key, payload: bytes)
    requires ReassemblerOk(r) && Sendable(key, payload) && HoldsPiecesOf(r, key, payload)
    requires KeyOf(a.datagram) == Some(key) ==> IsFragmentOf(a.datagram, key, payload)
    ensures HoldsPiecesOf(Step(r, a).0, key, payload)
    ensures KeyOf(a.datagram) == Some(key) && Delivers(Step(r, a).1) ==>
      Step(r, a).1 == Ok(Some(Delivery(key.kind, payload)))
  {
    if KeyOf(a.datagram) != Some(key) {
      AcceptOther(r, a, key);
    } else {
      var index :| 0 <= index < ChunkCount(|payload|) && a.datagram == FragmentDatagram(key.kind, key.messageId, payload, index);
      HonestStep(r, a, key, payload, index);
      if Admissible(r, a, key, payload) {
        AcceptHonest(r, a, key, payload, index);
      }
    }
  }

  lemma {:induction false} RunHoldsPieces(r: Reassembler, arrivals: seq<Arrival>, key: Key, payload: bytes)
    requires ReassemblerOk(r) && Sendable(key, payload) && HoldsPiecesOf(r, key, payload)
    requires HonestFor(arrivals, key, payload)
    ensures HoldsPiecesOf(Run(r, arrivals), key, payload)
  {
    if arrivals != [] {
      var n := |arrivals| - 1;
      RunHoldsPieces(r, arrivals[..n], key, payload);
      RunKeepsTables(r, arrivals[..n]);
      HonestFragmentKeepsPieces(Run(r, arrivals[..n]), arrivals[n], key, payload);
    }
  }

  /**
   Exactness: under any schedule, if the fragments of `key` that arrive were cut
   from `payload`, then whatever is delivered for `key` is `payload` itself. No
   assumption on the clock, on free buffers, or on any other traffic.
   */
  lemma ExactDelivery(arrivals: seq<Arrival>, key: Key, payload: bytes, i: nat)
    requires Sendable(key, payload) && HonestFor(arrivals, key, payload)
    requires i < |arrivals| && Completes(EMPTY, arrivals, i, key)
    ensures Outcome(EMPTY, arrivals, i) == Ok(Some(Delivery(key.kind, payload)))
  {
    RunKeepsTables(EMPTY, arrivals[..i]);
    RunHoldsPieces(EMPTY, arrivals[..i], key, payload);
    HonestFragmentKeepsPieces(Run(EMPTY, arrivals[..i]), arrivals[i], key, payload);
  }

  // ------------------------------------------------------------ at most once

  /** The fragmented message that arrival `i` completes, if any. */
  function CompletedBy(r: Reassembler, arrivals: seq<Arrival>, i: nat): Option<Key>
    requires i < |arrivals|
  {
    if Delivers(Outcome(r, arrivals, i)) then KeyOf(arrivals[i].datagram) else None
  }

  function CompletedLog(r: Reassembler, arrivals: seq<Arrival>): (log: seq<Option<Key>>)
    ensures |log| == |arrivals|
  {
    seq(|arrivals|, i requires 0 <= i < |arrivals| => CompletedBy(r, arrivals, i))
  }

  /** How many fragmented messages arrivals `lo..hi` complete. */
  function Completions(r: Reassembler, arrivals: seq<Arrival>, lo: nat, hi: nat): nat
    requires hi <= |arrivals|
  {
    CountAdded(CompletedLog(r, arrivals), lo, hi)
  }

  /** How one arrival changes the memory of completed keys. */
  lemma StepCompleted(r: Reassembler, a: Arrival)
    requires ReassemblerOk(r)
    ensures var (r', result) := Step(r, a);
            var added := if Delivers(result) then KeyOf(a.datagram) else None;
            && r'.completed == Advance(r.completed, added)
            && (added.Some? ==> added.value !in r.completed.members)
  {
  }

  function MemoryStates(r: Reassembler, arrivals: seq<Arrival>): (cs: seq<CompletedKeys>)
    ensures |cs| == |arrivals| + 1
  {
    seq(|arrivals| + 1, i requires 0 <= i <= |arrivals| => Run(r, arrivals[..i]).completed)
  }

  lemma MemoryIsHistory(r: Reassembler, arrivals: seq<Arrival>)
    requires ReassemblerOk(r)
    ensures IsHistory(MemoryStates(r, arrivals), CompletedLog(r, arrivals))
  {
    var cs, log := MemoryStates(r, arrivals), CompletedLog(r, arrivals);
    forall i | 0 <= i <= |arrivals| ensures CompletedOk(cs[i]) {
      RunKeepsTables(r, arrivals[..i]);
    }
    forall i | 0 <= i < |arrivals|
      ensures cs[i + 1] == Advance(cs[i], log[i]) && (log[i].Some? ==> log[i].value !in cs[i].members)
    {
      RunKeepsTables(r, arrivals[..i]);
      RunStep(r, arrivals, i);
      StepCompleted(Run(r, arrivals[..i]), arrivals[i]);
    }
  }

  /**
   At most once: the same key is delivered again only after at least 256 newer
   messages were completed in between. No honesty is assumed.
   */
  lemma AtMostOnce(r: Reassembler, arrivals: seq<Arrival>, key: Key, i: nat, j: nat)
    requires ReassemblerOk(r) && i < j < |arrivals|
    requires Completes(r, arrivals, i, key) && Completes(r, arrivals, j, key)
    ensures Completions(r, arrivals, i + 1, j) >= MAX_COMPLETED_FRAGMENT_KEYS
  {
    MemoryIsHistory(r, arrivals);
    CompletedAgain(MemoryStates(r, arrivals), CompletedLog(r, arrivals), key, i, j);
  }

  predicate NotCompletedWithin(r: Reassembler, arrivals: seq<Arrival>, key: Key, lo: nat, hi: nat)
    requires hi <= |arrivals|
  {
    forall i :: lo <= i < hi ==> !Completes(r, arrivals, i, key)
  }

  // ----------------------------------------------------------------- delivery

  function IndexOf(d: Datagram): nat {
    if DecodeFragment(d.payload).Ok? then DecodeFragment(d.payload).value.index else 0
  }

  /** Every fragment of the message arrives somewhere in the schedule. */
  predicate AllArrive(arrivals: seq<Arrival>, key: Key, payload: bytes) {
    forall index :: 0 <= index < ChunkCount(|payload|) ==> Arrives(arrivals, key, payload, index)
  }

  predicate Arrives(arrivals: seq<Arrival>, key: Key, payload: bytes, index: nat) {
    exists i :: 0 <= i < |arrivals| && arrivals[i].datagram == FragmentDatagram(key.kind, key.messageId, payload, index)
  }

  /** The receive limit in force at each fragment of `key` admits the message. */
  predicate WithinLimits(arrivals: seq<Arrival>, key: Key, payload: bytes) {
    forall i :: 0 <= i < |arrivals| && KeyOf(arrivals[i].datagram) == Some(key) ==>
      !ExceedsLimit(key.kind, |payload|, arrivals[i].authenticatedMax)
  }

  /** No clock reading of the schedule is more than the reassembly lifetime after a fragment of `key`. */
  predicate NoExpiry(arrivals: seq<Arrival>, key: Key) {
    forall i, j :: 0 <= i < |arrivals| && 0 <= j < |arrivals| && KeyOf(arrivals[i].datagram) == Some(key) ==>
      arrivals[j].clock.pruneAt <= arrivals[i].clock.createdAt + REASSEMBLY_TTL
  }

  /** A buffer is free, or already taken by `key`, at each of its fragments. */
  predicate RoomAlways(r: Reassembler, arrivals: seq<Arrival>, key: Key) {
    forall i :: 0 <= i < |arrivals| && KeyOf(arrivals[i].datagram) == Some(key) ==>
      RoomFor(Run(r, arrivals[..i]), key, arrivals[i].clock)
  }

  predicate Schedule(r: Reassembler, arrivals: seq<Arrival>, key: Key, payload: bytes) {
    && ReassemblerOk(r) && key !in r.table && key !in r.completed.members
    && Sendable(key, payload) && HonestFor(arrivals, key, payload)
    && WithinLimits(arrivals, key, payload) && NoExpiry(arrivals, key) && RoomAlways(r, arrivals, key)
  }

  /** Everything of `key` that arrived in the first `n` arrivals is buffered. */
  predicate Gathered(r: Reassembler, arrivals: seq<Arrival>, n: nat, key: Key, payload: bytes)
    requires n <= |arrivals|
  {
    && key !in r.completed.members
    && HoldsPiecesOf(r, key, payload)
    && (forall i :: 0 <= i < n && KeyOf(arrivals[i].datagram) == Some(key) ==> Has(r, key, IndexOf(arrivals[i].datagram)))
    && (key in r.table ==> CreatedByArrival(r.table[key].createdAt, arrivals, n, key))
  }

  predicate Has(r: Reassembler, key: Key, index: nat) {
    key in r.table && index < |r.table[key].chunks| && r.table[key].chunks[index].Some?
  }

  predicate CreatedByArrival(createdAt: nat, arrivals: seq<Arrival>, n: nat, key: Key)
    requires n <= |arrivals|
  {
    exists i :: 0 <= i < n && KeyOf(arrivals[i].datagram) == Some(key) && arrivals[i].clock.createdAt == createdAt
  }

  lemma GatherStep(r: Reassembler, arrivals: seq<Arrival>, n: nat, key: Key, payload: bytes)
    requires n < |arrivals| && ReassemblerOk(r) && Gathered(r, arrivals, n, key, payload)
    requires Sendable(key, payload) && HonestFor(arrivals, key, payload)
    requires WithinLimits(arrivals, key, payload) && NoExpiry(arrivals, key)
    requires KeyOf(arrivals[n].datagram) == Some(key) ==> RoomFor(r, key, arrivals[n].clock)
    requires KeyOf(arrivals[n].datagram) == Some(key) ==> !Delivers(Step(r, arrivals[n]).1)
    ensures Gathered(Step(r, arrivals[n]).0, arrivals, n + 1, key, payload)
  {
    var a := arrivals[n];
    if KeyOf(a.datagram) == Some(key) {
      var index :| 0 <= index < ChunkCount(|payload|) && a.datagram == FragmentDatagram(key.kind, key.messageId, payload, index);
      GatherOwn(r, arrivals, n, key, payload, index);
    } else {
      AcceptOther(r, a, key);
      HonestFragmentKeepsPieces(r, a, key, payload);
    }
  }

  /** The buffer a fragment of `key` goes into: the one held so far, or one created at this arrival. */
  lemma OwnEntry(r: Reassembler, arrivals: seq<Arrival>, n: nat, key: Key, payload: bytes, f: Fragment)
    requires n < |arrivals| && Gathered(r, arrivals, n, key, payload)
    requires KeyOf(arrivals[n].datagram) == Some(key) && NoExpiry(arrivals, key)
    ensures var entry := Entry(r, key, f, arrivals[n].clock);
            && (key in r.table ==> entry == r.table[key])
            && CreatedByArrival(entry.createdAt, arrivals, n + 1, key)
  {
    var a := arrivals[n];
    if key in r.table {
      var i :| 0 <= i < n && KeyOf(arrivals[i].datagram) == Some(key) && arrivals[i].clock.createdAt == r.table[key].createdAt;
      assert a.clock.pruneAt <= arrivals[i].clock.createdAt + REASSEMBLY_TTL;
      assert key in PruneExpired(r.table, a.clock.pruneAt);
    }
  }

  lemma GatheredAfter(r: Reassembler, r': Reassembler, entry: Buffer, arrivals: seq<Arrival>, n: nat, key: Key, payload: bytes)
    requires n < |arrivals| && Gathered(r, arrivals, n, key, payload)
    requires key in r.table ==> entry == r.table[key]
    requires CreatedByArrival(entry.createdAt, arrivals, n + 1, key)
    requires KeyOf(arrivals[n].datagram) == Some(key) && IndexOf(arrivals[n].datagram) < |entry.chunks|
    requires r'.completed == r.completed && HoldsPiecesOf(r', key, payload) && key in r'.table
    requires r'.table[key].createdAt == entry.createdAt
    requires exists piece :: r'.table[key].chunks == entry.chunks[IndexOf(arrivals[n].datagram) := Some(piece)]
    ensures Gathered(r', arrivals, n + 1, key, payload)
  {
    forall i | 0 <= i < n + 1 && KeyOf(arrivals[i].datagram) == Some(key)
      ensures Has(r', key, IndexOf(arrivals[i].datagram))
    {
      if i < n {
        assert Has(r, key, IndexOf(arrivals[i].datagram));
      }
    }
  }

  lemma GatherOwn(r: Reassembler, arrivals: seq<Arrival>, n: nat, key: Key, payload: bytes, index: nat)
    requires n < |arrivals| && ReassemblerOk(r) && Gathered(r, arrivals, n, key, payload)
    requires Sendable(key, payload) && index < ChunkCount(|payload|)
    requires KeyOf(arrivals[n].datagram) == Some(key)
    requires arrivals[n].datagram == FragmentDatagram(key.kind, key.messageId, payload, index)
    requires WithinLimits(arrivals, key, payload) && NoExpiry(arrivals, key)
    requires RoomFor(r, key, arrivals[n].clock) && !Delivers(Step(r, arrivals[n]).1)
    ensures Gathered(Step(r, arrivals[n]).0, arrivals, n + 1, key, payload)
  {
    var a := arrivals[n];
    HonestFragmentReads(key, payload, index);
    AcceptHonest(r, a, key, payload, index);
    var r' := Step(r, a).0;
    var entry := Entry(r, key, FragmentOf(key.messageId, payload, index), a.clock);
    OwnEntry(r, arrivals, n, key, payload, FragmentOf(key.messageId, payload, index));
    assert r'.table[key].chunks == entry.chunks[IndexOf(a.datagram) := Some(Chunk(payload, index))];
    GatheredAfter(r, r', entry, arrivals, n, key, payload);
  }

  lemma {:induction false} GatherAll(r: Reassembler, arrivals: seq<Arrival>, n: nat, key: Key, payload: bytes)
    requires Schedule(r, arrivals, key, payload) && n <= |arrivals|
    requires NotCompletedWithin(r, arrivals, key, 0, n)
    ensures Gathered(Run(r, arrivals[..n]), arrivals, n, key, payload)
  {
    if n > 0 {
      GatherAll(r, arrivals, n - 1, key, payload);
      RunKeepsTables(r, arrivals[..n - 1]);
      RunStep(r, arrivals, n - 1);
      assert !Completes(r, arrivals, n - 1, key);
      GatherStep(Run(r, arrivals[..n - 1]), arrivals, n - 1, key, payload);
    }
  }

  /** A message that is not completed always misses a position. */
  lemma SomeMissing(r: Reassembler, key: Key, payload: bytes)
    requires ReassemblerOk(r) && NeedsFragments(payload) && HoldsPiecesOf(r, key, payload)
    ensures exists index :: 0 <= index < ChunkCount(|payload|) && !Has(r, key, index)
  {
    ChunkCountBounds(|payload|);
    if key in r.table {
      SumBound(r.table[key]);
      var index :| 0 <= index < |r.table[key].chunks| && r.table[key].chunks[index].None?;
      assert !Has(r, key, index);
    } else {
      assert !Has(r, key, 0);
    }
  }

  /**
   Delivery: if every fragment arrives, in any order and any number of times,
   among any other traffic, then some arrival delivers the message, provided a
   buffer was free and nothing expired.
   */
  lemma EventuallyDelivered(r: Reassembler, arrivals: seq<Arrival>, key: Key, payload: bytes)
    requires Schedule(r, arrivals, key, payload) && AllArrive(arrivals, key, payload)
    ensures exists i :: 0 <= i < |arrivals| && Completes(r, arrivals, i, key)
  {
    if NotCompletedWithin(r, arrivals, key, 0, |arrivals|) {
      GatherAll(r, arrivals, |arrivals|, key, payload);
      RunKeepsTables(r, arrivals[..|arrivals|]);
      var end := Run(r, arrivals[..|arrivals|]);
      SomeMissing(end, key, payload);
      var index :| 0 <= index < ChunkCount(|payload|) && !Has(end, key, index);
      assert Arrives(arrivals, key, payload, index);
      HonestFragmentReads(key, payload, index);
      assert false;
    }
  }

  /** The fragment keys a schedule mentions. */
  function KeysOf(arrivals: seq<Arrival>): set<Key> {
    set i | 0 <= i < |arrivals| && KeyOf(arrivals[i].datagram).Some? :: KeyOf(arrivals[i].datagram).value
  }

  lemma {:induction false} TableKeysArrived(arrivals: seq<Arrival>)
    ensures Run(EMPTY, arrivals).table.Keys <= KeysOf(arrivals)
  {
    if arrivals != [] {
      var n := |arrivals| - 1;
      TableKeysArrived(arrivals[..n]);
      forall k | k in Run(EMPTY, arrivals).table ensures k in KeysOf(arrivals) {
        if KeyOf(arrivals[n].datagram) != Some(k) {
          AcceptOther(Run(EMPTY, arrivals[..n]), arrivals[n], k);
          assert k in KeysOf(arrivals[..n]);
          var i :| 0 <= i < n && KeyOf(arrivals[..n][i].datagram) == Some(k);
          assert KeyOf(arrivals[i].datagram) == Some(k);
        }
      }
    }
  }

  /** A schedule that mentions at most 64 fragmented messages always has a free buffer. */
  lemma FewKeysLeaveRoom(arrivals: seq<Arrival>, key: Key)
    requires |KeysOf(arrivals)| <= MAX_REASSEMBLY_ENTRIES
    ensures RoomAlways(EMPTY, arrivals, key)
  {
    forall i | 0 <= i < |arrivals| && KeyOf(arrivals[i].datagram) == Some(key)
      ensures RoomFor(Run(EMPTY, arrivals[..i]), key, arrivals[i].clock)
    {
      TableKeysArrived(arrivals[..i]);
      var table := PruneExpired(Run(EMPTY, arrivals[..i]).table, arrivals[i].clock.pruneAt);
      assert key in KeysOf(arrivals);
      forall k | k in table ensures k in KeysOf(arrivals) {
        assert k in KeysOf(arrivals[..i]);
        var j :| 0 <= j < i && KeyOf(arrivals[..i][j].datagram) == Some(k);
        assert KeyOf(arrivals[j].datagram) == Some(k);
      }
      if key !in table {
        SubsetCardinality(table.Keys, KeysOf(arrivals) - {key});
        assert |table| == |table.Keys|;
      }
    }
  }

  /**
   The carrier's promise for a fragmented message, over every schedule: it is
   delivered, nothing but it is ever delivered for its key, and a second
   delivery needs 256 newer completions in between.
   */
  lemma FragmentedMessageDelivered(arrivals: seq<Arrival>, key: Key, payload: bytes)
    requires Sendable(key, payload) && HonestFor(arrivals, key, payload) && AllArrive(arrivals, key, payload)
    requires WithinLimits(arrivals, key, payload) && NoExpiry(arrivals, key) && RoomAlways(EMPTY, arrivals, key)
    ensures exists i :: 0 <= i < |arrivals| && Completes(EMPTY, arrivals, i, key)
    ensures forall i :: 0 <= i < |arrivals| && Completes(EMPTY, arrivals, i, key) ==>
      Outcome(EMPTY, arrivals, i) == Ok(Some(Delivery(key.kind, payload)))
    ensures forall i, j :: 0 <= i < j < |arrivals| && Completes(EMPTY, arrivals, i, key) && Completes(EMPTY, arrivals, j, key) ==>
      Completions(EMPTY, arrivals, i + 1, j) >= MAX_COMPLETED_FRAGMENT_KEYS
  {
    EventuallyDelivered(EMPTY, arrivals, key, payload);
    forall i | 0 <= i < |arrivals| && Completes(EMPTY, arrivals, i, key)
      ensures Outcome(EMPTY, arrivals, i) == Ok(Some(Delivery(key.kind, payload)))
    {
      ExactDelivery(arrivals, key, payload, i);
    }
    forall i, j | 0 <= i < j < |arrivals| && Completes(EMPTY, arrivals, i, key) && Completes(EMPTY, arrivals, j, key)
      ensures Completions(EMPTY, arrivals, i + 1, j) >= MAX_COMPLETED_FRAGMENT_KEYS
    {
      AtMostOnce(EMPTY, arrivals, key, i, j);
    }
  }

  /** The fragments of one message as they are sent, each arriving once and at once. */
  function SentInOrder(key: Key, payload: bytes): (arrivals: seq<Arrival>)
    ensures |arrivals| == ChunkCount(|payload|)
  {
    seq(ChunkCount(|payload|), index requires 0 <= index =>
      Arrival(FragmentDatagram(key.kind, key.messageId, payload, index), |payload|, Clock(0, 0)))
  }

  lemma SentKeys(key: Key, payload: bytes)
    requires Sendable(key, payload)
    ensures var arrivals := SentInOrder(key, payload);
            forall i :: 0 <= i < |arrivals| ==> KeyOf(arrivals[i].datagram) == Some(key)
  {
    forall i | 0 <= i < ChunkCount(|payload|)
      ensures KeyOf(SentInOrder(key, payload)[i].datagram) == Some(key)
    {
      HonestFragmentReads(key, payload, i);
    }
  }

  /** The undisturbed schedule meets every assumption above, so an admissible message sent over a quiet line arrives. */
  lemma QuietLineDelivers(key: Key, payload: bytes)
    requires Sendable(key, payload)
    ensures var arrivals := SentInOrder(key, payload);
            exists i :: 0 <= i < |arrivals| && Completes(EMPTY, arrivals, i, key)
                        && Outcome(EMPTY, arrivals, i) == Ok(Some(Delivery(key.kind, payload)))
  {
    var arrivals := SentInOrder(key, payload);
    SentKeys(key, payload);
    forall index | 0 <= index < ChunkCount(|payload|)
      ensures Arrives(arrivals, key, payload, index)
    {
      assert arrivals[index].datagram == FragmentDatagram(key.kind, key.messageId, payload, index);
    }
    assert HonestFor(arrivals, key, payload);
    assert |KeysOf(arrivals)| <= 1 by {
      SubsetCardinality(KeysOf(arrivals), {key});
    }
    FewKeysLeaveRoom(arrivals, key);
    FragmentedMessageDelivered(arrivals, key, payload);
  }
}
