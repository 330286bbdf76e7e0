/**
 Reassembly of fragmented carrier messages: the buffers of one session, the
 bounded memory of completed keys, and what accepting one datagram does to them.
 */
module CarrierReassembly {
  import opened Bytes
  import opened CarrierCodec

  const MAX_REASSEMBLY_ENTRIES := 64
  const REASSEMBLY_TTL := 30_000_000_000 // nanoseconds
  const MAX_COMPLETED_FRAGMENT_KEYS := 256

  datatype Key = Key(kind: MessageKind, messageId: nat)

  datatype Buffer = Buffer(totalLen: nat, chunks: seq<Option<bytes>>, receivedLen: nat, createdAt: nat)

  datatype CompletedKeys = CompletedKeys(order: seq<Key>, members: set<Key>)

  datatype Reassembler = Reassembler(table: map<Key, Buffer>, completed: CompletedKeys)

  /** The two clock readings of one call: one for pruning, a later one for a new buffer. */
  datatype Clock = Clock(pruneAt: nat, createdAt: nat)

  datatype Delivery = Delivery(kind: MessageKind, message: bytes)

  type AcceptResult = Result<Option<Delivery>, CarrierError>

  const EMPTY := Reassembler(map[], CompletedKeys([], {}))

  // ------------------------------------------------------------------ buffers

  predicate AllPresent(chunks: seq<Option<bytes>>) {
    forall i :: 0 <= i < |chunks| ==> chunks[i].Some?
  }

  function Join(chunks: seq<Option<bytes>>): bytes
    requires AllPresent(chunks)
  {
    if chunks == [] then [] else Join(chunks[..|chunks| - 1]) + chunks[|chunks| - 1].value
  }

  function NewBuffer(totalLen: nat, count: nat, createdAt: nat): Buffer {
    Buffer(totalLen, seq(count, _ => None), 0, createdAt)
  }

  function InsertFragment(b: Buffer, f: Fragment): (Buffer, Result<Option<bytes>, CarrierError>) {
    if f.totalLen != b.totalLen then (b, Err(TotalLengthChanged))
    else if f.totalLen > MAX_REASSEMBLED_MESSAGE_LEN then (b, Err(FragmentedMessageTooLarge))
    else if f.count != |b.chunks| then (b, Err(FragmentCountChanged))
    else if f.index >= |b.chunks| then (b, Err(FragmentIndexOutOfRange))
    else if b.chunks[f.index].Some? then (b, Ok(None))
    else
      var grown := b.(receivedLen := b.receivedLen + |f.payload|);
      if grown.receivedLen > b.totalLen then (grown, Err(FragmentsExceedDeclaredLength))
      else
        var filled := grown.(chunks := b.chunks[f.index := Some(f.payload)]);
        if !AllPresent(filled.chunks) then (filled, Ok(None))
        else
          var message := Join(filled.chunks);
          var emptied := filled.(chunks := seq(|filled.chunks|, _ => None));
          if |message| != b.totalLen then (emptied, Err(ReassembledLengthMismatch))
          else (emptied, Ok(Some(message)))
  }

  function SumLens(chunks: seq<Option<bytes>>): nat {
    if chunks == [] then 0
    else
      var last := chunks[|chunks| - 1];
      SumLens(chunks[..|chunks| - 1]) + if last.Some? then |last.value| else 0
  }

  /** A buffer whose chunks sit at their exact positions and which is not yet complete. */
  predicate BufferOk(b: Buffer) {
    && ChunksOk(b)
    && b.receivedLen == SumLens(b.chunks) < b.totalLen
  }

  predicate ChunksOk(b: Buffer) {
    && MAX_CARRIER_PAYLOAD_LEN < b.totalLen <= MAX_REASSEMBLED_MESSAGE_LEN
    && |b.chunks| == ChunkCount(b.totalLen)
    && forall i :: 0 <= i < |b.chunks| && b.chunks[i].Some? ==> |b.chunks[i].value| == ChunkLen(b.totalLen, i)
  }

  /** Position-exact chunks of a prefix never exceed that prefix, and fill it only when none is missing. */
  lemma {:induction false} PrefixSum(b: Buffer, k: nat)
    requires ChunksOk(b) && k <= |b.chunks|
    ensures SumLens(b.chunks[..k]) <= Min(b.totalLen, MAX_FRAGMENT_PAYLOAD_LEN * k)
    ensures SumLens(b.chunks[..k]) == Min(b.totalLen, MAX_FRAGMENT_PAYLOAD_LEN * k) <==> AllPresent(b.chunks[..k])
  {
    if k > 0 {
      PrefixSum(b, k - 1);
      assert b.chunks[..k][..k - 1] == b.chunks[..k - 1];
      ChunkEdges(b.totalLen, k);
      PresentPrefix(b.chunks, k);
    }
  }

  /** Position k - 1 reaches from the end of the one before it to its own end, and is not empty. */
  lemma ChunkEdges(totalLen: nat, k: nat)
    requires MAX_CARRIER_PAYLOAD_LEN < totalLen <= MAX_REASSEMBLED_MESSAGE_LEN && 0 < k <= ChunkCount(totalLen)
    ensures 0 < ChunkLen(totalLen, k - 1)
            == Min(totalLen, MAX_FRAGMENT_PAYLOAD_LEN * k) - Min(totalLen, MAX_FRAGMENT_PAYLOAD_LEN * (k - 1))
  {
    ChunkCountBounds(totalLen);
  }

  lemma PresentPrefix(chunks: seq<Option<bytes>>, k: nat)
    requires 0 < k <= |chunks|
    ensures AllPresent(chunks[..k]) <==> AllPresent(chunks[..k - 1]) && chunks[k - 1].Some?
  {
    assert forall i :: 0 <= i < k - 1 ==> chunks[..k][i] == chunks[..k - 1][i];
  }

  lemma SumBound(b: Buffer)
    requires ChunksOk(b)
    ensures SumLens(b.chunks) <= b.totalLen
    ensures SumLens(b.chunks) == b.totalLen <==> AllPresent(b.chunks)
  {
    PrefixSum(b, |b.chunks|);
    ChunkCountBounds(b.totalLen);
    assert b.chunks[..|b.chunks|] == b.chunks;
  }

  lemma {:induction false} SumAfterInsert(chunks: seq<Option<bytes>>, i: nat, payload: bytes)
    requires i < |chunks| && chunks[i].None?
    ensures SumLens(chunks[i := Some(payload)]) == SumLens(chunks) + |payload|
  {
    var n := |chunks| - 1;
    if i < n {
      SumAfterInsert(chunks[..n], i, payload);
      assert chunks[i := Some(payload)][..n] == chunks[..n][i := Some(payload)];
    } else {
      assert chunks[i := Some(payload)][..n] == chunks[..n];
    }
  }

  lemma {:induction false} JoinLength(chunks: seq<Option<bytes>>)
    requires AllPresent(chunks)
    ensures |Join(chunks)| == SumLens(chunks)
  {
    if chunks != [] {
      JoinLength(chunks[..|chunks| - 1]);
    }
  }

  lemma {:induction false} EmptySum(chunks: seq<Option<bytes>>)
    requires forall i :: 0 <= i < |chunks| ==> chunks[i].None?
    ensures SumLens(chunks) == 0
  {
    if chunks != [] {
      EmptySum(chunks[..|chunks| - 1]);
    }
  }

  /** A buffer just created for a well-shaped fragment is consistent. */
  lemma NewBufferOk(f: Fragment, createdAt: nat)
    requires WellShaped(f.totalLen, f.index, f.count, |f.payload|)
    ensures BufferOk(NewBuffer(f.totalLen, f.count, createdAt))
  {
    EmptySum(NewBuffer(f.totalLen, f.count, createdAt).chunks);
  }

  predicate IsNewChunk(b: Buffer, f: Fragment) {
    f.totalLen == b.totalLen && f.index < |b.chunks| && b.chunks[f.index].None?
  }

  /**
   Inserting a well-shaped fragment into a consistent buffer fails exactly when
   the declared total length changed; every other guard of the insertion is
   unreachable. A new chunk is stored at its position, and the message comes out
   exactly when no position is missing any more.
   */
  lemma InsertFragmentExact(b: Buffer, f: Fragment)
    requires BufferOk(b) && WellShaped(f.totalLen, f.index, f.count, |f.payload|)
    ensures var (b', result) := InsertFragment(b, f);
            && (result.Err? <==> f.totalLen != b.totalLen)
            && (result.Err? ==> result == Err(TotalLengthChanged))
            && (f.totalLen == b.totalLen && !IsNewChunk(b, f) ==> b' == b && result == Ok(None))
            && (IsNewChunk(b, f) ==>
                  var chunks := b.chunks[f.index := Some(f.payload)];
                  if AllPresent(chunks) then result == Ok(Some(Join(chunks))) && |Join(chunks)| == b.totalLen
                  else result == Ok(None) && BufferOk(b') && b'.chunks == chunks
                       && b'.totalLen == b.totalLen && b'.createdAt == b.createdAt)
  {
    if IsNewChunk(b, f) {
      SumAfterInsert(b.chunks, f.index, f.payload);
      var chunks := b.chunks[f.index := Some(f.payload)];
      var filled := b.(chunks := chunks, receivedLen := b.receivedLen + |f.payload|);
      SumBound(filled);
      if AllPresent(chunks) {
        JoinLength(chunks);
      }
    }
  }

  // ----------------------------------------------------------- completed keys

  function Evict(c: CompletedKeys): (e: CompletedKeys)
    ensures |e.order| <= MAX_COMPLETED_FRAGMENT_KEYS
    decreases |c.order|
  {
    if |c.order| > MAX_COMPLETED_FRAGMENT_KEYS
    then Evict(CompletedKeys(c.order[1..], c.members - {c.order[0]}))
    else c
  }

  function RememberKey(c: CompletedKeys, key: Key): CompletedKeys {
    if key in c.members then c
    else Evict(CompletedKeys(c.order + [key], c.members + {key}))
  }

  predicate CompletedOk(c: CompletedKeys) {
    && |c.order| <= MAX_COMPLETED_FRAGMENT_KEYS
    && NoDuplicates(c.order)
    && c.members == set k | k in c.order
  }

  predicate NoDuplicates(order: seq<Key>) {
    forall i, j :: 0 <= i < j < |order| ==> order[i] != order[j]
  }

  /** A new key goes to the back; the oldest key leaves only when 256 are already held. */
  lemma RememberKeyIsFifo(c: CompletedKeys, key: Key)
    requires CompletedOk(c) && key !in c.members
    ensures CompletedOk(RememberKey(c, key))
    ensures var c' := RememberKey(c, key);
            c'.order == (if |c.order| < MAX_COMPLETED_FRAGMENT_KEYS then c.order else c.order[1..]) + [key]
  {
    var grown := CompletedKeys(c.order + [key], c.members + {key});
    if |c.order| == MAX_COMPLETED_FRAGMENT_KEYS {
      var evicted := CompletedKeys(grown.order[1..], grown.members - {grown.order[0]});
      assert Evict(grown) == Evict(evicted) == evicted;
      assert evicted.order == c.order[1..] + [key];
      forall k ensures k in evicted.members <==> k in evicted.order {
        if k in evicted.order {
          var i :| 0 <= i < |evicted.order| && evicted.order[i] == k;
          assert grown.order[i + 1] == k && grown.order[0] != k;
        }
        if k in evicted.members && k != key {
          var i :| 0 <= i < |c.order| && c.order[i] == k;
          assert i > 0;
          assert evicted.order[i - 1] == k;
        }
        if k == key {
          assert evicted.order[|evicted.order| - 1] == key;
        }
      }
    } else {
      assert Evict(grown) == grown;
    }
  }

  /** `key` is remembered, with exactly `newer` keys completed after it. */
  predicate RememberedWith(c: CompletedKeys, key: Key, newer: nat) {
    newer < |c.order| && c.order[|c.order| - 1 - newer] == key
  }

  lemma RememberAges(c: CompletedKeys, added: Key, key: Key, newer: nat)
    requires CompletedOk(c) && added !in c.members && RememberedWith(c, key, newer)
    ensures added != key
    ensures newer + 1 < MAX_COMPLETED_FRAGMENT_KEYS ==> RememberedWith(RememberKey(c, added), key, newer + 1)
    ensures newer + 1 == MAX_COMPLETED_FRAGMENT_KEYS ==> key !in RememberKey(c, added).members
  {
    RememberKeyIsFifo(c, added);
    assert key in c.order;
    if newer + 1 == MAX_COMPLETED_FRAGMENT_KEYS {
      assert c.order[0] == key;
      assert key !in RememberKey(c, added).order;
    }
  }

  /** One step of the memory: a step completes at most one key, and never a remembered one. */
  function Advance(c: CompletedKeys, added: Option<Key>): CompletedKeys {
    if added.Some? then RememberKey(c, added.value) else c
  }

  predicate IsHistory(cs: seq<CompletedKeys>, added: seq<Option<Key>>) {
    && |cs| == |added| + 1
    && (forall i :: 0 <= i < |cs| ==> CompletedOk(cs[i]))
    && (forall i :: 0 <= i < |added| ==> cs[i + 1] == Advance(cs[i], added[i]))
    && (forall i :: 0 <= i < |added| && added[i].Some? ==> added[i].value !in cs[i].members)
  }

  /** How many keys were completed by the steps `lo..hi`. */
  function CountAdded(added: seq<Option<Key>>, lo: nat, hi: nat): nat
    requires hi <= |added|
  {
    if lo >= hi then 0 else CountAdded(added, lo, hi - 1) + if added[hi - 1].Some? then 1 else 0
  }

  lemma {:induction false} CountAddedSplit(added: seq<Option<Key>>, lo: nat, mid: nat, hi: nat)
    requires lo <= mid <= hi <= |added|
    ensures CountAdded(added, lo, hi) == CountAdded(added, lo, mid) + CountAdded(added, mid, hi)
    decreases hi
  {
    if mid < hi {
      CountAddedSplit(added, lo, mid, hi - 1);
    }
  }

  /** A completed key is remembered exactly until 256 newer keys have completed. */
  lemma {:induction false} RememberedExactly(cs: seq<CompletedKeys>, added: seq<Option<Key>>, key: Key, i: nat, j: nat)
    requires IsHistory(cs, added) && i < j <= |added| && added[i] == Some(key)
    requires forall k :: i < k < j ==> added[k] != Some(key)
    ensures var newer := CountAdded(added, i + 1, j);
            if newer < MAX_COMPLETED_FRAGMENT_KEYS then RememberedWith(cs[j], key, newer)
            else key !in cs[j].members
    decreases j
  {
    var before, last := cs[j - 1], added[j - 1];
    assert cs[j] == Advance(before, last);
    if i == j - 1 {
      RememberKeyIsFifo(before, key);
    } else {
      RememberedExactly(cs, added, key, i, j - 1);
      if last.Some? {
        var newer := CountAdded(added, i + 1, j - 1);
        if newer < MAX_COMPLETED_FRAGMENT_KEYS {
          RememberAges(before, last.value, key, newer);
        } else {
          RememberedMembers(before, last.value);
        }
      }
    }
  }

  /** The same key is completed again only after at least 256 newer completions. */
  lemma {:induction false} CompletedAgain(cs: seq<CompletedKeys>, added: seq<Option<Key>>, key: Key, i: nat, j: nat)
    requires IsHistory(cs, added) && i < j < |added| && added[i] == added[j] == Some(key)
    ensures CountAdded(added, i + 1, j) >= MAX_COMPLETED_FRAGMENT_KEYS
    decreases j - i
  {
    if k :| i < k < j && added[k] == Some(key) {
      CompletedAgain(cs, added, key, k, j);
      CountAddedSplit(added, i + 1, k + 1, j);
    } else {
      RememberedExactly(cs, added, key, i, j);
    }
  }

  // ---------------------------------------------------------------- accepting

  predicate ExceedsLimit(kind: MessageKind, len: nat, authenticatedMax: nat) {
    kind == AuthenticatedMessage && len > authenticatedMax
  }

  function PruneExpired(table: map<Key, Buffer>, now: nat): map<Key, Buffer> {
    map k | k in table && now - table[k].createdAt <= REASSEMBLY_TTL :: table[k]
  }

  function Store(r: Reassembler, table: map<Key, Buffer>, key: Key, f: Fragment, createdAt: nat): (Reassembler, AcceptResult) {
    var entry := if key in table then table[key] else NewBuffer(f.totalLen, f.count, createdAt);
    var (updated, result) := InsertFragment(entry, f);
    match result
    case Err(e) => (r.(table := table - {key}), Err(e))
    case Ok(None) => (r.(table := table[key := updated]), Ok(None))
    case Ok(Some(message)) =>
      (Reassembler(table - {key}, RememberKey(r.completed, key)), Ok(Some(Delivery(key.kind, message))))
  }

  function AcceptFragment(r: Reassembler, kind: MessageKind, f: Fragment, authenticatedMax: nat, clock: Clock)
    : (Reassembler, AcceptResult)
  {
    var key := Key(kind, f.messageId);
    if key in r.completed.members then (r, Ok(None))
    else
      var shape := ShapeError(f.totalLen, f.index, f.count, |f.payload|);
      if shape.Some? then (r, Err(shape.value))
      else if ExceedsLimit(kind, f.totalLen, authenticatedMax) then (r, Err(MessageExceedsLimit))
      else
        var table := PruneExpired(r.table, clock.pruneAt);
        if key !in table && |table| >= MAX_REASSEMBLY_ENTRIES then (r.(table := table), Err(TooManyInFlight))
        else Store(r, table, key, f, clock.createdAt)
  }

  function AcceptDatagram(r: Reassembler, d: Datagram, authenticatedMax: nat, clock: Clock): (Reassembler, AcceptResult) {
    match MessageKindOf(d.kind)
    case None => (r, Err(CarrierClosed))
    case Some(kind) =>
      if d.kind == CompleteDatagramKind(kind) then
        if ExceedsLimit(kind, |d.payload|, authenticatedMax) then (r, Err(MessageExceedsLimit))
        else (r, Ok(Some(Delivery(kind, d.payload))))
      else match DecodeFragment(d.payload)
        case Err(e) => (r, Err(e))
        case Ok(f) => AcceptFragment(r, kind, f, authenticatedMax, clock)
  }

  /** What holds of the reassembly tables of every session, whatever the network sends. */
  predicate ReassemblerOk(r: Reassembler) {
    && |r.table| <= MAX_REASSEMBLY_ENTRIES
    && (forall k :: k in r.table ==> BufferOk(r.table[k]))
    && CompletedOk(r.completed)
    && (forall k :: k in r.table ==> k !in r.completed.members)
  }

  lemma SmallerTable(a: map<Key, Buffer>, b: map<Key, Buffer>)
    requires a.Keys <= b.Keys
    ensures |a| <= |b|
  {
    SubsetCardinality(a.Keys, b.Keys);
    assert |a| == |a.Keys| && |b| == |b.Keys|;
  }

  lemma {:induction false} SubsetCardinality(a: set<Key>, b: set<Key>)
    requires a <= b
    ensures |a| <= |b|
  {
    if a != {} {
      var k :| k in a;
      SubsetCardinality(a - {k}, b - {k});
    }
  }

  predicate PartOf(table: map<Key, Buffer>, r: Reassembler) {
    forall k :: k in table ==> k in r.table && table[k] == r.table[k]
  }

  lemma WithoutKeyOk(r: Reassembler, table: map<Key, Buffer>, key: Key)
    requires ReassemblerOk(r) && PartOf(table, r)
    ensures ReassemblerOk(r.(table := table - {key}))
  {
    SmallerTable(table - {key}, r.table);
  }

  lemma WithKeyOk(r: Reassembler, table: map<Key, Buffer>, key: Key, b: Buffer)
    requires ReassemblerOk(r) && PartOf(table, r) && key !in r.completed.members && BufferOk(b)
    requires key in table || |table| < MAX_REASSEMBLY_ENTRIES
    ensures ReassemblerOk(r.(table := table[key := b]))
  {
    SmallerTable(table, r.table);
    if key in table {
      assert table[key := b].Keys == table.Keys;
      SmallerTable(table[key := b], table);
    } else {
      assert table[key := b].Keys == table.Keys + {key};
      assert |table[key := b]| == |table[key := b].Keys| == |table.Keys| + 1;
    }
  }

  lemma CompletedKeyOk(r: Reassembler, table: map<Key, Buffer>, key: Key)
    requires ReassemblerOk(r) && PartOf(table, r) && key !in r.completed.members
    ensures ReassemblerOk(Reassembler(table - {key}, RememberKey(r.completed, key)))
  {
    WithoutKeyOk(r, table, key);
    RememberKeyIsFifo(r.completed, key);
    RememberedMembers(r.completed, key);
  }

  /**
   Past the checks, storing a fragment fails exactly when a buffer for its key
   declares another total length; it keeps the tables consistent either way.
   */
  lemma StorePreserves(r: Reassembler, table: map<Key, Buffer>, key: Key, f: Fragment, createdAt: nat)
    requires ReassemblerOk(r) && PartOf(table, r) && key !in r.completed.members
    requires WellShaped(f.totalLen, f.index, f.count, |f.payload|)
    requires key in table || |table| < MAX_REASSEMBLY_ENTRIES
    ensures var (r', result) := Store(r, table, key, f, createdAt);
            && ReassemblerOk(r')
            && (result.Err? <==> key in table && table[key].totalLen != f.totalLen)
            && (result.Err? ==> result == Err(TotalLengthChanged))
  {
    var entry := if key in table then table[key] else NewBuffer(f.totalLen, f.count, createdAt);
    NewBufferOk(f, createdAt);
    InsertFragmentExact(entry, f);
    var (updated, result) := InsertFragment(entry, f);
    match result {
      case Err(_) => WithoutKeyOk(r, table, key);
      case Ok(None) => WithKeyOk(r, table, key, updated);
      case Ok(Some(_)) => CompletedKeyOk(r, table, key);
    }
  }

  lemma RememberedMembers(c: CompletedKeys, key: Key)
    requires CompletedOk(c) && key !in c.members
    ensures RememberKey(c, key).members <= c.members + {key}
    ensures key in RememberKey(c, key).members
  {
    RememberKeyIsFifo(c, key);
    var c' := RememberKey(c, key);
    assert c'.order[|c'.order| - 1] == key;
    forall k | k in c'.members ensures k in c.members || k == key {
      var i :| 0 <= i < |c'.order| && c'.order[i] == k;
    }
  }

  lemma PrunedOk(r: Reassembler, now: nat)
    requires ReassemblerOk(r)
    ensures PartOf(PruneExpired(r.table, now), r) && ReassemblerOk(r.(table := PruneExpired(r.table, now)))
  {
    SmallerTable(PruneExpired(r.table, now), r.table);
  }

  lemma FragmentPreserves(r: Reassembler, kind: MessageKind, f: Fragment, authenticatedMax: nat, clock: Clock)
    requires ReassemblerOk(r)
    ensures ReassemblerOk(AcceptFragment(r, kind, f, authenticatedMax, clock).0)
  {
    var key, table := Key(kind, f.messageId), PruneExpired(r.table, clock.pruneAt);
    if key in r.completed.members || ShapeError(f.totalLen, f.index, f.count, |f.payload|).Some?
       || ExceedsLimit(kind, f.totalLen, authenticatedMax) {
      assert AcceptFragment(r, kind, f, authenticatedMax, clock).0 == r;
    } else {
      PrunedOk(r, clock.pruneAt);
      if key in table || |table| < MAX_REASSEMBLY_ENTRIES {
        ShapeCheckExact(f.totalLen, f.index, f.count, |f.payload|);
        StorePreserves(r, table, key, f, clock.createdAt);
        assert AcceptFragment(r, kind, f, authenticatedMax, clock) == Store(r, table, key, f, clock.createdAt);
      }
    }
  }

  /** Accepting any datagram, honest or not, keeps the tables consistent. */
  lemma AcceptPreserves(r: Reassembler, d: Datagram, authenticatedMax: nat, clock: Clock)
    requires ReassemblerOk(r)
    ensures ReassemblerOk(AcceptDatagram(r, d, authenticatedMax, clock).0)
  {
    var kind := MessageKindOf(d.kind);
    if kind.Some? && d.kind != CompleteDatagramKind(kind.value) && DecodeFragment(d.payload).Ok? {
      FragmentPreserves(r, kind.value, DecodeFragment(d.payload).value, authenticatedMax, clock);
    }
  }

  // ------------------------------------------------- what becomes of a datagram

  /** A buffer that is still within the reassembly lifetime. */
  predicate Live(r: Reassembler, k: Key, now: nat) {
    k in r.table && now <= r.table[k].createdAt + 30_000_000_000
  }

  /** A whole message is delivered unless it is an authenticated one over the limit; a close is reported. Neither touches the tables. */
  lemma WholeOutcome(r: Reassembler, d: Datagram, authenticatedMax: nat, clock: Clock)
    ensures d.kind == FrameDatagram ==> AcceptDatagram(r, d, authenticatedMax, clock) == (r, Ok(Some(Delivery(Frame, d.payload))))
    ensures d.kind == AuthenticatedDatagram ==>
      AcceptDatagram(r, d, authenticatedMax, clock)
      == (r, if |d.payload| <= authenticatedMax then Ok(Some(Delivery(AuthenticatedMessage, d.payload))) else Err(MessageExceedsLimit))
    ensures d.kind == Close ==> AcceptDatagram(r, d, authenticatedMax, clock) == (r, Err(CarrierClosed))
  {
  }

  /** A fragment that cannot be read, of a completed message, of the wrong shape or over the limit leaves the tables alone. */
  lemma FragmentTurnedAway(r: Reassembler, d: Datagram, kind: MessageKind, f: Fragment, authenticatedMax: nat, clock: Clock)
    requires d.kind == FragmentDatagramKind(kind)
    ensures DecodeFragment(d.payload).Err? ==>
      AcceptDatagram(r, d, authenticatedMax, clock) == (r, Err(DecodeFragment(d.payload).error))
    ensures DecodeFragment(d.payload) == Ok(f) ==>
      var (r', result) := AcceptDatagram(r, d, authenticatedMax, clock);
      var shaped := WellShaped(f.totalLen, f.index, f.count, |f.payload|);
      && (Key(kind, f.messageId) in r.completed.members ==> r' == r && result == Ok(None))
      && (Key(kind, f.messageId) !in r.completed.members && !shaped ==> r' == r && result.Err?)
      && (Key(kind, f.messageId) !in r.completed.members && shaped && kind == AuthenticatedMessage && f.totalLen > authenticatedMax ==>
            r' == r && result == Err(MessageExceedsLimit))
  {
    ShapeCheckExact(f.totalLen, f.index, f.count, |f.payload|);
  }

  /** Storing a fragment under its key: what happens to that key, and that nothing else changes. */
  lemma StoreOutcome(r: Reassembler, table: map<Key, Buffer>, key: Key, f: Fragment, createdAt: nat)
    requires ReassemblerOk(r) && PartOf(table, r) && key !in r.completed.members
    requires WellShaped(f.totalLen, f.index, f.count, |f.payload|)
    ensures var (r', result) := Store(r, table, key, f, createdAt);
            && (forall k :: k != key ==> (k in r'.table <==> k in table))
            && (forall k :: k != key && k in table ==> r'.table[k] == table[k])
            && (result.Err? ==> result == Err(TotalLengthChanged))
            && (result.Err? <==> key in table && table[key].totalLen != f.totalLen)
            && (result.Ok? && result.value.None? ==>
                  && key in r'.table && r'.completed == r.completed
                  && r'.table[key].createdAt == (if key in table then table[key].createdAt else createdAt))
            && (result.Ok? && result.value.Some? ==>
                  && key !in r'.table && key in r'.completed.members && result.value.value.kind == key.kind)
  {
    NewBufferOk(f, createdAt);
    InsertFragmentExact(if key in table then table[key] else NewBuffer(f.totalLen, f.count, createdAt), f);
    RememberedMembers(r.completed, key);
  }

  lemma LiveKeys(r: Reassembler, now: nat)
    ensures PruneExpired(r.table, now).Keys == set k | k in r.table && Live(r, k, now)
    ensures forall k :: k in PruneExpired(r.table, now) ==> PruneExpired(r.table, now)[k] == r.table[k]
  {
  }

  /**
   Any other fragment first drops every buffer past its lifetime and no other;
   then it is refused exactly when it needs a buffer and 64 are live, and
   otherwise stored under its own key.
   */
  lemma FragmentTaken(r: Reassembler, kind: MessageKind, f: Fragment, authenticatedMax: nat, clock: Clock)
    requires ReassemblerOk(r) && Key(kind, f.messageId) !in r.completed.members
    requires WellShaped(f.totalLen, f.index, f.count, |f.payload|) && !(kind == AuthenticatedMessage && f.totalLen > authenticatedMax)
    ensures var (r', result) := AcceptFragment(r, kind, f, authenticatedMax, clock);
            var key, live := Key(kind, f.messageId), set k | k in r.table && Live(r, k, clock.pruneAt);
            && (forall k :: k != key ==> (k in r'.table <==> k in live))
            && (forall k :: k != key && k in live ==> r'.table[k] == r.table[k])
            && (result == Err(TooManyInFlight) <==> key !in live && |live| >= 64)
            && (result == Err(TotalLengthChanged) <==> key in live && r.table[key].totalLen != f.totalLen)
            && (result.Ok? && result.value.None? ==>
                  && key in r'.table && r'.completed == r.completed
                  && r'.table[key].createdAt == (if key in live then r.table[key].createdAt else clock.createdAt))
            && (result.Ok? && result.value.Some? ==>
                  && key !in r'.table && key in r'.completed.members && result.value.value.kind == kind)
  {
    var key, table := Key(kind, f.messageId), PruneExpired(r.table, clock.pruneAt);
    LiveKeys(r, clock.pruneAt);
    assert |table| == |table.Keys|;
    FragmentStored(r, kind, f, authenticatedMax, clock);
    if key in table || |table| < MAX_REASSEMBLY_ENTRIES {
      PrunedOk(r, clock.pruneAt);
      StoreOutcome(r, table, key, f, clock.createdAt);
    }
  }

  lemma FragmentStored(r: Reassembler, kind: MessageKind, f: Fragment, authenticatedMax: nat, clock: Clock)
    requires Key(kind, f.messageId) !in r.completed.members
    requires WellShaped(f.totalLen, f.index, f.count, |f.payload|) && !(kind == AuthenticatedMessage && f.totalLen > authenticatedMax)
    ensures var key, table := Key(kind, f.messageId), PruneExpired(r.table, clock.pruneAt);
            AcceptFragment(r, kind, f, authenticatedMax, clock)
            == if key !in table && |table| >= MAX_REASSEMBLY_ENTRIES then (r.(table := table), Err(TooManyInFlight))
               else Store(r, table, key, f, clock.createdAt)
  {
    ShapeCheckExact(f.totalLen, f.index, f.count, |f.payload|);
  }
}
