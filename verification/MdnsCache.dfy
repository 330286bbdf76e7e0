/**
 The cache of local-network observations: entries with the same address list
 replace one another, and stale entries are dropped when a peer is looked up.
 */
module MdnsCache {
  import opened Bytes

  datatype SocketAddr = SocketAddr(ip: bytes, port: nat)
  datatype Observation = Observation(peerId: string, fingerprint: string, addresses: seq<SocketAddr>)
  datatype Entry = Entry(observation: Observation, recordedAt: nat)

  type Cache = map<string, seq<Entry>>

  datatype Event = Record(observation: Observation, now: nat) | Lookup(peerId: string, now: nat) | Clear

  function EntriesOf(c: Cache, peerId: string): seq<Entry> {
    if peerId in c then c[peerId] else []
  }

  function Without(entries: seq<Entry>, addresses: seq<SocketAddr>): seq<Entry> {
    if entries == [] then []
    else (if entries[0].observation.addresses != addresses then [entries[0]] else []) + Without(entries[1..], addresses)
  }

  /** Within the time to live. With now below it there is no cutoff, and every entry qualifies. */
  predicate IsFresh(e: Entry, now: nat, ttl: nat) {
    now < ttl || e.recordedAt >= now - ttl
  }

  function FreshOnes(entries: seq<Entry>, now: nat, ttl: nat): seq<Entry> {
    if entries == [] then []
    else (if IsFresh(entries[0], now, ttl) then [entries[0]] else []) + FreshOnes(entries[1..], now, ttl)
  }

  function RecordIn(c: Cache, o: Observation, now: nat): Cache {
    c[o.peerId := Without(EntriesOf(c, o.peerId), o.addresses) + [Entry(o, now)]]
  }

  function LookupIn(c: Cache, peerId: string, now: nat, ttl: nat): (Cache, seq<Entry>) {
    var kept := FreshOnes(EntriesOf(c, peerId), now, ttl);
    (if kept == [] then c - {peerId} else c[peerId := kept], kept)
  }

  function Next(c: Cache, e: Event, ttl: nat): Cache {
    match e
    case Record(o, now) => RecordIn(c, o, now)
    case Lookup(peerId, now) => LookupIn(c, peerId, now, ttl).0
    case Clear => map[]
  }

  function Run(events: seq<Event>, ttl: nat): Cache {
    if events == [] then map[] else Next(Run(events[..|events| - 1], ttl), events[|events| - 1], ttl)
  }

  // ----- the answer from the full log -----

  /** Everything announced since the last clear, in order. */
  function Log(events: seq<Event>): seq<Entry> {
    if events == [] then []
    else
      var before := Log(events[..|events| - 1]);
      match events[|events| - 1]
      case Record(o, now) => before + [Entry(o, now)]
      case Lookup(_, _) => before
      case Clear => []
  }

  predicate Announces(log: seq<Entry>, peerId: string, addresses: seq<SocketAddr>) {
    exists i :: 0 <= i < |log| && log[i].observation.peerId == peerId && log[i].observation.addresses == addresses
  }

  /** The peer's announcements not repeated later in the log and still fresh. */
  function Answer(log: seq<Entry>, peerId: string, now: nat, ttl: nat): seq<Entry> {
    if log == [] then []
    else
      var o := log[0].observation;
      (if o.peerId == peerId && !Announces(log[1..], peerId, o.addresses) && IsFresh(log[0], now, ttl) then [log[0]] else [])
      + Answer(log[1..], peerId, now, ttl)
  }

  /** Fresh means no older than the time to live. */
  lemma FreshMeans(e: Entry, now: nat, ttl: nat)
    ensures IsFresh(e, now, ttl) <==> now <= e.recordedAt + ttl
  {
  }

  /** Entry number `i` of the log is the peer's last announcement of its addresses and not older than the time to live. */
  predicate Stands(log: seq<Entry>, i: nat, peerId: string, now: nat, ttl: nat) {
    && i < |log| && log[i].observation.peerId == peerId && now <= log[i].recordedAt + ttl
    && (forall j :: i < j < |log| ==>
          log[j].observation.peerId != peerId || log[j].observation.addresses != log[i].observation.addresses)
  }

  /** The entries of the answer are exactly those that stand. */
  lemma {:induction false} AnswerExact(log: seq<Entry>, peerId: string, now: nat, ttl: nat, e: Entry)
    ensures e in Answer(log, peerId, now, ttl) <==> exists i :: 0 <= i < |log| && log[i] == e && Stands(log, i, peerId, now, ttl)
  {
    if log != [] {
      AnswerExact(log[1..], peerId, now, ttl, e);
      FreshMeans(log[0], now, ttl);
      FirstStands(log, peerId, now, ttl);
      if i :| 0 <= i < |log| && log[i] == e && Stands(log, i, peerId, now, ttl) {
        if i > 0 {
          LaterStands(log, i - 1, peerId, now, ttl);
        }
      }
      if i :| 0 <= i < |log| - 1 && log[1..][i] == e && Stands(log[1..], i, peerId, now, ttl) {
        LaterStands(log, i, peerId, now, ttl);
      }
    }
  }

  lemma LaterStands(log: seq<Entry>, i: nat, peerId: string, now: nat, ttl: nat)
    requires log != [] && i < |log| - 1
    ensures log[1..][i] == log[i + 1]
    ensures Stands(log, i + 1, peerId, now, ttl) <==> Stands(log[1..], i, peerId, now, ttl)
  {
    forall j | i < j < |log| - 1
      ensures log[1..][j] == log[j + 1]
    {
    }
    if Stands(log[1..], i, peerId, now, ttl) {
      forall j | i + 1 < j < |log|
        ensures log[j].observation.peerId != peerId || log[j].observation.addresses != log[i + 1].observation.addresses
      {
        assert log[j] == log[1..][j - 1];
      }
    }
  }

  lemma FirstStands(log: seq<Entry>, peerId: string, now: nat, ttl: nat)
    requires log != []
    ensures Stands(log, 0, peerId, now, ttl) <==>
            log[0].observation.peerId == peerId && now <= log[0].recordedAt + ttl
            && !Announces(log[1..], peerId, log[0].observation.addresses)
  {
    if Announces(log[1..], peerId, log[0].observation.addresses) {
      var i :| 0 <= i < |log[1..]| && log[1..][i].observation.peerId == peerId
               && log[1..][i].observation.addresses == log[0].observation.addresses;
      assert log[i + 1] == log[1..][i];
    } else {
      forall j | 0 < j < |log|
        ensures log[j].observation.peerId != peerId || log[j].observation.addresses != log[0].observation.addresses
      {
        assert log[j] == log[1..][j - 1];
      }
    }
  }

  lemma AnnouncesGrows(log: seq<Entry>, e: Entry, peerId: string, addresses: seq<SocketAddr>)
    ensures Announces(log + [e], peerId, addresses)
            <==> Announces(log, peerId, addresses) || (e.observation.peerId == peerId && e.observation.addresses == addresses)
  {
    if Announces(log, peerId, addresses) {
      var i :| 0 <= i < |log| && log[i].observation.peerId == peerId && log[i].observation.addresses == addresses;
      assert (log + [e])[i] == log[i];
    }
    assert (log + [e])[|log|] == e;
  }

  /** The first entry of a log as far as it is part of the answer. */
  function FirstAnswer(log: seq<Entry>, peerId: string, now: nat, ttl: nat): seq<Entry>
    requires log != []
  {
    var o := log[0].observation;
    if o.peerId == peerId && !Announces(log[1..], peerId, o.addresses) && IsFresh(log[0], now, ttl) then [log[0]] else []
  }

  /** A later announcement takes the first entry out exactly when it repeats it. */
  lemma FirstGrows(log: seq<Entry>, e: Entry, peerId: string, now: nat, ttl: nat)
    requires log != []
    ensures FirstAnswer(log + [e], peerId, now, ttl)
            == if e.observation.peerId != peerId then FirstAnswer(log, peerId, now, ttl)
               else Without(FirstAnswer(log, peerId, now, ttl), e.observation.addresses)
  {
    assert (log + [e])[1..] == log[1..] + [e] && (log + [e])[0] == log[0];
    AnnouncesGrows(log[1..], e, peerId, log[0].observation.addresses);
  }

  lemma AnswerSplits(log: seq<Entry>, peerId: string, now: nat, ttl: nat)
    requires log != []
    ensures Answer(log, peerId, now, ttl) == FirstAnswer(log, peerId, now, ttl) + Answer(log[1..], peerId, now, ttl)
  {
  }

  /** One more announcement of the peer drops the one it repeats and comes last. */
  lemma {:induction false} AnswerGrows(log: seq<Entry>, e: Entry, peerId: string, now: nat, ttl: nat)
    ensures Answer(log + [e], peerId, now, ttl)
            == if e.observation.peerId != peerId then Answer(log, peerId, now, ttl)
               else Without(Answer(log, peerId, now, ttl), e.observation.addresses) + FreshOnes([e], now, ttl)
  {
    if log == [] {
      assert log + [e] == [e];
      assert [e][1..] == [];
    } else {
      var first, rest := FirstAnswer(log, peerId, now, ttl), Answer(log[1..], peerId, now, ttl);
      AnswerGrows(log[1..], e, peerId, now, ttl);
      FirstGrows(log, e, peerId, now, ttl);
      AnswerSplits(log, peerId, now, ttl);
      AnswerSplits(log + [e], peerId, now, ttl);
      assert (log + [e])[1..] == log[1..] + [e];
      if e.observation.peerId == peerId {
        var addresses := e.observation.addresses;
        WithoutJoins(first, rest, addresses);
        Regroup(Without(first, addresses), Without(rest, addresses), FreshOnes([e], now, ttl));
      }
    }
  }

  lemma {:induction false} WithoutJoins(a: seq<Entry>, b: seq<Entry>, addresses: seq<SocketAddr>)
    ensures Without(a + b, addresses) == Without(a, addresses) + Without(b, addresses)
  {
    if a == [] {
      assert a + b == b;
    } else {
      WithoutJoins(a[1..], b, addresses);
      assert (a + b)[1..] == a[1..] + b;
    }
  }

  lemma {:induction false} FreshJoins(a: seq<Entry>, b: seq<Entry>, now: nat, ttl: nat)
    ensures FreshOnes(a + b, now, ttl) == FreshOnes(a, now, ttl) + FreshOnes(b, now, ttl)
  {
    if a == [] {
      assert a + b == b;
    } else {
      FreshJoins(a[1..], b, now, ttl);
      assert (a + b)[1..] == a[1..] + b;
      var first := if IsFresh(a[0], now, ttl) then [a[0]] else [];
      var rest := FreshOnes(a[1..], now, ttl);
      assert first + (rest + FreshOnes(b, now, ttl)) == (first + rest) + FreshOnes(b, now, ttl);
    }
  }

  lemma {:induction false} FreshWithout(entries: seq<Entry>, addresses: seq<SocketAddr>, now: nat, ttl: nat)
    ensures FreshOnes(Without(entries, addresses), now, ttl) == Without(FreshOnes(entries, now, ttl), addresses)
  {
    if entries != [] {
      FreshWithout(entries[1..], addresses, now, ttl);
      var first := if entries[0].observation.addresses != addresses then [entries[0]] else [];
      FreshJoins(first, Without(entries[1..], addresses), now, ttl);
      var kept := if IsFresh(entries[0], now, ttl) then [entries[0]] else [];
      WithoutJoins(kept, FreshOnes(entries[1..], now, ttl), addresses);
    }
  }

  /** Pruning early never changes a later look. */
  lemma {:induction false} FreshTwice(entries: seq<Entry>, early: nat, late: nat, ttl: nat)
    requires early <= late
    ensures FreshOnes(FreshOnes(entries, early, ttl), late, ttl) == FreshOnes(entries, late, ttl)
  {
    if entries != [] {
      FreshTwice(entries[1..], early, late, ttl);
      var kept := if IsFresh(entries[0], early, ttl) then [entries[0]] else [];
      FreshJoins(kept, FreshOnes(entries[1..], early, ttl), late, ttl);
    }
  }

  predicate ClockAtMost(events: seq<Event>, now: nat) {
    forall i :: 0 <= i < |events| && !events[i].Clear? ==> events[i].now <= now
  }

  /** What one event does to one peer's list. */
  function NextOwn(entries: seq<Entry>, e: Event, peerId: string, ttl: nat): seq<Entry> {
    match e
    case Record(o, now) => if o.peerId == peerId then Without(entries, o.addresses) + [Entry(o, now)] else entries
    case Lookup(p, now) => if p == peerId then FreshOnes(entries, now, ttl) else entries
    case Clear => []
  }

  lemma NextEntries(c: Cache, e: Event, peerId: string, ttl: nat)
    ensures EntriesOf(Next(c, e, ttl), peerId) == NextOwn(EntriesOf(c, peerId), e, peerId, ttl)
  {
  }

  lemma {:induction false} CacheMatchesLog(events: seq<Event>, peerId: string, now: nat, ttl: nat)
    requires ClockAtMost(events, now)
    ensures FreshOnes(EntriesOf(Run(events, ttl), peerId), now, ttl) == Answer(Log(events), peerId, now, ttl)
  {
    if events != [] {
      var before, e := events[..|events| - 1], events[|events| - 1];
      CacheMatchesLog(before, peerId, now, ttl);
      var entries := EntriesOf(Run(before, ttl), peerId);
      NextEntries(Run(before, ttl), e, peerId, ttl);
      match e
      case Record(o, at) =>
        AnswerGrows(Log(before), Entry(o, at), peerId, now, ttl);
        FreshJoins(Without(entries, o.addresses), [Entry(o, at)], now, ttl);
        FreshWithout(entries, o.addresses, now, ttl);
      case Lookup(p, at) =>
        FreshTwice(entries, at, now, ttl);
      case Clear =>
    }
  }

  /**
   A look-up after any history whose clock never passed now returns the answer
   computed from the full log: pruning and replacing in place lose nothing.
   No peer is kept with an empty list.
   */
  lemma LookupIsAnswer(events: seq<Event>, peerId: string, now: nat, ttl: nat)
    requires ClockAtMost(events, now)
    ensures LookupIn(Run(events, ttl), peerId, now, ttl).1 == Answer(Log(events), peerId, now, ttl)
    ensures forall p :: p in Run(events, ttl) ==> Run(events, ttl)[p] != []
  {
    CacheMatchesLog(events, peerId, now, ttl);
    NoEmptyList(events, ttl);
  }

  lemma {:induction false} NoEmptyList(events: seq<Event>, ttl: nat)
    ensures forall p :: p in Run(events, ttl) ==> Run(events, ttl)[p] != []
  {
    if events != [] {
      NoEmptyList(events[..|events| - 1], ttl);
    }
  }

  class MdnsObservationCache {
    const ttl: nat
    var inner: Cache

    constructor (ttl: nat)
      ensures this.ttl == ttl && inner == Run([], ttl)
    {
      this.ttl := ttl;
      inner := map[];
    }

    method RecordObservation(observation: Observation, now: nat)
      modifies this
      ensures inner == Next(old(inner), Record(observation, now), ttl)
    {
      var entries := EntriesOf(inner, observation.peerId);
      entries := Without(entries, observation.addresses);
      entries := entries + [Entry(observation, now)];
      inner := inner[observation.peerId := entries];
    }

    method ObservationsFor(peerId: string, now: nat) returns (found: seq<Observation>)
      modifies this
      ensures inner == Next(old(inner), Lookup(peerId, now), ttl)
      ensures var entries := LookupIn(old(inner), peerId, now, ttl).1;
              |found| == |entries| && forall i :: 0 <= i < |found| ==> found[i] == entries[i].observation
    {
      if peerId !in inner {
        assert inner == inner - {peerId};
        return [];
      }
      var entries := FreshOnes(inner[peerId], now, ttl);
      if entries == [] {
        inner := inner - {peerId};
        return [];
      }
      inner := inner[peerId := entries];
      found := seq(|entries|, i requires 0 <= i < |entries| => entries[i].observation);
    }

    method ClearAll()
      modifies this
      ensures inner == Next(old(inner), Clear, ttl)
    {
      inner := map[];
    }
  }
}
