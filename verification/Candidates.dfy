/**
 The list of addresses a connection attempt probes: the record's endpoints and
 the local-network ones, stably sorted, with the cached path moved to the front.
 */
module Candidates {
  import opened Bytes
  import opened MdnsCache

  datatype CandidateType = Host | ServerReflexive | Relay | QuantumLinkRelay
  datatype Endpoint = Endpoint(candidateType: CandidateType, address: string, port: nat, priority: nat)

  /** Writing and reading an IP address as text. */
  datatype AddressText = AddressText(show: bytes -> string, parse: string -> Option<bytes>)

  // Type preference 126, local preference 65535, component 1, packed as section 5.1.2.1 of RFC 8445 packs them.
  const HOST_PRIORITY := 126 * 0x100_0000 + 65535 * 0x100 + (256 - 1)

  // ----- folding in local observations -----

  function HostEndpoint(t: AddressText, a: SocketAddr): Endpoint {
    Endpoint(Host, t.show(a.ip), a.port, HOST_PRIORITY)
  }

  predicate Names(t: AddressText, e: Endpoint, a: SocketAddr) {
    e.port == a.port && e.address == t.show(a.ip)
  }

  predicate Listed(t: AddressText, list: seq<Endpoint>, a: SocketAddr) {
    exists i :: 0 <= i < |list| && Names(t, list[i], a)
  }

  /** The addresses the peer really announced: those of observations carrying its key fingerprint. */
  function Trusted(observations: seq<Observation>, fingerprint: string): seq<SocketAddr> {
    if observations == [] then []
    else (if observations[0].fingerprint == fingerprint then observations[0].addresses else [])
         + Trusted(observations[1..], fingerprint)
  }

  /** An address is trusted exactly when an observation with the right fingerprint announces it. */
  lemma {:induction false} TrustedExact(observations: seq<Observation>, fingerprint: string, a: SocketAddr)
    ensures a in Trusted(observations, fingerprint)
            <==> exists i :: 0 <= i < |observations| && observations[i].fingerprint == fingerprint && a in observations[i].addresses
  {
    if observations != [] {
      TrustedExact(observations[1..], fingerprint, a);
      if i :| 0 <= i < |observations| && observations[i].fingerprint == fingerprint && a in observations[i].addresses {
        assert i > 0 ==> observations[1..][i - 1] == observations[i];
      }
      if i :| 0 <= i < |observations| - 1 && observations[1..][i].fingerprint == fingerprint && a in observations[1..][i].addresses {
        assert observations[i + 1] == observations[1..][i];
      }
    }
  }

  function AddOne(t: AddressText, list: seq<Endpoint>, a: SocketAddr): seq<Endpoint> {
    if Listed(t, list, a) then list else list + [HostEndpoint(t, a)]
  }

  function AddAll(t: AddressText, list: seq<Endpoint>, addresses: seq<SocketAddr>): seq<Endpoint> {
    if addresses == [] then list
    else AddOne(t, AddAll(t, list, addresses[..|addresses| - 1]), addresses[|addresses| - 1])
  }

  lemma {:induction false} AddAllJoins(t: AddressText, list: seq<Endpoint>, a: seq<SocketAddr>, b: seq<SocketAddr>)
    ensures AddAll(t, AddAll(t, list, a), b) == AddAll(t, list, a + b)
  {
    if b == [] {
      assert a + b == a;
    } else {
      AddAllJoins(t, list, a, b[..|b| - 1]);
      assert (a + b)[..|a + b| - 1] == a + b[..|b| - 1];
    }
  }

  predicate IsHostOf(t: AddressText, e: Endpoint, addresses: seq<SocketAddr>) {
    exists k :: 0 <= k < |addresses| && e == HostEndpoint(t, addresses[k])
  }

  /** The list extends the base by host entries for these addresses, none naming what is listed before it. */
  predicate OnlyNew(t: AddressText, base: seq<Endpoint>, list: seq<Endpoint>, addresses: seq<SocketAddr>) {
    && base <= list
    && (forall i :: |base| <= i < |list| ==> IsHostOf(t, list[i], addresses))
    && (forall i, j :: 0 <= i < j < |list| && |base| <= j ==>
          list[i].port != list[j].port || list[i].address != list[j].address)
  }

  /** Exactly the trusted addresses not yet listed are added, each once, as hosts; in the end all are listed. */
  lemma {:induction false} FoldExact(t: AddressText, base: seq<Endpoint>, addresses: seq<SocketAddr>)
    ensures OnlyNew(t, base, AddAll(t, base, addresses), addresses)
    ensures forall k :: 0 <= k < |addresses| ==> Listed(t, AddAll(t, base, addresses), addresses[k])
  {
    if addresses != [] {
      var n := |addresses| - 1;
      var before, a := addresses[..n], addresses[n];
      FoldExact(t, base, before);
      var list := AddAll(t, base, before);
      AddOneNew(t, base, list, before, a);
      forall k | 0 <= k < |addresses|
        ensures Listed(t, AddOne(t, list, a), addresses[k])
      {
        if k < n {
          assert before[k] == addresses[k];
          ListedStays(t, list, a, addresses[k]);
        } else {
          ListedNow(t, list, a);
        }
      }
      assert before + [a] == addresses;
    }
  }

  lemma ListedNow(t: AddressText, list: seq<Endpoint>, a: SocketAddr)
    ensures Listed(t, AddOne(t, list, a), a)
  {
    if !Listed(t, list, a) {
      assert Names(t, AddOne(t, list, a)[|list|], a);
    }
  }

  lemma ListedStays(t: AddressText, list: seq<Endpoint>, a: SocketAddr, other: SocketAddr)
    requires Listed(t, list, other)
    ensures Listed(t, AddOne(t, list, a), other)
  {
    var i :| 0 <= i < |list| && Names(t, list[i], other);
    assert AddOne(t, list, a)[i] == list[i];
  }

  lemma AddOneNew(t: AddressText, base: seq<Endpoint>, list: seq<Endpoint>, before: seq<SocketAddr>, a: SocketAddr)
    requires OnlyNew(t, base, list, before)
    ensures OnlyNew(t, base, AddOne(t, list, a), before + [a])
  {
    var after, addresses := AddOne(t, list, a), before + [a];
    forall i | |base| <= i < |after|
      ensures IsHostOf(t, after[i], addresses)
    {
      if i < |list| {
        assert IsHostOf(t, list[i], before);
        var k :| 0 <= k < |before| && list[i] == HostEndpoint(t, before[k]);
        assert addresses[k] == before[k];
      } else {
        assert addresses[|before|] == a;
      }
    }
    forall i, j | 0 <= i < j < |after| && |base| <= j
      ensures after[i].port != after[j].port || after[i].address != after[j].address
    {
      if j == |list| {
        assert !Names(t, list[i], a);
      }
    }
  }

  // ----- ordering -----

  predicate IsDirect(e: Endpoint) {
    e.candidateType != QuantumLinkRelay
  }

  function Direct(endpoints: seq<Endpoint>): seq<Endpoint> {
    if endpoints == [] then []
    else (if IsDirect(endpoints[0]) then [endpoints[0]] else []) + Direct(endpoints[1..])
  }

  function Rank(k: CandidateType): nat {
    match k
    case Host => 0
    case ServerReflexive => 1
    case Relay => 2
    case QuantumLinkRelay => 3
  }

  /** Strictly earlier: lower type rank, then higher priority. */
  predicate Before(a: Endpoint, b: Endpoint) {
    Rank(a.candidateType) < Rank(b.candidateType)
    || (Rank(a.candidateType) == Rank(b.candidateType) && a.priority > b.priority)
  }

  /** Hosts first, then server-reflexive ones, then relays; within a type the higher priority first. */
  lemma BeforeMeans(a: Endpoint, b: Endpoint)
    ensures Before(a, b) <==>
            || (a.candidateType == Host && b.candidateType != Host)
            || (a.candidateType == ServerReflexive && b.candidateType in {Relay, QuantumLinkRelay})
            || (a.candidateType == Relay && b.candidateType == QuantumLinkRelay)
            || (a.candidateType == b.candidateType && a.priority > b.priority)
  {
  }

  predicate Level(a: Endpoint, b: Endpoint) {
    Rank(a.candidateType) == Rank(b.candidateType) && a.priority == b.priority
  }

  predicate Sorted(s: seq<Endpoint>) {
    forall i, j :: 0 <= i < j < |s| ==> !Before(s[j], s[i])
  }

  /** The entries level with e, in order. */
  function LevelWith(s: seq<Endpoint>, e: Endpoint): seq<Endpoint> {
    if s == [] then [] else (if Level(s[0], e) then [s[0]] else []) + LevelWith(s[1..], e)
  }

  /** Sorted, with level entries in their original order. */
  ghost predicate StablySorted(result: seq<Endpoint>, s: seq<Endpoint>) {
    Sorted(result) && forall e :: LevelWith(result, e) == LevelWith(s, e)
  }

  function Insert(s: seq<Endpoint>, e: Endpoint): seq<Endpoint> {
    if s == [] || !Before(e, s[|s| - 1]) then s + [e]
    else Insert(s[..|s| - 1], e) + [s[|s| - 1]]
  }

  function StableSort(s: seq<Endpoint>): seq<Endpoint> {
    if s == [] then [] else Insert(StableSort(s[..|s| - 1]), s[|s| - 1])
  }

  lemma {:induction false} LevelJoins(a: seq<Endpoint>, b: seq<Endpoint>, e: Endpoint)
    ensures LevelWith(a + b, e) == LevelWith(a, e) + LevelWith(b, e)
  {
    if a == [] {
      assert a + b == b;
    } else {
      LevelJoins(a[1..], b, e);
      assert (a + b)[1..] == a[1..] + b;
      var first := if Level(a[0], e) then [a[0]] else [];
      Regroup(first, LevelWith(a[1..], e), LevelWith(b, e));
    }
  }

  lemma LevelOne(x: Endpoint, e: Endpoint)
    ensures LevelWith([x], e) == if Level(x, e) then [x] else []
  {
    assert [x][1..] == [];
  }

  lemma {:induction false} InsertPermutes(s: seq<Endpoint>, e: Endpoint)
    ensures multiset(Insert(s, e)) == multiset(s) + multiset{e}
  {
    if s != [] && Before(e, s[|s| - 1]) {
      InsertPermutes(s[..|s| - 1], e);
      assert s == s[..|s| - 1] + [s[|s| - 1]];
    }
  }

  lemma InsertMember(s: seq<Endpoint>, e: Endpoint, i: nat) returns (k: nat)
    requires i < |Insert(s, e)|
    ensures k <= |s| && Insert(s, e)[i] == (s + [e])[k]
  {
    InsertPermutes(s, e);
    var x := Insert(s, e)[i];
    assert x in multiset(Insert(s, e));
    if x == e {
      k := |s|;
    } else {
      assert x in multiset(s);
      k :| 0 <= k < |s| && s[k] == x;
    }
  }

  lemma {:induction false} InsertSorted(s: seq<Endpoint>, e: Endpoint)
    requires Sorted(s)
    ensures Sorted(Insert(s, e))
  {
    if s != [] && Before(e, s[|s| - 1]) {
      var front, last := s[..|s| - 1], s[|s| - 1];
      InsertSorted(front, e);
      var rest := Insert(front, e);
      forall i | 0 <= i < |rest|
        ensures !Before(last, rest[i])
      {
        var k := InsertMember(front, e, i);
        assert k < |front| ==> rest[i] == s[k];
      }
    }
  }

  lemma {:induction false} InsertIsStable(s: seq<Endpoint>, e: Endpoint, x: Endpoint)
    requires Sorted(s)
    ensures LevelWith(Insert(s, e), x) == LevelWith(s, x) + LevelWith([e], x)
  {
    if s == [] || !Before(e, s[|s| - 1]) {
      LevelJoins(s, [e], x);
    } else {
      var front, last := s[..|s| - 1], s[|s| - 1];
      assert s == front + [last];
      InsertIsStable(front, e, x);
      LevelJoins(Insert(front, e), [last], x);
      LevelJoins(front, [last], x);
      LevelOne(last, x);
      LevelOne(e, x);
      assert LevelWith([last], x) == [] || LevelWith([e], x) == [];
    }
  }

  lemma {:induction false} StableSortIsStable(s: seq<Endpoint>)
    ensures StablySorted(StableSort(s), s) && multiset(StableSort(s)) == multiset(s)
  {
    if s != [] {
      var front, last := s[..|s| - 1], s[|s| - 1];
      assert s == front + [last];
      StableSortIsStable(front);
      InsertSorted(StableSort(front), last);
      InsertPermutes(StableSort(front), last);
      forall x
        ensures LevelWith(StableSort(s), x) == LevelWith(s, x)
      {
        InsertIsStable(StableSort(front), last, x);
        LevelJoins(front, [last], x);
      }
    }
  }

  lemma {:induction false} LevelFound(s: seq<Endpoint>, e: Endpoint, i: nat)
    requires i < |s| && Level(s[i], e)
    ensures LevelWith(s, e) != []
  {
    if i > 0 {
      LevelFound(s[1..], e, i - 1);
    }
  }

  lemma {:induction false} LevelMember(s: seq<Endpoint>, e: Endpoint) returns (i: nat)
    requires LevelWith(s, e) != []
    ensures i < |s| && Level(s[i], e)
  {
    if Level(s[0], e) {
      i := 0;
    } else {
      i := LevelMember(s[1..], e);
      i := i + 1;
    }
  }

  lemma LevelHead(s: seq<Endpoint>, e: Endpoint)
    requires s != [] && Level(s[0], e)
    ensures LevelWith(s, e) != [] && LevelWith(s, e)[0] == s[0]
  {
  }

  /** The head of a sorted list is not behind the head of one with the same level entries. */
  lemma HeadNotBehind(a: seq<Endpoint>, b: seq<Endpoint>)
    requires a != [] && b != [] && Sorted(a) && LevelWith(a, b[0]) == LevelWith(b, b[0])
    ensures !Before(b[0], a[0])
  {
    LevelHead(b, b[0]);
    var j := LevelMember(a, b[0]);
    assert j > 0 ==> !Before(a[j], a[0]);
  }

  lemma HeadsAgree(a: seq<Endpoint>, b: seq<Endpoint>)
    requires a != [] && b != [] && Sorted(a) && Sorted(b)
    requires forall e :: LevelWith(a, e) == LevelWith(b, e)
    ensures a[0] == b[0]
  {
    HeadNotBehind(a, b);
    HeadNotBehind(b, a);
    LevelHead(a, a[0]);
    LevelHead(b, a[0]);
  }

  /** Being stably sorted decides the order completely, whatever algorithm produced it. */
  lemma {:induction false} StableOrderIsUnique(a: seq<Endpoint>, b: seq<Endpoint>)
    requires Sorted(a) && Sorted(b)
    requires forall e :: LevelWith(a, e) == LevelWith(b, e)
    ensures a == b
    decreases |a| + |b|
  {
    if a == [] && b != [] {
      LevelFound(b, b[0], 0);
      assert false;
    } else if a != [] && b == [] {
      LevelFound(a, a[0], 0);
      assert false;
    } else if a != [] {
      HeadsAgree(a, b);
      forall e
        ensures LevelWith(a[1..], e) == LevelWith(b[1..], e)
      {
        assert LevelWith(a, e) == LevelWith(b, e);
        var first := if Level(a[0], e) then [a[0]] else [];
        assert LevelWith(a[1..], e) == LevelWith(a, e)[|first|..];
        assert LevelWith(b[1..], e) == LevelWith(b, e)[|first|..];
      }
      StableOrderIsUnique(a[1..], b[1..]);
    }
  }

  // ----- cached path first -----

  predicate MatchesAddr(t: AddressText, e: Endpoint, a: SocketAddr) {
    t.parse(e.address) == Some(a.ip) && e.port == a.port
  }

  predicate FirstMatch(t: AddressText, s: seq<Endpoint>, a: SocketAddr, p: nat) {
    p < |s| && MatchesAddr(t, s[p], a) && forall i :: 0 <= i < p ==> !MatchesAddr(t, s[i], a)
  }

  method Position(t: AddressText, s: seq<Endpoint>, a: SocketAddr) returns (p: Option<nat>)
    ensures p.Some? ==> FirstMatch(t, s, a, p.value)
    ensures p.None? ==> forall i :: 0 <= i < |s| ==> !MatchesAddr(t, s[i], a)
  {
    var i := 0;
    while i < |s|
      invariant i <= |s|
      invariant forall k :: 0 <= k < i ==> !MatchesAddr(t, s[k], a)
    {
      if MatchesAddr(t, s[i], a) {
        return Some(i);
      }
      i := i + 1;
    }
    p := None;
  }

  /** Stably sorted, except that the first entry matching the cached address leads. */
  ghost predicate Ordered(t: AddressText, result: seq<Endpoint>, s: seq<Endpoint>, cached: Option<SocketAddr>) {
    exists sorted :: StablySorted(sorted, s) && Promoted(t, result, sorted, cached)
  }

  ghost predicate Promoted(t: AddressText, result: seq<Endpoint>, sorted: seq<Endpoint>, cached: Option<SocketAddr>) {
    if cached.Some? && exists p: nat :: FirstMatch(t, sorted, cached.value, p)
    then exists p: nat :: FirstMatch(t, sorted, cached.value, p) && result == [sorted[p]] + sorted[..p] + sorted[p + 1..]
    else result == sorted
  }

  lemma MovedFront(s: seq<Endpoint>, p: nat)
    requires p < |s|
    ensures multiset([s[p]] + s[..p] + s[p + 1..]) == multiset(s)
  {
    var front, x, back := s[..p], s[p], s[p + 1..];
    assert s == front + [x] + back;
    assert multiset(s) == multiset(front) + multiset{x} + multiset(back);
  }

  lemma PromotedIsPermutation(t: AddressText, result: seq<Endpoint>, sorted: seq<Endpoint>, cached: Option<SocketAddr>)
    requires Promoted(t, result, sorted, cached)
    ensures multiset(result) == multiset(sorted)
  {
    if result != sorted {
      var p: nat :| FirstMatch(t, sorted, cached.value, p) && result == [sorted[p]] + sorted[..p] + sorted[p + 1..];
      MovedFront(sorted, p);
    }
  }

  /** Only one list meets the description. */
  lemma OrderedIsUnique(t: AddressText, a: seq<Endpoint>, b: seq<Endpoint>, s: seq<Endpoint>, cached: Option<SocketAddr>)
    requires Ordered(t, a, s, cached) && Ordered(t, b, s, cached)
    ensures a == b
  {
    var x :| StablySorted(x, s) && Promoted(t, a, x, cached);
    var y :| StablySorted(y, s) && Promoted(t, b, y, cached);
    StableOrderIsUnique(x, y);
    if cached.Some? && exists p: nat :: FirstMatch(t, x, cached.value, p) {
      var p: nat :| FirstMatch(t, x, cached.value, p) && a == [x[p]] + x[..p] + x[p + 1..];
      var q: nat :| FirstMatch(t, x, cached.value, q) && b == [x[q]] + x[..q] + x[q + 1..];
      assert p == q;
    }
  }

  method OrderDirectCandidates(t: AddressText, endpoints: seq<Endpoint>, cached: Option<SocketAddr>)
    returns (direct: seq<Endpoint>)
    ensures Ordered(t, direct, Direct(endpoints), cached)
    ensures multiset(direct) == multiset(Direct(endpoints))
  {
    var sorted := StableSort(Direct(endpoints));
    StableSortIsStable(Direct(endpoints));
    direct := sorted;
    if cached.Some? {
      var position := Position(t, sorted, cached.value);
      if position.Some? {
        var p := position.value;
        direct := [sorted[p]] + sorted[..p] + sorted[p + 1..];
      }
    }
    assert Promoted(t, direct, sorted, cached);
    PromotedIsPermutation(t, direct, sorted, cached);
  }

  // ----- the whole probe list -----

  method AddObserved(t: AddressText, list: seq<Endpoint>, addresses: seq<SocketAddr>) returns (all: seq<Endpoint>)
    ensures all == AddAll(t, list, addresses)
  {
    all := list;
    for i := 0 to |addresses|
      invariant all == AddAll(t, list, addresses[..i])
    {
      assert addresses[..i + 1][..i] == addresses[..i];
      if !Listed(t, all, addresses[i]) {
        all := all + [HostEndpoint(t, addresses[i])];
      }
    }
    assert addresses[..|addresses|] == addresses;
  }

  lemma {:induction false} TrustedGrows(observations: seq<Observation>, o: Observation, fingerprint: string)
    ensures Trusted(observations + [o], fingerprint)
            == Trusted(observations, fingerprint) + (if o.fingerprint == fingerprint then o.addresses else [])
  {
    if observations == [] {
      assert observations + [o] == [o] && [o][1..] == [];
    } else {
      TrustedGrows(observations[1..], o, fingerprint);
      assert (observations + [o])[1..] == observations[1..] + [o];
      var first := if observations[0].fingerprint == fingerprint then observations[0].addresses else [];
      var more := if o.fingerprint == fingerprint then o.addresses else [];
      var rest := Trusted(observations[1..], fingerprint);
      Regroup(first, rest, more);
    }
  }

  method FoldObservations(t: AddressText, endpoints: seq<Endpoint>, observations: seq<Observation>, fingerprint: string)
    returns (all: seq<Endpoint>)
    ensures all == AddAll(t, endpoints, Trusted(observations, fingerprint))
  {
    all := endpoints;
    for i := 0 to |observations|
      invariant all == AddAll(t, endpoints, Trusted(observations[..i], fingerprint))
    {
      var o := observations[i];
      assert observations[..i + 1] == observations[..i] + [o];
      TrustedGrows(observations[..i], o, fingerprint);
      if o.fingerprint == fingerprint {
        AddAllJoins(t, endpoints, Trusted(observations[..i], fingerprint), o.addresses);
        all := AddObserved(t, all, o.addresses);
      } else {
        assert Trusted(observations[..i + 1], fingerprint) == Trusted(observations[..i], fingerprint);
      }
    }
    assert observations[..|observations|] == observations;
  }

  lemma {:induction false} DirectJoins(a: seq<Endpoint>, b: seq<Endpoint>)
    requires forall i :: 0 <= i < |b| ==> IsDirect(b[i])
    ensures Direct(a + b) == Direct(a) + b
  {
    if a == [] {
      assert a + b == b;
      DirectAll(b);
    } else {
      DirectJoins(a[1..], b);
      assert (a + b)[1..] == a[1..] + b;
      var first := if IsDirect(a[0]) then [a[0]] else [];
      Regroup(first, Direct(a[1..]), b);
    }
  }

  lemma {:induction false} DirectAll(b: seq<Endpoint>)
    requires forall i :: 0 <= i < |b| ==> IsDirect(b[i])
    ensures Direct(b) == b
  {
    if b != [] {
      DirectAll(b[1..]);
    }
  }

  /**
   The list probed: a permutation of the record's direct endpoints and of new
   host entries for trusted, unlisted local addresses; stably ordered; cached first.
   */
  method ProbeList(t: AddressText, endpoints: seq<Endpoint>, observations: seq<Observation>, fingerprint: string,
                   cached: Option<SocketAddr>)
    returns (list: seq<Endpoint>)
    ensures var all := AddAll(t, endpoints, Trusted(observations, fingerprint));
            && OnlyNew(t, endpoints, all, Trusted(observations, fingerprint))
            && multiset(list) == multiset(Direct(endpoints)) + multiset(all[|endpoints|..])
            && Ordered(t, list, Direct(endpoints) + all[|endpoints|..], cached)
  {
    var all := FoldObservations(t, endpoints, observations, fingerprint);
    list := OrderDirectCandidates(t, all, cached);
    FoldExact(t, endpoints, Trusted(observations, fingerprint));
    var added := all[|endpoints|..];
    assert all == endpoints + added;
    DirectJoins(endpoints, added);
  }

  // ----- local candidates against signed ones -----

  /** The entries the fold adds behind the record's own. */
  function Added(t: AddressText, endpoints: seq<Endpoint>, addresses: seq<SocketAddr>): (added: seq<Endpoint>)
    ensures AddAll(t, endpoints, addresses) == endpoints + added
    ensures forall i :: 0 <= i < |added| ==> added[i].candidateType == Host && added[i].priority == HOST_PRIORITY
  {
    FoldExact(t, endpoints, addresses);
    AddAll(t, endpoints, addresses)[|endpoints|..]
  }

  /** Every signed direct endpoint is a host whose priority is at least that given to local ones. */
  predicate SignedLead(endpoints: seq<Endpoint>) {
    forall i :: 0 <= i < |endpoints| && IsDirect(endpoints[i]) ==>
      endpoints[i].candidateType == Host && endpoints[i].priority >= HOST_PRIORITY
  }

  /** A local address outranks a signed reflexive endpoint: it is probed first although it was announced unsigned. */
  lemma LocalOutranksSigned(t: AddressText, e: Endpoint, a: SocketAddr)
    requires e.candidateType == ServerReflexive && !Names(t, e, a)
    ensures AddAll(t, [e], [a]) == [e, HostEndpoint(t, a)]
    ensures StableSort([e, HostEndpoint(t, a)]) == [HostEndpoint(t, a), e]
  {
    assert [a][..0] == [] && AddAll(t, [e], []) == [e];
    var s := [e, HostEndpoint(t, a)];
    assert s[..1] == [e] && [e][..0] == [];
    assert StableSort([]) == [] && Insert([], e) == [e] && StableSort([e]) == [e];
    assert Insert([], HostEndpoint(t, a)) == [HostEndpoint(t, a)];
  }

  lemma {:induction false} AllListedAddsNothing(t: AddressText, endpoints: seq<Endpoint>, addresses: seq<SocketAddr>)
    ensures Added(t, endpoints, addresses) == []
            <==> forall k :: 0 <= k < |addresses| ==> Listed(t, endpoints, addresses[k])
  {
    FoldExact(t, endpoints, addresses);
    assert Added(t, endpoints, addresses) == [] ==> AddAll(t, endpoints, addresses) == endpoints;
    if forall k :: 0 <= k < |addresses| ==> Listed(t, endpoints, addresses[k]) {
      if addresses != [] {
        var n := |addresses| - 1;
        forall k | 0 <= k < n
          ensures Listed(t, endpoints, addresses[..n][k])
        {
          assert addresses[..n][k] == addresses[k];
        }
        AllListedAddsNothing(t, endpoints, addresses[..n]);
        assert AddAll(t, endpoints, addresses[..n]) == endpoints;
        assert Listed(t, endpoints, addresses[n]);
      }
    }
  }

  lemma {:induction false} DirectMembers(endpoints: seq<Endpoint>, e: Endpoint)
    ensures e in Direct(endpoints) <==> e in endpoints && e.candidateType in {Host, ServerReflexive, Relay}
  {
    if endpoints != [] {
      DirectMembers(endpoints[1..], e);
      assert endpoints == [endpoints[0]] + endpoints[1..];
    }
  }

  lemma SortedMembers(s: seq<Endpoint>, e: Endpoint)
    ensures e in StableSort(s) <==> e in s
  {
    StableSortIsStable(s);
    assert e in multiset(StableSort(s)) <==> e in multiset(s);
  }

  lemma SortsBehind(d: seq<Endpoint>, added: seq<Endpoint>)
    requires forall e :: e in d ==> forall i :: 0 <= i < |added| ==> !Before(added[i], e)
    requires Sorted(added)
    ensures StableSort(d + added) == StableSort(d) + added
  {
    var sorted := StableSort(d);
    StableSortIsStable(d);
    StableSortIsStable(d + added);
    forall i, j | 0 <= i < j < |sorted + added|
      ensures !Before((sorted + added)[j], (sorted + added)[i])
    {
      if i < |sorted| <= j {
        SortedMembers(d, sorted[i]);
        assert sorted[i] in d;
      }
    }
    forall e
      ensures LevelWith(StableSort(d + added), e) == LevelWith(sorted + added, e)
    {
      LevelJoins(sorted, added, e);
      LevelJoins(d, added, e);
    }
    StableOrderIsUnique(StableSort(d + added), sorted + added);
  }

  lemma LeadersLead(d: seq<Endpoint>, added: seq<Endpoint>)
    requires added != [] && added[0].candidateType == Host && added[0].priority == HOST_PRIORITY
    requires StableSort(d + added) == StableSort(d) + added
    ensures forall e :: e in d ==> e.candidateType == Host && e.priority >= HOST_PRIORITY
  {
    var sorted := StableSort(d);
    StableSortIsStable(d + added);
    forall e | e in d
      ensures e.candidateType == Host && e.priority >= HOST_PRIORITY
    {
      SortedMembers(d, e);
      var i :| 0 <= i < |sorted| && sorted[i] == e;
      assert (sorted + added)[|sorted|] == added[0] && (sorted + added)[i] == e;
      assert !Before(added[0], e);
    }
  }

  /**
   Exactly when local candidates rank below all signed ones: no announced
   address is new, or every signed direct endpoint is a host of at least the
   local priority. Both can be read off the record and the announcements.
   */
  lemma LocalRanksBelowSignedExactly(t: AddressText, endpoints: seq<Endpoint>, addresses: seq<SocketAddr>)
    ensures var added := Added(t, endpoints, addresses);
            StableSort(Direct(endpoints) + added) == StableSort(Direct(endpoints)) + added
            <==> (forall k :: 0 <= k < |addresses| ==> Listed(t, endpoints, addresses[k])) || SignedLead(endpoints)
  {
    var d, added := Direct(endpoints), Added(t, endpoints, addresses);
    AllListedAddsNothing(t, endpoints, addresses);
    forall e
      ensures e in d <==> e in endpoints && IsDirect(e)
    {
      DirectMembers(endpoints, e);
    }
    if added == [] {
      assert d + added == d && StableSort(d) + added == StableSort(d);
    } else if SignedLead(endpoints) {
      SortsBehind(d, added);
    } else if StableSort(d + added) == StableSort(d) + added {
      LeadersLead(d, added);
    }
  }

  /** Without a cached path the list probed is exactly the stable order. */
  lemma UncachedOrder(t: AddressText, list: seq<Endpoint>, s: seq<Endpoint>)
    requires Ordered(t, list, s, None)
    ensures list == StableSort(s)
  {
    StableSortIsStable(s);
    assert Promoted(t, StableSort(s), StableSort(s), None);
    OrderedIsUnique(t, list, StableSort(s), s, None);
  }
}
