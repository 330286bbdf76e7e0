/** The per-address admission limiter of the control services: one counting window per IP address. */
module Admission {
  import opened Bytes

  datatype RateLimit = RateLimit(maxEvents: nat, window: nat)
  datatype Bucket = Bucket(windowStarted: nat, count: nat)
  datatype Call = Call(ip: bytes, now: nat)

  type Buckets = map<bytes, Bucket>

  predicate Sound(limit: RateLimit) {
    limit.maxEvents > 0 && limit.window > 0
  }

  /** A limit of zero events or an empty window is never configured. */
  function WithRateLimit(current: Option<RateLimit>, maxEvents: nat, window: nat): (limit: Option<RateLimit>)
    ensures (current.Some? ==> Sound(current.value)) ==> (limit.Some? ==> Sound(limit.value))
    ensures maxEvents > 0 && window > 0 ==> limit.Some? && limit.value.maxEvents == maxEvents && limit.value.window == window
    ensures maxEvents == 0 || window == 0 ==> limit == current
  {
    if maxEvents > 0 && window > 0 then Some(RateLimit(maxEvents, window)) else current
  }

  /** What a check does to the caller's own bucket, and whether it is admitted. */
  function CheckBucket(limit: RateLimit, found: Option<Bucket>, now: nat): (Bucket, bool) {
    var b := if found.Some? then found.value else Bucket(now, 0);
    var b := if Elapsed(now, b.windowStarted) >= limit.window then Bucket(now, 0) else b;
    if b.count >= limit.maxEvents then (b, false) else (b.(count := b.count + 1), true)
  }

  function Lookup(buckets: Buckets, ip: bytes): Option<Bucket> {
    if ip in buckets then Some(buckets[ip]) else None
  }

  function NextBuckets(limit: RateLimit, buckets: Buckets, c: Call): (Buckets, bool) {
    var (b, admitted) := CheckBucket(limit, Lookup(buckets, c.ip), c.now);
    (buckets[c.ip := b], admitted)
  }

  function Run(limit: RateLimit, calls: seq<Call>): Buckets {
    if calls == [] then map[] else NextBuckets(limit, Run(limit, calls[..|calls| - 1]), calls[|calls| - 1]).0
  }

  /** Whether the last call is admitted. */
  predicate Admitted(limit: RateLimit, calls: seq<Call>)
    requires calls != []
  {
    NextBuckets(limit, Run(limit, calls[..|calls| - 1]), calls[|calls| - 1]).1
  }

  // ----- addresses do not influence one another -----

  function Only(calls: seq<Call>, ip: bytes): seq<Call> {
    if calls == [] then []
    else
      var last := calls[|calls| - 1];
      Only(calls[..|calls| - 1], ip) + (if last.ip == ip then [last] else [])
  }

  lemma {:induction false} OwnBucket(limit: RateLimit, calls: seq<Call>, ip: bytes)
    ensures Lookup(Run(limit, calls), ip) == Lookup(Run(limit, Only(calls, ip)), ip)
  {
    if calls != [] {
      var before, last := calls[..|calls| - 1], calls[|calls| - 1];
      OwnBucket(limit, before, ip);
      var own := Only(before, ip);
      if last.ip == ip {
        assert (own + [last])[..|own|] == own;
      } else {
        assert Only(calls, ip) == own;
      }
    }
  }

  /** A call's outcome is the one it would have had if no other address had ever called. */
  lemma OthersNeverMatter(limit: RateLimit, calls: seq<Call>)
    requires calls != []
    ensures var own := Only(calls, calls[|calls| - 1].ip);
            own != [] && Admitted(limit, calls) == Admitted(limit, own)
  {
    var before, last := calls[..|calls| - 1], calls[|calls| - 1];
    var own := Only(before, last.ip);
    assert (own + [last])[..|own|] == own;
    OwnBucket(limit, before, last.ip);
  }

  // ----- how many are admitted -----

  predicate InOrder(calls: seq<Call>) {
    forall i, j :: 0 <= i < j < |calls| ==> calls[i].now <= calls[j].now
  }

  /** Calls from the address admitted at a time in [from, until). */
  function Admits(limit: RateLimit, calls: seq<Call>, ip: bytes, from: nat, until: nat): nat {
    if calls == [] then 0
    else
      var last := calls[|calls| - 1];
      Admits(limit, calls[..|calls| - 1], ip, from, until)
      + (if last.ip == ip && from <= last.now < until && Admitted(limit, calls) then 1 else 0)
  }

  lemma {:induction false} NoneBeforeItsTime(limit: RateLimit, calls: seq<Call>, ip: bytes, from: nat, until: nat)
    requires forall i :: 0 <= i < |calls| ==> calls[i].now < from
    ensures Admits(limit, calls, ip, from, until) == 0
  {
    if calls != [] {
      NoneBeforeItsTime(limit, calls[..|calls| - 1], ip, from, until);
    }
  }

  /** The bucket's window holds the address's latest call and counts, within the limit, what it admitted. */
  predicate BucketOk(limit: RateLimit, calls: seq<Call>, ip: bytes) {
    match Lookup(Run(limit, calls), ip)
    case None => forall i :: 0 <= i < |calls| ==> calls[i].ip != ip
    case Some(b) =>
      && 1 <= b.count <= limit.maxEvents
      && calls != [] && b.windowStarted <= calls[|calls| - 1].now
      && (forall i :: 0 <= i < |calls| && calls[i].ip == ip ==> calls[i].now < b.windowStarted + limit.window)
  }

  lemma LookupAfter(limit: RateLimit, calls: seq<Call>, ip: bytes)
    requires calls != []
    ensures var before, last := calls[..|calls| - 1], calls[|calls| - 1];
            var found := Lookup(Run(limit, before), ip);
            Lookup(Run(limit, calls), ip) == (if last.ip == ip then Some(CheckBucket(limit, found, last.now).0) else found)
            && (last.ip == ip ==> Admitted(limit, calls) == CheckBucket(limit, found, last.now).1)
  {
  }

  lemma {:induction false} BucketInvariant(limit: RateLimit, calls: seq<Call>, ip: bytes)
    requires Sound(limit) && InOrder(calls)
    ensures BucketOk(limit, calls, ip)
  {
    if calls != [] {
      BucketInvariant(limit, calls[..|calls| - 1], ip);
      LookupAfter(limit, calls, ip);
    }
  }

  lemma {:induction false} NoOwnCalls(limit: RateLimit, calls: seq<Call>, ip: bytes, from: nat, until: nat)
    requires forall i :: 0 <= i < |calls| ==> calls[i].ip != ip
    ensures Admits(limit, calls, ip, from, until) == 0
  {
    if calls != [] {
      NoOwnCalls(limit, calls[..|calls| - 1], ip, from, until);
    }
  }

  /** Since its current window opened, the address was admitted exactly count times, never above the limit. */
  lemma {:induction false} WindowCountsExactly(limit: RateLimit, calls: seq<Call>, ip: bytes, until: nat)
    requires Sound(limit) && InOrder(calls)
    requires forall i :: 0 <= i < |calls| ==> calls[i].now < until
    ensures match Lookup(Run(limit, calls), ip)
            case None => Admits(limit, calls, ip, 0, until) == 0
            case Some(b) => Admits(limit, calls, ip, b.windowStarted, until) == b.count <= limit.maxEvents
  {
    BucketInvariant(limit, calls, ip);
    if calls != [] {
      var before, last := calls[..|calls| - 1], calls[|calls| - 1];
      WindowCountsExactly(limit, before, ip, until);
      BucketInvariant(limit, before, ip);
      LookupAfter(limit, calls, ip);
      var found := Lookup(Run(limit, before), ip);
      if last.ip == ip && (found.None? || Elapsed(last.now, found.value.windowStarted) >= limit.window) {
        if found.None? {
          NoOwnCalls(limit, before, ip, last.now, until);
        } else {
          OwnCallsBefore(limit, before, ip, last.now, until);
        }
      }
    } else {
      assert Lookup(Run(limit, calls), ip).None?;
    }
  }

  lemma {:induction false} OwnCallsBefore(limit: RateLimit, calls: seq<Call>, ip: bytes, from: nat, until: nat)
    requires forall i :: 0 <= i < |calls| && calls[i].ip == ip ==> calls[i].now < from
    ensures Admits(limit, calls, ip, from, until) == 0
  {
    if calls != [] {
      OwnCallsBefore(limit, calls[..|calls| - 1], ip, from, until);
    }
  }

  /** Where the current window starts decides how much of an interval can already be used up. */
  predicate IntervalOk(limit: RateLimit, found: Option<Bucket>, admits: nat, from: nat) {
    match found
    case None => admits == 0
    case Some(b) =>
      if b.windowStarted < from then admits <= b.count - 1
      else if b.windowStarted < from + limit.window then admits <= limit.maxEvents - 1 + b.count
      else admits <= 2 * limit.maxEvents - 1
  }

  lemma IntervalStep(limit: RateLimit, found: Option<Bucket>, admits: nat, from: nat, now: nat)
    requires Sound(limit) && IntervalOk(limit, found, admits, from)
    requires found.Some? ==> 1 <= found.value.count <= limit.maxEvents && found.value.windowStarted <= now
    requires now < from ==> admits == 0
    ensures var (b, admitted) := CheckBucket(limit, found, now);
            IntervalOk(limit, Some(b), admits + (if from <= now < from + limit.window && admitted then 1 else 0), from)
  {
  }

  lemma {:induction false} IntervalInvariant(limit: RateLimit, calls: seq<Call>, ip: bytes, from: nat)
    requires Sound(limit) && InOrder(calls)
    ensures IntervalOk(limit, Lookup(Run(limit, calls), ip), Admits(limit, calls, ip, from, from + limit.window), from)
  {
    if calls != [] {
      var before, last := calls[..|calls| - 1], calls[|calls| - 1];
      IntervalInvariant(limit, before, ip, from);
      BucketInvariant(limit, before, ip);
      LookupAfter(limit, calls, ip);
      if last.ip == ip {
        if last.now < from {
          NoneBeforeItsTime(limit, before, ip, from, from + limit.window);
        }
        IntervalStep(limit, Lookup(Run(limit, before), ip), Admits(limit, before, ip, from, from + limit.window), from, last.now);
      }
    }
  }

  /**
   In any half-open interval one window long, one address is admitted fewer
   than 2 * maxEvents times, whatever it and the other addresses do.
   */
  lemma AtMostTwoWindows(limit: RateLimit, calls: seq<Call>, ip: bytes, from: nat)
    requires Sound(limit) && InOrder(calls)
    ensures Admits(limit, calls, ip, from, from + limit.window) <= 2 * limit.maxEvents - 1
  {
    IntervalInvariant(limit, calls, ip, from);
    BucketInvariant(limit, calls, ip);
  }

  // ----- exactly which calls are admitted -----

  /** The call of one address that opened the window of its last one: the latest that came a whole window after the opener before it. */
  function Opener(window: nat, own: seq<Call>): (o: nat)
    requires own != []
    ensures o < |own|
  {
    if |own| == 1 then 0
    else
      var o := Opener(window, own[..|own| - 1]);
      if own[|own| - 1].now >= own[o].now + window then |own| - 1 else o
  }

  lemma {:induction false} BucketIsWindow(limit: RateLimit, own: seq<Call>, ip: bytes)
    requires limit.window > 0 && own != [] && forall i :: 0 <= i < |own| ==> own[i].ip == ip
    ensures var o := Opener(limit.window, own);
            && Lookup(Run(limit, own), ip)
               == Some(Bucket(own[o].now, if |own| - o < limit.maxEvents then |own| - o else limit.maxEvents))
            && (Admitted(limit, own) <==> |own| - o <= limit.maxEvents)
  {
    LookupAfter(limit, own, ip);
    if |own| == 1 {
      assert Lookup(Run(limit, own[..0]), ip) == None;
    } else {
      BucketIsWindow(limit, own[..|own| - 1], ip);
    }
  }

  lemma {:induction false} OnlyOwn(calls: seq<Call>, ip: bytes)
    ensures forall i :: 0 <= i < |Only(calls, ip)| ==> Only(calls, ip)[i].ip == ip
  {
    if calls != [] {
      OnlyOwn(calls[..|calls| - 1], ip);
    }
  }

  /** A call is admitted exactly when it is among the first maxEvents calls of its address since the window opened. */
  lemma AdmittedExactly(limit: RateLimit, calls: seq<Call>)
    requires limit.window > 0 && calls != []
    ensures var own := Only(calls, calls[|calls| - 1].ip);
            own != [] && (Admitted(limit, calls) <==> |own| - Opener(limit.window, own) <= limit.maxEvents)
  {
    var ip := calls[|calls| - 1].ip;
    OthersNeverMatter(limit, calls);
    OnlyOwn(calls, ip);
    BucketIsWindow(limit, Only(calls, ip), ip);
  }

  // ----- the bound is reached -----

  function Repeat(c: Call, n: nat): (s: seq<Call>)
    ensures |s| == n && forall i :: 0 <= i < n ==> s[i] == c
  {
    seq(n, _ => c)
  }

  /** Opens a window, uses it up just before it ends, and uses up the next one. */
  function Burst(limit: RateLimit, ip: bytes, used: nat): seq<Call>
    requires Sound(limit)
  {
    var late := if used < limit.maxEvents then used else limit.maxEvents - 1;
    [Call(ip, 0)] + Repeat(Call(ip, limit.window - 1), late) + Repeat(Call(ip, limit.window), used - late)
  }

  lemma BurstGrows(limit: RateLimit, ip: bytes, used: nat)
    requires Sound(limit) && used > 0
    ensures var calls := Burst(limit, ip, used);
            && calls != [] && calls[..|calls| - 1] == Burst(limit, ip, used - 1)
            && calls[|calls| - 1] == Call(ip, if used < limit.maxEvents then limit.window - 1 else limit.window)
  {
  }

  lemma BurstInOrder(limit: RateLimit, ip: bytes, used: nat)
    requires Sound(limit)
    ensures InOrder(Burst(limit, ip, used))
  {
  }

  lemma BurstOpens(limit: RateLimit, ip: bytes)
    requires limit.maxEvents > 0 && limit.window > 1
    ensures Admits(limit, Burst(limit, ip, 0), ip, limit.window - 1, 2 * limit.window - 1) == 0
    ensures Lookup(Run(limit, Burst(limit, ip, 0)), ip) == Some(Bucket(0, 1))
  {
    var calls := Burst(limit, ip, 0);
    assert calls == [Call(ip, 0)];
    LookupAfter(limit, calls, ip);
    assert Run(limit, calls[..0]) == map[];
    assert Admits(limit, calls[..0], ip, limit.window - 1, 2 * limit.window - 1) == 0;
  }

  /** The bucket of a burst, and that its last call is admitted. */
  lemma {:induction false} BurstBucket(limit: RateLimit, ip: bytes, used: nat)
    requires limit.maxEvents > 0 && limit.window > 1 && used <= 2 * limit.maxEvents - 1
    ensures Lookup(Run(limit, Burst(limit, ip, used)), ip)
            == Some(if used < limit.maxEvents then Bucket(0, used + 1) else Bucket(limit.window, used - limit.maxEvents + 1))
    ensures used > 0 ==> Admitted(limit, Burst(limit, ip, used))
  {
    if used == 0 {
      BurstOpens(limit, ip);
    } else {
      BurstBucket(limit, ip, used - 1);
      BurstGrows(limit, ip, used);
      LookupAfter(limit, Burst(limit, ip, used), ip);
    }
  }

  /** The bound is reached: for every limit whose window is longer than one tick there is such a burst. */
  lemma {:induction false} BurstAdmits(limit: RateLimit, ip: bytes, used: nat)
    requires limit.maxEvents > 0 && limit.window > 1 && used <= 2 * limit.maxEvents - 1
    ensures InOrder(Burst(limit, ip, used))
    ensures Admits(limit, Burst(limit, ip, used), ip, limit.window - 1, 2 * limit.window - 1) == used
  {
    BurstInOrder(limit, ip, used);
    if used == 0 {
      BurstOpens(limit, ip);
    } else {
      BurstAdmits(limit, ip, used - 1);
      BurstGrows(limit, ip, used);
      BurstBucket(limit, ip, used);
    }
  }

  class AdmissionLimiter {
    const config: Option<RateLimit>
    var buckets: Buckets

    constructor (config: Option<RateLimit>)
      ensures this.config == config && buckets == map[]
    {
      this.config := config;
      buckets := map[];
    }

    method Check(ip: bytes, now: nat) returns (ok: bool)
      modifies this
      ensures match config
              case None => ok && buckets == old(buckets)
              case Some(limit) => (buckets, ok) == NextBuckets(limit, old(buckets), Call(ip, now))
    {
      if config.None? {
        return true;
      }
      var limit := config.value;
      if ip !in buckets {
        buckets := buckets[ip := Bucket(now, 0)];
      }
      if Elapsed(now, buckets[ip].windowStarted) >= limit.window {
        buckets := buckets[ip := Bucket(now, 0)];
      }
      assert buckets == old(buckets)[ip := buckets[ip]];
      if buckets[ip].count >= limit.maxEvents {
        return false;
      }
      buckets := buckets[ip := buckets[ip].(count := buckets[ip].count + 1)];
      assert buckets == old(buckets)[ip := buckets[ip]];
      ok := true;
    }
  }
}
