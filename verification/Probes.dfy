/**
 The paced probe loop over direct candidates, under a per-probe timeout and an
 overall deadline. Timers are ideal: a sleep or a timeout takes exactly its
 length, and everything else takes no time.
 */
module Probes {
  import opened Bytes
  import opened MdnsCache
  import opened Candidates

  datatype Config = Config(pacing: nat, probeTimeout: nat, overallDeadline: nat, hasKeypair: bool)

  /** What a probe of a candidate would do if left alone: answer after a while, or never. */
  datatype Behaviour = Succeeds(after: nat) | Fails(after: nat, reason: string) | Hangs

  datatype Outcome = Established | TimedOut | Failed(reason: string)
  datatype Attempt = Attempt(candidateType: CandidateType, address: SocketAddr, elapsed: nat, outcome: Outcome)
  datatype PathKind = DirectPath | RelayPath

  datatype ProbeResult =
    | Connected(address: SocketAddr, pathKind: PathKind, attempts: seq<Attempt>)
    | Exhausted(attempts: seq<Attempt>)

  /** What the probe of candidate number `i` begun at a time does; a repeated endpoint may answer differently each time. */
  datatype World = World(text: AddressText, behaviour: (nat, nat) -> Behaviour)

  function SocketAddrOf(t: AddressText, e: Endpoint): Option<SocketAddr> {
    match t.parse(e.address)
    case None => None
    case Some(ip) => Some(SocketAddr(ip, e.port))
  }

  function PathKindFor(k: CandidateType): PathKind {
    if k == Host || k == ServerReflexive then DirectPath else RelayPath
  }

  function Left(budget: nat, used: nat): nat {
    if used < budget then budget - used else 0
  }

  function RemainingProbeBudget(now: nat, started: nat, probeStarted: nat, probeTimeout: nat, overallDeadline: nat): nat {
    var candidate := Left(probeTimeout, Elapsed(now, probeStarted));
    var overall := Left(overallDeadline, Elapsed(now, started));
    if candidate < overall then candidate else overall
  }

  /** The probe cut off after the given time: what is seen, and when. */
  function Timeout(b: Behaviour, limit: nat): (Outcome, nat) {
    match b
    case Succeeds(after) => if after <= limit then (Established, after) else (TimedOut, limit)
    case Fails(after, reason) => if after <= limit then (Failed(reason), after) else (TimedOut, limit)
    case Hangs => (TimedOut, limit)
  }

  function ProbeOne(cfg: Config, w: World, started: nat, now: nat, i: nat, c: Endpoint, address: SocketAddr): Attempt {
    var remaining := RemainingProbeBudget(now, started, now, cfg.probeTimeout, cfg.overallDeadline);
    if remaining == 0 then Attempt(c.candidateType, address, 0, TimedOut)
    else
      var (outcome, took) := Timeout(w.behaviour(i, now), remaining);
      Attempt(c.candidateType, address, took, outcome)
  }

  /** One turn of the loop: it ends with a result at a time, or goes on. */
  datatype Turn = Stop(result: ProbeResult, end: nat) | Go(now: nat, attempts: seq<Attempt>)

  function TakeTurn(cfg: Config, w: World, started: nat, i: nat, c: Endpoint, now: nat, attempts: seq<Attempt>): Turn {
    var now := if i > 0 then now + cfg.pacing else now;
    if Elapsed(now, started) >= cfg.overallDeadline then Stop(Exhausted(attempts), now)
    else
      match SocketAddrOf(w.text, c)
      case None => Go(now, attempts)
      case Some(address) =>
        var a := ProbeOne(cfg, w, started, now, i, c, address);
        if a.outcome == Established then Stop(Connected(address, PathKindFor(c.candidateType), attempts + [a]), now + a.elapsed)
        else Go(now + a.elapsed, attempts + [a])
  }

  /** The loop from candidate i on, entered at a time: its result and the time it ends. */
  function ProbeFrom(cfg: Config, w: World, started: nat, candidates: seq<Endpoint>, i: nat, now: nat, attempts: seq<Attempt>): (ProbeResult, nat)
    requires i <= |candidates|
    decreases |candidates| - i
  {
    if i == |candidates| then (Exhausted(attempts), now)
    else
      match TakeTurn(cfg, w, started, i, candidates[i], now, attempts)
      case Stop(result, end) => (result, end)
      case Go(now', attempts') => ProbeFrom(cfg, w, started, candidates, i + 1, now', attempts')
  }

  const KEYPAIR_REQUIRED := "direct PQC session requires local_device_keypair"

  function KeypairRequired(t: AddressText, candidates: seq<Endpoint>): seq<Attempt> {
    if candidates == [] then []
    else
      (match SocketAddrOf(t, candidates[0])
       case None => []
       case Some(a) => [Attempt(candidates[0].candidateType, a, 0, Failed(KEYPAIR_REQUIRED))])
      + KeypairRequired(t, candidates[1..])
  }

  function Race(cfg: Config, w: World, started: nat, candidates: seq<Endpoint>, now: nat): (ProbeResult, nat) {
    if candidates == [] then (Exhausted([]), now)
    else if !cfg.hasKeypair then (Exhausted(KeypairRequired(w.text, candidates)), now)
    else ProbeFrom(cfg, w, started, candidates, 0, now, [])
  }

  // ----- time -----

  lemma ProbeFitsBudget(cfg: Config, w: World, started: nat, now: nat, i: nat, c: Endpoint, address: SocketAddr)
    requires started <= now
    ensures var a := ProbeOne(cfg, w, started, now, i, c, address);
            a.elapsed <= cfg.probeTimeout && (Elapsed(now, started) < cfg.overallDeadline ==> now + a.elapsed <= started + cfg.overallDeadline)
  {
  }

  /** When a turn starts within the deadline, or is the first, it leaves the loop in time. */
  lemma TurnEnds(cfg: Config, w: World, started: nat, i: nat, c: Endpoint, now: nat, attempts: seq<Attempt>)
    requires started <= now && (i > 0 ==> now <= started + cfg.overallDeadline)
    ensures match TakeTurn(cfg, w, started, i, c, now, attempts)
            case Stop(_, end) => now <= end && (end <= started + cfg.overallDeadline + cfg.pacing || end == now)
            case Go(now', _) => now <= now' <= started + cfg.overallDeadline
  {
    var at := if i > 0 then now + cfg.pacing else now;
    match SocketAddrOf(w.text, c)
    case None =>
    case Some(address) => ProbeFitsBudget(cfg, w, started, at, i, c, address);
  }

  lemma {:induction false} LoopEnds(cfg: Config, w: World, started: nat, candidates: seq<Endpoint>, i: nat, now: nat, attempts: seq<Attempt>)
    requires i <= |candidates| && started <= now && (i > 0 ==> now <= started + cfg.overallDeadline)
    ensures var end := ProbeFrom(cfg, w, started, candidates, i, now, attempts).1;
            now <= end && (end <= started + cfg.overallDeadline + cfg.pacing || end == now)
    decreases |candidates| - i
  {
    if i < |candidates| {
      TurnEnds(cfg, w, started, i, candidates[i], now, attempts);
      match TakeTurn(cfg, w, started, i, candidates[i], now, attempts)
      case Stop(_, _) =>
      case Go(now', attempts') => LoopEnds(cfg, w, started, candidates, i + 1, now', attempts');
    }
  }

  /**
   The loop ends within the deadline and one pacing, or at once. So it ends
   within them exactly when it was entered within them.
   */
  lemma EndsInTime(cfg: Config, w: World, started: nat, candidates: seq<Endpoint>, entered: nat)
    requires started <= entered
    ensures var end := Race(cfg, w, started, candidates, entered).1;
            && entered <= end
            && (end <= started + cfg.overallDeadline + cfg.pacing || end == entered)
            && (end <= started + cfg.overallDeadline + cfg.pacing <==> entered <= started + cfg.overallDeadline + cfg.pacing)
  {
    if candidates != [] && cfg.hasKeypair {
      LoopEnds(cfg, w, started, candidates, 0, entered, []);
    }
  }

  /** Entered at or past the deadline, for instance after a slow record fetch, the loop tries nothing and ends at once. */
  lemma LateEntryEndsLate(cfg: Config, w: World, started: nat, candidates: seq<Endpoint>, entered: nat)
    requires cfg.hasKeypair && entered >= started + cfg.overallDeadline
    ensures Race(cfg, w, started, candidates, entered) == (Exhausted([]), entered)
  {
  }

  // ----- what one turn sees -----

  /**
   One turn, in absolute times: after the pacing it stops at the deadline; a
   candidate with an address has until its own timeout or the deadline, answers
   within that or is timed out at the end of it, and a success connects.
   */
  lemma TurnExactly(cfg: Config, w: World, started: nat, i: nat, c: Endpoint, now: nat, attempts: seq<Attempt>)
    requires started <= now
    ensures var at, deadline := now + (if i > 0 then cfg.pacing else 0), started + cfg.overallDeadline;
            var turn, ip, behaviour := TakeTurn(cfg, w, started, i, c, now, attempts), w.text.parse(c.address), w.behaviour(i, at);
            var cutOff := if at + cfg.probeTimeout < deadline then at + cfg.probeTimeout else deadline;
            if at >= deadline then turn == Stop(Exhausted(attempts), at)
            else if ip.None? then turn == Go(at, attempts)
            else
              var address := SocketAddr(ip.value, c.port);
              if cutOff > at && behaviour.Succeeds? && at + behaviour.after <= cutOff
              then turn == Stop(Connected(address, if c.candidateType in {Host, ServerReflexive} then DirectPath else RelayPath,
                                          attempts + [Attempt(c.candidateType, address, behaviour.after, Established)]),
                                at + behaviour.after)
              else if cutOff > at && behaviour.Fails? && at + behaviour.after <= cutOff
              then turn == Go(at + behaviour.after,
                              attempts + [Attempt(c.candidateType, address, behaviour.after, Failed(behaviour.reason))])
              else turn == Go(cutOff, attempts + [Attempt(c.candidateType, address, cutOff - at, TimedOut)])
  {
  }

  /** Candidate k has an address and, whenever it is probed, answers within the given time, which its timeout allows. */
  ghost predicate Answers(cfg: Config, w: World, candidates: seq<Endpoint>, k: nat, within: nat)
    requires k < |candidates|
  {
    && SocketAddrOf(w.text, candidates[k]).Some?
    && 0 < cfg.probeTimeout && within <= cfg.probeTimeout
    && forall at :: w.behaviour(k, at).Succeeds? && w.behaviour(k, at).after <= within
  }

  /** The longest that this many candidates can take, with their pacing. */
  function Spent(cfg: Config, turns: nat): nat {
    if turns == 0 then 0 else Spent(cfg, turns - 1) + cfg.pacing + cfg.probeTimeout
  }

  lemma {:induction false} LoopConnects(
    cfg: Config, w: World, started: nat, candidates: seq<Endpoint>, i: nat, now: nat, attempts: seq<Attempt>, k: nat, within: nat)
    requires i <= k < |candidates| && started <= now && Answers(cfg, w, candidates, k, within)
    requires var at, deadline := now + (if i > 0 then cfg.pacing else 0) + Spent(cfg, k - i), started + cfg.overallDeadline;
             at < deadline && at + within <= deadline
    ensures ProbeFrom(cfg, w, started, candidates, i, now, attempts).0.Connected?
    decreases k - i
  {
    TurnExactly(cfg, w, started, i, candidates[i], now, attempts);
    var turn := TakeTurn(cfg, w, started, i, candidates[i], now, attempts);
    if i < k && turn.Go? {
      LoopConnects(cfg, w, started, candidates, i + 1, turn.now, turn.attempts, k, within);
    }
  }

  /**
   A reachable candidate is enough: when one of them always answers in time, and
   the deadline leaves room for it and for the slowest course of those before
   it, the loop ends connected.
   */
  lemma ReachableConnects(cfg: Config, w: World, started: nat, candidates: seq<Endpoint>, entered: nat, k: nat, within: nat)
    requires cfg.hasKeypair && started <= entered && k < |candidates| && Answers(cfg, w, candidates, k, within)
    requires var at, deadline := entered + Spent(cfg, k), started + cfg.overallDeadline; at < deadline && at + within <= deadline
    ensures Race(cfg, w, started, candidates, entered).0.Connected?
  {
    LoopConnects(cfg, w, started, candidates, 0, entered, [], k, within);
  }

  // ----- attempts -----

  predicate AttemptOf(t: AddressText, a: Attempt, c: Endpoint) {
    SocketAddrOf(t, c) == Some(a.address) && a.candidateType == c.candidateType
  }

  /** Attempts in candidate order, at most one for each candidate. */
  predicate Follows(t: AddressText, attempts: seq<Attempt>, candidates: seq<Endpoint>) {
    attempts == []
    || (candidates != []
        && (Follows(t, attempts, candidates[..|candidates| - 1])
            || (AttemptOf(t, attempts[|attempts| - 1], candidates[|candidates| - 1])
                && Follows(t, attempts[..|attempts| - 1], candidates[..|candidates| - 1]))))
  }

  predicate NoneEstablished(attempts: seq<Attempt>) {
    forall k :: 0 <= k < |attempts| ==> attempts[k].outcome != Established
  }

  function AddressOf(t: AddressText, c: Endpoint): seq<SocketAddr> {
    match SocketAddrOf(t, c)
    case None => []
    case Some(a) => [a]
  }

  /** The addresses of the candidates that have one, in order. */
  function Addresses(t: AddressText, candidates: seq<Endpoint>): seq<SocketAddr> {
    if candidates == [] then []
    else Addresses(t, candidates[..|candidates| - 1]) + AddressOf(t, candidates[|candidates| - 1])
  }

  function Tried(attempts: seq<Attempt>): seq<SocketAddr> {
    seq(|attempts|, k requires 0 <= k < |attempts| => attempts[k].address)
  }

  lemma {:induction false} FollowsMore(t: AddressText, attempts: seq<Attempt>, candidates: seq<Endpoint>, more: seq<Endpoint>)
    requires Follows(t, attempts, candidates)
    ensures Follows(t, attempts, candidates + more)
  {
    if more == [] {
      assert candidates + more == candidates;
    } else {
      FollowsMore(t, attempts, candidates, more[..|more| - 1]);
      assert (candidates + more)[..|candidates + more| - 1] == candidates + more[..|more| - 1];
    }
  }

  /** What a result promises: order, at most one each, and an established attempt only at the end, for the address returned. */
  predicate ResultOk(t: AddressText, r: ProbeResult, candidates: seq<Endpoint>) {
    Follows(t, r.attempts, candidates) && EstablishedLast(r)
  }

  predicate EstablishedLast(r: ProbeResult) {
    match r
    case Exhausted(attempts) => NoneEstablished(attempts)
    case Connected(address, kind, attempts) =>
      && attempts != []
      && NoneEstablished(attempts[..|attempts| - 1])
      && var last := attempts[|attempts| - 1];
         last.outcome == Established && last.address == address && kind == PathKindFor(last.candidateType)
  }

  /** Nothing new, or one attempt of this candidate at the end. */
  predicate Extends(t: AddressText, after: seq<Attempt>, attempts: seq<Attempt>, c: Endpoint) {
    after == attempts
    || (|after| == |attempts| + 1 && after[..|attempts|] == attempts && AttemptOf(t, after[|attempts|], c))
  }

  function AttemptsOf(turn: Turn): seq<Attempt> {
    match turn
    case Stop(result, _) => result.attempts
    case Go(_, attempts) => attempts
  }

  lemma TurnExtends(cfg: Config, w: World, started: nat, i: nat, c: Endpoint, now: nat, attempts: seq<Attempt>)
    ensures Extends(w.text, AttemptsOf(TakeTurn(cfg, w, started, i, c, now, attempts)), attempts, c)
  {
    var at := if i > 0 then now + cfg.pacing else now;
    match SocketAddrOf(w.text, c)
    case None =>
    case Some(address) =>
      var a := ProbeOne(cfg, w, started, at, i, c, address);
      assert (attempts + [a])[..|attempts|] == attempts;
  }

  /** Skipping the next candidate, or adding its attempt, keeps the order. */
  lemma FollowsNext(t: AddressText, after: seq<Attempt>, attempts: seq<Attempt>, candidates: seq<Endpoint>, i: nat)
    requires i < |candidates| && Follows(t, attempts, candidates[..i]) && Extends(t, after, attempts, candidates[i])
    ensures Follows(t, after, candidates[..i + 1])
  {
    var next := candidates[..i + 1];
    assert next[..i] == candidates[..i] && next[i] == candidates[i];
  }

  lemma FollowsAll(t: AddressText, attempts: seq<Attempt>, candidates: seq<Endpoint>, i: nat)
    requires i <= |candidates| && Follows(t, attempts, candidates[..i])
    ensures Follows(t, attempts, candidates)
  {
    FollowsMore(t, attempts, candidates[..i], candidates[i..]);
    assert candidates == candidates[..i] + candidates[i..];
  }

  lemma {:induction false} LoopFollows(cfg: Config, w: World, started: nat, candidates: seq<Endpoint>, i: nat, now: nat, attempts: seq<Attempt>)
    requires i <= |candidates| && Follows(w.text, attempts, candidates[..i])
    ensures Follows(w.text, ProbeFrom(cfg, w, started, candidates, i, now, attempts).0.attempts, candidates)
    decreases |candidates| - i
  {
    if i == |candidates| {
      FollowsAll(w.text, attempts, candidates, i);
    } else {
      var turn := TakeTurn(cfg, w, started, i, candidates[i], now, attempts);
      TurnExtends(cfg, w, started, i, candidates[i], now, attempts);
      FollowsNext(w.text, AttemptsOf(turn), attempts, candidates, i);
      match turn
      case Stop(result, _) => FollowsAll(w.text, result.attempts, candidates, i + 1);
      case Go(now', attempts') => LoopFollows(cfg, w, started, candidates, i + 1, now', attempts');
    }
  }

  lemma TurnEstablishes(cfg: Config, w: World, started: nat, i: nat, c: Endpoint, now: nat, attempts: seq<Attempt>)
    requires NoneEstablished(attempts)
    ensures match TakeTurn(cfg, w, started, i, c, now, attempts)
            case Stop(result, _) => EstablishedLast(result)
            case Go(_, attempts') => NoneEstablished(attempts')
  {
    var at := if i > 0 then now + cfg.pacing else now;
    match SocketAddrOf(w.text, c)
    case None =>
    case Some(address) =>
      var a := ProbeOne(cfg, w, started, at, i, c, address);
      assert (attempts + [a])[..|attempts|] == attempts;
  }

  lemma {:induction false} LoopEstablishes(cfg: Config, w: World, started: nat, candidates: seq<Endpoint>, i: nat, now: nat, attempts: seq<Attempt>)
    requires i <= |candidates| && NoneEstablished(attempts)
    ensures EstablishedLast(ProbeFrom(cfg, w, started, candidates, i, now, attempts).0)
    decreases |candidates| - i
  {
    if i < |candidates| {
      TurnEstablishes(cfg, w, started, i, candidates[i], now, attempts);
      match TakeTurn(cfg, w, started, i, candidates[i], now, attempts)
      case Stop(_, _) =>
      case Go(now', attempts') => LoopEstablishes(cfg, w, started, candidates, i + 1, now', attempts');
    }
  }

  lemma {:induction false} KeypairTried(t: AddressText, candidates: seq<Endpoint>)
    ensures NoneEstablished(KeypairRequired(t, candidates))
    ensures Tried(KeypairRequired(t, candidates)) == Addresses(t, candidates)
  {
    if candidates != [] {
      var n := |candidates| - 1;
      KeypairTried(t, candidates[..n]);
      KeypairGrows(t, candidates[..n], candidates[n]);
      assert candidates == candidates[..n] + [candidates[n]];
    }
  }

  lemma {:induction false} KeypairFollows(t: AddressText, candidates: seq<Endpoint>)
    ensures Follows(t, KeypairRequired(t, candidates), candidates)
  {
    if candidates != [] {
      var n := |candidates| - 1;
      KeypairFollows(t, candidates[..n]);
      KeypairGrows(t, candidates[..n], candidates[n]);
      assert candidates == candidates[..n] + [candidates[n]];
      var before, all := KeypairRequired(t, candidates[..n]), KeypairRequired(t, candidates);
      assert Extends(t, all, before, candidates[n]);
      FollowsNext(t, all, before, candidates, n);
      assert candidates[..n + 1] == candidates;
    }
  }

  lemma {:induction false} KeypairGrows(t: AddressText, candidates: seq<Endpoint>, c: Endpoint)
    ensures KeypairRequired(t, candidates + [c])
            == KeypairRequired(t, candidates)
               + (match SocketAddrOf(t, c)
                  case None => []
                  case Some(a) => [Attempt(c.candidateType, a, 0, Failed(KEYPAIR_REQUIRED))])
  {
    if candidates == [] {
      assert candidates + [c] == [c] && [c][1..] == [];
    } else {
      KeypairGrows(t, candidates[1..], c);
      assert (candidates + [c])[1..] == candidates[1..] + [c];
    }
  }

  /** For every candidate list and every behaviour of the peers. */
  lemma AttemptsInOrder(cfg: Config, w: World, started: nat, candidates: seq<Endpoint>, entered: nat)
    ensures ResultOk(w.text, Race(cfg, w, started, candidates, entered).0, candidates)
  {
    KeypairTried(w.text, candidates);
    KeypairFollows(w.text, candidates);
    if candidates != [] && cfg.hasKeypair {
      assert candidates[..0] == [];
      LoopFollows(cfg, w, started, candidates, 0, entered, []);
      LoopEstablishes(cfg, w, started, candidates, 0, entered, []);
    }
  }

  /** A turn that goes on tried the candidate if it has an address; one that gives up met the deadline. */
  lemma TurnCovers(cfg: Config, w: World, started: nat, i: nat, c: Endpoint, now: nat, attempts: seq<Attempt>)
    ensures match TakeTurn(cfg, w, started, i, c, now, attempts)
            case Stop(result, end) => result.Exhausted? ==> Elapsed(end, started) >= cfg.overallDeadline
            case Go(_, attempts') => Tried(attempts') == Tried(attempts) + AddressOf(w.text, c)
  {
    var at := if i > 0 then now + cfg.pacing else now;
    match SocketAddrOf(w.text, c)
    case None =>
    case Some(address) =>
      var a := ProbeOne(cfg, w, started, at, i, c, address);
      assert Tried(attempts + [a]) == Tried(attempts) + [address];
  }

  lemma {:induction false} LoopCovers(cfg: Config, w: World, started: nat, candidates: seq<Endpoint>, i: nat, now: nat, attempts: seq<Attempt>)
    requires i <= |candidates| && Tried(attempts) == Addresses(w.text, candidates[..i])
    ensures var (r, end) := ProbeFrom(cfg, w, started, candidates, i, now, attempts);
            r.Exhausted? ==> Tried(r.attempts) == Addresses(w.text, candidates) || Elapsed(end, started) >= cfg.overallDeadline
    decreases |candidates| - i
  {
    if i == |candidates| {
      assert candidates[..i] == candidates;
    } else {
      assert candidates[..i + 1][..i] == candidates[..i];
      TurnCovers(cfg, w, started, i, candidates[i], now, attempts);
      match TakeTurn(cfg, w, started, i, candidates[i], now, attempts)
      case Stop(_, _) =>
      case Go(now', attempts') => LoopCovers(cfg, w, started, candidates, i + 1, now', attempts');
    }
  }

  /** Giving up before the deadline means every candidate with a readable address was tried. */
  lemma ExhaustedTriedAll(cfg: Config, w: World, started: nat, candidates: seq<Endpoint>, entered: nat)
    ensures var (r, end) := Race(cfg, w, started, candidates, entered);
            r.Exhausted? ==> Tried(r.attempts) == Addresses(w.text, candidates) || Elapsed(end, started) >= cfg.overallDeadline
  {
    KeypairTried(w.text, candidates);
    if candidates != [] && cfg.hasKeypair {
      assert Addresses(w.text, candidates[..0]) == [] && Tried([]) == [];
      LoopCovers(cfg, w, started, candidates, 0, entered, []);
    }
  }

  /** The body of the loop for one candidate. */
  method ProbeCandidate(cfg: Config, w: World, started: nat, index: nat, candidate: Endpoint, entered: nat, attempts: seq<Attempt>)
    returns (turn: Turn)
    ensures turn == TakeTurn(cfg, w, started, index, candidate, entered, attempts)
  {
    var now: nat := entered;
    if index > 0 {
      now := now + cfg.pacing;
    }
    if Elapsed(now, started) >= cfg.overallDeadline {
      return Stop(Exhausted(attempts), now);
    }
    var address := SocketAddrOf(w.text, candidate);
    if address.None? {
      return Go(now, attempts);
    }
    var remaining := RemainingProbeBudget(now, started, now, cfg.probeTimeout, cfg.overallDeadline);
    if remaining == 0 {
      return Go(now, attempts + [Attempt(candidate.candidateType, address.value, 0, TimedOut)]);
    }
    var (outcome, took) := Timeout(w.behaviour(index, now), remaining);
    now := now + took;
    var tried := attempts + [Attempt(candidate.candidateType, address.value, took, outcome)];
    if outcome == Established {
      return Stop(Connected(address.value, PathKindFor(candidate.candidateType), tried), now);
    }
    turn := Go(now, tried);
  }

  /** The loop itself. */
  method RaceNativeUdpDirectProbes(cfg: Config, w: World, started: nat, candidates: seq<Endpoint>, entered: nat)
    returns (result: ProbeResult, end: nat)
    ensures (result, end) == Race(cfg, w, started, candidates, entered)
  {
    if candidates == [] {
      return Exhausted([]), entered;
    }
    if !cfg.hasKeypair {
      return Exhausted(KeypairRequired(w.text, candidates)), entered;
    }
    var attempts: seq<Attempt> := [];
    var now: nat := entered;
    for index := 0 to |candidates|
      invariant ProbeFrom(cfg, w, started, candidates, index, now, attempts) == Race(cfg, w, started, candidates, entered)
    {
      var turn := ProbeCandidate(cfg, w, started, index, candidates[index], now, attempts);
      if turn.Stop? {
        return turn.result, turn.end;
      }
      now, attempts := turn.now, turn.attempts;
    }
    result, end := Exhausted(attempts), now;
  }
}
