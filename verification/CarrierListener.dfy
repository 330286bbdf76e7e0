/**
 The listener that multiplexes sessions by remote address on one socket: a
 dispatcher, a table of current sessions with generations, one bounded queue
 per session, and the bounded accept queue.
 */
module CarrierListener {
  import opened Bytes
  import opened CarrierCodec

  const MAX_LISTENER_SESSIONS := 1024
  const LISTENER_SESSION_QUEUE_DEPTH := 256
  const LISTENER_ACCEPT_QUEUE_DEPTH := 64

  /** A remote socket address; only its identity matters here. */
  datatype Addr = Addr(ip: bytes, port: nat)

  /** The queue from the dispatcher to one session; closed once its receiver is gone. */
  datatype Channel = Channel(queue: seq<bytes>, open: bool)

  /** Dispatched datagram number `index`, from `source`, went into the queue of a session. */
  datatype Enqueued = Enqueued(index: nat, source: Addr, generation: nat, input: bytes)

  /**
   The listener. `remote` and `channels` describe every session ever created,
   by generation; `accepted` and `taken` record what left the accept queue and
   each session queue, `log` what entered the session queues.
   */
  datatype Listener = Listener(
    sessions: map<Addr, nat>,
    counter: nat,
    acceptQueue: seq<nat>,
    remote: map<nat, Addr>,
    channels: map<nat, Channel>,
    accepted: seq<nat>,
    taken: map<nat, seq<bytes>>,
    dispatched: nat,
    log: seq<Enqueued>)

  const NEW_LISTENER := Listener(map[], 0, [], map[], map[], [], map[], 0, [])

  datatype Event =
    | Dispatch(input: bytes, source: Addr)
    | CloseSession(generation: nat, contended: bool)
    | TakeDatagram(generation: nat)
    | DropSession(generation: nat)
    | AcceptSession

  predicate CanSend(l: Listener, generation: nat) {
    generation in l.channels && l.channels[generation].open && |l.channels[generation].queue| < LISTENER_SESSION_QUEUE_DEPTH
  }

  function Enqueue(l: Listener, generation: nat, input: bytes, source: Addr): Listener
    requires generation in l.channels
  {
    var channel := l.channels[generation];
    l.(channels := l.channels[generation := channel.(queue := channel.queue + [input])],
       log := l.log + [Enqueued(l.dispatched, source, generation, input)])
  }

  /** A new session with the datagram in its queue, taken back at once when the accept queue is full. */
  function CreateSession(l: Listener, input: bytes, source: Addr): Listener {
    var generation := l.counter + 1;
    var room := |l.acceptQueue| < LISTENER_ACCEPT_QUEUE_DEPTH;
    l.(counter := generation,
       remote := l.remote[generation := source],
       channels := l.channels[generation := Channel([input], room)],
       taken := l.taken[generation := []],
       log := l.log + [Enqueued(l.dispatched, source, generation, input)],
       sessions := if room then l.sessions[source := generation] else l.sessions - {source},
       acceptQueue := if room then l.acceptQueue + [generation] else l.acceptQueue)
  }

  /** One datagram through the dispatcher, which holds the table lock throughout. */
  function DispatchOne(l: Listener, input: bytes, source: Addr): Listener {
    if !Readable(input) then l
    else if source in l.sessions && CanSend(l, l.sessions[source]) then DispatchKnown(l, input, source, IsClose(input))
    else DispatchNew(l.(sessions := l.sessions - {source}), input, source, IsClose(input))
  }

  predicate Readable(input: bytes) {
    |input| <= MAX_UDP_DATAGRAM_LEN && DecodeDatagram(input).Ok?
  }

  predicate IsClose(input: bytes)
    requires Readable(input)
  {
    DecodeDatagram(input).value.kind == Close
  }

  function DispatchKnown(l: Listener, input: bytes, source: Addr, close: bool): Listener
    requires source in l.sessions && CanSend(l, l.sessions[source])
  {
    var sent := Enqueue(l, l.sessions[source], input, source);
    if close then sent.(sessions := l.sessions - {source}) else sent
  }

  function DispatchNew(l: Listener, input: bytes, source: Addr, close: bool): Listener {
    if close || |l.sessions| >= MAX_LISTENER_SESSIONS then l else CreateSession(l, input, source)
  }

  /** A session closing itself; it gives up when the table is locked by someone else. */
  function CloseOne(l: Listener, generation: nat, contended: bool): Listener {
    if contended || generation !in l.remote then l
    else
      var source := l.remote[generation];
      if source in l.sessions && l.sessions[source] == generation then l.(sessions := l.sessions - {source}) else l
  }

  /** A session reads the oldest datagram of its queue. */
  function TakeOne(l: Listener, generation: nat): Listener
    requires generation in l.channels && generation in l.taken && l.channels[generation].queue != []
  {
    var channel := l.channels[generation];
    l.(channels := l.channels[generation := channel.(queue := channel.queue[1..])],
       taken := l.taken[generation := l.taken[generation] + [channel.queue[0]]])
  }

  function Next(l: Listener, e: Event): Listener {
    match e
    case Dispatch(input, source) => DispatchOne(l, input, source).(dispatched := l.dispatched + 1)
    case CloseSession(generation, contended) => CloseOne(l, generation, contended)
    case TakeDatagram(generation) =>
      if generation in l.channels && generation in l.taken && l.channels[generation].queue != []
      then TakeOne(l, generation)
      else l
    case DropSession(generation) =>
      if generation in l.channels
      then l.(channels := l.channels[generation := l.channels[generation].(open := false)])
      else l
    case AcceptSession =>
      if l.acceptQueue == [] then l
      else l.(acceptQueue := l.acceptQueue[1..], accepted := l.accepted + [l.acceptQueue[0]])
  }

  function Run(events: seq<Event>): Listener {
    if events == [] then NEW_LISTENER else Next(Run(events[..|events| - 1]), events[|events| - 1])
  }

  // ---------------------------------------------- what one datagram achieves

  /** The source has a session whose receiver is there and whose queue has room. */
  predicate HasLiveSession(l: Listener, source: Addr) {
    && source in l.sessions && l.sessions[source] in l.channels
    && var c := l.channels[l.sessions[source]]; c.open && |c.queue| < 256
  }

  /** A datagram that is too long or unreadable is only counted. */
  lemma UnreadableIsDropped(l: Listener, input: bytes, source: Addr)
    requires |input| > 1200 || DecodeDatagram(input).Err?
    ensures Next(l, Dispatch(input, source)) == l.(dispatched := l.dispatched + 1)
  {
  }

  /** A live session gets its datagram at the back of its queue, and leaves the table with a close; nobody else is touched. */
  lemma KnownSourceIsServed(l: Listener, input: bytes, source: Addr)
    requires |input| <= 1200 && DecodeDatagram(input).Ok? && HasLiveSession(l, source)
    ensures var l', g := Next(l, Dispatch(input, source)), l.sessions[source];
            && l'.channels == l.channels[g := Channel(l.channels[g].queue + [input], true)]
            && l'.sessions == (if DecodeDatagram(input).value.kind == Close then l.sessions - {source} else l.sessions)
            && l'.counter == l.counter && l'.acceptQueue == l.acceptQueue && l'.remote == l.remote
            && l'.log == l.log + [Enqueued(l.dispatched, source, g, input)]
  {
  }

  /** What opening a session does to the listener; the table has no entry of the source. */
  ghost predicate Opens(l: Listener, l': Listener, input: bytes, source: Addr) {
    var g, room := l.counter + 1, |l.acceptQueue| < 64;
    && l'.counter == g && l'.remote == l.remote[g := source]
    && l'.channels == l.channels[g := Channel([input], room)]
    && l'.taken == l.taken[g := []]
    && l'.log == l.log + [Enqueued(l.dispatched, source, g, input)]
    && l'.accepted == l.accepted
    && (if room then l'.sessions == l.sessions[source := g] && l'.acceptQueue == l.acceptQueue + [g]
        else l'.sessions == l.sessions && l'.acceptQueue == l.acceptQueue)
  }

  lemma SessionOpens(l: Listener, input: bytes, source: Addr)
    requires source !in l.sessions
    ensures Opens(l, CreateSession(l, input, source), input, source)
  {
    assert l.sessions - {source} == l.sessions;
  }

  /**
   From a source without a live session, a close or a full table opens nothing.
   Any other datagram opens a session of a new generation that begins with it;
   the session is entered and offered exactly when the accept queue has room,
   and is closed again otherwise. A stale entry is gone in every case.
   */
  lemma NewSourceIsServed(l: Listener, input: bytes, source: Addr)
    requires |input| <= 1200 && DecodeDatagram(input).Ok? && !HasLiveSession(l, source)
    ensures var l', others := Next(l, Dispatch(input, source)), l.sessions - {source};
            if DecodeDatagram(input).value.kind == Close || |others| >= 1024
            then l' == l.(sessions := others, dispatched := l.dispatched + 1)
            else Opens(l.(sessions := others), l', input, source)
  {
    var others, l' := l.(sessions := l.sessions - {source}), Next(l, Dispatch(input, source));
    NewSourceDispatched(l, input, source);
    if DecodeDatagram(input).value.kind == Close || |others.sessions| >= MAX_LISTENER_SESSIONS {
      assert l' == others.(dispatched := l.dispatched + 1);
    } else {
      assert l' == CreateSession(others, input, source).(dispatched := l.dispatched + 1);
      SessionOpens(others, input, source);
      OpensCounted(others, CreateSession(others, input, source), input, source, l.dispatched + 1);
    }
  }

  lemma OpensCounted(l: Listener, l': Listener, input: bytes, source: Addr, n: nat)
    requires Opens(l, l', input, source)
    ensures Opens(l, l'.(dispatched := n), input, source)
  {
  }

  lemma NewSourceDispatched(l: Listener, input: bytes, source: Addr)
    requires |input| <= 1200 && DecodeDatagram(input).Ok? && !HasLiveSession(l, source)
    ensures DispatchOne(l, input, source)
            == DispatchNew(l.(sessions := l.sessions - {source}), input, source, DecodeDatagram(input).value.kind == Close)
  {
  }

  /** A session that its owner drops or closes is no longer the live one of its address. */
  lemma EndedSessionIsNotLive(l: Listener, source: Addr)
    requires source in l.sessions && l.sessions[source] in l.channels
    ensures !HasLiveSession(Next(l, DropSession(l.sessions[source])), source)
    ensures l.sessions[source] in l.remote && l.remote[l.sessions[source]] == source ==>
              source !in Next(l, CloseSession(l.sessions[source], false)).sessions
  {
  }

  /** The listener after the accepting side has asked this many times. */
  function Accepting(l: Listener, times: nat): Listener {
    if times == 0 then l else Next(Accepting(l, times - 1), AcceptSession)
  }

  /** The accepting side gets the offered sessions in order, and changes nothing else. */
  lemma {:induction false} AcceptedInOrder(l: Listener, times: nat)
    requires times <= |l.acceptQueue|
    ensures Accepting(l, times) == l.(acceptQueue := l.acceptQueue[times..], accepted := l.accepted + l.acceptQueue[..times])
  {
    if times == 0 {
      assert l.acceptQueue[0..] == l.acceptQueue && l.accepted + l.acceptQueue[..0] == l.accepted;
    } else {
      AcceptedInOrder(l, times - 1);
      assert l.acceptQueue[times - 1..][1..] == l.acceptQueue[times..];
      Regroup(l.accepted, l.acceptQueue[..times - 1], [l.acceptQueue[times - 1]]);
      assert l.acceptQueue[..times - 1] + [l.acceptQueue[times - 1]] == l.acceptQueue[..times];
    }
  }

  /** The session offered last is accepted after the ones before it, and then reads the head of its queue. */
  lemma OfferedIsAccepted(l: Listener, g: nat, input: bytes)
    requires l.acceptQueue != [] && l.acceptQueue[|l.acceptQueue| - 1] == g
    requires g in l.channels && l.channels[g].queue == [input] && g in l.taken && l.taken[g] == []
    ensures var l' := Accepting(l, |l.acceptQueue|);
            && l'.accepted == l.accepted + l.acceptQueue && l'.remote == l.remote
            && var read := Next(l', TakeDatagram(g)); g in read.taken && read.taken[g] == [input]
  {
    AcceptedInOrder(l, |l.acceptQueue|);
    assert l.acceptQueue[..|l.acceptQueue|] == l.acceptQueue;
  }

  /**
   A new source reaches the application: once the sessions offered before it
   have been accepted, its session is, and the first datagram read there is the
   one that opened it.
   */
  lemma NewSessionIsAccepted(l: Listener, input: bytes, source: Addr)
    requires |input| <= 1200 && DecodeDatagram(input).Ok? && DecodeDatagram(input).value.kind != Close
    requires !HasLiveSession(l, source) && |l.sessions - {source}| < 1024 && |l.acceptQueue| < 64
    ensures var g, l' := l.counter + 1, Accepting(Next(l, Dispatch(input, source)), |l.acceptQueue| + 1);
            && l'.accepted == l.accepted + (l.acceptQueue + [g])
            && g in l'.remote && l'.remote[g] == source
            && var read := Next(l', TakeDatagram(g)); g in read.taken && read.taken[g] == [input]
  {
    NewSourceIsServed(l, input, source);
    OfferedIsAccepted(Next(l, Dispatch(input, source)), l.counter + 1, input);
  }

  // --------------------------------------------------------------- invariants

  /** The sessions offered to the accepting side, in order: those taken and those still queued. */
  function Offered(l: Listener): seq<nat> {
    l.accepted + l.acceptQueue
  }

  /** An entry's session was offered, and is a session with that address. */
  predicate EntryOk(a: Addr, g: nat, offered: seq<nat>, remote: map<nat, Addr>) {
    g in offered && g in remote && remote[g] == a
  }

  predicate TableOk(sessions: map<Addr, nat>, offered: seq<nat>, remote: map<nat, Addr>) {
    |sessions| <= MAX_LISTENER_SESSIONS && forall a :: a in sessions ==> EntryOk(a, sessions[a], offered, remote)
  }

  /** Generations are handed out once each, never above the counter. */
  predicate GenerationsOk(counter: nat, remote: map<nat, Addr>, channels: map<nat, Channel>) {
    && remote.Keys == channels.Keys
    && (forall g :: g in remote ==> 0 < g <= counter)
    && (forall g :: g in channels ==> |channels[g].queue| <= LISTENER_SESSION_QUEUE_DEPTH)
  }

  /** Every session is offered at most once, in the order of creation. */
  predicate OfferedOk(offered: seq<nat>, remote: map<nat, Addr>) {
    && (forall i :: 0 <= i < |offered| ==> offered[i] in remote)
    && (forall i, j :: 0 <= i < j < |offered| ==> offered[i] < offered[j])
  }

  /** Each datagram is logged at most once, and only for a session of its own source address. */
  predicate LogOk(log: seq<Enqueued>, dispatched: nat, remote: map<nat, Addr>) {
    && (forall i :: 0 <= i < |log| ==>
          log[i].index < dispatched && log[i].generation in remote && remote[log[i].generation] == log[i].source)
    && (forall i, j :: 0 <= i < j < |log| ==> log[i].index < log[j].index)
  }

  /** The datagrams logged for one session, in order. */
  function InputsOf(log: seq<Enqueued>, generation: nat): seq<bytes> {
    if log == [] then []
    else
      var last := log[|log| - 1];
      InputsOf(log[..|log| - 1], generation) + if last.generation == generation then [last.input] else []
  }

  /** What a session took and what its queue still holds is exactly what was logged for it, in order. */
  predicate QueuesOk(taken: map<nat, seq<bytes>>, channels: map<nat, Channel>, log: seq<Enqueued>) {
    && taken.Keys == channels.Keys
    && forall g :: g in channels ==> taken[g] + channels[g].queue == InputsOf(log, g)
  }

  predicate ListenerOk(l: Listener) {
    && TableOk(l.sessions, Offered(l), l.remote)
    && GenerationsOk(l.counter, l.remote, l.channels)
    && |l.acceptQueue| <= LISTENER_ACCEPT_QUEUE_DEPTH && OfferedOk(Offered(l), l.remote)
    && LogOk(l.log, l.dispatched, l.remote)
    && QueuesOk(l.taken, l.channels, l.log)
  }

  /** No two addresses share a generation. */
  lemma GenerationsDistinct(l: Listener, a: Addr, b: Addr)
    requires ListenerOk(l) && a in l.sessions && b in l.sessions && l.sessions[a] == l.sessions[b]
    ensures a == b
  {
    assert EntryOk(a, l.sessions[a], Offered(l), l.remote) && EntryOk(b, l.sessions[b], Offered(l), l.remote);
  }

  /** The session of an entry has a queue. */
  lemma EntryHasQueue(l: Listener, source: Addr)
    requires ListenerOk(l)
    ensures source in l.sessions ==> l.sessions[source] in l.channels
  {
    assert source in l.sessions ==> EntryOk(source, l.sessions[source], Offered(l), l.remote);
  }

  // ------------------------------------------------------- one part at a time

  lemma WithoutSession(sessions: map<Addr, nat>, offered: seq<nat>, remote: map<nat, Addr>, source: Addr)
    requires TableOk(sessions, offered, remote)
    ensures TableOk(sessions - {source}, offered, remote)
  {
    var smaller := sessions - {source};
    if source in sessions {
      assert smaller.Keys == sessions.Keys - {source};
      assert |smaller| == |smaller.Keys| == |sessions.Keys| - 1;
    } else {
      assert smaller == sessions;
    }
  }

  lemma WithRemote(sessions: map<Addr, nat>, offered: seq<nat>, remote: map<nat, Addr>, source: Addr, g: nat)
    requires TableOk(sessions, offered, remote) && g !in remote
    ensures TableOk(sessions, offered, remote[g := source])
  {
    forall a | a in sessions
      ensures EntryOk(a, sessions[a], offered, remote[g := source])
    {
      assert EntryOk(a, sessions[a], offered, remote);
    }
  }

  lemma WithSession(sessions: map<Addr, nat>, offered: seq<nat>, remote: map<nat, Addr>, source: Addr, g: nat)
    requires TableOk(sessions, offered, remote) && g in remote && remote[g] == source
    requires source !in sessions && |sessions| < MAX_LISTENER_SESSIONS
    ensures TableOk(sessions[source := g], offered + [g], remote)
  {
    var more := sessions[source := g];
    assert more.Keys == sessions.Keys + {source};
    assert |more| == |more.Keys| == |sessions.Keys| + 1;
    forall a | a in more
      ensures EntryOk(a, more[a], offered + [g], remote)
    {
      if a == source {
        assert (offered + [g])[|offered|] == g;
      } else {
        assert EntryOk(a, sessions[a], offered, remote);
      }
    }
  }

  lemma NewGeneration(counter: nat, remote: map<nat, Addr>, channels: map<nat, Channel>, source: Addr, channel: Channel)
    requires GenerationsOk(counter, remote, channels) && |channel.queue| <= LISTENER_SESSION_QUEUE_DEPTH
    ensures counter + 1 !in remote
    ensures GenerationsOk(counter + 1, remote[counter + 1 := source], channels[counter + 1 := channel])
  {
    assert remote[counter + 1 := source].Keys == remote.Keys + {counter + 1};
    assert channels[counter + 1 := channel].Keys == channels.Keys + {counter + 1};
  }

  lemma NewChannel(counter: nat, remote: map<nat, Addr>, channels: map<nat, Channel>, g: nat, channel: Channel)
    requires GenerationsOk(counter, remote, channels) && g in channels && |channel.queue| <= LISTENER_SESSION_QUEUE_DEPTH
    ensures GenerationsOk(counter, remote, channels[g := channel])
  {
    assert channels[g := channel].Keys == channels.Keys;
  }

  lemma NewOffer(offered: seq<nat>, counter: nat, remote: map<nat, Addr>, channels: map<nat, Channel>, source: Addr)
    requires OfferedOk(offered, remote) && GenerationsOk(counter, remote, channels)
    ensures OfferedOk(offered, remote[counter + 1 := source])
    ensures OfferedOk(offered + [counter + 1], remote[counter + 1 := source])
  {
  }

  lemma NewLog(log: seq<Enqueued>, dispatched: nat, remote: map<nat, Addr>, e: Enqueued)
    requires LogOk(log, dispatched, remote)
    requires e.index == dispatched && e.generation in remote && remote[e.generation] == e.source
    ensures LogOk(log + [e], dispatched + 1, remote)
  {
    var after := log + [e];
    forall i | 0 <= i < |after|
      ensures after[i].index < dispatched + 1 && after[i].generation in remote && remote[after[i].generation] == after[i].source
    {
      if i < |log| {
        assert after[i] == log[i];
      }
    }
  }

  lemma LogFor(log: seq<Enqueued>, dispatched: nat, remote: map<nat, Addr>, source: Addr, g: nat)
    requires LogOk(log, dispatched, remote) && g !in remote
    ensures LogOk(log, dispatched, remote[g := source])
    ensures InputsOf(log, g) == []
  {
    NothingLogged(log, g);
  }

  lemma {:induction false} NothingLogged(log: seq<Enqueued>, generation: nat)
    requires forall i :: 0 <= i < |log| ==> log[i].generation != generation
    ensures InputsOf(log, generation) == []
  {
    if log != [] {
      NothingLogged(log[..|log| - 1], generation);
    }
  }

  lemma InputsAppend(log: seq<Enqueued>, e: Enqueued, generation: nat)
    ensures InputsOf(log + [e], generation) == InputsOf(log, generation) + if e.generation == generation then [e.input] else []
  {
    assert (log + [e])[..|log|] == log;
  }

  lemma NewInput(taken: map<nat, seq<bytes>>, channels: map<nat, Channel>, log: seq<Enqueued>, e: Enqueued, open: bool)
    requires QueuesOk(taken, channels, log) && e.generation in channels
    ensures QueuesOk(taken, channels[e.generation := Channel(channels[e.generation].queue + [e.input], open)], log + [e])
  {
    var g, channels' := e.generation, channels[e.generation := Channel(channels[e.generation].queue + [e.input], open)];
    assert channels'.Keys == channels.Keys;
    forall k | k in channels'
      ensures taken[k] + channels'[k].queue == InputsOf(log + [e], k)
    {
      InputsAppend(log, e, k);
      Regroup(taken[g], channels[g].queue, [e.input]);
    }
  }

  lemma FirstInput(taken: map<nat, seq<bytes>>, channels: map<nat, Channel>, log: seq<Enqueued>, e: Enqueued, open: bool)
    requires QueuesOk(taken, channels, log) && e.generation !in channels && InputsOf(log, e.generation) == []
    ensures QueuesOk(taken[e.generation := []], channels[e.generation := Channel([e.input], open)], log + [e])
  {
    var g := e.generation;
    var taken', channels' := taken[g := []], channels[g := Channel([e.input], open)];
    assert taken'.Keys == taken.Keys + {g} && channels'.Keys == channels.Keys + {g};
    forall k | k in channels'
      ensures taken'[k] + channels'[k].queue == InputsOf(log + [e], k)
    {
      InputsAppend(log, e, k);
    }
  }

  lemma ClosedChannel(taken: map<nat, seq<bytes>>, channels: map<nat, Channel>, log: seq<Enqueued>, g: nat)
    requires QueuesOk(taken, channels, log) && g in channels
    ensures QueuesOk(taken, channels[g := channels[g].(open := false)], log)
  {
    assert channels[g := channels[g].(open := false)].Keys == channels.Keys;
  }

  lemma TakenInput(taken: map<nat, seq<bytes>>, channels: map<nat, Channel>, log: seq<Enqueued>, g: nat)
    requires QueuesOk(taken, channels, log) && g in channels && channels[g].queue != []
    ensures var queue := channels[g].queue;
            QueuesOk(taken[g := taken[g] + [queue[0]]], channels[g := channels[g].(queue := queue[1..])], log)
  {
    var queue := channels[g].queue;
    assert queue == [queue[0]] + queue[1..];
    Regroup(taken[g], [queue[0]], queue[1..]);
    assert taken[g := taken[g] + [queue[0]]].Keys == taken.Keys;
    assert channels[g := channels[g].(queue := queue[1..])].Keys == channels.Keys;
  }

  // ------------------------------------------------------------------- steps

  /** Creating a session offers it when the accept queue has room. */
  lemma CreateOffers(l: Listener, input: bytes, source: Addr)
    ensures Offered(CreateSession(l, input, source))
            == if |l.acceptQueue| < LISTENER_ACCEPT_QUEUE_DEPTH then Offered(l) + [l.counter + 1] else Offered(l)
  {
    Regroup(l.accepted, l.acceptQueue, [l.counter + 1]);
  }

  lemma TableWith(sessions: map<Addr, nat>, offered: seq<nat>, remote: map<nat, Addr>, source: Addr, g: nat, room: bool)
    requires TableOk(sessions, offered, remote) && g !in remote
    requires source !in sessions && |sessions| < MAX_LISTENER_SESSIONS
    ensures TableOk(if room then sessions[source := g] else sessions - {source},
                    if room then offered + [g] else offered, remote[g := source])
  {
    WithRemote(sessions, offered, remote, source, g);
    if room {
      WithSession(sessions, offered, remote[g := source], source, g);
    } else {
      WithoutSession(sessions, offered, remote[g := source], source);
    }
  }

  lemma CreateTable(l: Listener, input: bytes, source: Addr)
    requires TableOk(l.sessions, Offered(l), l.remote) && l.counter + 1 !in l.remote
    requires source !in l.sessions && |l.sessions| < MAX_LISTENER_SESSIONS
    ensures var l' := CreateSession(l, input, source);
            TableOk(l'.sessions, Offered(l'), l'.remote)
  {
    var g, room := l.counter + 1, |l.acceptQueue| < LISTENER_ACCEPT_QUEUE_DEPTH;
    CreateOffers(l, input, source);
    var offered := Offered(CreateSession(l, input, source));
    assert offered == if room then Offered(l) + [g] else Offered(l);
    TableWith(l.sessions, Offered(l), l.remote, source, g, room);
    if room {
      assert TableOk(l.sessions[source := g], offered, l.remote[g := source]);
    } else {
      assert TableOk(l.sessions - {source}, offered, l.remote[g := source]);
    }
  }

  lemma CreateOffer(l: Listener, input: bytes, source: Addr)
    requires OfferedOk(Offered(l), l.remote) && GenerationsOk(l.counter, l.remote, l.channels)
    ensures var l' := CreateSession(l, input, source);
            OfferedOk(Offered(l'), l'.remote)
  {
    NewOffer(Offered(l), l.counter, l.remote, l.channels, source);
    CreateOffers(l, input, source);
  }

  lemma CreateLog(l: Listener, input: bytes, source: Addr)
    requires l.counter + 1 !in l.remote && LogOk(l.log, l.dispatched, l.remote)
    ensures var l' := CreateSession(l, input, source);
            LogOk(l'.log, l.dispatched + 1, l'.remote)
  {
    LogFor(l.log, l.dispatched, l.remote, source, l.counter + 1);
    NewLog(l.log, l.dispatched, l.remote[l.counter + 1 := source], Enqueued(l.dispatched, source, l.counter + 1, input));
  }

  lemma CreateQueues(l: Listener, input: bytes, source: Addr)
    requires l.counter + 1 !in l.channels && InputsOf(l.log, l.counter + 1) == [] && QueuesOk(l.taken, l.channels, l.log)
    ensures var l' := CreateSession(l, input, source);
            QueuesOk(l'.taken, l'.channels, l'.log)
  {
    FirstInput(l.taken, l.channels, l.log, Enqueued(l.dispatched, source, l.counter + 1, input),
               |l.acceptQueue| < LISTENER_ACCEPT_QUEUE_DEPTH);
  }

  lemma CreateGenerations(l: Listener, input: bytes, source: Addr)
    requires GenerationsOk(l.counter, l.remote, l.channels)
    ensures var l' := CreateSession(l, input, source);
            GenerationsOk(l'.counter, l'.remote, l'.channels)
    ensures l.counter + 1 !in l.remote
  {
    NewGeneration(l.counter, l.remote, l.channels, source, Channel([input], |l.acceptQueue| < LISTENER_ACCEPT_QUEUE_DEPTH));
  }

  lemma CreateKeepsOk(l: Listener, input: bytes, source: Addr)
    requires ListenerOk(l) && source !in l.sessions && |l.sessions| < MAX_LISTENER_SESSIONS
    ensures ListenerOk(CreateSession(l, input, source).(dispatched := l.dispatched + 1))
  {
    CreateGenerations(l, input, source);
    CreateTable(l, input, source);
    CreateOffer(l, input, source);
    CreateLog(l, input, source);
    LogFor(l.log, l.dispatched, l.remote, source, l.counter + 1);
    CreateQueues(l, input, source);
  }

  lemma EnqueueKeepsOk(l: Listener, g: nat, input: bytes, source: Addr)
    requires ListenerOk(l) && CanSend(l, g) && g in l.remote && l.remote[g] == source
    ensures ListenerOk(Enqueue(l, g, input, source).(dispatched := l.dispatched + 1))
  {
    var channel, e := l.channels[g], Enqueued(l.dispatched, source, g, input);
    NewChannel(l.counter, l.remote, l.channels, g, channel.(queue := channel.queue + [input]));
    NewLog(l.log, l.dispatched, l.remote, e);
    NewInput(l.taken, l.channels, l.log, e, channel.open);
  }

  lemma CloseKeepsOk(l: Listener, source: Addr)
    requires ListenerOk(l)
    ensures ListenerOk(l.(sessions := l.sessions - {source}))
  {
    WithoutSession(l.sessions, Offered(l), l.remote, source);
  }

  lemma DispatchKnownOk(l: Listener, input: bytes, source: Addr, close: bool)
    requires ListenerOk(l) && source in l.sessions && CanSend(l, l.sessions[source])
    ensures ListenerOk(DispatchKnown(l, input, source, close).(dispatched := l.dispatched + 1))
  {
    EnqueueKeepsOk(l, l.sessions[source], input, source);
    CloseKeepsOk(Enqueue(l, l.sessions[source], input, source).(dispatched := l.dispatched + 1), source);
  }

  lemma DispatchNewOk(l: Listener, input: bytes, source: Addr, close: bool)
    requires ListenerOk(l) && source !in l.sessions
    ensures ListenerOk(DispatchNew(l, input, source, close).(dispatched := l.dispatched + 1))
  {
    if !close && |l.sessions| < MAX_LISTENER_SESSIONS {
      CreateKeepsOk(l, input, source);
    }
  }

  lemma DispatchClearedOk(l: Listener, input: bytes, source: Addr, close: bool)
    requires ListenerOk(l)
    ensures ListenerOk(DispatchNew(l.(sessions := l.sessions - {source}), input, source, close).(dispatched := l.dispatched + 1))
  {
    CloseKeepsOk(l, source);
    var cleared := l.(sessions := l.sessions - {source});
    DispatchNewOk(cleared, input, source, close);
    var after := DispatchNew(cleared, input, source, close);
    assert after.(dispatched := cleared.dispatched + 1) == after.(dispatched := l.dispatched + 1);
  }

  lemma DispatchKeepsOk(l: Listener, input: bytes, source: Addr)
    requires ListenerOk(l)
    ensures ListenerOk(DispatchOne(l, input, source).(dispatched := l.dispatched + 1))
  {
    if !Readable(input) {
      assert DispatchOne(l, input, source) == l;
    } else if source in l.sessions && CanSend(l, l.sessions[source]) {
      DispatchKnownOk(l, input, source, IsClose(input));
    } else {
      DispatchClearedOk(l, input, source, IsClose(input));
    }
  }

  lemma TakeKeepsOk(l: Listener, g: nat)
    requires ListenerOk(l) && g in l.channels && l.channels[g].queue != []
    ensures ListenerOk(TakeOne(l, g))
  {
    NewChannel(l.counter, l.remote, l.channels, g, l.channels[g].(queue := l.channels[g].queue[1..]));
    TakenInput(l.taken, l.channels, l.log, g);
  }

  lemma DropKeepsOk(l: Listener, g: nat)
    requires ListenerOk(l) && g in l.channels
    ensures ListenerOk(l.(channels := l.channels[g := l.channels[g].(open := false)]))
  {
    NewChannel(l.counter, l.remote, l.channels, g, l.channels[g].(open := false));
    ClosedChannel(l.taken, l.channels, l.log, g);
  }

  lemma AcceptKeepsOk(l: Listener)
    requires ListenerOk(l) && l.acceptQueue != []
    ensures ListenerOk(l.(acceptQueue := l.acceptQueue[1..], accepted := l.accepted + [l.acceptQueue[0]]))
  {
    assert l.acceptQueue == [l.acceptQueue[0]] + l.acceptQueue[1..];
    Regroup(l.accepted, [l.acceptQueue[0]], l.acceptQueue[1..]);
  }

  lemma NextKeepsOk(l: Listener, e: Event)
    requires ListenerOk(l)
    ensures ListenerOk(Next(l, e))
  {
    match e
    case Dispatch(input, source) => DispatchKeepsOk(l, input, source);
    case CloseSession(generation, contended) =>
      if generation in l.remote {
        CloseKeepsOk(l, l.remote[generation]);
      }
    case TakeDatagram(generation) =>
      if generation in l.channels && l.channels[generation].queue != [] {
        TakeKeepsOk(l, generation);
      }
    case DropSession(generation) =>
      if generation in l.channels {
        DropKeepsOk(l, generation);
      }
    case AcceptSession =>
      if l.acceptQueue != [] {
        AcceptKeepsOk(l);
      }
  }

  /**
   In every interleaving of dispatching, receiving, closing, dropping and
   accepting: at most 1,024 sessions, each offered on the accept queue under a
   generation of its own that never exceeds the counter; each session took and
   holds exactly the datagrams logged for it, in order; and each datagram is
   logged at most once, for a session at the datagram's own source.
   */
  lemma {:induction false} ListenerInvariant(events: seq<Event>)
    ensures ListenerOk(Run(events))
  {
    if events != [] {
      ListenerInvariant(events[..|events| - 1]);
      NextKeepsOk(Run(events[..|events| - 1]), events[|events| - 1]);
    }
  }

  /**
   Closing a session removes exactly that session: afterwards it is gone unless
   the table was contended, and every entry of another generation, in
   particular a newer one at the same address, stays.
   */
  lemma CloseRemovesOnlyItself(l: Listener, generation: nat, contended: bool)
    requires ListenerOk(l)
    ensures var l' := Next(l, CloseSession(generation, contended));
            && (forall a :: a in l.sessions && l.sessions[a] != generation ==> a in l'.sessions && l'.sessions[a] == l.sessions[a])
            && (forall a :: a in l'.sessions ==> a in l.sessions && l'.sessions[a] == l.sessions[a])
            && (!contended ==> forall a :: a in l'.sessions ==> l'.sessions[a] != generation)
  {
  }

  /** Either no session was created, or one was, at this source, with a fresh generation one above the counter. */
  predicate AtMostOneNew(l: Listener, l': Listener, source: Addr) {
    if l'.counter == l.counter then l'.remote == l.remote
    else l'.counter == l.counter + 1 && l'.counter !in l.remote && l'.remote == l.remote[l'.counter := source]
  }

  lemma CreatedIsNew(l: Listener, input: bytes, source: Addr)
    requires l.counter + 1 !in l.remote
    ensures AtMostOneNew(l, CreateSession(l, input, source), source)
  {
  }

  lemma NewSessionOnly(l: Listener, input: bytes, source: Addr, close: bool)
    requires GenerationsOk(l.counter, l.remote, l.channels)
    ensures AtMostOneNew(l, DispatchNew(l, input, source, close), source)
    ensures close ==> DispatchNew(l, input, source, close).counter == l.counter
  {
    if !close && |l.sessions| < MAX_LISTENER_SESSIONS {
      assert l.counter + 1 !in l.remote;
      CreatedIsNew(l, input, source);
    }
  }

  lemma DispatchCreates(l: Listener, input: bytes, source: Addr)
    requires GenerationsOk(l.counter, l.remote, l.channels)
    ensures AtMostOneNew(l, DispatchOne(l, input, source), source)
    ensures DispatchOne(l, input, source).counter != l.counter ==> Readable(input) && !IsClose(input)
  {
    if Readable(input) && !(source in l.sessions && CanSend(l, l.sessions[source])) {
      NewSessionOnly(l.(sessions := l.sessions - {source}), input, source, IsClose(input));
    }
  }

  /** A session is created only by a well-formed datagram that is not a close, with a fresh larger generation. */
  lemma CreationNeedsWellFormedDatagram(l: Listener, e: Event)
    requires ListenerOk(l)
    ensures var l' := Next(l, e);
            if l'.counter == l.counter then l'.remote == l.remote
            else && e.Dispatch? && Readable(e.input) && !IsClose(e.input)
                 && l'.counter == l.counter + 1 && l'.counter !in l.remote
                 && l'.remote == l.remote[l'.counter := e.source]
  {
    if e.Dispatch? {
      DispatchCreates(l, e.input, e.source);
    }
  }

  // ------------------------------------------------------- the listener object

  class NativeUdpListener {
    var sessions: map<Addr, nat>
    var generationCounter: nat
    var acceptQueue: seq<nat>
    var remote: map<nat, Addr>
    var channels: map<nat, Channel>
    ghost var accepted: seq<nat>
    ghost var taken: map<nat, seq<bytes>>
    ghost var dispatched: nat
    ghost var log: seq<Enqueued>

    ghost function Model(): Listener
      reads this
    {
      Listener(sessions, generationCounter, acceptQueue, remote, channels, accepted, taken, dispatched, log)
    }

    constructor ()
      ensures Model() == NEW_LISTENER
    {
      sessions, generationCounter, acceptQueue, remote, channels := map[], 0, [], map[], map[];
      accepted, taken, dispatched, log := [], map[], 0, [];
    }

    /** `try_send` on a session queue. */
    method TrySend(generation: nat, input: bytes, ghost source: Addr) returns (sent: bool)
      requires generation in channels
      modifies this`channels, this`log
      ensures sent <==> CanSend(old(Model()), generation)
      ensures Model() == if sent then Enqueue(old(Model()), generation, input, source) else old(Model())
    {
      var channel := channels[generation];
      sent := channel.open && |channel.queue| < LISTENER_SESSION_QUEUE_DEPTH;
      if sent {
        channels := channels[generation := channel.(queue := channel.queue + [input])];
        log := log + [Enqueued(dispatched, source, generation, input)];
      }
    }

    /** One turn of the dispatcher loop. */
    method HandleDatagram(input: bytes, source: Addr)
      requires ListenerOk(Model())
      modifies this
      ensures Model() == Next(old(Model()), Dispatch(input, source)) && ListenerOk(Model())
    {
      ghost var start := Model();
      EntryHasQueue(start, source);
      DispatchDatagram(input, source);
      NextKeepsOk(start, Dispatch(input, source));
    }

    method DispatchDatagram(input: bytes, source: Addr)
      requires source in sessions ==> sessions[source] in channels
      modifies this
      ensures Model() == Next(old(Model()), Dispatch(input, source))
    {
      if Readable(input) {
        Route(input, source, IsClose(input));
      }
      dispatched := dispatched + 1;
    }

    /** The dispatcher's handling of a readable datagram, under the table lock. */
    method Route(input: bytes, source: Addr, close: bool)
      requires source in sessions ==> sessions[source] in channels
      modifies this
      ensures Model() == if source in old(sessions) && CanSend(old(Model()), old(sessions)[source])
                         then DispatchKnown(old(Model()), input, source, close)
                         else DispatchNew(old(Model()).(sessions := old(sessions) - {source}), input, source, close)
      ensures dispatched == old(dispatched)
    {
      if source in sessions {
        var delivered := TrySend(sessions[source], input, source);
        if delivered {
          if close {
            sessions := sessions - {source};
          }
          return;
        }
      }
      sessions := sessions - {source};
      if close || |sessions| >= MAX_LISTENER_SESSIONS {
        return;
      }
      StartSession(input, source);
    }

    /** A new session queue with its first datagram in it. */
    method OpenQueue(generation: nat, input: bytes, ghost source: Addr)
      modifies this`channels, this`log
      ensures channels == old(channels)[generation := Channel([input], true)]
      ensures log == old(log) + [Enqueued(dispatched, source, generation, input)]
    {
      channels := channels[generation := Channel([], true)];
      var _ := TrySend(generation, input, source);
      assert [] + [input] == [input];
    }

    /** Registers a new session, and takes it back when the accept queue is full. */
    method StartSession(input: bytes, source: Addr)
      modifies this
      ensures Model() == CreateSession(old(Model()), input, source)
    {
      generationCounter := generationCounter + 1;
      var generation := generationCounter;
      remote := remote[generation := source];
      taken := taken[generation := []];
      OpenQueue(generation, input, source);
      sessions := sessions[source := generation];
      if |acceptQueue| < LISTENER_ACCEPT_QUEUE_DEPTH {
        acceptQueue := acceptQueue + [generation];
      } else {
        channels := channels[generation := channels[generation].(open := false)];
        assert channels == old(channels)[generation := Channel([input], false)];
        sessions := sessions - {source};
        assert sessions == old(sessions) - {source};
      }
    }

    /** `clear_listener_session`, called by the session itself; `locked` when `try_lock` succeeds. */
    method ClearSession(generation: nat, locked: bool)
      modifies this`sessions
      ensures Model() == Next(old(Model()), CloseSession(generation, !locked))
    {
      if locked && generation in remote {
        var source := remote[generation];
        if source in sessions && sessions[source] == generation {
          sessions := sessions - {source};
        }
      }
    }
  }
}
