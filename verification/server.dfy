/** The chat server (server.py) as a sequential state machine. Its state is the pair of
    parallel lists `clients` and `nicknames`; every thread of the source contributes
    events (a handshake completing, a read returning data, a read returning nothing or
    raising), and any interleaving of those threads in which each event runs to
    completion before the next starts is some sequence of events. */
module ChatServer {
  import opened Wrappers
  import opened Sequences
  import opened Protocol
  import opened ServerBroadcast

  /** The two module-level lists of server.py. */
  datatype Registry = Registry(clients: seq<ClientId>, nicknames: seq<string>)

  /** The state before any connection is accepted. */
  const Empty: Registry := Registry([], [])

  /** One successful `send` of `msg` on the socket of `to`. */
  datatype Packet = Packet(to: ClientId, msg: string)

  /** The new registry, the packets sent in order, and the sockets closed in order. */
  datatype Outcome = Outcome(registry: Registry, packets: seq<Packet>, closed: seq<ClientId>)

  /** What can happen next. `failing` is the set of connections whose `send` raises
      during the broadcast the event triggers.
      - `Join`: the accept loop accepted `id` and its handshake read returned `reply`;
      - `Received`: the handler of `id` read `data` (empty data is an orderly close);
      - `Crashed`: the read of the handler of `id` raised. */
  datatype Event =
    | Join(id: ClientId, reply: string, failing: set<ClientId>)
    | Received(id: ClientId, data: string, failing: set<ClientId>)
    | Crashed(id: ClientId, failing: set<ClientId>)

  /** The same message addressed to each of `ids`, in order. */
  function Addressed(ids: seq<ClientId>, msg: string): (ps: seq<Packet>)
    ensures |ps| == |ids|
  {
    if |ids| == 0 then [] else [Packet(ids[0], msg)] + Addressed(ids[1..], msg)
  }

  /** No registered connection fails its `send`. */
  predicate NoFailures(cs: seq<ClientId>, failing: set<ClientId>) {
    forall k :: 0 <= k < |cs| ==> cs[k] !in failing
  }

  /** `broadcast(msg, from)` on the registry: the failed connections leave `clients`,
      but their nicknames stay in `nicknames`. */
  function Send(r: Registry, msg: string, from: Option<ClientId>, failing: set<ClientId>): Outcome {
    var f := Fanout(r.clients, from, failing);
    Outcome(Registry(RemoveAll(r.clients, f.evicted), r.nicknames), Addressed(f.delivered, msg), f.evicted)
  }

  /** A join in the accept loop of `start_server`: prompt, register whatever the reply
      is, welcome the newcomer, announce it to everybody else. */
  function Admit(r: Registry, id: ClientId, reply: string, failing: set<ClientId>): Outcome {
    var joined := Registry(r.clients + [id], r.nicknames + [reply]);
    var b := Send(joined, JoinNotice(reply), Some(id), failing);
    Outcome(b.registry, [Packet(id, Sentinel), Packet(id, Welcome)] + b.packets, b.closed)
  }

  /** The clean-up at the end of `handle_client`, run when its read loop ends. A
      connection that is no longer registered is ignored. Otherwise its position is looked
      up, it is removed and closed, the nickname stored at that position is announced and
      then removed by value.
      Should that position lie beyond `nicknames`, the lookup raises and the thread dies
      right after closing the socket (see `TeardownNeverRaises`). */
  function Teardown(r: Registry, id: ClientId, failing: set<ClientId>): Outcome {
    if id !in r.clients then Outcome(r, [], [])
    else
      var index := IndexOf(r.clients, id);
      var clients := RemoveFirst(r.clients, id);
      if index >= |r.nicknames| then Outcome(Registry(clients, r.nicknames), [], [id])
      else
        var nickname := r.nicknames[index];
        var b := Send(Registry(clients, r.nicknames), LeaveNotice(nickname), None, failing);
        Outcome(Registry(b.registry.clients, RemoveFirst(b.registry.nicknames, nickname)),
                b.packets, [id] + b.closed)
  }

  /** One event. */
  function Step(r: Registry, e: Event): Outcome {
    match e
    case Join(id, reply, failing) => Admit(r, id, reply, failing)
    case Received(id, data, failing) =>
      if |data| == 0 then Teardown(r, id, failing) else Send(r, data, Some(id), failing)
    case Crashed(id, failing) => Teardown(r, id, failing)
  }

  /** The registry after a sequence of events. */
  function Run(evs: seq<Event>): Registry
    decreases |evs|
  {
    if |evs| == 0 then Empty else Step(Run(evs[..|evs| - 1]), evs[|evs| - 1]).registry
  }

  // ---------------------------------------------------------------------------------
  // Broadcast on the registry

  /** Every packet of a broadcast carries the message itself, goes to a registered
      connection and never to the excluded one; failed connections are closed; the
      nickname list is left alone. */
  lemma SendNeverEchoes(r: Registry, msg: string, from: Option<ClientId>, failing: set<ClientId>)
    ensures var o := Send(r, msg, from, failing);
            && o.registry.nicknames == r.nicknames
            && (forall p :: p in o.packets ==>
                  p.msg == msg && p.to in r.clients && Some(p.to) != from && p.to !in failing)
            && (forall c :: c in o.closed ==> c in r.clients && c in failing)
  {
    var f := Fanout(r.clients, from, failing);
    FanoutMembers(r.clients, from, failing);
    AddressedMembers(f.delivered, msg);
  }

  lemma {:induction false} AddressedMembers(ids: seq<ClientId>, msg: string)
    ensures forall p :: p in Addressed(ids, msg) ==> p.msg == msg && p.to in ids
    decreases |ids|
  {
    if |ids| > 0 {
      AddressedMembers(ids[1..], msg);
      assert forall c :: c in ids[1..] ==> c in ids;
    }
  }

  /** Without failures a broadcast reaches every registered connection but the excluded
      one, in registration order, and the registry does not change. */
  lemma SendWithoutFailures(r: Registry, msg: string, from: Option<ClientId>, failing: set<ClientId>)
    requires forall k :: 0 <= k < |r.clients| && Some(r.clients[k]) != from ==> r.clients[k] !in failing
    ensures Send(r, msg, from, failing) == Outcome(r, Addressed(Others(r.clients, from), msg), [])
  {
    FanoutWithoutFailures(r.clients, from, failing);
  }

  /** On a duplicate-free `clients` list, the connections evicted by a broadcast are
      exactly the ones that leave it; nothing else changes in either list. */
  lemma SendEvicts(r: Registry, msg: string, from: Option<ClientId>, failing: set<ClientId>)
    requires Distinct(r.clients)
    ensures var o := Send(r, msg, from, failing);
            && Distinct(o.registry.clients)
            && (forall c :: c in o.registry.clients <==> c in r.clients && c !in o.closed)
            && o.registry.nicknames == r.nicknames
  {
    var f := Fanout(r.clients, from, failing);
    RemoveAllDistinct(r.clients, f.evicted);
  }

  // ---------------------------------------------------------------------------------
  // Join

  /** A join appends the reply, unvalidated, to `nicknames` and the new connection to
      `clients`; the connection stays the last one even when the join notice evicts
      others, and without failures `clients` just grows by it. */
  lemma AdmitAppends(r: Registry, id: ClientId, reply: string, failing: set<ClientId>)
    ensures var o := Admit(r, id, reply, failing);
            && o.registry.nicknames == r.nicknames + [reply]
            && |o.registry.clients| > 0 && o.registry.clients[|o.registry.clients| - 1] == id
            && (NoFailures(r.clients, failing) ==> o.registry.clients == r.clients + [id])
  {
    var cs := r.clients + [id];
    var f := Fanout(cs, Some(id), failing);
    FanoutMembers(cs, Some(id), failing);
    RemoveAllKeepsLast(r.clients, f.evicted, id);
    if NoFailures(r.clients, failing) {
      assert forall k :: 0 <= k < |cs| && cs[k] != id ==> cs[k] in r.clients;
      FanoutWithoutFailures(cs, Some(id), failing);
    }
  }

  /** When the lists were aligned before a failure-free join, the newcomer's nickname sits
      at the same index as its connection. */
  lemma AdmitAligns(r: Registry, id: ClientId, reply: string, failing: set<ClientId>)
    requires |r.clients| == |r.nicknames| && NoFailures(r.clients, failing)
    ensures var o := Admit(r, id, reply, failing);
            var n := |r.clients|;
            |o.registry.clients| == |o.registry.nicknames| == n + 1
            && o.registry.clients[n] == id && o.registry.nicknames[n] == reply
  {
    AdmitAppends(r, id, reply, failing);
  }

  /** The newcomer is sent the prompt and the welcome and nothing else; every other
      packet is the join notice, for a connection registered before it. Without failures
      every earlier connection gets the notice, in order. */
  lemma AdmitAnnounces(r: Registry, id: ClientId, reply: string, failing: set<ClientId>)
    ensures var o := Admit(r, id, reply, failing);
            && |o.packets| >= 2
            && o.packets[0] == Packet(id, Sentinel) && o.packets[1] == Packet(id, Welcome)
            && (forall k :: 2 <= k < |o.packets| ==>
                  o.packets[k].to != id && o.packets[k].to in r.clients
                  && o.packets[k].msg == JoinNotice(reply))
            && (NoFailures(r.clients, failing) && id !in r.clients ==>
                  o.packets == [Packet(id, Sentinel), Packet(id, Welcome)]
                               + Addressed(r.clients, JoinNotice(reply)))
  {
    var joined := Registry(r.clients + [id], r.nicknames + [reply]);
    var b := Send(joined, JoinNotice(reply), Some(id), failing);
    SendNeverEchoes(joined, JoinNotice(reply), Some(id), failing);
    var o := Admit(r, id, reply, failing);
    forall k | 2 <= k < |o.packets|
      ensures o.packets[k].to != id && o.packets[k].to in r.clients && o.packets[k].msg == JoinNotice(reply)
    {
      assert o.packets[k] == b.packets[k - 2];
      assert b.packets[k - 2] in b.packets;
    }
    if NoFailures(r.clients, failing) && id !in r.clients {
      assert forall k :: 0 <= k < |joined.clients| && joined.clients[k] != id ==> joined.clients[k] in r.clients;
      SendWithoutFailures(joined, JoinNotice(reply), Some(id), failing);
      WithoutAppended(r.clients, id);
    }
  }

  lemma {:induction false} WithoutAppended(cs: seq<ClientId>, id: ClientId)
    requires id !in cs
    ensures Without(cs + [id], id) == cs
    decreases |cs|
  {
    if |cs| == 0 {
      assert Without([id], id) == Without([id][1..], id);
    } else {
      assert (cs + [id])[1..] == cs[1..] + [id];
      WithoutAppended(cs[1..], id);
    }
  }

  // ---------------------------------------------------------------------------------
  // Relay

  /** A chat message read from a connection is forwarded unchanged and never back to its
      sender; without failures it reaches every other connection and nothing changes. */
  lemma RelayForwardsVerbatim(r: Registry, from: ClientId, data: string, failing: set<ClientId>)
    requires |data| > 0
    ensures var o := Step(r, Received(from, data, failing));
            && (forall p :: p in o.packets ==> p.msg == data && p.to != from)
            && o.registry.nicknames == r.nicknames
            && (NoFailures(r.clients, failing) ==>
                  o == Outcome(r, Addressed(Without(r.clients, from), data), []))
  {
    SendNeverEchoes(r, data, Some(from), failing);
    if NoFailures(r.clients, failing) {
      SendWithoutFailures(r, data, Some(from), failing);
    }
  }

  // ---------------------------------------------------------------------------------
  // Teardown

  /** A connection that a broadcast already evicted is ignored at teardown: no notice,
      and `nicknames` keeps its entry. */
  lemma TeardownOfEvictedIsSilent(r: Registry, id: ClientId, failing: set<ClientId>)
    requires id !in r.clients
    ensures Step(r, Crashed(id, failing)) == Outcome(r, [], [])
    ensures Step(r, Received(id, [], failing)) == Outcome(r, [], [])
  {
  }

  /** Removing a nickname by value takes out position `i` exactly when no earlier entry
      carries the same nickname. */
  lemma RemovalByValueHitsIndex(ns: seq<string>, i: nat)
    requires i < |ns|
    ensures IndexOf(ns, ns[i]) == i <==> ns[i] !in ns[..i]
  {
  }

  /** `nicknames` is never shorter than `clients`: a join extends both, a broadcast only
      shortens `clients`, a teardown shortens both by one. */
  lemma StepKeepsNicknamesCovering(r: Registry, e: Event)
    requires |r.clients| <= |r.nicknames|
    ensures |Step(r, e).registry.clients| <= |Step(r, e).registry.nicknames|
  {
    match e
    case Join(id, reply, failing) =>
    case Received(id, data, failing) =>
    case Crashed(id, failing) =>
  }

  /** Hence the position found at teardown always has a nickname: the `IndexError`
      branch is never taken, in any run. */
  lemma {:induction false} TeardownNeverRaises(evs: seq<Event>, id: ClientId)
    ensures var r := Run(evs);
            id in r.clients ==> IndexOf(r.clients, id) < |r.nicknames|
  {
    RunKeepsNicknamesCovering(evs);
  }

  lemma {:induction false} RunKeepsNicknamesCovering(evs: seq<Event>)
    ensures |Run(evs).clients| <= |Run(evs).nicknames|
    decreases |evs|
  {
    if |evs| > 0 {
      RunKeepsNicknamesCovering(evs[..|evs| - 1]);
      StepKeepsNicknamesCovering(Run(evs[..|evs| - 1]), evs[|evs| - 1]);
    }
  }

  /** A registered connection that leaves is removed before the leave notice goes out, so
      it is never a recipient; the notice names the nickname stored at its position and
      goes, without failures, to every remaining connection. Its own socket is the first
      one closed. */
  lemma TeardownAnnouncesLeave(r: Registry, id: ClientId, failing: set<ClientId>)
    requires id in r.clients && Distinct(r.clients) && |r.clients| <= |r.nicknames|
    ensures var o := Teardown(r, id, failing);
            var nickname := r.nicknames[IndexOf(r.clients, id)];
            && id !in o.registry.clients
            && |o.closed| > 0 && o.closed[0] == id
            && (forall p :: p in o.packets ==> p.to != id && p.msg == LeaveNotice(nickname))
            && (NoFailures(r.clients, failing) ==>
                  o.packets == Addressed(RemoveFirst(r.clients, id), LeaveNotice(nickname)))
  {
    var clients := RemoveFirst(r.clients, id);
    RemoveFirstDistinct(r.clients, id);
    var mid := Registry(clients, r.nicknames);
    var nickname := r.nicknames[IndexOf(r.clients, id)];
    SendNeverEchoes(mid, LeaveNotice(nickname), None, failing);
    SendEvicts(mid, LeaveNotice(nickname), None, failing);
    if NoFailures(r.clients, failing) {
      assert NoFailures(clients, failing);
      SendWithoutFailures(mid, LeaveNotice(nickname), None, failing);
    }
  }

  // ---------------------------------------------------------------------------------
  // No connection twice

  /** Every join brings a connection that is not registered: the accept loop hands out a
      new socket object each time. */
  predicate FreshJoins(evs: seq<Event>)
    decreases |evs|
  {
    |evs| == 0
    || (var e := evs[|evs| - 1];
        FreshJoins(evs[..|evs| - 1]) && (e.Join? ==> e.id !in Run(evs[..|evs| - 1]).clients))
  }

  /** Whatever fails, an event never registers a connection twice, provided a join brings
      a connection not yet registered. */
  lemma StepKeepsClientsDistinct(r: Registry, e: Event)
    requires Distinct(r.clients) && (e.Join? ==> e.id !in r.clients)
    ensures Distinct(Step(r, e).registry.clients)
  {
    match e
    case Join(id, reply, failing) =>
      var joined := Registry(r.clients + [id], r.nicknames + [reply]);
      assert Distinct(joined.clients);
      SendEvicts(joined, JoinNotice(reply), Some(id), failing);
    case Received(id, data, failing) =>
      if |data| == 0 {
        TeardownKeepsClientsDistinct(r, id, failing);
      } else {
        SendEvicts(r, data, Some(id), failing);
      }
    case Crashed(id, failing) =>
      TeardownKeepsClientsDistinct(r, id, failing);
  }

  lemma TeardownKeepsClientsDistinct(r: Registry, id: ClientId, failing: set<ClientId>)
    requires Distinct(r.clients)
    ensures Distinct(Teardown(r, id, failing).registry.clients)
  {
    if id in r.clients {
      var clients := RemoveFirst(r.clients, id);
      RemoveFirstDistinct(r.clients, id);
      var index := IndexOf(r.clients, id);
      if index < |r.nicknames| {
        SendEvicts(Registry(clients, r.nicknames), LeaveNotice(r.nicknames[index]), None, failing);
      }
    }
  }

  /** In every run in which joins bring new connections, `clients` never holds a
      connection twice, whatever `send` calls fail. */
  lemma {:induction false} RunKeepsClientsDistinct(evs: seq<Event>)
    requires FreshJoins(evs)
    ensures Distinct(Run(evs).clients)
    decreases |evs|
  {
    if |evs| > 0 {
      RunKeepsClientsDistinct(evs[..|evs| - 1]);
      StepKeepsClientsDistinct(Run(evs[..|evs| - 1]), evs[|evs| - 1]);
    }
  }

  // ---------------------------------------------------------------------------------
  // The alignment invariant

  /** The two lists describe the same connections position by position, as far as their
      shapes go: same length, no connection twice, no nickname twice. */
  predicate Aligned(r: Registry) {
    |r.clients| == |r.nicknames| && Distinct(r.clients) && Distinct(r.nicknames)
  }

  /** The events that keep the lists aligned: a join of a new connection under a nickname
      nobody registered has, a read by a registered connection, and no `send` failing. */
  predicate Admissible(r: Registry, e: Event) {
    match e
    case Join(id, reply, failing) => id !in r.clients && reply !in r.nicknames && failing == {}
    case Received(id, _, failing) => id in r.clients && failing == {}
    case Crashed(id, failing) => id in r.clients && failing == {}
  }

  /** Every event of the sequence was admissible in the state it was applied to. */
  predicate AdmissibleRun(evs: seq<Event>)
    decreases |evs|
  {
    |evs| == 0 || (AdmissibleRun(evs[..|evs| - 1]) && Admissible(Run(evs[..|evs| - 1]), evs[|evs| - 1]))
  }

  /** The number of joins. */
  function Joins(evs: seq<Event>): nat {
    if |evs| == 0 then 0 else Joins(evs[..|evs| - 1]) + (if evs[|evs| - 1].Join? then 1 else 0)
  }

  /** The number of handler loops that ended, by an empty read or by an exception. */
  function Leaves(evs: seq<Event>): nat {
    if |evs| == 0 then 0
    else
      var e := evs[|evs| - 1];
      Leaves(evs[..|evs| - 1]) + (if e.Crashed? || (e.Received? && |e.data| == 0) then 1 else 0)
  }

  /** The nickname `id` joined under most recently, if it ever joined. */
  function JoinedAs(evs: seq<Event>, id: ClientId): Option<string> {
    if |evs| == 0 then None
    else
      var e := evs[|evs| - 1];
      if e.Join? && e.id == id then Some(e.reply) else JoinedAs(evs[..|evs| - 1], id)
  }

  /** One admissible event keeps the lists aligned. */
  lemma StepKeepsAligned(r: Registry, e: Event)
    requires Aligned(r) && Admissible(r, e)
    ensures Aligned(Step(r, e).registry)
    ensures e.Join? ==> Step(r, e).registry == Registry(r.clients + [e.id], r.nicknames + [e.reply])
    ensures e.Received? && |e.data| > 0 ==> Step(r, e).registry == r
    ensures (e.Crashed? || (e.Received? && |e.data| == 0)) ==>
              var p := IndexOf(r.clients, e.id);
              Step(r, e).registry == Registry(r.clients[..p] + r.clients[p + 1..],
                                              r.nicknames[..p] + r.nicknames[p + 1..])
  {
    match e
    case Join(id, reply, failing) =>
      AdmitAppends(r, id, reply, failing);
      assert Distinct(r.clients + [id]) && Distinct(r.nicknames + [reply]);
    case Received(id, data, failing) =>
      if |data| == 0 {
        TeardownAligned(r, id, failing);
      } else {
        SendWithoutFailures(r, data, Some(id), failing);
      }
    case Crashed(id, failing) =>
      TeardownAligned(r, id, failing);
  }

  /** Teardown of a registered connection in an aligned registry, without failures,
      deletes the same position from both lists. */
  lemma TeardownAligned(r: Registry, id: ClientId, failing: set<ClientId>)
    requires Aligned(r) && id in r.clients && failing == {}
    ensures var p := IndexOf(r.clients, id);
            Teardown(r, id, failing).registry
              == Registry(r.clients[..p] + r.clients[p + 1..], r.nicknames[..p] + r.nicknames[p + 1..])
    ensures Aligned(Teardown(r, id, failing).registry)
  {
    var p := IndexOf(r.clients, id);
    var clients := RemoveFirst(r.clients, id);
    var mid := Registry(clients, r.nicknames);
    var nickname := r.nicknames[p];
    SendWithoutFailures(mid, LeaveNotice(nickname), None, failing);
    assert IndexOf(r.nicknames, nickname) == p;
    RemoveAtDistinct(r.clients, p);
    RemoveAtDistinct(r.nicknames, p);
  }

  /** In every run whose events are admissible the two lists stay aligned and hold
      joins minus leaves entries. */
  lemma {:induction false} AdmissibleRunAligned(evs: seq<Event>)
    requires AdmissibleRun(evs)
    ensures Aligned(Run(evs))
    ensures |Run(evs).clients| == Joins(evs) - Leaves(evs)
    decreases |evs|
  {
    if |evs| > 0 {
      var front := evs[..|evs| - 1];
      AdmissibleRunAligned(front);
      StepKeepsAligned(Run(front), evs[|evs| - 1]);
    }
  }

  /** In every run whose events are admissible, the nickname at each position is the one
      the connection at that position joined with. */
  lemma {:induction false} AdmissibleRunPairs(evs: seq<Event>)
    requires AdmissibleRun(evs)
    ensures var r := Run(evs);
            forall i :: 0 <= i < |r.clients| ==> i < |r.nicknames| && JoinedAs(evs, r.clients[i]) == Some(r.nicknames[i])
    decreases |evs|
  {
    AdmissibleRunAligned(evs);
    if |evs| > 0 {
      var front := evs[..|evs| - 1];
      var e := evs[|evs| - 1];
      var r := Run(front);
      var r' := Run(evs);
      AdmissibleRunAligned(front);
      AdmissibleRunPairs(front);
      StepKeepsAligned(r, e);
      if e.Join? {
        JoinKeepsPairs(r, r', evs, front);
      } else if e.Crashed? || |e.data| == 0 {
        TeardownShifts(r, r', evs, front, IndexOf(r.clients, e.id));
      }
    }
  }

  /** Appending a new connection and its nickname keeps every pair together and adds
      the new pair. */
  lemma JoinKeepsPairs(r: Registry, r': Registry, evs: seq<Event>, front: seq<Event>)
    requires |evs| > 0 && front == evs[..|evs| - 1] && evs[|evs| - 1].Join? && evs[|evs| - 1].id !in r.clients
    requires r' == Registry(r.clients + [evs[|evs| - 1].id], r.nicknames + [evs[|evs| - 1].reply])
    requires |r.clients| == |r.nicknames|
    requires forall i :: 0 <= i < |r.clients| ==> JoinedAs(front, r.clients[i]) == Some(r.nicknames[i])
    ensures forall i :: 0 <= i < |r'.clients| ==> JoinedAs(evs, r'.clients[i]) == Some(r'.nicknames[i])
  {
    var id := evs[|evs| - 1].id;
    forall i | 0 <= i < |r'.clients| ensures JoinedAs(evs, r'.clients[i]) == Some(r'.nicknames[i]) {
      if i < |r.clients| {
        assert r'.clients[i] == r.clients[i] != id;
      }
    }
  }

  /** Deleting the same position from both lists keeps every remaining pair together. */
  lemma TeardownShifts(r: Registry, r': Registry, evs: seq<Event>, front: seq<Event>, p: nat)
    requires |evs| > 0 && front == evs[..|evs| - 1] && !evs[|evs| - 1].Join?
    requires |r.clients| == |r.nicknames| && p < |r.clients|
    requires r' == Registry(r.clients[..p] + r.clients[p + 1..], r.nicknames[..p] + r.nicknames[p + 1..])
    requires forall i :: 0 <= i < |r.clients| ==> JoinedAs(front, r.clients[i]) == Some(r.nicknames[i])
    ensures forall i :: 0 <= i < |r'.clients| ==> JoinedAs(evs, r'.clients[i]) == Some(r'.nicknames[i])
  {
    forall i | 0 <= i < |r'.clients| ensures JoinedAs(evs, r'.clients[i]) == Some(r'.nicknames[i]) {
      var j := if i < p then i else i + 1;
      assert r'.clients[i] == r.clients[j] && r'.nicknames[i] == r.nicknames[j];
    }
  }

  // ---------------------------------------------------------------------------------
  // Where the alignment breaks, and a sample session

  /** The registry after a sequence of events is the last event applied to the registry
      after the ones before it. */
  lemma RunSnoc(evs: seq<Event>, e: Event)
    ensures Run(evs + [e]) == Step(Run(evs), e).registry
  {
    assert (evs + [e])[..|evs|] == evs;
  }

  /** A failure-free join of a new connection appends to both lists. */
  lemma JoinStep(r: Registry, id: ClientId, reply: string)
    requires id !in r.clients
    ensures Step(r, Join(id, reply, {})).registry == Registry(r.clients + [id], r.nicknames + [reply])
  {
    AdmitAppends(r, id, reply, {});
  }

  /** Two failure-free joins of distinct connections. */
  lemma TwoJoins(a: ClientId, b: ClientId, na: string, nb: string)
    requires a != b
    ensures Run([Join(a, na, {}), Join(b, nb, {})]) == Registry([a, b], [na, nb])
  {
    var e1, e2 := Join(a, na, {}), Join(b, nb, {});
    assert Run([e1]) == Registry([a], [na]) by {
      assert [e1] == [] + [e1];
      JoinRunStep([], e1);
    }
    assert [e1, e2] == [e1] + [e2];
    JoinRunStep([e1], e2);
  }

  /** Three failure-free joins of distinct connections. */
  lemma ThreeJoins(a: ClientId, b: ClientId, c: ClientId, na: string, nb: string, nc: string)
    requires a != b && b != c && a != c
    ensures Run([Join(a, na, {}), Join(b, nb, {}), Join(c, nc, {})]) == Registry([a, b, c], [na, nb, nc])
  {
    var e1, e2, e3 := Join(a, na, {}), Join(b, nb, {}), Join(c, nc, {});
    TwoJoins(a, b, na, nb);
    assert [e1, e2, e3] == [e1, e2] + [e3];
    JoinRunStep([e1, e2], e3);
  }

  /** A failure-free join of a new connection at the end of a run appends to both lists. */
  lemma JoinRunStep(evs: seq<Event>, e: Event)
    requires e.Join? && e.failing == {} && e.id !in Run(evs).clients
    ensures Run(evs + [e]) == Registry(Run(evs).clients + [e.id], Run(evs).nicknames + [e.reply])
  {
    RunSnoc(evs, e);
    JoinStep(Run(evs), e.id, e.reply);
  }

  /** A failed `send` skips a peer and leaves a stale nickname behind: while `3` talks,
      `1` fails and is evicted, and `2`, right behind it, never gets the message; `1`'s
      nickname `a` stays in the list. */
  lemma EvictionSkipsAndKeepsNickname()
    ensures Step(Registry([1, 2, 3], ["a", "b", "c"]), Received(3, "hi", {1}))
         == Outcome(Registry([2, 3], ["a", "b", "c"]), [], [1])
  {
    assert Fanout([1, 2, 3], Some(3), {1}) == Fan([], [1]) by {
      assert Rest([1, 2, 3], 2) == [3];
      assert Fanout([3], Some(3), {1}) == Fan([], []);
    }
    assert RemoveAll([1, 2, 3], [1]) == [2, 3] by {
      assert [1][..0] == [];
      assert RemoveFirst([1, 2, 3], 1) == [2, 3];
    }
  }

  /** ... so that when `3` (joined as `c`) leaves next, its position points at `b`:
      the departure is announced under the wrong nickname and `b` is removed. */
  lemma StaleNicknameMisannounces()
    ensures Step(Registry([2, 3], ["a", "b", "c"]), Crashed(3, {}))
         == Outcome(Registry([2], ["a", "c"]), [Packet(2, LeaveNotice("b"))], [3])
  {
    assert IndexOf([2, 3], 3) == 1;
    assert RemoveFirst([2, 3], 3) == [2];
    assert Fanout([2], None, {}) == Fan([2], []);
    assert IndexOf(["a", "b", "c"], "b") == 1;
    assert RemoveFirst(["a", "b", "c"], "b") == ["a", "c"];
  }

  /** Removal by value misaligns the lists once two connections share a nickname: when
      the second `x` leaves, the first `x` entry is removed, and connection `1` (joined as
      `x`) ends up next to `y`. */
  lemma DuplicateNicknamesMisalign()
    ensures Step(Registry([1, 2, 3], ["x", "y", "x"]), Crashed(3, {})).registry == Registry([1, 2], ["y", "x"])
  {
    assert IndexOf([1, 2, 3], 3) == 2;
    assert RemoveFirst([1, 2, 3], 3) == [1, 2];
    assert Fanout([1, 2], None, {}) == Fan([1, 2], []);
    assert IndexOf(["x", "y", "x"], "x") == 0;
    assert RemoveFirst(["x", "y", "x"], "x") == ["y", "x"];
  }

  /** ... so that `1` leaving is announced as `y`'s departure. */
  lemma DuplicateNicknamesMisannounce()
    ensures Step(Registry([1, 2], ["y", "x"]), Crashed(1, {})).packets == [Packet(2, LeaveNotice("y"))]
  {
    assert IndexOf([1, 2], 1) == 0;
    assert RemoveFirst([1, 2], 1) == [2];
    assert Fanout([2], None, {}) == Fan([2], []);
  }

  /** Two users, first step: `bob` joining is announced to `alice` only. */
  lemma BobJoinsAlice()
    ensures Step(Registry([1], ["alice"]), Join(2, "bob", {}))
              == Outcome(Registry([1, 2], ["alice", "bob"]),
                         [Packet(2, Sentinel), Packet(2, Welcome), Packet(1, JoinNotice("bob"))], [])
  {
    assert [1] + [2] == [1, 2];
    assert Fanout([1, 2], Some(2), {}) == Fan([1], []);
  }

  /** Second step: `alice`'s line reaches `bob` only. */
  lemma AliceTalksToBob()
    ensures Step(Registry([1, 2], ["alice", "bob"]), Received(1, "<alice>: hello", {}))
              == Outcome(Registry([1, 2], ["alice", "bob"]), [Packet(2, "<alice>: hello")], [])
  {
    assert Fanout([1, 2], Some(1), {}) == Fan([2], []);
  }

  /** Third step: `alice` leaving is announced to `bob`, who is then alone. */
  lemma AliceLeavesBob()
    ensures Step(Registry([1, 2], ["alice", "bob"]), Received(1, "", {}))
              == Outcome(Registry([2], ["bob"]), [Packet(2, LeaveNotice("alice"))], [1])
  {
    AliceTeardown();
  }

  /** The clean-up after `alice`'s empty read. */
  lemma AliceTeardown()
    ensures Teardown(Registry([1, 2], ["alice", "bob"]), 1, {})
              == Outcome(Registry([2], ["bob"]), [Packet(2, LeaveNotice("alice"))], [1])
  {
    AliceLeaveNoticeReachesBob();
    assert IndexOf([1, 2], 1) == 0;
    assert RemoveFirst([1, 2], 1) == [2];
    assert IndexOf(["alice", "bob"], "alice") == 0;
    assert RemoveFirst(["alice", "bob"], "alice") == ["bob"];
  }

  /** The leave notice of the third step, sent once `alice` is out of `clients`. */
  lemma AliceLeaveNoticeReachesBob()
    ensures Send(Registry([2], ["alice", "bob"]), LeaveNotice("alice"), None, {})
              == Outcome(Registry([2], ["alice", "bob"]), [Packet(2, LeaveNotice("alice"))], [])
  {
    assert Fanout([2], None, {}) == Fan([2], []);
  }
}
