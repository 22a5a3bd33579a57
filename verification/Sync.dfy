/**
 * Real-time sync: the server persists a winning change, merges it into its
 * last-writer-wins state, and broadcasts it after releasing the lock, so
 * broadcasts of concurrent changes may overtake each other.
 */
module Sync {
  import opened Bytes
  import opened Crdt

  datatype Change = Change(key: Bytes, value: Bytes, timestamp: nat, device: string)

  function AsWrite(change: Change): (write: Write)
  {
    Write(change.key, Entry(change.value, change.timestamp))
  }

  datatype Outcome = Reserved | Stale | PutFailed | Accepted

  datatype Server = Server(crdt: LwwState, storage: map<Bytes, Bytes>)

  /** What the locked section decides; `putOk` is whether the engine's write succeeds. */
  function Decide(server: Server, change: Change, putOk: bool): (outcome: Outcome)
  {
    if IsReserved(change.key) then Reserved
    else if change.key in server.crdt && server.crdt[change.key].timestamp >= change.timestamp then Stale
    else if !putOk then PutFailed
    else Accepted
  }

  function Applied(server: Server, change: Change, putOk: bool): (after: Server)
  {
    if Decide(server, change, putOk) == Accepted then
      Server(LwwMerge(server.crdt, AsWrite(change)), server.storage[change.key := change.value])
    else server
  }

  type ClientId = nat

  /** The engine, as far as sync writes to it. */
  class Engine {
    var data: map<Bytes, Bytes>
  }

  class SyncManager {
    const crdt: CrdtEngine
    var clients: map<ClientId, seq<Change>>  // each client's channel

    ghost function Abs(engine: Engine): (server: Server)
      reads this, crdt, engine
    {
      Server(crdt.state, engine.data)
    }

    constructor ()
      ensures crdt.state == map[] && clients == map[] && fresh(crdt)
    {
      crdt := new CrdtEngine();
      clients := map[];
    }

    method RegisterClient(id: ClientId)
      requires id !in clients
      modifies this
      ensures clients == old(clients)[id := []]
    {
      clients := clients[id := []];
    }

    method RemoveClient(id: ClientId)
      modifies this
      ensures clients == old(clients) - {id}
    {
      clients := clients - {id};
    }

    /** Sends to every client and forgets those whose channel is closed. */
    method Broadcast(change: Change, closed: set<ClientId>)
      modifies this
      ensures clients.Keys == old(clients).Keys - closed
      ensures forall id :: id in clients ==> clients[id] == old(clients)[id] + [change]
    {
      clients := map id | id in clients && id !in closed :: clients[id] + [change];
    }

    /** The locked section: check, persist, merge. */
    method ApplyLocked(change: Change, engine: Engine, putOk: bool) returns (outcome: Outcome)
      modifies crdt, engine
      ensures outcome == Decide(old(Abs(engine)), change, putOk)
      ensures Abs(engine) == Applied(old(Abs(engine)), change, putOk)
    {
      if IsReserved(change.key) {
        return Reserved;
      }
      var existing := crdt.GetState(change.key);
      if existing.Some? && existing.value.timestamp >= change.timestamp {
        return Stale;
      }
      if !putOk {
        return PutFailed;
      }
      engine.data := engine.data[change.key := change.value];
      crdt.Merge(change.key, change.value, change.timestamp);
      return Accepted;
    }

    method ApplyChange(change: Change, engine: Engine, putOk: bool, closed: set<ClientId>) returns (outcome: Outcome)
      modifies this, crdt, engine
      ensures outcome == Decide(old(Abs(engine)), change, putOk)
      ensures Abs(engine) == Applied(old(Abs(engine)), change, putOk)
      ensures outcome != Accepted ==> clients == old(clients)
      ensures outcome == Accepted ==> clients.Keys == old(clients).Keys - closed
      ensures outcome == Accepted ==> forall id :: id in clients ==> clients[id] == old(clients)[id] + [change]
    {
      outcome := ApplyLocked(change, engine, putOk);
      if outcome == Accepted {
        Broadcast(change, closed);
      }
    }

    function GetChangesSince(since: nat): (changes: set<Change>)
      reads this, crdt
      ensures changes == ChangesSince(crdt.state, since)
    {
      ChangesSince(crdt.state, since)
    }
  }

  /** The current entries stamped after `since`. */
  function ChangesSince(state: LwwState, since: nat): (changes: set<Change>)
  {
    set key | key in state && state[key].timestamp > since ::
      Change(key, state[key].value, state[key].timestamp, "server")
  }

  // ---------------------------------------------------------------------------
  // The server and its clients as a system of steps
  // ---------------------------------------------------------------------------

  datatype Client = Client(
    since: nat,          // how many changes had been accepted when it registered
    inbox: set<Change>,  // broadcast to it and not yet merged
    state: LwwState)

  datatype World = World(
    server: Server,
    accepted: seq<Change>,     // in lock order
    unsent: set<Change>,       // accepted, lock released, not yet broadcast
    clients: map<ClientId, Client>)

  datatype Step =
    | Submit(change: Change, putOk: bool)
    | Broadcast(change: Change)
    | Register(id: ClientId)
    | Remove(id: ClientId)
    | Deliver(id: ClientId, change: Change)

  const Start: World := World(Server(map[], map[]), [], {}, map[])

  /** Steps that are not enabled do nothing; deliveries may come in any order. */
  ghost function Next(w: World, step: Step): (next: World)
  {
    match step
    case Submit(change, putOk) =>
      if Decide(w.server, change, putOk) == Accepted then
        w.(server := Applied(w.server, change, putOk), accepted := w.accepted + [change], unsent := w.unsent + {change})
      else w
    case Broadcast(change) =>
      if change in w.unsent then
        w.(unsent := w.unsent - {change},
           clients := map id | id in w.clients :: w.clients[id].(inbox := w.clients[id].inbox + {change}))
      else w
    case Register(id) =>
      if id in w.clients then w else w.(clients := w.clients[id := Client(|w.accepted|, {}, map[])])
    case Remove(id) => w.(clients := w.clients - {id})
    case Deliver(id, change) =>
      if id in w.clients && change in w.clients[id].inbox then
        w.(clients := w.clients[id := Merged(w.clients[id], change)])
      else w
  }

  ghost function After(w: World, steps: seq<Step>): (last: World)
  {
    if steps == [] then w else Next(After(w, steps[..|steps| - 1]), steps[|steps| - 1])
  }

  /** Accepted timestamps strictly increase per key, and the server holds the latest of each. */
  ghost predicate ServerFollows(server: Server, accepted: seq<Change>)
  {
    && (forall i, j :: 0 <= i < j < |accepted| && accepted[i].key == accepted[j].key ==>
          accepted[i].timestamp < accepted[j].timestamp)
    && (forall i :: 0 <= i < |accepted| ==>
          accepted[i].key in server.crdt && accepted[i].timestamp <= server.crdt[accepted[i].key].timestamp)
    && (forall key :: key in server.crdt ==> IsAccepted(accepted, Write(key, server.crdt[key])))
  }

  ghost predicate IsAccepted(accepted: seq<Change>, write: Write)
  {
    exists i :: 0 <= i < |accepted| && AsWrite(accepted[i]) == write
  }

  /** Storage holds the server's value of every key it tracks. */
  ghost predicate StorageAgrees(server: Server)
  {
    forall key :: key in server.crdt ==> key in server.storage && server.storage[key] == server.crdt[key].value
  }

  /** A client has nothing that was not accepted, and everything since it registered is on its way or merged. */
  ghost predicate ClientFollows(c: Client, accepted: seq<Change>, unsent: set<Change>)
  {
    && (forall change :: change in c.inbox ==> change in accepted)
    && (forall key :: key in c.state ==> IsAccepted(accepted, Write(key, c.state[key])))
    && (forall i :: c.since <= i < |accepted| ==>
          accepted[i] in unsent || accepted[i] in c.inbox || HasMerged(c, accepted[i]))
  }

  ghost predicate HasMerged(c: Client, change: Change)
  {
    change.key in c.state && c.state[change.key].timestamp >= change.timestamp
  }

  ghost predicate Invariant(w: World)
  {
    && ServerFollows(w.server, w.accepted)
    && StorageAgrees(w.server)
    && (forall change :: change in w.unsent ==> change in w.accepted)
    && (forall id :: id in w.clients ==> ClientFollows(w.clients[id], w.accepted, w.unsent))
  }

  lemma SubmitKeeps(w: World, change: Change, putOk: bool)
    requires Invariant(w)
    ensures Invariant(Next(w, Submit(change, putOk)))
  {
    var next := Next(w, Submit(change, putOk));
    if next != w {
      AcceptKeepsServer(w.server, w.accepted, change, putOk);
      forall id | id in next.clients ensures ClientFollows(next.clients[id], next.accepted, next.unsent) {
        AcceptKeepsClient(w.clients[id], w.accepted, w.unsent, change);
      }
    }
  }

  lemma AcceptKeepsServer(server: Server, accepted: seq<Change>, change: Change, putOk: bool)
    requires ServerFollows(server, accepted) && StorageAgrees(server) && Decide(server, change, putOk) == Accepted
    ensures ServerFollows(Applied(server, change, putOk), accepted + [change])
    ensures StorageAgrees(Applied(server, change, putOk))
  {
    var after, longer := Applied(server, change, putOk), accepted + [change];
    forall key | key in after.crdt ensures IsAccepted(longer, Write(key, after.crdt[key])) {
      if key == change.key {
        assert AsWrite(longer[|accepted|]) == Write(key, after.crdt[key]);
      } else {
        StillAccepted(accepted, change, Write(key, server.crdt[key]));
      }
    }
  }

  lemma StillAccepted(accepted: seq<Change>, change: Change, write: Write)
    requires IsAccepted(accepted, write)
    ensures IsAccepted(accepted + [change], write)
  {
    var i :| 0 <= i < |accepted| && AsWrite(accepted[i]) == write;
    assert AsWrite((accepted + [change])[i]) == write;
  }

  lemma AcceptKeepsClient(c: Client, accepted: seq<Change>, unsent: set<Change>, change: Change)
    requires ClientFollows(c, accepted, unsent)
    ensures ClientFollows(c, accepted + [change], unsent + {change})
  {
    forall key | key in c.state ensures IsAccepted(accepted + [change], Write(key, c.state[key])) {
      StillAccepted(accepted, change, Write(key, c.state[key]));
    }
  }

  ghost function Merged(c: Client, change: Change): (after: Client)
  {
    c.(inbox := c.inbox - {change}, state := LwwMerge(c.state, AsWrite(change)))
  }

  lemma MergeKeepsClient(c: Client, accepted: seq<Change>, unsent: set<Change>, change: Change)
    requires ClientFollows(c, accepted, unsent) && change in c.inbox
    ensures ClientFollows(Merged(c, change), accepted, unsent)
  {
    var after := Merged(c, change);
    assert change in accepted;
    var i :| 0 <= i < |accepted| && accepted[i] == change;
    assert AsWrite(accepted[i]) == AsWrite(change);
    forall key | key in after.state ensures IsAccepted(accepted, Write(key, after.state[key])) {
      if !(key in c.state && after.state[key] == c.state[key]) {
        assert Write(key, after.state[key]) == AsWrite(change);
      }
    }
    forall j | c.since <= j < |accepted|
      ensures accepted[j] in unsent || accepted[j] in after.inbox || HasMerged(after, accepted[j])
    {
      MergeLearns(c, change, accepted[j]);
    }
  }

  lemma MergeLearns(c: Client, change: Change, other: Change)
    ensures HasMerged(Merged(c, change), change)
    ensures HasMerged(c, other) ==> HasMerged(Merged(c, change), other)
  {
  }

  lemma BroadcastKeepsClient(c: Client, accepted: seq<Change>, unsent: set<Change>, change: Change)
    requires ClientFollows(c, accepted, unsent) && change in accepted
    ensures ClientFollows(c.(inbox := c.inbox + {change}), accepted, unsent - {change})
  {
  }

  lemma BroadcastKeeps(w: World, change: Change)
    requires Invariant(w)
    ensures Invariant(Next(w, Step.Broadcast(change)))
  {
    if change in w.unsent {
      forall id | id in w.clients
        ensures ClientFollows(w.clients[id].(inbox := w.clients[id].inbox + {change}), w.accepted, w.unsent - {change})
      {
        BroadcastKeepsClient(w.clients[id], w.accepted, w.unsent, change);
      }
    }
  }

  lemma DeliverKeeps(w: World, id: ClientId, change: Change)
    requires Invariant(w)
    ensures Invariant(Next(w, Deliver(id, change)))
  {
    if id in w.clients && change in w.clients[id].inbox {
      MergeKeepsClient(w.clients[id], w.accepted, w.unsent, change);
    }
  }

  lemma RegistrationKeeps(w: World, id: ClientId)
    requires Invariant(w)
    ensures Invariant(Next(w, Register(id))) && Invariant(Next(w, Remove(id)))
  {
    assert ClientFollows(Client(|w.accepted|, {}, map[]), w.accepted, w.unsent);
    var joined, left := Next(w, Register(id)), Next(w, Remove(id));
    forall other | other in joined.clients ensures ClientFollows(joined.clients[other], w.accepted, w.unsent) {
      assert other in w.clients ==> ClientFollows(w.clients[other], w.accepted, w.unsent);
    }
    forall other | other in left.clients ensures ClientFollows(left.clients[other], w.accepted, w.unsent) {
      assert other in w.clients;
    }
  }

  lemma InvariantStep(w: World, step: Step)
    requires Invariant(w)
    ensures Invariant(Next(w, step))
  {
    match step
    case Submit(change, putOk) => SubmitKeeps(w, change, putOk);
    case Broadcast(change) => BroadcastKeeps(w, change);
    case Register(id) => RegistrationKeeps(w, id);
    case Remove(id) => RegistrationKeeps(w, id);
    case Deliver(id, change) => DeliverKeeps(w, id, change);
  }

  /** Storage equals the server's state, and accepted timestamps increase, on every interleaving. */
  lemma {:induction false} InvariantAlways(steps: seq<Step>)
    ensures Invariant(After(Start, steps))
  {
    if steps != [] {
      InvariantAlways(steps[..|steps| - 1]);
      InvariantStep(After(Start, steps[..|steps| - 1]), steps[|steps| - 1]);
    }
  }

  /** Two accepted writes to a key with the same timestamp are the same write. */
  lemma AcceptedUnique(server: Server, accepted: seq<Change>, a: Write, b: Write)
    requires ServerFollows(server, accepted) && IsAccepted(accepted, a) && IsAccepted(accepted, b)
    requires a.key == b.key && a.entry.timestamp == b.entry.timestamp
    ensures a == b
  {
    var i :| 0 <= i < |accepted| && AsWrite(accepted[i]) == a;
    var j :| 0 <= j < |accepted| && AsWrite(accepted[j]) == b;
  }

  /** What a client holds for a key never exceeds the server's entry, and is that entry on a tie. */
  ghost predicate NotAhead(state: LwwState, server: LwwState)
  {
    forall key :: key in state ==>
      && key in server && state[key].timestamp <= server[key].timestamp
      && (state[key].timestamp == server[key].timestamp ==> state[key] == server[key])
  }

  lemma ClientsNeverAhead(w: World, id: ClientId)
    requires Invariant(w) && id in w.clients
    ensures NotAhead(w.clients[id].state, w.server.crdt)
  {
    var state, server := w.clients[id].state, w.server.crdt;
    forall key | key in state
      ensures key in server && state[key].timestamp <= server[key].timestamp
      ensures state[key].timestamp == server[key].timestamp ==> state[key] == server[key]
    {
      assert IsAccepted(w.accepted, Write(key, state[key]));
      if state[key].timestamp == server[key].timestamp {
        AcceptedUnique(w.server, w.accepted, Write(key, state[key]), Write(key, server[key]));
      }
    }
  }

  /**
   * Sync convergence: on every interleaving of submissions, failed writes,
   * broadcasts, registrations and deliveries in any order, clients are never
   * ahead of the server; and once nothing is in flight to a client, it agrees
   * with the server on every key accepted since it registered.
   */
  lemma SyncConverges(steps: seq<Step>, id: ClientId)
    requires id in After(Start, steps).clients
    ensures var w := After(Start, steps);
            var c := w.clients[id];
            && StorageAgrees(w.server)
            && NotAhead(c.state, w.server.crdt)
            && (w.unsent == {} && c.inbox == {} ==>
                  forall i :: c.since <= i < |w.accepted| ==>
                    var key := w.accepted[i].key;
                    key in c.state && c.state[key] == w.server.crdt[key])
  {
    InvariantAlways(steps);
    var w := After(Start, steps);
    var c := w.clients[id];
    ClientsNeverAhead(w, id);
    if w.unsent == {} && c.inbox == {} {
      forall i | c.since <= i < |w.accepted|
        ensures w.accepted[i].key in c.state && c.state[w.accepted[i].key] == w.server.crdt[w.accepted[i].key]
      {
        CaughtUp(w, id, i);
      }
    }
  }

  lemma CaughtUp(w: World, id: ClientId, i: nat)
    requires Invariant(w) && id in w.clients && w.unsent == {} && w.clients[id].inbox == {}
    requires w.clients[id].since <= i < |w.accepted|
    ensures var key := w.accepted[i].key;
            key in w.clients[id].state && w.clients[id].state[key] == w.server.crdt[key]
  {
    var c, key := w.clients[id], w.accepted[i].key;
    ClientsNeverAhead(w, id);
    assert IsAccepted(w.accepted, Write(key, w.server.crdt[key]));
    var j :| 0 <= j < |w.accepted| && AsWrite(w.accepted[j]) == Write(key, w.server.crdt[key]);
    assert i <= j;
    assert HasMerged(c, w.accepted[j]);
  }

  // ---------------------------------------------------------------------------
  // Catching up from a timestamp
  // ---------------------------------------------------------------------------

  /** A client's state after merging a set of changes, described key by key. */
  ghost predicate MergedInto(state: LwwState, changes: set<Change>, after: LwwState)
  {
    exists order: seq<Change> ::
      (forall change :: change in order <==> change in changes) && after == MergeInOrder(state, order)
  }

  ghost function MergeInOrder(state: LwwState, order: seq<Change>): (after: LwwState)
  {
    if order == [] then state
    else LwwMerge(MergeInOrder(state, order[..|order| - 1]), AsWrite(order[|order| - 1]))
  }

  lemma {:induction false} MergeAtKey(state: LwwState, server: LwwState, order: seq<Change>, key: Bytes)
    requires NotAhead(state, server) && key in server
    requires forall i :: 0 <= i < |order| ==> order[i].key in server && AsWrite(order[i]).entry == server[order[i].key]
    ensures NotAhead(MergeInOrder(state, order), server)
    ensures key in MergeInOrder(state, order) && MergeInOrder(state, order)[key] == server[key]
            <==> (key in state && state[key] == server[key]) || exists i :: 0 <= i < |order| && order[i].key == key
  {
    if order != [] {
      var init := order[..|order| - 1];
      MergeAtKey(state, server, init, key);
      assert order == init + [order[|order| - 1]];
      assert (exists i :: 0 <= i < |order| && order[i].key == key)
        <==> (order[|order| - 1].key == key || exists i :: 0 <= i < |init| && init[i].key == key);
    }
  }

  /**
   * Merging the changes since a timestamp, in any order, brings a client level
   * with the server at a key exactly when the server's entry is stamped later or
   * the client already had it: an entry stamped at or before `since` is not resent.
   */
  lemma CatchUpIff(state: LwwState, server: LwwState, since: nat, after: LwwState, key: Bytes)
    requires NotAhead(state, server) && key in server
    requires MergedInto(state, ChangesSince(server, since), after)
    ensures key in after && after[key] == server[key]
            <==> server[key].timestamp > since || (key in state && state[key] == server[key])
  {
    var changes := ChangesSince(server, since);
    var order: seq<Change> :|
      (forall change :: change in order <==> change in changes) && after == MergeInOrder(state, order);
    forall i | 0 <= i < |order| ensures order[i].key in server && AsWrite(order[i]).entry == server[order[i].key] {
      assert order[i] in changes;
    }
    MergeAtKey(state, server, order, key);
    if server[key].timestamp > since {
      assert Change(key, server[key].value, server[key].timestamp, "server") in order;
    }
    if i :| 0 <= i < |order| && order[i].key == key {
      assert order[i] in changes;
    }
  }

  /** A client that acknowledged 5 never gets what another device changed at 3 and synced only later. */
  lemma EarlierChangeIsNotResent(after: LwwState)
    requires MergedInto(map[[1] := Entry([7], 5)], ChangesSince(map[[1] := Entry([7], 5), [2] := Entry([8], 3)], 5), after)
    ensures !([2] in after && after[[2]] == Entry([8], 3))
  {
    var state: LwwState := map[[1] := Entry([7], 5)];
    var server: LwwState := map[[1] := Entry([7], 5), [2] := Entry([8], 3)];
    CatchUpIff(state, server, 5, after, [2]);
  }
}
