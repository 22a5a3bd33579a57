/**
 * REST transactions: a locked map of open transactions, bounded in number,
 * bound to their owner, and dropped when their lifetime is over. Every method
 * body is one critical section, so a run is a sequence of calls.
 */
module Transactions {
  import opened Options
  import opened Bytes

  type Uuid = nat
  type Instant = nat

  datatype Owner = Token(id: string) | Anonymous

  // ---------------------------------------------------------------------------
  // A transaction's write buffer
  // ---------------------------------------------------------------------------

  datatype Target = Target(family: string, key: Bytes)

  datatype Change = Put(target: Target, value: Bytes) | Delete(target: Target)

  /** The buffered write per key: a value, or `None` for a deletion. */
  type Writes = map<Target, Option<Bytes>>

  function Stage(writes: Writes, change: Change): (staged: Writes)
  {
    writes[change.target := if change.Put? then Some(change.value) else None]
  }

  /** The buffer after staging the changes in order. */
  function StageAll(changes: seq<Change>): (writes: Writes)
  {
    if changes == [] then map[] else Stage(StageAll(changes[..|changes| - 1]), changes[|changes| - 1])
  }

  /** The buffer after staging more changes. */
  function StageMore(writes: Writes, changes: seq<Change>): (staged: Writes)
  {
    if changes == [] then writes else Stage(StageMore(writes, changes[..|changes| - 1]), changes[|changes| - 1])
  }

  lemma {:induction false} StageConcat(changes: seq<Change>, more: seq<Change>)
    ensures StageAll(changes + more) == StageMore(StageAll(changes), more)
  {
    if more == [] {
      assert changes + more == changes;
    } else {
      var init, last := more[..|more| - 1], more[|more| - 1];
      StageConcat(changes, init);
      assert (changes + more)[..|changes + more| - 1] == changes + init;
    }
  }

  /** The buffer holds, per key, what the last change to it said ... */
  lemma {:induction false} StagedIsLastChange(changes: seq<Change>, i: nat)
    requires i < |changes| && forall j :: i < j < |changes| ==> changes[j].target != changes[i].target
    ensures changes[i].target in StageAll(changes)
    ensures StageAll(changes)[changes[i].target] == if changes[i].Put? then Some(changes[i].value) else None
  {
    if i < |changes| - 1 {
      StagedIsLastChange(changes[..|changes| - 1], i);
      assert changes[|changes| - 1].target != changes[i].target;
    }
  }

  /** ... and nothing else. */
  lemma {:induction false} NothingElseStaged(changes: seq<Change>, target: Target)
    requires forall i :: 0 <= i < |changes| ==> changes[i].target != target
    ensures target !in StageAll(changes)
  {
    if changes != [] {
      NothingElseStaged(changes[..|changes| - 1], target);
    }
  }

  // ---------------------------------------------------------------------------
  // What a run did
  // ---------------------------------------------------------------------------

  /** The successful calls of a run, in lock order. */
  datatype Event =
    | Begun(id: Uuid, owner: Owner, at: Instant)
    | Changed(id: Uuid, owner: Owner, at: Instant, changes: seq<Change>)
    | Taken(id: Uuid, owner: Owner, at: Instant, writes: Writes)

  /** A transaction as the events describe it. */
  datatype Session = Session(owner: Owner, begunAt: Instant, changes: seq<Change>)

  /** The transaction last begun under an id, unless it has been taken. */
  ghost function SessionOf(log: seq<Event>, id: Uuid): (session: Option<Session>)
  {
    if log == [] then None
    else
      var before, last := SessionOf(log[..|log| - 1], id), log[|log| - 1];
      if last.id != id then before
      else
        match last
        case Begun(_, owner, at) => Some(Session(owner, at, []))
        case Changed(_, _, _, changes) =>
          if before.None? then None else Some(before.value.(changes := before.value.changes + changes))
        case Taken(_, _, _, _) => None
  }

  /** `now.duration_since(created) < lifetime`, saturating. */
  predicate Alive(created: Instant, now: Instant, lifetime: nat)
  {
    (if created <= now then now - created else 0) < lifetime
  }

  /** An event was allowed by the run before it. */
  ghost predicate Allowed(before: seq<Event>, event: Event, lifetime: nat)
  {
    var session := SessionOf(before, event.id);
    match event
    case Begun(_, _, at) => session.Some? ==> !Alive(session.value.begunAt, at, lifetime)
    case Changed(_, owner, at, _) =>
      session.Some? && session.value.owner == owner && Alive(session.value.begunAt, at, lifetime)
    case Taken(_, owner, at, writes) =>
      && session.Some? && session.value.owner == owner && Alive(session.value.begunAt, at, lifetime)
      && writes == StageAll(session.value.changes)
  }

  ghost predicate AllAllowed(log: seq<Event>, lifetime: nat)
  {
    forall i :: 0 <= i < |log| ==> Allowed(log[..i], log[i], lifetime)
  }

  lemma AllowOneMore(log: seq<Event>, event: Event, lifetime: nat)
    requires AllAllowed(log, lifetime) && Allowed(log, event, lifetime)
    ensures AllAllowed(log + [event], lifetime)
  {
    forall i | 0 <= i < |log + [event]| ensures Allowed((log + [event])[..i], (log + [event])[i], lifetime) {
      assert (log + [event])[..i] == log[..i];
      assert i == |log| ==> log[..i] == log;
    }
  }

  lemma SessionAppend(log: seq<Event>, event: Event, id: Uuid)
    ensures event.id != id ==> SessionOf(log + [event], id) == SessionOf(log, id)
    ensures event.id == id && event.Begun? ==>
              SessionOf(log + [event], id) == Some(Session(event.owner, event.at, []))
    ensures event.id == id && event.Taken? ==> SessionOf(log + [event], id) == None
    ensures event.id == id && event.Changed? && SessionOf(log, id).Some? ==>
              SessionOf(log + [event], id)
              == Some(SessionOf(log, id).value.(changes := SessionOf(log, id).value.changes + event.changes))
  {
    assert (log + [event])[..|log|] == log;
  }

  // ---------------------------------------------------------------------------
  // Consequences for every run
  // ---------------------------------------------------------------------------

  /** Between `from` and the end, every event under `id` leaves no session open or begins one. */
  lemma {:induction false} NoSessionWithoutBegin(log: seq<Event>, id: Uuid, from: nat)
    requires from <= |log| && SessionOf(log[..from], id) == None
    requires forall k :: from <= k < |log| && log[k].id == id ==> !log[k].Begun?
    ensures SessionOf(log, id) == None
  {
    if from == |log| {
      assert log[..from] == log;
    } else {
      var init := log[..|log| - 1];
      assert init[..from] == log[..from];
      NoSessionWithoutBegin(init, id, from);
    }
  }

  /** A transaction is taken at most once: before an id is taken again it is begun again. */
  lemma TakenAtMostOnce(log: seq<Event>, lifetime: nat, i: nat, j: nat)
    requires AllAllowed(log, lifetime) && i < j < |log|
    requires log[i].Taken? && log[j].Taken? && log[i].id == log[j].id
    ensures exists k :: i < k < j && log[k].Begun? && log[k].id == log[j].id
  {
    var id := log[i].id;
    assert Allowed(log[..j], log[j], lifetime);
    if forall k :: i < k < j && log[k].id == id ==> !log[k].Begun? {
      SessionAppend(log[..i], log[i], id);
      assert log[..i] + [log[i]] == log[..i + 1];
      assert log[..j][..i + 1] == log[..i + 1];
      NoSessionWithoutBegin(log[..j], id, i + 1);
      assert false;
    }
  }

  /** Where a session comes from: a begin by its owner, then exactly its changes, in order. */
  ghost predicate Since(log: seq<Event>, id: Uuid, begin: nat, session: Session)
  {
    && begin < |log| && log[begin] == Begun(id, session.owner, session.begunAt)
    && (forall k :: begin < k < |log| && log[k].id == id ==> log[k].Changed?)
    && session.changes == ChangesFrom(log, id, begin + 1)
  }

  /** The changes recorded under an id from a position on. */
  ghost function ChangesFrom(log: seq<Event>, id: Uuid, from: nat): (changes: seq<Change>)
  {
    if |log| <= from then []
    else
      var last := log[|log| - 1];
      ChangesFrom(log[..|log| - 1], id, from) + if last.id == id && last.Changed? then last.changes else []
  }

  lemma {:induction false} SessionHasOrigin(log: seq<Event>, id: Uuid) returns (begin: nat)
    requires SessionOf(log, id).Some?
    ensures Since(log, id, begin, SessionOf(log, id).value)
  {
    var n := |log| - 1;
    var init, last := log[..n], log[n];
    if last.id == id && last.Begun? {
      begin := n;
    } else {
      begin := SessionHasOrigin(init, id);
      assert init[begin] == log[begin];
      assert forall k :: begin < k < n ==> init[k] == log[k];
    }
  }

  /**
   * What a take returns: the transaction was begun by the same owner less than a
   * lifetime ago, and holds exactly the changes made to it since, in lock order.
   */
  lemma TakenIsWhatWasStaged(log: seq<Event>, lifetime: nat, i: nat) returns (begin: nat)
    requires AllAllowed(log, lifetime) && i < |log| && log[i].Taken?
    ensures begin < i && log[begin].Begun? && log[begin].id == log[i].id && log[begin].owner == log[i].owner
    ensures Alive(log[begin].at, log[i].at, lifetime)
    ensures log[i].writes == StageAll(ChangesFrom(log[..i], log[i].id, begin + 1))
    ensures forall k :: begin < k < i && log[k].id == log[i].id ==> log[k].Changed? && log[k].owner == log[i].owner
  {
    var before := log[..i];
    assert Allowed(before, log[i], lifetime);
    begin := SessionHasOrigin(before, log[i].id);
    forall k | begin < k < i && log[k].id == log[i].id ensures log[k].Changed? && log[k].owner == log[i].owner {
      assert before[k] == log[k];
      assert Allowed(log[..k], log[k], lifetime);
      SessionStable(log, log[i].id, begin, k);
    }
  }

  /** With only changes after it, the begin still names the session's owner. */
  lemma {:induction false} SessionStable(log: seq<Event>, id: Uuid, begin: nat, k: nat)
    requires begin < k <= |log| && log[begin].Begun? && log[begin].id == id
    requires forall m :: begin < m < k && log[m].id == id ==> log[m].Changed?
    ensures SessionOf(log[..k], id).Some? && SessionOf(log[..k], id).value.owner == log[begin].owner
  {
    assert log[..k][..k - 1] == log[..k - 1];
    if k > begin + 1 {
      SessionStable(log, id, begin, k - 1);
    }
  }

  // ---------------------------------------------------------------------------
  // The manager
  // ---------------------------------------------------------------------------

  datatype ActiveTransaction = ActiveTransaction(owner: Owner, createdAt: Instant, writes: Writes)

  datatype Error = NotFound | Capacity | Identifier

  datatype Result<+T> = Ok(value: T) | Err(error: Error)

  type Entries = map<Uuid, ActiveTransaction>

  function OwnedBy(entries: Entries, owner: Owner): (ids: set<Uuid>)
  {
    set id | id in entries && entries[id].owner == owner
  }

  function Unexpired(entries: Entries, now: Instant, lifetime: nat): (kept: Entries)
  {
    map id | id in entries && Alive(entries[id].createdAt, now, lifetime) :: entries[id]
  }

  lemma SubsetIsSmaller<T>(a: set<T>, b: set<T>)
    requires a <= b
    ensures |a| <= |b|
  {
    assert b == a + (b - a);
  }

  /** An entry is the open session of its id; an open session without entry has expired. */
  ghost predicate MatchesIn(entries: Entries, log: seq<Event>, id: Uuid, clock: Instant, lifetime: nat)
  {
    var session := SessionOf(log, id);
    if id in entries then
      && session.Some? && session.value.owner == entries[id].owner
      && session.value.begunAt == entries[id].createdAt
      && entries[id].writes == StageAll(session.value.changes)
    else session.Some? ==> !Alive(session.value.begunAt, clock, lifetime)
  }

  /** Every draw collided with an open transaction. */
  ghost predicate NoneFree(draws: seq<Option<Uuid>>, entries: Entries)
  {
    forall draw :: draw in draws ==> draw.Some? && draw.value in entries
  }

  /** The caps hold. */
  ghost predicate Bounded(entries: Entries, maxPerOwner: nat, maxTotal: nat)
  {
    |entries.Keys| <= maxTotal && forall owner :: |OwnedBy(entries, owner)| <= maxPerOwner
  }

  ghost predicate AllMatch(entries: Entries, log: seq<Event>, clock: Instant, lifetime: nat)
  {
    forall id :: MatchesIn(entries, log, id, clock, lifetime)
  }

  lemma FewerStaysBounded(entries: Entries, fewer: Entries, maxPerOwner: nat, maxTotal: nat)
    requires Bounded(entries, maxPerOwner, maxTotal)
    requires forall id :: id in fewer ==> id in entries && entries[id].owner == fewer[id].owner
    ensures Bounded(fewer, maxPerOwner, maxTotal)
  {
    SubsetIsSmaller(fewer.Keys, entries.Keys);
    forall owner ensures |OwnedBy(fewer, owner)| <= maxPerOwner {
      SubsetIsSmaller(OwnedBy(fewer, owner), OwnedBy(entries, owner));
    }
  }

  lemma OwnedAfterOpening(entries: Entries, id: Uuid, entry: ActiveTransaction, owner: Owner)
    requires id !in entries
    ensures |OwnedBy(entries[id := entry], owner)| == |OwnedBy(entries, owner)| + if owner == entry.owner then 1 else 0
  {
    var owned, more := OwnedBy(entries, owner), OwnedBy(entries[id := entry], owner);
    if owner == entry.owner {
      assert more == owned + {id};
    } else {
      assert more == owned;
    }
  }

  lemma OpeningStaysBounded(entries: Entries, id: Uuid, entry: ActiveTransaction, maxPerOwner: nat, maxTotal: nat)
    requires Bounded(entries, maxPerOwner, maxTotal) && id !in entries
    requires |entries.Keys| < maxTotal && |OwnedBy(entries, entry.owner)| < maxPerOwner
    ensures Bounded(entries[id := entry], maxPerOwner, maxTotal)
  {
    var more := entries[id := entry];
    assert more.Keys == entries.Keys + {id};
    forall owner ensures |OwnedBy(more, owner)| <= maxPerOwner {
      OwnedAfterOpening(entries, id, entry, owner);
    }
  }

  /** Expired entries may be forgotten. */
  lemma PruneKeepsMatch(entries: Entries, log: seq<Event>, clock: Instant, now: Instant, lifetime: nat)
    requires AllMatch(entries, log, clock, lifetime) && clock <= now
    ensures AllMatch(Unexpired(entries, now, lifetime), log, now, lifetime)
  {
    forall id ensures MatchesIn(Unexpired(entries, now, lifetime), log, id, now, lifetime) {
      assert MatchesIn(entries, log, id, clock, lifetime);
    }
  }

  /** A free id may be begun: its last transaction, if untaken, has expired. */
  lemma BeginKeepsMatch(entries: Entries, log: seq<Event>, clock: Instant, lifetime: nat, id: Uuid, owner: Owner)
    requires AllMatch(entries, log, clock, lifetime) && AllAllowed(log, lifetime) && id !in entries
    ensures AllAllowed(log + [Begun(id, owner, clock)], lifetime)
    ensures AllMatch(entries[id := ActiveTransaction(owner, clock, map[])],
                     log + [Begun(id, owner, clock)], clock, lifetime)
  {
    var event := Begun(id, owner, clock);
    assert MatchesIn(entries, log, id, clock, lifetime);
    AllowOneMore(log, event, lifetime);
    var entries' := entries[id := ActiveTransaction(owner, clock, map[])];
    forall other ensures MatchesIn(entries', log + [event], other, clock, lifetime) {
      assert MatchesIn(entries, log, other, clock, lifetime);
      SessionAppend(log, event, other);
    }
  }

  /** What the map must hold for a change or a take to succeed. */
  predicate Accessible(entries: Entries, id: Uuid, owner: Owner, now: Instant, lifetime: nat)
  {
    id in entries && entries[id].owner == owner && Alive(entries[id].createdAt, now, lifetime)
  }

  lemma ChangeKeepsMatch(entries: Entries, log: seq<Event>, clock: Instant, lifetime: nat,
                         id: Uuid, owner: Owner, changes: seq<Change>)
    requires AllMatch(entries, log, clock, lifetime) && AllAllowed(log, lifetime)
    requires Accessible(entries, id, owner, clock, lifetime)
    ensures AllAllowed(log + [Changed(id, owner, clock, changes)], lifetime)
    ensures AllMatch(entries[id := entries[id].(writes := StageMore(entries[id].writes, changes))],
                     log + [Changed(id, owner, clock, changes)], clock, lifetime)
  {
    var event := Changed(id, owner, clock, changes);
    assert MatchesIn(entries, log, id, clock, lifetime);
    AllowOneMore(log, event, lifetime);
    StageConcat(SessionOf(log, id).value.changes, changes);
    var entries' := entries[id := entries[id].(writes := StageMore(entries[id].writes, changes))];
    forall other ensures MatchesIn(entries', log + [event], other, clock, lifetime) {
      assert MatchesIn(entries, log, other, clock, lifetime);
      SessionAppend(log, event, other);
    }
  }

  lemma TakeKeepsMatch(entries: Entries, log: seq<Event>, clock: Instant, lifetime: nat, id: Uuid, owner: Owner)
    requires AllMatch(entries, log, clock, lifetime) && AllAllowed(log, lifetime)
    requires Accessible(entries, id, owner, clock, lifetime)
    ensures AllAllowed(log + [Taken(id, owner, clock, entries[id].writes)], lifetime)
    ensures AllMatch(entries - {id}, log + [Taken(id, owner, clock, entries[id].writes)], clock, lifetime)
  {
    var event := Taken(id, owner, clock, entries[id].writes);
    assert MatchesIn(entries, log, id, clock, lifetime);
    AllowOneMore(log, event, lifetime);
    forall other ensures MatchesIn(entries - {id}, log + [event], other, clock, lifetime) {
      assert MatchesIn(entries, log, other, clock, lifetime);
      SessionAppend(log, event, other);
    }
  }

  /** The shared table of open transactions. `log` and `clock` are the run so far. */
  class TransactionManager {
    var transactions: Entries
    const lifetime: nat
    const maxPerOwner: nat
    const maxTotal: nat
    ghost var log: seq<Event>
    ghost var clock: Instant

    ghost predicate Valid()
      reads this
    {
      && Bounded(transactions, maxPerOwner, maxTotal)
      && AllAllowed(log, lifetime) && AllMatch(transactions, log, clock, lifetime)
    }

    constructor (lifetime: nat, maxPerOwner: nat, maxTotal: nat, now: Instant)
      ensures Valid() && transactions == map[] && log == [] && clock == now
      ensures this.lifetime == lifetime && this.maxPerOwner == maxPerOwner && this.maxTotal == maxTotal
    {
      transactions, log, clock := map[], [], now;
      this.lifetime, this.maxPerOwner, this.maxTotal := lifetime, maxPerOwner, maxTotal;
    }

    /** Drops the entries whose lifetime is over. */
    method Prune(now: Instant)
      requires Valid() && clock <= now
      modifies this`transactions, this`clock
      ensures Valid() && clock == now
      ensures transactions == Unexpired(old(transactions), now, lifetime)
    {
      PruneKeepsMatch(transactions, log, clock, now, lifetime);
      FewerStaysBounded(transactions, Unexpired(transactions, now, lifetime), maxPerOwner, maxTotal);
      transactions := Unexpired(transactions, now, lifetime);
      clock := now;
    }

    /** `draws` are the random identifiers; `None` is the system failing to give one. */
    method Begin(owner: Owner, now: Instant, draws: seq<Option<Uuid>>) returns (result: Result<Uuid>)
      requires Valid() && clock <= now && |draws| >= 8
      modifies this
      ensures Valid() && clock == now
      ensures var open := Unexpired(old(transactions), now, lifetime);
              var full := lifetime == 0 || |open.Keys| >= maxTotal || |OwnedBy(open, owner)| >= maxPerOwner;
              if result.Ok? then
                && !full && result.value !in open
                && transactions == open[result.value := ActiveTransaction(owner, now, map[])]
                && log == old(log) + [Begun(result.value, owner, now)]
              else
                && transactions == open && log == old(log)
                && result.error == (if full then Capacity else Identifier)
      ensures result == Err(Identifier) ==>
                exists i :: 0 <= i <= 8 && NoneFree(draws[..i], Unexpired(old(transactions), now, lifetime))
                            && (i == 8 || draws[i] == None)
    {
      Prune(now);
      if lifetime == 0 || |transactions.Keys| >= maxTotal || |OwnedBy(transactions, owner)| >= maxPerOwner {
        return Err(Capacity);
      }
      for i := 0 to 8
        invariant transactions == Unexpired(old(transactions), now, lifetime) && log == old(log)
        invariant Valid() && clock == now && NoneFree(draws[..i], transactions)
      {
        if draws[i].None? {
          return Err(Identifier);
        }
        var id := draws[i].value;
        if id !in transactions {
          BeginKeepsMatch(transactions, log, clock, lifetime, id, owner);
          OpeningStaysBounded(transactions, id, ActiveTransaction(owner, now, map[]), maxPerOwner, maxTotal);
          transactions := transactions[id := ActiveTransaction(owner, now, map[])];
          log := log + [Begun(id, owner, now)];
          return Ok(id);
        }
        assert draws[..i + 1] == draws[..i] + [draws[i]];
      }
      return Err(Identifier);
    }

    /** `id` is the parsed identifier, if it parses; `changes` is whatever the caller's closure stages. */
    method WithTransaction(id: Option<Uuid>, owner: Owner, now: Instant, changes: seq<Change>) returns (result: Result<()>)
      requires Valid() && clock <= now
      modifies this
      ensures Valid() && clock == now
      ensures var open := Unexpired(old(transactions), now, lifetime);
              if id.Some? && Accessible(old(transactions), id.value, owner, now, lifetime) then
                && result == Ok(())
                && transactions == open[id.value := open[id.value].(writes := StageMore(open[id.value].writes, changes))]
                && log == old(log) + [Changed(id.value, owner, now, changes)]
              else result == Err(NotFound) && transactions == open && log == old(log)
    {
      Prune(now);
      if id.None? || id.value !in transactions || transactions[id.value].owner != owner {
        return Err(NotFound);
      }
      var entry := transactions[id.value];
      var changed := transactions[id.value := entry.(writes := StageMore(entry.writes, changes))];
      ChangeKeepsMatch(transactions, log, clock, lifetime, id.value, owner, changes);
      FewerStaysBounded(transactions, changed, maxPerOwner, maxTotal);
      transactions := changed;
      log := log + [Changed(id.value, owner, now, changes)];
      return Ok(());
    }

    /** Removes the transaction and hands it to the caller, to commit or to roll back. */
    method Take(id: Option<Uuid>, owner: Owner, now: Instant) returns (result: Result<Writes>)
      requires Valid() && clock <= now
      modifies this
      ensures Valid() && clock == now
      ensures var open := Unexpired(old(transactions), now, lifetime);
              if id.Some? && Accessible(old(transactions), id.value, owner, now, lifetime) then
                && result == Ok(open[id.value].writes)
                && transactions == open - {id.value}
                && log == old(log) + [Taken(id.value, owner, now, open[id.value].writes)]
              else result == Err(NotFound) && transactions == open && log == old(log)
    {
      Prune(now);
      if id.None? || id.value !in transactions || transactions[id.value].owner != owner {
        return Err(NotFound);
      }
      var writes := transactions[id.value].writes;
      TakeKeepsMatch(transactions, log, clock, lifetime, id.value, owner);
      FewerStaysBounded(transactions, transactions - {id.value}, maxPerOwner, maxTotal);
      transactions := transactions - {id.value};
      log := log + [Taken(id.value, owner, now, writes)];
      return Ok(writes);
    }
  }
}
