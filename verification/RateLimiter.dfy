/**
 * The sliding-window rate limiter: sharded per-peer and per-route deques that
 * are pruned from the front and swept lazily, against a limiter that keeps every
 * accepted request forever and counts.
 */
module RateLimiter {
  import opened Options

  type Peer = string
  type Route = string
  type Instant = nat  // nanoseconds on a monotonic clock

  const WINDOW: nat := 60 * 1_000_000_000
  const NUM_SHARDS: nat := 16

  /** `now.saturating_duration_since(t) < WINDOW`. */
  predicate Live(t: Instant, now: Instant)
  {
    (if t <= now then now - t else 0) < WINDOW
  }

  // ---------------------------------------------------------------------------
  // The naive limiter: a log of every accepted request
  // ---------------------------------------------------------------------------

  datatype Accepted = Accepted(peer: Peer, route: Option<Route>, at: Instant)

  datatype Limits = Limits(global: nat, perRoute: map<Route, nat>) {
    /** Zero, for no cap, on routes without an entry. */
    function ForRoute(route: Option<Route>): (cap: nat)
    {
      if route.Some? && route.value in perRoute then perRoute[route.value] else 0
    }

    predicate Tracked(route: Option<Route>)
    {
      global > 0 || ForRoute(route) > 0
    }
  }

  /** The accepted requests of a peer that match, by time. A `None` filter takes every route. */
  ghost function Times(log: seq<Accepted>, peer: Peer, only: Option<Route>): (times: seq<Instant>)
  {
    if log == [] then []
    else
      var last := log[|log| - 1];
      Times(log[..|log| - 1], peer, only) + if Matches(last, peer, only) then [last.at] else []
  }

  ghost predicate Matches(entry: Accepted, peer: Peer, only: Option<Route>)
  {
    entry.peer == peer && (only.Some? ==> entry.route == only)
  }

  /** How many of these times lie in the window ending now. */
  ghost function CountLive(times: seq<Instant>, now: Instant): (n: nat)
  {
    if times == [] then 0
    else CountLive(times[..|times| - 1], now) + if Live(times[|times| - 1], now) then 1 else 0
  }

  /** The decision of a limiter that consults the full history. */
  ghost predicate NaiveRejects(log: seq<Accepted>, limits: Limits, peer: Peer, route: Option<Route>, now: Instant)
  {
    || (limits.global > 0 && CountLive(Times(log, peer, None), now) >= limits.global)
    || (limits.ForRoute(route) > 0 && CountLive(Times(log, peer, route), now) >= limits.ForRoute(route))
  }

  /** Every request in the log was one the naive limiter lets through. */
  ghost predicate Admitted(log: seq<Accepted>, limits: Limits)
  {
    forall i :: 0 <= i < |log| ==>
      !NaiveRejects(log[..i], limits, log[i].peer, log[i].route, log[i].at)
  }

  // ---------------------------------------------------------------------------
  // Deques
  // ---------------------------------------------------------------------------

  function DropExpired(times: seq<Instant>, now: Instant): (kept: seq<Instant>)
  {
    if times != [] && !Live(times[0], now) then DropExpired(times[1..], now) else times
  }

  method PruneTimestamps(times: seq<Instant>, now: Instant) returns (kept: seq<Instant>)
    ensures kept == DropExpired(times, now)
  {
    kept := times;
    while kept != [] && !Live(kept[0], now)
      invariant DropExpired(kept, now) == DropExpired(times, now)
      decreases |kept|
    {
      kept := kept[1..];
    }
  }

  ghost predicate Ordered(times: seq<Instant>, clock: Instant)
  {
    && (forall i, j :: 0 <= i < j < |times| ==> times[i] <= times[j])
    && (forall i :: 0 <= i < |times| ==> times[i] <= clock)
  }

  /** The deque is the history less a front part that had expired by `clock`. */
  ghost predicate Tracks(deque: seq<Instant>, history: seq<Instant>, clock: Instant)
  {
    && |deque| <= |history|
    && deque == history[|history| - |deque|..]
    && (forall i :: 0 <= i < |history| - |deque| ==> !Live(history[i], clock))
  }

  /** Pruning at a later time leaves exactly the live part of the history. */
  lemma {:induction false} PruneTracks(deque: seq<Instant>, history: seq<Instant>, clock: Instant, now: Instant)
    requires Tracks(deque, history, clock) && Ordered(history, clock) && clock <= now
    ensures Tracks(DropExpired(deque, now), history, now) && Ordered(history, now)
    ensures |DropExpired(deque, now)| == CountLive(history, now)
  {
    if deque != [] && !Live(deque[0], now) {
      assert deque[1..] == history[|history| - |deque| + 1..];
      PruneTracks(deque[1..], history, now, now);
    } else {
      CountSplit(history, |history| - |deque|, now);
    }
  }

  lemma {:induction false} CountSplit(times: seq<Instant>, cut: nat, now: Instant)
    requires cut <= |times|
    requires forall i :: 0 <= i < cut ==> !Live(times[i], now)
    requires forall i :: cut <= i < |times| ==> Live(times[i], now)
    ensures CountLive(times, now) == |times| - cut
  {
    if times != [] {
      var n := |times| - 1;
      CountSplit(times[..n], if cut <= n then cut else n, now);
    }
  }

  lemma PushTracks(deque: seq<Instant>, history: seq<Instant>, now: Instant)
    requires Tracks(deque, history, now) && Ordered(history, now)
    ensures Tracks(deque + [now], history + [now], now) && Ordered(history + [now], now)
  {
  }

  /** With nothing live in the history, the empty deque tracks it. */
  lemma EmptyTracks(history: seq<Instant>, now: Instant)
    requires forall t :: t in history ==> !Live(t, now)
    ensures Tracks([], history, now)
  {
  }

  // ---------------------------------------------------------------------------
  // Per-peer tracks and shards
  // ---------------------------------------------------------------------------

  datatype IpTrack = IpTrack(timestamps: seq<Instant>, endpoints: map<Route, seq<Instant>>) {
    function Endpoint(route: Route): (times: seq<Instant>)
    {
      if route in endpoints then endpoints[route] else []
    }

    /** Prunes every deque and forgets routes whose deque runs empty. */
    function Prune(now: Instant): (track: IpTrack)
      ensures track.timestamps == DropExpired(timestamps, now)
      ensures forall route :: track.Endpoint(route) == DropExpired(Endpoint(route), now)
    {
      IpTrack(DropExpired(timestamps, now),
              map route | route in endpoints && DropExpired(endpoints[route], now) != [] ::
                DropExpired(endpoints[route], now))
    }
  }

  const NoTrack: IpTrack := IpTrack([], map[])

  datatype Shard = Shard(requests: map<Peer, IpTrack>, lastCleanup: Instant) {
    function Track(peer: Peer): (track: IpTrack)
    {
      if peer in requests then requests[peer] else NoTrack
    }

    /** Prunes every peer and forgets those with an empty global deque. */
    function Prune(now: Instant): (shard: Shard)
    {
      Shard(map peer | peer in requests && requests[peer].Prune(now).timestamps != [] ::
              requests[peer].Prune(now),
            now)
    }
  }

  ghost function TrackedTimes(log: seq<Accepted>, limits: Limits, peer: Peer, only: Option<Route>): (times: seq<Instant>)
  {
    if log == [] then []
    else
      var last := log[|log| - 1];
      TrackedTimes(log[..|log| - 1], limits, peer, only)
      + if Matches(last, peer, only) && limits.Tracked(last.route) then [last.at] else []
  }

  /** The peer's deques track its history, globally and on each route. */
  ghost predicate TrackMatches(track: IpTrack, log: seq<Accepted>, limits: Limits, peer: Peer, clock: Instant)
  {
    && Tracks(track.timestamps, TrackedTimes(log, limits, peer, None), clock)
    && (forall route :: Tracks(track.Endpoint(route), TrackedTimes(log, limits, peer, Some(route)), clock))
  }

  ghost predicate PeerOrdered(log: seq<Accepted>, limits: Limits, peer: Peer, clock: Instant)
  {
    forall only :: Ordered(TrackedTimes(log, limits, peer, only), clock)
  }

  lemma PruneTrackMatches(track: IpTrack, log: seq<Accepted>, limits: Limits, peer: Peer, clock: Instant, now: Instant)
    requires TrackMatches(track, log, limits, peer, clock) && PeerOrdered(log, limits, peer, clock) && clock <= now
    ensures TrackMatches(track.Prune(now), log, limits, peer, now) && PeerOrdered(log, limits, peer, now)
    ensures |track.Prune(now).timestamps| == CountLive(TrackedTimes(log, limits, peer, None), now)
    ensures forall route ::
              |track.Prune(now).Endpoint(route)| == CountLive(TrackedTimes(log, limits, peer, Some(route)), now)
  {
    PruneTracks(track.timestamps, TrackedTimes(log, limits, peer, None), clock, now);
    forall route
      ensures Tracks(track.Prune(now).Endpoint(route), TrackedTimes(log, limits, peer, Some(route)), now)
      ensures |track.Prune(now).Endpoint(route)| == CountLive(TrackedTimes(log, limits, peer, Some(route)), now)
    {
      assert Ordered(TrackedTimes(log, limits, peer, Some(route)), clock);
      PruneTracks(track.Endpoint(route), TrackedTimes(log, limits, peer, Some(route)), clock, now);
    }
    forall only ensures Ordered(TrackedTimes(log, limits, peer, only), now) {
      assert Ordered(TrackedTimes(log, limits, peer, only), clock);
    }
  }

  /** Every endpoint timestamp also sits in the global history. */
  lemma {:induction false} RouteTimesAreGlobal(log: seq<Accepted>, limits: Limits, peer: Peer, only: Option<Route>, t: Instant)
    requires t in TrackedTimes(log, limits, peer, only)
    ensures t in TrackedTimes(log, limits, peer, None)
  {
    var init := log[..|log| - 1];
    if t in TrackedTimes(init, limits, peer, only) {
      RouteTimesAreGlobal(init, limits, peer, only, t);
    }
  }

  /** So a peer whose global deque pruned to nothing may be forgotten. */
  lemma ForgettingIsSafe(track: IpTrack, log: seq<Accepted>, limits: Limits, peer: Peer, now: Instant)
    requires TrackMatches(track, log, limits, peer, now) && track.timestamps == []
    ensures TrackMatches(NoTrack, log, limits, peer, now)
  {
    var all := TrackedTimes(log, limits, peer, None);
    forall route ensures Tracks(NoTrack.Endpoint(route), TrackedTimes(log, limits, peer, Some(route)), now) {
      var times := TrackedTimes(log, limits, peer, Some(route));
      forall t | t in times ensures !Live(t, now) {
        RouteTimesAreGlobal(log, limits, peer, Some(route), t);
      }
      EmptyTracks(times, now);
    }
  }

  /** Time alone keeps a track valid: what had expired stays expired. */
  lemma TimePasses(track: IpTrack, log: seq<Accepted>, limits: Limits, peer: Peer, clock: Instant, now: Instant)
    requires TrackMatches(track, log, limits, peer, clock) && PeerOrdered(log, limits, peer, clock) && clock <= now
    ensures TrackMatches(track, log, limits, peer, now) && PeerOrdered(log, limits, peer, now)
  {
    forall route ensures Tracks(track.Endpoint(route), TrackedTimes(log, limits, peer, Some(route)), now) {
      assert Tracks(track.Endpoint(route), TrackedTimes(log, limits, peer, Some(route)), clock);
    }
    forall only ensures Ordered(TrackedTimes(log, limits, peer, only), now) {
      assert Ordered(TrackedTimes(log, limits, peer, only), clock);
    }
  }

  /** A sweep keeps every peer's track valid, the forgotten ones included. */
  lemma SweepKeeps(shard: Shard, log: seq<Accepted>, limits: Limits, peer: Peer, clock: Instant, now: Instant)
    requires TrackMatches(shard.Track(peer), log, limits, peer, clock)
    requires PeerOrdered(log, limits, peer, clock) && clock <= now
    ensures TrackMatches(shard.Prune(now).Track(peer), log, limits, peer, now) && PeerOrdered(log, limits, peer, now)
    ensures |shard.Prune(now).Track(peer).timestamps| == CountLive(TrackedTimes(log, limits, peer, None), now)
    ensures peer in shard.Prune(now).requests ==> shard.Prune(now).Track(peer).timestamps != []
  {
    var pruned := shard.Track(peer).Prune(now);
    PruneTrackMatches(shard.Track(peer), log, limits, peer, clock, now);
    if pruned.timestamps == [] {
      ForgettingIsSafe(pruned, log, limits, peer, now);
    }
  }

  lemma TimesAppend(log: seq<Accepted>, entry: Accepted, limits: Limits, peer: Peer, only: Option<Route>)
    ensures TrackedTimes(log + [entry], limits, peer, only) ==
            TrackedTimes(log, limits, peer, only)
            + if Matches(entry, peer, only) && limits.Tracked(entry.route) then [entry.at] else []
  {
    assert (log + [entry])[..|log|] == log;
  }

  /** Recording an accepted request in its deques keeps them tracking the longer log. */
  lemma RecordKeeps(track: IpTrack, log: seq<Accepted>, limits: Limits, peer: Peer, route: Option<Route>, now: Instant)
    requires TrackMatches(track, log, limits, peer, now) && PeerOrdered(log, limits, peer, now)
    requires limits.Tracked(route)
    ensures TrackMatches(Record(track, route, now), log + [Accepted(peer, route, now)], limits, peer, now)
    ensures PeerOrdered(log + [Accepted(peer, route, now)], limits, peer, now)
  {
    var entry := Accepted(peer, route, now);
    TimesAppend(log, entry, limits, peer, None);
    PushTracks(track.timestamps, TrackedTimes(log, limits, peer, None), now);
    forall r ensures Tracks(Record(track, route, now).Endpoint(r), TrackedTimes(log + [entry], limits, peer, Some(r)), now) {
      RecordRouteKeeps(track, log, limits, peer, route, r, now);
    }
    forall only ensures Ordered(TrackedTimes(log + [entry], limits, peer, only), now) {
      assert Ordered(TrackedTimes(log, limits, peer, only), now);
      RecordOrdered(log, entry, limits, peer, only);
    }
  }

  lemma RecordOrdered(log: seq<Accepted>, entry: Accepted, limits: Limits, peer: Peer, only: Option<Route>)
    requires Ordered(TrackedTimes(log, limits, peer, only), entry.at)
    ensures Ordered(TrackedTimes(log + [entry], limits, peer, only), entry.at)
  {
    TimesAppend(log, entry, limits, peer, only);
  }

  lemma RecordRouteKeeps(track: IpTrack, log: seq<Accepted>, limits: Limits, peer: Peer, route: Option<Route>, r: Route, now: Instant)
    requires Tracks(track.Endpoint(r), TrackedTimes(log, limits, peer, Some(r)), now)
    requires Ordered(TrackedTimes(log, limits, peer, Some(r)), now) && limits.Tracked(route)
    ensures Tracks(Record(track, route, now).Endpoint(r), TrackedTimes(log + [Accepted(peer, route, now)], limits, peer, Some(r)), now)
  {
    TimesAppend(log, Accepted(peer, route, now), limits, peer, Some(r));
    if Some(r) == route {
      PushTracks(track.Endpoint(r), TrackedTimes(log, limits, peer, Some(r)), now);
    }
  }

  function Record(track: IpTrack, route: Option<Route>, now: Instant): (recorded: IpTrack)
  {
    IpTrack(track.timestamps + [now],
            if route.None? then track.endpoints
            else track.endpoints[route.value := track.Endpoint(route.value) + [now]])
  }

  /** A request that is another peer's, or not tracked, adds nothing to a peer's history. */
  lemma OthersUnchanged(log: seq<Accepted>, limits: Limits, entry: Accepted, peer: Peer)
    requires entry.peer != peer || !limits.Tracked(entry.route)
    ensures forall only :: TrackedTimes(log + [entry], limits, peer, only) == TrackedTimes(log, limits, peer, only)
  {
    assert (log + [entry])[..|log|] == log;
  }

  /** Where a cap applies, every accepted request it counts was tracked. */
  lemma {:induction false} CapsSeeEverything(log: seq<Accepted>, limits: Limits, peer: Peer, only: Option<Route>)
    requires limits.global > 0 || (only.Some? && limits.ForRoute(only) > 0)
    ensures TrackedTimes(log, limits, peer, only) == Times(log, peer, only)
  {
    if log != [] {
      CapsSeeEverything(log[..|log| - 1], limits, peer, only);
    }
  }

  lemma AdmitOneMore(log: seq<Accepted>, limits: Limits, entry: Accepted)
    requires Admitted(log, limits) && !NaiveRejects(log, limits, entry.peer, entry.route, entry.at)
    ensures Admitted(log + [entry], limits)
  {
    var longer := log + [entry];
    forall i | 0 <= i < |longer|
      ensures !NaiveRejects(longer[..i], limits, longer[i].peer, longer[i].route, longer[i].at)
    {
      assert longer[..i] == log[..i];
      assert i == |log| ==> log[..i] == log;
    }
  }

  datatype PeerSummary = PeerSummary(requestCount: nat, endpointCounts: map<Route, nat>)

  function Summarize(track: IpTrack): (summary: PeerSummary)
  {
    PeerSummary(|track.timestamps|, map route | route in track.endpoints :: |track.endpoints[route]|)
  }

  /** The summary lists a peer exactly when it has tracked requests in the window, with their counts. */
  ghost predicate Summarizes(summary: map<Peer, PeerSummary>, log: seq<Accepted>, limits: Limits, peer: Peer, now: Instant)
  {
    && (peer in summary <==> CountLive(TrackedTimes(log, limits, peer, None), now) > 0)
    && (peer in summary ==>
          && summary[peer].requestCount == CountLive(TrackedTimes(log, limits, peer, None), now)
          && forall route ::
               (if route in summary[peer].endpointCounts then summary[peer].endpointCounts[route] else 0)
               == CountLive(TrackedTimes(log, limits, peer, Some(route)), now))
  }

  /** What a sweep at `now` leaves of a peer: counts that are exact, and no idle peer. */
  ghost predicate IsSwept(shard: Shard, log: seq<Accepted>, limits: Limits, peer: Peer, now: Instant)
  {
    && TrackMatches(shard.Track(peer), log, limits, peer, now)
    && (peer in shard.requests <==> CountLive(TrackedTimes(log, limits, peer, None), now) > 0)
    && (peer in shard.requests ==>
          && |shard.requests[peer].timestamps| == CountLive(TrackedTimes(log, limits, peer, None), now)
          && forall route :: |shard.requests[peer].Endpoint(route)|
                             == CountLive(TrackedTimes(log, limits, peer, Some(route)), now))
  }

  lemma SweptSummary(shard: Shard, summary: map<Peer, PeerSummary>, log: seq<Accepted>, limits: Limits, peer: Peer, now: Instant)
    requires IsSwept(shard, log, limits, peer, now)
    requires peer in summary <==> peer in shard.requests
    requires peer in summary ==> summary[peer] == Summarize(shard.requests[peer])
    ensures Summarizes(summary, log, limits, peer, now)
  {
    if peer in summary {
      forall route
        ensures (if route in summary[peer].endpointCounts then summary[peer].endpointCounts[route] else 0)
                == CountLive(TrackedTimes(log, limits, peer, Some(route)), now)
      {
        assert |shard.requests[peer].Endpoint(route)| == CountLive(TrackedTimes(log, limits, peer, Some(route)), now);
      }
    }
  }

  class RateLimiterState {
    var shards: seq<Shard>
    const limits: Limits
    const hash: Peer -> nat
    ghost var log: seq<Accepted>  // every accepted request, in lock order
    ghost var clocks: seq<Instant>  // the latest time each shard has seen

    function ShardFor(peer: Peer): (s: nat)
      ensures s < NUM_SHARDS
    {
      hash(peer) % NUM_SHARDS
    }

    ghost predicate PeerValid(peer: Peer)
      requires |shards| == |clocks| == NUM_SHARDS
      reads this
    {
      var s := ShardFor(peer);
      TrackMatches(shards[s].Track(peer), log, limits, peer, clocks[s]) && PeerOrdered(log, limits, peer, clocks[s])
    }

    ghost predicate Valid()
      reads this
    {
      && |shards| == |clocks| == NUM_SHARDS
      && (forall s, peer :: 0 <= s < NUM_SHARDS && peer in shards[s].requests ==> ShardFor(peer) == s)
      && (forall peer :: PeerValid(peer))
      && Admitted(log, limits)
    }

    constructor (limits: Limits, hash: Peer -> nat, now: Instant)
      ensures Valid() && log == [] && this.limits == limits && this.hash == hash
      ensures forall s :: 0 <= s < NUM_SHARDS ==> clocks[s] == now
    {
      this.limits := limits;
      this.hash := hash;
      shards := seq(NUM_SHARDS, _ => Shard(map[], now));
      clocks := seq(NUM_SHARDS, _ => now);
      log := [];
    }

    /** The touched peer's pruned track, whether or not its shard was swept first. */
    lemma TouchedTrack(peer: Peer, shard: Shard, now: Instant)
      requires Valid() && clocks[ShardFor(peer)] <= now
      requires shard == shards[ShardFor(peer)] || shard == shards[ShardFor(peer)].Prune(now)
      ensures var track := shard.Track(peer).Prune(now);
              && TrackMatches(track, log, limits, peer, now) && PeerOrdered(log, limits, peer, now)
              && |track.timestamps| == CountLive(TrackedTimes(log, limits, peer, None), now)
              && forall r :: |track.Endpoint(r)| == CountLive(TrackedTimes(log, limits, peer, Some(r)), now)
    {
      var s := ShardFor(peer);
      assert PeerValid(peer);
      if shard == shards[s] {
        PruneTrackMatches(shard.Track(peer), log, limits, peer, clocks[s], now);
      } else {
        SweepKeeps(shards[s], log, limits, peer, clocks[s], now);
        PruneTrackMatches(shard.Track(peer), log, limits, peer, now, now);
      }
    }

    /** Writes back a shard in which only this peer's track was replaced. */
    method Store(peer: Peer, shard: Shard, track: IpTrack, now: Instant, ghost newLog: seq<Accepted>)
      requires Valid() && clocks[ShardFor(peer)] <= now
      requires shard == shards[ShardFor(peer)] || shard == shards[ShardFor(peer)].Prune(now)
      requires newLog == log || exists route :: newLog == log + [Accepted(peer, route, now)]
      requires Admitted(newLog, limits)
      requires TrackMatches(track, newLog, limits, peer, now) && PeerOrdered(newLog, limits, peer, now)
      modifies this
      ensures Valid() && log == newLog && clocks == old(clocks)[ShardFor(peer) := now]
    {
      var s := ShardFor(peer);
      ghost var before, oldClocks, oldShards := log, clocks, shards;
      forall p | p != peer
        ensures var clock := if ShardFor(p) == s then now else clocks[ShardFor(p)];
                var kept := if ShardFor(p) == s then shard else shards[ShardFor(p)];
                TrackMatches(kept.Track(p), newLog, limits, p, clock) && PeerOrdered(newLog, limits, p, clock)
      {
        assert PeerValid(p);
        if newLog != log {
          OthersUnchanged(log, limits, newLog[|log|], p);
        }
        SameTimes(shards[ShardFor(p)].Track(p), log, newLog, limits, p, clocks[ShardFor(p)]);
        if ShardFor(p) == s {
          TimePasses(shards[s].Track(p), newLog, limits, p, clocks[s], now);
          SweepKeeps(shards[s], newLog, limits, p, clocks[s], now);
        }
      }
      shards := shards[s := Shard(shard.requests[peer := track], shard.lastCleanup)];
      clocks := clocks[s := now];
      log := newLog;
      forall p ensures PeerValid(p) {
        assert p != peer ==> shards[s].Track(p) == shard.Track(p);
      }
    }

    /** Decides like the naive limiter, on every request of every run. */
    method IsRateLimited(peer: Peer, route: Option<Route>, now: Instant) returns (limited: bool)
      requires Valid() && clocks[ShardFor(peer)] <= now
      modifies this
      ensures Valid()
      ensures limited <==> NaiveRejects(old(log), limits, peer, route, now)
      ensures log == if limited then old(log) else old(log) + [Accepted(peer, route, now)]
      ensures clocks == old(clocks) || clocks == old(clocks)[ShardFor(peer) := now]
    {
      var routeLimit := limits.ForRoute(route);
      ghost var accepted := log + [Accepted(peer, route, now)];
      if limits.global == 0 && routeLimit == 0 {
        AcceptUntracked(peer, route, now);
        return false;
      }
      var s := ShardFor(peer);
      var shard := shards[s];
      if !Live(shard.lastCleanup, now) {
        shard := shard.Prune(now);
      }
      var track := shard.Track(peer).Prune(now);
      TouchedTrack(peer, shard, now);
      if limits.global > 0 {
        CapsSeeEverything(log, limits, peer, None);
      }
      if routeLimit > 0 {
        CapsSeeEverything(log, limits, peer, route);
      }
      if limits.global > 0 && |track.timestamps| >= limits.global {
        Store(peer, shard, track, now, log);
        return true;
      }
      if route.Some? && routeLimit > 0 && |track.Endpoint(route.value)| >= routeLimit {
        Store(peer, shard, track, now, log);
        return true;
      }
      AdmitOneMore(log, limits, Accepted(peer, route, now));
      RecordKeeps(track, log, limits, peer, route, now);
      Store(peer, shard, Record(track, route, now), now, accepted);
      return false;
    }

    /** Reports each peer's tracked requests in the window, and drops whoever has none. */
    method GetState(now: seq<Instant>) returns (summary: map<Peer, PeerSummary>)
      requires Valid() && |now| == NUM_SHARDS && forall s :: 0 <= s < NUM_SHARDS ==> clocks[s] <= now[s]
      modifies this
      ensures Valid() && log == old(log) && clocks == now
      ensures forall peer :: Summarizes(summary, log, limits, peer, now[ShardFor(peer)])
    {
      summary := map[];
      for s := 0 to NUM_SHARDS
        invariant Valid() && log == old(log) && |clocks| == NUM_SHARDS
        invariant forall i :: 0 <= i < NUM_SHARDS ==> clocks[i] == if i < s then now[i] else old(clocks)[i]
        invariant forall peer :: peer in summary ==> ShardFor(peer) < s
        invariant forall peer :: ShardFor(peer) < s ==> Summarizes(summary, log, limits, peer, now[ShardFor(peer)])
      {
        SweepShard(s, now[s]);
        var rows := map peer | peer in shards[s].requests :: Summarize(shards[s].requests[peer]);
        ghost var before := summary;
        summary := summary + rows;
        forall peer | ShardFor(peer) <= s ensures Summarizes(summary, log, limits, peer, now[ShardFor(peer)]) {
          if ShardFor(peer) < s {
            assert Summarizes(before, log, limits, peer, now[ShardFor(peer)]);
          } else {
            SweptSummary(shards[s], summary, log, limits, peer, now[s]);
          }
        }
      }
    }

    method SweepShard(s: nat, now: Instant)
      requires Valid() && s < NUM_SHARDS && clocks[s] <= now
      modifies this
      ensures Valid() && log == old(log) && clocks == old(clocks)[s := now]
      ensures shards == old(shards)[s := old(shards)[s].Prune(now)]
      ensures forall peer :: ShardFor(peer) == s ==> IsSwept(shards[s], log, limits, peer, now)
    {
      forall peer | ShardFor(peer) == s
        ensures IsSwept(shards[s].Prune(now), log, limits, peer, now) && PeerOrdered(log, limits, peer, now)
      {
        assert PeerValid(peer);
        SweepKeeps(shards[s], log, limits, peer, clocks[s], now);
        PruneTrackMatches(shards[s].Track(peer), log, limits, peer, clocks[s], now);
      }
      forall peer | ShardFor(peer) != s ensures PeerValid(peer) {
      }
      shards := shards[s := shards[s].Prune(now)];
      clocks := clocks[s := now];
      forall peer ensures PeerValid(peer) {
        assert ShardFor(peer) == s ==> IsSwept(shards[s], log, limits, peer, now);
        assert ShardFor(peer) != s ==> old(PeerValid(peer));
      }
    }

    /** With both caps off the request passes without the shard being touched. */
    ghost method AcceptUntracked(peer: Peer, route: Option<Route>, now: Instant)
      requires Valid() && limits.global == 0 && limits.ForRoute(route) == 0
      modifies this`log
      ensures Valid() && log == old(log) + [Accepted(peer, route, now)]
    {
      var longer := log + [Accepted(peer, route, now)];
      AdmitOneMore(log, limits, Accepted(peer, route, now));
      forall p
        ensures var s := ShardFor(p);
                TrackMatches(shards[s].Track(p), longer, limits, p, clocks[s]) && PeerOrdered(longer, limits, p, clocks[s])
      {
        assert PeerValid(p);
        OthersUnchanged(log, limits, longer[|log|], p);
        SameTimes(shards[ShardFor(p)].Track(p), log, longer, limits, p, clocks[ShardFor(p)]);
      }
      log := longer;
      forall p ensures PeerValid(p) {
      }
    }
  }

  lemma SameTimes(track: IpTrack, log: seq<Accepted>, other: seq<Accepted>, limits: Limits, peer: Peer, clock: Instant)
    requires TrackMatches(track, log, limits, peer, clock) && PeerOrdered(log, limits, peer, clock)
    requires forall only :: TrackedTimes(other, limits, peer, only) == TrackedTimes(log, limits, peer, only)
    ensures TrackMatches(track, other, limits, peer, clock) && PeerOrdered(other, limits, peer, clock)
  {
    forall only ensures Ordered(TrackedTimes(other, limits, peer, only), clock) {
      assert Ordered(TrackedTimes(log, limits, peer, only), clock);
    }
    forall route ensures Tracks(track.Endpoint(route), TrackedTimes(other, limits, peer, Some(route)), clock) {
      assert Tracks(track.Endpoint(route), TrackedTimes(log, limits, peer, Some(route)), clock);
    }
  }

  // ---------------------------------------------------------------------------
  // The caps hold over every window
  // ---------------------------------------------------------------------------

  /** How many of these times lie in the half-open window starting at `from`. */
  ghost function CountIn(times: seq<Instant>, from: Instant): (n: nat)
  {
    if times == [] then 0
    else
      var last := times[|times| - 1];
      CountIn(times[..|times| - 1], from) + if from <= last < from + WINDOW then 1 else 0
  }

  lemma {:induction false} WindowIsLive(times: seq<Instant>, from: Instant, now: Instant)
    requires from <= now < from + WINDOW
    ensures CountIn(times, from) <= CountLive(times, now)
  {
    if times != [] {
      WindowIsLive(times[..|times| - 1], from, now);
    }
  }

  /** The cap that applies to all of a peer's requests, or to those on one route; zero for none. */
  ghost function Cap(limits: Limits, only: Option<Route>): (cap: nat)
  {
    if only.None? then limits.global else limits.ForRoute(only)
  }

  /** In no window of the run does a peer get more requests through than its cap. */
  lemma {:induction false} NoWindowExceedsCap(log: seq<Accepted>, limits: Limits, peer: Peer, only: Option<Route>, from: Instant)
    requires Admitted(log, limits) && Cap(limits, only) > 0
    ensures CountIn(Times(log, peer, only), from) <= Cap(limits, only)
  {
    if log != [] {
      var init, last := log[..|log| - 1], log[|log| - 1];
      forall i | 0 <= i < |init|
        ensures !NaiveRejects(init[..i], limits, init[i].peer, init[i].route, init[i].at)
      {
        assert init[..i] == log[..i];
      }
      NoWindowExceedsCap(init, limits, peer, only, from);
      if Matches(last, peer, only) && from <= last.at < from + WINDOW {
        var earlier := Times(init, peer, only);
        WindowIsLive(earlier, from, last.at);
        assert !NaiveRejects(init, limits, last.peer, last.route, last.at);
        assert (earlier + [last.at])[..|earlier|] == earlier;
      } else if Matches(last, peer, only) {
        assert (Times(init, peer, only) + [last.at])[..|Times(init, peer, only)|] == Times(init, peer, only);
      } else {
        assert Times(log, peer, only) == Times(init, peer, only);
      }
    }
  }
}
