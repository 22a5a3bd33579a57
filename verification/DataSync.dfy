/**
 * Data diff and two-way synchronisation: the keys on which two replicas differ,
 * and the entries a sync in each direction resolves them to.
 */
module DataSync {
  import opened Options
  import opened Bytes

  datatype Versioned = Versioned(value: Bytes, timestamp: nat)

  type DataMap = map<Bytes, Versioned>

  datatype Entry = Entry(key: Bytes, value: Bytes, timestamp: nat)

  datatype SyncDirection = Pull | Push | TwoWay

  datatype DiffEntry = DiffEntry(
    key: Bytes,
    localValue: Option<Bytes>,
    remoteValue: Option<Bytes>,
    localTimestamp: nat,
    remoteTimestamp: nat)

  function Get(data: DataMap, key: Bytes): (v: Option<Versioned>)
  {
    if key in data then Some(data[key]) else None
  }

  /** Entries upserted in order: a later entry for a key replaces an earlier one. */
  function Apply(data: DataMap, entries: seq<Entry>): (r: DataMap)
  {
    if entries == [] then data
    else
      var last := entries[|entries| - 1];
      Apply(data, entries[..|entries| - 1])[last.key := Versioned(last.value, last.timestamp)]
  }

  // ---------------------------------------------------------------------------
  // The diff
  // ---------------------------------------------------------------------------

  /** The two sides of a key, as an entry; a missing side has timestamp 0. */
  function Compare(key: Bytes, local: Option<Versioned>, remote: Option<Versioned>): (entry: DiffEntry)
  {
    DiffEntry(key,
              if local.Some? then Some(local.value.value) else None,
              if remote.Some? then Some(remote.value.value) else None,
              if local.Some? then local.value.timestamp else 0,
              if remote.Some? then remote.value.timestamp else 0)
  }

  /** Exactly one entry per differing key of `scope`, describing both sides. */
  ghost predicate IsDiffOn(entries: seq<DiffEntry>, local: DataMap, remote: DataMap, scope: set<Bytes>)
  {
    && (forall i :: 0 <= i < |entries| ==>
          && entries[i].key in scope && Get(local, entries[i].key) != Get(remote, entries[i].key)
          && entries[i] == Compare(entries[i].key, Get(local, entries[i].key), Get(remote, entries[i].key)))
    && (forall i, j :: 0 <= i < j < |entries| ==> entries[i].key != entries[j].key)
    && (forall key :: key in scope && Get(local, key) != Get(remote, key) ==> HasKey(entries, key))
  }

  ghost predicate HasKey(entries: seq<DiffEntry>, key: Bytes)
  {
    exists i :: 0 <= i < |entries| && entries[i].key == key
  }

  ghost predicate IsDiff(entries: seq<DiffEntry>, local: DataMap, remote: DataMap)
  {
    IsDiffOn(entries, local, remote, local.Keys + remote.Keys)
  }

  /** Looking at one more key keeps the list a diff. */
  lemma DiffOneMore(entries: seq<DiffEntry>, local: DataMap, remote: DataMap, scope: set<Bytes>, key: Bytes)
    requires IsDiffOn(entries, local, remote, scope) && key !in scope
    ensures var more := if Get(local, key) == Get(remote, key) then entries
                        else entries + [Compare(key, Get(local, key), Get(remote, key))];
            IsDiffOn(more, local, remote, scope + {key})
  {
    if Get(local, key) != Get(remote, key) {
      var more := entries + [Compare(key, Get(local, key), Get(remote, key))];
      forall other | other in scope + {key} && Get(local, other) != Get(remote, other) ensures HasKey(more, other) {
        if other == key {
          assert more[|entries|].key == key;
        } else {
          var i :| 0 <= i < |entries| && entries[i].key == other;
          assert more[i].key == other;
        }
      }
    }
  }

  /** Two loops over hash maps, each in an arbitrary order. */
  method Diff(localEntries: seq<Entry>, remote: DataMap) returns (entries: seq<DiffEntry>)
    ensures IsDiff(entries, Apply(map[], localEntries), remote)
  {
    var local := Apply(map[], localEntries);
    entries := [];
    var todo := local.Keys;
    while todo != {}
      invariant todo <= local.Keys && IsDiffOn(entries, local, remote, local.Keys - todo)
      decreases todo
    {
      var key :| key in todo;
      DiffOneMore(entries, local, remote, local.Keys - todo, key);
      assert local.Keys - (todo - {key}) == local.Keys - todo + {key};
      if key in remote {
        if local[key] != remote[key] {
          entries := entries + [DiffEntry(key, Some(local[key].value), Some(remote[key].value),
                                          local[key].timestamp, remote[key].timestamp)];
        }
      } else {
        entries := entries + [DiffEntry(key, Some(local[key].value), None, local[key].timestamp, 0)];
      }
      todo := todo - {key};
    }
    assert local.Keys - {} == local.Keys;
    todo := remote.Keys - local.Keys;
    while todo != {}
      invariant todo <= remote.Keys - local.Keys
      invariant IsDiffOn(entries, local, remote, local.Keys + remote.Keys - todo)
      decreases todo
    {
      var key :| key in todo;
      DiffOneMore(entries, local, remote, local.Keys + remote.Keys - todo, key);
      assert local.Keys + remote.Keys - (todo - {key}) == local.Keys + remote.Keys - todo + {key};
      entries := entries + [DiffEntry(key, None, Some(remote[key].value), 0, remote[key].timestamp)];
      todo := todo - {key};
    }
    assert local.Keys + remote.Keys - {} == local.Keys + remote.Keys;
  }

  /** The diff is empty iff the replicas are equal. */
  lemma DiffEmptyIff(entries: seq<DiffEntry>, local: DataMap, remote: DataMap)
    requires IsDiff(entries, local, remote)
    ensures entries == [] <==> local == remote
  {
    if entries == [] {
      forall key ensures Get(local, key) == Get(remote, key) {
        assert !HasKey(entries, key);
      }
      SameByGet(local, remote);
    } else {
      assert Get(local, entries[0].key) != Get(remote, entries[0].key);
    }
  }

  lemma SameByGet(a: DataMap, b: DataMap)
    requires forall key :: Get(a, key) == Get(b, key)
    ensures a == b
  {
    forall key ensures key in a <==> key in b {
      assert Get(a, key) == Get(b, key);
    }
    forall key | key in a ensures a[key] == b[key] {
      assert Get(a, key) == Get(b, key);
    }
  }

  // ---------------------------------------------------------------------------
  // Resolving
  // ---------------------------------------------------------------------------

  /** The entry a difference resolves to, if any. */
  function Resolution(entry: DiffEntry, direction: SyncDirection): (r: Option<Entry>)
  {
    if direction == Pull || (direction == TwoWay && entry.remoteTimestamp >= entry.localTimestamp) then
      if entry.remoteValue.Some? then Some(Entry(entry.key, entry.remoteValue.value, entry.remoteTimestamp)) else None
    else
      if entry.localValue.Some? then Some(Entry(entry.key, entry.localValue.value, entry.localTimestamp)) else None
  }

  function ResolveAll(entries: seq<DiffEntry>, direction: SyncDirection): (r: seq<Entry>)
  {
    if entries == [] then []
    else
      var last := Resolution(entries[|entries| - 1], direction);
      ResolveAll(entries[..|entries| - 1], direction) + if last.Some? then [last.value] else []
  }

  method ResolveConflicts(entries: seq<DiffEntry>, direction: SyncDirection) returns (resolved: seq<Entry>)
    ensures resolved == ResolveAll(entries, direction)
  {
    resolved := [];
    for i := 0 to |entries|
      invariant resolved == ResolveAll(entries[..i], direction)
    {
      var entry := entries[i];
      assert entries[..i + 1][..i] == entries[..i];
      match direction
      case Pull =>
        if entry.remoteValue.Some? {
          resolved := resolved + [Entry(entry.key, entry.remoteValue.value, entry.remoteTimestamp)];
        }
      case Push =>
        if entry.localValue.Some? {
          resolved := resolved + [Entry(entry.key, entry.localValue.value, entry.localTimestamp)];
        }
      case TwoWay =>
        if entry.remoteTimestamp >= entry.localTimestamp {
          if entry.remoteValue.Some? {
            resolved := resolved + [Entry(entry.key, entry.remoteValue.value, entry.remoteTimestamp)];
          }
        } else if entry.localValue.Some? {
          resolved := resolved + [Entry(entry.key, entry.localValue.value, entry.localTimestamp)];
        }
    }
    assert entries[..|entries|] == entries;
  }

  // ---------------------------------------------------------------------------
  // What applying a resolution does
  // ---------------------------------------------------------------------------

  /** Which side of a differing key the direction picks; `None` picks nothing. */
  function Winner(local: Option<Versioned>, remote: Option<Versioned>, direction: SyncDirection): (w: Option<Versioned>)
  {
    match direction
    case Pull => remote
    case Push => local
    case TwoWay =>
      var localTimestamp := if local.Some? then local.value.timestamp else 0;
      var remoteTimestamp := if remote.Some? then remote.value.timestamp else 0;
      if remoteTimestamp >= localTimestamp then remote else local
  }

  /** A side after the sync: the winner where the sides differed and something was picked. */
  function Synced(side: Option<Versioned>, local: Option<Versioned>, remote: Option<Versioned>,
                  direction: SyncDirection): (r: Option<Versioned>)
  {
    var winner := Winner(local, remote, direction);
    if local == remote || winner.None? then side else winner
  }

  lemma ApplyAppend(data: DataMap, entries: seq<Entry>, entry: Entry)
    ensures Apply(data, entries + [entry]) == Apply(data, entries)[entry.key := Versioned(entry.value, entry.timestamp)]
  {
    assert (entries + [entry])[..|entries|] == entries;
  }

  /** What the last difference does to a key. */
  lemma LastDifference(data: DataMap, entries: seq<DiffEntry>, direction: SyncDirection, key: Bytes)
    requires entries != []
    ensures var init, last := entries[..|entries| - 1], Resolution(entries[|entries| - 1], direction);
            Get(Apply(data, ResolveAll(entries, direction)), key)
            == if last.Some? && entries[|entries| - 1].key == key then Some(Versioned(last.value.value, last.value.timestamp))
               else Get(Apply(data, ResolveAll(init, direction)), key)
  {
    var init, last := entries[..|entries| - 1], Resolution(entries[|entries| - 1], direction);
    if last.Some? {
      ApplyAppend(data, ResolveAll(init, direction), last.value);
    } else {
      assert ResolveAll(entries, direction) == ResolveAll(init, direction);
    }
  }

  /** A key without an entry is not touched. */
  lemma {:induction false} Untouched(data: DataMap, entries: seq<DiffEntry>, direction: SyncDirection, key: Bytes)
    requires forall i :: 0 <= i < |entries| ==> entries[i].key != key
    ensures Get(Apply(data, ResolveAll(entries, direction)), key) == Get(data, key)
  {
    if entries != [] {
      LastDifference(data, entries, direction, key);
      Untouched(data, entries[..|entries| - 1], direction, key);
    }
  }

  /** A key with one entry gets that entry's resolution. */
  lemma {:induction false} Touched(data: DataMap, entries: seq<DiffEntry>, direction: SyncDirection, i: nat, key: Bytes)
    requires i < |entries| && entries[i].key == key
    requires forall j :: 0 <= j < |entries| && j != i ==> entries[j].key != key
    ensures var resolution := Resolution(entries[i], direction);
            Get(Apply(data, ResolveAll(entries, direction)), key)
            == if resolution.None? then Get(data, key)
               else Some(Versioned(resolution.value.value, resolution.value.timestamp))
  {
    var init := entries[..|entries| - 1];
    LastDifference(data, entries, direction, key);
    if i == |entries| - 1 {
      Untouched(data, init, direction, key);
    } else {
      Touched(data, init, direction, i, key);
    }
  }

  /** A described difference resolves to its winner. */
  lemma ResolutionIsWinner(key: Bytes, local: Option<Versioned>, remote: Option<Versioned>, direction: SyncDirection)
    requires local != remote
    ensures var resolution, winner := Resolution(Compare(key, local, remote), direction), Winner(local, remote, direction);
            && (resolution.None? <==> winner.None?)
            && (winner.Some? ==> resolution.value == Entry(key, winner.value.value, winner.value.timestamp))
  {
  }

  /** Applying the resolved entries to any map syncs it key by key. */
  lemma AppliedAt(data: DataMap, entries: seq<DiffEntry>, local: DataMap, remote: DataMap,
                  direction: SyncDirection, key: Bytes)
    requires IsDiff(entries, local, remote)
    ensures Get(Apply(data, ResolveAll(entries, direction)), key)
            == Synced(Get(data, key), Get(local, key), Get(remote, key), direction)
  {
    if HasKey(entries, key) {
      var i := EntryOf(entries, local, remote, key);
      Touched(data, entries, direction, i, key);
      ResolutionIsWinner(key, Get(local, key), Get(remote, key), direction);
    } else {
      NoEntry(entries, local, remote, key);
      Untouched(data, entries, direction, key);
    }
  }

  lemma EntryOf(entries: seq<DiffEntry>, local: DataMap, remote: DataMap, key: Bytes) returns (i: nat)
    requires IsDiff(entries, local, remote) && HasKey(entries, key)
    ensures i < |entries| && Get(local, key) != Get(remote, key)
    ensures entries[i] == Compare(key, Get(local, key), Get(remote, key))
    ensures forall j :: 0 <= j < |entries| && j != i ==> entries[j].key != key
  {
    var k :| 0 <= k < |entries| && entries[k].key == key;
    i := k;
  }

  lemma NoEntry(entries: seq<DiffEntry>, local: DataMap, remote: DataMap, key: Bytes)
    requires IsDiff(entries, local, remote) && !HasKey(entries, key)
    ensures Get(local, key) == Get(remote, key)
    ensures forall j :: 0 <= j < |entries| ==> entries[j].key != key
  {
  }

  /** A key only the local side has, stamped 0, ties with the absent remote and is never sent. */
  predicate Stuck(local: DataMap, remote: DataMap, key: Bytes)
  {
    key in local && key !in remote && local[key].timestamp == 0
  }

  /** Applied to both sides, a two-way sync makes them equal iff no key is stuck. */
  lemma TwoWayConvergesIff(entries: seq<DiffEntry>, local: DataMap, remote: DataMap)
    requires IsDiff(entries, local, remote)
    ensures Apply(local, ResolveAll(entries, TwoWay)) == Apply(remote, ResolveAll(entries, TwoWay))
            <==> forall key :: !Stuck(local, remote, key)
  {
    var left := Apply(local, ResolveAll(entries, TwoWay));
    var right := Apply(remote, ResolveAll(entries, TwoWay));
    forall key ensures Get(left, key) == Get(right, key) <==> !Stuck(local, remote, key) {
      AppliedAt(local, entries, local, remote, TwoWay, key);
      AppliedAt(remote, entries, local, remote, TwoWay, key);
    }
    if forall key :: !Stuck(local, remote, key) {
      forall key ensures Get(left, key) == Get(right, key) {
        assert !Stuck(local, remote, key);
      }
      SameByGet(left, right);
    }
    if left == right {
      forall key ensures !Stuck(local, remote, key) {
        assert Get(left, key) == Get(right, key);
      }
    }
  }

  /** A key only the local side has, stamped 0, differs before the sync and after it. */
  lemma UnstampedKeyIsNotSent(entries: seq<DiffEntry>, key: Bytes, value: Bytes)
    requires IsDiff(entries, map[key := Versioned(value, 0)], map[])
    ensures entries != [] && ResolveAll(entries, TwoWay) == []
    ensures Apply(map[], ResolveAll(entries, TwoWay)) == map[]
  {
    var local: DataMap, remote: DataMap := map[key := Versioned(value, 0)], map[];
    DiffEmptyIff(entries, local, remote);
    assert key in local && key !in remote;
    forall i | 0 <= i < |entries| ensures Resolution(entries[i], TwoWay) == None {
      assert entries[i].key == key;
    }
    NothingResolved(entries, TwoWay);
  }

  lemma {:induction false} NothingResolved(entries: seq<DiffEntry>, direction: SyncDirection)
    requires forall i :: 0 <= i < |entries| ==> Resolution(entries[i], direction) == None
    ensures ResolveAll(entries, direction) == []
  {
    if entries != [] {
      NothingResolved(entries[..|entries| - 1], direction);
    }
  }

  /** The newer side of a key; the remote side wins ties. */
  ghost predicate IsNewest(v: Option<Versioned>, local: Option<Versioned>, remote: Option<Versioned>)
  {
    && (v == local || v == remote)
    && (v.None? <==> local.None? && remote.None?)
    && (local.Some? ==> local.value.timestamp <= v.value.timestamp)
    && (remote.Some? ==> remote.value.timestamp <= v.value.timestamp)
    && (remote.Some? && remote.value.timestamp == v.value.timestamp ==> v == remote)
  }

  /** After a two-way sync both sides hold, at every key that is not stuck, the newest version. */
  lemma TwoWayKeepsNewest(entries: seq<DiffEntry>, local: DataMap, remote: DataMap, key: Bytes)
    requires IsDiff(entries, local, remote) && !Stuck(local, remote, key)
    ensures IsNewest(Get(Apply(local, ResolveAll(entries, TwoWay)), key), Get(local, key), Get(remote, key))
    ensures IsNewest(Get(Apply(remote, ResolveAll(entries, TwoWay)), key), Get(local, key), Get(remote, key))
  {
    AppliedAt(local, entries, local, remote, TwoWay, key);
    AppliedAt(remote, entries, local, remote, TwoWay, key);
  }

  /** One two-way sync suffices: the next diff is empty iff no key was stuck. */
  lemma SecondDiffEmptyIff(first: seq<DiffEntry>, local: DataMap, remote: DataMap, second: seq<DiffEntry>)
    requires IsDiff(first, local, remote)
    requires IsDiff(second, Apply(local, ResolveAll(first, TwoWay)), Apply(remote, ResolveAll(first, TwoWay)))
    ensures second == [] <==> forall key :: !Stuck(local, remote, key)
  {
    TwoWayConvergesIff(first, local, remote);
    DiffEmptyIff(second, Apply(local, ResolveAll(first, TwoWay)), Apply(remote, ResolveAll(first, TwoWay)));
  }

  /** A pull makes the local side the remote one exactly when the local side has no key of its own. */
  lemma PullMirrorsIff(entries: seq<DiffEntry>, local: DataMap, remote: DataMap)
    requires IsDiff(entries, local, remote)
    ensures Apply(local, ResolveAll(entries, Pull)) == remote <==> local.Keys <= remote.Keys
  {
    OneWay(entries, local, remote, local, remote, Pull);
  }

  /** A push makes the remote side the local one exactly when the remote side has no key of its own. */
  lemma PushMirrorsIff(entries: seq<DiffEntry>, local: DataMap, remote: DataMap)
    requires IsDiff(entries, local, remote)
    ensures Apply(remote, ResolveAll(entries, Push)) == local <==> remote.Keys <= local.Keys
  {
    OneWay(entries, local, remote, remote, local, Push);
  }

  lemma OneWay(entries: seq<DiffEntry>, local: DataMap, remote: DataMap, target: DataMap, origin: DataMap,
               direction: SyncDirection)
    requires IsDiff(entries, local, remote)
    requires (direction == Pull && target == local && origin == remote)
             || (direction == Push && target == remote && origin == local)
    ensures Apply(target, ResolveAll(entries, direction)) == origin <==> target.Keys <= origin.Keys
  {
    var after := Apply(target, ResolveAll(entries, direction));
    forall key
      ensures Get(after, key) == if key in origin then Some(origin[key]) else Get(target, key)
    {
      AppliedAt(target, entries, local, remote, direction, key);
    }
    if target.Keys <= origin.Keys {
      forall key ensures Get(after, key) == Get(origin, key) {
        assert key in target ==> key in origin;
      }
      SameByGet(after, origin);
    }
    if after == origin {
      forall key | key in target ensures key in origin {
        assert Get(after, key) == Get(origin, key);
      }
    }
  }
}
