/**
 * What replacing a group of tables by its compaction does to reads. Reads find
 * records with timestamps, and know a deletion from an empty value. Compaction
 * looks only at tables whose rows are in memory, takes an empty value for a
 * deletion, drops every key under a range tombstone it knows of, and stamps what
 * it keeps anew.
 */
module VersionedCompaction {
  import opened Options
  import opened Bytes
  import opened RangeTombstones
  import opened Compaction
  import opened CompactionGroups

  datatype Version = Put(value: Bytes, timestamp: nat) | Deleted(timestamp: nat)

  /** The records a read finds in a table. */
  type File = map<Bytes, Version>

  // ---------------------------------------------------------------------------
  // Reading
  // ---------------------------------------------------------------------------

  /** Records older than `since` are hidden. */
  function ReadSince(entry: Option<Version>, since: nat): (value: Option<Bytes>)
  {
    if entry.Some? && entry.value.Put? && entry.value.timestamp >= since then Some(entry.value.value) else None
  }

  /** From when on records of a key are visible: the newest range tombstone covering it, if any. */
  function Since(tombstones: seq<RangeTombstone>, key: Bytes): (since: nat)
  {
    var newest := MaxCovering(tombstones, key);
    if newest.Some? then newest.value else 0
  }

  ghost function ReadAt(files: seq<File>, tombstones: seq<RangeTombstone>, key: Bytes): (value: Option<Bytes>)
  {
    ReadSince(Lookup(files, key), Since(tombstones, key))
  }

  lemma CoveredIff(tombstones: seq<RangeTombstone>, key: Bytes)
    ensures Covered(tombstones, key) <==> MaxCovering(tombstones, key).Some?
  {
    if Covered(tombstones, key) {
      var i :| 0 <= i < |tombstones| && Covers(tombstones[i], key);
      assert tombstones[i] in tombstones;
    }
  }

  // ---------------------------------------------------------------------------
  // Compacting
  // ---------------------------------------------------------------------------

  /** What compaction sees of a record. */
  function Raw(version: Version): (value: Bytes)
  {
    if version.Put? then version.value else []
  }

  /** What the newest record a compaction sees becomes: dropped, or kept with a new stamp. */
  function KeptAs(entry: Option<Version>, stamp: Option<nat>): (out: Option<Version>)
  {
    if entry.None? || stamp.None? || Raw(entry.value) == [] then None else Some(Put(Raw(entry.value), stamp.value))
  }

  /** The stamp a key's record gets in a compaction that saw these tombstones; none if it is dropped. */
  ghost function StampFor(seen: seq<RangeTombstone>, clock: Bytes -> nat, key: Bytes): (stamp: Option<nat>)
  {
    if Covered(seen, key) then None else Some(clock(key))
  }

  /** What a compaction makes of a key, given the tables it looks at. */
  ghost function Made(files: seq<File>, seen: seq<RangeTombstone>, clock: Bytes -> nat, key: Bytes): (out: Option<Version>)
  {
    KeptAs(Lookup(files, key), StampFor(seen, clock, key))
  }

  /** At most one output, holding that for every key. */
  ghost predicate AreMadeFrom(outs: seq<File>, files: seq<File>, seen: seq<RangeTombstone>, clock: Bytes -> nat)
  {
    |outs| <= 1 && forall key :: Lookup(outs, key) == Made(files, seen, clock, key)
  }

  // ---------------------------------------------------------------------------
  // One key
  // ---------------------------------------------------------------------------

  /**
   * When replacing a group by `out` leaves what is read from `since` on alone. Either
   * the group does not hold the key, or a newer table hides its newest record.
   * Otherwise what then comes first must read like that record: a table the
   * output moves behind, else the output, else a table older than the group.
   */
  ghost predicate ColumnSafe(column: seq<Option<Version>>, group: set<nat>, first: nat, out: Option<Version>, since: nat)
    requires first <= |column|
  {
    var newest := NewestInGroup(column, group);
    newest < first
    || Newest(column[newest + 1..]).Some?
    || var next := OrElse(Newest(Unselected(column[..newest], group, first)), OrElse(out, Newest(column[..first])));
       ReadSince(next, since) == ReadSince(column[newest], since)
  }

  /** A group that does not hold the key becomes nothing there. */
  lemma ColumnReadPreservedIff(column: seq<Option<Version>>, group: set<nat>, first: nat, out: Option<Version>, since: nat)
    requires IsFirst(group, first) && first < |column| && (NewestInGroup(column, group) < 0 ==> out.None?)
    ensures ReadSince(OrElse(Newest(Unselected(column, group, first)), OrElse(out, Newest(column[..first]))), since)
            == ReadSince(Newest(column), since)
            <==> ColumnSafe(column, group, first, out, since)
  {
    var newest := NewestInGroup(column, group);
    NewestBefore(column, group, first);
    NewestAfter(column, group, first);
    if first <= newest {
      MovedEntryIff(Newest(column[newest + 1..]), Newest(Unselected(column[..newest], group, first)), column[newest],
                    Newest(column[..first]), Newest(Unselected(column, group, first)), out, Newest(column), since);
    }
  }

  /** Reads before, from `whole`, and after, from `rest`, `out` and `older`, in terms of the records that move. */
  lemma MovedEntryIff(above: Option<Version>, overtaken: Option<Version>, top: Option<Version>, older: Option<Version>,
                      rest: Option<Version>, out: Option<Version>, whole: Option<Version>, since: nat)
    requires rest == OrElse(above, overtaken) && whole == OrElse(above, top)
    ensures ReadSince(OrElse(rest, OrElse(out, older)), since) == ReadSince(whole, since)
            <==> above.Some? || ReadSince(OrElse(overtaken, OrElse(out, older)), since) == ReadSince(top, since)
  {
  }

  /** Of a group that does not hold the key, no part does. */
  lemma NothingMade(files: seq<File>, group: set<nat>, part: set<nat>, seen: seq<RangeTombstone>, clock: Bytes -> nat, key: Bytes)
    requires part <= group && NewestInGroup(Column(files, key), group) < 0
    ensures Made(Selected(files, part), seen, clock, key) == None
  {
    ColumnOfSelected(files, part, key);
    SelectedAt(Column(files, key), part);
    NothingHeld(Selected(Column(files, key), part));
  }

  // ---------------------------------------------------------------------------
  // One group
  // ---------------------------------------------------------------------------

  /** A condition on the tables before the compaction, the clock, and the range tombstones then and later. */
  ghost predicate LaterSafe(files: seq<File>, loaded: set<nat>, group: set<nat>, first: nat, seen: seq<RangeTombstone>,
                            clock: Bytes -> nat, later: seq<RangeTombstone>, key: Bytes)
    requires first <= |files|
  {
    ColumnSafe(Column(files, key), group, first, Made(Selected(files, group * loaded), seen, clock, key), Since(later, key))
  }

  /**
   * For every key and any tombstones reads use later, whatever the compaction saw,
   * and whichever tables had their rows in memory.
   */
  lemma LaterReadPreservedIff(files: seq<File>, loaded: set<nat>, group: set<nat>, first: nat, outs: seq<File>,
                              seen: seq<RangeTombstone>, clock: Bytes -> nat, later: seq<RangeTombstone>, key: Bytes)
    requires IsFirst(group, first) && first < |files|
    requires AreMadeFrom(outs, Selected(files, group * loaded), seen, clock)
    ensures ReadAt(Replaced(files, group, first, outs), later, key) == ReadAt(files, later, key)
            <==> LaterSafe(files, loaded, group, first, seen, clock, later, key)
  {
    var column := Column(files, key);
    LookupReplaced(files, group, first, outs, key);
    if NewestInGroup(column, group) < 0 {
      NothingMade(files, group, group * loaded, seen, clock, key);
    }
    ColumnReadPreservedIff(column, group, first, Lookup(outs, key), Since(later, key));
  }

  /** The condition for reads right after the compaction; the clock has no part in it. */
  ghost predicate KeySafe(files: seq<File>, loaded: set<nat>, group: set<nat>, first: nat, seen: seq<RangeTombstone>, key: Bytes)
    requires first <= |files|
  {
    var stamp := if Covered(seen, key) then None else Some(0);
    ColumnSafe(Column(files, key), group, first, KeptAs(Lookup(Selected(files, group * loaded), key), stamp), Since(seen, key))
  }

  lemma ClockHasNoPart(files: seq<File>, loaded: set<nat>, group: set<nat>, first: nat, seen: seq<RangeTombstone>,
                       clock: Bytes -> nat, key: Bytes)
    requires first <= |files|
    ensures LaterSafe(files, loaded, group, first, seen, clock, seen, key) <==> KeySafe(files, loaded, group, first, seen, key)
  {
    CoveredIff(seen, key);
  }

  lemma KeyReadPreservedIff(files: seq<File>, loaded: set<nat>, group: set<nat>, first: nat, outs: seq<File>,
                            seen: seq<RangeTombstone>, clock: Bytes -> nat, key: Bytes)
    requires IsFirst(group, first) && first < |files|
    requires AreMadeFrom(outs, Selected(files, group * loaded), seen, clock)
    ensures ReadAt(Replaced(files, group, first, outs), seen, key) == ReadAt(files, seen, key)
            <==> KeySafe(files, loaded, group, first, seen, key)
  {
    LaterReadPreservedIff(files, loaded, group, first, outs, seen, clock, seen, key);
    ClockHasNoPart(files, loaded, group, first, seen, clock, key);
  }

  /** Compacting a group preserves every read if and only if every key is safe. */
  lemma CompactionPreservesReadsIff(files: seq<File>, loaded: set<nat>, group: set<nat>, first: nat, outs: seq<File>,
                                    seen: seq<RangeTombstone>, clock: Bytes -> nat)
    requires IsFirst(group, first) && first < |files|
    requires AreMadeFrom(outs, Selected(files, group * loaded), seen, clock)
    ensures (forall key :: ReadAt(Replaced(files, group, first, outs), seen, key) == ReadAt(files, seen, key))
            <==> (forall key :: KeySafe(files, loaded, group, first, seen, key))
  {
    forall key
      ensures ReadAt(Replaced(files, group, first, outs), seen, key) == ReadAt(files, seen, key)
              <==> KeySafe(files, loaded, group, first, seen, key)
    {
      KeyReadPreservedIff(files, loaded, group, first, outs, seen, clock, key);
    }
  }

  // ---------------------------------------------------------------------------
  // Runs of neighbours
  // ---------------------------------------------------------------------------

  ghost predicate IsRun(group: set<nat>, first: nat, past: nat)
  {
    first < past && forall i: nat :: i in group <==> first <= i < past
  }

  lemma RunColumnSafeIff(column: seq<Option<Version>>, group: set<nat>, first: nat, past: nat, out: Option<Version>, since: nat)
    requires IsRun(group, first, past) && past <= |column|
    ensures ColumnSafe(column, group, first, out, since) <==>
            || Newest(column[past..]).Some?
            || Newest(column[first..past]).None?
            || ReadSince(OrElse(out, Newest(column[..first])), since) == ReadSince(Newest(column[first..past]), since)
  {
    var newest := NewestInGroup(column, group);
    if newest < first {
      NothingHeld(column[first..past]);
    } else {
      NothingUnselected(column[..newest], group, first);
      NothingHeld(column[newest + 1..past]);
      assert column[newest + 1..] == column[newest + 1..past] + column[past..];
      NewestConcat(column[newest + 1..past], column[past..]);
      assert column[first..past] == column[first..newest + 1] + column[newest + 1..past];
      NewestConcat(column[first..newest + 1], column[newest + 1..past]);
      assert Newest(column[first..newest + 1]) == column[newest];
    }
  }

  /** A run overtakes nothing: only what compaction misses of it, and what that uncovers, can go wrong. */
  lemma RunSafeIff(files: seq<File>, loaded: set<nat>, group: set<nat>, first: nat, past: nat, seen: seq<RangeTombstone>,
                   clock: Bytes -> nat, later: seq<RangeTombstone>, key: Bytes)
    requires IsRun(group, first, past) && past <= |files|
    ensures LaterSafe(files, loaded, group, first, seen, clock, later, key) <==>
            || Lookup(files[past..], key).Some?
            || Lookup(files[first..past], key).None?
            || ReadSince(OrElse(Made(Selected(files, group * loaded), seen, clock, key), Lookup(files[..first], key)),
                         Since(later, key))
               == ReadAt(files[first..past], later, key)
  {
    var column := Column(files, key);
    assert Column(files[..first], key) == column[..first];
    assert Column(files[first..past], key) == column[first..past];
    assert Column(files[past..], key) == column[past..];
    RunColumnSafeIff(column, group, first, past, Made(Selected(files, group * loaded), seen, clock, key), Since(later, key));
  }

  lemma {:induction false} NoneSelected<T>(s: seq<T>, group: set<nat>)
    requires forall i: nat :: i < |s| ==> i !in group
    ensures Selected(s, group) == []
  {
    if s != [] {
      NoneSelected(s[..|s| - 1], group);
    }
  }

  lemma {:induction false} RunSelectedFrom<T>(s: seq<T>, group: set<nat>, first: nat, past: nat)
    requires IsRun(group, first, past) && first <= |s| <= past
    ensures Selected(s, group) == s[first..]
  {
    if first == |s| {
      NoneSelected(s, group);
    } else {
      var n := |s| - 1;
      RunSelectedFrom(s[..n], group, first, past);
      assert n in group && s[first..] == s[..n][first..] + [s[n]];
    }
  }

  lemma {:induction false} RunIsSelected<T>(s: seq<T>, group: set<nat>, first: nat, past: nat)
    requires IsRun(group, first, past) && past <= |s|
    ensures Selected(s, group) == s[first..past]
  {
    var n := |s| - 1;
    if past < |s| {
      RunIsSelected(s[..n], group, first, past);
      assert n !in group && s[..n][first..past] == s[first..past];
    } else {
      RunSelectedFrom(s, group, first, past);
    }
  }

  /**
   * A run in memory, at a key no range tombstone covers: the read is kept unless
   * nothing newer holds the key, the run's newest record has no value, and an older
   * table reads differently.
   */
  lemma NeighbourRunSafeIff(files: seq<File>, loaded: set<nat>, group: set<nat>, first: nat, past: nat,
                            seen: seq<RangeTombstone>, key: Bytes)
    requires IsRun(group, first, past) && past <= |files| && group <= loaded && !Covered(seen, key)
    ensures var top := Lookup(files[first..past], key);
            KeySafe(files, loaded, group, first, seen, key) <==>
            !(&& Lookup(files[past..], key).None?
              && top.Some? && Raw(top.value) == []
              && ReadAt(files[..first], seen, key) != ReadAt(files[first..past], seen, key))
  {
    var clock: Bytes -> nat := _ => 0;
    ClockHasNoPart(files, loaded, group, first, seen, clock, key);
    RunSafeIff(files, loaded, group, first, past, seen, clock, seen, key);
    assert group * loaded == group;
    RunIsSelected(files, group, first, past);
    CoveredIff(seen, key);
    KeptOverOlderIff(Lookup(files[first..past], key), Lookup(files[..first], key), clock(key));
  }

  lemma KeptOverOlderIff(top: Option<Version>, older: Option<Version>, stamp: nat)
    ensures top.None? || ReadSince(OrElse(KeptAs(top, Some(stamp)), older), 0) == ReadSince(top, 0)
            <==> !(top.Some? && Raw(top.value) == [] && ReadSince(older, 0) != ReadSince(top, 0))
  {
  }

  /** A run from the oldest table on, in memory or not: what compaction sees of it must read like it does. */
  lemma OldestRunSafeIff(files: seq<File>, loaded: set<nat>, group: set<nat>, past: nat, seen: seq<RangeTombstone>,
                         clock: Bytes -> nat, later: seq<RangeTombstone>, key: Bytes)
    requires IsRun(group, 0, past) && past <= |files|
    ensures LaterSafe(files, loaded, group, 0, seen, clock, later, key) <==>
            || Lookup(files[past..], key).Some?
            || ReadSince(Made(Selected(files, group * loaded), seen, clock, key), Since(later, key))
               == ReadAt(files[..past], later, key)
  {
    var column := Column(files, key);
    assert files[0..past] == files[..past];
    RunSafeIff(files, loaded, group, 0, past, seen, clock, later, key);
    assert Column(files[..past], key) == column[..past];
    if Lookup(files[..past], key).None? {
      NewestBefore(column[..past], group, 0);
      var newest := NewestInGroup(column, group);
      if newest >= 0 {
        HeldIsFound(column[..past], newest);
      }
      NothingMade(files, group, group * loaded, seen, clock, key);
    }
  }

  lemma {:induction false} HeldIsFound<V>(column: seq<Option<V>>, i: nat)
    requires i < |column| && column[i].Some?
    ensures Newest(column).Some?
  {
    if i < |column| - 1 {
      HeldIsFound(column[..|column| - 1], i);
    }
  }

  /** In memory, and at a key no range tombstone covers, such a run is safe unless it reads as an empty value. */
  lemma OldestRunIsSafe(files: seq<File>, loaded: set<nat>, group: set<nat>, past: nat, seen: seq<RangeTombstone>, key: Bytes)
    requires IsRun(group, 0, past) && past <= |files| && group <= loaded && !Covered(seen, key)
    ensures KeySafe(files, loaded, group, 0, seen, key) <==>
            Lookup(files[past..], key).Some? || ReadAt(files[..past], seen, key) != Some([])
  {
    var clock: Bytes -> nat := _ => 0;
    ClockHasNoPart(files, loaded, group, 0, seen, clock, key);
    OldestRunSafeIff(files, loaded, group, past, seen, clock, seen, key);
    LoadedIsSelected(files, loaded, group, past);
    CoveredIff(seen, key);
    KeptReadsIff(Lookup(files[..past], key), clock(key));
  }

  lemma LoadedIsSelected<T>(s: seq<T>, loaded: set<nat>, group: set<nat>, past: nat)
    requires IsRun(group, 0, past) && past <= |s| && group <= loaded
    ensures Selected(s, group * loaded) == s[..past]
  {
    assert group * loaded == group && s[0..past] == s[..past];
    RunIsSelected(s, group, 0, past);
  }

  lemma KeptReadsIff(entry: Option<Version>, stamp: nat)
    ensures ReadSince(KeptAs(entry, Some(stamp)), 0) == ReadSince(entry, 0) <==> ReadSince(entry, 0) != Some([])
  {
  }

  function AllBelow(n: nat): (positions: set<nat>)
  {
    if n == 0 then {} else AllBelow(n - 1) + {n - 1}
  }

  lemma {:induction false} AllBelowAre(n: nat)
    ensures forall i: nat :: i in AllBelow(n) <==> i < n
  {
    if n > 0 {
      AllBelowAre(n - 1);
    }
  }

  lemma WholeListReplaced<T>(tables: seq<T>, outs: seq<T>)
    ensures Replaced(tables, AllBelow(|tables|), 0, outs) == outs
  {
    AllBelowAre(|tables|);
    NothingUnselected(tables, AllBelow(|tables|), 0);
  }

  /** Compacting all tables, all in memory, loses the empty values and keeps every other uncovered read. */
  lemma WholeListReadsIff(files: seq<File>, outs: seq<File>, seen: seq<RangeTombstone>, clock: Bytes -> nat, key: Bytes)
    requires files != [] && AreMadeFrom(outs, files, seen, clock) && !Covered(seen, key)
    ensures ReadAt(outs, seen, key) == ReadAt(files, seen, key) <==> ReadAt(files, seen, key) != Some([])
  {
    var all := AllBelow(|files|);
    AllBelowAre(|files|);
    LoadedIsSelected(files, all, all, |files|);
    assert files[..|files|] == files && files[|files|..] == [];
    WholeListReplaced(files, outs);
    KeyReadPreservedIff(files, all, all, 0, outs, seen, clock, key);
    OldestRunIsSafe(files, all, all, |files|, seen, key);
  }

  /** Compacting all tables when none is in memory, as after a restart, loses every key. */
  lemma RecoveredListIsLost(files: seq<File>, outs: seq<File>, seen: seq<RangeTombstone>, clock: Bytes -> nat,
                            later: seq<RangeTombstone>, key: Bytes)
    requires AreMadeFrom(outs, Selected(files, AllBelow(|files|) * {}), seen, clock)
    ensures ReadAt(Replaced(files, AllBelow(|files|), 0, outs), later, key) == None
  {
    WholeListReplaced(files, outs);
    NoneSelected(files, AllBelow(|files|) * {});
    assert Lookup(outs, key) == Made([], seen, clock, key);
  }

  // ---------------------------------------------------------------------------
  // Failing inputs
  // ---------------------------------------------------------------------------

  /** Dropping a tombstone while an older table still holds the key brings the value back. */
  lemma DroppedTombstoneUncoversOldValue(key: Bytes, before: Version, deleted: nat, other: File, outs: seq<File>, clock: Bytes -> nat)
    requires before.Put? && key !in other && AreMadeFrom(outs, [map[key := Deleted(deleted)], other], [], clock)
    ensures var files: seq<File> := [map[key := before], map[key := Deleted(deleted)], other];
            && Selected(files, {1, 2}) == [map[key := Deleted(deleted)], other]
            && ReadAt(files, [], key) == None && ReadAt(Replaced(files, {1, 2}, 1, outs), [], key) == Some(before.value)
  {
    var files: seq<File> := [map[key := before], map[key := Deleted(deleted)], other];
    var run: set<nat> := {1, 2};
    assert IsRun(run, 1, 3);
    RunIsSelected(files, run, 1, 3);
    assert files[1..3] == [map[key := Deleted(deleted)], other];
    NothingUnselected(files, run, 1);
    assert Replaced(files, run, 1, outs) == [files[0]] + outs;
    LookupConcat([files[0]], outs, key);
    LookupOne(files[0], key);
    TwoLookup(map[key := Deleted(deleted)], other, key);
    LookupConcat([files[0]], files[1..3], key);
    assert files == [files[0]] + files[1..3];
  }

  lemma TwoLookup(older: File, newer: File, key: Bytes)
    ensures Lookup([older, newer], key)
            == if key in newer then Some(newer[key]) else if key in older then Some(older[key]) else None
  {
    LookupConcat([older], [newer], key);
    LookupOne(older, key);
    LookupOne(newer, key);
    assert [older] + [newer] == [older, newer];
  }

  /** An empty value is read, and gone after the compaction. */
  lemma EmptyValueIsLost(key: Bytes, written: nat, outs: seq<File>, clock: Bytes -> nat)
    requires AreMadeFrom(outs, [map[key := Put([], written)]], [], clock)
    ensures ReadAt([map[key := Put([], written)]], [], key) == Some([]) && ReadAt(outs, [], key) == None
  {
    LookupOne(map[key := Put([], written)], key);
  }

  // ---------------------------------------------------------------------------
  // Range deletes
  // ---------------------------------------------------------------------------

  /** Compacting every table keeps the read of a covered key iff it read as deleted: later writes are lost. */
  lemma FullCompactionLosesLaterWriteIff(files: seq<File>, outs: seq<File>, seen: seq<RangeTombstone>, clock: Bytes -> nat, key: Bytes)
    requires AreMadeFrom(outs, files, seen, clock) && Covered(seen, key)
    ensures ReadAt(outs, seen, key) == ReadAt(files, seen, key) <==> ReadAt(files, seen, key) == None
  {
    assert Lookup(outs, key) == Made(files, seen, clock, key);
  }

  /** A record written one tick after the range delete that covers it is readable, and compaction loses it. */
  lemma LaterWriteIsLost(outs: seq<File>, clock: Bytes -> nat)
    requires AreMadeFrom(outs, [map[[1] := Put([7], 6)]], [RangeTombstone([0], [9], 5)], clock)
    ensures var files: seq<File>, seen := [map[[1] := Put([7], 6)]], [RangeTombstone([0], [9], 5)];
            ReadAt(files, seen, [1]) == Some([7]) && ReadAt(outs, seen, [1]) == None
  {
    var file: File, late := map[[1] := Put([7], 6)], RangeTombstone([0], [9], 5);
    var key: Bytes := [1];
    assert Less([0], key) && Covers(late, key) && !Covered([], key);
    LateIsNewest([], late, key);
    assert [] + [late] == [late] && Covers([late][0], key);
    LookupOne(file, key);
    assert Lookup(outs, key) == Made([file], [late], clock, key);
  }

  lemma LateIsNewest(tombstones: seq<RangeTombstone>, late: RangeTombstone, key: Bytes)
    requires !Covered(tombstones, key) && Covers(late, key)
    ensures Since(tombstones + [late], key) == late.timestamp
  {
    CoveredIff(tombstones, key);
    assert (tombstones + [late])[..|tombstones|] == tombstones;
  }

  predicate IsSince(entry: Option<Version>, since: nat)
  {
    entry.Some? && entry.value.timestamp >= since
  }

  /**
   * A range delete that took its timestamp before a compaction of all files and its
   * place in the list after it. A key it covers reads as without the compaction iff
   * its record was written on the same side of the delete as it was stamped anew,
   * or has no value and is hidden by the delete.
   */
  lemma LateTombstoneIff(files: seq<File>, outs: seq<File>, seen: seq<RangeTombstone>, late: RangeTombstone,
                         clock: Bytes -> nat, key: Bytes)
    requires AreMadeFrom(outs, files, seen, clock) && !Covered(seen, key) && Covers(late, key)
    ensures var record := Lookup(files, key);
            ReadAt(outs, seen + [late], key) == ReadAt(files, seen + [late], key)
            <==> if record.Some? && Raw(record.value) != [] then
                   clock(key) >= late.timestamp <==> IsSince(record, late.timestamp)
                 else
                   ReadSince(record, late.timestamp) == None
  {
    LateIsNewest(seen, late, key);
    assert Lookup(outs, key) == Made(files, seen, clock, key);
  }

  /** A record written at 3 and deleted at 5 reads as deleted, and is back after a compaction that restamps it. */
  lemma RestampedRecordOutlivesDelete(outs: seq<File>, clock: Bytes -> nat)
    requires AreMadeFrom(outs, [map[[1] := Put([7], 3)]], [], clock) && clock([1]) >= 5
    ensures var files: seq<File>, later := [map[[1] := Put([7], 3)]], [RangeTombstone([0], [9], 5)];
            ReadAt(files, later, [1]) == None && ReadAt(outs, later, [1]) == Some([7])
  {
    var file: File, late := map[[1] := Put([7], 3)], RangeTombstone([0], [9], 5);
    var key: Bytes := [1];
    assert Less([0], key) && Covers(late, key) && !Covered([], key);
    LateIsNewest([], late, key);
    assert [] + [late] == [late];
    LookupOne(file, key);
    assert Lookup(outs, key) == Made([file], [], clock, key);
  }
}
