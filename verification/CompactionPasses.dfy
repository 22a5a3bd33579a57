/**
 * What one pass over the table list, replacing several groups by their
 * compactions, does to reads. Every group is compacted from the original list,
 * at a time of its own.
 */
module CompactionPasses {
  import opened Options
  import opened Bytes
  import opened RangeTombstones
  import opened Compaction
  import opened CompactionGroups
  import opened VersionedCompaction

  /** When a group's compaction writes a key's record; groups are named by their oldest position. */
  type Clock = nat -> Bytes -> nat

  // ---------------------------------------------------------------------------
  // One key
  // ---------------------------------------------------------------------------

  /** Only the group that holds the newest record can be unsafe, in the column the other groups leave. */
  ghost predicate ColumnPassSafe(column: seq<Option<Version>>, slots: seq<Slot<Version>>, since: nat)
  {
    forall r :: 0 <= r < |slots| && NewestAt(column) >= 0 && NewestAt(column) in slots[r].group.positions ==>
      GroupSafe(column, slots, r, since)
  }

  ghost predicate GroupSafe(column: seq<Option<Version>>, slots: seq<Slot<Version>>, r: nat, since: nat)
    requires r < |slots|
  {
    var slot := slots[r];
    slot.group.first <= |column|
    && ColumnSafe(Left(column, Without(slots, r)), slot.group.positions, slot.group.first, slot.out, since)
  }

  /** Replacing group `r` after the others keeps what is read iff it is safe there. */
  lemma TurnReadPreservedIff(column: seq<Option<Version>>, slots: seq<Slot<Version>>, r: nat, since: nat)
    requires Disjoint(GroupsIn(slots)) && Faithful(column, slots) && r < |slots| && slots[r].group.first < |column|
    ensures ReadSince(Newest(Left(column, slots)), since) == ReadSince(Newest(Left(column, Without(slots, r))), since)
            <==> GroupSafe(column, slots, r, since)
  {
    var rest, group, first := Left(column, Without(slots, r)), slots[r].group.positions, slots[r].group.first;
    assert IsFirst(GroupsIn(slots)[r].positions, GroupsIn(slots)[r].first);
    OneAfterTheOthers(column, slots, r);
    NewestInPlace(rest, slots[r]);
    if NewestInGroup(rest, group) < 0 {
      StillNothing(column, slots, r);
    }
    ColumnReadPreservedIff(rest, group, first, slots[r].out, since);
  }

  lemma StillNothing(column: seq<Option<Version>>, slots: seq<Slot<Version>>, r: nat)
    requires Disjoint(GroupsIn(slots)) && Faithful(column, slots) && r < |slots|
    requires NewestInGroup(Left(column, Without(slots, r)), slots[r].group.positions) < 0
    ensures slots[r].out.None?
  {
    var group := slots[r].group;
    TurnIsUntouched(column, slots, r);
    NewestSelected(Left(column, Without(slots, r)), group.positions);
    NewestSelected(column, group.positions);
    assert !Holds(column, group);
  }

  lemma ColumnPassIff(column: seq<Option<Version>>, slots: seq<Slot<Version>>, since: nat)
    requires Disjoint(GroupsIn(slots)) && Faithful(column, slots)
    ensures ReadSince(Newest(Left(column, slots)), since) == ReadSince(Newest(column), since)
            <==> ColumnPassSafe(column, slots, since)
  {
    var groups, p := GroupsIn(slots), NewestAt(column);
    if p >= 0 && Taken(groups, p) {
      var r :| 0 <= r < |groups| && p in groups[r].positions;
      assert IsFirst(groups[r].positions, groups[r].first) && groups[r] == slots[r].group;
      OthersKeepNewest(column, slots, r);
      TurnReadPreservedIff(column, slots, r, since);
      OnlyGroup(slots, r, p);
    } else {
      NewestStays(column, slots);
      forall r | 0 <= r < |slots| && p >= 0 ensures p !in slots[r].group.positions {
        assert groups[r] == slots[r].group;
      }
    }
  }

  lemma OnlyGroup(slots: seq<Slot<Version>>, r: nat, p: nat)
    requires Disjoint(GroupsIn(slots)) && r < |slots| && p in slots[r].group.positions
    ensures forall q :: 0 <= q < |slots| && p in slots[q].group.positions ==> q == r
  {
    FirstsApart(GroupsIn(slots), r, p);
    forall q | 0 <= q < |slots| && p in slots[q].group.positions ensures q == r {
      assert GroupsIn(slots)[q] == slots[q].group;
    }
  }

  // ---------------------------------------------------------------------------
  // The table list
  // ---------------------------------------------------------------------------

  /** What each group becomes at a key: the compaction of what is in memory of it. */
  ghost function MadeSlots(files: seq<File>, loaded: set<nat>, groups: seq<Group>, seen: seq<RangeTombstone>,
                           clock: Clock, key: Bytes): (slots: seq<Slot<Version>>)
    ensures |slots| == |groups|
    ensures forall r :: 0 <= r < |groups| ==>
              slots[r] == Slot(groups[r], Made(Selected(files, groups[r].positions * loaded), seen, clock(groups[r].first), key))
  {
    seq(|groups|, r requires 0 <= r < |groups| =>
      Slot(groups[r], Made(Selected(files, groups[r].positions * loaded), seen, clock(groups[r].first), key)))
  }

  lemma MadeIsFaithful(files: seq<File>, loaded: set<nat>, groups: seq<Group>, seen: seq<RangeTombstone>,
                       clock: Clock, key: Bytes)
    ensures Faithful(Column(files, key), MadeSlots(files, loaded, groups, seen, clock, key))
    ensures GroupsIn(MadeSlots(files, loaded, groups, seen, clock, key)) == groups
  {
    var column, slots := Column(files, key), MadeSlots(files, loaded, groups, seen, clock, key);
    forall r | 0 <= r < |slots| && !Holds(column, slots[r].group) ensures slots[r].out.None? {
      var group := groups[r].positions;
      assert NewestInGroup(column, group) < 0;
      NothingMade(files, group, group * loaded, seen, clock(groups[r].first), key);
    }
  }

  /** Every replacement is the compaction of its group in the original list. */
  ghost predicate AreMade(plan: seq<Replacement<File>>, files: seq<File>, loaded: set<nat>, seen: seq<RangeTombstone>, clock: Clock)
  {
    forall r :: 0 <= r < |plan| ==>
      AreMadeFrom(plan[r].outs, Selected(files, plan[r].group.positions * loaded), seen, clock(plan[r].group.first))
  }

  lemma SlotsAreMade(files: seq<File>, loaded: set<nat>, plan: seq<Replacement<File>>, seen: seq<RangeTombstone>,
                     clock: Clock, key: Bytes)
    requires AreMade(plan, files, loaded, seen, clock)
    ensures SlotsOf(plan, key) == MadeSlots(files, loaded, GroupsOf(plan), seen, clock, key)
  {
    forall r | 0 <= r < |plan|
      ensures SlotsOf(plan, key)[r] == MadeSlots(files, loaded, GroupsOf(plan), seen, clock, key)[r]
    {
      assert AreMadeFrom(plan[r].outs, Selected(files, plan[r].group.positions * loaded), seen, clock(plan[r].group.first));
    }
  }

  /** A condition on the tables before the pass, the groups, the clock, and the range tombstones then and later. */
  ghost predicate PassSafe(files: seq<File>, loaded: set<nat>, groups: seq<Group>, seen: seq<RangeTombstone>,
                           clock: Clock, later: seq<RangeTombstone>, key: Bytes)
  {
    ColumnPassSafe(Column(files, key), MadeSlots(files, loaded, groups, seen, clock, key), Since(later, key))
  }

  /** Adding one group to a pass keeps the read of a key iff it is safe in what the others leave. */
  lemma StepReadPreservedIff(files: seq<File>, loaded: set<nat>, plan: seq<Replacement<File>>, seen: seq<RangeTombstone>,
                             clock: Clock, later: seq<RangeTombstone>, key: Bytes, r: nat)
    requires Disjoint(GroupsOf(plan)) && AreMade(plan, files, loaded, seen, clock)
    requires r < |plan| && plan[r].group.first < |files|
    ensures ReadAt(ReplacedAll(files, plan), later, key) == ReadAt(ReplacedAll(files, Without(plan, r)), later, key)
            <==> GroupSafe(Column(files, key), MadeSlots(files, loaded, GroupsOf(plan), seen, clock, key), r, Since(later, key))
  {
    PassIsOneByOne(files, plan, key, r);
    PassReads(files, plan, key);
    SlotsAreMade(files, loaded, plan, seen, clock, key);
    MadeIsFaithful(files, loaded, GroupsOf(plan), seen, clock, key);
    TurnReadPreservedIff(Column(files, key), SlotsOf(plan, key), r, Since(later, key));
  }

  /**
   * For every plan, every key, and any range tombstones then and later: the pass
   * keeps the read iff no table holds the key, or its newest record is in no group,
   * or the group it is in is safe in the column the other groups leave.
   */
  lemma PassReadPreservedIff(files: seq<File>, loaded: set<nat>, plan: seq<Replacement<File>>, seen: seq<RangeTombstone>,
                             clock: Clock, later: seq<RangeTombstone>, key: Bytes)
    requires Disjoint(GroupsOf(plan)) && AreMade(plan, files, loaded, seen, clock)
    ensures ReadAt(ReplacedAll(files, plan), later, key) == ReadAt(files, later, key)
            <==> PassSafe(files, loaded, GroupsOf(plan), seen, clock, later, key)
  {
    PassReads(files, plan, key);
    SlotsAreMade(files, loaded, plan, seen, clock, key);
    MadeIsFaithful(files, loaded, GroupsOf(plan), seen, clock, key);
    ColumnPassIff(Column(files, key), SlotsOf(plan, key), Since(later, key));
  }

  // ---------------------------------------------------------------------------
  // Failing inputs
  // ---------------------------------------------------------------------------

  /**
   * Two groups, one around the other and both around a table of their own: neither
   * is safe, and the read goes back to the table in the middle.
   */
  lemma NestedGoBackToMiddle(key: Bytes, files: seq<File>, outer: seq<File>, inner: seq<File>)
    requires |files| == 5 && forall i :: 0 <= i < 5 ==> key in files[i]
    ensures var plan := [Replacement(Group({0, 4}, 0), outer), Replacement(Group({1, 3}, 1), inner)];
            && Disjoint(GroupsOf(plan)) && Lookup(files, key) == Some(files[4][key])
            && Lookup(ReplacedAll(files, plan), key) == Some(files[2][key])
  {
    var plan := [Replacement(Group({0, 4}, 0), outer), Replacement(Group({1, 3}, 1), inner)];
    assert GroupsOf(plan) == [Group({0, 4}, 0), Group({1, 3}, 1)] == GroupsIn(SlotsOf(plan, key));
    NestedIsDisjoint();
    PassReads(files, plan, key);
    NestedColumn(Column(files, key), SlotsOf(plan, key));
    NewestIs(Column(files, key), 4);
  }

  lemma NestedIsDisjoint()
    ensures Disjoint([Group({0, 4}, 0), Group({1, 3}, 1)])
  {
  }

  lemma NestedColumn<V>(column: seq<Option<V>>, slots: seq<Slot<V>>)
    requires |column| == 5 && column[2].Some? && GroupsIn(slots) == [Group({0, 4}, 0), Group({1, 3}, 1)]
    ensures Newest(Left(column, slots)) == column[2]
  {
    var groups := GroupsIn(slots);
    assert slots[0].group == groups[0] && slots[1].group == groups[1];
    OutAtNone(slots, 3);
    OutAtNone(slots, 4);
    assert 4 in groups[0].positions && 3 in groups[1].positions && !Taken(groups, 2);
    NewestIs(Left(column, slots), 2);
  }

  /**
   * The groups of a pass are stamped one after another. A range delete between the
   * two stamps hides the key before the pass, and after it an older value is read.
   */
  lemma StampsApartReviveOlderValue(key: Bytes, files: seq<File>, outer: seq<File>, inner: seq<File>, clock: Clock,
                                    late: RangeTombstone)
    requires |files| == 4 && (forall i :: 0 <= i < 4 ==> key in files[i]) && Raw(files[2][key]) != []
    requires Covers(late, key) && files[3][key].timestamp < late.timestamp
    requires clock(0)(key) < late.timestamp <= clock(1)(key)
    requires AreMade([Replacement(Group({0, 3}, 0), outer), Replacement(Group({1, 2}, 1), inner)],
                     files, AllBelow(4), [], clock)
    ensures var plan := [Replacement(Group({0, 3}, 0), outer), Replacement(Group({1, 2}, 1), inner)];
            && Disjoint(GroupsOf(plan)) && ReadAt(files, [late], key) == None
            && ReadAt(ReplacedAll(files, plan), [late], key) == Some(Raw(files[2][key]))
  {
    var plan := [Replacement(Group({0, 3}, 0), outer), Replacement(Group({1, 2}, 1), inner)];
    LateAlone(late, key);
    NewestIs(Column(files, key), 3);
    AroundLookup(key, files, outer, inner);
    assert AreMadeFrom(plan[1].outs, Selected(files, plan[1].group.positions * AllBelow(4)), [], clock(1));
    InnerIsMade(files, inner, clock(1), key, plan[1]);
  }

  lemma LateAlone(late: RangeTombstone, key: Bytes)
    requires Covers(late, key)
    ensures Since([late], key) == late.timestamp
  {
    assert !Covered([], key) && [] + [late] == [late];
    LateIsNewest([], late, key);
  }

  lemma AroundLookup(key: Bytes, files: seq<File>, outer: seq<File>, inner: seq<File>)
    requires |files| == 4
    ensures var plan := [Replacement(Group({0, 3}, 0), outer), Replacement(Group({1, 2}, 1), inner)];
            && Disjoint(GroupsOf(plan))
            && (Lookup(inner, key).Some? ==> Lookup(ReplacedAll(files, plan), key) == Lookup(inner, key))
  {
    var plan := [Replacement(Group({0, 3}, 0), outer), Replacement(Group({1, 2}, 1), inner)];
    assert GroupsOf(plan) == [Group({0, 3}, 0), Group({1, 2}, 1)] == GroupsIn(SlotsOf(plan, key));
    AroundIsDisjoint();
    PassReads(files, plan, key);
    if Lookup(inner, key).Some? {
      AroundColumn(Column(files, key), SlotsOf(plan, key));
    }
  }

  lemma AroundIsDisjoint()
    ensures Disjoint([Group({0, 3}, 0), Group({1, 2}, 1)])
  {
  }

  lemma InnerIsMade(files: seq<File>, inner: seq<File>, clock: Bytes -> nat, key: Bytes, step: Replacement<File>)
    requires |files| == 4 && (forall i :: 0 <= i < 4 ==> key in files[i]) && Raw(files[2][key]) != []
    requires step == Replacement(Group({1, 2}, 1), inner)
    requires AreMadeFrom(inner, Selected(files, step.group.positions * AllBelow(4)), [], clock)
    ensures Lookup(inner, key) == Some(Put(Raw(files[2][key]), clock(key)))
  {
    var run := step.group.positions;
    AllBelowAre(4);
    assert IsRun(run, 1, 3) && run * AllBelow(4) == run;
    RunIsSelected(files, run, 1, 3);
    assert files[1..3] == [files[1], files[2]];
    TwoLookup(files[1], files[2], key);
    assert Lookup(inner, key) == Made(files[1..3], [], clock, key);
  }

  lemma AroundColumn<V>(column: seq<Option<V>>, slots: seq<Slot<V>>)
    requires |column| == 4 && GroupsIn(slots) == [Group({0, 3}, 0), Group({1, 2}, 1)] && slots[1].out.Some?
    ensures Newest(Left(column, slots)) == slots[1].out
  {
    var groups := GroupsIn(slots);
    assert slots[0].group == groups[0] && slots[1].group == groups[1];
    OutAtNone(slots, 2);
    OutAtNone(slots, 3);
    OutAtOf(slots, 1);
    assert 3 in groups[0].positions && 2 in groups[1].positions && 1 in groups[1].positions;
    NewestIs(Left(column, slots), 1);
  }
}
