/**
 * The table list and its compactions: tables are added as the newest, groups of
 * them are replaced by their compaction, and a plan made in the background is
 * applied only to the list it was made from.
 */
module VersionSets {
  import opened Options
  import opened Bytes
  import opened RangeTombstones
  import opened Rows
  import opened Compaction
  import opened CompactionGroups
  import opened VersionedCompaction
  import opened CompactionPasses
  import opened StoredTables

  /** Positions to remove, as the caller lists them, and the tables to put in their place. */
  datatype Request<T> = Request(positions: set<nat>, outs: seq<T>)

  /** The least position from `from` on that is below `n` and in the set, or `n`. */
  function LeastFrom(positions: set<nat>, from: nat, n: nat): (least: nat)
    requires from <= n
    ensures from <= least <= n && (least < n ==> least in positions)
    ensures forall i :: from <= i < least ==> i !in positions
    decreases n - from
  {
    if from == n || from in positions then from else LeastFrom(positions, from + 1, n)
  }

  /** The groups that name a table of the list, each with its oldest position. */
  function PlanOf<T>(n: nat, requests: seq<Request<T>>): (plan: seq<Replacement<T>>)
  {
    if requests == [] then []
    else
      var last := requests[|requests| - 1];
      var first := LeastFrom(last.positions, 0, n);
      PlanOf(n, requests[..|requests| - 1])
      + if first < n then [Replacement(Group(last.positions, first), last.outs)] else []
  }

  function PositionsOf<T>(requests: seq<Request<T>>): (groups: seq<set<nat>>)
    ensures |groups| == |requests| && forall r :: 0 <= r < |requests| ==> groups[r] == requests[r].positions
  {
    seq(|requests|, r requires 0 <= r < |requests| => requests[r].positions)
  }

  /** The groups of the plan. */
  function InRange(n: nat, groups: seq<set<nat>>): (inRange: seq<Group>)
  {
    if groups == [] then []
    else
      var last := groups[|groups| - 1];
      var first := LeastFrom(last, 0, n);
      InRange(n, groups[..|groups| - 1]) + if first < n then [Group(last, first)] else []
  }

  lemma {:induction false} PlanGroups<T>(n: nat, requests: seq<Request<T>>)
    ensures GroupsOf(PlanOf(n, requests)) == InRange(n, PositionsOf(requests))
  {
    if requests != [] {
      PlanGroups(n, requests[..|requests| - 1]);
      assert PositionsOf(requests)[..|requests| - 1] == PositionsOf(requests[..|requests| - 1]);
    }
  }

  lemma {:induction false} PlanMembers<T>(n: nat, requests: seq<Request<T>>)
    ensures forall step :: step in PlanOf(n, requests) ==>
              && IsFirst(step.group.positions, step.group.first)
              && step.group.first == LeastFrom(step.group.positions, 0, n) < n
              && exists r :: 0 <= r < |requests| && requests[r] == Request(step.group.positions, step.outs)
  {
    if requests != [] {
      var init, last := requests[..|requests| - 1], requests[|requests| - 1];
      PlanMembers(n, init);
      var first := LeastFrom(last.positions, 0, n);
      forall step | step in PlanOf(n, requests)
        ensures IsFirst(step.group.positions, step.group.first)
        ensures step.group.first == LeastFrom(step.group.positions, 0, n) < n
        ensures exists r :: 0 <= r < |requests| && requests[r] == Request(step.group.positions, step.outs)
      {
        if step in PlanOf(n, init) {
          var r :| 0 <= r < |init| && init[r] == Request(step.group.positions, step.outs);
          assert requests[r] == init[r];
        } else {
          assert step == Replacement(Group(last.positions, first), last.outs);
          assert requests[|requests| - 1] == Request(step.group.positions, step.outs);
        }
      }
    }
  }

  lemma {:induction false} PlanIsDisjoint<T>(n: nat, requests: seq<Request<T>>)
    requires Apart(PositionsOf(requests))
    ensures Disjoint(GroupsOf(PlanOf(n, requests)))
  {
    if requests != [] {
      var init, last := requests[..|requests| - 1], requests[|requests| - 1];
      assert PositionsOf(init) == PositionsOf(requests)[..|init|];
      PlanIsDisjoint(n, init);
      PlanMembers(n, init);
      var before, first := PlanOf(n, init), LeastFrom(last.positions, 0, n);
      if first < n {
        var groups := GroupsOf(before + [Replacement(Group(last.positions, first), last.outs)]);
        assert groups == GroupsOf(before) + [Group(last.positions, first)];
        forall q | 0 <= q < |before| ensures groups[q].positions !! last.positions {
          assert before[q] in before;
          var r :| 0 <= r < |init| && init[r] == Request(before[q].group.positions, before[q].outs);
          assert PositionsOf(requests)[r] !! PositionsOf(requests)[|requests| - 1];
        }
      } else {
        assert PlanOf(n, requests) == before;
      }
    }
  }

  // ---------------------------------------------------------------------------
  // Tables and their files
  // ---------------------------------------------------------------------------

  ghost function FilePlan(plan: seq<Replacement<Stored>>): (files: seq<Replacement<File>>)
    ensures |files| == |plan|
    ensures forall r :: 0 <= r < |plan| ==> files[r] == Replacement(plan[r].group, Files(plan[r].outs))
  {
    seq(|plan|, r requires 0 <= r < |plan| => Replacement(plan[r].group, Files(plan[r].outs)))
  }

  lemma {:induction false} FilesOutsAt(plan: seq<Replacement<Stored>>, n: nat)
    ensures Files(OutsAt(plan, n)) == OutsAt(FilePlan(plan), n)
  {
    if plan != [] {
      FilesOutsAt(plan[..|plan| - 1], n);
      assert FilePlan(plan)[..|plan| - 1] == FilePlan(plan[..|plan| - 1]);
    }
  }

  lemma {:induction false} FilesReplacedAll(tables: seq<Stored>, plan: seq<Replacement<Stored>>)
    ensures Files(ReplacedAll(tables, plan)) == ReplacedAll(Files(tables), FilePlan(plan))
  {
    if tables != [] {
      var n := |tables| - 1;
      FilesReplacedAll(tables[..n], plan);
      FilesOutsAt(plan, n);
      assert Files(tables)[..n] == Files(tables[..n]);
      assert GroupsOf(FilePlan(plan)) == GroupsOf(plan);
      FilesConcat(ReplacedAll(tables[..n], plan), OutsAt(plan, n));
      FilesConcat(ReplacedAll(tables[..n], plan) + OutsAt(plan, n),
                  if Taken(GroupsOf(plan), n) then [] else [tables[n]]);
      assert Files([tables[n]]) == [Files(tables)[n]];
    }
  }

  lemma {:induction false} OutsAtInOrder(plan: seq<Replacement<Stored>>, n: nat)
    requires forall r :: 0 <= r < |plan| ==> AllInOrder(plan[r].outs)
    ensures AllInOrder(OutsAt(plan, n))
  {
    if plan != [] {
      OutsAtInOrder(plan[..|plan| - 1], n);
    }
  }

  lemma {:induction false} ReplacedAllInOrder(tables: seq<Stored>, plan: seq<Replacement<Stored>>)
    requires AllInOrder(tables) && forall r :: 0 <= r < |plan| ==> AllInOrder(plan[r].outs)
    ensures AllInOrder(ReplacedAll(tables, plan))
  {
    if tables != [] {
      ReplacedAllInOrder(tables[..|tables| - 1], plan);
      OutsAtInOrder(plan, |tables| - 1);
    }
  }

  lemma {:induction false} NothingReplaced<T>(tables: seq<T>)
    ensures ReplacedAll(tables, []) == tables
  {
    if tables != [] {
      NothingReplaced(tables[..|tables| - 1]);
    }
  }

  /** A plan of one group is the replacement of that group. */
  lemma {:induction false} OneGroupPass<T>(tables: seq<T>, group: Group, outs: seq<T>)
    ensures ReplacedAll(tables, [Replacement(group, outs)]) == Pass(tables, group.positions, group.first, outs)
  {
    var plan := [Replacement(group, outs)];
    if tables != [] {
      var n := |tables| - 1;
      OneGroupPass(tables[..n], group, outs);
      assert OutsAt(plan[..0], n) == [];
      assert Taken(GroupsOf(plan), n) <==> n in group.positions by {
        assert GroupsOf(plan)[0] == group;
      }
    }
  }

  // ---------------------------------------------------------------------------
  // Reads
  // ---------------------------------------------------------------------------

  /** Each request puts in the compaction of what is in memory of the tables it names. */
  ghost predicate CompactRequests(requests: seq<Request<Stored>>, tables: seq<Stored>, seen: seq<RangeTombstone>, clock: Clock)
  {
    forall r :: 0 <= r < |requests| ==> IsCompactRequest(requests[r], tables, seen, clock)
  }

  ghost predicate IsCompactRequest(request: Request<Stored>, tables: seq<Stored>, seen: seq<RangeTombstone>, clock: Clock)
  {
    AreMadeFrom(Files(request.outs), Selected(Files(tables), request.positions * LoadedIn(tables)), seen,
                clock(LeastFrom(request.positions, 0, |tables|)))
  }

  /** A condition on the list before the pass, the groups, the clock, and the range tombstones then and later. */
  ghost predicate GroupsSafe(tables: seq<Stored>, groups: seq<set<nat>>, seen: seq<RangeTombstone>, clock: Clock,
                             later: seq<RangeTombstone>, key: Bytes)
  {
    PassSafe(Files(tables), LoadedIn(tables), InRange(|tables|, groups), seen, clock, later, key)
  }

  lemma PlanIsMade(tables: seq<Stored>, requests: seq<Request<Stored>>, seen: seq<RangeTombstone>, clock: Clock)
    requires CompactRequests(requests, tables, seen, clock)
    ensures AreMade(FilePlan(PlanOf(|tables|, requests)), Files(tables), LoadedIn(tables), seen, clock)
  {
    var plan := PlanOf(|tables|, requests);
    PlanMembers(|tables|, requests);
    forall r | 0 <= r < |plan|
      ensures AreMadeFrom(Files(plan[r].outs), Selected(Files(tables), plan[r].group.positions * LoadedIn(tables)), seen,
                          clock(plan[r].group.first))
    {
      assert plan[r] in plan;
      var q :| 0 <= q < |requests| && requests[q] == Request(plan[r].group.positions, plan[r].outs);
      assert IsCompactRequest(requests[q], tables, seen, clock);
    }
  }

  lemma RequestsReadIff(tables: seq<Stored>, requests: seq<Request<Stored>>, seen: seq<RangeTombstone>, clock: Clock,
                        later: seq<RangeTombstone>, key: Bytes)
    requires Apart(PositionsOf(requests)) && CompactRequests(requests, tables, seen, clock)
    ensures ReadAt(Files(ReplacedAll(tables, PlanOf(|tables|, requests))), later, key) == ReadAt(Files(tables), later, key)
            <==> GroupsSafe(tables, PositionsOf(requests), seen, clock, later, key)
  {
    var plan := PlanOf(|tables|, requests);
    PlanIsDisjoint(|tables|, requests);
    PlanGroups(|tables|, requests);
    PlanIsMade(tables, requests, seen, clock);
    FilesReplacedAll(tables, plan);
    assert GroupsOf(FilePlan(plan)) == GroupsOf(plan);
    PassReadPreservedIff(Files(tables), LoadedIn(tables), FilePlan(plan), seen, clock, later, key);
  }

  ghost predicate AllOutsInOrder(requests: seq<Request<Stored>>)
  {
    forall r :: 0 <= r < |requests| ==> AllInOrder(requests[r].outs)
  }

  lemma PassStaysInOrder(tables: seq<Stored>, requests: seq<Request<Stored>>)
    requires AllInOrder(tables) && AllOutsInOrder(requests)
    ensures AllInOrder(ReplacedAll(tables, PlanOf(|tables|, requests)))
  {
    var plan := PlanOf(|tables|, requests);
    PlanMembers(|tables|, requests);
    forall r | 0 <= r < |plan| ensures AllInOrder(plan[r].outs) {
      assert plan[r] in plan;
    }
    ReplacedAllInOrder(tables, plan);
  }

  /** With nothing in memory, as after a restart, what the size-tiered strategy picks is the whole list, and all is lost. */
  lemma RecoveredPickIsLost(tables: seq<Stored>, requests: seq<Request<Stored>>, threshold: nat, seen: seq<RangeTombstone>,
                            clock: Clock, later: seq<RangeTombstone>, key: Bytes)
    requires LoadedIn(tables) == {} && ArePicked(PositionsOf(requests), DataRows(tables), threshold) && requests != []
    requires CompactRequests(requests, tables, seen, clock)
    ensures ReadAt(Files(ReplacedAll(tables, PlanOf(|tables|, requests))), later, key) == None
  {
    var all := AllBelow(|tables|);
    RecoveredArePickedTogether(tables, PositionsOf(requests), threshold);
    assert requests == [Request(all, requests[0].outs)];
    assert IsCompactRequest(requests[0], tables, seen, clock);
    WholeListPlan(tables, requests[0].outs);
    FilesReplaced(tables, all, 0, requests[0].outs);
    RecoveredListIsLost(Files(tables), Files(requests[0].outs), seen, clock(LeastFrom(all, 0, |tables|)), later, key);
  }

  lemma WholeListPlan(tables: seq<Stored>, outs: seq<Stored>)
    requires AllBelow(|tables|) != {}
    ensures ReplacedAll(tables, PlanOf(|tables|, [Request(AllBelow(|tables|), outs)]))
            == Replaced(tables, AllBelow(|tables|), 0, outs)
  {
    var all, requests := AllBelow(|tables|), [Request(AllBelow(|tables|), outs)];
    AllBelowAre(|tables|);
    var i :| i in all;
    assert 0 in all && LeastFrom(all, 0, |tables|) == 0;
    assert PlanOf(|tables|, requests[..0]) == [];
    assert PlanOf(|tables|, requests) == [Replacement(Group(all, 0), outs)];
    OneGroupPass(tables, Group(all, 0), outs);
    PassIsReplaced(tables, all, 0, outs);
  }

  // ---------------------------------------------------------------------------
  // The list
  // ---------------------------------------------------------------------------

  class VersionSet {
    var tables: seq<Stored>
    var generation: nat
    ghost var history: seq<seq<Stored>>  // the table list at every generation so far

    ghost predicate Valid()
      reads this
    {
      && |history| == generation + 1 && history[generation] == tables
      && forall i :: 0 <= i < |history| ==> AllInOrder(history[i])
    }

    constructor ()
      ensures Valid() && tables == []
    {
      tables, generation, history := [], 0, [[]];
    }

    /** A flushed table, in memory, or one found on disk at start. */
    method AddTable(table: Stored)
      requires Valid() && Sorted(table.records)
      modifies this
      ensures Valid() && tables == old(tables) + [table]
      ensures history == old(history) + [tables]
    {
      tables := tables + [table];
      generation := generation + 1;
      history := history + [tables];
    }

    /** Positions out of range are ignored; groups with none in range change nothing. */
    method AtomicReplaceGroups(requests: seq<Request<Stored>>)
      requires Valid() && AllOutsInOrder(requests)
      modifies this
      ensures Valid() && tables == ReplacedAll(old(tables), PlanOf(|old(tables)|, requests))
      ensures history == if PlanOf(|old(tables)|, requests) == [] then old(history) else old(history) + [tables]
    {
      var plan := PlanOf(|tables|, requests);
      if plan == [] {
        NothingReplaced(tables);
        return;
      }
      PassStaysInOrder(tables, requests);
      tables := ReplaceGroups(tables, plan);
      generation := generation + 1;
      history := history + [tables];
    }

    method AtomicReplace(group: set<nat>, outs: seq<Stored>)
      requires Valid() && AllInOrder(outs)
      modifies this
      ensures (forall i :: i in group ==> i >= |old(tables)|) ==>
                tables == old(tables) && generation == old(generation) && history == old(history)
      ensures forall first: nat :: IsFirst(group, first) && first < |old(tables)| ==>
                && tables == Replaced(old(tables), group, first, outs)
                && generation == old(generation) + 1 && history == old(history) + [tables]
      ensures Valid()
    {
      var requests := [Request(group, outs)];
      ghost var before, least := tables, LeastFrom(group, 0, |tables|);
      assert PlanOf(|tables|, requests[..0]) == [];
      AtomicReplaceGroups(requests);
      if least < |before| {
        OneGroupPass(before, Group(group, least), outs);
        PassIsReplaced(before, group, least, outs);
      } else {
        NothingReplaced(before);
      }
    }

    /** Compacts every group from the list as it is. */
    method Compact(groups: seq<set<nat>>, tombstones: seq<RangeTombstone>, clock: Clock) returns (requests: seq<Request<Stored>>)
      requires Valid()
      ensures PositionsOf(requests) == groups && AllOutsInOrder(requests)
      ensures CompactRequests(requests, tables, tombstones, clock)
    {
      requests := [];
      for i := 0 to |groups|
        invariant |requests| == i && AllOutsInOrder(requests)
        invariant forall r :: 0 <= r < i ==> requests[r].positions == groups[r]
        invariant CompactRequests(requests, tables, tombstones, clock)
      {
        SelectedInOrder(tables, groups[i]);
        LoadedOfGroup(tables, groups[i]);
        var outs := CompactTables(Selected(tables, groups[i]), tombstones, clock(LeastFrom(groups[i], 0, |tables|)));
        assert IsCompactRequest(Request(groups[i], outs), tables, tombstones, clock);
        requests := requests + [Request(groups[i], outs)];
      }
    }

    /** Compacts every group from the list as it is, then replaces them all in one pass. */
    method CompactGroups(groups: seq<set<nat>>, tombstones: seq<RangeTombstone>, clock: Clock)
      returns (ghost requests: seq<Request<Stored>>)
      requires Valid() && Apart(groups)
      modifies this
      ensures Valid() && PositionsOf(requests) == groups && CompactRequests(requests, old(tables), tombstones, clock)
      ensures tables == ReplacedAll(old(tables), PlanOf(|old(tables)|, requests))
      ensures forall later, key ::
                ReadAt(Files(tables), later, key) == ReadAt(Files(old(tables)), later, key)
                <==> GroupsSafe(old(tables), groups, tombstones, clock, later, key)
    {
      var made := Compact(groups, tombstones, clock);
      requests := made;
      AtomicReplaceGroups(made);
      forall later, key
        ensures ReadAt(Files(tables), later, key) == ReadAt(Files(old(tables)), later, key)
                <==> GroupsSafe(old(tables), groups, tombstones, clock, later, key)
      {
        RequestsReadIff(old(tables), made, tombstones, clock, later, key);
      }
    }

    /**
     * One compaction of the column family: if there are enough tables, every size
     * class with enough of them is compacted. After a restart, with no table in
     * memory, nothing can be read afterwards.
     */
    method CompactFamily(threshold: nat, minTables: nat, tombstones: seq<RangeTombstone>, clock: Clock)
      returns (ran: bool, ghost groups: seq<set<nat>>)
      requires Valid()
      modifies this
      ensures Valid() && ArePicked(groups, DataRows(old(tables)), minTables)
      ensures ran <==> |old(tables)| >= threshold && groups != []
      ensures !ran ==> tables == old(tables) && history == old(history)
      ensures forall later, key ::
                ReadAt(Files(tables), later, key) == ReadAt(Files(old(tables)), later, key)
                <==> !ran || GroupsSafe(old(tables), groups, tombstones, clock, later, key)
      ensures ran && LoadedIn(old(tables)) == {} ==> forall later, key :: ReadAt(Files(tables), later, key) == None
    {
      var picked := GroupIntoBuckets(DataRows(tables), minTables);
      groups, ran := picked, |tables| >= threshold && picked != [];
      if ran {
        ghost var requests := CompactGroups(picked, tombstones, clock);
        if LoadedIn(old(tables)) == {} {
          forall later, key ensures ReadAt(Files(tables), later, key) == None {
            RecoveredPickIsLost(old(tables), requests, minTables, tombstones, clock, later, key);
          }
        }
      }
    }

    /**
     * The last phase of a background compaction, applied only if the plan is not
     * stale: no table was added and no other compaction applied since. What the
     * plan's outputs do to reads is then decided by the planned tables alone.
     */
    method ApplyPlan(ghost planned: seq<Stored>, plannedAt: nat, requests: seq<Request<Stored>>,
                     ghost tombstones: seq<RangeTombstone>, ghost clock: Clock) returns (applied: bool)
      requires Valid() && AllOutsInOrder(requests) && Apart(PositionsOf(requests))
      requires plannedAt <= generation && history[plannedAt] == planned
      requires CompactRequests(requests, planned, tombstones, clock)
      modifies this
      ensures Valid()
      ensures applied <==> old(generation) == plannedAt
      ensures !applied ==> tables == old(tables)
      ensures applied ==> old(tables) == planned && tables == ReplacedAll(planned, PlanOf(|planned|, requests))
      ensures forall later, key ::
                ReadAt(Files(tables), later, key) == ReadAt(Files(old(tables)), later, key)
                <==> !applied || GroupsSafe(planned, PositionsOf(requests), tombstones, clock, later, key)
    {
      applied := plannedAt == generation;
      if applied {
        AtomicReplaceGroups(requests);
        forall later, key
          ensures ReadAt(Files(tables), later, key) == ReadAt(Files(planned), later, key)
                  <==> GroupsSafe(planned, PositionsOf(requests), tombstones, clock, later, key)
        {
          RequestsReadIff(planned, requests, tombstones, clock, later, key);
        }
      }
    }
  }
}
