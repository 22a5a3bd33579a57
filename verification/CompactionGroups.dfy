/**
 * Several disjoint groups of tables replaced by their compactions in one pass
 * over the list. At every key this reads like replacing them one after another,
 * in any order, although every output was made from the original tables.
 */
module CompactionGroups {
  import opened Options
  import opened Bytes
  import opened Compaction

  /** Positions in the table list, and the least of them. */
  datatype Group = Group(positions: set<nat>, first: nat)

  datatype Replacement<T> = Replacement(group: Group, outs: seq<T>)

  ghost predicate Disjoint(groups: seq<Group>)
  {
    && (forall r :: 0 <= r < |groups| ==> IsFirst(groups[r].positions, groups[r].first))
    && (forall q, r :: 0 <= q < r < |groups| ==> groups[q].positions !! groups[r].positions)
  }

  predicate Taken(groups: seq<Group>, n: nat)
  {
    exists r :: 0 <= r < |groups| && n in groups[r].positions
  }

  function GroupsOf<T>(plan: seq<Replacement<T>>): (groups: seq<Group>)
    ensures |groups| == |plan| && forall r :: 0 <= r < |plan| ==> groups[r] == plan[r].group
  {
    seq(|plan|, r requires 0 <= r < |plan| => plan[r].group)
  }

  // ---------------------------------------------------------------------------
  // The pass
  // ---------------------------------------------------------------------------

  /** The tables that go in at a position. */
  function OutsAt<T>(plan: seq<Replacement<T>>, n: nat): (outs: seq<T>)
  {
    if plan == [] then []
    else if plan[|plan| - 1].group.first == n then plan[|plan| - 1].outs
    else OutsAt(plan[..|plan| - 1], n)
  }

  function ReplacedAll<T>(tables: seq<T>, plan: seq<Replacement<T>>): (updated: seq<T>)
  {
    if tables == [] then []
    else
      var n := |tables| - 1;
      ReplacedAll(tables[..n], plan) + OutsAt(plan, n) + if Taken(GroupsOf(plan), n) then [] else [tables[n]]
  }

  method ReplaceGroups<T>(tables: seq<T>, plan: seq<Replacement<T>>) returns (updated: seq<T>)
    ensures updated == ReplacedAll(tables, plan)
  {
    updated := [];
    for index := 0 to |tables|
      invariant updated == ReplacedAll(tables[..index], plan)
    {
      assert tables[..index + 1][..index] == tables[..index];
      updated := updated + OutsAt(plan, index);
      if !Taken(GroupsOf(plan), index) {
        updated := updated + [tables[index]];
      }
    }
    assert tables[..|tables|] == tables;
  }

  // ---------------------------------------------------------------------------
  // One key, position by position
  // ---------------------------------------------------------------------------

  /** What a group becomes at one key. */
  datatype Slot<V> = Slot(group: Group, out: Option<V>)

  function GroupsIn<V>(slots: seq<Slot<V>>): (groups: seq<Group>)
    ensures |groups| == |slots| && forall r :: 0 <= r < |slots| ==> groups[r] == slots[r].group
  {
    seq(|slots|, r requires 0 <= r < |slots| => slots[r].group)
  }

  function OutAt<V>(slots: seq<Slot<V>>, n: nat): (out: Option<V>)
  {
    if slots == [] then None
    else if slots[|slots| - 1].group.first == n then slots[|slots| - 1].out
    else OutAt(slots[..|slots| - 1], n)
  }

  /** What stands at each position once all groups are replaced, nothing moving up. */
  function Left<V>(column: seq<Option<V>>, slots: seq<Slot<V>>): (after: seq<Option<V>>)
    ensures |after| == |column|
    ensures forall n :: 0 <= n < |column| ==>
              after[n] == if Taken(GroupsIn(slots), n) then OutAt(slots, n) else column[n]
  {
    seq(|column|, n requires 0 <= n < |column| => if Taken(GroupsIn(slots), n) then OutAt(slots, n) else column[n])
  }

  ghost function SlotsOf<V>(plan: seq<Replacement<map<Bytes, V>>>, key: Bytes): (slots: seq<Slot<V>>)
    ensures |slots| == |plan|
    ensures forall r :: 0 <= r < |plan| ==> slots[r] == Slot(plan[r].group, Lookup(plan[r].outs, key))
  {
    seq(|plan|, r requires 0 <= r < |plan| => Slot(plan[r].group, Lookup(plan[r].outs, key)))
  }

  lemma {:induction false} OutAtOfPlan<V>(plan: seq<Replacement<map<Bytes, V>>>, key: Bytes, n: nat)
    ensures OutAt(SlotsOf(plan, key), n) == Lookup(OutsAt(plan, n), key)
  {
    if plan == [] {
      assert Newest(Column<V>([], key)) == None;
    } else {
      OutAtOfPlan(plan[..|plan| - 1], key, n);
      assert SlotsOf(plan, key)[..|plan| - 1] == SlotsOf(plan[..|plan| - 1], key);
    }
  }

  /** Outputs go in at taken positions only. */
  lemma {:induction false} NothingAt<T>(plan: seq<Replacement<T>>, n: nat)
    requires forall r :: 0 <= r < |plan| ==> plan[r].group.first != n
    ensures OutsAt(plan, n) == []
  {
    if plan != [] {
      NothingAt(plan[..|plan| - 1], n);
    }
  }

  ghost predicate IsPassEntry<V>(entry: Option<V>, table: map<Bytes, V>, plan: seq<Replacement<map<Bytes, V>>>,
                                 key: Bytes, n: nat)
  {
    if Taken(GroupsOf(plan), n) then entry == Lookup(OutsAt(plan, n), key)
    else OutsAt(plan, n) == [] && entry == if key in table then Some(table[key]) else None
  }

  ghost predicate IsPassColumn<V>(after: seq<Option<V>>, tables: seq<map<Bytes, V>>,
                                  plan: seq<Replacement<map<Bytes, V>>>, key: Bytes)
  {
    && |after| == |tables|
    && forall n: nat :: n < |tables| ==> IsPassEntry(after[n], tables[n], plan, key, n)
  }

  lemma LeftIsPassColumn<V>(tables: seq<map<Bytes, V>>, plan: seq<Replacement<map<Bytes, V>>>, key: Bytes)
    requires Disjoint(GroupsOf(plan))
    ensures IsPassColumn(Left(Column(tables, key), SlotsOf(plan, key)), tables, plan, key)
  {
    var slots := SlotsOf(plan, key);
    assert GroupsIn(slots) == GroupsOf(plan);
    forall n: nat | n < |tables|
      ensures IsPassEntry(Left(Column(tables, key), slots)[n], tables[n], plan, key, n)
    {
      OutAtOfPlan(plan, key, n);
      if !Taken(GroupsOf(plan), n) {
        forall r | 0 <= r < |plan| ensures plan[r].group.first != n {
          assert IsFirst(GroupsOf(plan)[r].positions, GroupsOf(plan)[r].first);
        }
        NothingAt(plan, n);
      }
    }
  }

  /** Reading the list after the pass is reading the column position by position. */
  lemma {:induction false} PassReadsColumn<V>(tables: seq<map<Bytes, V>>, plan: seq<Replacement<map<Bytes, V>>>,
                                              key: Bytes, after: seq<Option<V>>)
    requires IsPassColumn(after, tables, plan, key)
    ensures Lookup(ReplacedAll(tables, plan), key) == Newest(after)
  {
    if tables != [] {
      var n := |tables| - 1;
      PassColumnInit(tables, plan, key, after);
      PassReadsColumn(tables[..n], plan, key, after[..n]);
      PassEntryReads(tables[n], plan, key, n, after[n]);
      LookupLast(tables, plan, key);
      NewestLast(after);
    }
  }

  lemma PassColumnInit<V>(tables: seq<map<Bytes, V>>, plan: seq<Replacement<map<Bytes, V>>>, key: Bytes,
                          after: seq<Option<V>>)
    requires IsPassColumn(after, tables, plan, key) && tables != []
    ensures IsPassColumn(after[..|tables| - 1], tables[..|tables| - 1], plan, key)
    ensures IsPassEntry(after[|tables| - 1], tables[|tables| - 1], plan, key, |tables| - 1)
  {
  }

  lemma NewestLast<V>(column: seq<Option<V>>)
    requires column != []
    ensures Newest(column) == OrElse(column[|column| - 1], Newest(column[..|column| - 1]))
  {
  }

  /** What the pass puts at the last position, over what it left before it. */
  lemma LookupLast<V>(tables: seq<map<Bytes, V>>, plan: seq<Replacement<map<Bytes, V>>>, key: Bytes)
    requires tables != []
    ensures var n := |tables| - 1;
            Lookup(ReplacedAll(tables, plan), key)
            == OrElse(Lookup(OutsAt(plan, n) + (if Taken(GroupsOf(plan), n) then [] else [tables[n]]), key),
                      Lookup(ReplacedAll(tables[..n], plan), key))
  {
    var n := |tables| - 1;
    ReplacedAllSnoc(tables, plan);
    LookupConcat(ReplacedAll(tables[..n], plan),
                 OutsAt(plan, n) + (if Taken(GroupsOf(plan), n) then [] else [tables[n]]), key);
  }

  lemma ReplacedAllSnoc<T>(tables: seq<T>, plan: seq<Replacement<T>>)
    requires tables != []
    ensures var n := |tables| - 1;
            ReplacedAll(tables, plan)
            == ReplacedAll(tables[..n], plan) + (OutsAt(plan, n) + (if Taken(GroupsOf(plan), n) then [] else [tables[n]]))
  {
    var n := |tables| - 1;
    Associates(ReplacedAll(tables[..n], plan), OutsAt(plan, n), if Taken(GroupsOf(plan), n) then [] else [tables[n]]);
  }

  lemma Associates<T>(a: seq<T>, b: seq<T>, c: seq<T>)
    ensures a + b + c == a + (b + c)
  {
  }

  lemma PassEntryReads<V>(table: map<Bytes, V>, plan: seq<Replacement<map<Bytes, V>>>, key: Bytes, n: nat,
                          entry: Option<V>)
    requires IsPassEntry(entry, table, plan, key, n)
    ensures Lookup(OutsAt(plan, n) + (if Taken(GroupsOf(plan), n) then [] else [table]), key) == entry
  {
    if Taken(GroupsOf(plan), n) {
      assert OutsAt(plan, n) + [] == OutsAt(plan, n);
    } else {
      assert [] + [table] == [table];
      LookupOne(table, key);
    }
  }

  lemma LookupOne<V>(table: map<Bytes, V>, key: Bytes)
    ensures Lookup([table], key) == if key in table then Some(table[key]) else None
  {
    assert Newest(Column([table], key)[..0]) == None;
  }

  lemma LookupConcat<V>(a: seq<map<Bytes, V>>, b: seq<map<Bytes, V>>, key: Bytes)
    ensures Lookup(a + b, key) == OrElse(Lookup(b, key), Lookup(a, key))
  {
    ColumnConcat(a, b, key);
    NewestConcat(Column(a, key), Column(b, key));
  }

  // ---------------------------------------------------------------------------
  // One group after the others
  // ---------------------------------------------------------------------------

  function Without<T>(s: seq<T>, r: nat): (rest: seq<T>)
    requires r < |s|
  {
    s[..r] + s[r + 1..]
  }

  /** One group replaced in a column, nothing moving up. */
  function InPlace<V>(column: seq<Option<V>>, slot: Slot<V>): (after: seq<Option<V>>)
    ensures |after| == |column|
    ensures forall i :: 0 <= i < |column| ==>
              after[i] == if i == slot.group.first then slot.out
                          else if i in slot.group.positions then None
                          else column[i]
  {
    seq(|column|, i requires 0 <= i < |column| =>
      if i == slot.group.first then slot.out else if i in slot.group.positions then None else column[i])
  }

  lemma {:induction false} NewestInPlace<V>(column: seq<Option<V>>, slot: Slot<V>)
    requires IsFirst(slot.group.positions, slot.group.first) && slot.group.first < |column|
    ensures var group, first := slot.group.positions, slot.group.first;
            Newest(InPlace(column, slot))
            == OrElse(Newest(Unselected(column, group, first)), OrElse(slot.out, Newest(column[..first])))
    decreases |column|
  {
    var n, group, first := |column| - 1, slot.group.positions, slot.group.first;
    var after := InPlace(column, slot);
    NewestLast(after);
    InPlaceInit(column, slot);
    NewestSnoc(column, group, first);
    if first == n {
      assert n in group && Unselected(column[..n], group, first) == [];
    } else {
      NewestInPlace(column[..n], slot);
      assert column[..n][..first] == column[..first];
      OrElseAssociates(after[n], Newest(Unselected(column[..n], group, first)), OrElse(slot.out, Newest(column[..first])));
    }
  }

  lemma OrElseAssociates<T>(a: Option<T>, b: Option<T>, c: Option<T>)
    ensures OrElse(OrElse(a, b), c) == OrElse(a, OrElse(b, c))
  {
  }

  lemma InPlaceInit<V>(column: seq<Option<V>>, slot: Slot<V>)
    requires IsFirst(slot.group.positions, slot.group.first) && slot.group.first < |column|
    ensures var n, after := |column| - 1, InPlace(column, slot);
            && (slot.group.first == n ==> after[..n] == column[..n] && after[n] == slot.out)
            && (slot.group.first < n ==> after[..n] == InPlace(column[..n], slot)
                                         && after[n] == if n in slot.group.positions then None else column[n])
  {
  }

  lemma {:induction false} OutAtNone<V>(slots: seq<Slot<V>>, n: nat)
    requires forall q :: 0 <= q < |slots| ==> slots[q].group.first != n
    ensures OutAt(slots, n) == None
  {
    if slots != [] {
      OutAtNone(slots[..|slots| - 1], n);
    }
  }

  lemma {:induction false} OutAtOf<V>(slots: seq<Slot<V>>, r: nat)
    requires r < |slots| && forall q :: r < q < |slots| ==> slots[q].group.first != slots[r].group.first
    ensures OutAt(slots, slots[r].group.first) == slots[r].out
  {
    if r < |slots| - 1 {
      OutAtOf(slots[..|slots| - 1], r);
    }
  }

  lemma {:induction false} OutAtWithout<V>(slots: seq<Slot<V>>, r: nat, n: nat)
    requires r < |slots| && slots[r].group.first != n
    ensures OutAt(Without(slots, r), n) == OutAt(slots, n)
  {
    var m := |slots| - 1;
    if r == m {
      assert Without(slots, r) == slots[..m];
    } else {
      OutAtWithout(slots[..m], r, n);
      assert Without(slots, r)[..m - 1] == Without(slots[..m], r);
      assert Without(slots, r)[m - 1] == slots[m];
    }
  }

  lemma TakenWithout(groups: seq<Group>, r: nat, n: nat)
    requires r < |groups|
    ensures Taken(groups, n) <==> n in groups[r].positions || Taken(Without(groups, r), n)
  {
    var rest := Without(groups, r);
    if q :| 0 <= q < |groups| && n in groups[q].positions {
      if q < r {
        assert rest[q] == groups[q];
      } else if q > r {
        assert rest[q - 1] == groups[q];
      }
    }
    if q :| 0 <= q < |rest| && n in rest[q].positions {
      assert rest[q] == groups[if q < r then q else q + 1];
    }
  }

  /** Firsts of other groups are elsewhere. */
  lemma FirstsApart(groups: seq<Group>, r: nat, n: nat)
    requires Disjoint(groups) && r < |groups| && n in groups[r].positions
    ensures forall q :: 0 <= q < |groups| && q != r ==> groups[q].first != n && n !in groups[q].positions
  {
    forall q | 0 <= q < |groups| && q != r ensures groups[q].first != n && n !in groups[q].positions {
      assert groups[q].first in groups[q].positions;
      if q < r {
        assert groups[q].positions !! groups[r].positions;
      } else {
        assert groups[r].positions !! groups[q].positions;
      }
    }
  }

  /** Replacing all groups is replacing all but any one of them, and then that one. */
  lemma OneAfterTheOthers<V>(column: seq<Option<V>>, slots: seq<Slot<V>>, r: nat)
    requires Disjoint(GroupsIn(slots)) && r < |slots|
    ensures Left(column, slots) == InPlace(Left(column, Without(slots, r)), slots[r])
  {
    forall n | 0 <= n < |column|
      ensures Left(column, slots)[n] == InPlace(Left(column, Without(slots, r)), slots[r])[n]
    {
      OneAfterTheOthersAt(column, slots, r, n);
    }
  }

  lemma OneAfterTheOthersAt<V>(column: seq<Option<V>>, slots: seq<Slot<V>>, r: nat, n: nat)
    requires Disjoint(GroupsIn(slots)) && r < |slots| && n < |column|
    ensures Left(column, slots)[n] == InPlace(Left(column, Without(slots, r)), slots[r])[n]
  {
    var groups, rest := GroupsIn(slots), Without(slots, r);
    assert GroupsIn(rest) == Without(groups, r);
    TakenWithout(groups, r, n);
    if n in slots[r].group.positions {
      FirstsApart(groups, r, n);
      assert forall q :: 0 <= q < |slots| && q != r ==> slots[q].group.first != n by {
        assert forall q :: 0 <= q < |slots| ==> groups[q] == slots[q].group;
      }
      if n == slots[r].group.first {
        OutAtOf(slots, r);
      } else {
        OutAtNone(slots, n);
      }
    } else {
      assert IsFirst(groups[r].positions, groups[r].first);
      OutAtWithout(slots, r, n);
    }
  }

  // ---------------------------------------------------------------------------
  // The newest entry of a key
  // ---------------------------------------------------------------------------

  /** The position of a column's newest entry, or -1. */
  function NewestAt<V>(column: seq<Option<V>>): (p: int)
    ensures -1 <= p < |column| && (0 <= p ==> column[p].Some?)
    ensures forall n :: p < n < |column| ==> column[n].None?
    ensures Newest(column) == if p < 0 then None else column[p]
  {
    if column == [] then -1
    else if column[|column| - 1].Some? then |column| - 1
    else NewestAt(column[..|column| - 1])
  }

  lemma {:induction false} NewestIs<V>(column: seq<Option<V>>, p: int)
    requires -1 <= p < |column| && (0 <= p ==> column[p].Some?)
    requires forall n :: p < n < |column| ==> column[n].None?
    ensures Newest(column) == if p < 0 then None else column[p]
  {
    if p < |column| - 1 {
      NewestIs(column[..|column| - 1], p);
    }
  }

  /** A group that holds nothing of the key becomes nothing. */
  ghost predicate Faithful<V>(column: seq<Option<V>>, slots: seq<Slot<V>>)
  {
    forall r :: 0 <= r < |slots| && Holds(column, slots[r].group) == false ==> slots[r].out.None?
  }

  predicate Holds<V>(column: seq<Option<V>>, group: Group)
  {
    exists i :: 0 <= i < |column| && i in group.positions && column[i].Some?
  }

  /** Nothing appears above the newest entry. */
  lemma EmptyAbove<V>(column: seq<Option<V>>, slots: seq<Slot<V>>, n: nat)
    requires Disjoint(GroupsIn(slots)) && Faithful(column, slots) && n < |column|
    requires forall i :: n <= i < |column| ==> column[i].None?
    ensures Left(column, slots)[n].None?
  {
    var groups := GroupsIn(slots);
    if r :| 0 <= r < |slots| && slots[r].group.first == n {
      assert IsFirst(groups[r].positions, groups[r].first);
      FirstsApart(groups, r, n);
      assert forall q :: r < q < |slots| ==> slots[q].group.first != n by {
        assert forall q :: 0 <= q < |slots| ==> groups[q] == slots[q].group;
      }
      OutAtOf(slots, r);
      assert !Holds(column, slots[r].group);
    } else {
      OutAtNone(slots, n);
    }
  }

  /** Groups that do not hold the newest entry leave it the newest. */
  lemma NewestStays<V>(column: seq<Option<V>>, slots: seq<Slot<V>>)
    requires Disjoint(GroupsIn(slots)) && Faithful(column, slots)
    requires NewestAt(column) >= 0 ==> !Taken(GroupsIn(slots), NewestAt(column))
    ensures Newest(Left(column, slots)) == Newest(column)
  {
    var p := NewestAt(column);
    forall n: nat | p < n < |column| ensures Left(column, slots)[n].None? {
      EmptyAbove(column, slots, n);
    }
    NewestIs(Left(column, slots), p);
  }

  /** What a group holds is untouched by the others. */
  lemma TurnIsUntouched<V>(column: seq<Option<V>>, slots: seq<Slot<V>>, r: nat)
    requires Disjoint(GroupsIn(slots)) && r < |slots|
    ensures Selected(Left(column, Without(slots, r)), slots[r].group.positions)
            == Selected(column, slots[r].group.positions)
  {
    var groups, rest, group := GroupsIn(slots), Left(column, Without(slots, r)), slots[r].group.positions;
    assert GroupsIn(Without(slots, r)) == Without(groups, r);
    forall n: nat | n < |column| && n in group ensures rest[n] == column[n] {
      FirstsApart(groups, r, n);
      NotTakenWithout(groups, r, n);
    }
    SelectedAt(rest, group);
    SelectedAt(column, group);
  }

  lemma NotTakenWithout(groups: seq<Group>, r: nat, n: nat)
    requires r < |groups| && forall q :: 0 <= q < |groups| && q != r ==> n !in groups[q].positions
    ensures !Taken(Without(groups, r), n)
  {
    var rest := Without(groups, r);
    assert forall q :: 0 <= q < |rest| ==> rest[q] == groups[if q < r then q else q + 1];
  }

  lemma WithoutStaysDisjoint(groups: seq<Group>, r: nat)
    requires Disjoint(groups) && r < |groups|
    ensures Disjoint(Without(groups, r))
  {
    var rest := Without(groups, r);
    assert forall q :: 0 <= q < |rest| ==> rest[q] == groups[if q < r then q else q + 1];
  }

  /** With the group of the newest entry replaced last, the others have changed nothing about it. */
  lemma OthersKeepNewest<V>(column: seq<Option<V>>, slots: seq<Slot<V>>, r: nat)
    requires Disjoint(GroupsIn(slots)) && Faithful(column, slots) && r < |slots|
    requires NewestAt(column) >= 0 && NewestAt(column) in slots[r].group.positions
    ensures Newest(Left(column, Without(slots, r))) == Newest(column)
  {
    var groups, rest := GroupsIn(slots), Without(slots, r);
    assert GroupsIn(rest) == Without(groups, r);
    WithoutStaysDisjoint(groups, r);
    FirstsApart(groups, r, NewestAt(column));
    NotTakenWithout(groups, r, NewestAt(column));
    assert forall q :: 0 <= q < |rest| ==> rest[q] == slots[if q < r then q else q + 1];
    NewestStays(column, rest);
  }

  // ---------------------------------------------------------------------------
  // What the pass does to lookups
  // ---------------------------------------------------------------------------

  /** The pass reads like the replacements one after another, whichever comes last. */
  lemma PassIsOneByOne<V>(tables: seq<map<Bytes, V>>, plan: seq<Replacement<map<Bytes, V>>>, key: Bytes, r: nat)
    requires Disjoint(GroupsOf(plan)) && r < |plan|
    ensures var column, slots := Column(tables, key), SlotsOf(plan, key);
            && Lookup(ReplacedAll(tables, plan), key) == Newest(InPlace(Left(column, Without(slots, r)), slots[r]))
            && Lookup(ReplacedAll(tables, Without(plan, r)), key) == Newest(Left(column, Without(slots, r)))
  {
    PassReads(tables, plan, key);
    assert GroupsIn(SlotsOf(plan, key)) == GroupsOf(plan);
    OneAfterTheOthers(Column(tables, key), SlotsOf(plan, key), r);
    WithoutStaysDisjoint(GroupsOf(plan), r);
    PlanWithout(plan, key, r);
    PassReads(tables, Without(plan, r), key);
  }

  lemma PlanWithout<V>(plan: seq<Replacement<map<Bytes, V>>>, key: Bytes, r: nat)
    requires r < |plan|
    ensures GroupsOf(Without(plan, r)) == Without(GroupsOf(plan), r)
    ensures SlotsOf(Without(plan, r), key) == Without(SlotsOf(plan, key), r)
  {
    var rest := Without(plan, r);
    assert forall q :: 0 <= q < |rest| ==> rest[q] == plan[if q < r then q else q + 1];
    WithoutAt(GroupsOf(plan), r);
    WithoutAt(SlotsOf(plan, key), r);
  }

  lemma WithoutAt<T>(s: seq<T>, r: nat)
    requires r < |s|
    ensures |Without(s, r)| == |s| - 1
    ensures forall q :: 0 <= q < |s| - 1 ==> Without(s, r)[q] == s[if q < r then q else q + 1]
  {
  }

  lemma PassReads<V>(tables: seq<map<Bytes, V>>, plan: seq<Replacement<map<Bytes, V>>>, key: Bytes)
    requires Disjoint(GroupsOf(plan))
    ensures Lookup(ReplacedAll(tables, plan), key) == Newest(Left(Column(tables, key), SlotsOf(plan, key)))
  {
    LeftIsPassColumn(tables, plan, key);
    PassReadsColumn(tables, plan, key, Left(Column(tables, key), SlotsOf(plan, key)));
  }
}
