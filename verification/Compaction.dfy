/**
 * Compaction of a group of tables: merge them newest first, drop tombstones and
 * range-deleted keys, and put the result where the oldest of them was. Tables
 * are listed oldest first; an empty value is the tombstone of its key.
 */
module Compaction {
  import opened Options
  import opened Bytes
  import opened RangeTombstones
  import opened Rows
  import opened Merge

  type Table = map<Bytes, Bytes>

  predicate Covered(tombstones: seq<RangeTombstone>, key: Bytes)
  {
    exists i :: 0 <= i < |tombstones| && Covers(tombstones[i], key)
  }

  // ---------------------------------------------------------------------------
  // Reading a list of tables
  // ---------------------------------------------------------------------------

  /** What each table says about one key. */
  ghost function Column<V>(tables: seq<map<Bytes, V>>, key: Bytes): (column: seq<Option<V>>)
    ensures |column| == |tables|
    ensures forall i :: 0 <= i < |tables| ==> column[i] == if key in tables[i] then Some(tables[i][key]) else None
  {
    seq(|tables|, i requires 0 <= i < |tables| => if key in tables[i] then Some(tables[i][key]) else None)
  }

  /** The newest entry of a column. */
  function Newest<T>(column: seq<Option<T>>): (entry: Option<T>)
  {
    if column == [] then None
    else if column[|column| - 1].Some? then column[|column| - 1]
    else Newest(column[..|column| - 1])
  }

  /** The entry of the newest table holding the key. */
  ghost function Lookup<V>(tables: seq<map<Bytes, V>>, key: Bytes): (entry: Option<V>)
  {
    Newest(Column(tables, key))
  }

  /** What a compaction keeps of an entry: tombstones are dropped. */
  ghost function Visible(entry: Option<Bytes>): (value: Option<Bytes>)
  {
    if entry == Some([]) then None else entry
  }

  /** What a compaction of the tables should keep of a key. */
  ghost function Survivor(tables: seq<Table>, tombstones: seq<RangeTombstone>, key: Bytes): (value: Option<Bytes>)
  {
    if Covered(tombstones, key) then None else Visible(Lookup(tables, key))
  }

  function OrElse<T>(newer: Option<T>, older: Option<T>): (entry: Option<T>)
  {
    if newer.Some? then newer else older
  }

  lemma {:induction false} NewestConcat<T>(older: seq<Option<T>>, newer: seq<Option<T>>)
    ensures Newest(older + newer) == OrElse(Newest(newer), Newest(older))
  {
    var all := older + newer;
    if newer == [] {
      assert all == older;
    } else {
      assert all[..|all| - 1] == older + newer[..|newer| - 1];
      NewestConcat(older, newer[..|newer| - 1]);
    }
  }

  function Reversed<T>(s: seq<T>): (r: seq<T>)
    ensures |r| == |s| && forall i :: 0 <= i < |s| ==> r[i] == s[|s| - 1 - i]
  {
    if s == [] then [] else [s[|s| - 1]] + Reversed(s[..|s| - 1])
  }

  /** Reading the newest holder is reading the merged view of the tables, newest first. */
  lemma {:induction false} LookupIsMergedView(tables: seq<Table>, key: Bytes)
    ensures Lookup(tables, key) ==
            if key in View(Reversed(tables)) then Some(View(Reversed(tables))[key]) else None
  {
    if tables != [] {
      var n := |tables| - 1;
      LookupIsMergedView(tables[..n], key);
      assert Reversed(tables)[1..] == Reversed(tables[..n]);
      assert Column(tables, key)[..n] == Column(tables[..n], key);
    }
  }

  // ---------------------------------------------------------------------------
  // Executing a compaction
  // ---------------------------------------------------------------------------

  predicate Kept(tombstones: seq<RangeTombstone>, row: Row<Bytes>)
  {
    row.value != [] && !Covered(tombstones, row.key)
  }

  function Keep(rows: Source, tombstones: seq<RangeTombstone>): (kept: Source)
  {
    if rows == [] then []
    else
      var last := rows[|rows| - 1];
      Keep(rows[..|rows| - 1], tombstones) + if Kept(tombstones, last) then [last] else []
  }

  lemma KeepAppend(rows: Source, row: Row<Bytes>, tombstones: seq<RangeTombstone>)
    ensures Keep(rows + [row], tombstones) ==
            Keep(rows, tombstones) + if Kept(tombstones, row) then [row] else []
  {
    assert (rows + [row])[..|rows|] == rows;
  }

  lemma {:induction false} KeepRows(rows: Source, tombstones: seq<RangeTombstone>)
    requires Sorted(rows)
    ensures forall row :: row in Keep(rows, tombstones) <==> row in rows && Kept(tombstones, row)
    ensures Sorted(Keep(rows, tombstones))
  {
    if rows != [] {
      var init, last := rows[..|rows| - 1], rows[|rows| - 1];
      KeepRows(init, tombstones);
      assert rows == init + [last];
      var kept := Keep(init, tombstones);
      forall i | 0 <= i < |kept| ensures Less(kept[i].key, last.key) {
        assert kept[i] in init;
      }
    }
  }

  lemma KeepContents(rows: Source, tombstones: seq<RangeTombstone>, key: Bytes)
    requires Sorted(rows)
    ensures Sorted(Keep(rows, tombstones))
    ensures key in Contents(Keep(rows, tombstones)) <==>
            key in Contents(rows) && Kept(tombstones, Row(key, Contents(rows)[key]))
    ensures key in Contents(Keep(rows, tombstones)) ==>
            Contents(Keep(rows, tombstones))[key] == Contents(rows)[key]
  {
    var kept := Keep(rows, tombstones);
    KeepRows(rows, tombstones);
    if key in Contents(rows) {
      RowInContents(rows, Row(key, Contents(rows)[key]));
      RowInContents(kept, Row(key, Contents(rows)[key]));
    }
    if key in Contents(kept) {
      RowInContents(kept, Row(key, Contents(kept)[key]));
      RowInContents(rows, Row(key, Contents(kept)[key]));
    }
  }

  ghost function Tables(sources: seq<Source>): (tables: seq<Table>)
    ensures |tables| == |sources| && forall i :: 0 <= i < |sources| ==> tables[i] == Contents(sources[i])
  {
    Layers(sources)
  }

  /** `out` holds exactly the newest values in `tables`, less the covered keys. */
  ghost predicate IsCompactionOf(out: Table, tables: seq<Table>, tombstones: seq<RangeTombstone>)
  {
    forall key :: (if key in out then Some(out[key]) else None) == Survivor(tables, tombstones, key)
  }

  /** No output table when everything was deleted, else one sorted table. */
  method ExecuteCompaction(sources: seq<Source>, tombstones: seq<RangeTombstone>) returns (outs: seq<Source>)
    requires AllSorted(sources)
    ensures |outs| <= 1 && AllSorted(outs)
    ensures |outs| == 1 ==> outs[0] != []
    ensures IsCompactionOf(if outs == [] then map[] else Contents(outs[0]), Tables(sources), tombstones)
  {
    if sources == [] {
      return [];
    }
    var iters := CursorsOver(Reversed(sources));
    var merged := new MergeIterator(iters);
    ghost var seen;
    var rows;
    rows, seen := KeepLiveRows(merged, tombstones);
    CompactedContents(sources, tombstones, seen);
    outs := if rows == [] then [] else [rows];
  }

  /** The merge loop: every row is read, and the live ones are written out. */
  method KeepLiveRows(merged: MergeIterator, tombstones: seq<RangeTombstone>)
    returns (rows: Source, ghost seen: Source)
    requires merged.Valid()
    modifies merged, merged.cursors
    ensures IsMergeOf(seen, old(merged.rests))
    ensures rows == Keep(seen, tombstones)
  {
    rows, seen := [], [];
    while merged.IsValid()
      invariant merged.Valid()
      invariant DrainedSoFar(seen, Pending(merged.rests), Pending(old(merged.rests)))
      invariant rows == Keep(seen, tombstones)
      decreases Unread(merged.rests)
    {
      var row := merged.ReadRow(seen, Pending(old(merged.rests)));
      KeepAppend(seen, row, tombstones);
      seen := seen + [row];
      if row.value != [] && !Covered(tombstones, row.key) {
        rows := rows + [row];
      }
    }
    var _ := merged.Key();
    assert Contents(seen) + map[] == Contents(seen);
  }

  lemma CompactedContents(sources: seq<Source>, tombstones: seq<RangeTombstone>, merged: Source)
    requires AllSorted(sources) && IsMergeOf(merged, Reversed(sources))
    ensures Sorted(Keep(merged, tombstones))
    ensures IsCompactionOf(Contents(Keep(merged, tombstones)), Tables(sources), tombstones)
  {
    var tables := Tables(sources);
    assert Layers(Reversed(sources)) == Reversed(tables);
    KeepContents(merged, tombstones, []);
    forall key
      ensures (if key in Contents(Keep(merged, tombstones)) then Some(Contents(Keep(merged, tombstones))[key]) else None)
              == Survivor(tables, tombstones, key)
    {
      KeepContents(merged, tombstones, key);
      LookupIsMergedView(tables, key);
    }
  }

  // ---------------------------------------------------------------------------
  // Replacing a group of tables by its compaction
  // ---------------------------------------------------------------------------

  /** The tables of a group, oldest first. */
  function Selected<T>(tables: seq<T>, group: set<nat>): (selected: seq<T>)
  {
    if tables == [] then []
    else
      var n := |tables| - 1;
      Selected(tables[..n], group) + if n in group then [tables[n]] else []
  }

  /** The tables at or after position `from` that are not in the group. */
  function Unselected<T>(tables: seq<T>, group: set<nat>, from: nat): (rest: seq<T>)
  {
    if |tables| <= from then []
    else
      var n := |tables| - 1;
      Unselected(tables[..n], group, from) + if n in group then [] else [tables[n]]
  }

  /** The positions below `n` in the group, in order ... */
  ghost function ChosenBelow(n: nat, group: set<nat>): (positions: seq<nat>)
  {
    if n == 0 then [] else ChosenBelow(n - 1, group) + if n - 1 in group then [n - 1] else []
  }

  /** ... and those from `from` on that are not. */
  ghost function SparedBelow(n: nat, group: set<nat>, from: nat): (positions: seq<nat>)
  {
    if n <= from then [] else SparedBelow(n - 1, group, from) + if n - 1 in group then [] else [n - 1]
  }

  lemma {:induction false} SelectedAt<T>(tables: seq<T>, group: set<nat>)
    ensures var positions := ChosenBelow(|tables|, group);
            && |Selected(tables, group)| == |positions|
            && forall k :: 0 <= k < |positions| ==>
                 positions[k] < |tables| && positions[k] in group && Selected(tables, group)[k] == tables[positions[k]]
  {
    if tables != [] {
      SelectedAt(tables[..|tables| - 1], group);
    }
  }

  lemma {:induction false} UnselectedAt<T>(tables: seq<T>, group: set<nat>, from: nat)
    ensures var positions := SparedBelow(|tables|, group, from);
            && |Unselected(tables, group, from)| == |positions|
            && forall k :: 0 <= k < |positions| ==>
                 positions[k] < |tables| && Unselected(tables, group, from)[k] == tables[positions[k]]
  {
    if from < |tables| {
      var n := |tables| - 1;
      UnselectedAt(tables[..n], group, from);
      var rest, positions := Unselected(tables[..n], group, from), SparedBelow(n, group, from);
      assert forall k :: 0 <= k < |positions| ==> rest[k] == tables[positions[k]];
    }
  }

  predicate IsFirst(group: set<nat>, first: nat)
  {
    first in group && forall i :: i in group ==> first <= i
  }

  /** The output takes the position of the oldest input; other tables keep their order. */
  function Replaced<T>(tables: seq<T>, group: set<nat>, first: nat, outs: seq<T>): (updated: seq<T>)
    requires first <= |tables|
  {
    tables[..first] + outs + Unselected(tables, group, first)
  }

  /** The newest entry of the group, by position, or -1. */
  ghost function NewestInGroup<T>(column: seq<Option<T>>, group: set<nat>): (i: int)
    ensures -1 <= i < |column|
    ensures 0 <= i ==> i in group && column[i].Some?
    ensures forall j :: i < j < |column| && j in group ==> column[j].None?
  {
    if column == [] then -1
    else
      var n := |column| - 1;
      if n in group && column[n].Some? then n else NewestInGroup(column[..n], group)
  }

  lemma {:induction false} NewestSelected<T>(column: seq<Option<T>>, group: set<nat>)
    ensures var newest := NewestInGroup(column, group);
            Newest(Selected(column, group)) == if newest < 0 then None else column[newest]
  {
    if column != [] {
      var n := |column| - 1;
      NewestSelected(column[..n], group);
      NewestConcat(Selected(column[..n], group), if n in group then [column[n]] else []);
    }
  }

  lemma NewestSnoc<T>(column: seq<Option<T>>, group: set<nat>, from: nat)
    requires from < |column|
    ensures var n := |column| - 1;
            Newest(Unselected(column, group, from)) ==
            OrElse(if n in group then None else column[n], Newest(Unselected(column[..n], group, from)))
  {
    var n := |column| - 1;
    var kept := if n in group then [] else [column[n]];
    NewestConcat(Unselected(column[..n], group, from), kept);
    assert n !in group ==> kept[..0] == [];
  }

  lemma NewestSuffix<T>(column: seq<Option<T>>, cut: nat)
    requires cut < |column|
    ensures var n := |column| - 1;
            Newest(column[cut..]) == OrElse(column[n], Newest(column[..n][cut..]))
  {
    var n := |column| - 1;
    assert column[cut..] == column[..n][cut..] + [column[n]];
    assert [column[n]][..0] == [];
    NewestConcat(column[..n][cut..], [column[n]]);
  }

  /** Where the group says nothing at or above `cut`, leaving it out hides nothing there. */
  lemma {:induction false} NewestUnselected<T>(column: seq<Option<T>>, group: set<nat>, from: nat, cut: nat)
    requires from <= cut <= |column|
    requires forall j :: cut <= j < |column| && j in group ==> column[j].None?
    ensures Newest(Unselected(column, group, from)) ==
            OrElse(Newest(column[cut..]), Newest(Unselected(column[..cut], group, from)))
  {
    if cut == |column| {
      assert column[..cut] == column;
    } else {
      var n := |column| - 1;
      NewestUnselected(column[..n], group, from, cut);
      assert column[..n][..cut] == column[..cut];
      NewestSnoc(column, group, from);
      NewestSuffix(column, cut);
    }
  }

  lemma NewestBefore<T>(column: seq<Option<T>>, group: set<nat>, from: nat)
    requires from <= |column|
    ensures var newest := NewestInGroup(column, group);
            Newest(column) == if newest < from then OrElse(Newest(column[from..]), Newest(column[..from]))
                              else OrElse(Newest(column[newest + 1..]), column[newest])
  {
    var newest := NewestInGroup(column, group);
    if newest < from {
      NewestSplit(column, from);
    } else {
      NewestSplit(column, newest + 1);
      assert Newest(column[..newest + 1]) == column[newest];
    }
  }

  lemma NewestSplit<T>(column: seq<Option<T>>, cut: nat)
    requires cut <= |column|
    ensures Newest(column) == OrElse(Newest(column[cut..]), Newest(column[..cut]))
  {
    assert column == column[..cut] + column[cut..];
    NewestConcat(column[..cut], column[cut..]);
  }

  /** Without the group: the entries above its newest one first, then those it overtakes. */
  lemma NewestAfter<T>(column: seq<Option<T>>, group: set<nat>, from: nat)
    requires from <= |column|
    ensures var newest := NewestInGroup(column, group);
            Newest(Unselected(column, group, from)) ==
            if newest < from then Newest(column[from..])
            else OrElse(Newest(column[newest + 1..]), Newest(Unselected(column[..newest], group, from)))
  {
    var newest := NewestInGroup(column, group);
    if newest < from {
      NewestUnselected(column, group, from, from);
    } else {
      NewestUnselected(column, group, from, newest + 1);
      assert column[..newest + 1][..newest] == column[..newest];
      assert Unselected(column[..newest + 1], group, from) == Unselected(column[..newest], group, from);
    }
  }

  lemma ColumnOfSelected<V>(tables: seq<map<Bytes, V>>, group: set<nat>, key: Bytes)
    ensures Column(Selected(tables, group), key) == Selected(Column(tables, key), group)
  {
    SelectedAt(tables, group);
    SelectedAt(Column(tables, key), group);
  }

  lemma ColumnOfUnselected<V>(tables: seq<map<Bytes, V>>, group: set<nat>, from: nat, key: Bytes)
    ensures Column(Unselected(tables, group, from), key) == Unselected(Column(tables, key), group, from)
  {
    UnselectedAt(tables, group, from);
    UnselectedAt(Column(tables, key), group, from);
  }

  lemma LookupReplaced<V>(tables: seq<map<Bytes, V>>, group: set<nat>, first: nat, outs: seq<map<Bytes, V>>, key: Bytes)
    requires first <= |tables|
    ensures Lookup(Replaced(tables, group, first, outs), key) ==
            OrElse(Newest(Unselected(Column(tables, key), group, first)),
                   OrElse(Lookup(outs, key), Newest(Column(tables, key)[..first])))
  {
    var column := Column(tables, key);
    ColumnOfUnselected(tables, group, first, key);
    ColumnConcat(tables[..first], outs, key);
    ColumnConcat(tables[..first] + outs, Unselected(tables, group, first), key);
    assert Column(tables[..first], key) == column[..first];
    NewestConcat(column[..first] + Column(outs, key), Unselected(column, group, first));
    NewestConcat(column[..first], Column(outs, key));
  }

  lemma ColumnConcat<V>(a: seq<map<Bytes, V>>, b: seq<map<Bytes, V>>, key: Bytes)
    ensures Column(a + b, key) == Column(a, key) + Column(b, key)
  {
  }

  lemma {:induction false} NothingUnselected<T>(tables: seq<T>, group: set<nat>, from: nat)
    requires forall i :: from <= i < |tables| ==> i in group
    ensures Unselected(tables, group, from) == []
  {
    if from < |tables| {
      NothingUnselected(tables[..|tables| - 1], group, from);
    }
  }

  lemma {:induction false} NothingHeld<T>(column: seq<Option<T>>)
    requires forall i :: 0 <= i < |column| ==> column[i].None?
    ensures Newest(column).None?
  {
    if column != [] {
      NothingHeld(column[..|column| - 1]);
    }
  }

  // ---------------------------------------------------------------------------
  // Replacing one group in the list
  // ---------------------------------------------------------------------------

  /** What one pass over the list builds. */
  function Pass<T>(tables: seq<T>, group: set<nat>, first: nat, outs: seq<T>): (updated: seq<T>)
  {
    if tables == [] then []
    else
      var n := |tables| - 1;
      Pass(tables[..n], group, first, outs) + (if n == first then outs else []) + if n in group then [] else [tables[n]]
  }

  lemma {:induction false} PassIsReplaced<T>(tables: seq<T>, group: set<nat>, first: nat, outs: seq<T>)
    requires IsFirst(group, first)
    ensures Pass(tables, group, first, outs)
            == if |tables| <= first then tables else Replaced(tables, group, first, outs)
  {
    if tables != [] {
      var n := |tables| - 1;
      PassIsReplaced(tables[..n], group, first, outs);
      if n < first {
        assert n !in group && tables == tables[..n] + [tables[n]];
      } else if n == first {
        assert Unselected(tables[..n], group, first) == [];
        assert Pass(tables, group, first, outs) == tables[..n] + outs;
        assert Replaced(tables, group, first, outs) == tables[..n] + outs;
      } else {
        ReplacedSnoc(tables, group, first, outs);
        assert Pass(tables, group, first, outs)
          == Pass(tables[..n], group, first, outs) + if n in group then [] else [tables[n]];
      }
    }
  }

  lemma ReplacedSnoc<T>(tables: seq<T>, group: set<nat>, first: nat, outs: seq<T>)
    requires first < |tables| - 1
    ensures var n := |tables| - 1;
            Replaced(tables, group, first, outs)
            == Replaced(tables[..n], group, first, outs) + if n in group then [] else [tables[n]]
  {
    assert tables[..|tables| - 1][..first] == tables[..first];
  }

  /** One pass over the list, for one group. */
  method ReplaceGroup<T>(tables: seq<T>, group: set<nat>, first: nat, outs: seq<T>) returns (updated: seq<T>)
    requires IsFirst(group, first) && first < |tables|
    ensures updated == Replaced(tables, group, first, outs)
  {
    updated := [];
    for index := 0 to |tables|
      invariant updated == Pass(tables[..index], group, first, outs)
    {
      assert tables[..index + 1][..index] == tables[..index];
      if index == first {
        updated := updated + outs;
      }
      if index !in group {
        updated := updated + [tables[index]];
      }
    }
    assert tables[..|tables|] == tables;
    PassIsReplaced(tables, group, first, outs);
  }

  // ---------------------------------------------------------------------------
  // Which groups the size-tiered strategy picks
  // ---------------------------------------------------------------------------

  function TableSize(rows: Source): (size: nat)
  {
    if rows == [] then 0 else |rows[0].key| + |rows[0].value| + TableSize(rows[1..])
  }

  datatype Bucket = Under64K | Under256K | Under1M | Larger

  function BucketOf(rows: Source): (bucket: Bucket)
  {
    var size := TableSize(rows);
    if size < 64 * 1024 then Under64K
    else if size < 256 * 1024 then Under256K
    else if size < 1024 * 1024 then Under1M
    else Larger
  }

  ghost predicate IsBucketMembers(members: set<nat>, tables: seq<Source>, bucket: Bucket)
  {
    forall i: nat :: i in members <==> i < |tables| && BucketOf(tables[i]) == bucket
  }

  ghost predicate IsBucket(members: set<nat>, tables: seq<Source>)
  {
    exists bucket :: IsBucketMembers(members, tables, bucket)
  }

  ghost predicate Apart(groups: seq<set<nat>>)
  {
    forall g, h :: 0 <= g < h < |groups| ==> groups[g] !! groups[h]
  }

  /** The size classes with enough tables, each once. */
  ghost predicate ArePicked(groups: seq<set<nat>>, tables: seq<Source>, threshold: nat)
  {
    && (forall g :: 0 <= g < |groups| ==> groups[g] != {} && IsBucket(groups[g], tables) && |groups[g]| >= threshold)
    && Apart(groups)
    && (forall members, bucket ::
          IsBucketMembers(members, tables, bucket) && members != {} && |members| >= threshold ==> members in groups)
  }

  /** A size class and the positions of its tables. */
  datatype Bin = Bin(bucket: Bucket, members: set<nat>)

  ghost predicate AreBins(bins: seq<Bin>, tables: seq<Source>)
  {
    && (forall b :: 0 <= b < |bins| ==> bins[b].members != {} && IsBucketMembers(bins[b].members, tables, bins[b].bucket))
    && (forall a, b :: 0 <= a < b < |bins| ==> bins[a].bucket != bins[b].bucket)
    && (forall i :: 0 <= i < |tables| ==> HasBin(bins, BucketOf(tables[i])))
  }

  predicate HasBin(bins: seq<Bin>, bucket: Bucket)
  {
    exists b :: 0 <= b < |bins| && bins[b].bucket == bucket
  }

  /** The bin of a size class, or the number of bins. */
  method FindBin(bins: seq<Bin>, bucket: Bucket) returns (found: nat)
    ensures found <= |bins| && (found < |bins| ==> bins[found].bucket == bucket)
    ensures forall b :: 0 <= b < found ==> bins[b].bucket != bucket
  {
    found := 0;
    while found < |bins| && bins[found].bucket != bucket
      invariant found <= |bins| && forall b :: 0 <= b < found ==> bins[b].bucket != bucket
    {
      found := found + 1;
    }
  }

  method FillBins(tables: seq<Source>) returns (bins: seq<Bin>)
    ensures AreBins(bins, tables)
  {
    bins := [];
    for i := 0 to |tables|
      invariant AreBins(bins, tables[..i])
    {
      var bucket := BucketOf(tables[i]);
      var b := FindBin(bins, bucket);
      assert tables[..i + 1][..i] == tables[..i];
      if b < |bins| {
        BinGrows(bins, tables[..i + 1], b);
        bins := bins[b := Bin(bucket, bins[b].members + {i})];
      } else {
        BinAdded(bins, tables[..i + 1]);
        bins := bins + [Bin(bucket, {i})];
      }
    }
    assert tables[..|tables|] == tables;
  }

  lemma MembersOfMore(members: set<nat>, tables: seq<Source>, bucket: Bucket)
    requires tables != [] && IsBucketMembers(members, tables[..|tables| - 1], bucket)
    ensures var n := |tables| - 1;
            IsBucketMembers(if BucketOf(tables[n]) == bucket then members + {n} else members, tables, bucket)
  {
    var init := tables[..|tables| - 1];
    assert forall i: nat :: i < |init| ==> init[i] == tables[i];
  }

  lemma BinGrows(bins: seq<Bin>, tables: seq<Source>, b: nat)
    requires tables != [] && AreBins(bins, tables[..|tables| - 1])
    requires b < |bins| && bins[b].bucket == BucketOf(tables[|tables| - 1])
    ensures AreBins(bins[b := Bin(bins[b].bucket, bins[b].members + {|tables| - 1})], tables)
  {
    var n, after := |tables| - 1, bins[b := Bin(bins[b].bucket, bins[b].members + {|tables| - 1})];
    forall a | 0 <= a < |after|
      ensures after[a].members != {} && IsBucketMembers(after[a].members, tables, after[a].bucket)
    {
      MembersOfMore(bins[a].members, tables, bins[a].bucket);
      assert a == b || bins[a].bucket != bins[b].bucket;
      assert a == b ==> n in after[a].members;
    }
    forall i | 0 <= i < |tables| ensures HasBin(after, BucketOf(tables[i])) {
      HasBinStill(bins, after, tables, i, b);
    }
  }

  lemma HasBinStill(bins: seq<Bin>, after: seq<Bin>, tables: seq<Source>, i: nat, b: nat)
    requires tables != [] && |bins| <= |after| && b < |after| && after[b].bucket == BucketOf(tables[|tables| - 1])
    requires forall a :: 0 <= a < |bins| ==> after[a].bucket == bins[a].bucket
    requires i < |tables| && AreBins(bins, tables[..|tables| - 1])
    ensures HasBin(after, BucketOf(tables[i]))
  {
    if i < |tables| - 1 {
      assert HasBin(bins, BucketOf(tables[..|tables| - 1][i]));
      var a :| 0 <= a < |bins| && bins[a].bucket == BucketOf(tables[i]);
      assert after[a].bucket == BucketOf(tables[i]);
    }
  }

  lemma BinAdded(bins: seq<Bin>, tables: seq<Source>)
    requires tables != [] && AreBins(bins, tables[..|tables| - 1])
    requires forall b :: 0 <= b < |bins| ==> bins[b].bucket != BucketOf(tables[|tables| - 1])
    ensures AreBins(bins + [Bin(BucketOf(tables[|tables| - 1]), {|tables| - 1})], tables)
  {
    var n := |tables| - 1;
    var bucket := BucketOf(tables[n]);
    var after := bins + [Bin(bucket, {n})];
    forall a | 0 <= a < |bins| ensures IsBucketMembers(bins[a].members, tables, bins[a].bucket) {
      MembersOfMore(bins[a].members, tables, bins[a].bucket);
    }
    forall i | 0 <= i < |tables| ensures HasBin(after, BucketOf(tables[i])) {
      HasBinStill(bins, after, tables, i, |bins|);
    }
    NobodyElse(bins, tables);
    assert n in {n};
  }

  lemma NobodyElse(bins: seq<Bin>, tables: seq<Source>)
    requires tables != [] && AreBins(bins, tables[..|tables| - 1])
    requires forall b :: 0 <= b < |bins| ==> bins[b].bucket != BucketOf(tables[|tables| - 1])
    ensures IsBucketMembers({|tables| - 1}, tables, BucketOf(tables[|tables| - 1]))
  {
    var init := tables[..|tables| - 1];
    forall i: nat | i < |init| ensures BucketOf(tables[i]) != BucketOf(tables[|tables| - 1]) {
      assert HasBin(bins, BucketOf(init[i]));
    }
  }

  function LargeBins(bins: seq<Bin>, threshold: nat): (groups: seq<set<nat>>)
  {
    if bins == [] then []
    else
      var last := bins[|bins| - 1].members;
      LargeBins(bins[..|bins| - 1], threshold) + if |last| >= threshold then [last] else []
  }

  lemma {:induction false} LargeBinsMembers(bins: seq<Bin>, threshold: nat)
    ensures forall group :: group in LargeBins(bins, threshold) <==>
              |group| >= threshold && exists b :: 0 <= b < |bins| && bins[b].members == group
  {
    if bins != [] {
      var init, last := bins[..|bins| - 1], bins[|bins| - 1].members;
      LargeBinsMembers(init, threshold);
      forall group
        ensures group in LargeBins(bins, threshold) <==>
                |group| >= threshold && exists b :: 0 <= b < |bins| && bins[b].members == group
      {
        if b :| 0 <= b < |init| && init[b].members == group {
          assert bins[b].members == group;
        }
        if b :| 0 <= b < |bins| && bins[b].members == group && b < |init| {
          assert init[b].members == group;
        }
      }
    }
  }

  lemma {:induction false} LargeBinsApart(bins: seq<Bin>, threshold: nat)
    requires forall a, b :: 0 <= a < b < |bins| ==> bins[a].members !! bins[b].members
    ensures Apart(LargeBins(bins, threshold))
  {
    if bins != [] {
      var init, last := bins[..|bins| - 1], bins[|bins| - 1].members;
      var before := LargeBins(init, threshold);
      LargeBinsApart(init, threshold);
      LargeBinsMembers(init, threshold);
      forall g | 0 <= g < |before| ensures before[g] !! last {
        assert before[g] in before;
        var b :| 0 <= b < |init| && init[b].members == before[g];
        assert bins[b].members !! bins[|bins| - 1].members;
      }
      var groups := LargeBins(bins, threshold);
      assert groups == if |last| >= threshold then before + [last] else before;
      forall g, h | 0 <= g < h < |groups| ensures groups[g] !! groups[h] {
        assert groups[g] == before[g];
        if h < |before| {
          assert before[g] !! before[h] && groups[h] == before[h];
        } else {
          assert groups[h] == last;
        }
      }
    }
  }

  lemma LargeBinsArePicked(bins: seq<Bin>, tables: seq<Source>, threshold: nat)
    requires AreBins(bins, tables)
    ensures ArePicked(LargeBins(bins, threshold), tables, threshold)
  {
    var groups := LargeBins(bins, threshold);
    LargeBinsMembers(bins, threshold);
    forall a, b | 0 <= a < b < |bins| ensures bins[a].members !! bins[b].members {
      assert IsBucketMembers(bins[a].members, tables, bins[a].bucket) && IsBucketMembers(bins[b].members, tables, bins[b].bucket);
    }
    LargeBinsApart(bins, threshold);
    forall g | 0 <= g < |groups| ensures groups[g] != {} && IsBucket(groups[g], tables) && |groups[g]| >= threshold {
      assert groups[g] in groups;
      var b :| 0 <= b < |bins| && bins[b].members == groups[g];
      assert IsBucketMembers(groups[g], tables, bins[b].bucket);
    }
    forall members, bucket | IsBucketMembers(members, tables, bucket) && members != {} && |members| >= threshold
      ensures members in groups
    {
      BinOfMembers(bins, tables, members, bucket);
    }
  }

  lemma BinOfMembers(bins: seq<Bin>, tables: seq<Source>, members: set<nat>, bucket: Bucket)
    requires AreBins(bins, tables) && IsBucketMembers(members, tables, bucket) && members != {}
    ensures exists b :: 0 <= b < |bins| && bins[b].members == members
  {
    var i :| i in members;
    assert HasBin(bins, BucketOf(tables[i]));
    var b :| 0 <= b < |bins| && bins[b].bucket == bucket;
    assert IsBucketMembers(bins[b].members, tables, bucket);
    assert bins[b].members == members;
  }

  /** Tables of one size class form a group, wherever they stand in the list. */
  method GroupIntoBuckets(tables: seq<Source>, threshold: nat) returns (groups: seq<set<nat>>)
    ensures ArePicked(groups, tables, threshold)
  {
    var bins := FillBins(tables);
    groups := [];
    for b := 0 to |bins|
      invariant groups == LargeBins(bins[..b], threshold)
    {
      assert bins[..b + 1][..b] == bins[..b];
      if |bins[b].members| >= threshold {
        groups := groups + [bins[b].members];
      }
    }
    assert bins[..|bins|] == bins;
    LargeBinsArePicked(bins, tables, threshold);
  }
}
