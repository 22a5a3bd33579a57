/**
 * Tables as the engine keeps them: the records a read finds, and whether their
 * rows are in memory too, where compaction looks. Flushed and compacted tables
 * are in memory, tables found on disk at start are not.
 */
module StoredTables {
  import opened Options
  import opened Bytes
  import opened RangeTombstones
  import opened Rows
  import opened Merge
  import opened Compaction
  import opened CompactionGroups
  import opened VersionedCompaction
  import opened CompactionPasses

  type Records = seq<Row<Version>>  // in key order

  datatype Stored = Stored(records: Records, loaded: bool)

  ghost predicate AllInOrder(tables: seq<Stored>)
  {
    forall i :: 0 <= i < |tables| ==> Sorted(tables[i].records)
  }

  ghost function Files(tables: seq<Stored>): (files: seq<File>)
    ensures |files| == |tables| && forall i :: 0 <= i < |tables| ==> files[i] == Contents(tables[i].records)
  {
    seq(|tables|, i requires 0 <= i < |tables| => Contents(tables[i].records))
  }

  ghost function LoadedIn(tables: seq<Stored>): (loaded: set<nat>)
    ensures forall i: nat :: i in loaded <==> i < |tables| && tables[i].loaded
  {
    set i: nat | i < |tables| && tables[i].loaded
  }

  // ---------------------------------------------------------------------------
  // What compaction looks at
  // ---------------------------------------------------------------------------

  function Stripped(records: Records): (rows: Source)
    ensures |rows| == |records|
    ensures forall i :: 0 <= i < |records| ==> rows[i] == Row(records[i].key, Raw(records[i].value))
  {
    seq(|records|, i requires 0 <= i < |records| => Row(records[i].key, Raw(records[i].value)))
  }

  /** The rows in memory. */
  function DataOf(table: Stored): (rows: Source)
  {
    if table.loaded then Stripped(table.records) else []
  }

  function DataRows(tables: seq<Stored>): (rows: seq<Source>)
    ensures |rows| == |tables| && forall i :: 0 <= i < |tables| ==> rows[i] == DataOf(tables[i])
  {
    seq(|tables|, i requires 0 <= i < |tables| => DataOf(tables[i]))
  }

  ghost function RawsOf(file: File): (table: Table)
  {
    map key | key in file :: Raw(file[key])
  }

  lemma {:induction false} StrippedContents(records: Records)
    requires Sorted(records)
    ensures Sorted(Stripped(records)) && Contents(Stripped(records)) == RawsOf(Contents(records))
  {
    if records != [] {
      assert Stripped(records)[1..] == Stripped(records[1..]);
      StrippedContents(records[1..]);
      RawsOfPut(Contents(records[1..]), records[0].key, records[0].value);
      StrippedSorted(records);
    }
  }

  lemma StrippedSorted(records: Records)
    requires Sorted(records)
    ensures Sorted(Stripped(records))
  {
    forall i, j | 0 <= i < j < |records| ensures Less(Stripped(records)[i].key, Stripped(records)[j].key) {
      assert Less(records[i].key, records[j].key);
    }
  }

  lemma RawsOfPut(file: File, key: Bytes, version: Version)
    ensures RawsOf(file + map[key := version]) == RawsOf(file) + map[key := Raw(version)]
  {
  }

  /** The tables in memory, oldest first. */
  ghost function LoadedFiles(tables: seq<Stored>): (files: seq<File>)
  {
    if tables == [] then []
    else
      var last := tables[|tables| - 1];
      LoadedFiles(tables[..|tables| - 1]) + if last.loaded then [Contents(last.records)] else []
  }

  ghost function RawEntry(entry: Option<Version>): (value: Option<Bytes>)
  {
    if entry.Some? then Some(Raw(entry.value)) else None
  }

  lemma {:induction false} DataLookup(tables: seq<Stored>, key: Bytes)
    requires AllInOrder(tables)
    ensures Lookup(Tables(DataRows(tables)), key) == RawEntry(Lookup(LoadedFiles(tables), key))
  {
    if tables == [] {
      assert Newest(Column<Version>([], key)) == None;
    } else {
      var n := |tables| - 1;
      var init, last := tables[..n], tables[n];
      DataLookup(init, key);
      assert Tables(DataRows(tables)) == Tables(DataRows(init)) + [Contents(DataOf(last))];
      LookupConcat(Tables(DataRows(init)), [Contents(DataOf(last))], key);
      LookupOne(Contents(DataOf(last)), key);
      LookupConcat(LoadedFiles(init), if last.loaded then [Contents(last.records)] else [], key);
      LookupOne(Contents(last.records), key);
      StrippedContents(last.records);
      assert Newest(Column<Version>([], key)) == None;
    }
  }

  lemma {:induction false} SelectedAgree<T>(s: seq<T>, a: set<nat>, b: set<nat>)
    requires forall i: nat :: i < |s| ==> (i in a <==> i in b)
    ensures Selected(s, a) == Selected(s, b)
  {
    if s != [] {
      SelectedAgree(s[..|s| - 1], a, b);
    }
  }

  lemma LoadedSnoc(tables: seq<Stored>, last: Stored)
    ensures LoadedFiles(tables + [last]) == LoadedFiles(tables) + if last.loaded then [Contents(last.records)] else []
  {
    assert (tables + [last])[..|tables|] == tables;
  }

  /** Of a group's tables, those in memory. */
  lemma {:induction false} LoadedOfGroup(tables: seq<Stored>, group: set<nat>)
    ensures LoadedFiles(Selected(tables, group)) == Selected(Files(tables), group * LoadedIn(tables))
  {
    if tables != [] {
      var n := |tables| - 1;
      var init := tables[..n];
      LoadedOfGroup(init, group);
      assert Files(tables)[..n] == Files(init);
      SelectedAgree(Files(init), group * LoadedIn(init), group * LoadedIn(tables));
      var part := group * LoadedIn(tables);
      assert Selected(Files(tables), part)
        == Selected(Files(init), part) + if n in part then [Contents(tables[n].records)] else [];
      if n in group {
        assert Selected(tables, group) == Selected(init, group) + [tables[n]];
        LoadedSnoc(Selected(init, group), tables[n]);
      } else {
        assert Selected(tables, group) == Selected(init, group);
      }
    }
  }

  // ---------------------------------------------------------------------------
  // Compacting
  // ---------------------------------------------------------------------------

  /** Every kept row becomes a fresh record; `clock` is the time at which the key's record is written. */
  function Stamped(rows: Source, clock: Bytes -> nat): (records: Records)
    ensures |records| == |rows|
    ensures forall i :: 0 <= i < |rows| ==> records[i] == Row(rows[i].key, Put(rows[i].value, clock(rows[i].key)))
  {
    seq(|rows|, i requires 0 <= i < |rows| => Row(rows[i].key, Put(rows[i].value, clock(rows[i].key))))
  }

  lemma {:induction false} StampedContents(rows: Source, clock: Bytes -> nat)
    requires Sorted(rows)
    ensures Sorted(Stamped(rows, clock))
    ensures Contents(Stamped(rows, clock)) == map key | key in Contents(rows) :: Put(Contents(rows)[key], clock(key))
  {
    if rows != [] {
      assert Stamped(rows, clock)[1..] == Stamped(rows[1..], clock);
      StampedContents(rows[1..], clock);
      StampedPut(Contents(rows[1..]), rows[0].key, rows[0].value, clock);
      StampedSorted(rows, clock);
    }
  }

  lemma StampedPut(table: Table, key: Bytes, value: Bytes, clock: Bytes -> nat)
    ensures var after := table + map[key := value];
            (map k | k in after :: Put(after[k], clock(k))) == (map k | k in table :: Put(table[k], clock(k))) + map[key := Put(value, clock(key))]
  {
  }

  lemma StampedSorted(rows: Source, clock: Bytes -> nat)
    requires Sorted(rows)
    ensures Sorted(Stamped(rows, clock))
  {
    forall i, j | 0 <= i < j < |rows| ensures Less(Stamped(rows, clock)[i].key, Stamped(rows, clock)[j].key) {
      assert Less(rows[i].key, rows[j].key);
    }
  }

  /** Merge what is in memory, drop what has no value or is covered, and write the rest with fresh timestamps. */
  method CompactTables(tables: seq<Stored>, tombstones: seq<RangeTombstone>, clock: Bytes -> nat)
    returns (outs: seq<Stored>)
    requires AllInOrder(tables)
    ensures AllInOrder(outs) && forall i :: 0 <= i < |outs| ==> outs[i].loaded
    ensures AreMadeFrom(Files(outs), LoadedFiles(tables), tombstones, clock)
  {
    DataSorted(tables);
    var kept := ExecuteCompaction(DataRows(tables), tombstones);
    outs := if kept == [] then [] else [Stored(Stamped(kept[0], clock), true)];
    OutputsAreMade(tables, kept, tombstones, clock, outs);
  }

  ghost predicate AreWritten(outs: seq<Stored>, kept: seq<Source>, clock: Bytes -> nat)
  {
    |kept| <= 1 && AllSorted(kept) && outs == if kept == [] then [] else [Stored(Stamped(kept[0], clock), true)]
  }

  lemma OutputsAreMade(tables: seq<Stored>, kept: seq<Source>, tombstones: seq<RangeTombstone>, clock: Bytes -> nat,
                       outs: seq<Stored>)
    requires AllInOrder(tables) && AreWritten(outs, kept, clock)
    requires IsCompactionOf(if kept == [] then map[] else Contents(kept[0]), Tables(DataRows(tables)), tombstones)
    ensures AllInOrder(outs) && AreMadeFrom(Files(outs), LoadedFiles(tables), tombstones, clock)
  {
    forall key ensures Lookup(Files(outs), key) == Made(LoadedFiles(tables), tombstones, clock, key) {
      DataLookup(tables, key);
      KeptIsMade(kept, Tables(DataRows(tables)), tombstones, clock, key, outs);
      SurvivorIsKept(Lookup(LoadedFiles(tables), key), tombstones, clock, key);
    }
    if kept != [] {
      StampedSorted(kept[0], clock);
    }
  }

  lemma SurvivorIsKept(entry: Option<Version>, tombstones: seq<RangeTombstone>, clock: Bytes -> nat, key: Bytes)
    ensures var out := if Covered(tombstones, key) then None else Visible(RawEntry(entry));
            KeptAs(entry, StampFor(tombstones, clock, key)) == if out.Some? then Some(Put(out.value, clock(key))) else None
  {
  }

  lemma DataSorted(tables: seq<Stored>)
    requires AllInOrder(tables)
    ensures AllSorted(DataRows(tables))
  {
    forall i | 0 <= i < |tables| ensures Sorted(DataRows(tables)[i]) {
      StrippedSorted(tables[i].records);
    }
  }

  lemma KeptIsMade(kept: seq<Source>, data: seq<Table>, tombstones: seq<RangeTombstone>, clock: Bytes -> nat, key: Bytes,
                   outs: seq<Stored>)
    requires AreWritten(outs, kept, clock)
    requires IsCompactionOf(if kept == [] then map[] else Contents(kept[0]), data, tombstones)
    ensures var out := Survivor(data, tombstones, key);
            Lookup(Files(outs), key) == if out.Some? then Some(Put(out.value, clock(key))) else None
  {
    var table := if kept == [] then map[] else Contents(kept[0]);
    assert (if key in table then Some(table[key]) else None) == Survivor(data, tombstones, key);
    if kept != [] {
      StampedContents(kept[0], clock);
      assert Files(outs) == [Contents(Stamped(kept[0], clock))];
      LookupOne(Contents(Stamped(kept[0], clock)), key);
    }
  }

  /** Compact a group and put its output in place: every read is kept exactly where it was safe. */
  method CompactGroup(tables: seq<Stored>, group: set<nat>, first: nat, tombstones: seq<RangeTombstone>, clock: Bytes -> nat)
    returns (updated: seq<Stored>)
    requires AllInOrder(tables) && IsFirst(group, first) && first < |tables|
    ensures forall key ::
              ReadAt(Files(updated), tombstones, key) == ReadAt(Files(tables), tombstones, key)
              <==> KeySafe(Files(tables), LoadedIn(tables), group, first, tombstones, key)
    ensures forall later, key ::
              ReadAt(Files(updated), later, key) == ReadAt(Files(tables), later, key)
              <==> LaterSafe(Files(tables), LoadedIn(tables), group, first, tombstones, clock, later, key)
  {
    SelectedInOrder(tables, group);
    LoadedOfGroup(tables, group);
    var outs := CompactTables(Selected(tables, group), tombstones, clock);
    updated := ReplaceGroup(tables, group, first, outs);
    FilesReplaced(tables, group, first, outs);
    forall key
      ensures ReadAt(Files(updated), tombstones, key) == ReadAt(Files(tables), tombstones, key)
              <==> KeySafe(Files(tables), LoadedIn(tables), group, first, tombstones, key)
    {
      KeyReadPreservedIff(Files(tables), LoadedIn(tables), group, first, Files(outs), tombstones, clock, key);
    }
    forall later, key
      ensures ReadAt(Files(updated), later, key) == ReadAt(Files(tables), later, key)
              <==> LaterSafe(Files(tables), LoadedIn(tables), group, first, tombstones, clock, later, key)
    {
      LaterReadPreservedIff(Files(tables), LoadedIn(tables), group, first, Files(outs), tombstones, clock, later, key);
    }
  }

  lemma SelectedInOrder(tables: seq<Stored>, group: set<nat>)
    requires AllInOrder(tables)
    ensures AllInOrder(Selected(tables, group))
  {
    SelectedAt(tables, group);
  }

  lemma FilesConcat(a: seq<Stored>, b: seq<Stored>)
    ensures Files(a + b) == Files(a) + Files(b)
  {
  }

  lemma FilesReplaced(tables: seq<Stored>, group: set<nat>, first: nat, outs: seq<Stored>)
    requires first <= |tables|
    ensures Files(Replaced(tables, group, first, outs)) == Replaced(Files(tables), group, first, Files(outs))
  {
    UnselectedAt(tables, group, first);
    UnselectedAt(Files(tables), group, first);
    assert Files(Unselected(tables, group, first)) == Unselected(Files(tables), group, first);
    FilesConcat(tables[..first], outs);
    FilesConcat(tables[..first] + outs, Unselected(tables, group, first));
    assert Files(tables)[..first] == Files(tables[..first]);
  }

  // ---------------------------------------------------------------------------
  // Size classes
  // ---------------------------------------------------------------------------

  /** Tables of one record, in memory. */
  function Singles(key: Bytes, versions: seq<Version>): (tables: seq<Stored>)
    ensures |tables| == |versions| && forall i :: 0 <= i < |versions| ==> tables[i] == Stored([Row(key, versions[i])], true)
  {
    seq(|versions|, i requires 0 <= i < |versions| => Stored([Row(key, versions[i])], true))
  }

  lemma SinglesAre(key: Bytes, versions: seq<Version>)
    ensures var tables := Singles(key, versions);
            && (forall i :: 0 <= i < |versions| ==> Files(tables)[i] == map[key := versions[i]])
            && (forall i :: 0 <= i < |versions| ==> TableSize(DataRows(tables)[i]) == |key| + |Raw(versions[i])|)
  {
    var tables := Singles(key, versions);
    forall i | 0 <= i < |versions|
      ensures Files(tables)[i] == map[key := versions[i]] && TableSize(DataRows(tables)[i]) == |key| + |Raw(versions[i])|
    {
      assert Contents(tables[i].records[1..]) == map[];
      var rows := DataRows(tables)[i];
      assert rows == [Row(key, Raw(versions[i]))] && TableSize(rows[1..]) == 0;
    }
  }

  /**
   * A size class need not be a run of neighbours. When a larger table between two
   * small ones holds the key, compacting the small ones makes reads go back to it.
   */
  lemma SizeTieredGroupCanLoseNewestValue(key: Bytes, versions: seq<Version>, outs: seq<File>)
    requires |versions| == 3 && versions[1].Put? && versions[2].Put?
    requires |key| + |Raw(versions[0])| < 64 * 1024 && |key| + |Raw(versions[2])| < 64 * 1024 <= |key| + |Raw(versions[1])|
    ensures var tables := Singles(key, versions);
            && IsBucketMembers({0, 2}, DataRows(tables), Under64K)
            && ReadAt(Files(tables), [], key) == Some(versions[2].value)
            && ReadAt(Replaced(Files(tables), {0, 2}, 0, outs), [], key) == Some(versions[1].value)
  {
    SinglesAre(key, versions);
    var files, rows := Files(Singles(key, versions)), DataRows(Singles(key, versions));
    assert BucketOf(rows[0]) == BucketOf(rows[2]) == Under64K != BucketOf(rows[1]);
    EndsGoBackToMiddle(files, outs, key);
  }

  lemma EndsGoBackToMiddle(files: seq<File>, outs: seq<File>, key: Bytes)
    requires |files| == 3 && key in files[1] && key in files[2]
    ensures Lookup(files, key) == Some(files[2][key])
    ensures Lookup(Replaced(files, {0, 2}, 0, outs), key) == Some(files[1][key])
  {
    NewestIs(Column(files, key), 2);
    LookupReplaced(files, {0, 2}, 0, outs, key);
    MiddleIsLeft(Column(files, key));
  }

  /** The one between the first and the third of three. */
  lemma MiddleIsLeft<V>(column: seq<Option<V>>)
    requires |column| == 3 && column[1].Some?
    ensures Newest(Unselected(column, {0, 2}, 0)) == column[1]
  {
    var ends: set<nat>, one, two := {0, 2}, column[..1], column[..2];
    assert two[..1] == one && one[..0] == [] && 1 !in ends;
    assert Unselected(one, ends, 0) == [];
    assert Unselected(two, ends, 0) == [two[1]];
    assert Unselected(column, ends, 0) == [column[1]];
    NewestIs([column[1]], 0);
  }

  /** Two size classes nested around a larger table: the read goes back to that one. */
  lemma NestedGroupsGoBackToMiddle(key: Bytes, versions: seq<Version>, outer: seq<File>, inner: seq<File>)
    requires |versions| == 5 && versions[2].Put? && versions[4].Put?
    requires |key| + |Raw(versions[0])| < 64 * 1024 && |key| + |Raw(versions[4])| < 64 * 1024
    requires 64 * 1024 <= |key| + |Raw(versions[1])| < 256 * 1024 && 64 * 1024 <= |key| + |Raw(versions[3])| < 256 * 1024
    requires 256 * 1024 <= |key| + |Raw(versions[2])|
    ensures var tables := Singles(key, versions);
            var plan := [Replacement(Group({0, 4}, 0), outer), Replacement(Group({1, 3}, 1), inner)];
            && IsBucketMembers({0, 4}, DataRows(tables), Under64K) && IsBucketMembers({1, 3}, DataRows(tables), Under256K)
            && Disjoint(GroupsOf(plan)) && ReadAt(Files(tables), [], key) == Some(versions[4].value)
            && ReadAt(ReplacedAll(Files(tables), plan), [], key) == Some(versions[2].value)
  {
    SinglesAre(key, versions);
    NestedClasses(DataRows(Singles(key, versions)));
    NestedGoBackToMiddle(key, Files(Singles(key, versions)), outer, inner);
  }

  lemma NestedClasses(rows: seq<Source>)
    requires |rows| == 5 && 256 * 1024 <= TableSize(rows[2])
    requires TableSize(rows[0]) < 64 * 1024 && TableSize(rows[4]) < 64 * 1024
    requires 64 * 1024 <= TableSize(rows[1]) < 256 * 1024 && 64 * 1024 <= TableSize(rows[3]) < 256 * 1024
    ensures IsBucketMembers({0, 4}, rows, Under64K) && IsBucketMembers({1, 3}, rows, Under256K)
  {
    assert BucketOf(rows[0]) == BucketOf(rows[4]) == Under64K && BucketOf(rows[1]) == BucketOf(rows[3]) == Under256K;
    assert BucketOf(rows[2]) != Under64K && BucketOf(rows[2]) != Under256K;
  }

  /** With nothing in memory, every table is in the smallest size class. */
  lemma RecoveredArePickedTogether(tables: seq<Stored>, groups: seq<set<nat>>, threshold: nat)
    requires LoadedIn(tables) == {} && ArePicked(groups, DataRows(tables), threshold) && groups != []
    ensures groups == [AllBelow(|tables|)]
  {
    forall g | 0 <= g < |groups| ensures groups[g] == AllBelow(|tables|) {
      SmallestClass(tables, groups[g]);
    }
    SecondDiffers(groups);
  }

  lemma SecondDiffers(groups: seq<set<nat>>)
    requires Apart(groups) && groups != [] && groups[0] != {}
    ensures |groups| > 1 ==> groups[1] != groups[0]
  {
    var i :| i in groups[0];
    if |groups| > 1 {
      assert i !in groups[1];
    }
  }

  lemma SmallestClass(tables: seq<Stored>, group: set<nat>)
    requires LoadedIn(tables) == {} && IsBucket(group, DataRows(tables)) && group != {}
    ensures group == AllBelow(|tables|)
  {
    var bucket :| IsBucketMembers(group, DataRows(tables), bucket);
    forall i: nat | i < |tables| ensures BucketOf(DataRows(tables)[i]) == Under64K {
      assert i !in LoadedIn(tables);
    }
    var i :| i in group;
    assert bucket == Under64K;
    AllBelowAre(|tables|);
  }
}
