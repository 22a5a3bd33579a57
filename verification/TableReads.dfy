/**
 * Point reads of the table lists: tables are skipped by key range and Bloom
 * filter, rows are looked up in memory and then in the table's file, and values
 * found are cached by key, for all column families together.
 */
module TableReads {
  import opened Options
  import opened Bytes
  import opened RangeTombstones
  import opened Rows
  import opened Merge
  import opened Compaction
  import opened VersionedCompaction
  import opened StoredTables

  /** The rows in memory, the records of the file, if the table has one, and what is kept to skip it. */
  datatype IndexedTable = IndexedTable(data: Table, file: Option<File>, minKey: Bytes, maxKey: Bytes, bloom: Bytes -> bool)

  ghost function At<V>(table: map<Bytes, V>, key: Bytes): (entry: Option<V>)
  {
    if key in table then Some(table[key]) else None
  }

  /** A row without a record: the empty value is a tombstone, and the time is unknown. */
  function Unversioned(value: Bytes): (version: Version)
  {
    if value == [] then Deleted(0) else Put(value, 0)
  }

  /** Values in memory first; without one, the file knows a tombstone from an empty value. */
  ghost function Found(table: IndexedTable, key: Bytes): (entry: Option<Version>)
  {
    if key in table.data && (table.data[key] != [] || table.file.None?) then Some(Unversioned(table.data[key]))
    else if table.file.Some? then At(table.file.value, key)
    else None
  }

  /** Where timestamps count, the file alone is asked. */
  ghost function Recorded(table: IndexedTable, key: Bytes): (entry: Option<Version>)
  {
    if table.file.Some? then At(table.file.value, key)
    else if key in table.data then Some(Unversioned(table.data[key]))
    else None
  }

  predicate OutOfRange(table: IndexedTable, key: Bytes)
  {
    table.minKey != [] && table.maxKey != [] && (Less(key, table.minKey) || Less(table.maxKey, key))
  }

  /** The check where timestamps count: each bound on its own. */
  predicate OutOfBound(table: IndexedTable, key: Bytes)
  {
    (table.minKey != [] && Less(key, table.minKey)) || (table.maxKey != [] && Less(table.maxKey, key))
  }

  /** No key of the table is skipped. */
  ghost predicate WellIndexed(table: IndexedTable)
  {
    forall key :: key in table.data || (table.file.Some? && key in table.file.value) ==>
      table.bloom(key) && !OutOfBound(table, key)
  }

  /** As tables are built: the first and the last key, and a filter without false negatives. */
  lemma BuiltIsWellIndexed(rows: Source, bloom: Bytes -> bool)
    requires Sorted(rows) && forall key :: key in Contents(rows) ==> bloom(key)
    ensures WellIndexed(IndexedTable(Contents(rows), None, if rows == [] then [] else rows[0].key,
                                     if rows == [] then [] else rows[|rows| - 1].key, bloom))
  {
    forall key | key in Contents(rows) ensures !Less(key, rows[0].key) && !Less(rows[|rows| - 1].key, key) {
      ContentsKeys(rows, key);
      var i :| 0 <= i < |rows| && rows[i].key == key;
      LessIrreflexive(key);
      if i > 0 {
        LessAsymmetric(rows[0].key, key);
      }
      if i < |rows| - 1 {
        LessAsymmetric(key, rows[|rows| - 1].key);
      }
    }
  }

  ghost predicate AllIndexed(tables: seq<IndexedTable>)
  {
    forall i :: 0 <= i < |tables| ==> WellIndexed(tables[i])
  }

  // ---------------------------------------------------------------------------
  // The searches
  // ---------------------------------------------------------------------------

  ghost function FoundColumn(tables: seq<IndexedTable>, key: Bytes): (column: seq<Option<Version>>)
    ensures |column| == |tables| && forall i :: 0 <= i < |tables| ==> column[i] == Found(tables[i], key)
  {
    seq(|tables|, i requires 0 <= i < |tables| => Found(tables[i], key))
  }

  ghost function RecordColumn(tables: seq<IndexedTable>, key: Bytes): (column: seq<Option<Version>>)
    ensures |column| == |tables| && forall i :: 0 <= i < |tables| ==> column[i] == Recorded(tables[i], key)
  {
    seq(|tables|, i requires 0 <= i < |tables| => Recorded(tables[i], key))
  }

  /** One table; skipping it changes no answer. */
  method SearchTable(table: IndexedTable, key: Bytes) returns (entry: Option<Version>)
    requires WellIndexed(table)
    ensures entry == Found(table, key)
  {
    if OutOfRange(table, key) || !table.bloom(key) {
      return None;
    }
    if key in table.data && (table.data[key] != [] || table.file.None?) {
      return Some(Unversioned(table.data[key]));
    }
    if table.file.Some? && key in table.file.value {
      return Some(table.file.value[key]);
    }
    return None;
  }

  /** From the newest table on. */
  method Search(tables: seq<IndexedTable>, key: Bytes) returns (value: Option<Bytes>)
    requires AllIndexed(tables)
    ensures value == ReadSince(Newest(FoundColumn(tables, key)), 0)
  {
    ghost var column := FoundColumn(tables, key);
    var n := |tables|;
    assert column[..n] == column;
    while n > 0
      invariant n <= |tables| && Newest(column[..n]) == Newest(column)
    {
      var entry := SearchTable(tables[n - 1], key);
      assert column[..n][..n - 1] == column[..n - 1];
      if entry.Some? {
        return if entry.value.Deleted? then None else Some(entry.value.value);
      }
      n := n - 1;
    }
    return None;
  }

  method SearchTableRecord(table: IndexedTable, key: Bytes) returns (record: Option<Version>)
    requires WellIndexed(table)
    ensures record == Recorded(table, key)
  {
    if OutOfBound(table, key) || !table.bloom(key) {
      return None;
    }
    if table.file.Some? {
      return if key in table.file.value then Some(table.file.value[key]) else None;
    }
    return if key in table.data then Some(Unversioned(table.data[key])) else None;
  }

  /** The same where the record's timestamp is needed. */
  method SearchRecord(tables: seq<IndexedTable>, key: Bytes) returns (record: Option<Version>)
    requires AllIndexed(tables)
    ensures record == Newest(RecordColumn(tables, key))
  {
    ghost var column := RecordColumn(tables, key);
    var n := |tables|;
    assert column[..n] == column;
    while n > 0
      invariant n <= |tables| && Newest(column[..n]) == Newest(column)
    {
      record := SearchTableRecord(tables[n - 1], key);
      assert column[..n][..n - 1] == column[..n - 1];
      if record.Some? {
        return;
      }
      n := n - 1;
    }
    return None;
  }

  // ---------------------------------------------------------------------------
  // What the searches read
  // ---------------------------------------------------------------------------

  /** In memory there is nothing, or what the file holds. */
  ghost predicate Consistent(table: IndexedTable)
  {
    table.file.Some? ==> table.data == map[] || table.data == RawsOf(table.file.value)
  }

  ghost function AsFile(table: IndexedTable): (file: File)
  {
    if table.file.Some? then table.file.value else map key | key in table.data :: Unversioned(table.data[key])
  }

  ghost function AsFiles(tables: seq<IndexedTable>): (files: seq<File>)
    ensures |files| == |tables| && forall i :: 0 <= i < |tables| ==> files[i] == AsFile(tables[i])
  {
    seq(|tables|, i requires 0 <= i < |tables| => AsFile(tables[i]))
  }

  /** Two columns with entries at the same places, reading the same there. */
  ghost predicate ReadAlike(a: seq<Option<Version>>, b: seq<Option<Version>>)
  {
    |a| == |b| && forall i :: 0 <= i < |a| ==> a[i].Some? == b[i].Some? && ReadSince(a[i], 0) == ReadSince(b[i], 0)
  }

  lemma {:induction false} ReadAlikeNewest(a: seq<Option<Version>>, b: seq<Option<Version>>)
    requires ReadAlike(a, b)
    ensures ReadSince(Newest(a), 0) == ReadSince(Newest(b), 0)
  {
    if a != [] && a[|a| - 1].None? {
      ReadAlikeNewest(a[..|a| - 1], b[..|b| - 1]);
    }
  }

  lemma ColumnsAre(tables: seq<IndexedTable>, key: Bytes)
    requires forall i :: 0 <= i < |tables| ==> Consistent(tables[i])
    ensures ReadAlike(FoundColumn(tables, key), Column(AsFiles(tables), key))
    ensures RecordColumn(tables, key) == Column(AsFiles(tables), key)
  {
    forall i | 0 <= i < |tables|
      ensures var entry := Column(AsFiles(tables), key)[i];
              && Found(tables[i], key).Some? == entry.Some?
              && ReadSince(Found(tables[i], key), 0) == ReadSince(entry, 0)
              && Recorded(tables[i], key) == entry
    {
      assert Consistent(tables[i]);
    }
  }

  /** The tables' part of a read: records older than a range delete over the key do not count. */
  method Get(tables: seq<IndexedTable>, tombstones: seq<RangeTombstone>, key: Bytes) returns (value: Option<Bytes>)
    requires AllIndexed(tables) && forall i :: 0 <= i < |tables| ==> Consistent(tables[i])
    ensures value == ReadAt(AsFiles(tables), tombstones, key)
  {
    ColumnsAre(tables, key);
    var covering := MaxCovering(tombstones, key);
    if covering.Some? {
      var record := SearchRecord(tables, key);
      value := if record.Some? && record.value.Put? && record.value.timestamp >= covering.value then Some(record.value.value)
               else None;
    } else {
      value := Search(tables, key);
      ReadAlikeNewest(FoundColumn(tables, key), Column(AsFiles(tables), key));
    }
  }

  // ---------------------------------------------------------------------------
  // The value cache
  // ---------------------------------------------------------------------------

  type Families = map<string, seq<File>>

  type Cache = map<Bytes, Bytes>

  ghost function ReadIn(families: Families, family: string, key: Bytes): (value: Option<Bytes>)
  {
    if family in families then ReadSince(Lookup(families[family], key), 0) else None
  }

  /** A cached value answers for every column family; an empty one is taken for a tombstone. */
  ghost function CachedGet(families: Families, cache: Cache, family: string, key: Bytes): (value: Option<Bytes>)
  {
    if key in cache then (if cache[key] == [] then None else Some(cache[key])) else ReadIn(families, family, key)
  }

  /** Values found are cached, and the cache may drop any. */
  datatype Access = Read(family: string, key: Bytes) | Evict(key: Bytes)

  ghost function CacheAfter(families: Families, accesses: seq<Access>): (cache: Cache)
  {
    if accesses == [] then map[]
    else
      var before, last := CacheAfter(families, accesses[..|accesses| - 1]), accesses[|accesses| - 1];
      if last.Evict? then before - {last.key}
      else
        var value := CachedGet(families, before, last.family, last.key);
        if value.Some? then before[last.key := value.value] else before
  }

  /** Whatever is cached under a key, some family reads. */
  lemma {:induction false} CachedIsRead(families: Families, accesses: seq<Access>, key: Bytes)
    requires key in CacheAfter(families, accesses)
    ensures exists family :: family in families
                             && ReadIn(families, family, key) == Some(CacheAfter(families, accesses)[key])
  {
    var init, last := accesses[..|accesses| - 1], accesses[|accesses| - 1];
    var before := CacheAfter(families, init);
    if key in before {
      CachedIsRead(families, init, key);
    } else {
      assert last.Read? && last.key == key;
      assert ReadIn(families, last.family, key).Some?;
    }
  }

  /** Every value a family reads at the key is, taken from the cache, what this one reads. */
  ghost predicate FamiliesAgree(families: Families, family: string, key: Bytes)
  {
    forall other :: other in families && ReadIn(families, other, key).Some? ==>
      Visible(ReadIn(families, other, key)) == ReadIn(families, family, key)
  }

  /**
   * After every run of reads and evictions a family's read is right iff no other
   * family reads something else, and it does not itself read an empty value.
   */
  lemma CachedReadsRightIff(families: Families, family: string, key: Bytes)
    ensures (forall accesses :: CachedGet(families, CacheAfter(families, accesses), family, key)
                                == ReadIn(families, family, key))
            <==> FamiliesAgree(families, family, key)
  {
    if FamiliesAgree(families, family, key) {
      forall accesses
        ensures CachedGet(families, CacheAfter(families, accesses), family, key) == ReadIn(families, family, key)
      {
        if key in CacheAfter(families, accesses) {
          CachedIsRead(families, accesses, key);
        }
      }
    } else {
      var other :| other in families && ReadIn(families, other, key).Some?
                   && Visible(ReadIn(families, other, key)) != ReadIn(families, family, key);
      OtherFamilyAnswers(families, family, other, key);
      var accesses := [Read(other, key)];
      assert CachedGet(families, CacheAfter(families, accesses), family, key) != ReadIn(families, family, key);
    }
  }

  /** Reading a key in one family makes it answer in another. */
  lemma OtherFamilyAnswers(families: Families, family: string, other: string, key: Bytes)
    requires ReadIn(families, other, key).Some?
    ensures CachedGet(families, CacheAfter(families, [Read(other, key)]), family, key) == Visible(ReadIn(families, other, key))
  {
    var accesses := [Read(other, key)];
    assert accesses[..0] == [];
    assert CacheAfter(families, accesses) == map[key := ReadIn(families, other, key).value];
  }

  /** An empty value is read once, and reads as absent from then on. */
  lemma EmptyValueIsReadOnce(key: Bytes, written: nat)
    ensures var families: Families := map["default" := [map[key := Put([], written)]]];
            && CachedGet(families, CacheAfter(families, []), "default", key) == Some([])
            && CachedGet(families, CacheAfter(families, [Read("default", key)]), "default", key) == None
  {
    var families: Families := map["default" := [map[key := Put([], written)]]];
    assert Newest(Column(families["default"], key)[..0]) == None;
    OtherFamilyAnswers(families, "default", "default", key);
  }
}
