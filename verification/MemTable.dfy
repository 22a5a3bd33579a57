/**
 * The memtable: the newest record per key, the bytes they are estimated to take,
 * and the range tombstones that may hide them.
 */
module MemTable {
  import opened Options
  import opened Bytes
  import opened RangeTombstones
  import opened Rows
  import opened Sums

  const USIZE_MAX: nat := 0xFFFF_FFFF_FFFF_FFFF

  datatype LogRecord = LogRecord(key: Bytes, value: Bytes, timestamp: nat, isDeleted: bool, expiresAt: Option<nat>)

  type Records = map<Bytes, LogRecord>

  // ---------------------------------------------------------------------------
  // Size accounting
  // ---------------------------------------------------------------------------

  function EstimateSize(record: LogRecord): (size: nat)
  {
    |record.key| + |record.value| + 51
  }

  function Sizes(data: Records): (sizes: map<Bytes, nat>)
  {
    map key | key in data :: EstimateSize(data[key])
  }

  /** The bytes all records are estimated to take together. */
  ghost function Total(data: Records): (total: nat)
  {
    Sum(Sizes(data))
  }

  function SaturatingAdd(a: nat, b: nat): (r: nat) { if a + b > USIZE_MAX then USIZE_MAX else a + b }

  function SaturatingSub(a: nat, b: nat): (r: nat) { if a < b then 0 else a - b }

  /** Replacing a record replaces its share of the total. */
  lemma TotalInsert(data: Records, record: LogRecord)
    ensures Total(data[record.key := record]) + (if record.key in data then EstimateSize(data[record.key]) else 0)
            == Total(data) + EstimateSize(record)
    ensures record.key in data ==> EstimateSize(data[record.key]) <= Total(data)
  {
    var more := data[record.key := record];
    SumTakesOut(Sizes(more), record.key);
    var rest := Sizes(more) - {record.key};
    if record.key in data {
      SumTakesOut(Sizes(data), record.key);
      assert rest == Sizes(data) - {record.key};
    } else {
      assert rest == Sizes(data);
    }
  }

  /** The size field after an insert, from the one before. */
  function SizeAfterInsert(size: nat, data: Records, record: LogRecord): (r: nat)
  {
    var rest := if record.key in data then SaturatingSub(size, EstimateSize(data[record.key])) else size;
    SaturatingAdd(rest, EstimateSize(record))
  }

  /** An exact size stays exact iff the new total still fits. */
  lemma SizeStaysExactIff(data: Records, record: LogRecord)
    ensures SizeAfterInsert(Total(data), data, record) == Total(data[record.key := record])
            <==> Total(data[record.key := record]) <= USIZE_MAX
  {
    TotalInsert(data, record);
  }

  // ---------------------------------------------------------------------------
  // Ordered snapshots
  // ---------------------------------------------------------------------------

  function InsertRow<V>(rows: seq<Row<V>>, row: Row<V>): (r: seq<Row<V>>)
  {
    if rows == [] || Less(row.key, rows[0].key) then [row] + rows else [rows[0]] + InsertRow(rows[1..], row)
  }

  /** The entries by key. */
  function SortRows<V>(rows: seq<Row<V>>): (r: seq<Row<V>>)
  {
    if rows == [] then [] else InsertRow(SortRows(rows[..|rows| - 1]), rows[|rows| - 1])
  }

  ghost predicate Distinct<V>(rows: seq<Row<V>>)
  {
    forall i, j :: 0 <= i < j < |rows| ==> rows[i].key != rows[j].key
  }

  lemma SortedCons<V>(row: Row<V>, rows: seq<Row<V>>)
    requires Sorted(rows) && forall k :: k in Contents(rows) ==> Less(row.key, k)
    ensures Sorted([row] + rows)
    ensures Contents([row] + rows) == Contents(rows)[row.key := row.value]
  {
    assert ([row] + rows)[1..] == rows;
    forall i | 0 <= i < |rows| ensures Less(row.key, rows[i].key) {
      ContentsAt(rows, i);
    }
  }

  lemma InsertAfterHead<V>(rows: seq<Row<V>>, row: Row<V>, inner: seq<Row<V>>)
    requires rows != [] && Sorted(rows) && Less(rows[0].key, row.key)
    requires Sorted(inner) && Contents(inner) == Contents(rows[1..])[row.key := row.value]
    ensures Sorted([rows[0]] + inner)
    ensures Contents([rows[0]] + inner) == Contents(rows)[row.key := row.value]
  {
    ContentsTail(rows);
    LessIrreflexive(rows[0].key);
    forall k | k in Contents(inner) ensures Less(rows[0].key, k) {
      assert k == row.key || k in Contents(rows[1..]);
    }
    SortedCons(rows[0], inner);
    PutBack(Contents(rows), rows[0].key, row.key, row.value);
  }

  lemma PutBack<K, V>(m: map<K, V>, head: K, key: K, value: V)
    requires head in m && head != key
    ensures (m - {head})[key := value][head := m[head]] == m[key := value]
  {
  }

  lemma {:induction false} InsertRowKeeps<V>(rows: seq<Row<V>>, row: Row<V>)
    requires Sorted(rows) && row.key !in Contents(rows)
    ensures Sorted(InsertRow(rows, row))
    ensures Contents(InsertRow(rows, row)) == Contents(rows)[row.key := row.value]
  {
    if rows == [] {
      SortedCons(row, rows);
    } else {
      ContentsTail(rows);
      if Less(row.key, rows[0].key) {
        forall k | k in Contents(rows) ensures Less(row.key, k) {
          if k != rows[0].key {
            LessTransitive(row.key, rows[0].key, k);
          }
        }
        SortedCons(row, rows);
      } else {
        LessTotal(row.key, rows[0].key);
        InsertRowKeeps(rows[1..], row);
        InsertAfterHead(rows, row, InsertRow(rows[1..], row));
      }
    }
  }

  lemma {:induction false} SortRowsKeeps<V>(rows: seq<Row<V>>)
    requires Distinct(rows)
    ensures Sorted(SortRows(rows)) && Contents(SortRows(rows)) == Contents(rows)
  {
    if rows != [] {
      var init, last := rows[..|rows| - 1], rows[|rows| - 1];
      SortRowsKeeps(init);
      ContentsKeys(init, last.key);
      InsertRowKeeps(SortRows(init), last);
      ContentsAppend(init, last);
      assert rows == init + [last];
    }
  }

  // ---------------------------------------------------------------------------
  // Reading
  // ---------------------------------------------------------------------------

  predicate Live(record: LogRecord, now: nat)
  {
    !record.isDeleted && (record.expiresAt.Some? ==> now < record.expiresAt.value)
  }

  /** A read from one memtable: a covering tombstone hides a record only if it is strictly newer. */
  function Read(data: Records, tombstones: seq<RangeTombstone>, key: Bytes, now: nat): (value: Option<Bytes>)
  {
    if key !in data then None
    else
      var covering := MaxCovering(tombstones, key);
      if covering.Some? && covering.value > data[key].timestamp then None
      else if !Live(data[key], now) then None
      else Some(data[key].value)
  }

  datatype Operation = Insert(record: LogRecord) | DeleteRange(tombstone: RangeTombstone)

  function Stamp(op: Operation): (t: nat)
  {
    if op.Insert? then op.record.timestamp else op.tombstone.timestamp
  }

  predicate Touches(op: Operation, key: Bytes)
  {
    if op.Insert? then op.record.key == key else Covers(op.tombstone, key)
  }

  ghost function RecordsOf(log: seq<Operation>): (data: Records)
  {
    if log == [] then map[]
    else
      var before, last := RecordsOf(log[..|log| - 1]), log[|log| - 1];
      if last.Insert? then before[last.record.key := last.record] else before
  }

  ghost function TombstonesOf(log: seq<Operation>): (tombstones: seq<RangeTombstone>)
  {
    if log == [] then []
    else
      var before, last := TombstonesOf(log[..|log| - 1]), log[|log| - 1];
      if last.Insert? then before else before + [last.tombstone]
  }

  lemma LogAppend(log: seq<Operation>, op: Operation)
    ensures RecordsOf(log + [op])
            == if op.Insert? then RecordsOf(log)[op.record.key := op.record] else RecordsOf(log)
    ensures TombstonesOf(log + [op])
            == if op.Insert? then TombstonesOf(log) else TombstonesOf(log) + [op.tombstone]
  {
    assert (log + [op])[..|log|] == log;
  }

  /** The last operation that touched a key. */
  ghost function Latest(log: seq<Operation>, key: Bytes): (op: Option<Operation>)
  {
    if log == [] then None
    else if Touches(log[|log| - 1], key) then Some(log[|log| - 1])
    else Latest(log[..|log| - 1], key)
  }

  /** What the operations, taken in order, leave at a key. */
  ghost function Expected(log: seq<Operation>, key: Bytes, now: nat): (value: Option<Bytes>)
  {
    var latest := Latest(log, key);
    if latest.Some? && latest.value.Insert? && Live(latest.value.record, now) then Some(latest.value.record.value)
    else None
  }

  /** How the stored record and tombstones reflect the last operation on a key, whatever the timestamps. */
  lemma {:induction false} LatestIsStored(log: seq<Operation>, key: Bytes)
    ensures match Latest(log, key)
            case None => key !in RecordsOf(log)
            case Some(Insert(record)) => key in RecordsOf(log) && RecordsOf(log)[key] == record
            case Some(DeleteRange(tombstone)) => tombstone in TombstonesOf(log) && Covers(tombstone, key)
  {
    if log != [] {
      var init, last := log[..|log| - 1], log[|log| - 1];
      LatestIsStored(init, key);
      LogAppend(init, last);
      assert log == init + [last];
    }
  }

  /** A covering tombstone, wherever it stands in the log, has a later timestamp than this. */
  ghost predicate Outdated(tombstones: seq<RangeTombstone>, key: Bytes, timestamp: nat)
  {
    exists t :: t in tombstones && Covers(t, key) && t.timestamp > timestamp
  }

  /** The timestamps order the last write and the range deletes of a key otherwise than the log does. */
  ghost predicate Misordered(log: seq<Operation>, key: Bytes, now: nat)
  {
    var latest, data := Latest(log, key), RecordsOf(log);
    && latest.Some? && key in data && Live(data[key], now)
    && (latest.value.Insert? <==> Outdated(TombstonesOf(log), key, data[key].timestamp))
  }

  /** On every log, a read returns what the last operation left iff the timestamps do not contradict the order. */
  lemma {:induction false} ReadIsLatestIff(log: seq<Operation>, key: Bytes, now: nat)
    ensures Read(RecordsOf(log), TombstonesOf(log), key, now) == Expected(log, key, now) <==> !Misordered(log, key, now)
  {
    LatestIsStored(log, key);
    if key in RecordsOf(log) {
      OutdatedIff(TombstonesOf(log), key, RecordsOf(log)[key].timestamp);
    }
  }

  lemma OutdatedIff(tombstones: seq<RangeTombstone>, key: Bytes, timestamp: nat)
    ensures Outdated(tombstones, key, timestamp)
            <==> MaxCovering(tombstones, key).Some? && MaxCovering(tombstones, key).value > timestamp
  {
  }

  /** Timestamps do not fall along the log. They are drawn before the lock is taken, so nothing ensures this. */
  ghost predicate Ordered(log: seq<Operation>)
  {
    forall i, j :: 0 <= i < j < |log| ==> Stamp(log[i]) <= Stamp(log[j])
  }

  lemma {:induction false} NoneAfter(log: seq<Operation>, bound: nat)
    requires forall i :: 0 <= i < |log| ==> Stamp(log[i]) <= bound
    ensures forall key :: key in RecordsOf(log) ==> RecordsOf(log)[key].timestamp <= bound
    ensures forall t :: t in TombstonesOf(log) ==> t.timestamp <= bound
  {
    if log != [] {
      NoneAfter(log[..|log| - 1], bound);
      assert Stamp(log[|log| - 1]) <= bound;
    }
  }

  /** The stored timestamps of a key agree with the last operation on it. */
  ghost predicate Reflects(latest: Option<Operation>, stored: Option<LogRecord>, covering: Option<nat>)
  {
    match latest
    case None => stored == None
    case Some(Insert(record)) => stored == Some(record) && (covering.Some? ==> covering.value <= record.timestamp)
    case Some(DeleteRange(tombstone)) =>
      covering == Some(tombstone.timestamp) && (stored.Some? ==> stored.value.timestamp <= tombstone.timestamp)
  }

  ghost function Stored(data: Records, key: Bytes): (record: Option<LogRecord>)
  {
    if key in data then Some(data[key]) else None
  }

  lemma {:induction false} OrderedIsStored(log: seq<Operation>, key: Bytes)
    requires Ordered(log)
    ensures Reflects(Latest(log, key), Stored(RecordsOf(log), key), MaxCovering(TombstonesOf(log), key))
  {
    if log != [] {
      var init, last := log[..|log| - 1], log[|log| - 1];
      OrderedIsStored(init, key);
      NoneAfter(init, Stamp(last));
      if last.DeleteRange? {
        CoveringAppend(TombstonesOf(init), last.tombstone, key);
      }
    }
  }

  /** A range delete with the timestamp of the live record it should hide. */
  ghost predicate SameTick(log: seq<Operation>, key: Bytes, now: nat)
  {
    var latest, data := Latest(log, key), RecordsOf(log);
    && latest.Some? && latest.value.DeleteRange?
    && key in data && Live(data[key], now) && data[key].timestamp == latest.value.tombstone.timestamp
  }

  /** Where timestamps follow the order of the log, a tie is the only way to read wrongly. */
  lemma OrderedMisreadIff(log: seq<Operation>, key: Bytes, now: nat)
    requires Ordered(log)
    ensures Misordered(log, key, now) <==> SameTick(log, key, now)
  {
    OrderedIsStored(log, key);
    if key in RecordsOf(log) {
      OutdatedIff(TombstonesOf(log), key, RecordsOf(log)[key].timestamp);
    }
  }

  /** A write of [7] under [1] and a range delete over it, with the given timestamps. */
  function WriteOf(timestamp: nat): (op: Operation)
  {
    Insert(LogRecord([1], [7], timestamp, false, None))
  }

  function DeleteOver(timestamp: nat): (op: Operation)
  {
    DeleteRange(RangeTombstone([0], [9], timestamp))
  }

  /** A range delete after the write hides it iff its timestamp is later ... */
  lemma DeleteAfterWrite(written: nat, deleted: nat)
    ensures var log := [WriteOf(written), DeleteOver(deleted)];
            && Expected(log, [1], 0) == None
            && (Read(RecordsOf(log), TombstonesOf(log), [1], 0) == None <==> deleted > written)
  {
    var write, delete := WriteOf(written), DeleteOver(deleted);
    var key: Bytes := [1];
    assert Less([0], key) && Covers(delete.tombstone, key);
    LogAppend([], write);
    LogAppend([write], delete);
    assert [] + [write] == [write] && [write] + [delete] == [write, delete];
    assert RecordsOf([write, delete])[key] == write.record;
    CoveringAppend([], delete.tombstone, key);
    assert [] + [delete.tombstone] == TombstonesOf([write, delete]);
  }

  /** ... and one before it hides it as well if its timestamp is later. */
  lemma DeleteBeforeWrite(written: nat, deleted: nat)
    ensures var log := [DeleteOver(deleted), WriteOf(written)];
            && Expected(log, [1], 0) == Some([7])
            && (Read(RecordsOf(log), TombstonesOf(log), [1], 0) == None <==> deleted > written)
  {
    var write, delete := WriteOf(written), DeleteOver(deleted);
    var key: Bytes := [1];
    assert Less([0], key) && Covers(delete.tombstone, key);
    LogAppend([], delete);
    LogAppend([delete], write);
    assert [] + [delete] == [delete] && [delete] + [write] == [delete, write];
    assert RecordsOf([delete, write])[key] == write.record;
    CoveringAppend([], delete.tombstone, key);
    assert [] + [delete.tombstone] == TombstonesOf([delete, write]);
  }

  // ---------------------------------------------------------------------------
  // Several memtables
  // ---------------------------------------------------------------------------

  datatype Layer = Layer(data: Records, tombstones: seq<RangeTombstone>)

  /** The record of the newest memtable holding the key; memtables are listed oldest first. */
  function NewestRecord(layers: seq<Layer>, key: Bytes): (record: Option<LogRecord>)
  {
    if layers == [] then None
    else
      var last := layers[|layers| - 1].data;
      if key in last then Some(last[key]) else NewestRecord(layers[..|layers| - 1], key)
  }

  function Later(a: Option<nat>, b: Option<nat>): (later: Option<nat>)
  {
    if a.None? || (b.Some? && b.value > a.value) then b else a
  }

  /** The newest covering range delete of any memtable. */
  function LayersCovering(layers: seq<Layer>, key: Bytes): (newest: Option<nat>)
  {
    if layers == [] then None
    else Later(LayersCovering(layers[..|layers| - 1], key), MaxCovering(layers[|layers| - 1].tombstones, key))
  }

  /** A read through the memtables, newest first, with the range deletes the engine keeps for all of them. */
  function ReadLayers(engine: seq<RangeTombstone>, layers: seq<Layer>, key: Bytes, now: nat): (value: Option<Bytes>)
  {
    var record := NewestRecord(layers, key);
    var covering := Later(MaxCovering(engine, key), LayersCovering(layers, key));
    if record.None? then None
    else if covering.Some? && covering.value > record.value.timestamp then None
    else if !Live(record.value, now) then None
    else Some(record.value.value)
  }

  /** The memtables of a log cut into pieces: a new one is begun at every cut. */
  ghost function LayersOf(logs: seq<seq<Operation>>): (layers: seq<Layer>)
  {
    if logs == [] then []
    else
      var last := logs[|logs| - 1];
      LayersOf(logs[..|logs| - 1]) + [Layer(RecordsOf(last), TombstonesOf(last))]
  }

  ghost function JoinedLogs(logs: seq<seq<Operation>>): (log: seq<Operation>)
  {
    if logs == [] then [] else JoinedLogs(logs[..|logs| - 1]) + logs[|logs| - 1]
  }

  lemma {:induction false} LogConcat(a: seq<Operation>, b: seq<Operation>)
    ensures RecordsOf(a + b) == RecordsOf(a) + RecordsOf(b)
    ensures TombstonesOf(a + b) == TombstonesOf(a) + TombstonesOf(b)
  {
    if b == [] {
      assert a + b == a;
    } else {
      var init, last := b[..|b| - 1], b[|b| - 1];
      LogConcat(a, init);
      assert a + b == a + init + [last] && b == init + [last];
      LogAppend(a + init, last);
      LogAppend(init, last);
    }
  }

  lemma {:induction false} CoveringConcat(a: seq<RangeTombstone>, b: seq<RangeTombstone>, key: Bytes)
    ensures MaxCovering(a + b, key) == Later(MaxCovering(a, key), MaxCovering(b, key))
  {
    if b == [] {
      assert a + b == a;
    } else {
      assert (a + b)[..|a + b| - 1] == a + b[..|b| - 1];
      CoveringConcat(a, b[..|b| - 1], key);
    }
  }

  lemma LayerAppend(layers: seq<Layer>, layer: Layer, key: Bytes)
    ensures NewestRecord(layers + [layer], key) == if key in layer.data then Some(layer.data[key]) else NewestRecord(layers, key)
    ensures LayersCovering(layers + [layer], key) == Later(LayersCovering(layers, key), MaxCovering(layer.tombstones, key))
  {
    assert (layers + [layer])[..|layers|] == layers;
  }

  lemma StoredOver(older: Records, newer: Records, key: Bytes)
    ensures Stored(older + newer, key) == if key in newer then Some(newer[key]) else Stored(older, key)
  {
  }

  /** The memtables together hold the record one memtable for the whole log would ... */
  lemma {:induction false} LayersHoldRecord(logs: seq<seq<Operation>>, key: Bytes)
    ensures NewestRecord(LayersOf(logs), key) == Stored(RecordsOf(JoinedLogs(logs)), key)
  {
    if logs != [] {
      var init, last := logs[..|logs| - 1], logs[|logs| - 1];
      LayersHoldRecord(init, key);
      LogConcat(JoinedLogs(init), last);
      LayerAppend(LayersOf(init), Layer(RecordsOf(last), TombstonesOf(last)), key);
      StoredOver(RecordsOf(JoinedLogs(init)), RecordsOf(last), key);
    }
  }

  /** ... and the range deletes. */
  lemma {:induction false} LayersHoldTombstones(logs: seq<seq<Operation>>, key: Bytes)
    ensures LayersCovering(LayersOf(logs), key) == MaxCovering(TombstonesOf(JoinedLogs(logs)), key)
  {
    if logs != [] {
      var init, last := logs[..|logs| - 1], logs[|logs| - 1];
      LayersHoldTombstones(init, key);
      LogConcat(JoinedLogs(init), last);
      LayerAppend(LayersOf(init), Layer(RecordsOf(last), TombstonesOf(last)), key);
      CoveringConcat(TombstonesOf(JoinedLogs(init)), TombstonesOf(last), key);
    }
  }

  /**
   * However the log is cut into memtables: a read returns what the last operation
   * left iff the timestamps do not contradict the order of the log.
   */
  lemma LayersReadLatestIff(logs: seq<seq<Operation>>, key: Bytes, now: nat)
    ensures var log := JoinedLogs(logs);
            ReadLayers(TombstonesOf(log), LayersOf(logs), key, now) == Expected(log, key, now)
            <==> !Misordered(log, key, now)
  {
    LayersHoldRecord(logs, key);
    LayersHoldTombstones(logs, key);
    ReadIsLatestIff(JoinedLogs(logs), key, now);
  }

  // ---------------------------------------------------------------------------
  // The table
  // ---------------------------------------------------------------------------

  class MemTable {
    var data: Records
    var sizeBytes: nat
    var rangeTombstones: seq<RangeTombstone>
    ghost var log: seq<Operation>  // the operations since the table was last empty
    ghost var overflowed: bool  // whether the records ever exceeded what `sizeBytes` can hold

    ghost predicate Valid()
      reads this
    {
      && data == RecordsOf(log) && rangeTombstones == TombstonesOf(log)
      && (forall key :: key in data ==> data[key].key == key)
      && sizeBytes <= USIZE_MAX
      && (!overflowed ==> sizeBytes == Total(data))
    }

    constructor ()
      ensures Valid() && data == map[] && rangeTombstones == [] && log == [] && !overflowed
    {
      data, sizeBytes, rangeTombstones, log, overflowed := map[], 0, [], [], false;
    }

    /** `put` and `delete` insert a live record and a tombstone. */
    method Insert(record: LogRecord)
      requires Valid()
      modifies this`data, this`sizeBytes, this`log, this`overflowed
      ensures Valid() && log == old(log) + [Operation.Insert(record)]
      ensures data == old(data)[record.key := record]
      ensures overflowed <==> old(overflowed) || Total(data) > USIZE_MAX
    {
      SizeStaysExactIff(data, record);
      LogAppend(log, Operation.Insert(record));
      var recordSize := EstimateSize(record);
      if record.key in data {
        sizeBytes := SaturatingSub(sizeBytes, EstimateSize(data[record.key]));
      }
      sizeBytes := SaturatingAdd(sizeBytes, recordSize);
      data := data[record.key := record];
      overflowed := overflowed || Total(data) > USIZE_MAX;
      log := log + [Operation.Insert(record)];
    }

    method AddRangeTombstone(tombstone: RangeTombstone)
      requires Valid()
      modifies this`rangeTombstones, this`log
      ensures Valid() && log == old(log) + [DeleteRange(tombstone)]
      ensures rangeTombstones == old(rangeTombstones) + [tombstone]
    {
      LogAppend(log, DeleteRange(tombstone));
      rangeTombstones := rangeTombstones + [tombstone];
      log := log + [DeleteRange(tombstone)];
    }

    method Clear() returns (count: nat)
      requires Valid()
      modifies this
      ensures Valid() && log == [] && data == map[] && rangeTombstones == [] && sizeBytes == 0 && !overflowed
      ensures count == |old(data)|
    {
      count := |data|;
      data, rangeTombstones, sizeBytes := map[], [], 0;
      log, overflowed := [], false;
    }

    /** Collects the entries `from` lets through, in the map's arbitrary order. */
    method Collect(from: Option<Bytes>) returns (entries: seq<Row<LogRecord>>)
      ensures Distinct(entries)
      ensures Contents(entries) == if from.None? then data else AtOrAbove(data, from.value)
    {
      entries := [];
      var todo := data.Keys;
      while todo != {}
        invariant todo <= data.Keys && Distinct(entries)
        invariant forall i :: 0 <= i < |entries| ==> entries[i].key in data.Keys - todo
        invariant Contents(entries) == Passing(data, data.Keys - todo, from)
        decreases todo
      {
        var key :| key in todo;
        if from.None? || AtMost(from.value, key) {
          ContentsKeys(entries, key);
          ContentsAppend(entries, Row(key, data[key]));
          entries := entries + [Row(key, data[key])];
        }
        PassOneMore(data, data.Keys - todo, from, key);
        assert data.Keys - (todo - {key}) == data.Keys - todo + {key};
        todo := todo - {key};
      }
      assert data.Keys - {} == data.Keys;
      PassAll(data, from);
    }

    /** The sorted content of the table. */
    method Iter() returns (rows: seq<Row<LogRecord>>)
      ensures Sorted(rows) && Contents(rows) == data
    {
      var entries := Collect(None);
      SortRowsKeeps(entries);
      rows := SortRows(entries);
    }

    method IterFrom(startKey: Bytes) returns (rows: seq<Row<LogRecord>>)
      ensures Sorted(rows) && Contents(rows) == AtOrAbove(data, startKey)
      ensures forall all :: Sorted(all) && Contents(all) == data ==> rows == DropBelow(all, startKey)
    {
      var entries := Collect(Some(startKey));
      SortRowsKeeps(entries);
      rows := SortRows(entries);
      forall all | Sorted(all) && Contents(all) == data ensures rows == DropBelow(all, startKey) {
        DropBelowContents(all, startKey);
        SortedListingUnique(rows, DropBelow(all, startKey));
      }
    }
  }

  /** The records of the visited keys that pass the start bound. */
  ghost function Passing(data: Records, visited: set<Bytes>, from: Option<Bytes>): (passing: Records)
  {
    map key | key in data && key in visited && (from.None? || AtMost(from.value, key)) :: data[key]
  }

  lemma PassOneMore(data: Records, visited: set<Bytes>, from: Option<Bytes>, key: Bytes)
    requires key in data && key !in visited
    ensures Passing(data, visited + {key}, from)
            == if from.None? || AtMost(from.value, key) then Passing(data, visited, from)[key := data[key]]
               else Passing(data, visited, from)
  {
  }

  lemma PassAll(data: Records, from: Option<Bytes>)
    ensures Passing(data, data.Keys, from) == if from.None? then data else AtOrAbove(data, from.value)
  {
    if from.Some? {
      forall key ensures AtMost(from.value, key) <==> !Less(key, from.value) {
        LessTotal(key, from.value);
        if Less(key, from.value) {
          LessAsymmetric(key, from.value);
        }
      }
    }
  }
}
