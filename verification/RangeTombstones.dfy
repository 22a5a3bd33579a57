/** Range deletes: `[startKey, endKey)` as of a timestamp. */
module RangeTombstones {
  import opened Options
  import opened Bytes

  datatype RangeTombstone = RangeTombstone(startKey: Bytes, endKey: Bytes, timestamp: nat)

  predicate Covers(tombstone: RangeTombstone, key: Bytes)
  {
    AtMost(tombstone.startKey, key) && Less(key, tombstone.endKey)
  }

  /** The newest timestamp among the tombstones covering a key. */
  function MaxCovering(tombstones: seq<RangeTombstone>, key: Bytes): (newest: Option<nat>)
    ensures newest.None? <==> forall t :: t in tombstones ==> !Covers(t, key)
    ensures newest.Some? ==> exists t :: t in tombstones && Covers(t, key) && t.timestamp == newest.value
    ensures newest.Some? ==> forall t :: t in tombstones && Covers(t, key) ==> t.timestamp <= newest.value
  {
    if tombstones == [] then None
    else
      var before, last := MaxCovering(tombstones[..|tombstones| - 1], key), tombstones[|tombstones| - 1];
      assert tombstones == tombstones[..|tombstones| - 1] + [last];
      if !Covers(last, key) || (before.Some? && last.timestamp <= before.value) then before else Some(last.timestamp)
  }

  /** The newest covering timestamp after one more, no older, tombstone. */
  lemma CoveringAppend(tombstones: seq<RangeTombstone>, last: RangeTombstone, key: Bytes)
    requires forall t :: t in tombstones ==> t.timestamp <= last.timestamp
    ensures MaxCovering(tombstones + [last], key)
            == if Covers(last, key) then Some(last.timestamp) else MaxCovering(tombstones, key)
  {
    assert (tombstones + [last])[..|tombstones|] == tombstones;
  }
}
