/**
 * The replicated types: a last-writer-wins map, a grow-only counter and a
 * positive-negative counter.
 */
module Crdt {
  import opened Options
  import opened Bytes
  import opened Sums

  const U64: nat := 0x1_0000_0000_0000_0000

  // ---------------------------------------------------------------------------
  // Last writer wins
  // ---------------------------------------------------------------------------

  datatype Entry = Entry(value: Bytes, timestamp: nat)

  type LwwState = map<Bytes, Entry>

  datatype Write = Write(key: Bytes, entry: Entry)

  /** The existing entry stays unless the new one is strictly newer. */
  function LwwMerge(state: LwwState, write: Write): (merged: LwwState)
  {
    if write.key in state && state[write.key].timestamp >= write.entry.timestamp then state
    else state[write.key := write.entry]
  }

  class CrdtEngine {
    var state: LwwState

    constructor ()
      ensures state == map[]
    {
      state := map[];
    }

    method Merge(key: Bytes, value: Bytes, timestamp: nat)
      modifies this
      ensures state == LwwMerge(old(state), Write(key, Entry(value, timestamp)))
    {
      if key in state && state[key].timestamp >= timestamp {
        // The existing entry is newer or equal.
      } else {
        state := state[key := Entry(value, timestamp)];
      }
    }

    function GetState(key: Bytes): (entry: Option<Entry>)
      reads this
    {
      if key in state then Some(state[key]) else None
    }
  }

  /** The state after merging the writes in order. */
  function MergeAll(writes: seq<Write>): (state: LwwState)
  {
    if writes == [] then map[] else LwwMerge(MergeAll(writes[..|writes| - 1]), writes[|writes| - 1])
  }

  /** Position `i` holds a write that no other write to its key is newer than. */
  ghost predicate IsNewest(writes: seq<Write>, i: nat)
    requires i < |writes|
  {
    forall j :: 0 <= j < |writes| && writes[j].key == writes[i].key ==>
      writes[j].entry.timestamp <= writes[i].entry.timestamp
  }

  lemma {:induction false} MergedKeys(writes: seq<Write>, key: Bytes)
    ensures key in MergeAll(writes) <==> exists i :: 0 <= i < |writes| && writes[i].key == key
  {
    if writes != [] {
      var n := |writes| - 1;
      MergedKeys(writes[..n], key);
      assert key == writes[n].key || key in MergeAll(writes[..n]) <==> key in MergeAll(writes);
      assert forall i :: 0 <= i < n ==> writes[..n][i] == writes[i];
    }
  }

  /** The merged state holds, for each written key, one of its newest writes. */
  lemma {:induction false} MergedIsNewest(writes: seq<Write>, key: Bytes) returns (i: nat)
    requires key in MergeAll(writes)
    ensures i < |writes| && writes[i] == Write(key, MergeAll(writes)[key]) && IsNewest(writes, i)
  {
    var n := |writes| - 1;
    var init, last := writes[..n], writes[n];
    assert forall j :: 0 <= j < n ==> init[j] == writes[j];
    if key in MergeAll(init) {
      i := MergedIsNewest(init, key);
      if last.key == key && MergeAll(init)[key].timestamp < last.entry.timestamp {
        i := n;
      }
    } else {
      MergedKeys(init, key);
      i := n;
    }
  }

  /** No two newest writes to the same key disagree. */
  ghost predicate NewestAgree(writes: seq<Write>)
  {
    forall i, j :: 0 <= i < |writes| && 0 <= j < |writes| ==> !Disagree(writes, i, j)
  }

  ghost predicate Disagree(writes: seq<Write>, i: nat, j: nat)
    requires i < |writes| && j < |writes|
  {
    && writes[i].key == writes[j].key && writes[i] != writes[j]
    && IsNewest(writes, i) && IsNewest(writes, j)
  }

  ghost predicate SameWrites(a: seq<Write>, b: seq<Write>)
  {
    forall w :: w in a <==> w in b
  }

  /**
   * Delivery order and repetition do not matter when the newest writes to every
   * key agree: any other sequence of the same writes merges to the same state.
   */
  lemma OrderIrrelevantWhenNewestAgree(writes: seq<Write>, other: seq<Write>)
    requires NewestAgree(writes) && SameWrites(writes, other)
    ensures MergeAll(writes) == MergeAll(other)
  {
    forall key ensures key in MergeAll(writes) <==> key in MergeAll(other) {
      MergedKeys(writes, key);
      MergedKeys(other, key);
      assert forall i :: 0 <= i < |writes| ==> writes[i] in other;
      assert forall i :: 0 <= i < |other| ==> other[i] in writes;
    }
    forall key | key in MergeAll(writes) ensures MergeAll(writes)[key] == MergeAll(other)[key] {
      var i := MergedIsNewest(writes, key);
      var j := MergedIsNewest(other, key);
      var k := NewestElsewhere(writes, other, j);
      assert !Disagree(writes, i, k);
    }
  }

  lemma NewestElsewhere(writes: seq<Write>, other: seq<Write>, j: nat) returns (k: nat)
    requires SameWrites(writes, other) && j < |other| && IsNewest(other, j)
    ensures k < |writes| && writes[k] == other[j] && IsNewest(writes, k)
  {
    assert other[j] in writes;
    k :| 0 <= k < |writes| && writes[k] == other[j];
    assert forall m :: 0 <= m < |writes| ==> writes[m] in other;
  }

  /** The same writes, the `i`th of them first. */
  ghost function MovedFirst(writes: seq<Write>, i: nat): (reordered: seq<Write>)
    requires i < |writes|
    ensures multiset(reordered) == multiset(writes)
  {
    assert writes == writes[..i] + [writes[i]] + writes[i + 1..];
    [writes[i]] + (writes[..i] + writes[i + 1..])
  }

  /** ... and otherwise order alone decides: whichever of two tied writes comes first wins. */
  lemma OrderMattersWhenNewestDisagree(writes: seq<Write>)
    requires !NewestAgree(writes)
    ensures exists a, b :: multiset(a) == multiset(b) == multiset(writes) && MergeAll(a) != MergeAll(b)
  {
    var i, j :| 0 <= i < |writes| && 0 <= j < |writes| && Disagree(writes, i, j);
    var a, b := MovedFirst(writes, i), MovedFirst(writes, j);
    LeaderStays(writes[i], writes[..i] + writes[i + 1..]);
    LeaderStays(writes[j], writes[..j] + writes[j + 1..]);
    assert MergeAll(a)[writes[i].key] == writes[i].entry && MergeAll(b)[writes[i].key] == writes[j].entry;
  }

  lemma {:induction false} LeaderStays(leader: Write, writes: seq<Write>)
    requires forall i :: 0 <= i < |writes| && writes[i].key == leader.key ==>
               writes[i].entry.timestamp <= leader.entry.timestamp
    ensures leader.key in MergeAll([leader] + writes)
    ensures MergeAll([leader] + writes)[leader.key] == leader.entry
  {
    var led := [leader] + writes;
    if writes == [] {
      assert led[..0] == [];
    } else {
      var n := |writes| - 1;
      assert led[..n + 1] == [leader] + writes[..n];
      LeaderStays(leader, writes[..n]);
    }
  }

  // ---------------------------------------------------------------------------
  // Grow-only counter
  // ---------------------------------------------------------------------------

  type NodeId = string
  type Counts = map<NodeId, nat>

  function Slot(counts: Counts, node: NodeId): (n: nat)
  {
    if node in counts then counts[node] else 0
  }

  function Max(a: nat, b: nat): (m: nat)
  {
    if a < b then b else a
  }

  function SaturatingAdd(a: nat, b: nat): (sum: nat)
  {
    if a + b < U64 then a + b else U64 - 1
  }

  /** The slot-wise maximum. */
  function Join(a: Counts, b: Counts): (joined: Counts)
    ensures forall node :: Slot(joined, node) == Max(Slot(a, node), Slot(b, node))
    ensures joined.Keys == a.Keys + b.Keys
  {
    map node | node in a.Keys + b.Keys :: Max(Slot(a, node), Slot(b, node))
  }

  /** Two counters over the same nodes are equal if their slots are. */
  lemma SameSlots(a: Counts, b: Counts)
    requires a.Keys == b.Keys && forall node :: Slot(a, node) == Slot(b, node)
    ensures a == b
  {
    forall node | node in a ensures a[node] == b[node] {
      assert Slot(a, node) == Slot(b, node);
    }
  }

  lemma JoinLaws(a: Counts, b: Counts, c: Counts)
    ensures Join(a, b) == Join(b, a)
    ensures Join(Join(a, b), c) == Join(a, Join(b, c))
    ensures Join(a, a) == a
    ensures Join(Join(a, b), b) == Join(a, b)
  {
    SameSlots(Join(a, b), Join(b, a));
    SameSlots(Join(Join(a, b), c), Join(a, Join(b, c)));
    SameSlots(Join(a, a), a);
    SameSlots(Join(Join(a, b), b), Join(a, b));
  }

  lemma WrapStep(value: nat, wraps: nat, amount: nat)
    ensures (value + amount) % U64 + (wraps + (value + amount) / U64) * U64 == value + wraps * U64 + amount
  {
  }

  lemma Unwrapped(value: nat, wraps: nat, total: nat)
    requires value < U64 && value + wraps * U64 == total
    ensures value == total % U64
  {
  }

  class GCounter {
    var counters: Counts

    constructor ()
      ensures counters == map[]
    {
      counters := map[];
    }

    method Increment(node: NodeId, amount: nat)
      modifies this
      ensures counters == old(counters)[node := SaturatingAdd(Slot(old(counters), node), amount)]
    {
      if node !in counters {
        counters := counters[node := 0];
      }
      counters := counters[node := SaturatingAdd(counters[node], amount)];
    }

    /** The sum of the slots, wrapping as `u64` addition does. */
    method Value() returns (value: nat)
      ensures value == Sum(counters) % U64
    {
      value := 0;
      var left := counters;
      ghost var wraps: nat := 0;
      while left != map[]
        invariant value < U64 && value + wraps * U64 + Sum(left) == Sum(counters)
        decreases |left|
      {
        assert left.Keys != {};
        var node :| node in left.Keys;
        SumTakesOut(left, node);
        WrapStep(value, wraps, left[node]);
        wraps := wraps + (value + left[node]) / U64;
        value := (value + left[node]) % U64;
        left := left - {node};
      }
      Unwrapped(value, wraps, Sum(counters));
    }

    method Merge(other: GCounter)
      modifies this
      ensures counters == Join(old(counters), old(other.counters))
    {
      var theirs := other.counters;
      var left := theirs.Keys;
      while left != {}
        invariant left <= theirs.Keys
        invariant counters.Keys == old(counters).Keys + (theirs.Keys - left)
        invariant forall node :: node in counters ==>
                    counters[node] == if node in left then Slot(old(counters), node)
                                      else Max(Slot(old(counters), node), Slot(theirs, node))
        decreases left
      {
        var node :| node in left;
        if node !in counters {
          counters := counters[node := 0];
        }
        counters := counters[node := Max(counters[node], theirs[node])];
        left := left - {node};
      }
    }
  }

  // ---------------------------------------------------------------------------
  // Positive-negative counter
  // ---------------------------------------------------------------------------

  /** The `i64` a 64-bit pattern stands for. */
  function ToI64(bits: int): (i: int)
    ensures -(U64 / 2) <= i < U64 / 2 && i == bits - U64 * ((bits + U64 / 2) / U64)
  {
    if bits % U64 < U64 / 2 then bits % U64 else bits % U64 - U64
  }

  /** The `i64` difference of two wrapped 64-bit totals. */
  ghost function Reported(positive: Counts, negative: Counts): (value: int)
  {
    ToI64(ToI64(Sum(positive) % U64) - ToI64(Sum(negative) % U64))
  }

  class PNCounter {
    const positive: GCounter
    const negative: GCounter

    ghost predicate Valid()
    {
      positive != negative
    }

    constructor ()
      ensures Valid() && fresh(positive) && fresh(negative)
      ensures positive.counters == map[] && negative.counters == map[]
    {
      positive := new GCounter();
      negative := new GCounter();
    }

    method Increment(node: NodeId, amount: nat)
      requires Valid()
      modifies positive
      ensures positive.counters ==
              old(positive.counters)[node := SaturatingAdd(Slot(old(positive.counters), node), amount)]
    {
      positive.Increment(node, amount);
    }

    method Decrement(node: NodeId, amount: nat)
      requires Valid()
      modifies negative
      ensures negative.counters ==
              old(negative.counters)[node := SaturatingAdd(Slot(old(negative.counters), node), amount)]
    {
      negative.Increment(node, amount);
    }

    method Merge(other: PNCounter)
      requires Valid() && other.negative != positive
      modifies positive, negative
      ensures positive.counters == Join(old(positive.counters), old(other.positive.counters))
      ensures negative.counters == Join(old(negative.counters), old(other.negative.counters))
    {
      positive.Merge(other.positive);
      negative.Merge(other.negative);
    }

    /** Exact whenever the true difference is an `i64`, however large the two totals are. */
    method Value() returns (value: int)
      requires Valid()
      ensures -(U64 / 2) <= value < U64 / 2 && value == Reported(positive.counters, negative.counters)
      ensures value == Sum(positive.counters) - Sum(negative.counters)
              <==> -(U64 / 2) <= Sum(positive.counters) - Sum(negative.counters) < U64 / 2
    {
      var plus := positive.Value();
      var minus := negative.Value();
      value := ToI64(ToI64(plus) - ToI64(minus));
      WrappedDifference(Sum(positive.counters), Sum(negative.counters), value);
    }
  }

  lemma WrappedDifference(plus: nat, minus: nat, value: int)
    requires value == ToI64(ToI64(plus % U64) - ToI64(minus % U64))
    ensures value == plus - minus <==> -(U64 / 2) <= plus - minus < U64 / 2
  {
    var p, m := plus % U64, minus % U64;
    var d := ToI64(p) - ToI64(m);
    var half := U64 / 2;
    var wraps := plus / U64 - minus / U64 + (p + half) / U64 - (m + half) / U64 + (d + half) / U64;
    assert plus - minus - value == U64 * wraps;
  }

  predicate IsI64(n: int)
  {
    -(U64 / 2) <= n < U64 / 2
  }

  lemma ReportedIff(positive: Counts, negative: Counts, added: nat, taken: nat)
    requires Sum(positive) == added && Sum(negative) == taken
    ensures Reported(positive, negative) == added - taken <==> IsI64(added - taken)
  {
    WrappedDifference(added, taken, Reported(positive, negative));
  }
}
