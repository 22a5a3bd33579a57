/**
 * The k-way merge behind scans and compaction: a heap of cursors ordered by
 * (key, source index) that emits each key once, with its newest value.
 */
module Merge {
  import opened Options
  import opened Bytes
  import opened Rows
  import opened TableIterators

  // ---------------------------------------------------------------------------
  // The specification: sources are row sequences, newest source first
  // ---------------------------------------------------------------------------

  type Source = seq<Row<Bytes>>

  ghost predicate AllSorted(sources: seq<Source>)
  {
    forall i :: 0 <= i < |sources| ==> Sorted(sources[i])
  }

  ghost function Layers(sources: seq<Source>): (layers: seq<map<Bytes, Bytes>>)
    ensures |layers| == |sources|
    ensures forall i :: 0 <= i < |sources| ==> layers[i] == Contents(sources[i])
  {
    seq(|sources|, i requires 0 <= i < |sources| => Contents(sources[i]))
  }

  /** What is left to emit when these are the unread parts of the sources. */
  ghost function Pending(sources: seq<Source>): (m: map<Bytes, Bytes>)
  {
    View(Layers(sources))
  }

  /** `out` is the merge of `sources`: sorted, and the newest value of every key. */
  ghost predicate IsMergeOf(out: Source, sources: seq<Source>)
  {
    Sorted(out) && Contents(out) == Pending(sources)
  }

  function Unread(sources: seq<Source>): (n: nat)
  {
    if sources == [] then 0 else |sources[0]| + Unread(sources[1..])
  }

  lemma {:induction false} AdvancingReads(sources: seq<Source>, i: nat)
    requires i < |sources| && sources[i] != []
    ensures Unread(sources[i := sources[i][1..]]) == Unread(sources) - 1
  {
    var advanced := sources[i := sources[i][1..]];
    if i == 0 {
      assert advanced[1..] == sources[1..];
    } else {
      assert advanced[1..] == sources[1..][i - 1 := sources[1..][i - 1][1..]];
      AdvancingReads(sources[1..], i - 1);
    }
  }

  ghost predicate HeadsAtLeast(sources: seq<Source>, bound: Bytes)
  {
    forall i :: 0 <= i < |sources| && sources[i] != [] ==> AtMost(bound, sources[i][0].key)
  }

  ghost predicate HeadsAbove(sources: seq<Source>, bound: Bytes)
  {
    forall i :: 0 <= i < |sources| && sources[i] != [] ==> Less(bound, sources[i][0].key)
  }

  lemma HeadsStrictlyAbove(sources: seq<Source>, least: nat, bound: Bytes)
    requires least < |sources| && sources[least] != []
    requires HeadsAtLeast(sources, sources[least][0].key) && HeadsAtLeast(sources, bound)
    requires sources[least][0].key != bound
    ensures HeadsAbove(sources, bound)
  {
    OrderFacts();
  }

  /** Dropping the head row of one source changes what is pending at that key only. */
  lemma AdvancingPending(sources: seq<Source>, i: nat)
    requires AllSorted(sources) && i < |sources| && sources[i] != []
    ensures var k := sources[i][0].key;
            Pending(sources[i := sources[i][1..]]) - {k} == Pending(sources) - {k}
  {
    var k := sources[i][0].key;
    var advanced := sources[i := sources[i][1..]];
    ContentsTail(sources[i]);
    assert Layers(advanced) == Layers(sources)[i := Layers(sources)[i] - {k}];
    ViewWithoutKey(Layers(sources), i, k);
  }

  /** No pending key lies below every head; a key strictly below all heads is gone. */
  lemma PendingAboveHeads(sources: seq<Source>, bound: Bytes, k: Bytes)
    requires AllSorted(sources) && k in Pending(sources)
    requires HeadsAtLeast(sources, bound)
    ensures AtMost(bound, k)
    ensures k == bound ==> exists i :: 0 <= i < |sources| && sources[i] != [] && sources[i][0].key == bound
  {
    ViewKeys(Layers(sources), k);
    var i :| 0 <= i < |sources| && k in Layers(sources)[i];
    ContentsKeys(sources[i], k);
    ContentsTail(sources[i]);
    OrderFacts();
  }

  /** The least head, ties to the lower index, is the next row of the merge. */
  lemma LeastHeadIsNext(sources: seq<Source>, i: nat)
    requires AllSorted(sources) && i < |sources| && sources[i] != []
    requires HeadsAtLeast(sources, sources[i][0].key)
    requires forall j :: 0 <= j < i && sources[j] != [] ==> Less(sources[i][0].key, sources[j][0].key)
    ensures sources[i][0].key in Pending(sources)
    ensures Pending(sources)[sources[i][0].key] == sources[i][0].value
    ensures forall k :: k in Pending(sources) ==> AtMost(sources[i][0].key, k)
  {
    var least := sources[i][0].key;
    ContentsTail(sources[i]);
    forall j | 0 <= j < i ensures least !in Layers(sources)[j] {
      ContentsKeys(sources[j], least);
      if sources[j] != [] {
        ContentsTail(sources[j]);
        OrderFacts();
      }
    }
    ViewNewestWins(Layers(sources), i, least);
    forall k | k in Pending(sources) ensures AtMost(least, k) {
      PendingAboveHeads(sources, least, k);
    }
  }

  /** Advancing a source keeps its head at or above any bound its old head met. */
  lemma HeadsStayAbove(sources: seq<Source>, i: nat, bound: Bytes)
    requires AllSorted(sources) && i < |sources| && sources[i] != []
    requires HeadsAtLeast(sources, bound)
    ensures HeadsAtLeast(sources[i := sources[i][1..]], bound)
    ensures AllSorted(sources[i := sources[i][1..]])
  {
    if |sources[i]| > 1 {
      assert Less(sources[i][0].key, sources[i][1].key);
      OrderFacts();
    }
  }

  /** A key strictly below every head is no longer pending. */
  lemma EmittedIsGone(sources: seq<Source>, emitted: Bytes)
    requires AllSorted(sources)
    requires HeadsAbove(sources, emitted)
    ensures emitted !in Pending(sources)
    ensures Pending(sources) - {emitted} == Pending(sources)
  {
    if emitted in Pending(sources) {
      PendingAboveHeads(sources, emitted, emitted);
      LessIrreflexive(emitted);
    }
  }

  /** `now` is `before` with some rows of the emitted key dropped, and only those. */
  ghost predicate Skipped(now: seq<Source>, before: seq<Source>, emitted: Option<Bytes>)
  {
    && |now| == |before| && AllSorted(now) && Unread(now) <= Unread(before)
    && (emitted.None? ==> now == before)
    && (emitted.Some? ==> HeadsAtLeast(now, emitted.value)
                          && Pending(now) - {emitted.value} == Pending(before) - {emitted.value})
  }

  lemma SkipOneMore(now: seq<Source>, before: seq<Source>, emitted: Bytes, i: nat)
    requires Skipped(now, before, Some(emitted))
    requires i < |now| && now[i] != [] && now[i][0].key == emitted
    ensures Skipped(now[i := now[i][1..]], before, Some(emitted))
  {
    AdvancingReads(now, i);
    AdvancingPending(now, i);
    HeadsStayAbove(now, i, emitted);
  }

  // ---------------------------------------------------------------------------
  // The iterator
  // ---------------------------------------------------------------------------

  ghost function RestsOf(iters: seq<TableIterator>): (rests: seq<Source>)
    reads iters
    ensures |rests| == |iters| && forall i :: 0 <= i < |iters| ==> rests[i] == iters[i].Rest()
  {
    if iters == [] then [] else [iters[0].Rest()] + RestsOf(iters[1..])
  }

  class MergeIterator {
    /** The binary heap: source indices are distinct, so its entries are keyed by index. */
    var heap: map<nat, TableIterator>
    var currentKey: Option<Bytes>
    ghost var rests: seq<Source>  // the unread rows of each source, exhausted ones included
    ghost const cursors: set<TableIterator>  // owned by this iterator since construction

    ghost function HeapCursors(): (inHeap: set<object>)
      reads this
    {
      set i | i in heap :: heap[i]
    }

    /** Apart from source `out`, the heap holds one live cursor for each source not exhausted. */
    ghost predicate HeapMatchesOthers(out: int)
      reads this, HeapCursors()
    {
      && (forall i :: i in heap <==> 0 <= i < |rests| && i != out && rests[i] != [])
      && (forall i :: i in heap ==> heap[i] in cursors && heap[i].Valid() && heap[i].Rest() == rests[i])
      && (forall i, j :: i in heap && j in heap && i != j ==> heap[i] != heap[j])
    }

    /** The heap holds one live cursor for each source that is not exhausted. */
    ghost predicate HeapMatchesSources()
      reads this, HeapCursors()
    {
      HeapMatchesOthers(-1)
    }

    /** Every cursor left in the heap is strictly past the last emitted key. */
    ghost predicate PastCurrent()
      reads this
    {
      currentKey.Some? ==> HeadsAbove(rests, currentKey.value)
    }

    ghost predicate Valid()
      reads this, HeapCursors()
    {
      HeapMatchesSources() && AllSorted(rests) && PastCurrent()
    }

    constructor (iters: seq<TableIterator>)
      requires AllSorted(RestsOf(iters)) && forall i :: 0 <= i < |iters| ==> iters[i].Valid()
      requires forall i, j :: 0 <= i < j < |iters| ==> iters[i] != iters[j]
      modifies set iter | iter in iters
      ensures Valid() && currentKey == None
      ensures cursors == (set iter | iter in iters)
      ensures rests == old(RestsOf(iters))
    {
      heap := map[];
      currentKey := None;
      rests := RestsOf(iters);
      cursors := set iter | iter in iters;
      new;
      PushAll(iters);
      SkipDuplicates();
    }

    method PushAll(iters: seq<TableIterator>)
      requires heap == map[] && |rests| == |iters|
      requires forall i :: 0 <= i < |iters| ==>
                 iters[i].Valid() && iters[i] in cursors && rests[i] == iters[i].Rest()
      requires forall i, j :: 0 <= i < j < |iters| ==> iters[i] != iters[j]
      modifies this`heap
      ensures HeapMatchesSources() && rests == old(rests) && currentKey == old(currentKey)
    {
      for index := 0 to |iters|
        invariant forall i :: i in heap <==> 0 <= i < index && rests[i] != []
        invariant forall i :: i in heap ==> heap[i] == iters[i]
      {
        if iters[index].IsValid() {
          heap := heap[index := iters[index]];
        }
      }
    }

    predicate IsValid()
      reads this
    {
      heap != map[]
    }

    /** The heap's order: least key first, the newer source (lower index) on ties. */
    predicate Before(i: nat, j: nat)
      requires i in heap && j in heap
      reads this, heap[i], heap[j]
    {
      Less(heap[i].Key(), heap[j].Key()) || (heap[i].Key() == heap[j].Key() && i < j)
    }

    /** `BinaryHeap::peek`: the entry every other one comes after. */
    method Peek() returns (top: nat)
      requires HeapMatchesSources() && IsValid()
      ensures top in heap
      ensures forall i :: i in heap && i != top ==> Before(top, i)
    {
      var unseen := heap.Keys;
      assert unseen != {};
      top :| top in unseen;
      unseen := unseen - {top};
      while unseen != {}
        invariant top in heap && unseen <= heap.Keys && top !in unseen
        invariant forall i :: i in heap && i !in unseen && i != top ==> Before(top, i)
        decreases unseen
      {
        var i :| i in unseen;
        OrderFacts();
        if Before(i, top) {
          top := i;
        }
        unseen := unseen - {i};
      }
    }

    /** What `Peek` says about the unread rows. */
    lemma TopIsLeastHead(top: nat)
      requires HeapMatchesSources() && top in heap
      requires forall i :: i in heap && i != top ==> Before(top, i)
      ensures HeadsAtLeast(rests, rests[top][0].key)
      ensures forall j :: 0 <= j < top && rests[j] != [] ==> Less(rests[top][0].key, rests[j][0].key)
    {
      forall j | 0 <= j < |rests| && rests[j] != []
        ensures AtMost(rests[top][0].key, rests[j][0].key)
        ensures j < top ==> Less(rests[top][0].key, rests[j][0].key)
      {
        assert j in heap;
        assert j != top ==> Before(top, j);
      }
    }

    method Pop(i: nat) returns (iter: TableIterator)
      requires HeapMatchesSources() && i in heap
      modifies this`heap
      ensures HeapMatchesOthers(i) && i < |rests|
      ensures iter == old(heap)[i] && iter in cursors && iter !in HeapCursors()
      ensures iter.Valid() && iter.Rest() == rests[i]
    {
      iter := heap[i];
      heap := heap - {i};
    }

    /** Pushes a popped entry back if its cursor, since moved, has rows left. */
    method PushIfValid(i: nat, iter: TableIterator)
      requires HeapMatchesOthers(i) && i < |rests|
      requires iter in cursors && iter !in HeapCursors() && iter.Valid()
      modifies this`heap, this`rests
      ensures HeapMatchesSources() && rests == old(rests)[i := iter.Rest()]
    {
      rests := rests[i := iter.Rest()];
      if iter.IsValid() {
        heap := heap[i := iter];
      }
    }

    /** Pop an entry, advance its cursor and push it back while it has rows. */
    method Advance(top: nat)
      requires HeapMatchesSources() && top in heap
      modifies this`heap, this`rests, cursors
      ensures HeapMatchesSources()
      ensures rests == old(rests)[top := old(rests)[top][1..]]
      ensures Unread(rests) < Unread(old(rests))
    {
      AdvancingReads(rests, top);
      var iter := Pop(top);
      iter.Next();
      PushIfValid(top, iter);
    }

    /** Drops the rows whose key was just emitted from the older sources. */
    method SkipDuplicates()
      requires HeapMatchesSources() && AllSorted(rests)
      requires currentKey.Some? ==> HeadsAtLeast(rests, currentKey.value)
      modifies this`heap, this`rests, cursors
      ensures Valid()
      ensures Skipped(rests, old(rests), currentKey)
      ensures currentKey.Some? ==> Pending(rests) == Pending(old(rests)) - {currentKey.value}
    {
      while IsValid()
        invariant HeapMatchesSources() && Skipped(rests, old(rests), currentKey)
        decreases Unread(rests)
      {
        var top := Peek();
        TopIsLeastHead(top);
        if currentKey.Some? && heap[top].Key() == currentKey.value {
          SkipOneMore(rests, old(rests), currentKey.value, top);
          Advance(top);
        } else {
          if currentKey.Some? {
            HeadsStrictlyAbove(rests, top, currentKey.value);
          }
          break;
        }
      }
      if currentKey.Some? {
        assert !IsValid() ==> forall i :: 0 <= i < |rests| ==> i in heap || rests[i] == [];
        EmittedIsGone(rests, currentKey.value);
      }
    }

    method Next()
      requires Valid()
      modifies this, cursors
      ensures Valid() && |rests| == |old(rests)|
      ensures !old(IsValid()) ==> Pending(rests) == Pending(old(rests))
      ensures old(IsValid()) ==>
                && currentKey.Some? && IsLeast(Pending(old(rests)), currentKey.value)
                && Pending(rests) == Pending(old(rests)) - {currentKey.value}
                && Unread(rests) < Unread(old(rests))
    {
      if IsValid() {
        var top := Peek();
        TopIsLeastHead(top);
        LeastHeadIsNext(rests, top);
        AdvancingPending(rests, top);
        HeadsStayAbove(rests, top, rests[top][0].key);
        currentKey := Some(heap[top].Key());
        Advance(top);
      } else if currentKey.Some? {
        EmittedIsGone(rests, currentKey.value);
      }
      SkipDuplicates();
    }

    /** The least key still pending; empty once exhausted. */
    method Key() returns (key: Bytes)
      requires Valid()
      ensures IsValid() <==> Pending(rests) != map[]
      ensures !IsValid() ==> key == []
      ensures IsValid() ==> key in Pending(rests) && forall k :: k in Pending(rests) ==> AtMost(key, k)
    {
      if IsValid() {
        var top := Peek();
        TopIsLeastHead(top);
        LeastHeadIsNext(rests, top);
        key := heap[top].Key();
      } else {
        ExhaustedHasNothing(rests);
        key := [];
      }
    }

    /** The newest value of that key. */
    method Value() returns (value: Bytes)
      requires Valid()
      ensures !IsValid() ==> value == []
      ensures forall key :: IsLeast(Pending(rests), key) ==> IsValid() && value == Pending(rests)[key]
    {
      if IsValid() {
        var top := Peek();
        TopIsLeastHead(top);
        LeastHeadIsNext(rests, top);
        OrderFacts();
        value := heap[top].Value();
      } else {
        ExhaustedHasNothing(rests);
        value := [];
      }
    }

    /** Leaves exactly the pending rows at or above `key`, from any valid state. */
    method Seek(key: Bytes)
      requires Valid()
      modifies this, cursors
      ensures Valid() && |rests| == |old(rests)|
      ensures currentKey == None
      ensures Pending(rests) == AtOrAbove(Pending(old(rests)), key)
    {
      ghost var before := rests;
      SeekCursors(key);
      SeekingPending(before, key);
      currentKey := None;
      SkipDuplicates();
    }

    /** Takes every entry out of the heap, seeks its cursor and pushes it back while it has rows. */
    method SeekCursors(key: Bytes)
      requires HeapMatchesSources()
      modifies this, cursors
      ensures HeapMatchesSources()
      ensures rests == Sought(old(rests), key)
    {
      var entries := heap.Keys;
      while entries != {}
        invariant HeapMatchesSources()
        invariant entries <= old(heap).Keys && SoughtExcept(rests, old(rests), key, entries)
        decreases entries
      {
        var i :| i in entries;
        SeekEntry(i, key);
        entries := entries - {i};
      }
    }

    method SeekEntry(i: nat, key: Bytes)
      requires HeapMatchesSources() && i in heap
      modifies this`heap, this`rests, cursors
      ensures HeapMatchesSources()
      ensures rests == old(rests)[i := DropBelow(old(rests)[i], key)]
    {
      var iter := Pop(i);
      iter.Seek(key);
      PushIfValid(i, iter);
    }

    /** One turn of a reading loop: the current row, then advance. */
    method ReadRow(ghost seen: Source, ghost total: map<Bytes, Bytes>) returns (row: Row<Bytes>)
      requires Valid() && IsValid()
      requires DrainedSoFar(seen, Pending(rests), total)
      modifies this, cursors
      ensures Valid() && Unread(rests) < Unread(old(rests))
      ensures DrainedSoFar(seen + [row], Pending(rests), total)
    {
      var key := Key();
      var value := Value();
      row := Row(key, value);
      ghost var before := Pending(rests);
      assert IsLeast(before, key);
      EmitRow(seen, before, total, row);
      Next();
      LeastIsUnique(before, key, currentKey.value);
    }

    /** Reads the iterator to its end: the merge of whatever was unread. */
    method Drain() returns (out: Source)
      requires Valid()
      modifies this, cursors
      ensures Valid() && !IsValid()
      ensures IsMergeOf(out, old(rests))
    {
      out := [];
      while IsValid()
        invariant Valid()
        invariant DrainedSoFar(out, Pending(rests), Pending(old(rests)))
        decreases Unread(rests)
      {
        var row := ReadRow(out, Pending(old(rests)));
        out := out + [row];
      }
      var _ := Key();
      assert Contents(out) + map[] == Contents(out);
    }
  }

  ghost predicate DrainedSoFar(out: Source, pending: map<Bytes, Bytes>, total: map<Bytes, Bytes>)
  {
    && Sorted(out)
    && (forall i, k :: 0 <= i < |out| && k in pending ==> Less(out[i].key, k))
    && Contents(out) + pending == total
  }

  lemma LeastIsUnique(m: map<Bytes, Bytes>, a: Bytes, b: Bytes)
    requires IsLeast(m, a) && IsLeast(m, b)
    ensures a == b
  {
    OrderFacts();
  }

  ghost function Sought(sources: seq<Source>, key: Bytes): (sought: seq<Source>)
    ensures |sought| == |sources|
    ensures forall i :: 0 <= i < |sources| ==> sought[i] == DropBelow(sources[i], key)
  {
    seq(|sources|, i requires 0 <= i < |sources| => DropBelow(sources[i], key))
  }

  /** All sources but those in `left` have been moved up to `key`. */
  ghost predicate SoughtExcept(now: seq<Source>, before: seq<Source>, key: Bytes, left: set<nat>)
  {
    && |now| == |before|
    && forall i {:trigger now[i]} :: 0 <= i < |now| ==>
         now[i] == if i in left then before[i] else DropBelow(before[i], key)
  }

  ghost predicate IsLeast(m: map<Bytes, Bytes>, key: Bytes)
  {
    key in m && forall k :: k in m ==> AtMost(key, k)
  }

  lemma ExhaustedHasNothing(sources: seq<Source>)
    requires AllSorted(sources) && forall i :: 0 <= i < |sources| ==> sources[i] == []
    ensures Pending(sources) == map[]
  {
    if k :| k in Pending(sources) {
      ViewKeys(Layers(sources), k);
    }
  }

  lemma SeekingPending(before: seq<Source>, key: Bytes)
    requires AllSorted(before)
    ensures AllSorted(Sought(before, key))
    ensures Pending(Sought(before, key)) == AtOrAbove(Pending(before), key)
  {
    var after := Sought(before, key);
    forall i | 0 <= i < |before|
      ensures Sorted(after[i]) && Layers(after)[i] == AtOrAbove(Layers(before)[i], key)
    {
      DropBelowContents(before[i], key);
    }
    ViewAtOrAbove(Layers(before), Layers(after), key);
  }

  /** Moving the least pending row to the output keeps the drain invariant. */
  lemma EmitRow(out: Source, pending: map<Bytes, Bytes>, total: map<Bytes, Bytes>, row: Row<Bytes>)
    requires DrainedSoFar(out, pending, total)
    requires IsLeast(pending, row.key) && pending[row.key] == row.value
    ensures DrainedSoFar(out + [row], pending - {row.key}, total)
  {
    if row.key in Contents(out) {
      ContentsKeys(out, row.key);
      LessIrreflexive(row.key);
    }
    ContentsAppend(out, row);
  }

  // ---------------------------------------------------------------------------
  // The merged stream as a whole
  // ---------------------------------------------------------------------------

  method CursorsOver(sources: seq<Source>) returns (iters: seq<TableIterator>)
    ensures |iters| == |sources| && fresh(set iter | iter in iters)
    ensures forall i :: 0 <= i < |iters| ==> iters[i].Valid()
    ensures forall i, j :: 0 <= i < j < |iters| ==> iters[i] != iters[j]
    ensures RestsOf(iters) == sources
  {
    iters := [];
    for i := 0 to |sources|
      invariant |iters| == i && fresh(set iter | iter in iters)
      invariant forall j :: 0 <= j < i ==> iters[j].Valid() && iters[j].Rest() == sources[j]
      invariant forall j, k :: 0 <= j < k < i ==> iters[j] != iters[k]
    {
      var iter := new TableIterator(sources[i]);
      iters := iters + [iter];
    }
  }

  /** Builds a merge over table cursors and drains it. */
  method MergeAll(sources: seq<Source>) returns (out: Source)
    requires AllSorted(sources)
    ensures IsMergeOf(out, sources)
  {
    var iters := CursorsOver(sources);
    var merged := new MergeIterator(iters);
    out := merged.Drain();
  }

  /** The merge is determined by its sources, key by key, and has no other rows. */
  lemma MergedStream(out: Source, sources: seq<Source>)
    requires AllSorted(sources) && IsMergeOf(out, sources)
    ensures forall other :: IsMergeOf(other, sources) ==> other == out
    ensures forall row :: row in out <==>
              exists i :: 0 <= i < |sources| && row in sources[i]
                          && forall j :: 0 <= j < i ==> forall r :: r in sources[j] ==> r.key != row.key
  {
    forall other | IsMergeOf(other, sources) ensures other == out {
      SortedListingUnique(other, out);
    }
    forall row: Row<Bytes>
      ensures row in out <==>
              exists i :: 0 <= i < |sources| && row in sources[i]
                          && forall j :: 0 <= j < i ==> forall r :: r in sources[j] ==> r.key != row.key
    {
      RowInMerge(out, sources, row);
    }
  }

  lemma RowInMerge(out: Source, sources: seq<Source>, row: Row<Bytes>)
    requires AllSorted(sources) && IsMergeOf(out, sources)
    ensures row in out <==>
            exists i :: 0 <= i < |sources| && row in sources[i]
                        && forall j :: 0 <= j < i ==> forall r :: r in sources[j] ==> r.key != row.key
  {
    var layers := Layers(sources);
    RowInContents(out, row);
    if exists i :: 0 <= i < |sources| && row in sources[i]
                   && forall j :: 0 <= j < i ==> forall r :: r in sources[j] ==> r.key != row.key {
      var i :| 0 <= i < |sources| && row in sources[i]
               && forall j :: 0 <= j < i ==> forall r :: r in sources[j] ==> r.key != row.key;
      RowInContents(sources[i], row);
      forall j | 0 <= j < i ensures row.key !in layers[j] {
        ContentsKeys(sources[j], row.key);
      }
      ViewNewestWins(layers, i, row.key);
    }
    if row in out {
      var i := NewestHolder(layers, row.key);
      ViewNewestWins(layers, i, row.key);
      RowInContents(sources[i], row);
      forall j, r | 0 <= j < i && r in sources[j] ensures r.key != row.key {
        RowInContents(sources[j], r);
      }
    }
  }

  lemma RowInContents(rows: Source, row: Row<Bytes>)
    requires Sorted(rows)
    ensures row in rows <==> row.key in Contents(rows) && Contents(rows)[row.key] == row.value
  {
    ContentsKeys(rows, row.key);
    forall i | 0 <= i < |rows|
      ensures rows[i].key in Contents(rows) && Contents(rows)[rows[i].key] == rows[i].value
    {
      ContentsAt(rows, i);
    }
  }

  lemma {:induction false} NewestHolder(layers: seq<map<Bytes, Bytes>>, key: Bytes) returns (i: nat)
    requires key in View(layers)
    ensures i < |layers| && key in layers[i] && forall j :: 0 <= j < i ==> key !in layers[j]
  {
    if key in layers[0] {
      i := 0;
    } else {
      i := NewestHolder(layers[1..], key);
      i := i + 1;
    }
  }

  /**
   * Merging consecutive groups of sources and then merging the results gives the
   * same stream as merging all sources at once.
   */
  lemma NestedMergeIsFlatMerge(groups: seq<seq<Source>>, outs: seq<Source>, nested: Source, flat: Source)
    requires forall g :: 0 <= g < |groups| ==> AllSorted(groups[g])
    requires |outs| == |groups| && forall g :: 0 <= g < |groups| ==> IsMergeOf(outs[g], groups[g])
    requires IsMergeOf(nested, outs) && IsMergeOf(flat, Flatten(groups))
    ensures nested == flat
  {
    var layered := seq(|groups|, g requires 0 <= g < |groups| => Layers(groups[g]));
    NestedViewIsFlatView(layered);
    FlattenLayers(groups, layered);
    GroupViewsAt(layered);
    assert Layers(outs) == GroupViews(layered);
    SortedListingUnique(nested, flat);
  }

  lemma {:induction false} GroupViewsAt(groups: seq<seq<map<Bytes, Bytes>>>)
    ensures |GroupViews(groups)| == |groups|
    ensures forall g :: 0 <= g < |groups| ==> GroupViews(groups)[g] == View(groups[g])
  {
    if groups != [] {
      GroupViewsAt(groups[1..]);
    }
  }

  lemma {:induction false} FlattenLayers(groups: seq<seq<Source>>, layered: seq<seq<map<Bytes, Bytes>>>)
    requires |layered| == |groups| && forall g :: 0 <= g < |groups| ==> layered[g] == Layers(groups[g])
    ensures Flatten(layered) == Layers(Flatten(groups))
  {
    if groups != [] {
      FlattenLayers(groups[1..], layered[1..]);
      assert Layers(groups[0] + Flatten(groups[1..])) == Layers(groups[0]) + Layers(Flatten(groups[1..]));
    }
  }

  /** Draining after a seek is draining without it, less the rows below the key. */
  lemma SeekFiltersStream(before: seq<Source>, after: seq<Source>, key: Bytes, all: Source, sought: Source)
    requires IsMergeOf(all, before) && IsMergeOf(sought, after)
    requires Pending(after) == AtOrAbove(Pending(before), key)
    ensures sought == DropBelow(all, key)
  {
    DropBelowContents(all, key);
    SortedListingUnique(sought, DropBelow(all, key));
  }
}
