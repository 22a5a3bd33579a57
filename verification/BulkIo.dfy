/**
 * Bulk export: a full scan in pages, each restarted at `key_after` of the last
 * key read.
 */
module BulkIo {
  import opened Options
  import opened Bytes
  import opened Rows
  import opened Successor
  import opened Keyspace
  import opened Paging

  const EXPORT_PAGE_SIZE: nat := 2000

  /** `key_after`: plus one with carry, never `None` despite its signature. */
  method KeyAfter(key: Bytes) returns (next: Option<Bytes>)
    ensures next == Some(Carried(key))
    ensures key != [] && PlusOne(key).Some? ==> BigEndian(next.value) == BigEndian(key) + 1 && |next.value| == |key|
  {
    var result := CarryLoop(key);
    if PlusOne(key).Some? {
      PlusOneIsPlusOne(key);
    }
    return Some(result);
  }

  // ---------------------------------------------------------------------------
  // Fixed-width keys as big-endian numbers
  // ---------------------------------------------------------------------------

  function BigEndian(key: Bytes): (n: nat)
  {
    if key == [] then 0 else BigEndian(key[..|key| - 1]) * 256 + key[|key| - 1] as int
  }

  lemma {:induction false} PlusOneIsPlusOne(key: Bytes)
    requires PlusOne(key).Some?
    ensures BigEndian(PlusOne(key).value) == BigEndian(key) + 1
  {
    var init, last := key[..|key| - 1], key[|key| - 1];
    var next := PlusOne(key).value;
    if last < 255 {
      assert next[..|next| - 1] == init;
    } else {
      PlusOneIsPlusOne(init);
      assert next[..|next| - 1] == PlusOne(init).value;
    }
  }

  lemma {:induction false} LessByPrefix(a: Bytes, b: Bytes, x: Byte, y: Byte)
    requires |a| == |b|
    ensures Less(a + [x], b + [y]) <==> Less(a, b) || (a == b && x < y)
  {
    if a == [] {
      assert a + [x] == [x] && b + [y] == [y] && [x][1..] == [] && [y][1..] == [];
    } else {
      assert (a + [x])[1..] == a[1..] + [x] && (b + [y])[1..] == b[1..] + [y];
      assert a == b <==> a[0] == b[0] && a[1..] == b[1..];
      LessByPrefix(a[1..], b[1..], x, y);
    }
  }

  /** On keys of one width, byte order is numeric order. */
  lemma {:induction false} ByteOrderIsNumericOrder(a: Bytes, b: Bytes)
    requires |a| == |b|
    ensures Less(a, b) <==> BigEndian(a) < BigEndian(b)
    ensures a == b <==> BigEndian(a) == BigEndian(b)
  {
    if a != [] {
      var n := |a| - 1;
      ByteOrderIsNumericOrder(a[..n], b[..n]);
      LessByPrefix(a[..n], b[..n], a[n], b[n]);
      assert a == a[..n] + [a[n]] && b == b[..n] + [b[n]];
    }
  }

  ghost predicate FixedWidth(rows: Store, width: nat)
  {
    forall i :: 0 <= i < |rows| ==> |rows[i].key| == width
  }

  // ---------------------------------------------------------------------------
  // Page boundaries
  // ---------------------------------------------------------------------------

  /** `key_after` of a nonempty all-0xFF key lies below it. */
  predicate Wraps(key: Bytes)
  {
    key != [] && PlusOne(key).None?
  }

  /** Row `n` or a later one lies between the last key of the page and where the next page starts. */
  ghost predicate Skips(rows: Store, n: nat)
    requires 0 < n <= |rows|
  {
    exists i :: n <= i < |rows| && Less(rows[i].key, Carried(rows[n - 1].key))
  }

  lemma CarriedIsAbove(key: Bytes)
    requires !Wraps(key)
    ensures Less(key, Carried(key))
  {
    if key != [] {
      PlusOneIsGreater(key);
    }
  }

  lemma WrappedIsBelow(key: Bytes)
    requires Wraps(key)
    ensures Less(Carried(key), key)
  {
    NoPlusOneIsAllFF(key);
    assert Carried(key)[0] == 0 && key[0] == 255;
  }

  /** A row is skipped iff the next one is. */
  lemma SkipsIff(rows: Store, n: nat)
    requires Sorted(rows) && 0 < n <= |rows|
    ensures Skips(rows, n) <==> n < |rows| && Less(rows[n].key, Carried(rows[n - 1].key))
  {
    var bound := Carried(rows[n - 1].key);
    if i :| n <= i < |rows| && Less(rows[i].key, bound) {
      if n < i {
        LessTransitive(rows[n].key, rows[i].key, bound);
      }
    }
  }

  /**
   * Restarting at `key_after` continues with exactly the next row if and only if
   * the last key does not wrap and no row sits in the gap it jumps over.
   */
  lemma BoundaryContinuesIff(rows: Store, n: nat)
    requires Sorted(rows) && 0 < n <= |rows|
    ensures DropBelow(rows, Carried(rows[n - 1].key)) == rows[n..] <==> !Wraps(rows[n - 1].key) && !Skips(rows, n)
  {
    var last := rows[n - 1].key;
    SkipsIff(rows, n);
    if Wraps(last) {
      WrappedIsBelow(last);
      LessAsymmetric(Carried(last), last);
    } else {
      CarriedIsAbove(last);
    }
    StartOfIff(rows, Carried(last), n);
    SuffixFrom(rows, StartOf(rows, Carried(last)), n);
  }

  // ---------------------------------------------------------------------------
  // The export loop
  // ---------------------------------------------------------------------------

  // The callback decides, from all it has been given so far, whether to go on.
  type Callback = Store -> bool

  /** The rows given to the callback: up to and including the one it stops at. */
  function VisitUntil(done: Store, rows: Store, goOn: Callback): (visited: Store)
    decreases |rows|
  {
    if rows == [] then done
    else if !goOn(done + [rows[0]]) then done + [rows[0]]
    else VisitUntil(done + [rows[0]], rows[1..], goOn)
  }

  predicate GoesOn(done: Store, rows: Store, goOn: Callback)
    decreases |rows|
  {
    rows == [] || (goOn(done + [rows[0]]) && GoesOn(done + [rows[0]], rows[1..], goOn))
  }

  method VisitPage(done: Store, page: Store, goOn: Callback) returns (visited: Store, on: bool)
    ensures visited == VisitUntil(done, page, goOn) && on == GoesOn(done, page, goOn)
  {
    visited := done;
    for i := 0 to |page|
      invariant VisitUntil(visited, page[i..], goOn) == VisitUntil(done, page, goOn)
      invariant GoesOn(visited, page[i..], goOn) == GoesOn(done, page, goOn)
    {
      assert page[i..][1..] == page[i + 1..];
      visited := visited + [page[i]];
      if !goOn(visited) {
        return visited, false;
      }
    }
    return visited, true;
  }

  datatype ExportState = ExportState(visited: Store, lower: Option<Bytes>, halted: bool)

  /** One iteration: a scan of the whole store from the current bound. */
  ghost function ExportStep(rows: Store, pageSize: nat, goOn: Callback, state: ExportState): (next: ExportState)
    requires pageSize > 0
  {
    if state.halted then state
    else
      var page := ScanCf(rows, state.lower, None, pageSize);
      var visited := VisitUntil(state.visited, page, goOn);
      if !GoesOn(state.visited, page, goOn) || |page| < pageSize then ExportState(visited, state.lower, true)
      else ExportState(visited, Some(Carried(page[pageSize - 1].key)), false)
  }

  /** The loop's state after `k` iterations. */
  ghost function ExportRun(rows: Store, pageSize: nat, goOn: Callback, k: nat): (state: ExportState)
    requires pageSize > 0
  {
    if k == 0 then ExportState([], None, false)
    else ExportStep(rows, pageSize, goOn, ExportRun(rows, pageSize, goOn, k - 1))
  }

  lemma {:induction false} HaltedStays(rows: Store, pageSize: nat, goOn: Callback, k: nat, later: nat)
    requires pageSize > 0 && k <= later && ExportRun(rows, pageSize, goOn, k).halted
    ensures ExportRun(rows, pageSize, goOn, later) == ExportRun(rows, pageSize, goOn, k)
  {
    if k < later {
      HaltedStays(rows, pageSize, goOn, k, later - 1);
    }
  }

  ghost predicate ExportReaches(rows: Store, pageSize: nat, goOn: Callback, i: nat, state: ExportState)
    requires pageSize > 0
  {
    ExportRun(rows, pageSize, goOn, i) == state
  }

  /** A run that is to halt after `k` pages reads another one before that. */
  lemma ExportAdvances(rows: Store, pageSize: nat, goOn: Callback, i: nat, k: nat, state: ExportState, next: ExportState)
    requires pageSize > 0 && i <= k && ExportReaches(rows, pageSize, goOn, i, state) && !state.halted
    requires ExportRun(rows, pageSize, goOn, k).halted && next == ExportStep(rows, pageSize, goOn, state)
    ensures i < k && ExportReaches(rows, pageSize, goOn, i + 1, next)
    ensures next.halted ==> ExportRun(rows, pageSize, goOn, k) == next
  {
    assert ExportRun(rows, pageSize, goOn, i + 1) == next;
    if next.halted {
      HaltedStays(rows, pageSize, goOn, i + 1, k);
    }
  }

  /** The body of the loop. */
  method ReadExportPage(rows: Store, pageSize: nat, goOn: Callback, visited: Store, lower: Option<Bytes>)
    returns (state: ExportState)
    requires pageSize > 0
    ensures state == ExportStep(rows, pageSize, goOn, ExportState(visited, lower, false))
  {
    var results := ScanCf(rows, lower, None, pageSize);
    if results == [] {
      return ExportState(visited, lower, true);
    }
    var seen, on := VisitPage(visited, results, goOn);
    if !on || |results| < pageSize {
      return ExportState(seen, lower, true);
    }
    var next := KeyAfter(results[|results| - 1].key);
    return ExportState(seen, next, false);
  }

  /** Whenever the loop halts, after however many pages, this is what it has visited. */
  method ForEachKv(rows: Store, goOn: Callback, ghost k: nat) returns (visited: Store)
    requires ExportRun(rows, EXPORT_PAGE_SIZE, goOn, k).halted
    ensures visited == ExportRun(rows, EXPORT_PAGE_SIZE, goOn, k).visited
  {
    var state := ExportState([], None, false);
    ghost var i := 0;
    while !state.halted
      invariant i <= k && ExportReaches(rows, EXPORT_PAGE_SIZE, goOn, i, state)
      invariant state.halted ==> ExportRun(rows, EXPORT_PAGE_SIZE, goOn, k) == state
      decreases k - i
    {
      var next := ReadExportPage(rows, EXPORT_PAGE_SIZE, goOn, state.visited, state.lower);
      ExportAdvances(rows, EXPORT_PAGE_SIZE, goOn, i, k, state, next);
      state, i := next, i + 1;
    }
    return state.visited;
  }

  // ---------------------------------------------------------------------------
  // When the export is complete
  // ---------------------------------------------------------------------------

  ghost predicate Always(goOn: Callback)
  {
    forall visited :: goOn(visited)
  }

  lemma {:induction false} AlwaysVisits(done: Store, rows: Store, goOn: Callback)
    requires Always(goOn)
    ensures GoesOn(done, rows, goOn) && VisitUntil(done, rows, goOn) == done + rows
    decreases |rows|
  {
    if rows != [] {
      AlwaysVisits(done + [rows[0]], rows[1..], goOn);
      assert done + [rows[0]] + rows[1..] == done + rows;
    }
  }

  /** Where the loop resumes after a page that ends just before position `n`. */
  function Resume(rows: Store, n: nat): (at: nat)
    requires n <= |rows|
    ensures at <= |rows|
  {
    if n == 0 then 0 else StartOf(rows, Carried(rows[n - 1].key))
  }

  /** The loop as a reader of pages. */
  ghost function ExportReader(rows: Store, pageSize: nat): (reader: Reader)
    requires pageSize > 0
    ensures reader.Fits(|rows|) && reader.size == pageSize && reader.slack == pageSize - 1
    ensures forall n: nat :: n <= |rows| ==> reader.jumps[n] == Resume(rows, n)
  {
    Reader(pageSize, pageSize - 1, seq(|rows| + 1, n requires 0 <= n <= |rows| => Resume(rows, n)))
  }

  /** The bound of a run that stands at position `at`. */
  ghost predicate StandsAt(rows: Store, state: ExportState, walk: Walk<Row<Bytes>>)
  {
    && state.visited == walk.visited && state.halted == walk.halted
    && walk.at <= |rows| && Range(rows, state.lower, None) == rows[walk.at..]
  }

  lemma {:induction false} ExportIsPaging(rows: Store, pageSize: nat, goOn: Callback, reader: Reader, k: nat)
    requires pageSize > 0 && Always(goOn) && reader == ExportReader(rows, pageSize)
    ensures StandsAt(rows, ExportRun(rows, pageSize, goOn, k), Run(rows, reader, k))
  {
    StandsAtStart(rows);
    ghost var state: ExportState, walk: Walk<Row<Bytes>> := ExportState([], None, false), Walk([], 0, false);
    for i := 0 to k
      invariant state == ExportRun(rows, pageSize, goOn, i) && walk == Run(rows, reader, i)
      invariant StandsAt(rows, state, walk)
    {
      ExportPage(rows, pageSize, goOn, state, reader, walk);
      state, walk := ExportStep(rows, pageSize, goOn, state), Step(rows, reader, walk);
    }
  }

  lemma StandsAtStart(rows: Store)
    ensures StandsAt(rows, ExportState([], None, false), Walk([], 0, false))
  {
    assert rows[0..] == rows;
  }

  lemma ExportPage(rows: Store, pageSize: nat, goOn: Callback, state: ExportState, reader: Reader,
                   walk: Walk<Row<Bytes>>)
    requires pageSize > 0 && Always(goOn) && reader == ExportReader(rows, pageSize) && StandsAt(rows, state, walk)
    ensures StandsAt(rows, ExportStep(rows, pageSize, goOn, state), Step(rows, reader, walk))
  {
    var page := Page(rows, walk.at, pageSize);
    assert ScanCf(rows, state.lower, None, pageSize) == page;
    AlwaysVisits(state.visited, page, goOn);
    if !state.halted && |rows| - walk.at >= pageSize {
      assert page[pageSize - 1] == rows[walk.at + pageSize - 1];
      assert reader.jumps[walk.at + pageSize] == Resume(rows, walk.at + pageSize);
    }
  }

  lemma BoundaryJumpIff(rows: Store, pageSize: nat, n: nat)
    requires Sorted(rows) && pageSize > 0 && 0 < n <= |rows|
    ensures ExportReader(rows, pageSize).jumps[n] == n <==> !Wraps(rows[n - 1].key) && !Skips(rows, n)
  {
    var at := Resume(rows, n);
    assert ExportReader(rows, pageSize).jumps[n] == at;
    BoundaryContinuesIff(rows, n);
    assert |rows[at..]| == |rows| - at && |rows[n..]| == |rows| - n;
  }

  /** After some number of pages the loop stops, having visited every row once and in order. */
  ghost predicate ExportCompletes(rows: Store, pageSize: nat, goOn: Callback)
    requires pageSize > 0
  {
    exists k: nat :: ExportFinished(ExportRun(rows, pageSize, goOn, k), rows)
  }

  predicate ExportFinished(state: ExportState, rows: Store)
  {
    state.halted && state.visited == rows
  }

  /** A page boundary that does not go on with the next row. */
  ghost predicate Breaks(rows: Store, pageSize: nat, n: nat)
    requires pageSize > 0
  {
    0 < n <= |rows| && IsMultiple(n, pageSize) && (Wraps(rows[n - 1].key) || Skips(rows, n))
  }

  /** The export completes exactly when no page boundary wraps or skips. */
  lemma ExportCompleteIff(rows: Store, pageSize: nat, goOn: Callback)
    requires Sorted(rows) && pageSize > 0 && Always(goOn)
    ensures ExportCompletes(rows, pageSize, goOn) <==> forall n: nat :: !Breaks(rows, pageSize, n)
  {
    var reader := ExportReader(rows, pageSize);
    SortedIsDistinct(rows);
    CompleteIff(rows, reader);
    forall k: nat
      ensures ExportFinished(ExportRun(rows, pageSize, goOn, k), rows) <==> Finished(Run(rows, reader, k), rows)
    {
      ExportIsPaging(rows, pageSize, goOn, reader, k);
    }
    SameCompletion(rows, pageSize, goOn, reader);
    forall n: nat ensures Breaks(rows, pageSize, n) <==> reader.Boundary(|rows|, n) && reader.jumps[n] != n {
      BreakIsJump(rows, pageSize, n);
    }
  }

  lemma SameCompletion(rows: Store, pageSize: nat, goOn: Callback, reader: Reader)
    requires pageSize > 0 && reader.Fits(|rows|)
    requires forall k: nat ::
               ExportFinished(ExportRun(rows, pageSize, goOn, k), rows) <==> Finished(Run(rows, reader, k), rows)
    ensures ExportCompletes(rows, pageSize, goOn) <==> Completes(rows, reader)
  {
    if ExportCompletes(rows, pageSize, goOn) {
      var k: nat :| ExportFinished(ExportRun(rows, pageSize, goOn, k), rows);
      assert Finished(Run(rows, reader, k), rows);
    }
    if Completes(rows, reader) {
      var k: nat :| Finished(Run(rows, reader, k), rows);
      assert ExportFinished(ExportRun(rows, pageSize, goOn, k), rows);
    }
  }

  lemma BreakIsJump(rows: Store, pageSize: nat, n: nat)
    requires Sorted(rows) && pageSize > 0
    ensures var reader := ExportReader(rows, pageSize);
            Breaks(rows, pageSize, n) <==> reader.Boundary(|rows|, n) && reader.jumps[n] != n
  {
    if 0 < n <= |rows| {
      BoundaryJumpIff(rows, pageSize, n);
    }
  }

  /** The largest key of a width is all 0xFF. */
  lemma {:induction false} AllFFIsLargest(a: Bytes, b: Bytes)
    requires |a| == |b| && forall i :: 0 <= i < |a| ==> a[i] == 255
    ensures !Less(a, b)
  {
    if a != [] {
      AllFFIsLargest(a[1..], b[1..]);
    }
  }

  /** With keys of one width, the only failure is a full last page that ends in the all-0xFF key. */
  lemma FixedWidthExportIff(rows: Store, width: nat, pageSize: nat, goOn: Callback)
    requires Sorted(rows) && FixedWidth(rows, width) && pageSize > 0 && Always(goOn)
    ensures ExportCompletes(rows, pageSize, goOn) <==>
            !(rows != [] && IsMultiple(|rows|, pageSize) && Wraps(rows[|rows| - 1].key))
  {
    ExportCompleteIff(rows, pageSize, goOn);
    forall n: nat ensures Breaks(rows, pageSize, n) <==>
                            n == |rows| > 0 && IsMultiple(n, pageSize) && Wraps(rows[n - 1].key)
    {
      if 0 < n <= |rows| {
        FixedWidthBoundary(rows, width, n);
      }
    }
    if rows != [] && IsMultiple(|rows|, pageSize) && Wraps(rows[|rows| - 1].key) {
      assert Breaks(rows, pageSize, |rows|);
    }
  }

  lemma FixedWidthBoundary(rows: Store, width: nat, n: nat)
    requires Sorted(rows) && FixedWidth(rows, width) && 0 < n <= |rows|
    ensures Wraps(rows[n - 1].key) ==> n == |rows|
    ensures !Wraps(rows[n - 1].key) ==> !Skips(rows, n)
  {
    var last := rows[n - 1].key;
    if Wraps(last) {
      NoPlusOneIsAllFF(last);
      if n < |rows| {
        AllFFIsLargest(last, rows[n].key);
      }
    } else if i :| n <= i < |rows| && Less(rows[i].key, Carried(last)) {
      assert Less(last, rows[i].key);
      if width > 0 {
        PlusOneIsPlusOne(last);
        ByteOrderIsNumericOrder(last, rows[i].key);
        ByteOrderIsNumericOrder(rows[i].key, PlusOne(last).value);
      }
    }
  }

  // ---------------------------------------------------------------------------
  // Where the loop goes wrong
  // ---------------------------------------------------------------------------

  lemma {:induction false} MultiplesApart(a: nat, b: nat, m: nat)
    requires m > 0 && IsMultiple(a, m) && IsMultiple(b, m) && a < b
    ensures b - a >= m
  {
    if a > m {
      MultiplesApart(a - m, b - m, m);
    }
  }

  /**
   * A full last page that ends in an all-0xFF key makes the loop start over: with
   * no other bad boundary and no row below the restart, it never stops.
   */
  lemma {:induction false} WrappedExportNeverHalts(rows: Store, pageSize: nat, goOn: Callback, k: nat)
    requires Sorted(rows) && pageSize > 0 && Always(goOn) && rows != []
    requires IsMultiple(|rows|, pageSize) && Wraps(rows[|rows| - 1].key)
    requires !Less(rows[0].key, Carried(rows[|rows| - 1].key))
    requires forall n: nat :: n < |rows| ==> !Breaks(rows, pageSize, n)
    ensures !ExportRun(rows, pageSize, goOn, k).halted
  {
    var reader := ExportReader(rows, pageSize);
    ExportIsPaging(rows, pageSize, goOn, reader, k);
    assert reader.jumps[|rows|] == 0;
    forall n: nat | 0 < n < |rows| && IsMultiple(n, pageSize) ensures reader.jumps[n] == n {
      assert !Breaks(rows, pageSize, n);
      BoundaryJumpIff(rows, pageSize, n);
    }
    NeverHalts(rows, reader, k);
  }

  /** A reader that goes back to the start at the very end goes round for ever. */
  lemma {:induction false} NeverHalts<T>(rows: seq<T>, reader: Reader, k: nat)
    requires reader.Fits(|rows|) && reader.slack == reader.size - 1 && rows != []
    requires IsMultiple(|rows|, reader.size) && reader.jumps[|rows|] == 0
    requires forall n: nat :: 0 < n < |rows| && IsMultiple(n, reader.size) ==> reader.jumps[n] == n
    ensures var walk := Run(rows, reader, k);
            !walk.halted && walk.at < |rows| && (walk.at == 0 || IsMultiple(walk.at, reader.size))
  {
    if k > 0 {
      NeverHalts(rows, reader, k - 1);
      var at := Run(rows, reader, k - 1).at;
      if at > 0 {
        MultiplesApart(at, |rows|, reader.size);
      }
      assert IsMultiple(at + reader.size, reader.size);
    }
  }

  /**
   * One full page that ends in an all-0xFF key: the loop halts iff some row lies
   * below the restart, and then it has visited the rows that do not twice.
   */
  lemma WrappedPageHaltsIff(rows: Store, pageSize: nat, goOn: Callback)
    requires Sorted(rows) && 0 < pageSize == |rows| && Always(goOn) && Wraps(rows[pageSize - 1].key)
    ensures (exists k: nat :: ExportRun(rows, pageSize, goOn, k).halted)
            <==> Less(rows[0].key, Carried(rows[pageSize - 1].key))
    ensures var bound := Carried(rows[pageSize - 1].key);
            Less(rows[0].key, bound) ==>
              && DropBelow(rows, bound) != []
              && ExportRun(rows, pageSize, goOn, 2) == ExportState(rows + DropBelow(rows, bound), Some(bound), true)
  {
    var bound := Carried(rows[pageSize - 1].key);
    if Less(rows[0].key, bound) {
      WrapLeavesSome(rows, bound);
      TwoPages(rows, pageSize, goOn, bound, DropBelow(rows, bound));
      assert rows[..pageSize] == rows;
    } else {
      forall k: nat ensures !ExportRun(rows, pageSize, goOn, k).halted {
        assert forall n: nat :: n < |rows| ==> !Breaks(rows, pageSize, n);
        WrappedExportNeverHalts(rows, pageSize, goOn, k);
      }
    }
  }

  lemma WrapLeavesSome(rows: Store, bound: Bytes)
    requires Sorted(rows) && rows != [] && Wraps(rows[|rows| - 1].key) && bound == Carried(rows[|rows| - 1].key)
    ensures DropBelow(rows, bound) != [] && (Less(rows[0].key, bound) ==> |DropBelow(rows, bound)| < |rows|)
  {
    var last := rows[|rows| - 1];
    WrappedIsBelow(last.key);
    LessAsymmetric(bound, last.key);
    DropBelowRows(rows, bound);
    assert last in DropBelow(rows, bound);
    DropShorter(rows[1..], bound);
  }

  /** `pageSize` keys, each the last one extended, and one more. */
  function GrowingKeys(pageSize: nat): (rows: Store)
    ensures |rows| == pageSize + 1
  {
    seq(pageSize + 1, i requires 0 <= i <= pageSize => Row(Zeros(i + 1), []))
  }

  lemma {:induction false} ZerosBelow(n: nat, m: nat)
    ensures Less(Zeros(n), Zeros(m) + [1])
  {
    if n > 0 {
      if m > 0 {
        ZerosBelow(n - 1, m - 1);
        assert Zeros(n)[1..] == Zeros(n - 1) && (Zeros(m) + [1])[1..] == Zeros(m - 1) + [1];
      } else {
        assert Zeros(m) + [1] == [1];
      }
    }
  }

  lemma {:induction false} DropAll(rows: Store, bound: Bytes)
    requires forall i :: 0 <= i < |rows| ==> Less(rows[i].key, bound)
    ensures DropBelow(rows, bound) == []
  {
    if rows != [] {
      DropAll(rows[1..], bound);
    }
  }

  /** At every page size, keys of different widths can make a boundary skip a row. */
  lemma MixedWidthExportSkips(pageSize: nat, goOn: Callback)
    requires pageSize > 0 && Always(goOn)
    ensures var rows := GrowingKeys(pageSize);
            && Sorted(rows) && ExportRun(rows, pageSize, goOn, 2).halted
            && ExportRun(rows, pageSize, goOn, 2).visited == rows[..pageSize]
  {
    var rows := GrowingKeys(pageSize);
    var bound := Zeros(pageSize - 1) + [1];
    GrowingSorted(pageSize);
    forall i | 0 <= i < |rows| ensures Less(rows[i].key, bound) {
      ZerosBelow(i + 1, pageSize - 1);
    }
    DropAll(rows, bound);
    assert Carried(rows[pageSize - 1].key) == bound by {
      assert Zeros(pageSize)[..pageSize - 1] == Zeros(pageSize - 1);
    }
    TwoPages(rows, pageSize, goOn, bound, []);
    assert rows[..pageSize] + [] == rows[..pageSize];
  }

  /** After a full first page that leaves less than a page, the loop ends at the second. */
  lemma TwoPages(rows: Store, pageSize: nat, goOn: Callback, bound: Bytes, rest: Store)
    requires Always(goOn) && 0 < pageSize <= |rows|
    requires Carried(rows[pageSize - 1].key) == bound && DropBelow(rows, bound) == rest && |rest| < pageSize
    ensures ExportRun(rows, pageSize, goOn, 2) == ExportState(rows[..pageSize] + rest, Some(bound), true)
  {
    var page := rows[..pageSize];
    AlwaysVisits([], page, goOn);
    AlwaysVisits(page, rest, goOn);
    assert ScanCf(rows, None, None, pageSize) == page && [] + page == page;
    var first := ExportStep(rows, pageSize, goOn, ExportState([], None, false));
    assert first == ExportState(page, Some(bound), false);
    assert ScanCf(rows, Some(bound), None, pageSize) == rest;
    assert ExportRun(rows, pageSize, goOn, 1) == first;
  }

  lemma GrowingSorted(pageSize: nat)
    ensures Sorted(GrowingKeys(pageSize))
  {
    var rows := GrowingKeys(pageSize);
    forall i, j | 0 <= i < j < |rows| ensures Less(rows[i].key, rows[j].key) {
      ShorterZeros(i + 1, j + 1);
    }
  }

  lemma {:induction false} ShorterZeros(n: nat, m: nat)
    requires n < m
    ensures Less(Zeros(n), Zeros(m))
  {
    if n > 0 {
      ShorterZeros(n - 1, m - 1);
      assert Zeros(n)[1..] == Zeros(n - 1) && Zeros(m)[1..] == Zeros(m - 1);
    }
  }
}
