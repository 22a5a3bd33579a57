/**
 * Paged scans of the public keyspace: `collect` reads the engine in pages and
 * filters, `prefix` hands out cursors.
 */
module Keyspace {
  import opened Options
  import opened Bytes
  import opened Rows
  import opened Successor
  import opened Paging
  import opened Utf8

  const MAX_SCAN_LIMIT: nat := 10_000
  const PAGE: nat := 256

  type Store = seq<Row<Bytes>>  // all rows of the engine, in key order

  // ---------------------------------------------------------------------------
  // The engine's range scan
  // ---------------------------------------------------------------------------

  function TakeBelow(rows: Store, upper: Bytes): (kept: Store)
  {
    if rows != [] && Less(rows[0].key, upper) then [rows[0]] + TakeBelow(rows[1..], upper) else []
  }

  /** The rows of `[lower, upper)`; a missing bound is no bound. */
  function Range(rows: Store, lower: Option<Bytes>, upper: Option<Bytes>): (range: Store)
  {
    var from := if lower.Some? then DropBelow(rows, lower.value) else rows;
    if upper.Some? then TakeBelow(from, upper.value) else from
  }

  function Take<T>(s: seq<T>, n: nat): (prefix: seq<T>)
  {
    if n <= |s| then s[..n] else s
  }

  function Min(a: nat, b: nat): (m: nat)
  {
    if a < b then a else b
  }

  /** `scan_cf`: the first rows of the range, at most `limit`. */
  function ScanCf(rows: Store, lower: Option<Bytes>, upper: Option<Bytes>, limit: nat): (page: Store)
  {
    Take(Range(rows, lower, upper), limit)
  }

  lemma {:induction false} RangeSorted(rows: Store, lower: Option<Bytes>, upper: Option<Bytes>)
    requires Sorted(rows)
    ensures Sorted(Range(rows, lower, upper))
    ensures forall row :: row in Range(rows, lower, upper) <==> row in rows && InRange(row.key, lower, upper)
  {
    var from := if lower.Some? then DropBelow(rows, lower.value) else rows;
    if lower.Some? {
      DropBelowRows(rows, lower.value);
    }
    if upper.Some? {
      TakeBelowRows(from, upper.value);
    }
  }

  lemma {:induction false} DropBelowRows(rows: Store, lower: Bytes)
    requires Sorted(rows)
    ensures Sorted(DropBelow(rows, lower))
    ensures forall row :: row in DropBelow(rows, lower) <==> row in rows && !Less(row.key, lower)
  {
    if rows != [] {
      assert rows == [rows[0]] + rows[1..];
      DropBelowRows(rows[1..], lower);
      if !Less(rows[0].key, lower) {
        forall row | row in rows ensures !Less(row.key, lower) {
          if row != rows[0] && Less(row.key, lower) {
            LessTransitive(rows[0].key, row.key, lower);
          }
        }
      }
    }
  }

  lemma {:induction false} TakeBelowRows(rows: Store, upper: Bytes)
    requires Sorted(rows)
    ensures Sorted(TakeBelow(rows, upper))
    ensures forall row :: row in TakeBelow(rows, upper) <==> row in rows && Less(row.key, upper)
  {
    if rows != [] {
      assert rows == [rows[0]] + rows[1..];
      TakeBelowRows(rows[1..], upper);
      var rest := TakeBelow(rows[1..], upper);
      forall i | 0 <= i < |rest| ensures Less(rows[0].key, rest[i].key) {
        assert rest[i] in rows[1..];
      }
      if !Less(rows[0].key, upper) {
        forall row | row in rows ensures !Less(row.key, upper) {
          if row != rows[0] && Less(row.key, upper) {
            LessTransitive(rows[0].key, row.key, upper);
          }
        }
      }
    }
  }

  // ---------------------------------------------------------------------------
  // Page boundaries
  // ---------------------------------------------------------------------------

  lemma {:induction false} DropBelowTwice(rows: Store, low: Bytes, high: Bytes)
    requires AtMost(low, high)
    ensures DropBelow(DropBelow(rows, low), high) == DropBelow(rows, high)
  {
    if rows != [] && Less(rows[0].key, low) {
      if low != high {
        LessTransitive(rows[0].key, low, high);
      }
      DropBelowTwice(rows[1..], low, high);
    }
  }

  lemma {:induction false} BoundsCommute(rows: Store, lower: Bytes, upper: Bytes)
    requires Sorted(rows)
    ensures TakeBelow(DropBelow(rows, lower), upper) == DropBelow(TakeBelow(rows, upper), lower)
  {
    if rows != [] {
      if Less(rows[0].key, lower) {
        BoundsCommute(rows[1..], lower, upper);
        if Less(rows[0].key, upper) {
          assert TakeBelow(rows, upper)[1..] == TakeBelow(rows[1..], upper);
        } else if TakeBelow(rows[1..], upper) != [] {
          LessTransitive(rows[0].key, rows[1].key, upper);
        }
      }
    }
  }

  /** Restarting just above a row's key leaves exactly the rows after it. */
  lemma {:induction false} DropThrough(rows: Store, n: nat)
    requires Sorted(rows) && 0 < n <= |rows|
    ensures DropBelow(rows, rows[n - 1].key + [0]) == rows[n..]
  {
    var last := rows[n - 1].key;
    ZeroExtensionIsSuccessor(last, rows[0].key);
    assert Less(rows[0].key, last + [0]) by {
      if n > 1 {
        ZeroExtensionIsSuccessor(last, last);
        LessTransitive(rows[0].key, last, last + [0]);
      }
    }
    if n > 1 {
      DropThrough(rows[1..], n - 1);
      assert rows[1..][n - 1..] == rows[n..];
    } else if n < |rows| {
      ZeroExtensionIsSuccessor(last, rows[1].key);
      LessAsymmetricOrEqual(last + [0], rows[1].key);
    }
  }

  lemma LessAsymmetricOrEqual(a: Bytes, b: Bytes)
    requires AtMost(a, b)
    ensures !Less(b, a)
  {
    if a == b {
      LessIrreflexive(a);
    } else {
      LessAsymmetric(a, b);
    }
  }

  /** The next page's range is the rest of this one: no row is skipped or repeated. */
  lemma NextPageRange(rows: Store, lower: Option<Bytes>, upper: Option<Bytes>, n: nat)
    requires Sorted(rows) && 0 < n <= |Range(rows, lower, upper)|
    ensures var range := Range(rows, lower, upper);
            Range(rows, Some(range[n - 1].key + [0]), upper) == range[n..]
  {
    var range := Range(rows, lower, upper);
    var from := if lower.Some? then DropBelow(rows, lower.value) else rows;
    var next := range[n - 1].key + [0];
    RangeSorted(rows, lower, upper);
    DropThrough(range, n);
    if lower.Some? {
      DropBelowRows(rows, lower.value);
      assert range[n - 1] in range;
      LessTotal(lower.value, range[n - 1].key);
      ZeroExtensionIsSuccessor(range[n - 1].key, range[n - 1].key);
      if lower.value != range[n - 1].key {
        LessTransitive(lower.value, range[n - 1].key, next);
      }
      DropBelowTwice(rows, lower.value, next);
    }
    if upper.Some? {
      BoundsCommute(from, next, upper.value);
    }
  }

  // ---------------------------------------------------------------------------
  // Collecting
  // ---------------------------------------------------------------------------

  type Filter = (Bytes, Bytes) -> bool

  predicate Wanted(row: Row<Bytes>, matches: Filter)
  {
    !IsReserved(row.key) && matches(row.key, row.value)
  }

  function Select(rows: Store, matches: Filter): (selected: Store)
  {
    if rows == [] then []
    else
      var last := rows[|rows| - 1];
      Select(rows[..|rows| - 1], matches) + if Wanted(last, matches) then [last] else []
  }

  lemma {:induction false} SelectConcat(a: Store, b: Store, matches: Filter)
    ensures Select(a + b, matches) == Select(a, matches) + Select(b, matches)
  {
    if b == [] {
      assert a + b == a;
    } else {
      var n := |b| - 1;
      assert (a + b)[..|a| + n] == a + b[..n];
      SelectConcat(a, b[..n], matches);
    }
  }

  lemma {:induction false} SelectRows(rows: Store, matches: Filter)
    requires Sorted(rows)
    ensures Sorted(Select(rows, matches))
    ensures forall row :: row in Select(rows, matches) <==> row in rows && Wanted(row, matches)
  {
    if rows != [] {
      var init, last := rows[..|rows| - 1], rows[|rows| - 1];
      SelectRows(init, matches);
      assert rows == init + [last];
      var kept := Select(init, matches);
      forall i | 0 <= i < |kept| ensures Less(kept[i].key, last.key) {
        assert kept[i] in init;
      }
    }
  }

  lemma TakeConcat<T>(a: seq<T>, b: seq<T>, n: nat)
    ensures Take(a + b, n) == Take(a, n) + Take(b, if n < |a| then 0 else n - |a|)
  {
  }

  /** What a scan returns, said at once: clamp, range, budget, filter, limit. */
  function Collected(rows: Store, lower: Option<Bytes>, upper: Option<Bytes>, limit: nat, budget: nat, matches: Filter)
    : (output: Store)
  {
    Take(Select(Take(Range(rows, lower, upper), budget), matches), Min(limit, MAX_SCAN_LIMIT + 1))
  }

  /** Appends the wanted rows of a page until the limit is reached. */
  method AppendPage(output: Store, page: Store, limit: nat, matches: Filter) returns (longer: Store)
    requires |output| < limit
    ensures longer == Take(output + Select(page, matches), limit)
  {
    longer := output;
    for i := 0 to |page|
      invariant longer == output + Select(page[..i], matches) && |longer| < limit
    {
      assert page[..i + 1][..i] == page[..i];
      if Wanted(page[i], matches) {
        longer := longer + [page[i]];
        if |longer| == limit {
          assert page == page[..i + 1] + page[i + 1..];
          SelectConcat(page[..i + 1], page[i + 1..], matches);
          return;
        }
      }
    }
    assert page[..|page|] == page;
  }

  /** The page loop; its result does not show the pages. */
  method Collect(rows: Store, lower: Option<Bytes>, upper: Option<Bytes>, limit: nat, budget: nat, matches: Filter)
    returns (output: Store)
    requires Sorted(rows)
    ensures output == Collected(rows, lower, upper, limit, budget, matches)
  {
    var clamped := Min(limit, MAX_SCAN_LIMIT + 1);
    ghost var range := Range(rows, lower, upper);
    output := [];
    var cursor := lower;
    var examined := 0;
    while |output| < clamped && examined < budget
      invariant examined <= budget && Progress(range, examined, output, matches, clamped)
      invariant cursor == CursorAt(lower, range, examined)
      decreases |range| - examined
    {
      var pageSize := Min(budget - examined, PAGE);
      var page, next := ReadPage(rows, lower, upper, cursor, range, examined, pageSize);
      var exhausted := |page| < pageSize;
      if page == [] {
        break;
      }
      PageDone(range, examined, output, page, matches, clamped);
      examined := examined + |page|;
      output := AppendPage(output, page, clamped, matches);
      if exhausted {
        break;
      }
      cursor := next;
    }
    CollectDone(range, examined, output, budget, matches, clamped);
  }

  /** Where the next page starts: just above the last row examined. */
  function CursorAt(lower: Option<Bytes>, range: Store, examined: nat): (cursor: Option<Bytes>)
    requires examined <= |range|
  {
    if examined == 0 then lower else Some(range[examined - 1].key + [0])
  }

  /** One page from the cursor, and the cursor just above its last row. */
  method ReadPage(rows: Store, ghost lower: Option<Bytes>, upper: Option<Bytes>, cursor: Option<Bytes>,
                  ghost range: Store, ghost examined: nat, pageSize: nat)
    returns (page: Store, next: Option<Bytes>)
    requires Sorted(rows) && range == Range(rows, lower, upper)
    requires examined <= |range| && cursor == CursorAt(lower, range, examined)
    ensures page <= range[examined..] && examined + |page| <= |range| && |page| <= pageSize
    ensures |page| < pageSize ==> examined + |page| == |range|
    ensures page != [] ==> next == CursorAt(lower, range, examined + |page|)
  {
    if examined > 0 {
      NextPageRange(rows, lower, upper, examined);
    }
    page := ScanCf(rows, cursor, upper, pageSize);
    PageIsNext(range, examined, page, pageSize);
    next := if page == [] then cursor else Some(page[|page| - 1].key + [0]);
  }

  /** After `examined` rows the output is what they select, up to the limit. */
  ghost predicate Progress(range: Store, examined: nat, output: Store, matches: Filter, limit: nat)
  {
    examined <= |range| && output == Take(Select(range[..examined], matches), limit)
  }

  lemma PageIsNext<T>(range: seq<T>, examined: nat, page: seq<T>, pageSize: nat)
    requires examined <= |range| && page == Take(range[examined..], pageSize)
    ensures page <= range[examined..] && examined + |page| <= |range| && |page| <= pageSize
    ensures |page| < pageSize ==> examined + |page| == |range|
    ensures page != [] ==> range[examined + |page| - 1] == page[|page| - 1]
  {
  }

  lemma PageDone(range: Store, examined: nat, output: Store, page: Store, matches: Filter, limit: nat)
    requires Progress(range, examined, output, matches, limit) && |output| < limit
    requires page <= range[examined..]
    ensures Progress(range, examined + |page|, Take(output + Select(page, matches), limit), matches, limit)
  {
    SelectConcat(range[..examined], page, matches);
    TakeAllOf(Select(range[..examined], matches), limit);
    PrefixSplit(range, examined, page);
  }

  lemma TakeAllOf<T>(s: seq<T>, n: nat)
    requires |Take(s, n)| < n
    ensures Take(s, n) == s
  {
  }

  lemma PrefixSplit<T>(s: seq<T>, n: nat, part: seq<T>)
    requires n <= |s| && part <= s[n..]
    ensures s[..n] + part == s[..n + |part|]
  {
  }

  lemma CollectDone(range: Store, examined: nat, output: Store, budget: nat, matches: Filter, limit: nat)
    requires Progress(range, examined, output, matches, limit) && examined <= budget
    requires |output| < limit && examined < budget ==> examined == |range|
    ensures output == Take(Select(Take(range, budget), matches), limit)
  {
    var all := Take(range, budget);
    assert all == range[..examined] + all[examined..];
    SelectConcat(range[..examined], all[examined..], matches);
    TakeConcat(Select(range[..examined], matches), Select(all[examined..], matches), limit);
  }

  const EVERYTHING: Filter := (_, _) => true

  function Scanned(rows: Store, lower: Option<Bytes>, upper: Option<Bytes>, limit: nat): (output: Store)
  {
    Take(Select(Range(rows, lower, upper), EVERYTHING), Min(limit, MAX_SCAN_LIMIT + 1))
  }

  /** `scan`: no filter, and a budget no store can use up. */
  method Scan(rows: Store, lower: Option<Bytes>, upper: Option<Bytes>, limit: nat, usizeMax: nat) returns (output: Store)
    requires Sorted(rows) && |rows| <= usizeMax
    ensures output == Scanned(rows, lower, upper, limit)
  {
    output := Collect(rows, lower, upper, limit, usizeMax, EVERYTHING);
    RangeShorter(rows, lower, upper);
    assert Take(Range(rows, lower, upper), usizeMax) == Range(rows, lower, upper);
  }

  lemma RangeShorter(rows: Store, lower: Option<Bytes>, upper: Option<Bytes>)
    ensures |Range(rows, lower, upper)| <= |rows|
  {
    if lower.Some? {
      DropShorter(rows, lower.value);
    }
    if upper.Some? {
      TakeShorter(if lower.Some? then DropBelow(rows, lower.value) else rows, upper.value);
    }
  }

  lemma {:induction false} DropShorter(rows: Store, lower: Bytes)
    ensures |DropBelow(rows, lower)| <= |rows|
  {
    if rows != [] && Less(rows[0].key, lower) {
      DropShorter(rows[1..], lower);
    }
  }

  lemma {:induction false} TakeShorter(rows: Store, upper: Bytes)
    ensures |TakeBelow(rows, upper)| <= |rows|
  {
    if rows != [] && Less(rows[0].key, upper) {
      TakeShorter(rows[1..], upper);
    }
  }

  method ScanMatching(rows: Store, lower: Option<Bytes>, upper: Option<Bytes>, limit: nat, matches: Filter) returns (output: Store)
    requires Sorted(rows)
    ensures output == Take(Select(Take(Range(rows, lower, upper), 10_000), matches), Min(limit, 100))
  {
    output := Collect(rows, lower, upper, Min(limit, 100), 10_000, matches);
  }

  // ---------------------------------------------------------------------------
  // Prefix listings with cursors
  // ---------------------------------------------------------------------------

  /** Every public row of a prefix's range. */
  function Listing(rows: Store, prefix: Bytes): (listing: Store)
  {
    Select(Range(rows, Some(prefix), PrefixEnd(prefix)), EVERYTHING)
  }

  /** The lower bound of a page: just above the cursor, and never below the prefix. */
  function LowerBound(prefix: Bytes, cursor: Option<Bytes>): (lower: Bytes)
  {
    if cursor.Some? && Less(prefix, cursor.value + [0]) then cursor.value + [0] else prefix
  }

  /** The public rows of the prefix's range above the cursor. */
  function Remaining(rows: Store, prefix: Bytes, cursor: Option<Bytes>): (rest: Store)
  {
    Select(Range(rows, Some(LowerBound(prefix, cursor)), PrefixEnd(prefix)), EVERYTHING)
  }

  /**
   * One page of a prefix listing. Reading one row more than the limit tells
   * whether a next page exists; `lossy` is the UTF-8 conversion of the cursor.
   */
  method Prefix(rows: Store, prefix: Bytes, cursor: Option<Bytes>, limit: nat, lossy: Bytes -> Bytes, usizeMax: nat)
    returns (page: Store, next: Option<Bytes>)
    requires Sorted(rows) && |rows| <= usizeMax
    ensures page == Take(Remaining(rows, prefix, cursor), Min(limit, MAX_SCAN_LIMIT))
    ensures next.Some? <==> 0 < Min(limit, MAX_SCAN_LIMIT) < |Remaining(rows, prefix, cursor)|
    ensures next.Some? ==> page != [] && next.value == lossy(page[|page| - 1].key)
  {
    var clamped := Min(limit, MAX_SCAN_LIMIT);
    var lower := prefix;
    if cursor.Some? {
      var after := cursor.value + [0];
      lower := if Less(prefix, after) then after else prefix;
    }
    var upper := PrefixEnd(prefix);
    var found := Scan(rows, Some(lower), upper, clamped + 1, usizeMax);
    var more := |found| > clamped;
    page := Take(found, clamped);
    next := if more && page != [] then Some(lossy(page[|page| - 1].key)) else None;
  }

  /** The listing of a string prefix holds each public key with the prefix, once and in order. */
  lemma ListingIsComplete(rows: Store, prefix: Bytes)
    requires Sorted(rows) && IsUtf8(prefix)
    ensures Sorted(Listing(rows, prefix))
    ensures forall row :: row in Listing(rows, prefix) <==> row in rows && prefix <= row.key && !IsReserved(row.key)
  {
    ListingRows(rows, prefix);
    StringPrefixIsBounded(prefix);
    forall row: Row<Bytes>
      ensures row in Listing(rows, prefix) <==> row in rows && prefix <= row.key && !IsReserved(row.key)
    {
      assert InRange(row.key, Some(prefix), PrefixEnd(prefix)) <==> prefix <= row.key;
    }
  }

  lemma ListingRows(rows: Store, prefix: Bytes)
    requires Sorted(rows)
    ensures Sorted(Listing(rows, prefix))
    ensures forall row :: row in Listing(rows, prefix) <==>
              row in rows && InRange(row.key, Some(prefix), PrefixEnd(prefix)) && !IsReserved(row.key)
  {
    RangeSorted(rows, Some(prefix), PrefixEnd(prefix));
    SelectRows(Range(rows, Some(prefix), PrefixEnd(prefix)), EVERYTHING);
  }

  // ---------------------------------------------------------------------------
  // A client that follows cursors
  // ---------------------------------------------------------------------------

  function Joined(pages: seq<Store>): (all: Store)
  {
    if pages == [] then [] else Joined(pages[..|pages| - 1]) + pages[|pages| - 1]
  }

  lemma JoinedSnoc(pages: seq<Store>, page: Store)
    ensures Joined(pages + [page]) == Joined(pages) + page
  {
    assert (pages + [page])[..|pages|] == pages;
  }

  datatype Follow = Follow(pages: seq<Store>, cursor: Option<Bytes>, halted: bool)

  /** One request: a page, and the converted last key as the next cursor if more rows follow. */
  ghost function FollowStep(rows: Store, prefix: Bytes, limit: nat, lossy: Bytes -> Bytes, state: Follow): (next: Follow)
  {
    if state.halted then state
    else
      var rest, size := Remaining(rows, prefix, state.cursor), Min(limit, MAX_SCAN_LIMIT);
      var page := Take(rest, size);
      if 0 < size < |rest| then Follow(state.pages + [page], Some(lossy(page[size - 1].key)), false)
      else Follow(state.pages + [page], None, true)
  }

  /** The client's state after `k` requests. */
  ghost function FollowRun(rows: Store, prefix: Bytes, limit: nat, lossy: Bytes -> Bytes, k: nat): (state: Follow)
  {
    if k == 0 then Follow([], None, false)
    else FollowStep(rows, prefix, limit, lossy, FollowRun(rows, prefix, limit, lossy, k - 1))
  }

  lemma {:induction false} FollowStays(rows: Store, prefix: Bytes, limit: nat, lossy: Bytes -> Bytes, k: nat, later: nat)
    requires k <= later && FollowRun(rows, prefix, limit, lossy, k).halted
    ensures FollowRun(rows, prefix, limit, lossy, later) == FollowRun(rows, prefix, limit, lossy, k)
  {
    if k < later {
      FollowStays(rows, prefix, limit, lossy, k, later - 1);
    }
  }

  ghost predicate FollowReaches(rows: Store, prefix: Bytes, limit: nat, lossy: Bytes -> Bytes, i: nat, state: Follow)
  {
    FollowRun(rows, prefix, limit, lossy, i) == state
  }

  /** A run that is to stop after `k` requests makes another one before that. */
  lemma FollowAdvances(rows: Store, prefix: Bytes, limit: nat, lossy: Bytes -> Bytes, i: nat, k: nat,
                       state: Follow, next: Follow)
    requires i <= k && FollowReaches(rows, prefix, limit, lossy, i, state) && !state.halted
    requires FollowRun(rows, prefix, limit, lossy, k).halted && next == FollowStep(rows, prefix, limit, lossy, state)
    ensures i < k && FollowReaches(rows, prefix, limit, lossy, i + 1, next)
    ensures next.halted ==> FollowRun(rows, prefix, limit, lossy, k) == next
  {
    assert FollowRun(rows, prefix, limit, lossy, i + 1) == next;
    if next.halted {
      FollowStays(rows, prefix, limit, lossy, i + 1, k);
    }
  }

  lemma {:induction false} PagesWithinLimit(rows: Store, prefix: Bytes, limit: nat, lossy: Bytes -> Bytes, k: nat)
    ensures forall page :: page in FollowRun(rows, prefix, limit, lossy, k).pages ==> |page| <= limit
  {
    if k > 0 {
      PagesWithinLimit(rows, prefix, limit, lossy, k - 1);
    }
  }

  method FetchPage(rows: Store, prefix: Bytes, limit: nat, lossy: Bytes -> Bytes, usizeMax: nat,
                   pages: seq<Store>, cursor: Option<Bytes>)
    returns (more: seq<Store>, next: Option<Bytes>)
    requires Sorted(rows) && |rows| <= usizeMax
    ensures Follow(more, next, next.None?) == FollowStep(rows, prefix, limit, lossy, Follow(pages, cursor, false))
  {
    var page;
    page, next := Prefix(rows, prefix, cursor, limit, lossy, usizeMax);
    more := pages + [page];
  }

  /** A client that follows cursors until there is none; whenever it stops, these are its pages. */
  method FollowCursors(rows: Store, prefix: Bytes, limit: nat, lossy: Bytes -> Bytes, usizeMax: nat, ghost k: nat)
    returns (pages: seq<Store>)
    requires Sorted(rows) && |rows| <= usizeMax && FollowRun(rows, prefix, limit, lossy, k).halted
    ensures pages == FollowRun(rows, prefix, limit, lossy, k).pages
    ensures forall page :: page in pages ==> |page| <= limit
  {
    PagesWithinLimit(rows, prefix, limit, lossy, k);
    var cursor: Option<Bytes> := None;
    pages := [];
    ghost var i := 0;
    while true
      invariant i <= k && FollowReaches(rows, prefix, limit, lossy, i, Follow(pages, cursor, false))
      decreases k - i
    {
      var more, next := FetchPage(rows, prefix, limit, lossy, usizeMax, pages, cursor);
      FollowAdvances(rows, prefix, limit, lossy, i, k, Follow(pages, cursor, false), Follow(more, next, next.None?));
      pages, cursor, i := more, next, i + 1;
      if cursor.None? {
        break;
      }
    }
  }

  // ---------------------------------------------------------------------------
  // When following cursors lists everything
  // ---------------------------------------------------------------------------

  /** The position from which a scan with this lower bound reads. */
  function StartOf(rows: Store, bound: Bytes): (at: nat)
    ensures at <= |rows| && DropBelow(rows, bound) == rows[at..]
    decreases |rows|
  {
    if rows != [] && Less(rows[0].key, bound) then
      var at := StartOf(rows[1..], bound);
      assert rows[1..][at..] == rows[at + 1..];
      at + 1
    else 0
  }

  lemma SortedIsDistinct(rows: Store)
    requires Sorted(rows)
    ensures Distinct(rows)
  {
    forall i, j | 0 <= i < j < |rows| ensures rows[i] != rows[j] {
      LessIrreflexive(rows[i].key);
    }
  }

  lemma {:induction false} SameSortedRows(a: Store, b: Store)
    requires Sorted(a) && Sorted(b) && forall row :: row in a <==> row in b
    ensures a == b
  {
    assert a != [] ==> a[0] in b;
    assert b != [] ==> b[0] in a;
    if a != [] && b != [] {
      HeadsAgree(a, b);
      TailRows(a);
      TailRows(b);
      SameSortedRows(a[1..], b[1..]);
      assert a == [a[0]] + a[1..] && b == [b[0]] + b[1..];
    }
  }

  lemma HeadsAgree(a: Store, b: Store)
    requires Sorted(a) && Sorted(b) && a != [] && b != [] && a[0] in b && b[0] in a
    ensures a[0] == b[0]
  {
    var i :| 0 <= i < |b| && b[i] == a[0];
    var j :| 0 <= j < |a| && a[j] == b[0];
    if i > 0 && j > 0 {
      LessAsymmetric(b[0].key, a[0].key);
    }
  }

  lemma TailRows(rows: Store)
    requires Sorted(rows) && rows != []
    ensures forall row :: row in rows[1..] <==> row in rows && row != rows[0]
  {
    assert rows == [rows[0]] + rows[1..];
    forall row | row in rows[1..] ensures row != rows[0] {
      var i :| 0 <= i < |rows[1..]| && rows[1..][i] == row;
      LessIrreflexive(rows[0].key);
    }
  }

  /** What remains after a cursor is the listing from the cursor's bound on. */
  lemma RemainingIsSuffix(rows: Store, prefix: Bytes, cursor: Option<Bytes>)
    requires Sorted(rows)
    ensures Remaining(rows, prefix, cursor) == DropBelow(Listing(rows, prefix), LowerBound(prefix, cursor))
  {
    var lower, upper := LowerBound(prefix, cursor), PrefixEnd(prefix);
    ListingRows(rows, prefix);
    DropBelowRows(Listing(rows, prefix), lower);
    RangeSorted(rows, Some(lower), upper);
    SelectRows(Range(rows, Some(lower), upper), EVERYTHING);
    forall key: Bytes | !Less(key, lower) ensures !Less(key, prefix) {
      if lower != prefix && Less(key, prefix) {
        LessTransitive(key, prefix, lower);
      }
    }
    SameSortedRows(Remaining(rows, prefix, cursor), DropBelow(Listing(rows, prefix), lower));
  }

  /** A row lies below the bound of a cursor iff it is at most the cursor. */
  lemma BelowBoundIff(prefix: Bytes, cursor: Bytes, key: Bytes)
    requires !Less(key, prefix)
    ensures Less(key, LowerBound(prefix, Some(cursor))) <==> AtMost(key, cursor)
  {
    var after := cursor + [0];
    ZeroExtensionIsSuccessor(cursor, key);
    LessTotal(key, cursor);
    LessTotal(key, after);
    LessTotal(prefix, after);
    LessIrreflexive(key);
    if Less(key, cursor) {
      LessAsymmetric(key, cursor);
    }
    if Less(key, after) {
      LessAsymmetric(key, after);
    }
    if Less(after, prefix) {
      LessTotal(prefix, key);
      if prefix != key {
        LessTransitive(after, prefix, key);
      }
    }
  }

  /** The client after `n` listed rows resumes at row `n` iff the cursor lies between its neighbours. */
  ghost predicate CursorBetween(listing: Store, n: nat, lossy: Bytes -> Bytes)
    requires 0 < n < |listing|
  {
    var cursor := lossy(listing[n - 1].key);
    AtMost(listing[n - 1].key, cursor) && Less(cursor, listing[n].key)
  }

  function CursorResume(listing: Store, prefix: Bytes, lossy: Bytes -> Bytes, n: nat): (at: nat)
    requires n <= |listing|
    ensures at <= |listing|
  {
    if n == 0 then 0 else StartOf(listing, LowerBound(prefix, Some(lossy(listing[n - 1].key))))
  }

  lemma {:induction false} StartOfIff(rows: Store, bound: Bytes, n: nat)
    requires Sorted(rows) && n <= |rows|
    ensures StartOf(rows, bound) == n <==>
            (n > 0 ==> Less(rows[n - 1].key, bound)) && (n < |rows| ==> !Less(rows[n].key, bound))
    decreases |rows|
  {
    if rows != [] {
      if Less(rows[0].key, bound) {
        if n > 0 {
          StartOfIff(rows[1..], bound, n - 1);
        }
      } else if n > 0 && Less(rows[n - 1].key, bound) && n > 1 {
        LessTransitive(rows[0].key, rows[n - 1].key, bound);
      }
    }
  }

  lemma SuffixFrom<T>(s: seq<T>, i: nat, j: nat)
    requires i <= |s| && j <= |s|
    ensures s[i..] == s[j..] <==> i == j
  {
    assert |s[i..]| == |s| - i && |s[j..]| == |s| - j;
  }

  /** The request with the cursor given after `n` rows goes on with row `n` iff the cursor lies between. */
  lemma CursorResumesIff(rows: Store, prefix: Bytes, lossy: Bytes -> Bytes, n: nat)
    requires Sorted(rows) && 0 < n < |Listing(rows, prefix)|
    ensures CursorResume(Listing(rows, prefix), prefix, lossy, n) == n <==> CursorBetween(Listing(rows, prefix), n, lossy)
    ensures var listing := Listing(rows, prefix);
            Remaining(rows, prefix, Some(lossy(listing[n - 1].key))) == listing[n..] <==> CursorBetween(listing, n, lossy)
  {
    var listing := Listing(rows, prefix);
    ListingRows(rows, prefix);
    var cursor := lossy(listing[n - 1].key);
    assert listing[n - 1] in listing && listing[n] in listing;
    BelowBoundIff(prefix, cursor, listing[n - 1].key);
    BelowBoundIff(prefix, cursor, listing[n].key);
    StartOfIff(listing, LowerBound(prefix, Some(cursor)), n);
    RemainingIsSuffix(rows, prefix, Some(cursor));
    SuffixFrom(listing, CursorResume(listing, prefix, lossy, n), n);
    LessTotal(cursor, listing[n].key);
    if Less(cursor, listing[n].key) {
      LessAsymmetric(cursor, listing[n].key);
    }
  }

  ghost function CursorReader(listing: Store, prefix: Bytes, limit: nat, lossy: Bytes -> Bytes): (reader: Reader)
    requires limit > 0
    ensures reader.Fits(|listing|) && reader.size == reader.slack == Min(limit, MAX_SCAN_LIMIT)
    ensures forall n: nat :: n <= |listing| ==> reader.jumps[n] == CursorResume(listing, prefix, lossy, n)
  {
    var size := Min(limit, MAX_SCAN_LIMIT);
    Reader(size, size,
           seq(|listing| + 1, n requires 0 <= n <= |listing| => CursorResume(listing, prefix, lossy, n)))
  }

  /** The client's requests walk through the listing. */
  ghost predicate FollowsAt(rows: Store, prefix: Bytes, state: Follow, walk: Walk<Row<Bytes>>)
  {
    && Joined(state.pages) == walk.visited && state.halted == walk.halted && walk.at <= |Listing(rows, prefix)|
    && (!state.halted ==> Remaining(rows, prefix, state.cursor) == Listing(rows, prefix)[walk.at..])
  }

  lemma FollowsStart(rows: Store, prefix: Bytes)
    ensures FollowsAt(rows, prefix, Follow([], None, false), Walk([], 0, false))
  {
    assert Listing(rows, prefix)[0..] == Listing(rows, prefix);
  }

  lemma FollowPage(rows: Store, prefix: Bytes, limit: nat, lossy: Bytes -> Bytes, listing: Store, reader: Reader,
                   state: Follow, walk: Walk<Row<Bytes>>)
    requires Sorted(rows) && limit > 0 && listing == Listing(rows, prefix)
    requires reader == CursorReader(listing, prefix, limit, lossy) && FollowsAt(rows, prefix, state, walk)
    ensures FollowsAt(rows, prefix, FollowStep(rows, prefix, limit, lossy, state), Step(listing, reader, walk))
  {
    if !state.halted {
      var size := reader.size;
      var page := Page(listing, walk.at, size);
      assert Take(listing[walk.at..], size) == page;
      JoinedSnoc(state.pages, page);
      if size < |listing| - walk.at {
        var end := walk.at + size;
        assert page[size - 1] == listing[end - 1];
        assert reader.jumps[end] == CursorResume(listing, prefix, lossy, end);
        RemainingIsSuffix(rows, prefix, Some(lossy(listing[end - 1].key)));
      }
    }
  }

  lemma {:induction false} FollowIsPaging(rows: Store, prefix: Bytes, limit: nat, lossy: Bytes -> Bytes,
                                          listing: Store, reader: Reader, k: nat)
    requires Sorted(rows) && limit > 0 && listing == Listing(rows, prefix)
    requires reader == CursorReader(listing, prefix, limit, lossy)
    ensures FollowsAt(rows, prefix, FollowRun(rows, prefix, limit, lossy, k), Run(listing, reader, k))
  {
    FollowsStart(rows, prefix);
    ghost var state: Follow, walk: Walk<Row<Bytes>> := Follow([], None, false), Walk([], 0, false);
    for i := 0 to k
      invariant state == FollowRun(rows, prefix, limit, lossy, i) && walk == Run(listing, reader, i)
      invariant FollowsAt(rows, prefix, state, walk)
    {
      FollowPage(rows, prefix, limit, lossy, listing, reader, state, walk);
      state, walk := FollowStep(rows, prefix, limit, lossy, state), Step(listing, reader, walk);
    }
  }

  predicate FollowFinished(state: Follow, listing: Store)
  {
    state.halted && Joined(state.pages) == listing
  }

  /** After some number of requests the client has no cursor left and has seen each listed row once, in order. */
  ghost predicate FollowCompletes(rows: Store, prefix: Bytes, limit: nat, lossy: Bytes -> Bytes)
  {
    exists k: nat :: FollowFinished(FollowRun(rows, prefix, limit, lossy, k), Listing(rows, prefix))
  }

  /** A cursor handed out after `n` rows that does not lead to the next one. */
  ghost predicate CursorBreaks(listing: Store, limit: nat, lossy: Bytes -> Bytes, n: nat)
    requires limit > 0
  {
    0 < n < |listing| && IsMultiple(n, Min(limit, MAX_SCAN_LIMIT)) && !CursorBetween(listing, n, lossy)
  }

  /** For any conversion of cursors: the client sees the whole listing iff every cursor it gets leads on. */
  lemma FollowCompleteIff(rows: Store, prefix: Bytes, limit: nat, lossy: Bytes -> Bytes)
    requires Sorted(rows) && limit > 0
    ensures FollowCompletes(rows, prefix, limit, lossy) <==>
            forall n: nat :: !CursorBreaks(Listing(rows, prefix), limit, lossy, n)
  {
    var listing := Listing(rows, prefix);
    var reader := CursorReader(listing, prefix, limit, lossy);
    ListingRows(rows, prefix);
    SortedIsDistinct(listing);
    CompleteIff(listing, reader);
    forall k: nat
      ensures FollowFinished(FollowRun(rows, prefix, limit, lossy, k), listing) <==> Finished(Run(listing, reader, k), listing)
    {
      FollowIsPaging(rows, prefix, limit, lossy, listing, reader, k);
    }
    SameFollowing(rows, prefix, limit, lossy, listing, reader);
    forall n: nat
      ensures CursorBreaks(listing, limit, lossy, n) <==> reader.Boundary(|listing|, n) && reader.jumps[n] != n
    {
      if 0 < n < |listing| {
        CursorResumesIff(rows, prefix, lossy, n);
        assert reader.jumps[n] == CursorResume(listing, prefix, lossy, n);
      }
    }
  }

  lemma SameFollowing(rows: Store, prefix: Bytes, limit: nat, lossy: Bytes -> Bytes, listing: Store, reader: Reader)
    requires listing == Listing(rows, prefix) && reader.Fits(|listing|)
    requires forall k: nat :: FollowFinished(FollowRun(rows, prefix, limit, lossy, k), listing)
                              <==> Finished(Run(listing, reader, k), listing)
    ensures FollowCompletes(rows, prefix, limit, lossy) <==> Completes(listing, reader)
  {
    if FollowCompletes(rows, prefix, limit, lossy) {
      var k: nat :| FollowFinished(FollowRun(rows, prefix, limit, lossy, k), listing);
      assert Finished(Run(listing, reader, k), listing);
    }
    if Completes(listing, reader) {
      var k: nat :| Finished(Run(listing, reader, k), listing);
      assert FollowFinished(FollowRun(rows, prefix, limit, lossy, k), listing);
    }
  }

  /** With a limit of zero the client gets one empty page and no cursor. */
  lemma ZeroLimitSeesNothing(rows: Store, prefix: Bytes, lossy: Bytes -> Bytes)
    ensures FollowRun(rows, prefix, 0, lossy, 1) == Follow([[]], None, true)
  {
    assert FollowRun(rows, prefix, 0, lossy, 0) == Follow([], None, false);
    assert Take(Remaining(rows, prefix, None), 0) == [];
  }

  /** `String::from_utf8_lossy` leaves strings alone. */
  ghost predicate KeepsStrings(lossy: Bytes -> Bytes)
  {
    forall key :: IsUtf8(key) ==> lossy(key) == key
  }

  /** With UTF-8 keys the client sees each public key with the prefix exactly once, in order. */
  lemma StringKeysAreListed(rows: Store, prefix: Bytes, limit: nat, lossy: Bytes -> Bytes) returns (k: nat)
    requires Sorted(rows) && limit > 0 && IsUtf8(prefix) && KeepsStrings(lossy)
    requires forall row :: row in rows ==> IsUtf8(row.key)
    ensures FollowRun(rows, prefix, limit, lossy, k).halted
    ensures var seen := Joined(FollowRun(rows, prefix, limit, lossy, k).pages);
            Sorted(seen) && forall row :: row in seen <==> row in rows && prefix <= row.key && !IsReserved(row.key)
  {
    var listing := Listing(rows, prefix);
    ListingIsComplete(rows, prefix);
    forall n: nat ensures !CursorBreaks(listing, limit, lossy, n) {
      if 0 < n < |listing| {
        assert listing[n - 1] in listing;
        assert lossy(listing[n - 1].key) == listing[n - 1].key;
      }
    }
    FollowCompleteIff(rows, prefix, limit, lossy);
    k :| FollowFinished(FollowRun(rows, prefix, limit, lossy, k), listing);
  }

  const REPLACEMENT: Bytes := [0xEF, 0xBF, 0xBD]  // U+FFFD, which stands for bytes that are not UTF-8

  /** Keys that are not UTF-8 can be skipped: the cursor for 0x80 lies above 0x81. */
  lemma LossyCursorSkips(lossy: Bytes -> Bytes)
    requires lossy([0x80]) == REPLACEMENT
    ensures var rows: Store := [Row([0x80], []), Row([0x81], [])];
            Sorted(rows) && !FollowCompletes(rows, [], 1, lossy)
  {
    var rows: Store := [Row([0x80], []), Row([0x81], [])];
    assert Less([0x80], [0x81]);
    ListingRows(rows, []);
    assert forall row :: row in rows ==> !IsReserved(row.key);
    SameSortedRows(Listing(rows, []), rows);
    FollowCompleteIff(rows, [], 1, lossy);
    assert !CursorBetween(rows, 1, lossy) by {
      LessAsymmetric(rows[1].key, REPLACEMENT);
    }
    assert CursorBreaks(Listing(rows, []), 1, lossy, 1);
  }
}
