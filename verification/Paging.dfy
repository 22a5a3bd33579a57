/**
 * Reading a list in pages. After a page that ends just before position `n` the
 * reader resumes at position `jumps[n]`; it stops at a page with at most `slack`
 * rows left. Nothing says that the reader moves forward, or stops at all.
 */
module Paging {
  datatype Walk<+T> = Walk(visited: seq<T>, at: nat, halted: bool)

  /** `n` is a positive multiple of `m`. */
  predicate IsMultiple(n: nat, m: nat)
    requires m > 0
    decreases n
  {
    n == m || (n > m && IsMultiple(n - m, m))
  }

  /** How a reader goes through `total` rows; a full last page may or may not be followed by an empty one. */
  datatype Reader = Reader(size: nat, slack: nat, jumps: seq<nat>)
  {
    ghost predicate Fits(total: nat)
    {
      && size > 0 && (slack == size - 1 || slack == size)
      && |jumps| == total + 1 && forall n: nat :: n <= total ==> jumps[n] <= total
    }

    /** The reader comes to the end of a full page at `n` if every earlier page continued. */
    predicate Boundary(total: nat, n: nat)
      requires size > 0
    {
      size <= n <= total && IsMultiple(n, size) && total - (n - size) > slack
    }

    ghost predicate Continues(total: nat)
      requires Fits(total)
    {
      forall n: nat :: Boundary(total, n) ==> jumps[n] == n
    }
  }

  function Page<T>(rows: seq<T>, at: nat, size: nat): (page: seq<T>)
    requires at <= |rows|
  {
    if |rows| - at <= size then rows[at..] else rows[at..at + size]
  }

  /** One page. */
  ghost function Step<T>(rows: seq<T>, reader: Reader, walk: Walk<T>): (next: Walk<T>)
    requires reader.Fits(|rows|) && walk.at <= |rows|
    ensures next.at <= |rows|
  {
    if walk.halted then walk
    else
      var visited := walk.visited + Page(rows, walk.at, reader.size);
      if |rows| - walk.at <= reader.slack then Walk(visited, walk.at, true)
      else Walk(visited, reader.jumps[walk.at + reader.size], false)
  }

  /** The state after `k` pages. */
  ghost function Run<T>(rows: seq<T>, reader: Reader, k: nat): (walk: Walk<T>)
    requires reader.Fits(|rows|)
    ensures walk.at <= |rows|
  {
    if k == 0 then Walk([], 0, false) else Step(rows, reader, Run(rows, reader, k - 1))
  }

  lemma {:induction false} RunExtends<T>(rows: seq<T>, reader: Reader, k: nat, later: nat)
    requires reader.Fits(|rows|) && k <= later
    ensures Run(rows, reader, k).visited <= Run(rows, reader, later).visited
    ensures Run(rows, reader, k).halted ==> Run(rows, reader, later) == Run(rows, reader, k)
  {
    if k < later {
      RunExtends(rows, reader, k, later - 1);
    }
  }

  lemma PageExtends<T>(rows: seq<T>, n: nat, size: nat)
    requires n <= |rows|
    ensures rows[..n] + Page(rows, n, size) == if |rows| - n <= size then rows else rows[..n + size]
  {
  }

  /** One more page after reading exactly the first `n` rows. */
  lemma NextPage<T>(rows: seq<T>, reader: Reader, n: nat, k: nat)
    requires reader.Fits(|rows|) && n <= |rows| && Run(rows, reader, k) == Walk(rows[..n], n, false)
    ensures Run(rows, reader, k + 1)
            == if |rows| - n <= reader.slack then Walk(rows, n, true)
               else Walk(rows[..n + reader.size], reader.jumps[n + reader.size], false)
  {
    PageExtends(rows, n, reader.size);
    assert |rows| - n == reader.size ==> rows[..n + reader.size] == rows;
  }

  /** Where every boundary so far continued, the reader has read exactly the rows before it. */
  lemma {:induction false} ReachBoundary<T>(rows: seq<T>, reader: Reader, n: nat) returns (k: nat)
    requires reader.Fits(|rows|) && reader.Boundary(|rows|, n)
    requires forall m: nat :: m < n && reader.Boundary(|rows|, m) ==> reader.jumps[m] == m
    ensures Run(rows, reader, k) == Walk(rows[..n], reader.jumps[n], false)
  {
    var start, before := n - reader.size, 0;
    if start > 0 {
      assert IsMultiple(start, reader.size);
      assert reader.Boundary(|rows|, start);
      before := ReachBoundary(rows, reader, start);
    }
    NextPage(rows, reader, start, before);
    k := before + 1;
  }

  /** If every boundary continues, the reader stops having read everything. */
  lemma {:induction false} ContinuingHalts<T>(rows: seq<T>, reader: Reader, n: nat, k: nat) returns (last: nat)
    requires reader.Fits(|rows|) && reader.Continues(|rows|)
    requires n <= |rows| && (n == 0 || IsMultiple(n, reader.size))
    requires Run(rows, reader, k) == Walk(rows[..n], n, false)
    ensures Run(rows, reader, last) == Walk(rows, Run(rows, reader, last).at, true)
    decreases |rows| - n
  {
    NextPage(rows, reader, n, k);
    if |rows| - n <= reader.slack {
      last := k + 1;
    } else {
      var end := n + reader.size;
      assert IsMultiple(end, reader.size);
      assert reader.Boundary(|rows|, end);
      last := ContinuingHalts(rows, reader, end, k + 1);
    }
  }

  lemma {:induction false} FirstBreak<T>(rows: seq<T>, reader: Reader, n: nat) returns (first: nat)
    requires reader.Fits(|rows|) && reader.Boundary(|rows|, n) && reader.jumps[n] != n
    ensures reader.Boundary(|rows|, first) && reader.jumps[first] != first
    ensures forall m: nat :: m < first && reader.Boundary(|rows|, m) ==> reader.jumps[m] == m
    decreases n
  {
    if m: nat :| m < n && reader.Boundary(|rows|, m) && reader.jumps[m] != m {
      first := FirstBreak(rows, reader, m);
    } else {
      first := n;
    }
  }

  ghost predicate Distinct<T>(rows: seq<T>)
  {
    forall i, j :: 0 <= i < j < |rows| ==> rows[i] != rows[j]
  }

  /** Once a boundary went wrong, the reader cannot stop having read each row once. */
  lemma BrokenNeverCompletes<T>(rows: seq<T>, reader: Reader, n: nat, k: nat, last: nat)
    requires reader.Fits(|rows|) && Distinct(rows) && n <= |rows|
    requires Run(rows, reader, k).visited == rows[..n] && !Run(rows, reader, k).halted
    requires Run(rows, reader, k).at != n && Run(rows, reader, last).halted
    ensures Run(rows, reader, last).visited != rows
  {
    if last <= k {
      RunExtends(rows, reader, last, k);
    } else {
      RunExtends(rows, reader, k + 1, last);
      OffPage(rows, n, Run(rows, reader, k).at, reader.size, Run(rows, reader, last).visited);
    }
  }

  lemma OffPage<T>(rows: seq<T>, n: nat, m: nat, size: nat, visited: seq<T>)
    requires Distinct(rows) && n <= |rows| && m <= |rows| && m != n && size > 0
    requires rows[..n] + Page(rows, m, size) <= visited
    requires m == |rows| ==> visited == rows[..n] + Page(rows, m, size)
    ensures visited != rows
  {
    if m < |rows| {
      assert (rows[..n] + Page(rows, m, size))[n] == rows[m];
    }
  }

  /** After some number of pages the reader stops, having read each row once and in order. */
  ghost predicate Completes<T(!new)>(rows: seq<T>, reader: Reader)
    requires reader.Fits(|rows|)
  {
    exists k: nat :: Finished(Run(rows, reader, k), rows)
  }

  predicate Finished<T(==)>(walk: Walk<T>, rows: seq<T>)
  {
    walk.halted && walk.visited == rows
  }

  /** The reader completes iff every boundary continues where it ended. */
  lemma CompleteIff<T(!new)>(rows: seq<T>, reader: Reader)
    requires reader.Fits(|rows|) && Distinct(rows)
    ensures Completes(rows, reader) <==> reader.Continues(|rows|)
  {
    if reader.Continues(|rows|) {
      var last := ContinuingHalts(rows, reader, 0, 0);
      assert Finished(Run(rows, reader, last), rows);
    } else {
      var n: nat :| reader.Boundary(|rows|, n) && reader.jumps[n] != n;
      var first := FirstBreak(rows, reader, n);
      var k := ReachBoundary(rows, reader, first);
      forall last: nat ensures !Finished(Run(rows, reader, last), rows) {
        if Run(rows, reader, last).halted {
          BrokenNeverCompletes(rows, reader, first, k, last);
        }
      }
    }
  }
}
