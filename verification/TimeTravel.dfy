/**
 * Time travel: a bounded in-memory list of snapshots, mirrored as one file per
 * timestamp, that answers queries about the past and can be rebuilt from the files.
 */
module TimeTravel {
  import opened Options
  import opened Bytes

  datatype Snapshot = Snapshot(timestamp: nat, data: map<Bytes, Bytes>, name: string)

  // ---------------------------------------------------------------------------
  // Sequences ordered by a key
  // ---------------------------------------------------------------------------

  function Last<T>(s: seq<T>, n: nat): (tail: seq<T>)
  {
    if |s| <= n then s else s[|s| - n..]
  }

  ghost predicate Suffix<T>(tail: seq<T>, s: seq<T>)
  {
    |tail| <= |s| && tail == s[|s| - |tail|..]
  }

  lemma SuffixAt<T>(tail: seq<T>, s: seq<T>, j: nat)
    requires Suffix(tail, s) && j < |tail|
    ensures tail[j] == s[|s| - |tail| + j]
  {
  }

  lemma LastIsSuffix<T>(s: seq<T>, n: nat)
    ensures Suffix(Last(s, n), s) && |Last(s, n)| <= n
  {
  }

  lemma SuffixOfSuffix<T>(a: seq<T>, b: seq<T>, c: seq<T>)
    requires Suffix(a, b) && Suffix(b, c)
    ensures Suffix(a, c)
  {
    assert b[|b| - |a|..] == c[|c| - |b|..][|b| - |a|..] == c[|c| - |a|..];
  }

  lemma PushSuffix<T>(tail: seq<T>, s: seq<T>, x: T)
    requires Suffix(tail, s)
    ensures Suffix(tail + [x], s + [x])
  {
    assert (s + [x])[|s| - |tail|..] == s[|s| - |tail|..] + [x];
  }

  /** The longest suffix within a length is determined by any longer suffix. */
  lemma LastOfSuffix<T>(tail: seq<T>, s: seq<T>, n: nat)
    requires Suffix(tail, s) && (|tail| >= n || tail == s)
    ensures Last(tail, n) == Last(s, n)
  {
  }

  function StampOf(s: Snapshot): nat { s.timestamp }

  function Itself(n: nat): nat { n }

  ghost predicate Strict<T>(s: seq<T>, key: T -> nat)
  {
    forall i, j :: 0 <= i < j < |s| ==> key(s[i]) < key(s[j])
  }

  ghost predicate DistinctKeys<T>(s: seq<T>, key: T -> nat)
  {
    forall i, j :: 0 <= i < j < |s| ==> key(s[i]) != key(s[j])
  }

  ghost predicate SameElements<T(!new)>(a: seq<T>, b: seq<T>)
  {
    forall x :: x in a <==> x in b
  }

  /** Insertion after the elements with a key at most its own. */
  function InsertBy<T>(s: seq<T>, x: T, key: T -> nat): (r: seq<T>)
  {
    if s == [] || key(s[|s| - 1]) <= key(x) then s + [x]
    else InsertBy(s[..|s| - 1], x, key) + [s[|s| - 1]]
  }

  /** A stable sort. */
  function SortBy<T>(s: seq<T>, key: T -> nat): (r: seq<T>)
  {
    if s == [] then [] else InsertBy(SortBy(s[..|s| - 1], key), s[|s| - 1], key)
  }

  lemma {:induction false} InsertKeeps<T(!new)>(s: seq<T>, x: T, key: T -> nat)
    requires Strict(s, key) && forall i :: 0 <= i < |s| ==> key(s[i]) != key(x)
    ensures Strict(InsertBy(s, x, key), key)
    ensures forall y :: y in InsertBy(s, x, key) <==> y in s || y == x
  {
    if s != [] && key(s[|s| - 1]) > key(x) {
      var init, last := s[..|s| - 1], s[|s| - 1];
      assert s == init + [last];
      InsertKeeps(init, x, key);
      var inner := InsertBy(init, x, key);
      forall i | 0 <= i < |inner| ensures key(inner[i]) < key(last) {
        assert inner[i] in inner;
        assert inner[i] in init || inner[i] == x;
      }
    }
  }

  lemma {:induction false} SortDistinct<T(!new)>(s: seq<T>, key: T -> nat)
    requires DistinctKeys(s, key)
    ensures Strict(SortBy(s, key), key) && SameElements(SortBy(s, key), s)
  {
    if s != [] {
      var init, x := s[..|s| - 1], s[|s| - 1];
      assert s == init + [x];
      SortDistinct(init, key);
      var sorted := SortBy(init, key);
      forall i | 0 <= i < |sorted| ensures key(sorted[i]) != key(x) {
        assert sorted[i] in init;
      }
      InsertKeeps(sorted, x, key);
    }
  }

  /** A strictly increasing sequence is determined by its elements. */
  lemma {:induction false} StrictIsUnique<T(!new)>(a: seq<T>, b: seq<T>, key: T -> nat)
    requires Strict(a, key) && Strict(b, key) && SameElements(a, b)
    ensures a == b
  {
    assert a != [] ==> a[0] in b;
    assert b != [] ==> b[0] in a;
    if a != [] && b != [] {
      var x, y := a[|a| - 1], b[|b| - 1];
      assert x in b && y in a;
      assert x == y;
      var a', b' := a[..|a| - 1], b[..|b| - 1];
      assert a == a' + [x] && b == b' + [x];
      InitElements(a, key);
      InitElements(b, key);
      forall z ensures z in a' <==> z in b' {
        assert z in a <==> z in b;
      }
      StrictIsUnique(a', b', key);
    }
  }

  lemma InitElements<T(!new)>(a: seq<T>, key: T -> nat)
    requires Strict(a, key) && a != []
    ensures Strict(a[..|a| - 1], key)
    ensures forall z :: z in a[..|a| - 1] <==> z in a && z != a[|a| - 1]
  {
    var a', x := a[..|a| - 1], a[|a| - 1];
    assert a == a' + [x];
    forall z | z in a' ensures z != x {
      var i :| 0 <= i < |a'| && a'[i] == z;
      assert key(a[i]) < key(a[|a| - 1]);
    }
  }

  lemma Rotated<T(!new)>(s: seq<T>, cut: nat, key: T -> nat)
    requires Strict(s, key) && cut <= |s|
    ensures DistinctKeys(s[cut..] + s[..cut], key) && SameElements(s[cut..] + s[..cut], s)
  {
    var all, k := s[cut..] + s[..cut], |s| - cut;
    forall i, j | 0 <= i < j < |all| ensures key(all[i]) != key(all[j]) {
      RotatedPair(s, cut, key, i, j);
    }
    forall x ensures x in all <==> x in s {
      assert s == s[..cut] + s[cut..];
    }
  }

  lemma RotatedPair<T>(s: seq<T>, cut: nat, key: T -> nat, i: nat, j: nat)
    requires Strict(s, key) && cut <= |s| && i < j < |s|
    ensures key((s[cut..] + s[..cut])[i]) != key((s[cut..] + s[..cut])[j])
  {
    var k := |s| - cut;
    var i' := if i < k then cut + i else i - k;
    var j' := if j < k then cut + j else j - k;
    assert i' < j' ==> key(s[i']) < key(s[j']);
    assert j' < i' ==> key(s[j']) < key(s[i']);
  }

  lemma StrictAt<T>(s: seq<T>, key: T -> nat, i: nat, j: nat)
    requires Strict(s, key) && i < |s| && j < |s|
    ensures key(s[i]) < key(s[j]) <==> i < j
  {
    assert i < j ==> key(s[i]) < key(s[j]);
    assert j < i ==> key(s[j]) < key(s[i]);
  }

  /** Where a strictly increasing sequence reaches `bound`. */
  lemma {:induction false} SplitAt<T>(s: seq<T>, key: T -> nat, bound: nat) returns (p: nat)
    requires Strict(s, key)
    ensures p <= |s|
    ensures forall i :: 0 <= i < p ==> key(s[i]) < bound
    ensures forall i :: p <= i < |s| ==> bound <= key(s[i])
  {
    p := |s|;
    while p > 0 && bound <= key(s[p - 1])
      invariant p <= |s|
      invariant forall i :: p <= i < |s| ==> bound <= key(s[i])
    {
      p := p - 1;
    }
  }

  // ---------------------------------------------------------------------------
  // Queries
  // ---------------------------------------------------------------------------

  /** The most recent snapshot at or before `t`. */
  function AtOrBefore(list: seq<Snapshot>, t: nat): (r: Option<Snapshot>)
    ensures r.None? ==> forall s :: s in list ==> t < s.timestamp
    ensures r.Some? ==> r.value in list && r.value.timestamp <= t
    ensures r.Some? ==> forall s :: s in list && s.timestamp <= t ==> s.timestamp <= r.value.timestamp
  {
    if list == [] then None
    else
      var best, last := AtOrBefore(list[..|list| - 1], t), list[|list| - 1];
      assert list == list[..|list| - 1] + [last];
      if last.timestamp <= t && (best.None? || best.value.timestamp <= last.timestamp) then Some(last) else best
  }

  /** Among equal timestamps the last in the list answers. */
  lemma {:induction false} LatestOfTies(list: seq<Snapshot>, t: nat) returns (i: nat)
    requires AtOrBefore(list, t).Some?
    ensures i < |list| && list[i] == AtOrBefore(list, t).value
    ensures forall j :: i < j < |list| && list[j].timestamp <= t ==> list[j].timestamp < list[i].timestamp
  {
    var n := |list| - 1;
    var best, last := AtOrBefore(list[..n], t), list[n];
    if last.timestamp <= t && (best.None? || best.value.timestamp <= last.timestamp) {
      i := n;
    } else {
      i := LatestOfTies(list[..n], t);
    }
  }

  function QueryAsOf(list: seq<Snapshot>, key: Bytes, t: nat): (value: Option<Bytes>)
  {
    var snapshot := AtOrBefore(list, t);
    if snapshot.Some? && key in snapshot.value.data then Some(snapshot.value.data[key]) else None
  }

  function QueryRange(list: seq<Snapshot>, start: nat, end: nat): (data: Option<map<Bytes, Bytes>>)
  {
    var snapshot := AtOrBefore(list, end);
    if snapshot.None? || snapshot.value.timestamp < start then None else Some(snapshot.value.data)
  }

  /** A range query answers iff a snapshot was taken in the range, both ends included, and from the newest one. */
  lemma {:induction false} QueryRangeIff(list: seq<Snapshot>, start: nat, end: nat)
    ensures QueryRange(list, start, end).Some? <==> exists s :: s in list && start <= s.timestamp <= end
    ensures QueryRange(list, start, end).Some? ==>
              exists s :: s in list && start <= s.timestamp <= end
                          && QueryRange(list, start, end) == Some(s.data)
                          && forall other :: other in list && other.timestamp <= end ==> other.timestamp <= s.timestamp
  {
    var newest := AtOrBefore(list, end);
    if newest.Some? && start <= newest.value.timestamp {
      assert newest.value in list;
    }
  }

  /** On an increasing list the answer is the snapshot whose interval `t` falls in. */
  lemma {:induction false} AsOfInterval(list: seq<Snapshot>, t: nat, i: nat)
    requires Strict(list, StampOf) && i < |list| && list[i].timestamp <= t
    requires i + 1 < |list| ==> t < list[i + 1].timestamp
    ensures AtOrBefore(list, t) == Some(list[i])
  {
    var best := AtOrBefore(list, t);
    assert list[i] in list;
    var j :| 0 <= j < |list| && list[j] == best.value;
    assert i + 1 < j ==> StampOf(list[i + 1]) < StampOf(list[j]);
    assert j < i ==> StampOf(list[j]) < StampOf(list[i]);
  }

  /** Eviction changes an answer exactly for the times only an evicted snapshot covers. */
  lemma {:induction false} RetainedAnswersIff(captured: seq<Snapshot>, max: nat, t: nat)
    requires Strict(captured, StampOf)
    ensures AtOrBefore(Last(captured, max), t) == AtOrBefore(captured, t)
            <==> || |captured| <= max || t < captured[0].timestamp
                 || (max > 0 && captured[|captured| - max].timestamp <= t)
  {
    if |captured| > max {
      var kept := Last(captured, max);
      var cut := |captured| - max;
      if t < captured[0].timestamp {
        forall s | s in captured ensures t < s.timestamp {
          var i :| 0 <= i < |captured| && captured[i] == s;
          assert i > 0 ==> StampOf(captured[0]) < StampOf(captured[i]);
        }
        assert forall s :: s in kept ==> s in captured;
      } else if max > 0 && captured[cut].timestamp <= t {
        var i := CoveringIndex(kept, t);
        AsOfInterval(kept, t, i);
        assert kept[i] == captured[cut + i];
        AsOfInterval(captured, t, cut + i);
      } else {
        EvictedAnswer(captured, max, t);
      }
    }
  }

  /** Memory answers every key as the whole history would, except at times only a non-empty evicted snapshot covers. */
  lemma RetainedQueriesIff(captured: seq<Snapshot>, max: nat, t: nat)
    requires Strict(captured, StampOf)
    ensures (forall key :: QueryAsOf(Last(captured, max), key, t) == QueryAsOf(captured, key, t))
            <==> || |captured| <= max || t < captured[0].timestamp
                 || (max > 0 && captured[|captured| - max].timestamp <= t)
                 || AtOrBefore(captured, t) == None || AtOrBefore(captured, t).value.data == map[]
  {
    RetainedAnswersIff(captured, max, t);
    if |captured| > max && captured[0].timestamp <= t && (max > 0 ==> t < captured[|captured| - max].timestamp) {
      EvictedAnswer(captured, max, t);
      var data := AtOrBefore(captured, t).value.data;
      if data != map[] {
        var key :| key in data;
        assert QueryAsOf(captured, key, t) == Some(data[key]);
        assert QueryAsOf(Last(captured, max), key, t) == None;
      }
    }
  }

  lemma CoveringIndex(list: seq<Snapshot>, t: nat) returns (i: nat)
    requires Strict(list, StampOf) && list != [] && list[0].timestamp <= t
    ensures i < |list| && list[i].timestamp <= t && (i + 1 < |list| ==> t < list[i + 1].timestamp)
  {
    var p := SplitAt(list, StampOf, t + 1);
    assert p == 0 ==> t + 1 <= StampOf(list[0]);
    assert p > 0 ==> StampOf(list[p - 1]) < t + 1;
    assert p < |list| ==> t + 1 <= StampOf(list[p]);
    i := p - 1;
  }

  /** Before the oldest retained snapshot, memory knows nothing and history does. */
  lemma EvictedAnswer(captured: seq<Snapshot>, max: nat, t: nat)
    requires Strict(captured, StampOf) && |captured| > max && captured[0].timestamp <= t
    requires max > 0 ==> t < captured[|captured| - max].timestamp
    ensures AtOrBefore(Last(captured, max), t) == None && AtOrBefore(captured, t).Some?
  {
    var kept := Last(captured, max);
    forall s | s in kept ensures t < s.timestamp {
      var i :| 0 <= i < |kept| && kept[i] == s;
      assert kept[i] == captured[|captured| - max + i];
      assert i > 0 ==> StampOf(captured[|captured| - max]) < StampOf(kept[i]);
    }
    assert captured[0] in captured;
  }

  // ---------------------------------------------------------------------------
  // Files and restoring
  // ---------------------------------------------------------------------------

  /** What a snapshot file holds; `None` cannot be read or parsed. */
  type Files = map<nat, Option<Snapshot>>

  /** The files after persisting every capture. */
  ghost function FilesOf(captured: seq<Snapshot>): (files: Files)
  {
    if captured == [] then map[]
    else
      var last := captured[|captured| - 1];
      FilesOf(captured[..|captured| - 1])[last.timestamp := Some(last)]
  }

  /** A file holds the latest capture with its timestamp. */
  lemma {:induction false} FileIsLatest(captured: seq<Snapshot>, i: nat)
    requires i < |captured|
    requires forall j :: i < j < |captured| ==> captured[j].timestamp != captured[i].timestamp
    ensures captured[i].timestamp in FilesOf(captured)
    ensures FilesOf(captured)[captured[i].timestamp] == Some(captured[i])
  {
    if i < |captured| - 1 {
      FileIsLatest(captured[..|captured| - 1], i);
    }
  }

  lemma {:induction false} FilesAreCaptures(captured: seq<Snapshot>)
    ensures forall t :: t in FilesOf(captured) ==>
                          && FilesOf(captured)[t].Some? && FilesOf(captured)[t].value in captured
                          && FilesOf(captured)[t].value.timestamp == t
    ensures forall s :: s in captured ==> s.timestamp in FilesOf(captured)
  {
    if captured != [] {
      var init := captured[..|captured| - 1];
      FilesAreCaptures(init);
      assert captured == init + [captured[|captured| - 1]];
    }
  }

  ghost predicate Lists(listing: seq<nat>, files: Files)
  {
    DistinctKeys(listing, Itself) && forall t :: t in listing <==> t in files
  }

  predicate AllReadable(files: Files, stamps: seq<nat>)
  {
    forall i :: 0 <= i < |stamps| ==> stamps[i] in files && files[stamps[i]].Some?
  }

  function Contents(files: Files, stamps: seq<nat>): (contents: seq<Snapshot>)
    requires AllReadable(files, stamps)
  {
    seq(|stamps|, i requires 0 <= i < |stamps| => files[stamps[i]].value)
  }

  predicate HasStamp(list: seq<Snapshot>, t: nat)
  {
    exists s :: s in list && s.timestamp == t
  }

  /** Pushing each loaded snapshot whose timestamp is not in the list yet. */
  function Absorb(list: seq<Snapshot>, loaded: seq<Snapshot>): (r: seq<Snapshot>)
    ensures |r| >= |list|
  {
    if loaded == [] then list
    else
      var before, s := Absorb(list, loaded[..|loaded| - 1]), loaded[|loaded| - 1];
      if HasStamp(before, s.timestamp) then before else before + [s]
  }

  /** The list after a restore that reads every file. */
  function Rebuilt(list: seq<Snapshot>, loaded: seq<Snapshot>, max: nat): (r: seq<Snapshot>)
  {
    Last(SortBy(Absorb(list, loaded), StampOf), max)
  }

  /** Memory holds a suffix of the history; loading the history adds the rest of it ... */
  lemma {:induction false} AbsorbMissing(captured: seq<Snapshot>, cut: nat, j: nat)
    requires Strict(captured, StampOf) && j <= cut <= |captured|
    ensures Absorb(captured[cut..], captured[..j]) == captured[cut..] + captured[..j]
  {
    if j > 0 {
      AbsorbMissing(captured, cut, j - 1);
      assert captured[..j][..j - 1] == captured[..j - 1];
      PushIsNew(captured, cut, j - 1);
    }
  }

  /** ... and nothing twice. */
  lemma {:induction false} AbsorbPresent(captured: seq<Snapshot>, cut: nat, j: nat)
    requires Strict(captured, StampOf) && cut <= j <= |captured|
    ensures Absorb(captured[cut..], captured[..j]) == captured[cut..] + captured[..cut]
  {
    if j == cut {
      AbsorbMissing(captured, cut, cut);
    } else {
      AbsorbPresent(captured, cut, j - 1);
      assert captured[..j][..j - 1] == captured[..j - 1];
      assert captured[cut..][j - 1 - cut] == captured[j - 1];
      assert captured[j - 1] in captured[cut..];
    }
  }

  /** A capture before the suffix is not in it, nor among the captures before itself. */
  lemma PushIsNew(captured: seq<Snapshot>, cut: nat, m: nat)
    requires Strict(captured, StampOf) && m < cut <= |captured|
    ensures !HasStamp(captured[cut..] + captured[..m], captured[m].timestamp)
    ensures captured[cut..] + captured[..m] + [captured[m]] == captured[cut..] + captured[..m + 1]
  {
    forall x | x in captured[cut..] + captured[..m] ensures x.timestamp != captured[m].timestamp {
      StrictElsewhere(captured, cut, m, x);
    }
  }

  lemma StrictElsewhere(captured: seq<Snapshot>, cut: nat, m: nat, x: Snapshot)
    requires Strict(captured, StampOf) && m < cut <= |captured|
    requires x in captured[cut..] + captured[..m]
    ensures x.timestamp != captured[m].timestamp
  {
    if x in captured[cut..] {
      var i :| cut <= i < |captured| && captured[i] == x;
      assert StampOf(captured[m]) < StampOf(captured[i]);
    } else {
      var i :| 0 <= i < m && captured[i] == x;
      assert StampOf(captured[i]) < StampOf(captured[m]);
    }
  }

  /** Restoring over any suffix of an increasing history gives its last `max` captures. */
  lemma RestoreOverSuffix(captured: seq<Snapshot>, memory: seq<Snapshot>, max: nat)
    requires Strict(captured, StampOf) && Suffix(memory, captured)
    ensures Rebuilt(memory, captured, max) == Last(captured, max)
    ensures |Absorb(memory, captured)| == |captured|
  {
    var cut := |captured| - |memory|;
    var all := memory + captured[..cut];
    AbsorbPresent(captured, cut, |captured|);
    assert captured[..|captured|] == captured;
    assert Absorb(memory, captured) == all;
    Rotated(captured, cut, StampOf);
    SortDistinct(all, StampOf);
    StrictIsUnique(SortBy(all, StampOf), captured, StampOf);
  }

  /** With increasing timestamps the directory, read in order, is the history. */
  lemma DirectoryIsHistory(captured: seq<Snapshot>, listing: seq<nat>)
    requires Strict(captured, StampOf) && Lists(listing, FilesOf(captured))
    ensures AllReadable(FilesOf(captured), SortBy(listing, Itself))
    ensures Contents(FilesOf(captured), SortBy(listing, Itself)) == captured
  {
    DirectoryContents(captured, listing);
    var loaded := Contents(FilesOf(captured), SortBy(listing, Itself));
    forall s | s in captured ensures s in loaded {
      var i :| 0 <= i < |captured| && captured[i] == s;
      forall j | i < j < |captured| ensures captured[j].timestamp != s.timestamp {
        assert StampOf(captured[i]) < StampOf(captured[j]);
      }
      FileIsLatest(captured, i);
    }
    StrictIsUnique(loaded, captured, StampOf);
  }

  /** For any history, the directory holds one capture per timestamp, and reads in increasing order. */
  lemma DirectoryContents(captured: seq<Snapshot>, listing: seq<nat>)
    requires Lists(listing, FilesOf(captured))
    ensures AllReadable(FilesOf(captured), SortBy(listing, Itself))
    ensures Strict(Contents(FilesOf(captured), SortBy(listing, Itself)), StampOf)
    ensures forall s :: s in Contents(FilesOf(captured), SortBy(listing, Itself))
                        <==> s in captured && s.timestamp in FilesOf(captured) && FilesOf(captured)[s.timestamp] == Some(s)
    ensures forall s :: s in captured ==> HasStamp(Contents(FilesOf(captured), SortBy(listing, Itself)), s.timestamp)
  {
    var files, stamps := FilesOf(captured), SortBy(listing, Itself);
    FilesAreCaptures(captured);
    SortDistinct(listing, Itself);
    assert forall i :: 0 <= i < |stamps| ==> stamps[i] in stamps;
    var loaded := Contents(files, stamps);
    assert forall i :: 0 <= i < |loaded| ==> StampOf(loaded[i]) == Itself(stamps[i]);
    forall s | s in captured ensures files[s.timestamp].value in loaded {
      assert s.timestamp in stamps;
      var i :| 0 <= i < |stamps| && stamps[i] == s.timestamp;
      assert loaded[i] == files[s.timestamp].value;
    }
  }

  /** Loading distinct timestamps in order into an empty list is the loaded list. */
  lemma RestoreIntoEmpty(loaded: seq<Snapshot>, max: nat)
    requires Strict(loaded, StampOf)
    ensures Rebuilt([], loaded, max) == Last(loaded, max)
  {
    RestoreOverSuffix(loaded, [], max);
  }

  /** The clock condition for a restart to lose nothing: the retained captures are in order, and no
      earlier capture has a timestamp of its own among theirs. */
  ghost predicate ClockBehaved(captured: seq<Snapshot>, max: nat)
  {
    var kept := Last(captured, max);
    && Strict(kept, StampOf)
    && forall i :: 0 <= i < |captured| && kept != [] ==>
                     captured[i].timestamp <= kept[0].timestamp || HasStamp(kept, captured[i].timestamp)
  }

  /** For any clock: a restart rebuilds the last `max` captures iff the clock behaved. */
  lemma RestartRebuildsIff(captured: seq<Snapshot>, listing: seq<nat>, max: nat)
    requires Lists(listing, FilesOf(captured))
    ensures AllReadable(FilesOf(captured), SortBy(listing, Itself))
    ensures Rebuilt([], Contents(FilesOf(captured), SortBy(listing, Itself)), max) == Last(captured, max)
            <==> ClockBehaved(captured, max)
  {
    DirectoryContents(captured, listing);
    var loaded := Contents(FilesOf(captured), SortBy(listing, Itself));
    RestoreIntoEmpty(loaded, max);
    if ClockBehaved(captured, max) {
      BehavedIsRebuilt(captured, loaded, max);
    }
    if Last(loaded, max) == Last(captured, max) {
      RebuiltIsBehaved(captured, loaded, max);
    }
  }

  /** Two captures under a clock that did not advance: a restart gives another list, however large the capacity. */
  lemma StalledClockIsNotRebuilt(first: Snapshot, second: Snapshot, listing: seq<nat>, max: nat)
    requires second.timestamp <= first.timestamp && max >= 2 && Lists(listing, FilesOf([first, second]))
    ensures AllReadable(FilesOf([first, second]), SortBy(listing, Itself))
    ensures Rebuilt([], Contents(FilesOf([first, second]), SortBy(listing, Itself)), max) != [first, second]
  {
    var captured := [first, second];
    RestartRebuildsIff(captured, listing, max);
    assert Last(captured, max) == captured;
    assert !(StampOf(captured[0]) < StampOf(captured[1]));
    assert !Strict(captured, StampOf);
  }

  /** The files of a history, in order. */
  ghost predicate OnDisk(captured: seq<Snapshot>, loaded: seq<Snapshot>)
  {
    && Strict(loaded, StampOf)
    && (forall s :: s in loaded <==>
                      s in captured && s.timestamp in FilesOf(captured) && FilesOf(captured)[s.timestamp] == Some(s))
    && (forall s :: s in captured ==> HasStamp(loaded, s.timestamp))
  }

  lemma RebuiltIsBehaved(captured: seq<Snapshot>, loaded: seq<Snapshot>, max: nat)
    requires OnDisk(captured, loaded) && Last(loaded, max) == Last(captured, max)
    ensures ClockBehaved(captured, max)
  {
    var kept := Last(captured, max);
    forall i | 0 <= i < |captured| && kept != [] && kept[0].timestamp < captured[i].timestamp
      ensures HasStamp(kept, captured[i].timestamp)
    {
      assert captured[i] in captured;
      var s :| s in loaded && s.timestamp == captured[i].timestamp;
      LaterIsKept(loaded, max, s);
    }
  }

  lemma LaterIsKept(loaded: seq<Snapshot>, max: nat, s: Snapshot)
    requires Strict(loaded, StampOf) && s in loaded && Last(loaded, max) != []
    requires Last(loaded, max)[0].timestamp < s.timestamp
    ensures s in Last(loaded, max)
  {
    var q :| 0 <= q < |loaded| && loaded[q] == s;
    var cut := |loaded| - |Last(loaded, max)|;
    StrictAt(loaded, StampOf, cut, q);
    assert loaded[q] == Last(loaded, max)[q - cut];
  }

  lemma BehavedIsRebuilt(captured: seq<Snapshot>, loaded: seq<Snapshot>, max: nat)
    requires OnDisk(captured, loaded) && ClockBehaved(captured, max)
    ensures Last(loaded, max) == Last(captured, max)
  {
    var kept := Last(captured, max);
    if kept == [] {
      EmptyDisk(captured, loaded);
    } else {
      var p := SplitAt(loaded, StampOf, kept[0].timestamp);
      UpperIsAllKept(captured, loaded, max, p);
      if |captured| <= max {
        NothingBelow(captured, loaded, max, p);
      }
      LastOfSuffix(loaded[p..], loaded, max);
    }
  }

  lemma UpperIsAllKept(captured: seq<Snapshot>, loaded: seq<Snapshot>, max: nat, p: nat)
    requires OnDisk(captured, loaded) && ClockBehaved(captured, max) && Last(captured, max) != []
    requires p <= |loaded|
    requires forall i :: 0 <= i < p ==> StampOf(loaded[i]) < Last(captured, max)[0].timestamp
    requires forall i :: p <= i < |loaded| ==> Last(captured, max)[0].timestamp <= StampOf(loaded[i])
    ensures loaded[p..] == Last(captured, max)
  {
    var upper, kept := loaded[p..], Last(captured, max);
    forall s ensures s in upper <==> s in kept {
      UpperIsKept(captured, loaded, max, p, s);
    }
    StrictIsUnique(upper, kept, StampOf);
  }

  /** When nothing was evicted, the directory holds nothing older than memory. */
  lemma NothingBelow(captured: seq<Snapshot>, loaded: seq<Snapshot>, max: nat, p: nat)
    requires OnDisk(captured, loaded) && |captured| <= max && captured != [] && Strict(captured, StampOf)
    requires p <= |loaded| && forall i :: 0 <= i < p ==> StampOf(loaded[i]) < captured[0].timestamp
    ensures p == 0
  {
    if p > 0 {
      assert loaded[0] in loaded;
      KeptAreFirst(captured, max, loaded[0]);
    }
  }

  lemma EmptyDisk(captured: seq<Snapshot>, loaded: seq<Snapshot>)
    requires OnDisk(captured, loaded)
    ensures captured == [] ==> loaded == []
  {
    assert loaded != [] ==> loaded[0] in captured;
  }

  /** A retained capture is the latest of its timestamp, so it is on disk. */
  lemma KeptIsOnDisk(captured: seq<Snapshot>, max: nat, s: Snapshot)
    requires Strict(Last(captured, max), StampOf) && s in Last(captured, max)
    ensures s in captured && s.timestamp in FilesOf(captured) && FilesOf(captured)[s.timestamp] == Some(s)
  {
    var i := KeptIndex(captured, max, s);
    FileIsLatest(captured, i);
  }

  lemma KeptIndex(captured: seq<Snapshot>, max: nat, s: Snapshot) returns (i: nat)
    requires Strict(Last(captured, max), StampOf) && s in Last(captured, max)
    ensures i < |captured| && captured[i] == s
    ensures forall m :: i < m < |captured| ==> captured[m].timestamp != s.timestamp
  {
    var kept := Last(captured, max);
    LastIsSuffix(captured, max);
    i := IndexIn(kept, captured, s);
  }

  lemma IndexIn(kept: seq<Snapshot>, captured: seq<Snapshot>, s: Snapshot) returns (i: nat)
    requires Strict(kept, StampOf) && Suffix(kept, captured) && s in kept
    ensures i < |captured| && captured[i] == s
    ensures forall m :: i < m < |captured| ==> captured[m].timestamp != s.timestamp
  {
    var j :| 0 <= j < |kept| && kept[j] == s;
    i := |captured| - |kept| + j;
    SuffixAt(kept, captured, j);
    forall m | i < m < |captured| ensures captured[m].timestamp != s.timestamp {
      SuffixStrict(kept, captured, j, m);
    }
  }

  lemma SuffixStrict(kept: seq<Snapshot>, captured: seq<Snapshot>, j: nat, m: nat)
    requires Strict(kept, StampOf) && Suffix(kept, captured) && j < |kept|
    requires |captured| - |kept| + j < m < |captured|
    ensures kept[j].timestamp < captured[m].timestamp
  {
    SuffixAt(kept, captured, m - (|captured| - |kept|));
    assert StampOf(kept[j]) < StampOf(kept[m - (|captured| - |kept|)]);
  }

  lemma KeptAreFirst(captured: seq<Snapshot>, max: nat, s: Snapshot)
    requires Strict(Last(captured, max), StampOf) && s in Last(captured, max)
    ensures Last(captured, max)[0].timestamp <= s.timestamp
  {
    var kept := Last(captured, max);
    var j :| 0 <= j < |kept| && kept[j] == s;
    assert j > 0 ==> StampOf(kept[0]) < StampOf(kept[j]);
  }

  lemma UpperIsKept(captured: seq<Snapshot>, loaded: seq<Snapshot>, max: nat, p: nat, s: Snapshot)
    requires OnDisk(captured, loaded) && ClockBehaved(captured, max) && Last(captured, max) != []
    requires p <= |loaded|
    requires forall i :: 0 <= i < p ==> StampOf(loaded[i]) < Last(captured, max)[0].timestamp
    requires forall i :: p <= i < |loaded| ==> Last(captured, max)[0].timestamp <= StampOf(loaded[i])
    ensures s in loaded[p..] <==> s in Last(captured, max)
  {
    var kept := Last(captured, max);
    if s in kept {
      KeptIsOnDisk(captured, max, s);
      KeptAreFirst(captured, max, s);
      var i :| 0 <= i < |loaded| && loaded[i] == s;
      assert loaded[p..][i - p] == s;
    } else if s in loaded[p..] {
      var i :| p <= i < |loaded| && loaded[i] == s;
      assert s in loaded && kept[0].timestamp <= StampOf(loaded[i]);
      var j :| 0 <= j < |captured| && captured[j] == s;
      assert kept[0] in kept;
      var twin :| twin in kept && twin.timestamp == s.timestamp;
      KeptIsOnDisk(captured, max, twin);
    }
  }

  // ---------------------------------------------------------------------------
  // The engine
  // ---------------------------------------------------------------------------

  /** The persistence directory; it outlives the engine. */
  class Directory {
    var files: Files

    constructor ()
      ensures files == map[]
    {
      files := map[];
    }
  }

  datatype Result<+T> = Ok(value: T) | Err

  class TimeTravelEngine {
    var snapshots: seq<Snapshot>
    const maxSnapshots: nat
    const directory: Directory?
    ghost var captured: seq<Snapshot>

    ghost predicate Tracks()
      reads this, directory
    {
      directory != null && Tracked(captured, directory.files, snapshots, maxSnapshots)
    }

    /** Starts with nothing in memory, over the files an earlier engine may have left. */
    constructor (maxSnapshots: nat, directory: Directory?, ghost captured: seq<Snapshot>)
      ensures snapshots == [] && this.maxSnapshots == maxSnapshots && this.directory == directory
      ensures this.captured == captured
      ensures directory != null && directory.files == FilesOf(captured) && Strict(captured, StampOf) ==> Tracks()
    {
      snapshots := [];
      this.maxSnapshots, this.directory, this.captured := maxSnapshots, directory, captured;
    }

    /** `now` is the clock, `written` whether the file could be written. */
    method Capture(now: nat, data: map<Bytes, Bytes>, name: string, written: bool) returns (timestamp: nat)
      modifies this, directory
      ensures timestamp == now && captured == old(captured) + [Snapshot(now, data, name)]
      ensures snapshots == Last(old(snapshots) + [Snapshot(now, data, name)], maxSnapshots)
      ensures directory != null ==>
                directory.files == if written then old(directory.files)[now := Some(Snapshot(now, data, name))]
                                   else old(directory.files)
      ensures old(Tracks()) && written && (old(captured) == [] || old(captured)[|old(captured)| - 1].timestamp < now) ==>
                && Tracks()
                && (old(snapshots) == Last(old(captured), maxSnapshots) ==> snapshots == Last(captured, maxSnapshots))
    {
      timestamp := now;
      var snapshot := Snapshot(now, data, name);
      if directory != null && written {
        directory.files := directory.files[now := Some(snapshot)];
      }
      snapshots := snapshots + [snapshot];
      captured := captured + [snapshot];
      if old(Tracks()) && (old(captured) == [] || old(captured)[|old(captured)| - 1].timestamp < now) {
        ExtendHistory(old(captured), snapshot);
        ExtendSuffix(old(snapshots), old(captured), snapshot, maxSnapshots);
      }
      EvictOldest();
    }

    /** Removes from the front until the capacity is met. */
    method EvictOldest()
      modifies this`snapshots
      ensures snapshots == Last(old(snapshots), maxSnapshots)
    {
      ghost var before := snapshots;
      while |snapshots| > maxSnapshots
        invariant |snapshots| <= |before| && snapshots == before[|before| - |snapshots|..]
        invariant |snapshots| >= maxSnapshots || snapshots == before
      {
        snapshots := snapshots[1..];
      }
    }

    method Clear()
      modifies this`snapshots
      ensures snapshots == []
      ensures old(Tracks()) ==> Tracks()
    {
      snapshots := [];
    }

    /** `listing` is the directory as the file system lists it, in any order; `None` is a failure to list it. */
    method RestoreSnapshots(listing: Option<seq<nat>>) returns (result: Result<nat>)
      requires directory != null && listing.Some? ==> Lists(listing.value, directory.files)
      modifies this`snapshots
      ensures directory == null || listing.None? ==> result == Err && snapshots == old(snapshots)
      ensures directory != null && listing.Some? ==>
                RestoreOutcome(old(snapshots), directory.files, SortBy(listing.value, Itself), maxSnapshots,
                               result, snapshots)
      ensures old(Tracks()) && listing.Some? ==>
                && Tracks() && snapshots == Last(captured, maxSnapshots)
                && result == Ok(|captured| - |old(snapshots)|)
    {
      if directory == null || listing.None? {
        return Err;
      }
      ghost var tracked, before, files := Tracks(), snapshots, directory.files;
      SortedListing(listing.value, directory.files);
      result := RestoreFiles(directory.files, SortBy(listing.value, Itself));
      if tracked {
        RestoreIsHistory(captured, files, before, listing.value, maxSnapshots, result, snapshots);
      }
    }

    /** Loads the files, then sorts and evicts; an unreadable file ends it before that. */
    method RestoreFiles(files: Files, stamps: seq<nat>) returns (result: Result<nat>)
      requires forall t :: t in stamps ==> t in files
      modifies this`snapshots
      ensures RestoreOutcome(old(snapshots), files, stamps, maxSnapshots, result, snapshots)
    {
      result := LoadFiles(files, stamps);
      if result.Ok? {
        snapshots := SortBy(snapshots, StampOf);
        EvictOldest();
      }
    }

    /** Reads the files in order, stopping at the first that cannot be read. */
    method LoadFiles(files: Files, stamps: seq<nat>) returns (result: Result<nat>)
      requires forall t :: t in stamps ==> t in files
      modifies this`snapshots
      ensures if AllReadable(files, stamps) then
                && snapshots == Absorb(old(snapshots), Contents(files, stamps))
                && result == Ok(|snapshots| - |old(snapshots)|)
              else result == Err && StoppedEarly(old(snapshots), files, stamps, snapshots)
    {
      var restored := 0;
      for i := 0 to |stamps|
        invariant AllReadable(files, stamps[..i])
        invariant snapshots == Absorb(old(snapshots), Contents(files, stamps[..i]))
        invariant restored == |snapshots| - |old(snapshots)|
      {
        assert stamps[i] in stamps;
        var content := files[stamps[i]];
        if content.None? {
          assert StoppedAt(old(snapshots), files, stamps, snapshots, i);
          return Err;
        }
        LoadOneMore(files, stamps, i);
        if !HasStamp(snapshots, content.value.timestamp) {
          snapshots := snapshots + [content.value];
          restored := restored + 1;
        }
      }
      assert stamps[..|stamps|] == stamps;
      return Ok(restored);
    }
  }

  /** The list holds what was readable before file `i`, unsorted and not evicted. */
  ghost predicate StoppedAt(before: seq<Snapshot>, files: Files, stamps: seq<nat>, after: seq<Snapshot>, i: nat)
  {
    && i < |stamps| && stamps[i] in files && files[stamps[i]].None? && AllReadable(files, stamps[..i])
    && after == Absorb(before, Contents(files, stamps[..i]))
  }

  ghost predicate StoppedEarly(before: seq<Snapshot>, files: Files, stamps: seq<nat>, after: seq<Snapshot>)
  {
    exists i: nat :: StoppedAt(before, files, stamps, after, i)
  }

  /** The history was taken with an increasing clock and persisted, and memory is a suffix of it. */
  ghost predicate Tracked(captured: seq<Snapshot>, files: Files, memory: seq<Snapshot>, max: nat)
  {
    files == FilesOf(captured) && Strict(captured, StampOf) && |memory| <= max && Suffix(memory, captured)
  }

  /** All files readable: everything new is added, sorted and cut to size; otherwise the error path. */
  ghost predicate RestoreOutcome(before: seq<Snapshot>, files: Files, stamps: seq<nat>, max: nat,
                                 result: Result<nat>, after: seq<Snapshot>)
  {
    if AllReadable(files, stamps) then
      && after == Rebuilt(before, Contents(files, stamps), max)
      && result == Ok(|Absorb(before, Contents(files, stamps))| - |before|)
    else result == Err && StoppedEarly(before, files, stamps, after)
  }

  lemma LoadedOutcome(before: seq<Snapshot>, files: Files, stamps: seq<nat>, max: nat,
                      result: Result<nat>, after: seq<Snapshot>, loaded: seq<Snapshot>)
    requires RestoreOutcome(before, files, stamps, max, result, after)
    requires AllReadable(files, stamps) && Contents(files, stamps) == loaded
    ensures after == Rebuilt(before, loaded, max) && result == Ok(|Absorb(before, loaded)| - |before|)
  {
  }

  lemma SortedListing(listing: seq<nat>, files: Files)
    requires Lists(listing, files)
    ensures forall t :: t in SortBy(listing, Itself) ==> t in files
  {
    SortDistinct(listing, Itself);
  }

  /** Restoring after an increasing, fully persisted history brings back its last `max` captures. */
  lemma RestoreIsHistory(captured: seq<Snapshot>, files: Files, memory: seq<Snapshot>, listing: seq<nat>, max: nat,
                         result: Result<nat>, after: seq<Snapshot>)
    requires Tracked(captured, files, memory, max) && Lists(listing, files)
    requires RestoreOutcome(memory, files, SortBy(listing, Itself), max, result, after)
    ensures Tracked(captured, files, after, max)
    ensures after == Last(captured, max) && result == Ok(|captured| - |memory|)
  {
    TrackedDirectory(captured, files, memory, listing, max);
    OutcomeIsKept(captured, files, memory, SortBy(listing, Itself), max, result, after, Last(captured, max));
  }

  lemma OutcomeIsKept(captured: seq<Snapshot>, files: Files, memory: seq<Snapshot>, stamps: seq<nat>, max: nat,
                      result: Result<nat>, after: seq<Snapshot>, kept: seq<Snapshot>)
    requires RestoreOutcome(memory, files, stamps, max, result, after)
    requires AllReadable(files, stamps) && Contents(files, stamps) == captured
    requires Rebuilt(memory, captured, max) == kept && |Absorb(memory, captured)| == |captured|
    ensures after == kept && result == Ok(|captured| - |memory|)
  {
    LoadedOutcome(memory, files, stamps, max, result, after, captured);
  }

  lemma TrackedDirectory(captured: seq<Snapshot>, files: Files, memory: seq<Snapshot>, listing: seq<nat>, max: nat)
    requires Tracked(captured, files, memory, max) && Lists(listing, files)
    ensures AllReadable(files, SortBy(listing, Itself)) && Contents(files, SortBy(listing, Itself)) == captured
    ensures Rebuilt(memory, captured, max) == Last(captured, max) && |Absorb(memory, captured)| == |captured|
    ensures Tracked(captured, files, Last(captured, max), max)
  {
    DirectoryIsHistory(captured, listing);
    RestoreOverSuffix(captured, memory, max);
    LastIsSuffix(captured, max);
  }

  lemma LoadOneMore(files: Files, stamps: seq<nat>, i: nat)
    requires i < |stamps| && AllReadable(files, stamps[..i])
    requires stamps[i] in files && files[stamps[i]].Some?
    ensures AllReadable(files, stamps[..i + 1])
    ensures |Contents(files, stamps[..i + 1])| == i + 1
    ensures Contents(files, stamps[..i + 1])[..i] == Contents(files, stamps[..i])
    ensures Contents(files, stamps[..i + 1])[i] == files[stamps[i]].value
  {
    assert stamps[..i + 1] == stamps[..i] + [stamps[i]];
  }

  lemma ExtendSuffix<T>(tail: seq<T>, s: seq<T>, x: T, n: nat)
    requires Suffix(tail, s)
    ensures |Last(tail + [x], n)| <= n && Suffix(Last(tail + [x], n), s + [x])
    ensures tail == Last(s, n) ==> Last(tail + [x], n) == Last(s + [x], n)
  {
    PushSuffix(tail, s, x);
    LastIsSuffix(tail + [x], n);
    SuffixOfSuffix(Last(tail + [x], n), tail + [x], s + [x]);
    if tail == Last(s, n) {
      LastOfSuffix(tail + [x], s + [x], n);
    }
  }

  /** Capturing with a later timestamp extends an increasing history and its files. */
  lemma ExtendHistory(captured: seq<Snapshot>, s: Snapshot)
    requires Strict(captured, StampOf)
    requires captured == [] || captured[|captured| - 1].timestamp < s.timestamp
    ensures Strict(captured + [s], StampOf)
    ensures FilesOf(captured + [s]) == FilesOf(captured)[s.timestamp := Some(s)]
  {
    ExtendStrict(captured, s);
    FilesAppend(captured, s);
  }

  lemma FilesAppend(captured: seq<Snapshot>, s: Snapshot)
    ensures FilesOf(captured + [s]) == FilesOf(captured)[s.timestamp := Some(s)]
  {
    assert (captured + [s])[..|captured|] == captured;
  }

  lemma ExtendStrict(captured: seq<Snapshot>, s: Snapshot)
    requires Strict(captured, StampOf)
    requires captured == [] || captured[|captured| - 1].timestamp < s.timestamp
    ensures Strict(captured + [s], StampOf)
  {
    forall i | 0 <= i < |captured| ensures StampOf(captured[i]) < StampOf(s) {
      assert i < |captured| - 1 ==> StampOf(captured[i]) < StampOf(captured[|captured| - 1]);
    }
  }
}
