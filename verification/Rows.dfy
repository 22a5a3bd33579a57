/**
 * Key-ordered row sequences, the maps they list, and the layered view that
 * gives each key the value of the newest layer holding it.
 */
module Rows {
  import opened Bytes

  datatype Row<V> = Row(key: Bytes, value: V)

  /** Strictly increasing keys, as a `BTreeMap` iterates. */
  predicate Sorted<V>(rows: seq<Row<V>>)
  {
    forall i, j :: 0 <= i < j < |rows| ==> Less(rows[i].key, rows[j].key)
  }

  ghost function Contents<V>(rows: seq<Row<V>>): (m: map<Bytes, V>)
  {
    if rows == [] then map[]
    else Contents(rows[1..]) + map[rows[0].key := rows[0].value]
  }

  lemma {:induction false} ContentsKeys<V>(rows: seq<Row<V>>, k: Bytes)
    ensures k in Contents(rows) <==> exists i :: 0 <= i < |rows| && rows[i].key == k
  {
    if rows != [] {
      ContentsKeys(rows[1..], k);
      if exists i :: 0 <= i < |rows| && rows[i].key == k {
        var i :| 0 <= i < |rows| && rows[i].key == k;
        if 0 < i {
          assert rows[1..][i - 1].key == k;
        }
      }
      if k in Contents(rows) && k != rows[0].key {
        var i :| 0 <= i < |rows[1..]| && rows[1..][i].key == k;
        assert rows[i + 1].key == k;
      }
    }
  }

  lemma {:induction false} ContentsAt<V>(rows: seq<Row<V>>, i: nat)
    requires Sorted(rows) && i < |rows|
    ensures rows[i].key in Contents(rows) && Contents(rows)[rows[i].key] == rows[i].value
  {
    if 0 < i {
      ContentsAt(rows[1..], i - 1);
      LessIrreflexive(rows[0].key);
    }
  }

  /** Taking the first row off a sorted sequence takes just its key out of the contents. */
  lemma {:induction false} ContentsTail<V>(rows: seq<Row<V>>)
    requires Sorted(rows) && rows != []
    ensures Contents(rows[1..]) == Contents(rows) - {rows[0].key}
    ensures rows[0].key in Contents(rows) && Contents(rows)[rows[0].key] == rows[0].value
    ensures forall k :: k in Contents(rows) ==> AtMost(rows[0].key, k)
  {
    ContentsKeys(rows[1..], rows[0].key);
    LessIrreflexive(rows[0].key);
    forall k | k in Contents(rows) ensures AtMost(rows[0].key, k) {
      ContentsKeys(rows, k);
    }
  }

  lemma {:induction false} ContentsAppend<V>(rows: seq<Row<V>>, row: Row<V>)
    ensures row.key !in Contents(rows) ==>
              Contents(rows + [row]) == Contents(rows)[row.key := row.value]
  {
    if rows == [] {
      assert rows + [row] == [row] && (rows + [row])[1..] == [];
    } else {
      assert (rows + [row])[1..] == rows[1..] + [row];
      ContentsAppend(rows[1..], row);
    }
  }

  /** A map has only one sorted listing. */
  lemma {:induction false} SortedListingUnique<V>(a: seq<Row<V>>, b: seq<Row<V>>)
    requires Sorted(a) && Sorted(b) && Contents(a) == Contents(b)
    ensures a == b
  {
    if a == [] {
      if b != [] { ContentsTail(b); }
    } else {
      ContentsTail(a);
      if b == [] {
        assert false;
      } else {
        ContentsTail(b);
        if a[0].key != b[0].key {
          LessAsymmetric(a[0].key, b[0].key);
        }
        SortedListingUnique(a[1..], b[1..]);
        assert a == [a[0]] + a[1..] && b == [b[0]] + b[1..];
      }
    }
  }

  /** The suffix left by advancing while the current key is below `bound`. */
  function DropBelow<V>(rows: seq<Row<V>>, bound: Bytes): (rest: seq<Row<V>>)
  {
    if rows != [] && Less(rows[0].key, bound) then DropBelow(rows[1..], bound) else rows
  }

  /** The part of a map with keys at or above `bound`. */
  ghost function AtOrAbove<V>(m: map<Bytes, V>, bound: Bytes): (r: map<Bytes, V>)
  {
    map k | k in m && !Less(k, bound) :: m[k]
  }

  lemma {:induction false} DropBelowContents<V>(rows: seq<Row<V>>, bound: Bytes)
    requires Sorted(rows)
    ensures Sorted(DropBelow(rows, bound))
    ensures Contents(DropBelow(rows, bound)) == AtOrAbove(Contents(rows), bound)
  {
    if rows != [] {
      ContentsTail(rows);
      if Less(rows[0].key, bound) {
        DropBelowContents(rows[1..], bound);
        assert AtOrAbove(Contents(rows[1..]), bound) == AtOrAbove(Contents(rows), bound);
      } else {
        forall k | k in Contents(rows) ensures !Less(k, bound) {
          if Less(k, bound) && k != rows[0].key {
            LessTransitive(rows[0].key, k, bound);
          }
        }
      }
    }
  }

  /** Newest layer first: an earlier layer's value for a key hides every later one. */
  ghost function View<V>(layers: seq<map<Bytes, V>>): (m: map<Bytes, V>)
  {
    if layers == [] then map[] else View(layers[1..]) + layers[0]
  }

  /** The view holds exactly the keys some layer holds. */
  lemma {:induction false} ViewKeys<V>(layers: seq<map<Bytes, V>>, k: Bytes)
    ensures k in View(layers) <==> exists i :: 0 <= i < |layers| && k in layers[i]
  {
    if layers != [] {
      ViewKeys(layers[1..], k);
      if exists i :: 0 <= i < |layers| && k in layers[i] {
        var i :| 0 <= i < |layers| && k in layers[i];
        if 0 < i {
          assert k in layers[1..][i - 1];
        }
      }
      if k in View(layers) && k !in layers[0] {
        var i :| 0 <= i < |layers[1..]| && k in layers[1..][i];
        assert k in layers[i + 1];
      }
    }
  }

  /** ... and each with the value of the lowest-index layer holding it. */
  lemma {:induction false} ViewNewestWins<V>(layers: seq<map<Bytes, V>>, i: nat, k: Bytes)
    requires i < |layers| && k in layers[i]
    requires forall j :: 0 <= j < i ==> k !in layers[j]
    ensures k in View(layers) && View(layers)[k] == layers[i][k]
  {
    if 0 < i {
      ViewNewestWins(layers[1..], i - 1, k);
    }
  }

  lemma {:induction false} ViewConcat<V>(newer: seq<map<Bytes, V>>, older: seq<map<Bytes, V>>)
    ensures View(newer + older) == View(older) + View(newer)
  {
    if newer == [] {
      assert newer + older == older;
    } else {
      assert (newer + older)[1..] == newer[1..] + older;
      ViewConcat(newer[1..], older);
      MergeAssociates(View(older), View(newer[1..]), newer[0]);
    }
  }

  /** Viewing each consecutive group first and then the group views changes nothing. */
  lemma {:induction false} NestedViewIsFlatView<V>(groups: seq<seq<map<Bytes, V>>>)
    ensures View(GroupViews(groups)) == View(Flatten(groups))
  {
    if groups != [] {
      NestedViewIsFlatView(groups[1..]);
      ViewConcat(groups[0], Flatten(groups[1..]));
    }
  }

  ghost function GroupViews<V>(groups: seq<seq<map<Bytes, V>>>): (views: seq<map<Bytes, V>>)
  {
    if groups == [] then [] else [View(groups[0])] + GroupViews(groups[1..])
  }

  ghost function Flatten<T>(groups: seq<seq<T>>): (all: seq<T>)
  {
    if groups == [] then [] else groups[0] + Flatten(groups[1..])
  }

  lemma RemoveFromMerge<K, V>(older: map<K, V>, newer: map<K, V>, k: K)
    ensures (older + newer) - {k} == (older - {k}) + (newer - {k})
  {
  }

  lemma MergeAssociates<K, V>(a: map<K, V>, b: map<K, V>, c: map<K, V>)
    ensures (a + b) + c == a + (b + c)
  {
  }

  /** Taking `k` out of one layer changes the view at `k` only. */
  lemma {:induction false} ViewWithoutKey<V>(layers: seq<map<Bytes, V>>, i: nat, k: Bytes)
    requires i < |layers|
    ensures View(layers[i := layers[i] - {k}]) - {k} == View(layers) - {k}
  {
    var changed := layers[i := layers[i] - {k}];
    if i == 0 {
      assert changed[1..] == layers[1..];
      RemoveFromMerge(View(layers[1..]), layers[0], k);
      RemoveFromMerge(View(layers[1..]), layers[0] - {k}, k);
      assert layers[0] - {k} - {k} == layers[0] - {k};
    } else {
      assert changed[1..] == layers[1..][i - 1 := layers[1..][i - 1] - {k}];
      ViewWithoutKey(layers[1..], i - 1, k);
      RemoveFromMerge(View(changed[1..]), layers[0], k);
      RemoveFromMerge(View(layers[1..]), layers[0], k);
    }
  }

  /** Restricting every layer to keys at or above a bound restricts the view. */
  lemma {:induction false} ViewAtOrAbove<V>(layers: seq<map<Bytes, V>>, bounded: seq<map<Bytes, V>>, bound: Bytes)
    requires |bounded| == |layers|
    requires forall i :: 0 <= i < |layers| ==> bounded[i] == AtOrAbove(layers[i], bound)
    ensures View(bounded) == AtOrAbove(View(layers), bound)
  {
    if layers != [] {
      ViewAtOrAbove(layers[1..], bounded[1..], bound);
      assert AtOrAbove(View(layers[1..]) + layers[0], bound)
          == AtOrAbove(View(layers[1..]), bound) + AtOrAbove(layers[0], bound);
    }
  }
}
