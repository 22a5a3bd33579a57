/**
 * The in-place carry that `prefix_end` and `key_after` share: add one to the last
 * byte, carrying leftwards, and append a zero byte when every byte was 0xFF.
 */
module Successor {
  import opened Options
  import opened Bytes
  import opened Utf8

  /** Plus one with carry; `None` when every byte is 0xFF. */
  function PlusOne(key: Bytes): (next: Option<Bytes>)
    ensures next.Some? ==> |next.value| == |key|
  {
    if key == [] then None
    else
      var init, last := key[..|key| - 1], key[|key| - 1];
      if last < 255 then Some(init + [last + 1])
      else
        var carried := PlusOne(init);
        if carried.None? then None else Some(carried.value + [0])
  }

  function Zeros(n: nat): (zeros: Bytes)
    ensures |zeros| == n && forall i :: 0 <= i < n ==> zeros[i] == 0
  {
    seq(n, _ => 0)
  }

  function Carried(key: Bytes): (next: Bytes)
  {
    if PlusOne(key).Some? then PlusOne(key).value else Zeros(|key|) + [0]
  }

  /** The reverse loop over the bytes, run on a copy of the key. */
  method CarryLoop(key: Bytes) returns (result: Bytes)
    ensures result == Carried(key)
  {
    var buffer := new Byte[|key|];
    forall i | 0 <= i < |key| {
      buffer[i] := key[i];
    }
    var i := |key|;
    while i > 0
      invariant 0 <= i <= |key| == buffer.Length
      invariant buffer[..i] == key[..i] && buffer[i..] == Zeros(|key| - i)
      invariant forall j :: i <= j < |key| ==> key[j] == 255
    {
      i := i - 1;
      assert buffer[i] == key[..i + 1][i];
      if buffer[i] < 255 {
        buffer[i] := buffer[i] + 1;
        CarryThroughFF(key, i + 1);
        assert key[..i + 1][..i] == key[..i];
        assert buffer[..] == key[..i] + [key[i] + 1] + Zeros(|key| - i - 1);
        return buffer[..];
      }
      buffer[i] := 0;
    }
    CarryThroughFF(key, 0);
    result := buffer[..] + [0];
  }

  /** Trailing 0xFF bytes become zeros and pass the carry on. */
  lemma {:induction false} CarryThroughFF(key: Bytes, i: nat)
    requires i <= |key| && forall j :: i <= j < |key| ==> key[j] == 255
    ensures PlusOne(key) == if PlusOne(key[..i]).None? then None
                            else Some(PlusOne(key[..i]).value + Zeros(|key| - i))
  {
    if i == |key| {
      assert key[..i] == key;
      assert PlusOne(key).Some? ==> PlusOne(key).value + Zeros(0) == PlusOne(key).value;
    } else {
      var n := |key| - 1;
      CarryThroughFF(key[..n], i);
      assert key[..n][..i] == key[..i];
      var carried := PlusOne(key[..i]);
      if carried.Some? {
        assert carried.value + Zeros(n - i) + [0] == carried.value + Zeros(|key| - i);
      }
    }
  }

  // ---------------------------------------------------------------------------
  // Order facts
  // ---------------------------------------------------------------------------

  lemma {:induction false} PrefixIsAtMost(p: Bytes, k: Bytes)
    requires p <= k
    ensures AtMost(p, k)
  {
    if p != [] {
      assert p[1..] <= k[1..];
      PrefixIsAtMost(p[1..], k[1..]);
      assert p == [p[0]] + p[1..] && k == [k[0]] + k[1..];
    }
  }

  /** Comparison with a common prefix is comparison of what follows it. */
  lemma {:induction false} LessAfterPrefix(p: Bytes, a: Bytes, b: Bytes)
    ensures Less(p + a, p + b) <==> Less(a, b)
  {
    if p == [] {
      assert p + a == a && p + b == b;
    } else {
      assert (p + a)[1..] == p[1..] + a && (p + b)[1..] == p[1..] + b;
      LessAfterPrefix(p[1..], a, b);
    }
  }

  /** Keys that differ first where neither has ended stay in that order however they go on. */
  lemma {:induction false} LessDecidedEarly(a: Bytes, b: Bytes, x: Bytes, y: Bytes)
    requires |a| == |b| && Less(a, b)
    ensures Less(a + x, b + y)
  {
    assert (a + x)[0] == a[0] && (b + y)[0] == b[0];
    if a[0] == b[0] {
      assert (a + x)[1..] == a[1..] + x && (b + y)[1..] == b[1..] + y;
      LessDecidedEarly(a[1..], b[1..], x, y);
    }
  }

  lemma {:induction false} PlusOneIsGreater(key: Bytes)
    requires PlusOne(key).Some?
    ensures Less(key, PlusOne(key).value)
  {
    var init, last := key[..|key| - 1], key[|key| - 1];
    assert key == init + [last];
    if last < 255 {
      LessAfterPrefix(init, [last], [last + 1]);
    } else {
      PlusOneIsGreater(init);
      LessDecidedEarly(init, PlusOne(init).value, [last], [0]);
    }
  }

  lemma {:induction false} NoPlusOneIsAllFF(key: Bytes)
    requires PlusOne(key).None?
    ensures forall i :: 0 <= i < |key| ==> key[i] == 255
  {
    if key != [] {
      NoPlusOneIsAllFF(key[..|key| - 1]);
    }
  }

  // ---------------------------------------------------------------------------
  // The carry as the end of a prefix range
  // ---------------------------------------------------------------------------

  /** `LsmEngine::prefix_end`: no bound for the empty prefix. */
  function PrefixEnd(prefix: Bytes): (end: Option<Bytes>)
  {
    if prefix == [] then None else Some(Carried(prefix))
  }

  predicate InRange(key: Bytes, lower: Option<Bytes>, upper: Option<Bytes>)
  {
    (lower.Some? ==> !Less(key, lower.value)) && (upper.Some? ==> Less(key, upper.value))
  }

  /** The range from a prefix to its computed end holds exactly the keys with that prefix. */
  ghost predicate BoundsPrefix(prefix: Bytes)
  {
    forall key :: InRange(key, Some(prefix), PrefixEnd(prefix)) <==> prefix <= key
  }

  lemma {:induction false} BumpedByteBoundsPrefix(init: Bytes, last: Byte, key: Bytes)
    requires last < 255
    ensures InRange(key, Some(init + [last]), Some(init + [last + 1])) <==> init + [last] <= key
  {
    var p, q := init + [last], init + [last + 1];
    if init <= key {
      var rest := key[|init|..];
      assert key == init + rest;
      LessAfterPrefix(init, rest, [last]);
      LessAfterPrefix(init, rest, [last + 1]);
      assert [last][1..] == [] && [last + 1][1..] == [];
      assert p <= key <==> rest != [] && rest[0] == last;
    } else {
      OffPrefix(init, [last], [last + 1], key);
    }
  }

  /** A key off the prefix is on the same side of both bounds. */
  lemma {:induction false} OffPrefix(init: Bytes, x: Bytes, y: Bytes, key: Bytes)
    requires !(init <= key)
    ensures Less(key, init + x) <==> Less(key, init + y)
  {
    if key != [] && key[0] == init[0] {
      assert (init + x)[1..] == init[1..] + x && (init + y)[1..] == init[1..] + y;
      OffPrefix(init[1..], x, y, key[1..]);
    }
  }

  /** The computed end bounds the prefix exactly when the prefix does not end in 0xFF. */
  lemma PrefixEndCorrectIff(prefix: Bytes)
    ensures BoundsPrefix(prefix) <==> prefix == [] || prefix[|prefix| - 1] != 255
  {
    if prefix == [] {
    } else {
      var init, last := prefix[..|prefix| - 1], prefix[|prefix| - 1];
      assert prefix == init + [last];
      if last < 255 {
        forall key ensures InRange(key, Some(prefix), PrefixEnd(prefix)) <==> prefix <= key {
          BumpedByteBoundsPrefix(init, last, key);
        }
      } else {
        var key := StrayKey(prefix);
        assert !(InRange(key, Some(prefix), PrefixEnd(prefix)) <==> prefix <= key);
      }
    }
  }

  /** The key that a prefix ending in 0xFF gets wrong. */
  lemma StrayKey(prefix: Bytes) returns (key: Bytes)
    requires prefix != [] && prefix[|prefix| - 1] == 255
    ensures InRange(key, Some(prefix), PrefixEnd(prefix)) <==> !(prefix <= key)
  {
    var init := prefix[..|prefix| - 1];
    if PlusOne(prefix).Some? {
      key := PlusOne(init).value;
      PlusOneIsGreater(init);
      assert prefix == init + [255] && key + [] == key;
      LessDecidedEarly(init, key, [255], []);
      LessAsymmetric(prefix, key);
      ZeroExtensionIsSuccessor(key, key);
    } else {
      key := prefix;
      NoPlusOneIsAllFF(prefix);
      assert Carried(prefix)[0] == 0 && prefix[0] == 255;
    }
  }

  /** Prefixes are strings, so every one of them is bounded exactly. */
  lemma StringPrefixIsBounded(prefix: Bytes)
    requires IsUtf8(prefix)
    ensures BoundsPrefix(prefix)
  {
    if prefix != [] {
      Utf8HasNoHighByte(prefix, |prefix| - 1);
    }
    PrefixEndCorrectIff(prefix);
  }
}
