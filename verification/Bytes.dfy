/**
 * Byte strings and the lexicographic order in which the store keeps its keys.
 */
module Bytes {
  type Byte = b: int | 0 <= b < 256

  type Bytes = seq<Byte>

  /** Strict lexicographic order: a proper prefix sorts before its extensions. */
  predicate Less(a: Bytes, b: Bytes)
  {
    if b == [] then false
    else if a == [] then true
    else a[0] < b[0] || (a[0] == b[0] && Less(a[1..], b[1..]))
  }

  predicate AtMost(a: Bytes, b: Bytes)
  {
    a == b || Less(a, b)
  }

  lemma {:induction false} LessIrreflexive(a: Bytes)
    ensures !Less(a, a)
  {
    if a != [] {
      LessIrreflexive(a[1..]);
    }
  }

  lemma {:induction false} LessTransitive(a: Bytes, b: Bytes, c: Bytes)
    requires Less(a, b) && Less(b, c)
    ensures Less(a, c)
  {
    if a != [] && a[0] == b[0] && b[0] == c[0] {
      LessTransitive(a[1..], b[1..], c[1..]);
    }
  }

  lemma {:induction false} LessTotal(a: Bytes, b: Bytes)
    ensures Less(a, b) || a == b || Less(b, a)
  {
    if a != [] && b != [] && a[0] == b[0] {
      LessTotal(a[1..], b[1..]);
      assert a == [a[0]] + a[1..] && b == [b[0]] + b[1..];
    }
  }

  lemma {:induction false} LessAsymmetric(a: Bytes, b: Bytes)
    requires Less(a, b)
    ensures !Less(b, a) && a != b
  {
    LessIrreflexive(a);
    if Less(b, a) {
      LessTransitive(a, b, a);
    }
  }

  /** The order facts in quantified form, for proofs that compare many keys. */
  lemma OrderFacts()
    ensures forall a: Bytes {:trigger Less(a, a)} :: !Less(a, a)
    ensures forall a: Bytes, b: Bytes, c: Bytes {:trigger Less(a, b), Less(b, c)} ::
              Less(a, b) && Less(b, c) ==> Less(a, c)
    ensures forall a: Bytes, b: Bytes {:trigger Less(a, b)} :: Less(a, b) || a == b || Less(b, a)
  {
    forall a: Bytes ensures !Less(a, a) { LessIrreflexive(a); }
    forall a: Bytes, b: Bytes, c: Bytes | Less(a, b) && Less(b, c) ensures Less(a, c) {
      LessTransitive(a, b, c);
    }
    forall a: Bytes, b: Bytes ensures Less(a, b) || a == b || Less(b, a) { LessTotal(a, b); }
  }

  /** `k ++ [0]` is the least byte string above `k`: nothing lies between the two. */
  lemma {:induction false} ZeroExtensionIsSuccessor(k: Bytes, other: Bytes)
    ensures Less(k, k + [0])
    ensures Less(k, other) <==> AtMost(k + [0], other)
  {
    if k == [] {
      if other != [] && other[0] == 0 {
        assert (k + [0])[1..] == [];
        assert other == [0] + other[1..];
        assert other[1..] != [] ==> Less((k + [0])[1..], other[1..]);
      }
    } else {
      assert (k + [0])[1..] == k[1..] + [0];
      if other != [] {
        ZeroExtensionIsSuccessor(k[1..], other[1..]);
        assert other == [other[0]] + other[1..];
        assert k + [0] == [k[0]] + (k[1..] + [0]);
      } else {
        ZeroExtensionIsSuccessor(k[1..], []);
      }
    }
  }

  /** Keys under "__" are internal. */
  predicate IsReserved(key: Bytes)
  {
    [95, 95] <= key
  }
}
