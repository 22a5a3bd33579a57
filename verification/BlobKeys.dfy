/** The keys and metadata under which blobs live in the key-value engine. */
module BlobKeys {
  import opened Options
  import opened Bytes

  const COLON: Byte := 58
  const CLOSE: Byte := 125

  /** "__blob_meta:" and "__blob_chunk:" in ASCII. */
  const META_PREFIX: Bytes := [95, 95, 98, 108, 111, 98, 95, 109, 101, 116, 97, 58]
  const CHUNK_PREFIX: Bytes := [95, 95, 98, 108, 111, 98, 95, 99, 104, 117, 110, 107, 58]

  function MetaKey(name: Bytes): (key: Bytes)
  {
    META_PREFIX + name
  }

  function ChunkKey(name: Bytes, index: nat): (key: Bytes)
  {
    CHUNK_PREFIX + name + [COLON] + Decimal(index)
  }

  // ---------------------------------------------------------------------------
  // Decimal numbers
  // ---------------------------------------------------------------------------

  predicate IsDigit(b: Byte)
  {
    48 <= b <= 57
  }

  function Decimal(n: nat): (digits: Bytes)
    ensures digits != [] && forall i :: 0 <= i < |digits| ==> IsDigit(digits[i])
  {
    if n < 10 then [48 + n] else Decimal(n / 10) + [48 + n % 10]
  }

  function DecimalValue(digits: Bytes): (n: nat)
    requires forall i :: 0 <= i < |digits| ==> IsDigit(digits[i])
  {
    if digits == [] then 0
    else
      var last := digits[|digits| - 1];
      assert IsDigit(last);
      DecimalValue(digits[..|digits| - 1]) * 10 + (last as int - 48)
  }

  lemma {:induction false} DecimalRoundTrip(n: nat)
    ensures DecimalValue(Decimal(n)) == n
  {
    if n < 10 {
      assert Decimal(n)[..0] == [];
    } else {
      DecimalRoundTrip(n / 10);
      assert Decimal(n)[..|Decimal(n)| - 1] == Decimal(n / 10);
    }
  }

  // ---------------------------------------------------------------------------
  // Keys do not collide
  // ---------------------------------------------------------------------------

  /** The part after the last colon is all digits, so a colon in the name cannot mislead. */
  lemma SuffixDecides(a: Bytes, x: Bytes, b: Bytes, y: Bytes)
    requires a + [COLON] + x == b + [COLON] + y
    requires COLON !in x && COLON !in y
    ensures a == b && x == y
  {
    var s, t := a + [COLON] + x, b + [COLON] + y;
    assert s[|a|] == COLON && t[|b|] == COLON;
    assert |a| == |b|;
    assert a == s[..|a|] && b == t[..|b|];
    assert x == s[|a| + 1..] && y == t[|b| + 1..];
  }

  lemma ChunkKeysInjective(a: Bytes, i: nat, b: Bytes, j: nat)
    requires ChunkKey(a, i) == ChunkKey(b, j)
    ensures a == b && i == j
  {
    var n := |CHUNK_PREFIX|;
    var s, t := a + [COLON] + Decimal(i), b + [COLON] + Decimal(j);
    assert ChunkKey(a, i) == CHUNK_PREFIX + s && ChunkKey(b, j) == CHUNK_PREFIX + t;
    assert s == (CHUNK_PREFIX + s)[n..] && t == (CHUNK_PREFIX + t)[n..];
    SuffixDecides(a, Decimal(i), b, Decimal(j));
    DecimalRoundTrip(i);
    DecimalRoundTrip(j);
  }

  lemma MetaKeysInjective(a: Bytes, b: Bytes)
    requires MetaKey(a) == MetaKey(b)
    ensures a == b
  {
    assert a == MetaKey(a)[|META_PREFIX|..] && b == MetaKey(b)[|META_PREFIX|..];
  }

  lemma MetaAndChunkKeysDisjoint(a: Bytes, b: Bytes, i: nat)
    ensures MetaKey(a) != ChunkKey(b, i)
  {
    assert MetaKey(a)[7] == META_PREFIX[7] && ChunkKey(b, i)[7] == CHUNK_PREFIX[7];
  }

  // ---------------------------------------------------------------------------
  // Metadata as JSON
  // ---------------------------------------------------------------------------

  datatype BlobMeta = BlobMeta(totalSize: nat, chunkCount: nat)

  /** `{"total_size":` and `,"chunk_count":` in ASCII. */
  const SIZE_FIELD: Bytes := [123, 34, 116, 111, 116, 97, 108, 95, 115, 105, 122, 101, 34, 58]
  const COUNT_FIELD: Bytes := [44, 34, 99, 104, 117, 110, 107, 95, 99, 111, 117, 110, 116, 34, 58]

  function EncodeMeta(meta: BlobMeta): (json: Bytes)
  {
    SIZE_FIELD + Decimal(meta.totalSize) + COUNT_FIELD + Decimal(meta.chunkCount) + [CLOSE]
  }

  /** How many digits a byte string starts with. */
  function DigitRun(s: Bytes): (n: nat)
    ensures n <= |s| && forall i :: 0 <= i < n ==> IsDigit(s[i])
    ensures n < |s| ==> !IsDigit(s[n])
  {
    if s == [] || !IsDigit(s[0]) then 0 else 1 + DigitRun(s[1..])
  }

  /** Parses what `EncodeMeta` writes, and nothing else. */
  function DecodeMeta(json: Bytes): (meta: Option<BlobMeta>)
  {
    if !(SIZE_FIELD <= json) then None
    else
      var size := json[|SIZE_FIELD|..];
      var n := DigitRun(size);
      var count := DecodeCount(size[n..]);
      if n == 0 || count.None? then None else Some(BlobMeta(DecimalValue(size[..n]), count.value))
  }

  function DecodeCount(json: Bytes): (count: Option<nat>)
  {
    if !(COUNT_FIELD <= json) then None
    else
      var count := json[|COUNT_FIELD|..];
      var n := DigitRun(count);
      if n == 0 || count[n..] != [CLOSE] then None else Some(DecimalValue(count[..n]))
  }

  lemma {:induction false} DigitRunOf(digits: Bytes, rest: Bytes)
    requires forall i :: 0 <= i < |digits| ==> IsDigit(digits[i])
    requires rest != [] && !IsDigit(rest[0])
    ensures DigitRun(digits + rest) == |digits|
  {
    if digits == [] {
      assert digits + rest == rest;
    } else {
      assert (digits + rest)[1..] == digits[1..] + rest;
      DigitRunOf(digits[1..], rest);
    }
  }

  lemma Strip(prefix: Bytes, rest: Bytes)
    ensures prefix <= prefix + rest && (prefix + rest)[|prefix|..] == rest && (prefix + rest)[..|prefix|] == prefix
  {
  }

  lemma Regroup(a: Bytes, b: Bytes, c: Bytes, d: Bytes, e: Bytes)
    ensures a + b + c + d + e == a + (b + (c + d + e))
  {
  }

  lemma CountRoundTrip(n: nat)
    ensures DecodeCount(COUNT_FIELD + Decimal(n) + [CLOSE]) == Some(n)
  {
    var json := COUNT_FIELD + Decimal(n) + [CLOSE];
    var count := json[|COUNT_FIELD|..];
    assert count == Decimal(n) + [CLOSE];
    DigitRunOf(Decimal(n), [CLOSE]);
    assert count[|Decimal(n)|..] == [CLOSE] && count[..|Decimal(n)|] == Decimal(n);
    DecimalRoundTrip(n);
  }

  lemma MetaRoundTrip(meta: BlobMeta)
    ensures DecodeMeta(EncodeMeta(meta)) == Some(meta)
  {
    var json, digits := EncodeMeta(meta), Decimal(meta.totalSize);
    var tail := COUNT_FIELD + Decimal(meta.chunkCount) + [CLOSE];
    Regroup(SIZE_FIELD, digits, COUNT_FIELD, Decimal(meta.chunkCount), [CLOSE]);
    Strip(SIZE_FIELD, digits + tail);
    Strip(digits, tail);
    DigitRunOf(digits, tail);
    CountRoundTrip(meta.chunkCount);
    DecimalRoundTrip(meta.totalSize);
  }
}
