/**
 * Large values stored as chunks under derived keys. Seen through `Retrieve`, the
 * engine is a map from name to bytes.
 */
module BlobStore {
  import opened Options
  import opened Bytes
  import opened BlobKeys

  const U32: nat := 0x1_0000_0000

  type Engine = map<Bytes, Bytes>

  function Get(engine: Engine, key: Bytes): (value: Option<Bytes>)
  {
    if key in engine then Some(engine[key]) else None
  }

  // ---------------------------------------------------------------------------
  // Chunks of a value
  // ---------------------------------------------------------------------------

  /** An empty value still takes one chunk; otherwise the length divided by the size, rounded up. */
  function ChunksNeeded(length: nat, size: nat): (n: nat)
    requires size > 0
  {
    if length == 0 then 1 else (length + size - 1) / size
  }

  /** The `as u32` cast keeps the low 32 bits. */
  function ChunkCount(length: nat, size: nat): (n: nat)
    requires size > 0
  {
    ChunksNeeded(length, size) % U32
  }

  function Cut(data: Bytes, size: nat, n: nat): (upTo: nat)
    ensures upTo <= |data|
  {
    if n * size < |data| then n * size else |data|
  }

  /** What the first `n` chunks hold together. */
  function FirstChunks(data: Bytes, size: nat, n: nat): (part: Bytes)
  {
    data[..Cut(data, size, n)]
  }

  lemma ChunkBounds(length: nat, size: nat, i: nat)
    requires size > 0
    ensures i < ChunksNeeded(length, size) ==> i * size <= length && (0 < length ==> i * size < length)
    ensures ChunksNeeded(length, size) <= i ==> length <= i * size
  {
    if length > 0 {
      var n := ChunksNeeded(length, size);
      DivideUp(length, size);
      if i < n {
        ProductMonotone(i + 1, n, size);
      } else {
        ProductMonotone(n, i, size);
      }
    }
  }

  lemma DivideUp(length: nat, size: nat)
    requires size > 0 && length > 0
    ensures var n := (length + size - 1) / size;
            length <= n * size < length + size
  {
    var m := length + size - 1;
    assert m == (m / size) * size + m % size;
  }

  lemma ProductMonotone(a: nat, b: nat, size: nat)
    requires a <= b
    ensures a * size <= b * size && (a + 1) * size == a * size + size
  {
    assert (b - a) * size >= 0;
  }

  /** What `Retrieve` gives back for a stored value. */
  function Retrievable(data: Bytes, size: nat): (part: Bytes)
    requires size > 0
  {
    FirstChunks(data, size, ChunkCount(|data|, size))
  }

  /** All of it comes back exactly when the number of chunks fits the 32-bit count. */
  lemma RetrievableIff(data: Bytes, size: nat)
    requires size > 0
    ensures Retrievable(data, size) == data <==> ChunksNeeded(|data|, size) < U32
  {
    var needed := ChunksNeeded(|data|, size);
    ChunkBounds(|data|, size, ChunkCount(|data|, size));
    if needed < U32 {
      assert needed % U32 == needed;
    } else {
      assert needed % U32 < needed;
      assert |data| > 0;
    }
  }

  /** In chunks of one byte, a blob of 2^32 bytes is stored without an error and comes back empty. */
  lemma HugeBlobComesBackEmpty(data: Bytes)
    requires |data| == U32
    ensures ChunksNeeded(|data|, 1) == U32 && ChunkCount(|data|, 1) == 0 && Retrievable(data, 1) == []
  {
    assert data[..0] == [];
  }

  // ---------------------------------------------------------------------------
  // Reading through the keys
  // ---------------------------------------------------------------------------

  /** The first `n` chunks found under a name, a missing one counting as empty. */
  function Joined(engine: Engine, name: Bytes, n: nat): (value: Bytes)
  {
    if n == 0 then []
    else
      var chunk := Get(engine, ChunkKey(name, n - 1));
      Joined(engine, name, n - 1) + if chunk.Some? then chunk.value else []
  }

  /** The stored chunk count, if the name has valid metadata. */
  function CountAt(engine: Engine, name: Bytes): (n: Option<nat>)
  {
    var json := Get(engine, MetaKey(name));
    if json.None? then None
    else
      var meta := DecodeMeta(json.value);
      if meta.None? then None else Some(meta.value.chunkCount)
  }

  function Fetched(engine: Engine, name: Bytes): (value: Option<Bytes>)
  {
    var n := CountAt(engine, name);
    if n.None? then None else Some(Joined(engine, name, n.value))
  }

  /** Two engines that agree on all keys of a name fetch the same value. */
  lemma {:induction false} SameJoined(a: Engine, b: Engine, name: Bytes, n: nat)
    requires forall i :: 0 <= i < n ==> Get(a, ChunkKey(name, i)) == Get(b, ChunkKey(name, i))
    ensures Joined(a, name, n) == Joined(b, name, n)
  {
    if n > 0 {
      SameJoined(a, b, name, n - 1);
    }
  }

  lemma {:induction false} JoinedChunks(engine: Engine, name: Bytes, data: Bytes, size: nat, n: nat)
    requires ChunksWritten(engine, name, data, size, n)
    ensures Joined(engine, name, n) == FirstChunks(data, size, n)
  {
    if n == 0 {
      assert Cut(data, size, 0) == 0;
    } else {
      JoinedChunks(engine, name, data, size, n - 1);
      JoinOneMore(engine, name, n, Chunk(data, size, n - 1));
      AddChunk(data, size, n - 1);
    }
  }

  lemma JoinOneMore(engine: Engine, name: Bytes, n: nat, chunk: Bytes)
    requires n > 0 && Get(engine, ChunkKey(name, n - 1)) == Some(chunk)
    ensures Joined(engine, name, n) == Joined(engine, name, n - 1) + chunk
  {
  }

  lemma AddChunk(data: Bytes, size: nat, n: nat)
    ensures FirstChunks(data, size, n) + Chunk(data, size, n) == FirstChunks(data, size, n + 1)
  {
    ProductMonotone(n, n + 1, size);
    assert Cut(data, size, n) <= Cut(data, size, n + 1);
  }

  /** Chunk `i` of the value: from `i * size`, up to `size` bytes. */
  function Chunk(data: Bytes, size: nat, i: nat): (chunk: Bytes)
  {
    var start, end := Cut(data, size, i), Cut(data, size, i + 1);
    if start <= end then data[start..end] else []
  }

  ghost predicate ChunksWritten(engine: Engine, name: Bytes, data: Bytes, size: nat, n: nat)
  {
    forall i :: 0 <= i < n ==> Get(engine, ChunkKey(name, i)) == Some(Chunk(data, size, i))
  }

  /** With the chunks in place, writing the metadata makes the value fetchable. */
  lemma StoredIsFetched(engine: Engine, name: Bytes, data: Bytes, size: nat)
    requires size > 0 && ChunksWritten(engine, name, data, size, ChunkCount(|data|, size))
    ensures var meta := BlobMeta(|data|, ChunkCount(|data|, size));
            var after := engine[MetaKey(name) := EncodeMeta(meta)];
            Fetched(after, name) == Some(Retrievable(data, size)) && DecodeMeta(after[MetaKey(name)]).Some?
  {
    var n := ChunkCount(|data|, size);
    var meta := BlobMeta(|data|, n);
    var after := engine[MetaKey(name) := EncodeMeta(meta)];
    MetaRoundTrip(meta);
    JoinedChunks(engine, name, data, size, n);
    forall i | 0 <= i < n ensures Get(engine, ChunkKey(name, i)) == Get(after, ChunkKey(name, i)) {
      MetaAndChunkKeysDisjoint(name, name, i);
    }
    SameJoined(engine, after, name, n);
  }

  /** Only the metadata and chunk keys of `name` may differ. */
  ghost predicate OnlyTouches(before: Engine, after: Engine, name: Bytes)
  {
    forall key :: Get(before, key) != Get(after, key) ==> OwnKey(key, name)
  }

  ghost predicate OwnKey(key: Bytes, name: Bytes)
  {
    key == MetaKey(name) || exists i: nat :: key == ChunkKey(name, i)
  }

  /** A store or delete under one name is invisible under every other, colons or not. */
  lemma OthersUntouched(before: Engine, after: Engine, name: Bytes, other: Bytes)
    requires OnlyTouches(before, after, name) && other != name
    ensures Fetched(before, other) == Fetched(after, other)
    ensures Get(before, MetaKey(other)) == Get(after, MetaKey(other))
  {
    if OwnKey(MetaKey(other), name) {
      if MetaKey(other) == MetaKey(name) {
        MetaKeysInjective(other, name);
      } else {
        var i: nat :| MetaKey(other) == ChunkKey(name, i);
        MetaAndChunkKeysDisjoint(other, name, i);
      }
    }
    var n := CountAt(before, other);
    if n.Some? {
      forall i | 0 <= i < n.value ensures Get(before, ChunkKey(other, i)) == Get(after, ChunkKey(other, i)) {
        if OwnKey(ChunkKey(other, i), name) {
          MetaAndChunkKeysDisjoint(name, other, i);
          var j: nat :| ChunkKey(other, i) == ChunkKey(name, j);
          ChunkKeysInjective(other, i, name, j);
        }
      }
      SameJoined(before, after, other, n.value);
    }
  }

  // ---------------------------------------------------------------------------
  // The store
  // ---------------------------------------------------------------------------

  datatype Response = Ok(value: Option<Bytes>) | Err

  class BlobStore {
    var engine: Engine
    const maxChunkSize: nat
    ghost var blobs: map<Bytes, Bytes>  // the map this store implements

    ghost predicate Valid()
      reads this
    {
      && maxChunkSize > 0
      && (forall name :: MetaKey(name) in engine ==> DecodeMeta(engine[MetaKey(name)]).Some?)
      && (forall name :: Fetched(engine, name) == Get(blobs, name))
    }

    constructor (maxChunkSize: nat)
      requires maxChunkSize > 0
      ensures Valid() && blobs == map[] && this.maxChunkSize == maxChunkSize
    {
      engine, blobs := map[], map[];
      this.maxChunkSize := maxChunkSize;
    }

    method Store(name: Bytes, data: Bytes) returns (chunkCount: nat)
      requires Valid()
      modifies this
      ensures Valid() && blobs == old(blobs)[name := Retrievable(data, maxChunkSize)]
      ensures chunkCount == ChunkCount(|data|, maxChunkSize)
    {
      chunkCount := ChunkCount(|data|, maxChunkSize);
      ChunkBounds(|data|, maxChunkSize, chunkCount);
      WriteChunks(name, data, chunkCount);
      StoredIsFetched(engine, name, data, maxChunkSize);
      assert OwnKey(MetaKey(name), name);
      engine := engine[MetaKey(name) := EncodeMeta(BlobMeta(|data|, chunkCount))];
      blobs := blobs[name := Retrievable(data, maxChunkSize)];
      OthersKept(old(engine), old(blobs), name);
    }

    /** The chunk loop of `Store`. */
    method WriteChunks(name: Bytes, data: Bytes, count: nat)
      requires maxChunkSize > 0 && count <= ChunksNeeded(|data|, maxChunkSize)
      modifies this`engine
      ensures ChunksWritten(engine, name, data, maxChunkSize, count)
      ensures OnlyTouches(old(engine), engine, name)
    {
      for i := 0 to count
        invariant ChunksWritten(engine, name, data, maxChunkSize, i)
        invariant OnlyTouches(old(engine), engine, name)
      {
        ChunkBounds(|data|, maxChunkSize, i);
        ProductMonotone(i, i, maxChunkSize);
        var start := i * maxChunkSize;
        var end := if start + maxChunkSize < |data| then start + maxChunkSize else |data|;
        assert data[start..end] == Chunk(data, maxChunkSize, i);
        forall j | 0 <= j < i ensures ChunkKey(name, j) != ChunkKey(name, i) {
          if ChunkKey(name, j) == ChunkKey(name, i) {
            ChunkKeysInjective(name, j, name, i);
          }
        }
        assert OwnKey(ChunkKey(name, i), name);
        engine := engine[ChunkKey(name, i) := data[start..end]];
      }
    }

    /** After a change that touched only `name`, every other name still fetches its blob. */
    ghost method OthersKept(before: Engine, oldBlobs: map<Bytes, Bytes>, name: Bytes)
      requires forall other :: Fetched(before, other) == Get(oldBlobs, other)
      requires forall other :: MetaKey(other) in before ==> DecodeMeta(before[MetaKey(other)]).Some?
      requires OnlyTouches(before, engine, name)
      requires forall other :: other != name ==> Get(blobs, other) == Get(oldBlobs, other)
      ensures forall other :: other != name ==>
                && Fetched(engine, other) == Get(blobs, other)
                && (MetaKey(other) in engine ==> DecodeMeta(engine[MetaKey(other)]).Some?)
    {
      forall other | other != name
        ensures Fetched(engine, other) == Get(blobs, other)
        ensures MetaKey(other) in engine ==> DecodeMeta(engine[MetaKey(other)]).Some?
      {
        OthersUntouched(before, engine, name, other);
      }
    }

    /** The last stored bytes, or nothing: orphaned chunks of older versions never surface. */
    method Retrieve(name: Bytes) returns (response: Response)
      requires Valid()
      ensures response == Ok(Get(blobs, name))
    {
      assert Fetched(engine, name) == Get(blobs, name);
      var json := Get(engine, MetaKey(name));
      if json.None? {
        return Ok(None);
      }
      var meta := DecodeMeta(json.value);
      if meta.None? {
        return Err;
      }
      var result := [];
      for i := 0 to meta.value.chunkCount
        invariant result == Joined(engine, name, i)
      {
        var chunk := Get(engine, ChunkKey(name, i));
        result := result + if chunk.Some? then chunk.value else [];
      }
      return Ok(Some(result));
    }

    method EraseChunks(name: Bytes, count: nat)
      modifies this`engine
      ensures OnlyTouches(old(engine), engine, name)
    {
      for i := 0 to count
        invariant OnlyTouches(old(engine), engine, name)
      {
        assert OwnKey(ChunkKey(name, i), name);
        engine := engine - {ChunkKey(name, i)};
      }
    }

    method Delete(name: Bytes)
      requires Valid()
      modifies this
      ensures Valid() && blobs == old(blobs) - {name}
    {
      var json := Get(engine, MetaKey(name));
      if json.Some? {
        var meta := DecodeMeta(json.value);
        if meta.Some? {
          EraseChunks(name, meta.value.chunkCount);
        }
      }
      assert OwnKey(MetaKey(name), name);
      ghost var erased := engine;
      engine := engine - {MetaKey(name)};
      assert forall key :: Get(erased, key) != Get(engine, key) ==> key == MetaKey(name);
      blobs := blobs - {name};
      OthersKept(old(engine), old(blobs), name);
    }
  }
}
