/**
 * The chunk buffer with a cache in front of it (ImprovedChunkDataBuffer.java).
 * The parent ChunkDataBuffer is not part of this model; the chunks it holds
 * are a map from chunk coordinate to block data, its getBlocks a lookup in
 * that map, its removeAllChunks emptying it and its getChunkCount its size.
 */
module ImprovedChunkBuffer {
  import opened Wrappers
  import opened JavaArith
  import opened CacheSpec
  import opened SmartChunkCacheModel
  import opened ChunkDataPoolModel

  datatype Point = Point(x: int, z: int)

  /** Estimated bytes per cached chunk (2 MiB). */
  const EstimatedChunkSize: int := 2 * 1024 * 1024
  const DefaultPoolSize: int := 50
  const MinCacheSize: int := 50
  const MaxCacheSize: int := 1000

  /** A quarter of the memory, in estimated chunks, with Java's `long` division. */
  function ChunksInBudget(availableMemory: int): int
  {
    TruncDiv(TruncDiv(availableMemory, 4), EstimatedChunkSize)
  }

  /**
   * calculateOptimalCacheSize exactly as written: the quotient is narrowed to
   * `int` before it is clamped, so a quotient of 2^31 or more wraps around.
   */
  function CalculateOptimalCacheSizeAsWritten(availableMemory: int): (r: int)
    requires IsLong(availableMemory)
    ensures MinCacheSize <= r <= MaxCacheSize
  {
    Max(MinCacheSize, Min(ToInt(ChunksInBudget(availableMemory)), MaxCacheSize))
  }

  /** The intended sizing: the quotient clamped to [50, 1000] without narrowing first. */
  function CalculateOptimalCacheSize(availableMemory: int): (r: int)
    requires IsLong(availableMemory)
    ensures MinCacheSize <= r <= MaxCacheSize
    ensures MinCacheSize <= ChunksInBudget(availableMemory) <= MaxCacheSize ==> r == ChunksInBudget(availableMemory)
    ensures ChunksInBudget(availableMemory) > MaxCacheSize ==> r == MaxCacheSize
    ensures ChunksInBudget(availableMemory) < MinCacheSize ==> r == MinCacheSize
  {
    Max(MinCacheSize, Min(ChunksInBudget(availableMemory), MaxCacheSize))
  }

  /** Below 16 PiB (2^54 bytes) the quotient fits in an `int`, the narrowing changes nothing and the two agree. */
  lemma AsWrittenAgreesBelowWrap(availableMemory: int)
    requires 0 <= availableMemory < 0x40_0000_0000_0000
    ensures CalculateOptimalCacheSizeAsWritten(availableMemory) == CalculateOptimalCacheSize(availableMemory)
  {
    var quarter := availableMemory / 4;
    assert quarter < 0x10_0000_0000_0000;
    assert 0 <= quarter / EstimatedChunkSize < 0x8000_0000;
  }

  /** A JVM without a heap limit reports Long.MAX_VALUE; the narrowed quotient is -1 and the cache gets the minimum size. */
  lemma AsWrittenUnlimitedHeapGetsMinimum()
    ensures ChunksInBudget(LongMax) == 0xFF_FFFF_FFFF
    ensures CalculateOptimalCacheSizeAsWritten(LongMax) == MinCacheSize
    ensures CalculateOptimalCacheSize(LongMax) == MaxCacheSize
  {
    assert TruncDiv(LongMax, 4) == 0x1FFF_FFFF_FFFF_FFFF;
    assert ToInt(0xFF_FFFF_FFFF) == -1;
  }

  class ImprovedChunkDataBuffer<B> {
    /** The chunks the parent buffer holds. */
    var parent: map<Point, B>
    const chunkCache: SmartChunkCache<Point, B>
    const dataPool: ChunkDataPool<B>

    ghost predicate Valid()
      reads this, chunkCache, dataPool, dataPool.pool
    {
      chunkCache.Valid() && dataPool.Valid()
    }

    /** The cache is sized from the heap limit; the pool holds up to 50 wrappers. */
    constructor(availableMemory: int, parentChunks: map<Point, B>)
      requires IsLong(availableMemory)
      ensures Valid() && fresh(chunkCache) && fresh(dataPool) && fresh(dataPool.pool)
      ensures parent == parentChunks
      ensures chunkCache.maxCacheSize == CalculateOptimalCacheSize(availableMemory)
      ensures chunkCache.cache == map[] && chunkCache.accessOrder == []
      ensures dataPool.pool.maxPoolSize == DefaultPoolSize && dataPool.pool.pool == []
    {
      parent := parentChunks;
      chunkCache := new SmartChunkCache(CalculateOptimalCacheSize(availableMemory));
      dataPool := new ChunkDataPool(DefaultPoolSize);
    }

    /**
     * getBlocks: a cache hit is returned as is; on a miss the parent's chunk is
     * returned and, when there is one, put into the cache.
     */
    method GetBlocks(p: Point, first: HeapUsage, second: HeapUsage) returns (r: Option<B>)
      requires Valid()
      modifies chunkCache
      ensures Valid() && parent == old(parent)
      ensures p in old(chunkCache.cache) ==>
                r == Some(old(chunkCache.cache)[p]) && chunkCache.State() == AfterGet(old(chunkCache.State()), p)
      ensures p !in old(chunkCache.cache) ==>
                && r == (if p in parent then Some(parent[p]) else None)
                && chunkCache.State() == CacheSpec.Put(AfterGet(old(chunkCache.State()), p), chunkCache.maxCacheSize,
                                                       p, r, PutPressure(first, second))
    {
      var cachedBlocks := chunkCache.Get(p);
      if cachedBlocks.Some? {
        return cachedBlocks;
      }
      var blocks := if p in parent then Some(parent[p]) else None;
      if blocks.Some? {
        chunkCache.Put(p, blocks, first, second);
      }
      return blocks;
    }

    /** Empties the parent, the cache and the pool; the statistics counters are kept. */
    method RemoveAllChunks()
      requires Valid()
      modifies this, chunkCache, dataPool.pool
      ensures Valid()
      ensures parent == map[]
      ensures chunkCache.Size() == 0 && dataPool.pool.Size() == 0
      ensures chunkCache.State().counters == old(chunkCache.State().counters)
      ensures dataPool.pool.borrowCount == old(dataPool.pool.borrowCount) && dataPool.pool.returnCount == old(dataPool.pool.returnCount)
      ensures dataPool.pool.createCount == old(dataPool.pool.createCount)
    {
      parent := map[];
      chunkCache.Clear();
      dataPool.Clear();
    }

    /** The parent's chunks plus the cached ones; the cached part never exceeds the cache capacity. */
    function GetChunkCount(): (n: int)
      requires Valid()
      reads this, chunkCache, dataPool, dataPool.pool
      ensures n == |parent| + |chunkCache.accessOrder|
      ensures n <= |parent| + Max(0, chunkCache.maxCacheSize)
    {
      |parent| + chunkCache.Size()
    }
  }
}
