/**
 * The chunk cache object (SmartChunkCache.java): a key->value map, the
 * access-ordered recency list beside it, and four counters, all updated in
 * place. Each method is proved to move the object from `old(State())` to the
 * state the matching function of CacheSpec computes, so the lemmas proved
 * there about those functions hold for the object.
 */
module SmartChunkCacheModel {
  import opened Wrappers
  import opened JavaArith
  import opened CacheSpec

  class SmartChunkCache<K(==), V> {
    const maxCacheSize: int
    const lowWaterMark: int
    var cache: map<K, V>
    /** Keys of `cache`, least recently used first. */
    var accessOrder: seq<K>
    var cacheHits: nat
    var cacheMisses: nat
    var cacheEvictions: nat
    var memoryCleanups: nat

    ghost function State(): CacheState<K, V>
      reads this
    {
      CacheState(cache, accessOrder, Counters(cacheHits, cacheMisses, cacheEvictions, memoryCleanups))
    }

    ghost predicate Valid()
      reads this
    {
      CacheSpec.Valid(State(), maxCacheSize) && lowWaterMark == LowWaterMark(maxCacheSize)
    }

    constructor(maxSize: int)
      ensures Valid()
      ensures maxCacheSize == maxSize && lowWaterMark == Max(1, maxSize / 2)
      ensures cache == map[] && accessOrder == []
      ensures cacheHits == 0 && cacheMisses == 0 && cacheEvictions == 0 && memoryCleanups == 0
    {
      maxCacheSize := maxSize;
      lowWaterMark := Max(1, maxSize / 2);
      cache := map[];
      accessOrder := [];
      cacheHits := 0;
      cacheMisses := 0;
      cacheEvictions := 0;
      memoryCleanups := 0;
    }

    /** A hit refreshes the key's recency and counts a hit; a miss counts a miss. */
    method Get(coord: K) returns (r: Option<V>)
      requires Valid()
      modifies this
      ensures Valid()
      ensures r == Lookup(old(State()), coord)
      ensures State() == AfterGet(old(State()), coord)
    {
      GetKeepsValid(State(), maxCacheSize, coord);
      if coord in cache {
        var blocks := cache[coord];
        accessOrder := Touch(accessOrder, coord);
        cacheHits := cacheHits + 1;
        return Some(blocks);
      }
      cacheMisses := cacheMisses + 1;
      return None;
    }

    /** True when the heap is above the 0.8 threshold. */
    static function ShouldCleanMemory(heap: HeapUsage): (b: bool)
      ensures heap.max > 0 ==> (b <==> heap.used as real / heap.max as real > 0.8)
    {
      Classify(heap.used, heap.max) != Normal
    }

    /**
     * Evicts least recently used entries until the cache is down to its target:
     * a quarter of its size (at least 1) when the heap is above 0.9, otherwise
     * the low-water mark. Counts one cleanup.
     */
    method PerformMemoryCleanup(heap: HeapUsage)
      requires Valid()
      modifies this
      ensures Valid()
      ensures State() == Cleanup(old(State()), maxCacheSize, Classify(heap.used, heap.max))
    {
      ghost var st0 := State();
      var p := Classify(heap.used, heap.max);
      ConsistentSize(st0);
      var targetSize := if p == Critical then Max(1, |cache| / 4) else lowWaterMark;
      assert targetSize == CleanupTarget(maxCacheSize, |st0.entries|, p);
      var remaining, order, n := EvictWhileAbove(cache, accessOrder, targetSize);
      cache, accessOrder := remaining, order;
      cacheEvictions := cacheEvictions + n;
      memoryCleanups := memoryCleanups + 1;
      CleanupByParts(st0, maxCacheSize, p, State());
      CleanupKeepsValid(st0, maxCacheSize, p);
    }

    /**
     * The eviction loop of performMemoryCleanup, on the cache's map and order:
     * drops the least recently used key while the map is above `targetSize`
     * and the order is not empty, so exactly the excess over the target goes.
     */
    static method EvictWhileAbove(entries: map<K, V>, lru: seq<K>, targetSize: int) returns (m: map<K, V>, order: seq<K>, n: nat)
      requires entries.Keys == Keys(lru) && Distinct(lru) && targetSize >= 1
      ensures n == Excess(|lru|, targetSize)
      ensures order == lru[n..]
      ensures m == entries - Keys(lru[..n])
    {
      m, order, n := entries, lru, 0;
      ConsistentSize(CacheState(entries, lru, Counters(0, 0, 0, 0)));
      while |m| > targetSize && |order| > 0
        invariant n <= Excess(|lru|, targetSize)
        invariant order == lru[n..]
        invariant m == entries - Keys(lru[..n])
        invariant |m| == |lru| - n
        decreases |order|
      {
        var oldestKey := order[0];
        EvictStep(entries, lru, n, m);
        m := m - {oldestKey};
        order := order[1..];
        n := n + 1;
      }
    }

    /**
     * put(coord, blocks): nothing for a null value; otherwise a cleanup when
     * the first heap reading is above 0.8 (its target chosen from the second
     * reading), then the insertion, which evicts the eldest entry when a new
     * key takes the cache above its capacity.
     */
    method Put(coord: K, blocks: Option<V>, first: HeapUsage, second: HeapUsage)
      requires Valid()
      modifies this
      ensures Valid()
      ensures State() == CacheSpec.Put(old(State()), maxCacheSize, coord, blocks, PutPressure(first, second))
    {
      if blocks.None? {
        return;
      }
      if ShouldCleanMemory(first) {
        PerformMemoryCleanup(second);
      }
      ghost var cleaned := State();
      assert cleaned == if PutPressure(first, second) != Normal then Cleanup(old(State()), maxCacheSize, PutPressure(first, second)) else old(State());
      cache := cache[coord := blocks.value];
      if coord in accessOrder {
        accessOrder := Touch(accessOrder, coord);
      } else {
        accessOrder := accessOrder + [coord];
        var _ := RemoveEldestEntry();
      }
      InsertKeepsValid(cleaned, maxCacheSize, coord, blocks.value);
    }

    /** The LinkedHashMap callback run after a new key: drop the eldest entry when above capacity. */
    method RemoveEldestEntry() returns (removed: bool)
      requires |accessOrder| > 0
      modifies this
      ensures removed <==> |old(accessOrder)| > maxCacheSize
      ensures removed ==> State() == EvictOldest(old(State()), 1)
      ensures !removed ==> State() == old(State())
    {
      if |accessOrder| > maxCacheSize {
        var key := accessOrder[0];
        cache := cache - {key};
        accessOrder := accessOrder[1..];
        cacheEvictions := cacheEvictions + 1;
        assert Keys(old(accessOrder)[..1]) == {key};
        return true;
      }
      return false;
    }

    method Remove(coord: K)
      requires Valid()
      modifies this
      ensures Valid()
      ensures State() == CacheSpec.Remove(old(State()), coord)
    {
      RemoveKeepsValid(State(), maxCacheSize, coord);
      cache := cache - {coord};
      accessOrder := Without(accessOrder, coord);
    }

    method Clear()
      requires Valid()
      modifies this
      ensures Valid()
      ensures State() == CacheSpec.Clear(old(State()))
    {
      cache := map[];
      accessOrder := [];
    }

    /** Number of cached entries, never above the capacity. */
    function Size(): (n: nat)
      requires Valid()
      reads this
      ensures n == |accessOrder| && n <= Max(0, maxCacheSize)
    {
      ConsistentSize(State());
      |cache|
    }

    /** hits / (hits + misses), 0 before any lookup. */
    function GetHitRatio(): (r: real)
      reads this
      ensures 0.0 <= r <= 1.0
      ensures cacheHits + cacheMisses == 0 ==> r == 0.0
      ensures r * (cacheHits + cacheMisses) as real == cacheHits as real
    {
      HitRatio(Counters(cacheHits, cacheMisses, cacheEvictions, memoryCleanups))
    }
  }
}
