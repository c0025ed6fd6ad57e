# Chunk cache, object pool and streaming NBT walk

A Dafny model of the memory-saving core of the chunk-loading pipeline. It has five parts:

- **SmartChunkCache**: a bounded coordinate→blocks cache. It keeps an access-ordered recency list beside its map and evicts in two ways:
  - when a new key takes it above its capacity;
  - in a cleanup pass, run before an insertion when the heap is above 80% full.
- **ObjectPool**: a bounded FIFO store of recyclable objects, with borrow, return and create counters.
- **ChunkDataPool**: that pool applied to `PooledChunkBlocks`, a wrapper holding an optional reference to a chunk's block data.
- **StreamingNBTParser**: a pre-order callback walk over a decoded NBT tag tree. It has early stop, error routing and the `extractValue` path lookup.
- **ImprovedChunkDataBuffer**: a read-through cache in front of the parent chunk buffer, plus the arithmetic that sizes the cache from the heap limit.

Six Java classes change their fields in place, and each is a Dafny `class`: `SmartChunkCache`, `ObjectPool`, `ChunkDataPool`, its nested `PooledChunkBlocks`, `StreamingNBTParser` and `ImprovedChunkDataBuffer`. Some of their fields are abstracted:

- `StreamingNBTParser`'s `inputStream` and `dataStream` become `source`, the decoded root or the decoder's error, and `closed`, which says whether the stream was closed.
- `SmartChunkCache`'s `accessOrder`, an access-ordered `LinkedHashMap` from key to timestamp, becomes the sequence of its keys from eldest to newest.
- `ObjectPool`'s `BlockingQueue` becomes the sequence `pool`, and its `factory` is `new PooledChunkBlocks`, so it has no field.
- The `memoryBean` fields of `SmartChunkCache` and `ImprovedChunkDataBuffer` are not kept. Each heap reading is a parameter of the method that takes it.

The NBT processors (`NBTProcessor` and its implementations, including the anonymous one inside `extractValue`, which updates `currentDepth` and `result[0]`) are not classes. Each is a `Processor` of functions that take a state value and return the reply and the next state. The walk threads that state from callback to callback.

The cache class is proved against pure functions: each of its methods ends in the state that a function of `CacheSpec` computes from the old state. `get` is `CacheSpec.AfterGet`, `put` is `CacheSpec.Put`, the insertion with its `removeEldestEntry` callback is `CacheSpec.Insert`, and `performMemoryCleanup` is `CacheSpec.Cleanup`. For example, `SmartChunkCache.Put` ends in `CacheSpec.Put(old(State()), …)`. The lemmas about those functions state what the cache promises: the map and recency order agree, the capacity bound holds, least recently used entries go first, put-then-get returns the value, and so on. The parser's contracts are stated through a reference definition: `Run` of the processor over `Events`, the pre-order list of callbacks. `processCompoundRecursively` is `StreamingNbt.WalkCompound`, with its element loop `StreamingNbt.WalkElements`, and `StreamingNbt.WalkMatchesPreOrder` proves that walk equal to `Run` over `Events`. The pool classes, `PooledChunkBlocks` and the buffer's `RemoveAllChunks` are specified directly on their fields: each postcondition gives every field's new value in terms of its old one.

Files:

- `wrappers.dfy`: `Option`.
- `cache_spec.dfy`: the cache state, its operations as functions, and the lemmas about them.
- `smart_chunk_cache.dfy`: the cache class.
- `pooled_chunk_blocks.dfy`, `object_pool.dfy`, `chunk_data_pool.dfy`: the pool.
- `streaming_nbt.dfy`: the walk, `parse` and `extractValue`.
- `java_arith.dfy`: Java `int`/`long` arithmetic (ranges, truncating division, `(int)` narrowing, `Math.max`/`Math.min`).
- `improved_chunk_data_buffer.dfy`: cache sizing and the buffer glue.

Two behaviours of the code are easy to misread. The model follows the code in both.

- **Critical put.** Under critical pressure the cleanup targets `max(1, size/4)` entries, which the source comment at `SmartChunkCache.java:144` calls clearing 75% of the cache. That target is computed from the size before the insertion. The new key is inserted after the cleanup, so one more entry than the target can remain. `CacheSpec.CriticalPutBound` proves the target plus one as the bound, and `CacheSpec.CriticalPutCanExceedTarget` shows it is reached.
- **Path lookup.** `extractValue` always reports the root compound under the name `"root"`, whatever its own name. It matches the path parts greedily as a subsequence of the compound names in pre-order. It does not check that each match is a child of the previous one. `StreamingNbt.ExtractIsGreedyScan` states the greedy scan. `StreamingNbt.RootIsCalledRoot` shows that, on a root compound `A` holding `B`, the path `A.B` finds nothing while `root.B` finds `B`.

## Model

| member | source | states |
|---|---|---|
| CacheSpec.Classify | src/org/jmc/util/SmartChunkCache.java:139-153 | For a positive maximum, the tier is Critical exactly when the real ratio used/max is above 0.9, and Normal exactly when it is at most 0.8. A zero maximum is Critical exactly when something is used (+Infinity; 0/0 is NaN and compares false). A negative (undefined) maximum gives Normal. |
| CacheSpec.RatioAbove | src/org/jmc/util/SmartChunkCache.java:130 | For positive denominators, u/m > a/b exactly when b·u > a·m. This links the ratio thresholds to the integer tests that compute the tier. |
| CacheSpec.PutPressure | src/org/jmc/util/SmartChunkCache.java:93-96 | A put cleans only when the first heap reading is above 0.8. It is critical exactly when, in addition, the second reading (taken inside the cleanup) is above 0.9. |
| CacheSpec.HitRatio | src/org/jmc/util/SmartChunkCache.java:185-191 | The ratio lies in [0, 1]. It is 0 before any lookup, and ratio × (hits + misses) = hits. |
| CacheSpec.GetKeepsValid | src/org/jmc/util/SmartChunkCache.java:69-83 | A lookup keeps the map/order agreement and the capacity bound. It changes no entry, and a hit makes the key the newest. |
| CacheSpec.GetCountsHitOrMiss | src/org/jmc/util/SmartChunkCache.java:69-83 | A hit returns the cached value, moves the key to most recent (same key set) and adds 1 to hits only. A miss returns nothing, leaves the order as it was and adds 1 to misses only. |
| CacheSpec.CleanupKeepsValid | src/org/jmc/util/SmartChunkCache.java:156-163 | A cleanup pass keeps the invariant and leaves exactly min(size, target) entries. |
| CacheSpec.CleanupEvictsOldest | src/org/jmc/util/SmartChunkCache.java:155-165 | A cleanup pass removes exactly the d oldest keys, where d is the excess over the target. The other values are unchanged, evictions grow by d and cleanups by exactly 1. |
| CacheSpec.CleanupEvictsOldestFirst | src/org/jmc/util/SmartChunkCache.java:157-162 | If a key survives a cleanup pass, every newer key survives too, and the new oldest key is not newer than it. |
| CacheSpec.InsertKeepsValid | src/org/jmc/util/SmartChunkCache.java:38-49 | The insertion and its removeEldestEntry callback keep the map and the order in agreement, without repeats and within capacity. |
| CacheSpec.InsertMakesNewest | src/org/jmc/util/SmartChunkCache.java:98-101 | With a positive capacity, the inserted key maps to the new value and is the most recent key. |
| CacheSpec.InsertRemovesOnlyHead | src/org/jmc/util/SmartChunkCache.java:40-47 | An insertion adds at most the key itself. The only other key it can drop is the eldest, and only when the key was new. |
| CacheSpec.InsertEvictsOldestFirst | src/org/jmc/util/SmartChunkCache.java:38-49 | If an older key survives an insertion, every newer key does too. |
| CacheSpec.PutKeepsValid | src/org/jmc/util/SmartChunkCache.java:88-102 | After every put, under any pressure, the map and the order agree, and the size is at most maxCacheSize when that is at least 1. |
| CacheSpec.NullPutIsNoOp | src/org/jmc/util/SmartChunkCache.java:89-91 | put(k, null) changes no entry, no order and no counter. |
| CacheSpec.PutThenGet | src/org/jmc/util/SmartChunkCache.java:98-101 | After put(k, v), under any pressure, k maps to v and is the most recent key. A following get counts a hit. |
| CacheSpec.PutExistingKey | src/org/jmc/util/SmartChunkCache.java:98-101 | Without pressure, putting a cached key replaces its value, keeps the size and leaves every counter alone. |
| CacheSpec.PutNewKeyBelowCapacity | src/org/jmc/util/SmartChunkCache.java:40-47 | Without pressure and below capacity, a new key is added, the size grows by one and nothing is evicted. |
| CacheSpec.OverflowEvictsEldest | src/org/jmc/util/SmartChunkCache.java:40-47 | Without pressure, a new key at capacity evicts exactly the least recently used entry. The order becomes the rest plus the new key, the size stays at capacity and evictions grow by exactly 1. |
| CacheSpec.PutEvictsOldestFirst | src/org/jmc/util/SmartChunkCache.java:93-101 | Under any pressure, if an older key survives a put, every newer key does too (the key being put aside). |
| CacheSpec.RefreshedEntrySurvives | src/org/jmc/util/SmartChunkCache.java:74-76 | With a full cache, reading the oldest entry and then putting a new key keeps the entry just read and evicts the second-oldest. |
| CacheSpec.RemoveKeepsValid | src/org/jmc/util/SmartChunkCache.java:107-112 | remove(k) deletes k from both structures and keeps every other entry and every counter. It is a no-op for an absent key. |
| CacheSpec.ClearKeepsValid | src/org/jmc/util/SmartChunkCache.java:117-123 | clear() empties both structures and keeps the counters. |
| CacheSpec.CriticalPutBound | src/org/jmc/util/SmartChunkCache.java:143-145 | Under critical pressure a put leaves at most max(1, priorSize/4) + 1 entries. |
| CacheSpec.CriticalPutCanExceedTarget | src/org/jmc/util/SmartChunkCache.java:143-145 | A full cache of four under critical pressure has target 1, but a put of a new key leaves two entries. |
| SmartChunkCacheModel.SmartChunkCache.constructor | src/org/jmc/util/SmartChunkCache.java:60-63 | An empty cache with zero counters and lowWaterMark = max(1, maxSize/2). |
| SmartChunkCacheModel.SmartChunkCache.Get | src/org/jmc/util/SmartChunkCache.java:69-83 | Returns the cached value, or none. The new state is the lookup's state (recency refresh plus a hit, or a miss). The invariant is kept. |
| SmartChunkCacheModel.SmartChunkCache.ShouldCleanMemory | src/org/jmc/util/SmartChunkCache.java:128-133 | For a positive heap maximum, true exactly when the real ratio used/max is above 0.8. |
| SmartChunkCacheModel.SmartChunkCache.PerformMemoryCleanup | src/org/jmc/util/SmartChunkCache.java:138-165 | The new state is one cleanup pass with the target chosen from the heap reading. The invariant is kept. |
| SmartChunkCacheModel.SmartChunkCache.EvictWhileAbove | src/org/jmc/util/SmartChunkCache.java:156-163 | The eviction loop removes exactly Excess(size, target) keys, the oldest ones, and leaves the rest of the order. |
| SmartChunkCacheModel.SmartChunkCache.Put | src/org/jmc/util/SmartChunkCache.java:88-102 | The new state is CacheSpec.Put of the old one, at the pressure of the two heap readings. The invariant is kept. |
| SmartChunkCacheModel.SmartChunkCache.RemoveEldestEntry | src/org/jmc/util/SmartChunkCache.java:38-49 | Removes an entry exactly when the order is above capacity. It then drops the single eldest key from both structures and counts one eviction. Otherwise nothing changes. |
| SmartChunkCacheModel.SmartChunkCache.Remove | src/org/jmc/util/SmartChunkCache.java:107-112 | The new state is CacheSpec.Remove of the old one. The invariant is kept. |
| SmartChunkCacheModel.SmartChunkCache.Clear | src/org/jmc/util/SmartChunkCache.java:117-123 | The new state is CacheSpec.Clear of the old one. The invariant is kept. |
| SmartChunkCacheModel.SmartChunkCache.Size | src/org/jmc/util/SmartChunkCache.java:178-180 | The size equals the length of the recency order and never exceeds the capacity. |
| SmartChunkCacheModel.SmartChunkCache.GetHitRatio | src/org/jmc/util/SmartChunkCache.java:185-191 | The ratio lies in [0, 1]. It is 0 with no lookups, and ratio × (hits + misses) = hits. |
| PooledBlocks.PooledChunkBlocks.constructor | src/org/jmc/util/ChunkDataPool.java:19-22 | A new wrapper holds no blocks, so hasBlocks is false. |
| PooledBlocks.PooledChunkBlocks.SetBlocks | src/org/jmc/util/ChunkDataPool.java:24-26 | The wrapper holds b afterwards, and hasBlocks is true exactly when b is non-null. |
| PooledBlocks.PooledChunkBlocks.GetBlocks | src/org/jmc/util/ChunkDataPool.java:28-30 | Returns the held reference. |
| PooledBlocks.PooledChunkBlocks.Reset | src/org/jmc/util/ChunkDataPool.java:33-36 | Clears the reference, so hasBlocks is false. |
| ObjectPoolModel.ObjectPool.constructor | src/org/jmc/util/ObjectPool.java:39-43 | An empty pool of the given capacity with zero counters. |
| ObjectPoolModel.ObjectPool.Borrow | src/org/jmc/util/ObjectPool.java:48-61 | Always adds 1 to borrowCount and returns a wrapper holding no blocks. From a non-empty store it is the oldest stored wrapper, removed FIFO, and createCount is unchanged. From an empty store it is a fresh wrapper and createCount grows by 1. The invariant createCount <= borrowCount is kept. |
| ObjectPoolModel.ObjectPool.Poll | src/org/jmc/util/ObjectPool.java:49 | The queue's poll removes and returns the head, or returns nothing when the queue is empty. |
| ObjectPoolModel.ObjectPool.ReturnObject | src/org/jmc/util/ObjectPool.java:66-78 | Null changes nothing. A non-null object always adds 1 to returnCount. It is appended exactly when currentSize < maxPoolSize and is otherwise dropped. |
| ObjectPoolModel.ObjectPool.Offer | src/org/jmc/util/ObjectPool.java:74 | The bounded queue's offer appends exactly when the queue is below capacity. |
| ObjectPoolModel.ObjectPool.Clear | src/org/jmc/util/ObjectPool.java:83-86 | Empties the store and sets the size to 0. The counters are kept. |
| ObjectPoolModel.ObjectPool.Size | src/org/jmc/util/ObjectPool.java:91-93 | The size equals the number of stored objects and lies in [0, maxPoolSize]. |
| ObjectPoolModel.ObjectPool.Statistics | src/org/jmc/util/ObjectPool.java:98-108 | Reports the counters, with in-use = borrowed − returned. created <= borrowed, and in-use + stored <= created. |
| ObjectPoolModel.ReturnThenBorrow | src/org/jmc/util/ObjectPool.java:49-55 | Returning x to an empty pool and then borrowing yields that same x, reset, with no new object created. |
| ChunkDataPoolModel.ChunkDataPool.constructor | src/org/jmc/util/ChunkDataPool.java:51-53 | Builds an empty underlying pool of the given capacity. |
| ChunkDataPoolModel.ChunkDataPool.Borrow | src/org/jmc/util/ChunkDataPool.java:58-60 | Every wrapper returned holds no blocks. It is either the oldest stored one (FIFO), with createCount unchanged, or a fresh one, with createCount + 1. borrowCount grows by 1 and returnCount is kept. |
| ChunkDataPoolModel.ChunkDataPool.ReturnObject | src/org/jmc/util/ChunkDataPool.java:65-69 | Null changes neither the store nor any counter. Any other wrapper adds 1 to returnCount and is appended exactly when the store is below capacity. borrowCount and createCount are kept. |
| ChunkDataPoolModel.ChunkDataPool.CreatePooled | src/org/jmc/util/ChunkDataPool.java:74-78 | Performs exactly one borrow, with the same store and counter changes as Borrow. It returns that wrapper holding the given blocks. |
| ChunkDataPoolModel.ChunkDataPool.Clear | src/org/jmc/util/ChunkDataPool.java:83-85 | Empties the underlying pool and keeps all three counters. |
| StreamingNbt.WalkMatchesPreOrder | src/org/jmc/util/StreamingNBTParser.java:130-150 | The recursive walk of a compound is exactly the run of the processor over its pre-order events. The run ends at the first callback that does not continue. |
| StreamingNbt.ElementsMatchPreOrder | src/org/jmc/util/StreamingNBTParser.java:137-147 | The element loop is exactly the run of the processor over the elements' events in element order. Lists are reported once and leaves are skipped. |
| StreamingNbt.RunStopsAtFirstNonContinue | src/org/jmc/util/StreamingNBTParser.java:132-145 | The callbacks made are a prefix of the pre-order events, and all of them when the walk completed. Otherwise the last callback made is the one that returned false or threw, and every earlier one continued. |
| StreamingNbt.EventsWellFormed | src/org/jmc/util/StreamingNBTParser.java:130-134 | The first callback is for the compound itself. processCompound only receives compounds and processList only lists. |
| StreamingNbt.EventsParented | src/org/jmc/util/StreamingNBTParser.java:137-146 | In every tree, each callback after the first is for a direct element of a compound reported earlier. So a compound is reported before its children, and nothing inside a list or a leaf is ever reported. |
| StreamingNbt.ElementEventsParented | src/org/jmc/util/StreamingNBTParser.java:137-147 | Each callback of the element loop is either for a direct element of the compound being walked or for a direct element of a compound reported earlier in the loop. |
| StreamingNbt.ListIsNotEntered | src/org/jmc/util/StreamingNBTParser.java:137-146 | Example: for a root holding a list (with a compound inside) and a leaf, the callbacks are exactly the root and the list. |
| StreamingNbt.ParseInternal | src/org/jmc/util/StreamingNBTParser.java:119-125 | A non-compound root makes no callback and completes. A compound root is walked under the name "root", as the run over its pre-order events. |
| StreamingNbt.StreamingNBTParser.constructor | src/org/jmc/util/StreamingNBTParser.java:80-84 | The parser starts with an open stream over its source. |
| StreamingNbt.StreamingNBTParser.Parse | src/org/jmc/util/StreamingNBTParser.java:91-105 | A decode fault, or a callback that throws an `Exception`, reaches onError exactly once. An early stop and a completed walk report no error. The stream is closed on every path, and a second parse reads a closed stream. |
| StreamingNbt.StreamingNBTParser.ParseChunkSections | src/org/jmc/util/StreamingNBTParser.java:112-114 | With a handler that does not throw, the handler receives exactly the section compounds of the pre-order walk, in order. Every event is visited and no error is reported. A closed stream reports one error and forwards nothing. |
| StreamingNbt.SectionsForwarded | src/org/jmc/util/StreamingNBTParser.java:64-69 | ChunkSectionProcessor never stops the walk. It forwards exactly the compounds named "sections" or starting with "section_". |
| StreamingNbt.ExtractStep | src/org/jmc/util/StreamingNBTParser.java:169-177 | One callback of the extract processor advances the depth exactly on the next path part. On the last part it stores the compound and stops. |
| StreamingNbt.ExtractIsGreedyScan | src/org/jmc/util/StreamingNBTParser.java:165-179 | Without a full match, the walk completes and leaves no result. With one, it stops right after the compound matching the last part, which becomes the result. |
| StreamingNbt.DepthFull | src/org/jmc/util/StreamingNBTParser.java:170 | Once every part has been matched, the depth no longer moves. |
| StreamingNbt.ExtractEmptyPath | src/org/jmc/util/StreamingNBTParser.java:170 | An empty path never matches, so the walk runs to the end with no result. |
| StreamingNbt.ExtractValue | src/org/jmc/util/StreamingNBTParser.java:160-182 | Returns none when decoding fails or the root is not a compound. Otherwise it returns none exactly when the path is empty or not fully matched by the greedy scan; a result is always the compound at which the last part was matched. |
| StreamingNbt.RootIsCalledRoot | src/org/jmc/util/StreamingNBTParser.java:123 | The root is reported as "root", so path A.B on root A finds nothing while root.B matches. |
| JavaArith.ToInt | src/org/jmc/ImprovedChunkDataBuffer.java:57 | Java's (int) narrowing of a long keeps the value modulo 2^32 within the int range, and is the identity on ints. |
| ImprovedChunkBuffer.CalculateOptimalCacheSizeAsWritten | src/org/jmc/ImprovedChunkDataBuffer.java:51-61 | As written, with the narrowing before the clamp, the result lies in [50, 1000] for every long. |
| ImprovedChunkBuffer.CalculateOptimalCacheSize | src/org/jmc/ImprovedChunkDataBuffer.java:51-61 | The result lies in [50, 1000]. It is exactly (m/4)/2 MiB when that quotient is in range, 1000 above the range and 50 below it. |
| ImprovedChunkBuffer.AsWrittenAgreesBelowWrap | src/org/jmc/ImprovedChunkDataBuffer.java:56-60 | For heap limits in [0, 2^54) the narrowing changes nothing and both versions agree. |
| ImprovedChunkBuffer.AsWrittenUnlimitedHeapGetsMinimum | src/org/jmc/ImprovedChunkDataBuffer.java:56-60 | For Long.MAX_VALUE the quotient is 2^40 − 1. The as-written size is 50 and the intended size is 1000. |
| ImprovedChunkBuffer.ImprovedChunkDataBuffer.constructor | src/org/jmc/ImprovedChunkDataBuffer.java:33-46 | Creates an empty cache sized from the heap limit and an empty pool of 50. |
| ImprovedChunkBuffer.ImprovedChunkDataBuffer.GetBlocks | src/org/jmc/ImprovedChunkDataBuffer.java:87-102 | A hit returns the cached value and the parent is not consulted. A miss returns the parent's chunk and puts it into the cache only when non-null (a null put changes nothing). |
| ImprovedChunkBuffer.ImprovedChunkDataBuffer.RemoveAllChunks | src/org/jmc/ImprovedChunkDataBuffer.java:67-73 | The parent, the cache and the pool are all emptied. The cache counters and the pool's three counters are kept. |
| ImprovedChunkBuffer.ImprovedChunkDataBuffer.GetChunkCount | src/org/jmc/ImprovedChunkDataBuffer.java:79-81 | The count is the parent's count plus the cache size, at most the parent's count plus the capacity. |

## Left out

- Concurrency is not modelled: `ConcurrentHashMap`, the `synchronized` blocks, the thread safety of `LinkedBlockingQueue`, and the non-atomic check-then-offer race in `returnObject`. Every operation is sequential.
- The `AtomicLong`/`AtomicInteger` counters are unbounded `nat`s. Wrap-around after 2^63 (cache) or 2^31 (pool) operations is not modelled.
- Heap readings from `MemoryMXBean` and `Runtime.maxMemory()` are parameters: a `HeapUsage` per reading and the heap limit as an integer. The ratio used/max is compared with 0.8 and 0.9 exactly, as a real number; the rounding of Java's double division is not modelled.
- `System.gc()`, the `Log` calls, and the statistics and log strings are not modelled. `getStatistics` returns its numbers as a record.
- The `System.nanoTime()` timestamps stored in `accessOrder` are never read, so the recency list is a plain sequence of keys.
- `getHitRatio` returns a `real` instead of a `double`. Rounding is not modelled.
- `ObjectPool` is written over `PooledChunkBlocks`, its only use in the pipeline, and the factory is `new PooledChunkBlocks`. The generic `Recyclable`/`Supplier` parameterisation is not modelled.
- ObjectPoolModel.ObjectPool.constructor: requires a capacity of at least 1. Java's `LinkedBlockingQueue` throws for a smaller capacity, and that exception is not modelled.
- ObjectPoolModel.ObjectPool.Statistics: the statistics string is reduced to its numbers.
- Byte-level NBT decoding (`NBT_Tag.make`, `DataInputStream`, `BufferedInputStream`) is not modelled. A parser is given the decoded root or the decoder's error message. Closing the stream is the `closed` flag, and any exception from `close()` is not modelled.
- Every non-compound, non-list tag type is one `Leaf` case.
- `onError` is a function of the processor state and is taken not to throw.
- StreamingNbt.StreamingNBTParser.ParseChunkSections: the section handler (`sectionHandler.accept` at `StreamingNBTParser.java:66`) is taken to be a non-throwing accumulator of the compounds it receives. A `RuntimeException` from caller code there would stop the walk and reach `onError`; that path is not modelled for this method, though `Parse` models it for any processor through `Throw`.
- StreamingNbt.StreamingNBTParser.Parse: `Throw` stands for an `Exception`, which the `catch` at `StreamingNBTParser.java:94` routes to `onError`. A `java.lang.Error` is not modelled: an `Error` thrown by a callback, or a `StackOverflowError` from the recursive walk on deeply nested input, skips `onError` and leaves `parse` after the `finally` closes the stream.
- `String.split("\\.")` is not modelled. `extractValue` takes the path as an already-split sequence of names.
- `ChunkDataBuffer`, the parent class, is not part of this model. Its chunks are a map from `Point` to blocks. Its `getBlocks`, `removeAllChunks` and `getChunkCount` are a lookup, emptying the map and its size. The coordinate bounds passed to its constructor are not modelled.
- `performMaintenance`, `getMemoryStats`, `logPerformanceStats` and the performance test harness depend on live heap readings and timing, so they are not modelled.
- SmartChunkCacheModel.SmartChunkCache.ShouldCleanMemory: the contract states the 0.8 threshold only for a positive heap maximum. For the other cases the body follows Java's double division: a zero maximum with positive use is +Infinity, 0/0 is NaN and compares false, and a negative maximum gives a negative ratio.
- JavaArith.TruncDiv: Java's truncating `long` division carries no contract of its own. Its results are pinned down where they are used, by `AsWrittenAgreesBelowWrap` and `AsWrittenUnlimitedHeapGetsMinimum`.
- ImprovedChunkBuffer.ImprovedChunkDataBuffer.constructor: uses the corrected cache size (see Findings), not the wrapping one.

## Findings

| source | as written | input that shows it | evidently intended | confidence | as-written member | corrected member |
|---|---|---|---|---|---|---|
| src/org/jmc/ImprovedChunkDataBuffer.java:57-60 | The quotient `(availableMemory/4)/(2 MiB)` is narrowed to `int` before it is clamped to [50, 1000]. A quotient of 2^31 or more wraps around. | `availableMemory = Long.MAX_VALUE`, which `Runtime.maxMemory()` reports when the JVM has no heap limit. The quotient 2^40 − 1 narrows to −1, so the cache gets 50 entries. | Clamp first, so a huge heap gets the maximum of 1000 entries. | not executed | ImprovedChunkBuffer.CalculateOptimalCacheSizeAsWritten (shown by ImprovedChunkBuffer.AsWrittenUnlimitedHeapGetsMinimum) | ImprovedChunkBuffer.CalculateOptimalCacheSize |
