/**
 * The bounded recycling pool (ObjectPool.java), instantiated, as the chunk
 * pipeline uses it, with the chunk-data wrapper as the pooled type and its
 * constructor as the factory.
 *
 * `pool` is the FIFO queue of idle objects, oldest first; `currentSize` is
 * the separately kept count of idle objects that guards `returnObject`.
 */
module ObjectPoolModel {
  import opened Wrappers
  import opened PooledBlocks

  /** The numbers reported by getStatistics. */
  datatype PoolStats = PoolStats(size: int, maxSize: int, borrowed: nat, returned: nat, created: nat, inUse: int)

  class ObjectPool<B> {
    var pool: seq<PooledChunkBlocks<B>>
    const maxPoolSize: int
    var currentSize: int
    var borrowCount: nat
    var returnCount: nat
    var createCount: nat

    /**
     * The idle count matches the queue and stays within capacity; every borrow
     * either created an object or reused one, and every reused or idle object
     * arrived through a return.
     */
    ghost predicate Valid()
      reads this
    {
      && 1 <= maxPoolSize
      && currentSize == |pool| <= maxPoolSize
      && createCount <= borrowCount
      && currentSize + (borrowCount - createCount) <= returnCount
    }

    /** The queue's capacity is `maxSize`, which the bounded queue requires to be positive. */
    constructor(maxSize: int)
      requires maxSize >= 1
      ensures Valid()
      ensures maxPoolSize == maxSize && pool == []
      ensures borrowCount == 0 && returnCount == 0 && createCount == 0
    {
      maxPoolSize := maxSize;
      pool := [];
      currentSize := 0;
      borrowCount := 0;
      returnCount := 0;
      createCount := 0;
    }

    /**
     * Takes the oldest idle object and resets it, or creates a new one when
     * none is idle. Either way the caller gets an object holding no data.
     */
    method Borrow() returns (r: PooledChunkBlocks<B>)
      requires Valid()
      modifies this, if |pool| > 0 then {pool[0]} else {}
      ensures Valid()
      ensures r.blocks == None
      ensures borrowCount == old(borrowCount) + 1 && returnCount == old(returnCount)
      ensures old(|pool|) > 0 ==> r == old(pool[0]) && pool == old(pool[1..]) && createCount == old(createCount)
      ensures old(|pool|) == 0 ==> fresh(r) && pool == [] && createCount == old(createCount) + 1
    {
      var item := Poll();
      borrowCount := borrowCount + 1;
      if item.Some? {
        currentSize := currentSize - 1;
        r := item.value;
        r.Reset();
        return;
      }
      createCount := createCount + 1;
      r := new PooledChunkBlocks();
    }

    /** The queue's poll: removes and returns the head, or nothing when empty. */
    method Poll() returns (head: Option<PooledChunkBlocks<B>>)
      modifies this
      ensures old(pool) == [] ==> head == None && pool == []
      ensures old(pool) != [] ==> head == Some(old(pool[0])) && pool == old(pool[1..])
      ensures currentSize == old(currentSize) && borrowCount == old(borrowCount)
      ensures returnCount == old(returnCount) && createCount == old(createCount)
    {
      if pool == [] {
        return None;
      }
      head := Some(pool[0]);
      pool := pool[1..];
    }

    /**
     * Counts the return of a non-null object and keeps it for reuse only while
     * the idle count is below capacity; otherwise it is dropped.
     */
    method ReturnObject(item: PooledChunkBlocks?<B>)
      requires Valid()
      modifies this
      ensures Valid()
      ensures item == null ==> pool == old(pool) && returnCount == old(returnCount)
      ensures item != null ==> returnCount == old(returnCount) + 1
      ensures item != null && old(currentSize) < maxPoolSize ==> pool == old(pool) + [item]
      ensures item != null && old(currentSize) >= maxPoolSize ==> pool == old(pool)
      ensures borrowCount == old(borrowCount) && createCount == old(createCount)
    {
      if item == null {
        return;
      }
      returnCount := returnCount + 1;
      if currentSize < maxPoolSize {
        var accepted := Offer(item);
        if accepted {
          currentSize := currentSize + 1;
        }
      }
    }

    /** The bounded queue's offer: appends unless the queue already holds `maxPoolSize` objects. */
    method Offer(item: PooledChunkBlocks<B>) returns (accepted: bool)
      modifies this
      ensures accepted <==> |old(pool)| < maxPoolSize
      ensures pool == if accepted then old(pool) + [item] else old(pool)
      ensures currentSize == old(currentSize) && borrowCount == old(borrowCount)
      ensures returnCount == old(returnCount) && createCount == old(createCount)
    {
      accepted := |pool| < maxPoolSize;
      if accepted {
        pool := pool + [item];
      }
    }

    /** Drops every idle object; the counters are kept. */
    method Clear()
      requires Valid()
      modifies this
      ensures Valid()
      ensures pool == [] && currentSize == 0
      ensures borrowCount == old(borrowCount) && returnCount == old(returnCount) && createCount == old(createCount)
    {
      pool := [];
      currentSize := 0;
    }

    /** The number of idle objects, within capacity. */
    function Size(): (n: int)
      requires Valid()
      reads this
      ensures n == |pool| && 0 <= n <= maxPoolSize
    {
      currentSize
    }

    /**
     * getStatistics. "In use" is borrows minus returns; it never exceeds the
     * objects created minus the ones now idle.
     */
    function Statistics(): (s: PoolStats)
      requires Valid()
      reads this
      ensures s.size == |pool| && s.maxSize == maxPoolSize
      ensures s.borrowed == borrowCount && s.returned == returnCount && s.created == createCount
      ensures s.inUse == s.borrowed - s.returned && s.created <= s.borrowed
      ensures s.inUse + s.size <= s.created
    {
      PoolStats(currentSize, maxPoolSize, borrowCount, returnCount, createCount, borrowCount - returnCount)
    }
  }

  /** Returning a wrapper to an empty pool and borrowing again hands back that same wrapper, reset. */
  method ReturnThenBorrow<B>(pool: ObjectPool<B>, x: PooledChunkBlocks<B>) returns (r: PooledChunkBlocks<B>)
    requires pool.Valid() && pool.pool == []
    modifies pool, x
    ensures pool.Valid() && pool.pool == []
    ensures r == x && r.blocks == None
    ensures pool.borrowCount == old(pool.borrowCount) + 1 && pool.returnCount == old(pool.returnCount) + 1
    ensures pool.createCount == old(pool.createCount)
  {
    pool.ReturnObject(x);
    r := pool.Borrow();
  }
}
