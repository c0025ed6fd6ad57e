/**
 * The chunk-data pool (ChunkDataPool.java): an ObjectPool of block-data
 * wrappers with a null check on return and a borrow-and-fill shortcut.
 */
module ChunkDataPoolModel {
  import opened Wrappers
  import opened PooledBlocks
  import opened ObjectPoolModel

  class ChunkDataPool<B> {
    const pool: ObjectPool<B>

    ghost predicate Valid()
      reads this, pool
    {
      pool.Valid()
    }

    constructor(maxSize: int)
      requires maxSize >= 1
      ensures Valid() && fresh(pool)
      ensures pool.maxPoolSize == maxSize && pool.pool == []
      ensures pool.borrowCount == 0 && pool.returnCount == 0 && pool.createCount == 0
    {
      pool := new ObjectPool(maxSize);
    }

    method Borrow() returns (r: PooledChunkBlocks<B>)
      requires Valid()
      modifies pool, if |pool.pool| > 0 then {pool.pool[0]} else {}
      ensures Valid()
      ensures r.blocks == None
      ensures pool.borrowCount == old(pool.borrowCount) + 1 && pool.returnCount == old(pool.returnCount)
      ensures old(|pool.pool|) > 0 ==> r == old(pool.pool[0]) && pool.pool == old(pool.pool[1..]) && pool.createCount == old(pool.createCount)
      ensures old(|pool.pool|) == 0 ==> fresh(r) && pool.pool == [] && pool.createCount == old(pool.createCount) + 1
    {
      r := pool.Borrow();
    }

    /** A null wrapper is ignored; any other goes back to the pool. */
    method ReturnObject(pooledBlocks: PooledChunkBlocks?<B>)
      requires Valid()
      modifies pool
      ensures Valid()
      ensures pooledBlocks == null ==> pool.pool == old(pool.pool) && pool.returnCount == old(pool.returnCount)
      ensures pooledBlocks != null ==> pool.returnCount == old(pool.returnCount) + 1
      ensures pooledBlocks != null && old(|pool.pool|) < pool.maxPoolSize ==> pool.pool == old(pool.pool) + [pooledBlocks]
      ensures old(|pool.pool|) >= pool.maxPoolSize ==> pool.pool == old(pool.pool)
      ensures pool.borrowCount == old(pool.borrowCount) && pool.createCount == old(pool.createCount)
    {
      if pooledBlocks != null {
        pool.ReturnObject(pooledBlocks);
      }
    }

    /** Borrows one wrapper (recycled or new) and fills it with `blocks`. */
    method CreatePooled(blocks: Option<B>) returns (r: PooledChunkBlocks<B>)
      requires Valid()
      modifies pool, if |pool.pool| > 0 then {pool.pool[0]} else {}
      ensures Valid()
      ensures r.blocks == blocks
      ensures pool.borrowCount == old(pool.borrowCount) + 1 && pool.returnCount == old(pool.returnCount)
      ensures old(|pool.pool|) > 0 ==> r == old(pool.pool[0]) && pool.pool == old(pool.pool[1..]) && pool.createCount == old(pool.createCount)
      ensures old(|pool.pool|) == 0 ==> fresh(r) && pool.pool == [] && pool.createCount == old(pool.createCount) + 1
    {
      r := Borrow();
      r.SetBlocks(blocks);
    }

    method Clear()
      requires Valid()
      modifies pool
      ensures Valid()
      ensures pool.pool == []
      ensures pool.borrowCount == old(pool.borrowCount) && pool.returnCount == old(pool.returnCount)
      ensures pool.createCount == old(pool.createCount)
    {
      pool.Clear();
    }
  }
}
