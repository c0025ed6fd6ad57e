/**
 * The recyclable wrapper around one chunk's block data
 * (ChunkDataPool.PooledChunkBlocks). `B` stands for the chunk block data;
 * a null reference is `None`.
 */
module PooledBlocks {
  import opened Wrappers

  class PooledChunkBlocks<B> {
    var blocks: Option<B>

    /** A new wrapper holds no data until it is first used. */
    constructor()
      ensures blocks == None
      ensures !HasBlocks()
    {
      blocks := None;
    }

    method SetBlocks(b: Option<B>)
      modifies this
      ensures blocks == b
      ensures HasBlocks() <==> b.Some?
    {
      blocks := b;
    }

    method GetBlocks() returns (b: Option<B>)
      ensures b == blocks
    {
      b := blocks;
    }

    /** Recycling drops the reference to the data. */
    method Reset()
      modifies this
      ensures blocks == None
      ensures !HasBlocks()
    {
      blocks := None;
    }

    predicate HasBlocks()
      reads this
    {
      blocks.Some?
    }
  }
}
