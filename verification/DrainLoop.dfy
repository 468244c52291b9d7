/** The drain of a worker (src/reactor.c): its two nested loops over the blocks of its queue, here on a
    queue no one else touches, proved to visit what QueueLayout says. */
module DrainLoop {
  import opened ArenaModel
  import opened ArenaObject
  import opened QueueLayout

  /** The inner loop: the cursor positions in the k-th block. */
  method DrainBlock(block: BlockNode, k: nat, stride: nat) returns (visited: seq<Addr>)
    requires stride > 0
    ensures visited == BlockSlots(k, 0, block.offset, stride)
  {
    visited := [];
    var readOffset := 0;
    while readOffset < block.offset
      invariant visited + BlockSlots(k, readOffset, block.offset, stride) == BlockSlots(k, 0, block.offset, stride)
      decreases Gap(readOffset, block.offset)
    {
      assert visited + BlockSlots(k, readOffset, block.offset, stride)
          == (visited + [Addr(k, readOffset)]) + BlockSlots(k, readOffset + stride, block.offset, stride);
      visited := visited + [Addr(k, readOffset)];
      readOffset := readOffset + stride;
    }
  }

  /** The cursor positions at which a task is run. The caller resets the queue afterwards. */
  method DrainWalk(queue: ArenaList, stride: nat) returns (visited: seq<Addr>)
    requires queue.Valid() && stride > 0
    ensures visited == Walk(queue.model.blocks, 0, stride)
  {
    visited := [];
    var block: BlockNode? := queue.head;
    var k := 0;
    ghost var blocks := queue.model.blocks;
    while block != null
      invariant k <= |queue.chain| && block == queue.At(k)
      invariant visited + Walk(blocks, k, stride) == Walk(blocks, 0, stride)
      decreases |queue.chain| - k
    {
      assert queue.chain[k].View() == blocks[k];
      if !block.isWiped {
        var slots := DrainBlock(block, k, stride);
        assert visited + (slots + Walk(blocks, k + 1, stride)) == (visited + slots) + Walk(blocks, k + 1, stride);
        visited := visited + slots;
      }
      block := block.next;
      k := k + 1;
    }
  }
}
