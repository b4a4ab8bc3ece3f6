/**
 The kernel allocator the driver calls, as a map from allocated addresses to block contents. The
 address an allocation returns is the caller's parameter `answer` (NULL when memory is exhausted);
 a free demands that its block is allocated.
 */
module SlabAllocator {
  import opened Bytes
  import opened CircularBuffer

  class Slab {
    var blocks: map<Ptr, seq<Byte>>

    constructor ()
      ensures blocks == map[]
    {
      blocks := map[];
    }

    /** The contents of a new block are unspecified. */
    method Kmalloc(n: nat, answer: Ptr) returns (p: Ptr)
      requires answer !in blocks
      modifies this
      ensures p == answer
      ensures p == NULL ==> blocks == old(blocks)
      ensures p != NULL ==> p in blocks && |blocks[p]| == n && blocks == old(blocks)[p := blocks[p]]
    {
      p := answer;
      if p != NULL {
        blocks := blocks[p := seq(n, _ => 0)];
      }
    }

    /** Failing leaves the old block alone; otherwise the old block is gone, its bytes kept in the new one. */
    method Krealloc(block: Ptr, n: nat, answer: Ptr) returns (p: Ptr)
      requires block in blocks && |blocks[block]| <= n
      requires answer == block || answer !in blocks
      modifies this
      ensures p == answer
      ensures p == NULL ==> blocks == old(blocks)
      ensures p != NULL ==>
                && p in blocks && |blocks[p]| == n && old(blocks[block]) <= blocks[p]
                && blocks == (old(blocks) - {block})[p := blocks[p]]
    {
      p := answer;
      if p != NULL {
        var kept := blocks[block];
        blocks := (blocks - {block})[p := kept + seq(n - |kept|, _ => 0)];
      }
    }

    /** A complete copy_from_user into a block. */
    method CopyIn(p: Ptr, offset: nat, data: seq<Byte>)
      requires p in blocks && offset + |data| <= |blocks[p]|
      modifies this
      ensures blocks == old(blocks)[p := old(blocks[p])[..offset] + data + old(blocks[p])[offset + |data|..]]
    {
      var block := blocks[p];
      blocks := blocks[p := block[..offset] + data + block[offset + |data|..]];
    }

    method Kfree(p: Ptr)
      requires p == NULL || p in blocks
      modifies this
      ensures blocks == old(blocks) - {p}
    {
      blocks := blocks - {p};
    }
  }
}
