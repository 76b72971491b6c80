/**
 * cMemoryManager as of memory-manager-2: the same buffer, headers and
 * first-fit allocate as memory-manager-3, but no way to give memory back.
 * Its invariant is therefore stronger: the chain is a run of regions in use
 * followed by a single free tail.
 */
module MemoryManager2 {
  import opened MemoryChunk
  import opened Layout
  import opened Chain
  import opened Memory
  import opened TrashingOptions
  import opened AllocateOnly

  class MemoryManager {
    /** The regions of the buffer in address order, as the chain of headers describes them. */
    ghost var Blocks: seq<Block>

    /** The headers placed in m_memory, by offset. */
    var headers: map<int, Chunk>
    /** m_freeBytesCount */
    var freeBytesCount: uint32
    /** m_totalBytesCount */
    const totalBytesCount: uint32
    /** m_memory: the bytes of the buffer, as far as poisoning writes them. */
    const memory: array<bv8>
    /** m_trashing */
    const trashing: Trashing

    /**
     * The chain from offset 0 tiles the buffer, the free count is the free
     * payload of the chain, and every region but the last is in use.
     */
    ghost predicate Valid()
      reads this
    {
      && memory.Length == totalBytesCount
      && Arena(Blocks, headers, totalBytesCount, freeBytesCount)
      && InUseThenFreeTail(Blocks)
    }

    /**
     * cMemoryManager(bytes, trashing = ON_ALL): the whole buffer, poisoned
     * first when the policy asks for it, becomes one free region behind a
     * header at offset 0.
     */
    constructor (bytes: uint32, trashing: Trashing := DefaultTrashing)
      requires HeaderSize <= bytes
      ensures Valid() && fresh(memory)
      ensures totalBytesCount == bytes && this.trashing == trashing
      ensures Blocks == Initial(bytes) && freeBytesCount == bytes - HeaderSize
      ensures 0 in headers && headers[0] == NewChunk(bytes - HeaderSize)
      ensures Fires(trashing, OnInitialization) ==>
        forall k :: 0 <= k < bytes ==> memory[k] == OnInitialization.Value()
    {
      freeBytesCount := bytes - HeaderSize;
      totalBytesCount := bytes;
      this.trashing := trashing;
      memory := new bv8[bytes];
      new;
      Trash(OnInitialization, 0, totalBytesCount);
      headers := map[0 := NewChunk(freeBytesCount)];
      Blocks := Initial(bytes);
    }

    /**
     * allocate(bytes): without deallocation the first fit is always the free
     * tail, so the request succeeds exactly when the free count covers it and
     * one more header, and the payload handed out starts where the free bytes
     * start, just below the end of the buffer.
     */
    method Allocate(bytes: uint32) returns (p: Ptr)
      requires Valid()
      modifies this, memory
      ensures Valid()
      ensures p.At? <==> bytes + HeaderSize <= old(freeBytesCount)
      ensures p.Null? ==>
        && Blocks == old(Blocks) && headers == old(headers) && freeBytesCount == old(freeBytesCount)
        && memory[..] == old(memory[..])
      ensures p.At? ==>
        && Fits(old(Blocks)[|old(Blocks)| - 1], bytes)
        && p.offset == totalBytesCount - old(freeBytesCount)
        && Blocks == Split(old(Blocks), |old(Blocks)| - 1, bytes)
        && freeBytesCount == old(freeBytesCount) - bytes - HeaderSize
        && forall k :: 0 <= k < memory.Length ==>
             memory[k] == if Fires(trashing, OnAllocation) && p.offset <= k < p.offset + bytes
                          then OnAllocation.Value() else old(memory[k])
    {
      var chunkSize := HeaderSize;
      TailFirstFit(Blocks, bytes);

      // find the first free chunk that can store the requested bytes and a new header
      var chunk := At(0);
      ghost var k := 0;
      while chunk.At?
        invariant k <= |Blocks|
        invariant chunk == if k < |Blocks| then At(Blocks[k].offset) else Null
        invariant forall j :: 0 <= j < k ==> !Fits(Blocks[j], bytes)
        decreases |Blocks| - k
      {
        var c := headers[chunk.offset];
        if !c.inUse && c.bytes >= bytes + chunkSize {
          break;
        }
        chunk := c.next;
        k := k + 1;
      }

      if chunk.Null? {
        return Null;
      }

      var chunkAddress := chunk.offset;
      FirstFitIsFirst(Blocks, bytes, k);
      SplitTailArena(Blocks, headers, totalBytesCount, freeBytesCount, bytes);

      // build a new chunk from the remaining space
      var chunkHeader := headers[chunkAddress];
      var newChunkAddress := chunkAddress + chunkSize + bytes;
      var newChunk := NewChunk(chunkHeader.bytes - bytes - chunkSize).(previous := chunk, next := chunkHeader.next);
      var h := headers[newChunkAddress := newChunk];
      if newChunk.next.At? {
        // linking to a successor: the tail has none, so this never happens here
        assert false;
      }

      // the previously free chunk is now in use
      h := h[chunkAddress := h[chunkAddress].(next := At(newChunkAddress), bytes := bytes, inUse := true)];
      assert h == SplitLinks(headers, chunkAddress, bytes);
      headers := h;
      Blocks := Split(Blocks, k, bytes);
      freeBytesCount := freeBytesCount - (bytes + chunkSize);

      Trash(OnAllocation, chunkAddress + chunkSize, bytes);
      p := At(chunkAddress + chunkSize);
    }

    /**
     * The poisoning step: when the policy fires on `trigger`, `count` bytes
     * from `from` on are set to the trigger's poison byte; every other byte
     * is left alone.
     */
    method Trash(trigger: Trashing, from: nat, count: nat)
      requires from + count <= memory.Length
      modifies memory
      ensures forall k :: 0 <= k < memory.Length ==>
        memory[k] == if Fires(trashing, trigger) && from <= k < from + count then trigger.Value() else old(memory[k])
    {
      if Fires(trashing, trigger) {
        Memset(memory, from, count, trigger.Value());
      }
    }
  }
}
