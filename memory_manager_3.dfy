/**
 * cMemoryManager as of memory-manager-3: a fixed buffer carved into regions by
 * an intrusive, address-ordered chain of headers, with first-fit allocation,
 * a defensive deallocate that merges the freed region with free neighbours,
 * and optional poisoning of memory.
 */
module MemoryManager3 {
  import opened MemoryChunk
  import opened Layout
  import opened Chain
  import opened Memory
  import opened TrashingOptions

  class MemoryManager {
    /** The regions of the buffer in address order, as the chain of headers describes them. */
    ghost var Blocks: seq<Block>

    /** The headers placed in m_memory, by offset. */
    var headers: map<int, Chunk>
    /** m_freeBytesCount */
    var freeBytesCount: uint32
    /** m_totalBytesCount */
    const totalBytesCount: uint32
    /** m_memory: the bytes of the buffer, as far as poisoning writes them. */
    const memory: array<bv8>
    /** m_trashing */
    const trashing: Trashing

    /**
     * The invariant every public operation keeps: the chain from offset 0
     * tiles the buffer, the free count is the free payload of the chain, and
     * no two neighbouring regions are both free.
     */
    ghost predicate Valid()
      reads this
    {
      && memory.Length == totalBytesCount
      && Arena(Blocks, headers, totalBytesCount, freeBytesCount)
      && NoAdjacentFree(Blocks)
    }

    /**
     * cMemoryManager(bytes, trashing = ON_ALL): the whole buffer, poisoned
     * first when the policy asks for it, becomes one free region behind a
     * header at offset 0.
     */
    constructor (bytes: uint32, trashing: Trashing := DefaultTrashing)
      requires HeaderSize <= bytes
      ensures Valid() && fresh(memory)
      ensures totalBytesCount == bytes && this.trashing == trashing
      ensures Blocks == Initial(bytes) && freeBytesCount == bytes - HeaderSize
      ensures 0 in headers && headers[0] == NewChunk(bytes - HeaderSize)
      ensures Fires(trashing, OnInitialization) ==>
        forall k :: 0 <= k < bytes ==> memory[k] == OnInitialization.Value()
    {
      freeBytesCount := bytes - HeaderSize;
      totalBytesCount := bytes;
      this.trashing := trashing;
      memory := new bv8[bytes];
      new;
      Trash(OnInitialization, 0, totalBytesCount);
      headers := map[0 := NewChunk(freeBytesCount)];
      Blocks := Initial(bytes);
    }

    /**
     * allocate(bytes): the first free region in address order with room for
     * the request and one more header is split; the caller gets the payload
     * right after its header. With no such region, nothing changes and the
     * result is nullptr.
     */
    method Allocate(bytes: uint32) returns (p: Ptr)
      requires Valid()
      modifies this, memory
      ensures Valid()
      ensures p.At? ==> HeaderSize <= p.offset && p.offset + bytes <= totalBytesCount
      ensures match FirstFit(old(Blocks), bytes)
        case None =>
          && p == Null
          && Blocks == old(Blocks) && headers == old(headers) && freeBytesCount == old(freeBytesCount)
          && memory[..] == old(memory[..])
        case Some(i) =>
          && p == At(old(Blocks)[i].offset + HeaderSize)
          && Blocks == Split(old(Blocks), i, bytes)
          && freeBytesCount == old(freeBytesCount) - bytes - HeaderSize
          && forall k :: 0 <= k < memory.Length ==>
               memory[k] == if Fires(trashing, OnAllocation) && p.offset <= k < p.offset + bytes
                            then OnAllocation.Value() else old(memory[k])
    {
      var chunkSize := HeaderSize;

      // find the first free chunk that can store the requested bytes and a new header
      var chunk := At(0);
      ghost var k := 0;
      while chunk.At?
        invariant k <= |Blocks|
        invariant chunk == if k < |Blocks| then At(Blocks[k].offset) else Null
        invariant forall j :: 0 <= j < k ==> !Fits(Blocks[j], bytes)
        decreases |Blocks| - k
      {
        var c := headers[chunk.offset];
        if !c.inUse && c.bytes >= bytes + chunkSize {
          break;
        }
        chunk := c.next;
        k := k + 1;
      }

      if chunk.Null? {
        return Null;
      }

      var chunkAddress := chunk.offset;
      FirstFitIsFirst(Blocks, bytes, k);
      SplitArena(Blocks, headers, totalBytesCount, freeBytesCount, k, bytes);

      // build a new chunk from the remaining space
      var chunkHeader := headers[chunkAddress];
      var newChunkAddress := chunkAddress + chunkSize + bytes;
      var newChunk := NewChunk(chunkHeader.bytes - bytes - chunkSize).(previous := chunk, next := chunkHeader.next);
      var h := headers[newChunkAddress := newChunk];
      if newChunk.next.At? {
        h := h[newChunk.next.offset := h[newChunk.next.offset].(previous := At(newChunkAddress))];
      }

      // the previously free chunk is now in use
      h := h[chunkAddress := h[chunkAddress].(next := At(newChunkAddress), bytes := bytes, inUse := true)];
      assert h == SplitLinks(headers, chunkAddress, bytes);
      headers := h;
      Blocks := Split(Blocks, k, bytes);

      freeBytesCount := freeBytesCount - (bytes + chunkSize);

      Trash(OnAllocation, chunkAddress + chunkSize, bytes);

      p := At(chunkAddress + chunkSize);
    }

    /**
     * deallocate(address): frees the region whose payload starts at
     * `address`; nullptr, an address outside the buffer or inside the first
     * header, an address that is no region's payload start, and the payload
     * of a region already free are all ignored.
     */
    method Deallocate(address: Ptr)
      requires Valid()
      modifies this, memory
      ensures Valid()
      ensures match Released(old(Blocks), address, totalBytesCount)
        case None =>
          && Blocks == old(Blocks) && headers == old(headers) && freeBytesCount == old(freeBytesCount)
          && memory[..] == old(memory[..])
        case Some(i) =>
          && Blocks == Coalesce(old(Blocks), i)
          && freeBytesCount == old(freeBytesCount) + Reclaimed(old(Blocks), i)
          && var from := old(Blocks)[MergeStart(old(Blocks), i)].offset + HeaderSize;
             forall k :: 0 <= k < memory.Length ==>
               memory[k] == if Fires(trashing, OnDeallocation) && from <= k < from + MergedBytes(old(Blocks), i)
                            then OnDeallocation.Value() else old(memory[k])
    {
      var isInRange := IsAddressInMemoryRange(address);
      if isInRange {
        var chunk := FindChunkForUserMemory(address.offset);
        if chunk.At? {
          DeallocateChunk(Released(Blocks, address, totalBytesCount).value, chunk.offset);
        }
      }
    }

    /** isAddressInMemoryRange: not nullptr, inside the buffer, and past the first header. */
    function IsAddressInMemoryRange(address: Ptr): (r: bool)
      ensures r <==> address.At? && HeaderSize <= address.offset < totalBytesCount
    {
      if address.Null? then false
      else if address.offset < 0 || address.offset >= totalBytesCount then false
      else if address.offset - HeaderSize < 0 then false
      else true
    }

    /**
     * findChunkForUserMemory: walks the chain for the in-use header whose
     * payload starts at `address`, giving up at the first header past it.
     */
    method FindChunkForUserMemory(address: int) returns (chunk: Ptr)
      requires Valid()
      ensures chunk.At? <==> exists i :: 0 <= i < |Blocks| && Blocks[i].inUse && Blocks[i].offset + HeaderSize == address
      ensures chunk == match PayloadOwner(Blocks, address, 0)
        case None => Null
        case Some(i) => At(Blocks[i].offset)
    {
      var chunkSize := HeaderSize;
      chunk := At(0);
      ghost var k := 0;
      while chunk.At?
        invariant k <= |Blocks|
        invariant chunk == if k < |Blocks| then At(Blocks[k].offset) else Null
        invariant PayloadOwner(Blocks, address, k) == PayloadOwner(Blocks, address, 0)
        decreases |Blocks| - k
      {
        var chunkAddress := chunk.offset;

        // the address lies mid-region
        if address < chunkAddress {
          chunk := Null;
          break;
        }

        if chunkAddress + chunkSize == address {
          // only a chunk in use can be deallocated
          if !headers[chunkAddress].inUse {
            chunk := Null;
          }
          break;
        }

        chunk := headers[chunkAddress].next;
        k := k + 1;
      }
      forall i | 0 <= i < |Blocks| && Blocks[i].inUse && Blocks[i].offset + HeaderSize == address
        ensures PayloadOwner(Blocks, address, 0) == Some(i)
      {
        PayloadOwnerFinds(Blocks, address, 0, i);
      }
    }

    /**
     * deallocateChunk: region i, in use, becomes free and is merged with a
     * free predecessor and a free successor; the free count grows by its
     * payload and by one header per absorbed neighbour.
     */
    method DeallocateChunk(ghost i: nat, chunk: int)
      requires Valid()
      requires i < |Blocks| && Blocks[i].inUse && chunk == Blocks[i].offset
      modifies this, memory
      ensures Valid()
      ensures Blocks == Coalesce(old(Blocks), i)
      ensures freeBytesCount == old(freeBytesCount) + Reclaimed(old(Blocks), i)
      ensures var from := old(Blocks)[MergeStart(old(Blocks), i)].offset + HeaderSize;
        forall k :: 0 <= k < memory.Length ==>
          memory[k] == if Fires(trashing, OnDeallocation) && from <= k < from + MergedBytes(old(Blocks), i)
                       then OnDeallocation.Value() else old(memory[k])
    {
      CoalesceArena(Blocks, headers, totalBytesCount, freeBytesCount, i);

      var chunkSize := HeaderSize;
      var chunkToStartDeallocation := chunk;
      var previousChunk := headers[chunk].previous;
      var nextChunk := headers[chunk].next;
      var newChunkFreeBytes := headers[chunk].bytes;
      var h := headers;
      var freeBytes := freeBytesCount + h[chunk].bytes;

      // a free chunk before it?
      if previousChunk.At? && !h[previousChunk.offset].inUse {
        chunkToStartDeallocation := previousChunk.offset;
        previousChunk := h[previousChunk.offset].previous;
        newChunkFreeBytes := newChunkFreeBytes + h[chunkToStartDeallocation].bytes;
        newChunkFreeBytes := newChunkFreeBytes + chunkSize;
        freeBytes := freeBytes + chunkSize;
      }
      assert chunkToStartDeallocation == MergeStartAt(headers, chunk);

      // a free chunk after it?
      if nextChunk.At? {
        h := h[nextChunk.offset := h[nextChunk.offset].(previous := At(chunkToStartDeallocation))];
        if !h[nextChunk.offset].inUse {
          newChunkFreeBytes := newChunkFreeBytes + h[nextChunk.offset].bytes + chunkSize;
          nextChunk := h[nextChunk.offset].next;
          if nextChunk.At? {
            h := h[nextChunk.offset := h[nextChunk.offset].(previous := At(chunkToStartDeallocation))];
          }
          h := h[chunkToStartDeallocation := h[chunkToStartDeallocation].(next := nextChunk)];
          freeBytes := freeBytes + chunkSize;
        }
      }

      // build the merged free chunk
      h := h[chunkToStartDeallocation := NewChunk(newChunkFreeBytes).(previous := previousChunk, next := nextChunk)];
      assert newChunkFreeBytes == MergedBytesAt(headers, chunk);
      assert freeBytes == freeBytesCount + ReclaimedAt(headers, chunk);
      assert h == CoalesceLinks(headers, chunk);
      headers := h;
      freeBytesCount := freeBytes;
      Blocks := Coalesce(Blocks, i);

      Trash(OnDeallocation, chunkToStartDeallocation + chunkSize, newChunkFreeBytes);
    }

    /**
     * The poisoning step each operation ends with: when the policy fires on
     * `trigger`, `count` bytes from `from` on are set to the trigger's
     * poison byte; every other byte is left alone.
     */
    method Trash(trigger: Trashing, from: nat, count: nat)
      requires from + count <= memory.Length
      modifies memory
      ensures forall k :: 0 <= k < memory.Length ==>
        memory[k] == if Fires(trashing, trigger) && from <= k < from + count then trigger.Value() else old(memory[k])
    {
      if Fires(trashing, trigger) {
        Memset(memory, from, count, trigger.Value());
      }
    }
  }
}
