/**
 * The arena of memory-manager-2, which can allocate but not deallocate. Built
 * from one free region by first-fit splits only, it is always a run of
 * regions in use followed by one free tail, and first fit degenerates into a
 * bump allocator: every allocation carves the next payload off the tail.
 */
module AllocateOnly {
  import opened MemoryChunk
  import opened Layout
  import opened Chain

  /** Regions in use, then exactly one free region at the end of the buffer. */
  ghost predicate InUseThenFreeTail(blocks: seq<Block>) {
    && |blocks| > 0
    && !blocks[|blocks| - 1].inUse
    && forall j :: 0 <= j < |blocks| - 1 ==> blocks[j].inUse
  }

  /** The free bytes of such an arena are the payload of its tail. */
  lemma {:induction false} TailHoldsFreeBytes(blocks: seq<Block>)
    requires InUseThenFreeTail(blocks)
    ensures FreeBytes(blocks) == blocks[|blocks| - 1].bytes
  {
    if |blocks| > 1 {
      assert blocks[0].inUse;
      var rest := blocks[1..];
      assert rest[|rest| - 1] == blocks[|blocks| - 1];
      forall j | 0 <= j < |rest| - 1
        ensures rest[j].inUse
      {
        assert rest[j] == blocks[j + 1];
      }
      TailHoldsFreeBytes(rest);
    }
  }

  /**
   * The tail sits right below the end of the buffer, so its payload starts at
   * the total size less the free bytes.
   */
  lemma TailOffset(blocks: seq<Block>, total: int)
    requires Tiles(blocks, total) && InUseThenFreeTail(blocks)
    ensures blocks[|blocks| - 1].offset + HeaderSize == total - FreeBytes(blocks)
  {
    TailHoldsFreeBytes(blocks);
  }

  /**
   * First fit on such an arena only ever picks the tail, and succeeds exactly
   * when the free bytes cover the request and one more header.
   */
  lemma TailFirstFit(blocks: seq<Block>, bytes: nat)
    requires InUseThenFreeTail(blocks)
    ensures FirstFit(blocks, bytes) ==
      if bytes + HeaderSize <= FreeBytes(blocks) then Some(|blocks| - 1) else None
  {
    TailHoldsFreeBytes(blocks);
    var last := |blocks| - 1;
    if Fits(blocks[last], bytes) {
      FirstFitIsFirst(blocks, bytes, last);
    } else {
      assert forall j :: 0 <= j < |blocks| ==> !Fits(blocks[j], bytes);
    }
  }

  /** Splitting the tail leaves a run in use followed by a (smaller) free tail. */
  lemma SplitTailKeepsShape(blocks: seq<Block>, bytes: nat)
    requires InUseThenFreeTail(blocks)
    requires Fits(blocks[|blocks| - 1], bytes)
    ensures InUseThenFreeTail(Split(blocks, |blocks| - 1, bytes))
  {
    var i := |blocks| - 1;
    var r := Split(blocks, i, bytes);
    assert |r| == |blocks| + 1;
    forall j | 0 <= j < |r| - 1
      ensures r[j].inUse
    {
      if j < i {
        assert r[j] == blocks[j];
      }
    }
  }

  /**
   * allocate on such an arena: the tail fits, its header ends the chain, and
   * splitting it yields a consistent arena of the same shape with the payload
   * and one header fewer free bytes.
   */
  lemma SplitTailArena(blocks: seq<Block>, headers: map<int, Chunk>, total: int, freeBytes: int, bytes: nat)
    requires Arena(blocks, headers, total, freeBytes) && InUseThenFreeTail(blocks)
    requires Fits(blocks[|blocks| - 1], bytes)
    ensures var tail := blocks[|blocks| - 1];
      && tail.offset + HeaderSize == total - freeBytes
      && tail.offset in headers && headers[tail.offset].next == Null
      && SplitLinksDefined(headers, tail.offset, bytes)
      && tail.offset + HeaderSize + bytes + HeaderSize <= total
      && var r := Split(blocks, |blocks| - 1, bytes);
        && Arena(r, SplitLinks(headers, tail.offset, bytes), total, freeBytes - bytes - HeaderSize)
        && InUseThenFreeTail(r)
  {
    TailOffset(blocks, total);
    SplitTailKeepsShape(blocks, bytes);
    SplitArena(blocks, headers, total, freeBytes, |blocks| - 1, bytes);
  }
}
