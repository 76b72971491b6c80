/**
 * The arena seen as a sequence of regions in address order. Every header of
 * cMemoryManager becomes a Block (where it sits, how many payload bytes follow
 * it, whether they are handed out); allocate and deallocate become functions
 * on that sequence, and the invariants of the manager are predicates on it.
 */
module Layout {
  import opened MemoryChunk

  datatype Option<T> = None | Some(value: T)

  /** A region: its header at `offset`, then `bytes` bytes of payload. */
  datatype Block = Block(offset: nat, bytes: nat, inUse: bool)

  /** The first byte after the region's payload. */
  function End(b: Block): nat {
    b.offset + HeaderSize + b.bytes
  }

  /** Each region starts where its predecessor ends. */
  ghost predicate Contiguous(blocks: seq<Block>) {
    forall j :: 0 <= j < |blocks| - 1 ==> blocks[j + 1].offset == End(blocks[j])
  }

  /** The regions tile the whole buffer of `total` bytes, starting at its base, with no gap. */
  ghost predicate Tiles(blocks: seq<Block>, total: int) {
    |blocks| > 0 && blocks[0].offset == 0 && Contiguous(blocks) && End(blocks[|blocks| - 1]) == total
  }

  /** The payload bytes of the free regions (m_freeBytesCount when the manager is consistent). */
  function FreeBytes(blocks: seq<Block>): nat {
    if blocks == [] then 0
    else (if blocks[0].inUse then 0 else blocks[0].bytes) + FreeBytes(blocks[1..])
  }

  /** Header plus payload bytes of every region. */
  function Footprint(blocks: seq<Block>): nat {
    if blocks == [] then 0 else HeaderSize + blocks[0].bytes + Footprint(blocks[1..])
  }

  /** No two neighbouring regions are both free. */
  ghost predicate NoAdjacentFree(blocks: seq<Block>) {
    forall j :: 0 <= j < |blocks| - 1 ==> blocks[j].inUse || blocks[j + 1].inUse
  }

  /** The arena right after construction: one free region behind a header at offset 0. */
  function Initial(total: nat): (r: seq<Block>)
    requires HeaderSize <= total
    ensures Tiles(r, total) && NoAdjacentFree(r)
    ensures FreeBytes(r) == total - HeaderSize
  {
    [Block(0, total - HeaderSize, false)]
  }

  // ---------------------------------------------------------------------------
  // Facts about tilings

  /** Regions are ordered: a region ends no later than any later region starts. */
  lemma {:induction false} OffsetsIncrease(blocks: seq<Block>, j: nat, k: nat)
    requires Contiguous(blocks)
    requires j < k < |blocks|
    ensures End(blocks[j]) <= blocks[k].offset
    decreases k - j
  {
    if j + 1 < k {
      OffsetsIncrease(blocks, j, k - 1);
    }
  }

  /** Every region ends inside the buffer. */
  lemma EndWithin(blocks: seq<Block>, total: int, j: nat)
    requires Tiles(blocks, total)
    requires j < |blocks|
    ensures End(blocks[j]) <= total
  {
    if j < |blocks| - 1 {
      OffsetsIncrease(blocks, j, |blocks| - 1);
    }
  }

  lemma {:induction false} ContiguousTail(blocks: seq<Block>)
    requires Contiguous(blocks) && |blocks| > 0
    ensures Contiguous(blocks[1..])
  {
    forall j | 0 <= j < |blocks[1..]| - 1
      ensures blocks[1..][j + 1].offset == End(blocks[1..][j])
    {
      assert blocks[1..][j + 1] == blocks[j + 2] && blocks[1..][j] == blocks[j + 1];
    }
  }

  /** Coverage: headers plus payloads of a contiguous run add up to the span it covers. */
  lemma {:induction false} Coverage(blocks: seq<Block>)
    requires Contiguous(blocks) && |blocks| > 0
    ensures Footprint(blocks) == End(blocks[|blocks| - 1]) - blocks[0].offset
  {
    if |blocks| > 1 {
      ContiguousTail(blocks);
      Coverage(blocks[1..]);
      assert blocks[1..][0] == blocks[1];
    }
  }

  lemma {:induction false} FreeBytesWithinFootprint(blocks: seq<Block>)
    ensures FreeBytes(blocks) + HeaderSize * |blocks| <= Footprint(blocks)
  {
    if blocks != [] {
      FreeBytesWithinFootprint(blocks[1..]);
    }
  }

  /** The free payload never exceeds the buffer less one header, so it fits an unsigned int whenever the buffer does. */
  lemma FreeBytesBound(blocks: seq<Block>, total: int)
    requires Tiles(blocks, total)
    ensures FreeBytes(blocks) + HeaderSize <= total
  {
    Coverage(blocks);
    FreeBytesWithinFootprint(blocks);
  }

  lemma {:induction false} FreeBytesConcat(a: seq<Block>, c: seq<Block>)
    ensures FreeBytes(a + c) == FreeBytes(a) + FreeBytes(c)
  {
    if a != [] {
      assert (a + c)[0] == a[0];
      assert (a + c)[1..] == a[1..] + c;
      FreeBytesConcat(a[1..], c);
    } else {
      assert a + c == c;
    }
  }

  lemma FreeBytesOfFew(x: Block, y: Block, z: Block)
    ensures FreeBytes([x]) == (if x.inUse then 0 else x.bytes)
    ensures FreeBytes([x, y]) == FreeBytes([x]) + FreeBytes([y])
    ensures FreeBytes([x, y, z]) == FreeBytes([x]) + FreeBytes([y]) + FreeBytes([z])
  {
    assert [x, y][1..] == [y] && [x, y, z][1..] == [y, z] && [y, z][1..] == [z];
  }

  lemma FreeBytesAround(blocks: seq<Block>, i: nat, j: nat, mid: seq<Block>)
    requires i <= j <= |blocks|
    ensures FreeBytes(blocks[..i] + mid + blocks[j..]) == FreeBytes(blocks[..i]) + FreeBytes(mid) + FreeBytes(blocks[j..])
  {
    FreeBytesConcat(blocks[..i] + mid, blocks[j..]);
    FreeBytesConcat(blocks[..i], mid);
  }

  lemma FreeBytesSplitAt(blocks: seq<Block>, i: nat, j: nat)
    requires i <= j <= |blocks|
    ensures FreeBytes(blocks) == FreeBytes(blocks[..i]) + FreeBytes(blocks[i..j]) + FreeBytes(blocks[j..])
  {
    assert blocks == blocks[..i] + blocks[i..j] + blocks[j..];
    FreeBytesAround(blocks, i, j, blocks[i..j]);
  }

  // ---------------------------------------------------------------------------
  // allocate

  /**
   * The guard of allocate's search: a free region with room for the request
   * and for the header that the split places after it.
   */
  predicate Fits(block: Block, bytes: nat) {
    !block.inUse && block.bytes >= bytes + HeaderSize
  }

  /**
   * The same guard with `bytes + chunkSize` evaluated the way the source
   * evaluates it: as an `unsigned int` sum, which wraps modulo 2^32.
   */
  predicate FitsAsWritten(block: Block, bytes: uint32) {
    !block.inUse && block.bytes >= (bytes + HeaderSize) % 0x1_0000_0000
  }

  /** Below the wrap the guard as written is Fits. */
  lemma FitsAsWrittenBelowWrap(block: Block, bytes: uint32)
    requires bytes + HeaderSize < 0x1_0000_0000
    ensures FitsAsWritten(block, bytes) <==> Fits(block, bytes)
  {
  }

  /**
   * A request within one header of 2^32 slips through the wrapped guard: on
   * a fresh 64-byte arena a request of 0xFFFFFFF0 bytes compares as 8, the
   * free region of 40 bytes passes, and the header the split would place
   * lies far outside the buffer. Fits rejects the request.
   */
  lemma WrappedGuardAdmitsHugeRequest()
    ensures var region, bytes := Initial(64)[0], 0xFFFF_FFF0;
      && FitsAsWritten(region, bytes)
      && !Fits(region, bytes)
      && region.offset + HeaderSize + bytes + HeaderSize > 64
  {
  }

  /** The search of allocate from the k-th region on, in address order. */
  function FirstFitFrom(blocks: seq<Block>, bytes: nat, k: nat): (r: Option<nat>)
    requires k <= |blocks|
    ensures r.Some? ==> k <= r.value < |blocks| && Fits(blocks[r.value], bytes)
    ensures r.Some? ==> forall j :: k <= j < r.value ==> !Fits(blocks[j], bytes)
    ensures r.None? ==> forall j :: k <= j < |blocks| ==> !Fits(blocks[j], bytes)
    decreases |blocks| - k
  {
    if k == |blocks| then None
    else if Fits(blocks[k], bytes) then Some(k)
    else FirstFitFrom(blocks, bytes, k + 1)
  }

  /**
   * First fit: the lowest-address region that fits, or None when no single
   * region does.
   */
  function FirstFit(blocks: seq<Block>, bytes: nat): (r: Option<nat>)
    ensures r.Some? ==> r.value < |blocks| && Fits(blocks[r.value], bytes)
    ensures r.Some? ==> forall j :: 0 <= j < r.value ==> !Fits(blocks[j], bytes)
    ensures r.None? <==> forall j :: 0 <= j < |blocks| ==> !Fits(blocks[j], bytes)
  {
    FirstFitFrom(blocks, bytes, 0)
  }

  /** A region that fits and has no fitting region before it is the one first fit picks. */
  lemma FirstFitIsFirst(blocks: seq<Block>, bytes: nat, i: nat)
    requires i < |blocks| && Fits(blocks[i], bytes)
    requires forall j :: 0 <= j < i ==> !Fits(blocks[j], bytes)
    ensures FirstFit(blocks, bytes) == Some(i)
  {
  }

  /**
   * The split of allocate: region i becomes in use with exactly `bytes` bytes,
   * and a free region with what is left over follows it.
   */
  function Split(blocks: seq<Block>, i: nat, bytes: nat): seq<Block>
    requires i < |blocks| && Fits(blocks[i], bytes)
  {
    var b := blocks[i];
    blocks[..i]
      + [Block(b.offset, bytes, true), Block(b.offset + HeaderSize + bytes, b.bytes - bytes - HeaderSize, false)]
      + blocks[i + 1..]
  }

  /**
   * The header allocate places lies inside the buffer, and so does the payload
   * it hands out: this is what the guard of Fits buys.
   */
  lemma SplitStaysInside(blocks: seq<Block>, total: int, i: nat, bytes: nat)
    requires Tiles(blocks, total)
    requires i < |blocks| && Fits(blocks[i], bytes)
    ensures blocks[i].offset + HeaderSize + bytes + HeaderSize <= total
  {
    EndWithin(blocks, total, i);
  }

  /**
   * After a split the regions still tile the buffer; the regions before i are
   * untouched, region i is in use with `bytes` bytes, the remainder (possibly
   * of size 0) is free and starts right after that payload, and the regions
   * after it are the old successors.
   */
  lemma SplitTiles(blocks: seq<Block>, total: int, i: nat, bytes: nat)
    requires Tiles(blocks, total)
    requires i < |blocks| && Fits(blocks[i], bytes)
    ensures var r := Split(blocks, i, bytes);
      && Tiles(r, total)
      && |r| == |blocks| + 1
      && r[..i] == blocks[..i]
      && r[i] == Block(blocks[i].offset, bytes, true)
      && r[i + 1] == Block(blocks[i].offset + HeaderSize + bytes, blocks[i].bytes - bytes - HeaderSize, false)
      && r[i + 2..] == blocks[i + 1..]
  {
    var r := Split(blocks, i, bytes);
    assert |r| == |blocks| + 1;
    forall j | 0 <= j < |r| - 1
      ensures r[j + 1].offset == End(r[j])
    {
      if j + 1 < i {
        assert r[j] == blocks[j] && r[j + 1] == blocks[j + 1];
      } else if j + 1 == i {
        assert r[j] == blocks[j];
      } else if j > i + 1 {
        assert r[j] == blocks[j - 1] && r[j + 1] == blocks[j];
      } else if j == i + 1 {
        assert r[j + 1] == blocks[i + 1];
      }
    }
    assert r[i + 2..] == blocks[i + 1..];
    if i + 1 < |blocks| {
      assert r[|r| - 1] == blocks[|blocks| - 1];
    }
  }

  /** Allocation takes exactly the payload plus one header out of the free bytes. */
  lemma SplitFreeBytes(blocks: seq<Block>, i: nat, bytes: nat)
    requires i < |blocks| && Fits(blocks[i], bytes)
    ensures FreeBytes(Split(blocks, i, bytes)) + bytes + HeaderSize == FreeBytes(blocks)
  {
    var b := blocks[i];
    var x, y := Block(b.offset, bytes, true), Block(b.offset + HeaderSize + bytes, b.bytes - bytes - HeaderSize, false);
    assert Split(blocks, i, bytes) == blocks[..i] + [x, y] + blocks[i + 1..];
    FreeBytesAround(blocks, i, i + 1, [x, y]);
    FreeBytesSplitAt(blocks, i, i + 1);
    assert blocks[i..i + 1] == [b];
    FreeBytesOfFew(x, y, b);
    FreeBytesOfFew(b, y, b);
  }

  /** Allocation keeps "no two neighbouring regions are both free". */
  lemma SplitNoAdjacentFree(blocks: seq<Block>, i: nat, bytes: nat)
    requires NoAdjacentFree(blocks)
    requires i < |blocks| && Fits(blocks[i], bytes)
    ensures NoAdjacentFree(Split(blocks, i, bytes))
  {
    var r := Split(blocks, i, bytes);
    forall j | 0 <= j < |r| - 1
      ensures r[j].inUse || r[j + 1].inUse
    {
      if j + 1 < i {
        assert r[j] == blocks[j] && r[j + 1] == blocks[j + 1];
      } else if j > i + 1 {
        assert r[j] == blocks[j - 1] && r[j + 1] == blocks[j];
      } else if j == i + 1 {
        assert r[j + 1] == blocks[i + 1];
      }
    }
  }

  /**
   * The search fails even when the free bytes scattered over several regions
   * add up to the request: here 60 free bytes, a request of 36 (36 + 24 = 60),
   * and no region with more than 30.
   */
  lemma ExhaustionDespiteScatteredFreeBytes()
    ensures var blocks := [Block(0, 30, false), Block(54, 0, true), Block(78, 30, false)];
      && Tiles(blocks, 132)
      && FreeBytes(blocks) >= 36 + HeaderSize
      && FirstFit(blocks, 36) == None
  {
    var blocks := [Block(0, 30, false), Block(54, 0, true), Block(78, 30, false)];
    assert blocks[1..][1..][1..] == [];
    assert !Fits(blocks[0], 36) && !Fits(blocks[1], 36) && !Fits(blocks[2], 36);
  }

  // ---------------------------------------------------------------------------
  // deallocate

  /** The region the merge starts at: the predecessor when it exists and is free. */
  function MergeStart(blocks: seq<Block>, i: nat): (lo: nat)
    requires i < |blocks|
    ensures lo == i || lo == i - 1
    ensures lo < i <==> i > 0 && !blocks[i - 1].inUse
  {
    if i > 0 && !blocks[i - 1].inUse then i - 1 else i
  }

  /** The last region the merge covers: the successor when it exists and is free. */
  function MergeEnd(blocks: seq<Block>, i: nat): (hi: nat)
    requires i < |blocks|
    ensures hi == i || hi == i + 1
    ensures hi > i <==> i + 1 < |blocks| && !blocks[i + 1].inUse
  {
    if i + 1 < |blocks| && !blocks[i + 1].inUse then i + 1 else i
  }

  /** The payload of the merged region, added up the way deallocateChunk does. */
  function MergedBytes(blocks: seq<Block>, i: nat): nat
    requires i < |blocks|
  {
    blocks[i].bytes
      + (if MergeStart(blocks, i) < i then blocks[i - 1].bytes + HeaderSize else 0)
      + (if MergeEnd(blocks, i) > i then blocks[i + 1].bytes + HeaderSize else 0)
  }

  /**
   * Freeing region i: it is merged with a free predecessor and a free
   * successor into one free region, which starts at the predecessor when that
   * one was absorbed.
   */
  function Coalesce(blocks: seq<Block>, i: nat): seq<Block>
    requires i < |blocks|
  {
    var lo, hi := MergeStart(blocks, i), MergeEnd(blocks, i);
    blocks[..lo] + [Block(blocks[lo].offset, MergedBytes(blocks, i), false)] + blocks[hi + 1..]
  }

  /** The bytes a free of region i gives back: its payload plus one header per absorbed neighbour. */
  function Reclaimed(blocks: seq<Block>, i: nat): nat
    requires i < |blocks|
  {
    blocks[i].bytes + HeaderSize * (MergeEnd(blocks, i) - MergeStart(blocks, i))
  }

  /**
   * After a free the regions still tile the buffer; the regions outside the
   * merged span are unchanged and the merged region covers exactly the span
   * from the first to the last merged region.
   */
  lemma CoalesceTiles(blocks: seq<Block>, total: int, i: nat)
    requires Tiles(blocks, total)
    requires i < |blocks|
    ensures var r, lo, hi := Coalesce(blocks, i), MergeStart(blocks, i), MergeEnd(blocks, i);
      && Tiles(r, total)
      && |r| == |blocks| - (hi - lo)
      && r[..lo] == blocks[..lo]
      && r[lo] == Block(blocks[lo].offset, MergedBytes(blocks, i), false)
      && End(r[lo]) == End(blocks[hi])
      && r[lo + 1..] == blocks[hi + 1..]
  {
    var r, lo, hi := Coalesce(blocks, i), MergeStart(blocks, i), MergeEnd(blocks, i);
    assert End(r[lo]) == End(blocks[hi]);
    forall j | 0 <= j < |r| - 1
      ensures r[j + 1].offset == End(r[j])
    {
      if j + 1 < lo {
        assert r[j] == blocks[j] && r[j + 1] == blocks[j + 1];
      } else if j + 1 == lo {
        assert r[j] == blocks[j];
      } else if j == lo {
        assert r[j + 1] == blocks[hi + 1];
      } else {
        assert r[j] == blocks[j - lo + hi] && r[j + 1] == blocks[j + 1 - lo + hi];
      }
    }
    assert r[lo + 1..] == blocks[hi + 1..];
    if hi + 1 < |blocks| {
      assert r[|r| - 1] == blocks[|blocks| - 1];
    }
  }

  /** Inside the merged span, the merged payload is the old free payload plus what the free reclaims. */
  lemma MergedSpanFreeBytes(blocks: seq<Block>, i: nat)
    requires i < |blocks| && blocks[i].inUse
    ensures FreeBytes(blocks[MergeStart(blocks, i)..MergeEnd(blocks, i) + 1]) + Reclaimed(blocks, i) == MergedBytes(blocks, i)
  {
    var lo, hi := MergeStart(blocks, i), MergeEnd(blocks, i);
    var span := blocks[lo..hi + 1];
    if lo < i && hi > i {
      assert span == [blocks[i - 1], blocks[i], blocks[i + 1]];
      FreeBytesOfFew(blocks[i - 1], blocks[i], blocks[i + 1]);
      FreeBytesOfFew(blocks[i], blocks[i], blocks[i]);
      FreeBytesOfFew(blocks[i + 1], blocks[i], blocks[i]);
      FreeBytesOfFew(blocks[i - 1], blocks[i], blocks[i]);
    } else if lo < i {
      assert span == [blocks[i - 1], blocks[i]];
      FreeBytesOfFew(blocks[i - 1], blocks[i], blocks[i]);
      FreeBytesOfFew(blocks[i], blocks[i], blocks[i]);
    } else if hi > i {
      assert span == [blocks[i], blocks[i + 1]];
      FreeBytesOfFew(blocks[i], blocks[i + 1], blocks[i]);
      FreeBytesOfFew(blocks[i + 1], blocks[i], blocks[i]);
    } else {
      assert span == [blocks[i]];
      FreeBytesOfFew(blocks[i], blocks[i], blocks[i]);
    }
  }

  /** A free of an in-use region raises the free bytes by exactly what it reclaims. */
  lemma CoalesceFreeBytes(blocks: seq<Block>, i: nat)
    requires i < |blocks| && blocks[i].inUse
    ensures FreeBytes(Coalesce(blocks, i)) == FreeBytes(blocks) + Reclaimed(blocks, i)
  {
    var lo, hi := MergeStart(blocks, i), MergeEnd(blocks, i);
    var merged := Block(blocks[lo].offset, MergedBytes(blocks, i), false);
    FreeBytesAround(blocks, lo, hi + 1, [merged]);
    FreeBytesSplitAt(blocks, lo, hi + 1);
    FreeBytesOfFew(merged, merged, merged);
    MergedSpanFreeBytes(blocks, i);
  }

  /** A free re-establishes "no two neighbouring regions are both free". */
  lemma CoalesceNoAdjacentFree(blocks: seq<Block>, i: nat)
    requires NoAdjacentFree(blocks)
    requires i < |blocks| && blocks[i].inUse
    ensures NoAdjacentFree(Coalesce(blocks, i))
  {
    var r, lo, hi := Coalesce(blocks, i), MergeStart(blocks, i), MergeEnd(blocks, i);
    forall j | 0 <= j < |r| - 1
      ensures r[j].inUse || r[j + 1].inUse
    {
      if j + 1 < lo {
        assert r[j] == blocks[j] && r[j + 1] == blocks[j + 1];
      } else if j + 1 == lo {
        assert r[j] == blocks[j];
        if lo < i {
          assert !blocks[j + 1].inUse;
        }
      } else if j == lo {
        assert r[j + 1] == blocks[hi + 1];
        if hi > i {
          assert !blocks[hi].inUse;
        }
      } else {
        assert r[j] == blocks[j - lo + hi] && r[j + 1] == blocks[j + 1 - lo + hi];
      }
    }
  }

  /**
   * The chain walk of findChunkForUserMemory from the k-th region on: it gives
   * up at the first header past the address, and a header whose payload starts
   * at the address is only accepted when it is in use.
   */
  function PayloadOwner(blocks: seq<Block>, address: int, k: nat): (r: Option<nat>)
    requires k <= |blocks|
    ensures r.Some? ==> k <= r.value < |blocks| && blocks[r.value].inUse
    ensures r.Some? ==> blocks[r.value].offset + HeaderSize == address
    decreases |blocks| - k
  {
    if k == |blocks| then None
    else if address < blocks[k].offset then None
    else if blocks[k].offset + HeaderSize == address then (if blocks[k].inUse then Some(k) else None)
    else PayloadOwner(blocks, address, k + 1)
  }

  /** The walk finds every in-use region whose payload starts at the address. */
  lemma {:induction false} PayloadOwnerFinds(blocks: seq<Block>, address: int, k: nat, i: nat)
    requires Contiguous(blocks)
    requires k <= i < |blocks| && blocks[i].inUse && blocks[i].offset + HeaderSize == address
    ensures PayloadOwner(blocks, address, k) == Some(i)
    decreases i - k
  {
    if k < i {
      OffsetsIncrease(blocks, k, i);
      PayloadOwnerStep(blocks, address, k);
      PayloadOwnerFinds(blocks, address, k + 1, i);
    }
  }

  lemma PayloadOwnerStep(blocks: seq<Block>, address: int, k: nat)
    requires k < |blocks|
    requires blocks[k].offset + HeaderSize < address
    ensures PayloadOwner(blocks, address, k) == PayloadOwner(blocks, address, k + 1)
  {
  }

  /**
   * The region deallocate frees for `address`, if any: the address must lie in
   * the buffer, past the first header, and be the payload start of an in-use
   * region.
   */
  function Released(blocks: seq<Block>, address: Ptr, total: int): (r: Option<nat>)
    requires Contiguous(blocks)
    ensures r.Some? <==> (address.At? && HeaderSize <= address.offset < total
      && exists i :: 0 <= i < |blocks| && blocks[i].inUse && blocks[i].offset + HeaderSize == address.offset)
    ensures r.Some? ==> r.value < |blocks| && blocks[r.value].inUse && blocks[r.value].offset + HeaderSize == address.offset
  {
    if address.At? && 0 <= address.offset < total && HeaderSize <= address.offset then
      var r := PayloadOwner(blocks, address.offset, 0);
      assert forall i :: 0 <= i < |blocks| && blocks[i].inUse && blocks[i].offset + HeaderSize == address.offset ==> r.Some? by {
        forall i | 0 <= i < |blocks| && blocks[i].inUse && blocks[i].offset + HeaderSize == address.offset
          ensures r.Some?
        {
          PayloadOwnerFinds(blocks, address.offset, 0, i);
        }
      }
      r
    else None
  }

  /** Freeing the same pointer twice: the second call finds nothing to free. */
  lemma DeallocateTwiceIsNoop(blocks: seq<Block>, total: int, address: Ptr)
    requires Tiles(blocks, total)
    requires Released(blocks, address, total).Some?
    ensures Tiles(Coalesce(blocks, Released(blocks, address, total).value), total)
    ensures Released(Coalesce(blocks, Released(blocks, address, total).value), address, total) == None
  {
    var i := Released(blocks, address, total).value;
    var r, lo, hi := Coalesce(blocks, i), MergeStart(blocks, i), MergeEnd(blocks, i);
    CoalesceTiles(blocks, total, i);
    if Released(r, address, total).Some? {
      var j := Released(r, address, total).value;
      assert r[j].offset == blocks[i].offset && r[j].inUse;
      if j < lo {
        assert r[j] == r[..lo][j] == blocks[j];
        OffsetsIncrease(blocks, j, i);
      } else if j > lo {
        assert r[j] == r[lo + 1..][j - lo - 1] == blocks[j - lo + hi];
        OffsetsIncrease(blocks, i, j - lo + hi);
      }
      assert false;
    }
  }

  /** allocate's split keeps a tiling a tiling, with no free neighbours, and takes the payload and one header from the free bytes. */
  lemma SplitKeepsLayout(blocks: seq<Block>, total: int, i: nat, bytes: nat)
    requires Tiles(blocks, total)
    requires i < |blocks| && Fits(blocks[i], bytes)
    ensures var r := Split(blocks, i, bytes);
      && Tiles(r, total) && (NoAdjacentFree(blocks) ==> NoAdjacentFree(r))
      && FreeBytes(r) + bytes + HeaderSize == FreeBytes(blocks)
    ensures blocks[i].offset + HeaderSize + bytes + HeaderSize <= total
  {
    SplitTiles(blocks, total, i, bytes);
    SplitFreeBytes(blocks, i, bytes);
    if NoAdjacentFree(blocks) {
      SplitNoAdjacentFree(blocks, i, bytes);
    }
    SplitStaysInside(blocks, total, i, bytes);
  }

  /** deallocate's merge keeps a tiling a tiling, with no free neighbours, and adds what it reclaims to the free bytes. */
  lemma CoalesceKeepsLayout(blocks: seq<Block>, total: int, i: nat)
    requires Tiles(blocks, total) && NoAdjacentFree(blocks)
    requires i < |blocks| && blocks[i].inUse
    ensures var r := Coalesce(blocks, i);
      && Tiles(r, total) && NoAdjacentFree(r)
      && FreeBytes(r) == FreeBytes(blocks) + Reclaimed(blocks, i)
      && FreeBytes(r) + HeaderSize <= total
    ensures blocks[MergeStart(blocks, i)].offset + HeaderSize + MergedBytes(blocks, i) <= total
  {
    var r := Coalesce(blocks, i);
    CoalesceTiles(blocks, total, i);
    CoalesceFreeBytes(blocks, i);
    CoalesceNoAdjacentFree(blocks, i);
    FreeBytesBound(r, total);
    EndWithin(r, total, MergeStart(blocks, i));
  }

  /**
   * Round trip: allocating from a free region and then freeing the pointer
   * handed out gives back exactly the arena before the allocation.
   */
  lemma AllocateThenDeallocate(blocks: seq<Block>, total: int, i: nat, bytes: nat)
    requires Tiles(blocks, total) && NoAdjacentFree(blocks)
    requires i < |blocks| && Fits(blocks[i], bytes)
    ensures var r := Split(blocks, i, bytes);
      && Tiles(r, total)
      && Released(r, At(blocks[i].offset + HeaderSize), total) == Some(i)
      && Coalesce(r, i) == blocks
  {
    var r := Split(blocks, i, bytes);
    SplitTiles(blocks, total, i, bytes);
    SplitStaysInside(blocks, total, i, bytes);
    PayloadOwnerFinds(r, blocks[i].offset + HeaderSize, 0, i);
    assert MergeStart(r, i) == i by {
      if i > 0 {
        assert r[i - 1] == blocks[i - 1];
        assert blocks[i - 1].inUse;
      }
    }
    assert MergeEnd(r, i) == i + 1;
    assert MergedBytes(r, i) == blocks[i].bytes;
    assert Coalesce(r, i) == r[..i] + [blocks[i]] + r[i + 2..];
    assert blocks == blocks[..i] + [blocks[i]] + blocks[i + 1..];
  }
}
