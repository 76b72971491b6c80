/**
 * The intrusive header chain of cMemoryManager. The headers live in the
 * buffer at byte offsets, so they are kept here as a map from offset to
 * cMemoryChunk; a header that a merge swallowed stays in the map, the way its
 * bytes stay in the buffer, but no link reaches it any more.
 */
module Chain {
  import opened MemoryChunk
  import opened Layout

  /** The header region i must carry: its state and size, and links to its neighbours in address order. */
  ghost function HeaderOf(blocks: seq<Block>, i: nat): Chunk
    requires i < |blocks|
  {
    Chunk(blocks[i].inUse, blocks[i].bytes,
          if i == 0 then Null else At(blocks[i - 1].offset),
          if i + 1 < |blocks| then At(blocks[i + 1].offset) else Null)
  }

  /** Every region has at its offset the header that describes it and links it to its neighbours. */
  ghost predicate HeadersDescribe(blocks: seq<Block>, headers: map<int, Chunk>) {
    forall i :: 0 <= i < |blocks| ==> blocks[i].offset in headers && headers[blocks[i].offset] == HeaderOf(blocks, i)
  }

  /**
   * The same, said link by link: each region has a header with its state and
   * size, neighbours point at each other, and the chain ends in nullptr at
   * both ends.
   */
  ghost predicate Linked(blocks: seq<Block>, headers: map<int, Chunk>) {
    && (forall i :: 0 <= i < |blocks| ==>
          && blocks[i].offset in headers
          && headers[blocks[i].offset].inUse == blocks[i].inUse
          && headers[blocks[i].offset].bytes == blocks[i].bytes)
    && (forall i, j {:trigger blocks[i], blocks[j]} :: 0 <= i && j == i + 1 && j < |blocks| ==>
          && blocks[i].offset in headers && blocks[j].offset in headers
          && headers[blocks[i].offset].next == At(blocks[j].offset)
          && headers[blocks[j].offset].previous == At(blocks[i].offset))
    && (|blocks| > 0 ==>
          && blocks[0].offset in headers && headers[blocks[0].offset].previous == Null
          && blocks[|blocks| - 1].offset in headers && headers[blocks[|blocks| - 1].offset].next == Null)
  }

  /** The header of one region, read off the links. */
  lemma LinkedAt(blocks: seq<Block>, headers: map<int, Chunk>, i: nat)
    requires Linked(blocks, headers)
    requires i < |blocks|
    ensures blocks[i].offset in headers && headers[blocks[i].offset] == HeaderOf(blocks, i)
  {
    if i > 0 {
      assert blocks[i - 1].offset in headers;
    }
    if i + 1 < |blocks| {
      assert blocks[i + 1].offset in headers;
    }
  }

  lemma HeadersLinked(blocks: seq<Block>, headers: map<int, Chunk>)
    requires HeadersDescribe(blocks, headers)
    ensures Linked(blocks, headers)
  {
    forall i, j | 0 <= i && j == i + 1 && j < |blocks|
      ensures blocks[i].offset in headers && blocks[j].offset in headers
      ensures headers[blocks[i].offset].next == At(blocks[j].offset)
      ensures headers[blocks[j].offset].previous == At(blocks[i].offset)
    {
      assert headers[blocks[i].offset] == HeaderOf(blocks, i);
      assert headers[blocks[j].offset] == HeaderOf(blocks, j);
    }
    if |blocks| > 0 {
      assert headers[blocks[0].offset] == HeaderOf(blocks, 0);
      assert headers[blocks[|blocks| - 1].offset] == HeaderOf(blocks, |blocks| - 1);
    }
  }

  /**
   * The consistency of a manager: the chain reachable from offset 0 is
   * `blocks`, the regions tile the buffer, and m_freeBytesCount is the free
   * payload of the chain.
   */
  ghost predicate Arena(blocks: seq<Block>, headers: map<int, Chunk>, total: int, freeBytes: int) {
    Tiles(blocks, total) && Linked(blocks, headers) && freeBytes == FreeBytes(blocks)
  }

  // ---------------------------------------------------------------------------
  // allocate

  ghost predicate SplitLinksDefined(headers: map<int, Chunk>, offset: int, bytes: nat) {
    && offset in headers
    && headers[offset].bytes >= bytes + HeaderSize
    && (headers[offset].next.At? ==> headers[offset].next.offset in headers)
  }

  /**
   * The headers after allocate's split of the header at `offset`: a new free
   * header right after the payload, linked between that header and its old
   * successor, and the header itself in use with exactly `bytes` bytes.
   */
  ghost function SplitLinks(headers: map<int, Chunk>, offset: int, bytes: nat): map<int, Chunk>
    requires SplitLinksDefined(headers, offset, bytes)
  {
    var chunk := headers[offset];
    var newOffset := offset + HeaderSize + bytes;
    var newChunk := NewChunk(chunk.bytes - bytes - HeaderSize).(previous := At(offset), next := chunk.next);
    var h1 := headers[newOffset := newChunk];
    var h2 := if newChunk.next.At? then h1[newChunk.next.offset := h1[newChunk.next.offset].(previous := At(newOffset))] else h1;
    h2[offset := h2[offset].(next := At(newOffset), bytes := bytes, inUse := true)]
  }

  /** What the split changes, header by header: the split header, the new header, the successor's back link; nothing else. */
  lemma SplitLinksEffect(headers: map<int, Chunk>, offset: int, bytes: nat)
    requires SplitLinksDefined(headers, offset, bytes)
    requires headers[offset].next.At? ==> offset + HeaderSize + bytes < headers[offset].next.offset
    ensures var h, c, newOffset := SplitLinks(headers, offset, bytes), headers[offset], offset + HeaderSize + bytes;
      && offset in h && h[offset] == Chunk(true, bytes, c.previous, At(newOffset))
      && newOffset in h && h[newOffset] == Chunk(false, c.bytes - bytes - HeaderSize, At(offset), c.next)
      && (c.next.At? ==> c.next.offset in h && h[c.next.offset] == headers[c.next.offset].(previous := At(newOffset)))
      && forall o :: o in headers && o != offset && o != newOffset && c.next != At(o) ==> o in h && h[o] == headers[o]
  {
  }

  /** The relinking of allocate describes exactly the split arena. */
  lemma SplitLinked(blocks: seq<Block>, headers: map<int, Chunk>, i: nat, bytes: nat)
    requires Contiguous(blocks) && Linked(blocks, headers)
    requires i < |blocks| && Fits(blocks[i], bytes)
    ensures SplitLinksDefined(headers, blocks[i].offset, bytes)
    ensures HeadersDescribe(Split(blocks, i, bytes), SplitLinks(headers, blocks[i].offset, bytes))
  {
    var off := blocks[i].offset;
    var newOff := off + HeaderSize + bytes;
    LinkedAt(blocks, headers, i);
    if i + 1 < |blocks| {
      assert blocks[i + 1].offset == End(blocks[i]);
    }
    var h := SplitLinks(headers, off, bytes);
    SplitLinksEffect(headers, off, bytes);
    forall j | 0 <= j < |blocks| && j != i && j != i + 1
      ensures blocks[j].offset in h && h[blocks[j].offset] == headers[blocks[j].offset]
    {
      LinkedAt(blocks, headers, j);
      SplitFrameDistinct(blocks, i, j, bytes);
    }
    SplitLinkedFrom(blocks, headers, h, i, bytes);
  }

  /** The headers outside the split region and its successor are not among those allocate writes. */
  lemma SplitFrameDistinct(blocks: seq<Block>, i: nat, j: nat, bytes: nat)
    requires Contiguous(blocks)
    requires i < |blocks| && j < |blocks| && j != i && j != i + 1
    requires Fits(blocks[i], bytes)
    ensures blocks[j].offset != blocks[i].offset
    ensures blocks[j].offset != blocks[i].offset + HeaderSize + bytes
    ensures i + 1 < |blocks| ==> blocks[j].offset != blocks[i + 1].offset
  {
    if j < i {
      OffsetsIncrease(blocks, j, i);
    } else {
      OffsetsIncrease(blocks, i, j);
      OffsetsIncrease(blocks, i + 1, j);
    }
  }

  lemma SplitLinkedFrom(blocks: seq<Block>, headers: map<int, Chunk>, h: map<int, Chunk>, i: nat, bytes: nat)
    requires Linked(blocks, headers)
    requires i < |blocks| && Fits(blocks[i], bytes)
    requires var off := blocks[i].offset;
      && off in h && h[off] == Chunk(true, bytes, HeaderOf(blocks, i).previous, At(off + HeaderSize + bytes))
      && off + HeaderSize + bytes in h
      && h[off + HeaderSize + bytes] == Chunk(false, blocks[i].bytes - bytes - HeaderSize, At(off), HeaderOf(blocks, i).next)
    requires i + 1 < |blocks| ==> (blocks[i + 1].offset in h
      && h[blocks[i + 1].offset] == HeaderOf(blocks, i + 1).(previous := At(blocks[i].offset + HeaderSize + bytes)))
    requires forall j :: 0 <= j < |blocks| && j != i && j != i + 1 ==> blocks[j].offset in h && h[blocks[j].offset] == headers[blocks[j].offset]
    ensures HeadersDescribe(Split(blocks, i, bytes), h)
  {
    var r := Split(blocks, i, bytes);
    assert |r| == |blocks| + 1;
    forall j | 0 <= j < |r|
      ensures r[j].offset in h && h[r[j].offset] == HeaderOf(r, j)
    {
      if j < i {
        assert r[j] == blocks[j];
        LinkedAt(blocks, headers, j);
        if j + 1 < i {
          assert r[j + 1] == blocks[j + 1];
        }
        if j > 0 {
          assert r[j - 1] == blocks[j - 1];
        }
      } else if j == i {
        if i > 0 {
          assert r[i - 1] == blocks[i - 1];
        }
      } else if j == i + 1 {
        if i + 1 < |blocks| {
          assert r[i + 2] == blocks[i + 1];
        }
      } else if j == i + 2 {
        assert r[j] == blocks[i + 1];
        if i + 2 < |blocks| {
          assert r[j + 1] == blocks[i + 2];
        }
      } else {
        assert r[j] == blocks[j - 1] && r[j - 1] == blocks[j - 2];
        LinkedAt(blocks, headers, j - 1);
        if j + 1 < |r| {
          assert r[j + 1] == blocks[j];
        }
      }
    }
  }

  /** allocate's relinking describes the split regions. */
  lemma SplitRelinks(blocks: seq<Block>, headers: map<int, Chunk>, i: nat, bytes: nat)
    requires Contiguous(blocks) && Linked(blocks, headers)
    requires i < |blocks| && Fits(blocks[i], bytes)
    ensures SplitLinksDefined(headers, blocks[i].offset, bytes)
    ensures Linked(Split(blocks, i, bytes), SplitLinks(headers, blocks[i].offset, bytes))
  {
    SplitLinked(blocks, headers, i, bytes);
    HeadersLinked(Split(blocks, i, bytes), SplitLinks(headers, blocks[i].offset, bytes));
  }

  /**
   * allocate's split keeps the arena consistent: the split regions still
   * tile the buffer, the relinked headers describe them, the free count
   * drops by the payload and one header, and no two free regions touch.
   */
  lemma SplitArena(blocks: seq<Block>, headers: map<int, Chunk>, total: int, freeBytes: int, i: nat, bytes: nat)
    requires Arena(blocks, headers, total, freeBytes)
    requires i < |blocks| && Fits(blocks[i], bytes)
    ensures SplitLinksDefined(headers, blocks[i].offset, bytes)
    ensures bytes + HeaderSize <= freeBytes
    ensures blocks[i].offset + HeaderSize + bytes + HeaderSize <= total
    ensures var r := Split(blocks, i, bytes);
      && Arena(r, SplitLinks(headers, blocks[i].offset, bytes), total, freeBytes - bytes - HeaderSize)
      && (NoAdjacentFree(blocks) ==> NoAdjacentFree(r))
  {
    SplitRelinks(blocks, headers, i, bytes);
    SplitKeepsLayout(blocks, total, i, bytes);
  }

  // ---------------------------------------------------------------------------
  // deallocate

  ghost predicate CoalesceLinksDefined(headers: map<int, Chunk>, offset: int) {
    && offset in headers
    && (headers[offset].previous.At? ==> headers[offset].previous.offset in headers)
    && (headers[offset].next.At? ==> headers[offset].next.offset in headers)
    && ((headers[offset].next.At? && headers[headers[offset].next.offset].next.At?)
          ==> headers[headers[offset].next.offset].next.offset in headers)
  }

  /** deallocateChunk's test: the header before the one at `offset` is free. */
  ghost predicate PreviousFree(headers: map<int, Chunk>, offset: int)
    requires CoalesceLinksDefined(headers, offset)
  {
    headers[offset].previous.At? && !headers[headers[offset].previous.offset].inUse
  }

  /** deallocateChunk's test: the header after the one at `offset` is free. */
  ghost predicate NextFree(headers: map<int, Chunk>, offset: int)
    requires CoalesceLinksDefined(headers, offset)
  {
    headers[offset].next.At? && !headers[headers[offset].next.offset].inUse
  }

  /** Where deallocateChunk builds the merged header: at a free predecessor, else in place. */
  ghost function MergeStartAt(headers: map<int, Chunk>, offset: int): int
    requires CoalesceLinksDefined(headers, offset)
  {
    if PreviousFree(headers, offset) then headers[offset].previous.offset else offset
  }

  /** The payload of the merged header: the freed payload plus each absorbed neighbour and its header. */
  ghost function MergedBytesAt(headers: map<int, Chunk>, offset: int): nat
    requires CoalesceLinksDefined(headers, offset)
  {
    headers[offset].bytes
      + (if PreviousFree(headers, offset) then headers[headers[offset].previous.offset].bytes + HeaderSize else 0)
      + (if NextFree(headers, offset) then headers[headers[offset].next.offset].bytes + HeaderSize else 0)
  }

  /** What deallocateChunk adds to m_freeBytesCount: the freed payload and one header per absorbed neighbour. */
  ghost function ReclaimedAt(headers: map<int, Chunk>, offset: int): nat
    requires CoalesceLinksDefined(headers, offset)
  {
    headers[offset].bytes
      + (if PreviousFree(headers, offset) then HeaderSize else 0)
      + (if NextFree(headers, offset) then HeaderSize else 0)
  }

  /**
   * The headers after deallocateChunk frees the header at `offset`, step by
   * step: the successor is pointed back at the start of the merge, a free
   * successor is unlinked and its own successor pointed back at the start,
   * and finally a fresh free header with the merged size is constructed at
   * the start.
   */
  ghost function CoalesceLinks(headers: map<int, Chunk>, offset: int): map<int, Chunk>
    requires CoalesceLinksDefined(headers, offset)
  {
    var chunk := headers[offset];
    var start := MergeStartAt(headers, offset);
    var previousChunk := if PreviousFree(headers, offset) then headers[start].previous else chunk.previous;
    var h1 := if chunk.next.At? then headers[chunk.next.offset := headers[chunk.next.offset].(previous := At(start))] else headers;
    var nextFree := NextFree(headers, offset);
    var nextChunk := if nextFree then headers[chunk.next.offset].next else chunk.next;
    var h2 := if nextFree && nextChunk.At? then h1[nextChunk.offset := h1[nextChunk.offset].(previous := At(start))] else h1;
    var h3 := if nextFree then h2[start := h2[start].(next := nextChunk)] else h2;
    h3[start := NewChunk(MergedBytesAt(headers, offset)).(previous := previousChunk, next := nextChunk)]
  }

  /** The facts about the neighbourhood of region i that deallocateChunk reads. */
  lemma CoalesceNeighbours(blocks: seq<Block>, headers: map<int, Chunk>, i: nat)
    requires Contiguous(blocks) && Linked(blocks, headers)
    requires i < |blocks|
    ensures CoalesceLinksDefined(headers, blocks[i].offset)
    ensures headers[blocks[i].offset] == HeaderOf(blocks, i)
    ensures i > 0 ==> headers[blocks[i - 1].offset] == HeaderOf(blocks, i - 1) && blocks[i - 1].offset < blocks[i].offset
    ensures i + 1 < |blocks| ==> headers[blocks[i + 1].offset] == HeaderOf(blocks, i + 1) && blocks[i].offset < blocks[i + 1].offset
    ensures i + 2 < |blocks| ==> headers[blocks[i + 2].offset] == HeaderOf(blocks, i + 2) && blocks[i + 1].offset < blocks[i + 2].offset
  {
    LinkedAt(blocks, headers, i);
    if i > 0 {
      LinkedAt(blocks, headers, i - 1);
      OffsetsIncrease(blocks, i - 1, i);
    }
    if i + 1 < |blocks| {
      LinkedAt(blocks, headers, i + 1);
      OffsetsIncrease(blocks, i, i + 1);
    }
    if i + 2 < |blocks| {
      LinkedAt(blocks, headers, i + 2);
      OffsetsIncrease(blocks, i + 1, i + 2);
    }
  }

  /** deallocateChunk builds the merged header at the start of the merge. */
  lemma CoalesceLinksStart(blocks: seq<Block>, headers: map<int, Chunk>, i: nat)
    requires Contiguous(blocks) && Linked(blocks, headers)
    requires i < |blocks|
    ensures CoalesceLinksDefined(headers, blocks[i].offset)
    ensures var h, lo, hi := CoalesceLinks(headers, blocks[i].offset), MergeStart(blocks, i), MergeEnd(blocks, i);
      && blocks[lo].offset in h
      && h[blocks[lo].offset] == Chunk(false, MergedBytes(blocks, i),
           if lo == 0 then Null else At(blocks[lo - 1].offset),
           if hi + 1 < |blocks| then At(blocks[hi + 1].offset) else Null)
  {
    CoalesceNeighbours(blocks, headers, i);
  }

  /** deallocateChunk points the first region after the merge back at the start of the merge. */
  lemma CoalesceLinksAfter(blocks: seq<Block>, headers: map<int, Chunk>, i: nat)
    requires Contiguous(blocks) && Linked(blocks, headers)
    requires i < |blocks|
    ensures CoalesceLinksDefined(headers, blocks[i].offset)
    ensures var h, lo, hi := CoalesceLinks(headers, blocks[i].offset), MergeStart(blocks, i), MergeEnd(blocks, i);
      hi + 1 < |blocks| ==> (blocks[hi + 1].offset in h
        && h[blocks[hi + 1].offset] == HeaderOf(blocks, hi + 1).(previous := At(blocks[lo].offset)))
  {
    CoalesceNeighbours(blocks, headers, i);
    var lo, hi := MergeStart(blocks, i), MergeEnd(blocks, i);
    if hi + 1 < |blocks| {
      LinkedAt(blocks, headers, hi + 1);
      if lo < i {
        OffsetsIncrease(blocks, lo, hi + 1);
      }
      if hi > i {
        assert NextFree(headers, blocks[i].offset);
      } else {
        assert !NextFree(headers, blocks[i].offset);
      }
    }
  }

  /** deallocateChunk writes no header but the merge start and the two that follow region i. */
  lemma CoalesceLinksKeep(blocks: seq<Block>, headers: map<int, Chunk>, i: nat, o: int)
    requires Contiguous(blocks) && Linked(blocks, headers)
    requires i < |blocks| && o in headers
    requires o != blocks[MergeStart(blocks, i)].offset
    requires i + 1 < |blocks| ==> o != blocks[i + 1].offset
    requires MergeEnd(blocks, i) > i && i + 2 < |blocks| ==> o != blocks[i + 2].offset
    ensures CoalesceLinksDefined(headers, blocks[i].offset)
    ensures var h := CoalesceLinks(headers, blocks[i].offset);
      o in h && h[o] == headers[o]
  {
    CoalesceNeighbours(blocks, headers, i);
  }

  /** The headers outside the merge and its successor are not among those deallocateChunk writes. */
  lemma CoalesceFrameDistinct(blocks: seq<Block>, i: nat, j: nat)
    requires Contiguous(blocks)
    requires i < |blocks| && j < |blocks|
    requires j < MergeStart(blocks, i) || j > MergeEnd(blocks, i) + 1
    ensures blocks[j].offset != blocks[MergeStart(blocks, i)].offset
    ensures i + 1 < |blocks| ==> blocks[j].offset != blocks[i + 1].offset
    ensures MergeEnd(blocks, i) > i && i + 2 < |blocks| ==> blocks[j].offset != blocks[i + 2].offset
  {
    var lo, hi := MergeStart(blocks, i), MergeEnd(blocks, i);
    if j < lo {
      OffsetsIncrease(blocks, j, lo);
      if i + 1 < |blocks| {
        OffsetsIncrease(blocks, j, i + 1);
      }
      if i + 2 < |blocks| {
        OffsetsIncrease(blocks, j, i + 2);
      }
    } else {
      OffsetsIncrease(blocks, lo, j);
      if i + 1 < j {
        OffsetsIncrease(blocks, i + 1, j);
      }
      if hi > i && i + 2 < j {
        OffsetsIncrease(blocks, i + 2, j);
      }
    }
  }

  /** The relinking of deallocateChunk describes exactly the coalesced arena. */
  lemma CoalesceLinked(blocks: seq<Block>, headers: map<int, Chunk>, i: nat)
    requires Contiguous(blocks) && Linked(blocks, headers)
    requires i < |blocks|
    ensures CoalesceLinksDefined(headers, blocks[i].offset)
    ensures HeadersDescribe(Coalesce(blocks, i), CoalesceLinks(headers, blocks[i].offset))
  {
    CoalesceLinksStart(blocks, headers, i);
    CoalesceLinksAfter(blocks, headers, i);
    var h := CoalesceLinks(headers, blocks[i].offset);
    forall j | 0 <= j < |blocks| && (j < MergeStart(blocks, i) || j > MergeEnd(blocks, i) + 1)
      ensures blocks[j].offset in h && h[blocks[j].offset] == headers[blocks[j].offset]
    {
      LinkedAt(blocks, headers, j);
      CoalesceFrameDistinct(blocks, i, j);
      CoalesceLinksKeep(blocks, headers, i, blocks[j].offset);
    }
    CoalesceLinkedFrom(blocks, headers, CoalesceLinks(headers, blocks[i].offset), i);
  }

  /** deallocateChunk's header-level view of the merge agrees with the region-level one. */
  lemma CoalesceAgrees(blocks: seq<Block>, headers: map<int, Chunk>, i: nat)
    requires Contiguous(blocks) && Linked(blocks, headers)
    requires i < |blocks|
    ensures CoalesceLinksDefined(headers, blocks[i].offset)
    ensures var off := blocks[i].offset;
      && MergeStartAt(headers, off) == blocks[MergeStart(blocks, i)].offset
      && MergedBytesAt(headers, off) == MergedBytes(blocks, i)
      && ReclaimedAt(headers, off) == Reclaimed(blocks, i)
  {
    LinkedAt(blocks, headers, i);
    if i > 0 {
      LinkedAt(blocks, headers, i - 1);
    }
    if i + 1 < |blocks| {
      LinkedAt(blocks, headers, i + 1);
    }
  }

  /** deallocateChunk's relinking describes the merged regions. */
  lemma CoalesceRelinks(blocks: seq<Block>, headers: map<int, Chunk>, i: nat)
    requires Contiguous(blocks) && Linked(blocks, headers)
    requires i < |blocks|
    ensures CoalesceLinksDefined(headers, blocks[i].offset)
    ensures Linked(Coalesce(blocks, i), CoalesceLinks(headers, blocks[i].offset))
  {
    CoalesceLinked(blocks, headers, i);
    HeadersLinked(Coalesce(blocks, i), CoalesceLinks(headers, blocks[i].offset));
  }

  /**
   * deallocateChunk keeps the arena consistent: the merged regions still
   * tile the buffer, the relinked headers describe them, the free count
   * grows by what was reclaimed, and no two free regions touch. The
   * neighbour facts say what the headers around region i tell deallocateChunk.
   */
  lemma CoalesceArena(blocks: seq<Block>, headers: map<int, Chunk>, total: int, freeBytes: int, i: nat)
    requires Arena(blocks, headers, total, freeBytes) && NoAdjacentFree(blocks)
    requires i < |blocks| && blocks[i].inUse
    ensures CoalesceLinksDefined(headers, blocks[i].offset)
    ensures var off := blocks[i].offset;
      && MergeStartAt(headers, off) == blocks[MergeStart(blocks, i)].offset
      && MergedBytesAt(headers, off) == MergedBytes(blocks, i)
      && ReclaimedAt(headers, off) == Reclaimed(blocks, i)
    ensures freeBytes + Reclaimed(blocks, i) + HeaderSize <= total
    ensures blocks[MergeStart(blocks, i)].offset + HeaderSize + MergedBytes(blocks, i) <= total
    ensures var r := Coalesce(blocks, i);
      && Arena(r, CoalesceLinks(headers, blocks[i].offset), total, freeBytes + Reclaimed(blocks, i))
      && NoAdjacentFree(r)
  {
    CoalesceAgrees(blocks, headers, i);
    CoalesceRelinks(blocks, headers, i);
    CoalesceKeepsLayout(blocks, total, i);
  }

  lemma CoalesceLinkedFrom(blocks: seq<Block>, headers: map<int, Chunk>, h: map<int, Chunk>, i: nat)
    requires Linked(blocks, headers)
    requires i < |blocks|
    requires var lo, hi := MergeStart(blocks, i), MergeEnd(blocks, i);
      && blocks[lo].offset in h
      && h[blocks[lo].offset] == Chunk(false, MergedBytes(blocks, i),
           if lo == 0 then Null else At(blocks[lo - 1].offset),
           if hi + 1 < |blocks| then At(blocks[hi + 1].offset) else Null)
      && (hi + 1 < |blocks| ==> (blocks[hi + 1].offset in h
           && h[blocks[hi + 1].offset] == HeaderOf(blocks, hi + 1).(previous := At(blocks[lo].offset))))
      && forall j :: 0 <= j < |blocks| && (j < lo || j > hi + 1) ==> blocks[j].offset in h && h[blocks[j].offset] == headers[blocks[j].offset]
    ensures HeadersDescribe(Coalesce(blocks, i), h)
  {
    var lo, hi := MergeStart(blocks, i), MergeEnd(blocks, i);
    var r := Coalesce(blocks, i);
    assert |r| == |blocks| - (hi - lo);
    forall j | 0 <= j < |r|
      ensures r[j].offset in h && h[r[j].offset] == HeaderOf(r, j)
    {
      if j < lo {
        assert r[j] == blocks[j];
        LinkedAt(blocks, headers, j);
        if j + 1 < lo {
          assert r[j + 1] == blocks[j + 1];
        }
        if j > 0 {
          assert r[j - 1] == blocks[j - 1];
        }
      } else if j == lo {
        if lo > 0 {
          assert r[lo - 1] == blocks[lo - 1];
        }
        if hi + 1 < |blocks| {
          assert r[lo + 1] == blocks[hi + 1];
        }
      } else if j == lo + 1 {
        assert r[j] == blocks[hi + 1];
        if j + 1 < |r| {
          assert r[j + 1] == blocks[hi + 2];
        }
      } else {
        var t := j - lo + hi;
        assert r[j] == blocks[t] && r[j - 1] == blocks[t - 1];
        LinkedAt(blocks, headers, t);
        if j + 1 < |r| {
          assert r[j + 1] == blocks[t + 1];
        }
      }
    }
  }
}
