/** The cMemoryChunk record: the header placed at the front of every region of the arena. */
module MemoryChunk {

  /** The widths the source works with: `unsigned int` byte counts. */
  type uint32 = x: int | 0 <= x < 0x1_0000_0000

  /**
   * sizeof(cMemoryChunk): a bool, an unsigned int and two pointers, laid out
   * on a 64-bit target (1 + 3 padding + 4 + 8 + 8 bytes).
   */
  const HeaderSize: nat := 24

  /**
   * A position in (or outside) the arena, counted in bytes from its base.
   * `Null` is nullptr; `At(k)` is `m_memory + k`, which may lie outside the
   * buffer when a caller hands in a foreign pointer.
   */
  datatype Ptr = Null | At(offset: int)

  /**
   * One header. `bytes` counts the payload that follows the header, never the
   * header itself; `previous` and `next` point at the neighbouring headers in
   * address order.
   */
  datatype Chunk = Chunk(inUse: bool, bytes: nat, previous: Ptr, next: Ptr)

  /** The constructor cMemoryChunk(bytes): a free, unlinked header. */
  function NewChunk(bytes: nat): (c: Chunk)
    ensures c.bytes == bytes
    ensures !c.inUse
    ensures c.previous == Null && c.next == Null
  {
    Chunk(false, bytes, Null, Null)
  }
}
