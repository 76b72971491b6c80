/**
 * Short client sessions against both managers, with every pointer handed out
 * and every free count worked out in advance.
 */
module Scenarios {
  import opened MemoryChunk
  import opened Layout
  import TrashingOptions
  import MemoryManager2
  import MemoryManager3

  /**
   * Allocation on a 128-byte arena: three 4-byte requests are laid out back
   * to back, each first fit being the free tail, and a request of 1000 bytes
   * then finds no region.
   */
  lemma ThreeAllocationsLayouts()
    ensures var a0 := Initial(128);
      && FirstFit(a0, 4) == Some(0)
      && Split(a0, 0, 4) == [Block(0, 4, true), Block(28, 76, false)]
    ensures var a1 := [Block(0, 4, true), Block(28, 76, false)];
      && FirstFit(a1, 4) == Some(1)
      && Split(a1, 1, 4) == [Block(0, 4, true), Block(28, 4, true), Block(56, 48, false)]
    ensures var a2 := [Block(0, 4, true), Block(28, 4, true), Block(56, 48, false)];
      && FirstFit(a2, 4) == Some(2)
      && Split(a2, 2, 4) == [Block(0, 4, true), Block(28, 4, true), Block(56, 4, true), Block(84, 20, false)]
    ensures FirstFit([Block(0, 4, true), Block(28, 4, true), Block(56, 4, true), Block(84, 20, false)], 1000).None?
  {
    FirstFitIsFirst(Initial(128), 4, 0);
    var a1 := [Block(0, 4, true), Block(28, 76, false)];
    FirstFitIsFirst(a1, 4, 1);
    var a2 := [Block(0, 4, true), Block(28, 4, true), Block(56, 48, false)];
    FirstFitIsFirst(a2, 4, 2);
    var a3 := [Block(0, 4, true), Block(28, 4, true), Block(56, 4, true), Block(84, 20, false)];
    assert forall j :: 0 <= j < |a3| ==> !Fits(a3[j], 1000);
  }

  /**
   * Freeing those three blocks out of order: the middle one has neighbours
   * in use and stays alone, the first one absorbs its free successor, and
   * the last one absorbs both neighbours, which gives back the initial free
   * region of 104 bytes.
   */
  lemma OutOfOrderFreesLayouts()
    ensures var a3 := [Block(0, 4, true), Block(28, 4, true), Block(56, 4, true), Block(84, 20, false)];
      && Released(a3, At(52), 128) == Some(1)
      && Coalesce(a3, 1) == [Block(0, 4, true), Block(28, 4, false), Block(56, 4, true), Block(84, 20, false)]
    ensures var a4 := [Block(0, 4, true), Block(28, 4, false), Block(56, 4, true), Block(84, 20, false)];
      && Released(a4, At(24), 128) == Some(0)
      && Coalesce(a4, 0) == [Block(0, 32, false), Block(56, 4, true), Block(84, 20, false)]
    ensures var a5 := [Block(0, 32, false), Block(56, 4, true), Block(84, 20, false)];
      && Released(a5, At(80), 128) == Some(1)
      && Coalesce(a5, 1) == Initial(128)
  {
    var a3 := [Block(0, 4, true), Block(28, 4, true), Block(56, 4, true), Block(84, 20, false)];
    assert Contiguous(a3);
    PayloadOwnerFinds(a3, 52, 0, 1);
    var a4 := [Block(0, 4, true), Block(28, 4, false), Block(56, 4, true), Block(84, 20, false)];
    assert Contiguous(a4);
    PayloadOwnerFinds(a4, 24, 0, 0);
    var a5 := [Block(0, 32, false), Block(56, 4, true), Block(84, 20, false)];
    assert Contiguous(a5);
    PayloadOwnerFinds(a5, 80, 0, 1);
  }

  /**
   * A 64-byte arena through memory-manager-3's public operations: an 8-byte
   * block right after the first header, a request that does not fit, and a
   * free that restores the full free count.
   */
  method AllocateFailFree() returns (p: Ptr, q: Ptr, freeAfterAllocation: uint32, freeAfterFree: uint32)
    ensures p == At(24) && q == Null
    ensures freeAfterAllocation == 8 && freeAfterFree == 40
  {
    var m := new MemoryManager3.MemoryManager(64);
    p := m.Allocate(8);
    q := m.Allocate(1000);
    freeAfterAllocation := m.freeBytesCount;
    m.Deallocate(p);
    freeAfterFree := m.freeBytesCount;
  }

  /**
   * A 64-byte arena that cannot give memory back: one 8-byte allocation
   * leaves a free tail of 8 bytes, too small for even a 1-byte request and
   * its header.
   */
  method AllocateUntilExhausted() returns (p1: Ptr, p2: Ptr, freeLeft: uint32)
    ensures p1 == At(24) && p2 == Null && freeLeft == 8
  {
    var m := new MemoryManager2.MemoryManager(64, TrashingOptions.OnAllocation);
    p1 := m.Allocate(8);
    p2 := m.Allocate(1);
    freeLeft := m.freeBytesCount;
  }
}
