/**
 kmain.c: the start of memory management at boot, and the kernel's own first use of it.
 */
module Kmain {
  import opened Entries
  import opened PagingSpec
  import opened PagingTheorems
  import opened Paging
  import opened PageFrameAlloc
  import opened FrameSpec
  import opened FrameSupply
  import opened FrameTheorems
  import opened HeapGrowth
  import opened HeapSpec
  import opened HeapTheorems
  import opened Malloc
  import opened Utilities

  /** A thousand stacked frames serve the first growth of a heap at address 0. */
  lemma FirstGrowthServed(s: Supply, base: Ptr, grants: nat)
    requires s.f.Valid() && |s.f.stack| == STACK_SIZE && grants > 0 && NALLOC * grants < base
    ensures var h := InitHeap(0, base, grants);
      h.FreeOk() && GrowthsFor(h, 513) == 1 && Succeeds(h, 513, s, 0, 0)
  {
    hide ForGrowths, Spent;
    var h := InitHeap(0, base, grants);
    assert h.NoFit(513);
    assert Spanned(0, 0, 2) == 1;
    StackSuffices(h, 513, s, 0, 0);
  }

  lemma FirstUnits()
    ensures UnitsFor(4096) == 513
  {
  }

  /** From the loader's tables and the kernel's end: the frames, the page tables and an empty heap. */
  method Prepare(kernelPhysicalEnd: word, ram: Ram, kernelPd: Frame, kernelPt: Frame,
                 words: nat, base: Ptr, mem: seq<Unit>)
    returns (a: Allocator)
    requires 32 <= words <= BITMAP_ENTRIES
    requires LoaderTables(ram, kernelPd, kernelPt)
    requires PAGE * (kernelPd + 1) <= kernelPhysicalEnd && PAGE * (kernelPt + 1) <= kernelPhysicalEnd
    requires (kernelPhysicalEnd / PAGE + 1) * PAGE + PAGE * 32 * words <= TWO_32
    requires 0 < base < |mem| && 8 * base <= KERNEL_TEMP_VADDR
    ensures fresh(a) && fresh(a.mmu) && fresh(a.mmu.frames) && fresh(a.mmu.frames.bitMap)
    ensures fresh(a.mmu.frames.stack) && fresh(a.mmu.frames.allocatedPageFrames)
    ensures a.Valid() && a.start == 0 && a.base == base && a.totalPages == 0
    ensures a.h == InitHeap(0, base, RoomFor(0, base)) && a.mmu.frames.f == InitFrames(words)
  {
    hide FrameAllocator.Valid, LoaderTables, Mmu.Usable, InitFrames, Stands;
    var frames := new FrameAllocator(words);
    frames.PageFrameAllocatorInit(kernelPhysicalEnd);
    InitSize(words);
    var mmu := new Mmu(ram, kernelPd, kernelPt, frames);
    a := new Allocator(0, base, mem, mmu);
  }

  lemma InitSize(words: nat)
    ensures |InitFrames(words).bits| == 32 * words && |InitFrames(words).stack| == STACK_SIZE
  {
  }

  /**
   kmain's first request on the heap at address 0 is served, by one growth. The free that
   follows makes the heap one free block again, but leaves `freep` null. What happens to the
   1024 units then is in NullRoverLoses.
   */
  method FirstCalls(a: Allocator) returns (r: Ptr)
    requires a.Valid() && a.start == 0 && a.totalPages == 0 && NALLOC + 1 < a.base
    requires a.h == InitHeap(0, a.base, RoomFor(0, a.base)) && |a.mmu.frames.f.stack| == STACK_SIZE
    modifies a, a.mmu`ram, a.mmu`window
    modifies a.mmu.frames`lastAllocatedIndex, a.mmu.frames`topIndex, a.mmu.frames`f
    modifies a.mmu.frames.bitMap, a.mmu.frames.stack, a.mmu.frames.allocatedPageFrames
    ensures a.Valid() && r == 512
    ensures a.freep == 0 && a.h.NullRover() && a.h.free == [0] && a.h.blocks == map[0 := NALLOC]
  {
    hide Stands, Allocator.MemoryBacked, MallocStep, FreeStep, InitHeap, Succeeds, GrowthsFor, ForGrowths,
      Running, SameLive, Keeps, KeepsBacking, RoomFor;
    ghost var g := RoomFor(0, a.base);
    RoomForOne(a.base);
    a.OffersValid();
    FirstUnits();
    FirstGrowthServed(a.Offers(), a.base, g);
    FreshIsAwake(a.base, g);
    KernelFirstCalls(a.base, g, 0);
    ghost var granted;
    r, granted := a.Malloc(4096);
    a.Free(r);
    ListHere(a.freep, a.totalPages, a.mem, a.h);
  }

  lemma RoomForOne(base: Ptr)
    requires NALLOC + 1 < base
    ensures RoomFor(0, base) > 0 && NALLOC * RoomFor(0, base) < base
  {
  }

  lemma FreshIsAwake(base: Ptr, grants: nat)
    requires NALLOC * grants < base
    ensures Awake(InitHeap(0, base, grants)) == InitHeap(0, base, grants)
  {
  }

  lemma ListHere(freep: Ptr, pages: nat, mem: seq<Unit>, h: Heap)
    requires Running(freep, pages, mem, h)
    ensures h.rover <= |h.free| && (freep == 0 <==> h.NullRover())
  {
    RoverHere(freep, mem, h);
  }

  // ----- growth into the kernel -------------------------------------------------------

  const KERNEL_START_VADDR: word := 0xC000_0000

  /** The kernel table as the loader fills it: page i of the kernel half is frame i. */
  ghost predicate KernelPages(r: Ram, pd: Frame) {
    forall i: Index :: Walk(r, pd, KERNEL_PT_PDT_IDX, i) == Mapped(i)
  }

  /**
   The heap may grow up to the sentinel, which lies in the kernel, and nothing stops it at the
   kernel's first page. A growth takes a page of the kernel's memory below the managed frames
   away from it exactly when it reaches into the addresses of those pages.
   */
  lemma GrowthHitsKernel(r: Ram, s: Ram, pd: Frame, start: word, f: Frames, f': Frames, v: word, f0: Frame, f1: Frame)
    requires KernelPages(r, pd) && FramesInSpace(start, |f.bits|)
    requires v % PAGE_FRAME_SIZE == 0 && v + 2 * PAGE_FRAME_SIZE <= KERNEL_TEMP_VADDR
    requires Grown(r, s, pd, v, f0, f1) && Taken(start, f, f', f0) && Taken(start, f, f', f1)
    ensures (exists i: Index :: PAGE * i < start && Walk(s, pd, KERNEL_PT_PDT_IDX, i) != Mapped(i)) <==>
      v + 2 * PAGE_FRAME_SIZE > KERNEL_START_VADDR && v < KERNEL_START_VADDR + start
  {
    hide Walk, GrowthPage, Present, Get, Outside, PdIdx, PtIdx, Frames.Avail, Phys;
    TakenAbove(start, f, f', f0);
    TakenAbove(start, f, f', f1);
    GrowthPagesApart(v);
    var v0, v1 := GrowthPage(v, 0), GrowthPage(v, 1);
    forall i: Index
      ensures !OtherPage(v0, KERNEL_PT_PDT_IDX, i) <==> v0 == KERNEL_START_VADDR + PAGE * i
      ensures !OtherPage(v1, KERNEL_PT_PDT_IDX, i) <==> v1 == KERNEL_START_VADDR + PAGE * i
    {
      KernelPageNumber(v0, i);
      KernelPageNumber(v1, i);
    }
    forall i: Index | PAGE * i < start
      ensures Walk(s, pd, KERNEL_PT_PDT_IDX, i) != Mapped(i) <==>
        v0 == KERNEL_START_VADDR + PAGE * i || v1 == KERNEL_START_VADDR + PAGE * i
    {
      assert OtherPage(v0, KERNEL_PT_PDT_IDX, i) && OtherPage(v1, KERNEL_PT_PDT_IDX, i) ==>
        SameIfMapped(r, s, pd, KERNEL_PT_PDT_IDX, i);
    }
    if v + 2 * PAGE_FRAME_SIZE > KERNEL_START_VADDR && v < KERNEL_START_VADDR + start {
      var i: Index := if v >= KERNEL_START_VADDR then (v - KERNEL_START_VADDR) / PAGE else 0;
      assert Walk(s, pd, KERNEL_PT_PDT_IDX, i) != Mapped(i);
    }
  }

  lemma TakenAbove(start: word, f: Frames, f': Frames, x: Frame)
    requires FramesInSpace(start, |f.bits|) && Taken(start, f, f', x)
    ensures PAGE * x >= start
  {
    hide Frames.Avail, Phys;
    var k: nat :| f.Avail(k) && x == Phys(start, k);
    PhysAbove(start, f, k);
  }

  lemma KernelPageNumber(w: word, i: Index)
    requires w % PAGE == 0
    ensures PdIdx(w) == KERNEL_PT_PDT_IDX && PtIdx(w) == i <==> w == KERNEL_START_VADDR + PAGE * i
  {
    PageAtIndices(KERNEL_PT_PDT_IDX, i);
    if PdIdx(w) == KERNEL_PT_PDT_IDX && PtIdx(w) == i { SamePage(w, PageAt(KERNEL_PT_PDT_IDX, i)); }
  }
}
