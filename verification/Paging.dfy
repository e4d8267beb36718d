/**
 paging.c: page tables edited through one temporary page.

 `ram` is physical memory. The kernel reaches its own directory and first table, and the
 directory that it is given, by their fixed mappings; every other table only through the
 page at KERNEL_TEMP_VADDR. `window` is the frame that the processor's TLB holds for that
 page: it follows the page's own entry, the last one of the kernel table, at a flush.
 */
module Paging {
  import opened Entries
  import opened PagingSpec
  import opened PagingTheorems
  import opened Utilities
  import opened FrameSpec
  import opened FrameTheorems
  import opened PageFrameAlloc

  /** Only directory entry 768 may lead to the kernel table, where the window's entry is. */
  ghost predicate WindowHome(r: Ram, pd: Frame, kernelPt: Frame) {
    forall d: Index :: Present(Get(r, pd, d)) && Get(r, pd, d).frame == kernelPt ==> d == KERNEL_PT_PDT_IDX
  }

  /** The physical frame that the allocator knows as frame k. */
  function Phys(start: word, k: nat): Frame {
    AddressOf(start, k) / PAGE
  }

  /** The allocator can hand out frame x. */
  ghost predicate WasAvail(start: word, f: Frames, x: Frame) {
    exists k: nat :: f.Avail(k) && x == Phys(start, k)
  }

  /** The allocator can hand out no frame that the directory uses. */
  ghost predicate Reserved(r: Ram, pd: Frame, kernelPt: Frame, start: word, f: Frames) {
    forall k: nat :: f.Avail(k) ==>
      Phys(start, k) != pd && Phys(start, k) != kernelPt && !IsTable(r, pd, Phys(start, k))
  }

  lemma PhysInjective(start: word, j: nat, k: nat)
    requires start % PAGE == 0 && start + PAGE * j < TWO_32 && start + PAGE * k < TWO_32
    ensures Phys(start, j) == Phys(start, k) <==> j == k
  {
  }

  /** The frame that an allocation of one returns is in nobody's use. */
  lemma AllocatedIsReserved(r: Ram, pd: Frame, kernelPt: Frame, start: word, f: Frames)
    requires f.Valid() && Reserved(r, pd, kernelPt, start, f)
    ensures Allocate(f, 1).ok ==> |Allocate(f, 1).popped| == 1
    ensures Allocate(f, 1).ok ==>
      var t := Phys(start, Allocate(f, 1).popped[0]); t != pd && t != kernelPt && !IsTable(r, pd, t)
  {
    hide Frames.Avail, Allocate, IsTable;
    AllocateSucceeds(f, 1);
    if Allocate(f, 1).ok {
      AllocateEffect(f, 1, Allocate(f, 1).popped[0]);
    }
  }

  lemma ReservedShrinks(r: Ram, pd: Frame, kernelPt: Frame, start: word, f: Frames)
    requires f.Valid() && Reserved(r, pd, kernelPt, start, f)
    ensures Reserved(r, pd, kernelPt, start, Allocate(f, 1).after)
  {
    hide Frames.Avail, Allocate, IsTable;
    forall k: nat | Allocate(f, 1).after.Avail(k) ensures f.Avail(k) {
      AllocateEffect(f, 1, k);
    }
  }

  lemma MapOldUsable(r: Ram, pd: Frame, kernelPt: Frame, start: word, f: Frames,
                     d: Index, i: Index, pa: Frame, isUser: bool)
    requires WellFormed(r, pd) && WindowHome(r, pd, kernelPt) && Reserved(r, pd, kernelPt, start, f)
    requires Present(Get(r, pd, d))
    ensures var r' := MapOld(r, pd, d, i, pa, isUser);
      WellFormed(r', pd) && WindowHome(r', pd, kernelPt) && Reserved(r', pd, kernelPt, start, f)
      && r' == Map(r, pd, d, i, pa, isUser, Get(r, pd, d).frame)
  {
    hide Present, Get, MapOld, Phys, Frames.Avail;
    var r' := MapOld(r, pd, d, i, pa, isUser);
    MapWellFormed(r, pd, d, i, pa, isUser, Get(r, pd, d).frame);
    forall e: Index
      ensures Present(Get(r', pd, e)) == Present(Get(r, pd, e)) && Get(r', pd, e).frame == Get(r, pd, e).frame
    {
      MapOldEntries(r, pd, d, i, pa, isUser, pd, e);
    }
  }

  lemma MapNewUsable(r: Ram, pd: Frame, kernelPt: Frame, start: word, f: Frames,
                     d: Index, i: Index, pa: Frame, isUser: bool)
    requires WellFormed(r, pd) && WindowHome(r, pd, kernelPt) && Reserved(r, pd, kernelPt, start, f)
    requires !Present(Get(r, pd, d)) && f.Valid() && Allocate(f, 1).ok
    requires start % PAGE == 0 && start + PAGE * |f.bits| <= TWO_32
    ensures |Allocate(f, 1).popped| == 1
    ensures var t := Phys(start, Allocate(f, 1).popped[0]);
      var r' := MapNew(r, pd, d, i, pa, isUser, t);
      WellFormed(r', pd) && WindowHome(r', pd, kernelPt) && Reserved(r', pd, kernelPt, start, Allocate(f, 1).after)
      && r' == Map(r, pd, d, i, pa, isUser, t) && FreshTable(r, pd, d, t)
  {
    hide Present, Get, MapNew, Phys, Frames.Avail, Allocate;
    AllocatedIsReserved(r, pd, kernelPt, start, f);
    var k0 := Allocate(f, 1).popped[0];
    var t := Phys(start, k0);
    var r' := MapNew(r, pd, d, i, pa, isUser, t);
    MapWellFormed(r, pd, d, i, pa, isUser, t);
    forall e: Index
      ensures e != d ==> Get(r', pd, e) == Get(r, pd, e)
      ensures e == d ==> Present(Get(r', pd, e)) && Get(r', pd, e).frame == t
    {
      MapNewEntries(r, pd, d, i, pa, isUser, t, pd, e);
    }
    forall k: nat | Allocate(f, 1).after.Avail(k)
      ensures f.Avail(k) && Phys(start, k) != t
    {
      NewTableNotAvail(f, start, k);
    }
  }

  lemma NewTableNotAvail(f: Frames, start: word, k: nat)
    requires f.Valid() && Allocate(f, 1).ok && |Allocate(f, 1).popped| == 1 && Allocate(f, 1).after.Avail(k)
    requires start % PAGE == 0 && start + PAGE * |f.bits| <= TWO_32
    ensures f.Avail(k) && Phys(start, k) != Phys(start, Allocate(f, 1).popped[0])
  {
    hide Allocate;
    var k0 := Allocate(f, 1).popped[0];
    AllocateEffect(f, 1, k);
    AllocateEffect(f, 1, k0);
    PhysInjective(start, k, k0);
  }

  /** The tables that the loader leaves: the directory leads to the kernel table only. */
  ghost predicate LoaderTables(r: Ram, pd: Frame, kernelPt: Frame) {
    && pd != kernelPt
    && forall d: Index :: if d == KERNEL_PT_PDT_IDX then Present(Get(r, pd, d)) && Get(r, pd, d).frame == kernelPt
                          else !Present(Get(r, pd, d))
  }

  /** With those, below the frames that the allocator manages, pages can be mapped at boot. */
  lemma LoaderUsable(r: Ram, pd: Frame, kernelPt: Frame, start: word, f: Frames)
    requires LoaderTables(r, pd, kernelPt) && FramesInSpace(start, |f.bits|)
    requires PAGE * (pd + 1) <= start && PAGE * (kernelPt + 1) <= start
    ensures WellFormed(r, pd) && WindowHome(r, pd, kernelPt) && Reserved(r, pd, kernelPt, start, f)
  {
    hide Present, Get;
    forall k: nat | f.Avail(k) ensures Phys(start, k) > pd && Phys(start, k) > kernelPt {
      PhysAbove(start, f, k);
    }
    forall x: Frame ensures IsTable(r, pd, x) ==> x == kernelPt {
    }
  }

  /** At boot, with the kernel table full, a search answers entry 769, and rightly so up to the top of memory. */
  lemma LoaderAnswers(r: Ram, pd: Frame, kernelPt: Frame, n: nat, v: word)
    requires LoaderTables(r, pd, kernelPt) && (forall i: Index :: Present(Get(r, kernelPt, i)))
    requires n > 0 && Answer(r, pd, n, v)
    ensures v == PageAt(769, 0) && (FreeFrom(r, pd, v, n) <==> n <= 255 * 1024)
  {
    hide Present, Get, PageAt, FreeFrom, Answer;
    assert Walk(r, pd, KERNEL_PT_PDT_IDX, 0).Mapped?;
    forall i: nat ensures !RunFrom(r, pd, KERNEL_PT_PDT_IDX, i, n) {
      if i + n <= ENTRIES { assert !PageFree(r, pd, KERNEL_PT_PDT_IDX, i); }
    }
    assert StopsAt(r, pd, n, 769);
    AnswerStops(r, pd, n, v);
    AnswerIsFree(r, pd, n, v, 769);
    assert AbsentFits(r, pd, 769, n) <==> n <= 255 * 1024;
  }

  lemma PhysAbove(start: word, f: Frames, k: nat)
    requires f.Avail(k) && FramesInSpace(start, |f.bits|)
    ensures PAGE * Phys(start, k) >= start
  {
  }

  // ----- what map_page does, as one relation -------------------------------------------

  ghost predicate Mapping(r: Ram, r': Ram, pd: Frame, va: word, pa: Frame, isUser: bool, ok: bool, t: Frame) {
    && (ok ==> FreshTable(r, pd, PdIdx(va), t))
    && r' == if ok then Map(r, pd, PdIdx(va), PtIdx(va), pa, isUser, t) else r
  }

  /** map_page asks the allocator for one frame, for a table that is not there yet. */
  ghost predicate Granting(r: Ram, pd: Frame, va: word, start: word, f: Frames, f': Frames, ok: bool, t: Frame)
    requires f.Valid()
  {
    if Present(Get(r, pd, PdIdx(va))) then ok && f' == f
    else
      && f' == Allocate(f, 1).after && ok == Allocate(f, 1).ok
      && (ok ==> |Allocate(f, 1).popped| == 1 && t == Phys(start, Allocate(f, 1).popped[0]))
  }

  // ----- the window -------------------------------------------------------------------

  /** The window's entry for a frame: present, writable and written through, with the flags it had. */
  predicate TempEntry(was: Entry, e: Entry, frame: Frame) {
    && e.frame == frame
    && Present(e) && CheckAttr(e, RW) && CheckAttr(e, WRITE_THROUGH)
    && e.flags == was.flags | 0x0B
  }

  lemma TempEntryMade(was: Entry, frame: Frame)
    ensures TempEntry(was, SetFrame(SetAttr(SetAttr(SetAttr(was, PRESENT), RW), WRITE_THROUGH), frame), frame)
  {
    TempFlags(was.flags);
  }

  lemma TempFlags(f: bv12)
    ensures f | PRESENT | RW | WRITE_THROUGH == f | 0x0B
    ensures (f | 0x0B) & PRESENT != 0 && (f | 0x0B) & RW != 0 && (f | 0x0B) & WRITE_THROUGH != 0
  {
  }

  // ----- kernel_map_page as a function ---------------------------------------------------

  datatype Machine = Machine(r: Ram, f: Frames)

  /** A call of kernel_map_page: the memory and frames after it, and whether it succeeded. */
  ghost function KernelMap(m: Machine, pd: Frame, start: word, va: word, pa: Frame, isUser: bool): (Machine, bool)
    requires m.f.Valid()
  {
    var d, i := PdIdx(va), PtIdx(va);
    if Present(Get(m.r, pd, d)) then (m.(r := MapOld(m.r, pd, d, i, pa, isUser)), true)
    else
      AllocateSucceeds(m.f, 1);
      var o := Allocate(m.f, 1);
      if o.ok then (Machine(MapNew(m.r, pd, d, i, pa, isUser, Phys(start, o.popped[0])), o.after), true)
      else (m.(f := o.after), false)
  }

  /** The two relations leave no choice. */
  lemma MappingIsKernelMap(m: Machine, m': Machine, pd: Frame, start: word, va: word, pa: Frame, isUser: bool,
                           ok: bool, t: Frame)
    requires m.f.Valid()
    requires Mapping(m.r, m'.r, pd, va, pa, isUser, ok, t) && Granting(m.r, pd, va, start, m.f, m'.f, ok, t)
    ensures (m', ok) == KernelMap(m, pd, start, va, pa, isUser)
  {
    hide Present, Get, MapOld, MapNew, Allocate, FreshTable;
  }

  // ----- runs of free pages in one table ----------------------------------------------

  /** The free pages just below i number exactly `found`, counted from a taken page or 0. */
  ghost predicate RunEnds(r: Ram, t: Frame, d: Index, i: nat, found: nat) {
    && found <= i <= ENTRIES
    && SlotsFree(r, t, d, i - found, found)
    && (found < i ==> !SlotFree(r, t, d, i - found - 1))
  }

  ghost predicate NoRunBefore(r: Ram, t: Frame, d: Index, i: nat, n: nat) {
    n > 0 ==> forall s: nat :: s + n <= i ==> !SlotsFree(r, t, d, s, n)
  }

  lemma NoRunYet(r: Ram, t: Frame, d: Index, n: nat)
    ensures RunEnds(r, t, d, 0, 0) && NoRunBefore(r, t, d, 0, n)
  {
  }

  lemma PresentIsAttr()
    ensures forall e: Entry :: Present(e) <==> CheckAttr(e, PRESENT)
  {
  }

  lemma RunFound(r: Ram, t: Frame, d: Index, i: Index, n: nat)
    requires n > 0 && RunEnds(r, t, d, i + 1, n) && NoRunBefore(r, t, d, i, n)
    ensures SlotsFree(r, t, d, i + 1 - n, n)
    ensures forall s: nat :: s < i + 1 - n ==> !SlotsFree(r, t, d, s, n)
  {
    hide SlotsFree, SlotFree;
  }

  lemma NoRunAtAll(r: Ram, t: Frame, d: Index, n: nat)
    requires NoRunBefore(r, t, d, ENTRIES, n)
    ensures forall s: nat :: n > 0 ==> !SlotsFree(r, t, d, s, n)
  {
    hide SlotFree;
  }

  lemma RunGrows(r: Ram, t: Frame, d: Index, i: Index, found: nat, n: nat)
    requires (n > 0 ==> found < n) && RunEnds(r, t, d, i, found) && NoRunBefore(r, t, d, i, n)
    ensures SlotFree(r, t, d, i) ==> RunEnds(r, t, d, i + 1, found + 1)
    ensures !SlotFree(r, t, d, i) ==> RunEnds(r, t, d, i + 1, 0)
    ensures !(SlotFree(r, t, d, i) && found + 1 == n) ==> NoRunBefore(r, t, d, i + 1, n)
  {
    hide SlotFree;
    if n > 0 && !(SlotFree(r, t, d, i) && found + 1 == n) {
      forall s: nat | s + n <= i + 1 ensures !SlotsFree(r, t, d, s, n) {
        if s + n == i + 1 && SlotFree(r, t, d, i) {
          assert !SlotFree(r, t, d, i - found - 1);
        }
      }
    }
  }

  // ----- create_pdt -------------------------------------------------------------------

  /** The frame that an allocation of one returns, by number. */
  lemma OneTaken(r: Ram, pd: Frame, kernelPt: Frame, start: word, f: Frames)
    requires f.Valid() && Reserved(r, pd, kernelPt, start, f)
    ensures Reserved(r, pd, kernelPt, start, Allocate(f, 1).after)
    ensures Allocate(f, 1).ok ==> |Allocate(f, 1).popped| == 1 && Phys(start, Allocate(f, 1).popped[0]) != kernelPt
    ensures Allocate(f, 1).ok ==> Outside(r, pd, Phys(start, Allocate(f, 1).popped[0]))
  {
    hide Reserved, Allocate, IsTable;
    AllocatedIsReserved(r, pd, kernelPt, start, f);
    ReservedShrinks(r, pd, kernelPt, start, f);
  }

  /** The table that map_page then allocates is another frame. */
  lemma SecondApart(r: Ram, pd: Frame, va: word, start: word, f: Frames, g: Frames, g': Frames, t: Frame)
    requires f.Valid() && Allocate(f, 1).ok && |Allocate(f, 1).popped| == 1 && g == Allocate(f, 1).after && g.Valid()
    requires Granting(r, pd, va, start, g, g', true, t)
    requires start % PAGE == 0 && start + PAGE * |f.bits| <= TWO_32
    ensures !Present(Get(r, pd, PdIdx(va))) ==> t != Phys(start, Allocate(f, 1).popped[0])
  {
    hide Allocate, Present, Frames.Avail;
    if !Present(Get(r, pd, PdIdx(va))) {
      var k0, k1 := Allocate(f, 1).popped[0], Allocate(g, 1).popped[0];
      AllocateEffect(f, 1, k0);
      AllocateEffect(g, 1, k1);
      AllocateEffect(f, 1, k1);
      PhysInjective(start, k0, k1);
    }
  }

  lemma MapKeepsOutside(r: Ram, pd: Frame, d: Index, i: Index, pa: Frame, isUser: bool, t: Frame, x: Frame)
    requires WellFormed(r, pd) && FreshTable(r, pd, d, t) && Outside(r, pd, x)
    requires !Present(Get(r, pd, d)) ==> t != x
    ensures Outside(Map(r, pd, d, i, pa, isUser, t), pd, x)
  {
    hide Present, Get, Map;
    var r' := Map(r, pd, d, i, pa, isUser, t);
    forall e: Index
      ensures e != d ==> Get(r', pd, e) == Get(r, pd, e)
      ensures e == d && Present(Get(r, pd, d)) ==> Get(r', pd, e).frame == Get(r, pd, d).frame
      ensures e == d && !Present(Get(r, pd, d)) ==> Get(r', pd, e).frame == t
    {
      MapEntries(r, pd, d, i, pa, isUser, t, pd, e);
    }
  }

  lemma AbsentAnswer(r: Ram, pd: Frame, d: Index, n: nat)
    requires !Present(Get(r, pd, d))
    ensures AnswerAt(r, pd, d, n, PageAt(d, 0)) && (d > 0 ==> PageAt(d, 0) != 0)
  {
  }

  lemma LowestForSize(r: Ram, pd: Frame, size: word, v: word)
    requires Answer(r, pd, PagesFor(size), v)
    ensures 0 < size <= 0x40_0000 && (size <= 0x3F_F000 || Present(Get(r, pd, KERNEL_PT_PDT_IDX)))
            ==> IsLowestRange(r, pd, PagesFor(size), v)
  {
    hide Answer, IsLowestRange, Present;
    if 0 < size <= 0x40_0000 {
      PagesForSmall(size);
      AnswerIsLowest(r, pd, PagesFor(size), v);
    }
  }

  /** create_pdt gets a frame, a free kernel page, and a frame for a new table if the page needs one. */
  ghost predicate PdtServed(r: Ram, pd: Frame, f: Frames)
    requires f.Valid()
  {
    Allocate(f, 1).ok && exists v: word :: v != 0 && IsLowestRange(r, pd, 1, v) && TableServed(r, pd, f, v)
  }

  ghost predicate TableServed(r: Ram, pd: Frame, f: Frames, v: word)
    requires f.Valid()
  {
    AllocateSucceeds(f, 1);
    AllocateEffect(f, 1, 0);
    Present(Get(r, pd, PdIdx(v))) || Allocate(Allocate(f, 1).after, 1).ok
  }

  lemma NotServed(r: Ram, pd: Frame, f: Frames, v: word)
    requires f.Valid() && IsLowestRange(r, pd, 1, v) && (v == 0 || !TableServed(r, pd, f, v))
    ensures !PdtServed(r, pd, f)
  {
    hide IsLowestRange, TableServed, Allocate;
    forall w: word | w != 0 && IsLowestRange(r, pd, 1, w) ensures !TableServed(r, pd, f, w) {
      LowestUnique(r, pd, 1, v, w);
    }
  }

  /** create_pdt takes one frame, and maps it with one call of kernel_map_page. */
  ghost predicate PdtMade(m: Machine, m': Machine, pd: Frame, start: word, v: word, frame: Frame)
    requires m.f.Valid()
  {
    AllocateSucceeds(m.f, 1);
    AllocateEffect(m.f, 1, 0);
    && Allocate(m.f, 1).ok && frame == Phys(start, Allocate(m.f, 1).popped[0])
    && (m', true) == KernelMap(m.(f := Allocate(m.f, 1).after), pd, start, v, frame, true)
  }

  /** No mapped page moves, and the frame itself is not written: a new directory is not cleared. */
  lemma PdtKeeps(r: Ram, pd: Frame, d: Index, i: Index, frame: Frame, t: Frame)
    requires WellFormed(r, pd) && FreshTable(r, pd, d, t) && Outside(r, pd, frame)
    requires !Present(Get(r, pd, d)) ==> t != frame
    ensures KeepsMapped(r, Map(r, pd, d, i, frame, true, t), pd, d, i)
    ensures Map(r, pd, d, i, frame, true, t)[frame] == r[frame]
  {
    hide Map, Walk, Present, Get;
    forall e: Index, j: Index | (e != d || j != i) && Walk(r, pd, e, j).Mapped?
      ensures Walk(Map(r, pd, d, i, frame, true, t), pd, e, j) == Walk(r, pd, e, j)
    {
      MapKeepsMapped(r, pd, d, i, frame, true, t, e, j);
    }
    MapContents(r, pd, d, i, frame, true, t, frame);
  }

  lemma NoFrameNoPdt(r: Ram, pd: Frame, f: Frames)
    requires f.Valid() && !Allocate(f, 1).ok
    ensures !PdtServed(r, pd, f)
  {
  }

  lemma IsServed(r: Ram, pd: Frame, f: Frames, v: word)
    requires f.Valid() && Allocate(f, 1).ok && v != 0 && IsLowestRange(r, pd, 1, v) && TableServed(r, pd, f, v)
    ensures PdtServed(r, pd, f)
  {
    hide IsLowestRange, TableServed, Allocate;
  }

  /** A frame taken stays taken through a later allocation of one. */
  lemma TakenForGood(start: word, f: Frames, g: Frames)
    requires f.Valid() && Allocate(f, 1).ok && |Allocate(f, 1).popped| == 1 && FramesInSpace(start, |f.bits|)
    requires g == Allocate(f, 1).after || (g == Allocate(Allocate(f, 1).after, 1).after && Allocate(f, 1).after.Valid())
    ensures !WasAvail(start, g, Phys(start, Allocate(f, 1).popped[0]))
  {
    hide Allocate, Frames.Avail, Phys;
    var k0, h := Allocate(f, 1).popped[0], Allocate(f, 1).after;
    AllocateEffect(f, 1, k0);
    forall k: nat | g.Avail(k) ensures Phys(start, k) != Phys(start, k0) {
      if g == Allocate(h, 1).after { AllocateEffect(h, 1, k); }
      AllocateEffect(f, 1, k);
      TakenFrameApart(start, f, k, k0);
    }
  }

  lemma TakenFrameApart(start: word, f: Frames, k: nat, k0: nat)
    requires f.Avail(k) && f.Avail(k0) && k != k0 && FramesInSpace(start, |f.bits|)
    ensures Phys(start, k) != Phys(start, k0)
  {
    PhysInjective(start, k, k0);
  }

  lemma OnePage()
    ensures PagesFor(0x1000) == 1
  {
  }

  lemma LowestIsNotWindow(r: Ram, pd: Frame, v: word)
    requires IsLowestRange(r, pd, 1, v) && v != 0
    ensures !(PdIdx(v) == KERNEL_PT_PDT_IDX && PtIdx(v) == KERNEL_TMP_PT_IDX)
  {
    hide Walk, PdIdx, PtIdx, PageAt;
    var d: Index, i: Index :| v == PageAt(d, i) && RangeFree(r, pd, d, i, 1);
    PageAtIndices(d, i);
    OneFree(r, pd, d, i);
  }

  lemma OneFree(r: Ram, pd: Frame, d: Index, i: Index)
    requires RangeFree(r, pd, d, i, 1)
    ensures PageFree(r, pd, d, i)
  {
    hide Walk;
  }

  class Mmu {
    var ram: Ram
    var window: Frame
    var currentPd: Frame
    const kernelPd: Frame
    const kernelPt: Frame
    const frames: FrameAllocator

    ghost predicate Valid()
      reads this, frames, frames.bitMap, frames.stack, frames.allocatedPageFrames
    {
      && frames.Valid() && frames.InSpace()
      && window == Get(ram, kernelPt, KERNEL_TMP_PT_IDX).frame
    }

    /** The state in which map_page may be called on directory pd. */
    ghost predicate Usable(pd: Frame)
      reads this, frames
    {
      && pd != kernelPt
      && WellFormed(ram, pd) && WindowHome(ram, pd, kernelPt)
      && Reserved(ram, pd, kernelPt, frames.startOffset, frames.f)
    }

    /** paging_init, over the memory and the tables that the loader set up. */
    constructor (ram: Ram, kernelPd: Frame, kernelPt: Frame, frames: FrameAllocator)
      requires frames.Valid() && frames.InSpace()
      ensures Valid() && this.ram == ram && this.frames == frames
      ensures this.kernelPd == kernelPd == currentPd && this.kernelPt == kernelPt
      ensures LoaderTables(ram, kernelPd, kernelPt) &&
              PAGE * (kernelPd + 1) <= frames.startOffset && PAGE * (kernelPt + 1) <= frames.startOffset
              ==> Usable(kernelPd)
    {
      this.ram, this.kernelPd, this.kernelPt, this.frames := ram, kernelPd, kernelPt, frames;
      currentPd := kernelPd;
      window := Get(ram, kernelPt, KERNEL_TMP_PT_IDX).frame;
      if LoaderTables(ram, kernelPd, kernelPt) &&
         PAGE * (kernelPd + 1) <= frames.startOffset && PAGE * (kernelPt + 1) <= frames.startOffset
      {
        LoaderUsable(ram, kernelPd, kernelPt, frames.startOffset, frames.f);
      }
    }

    method FlushTlbEntry()
      modifies `window
      ensures window == Get(ram, kernelPt, KERNEL_TMP_PT_IDX).frame
    {
      window := Get(ram, kernelPt, KERNEL_TMP_PT_IDX).frame;
    }

    method KernelGetTemporaryEntry() returns (entry: Entry)
      ensures entry == Get(ram, kernelPt, KERNEL_TMP_PT_IDX)
    {
      return Get(ram, kernelPt, KERNEL_TMP_PT_IDX);
    }

    method KernelSetTemporaryEntry(entry: Entry)
      modifies `ram, `window
      ensures ram == Put(old(ram), kernelPt, KERNEL_TMP_PT_IDX, entry) && window == entry.frame
    {
      ram := Put(ram, kernelPt, KERNEL_TMP_PT_IDX, entry);
      FlushTlbEntry();
    }

    /** Points the temporary page at a frame. */
    method TempMapPage(paddress: Frame)
      modifies `ram, `window
      ensures exists e: Entry ::
        && ram == Put(old(ram), kernelPt, KERNEL_TMP_PT_IDX, e)
        && TempEntry(old(Get(ram, kernelPt, KERNEL_TMP_PT_IDX)), e, paddress)
      ensures window == paddress
    {
      var pte := Get(ram, kernelPt, KERNEL_TMP_PT_IDX);
      pte := SetAttr(pte, PRESENT);
      pte := SetAttr(pte, RW);
      pte := SetAttr(pte, WRITE_THROUGH);
      pte := SetFrame(pte, paddress);
      TempEntryMade(Get(ram, kernelPt, KERNEL_TMP_PT_IDX), paddress);
      ram := Put(ram, kernelPt, KERNEL_TMP_PT_IDX, pte);
      FlushTlbEntry();
    }

    /** memset(window, 0, 4096), a word at a time. */
    method ClearWindow()
      requires window != kernelPt
      modifies `ram
      ensures ram == Zero(old(ram), window)
    {
      hide Get;
      for i := 0 to ENTRIES
        invariant forall g: Frame, j: Index ::
          Get(ram, g, j) == if g == window && j < i then Entry(0, 0) else Get(old(ram), g, j)
      {
        ram := Put(ram, window, i, Entry(0, 0));
      }
      RamEqual(ram, Zero(old(ram), window));
    }

    method MapPage(pd: Frame, paddress: Frame, vaddress: word, isUser: bool) returns (ok: bool, ghost t: Frame)
      requires Valid() && Usable(pd)
      requires !(PdIdx(vaddress) == KERNEL_PT_PDT_IDX && PtIdx(vaddress) == KERNEL_TMP_PT_IDX)
      modifies `ram, `window
      modifies frames`lastAllocatedIndex, frames`topIndex, frames`f
      modifies frames.bitMap, frames.stack, frames.allocatedPageFrames
      ensures Valid() && Usable(pd)
      ensures Mapping(old(ram), ram, pd, vaddress, paddress, isUser, ok, t)
      ensures Get(ram, kernelPt, KERNEL_TMP_PT_IDX) == old(Get(ram, kernelPt, KERNEL_TMP_PT_IDX))
      ensures Granting(old(ram), pd, vaddress, frames.startOffset, old(frames.f), frames.f, ok, t)
      ensures frames.allocatedPageFrames[1..] == old(frames.allocatedPageFrames[1..])
      ensures if Present(Get(old(ram), pd, PdIdx(vaddress)))
              then frames.allocatedPageFrames[0] == old(frames.allocatedPageFrames[0])
              else ok ==> frames.allocatedPageFrames[0] / PAGE == t
    {
      hide Get, Map, MapOld, MapNew, WellFormed, WindowHome, Reserved, Allocate, FrameAllocator.Valid, IsTable;
      var d, i := PdIdx(vaddress), PtIdx(vaddress);
      frames.ValidParts();
      UsableParts(pd, d, i);
      if !Present(Get(ram, pd, d)) {
        ok, t := MapIntoNewTable(pd, d, i, paddress, isUser);
        if ok {
          MapNewUsable(old(ram), pd, kernelPt, frames.startOffset, old(frames.f), d, i, paddress, isUser);
        } else {
          ReservedShrinks(ram, pd, kernelPt, frames.startOffset, old(frames.f));
        }
      } else {
        MapIntoTable(pd, d, i, paddress, isUser);
        ok, t := true, Get(old(ram), pd, d).frame;
        MapOldUsable(old(ram), pd, kernelPt, frames.startOffset, frames.f, d, i, paddress, isUser);
      }
    }

    lemma UsableParts(pd: Frame, d: Index, i: Index)
      requires Usable(pd) && !(d == KERNEL_PT_PDT_IDX && i == KERNEL_TMP_PT_IDX)
      ensures Present(Get(ram, pd, d)) ==> Get(ram, pd, d).frame != pd
      ensures Present(Get(ram, pd, d)) && Get(ram, pd, d).frame == kernelPt ==> i != KERNEL_TMP_PT_IDX
    {
    }

    /** The branch of map_page that allocates a frame for a new table. */
    method MapIntoNewTable(pd: Frame, d: Index, i: Index, paddress: Frame, isUser: bool)
      returns (ok: bool, ghost t: Frame)
      requires Valid() && pd != kernelPt && !Present(Get(ram, pd, d))
      requires Reserved(ram, pd, kernelPt, frames.startOffset, frames.f)
      modifies `ram, `window
      modifies frames`lastAllocatedIndex, frames`topIndex, frames`f
      modifies frames.bitMap, frames.stack, frames.allocatedPageFrames
      ensures Valid()
      ensures ram == if ok then MapNew(old(ram), pd, d, i, paddress, isUser, t) else old(ram)
      ensures Get(ram, kernelPt, KERNEL_TMP_PT_IDX) == old(Get(ram, kernelPt, KERNEL_TMP_PT_IDX))
      ensures ok == Allocate(old(frames.f), 1).ok && frames.f == Allocate(old(frames.f), 1).after
      ensures frames.allocatedPageFrames[1..] == old(frames.allocatedPageFrames[1..])
      ensures ok ==> |Allocate(old(frames.f), 1).popped| == 1 &&
                     t == Phys(frames.startOffset, Allocate(old(frames.f), 1).popped[0]) &&
                     frames.allocatedPageFrames[0] / PAGE == t
      ensures ok ==> FreshTable(old(ram), pd, d, t) && t != kernelPt
    {
      hide Get, MapNew, Present, FrameAllocator.Valid, Allocate, IsTable, Reserved;
      t := 0;
      frames.ValidParts();
      AllocatedIsReserved(ram, pd, kernelPt, frames.startOffset, frames.f);
      var frame := frames.PfAllocateFrames(1);
      if frame == null { return false, 0; }
      t := frame[0] / PAGE;
      InstallTable(pd, d, i, frame[0] / PAGE, paddress, isUser);
      return true, t;
    }

    /** Clears the new table through the window, links it in and fills in one page. */
    method InstallTable(pd: Frame, d: Index, i: Index, frame: Frame, paddress: Frame, isUser: bool)
      requires window == Get(ram, kernelPt, KERNEL_TMP_PT_IDX).frame
      requires pd != kernelPt && frame != pd && frame != kernelPt
      modifies `ram, `window
      ensures ram == MapNew(old(ram), pd, d, i, paddress, isUser, frame)
      ensures window == Get(ram, kernelPt, KERNEL_TMP_PT_IDX).frame
      ensures Get(ram, kernelPt, KERNEL_TMP_PT_IDX) == old(Get(ram, kernelPt, KERNEL_TMP_PT_IDX))
    {
      hide Get, SetAttr, Present, SetFrame;
      var tmpEntry := KernelGetTemporaryEntry();
      TempMapPage(frame);
      ClearWindow();
      ram := Put(ram, pd, d, SetAttr(Get(ram, pd, d), PRESENT));
      ram := Put(ram, pd, d, SetAttr(Get(ram, pd, d), RW));
      if isUser { ram := Put(ram, pd, d, SetAttr(Get(ram, pd, d), USER)); }
      ram := Put(ram, pd, d, SetFrame(Get(ram, pd, d), frame));
      ram := Put(ram, window, i, SetAttr(Get(ram, window, i), PRESENT));
      if isUser { ram := Put(ram, window, i, SetAttr(Get(ram, window, i), USER)); }
      ram := Put(ram, window, i, SetFrame(Get(ram, window, i), paddress));
      KernelSetTemporaryEntry(tmpEntry);
      RamEqual(ram, MapNew(old(ram), pd, d, i, paddress, isUser, frame));
    }

    /** The branch of map_page for a table that is there. */
    method MapIntoTable(pd: Frame, d: Index, i: Index, paddress: Frame, isUser: bool)
      requires window == Get(ram, kernelPt, KERNEL_TMP_PT_IDX).frame
      requires pd != kernelPt && Present(Get(ram, pd, d)) && Get(ram, pd, d).frame != pd
      requires Get(ram, pd, d).frame == kernelPt ==> i != KERNEL_TMP_PT_IDX
      modifies `ram, `window
      ensures ram == MapOld(old(ram), pd, d, i, paddress, isUser)
      ensures window == Get(ram, kernelPt, KERNEL_TMP_PT_IDX).frame
      ensures Get(ram, kernelPt, KERNEL_TMP_PT_IDX) == old(Get(ram, kernelPt, KERNEL_TMP_PT_IDX))
    {
      hide Get, SetAttr, Present, SetFrame;
      AttrFacts();
      ram := Put(ram, pd, d, SetAttr(Get(ram, pd, d), RW));
      if isUser { ram := Put(ram, pd, d, SetAttr(Get(ram, pd, d), USER)); }
      var tmpEntry := KernelGetTemporaryEntry();
      var ptPaddr := Get(ram, pd, d).frame;
      TempMapPage(ptPaddr);
      ram := Put(ram, window, 0, SetAttr(Get(ram, window, 0), PRESENT));
      ram := Put(ram, window, i, SetAttr(Get(ram, window, i), PRESENT));
      if isUser { ram := Put(ram, window, 0, SetAttr(Get(ram, window, 0), USER)); }
      ram := Put(ram, window, i, SetFrame(Get(ram, window, i), paddress));
      KernelSetTemporaryEntry(tmpEntry);
      RamEqual(ram, MapOld(old(ram), pd, d, i, paddress, isUser));
    }

    method KernelMapPage(paddress: Frame, vaddress: word, isUser: bool) returns (ok: bool, ghost t: Frame)
      requires Valid() && Usable(kernelPd)
      requires !(PdIdx(vaddress) == KERNEL_PT_PDT_IDX && PtIdx(vaddress) == KERNEL_TMP_PT_IDX)
      modifies `ram, `window
      modifies frames`lastAllocatedIndex, frames`topIndex, frames`f
      modifies frames.bitMap, frames.stack, frames.allocatedPageFrames
      ensures Valid() && Usable(kernelPd)
      ensures Mapping(old(ram), ram, kernelPd, vaddress, paddress, isUser, ok, t)
      ensures Get(ram, kernelPt, KERNEL_TMP_PT_IDX) == old(Get(ram, kernelPt, KERNEL_TMP_PT_IDX))
      ensures Granting(old(ram), kernelPd, vaddress, frames.startOffset, old(frames.f), frames.f, ok, t)
      ensures frames.allocatedPageFrames[1..] == old(frames.allocatedPageFrames[1..])
      ensures if Present(Get(old(ram), kernelPd, PdIdx(vaddress)))
              then frames.allocatedPageFrames[0] == old(frames.allocatedPageFrames[0])
              else ok ==> frames.allocatedPageFrames[0] / PAGE == t
      ensures old(frames.f).Valid() &&
              (Machine(ram, frames.f), ok) ==
              KernelMap(Machine(old(ram), old(frames.f)), kernelPd, frames.startOffset, vaddress, paddress, isUser)
    {
      hide FrameAllocator.Valid, Mapping, Granting, KernelMap, Usable;
      frames.ValidParts();
      ghost var m := Machine(ram, frames.f);
      ok, t := MapPage(kernelPd, paddress, vaddress, isUser);
      MappingIsKernelMap(m, Machine(ram, frames.f), kernelPd, frames.startOffset, vaddress, paddress, isUser, ok, t);
    }

    // ----- the search for free kernel pages ---------------------------------------------

    /** Searches the table in the window for the first run of free pages. */
    method PtKernelFindNextVaddr(pdtIdx: Index, size: word) returns (v: word)
      requires pdtIdx > 0
      ensures v == 0 ==> forall s: nat :: PagesFor(size) > 0 ==> !SlotsFree(ram, window, pdtIdx, s, PagesFor(size))
      ensures v != 0 ==> PagesFor(size) > 0 && exists i: Index ::
        && v == PageAt(pdtIdx, i) && SlotsFree(ram, window, pdtIdx, i, PagesFor(size))
        && forall s: nat :: s < i ==> !SlotsFree(ram, window, pdtIdx, s, PagesFor(size))
    {
      hide Present, SlotsFree, PagesFor, RunEnds, NoRunBefore;
      PresentIsAttr();
      var numFound: nat, orgI: nat := 0, 0;
      var numToFind := PageCount(size);
      ghost var r, t := ram, window;
      NoRunYet(r, t, pdtIdx, numToFind);
      for i := 0 to ENTRIES
        invariant (numToFind > 0 ==> numFound < numToFind) && numFound <= i && (numFound > 0 ==> orgI == i - numFound)
        invariant RunEnds(r, t, pdtIdx, i, numFound)
        invariant NoRunBefore(r, t, pdtIdx, i, numToFind)
      {
        RunGrows(r, t, pdtIdx, i, numFound, numToFind);
        if CheckAttr(Get(ram, window, i), PRESENT) || (pdtIdx == KERNEL_PT_PDT_IDX && i == KERNEL_TMP_PT_IDX) {
          numFound := 0;
        } else {
          if numFound == 0 { orgI := i; }
          numFound := numFound + 1;
          if numFound == numToFind {
            RunFound(r, t, pdtIdx, i, numToFind);
            return PageAt(pdtIdx, orgI);
          }
        }
      }
      NoRunAtAll(r, t, pdtIdx, numToFind);
      return 0;
    }

    method PageCount(size: word) returns (n: nat)
      ensures n == PagesFor(size)
    {
      var pages, _, _, _ := DivideUnsigned(AlignUp(size, 0x1000), 0x1000);
      n := pages;
    }

    /** The lowest free range of the kernel half, whenever there can be one under one table. */
    method PdtKernelFindNextVaddr(size: word) returns (v: word)
      requires Valid() && kernelPd != kernelPt && WindowHome(ram, kernelPd, kernelPt)
      modifies `ram, `window
      ensures Valid() && ram == old(ram)
      ensures Answer(ram, kernelPd, PagesFor(size), v)
      ensures 0 < size <= 0x40_0000 && (size <= 0x3F_F000 || Present(Get(ram, kernelPd, KERNEL_PT_PDT_IDX)))
              ==> IsLowestRange(ram, kernelPd, PagesFor(size), v)
    {
      hide FrameAllocator.Valid, PagesFor, RangeFree, SlotsFree, Get, Present, AnswerAt, IsLowestRange;
      ghost var n := PagesFor(size);
      var d := KERNEL_PT_PDT_IDX;
      while d < ENTRIES
        invariant KERNEL_PT_PDT_IDX <= d <= ENTRIES
        invariant Valid() && ram == old(ram)
        invariant forall e: Index :: KERNEL_PT_PDT_IDX <= e < d ==> AnswerAt(ram, kernelPd, e, n, 0)
      {
        v := 0;
        if Present(Get(ram, kernelPd, d)) {
          v := SearchTable(d, size);
        } else {
          v := PageAt(d, 0);
          AbsentAnswer(ram, kernelPd, d, n);
        }
        if v != 0 {
          LowestForSize(ram, kernelPd, size, v);
          return v;
        }
        d := d + 1;
      }
      LowestForSize(ram, kernelPd, size, 0);
      return 0;
    }

    /** Searches the table of a present entry through the window, and restores the window. */
    method SearchTable(d: Index, size: word) returns (v: word)
      requires Valid() && KERNEL_PT_PDT_IDX <= d
      requires kernelPd != kernelPt && WindowHome(ram, kernelPd, kernelPt) && Present(Get(ram, kernelPd, d))
      modifies `ram, `window
      ensures Valid() && ram == old(ram)
      ensures AnswerAt(ram, kernelPd, d, PagesFor(size), v)
    {
      hide FrameAllocator.Valid, PagesFor, RangeFree, SlotsFree, Get, Present;
      var tmpEntry := KernelGetTemporaryEntry();
      ghost var r, n, t := ram, PagesFor(size), Get(ram, kernelPd, d).frame;
      TempMapPage(Get(ram, kernelPd, d).frame);
      v := PtKernelFindNextVaddr(d, size);
      forall s: nat ensures SlotsFree(ram, t, d, s, n) <==> RangeFree(r, kernelPd, d, s, n) {
        SlotsAreRange(r, ram, kernelPd, d, s, n);
      }
      KernelSetTemporaryEntry(tmpEntry);
      RamEqual(ram, old(ram));
    }

    /** The entry of a page in the window, with the window left on its table. */
    method GetPage(vaddress: word) returns (page: Index)
      modifies `ram, `window
      ensures exists e: Entry :: ram == Put(old(ram), kernelPt, KERNEL_TMP_PT_IDX, e)
      ensures window == Get(old(ram), currentPd, PdIdx(vaddress)).frame && page == PtIdx(vaddress)
    {
      TempMapPage(Get(ram, currentPd, PdIdx(vaddress)).frame);
      return PtIdx(vaddress);
    }

    /** Copies the kernel's half of the directory and switches to it. */
    method LoadProcessPdt(pdt: Frame)
      requires Valid() && pdt != kernelPt
      modifies `ram, `currentPd
      ensures Valid() && ram == Load(old(ram), kernelPd, pdt, KERNEL_PT_PDT_IDX) && currentPd == pdt
      ensures forall g: Frame, j: Index ::
        Get(ram, g, j) == if g == pdt && 768 <= j && Present(Get(old(ram), kernelPd, j)) then Get(old(ram), kernelPd, j)
                          else Get(old(ram), g, j)
    {
      hide FrameAllocator.Valid, Get, Present;
      for i := KERNEL_PT_PDT_IDX to ENTRIES
        invariant forall g: Frame, j: Index ::
          Get(ram, g, j) == if g == pdt && KERNEL_PT_PDT_IDX <= j < i && Present(Get(old(ram), kernelPd, j))
                            then Get(old(ram), kernelPd, j) else Get(old(ram), g, j)
      {
        if Present(Get(ram, kernelPd, i)) {
          ram := Put(ram, pdt, i, Get(ram, kernelPd, i));
        }
      }
      RamEqual(ram, Load(old(ram), kernelPd, pdt, KERNEL_PT_PDT_IDX));
      currentPd := pdt;
    }

    /**
     Returns the page of a new directory and the address it reports for its frame, or 0. The
     address is read from the result array after map_page may have overwritten slot 0.
     */
    method CreatePdt() returns (pdtVaddr: word, pdtPaddr: word, ghost frame: Frame)
      requires Valid() && Usable(kernelPd)
      modifies `ram, `window
      modifies frames`lastAllocatedIndex, frames`topIndex, frames`f
      modifies frames.bitMap, frames.stack, frames.allocatedPageFrames
      ensures Valid() && Usable(kernelPd)
      ensures Get(ram, kernelPt, KERNEL_TMP_PT_IDX) == old(Get(ram, kernelPt, KERNEL_TMP_PT_IDX))
      ensures old(frames.f).Valid() && (pdtVaddr != 0 <==> PdtServed(old(ram), kernelPd, old(frames.f)))
      ensures pdtVaddr == 0 ==> ram == old(ram)
      ensures pdtVaddr != 0 ==>
        && IsLowestRange(old(ram), kernelPd, 1, pdtVaddr)
        && Walk(ram, kernelPd, PdIdx(pdtVaddr), PtIdx(pdtVaddr)) == Mapped(frame)
        && Outside(old(ram), kernelPd, frame) && Outside(ram, kernelPd, frame) && frame != kernelPt
        && !WasAvail(frames.startOffset, frames.f, frame)
        && (pdtPaddr / PAGE == frame <==> Present(Get(old(ram), kernelPd, PdIdx(pdtVaddr))))
      ensures pdtVaddr != 0 ==>
        && PdtMade(Machine(old(ram), old(frames.f)), Machine(ram, frames.f), kernelPd, frames.startOffset,
                   pdtVaddr, frame)
        && KeepsMapped(old(ram), ram, kernelPd, PdIdx(pdtVaddr), PtIdx(pdtVaddr))
        && ram[frame] == old(ram)[frame]
    {
      hide FrameAllocator.Valid, Get, Present, Walk, Map, Allocate, IsLowestRange, PagesFor, Outside, WellFormed,
        WindowHome, Reserved, PdtServed, WasAvail, KernelMap, KeepsMapped;
      frame, pdtPaddr := 0, 0;
      frames.ValidParts();
      ghost var r, start, f := ram, frames.startOffset, frames.f;
      OneTaken(r, kernelPd, kernelPt, start, f);
      var pf := frames.PfAllocateFrames(1);
      if pf == null {
        NoFrameNoPdt(r, kernelPd, f);
        return 0, 0, 0;
      }
      frame := pf[0] / PAGE;
      pdtVaddr := PdtKernelFindNextVaddr(0x1000);
      OnePage();
      if pdtVaddr == 0 {
        NotServed(r, kernelPd, f, 0);
        return 0, 0, 0;
      }
      LowestIsNotWindow(ram, kernelPd, pdtVaddr);
      frames.ValidParts();
      ghost var g := frames.f;
      var res, t := KernelMapPage(pf[0] / PAGE, pdtVaddr, true);
      if !res {
        NotServed(r, kernelPd, f, pdtVaddr);
        return 0, 0, 0;
      }
      IsServed(r, kernelPd, f, pdtVaddr);
      MapWalks(r, kernelPd, PdIdx(pdtVaddr), PtIdx(pdtVaddr), frame, true, t);
      SecondApart(r, kernelPd, pdtVaddr, start, f, g, frames.f, t);
      TakenForGood(start, f, frames.f);
      MapKeepsOutside(r, kernelPd, PdIdx(pdtVaddr), PtIdx(pdtVaddr), frame, true, t, frame);
      PdtKeeps(r, kernelPd, PdIdx(pdtVaddr), PtIdx(pdtVaddr), frame, t);
      pdtPaddr := pf[0];
    }
  }
}
