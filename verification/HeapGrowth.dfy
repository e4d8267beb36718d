/**
 The mapping half of get_more_memory: the pages of a heap growth, on the frame allocator
 and the page tables.
 */
module HeapGrowth {
  import opened Entries
  import opened PagingSpec
  import opened PagingTheorems
  import opened Paging
  import opened Utilities
  import HeapSpec
  import opened FrameSpec
  import opened FrameTheorems
  import opened PageFrameAlloc
  import opened FrameSupply

  const HEADER_SIZE: word := 8

  /** Two units of NALLOC headers fill exactly two page frames. */
  lemma TwoPageFrames()
    ensures DivCeil(HeapSpec.NALLOC * HEADER_SIZE, PAGE_FRAME_SIZE) == 2
  {
  }

  // ----- rewriting the flags of a page's entry ----------------------------------------

  lemma RewriteKeeps(r: Ram, pd: Frame, t: Frame, i: Index, e: Entry, d: Index, j: Index)
    requires t != pd && Present(e) == Present(Get(r, t, i)) && e.frame == Get(r, t, i).frame
    ensures Walk(Put(r, t, i, e), pd, d, j) == Walk(r, pd, d, j)
    ensures Get(Put(r, t, i, e), pd, d) == Get(r, pd, d)
  {
    hide Present, Get;
  }

  lemma RewriteUsable(r: Ram, pd: Frame, kernelPt: Frame, start: word, f: Frames, t: Frame, i: Index, e: Entry)
    requires t != pd && Present(e) == Present(Get(r, t, i)) && e.frame == Get(r, t, i).frame
    requires WellFormed(r, pd) && WindowHome(r, pd, kernelPt) && Reserved(r, pd, kernelPt, start, f)
    ensures var r' := Put(r, t, i, e);
      WellFormed(r', pd) && WindowHome(r', pd, kernelPt) && Reserved(r', pd, kernelPt, start, f)
    ensures forall x: Frame :: Outside(r, pd, x) ==> Outside(Put(r, t, i, e), pd, x)
  {
    hide Present, Get, Phys, Frames.Avail;
    var r' := Put(r, t, i, e);
    forall d: Index ensures Get(r', pd, d) == Get(r, pd, d) {
      RewriteKeeps(r, pd, t, i, e, d, 0);
    }
  }

  /** Sets the page's RW and PRESENT through the window, and restores the window. */
  method MakeWritable(m: Mmu, virt: word)
    requires m.Valid() && Present(Get(m.ram, m.currentPd, PdIdx(virt)))
    requires Get(m.ram, m.currentPd, PdIdx(virt)).frame == m.kernelPt ==> PtIdx(virt) != KERNEL_TMP_PT_IDX
    modifies m`ram, m`window
    ensures m.Valid()
    ensures var t, i := Get(old(m.ram), m.currentPd, PdIdx(virt)).frame, PtIdx(virt);
      m.ram == Put(old(m.ram), t, i, SetAttr(SetAttr(Get(old(m.ram), t, i), RW), PRESENT))
    ensures Get(m.ram, m.kernelPt, KERNEL_TMP_PT_IDX) == old(Get(m.ram, m.kernelPt, KERNEL_TMP_PT_IDX))
  {
    hide Get, SetAttr, Present, PdIdx, PtIdx;
    var tmpEntry := m.KernelGetTemporaryEntry();
    var page := m.GetPage(virt);
    m.ram := Put(m.ram, m.window, page, SetAttr(Get(m.ram, m.window, page), RW));
    m.ram := Put(m.ram, m.window, page, SetAttr(Get(m.ram, m.window, page), PRESENT));
    m.KernelSetTemporaryEntry(tmpEntry);
    ghost var t, i := Get(old(m.ram), m.currentPd, PdIdx(virt)).frame, PtIdx(virt);
    RamEqual(m.ram, Put(old(m.ram), t, i, SetAttr(SetAttr(Get(old(m.ram), t, i), RW), PRESENT)));
  }

  // ----- one page ---------------------------------------------------------------------

  /** The page translates to pa and is writable. */
  ghost predicate MappedWritable(r: Ram, pd: Frame, d: Index, i: Index, pa: Frame) {
    && Walk(r, pd, d, i) == Mapped(pa)
    && Present(Get(r, pd, d)) && CheckAttr(Get(r, Get(r, pd, d).frame, i), RW)
  }

  /** No frame but a new table t joins the directory and its tables. */
  ghost predicate KeepsOutside(r: Ram, s: Ram, pd: Frame, d: Index, t: Frame) {
    forall x: Frame :: Outside(r, pd, x) && (Present(Get(r, pd, d)) || t != x) ==> Outside(s, pd, x)
  }

  /** Frames that are neither the directory, a table of it nor the new table t keep their contents. */
  ghost predicate KeepsContents(r: Ram, s: Ram, pd: Frame, d: Index, t: Frame) {
    forall x: Frame :: Outside(r, pd, x) && (Present(Get(r, pd, d)) || t != x) ==> s[x] == r[x]
  }

  lemma WritableEntry(e: Entry)
    ensures var e' := SetAttr(SetAttr(e, RW), PRESENT);
      CheckAttr(e', RW) && Present(e') && e'.frame == e.frame
  {
  }

  /** Every writable page of r, but (d, i), is still writable and mapped to its frame in s. */
  ghost predicate KeepsWritable(r: Ram, s: Ram, pd: Frame, d: Index, i: Index) {
    forall e: Index, j: Index, pa: Frame ::
      (e != d || j != i) && MappedWritable(r, pd, e, j, pa) ==> MappedWritable(s, pd, e, j, pa)
  }

  lemma MapKeepsWritable(r: Ram, pd: Frame, d: Index, i: Index, pa: Frame, t: Frame, e: Index, j: Index, x: Frame)
    requires WellFormed(r, pd) && FreshTable(r, pd, d, t) && (e != d || j != i) && MappedWritable(r, pd, e, j, x)
    ensures MappedWritable(Map(r, pd, d, i, pa, true, t), pd, e, j, x)
  {
    hide Present, Get, Map, SetAttr, CheckAttr;
    MapKeepsMapped(r, pd, d, i, pa, true, t, e, j);
    MapEntries(r, pd, d, i, pa, true, t, pd, e);
    MapEntries(r, pd, d, i, pa, true, t, Get(r, pd, e).frame, j);
  }

  lemma RewriteKeepsWritable(r: Ram, pd: Frame, t: Frame, i: Index, e: Entry, d: Index, j: Index, x: Frame)
    requires t != pd && Present(e) == Present(Get(r, t, i)) && e.frame == Get(r, t, i).frame && CheckAttr(e, RW)
    requires MappedWritable(r, pd, d, j, x)
    ensures MappedWritable(Put(r, t, i, e), pd, d, j, x)
  {
    hide Present, Get, CheckAttr;
    RewriteKeeps(r, pd, t, i, e, d, j);
  }

  /** Mapping page (d, i) and then setting its attributes. */
  lemma MapThenWritable(r: Ram, pd: Frame, d: Index, i: Index, pa: Frame, t: Frame)
    requires WellFormed(r, pd) && FreshTable(r, pd, d, t)
    ensures var r1 := Map(r, pd, d, i, pa, true, t);
      && Present(Get(r1, pd, d)) && Get(r1, pd, d).frame != pd
      && Get(r1, pd, d).frame == (if Present(Get(r, pd, d)) then Get(r, pd, d).frame else t)
      && Present(Get(r1, Get(r1, pd, d).frame, i))
      && var u := Get(r1, pd, d).frame;
         var r2 := Put(r1, u, i, SetAttr(SetAttr(Get(r1, u, i), RW), PRESENT));
         MappedWritable(r2, pd, d, i, pa) && KeepsMapped(r, r2, pd, d, i) && KeepsWritable(r, r2, pd, d, i)
  {
    hide Present, Get, Map, SetAttr, CheckAttr, Walk, IsTable;
    var r1 := Map(r, pd, d, i, pa, true, t);
    MapEntries(r, pd, d, i, pa, true, t, pd, d);
    var u := Get(r1, pd, d).frame;
    MapEntries(r, pd, d, i, pa, true, t, u, i);
    MapWalks(r, pd, d, i, pa, true, t);
    var e := SetAttr(SetAttr(Get(r1, u, i), RW), PRESENT);
    WritableEntry(Get(r1, u, i));
    var r2 := Put(r1, u, i, e);
    RewriteKeeps(r1, pd, u, i, e, d, i);
    forall x: Index, j: Index | (x != d || j != i) && Walk(r, pd, x, j).Mapped?
      ensures Walk(r2, pd, x, j) == Walk(r, pd, x, j)
    {
      MapKeepsMapped(r, pd, d, i, pa, true, t, x, j);
      RewriteKeeps(r1, pd, u, i, e, x, j);
    }
    forall x: Index, j: Index, y: Frame | (x != d || j != i) && MappedWritable(r, pd, x, j, y)
      ensures MappedWritable(r2, pd, x, j, y)
    {
      MapKeepsWritable(r, pd, d, i, pa, t, x, j, y);
      RewriteKeepsWritable(r1, pd, u, i, e, x, j, y);
    }
  }

  // ----- the user's access --------------------------------------------------------------

  /** There is a table at entry d, and its entry i has USER. */
  ghost predicate HasUser(r: Ram, pd: Frame, d: Index, i: Index) {
    Present(Get(r, pd, d)) && CheckAttr(Get(r, Get(r, pd, d).frame, i), USER)
  }

  /** Directory entry d has USER and RW. */
  predicate OpenEntry(r: Ram, pd: Frame, d: Index) {
    CheckAttr(Get(r, pd, d), USER) && CheckAttr(Get(r, pd, d), RW)
  }

  /**
   What mapping page (d, i) for the user does to USER everywhere: in a new table the page gets
   it and no other; in a present one page 0 does.
   */
  ghost predicate UserAfter(r: Ram, s: Ram, pd: Frame, d: Index, i: Index) {
    && (forall e: Index :: OpenEntry(s, pd, e) <==> e == d || OpenEntry(r, pd, e))
    && (forall e: Index :: Present(Get(s, pd, e)) <==> e == d || Present(Get(r, pd, e)))
    && (forall e: Index, j: Index :: HasUser(s, pd, e, j) <==>
          if e != d then HasUser(r, pd, e, j)
          else if Present(Get(r, pd, d)) then HasUser(r, pd, d, j) || j == 0
          else j == i)
  }

  lemma MapUserAfter(r: Ram, pd: Frame, d: Index, i: Index, pa: Frame, t: Frame)
    requires WellFormed(r, pd) && FreshTable(r, pd, d, t)
    ensures UserAfter(r, Map(r, pd, d, i, pa, true, t), pd, d, i)
  {
    hide Present, Get, Map, CheckAttr;
    var s := Map(r, pd, d, i, pa, true, t);
    MapUserSlot(r, pd, d, i, pa, t, 0);
    forall e: Index
      ensures e != d ==> Get(s, pd, e) == Get(r, pd, e)
      ensures e == d ==> Present(Get(s, pd, e))
    {
      MapEntries(r, pd, d, i, pa, true, t, pd, e);
    }
    forall e: Index, j: Index
      ensures HasUser(s, pd, e, j) <==>
        if e != d then HasUser(r, pd, e, j)
        else if Present(Get(r, pd, d)) then HasUser(r, pd, d, j) || j == 0
        else j == i
    {
      if e == d {
        MapUserSlot(r, pd, d, i, pa, t, j);
      } else if Present(Get(r, pd, e)) {
        EntryIsTable(r, pd, e);
        MapEntries(r, pd, d, i, pa, true, t, Get(r, pd, e).frame, j);
      }
    }
  }

  lemma WritableKeepsUser(e: Entry)
    ensures CheckAttr(SetAttr(SetAttr(e, RW), PRESENT), USER) == CheckAttr(e, USER)
  {
    UserFact(e);
    UserFact(SetAttr(e, RW));
  }

  /** Setting RW and PRESENT in an entry that is no directory entry gives nobody USER. */
  lemma RewriteKeepsUser(r: Ram, pd: Frame, t: Frame, i: Index, e: Entry, d: Index, j: Index)
    requires t != pd && CheckAttr(e, USER) == CheckAttr(Get(r, t, i), USER)
    ensures Get(Put(r, t, i, e), pd, d) == Get(r, pd, d)
    ensures HasUser(Put(r, t, i, e), pd, d, j) == HasUser(r, pd, d, j)
  {
    hide Present, Get, CheckAttr;
  }

  lemma RewriteUserAfter(r: Ram, r1: Ram, pd: Frame, d: Index, i: Index, t: Frame, e: Entry)
    requires t != pd && CheckAttr(e, USER) == CheckAttr(Get(r1, t, i), USER) && UserAfter(r, r1, pd, d, i)
    ensures UserAfter(r, Put(r1, t, i, e), pd, d, i)
  {
    hide Present, Get, CheckAttr, HasUser;
    var s := Put(r1, t, i, e);
    forall x: Index, j: Index ensures HasUser(s, pd, x, j) == HasUser(r1, pd, x, j) {
      RewriteKeepsUser(r1, pd, t, i, e, x, j);
    }
    forall x: Index ensures Get(s, pd, x) == Get(r1, pd, x) && OpenEntry(s, pd, x) == OpenEntry(r1, pd, x) {
      RewriteKeepsUser(r1, pd, t, i, e, x, 0);
    }
    assert forall x: Index :: OpenEntry(s, pd, x) <==> x == d || OpenEntry(r, pd, x);
    assert forall x: Index :: Present(Get(s, pd, x)) <==> x == d || Present(Get(r, pd, x));
  }

  /**
   Which of a growth's two pages user code reaches, though both are mapped for the user. The
   first: exactly when its table was new, it is page 0 of it, or its entry had USER. The
   second likewise, but its table counts as new only if the first page did not just bring it.
   */
  ghost predicate GrownForUser(r: Ram, s: Ram, pd: Frame, v: word) {
    var v0, v1 := GrowthPage(v, 0), GrowthPage(v, 1);
    var d0, i0, d1, i1 := PdIdx(v0), PtIdx(v0), PdIdx(v1), PtIdx(v1);
    && OpenEntry(s, pd, d0) && OpenEntry(s, pd, d1)
    && (UserReaches(s, pd, d0, i0) <==> !Present(Get(r, pd, d0)) || i0 == 0 || HasUser(r, pd, d0, i0))
    && (UserReaches(s, pd, d1, i1) <==>
          (d1 != d0 && !Present(Get(r, pd, d1))) || i1 == 0 || HasUser(r, pd, d1, i1))
  }

  lemma PageForUser(r: Ram, s: Ram, pd: Frame, d: Index, i: Index, pa: Frame)
    requires UserAfter(r, s, pd, d, i) && MappedWritable(s, pd, d, i, pa)
    ensures UserReaches(s, pd, d, i) <==> !Present(Get(r, pd, d)) || i == 0 || HasUser(r, pd, d, i)
  {
    hide Walk, Present, Get, CheckAttr;
    assert OpenEntry(s, pd, d);
    assert HasUser(s, pd, d, i) <==> !Present(Get(r, pd, d)) || i == 0 || HasUser(r, pd, d, i);
  }

  lemma TwoTurnsForUser(r: Ram, s1: Ram, s: Ram, pd: Frame, v: word, f0: Frame, f1: Frame)
    requires v % PAGE_FRAME_SIZE == 0 && v + 2 * PAGE_FRAME_SIZE <= TWO_32
    requires UserAfter(r, s1, pd, PdIdx(GrowthPage(v, 0)), PtIdx(GrowthPage(v, 0)))
    requires UserAfter(s1, s, pd, PdIdx(GrowthPage(v, 1)), PtIdx(GrowthPage(v, 1)))
    requires MappedWritable(s, pd, PdIdx(GrowthPage(v, 0)), PtIdx(GrowthPage(v, 0)), f0)
    requires MappedWritable(s, pd, PdIdx(GrowthPage(v, 1)), PtIdx(GrowthPage(v, 1)), f1)
    ensures GrownForUser(r, s, pd, v)
  {
    hide Walk, Present, Get, CheckAttr, GrowthPage, PdIdx, PtIdx;
    GrowthPagesApart(v);
    NextPageInTable(v);
    var v0, v1 := GrowthPage(v, 0), GrowthPage(v, 1);
    var d0, i0, d1, i1 := PdIdx(v0), PtIdx(v0), PdIdx(v1), PtIdx(v1);
    assert OpenEntry(s1, pd, d0) && OpenEntry(s, pd, d0) && OpenEntry(s, pd, d1);
    assert HasUser(s1, pd, d0, i0) <==> !Present(Get(r, pd, d0)) || i0 == 0 || HasUser(r, pd, d0, i0);
    assert HasUser(s, pd, d0, i0) <==> HasUser(s1, pd, d0, i0);
    assert HasUser(s, pd, d1, i1) <==> !Present(Get(s1, pd, d1)) || i1 == 0 || HasUser(s1, pd, d1, i1);
    assert HasUser(r, pd, d1, i1) ==> Present(Get(r, pd, d1));
  }

  /** Two pages under one table: the second is not its page 0. */
  lemma NextPageInTable(v: word)
    requires v % PAGE_FRAME_SIZE == 0 && v + 2 * PAGE_FRAME_SIZE <= TWO_32
    ensures PdIdx(GrowthPage(v, 0)) == PdIdx(GrowthPage(v, 1)) ==> PtIdx(GrowthPage(v, 1)) != 0
  {
    GrowthPagesApart(v);
    var w := GrowthPage(v, 1);
    IndicesSplit(v);
    IndicesSplit(w);
  }

  lemma EntryIsTable(r: Ram, pd: Frame, d: Index)
    ensures Present(Get(r, pd, d)) ==> IsTable(r, pd, Get(r, pd, d).frame)
  {
  }

  lemma MapThenContents(r: Ram, pd: Frame, d: Index, i: Index, pa: Frame, t: Frame)
    requires WellFormed(r, pd) && FreshTable(r, pd, d, t)
    ensures var r1 := Map(r, pd, d, i, pa, true, t); var u := Get(r1, pd, d).frame;
      && u != pd
      && forall e: Entry :: KeepsContents(r, Put(r1, u, i, e), pd, d, t) && Put(r1, u, i, e)[pd] == r1[pd]
  {
    hide Present, Get, Map, IsTable;
    var r1 := Map(r, pd, d, i, pa, true, t);
    MapEntries(r, pd, d, i, pa, true, t, pd, d);
    var u := Get(r1, pd, d).frame;
    EntryIsTable(r, pd, d);
    forall x: Frame | Outside(r, pd, x) && (Present(Get(r, pd, d)) || t != x) ensures r1[x] == r[x] && x != u {
      MapContents(r, pd, d, i, pa, true, t, x);
    }
  }

  /** One turn of the loop: maps a page, and makes it writable. */
  method MapHeapPage(m: Mmu, paddress: Frame, virt: word) returns (ok: bool, ghost t: Frame)
    requires m.Valid() && m.Usable(m.kernelPd) && m.currentPd == m.kernelPd
    requires !(PdIdx(virt) == KERNEL_PT_PDT_IDX && PtIdx(virt) == KERNEL_TMP_PT_IDX)
    modifies m`ram, m`window
    modifies m.frames`lastAllocatedIndex, m.frames`topIndex, m.frames`f
    modifies m.frames.bitMap, m.frames.stack, m.frames.allocatedPageFrames
    ensures m.Valid() && m.Usable(m.kernelPd)
    ensures old(m.frames.f).Valid() && m.frames.f.Valid() &&
            Turn(ok, SupplyOf(m.ram, m.kernelPd, m.frames.f)) ==
            ForTable(SupplyOf(old(m.ram), m.kernelPd, old(m.frames.f)), PdIdx(virt))
    ensures ok ==> MappedWritable(m.ram, m.kernelPd, PdIdx(virt), PtIdx(virt), paddress)
    ensures ok ==> KeepsMapped(old(m.ram), m.ram, m.kernelPd, PdIdx(virt), PtIdx(virt))
    ensures ok ==> KeepsWritable(old(m.ram), m.ram, m.kernelPd, PdIdx(virt), PtIdx(virt))
    ensures Get(m.ram, m.kernelPt, KERNEL_TMP_PT_IDX) == old(Get(m.ram, m.kernelPt, KERNEL_TMP_PT_IDX))
    ensures Granting(old(m.ram), m.kernelPd, virt, m.frames.startOffset, old(m.frames.f), m.frames.f, ok, t)
    ensures m.frames.allocatedPageFrames[1..] == old(m.frames.allocatedPageFrames[1..])
    ensures ok ==> KeepsOutside(old(m.ram), m.ram, m.kernelPd, PdIdx(virt), t)
    ensures ok ==> KeepsContents(old(m.ram), m.ram, m.kernelPd, PdIdx(virt), t)
    ensures ok ==> UserAfter(old(m.ram), m.ram, m.kernelPd, PdIdx(virt), PtIdx(virt))
    ensures ok ==>
      (UserReaches(m.ram, m.kernelPd, PdIdx(virt), PtIdx(virt)) <==>
       !Present(Get(old(m.ram), m.kernelPd, PdIdx(virt))) || PtIdx(virt) == 0 ||
       HasUser(old(m.ram), m.kernelPd, PdIdx(virt), PtIdx(virt)))
    ensures !ok ==> m.ram == old(m.ram)
  {
    hide Get, Present, Map, MappedWritable, KeepsMapped, KeepsWritable, KeepsContents, Granting, SetAttr, Walk, PdIdx,
      PtIdx, Outside, FreshTable, Reserved, WellFormed, FrameAllocator.Valid, KernelMap, ForTable, SupplyOf,
      UserAfter, UserReaches, HasUser, CheckAttr;
    m.frames.ValidParts();
    ghost var m0 := Machine(m.ram, m.frames.f);
    ok, t := m.KernelMapPage(paddress, virt, true);
    m.frames.ValidParts();
    MapTurn(m0, Machine(m.ram, m.frames.f), m.kernelPd, m.frames.startOffset, virt, paddress, true, ok, t);
    if ok {
      ghost var r1, d, i := m.ram, PdIdx(virt), PtIdx(virt);
      MapThenWritable(old(m.ram), m.kernelPd, d, i, paddress, t);
      ghost var u := Get(r1, m.kernelPd, d).frame;
      HomeIndex(r1, m.kernelPd, m.kernelPt, d);
      MakeWritable(m, virt);
      WritableEntry(Get(r1, u, i));
      RewriteUsable(r1, m.kernelPd, m.kernelPt, m.frames.startOffset, m.frames.f, u, i,
                    SetAttr(SetAttr(Get(r1, u, i), RW), PRESENT));
      forall x: Frame | Outside(old(m.ram), m.kernelPd, x) && (Present(Get(old(m.ram), m.kernelPd, d)) || t != x)
        ensures Outside(m.ram, m.kernelPd, x)
      {
        MapKeepsOutside(old(m.ram), m.kernelPd, d, i, paddress, true, t, x);
      }
      MapThenContents(old(m.ram), m.kernelPd, d, i, paddress, t);
      MapUserAfter(old(m.ram), m.kernelPd, d, i, paddress, t);
      WritableKeepsUser(Get(r1, u, i));
      RewriteUserAfter(old(m.ram), r1, m.kernelPd, d, i, u, SetAttr(SetAttr(Get(r1, u, i), RW), PRESENT));
      PageForUser(old(m.ram), m.ram, m.kernelPd, d, i, paddress);
      SupplyFromDirectory(r1, m.ram, m.kernelPd, m.frames.f);
    }
  }

  lemma HomeIndex(r: Ram, pd: Frame, kernelPt: Frame, d: Index)
    requires WindowHome(r, pd, kernelPt) && Present(Get(r, pd, d))
    ensures Get(r, pd, d).frame == kernelPt ==> d == KERNEL_PT_PDT_IDX
  {
  }

  // ----- the growth -------------------------------------------------------------------

  /** A frame that callers hold is neither handed out again nor made a table. */
  lemma GrantNotHeld(r: Ram, pd: Frame, va: word, start: word, g: Frames, g': Frames, ok: bool, t: Frame, k: nat)
    requires g.Valid() && Granting(r, pd, va, start, g, g', ok, t) && k < |g.bits| && !g.Avail(k)
    requires start % PAGE == 0 && start + PAGE * |g.bits| <= TWO_32
    ensures ok && !Present(Get(r, pd, PdIdx(va))) ==> t != Phys(start, k)
    ensures !g'.Avail(k) && |g'.bits| == |g.bits|
  {
    hide Allocate, Present, Frames.Avail, Phys;
    GrantEffect(g, k);
    if ok && !Present(Get(r, pd, PdIdx(va))) {
      var k1 := Allocate(g, 1).popped[0];
      AllocateEffect(g, 1, k1);
      PhysInjective(start, k, k1);
    }
  }

  lemma GrantEffect(g: Frames, k: nat)
    requires g.Valid() && !g.Avail(k)
    ensures !Allocate(g, 1).after.Avail(k) && |Allocate(g, 1).after.bits| == |g.bits|
  {
    hide Allocate, Frames.Avail, Frames.Valid;
    AllocateEffect(g, 1, k);
  }

  lemma GrowthPagesApart(v: word)
    requires v % PAGE_FRAME_SIZE == 0 && v + 2 * PAGE_FRAME_SIZE <= TWO_32
    ensures PdIdx(GrowthPage(v, 0)) != PdIdx(GrowthPage(v, 1)) || PtIdx(GrowthPage(v, 0)) != PtIdx(GrowthPage(v, 1))
    ensures GrowthPage(v, 0) == v && GrowthPage(v, 1) == v + PAGE_FRAME_SIZE
  {
  }

  ghost predicate NotWindow(v: word) {
    !(PdIdx(v) == KERNEL_PT_PDT_IDX && PtIdx(v) == KERNEL_TMP_PT_IDX)
  }

  /** Two frames from one allocation: different, held by the caller, unknown to the directory. */
  lemma TwoTaken(r: Ram, pd: Frame, kernelPt: Frame, start: word, f: Frames)
    requires f.Valid() && Reserved(r, pd, kernelPt, start, f)
    requires start % PAGE == 0 && start + PAGE * |f.bits| <= TWO_32
    ensures var o := Allocate(f, 2);
      && o.after.Valid() && Reserved(r, pd, kernelPt, start, o.after) && |o.after.bits| == |f.bits|
      && (o.ok ==> |o.popped| == 2 && f.Avail(o.popped[0]) && f.Avail(o.popped[1])
                   && o.popped[0] < |f.bits| && o.popped[1] < |f.bits|
                   && Phys(start, o.popped[0]) != Phys(start, o.popped[1])
                   && !o.after.Avail(o.popped[0]) && !o.after.Avail(o.popped[1])
                   && Outside(r, pd, Phys(start, o.popped[0])) && Outside(r, pd, Phys(start, o.popped[1])))
  {
    hide Allocate, Frames.Avail, IsTable, Phys;
    var o := Allocate(f, 2);
    AllocateSucceeds(f, 2);
    AllocateEffect(f, 2, 0);
    forall k: nat | o.after.Avail(k) ensures f.Avail(k) {
      AllocateEffect(f, 2, k);
    }
    if o.ok {
      AllocateEffect(f, 2, o.popped[0]);
      AllocateEffect(f, 2, o.popped[1]);
      TwoDistinct(f);
      PhysInjective(start, o.popped[0], o.popped[1]);
    }
  }

  lemma TwoDistinct(f: Frames)
    requires f.Valid() && |Allocate(f, 2).popped| == 2
    ensures Allocate(f, 2).popped[0] != Allocate(f, 2).popped[1]
  {
    AllocateDistinct(f, 0, 2, 0, 1);
  }

  /**
   The second turn of the loop reads slot 1 of the result array, which the table that the
   first turn may allocate does not overwrite. A refused allocation or mapping stops the
   growth; the source goes on. Whether there is one is settled by the frames and the tables.
   */
  method MapHeapPages(m: Mmu, mallocVaddress: word) returns (ok: bool, ghost f0: Frame, ghost f1: Frame)
    requires m.Valid() && m.Usable(m.kernelPd) && m.currentPd == m.kernelPd
    requires mallocVaddress % PAGE_FRAME_SIZE == 0 && mallocVaddress + 2 * PAGE_FRAME_SIZE <= TWO_32
    requires NotWindow(GrowthPage(mallocVaddress, 0)) && NotWindow(GrowthPage(mallocVaddress, 1))
    modifies m`ram, m`window
    modifies m.frames`lastAllocatedIndex, m.frames`topIndex, m.frames`f
    modifies m.frames.bitMap, m.frames.stack, m.frames.allocatedPageFrames
    ensures m.Valid() && m.Usable(m.kernelPd)
    ensures old(m.frames.f).Valid() && m.frames.f.Valid() &&
            Turn(ok, SupplyOf(m.ram, m.kernelPd, m.frames.f)) ==
            ForGrowth(SupplyOf(old(m.ram), m.kernelPd, old(m.frames.f)), mallocVaddress, 0)
    ensures Get(m.ram, m.kernelPt, KERNEL_TMP_PT_IDX) == old(Get(m.ram, m.kernelPt, KERNEL_TMP_PT_IDX))
    ensures ok ==> Grown(old(m.ram), m.ram, m.kernelPd, mallocVaddress, f0, f1)
    ensures ok ==> var o := Allocate(old(m.frames.f), 2);
      && o.ok && |o.popped| == 2
      && f0 == Phys(m.frames.startOffset, o.popped[0]) && f1 == Phys(m.frames.startOffset, o.popped[1])
    ensures ok ==> Taken(m.frames.startOffset, old(m.frames.f), m.frames.f, f0)
    ensures ok ==> Taken(m.frames.startOffset, old(m.frames.f), m.frames.f, f1)
    ensures ok ==> GrownForUser(old(m.ram), m.ram, m.kernelPd, mallocVaddress)
    ensures Undisturbed(old(m.ram), m.ram, m.kernelPd, mallocVaddress)
    ensures Discreet(old(m.ram), m.ram, m.kernelPd, m.frames.startOffset, old(m.frames.f), m.frames.f)
  {
    hide Get, Present, MappedWritable, KeepsMapped, Walk, PdIdx, PtIdx, Outside, Reserved, WellFormed, WindowHome,
      FrameAllocator.Valid, Allocate, Frames.Avail, KeepsOutside, KeepsWritable, KeepsContents, Phys, Granting,
      Undisturbed, Discreet, Taken, ForTable, SupplyOf, GrowthPage, Progress, Frames.Valid,
      UserAfter, UserReaches, HasUser, GrownForUser;
    f0, f1 := 0, 0;
    m.frames.ValidParts();
    ghost var f, start, r := m.frames.f, m.frames.startOffset, m.ram;
    TwoTaken(r, m.kernelPd, m.kernelPt, start, f);
    StartUndisturbed(r, m.kernelPd, mallocVaddress);
    TakenByPair(r, m.kernelPd, start, f);
    TwoPageFrames();
    GrowthPagesApart(mallocVaddress);
    var numPageFrames := DivCeil(HeapSpec.NALLOC * HEADER_SIZE, PAGE_FRAME_SIZE);
    var mallocPaddress := m.frames.PfAllocateFrames(numPageFrames);
    m.frames.ValidParts();
    ghost var s0 := SupplyOf(r, m.kernelPd, m.frames.f);
    SupplyAfter(r, m.kernelPd, f, m.frames.f);
    if mallocPaddress == null { return false, 0, 0; }
    ghost var k0, k1 := Allocate(f, 2).popped[0], Allocate(f, 2).popped[1];
    f0, f1 := Phys(start, k0), Phys(start, k1);
    PhysIs(start, k0);
    PhysIs(start, k1);
    StartProgress(r, m.kernelPd, mallocVaddress, f0, f1);
    var virt: word := mallocVaddress;
    for i := 0 to numPageFrames
      invariant m.Valid() && m.Usable(m.kernelPd) && virt == GrowthPage(mallocVaddress, i)
      invariant m.frames.f.Valid() && s0.f.Valid()
      invariant Turn(true, SupplyOf(m.ram, m.kernelPd, m.frames.f)) == ForPages(s0, mallocVaddress, 0, i)
      invariant Get(m.ram, m.kernelPt, KERNEL_TMP_PT_IDX) == Get(r, m.kernelPt, KERNEL_TMP_PT_IDX)
      invariant Held(m.frames.f, |f.bits|, k0) && Held(m.frames.f, |f.bits|, k1)
      invariant Outside(m.ram, m.kernelPd, f0) && Outside(m.ram, m.kernelPd, f1)
      invariant (i == 0 ==> mallocPaddress[0] / PAGE == f0) && (i <= 1 ==> mallocPaddress[1] / PAGE == f1)
      invariant Progress(r, m.ram, m.kernelPd, mallocVaddress, i, f0, f1)
      invariant Opened(r, m.ram, m.kernelPd, mallocVaddress, i)
      invariant Undisturbed(r, m.ram, m.kernelPd, mallocVaddress)
      invariant Discreet(r, m.ram, m.kernelPd, start, f, m.frames.f)
    {
      ghost var s, g := m.ram, m.frames.f;
      var res, t := MapHeapPage(m, mallocPaddress[i] / PAGE_FRAME_SIZE, virt);
      StepDiscreet(r, s, m.ram, m.kernelPd, virt, start, f, g, m.frames.f, res, t);
      StepPages(s0, mallocVaddress, i);
      if !res { return false, 0, 0; }
      GrantNotHeld(s, m.kernelPd, virt, start, g, m.frames.f, true, t, k0);
      GrantNotHeld(s, m.kernelPd, virt, start, g, m.frames.f, true, t, k1);
      StaysOutside(s, m.ram, m.kernelPd, virt, t, f0);
      StaysOutside(s, m.ram, m.kernelPd, virt, t, f1);
      ProgressStep(r, s, m.ram, m.kernelPd, mallocVaddress, i, f0, f1);
      StepOpened(r, s, m.ram, m.kernelPd, mallocVaddress, i, f0, f1);
      StepUndisturbed(r, s, m.ram, m.kernelPd, mallocVaddress, i);
      PageOffset(mallocVaddress, i, 1);
      NextVirt(virt);
      virt := Wrap(virt + PAGE_FRAME_SIZE);
    }
    EndProgress(r, m.ram, m.kernelPd, mallocVaddress, f0, f1);
    HeldTaken(start, f, m.frames.f, k0);
    HeldTaken(start, f, m.frames.f, k1);
    return true, f0, f1;
  }

  lemma NextVirt(v: word)
    ensures GrowthPage(v, 1) == Wrap(v + PAGE_FRAME_SIZE)
  {
  }

  /** The user's access after i turns of the loop. */
  ghost predicate Opened(r: Ram, s: Ram, pd: Frame, v: word, i: nat) {
    && (i == 0 ==> s == r)
    && (i == 1 ==> UserAfter(r, s, pd, PdIdx(GrowthPage(v, 0)), PtIdx(GrowthPage(v, 0))))
    && (i == 2 ==> GrownForUser(r, s, pd, v))
  }

  lemma StepOpened(r: Ram, s: Ram, s': Ram, pd: Frame, v: word, i: nat, f0: Frame, f1: Frame)
    requires v % PAGE_FRAME_SIZE == 0 && v + 2 * PAGE_FRAME_SIZE <= TWO_32 && i < 2
    requires Opened(r, s, pd, v, i) && UserAfter(s, s', pd, PdIdx(GrowthPage(v, i)), PtIdx(GrowthPage(v, i)))
    requires Progress(r, s', pd, v, i + 1, f0, f1)
    ensures Opened(r, s', pd, v, i + 1)
  {
    hide UserAfter, GrownForUser, MappedWritable, GrowthPage, PdIdx, PtIdx, SameIfMapped;
    if i == 1 { TwoTurnsForUser(r, s, s', pd, v, f0, f1); }
  }

  lemma StepPages(s: Supply, v: word, i: nat)
    requires s.f.Valid() && i < 2 && ForPages(s, v, 0, i).ok
    ensures ForPages(s, v, 0, i + 1) == ForTable(ForPages(s, v, 0, i).s, PdIdx(GrowthPage(v, i)))
    ensures !ForPages(s, v, 0, i + 1).ok ==> ForPages(s, v, 0, 2) == ForPages(s, v, 0, i + 1)
  {
    hide ForTable, GrowthPage, PdIdx, Frames.Valid;
  }

  lemma SupplyAfter(r: Ram, pd: Frame, f: Frames, f': Frames)
    requires f.Valid() && f' == Allocate(f, 2).after
    ensures f'.Valid()
    ensures var s0 := SupplyOf(r, pd, f');
      ForGrowth(SupplyOf(r, pd, f), 0, 0).s.f.Valid() &&
      forall v: word :: ForGrowth(SupplyOf(r, pd, f), v, 0) ==
        if Allocate(f, 2).ok then ForPages(s0, v, 0, 2) else Turn(false, s0)
  {
    hide ForPages, Allocate;
    AllocateEffect(f, 2, 0);
  }

  lemma StartProgress(r: Ram, pd: Frame, v: word, f0: Frame, f1: Frame)
    ensures Progress(r, r, pd, v, 0, f0, f1)
  {
    hide MappedWritable, Walk, PdIdx, PtIdx, GrowthPage;
  }

  lemma EndProgress(r: Ram, s: Ram, pd: Frame, v: word, f0: Frame, f1: Frame)
    requires Progress(r, s, pd, v, 2, f0, f1) && f0 != f1 && Outside(s, pd, f0) && Outside(s, pd, f1)
    ensures Grown(r, s, pd, v, f0, f1)
  {
    hide MappedWritable, Walk, PdIdx, PtIdx, GrowthPage, Outside, SameIfMapped;
  }

  /** Frame x was available before and is not any more. */
  ghost predicate Taken(start: word, f: Frames, f': Frames, x: Frame) {
    WasAvail(start, f, x) && !WasAvail(start, f', x)
  }

  /** Every writable page outside the growth stays writable on its frame. */
  ghost predicate Undisturbed(r: Ram, s: Ram, pd: Frame, v: word) {
    var v0, v1 := GrowthPage(v, 0), GrowthPage(v, 1);
    forall e: Index, j: Index, pa: Frame ::
      OtherPage(v0, e, j) && OtherPage(v1, e, j) && MappedWritable(r, pd, e, j, pa) ==> MappedWritable(s, pd, e, j, pa)
  }

  /**
   No frame becomes available, and of the frames outside the directory only available ones
   become tables or are written.
   */
  ghost predicate Discreet(r: Ram, s: Ram, pd: Frame, start: word, f: Frames, f': Frames) {
    && (forall x: Frame :: WasAvail(start, f', x) ==> WasAvail(start, f, x))
    && (forall x: Frame :: Outside(r, pd, x) && !WasAvail(start, f, x) ==> Outside(s, pd, x) && s[x] == r[x])
  }

  lemma StartUndisturbed(r: Ram, pd: Frame, v: word)
    ensures Undisturbed(r, r, pd, v)
  {
    hide MappedWritable, GrowthPage;
  }

  lemma StepUndisturbed(r: Ram, s: Ram, s': Ram, pd: Frame, v: word, i: nat)
    requires v % PAGE_FRAME_SIZE == 0 && v + 2 * PAGE_FRAME_SIZE <= TWO_32 && i < 2
    requires Undisturbed(r, s, pd, v)
    requires var w := GrowthPage(v, i); KeepsWritable(s, s', pd, PdIdx(w), PtIdx(w))
    ensures Undisturbed(r, s', pd, v)
  {
    hide MappedWritable, GrowthPage, PdIdx, PtIdx;
  }

  lemma TakenByPair(r: Ram, pd: Frame, start: word, f: Frames)
    requires f.Valid()
    ensures Discreet(r, r, pd, start, f, Allocate(f, 2).after)
  {
    hide Allocate, Frames.Avail, Outside;
    forall x: Frame | WasAvail(start, Allocate(f, 2).after, x) ensures WasAvail(start, f, x) {
      var k: nat :| Allocate(f, 2).after.Avail(k) && x == Phys(start, k);
      AllocateEffect(f, 2, k);
    }
  }

  lemma StepDiscreet(r: Ram, s: Ram, s': Ram, pd: Frame, va: word, start: word,
                     f: Frames, g: Frames, g': Frames, ok: bool, t: Frame)
    requires g.Valid() && Granting(s, pd, va, start, g, g', ok, t)
    requires if ok then KeepsOutside(s, s', pd, PdIdx(va), t) && KeepsContents(s, s', pd, PdIdx(va), t) else s' == s
    requires Discreet(r, s, pd, start, f, g)
    ensures Discreet(r, s', pd, start, f, g')
  {
    hide Allocate, Frames.Avail, Outside, Present, Phys;
    forall x: Frame | WasAvail(start, g', x) ensures WasAvail(start, g, x) {
      var k: nat :| g'.Avail(k) && x == Phys(start, k);
      AllocateEffect(g, 1, k);
    }
    if ok && !Present(Get(s, pd, PdIdx(va))) {
      AllocateEffect(g, 1, Allocate(g, 1).popped[0]);
      assert WasAvail(start, g, t);
    }
  }

  lemma HeldTaken(start: word, f: Frames, f': Frames, k: nat)
    requires Held(f', |f.bits|, k) && f.Avail(k)
    requires start % PAGE == 0 && start + PAGE * |f.bits| <= TWO_32
    ensures Taken(start, f, f', Phys(start, k))
  {
    hide Phys;
    forall j: nat | f'.Avail(j) ensures Phys(start, j) != Phys(start, k) {
      PhysInjective(start, j, k);
    }
  }

  lemma PhysIs(start: word, k: nat)
    ensures Phys(start, k) == AddressOf(start, k) / PAGE
  {
  }

  ghost predicate Held(f: Frames, n: nat, k: nat) {
    k < |f.bits| == n && !f.Avail(k)
  }

  lemma StaysOutside(r: Ram, s: Ram, pd: Frame, v: word, t: Frame, x: Frame)
    requires KeepsOutside(r, s, pd, PdIdx(v), t) && Outside(r, pd, x)
    requires !Present(Get(r, pd, PdIdx(v))) ==> t != x
    ensures Outside(s, pd, x)
  {
    hide Outside, Present;
  }

  /** After i turns: the first i pages are mapped and writable, the other pages keep their frames. */
  ghost predicate Progress(r: Ram, s: Ram, pd: Frame, v: word, i: nat, f0: Frame, f1: Frame) {
    var v0, v1 := GrowthPage(v, 0), GrowthPage(v, 1);
    && (i >= 1 ==> MappedWritable(s, pd, PdIdx(v0), PtIdx(v0), f0))
    && (i >= 2 ==> MappedWritable(s, pd, PdIdx(v1), PtIdx(v1), f1))
    && forall e: Index, j: Index :: OtherPage(v0, e, j) && OtherPage(v1, e, j) ==> SameIfMapped(r, s, pd, e, j)
  }

  ghost predicate OtherPage(v: word, e: Index, j: Index) {
    e != PdIdx(v) || j != PtIdx(v)
  }

  ghost predicate SameIfMapped(r: Ram, s: Ram, pd: Frame, e: Index, j: Index) {
    Walk(r, pd, e, j).Mapped? ==> Walk(s, pd, e, j) == Walk(r, pd, e, j)
  }

  lemma ProgressStep(r: Ram, s: Ram, s': Ram, pd: Frame, v: word, i: nat, f0: Frame, f1: Frame)
    requires v % PAGE_FRAME_SIZE == 0 && v + 2 * PAGE_FRAME_SIZE <= TWO_32 && i < 2
    requires Progress(r, s, pd, v, i, f0, f1)
    requires var w := GrowthPage(v, i);
      && MappedWritable(s', pd, PdIdx(w), PtIdx(w), if i == 0 then f0 else f1)
      && KeepsMapped(s, s', pd, PdIdx(w), PtIdx(w)) && KeepsWritable(s, s', pd, PdIdx(w), PtIdx(w))
    ensures Progress(r, s', pd, v, i + 1, f0, f1)
  {
    hide MappedWritable, Walk, PdIdx, PtIdx, GrowthPage;
    GrowthPagesApart(v);
    var v0, v1 := GrowthPage(v, 0), GrowthPage(v, 1);
    forall e: Index, j: Index | OtherPage(v0, e, j) && OtherPage(v1, e, j) ensures SameIfMapped(r, s', pd, e, j) {
      assert SameIfMapped(r, s, pd, e, j);
    }
  }

  /**
   Both pages of the growth are mapped, writable, each to its own frame; the frames are no
   tables; and no page mapped before has moved.
   */
  ghost predicate Grown(r: Ram, s: Ram, pd: Frame, v: word, f0: Frame, f1: Frame) {
    var v0, v1 := GrowthPage(v, 0), GrowthPage(v, 1);
    && f0 != f1
    && MappedWritable(s, pd, PdIdx(v0), PtIdx(v0), f0) && MappedWritable(s, pd, PdIdx(v1), PtIdx(v1), f1)
    && Outside(s, pd, f0) && Outside(s, pd, f1)
    && forall e: Index, j: Index :: OtherPage(v0, e, j) && OtherPage(v1, e, j) ==> SameIfMapped(r, s, pd, e, j)
  }

  /** A growth moves no mapped page exactly when its own two were unmapped, or on these frames already. */
  lemma GrowthMovesNothing(r: Ram, s: Ram, pd: Frame, v: word, f0: Frame, f1: Frame)
    requires v % PAGE_FRAME_SIZE == 0 && v + 2 * PAGE_FRAME_SIZE <= TWO_32
    requires Grown(r, s, pd, v, f0, f1)
    ensures var v0, v1 := GrowthPage(v, 0), GrowthPage(v, 1);
      (forall e: Index, j: Index :: SameIfMapped(r, s, pd, e, j)) <==>
        (Walk(r, pd, PdIdx(v0), PtIdx(v0)) == Unmapped || Walk(r, pd, PdIdx(v0), PtIdx(v0)) == Mapped(f0)) &&
        (Walk(r, pd, PdIdx(v1), PtIdx(v1)) == Unmapped || Walk(r, pd, PdIdx(v1), PtIdx(v1)) == Mapped(f1))
  {
    hide Walk, PdIdx, PtIdx, GrowthPage, Outside, Present, Get;
    var v0, v1 := GrowthPage(v, 0), GrowthPage(v, 1);
    assert SameIfMapped(r, s, pd, PdIdx(v0), PtIdx(v0)) <==>
      (Walk(r, pd, PdIdx(v0), PtIdx(v0)) == Unmapped || Walk(r, pd, PdIdx(v0), PtIdx(v0)) == Mapped(f0));
    assert SameIfMapped(r, s, pd, PdIdx(v1), PtIdx(v1)) <==>
      (Walk(r, pd, PdIdx(v1), PtIdx(v1)) == Unmapped || Walk(r, pd, PdIdx(v1), PtIdx(v1)) == Mapped(f1));
    forall e: Index, j: Index | OtherPage(v0, e, j) && OtherPage(v1, e, j) ensures SameIfMapped(r, s, pd, e, j) {
    }
  }

  // ----- all pages of the heap --------------------------------------------------------

  /** Page j of a heap at v is writable on frame x, which is in no other use. */
  ghost predicate BackedPage(r: Ram, pd: Frame, start: word, f: Frames, v: word, j: nat, x: Frame) {
    var w := GrowthPage(v, j);
    MappedWritable(r, pd, PdIdx(w), PtIdx(w), x) && Outside(r, pd, x) && !WasAvail(start, f, x)
  }

  ghost predicate Backed(r: Ram, pd: Frame, start: word, f: Frames, v: word, backing: seq<Frame>) {
    && (forall j :: 0 <= j < |backing| ==> BackedPage(r, pd, start, f, v, j, backing[j]))
    && (forall i, j :: 0 <= i < j < |backing| ==> backing[i] != backing[j])
  }

  lemma SamePage(a: word, b: word)
    requires PdIdx(a) == PdIdx(b) && PtIdx(a) == PtIdx(b)
    ensures a / 0x1000 == b / 0x1000
  {
    assert a / 0x40_0000 == a / 0x1000 / 1024 && b / 0x40_0000 == b / 0x1000 / 1024;
  }

  lemma SamePageNumber(a: word, b: word)
    requires a / 0x1000 == b / 0x1000
    ensures PdIdx(a) == PdIdx(b) && PtIdx(a) == PtIdx(b)
  {
    assert a / 0x40_0000 == a / 0x1000 / 1024 && b / 0x40_0000 == b / 0x1000 / 1024;
  }

  lemma GrowthPageIs(v: word, k: nat)
    requires v % PAGE_FRAME_SIZE == 0 && v + PAGE_FRAME_SIZE * k < TWO_32
    ensures GrowthPage(v, k) == v + PAGE_FRAME_SIZE * k
    ensures GrowthPage(v, k) % PAGE_FRAME_SIZE == 0 && GrowthPage(v, k) / PAGE_FRAME_SIZE == v / PAGE_FRAME_SIZE + k
  {
  }

  lemma HeapPagesApart(v: word, n: nat, j: nat, k: nat)
    requires v % PAGE_FRAME_SIZE == 0 && v + PAGE_FRAME_SIZE * (n + 2) <= TWO_32 && j < n && k < 2
    ensures GrowthPage(GrowthPage(v, n), k) == GrowthPage(v, n + k)
    ensures OtherPage(GrowthPage(v, n + k), PdIdx(GrowthPage(v, j)), PtIdx(GrowthPage(v, j)))
  {
    hide GrowthPage, PdIdx, PtIdx;
    GrowthPageIs(v, n);
    GrowthPageIs(GrowthPage(v, n), k);
    GrowthPageIs(v, n + k);
    GrowthPageIs(v, j);
    var a, b := GrowthPage(v, n + k), GrowthPage(v, j);
    if PdIdx(a) == PdIdx(b) && PtIdx(a) == PtIdx(b) { SamePage(a, b); }
  }

  lemma BackedStays(r: Ram, s: Ram, pd: Frame, start: word, f: Frames, f': Frames, v: word, backing: seq<Frame>)
    requires v % PAGE_FRAME_SIZE == 0 && v + PAGE_FRAME_SIZE * (|backing| + 2) <= TWO_32
    requires Backed(r, pd, start, f, v, backing)
    requires Undisturbed(r, s, pd, GrowthPage(v, |backing|)) && Discreet(r, s, pd, start, f, f')
    ensures Backed(s, pd, start, f', v, backing)
    ensures forall j :: 0 <= j < |backing| ==> s[backing[j]] == r[backing[j]]
  {
    hide MappedWritable, Outside, WasAvail, PdIdx, PtIdx, GrowthPage, OtherPage;
    forall j | 0 <= j < |backing| ensures BackedPage(s, pd, start, f', v, j, backing[j]) {
      HeapPagesApart(v, |backing|, j, 0);
      HeapPagesApart(v, |backing|, j, 1);
      assert BackedPage(r, pd, start, f, v, j, backing[j]);
    }
  }

  lemma BackedGrows(r: Ram, s: Ram, pd: Frame, start: word, f: Frames, f': Frames, v: word, backing: seq<Frame>,
                    f0: Frame, f1: Frame)
    requires v % PAGE_FRAME_SIZE == 0 && v + PAGE_FRAME_SIZE * (|backing| + 2) <= TWO_32
    requires Backed(r, pd, start, f, v, backing) && Backed(s, pd, start, f', v, backing)
    requires Grown(r, s, pd, GrowthPage(v, |backing|), f0, f1)
    requires Taken(start, f, f', f0) && Taken(start, f, f', f1)
    ensures Backed(s, pd, start, f', v, backing + [f0, f1])
  {
    hide MappedWritable, Outside, WasAvail, PdIdx, PtIdx, GrowthPage, OtherPage, SameIfMapped;
    var b, n := backing + [f0, f1], |backing|;
    NextPages(v, n);
    assert BackedPage(s, pd, start, f', v, n, f0) && BackedPage(s, pd, start, f', v, n + 1, f1);
    forall j | 0 <= j < |b| ensures BackedPage(s, pd, start, f', v, j, b[j]) {
      if j < n { assert b[j] == backing[j]; }
    }
    forall j | 0 <= j < n ensures backing[j] != f0 && backing[j] != f1 {
      assert BackedPage(r, pd, start, f, v, j, backing[j]);
    }
  }

  lemma NextPages(v: word, n: nat)
    requires v % PAGE_FRAME_SIZE == 0 && v + PAGE_FRAME_SIZE * (n + 2) <= TWO_32
    ensures GrowthPage(GrowthPage(v, n), 0) == GrowthPage(v, n)
    ensures GrowthPage(GrowthPage(v, n), 1) == GrowthPage(v, n + 1)
  {
  }

  /** A heap that ends below the window's page never maps it. */
  lemma HeapBelowWindow(v: word, base: nat)
    requires v % PAGE_FRAME_SIZE == 0 && v + 2 * PAGE_FRAME_SIZE < 8 * base <= KERNEL_TEMP_VADDR
    ensures NotWindow(GrowthPage(v, 0)) && NotWindow(GrowthPage(v, 1))
  {
    BelowWindow(v);
    BelowWindow(v + PAGE_FRAME_SIZE);
  }

  lemma BelowWindow(w: word)
    requires w < KERNEL_TEMP_VADDR
    ensures NotWindow(w)
  {
  }
}
