/**
 Sequences of kernel_map_page calls: what they leave of a process directory's view of the
 kernel, and what a later search for free pages makes of them.
 */
module SharedTables {
  import opened Entries
  import opened PagingSpec
  import opened PagingTheorems
  import opened Paging
  import opened Utilities
  import opened FrameSpec
  import opened FrameTheorems

  /** The kernel's directory and table, and where the managed frames start. */
  datatype Kernel = Kernel(pd: Frame, pt: Frame, start: word)

  datatype Call = Call(va: word, pa: Frame, isUser: bool)

  /** The state in which kernel_map_page may be called, as Mmu.Valid and Mmu.Usable say. */
  ghost predicate Good(k: Kernel, m: Machine) {
    && m.f.Valid() && FramesInSpace(k.start, |m.f.bits|)
    && k.pd != k.pt && WellFormed(m.r, k.pd) && WindowHome(m.r, k.pd, k.pt)
    && Reserved(m.r, k.pd, k.pt, k.start, m.f)
  }

  ghost function After(k: Kernel, m: Machine, c: Call): Machine
    requires m.f.Valid()
  {
    KernelMap(m, k.pd, k.start, c.va, c.pa, c.isUser).0
  }

  ghost predicate Served(k: Kernel, m: Machine, c: Call)
    requires m.f.Valid()
  {
    KernelMap(m, k.pd, k.start, c.va, c.pa, c.isUser).1
  }

  /** The table that a served call edits: the one there, or a frame that was available. */
  ghost function TableOf(k: Kernel, m: Machine, c: Call): Frame
    requires m.f.Valid()
  {
    AllocateSucceeds(m.f, 1);
    var pde := Get(m.r, k.pd, PdIdx(c.va));
    if Present(pde) then pde.frame
    else if Allocate(m.f, 1).ok then Phys(k.start, Allocate(m.f, 1).popped[0])
    else 0
  }

  lemma AvailShrinks(start: word, f: Frames, x: Frame)
    requires f.Valid()
    ensures Allocate(f, 1).after.Valid() && |Allocate(f, 1).after.bits| == |f.bits|
    ensures WasAvail(start, Allocate(f, 1).after, x) ==> WasAvail(start, f, x)
  {
    hide Allocate, Frames.Avail, Phys;
    AllocateEffect(f, 1, 0);
    if WasAvail(start, Allocate(f, 1).after, x) {
      var j: nat :| Allocate(f, 1).after.Avail(j) && x == Phys(start, j);
      AllocateEffect(f, 1, j);
    }
  }

  lemma PoppedWasAvail(start: word, f: Frames)
    requires f.Valid() && Allocate(f, 1).ok
    ensures |Allocate(f, 1).popped| == 1 && WasAvail(start, f, Phys(start, Allocate(f, 1).popped[0]))
  {
    hide Allocate, Frames.Avail, Phys;
    AllocateSucceeds(f, 1);
    AllocateEffect(f, 1, Allocate(f, 1).popped[0]);
  }

  lemma CallGood(k: Kernel, m: Machine, c: Call)
    requires Good(k, m)
    ensures Good(k, After(k, m, c))
    ensures !Served(k, m, c) ==> After(k, m, c).r == m.r
    ensures Served(k, m, c) ==>
      && FreshTable(m.r, k.pd, PdIdx(c.va), TableOf(k, m, c))
      && After(k, m, c).r == Map(m.r, k.pd, PdIdx(c.va), PtIdx(c.va), c.pa, c.isUser, TableOf(k, m, c))
  {
    hide Allocate, Present, Get, MapOld, MapNew, Phys, Frames.Avail, WellFormed, WindowHome, Reserved, IsTable;
    var d, i := PdIdx(c.va), PtIdx(c.va);
    AvailShrinks(k.start, m.f, 0);
    if Present(Get(m.r, k.pd, d)) {
      MapOldUsable(m.r, k.pd, k.pt, k.start, m.f, d, i, c.pa, c.isUser);
    } else if Allocate(m.f, 1).ok {
      MapNewUsable(m.r, k.pd, k.pt, k.start, m.f, d, i, c.pa, c.isUser);
    } else {
      ReservedShrinks(m.r, k.pd, k.pt, k.start, m.f);
    }
  }

  lemma CallAvail(k: Kernel, m: Machine, c: Call, x: Frame)
    requires Good(k, m)
    ensures After(k, m, c).f.Valid()
    ensures WasAvail(k.start, After(k, m, c).f, x) ==> WasAvail(k.start, m.f, x)
    ensures Served(k, m, c) && !Present(Get(m.r, k.pd, PdIdx(c.va))) ==> WasAvail(k.start, m.f, TableOf(k, m, c))
  {
    hide Allocate, Present, Get, MapOld, MapNew, Phys, Frames.Avail, WellFormed, WindowHome, Reserved, WasAvail;
    AvailShrinks(k.start, m.f, x);
    if Allocate(m.f, 1).ok { PoppedWasAvail(k.start, m.f); }
  }

  /** Frame x is in use, but not by the kernel directory: that of a directory that create_pdt made. */
  ghost predicate Private(k: Kernel, m: Machine, x: Frame) {
    Outside(m.r, k.pd, x) && !WasAvail(k.start, m.f, x)
  }

  lemma CallPrivate(k: Kernel, m: Machine, c: Call, x: Frame)
    requires Good(k, m) && Private(k, m, x)
    ensures Private(k, After(k, m, c), x)
    ensures !Present(Get(m.r, k.pd, PdIdx(c.va))) && Served(k, m, c) ==> TableOf(k, m, c) != x
  {
    hide Present, Get, Map, KernelMap, TableOf, WasAvail, Outside, Reserved, WellFormed, WindowHome, FreshTable;
    CallGood(k, m, c);
    CallAvail(k, m, c, x);
    if Served(k, m, c) {
      MapKeepsOutside(m.r, k.pd, PdIdx(c.va), PtIdx(c.va), c.pa, c.isUser, TableOf(k, m, c), x);
    }
  }

  // ----- sequences of calls -----------------------------------------------------------

  ghost function AfterAll(k: Kernel, m: Machine, cs: seq<Call>): (m': Machine)
    requires Good(k, m)
    ensures Good(k, m')
  {
    if cs == [] then m
    else
      var front := AfterAll(k, m, cs[..|cs| - 1]);
      CallGood(k, front, cs[|cs| - 1]);
      After(k, front, cs[|cs| - 1])
  }

  ghost predicate AllServed(k: Kernel, m: Machine, cs: seq<Call>)
    requires Good(k, m)
  {
    cs != [] ==>
      && AllServed(k, m, cs[..|cs| - 1])
      && Served(k, AfterAll(k, m, cs[..|cs| - 1]), cs[|cs| - 1])
  }

  lemma {:induction false} AllKeepShares(k: Kernel, m: Machine, pdt: Frame, ds: set<nat>, cs: seq<Call>)
    requires Good(k, m) && Private(k, m, pdt) && Shares(m.r, k.pd, pdt, ds)
    ensures Private(k, AfterAll(k, m, cs), pdt) && Shares(AfterAll(k, m, cs).r, k.pd, pdt, ds)
    decreases |cs|
  {
    hide Present, Get, Map, KernelMap, TableOf, Private, Shares, Good, FreshTable;
    if cs != [] {
      var front, c := AfterAll(k, m, cs[..|cs| - 1]), cs[|cs| - 1];
      AllKeepShares(k, m, pdt, ds, cs[..|cs| - 1]);
      CallGood(k, front, c);
      CallPrivate(k, front, c, pdt);
      CallKeepsShares(k, front, pdt, ds, c);
    }
  }

  lemma CallKeepsShares(k: Kernel, m: Machine, pdt: Frame, ds: set<nat>, c: Call)
    requires Good(k, m) && Private(k, m, pdt) && Shares(m.r, k.pd, pdt, ds)
    ensures Shares(After(k, m, c).r, k.pd, pdt, ds)
  {
    hide Present, Get, Map, KernelMap, TableOf, Private, Shares, FreshTable, WellFormed, WindowHome, Reserved;
    CallGood(k, m, c);
    CallPrivate(k, m, c, pdt);
    if Served(k, m, c) {
      MapKeepsShares(m.r, k.pd, pdt, ds, PdIdx(c.va), PtIdx(c.va), c.pa, c.isUser, TableOf(k, m, c));
    }
  }

  /**
   Whatever the kernel maps after the load, both directories keep translating alike at every
   entry that was shared then.
   */
  lemma SharingLasts(k: Kernel, m: Machine, pdt: Frame, ds: set<nat>, cs: seq<Call>, d: Index, i: Index)
    requires Good(k, m) && Private(k, m, pdt) && Shares(m.r, k.pd, pdt, ds) && d in ds
    ensures Walk(AfterAll(k, m, cs).r, pdt, d, i) == Walk(AfterAll(k, m, cs).r, k.pd, d, i)
  {
    hide Walk, Private, Shares, Good, KernelMap;
    AllKeepShares(k, m, pdt, ds, cs);
    SharedWalk(AfterAll(k, m, cs).r, k.pd, pdt, ds, d, i);
  }

  /** Loading a process directory leaves the kernel's own tables as they are. */
  lemma LoadGood(k: Kernel, m: Machine, pdt: Frame)
    requires Good(k, m) && Private(k, m, pdt)
    ensures var m' := m.(r := Load(m.r, k.pd, pdt, KERNEL_PT_PDT_IDX)); Good(k, m') && Private(k, m', pdt)
  {
    hide Present, Get, Load, WasAvail, Frames.Avail, Frames.Valid, Phys;
    var r' := Load(m.r, k.pd, pdt, KERNEL_PT_PDT_IDX);
    forall d: Index ensures Get(r', k.pd, d) == Get(m.r, k.pd, d) {
    }
  }

  /**
   A process directory that create_pdt made and load_process_pdt loaded translates every page
   of the kernel half whose table was there at the load as the kernel does, now and after any
   further calls of kernel_map_page.
   */
  lemma KernelHalfShared(k: Kernel, m: Machine, pdt: Frame, cs: seq<Call>, d: Index, i: Index)
    requires Good(k, m) && Private(k, m, pdt)
    requires KERNEL_PT_PDT_IDX <= d && Present(Get(m.r, k.pd, d))
    ensures var m1 := m.(r := Load(m.r, k.pd, pdt, KERNEL_PT_PDT_IDX));
      Good(k, m1) && Walk(AfterAll(k, m1, cs).r, pdt, d, i) == Walk(AfterAll(k, m1, cs).r, k.pd, d, i)
  {
    hide Walk, Present, Get, Load, Shares, Good, KernelMap;
    LoadGood(k, m, pdt);
    LoadShares(m.r, k.pd, pdt, {d});
    SharingLasts(k, m.(r := Load(m.r, k.pd, pdt, KERNEL_PT_PDT_IDX)), pdt, {d}, cs, d, i);
  }

  /**
   Exactly when the process sees a page that the kernel maps, with u the table that the call
   edits: when its own entry there leads to u, or leads elsewhere and had the page on that
   frame already. A new directory is not cleared, so its entries may lead anywhere.
   */
  lemma SeenByProcess(k: Kernel, m: Machine, pdt: Frame, c: Call)
    requires Good(k, m) && Private(k, m, pdt) && Served(k, m, c)
    ensures var r', d, i := After(k, m, c).r, PdIdx(c.va), PtIdx(c.va);
      var e, u := Get(m.r, pdt, d), TableOf(k, m, c);
      && Walk(r', k.pd, d, i) == Mapped(c.pa)
      && (Walk(r', pdt, d, i) == Mapped(c.pa) <==>
          Present(e) &&
          (e.frame == u || (if e.frame == k.pd && i == d then u == c.pa else Walk(m.r, pdt, d, i) == Mapped(c.pa))))
  {
    hide Present, Get, Map, KernelMap, WasAvail, WellFormed, WindowHome, Reserved, FreshTable, IsTable, Walk, Allocate;
    CallGood(k, m, c);
    CallPrivate(k, m, c, pdt);
    SeenThrough(m.r, k.pd, pdt, PdIdx(c.va), PtIdx(c.va), c.pa, c.isUser, TableOf(k, m, c));
  }

  /** A mapping into a shared table is seen by the process. */
  lemma SharedMappingSeen(k: Kernel, m: Machine, pdt: Frame, c: Call)
    requires Good(k, m) && Private(k, m, pdt) && Served(k, m, c)
    requires SharesEntry(m.r, k.pd, pdt, PdIdx(c.va))
    ensures Walk(After(k, m, c).r, pdt, PdIdx(c.va), PtIdx(c.va)) == Mapped(c.pa)
  {
    hide KernelMap, Walk;
    SeenByProcess(k, m, pdt, c);
  }

  /** A mapping through a new table is not seen without an entry there, but is by a stale one that leads to it. */
  lemma NewTableNotSeen(k: Kernel, m: Machine, pdt: Frame, c: Call)
    requires Good(k, m) && Private(k, m, pdt) && Served(k, m, c)
    requires !Present(Get(m.r, k.pd, PdIdx(c.va)))
    ensures !Present(Get(m.r, pdt, PdIdx(c.va))) ==>
      Walk(After(k, m, c).r, pdt, PdIdx(c.va), PtIdx(c.va)) != Mapped(c.pa)
    ensures Present(Get(m.r, pdt, PdIdx(c.va))) && Get(m.r, pdt, PdIdx(c.va)).frame == TableOf(k, m, c) ==>
      Walk(After(k, m, c).r, pdt, PdIdx(c.va), PtIdx(c.va)) == Mapped(c.pa)
  {
    hide KernelMap, Walk;
    SeenByProcess(k, m, pdt, c);
  }

  // ----- mapping what a search found --------------------------------------------------

  /** The calls that map the pages from (d, i) on to the given frames. */
  function RangeCalls(d: Index, i: Index, pas: seq<Frame>, isUser: bool): seq<Call>
    requires i + |pas| <= ENTRIES
  {
    if pas == [] then []
    else RangeCalls(d, i, pas[..|pas| - 1], isUser) + [Call(PageAt(d, i + |pas| - 1), pas[|pas| - 1], isUser)]
  }

  /** A served call maps its page and unmaps none. */
  lemma CallMaps(k: Kernel, m: Machine, c: Call, d: Index, i: Index)
    requires Good(k, m)
    ensures Served(k, m, c) ==> Walk(After(k, m, c).r, k.pd, PdIdx(c.va), PtIdx(c.va)) == Mapped(c.pa)
    ensures Walk(m.r, k.pd, d, i).Mapped? && (d != PdIdx(c.va) || i != PtIdx(c.va)) ==>
      Walk(After(k, m, c).r, k.pd, d, i) == Walk(m.r, k.pd, d, i)
    ensures Walk(m.r, k.pd, d, i).Mapped? ==> Walk(After(k, m, c).r, k.pd, d, i).Mapped?
  {
    hide Map, KernelMap, TableOf, WellFormed, WindowHome, Reserved, FreshTable, Walk, PdIdx, PtIdx;
    CallGood(k, m, c);
    if Served(k, m, c) {
      var e, j, t := PdIdx(c.va), PtIdx(c.va), TableOf(k, m, c);
      MapWalks(m.r, k.pd, e, j, c.pa, c.isUser, t);
      if d != e || i != j { MapKeepsMapped(m.r, k.pd, e, j, c.pa, c.isUser, t, d, i); }
    }
  }

  lemma LastCall(d: Index, i: Index, pas: seq<Frame>, isUser: bool)
    requires i + |pas| <= ENTRIES && pas != []
    ensures var last := |pas| - 1;
      RangeCalls(d, i, pas, isUser) ==
      RangeCalls(d, i, pas[..last], isUser) + [Call(PageAt(d, i + last), pas[last], isUser)]
  {
  }

  lemma AfterSnoc(k: Kernel, m: Machine, cs: seq<Call>, c: Call)
    requires Good(k, m)
    ensures AfterAll(k, m, cs + [c]) == After(k, AfterAll(k, m, cs), c)
    ensures AllServed(k, m, cs + [c]) <==> AllServed(k, m, cs) && Served(k, AfterAll(k, m, cs), c)
  {
    hide KernelMap, Good;
    assert (cs + [c])[..|cs|] == cs;
  }

  lemma {:induction false} RangeMapped(k: Kernel, m: Machine, d: Index, i: Index, pas: seq<Frame>, isUser: bool,
                                       j: nat)
    requires Good(k, m) && i + |pas| <= ENTRIES && j < |pas|
    requires AllServed(k, m, RangeCalls(d, i, pas, isUser))
    ensures Walk(AfterAll(k, m, RangeCalls(d, i, pas, isUser)).r, k.pd, d, i + j) == Mapped(pas[j])
    decreases |pas|
  {
    hide Walk, KernelMap, PageAt, PdIdx, PtIdx, Good, RangeCalls, AfterAll, AllServed, After, Served;
    var last := |pas| - 1;
    var cs, c := RangeCalls(d, i, pas[..last], isUser), Call(PageAt(d, i + last), pas[last], isUser);
    LastCall(d, i, pas, isUser);
    AfterSnoc(k, m, cs, c);
    var front := AfterAll(k, m, cs);
    PageAtIndices(d, i + last);
    CallMaps(k, front, c, d, i + j);
    if j < last {
      RangeMapped(k, m, d, i, pas[..last], isUser, j);
    }
  }

  lemma {:induction false} StaysMapped(k: Kernel, m: Machine, cs: seq<Call>, d: Index, i: Index)
    requires Good(k, m) && Walk(m.r, k.pd, d, i).Mapped?
    ensures Walk(AfterAll(k, m, cs).r, k.pd, d, i).Mapped?
    decreases |cs|
  {
    hide Walk, KernelMap, PdIdx, PtIdx, Good;
    if cs != [] {
      StaysMapped(k, m, cs[..|cs| - 1], d, i);
      CallMaps(k, AfterAll(k, m, cs[..|cs| - 1]), cs[|cs| - 1], d, i);
    }
  }

  /**
   When the kernel has mapped the range that a search found, page by page, then after any
   further mappings another search finds a disjoint range.
   */
  lemma SearchAfterCalls(k: Kernel, m: Machine, v: word, pas: seq<Frame>, isUser: bool, cs: seq<Call>,
                         n: nat, w: word)
    requires Good(k, m) && pas != [] && v != 0 && IsLowestRange(m.r, k.pd, |pas|, v)
    requires PtIdx(v) + |pas| <= ENTRIES ==> AllServed(k, m, RangeCalls(PdIdx(v), PtIdx(v), pas, isUser))
    ensures PtIdx(v) + |pas| <= ENTRIES
    ensures
      var m1 := AfterAll(k, m, RangeCalls(PdIdx(v), PtIdx(v), pas, isUser));
      n > 0 && w != 0 && IsLowestRange(AfterAll(k, m1, cs).r, k.pd, n, w) ==>
        w + 0x1000 * n <= v || v + 0x1000 * |pas| <= w
  {
    hide Walk, KernelMap, PageAt, PdIdx, PtIdx, Good, IsLowestRange;
    LowestInTable(m.r, k.pd, |pas|, v);
    var m1 := AfterAll(k, m, RangeCalls(PdIdx(v), PtIdx(v), pas, isUser));
    var s := AfterAll(k, m1, cs).r;
    forall j: Index | PtIdx(v) <= j < PtIdx(v) + |pas| ensures Walk(s, k.pd, PdIdx(v), j).Mapped? {
      RangeMapped(k, m, PdIdx(v), PtIdx(v), pas, isUser, j - PtIdx(v));
      StaysMapped(k, m1, cs, PdIdx(v), j);
    }
    if n > 0 && w != 0 && IsLowestRange(s, k.pd, n, w) {
      SearchAfterMapping(m.r, s, k.pd, |pas|, n, v, w);
    }
  }

  lemma LowestInTable(r: Ram, pd: Frame, n: nat, v: word)
    requires v != 0 && IsLowestRange(r, pd, n, v)
    ensures PtIdx(v) + n <= ENTRIES
  {
    hide Walk, PdIdx, PtIdx, PageAt;
    var d: Index, i: Index :| v == PageAt(d, i) && RangeFree(r, pd, d, i, n);
    PageAtIndices(d, i);
    RangeInTable(r, pd, d, i, n);
  }
}
