/**
 What growing the heap asks of the frame allocator: two frames a growth, and one for each
 directory entry that has no table yet. It depends on the frames and those entries alone.
 */
module FrameSupply {
  import opened Entries
  import opened PagingSpec
  import opened Paging
  import opened Utilities
  import opened FrameSpec
  import opened FrameTheorems

  const PAGE_FRAME_SIZE: word := 0x1000

  /** Page k of a range at v. */
  function GrowthPage(v: word, k: nat): word {
    Wrap(v + PAGE_FRAME_SIZE * k)
  }

  /** The frames, and the directory entries that have a table. */
  datatype Supply = Supply(f: Frames, tables: set<nat>)

  datatype Turn = Turn(ok: bool, s: Supply)

  function SupplyOf(r: Ram, pd: Frame, f: Frames): Supply {
    Supply(f, set d: nat | d < ENTRIES && Present(Get(r, pd, d)))
  }

  /** Mapping a page of directory entry d: one frame when the entry has no table. */
  function ForTable(s: Supply, d: nat): (t: Turn)
    requires s.f.Valid()
    ensures t.s.f.Valid()
  {
    AllocateEffect(s.f, 1, 0);
    if d in s.tables then Turn(true, s)
    else if Allocate(s.f, 1).ok then Turn(true, Supply(Allocate(s.f, 1).after, s.tables + {d}))
    else Turn(false, s.(f := Allocate(s.f, 1).after))
  }

  /** Mapping n pages from page p of v on. */
  function ForPages(s: Supply, v: word, p: nat, n: nat): (t: Turn)
    requires s.f.Valid()
    ensures t.s.f.Valid()
  {
    if n == 0 then Turn(true, s)
    else
      var t := ForPages(s, v, p, n - 1);
      if t.ok then ForTable(t.s, PdIdx(GrowthPage(v, p + n - 1))) else t
  }

  /** One growth, by pages p and p + 1 of v. */
  function ForGrowth(s: Supply, v: word, p: nat): (t: Turn)
    requires s.f.Valid()
    ensures t.s.f.Valid()
  {
    AllocateEffect(s.f, 2, 0);
    var s1 := s.(f := Allocate(s.f, 2).after);
    if Allocate(s.f, 2).ok then ForPages(s1, v, p, 2) else Turn(false, s1)
  }

  /** k growths in a row from page p of v on. */
  function ForGrowths(s: Supply, v: word, p: nat, k: nat): (t: Turn)
    requires s.f.Valid()
    ensures t.s.f.Valid()
  {
    if k == 0 then Turn(true, s)
    else
      var t := ForGrowths(s, v, p, k - 1);
      if t.ok then ForGrowth(t.s, v, p + 2 * (k - 1)) else t
  }

  /** Served growths come first: more are served only if fewer are. */
  lemma {:induction false} FewerServed(s: Supply, v: word, p: nat, j: nat, k: nat)
    requires s.f.Valid() && j <= k
    ensures ForGrowths(s, v, p, k).ok ==> ForGrowths(s, v, p, j).ok
    decreases k
  {
    hide ForGrowth;
    if j < k { FewerServed(s, v, p, j, k - 1); }
  }

  lemma PageOffset(v: word, p: nat, i: nat)
    ensures GrowthPage(GrowthPage(v, p), i) == GrowthPage(v, p + i)
  {
    WrapTwice(v + PAGE_FRAME_SIZE * p, PAGE_FRAME_SIZE * i);
  }

  lemma WrapTwice(a: nat, b: nat)
    ensures Wrap(Wrap(a) + b) == Wrap(a + b)
  {
  }

  lemma GrowthOffset(s: Supply, v: word, p: nat)
    requires s.f.Valid()
    ensures ForGrowth(s, GrowthPage(v, p), 0) == ForGrowth(s, v, p)
  {
    hide Allocate, GrowthPage;
    AllocateEffect(s.f, 2, 0);
    var s1 := s.(f := Allocate(s.f, 2).after);
    PagesOffset(s1, v, p, 2);
  }

  lemma {:induction false} PagesOffset(s: Supply, v: word, p: nat, n: nat)
    requires s.f.Valid()
    ensures ForPages(s, GrowthPage(v, p), 0, n) == ForPages(s, v, p, n)
    decreases n
  {
    hide ForTable, GrowthPage, Frames.Valid;
    if n > 0 {
      PageOffset(v, p, n - 1);
      PagesOffset(s, v, p, n - 1);
    }
  }

  /** kernel_map_page takes from the supply what the page asks for. */
  lemma MapTurn(m: Machine, m': Machine, pd: Frame, start: word, va: word, pa: Frame, isUser: bool, ok: bool, t: Frame)
    requires m.f.Valid() && WellFormed(m.r, pd)
    requires Mapping(m.r, m'.r, pd, va, pa, isUser, ok, t) && Granting(m.r, pd, va, start, m.f, m'.f, ok, t)
    ensures Turn(ok, SupplyOf(m'.r, pd, m'.f)) == ForTable(SupplyOf(m.r, pd, m.f), PdIdx(va))
  {
    hide Present, Get, Map, Allocate, PdIdx, PtIdx;
    if ok {
      forall d: nat | d < ENTRIES
        ensures Present(Get(m'.r, pd, d)) <==> Present(Get(m.r, pd, d)) || d == PdIdx(va)
      {
        MapEntries(m.r, pd, PdIdx(va), PtIdx(va), pa, isUser, t, pd, d);
      }
    }
  }

  lemma SupplyFromDirectory(r: Ram, s: Ram, pd: Frame, f: Frames)
    requires s[pd] == r[pd]
    ensures SupplyOf(s, pd, f) == SupplyOf(r, pd, f)
  {
    hide Present;
  }

  // ----- how many frames suffice --------------------------------------------------------

  /** Directory entries from that of page 0 of v to that of page n - 1. */
  function Spanned(v: word, p: nat, n: nat): int {
    if n == 0 then 0 else PdIdx(GrowthPage(v, p + n - 1)) - PdIdx(GrowthPage(v, p)) + 1
  }

  /** Frames have only been popped off the stack: the bitmap and the ring are as before. */
  predicate OnlyPopped(f: Frames, f': Frames) {
    |f'.stack| <= |f.stack| && f' == f.(stack := f.stack[..|f'.stack|])
  }

  lemma PoppedTwice(f: Frames, g: Frames, h: Frames)
    requires OnlyPopped(f, g) && OnlyPopped(g, h)
    ensures OnlyPopped(f, h)
  {
    assert f.stack[..|g.stack|][..|h.stack|] == f.stack[..|h.stack|];
  }

  /** The stack after some pages: each new table took one frame, and there is one table per entry. */
  ghost predicate Spent(s: Supply, s': Supply, v: word, p: nat, n: nat, taken: int) {
    && s'.f.Valid() && OnlyPopped(s.f, s'.f)
    && |s'.f.stack| >= |s.f.stack| - taken - Spanned(v, p, n)
    && (n > 0 ==> PdIdx(GrowthPage(v, p + n - 1)) in s'.tables)
  }

  lemma StackPays(f: Frames, n: nat)
    requires f.Valid() && 1 <= n < |f.stack|
    ensures Allocate(f, n).ok && Allocate(f, n).after.Valid() && Allocate(f, n).refills == 0
    ensures OnlyPopped(f, Allocate(f, n).after) && |Allocate(f, n).after.stack| == |f.stack| - n
  {
    hide AllocateFrom, Frames.Avail;
    AllocateEffect(f, n, 0);
    PopsTopDown(f, 0, n);
  }

  lemma PageOrder(v: word, p: nat, q: nat)
    requires p <= q && v + PAGE_FRAME_SIZE * q < TWO_32
    ensures PdIdx(GrowthPage(v, p)) <= PdIdx(GrowthPage(v, q))
  {
  }

  lemma SpentPage(s: Supply, s': Supply, v: word, p: nat, n: nat, taken: int)
    requires Spent(s, s', v, p, n, taken)
    requires v + PAGE_FRAME_SIZE * (p + n) < TWO_32
    requires |s.f.stack| > taken + Spanned(v, p, n + 1)
    ensures var t := ForTable(s', PdIdx(GrowthPage(v, p + n)));
      t.ok && Spent(s, t.s, v, p, n + 1, taken)
  {
    hide Allocate, PdIdx, GrowthPage;
    if n > 0 { PageOrder(v, p + n - 1, p + n); }
    PageOrder(v, p, p + n);
    if PdIdx(GrowthPage(v, p + n)) !in s'.tables {
      StackPays(s'.f, 1);
      PoppedTwice(s.f, s'.f, Allocate(s'.f, 1).after);
    }
  }

  lemma SpentGrowth(s: Supply, s': Supply, v: word, p: nat, k: nat)
    requires Spent(s, s', v, p, 2 * k, 2 * k)
    requires v + PAGE_FRAME_SIZE * (p + 2 * k + 1) < TWO_32
    requires |s.f.stack| > 2 * (k + 1) + Spanned(v, p, 2 * (k + 1))
    ensures var t := ForGrowth(s', v, p + 2 * k);
      t.ok && Spent(s, t.s, v, p, 2 * (k + 1), 2 * (k + 1))
  {
    hide Allocate, PdIdx, GrowthPage, ForTable;
    if k > 0 { PageOrder(v, p + 2 * k - 1, p + 2 * k + 1); }
    PageOrder(v, p, p + 2 * k + 1);
    PageOrder(v, p + 2 * k, p + 2 * k + 1);
    StackPays(s'.f, 2);
    PoppedTwice(s.f, s'.f, Allocate(s'.f, 2).after);
    var s1 := s'.(f := Allocate(s'.f, 2).after);
    assert Spent(s, s1, v, p, 2 * k, 2 * (k + 1));
    SpentPage(s, s1, v, p, 2 * k, 2 * (k + 1));
    var t := ForTable(s1, PdIdx(GrowthPage(v, p + 2 * k)));
    SpentPage(s, t.s, v, p, 2 * k + 1, 2 * (k + 1));
    assert ForPages(s1, v, p + 2 * k, 1) == t;
  }

  /** k growths are served from the stack alone when it holds more than their pages and their tables. */
  lemma {:induction false} StackServes(s: Supply, v: word, p: nat, k: nat)
    requires s.f.Valid() && v + PAGE_FRAME_SIZE * (p + 2 * k) <= TWO_32
    requires |s.f.stack| > 2 * k + Spanned(v, p, 2 * k)
    ensures ForGrowths(s, v, p, k).ok
    ensures Spent(s, ForGrowths(s, v, p, k).s, v, p, 2 * k, 2 * k)
    decreases k
  {
    hide ForGrowth, PdIdx, GrowthPage, Frames.Valid;
    if k > 0 {
      if k > 1 { PageOrder(v, p + 2 * (k - 1) - 1, p + 2 * k - 1); }
      PageOrder(v, p, p + 2 * k - 1);
      StackServes(s, v, p, k - 1);
      SpentGrowth(s, ForGrowths(s, v, p, k - 1).s, v, p, k - 1);
    }
  }
}
