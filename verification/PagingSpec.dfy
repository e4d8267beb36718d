/**
 Two-level page tables in physical memory, edited directly: what the code of paging.c does
 through its one-page window, without the window.
 */
module PagingSpec {
  import opened Entries
  import opened Utilities

  const ENTRIES: nat := 1024
  const KERNEL_PT_PDT_IDX: nat := 768
  const KERNEL_TMP_PT_IDX: nat := 1023
  const KERNEL_TEMP_VADDR: word := 0xC03F_F000

  type Table = t: seq<Entry> | |t| == ENTRIES witness seq(ENTRIES, _ => Entry(0, 0))

  /** Physical memory: every frame of the 32-bit space as 1024 words. */
  type Ram = r: seq<Table> | |r| == FRAMES witness seq(FRAMES, _ => seq(ENTRIES, _ => Entry(0, 0)))

  type Index = i: nat | i < ENTRIES

  function Get(r: Ram, f: Frame, i: Index): Entry {
    r[f][i]
  }

  function Put(r: Ram, f: Frame, i: Index, e: Entry): (r': Ram)
    ensures forall g: Frame, j: Index :: Get(r', g, j) == if g == f && j == i then e else Get(r, g, j)
  {
    r[f := r[f][i := e]]
  }

  /** The page of zeroes that memset leaves. */
  function Zero(r: Ram, f: Frame): (r': Ram)
    ensures forall g: Frame, j: Index :: Get(r', g, j) == if g == f then Entry(0, 0) else Get(r, g, j)
  {
    r[f := seq(ENTRIES, _ => Entry(0, 0))]
  }

  lemma RamEqual(r: Ram, s: Ram)
    requires forall f: Frame, i: Index :: Get(r, f, i) == Get(s, f, i)
    ensures r == s
  {
    forall f: nat | f < FRAMES ensures r[f] == s[f] {
      var a, b := r[f], s[f];
      forall i: nat | i < ENTRIES ensures a[i] == b[i] {
        assert Get(r, f, i) == Get(s, f, i);
      }
    }
  }

  function PdIdx(va: word): Index { va / 0x40_0000 }

  function PtIdx(va: word): Index { va / 0x1000 % 1024 }

  /** An address is its directory index, its table index and its offset in the page, high to low. */
  lemma IndicesSplit(va: word)
    ensures va == PdIdx(va) * 0x40_0000 + PtIdx(va) * 0x1000 + va % 0x1000
  {
    assert va / 0x40_0000 == va / 0x1000 / 1024;
  }

  /** The address of page i of directory entry d. */
  function PageAt(d: Index, i: Index): word { d * 0x40_0000 + i * 0x1000 }

  lemma PageAtIndices(d: Index, i: Index)
    ensures PdIdx(PageAt(d, i)) == d && PtIdx(PageAt(d, i)) == i
  {
    PageNumbers(d, i);
  }

  lemma PageNumbers(d: nat, i: nat)
    requires i < 1024
    ensures (d * 0x40_0000 + i * 0x1000) / 0x40_0000 == d
    ensures (d * 0x40_0000 + i * 0x1000) / 0x1000 == 1024 * d + i
    ensures (1024 * d + i) % 1024 == i
  {
  }

  datatype Translation = Unmapped | Mapped(frame: Frame)

  /** The walk of page (d, i) through directory pd. */
  function Walk(r: Ram, pd: Frame, d: Index, i: Index): Translation {
    var pde := Get(r, pd, d);
    if !Present(pde) then Unmapped
    else
      var pte := Get(r, pde.frame, i);
      if Present(pte) then Mapped(pte.frame) else Unmapped
  }

  // ----- map_page ---------------------------------------------------------------------

  function WithUser(e: Entry, isUser: bool): Entry {
    if isUser then SetAttr(e, USER) else e
  }

  /** A new table in frame t, holding only page i. */
  function MapNew(r: Ram, pd: Frame, d: Index, i: Index, pa: Frame, isUser: bool, t: Frame): Ram {
    var r1 := Zero(r, t);
    var pde := WithUser(SetAttr(SetAttr(Get(r1, pd, d), PRESENT), RW), isUser);
    var r2 := Put(r1, pd, d, SetFrame(pde, t));
    Put(r2, t, i, SetFrame(WithUser(SetAttr(Get(r2, t, i), PRESENT), isUser), pa))
  }

  /** Page i of the table already there; entry 0 of that table gets the attributes too. */
  function MapOld(r: Ram, pd: Frame, d: Index, i: Index, pa: Frame, isUser: bool): Ram {
    var r1 := Put(r, pd, d, WithUser(SetAttr(Get(r, pd, d), RW), isUser));
    var t := Get(r, pd, d).frame;
    var r2 := Put(r1, t, 0, SetAttr(Get(r1, t, 0), PRESENT));
    var r3 := Put(r2, t, i, SetAttr(Get(r2, t, i), PRESENT));
    var r4 := Put(r3, t, 0, WithUser(Get(r3, t, 0), isUser));
    Put(r4, t, i, SetFrame(Get(r4, t, i), pa))
  }

  function Map(r: Ram, pd: Frame, d: Index, i: Index, pa: Frame, isUser: bool, t: Frame): Ram {
    if Present(Get(r, pd, d)) then MapOld(r, pd, d, i, pa, isUser) else MapNew(r, pd, d, i, pa, isUser, t)
  }

  // ----- well-formed directories ------------------------------------------------------

  ghost predicate IsTable(r: Ram, pd: Frame, t: Frame) {
    exists d: Index :: Present(Get(r, pd, d)) && Get(r, pd, d).frame == t
  }

  /** Each table belongs to one directory entry, and none is the directory itself. */
  ghost predicate WellFormed(r: Ram, pd: Frame) {
    && (forall d: Index :: Present(Get(r, pd, d)) ==> Get(r, pd, d).frame != pd)
    && (forall d: Index, e: Index :: Present(Get(r, pd, d)) && Present(Get(r, pd, e)) && d != e ==>
          Get(r, pd, d).frame != Get(r, pd, e).frame)
  }

  // ----- what map_page promises -------------------------------------------------------

  lemma KeepsRw(e: Entry)
    ensures CheckAttr(SetAttr(e, PRESENT), RW) == CheckAttr(e, RW)
    ensures CheckAttr(SetAttr(e, USER), RW) == CheckAttr(e, RW)
  {
  }

  lemma AttrFacts()
    ensures forall e: Entry, a: bv12 :: SetAttr(e, a).frame == e.frame
    ensures forall e: Entry :: Present(SetAttr(e, PRESENT))
    ensures forall e: Entry :: Present(SetAttr(e, RW)) == Present(e)
    ensures forall e: Entry, u: bool :: Present(WithUser(e, u)) == Present(e) && WithUser(e, u).frame == e.frame
    ensures forall e: Entry, f: Frame :: Present(SetFrame(e, f)) == Present(e) && SetFrame(e, f).frame == f
    ensures forall e: Entry :: CheckAttr(SetAttr(e, PRESENT), RW) == CheckAttr(e, RW)
    ensures forall e: Entry, u: bool :: CheckAttr(WithUser(e, u), RW) == CheckAttr(e, RW)
    ensures !Present(Entry(0, 0))
  {
    forall e: Entry ensures CheckAttr(SetAttr(e, PRESENT), RW) == CheckAttr(e, RW) { KeepsRw(e); }
    forall e: Entry ensures CheckAttr(SetAttr(e, USER), RW) == CheckAttr(e, RW) { KeepsRw(e); }
    forall e: Entry, a: bv12 ensures SetAttr(e, a).frame == e.frame { Attributes(e, a); }
    forall e: Entry ensures Present(SetAttr(e, PRESENT)) { Attributes(e, PRESENT); }
    forall e: Entry ensures Present(SetAttr(e, RW)) == Present(e) { Attributes(e, RW); }
    forall e: Entry ensures Present(SetAttr(e, USER)) == Present(e) { Attributes(e, USER); }
  }

  /** Frame and presence of entry j of frame g after a mapping through a present table. */
  lemma MapOldEntries(r: Ram, pd: Frame, d: Index, i: Index, pa: Frame, isUser: bool, g: Frame, j: Index)
    requires Present(Get(r, pd, d)) && Get(r, pd, d).frame != pd
    ensures var r', t := MapOld(r, pd, d, i, pa, isUser), Get(r, pd, d).frame;
      && (g == t && j == i ==> Present(Get(r', g, j)) && Get(r', g, j).frame == pa)
      && (g == t && j == 0 && i != 0 ==> Present(Get(r', g, j)) && Get(r', g, j).frame == Get(r, g, j).frame
                                         && CheckAttr(Get(r', g, j), RW) == CheckAttr(Get(r, g, j), RW))
      && (g == pd && j == d ==> Present(Get(r', g, j)) && Get(r', g, j).frame == t)
      && (!(g == t && (j == i || j == 0)) && !(g == pd && j == d) ==> Get(r', g, j) == Get(r, g, j))
  {
    hide SetAttr, CheckAttr, Present, SetFrame, WithUser, Get;
    AttrFacts();
  }

  lemma MapNewEntries(r: Ram, pd: Frame, d: Index, i: Index, pa: Frame, isUser: bool, t: Frame, g: Frame, j: Index)
    requires t != pd
    ensures var r' := MapNew(r, pd, d, i, pa, isUser, t);
      && (g == t && j == i ==> Present(Get(r', g, j)) && Get(r', g, j).frame == pa)
      && (g == t && j != i ==> Get(r', g, j) == Entry(0, 0))
      && (g == pd && j == d ==> Present(Get(r', g, j)) && Get(r', g, j).frame == t)
      && (g != t && !(g == pd && j == d) ==> Get(r', g, j) == Get(r, g, j))
  {
    hide SetAttr, CheckAttr, Present, SetFrame, WithUser, Get;
    AttrFacts();
  }

  /** The freshness of the frame for a new table; nothing is asked when a table is there. */
  ghost predicate FreshTable(r: Ram, pd: Frame, d: Index, t: Frame) {
    Present(Get(r, pd, d)) || (t != pd && !IsTable(r, pd, t))
  }

  /** Frame and presence of every entry after map_page. */
  lemma MapEntries(r: Ram, pd: Frame, d: Index, i: Index, pa: Frame, isUser: bool, t: Frame, g: Frame, j: Index)
    requires WellFormed(r, pd) && FreshTable(r, pd, d, t)
    ensures var r', was := Map(r, pd, d, i, pa, isUser, t), Present(Get(r, pd, d));
      var u := if was then Get(r, pd, d).frame else t;
      && (g == u && j == i ==> Present(Get(r', g, j)) && Get(r', g, j).frame == pa)
      && (was && g == u && j == 0 && i != 0 ==> Present(Get(r', g, j)) && Get(r', g, j).frame == Get(r, g, j).frame
                                                && CheckAttr(Get(r', g, j), RW) == CheckAttr(Get(r, g, j), RW))
      && (!was && g == u && j != i ==> Get(r', g, j) == Entry(0, 0))
      && (g == pd && j == d ==> Present(Get(r', g, j)) && Get(r', g, j).frame == u)
      && (g == pd && j != d ==> Get(r', g, j) == Get(r, g, j))
      && (g == u && j != i && j != 0 && was ==> Get(r', g, j) == Get(r, g, j))
      && (g != u && g != pd ==> Get(r', g, j) == Get(r, g, j))
  {
    hide SetAttr, CheckAttr, Present, SetFrame, WithUser, Get, MapOld, MapNew, IsTable;
    if Present(Get(r, pd, d)) {
      MapOldEntries(r, pd, d, i, pa, isUser, g, j);
    } else {
      MapNewEntries(r, pd, d, i, pa, isUser, t, g, j);
    }
  }

  function With(flags: bv12, attr: bv12): bv12 { flags | attr }

  function WithUserFlag(flags: bv12, isUser: bool): bv12 {
    if isUser then With(flags, USER) else flags
  }

  /**
   The flags after map_page: those of the directory entry, of the page's entry and of entry 0
   of its table. Through a present table USER goes to entry 0 only.
   */
  lemma MapFlags(r: Ram, pd: Frame, d: Index, i: Index, pa: Frame, isUser: bool, t: Frame)
    requires WellFormed(r, pd) && FreshTable(r, pd, d, t)
    ensures var r', was := Map(r, pd, d, i, pa, isUser, t), Present(Get(r, pd, d));
      var u := if was then Get(r, pd, d).frame else t;
      && Get(r', pd, d).flags == WithUserFlag(With(With(Get(r, pd, d).flags, PRESENT), RW), isUser)
      && (was ==> Get(r', u, 0).flags == WithUserFlag(With(Get(r, u, 0).flags, PRESENT), isUser))
      && (was && i != 0 ==> Get(r', u, i).flags == With(Get(r, u, i).flags, PRESENT))
      && (!was ==> Get(r', u, i).flags == WithUserFlag(PRESENT, isUser))
      && (!was && i != 0 ==> Get(r', u, 0) == Entry(0, 0))
  {
    hide Get, MapOld, MapNew, CheckAttr, SetAttr, SetFrame, WithUser, IsTable, With;
    if Present(Get(r, pd, d)) {
      MapOldFlags(r, pd, d, i, pa, isUser);
    } else {
      MapNewFlags(r, pd, d, i, pa, isUser, t);
    }
  }

  lemma FlagFacts()
    ensures forall e: Entry, a: bv12 :: SetAttr(e, a).flags == With(e.flags, a)
    ensures forall e: Entry, f: Frame :: SetFrame(e, f).flags == e.flags
    ensures forall e: Entry, u: bool :: WithUser(e, u).flags == WithUserFlag(e.flags, u)
  {
  }

  lemma PresentTwice(f: bv12)
    ensures With(With(f, PRESENT), PRESENT) == With(f, PRESENT)
    ensures With(0, PRESENT) == PRESENT
  {
  }

  lemma PresentFlags(e: Entry)
    ensures Present(e) ==> With(e.flags, PRESENT) == e.flags
  {
  }

  /** The entries that change, in the order of the stores to them. */
  lemma MapOldTerms(r: Ram, pd: Frame, d: Index, i: Index, pa: Frame, isUser: bool)
    requires Get(r, pd, d).frame != pd
    ensures var r', u := MapOld(r, pd, d, i, pa, isUser), Get(r, pd, d).frame;
      var e0 := SetAttr(Get(r, u, 0), PRESENT);
      && Get(r', pd, d) == WithUser(SetAttr(Get(r, pd, d), RW), isUser)
      && (i != 0 ==> Get(r', u, 0) == WithUser(e0, isUser))
      && (i != 0 ==> Get(r', u, i) == SetFrame(SetAttr(Get(r, u, i), PRESENT), pa))
      && (i == 0 ==> Get(r', u, 0) == SetFrame(WithUser(SetAttr(e0, PRESENT), isUser), pa))
  {
    hide Get, CheckAttr, SetAttr, SetFrame, WithUser;
  }

  lemma MapOldFlags(r: Ram, pd: Frame, d: Index, i: Index, pa: Frame, isUser: bool)
    requires Present(Get(r, pd, d)) && Get(r, pd, d).frame != pd
    ensures var r', u := MapOld(r, pd, d, i, pa, isUser), Get(r, pd, d).frame;
      && Get(r', pd, d).flags == WithUserFlag(With(With(Get(r, pd, d).flags, PRESENT), RW), isUser)
      && Get(r', u, 0).flags == WithUserFlag(With(Get(r, u, 0).flags, PRESENT), isUser)
      && (i != 0 ==> Get(r', u, i).flags == With(Get(r, u, i).flags, PRESENT))
  {
    hide Get, CheckAttr, SetAttr, SetFrame, WithUser, With, WithUserFlag, Present, MapOld;
    FlagFacts();
    MapOldTerms(r, pd, d, i, pa, isUser);
    PresentFlags(Get(r, pd, d));
    PresentTwice(Get(r, Get(r, pd, d).frame, 0).flags);
  }

  lemma MapNewFlags(r: Ram, pd: Frame, d: Index, i: Index, pa: Frame, isUser: bool, t: Frame)
    requires t != pd
    ensures var r' := MapNew(r, pd, d, i, pa, isUser, t);
      && Get(r', pd, d).flags == WithUserFlag(With(With(Get(r, pd, d).flags, PRESENT), RW), isUser)
      && Get(r', t, i).flags == WithUserFlag(PRESENT, isUser)
      && (i != 0 ==> Get(r', t, 0) == Entry(0, 0))
  {
    hide Get, CheckAttr, SetAttr, SetFrame, WithUser, With, WithUserFlag;
    FlagFacts();
    PresentTwice(0);
  }

  /** Frames other than the directory and the page's table keep their contents. */
  lemma MapContents(r: Ram, pd: Frame, d: Index, i: Index, pa: Frame, isUser: bool, t: Frame, x: Frame)
    requires WellFormed(r, pd) && FreshTable(r, pd, d, t)
    requires x != pd && x != (if Present(Get(r, pd, d)) then Get(r, pd, d).frame else t)
    ensures Map(r, pd, d, i, pa, isUser, t)[x] == r[x]
  {
    var r' := Map(r, pd, d, i, pa, isUser, t);
    forall j: Index ensures Get(r', x, j) == Get(r, x, j) {
      MapEntries(r, pd, d, i, pa, isUser, t, x, j);
    }
    SameTable(r', r, x);
  }

  lemma SameTable(r: Ram, s: Ram, x: Frame)
    requires forall j: Index :: Get(r, x, j) == Get(s, x, j)
    ensures r[x] == s[x]
  {
    var a, b := r[x], s[x];
    forall j: nat | j < ENTRIES ensures a[j] == b[j] {
      assert Get(r, x, j) == Get(s, x, j);
    }
  }

  /** The mapped page translates to its frame. */
  lemma MapWalks(r: Ram, pd: Frame, d: Index, i: Index, pa: Frame, isUser: bool, t: Frame)
    requires WellFormed(r, pd) && FreshTable(r, pd, d, t)
    ensures Walk(Map(r, pd, d, i, pa, isUser, t), pd, d, i) == Mapped(pa)
  {
    hide Present, Get, Map, IsTable;
    var u := if Present(Get(r, pd, d)) then Get(r, pd, d).frame else t;
    MapEntries(r, pd, d, i, pa, isUser, t, pd, d);
    MapEntries(r, pd, d, i, pa, isUser, t, u, i);
  }

  /**
   What every other page translates to afterwards: what it did before, except that page 0 of
   a table that was there before becomes present.
   */
  lemma MapWalksOther(r: Ram, pd: Frame, d: Index, i: Index, pa: Frame, isUser: bool, t: Frame, e: Index, j: Index)
    requires WellFormed(r, pd) && FreshTable(r, pd, d, t) && (e != d || j != i)
    ensures Walk(Map(r, pd, d, i, pa, isUser, t), pd, e, j) ==
      if e == d && j == 0 && Present(Get(r, pd, d)) then Mapped(Get(r, Get(r, pd, d).frame, 0).frame)
      else Walk(r, pd, e, j)
  {
    hide Present, Get, Map;
    NoneAbsent();
    MapEntries(r, pd, d, i, pa, isUser, t, pd, e);
    if Present(Get(r, pd, e)) {
      MapEntries(r, pd, d, i, pa, isUser, t, Get(r, pd, e).frame, j);
    } else if e == d {
      MapEntries(r, pd, d, i, pa, isUser, t, t, j);
    }
  }

  lemma NoneAbsent()
    ensures !Present(Entry(0, 0))
  {
  }

  /** No mapping is lost or moved. */
  lemma MapKeepsMapped(r: Ram, pd: Frame, d: Index, i: Index, pa: Frame, isUser: bool, t: Frame, e: Index, j: Index)
    requires WellFormed(r, pd) && FreshTable(r, pd, d, t) && (e != d || j != i)
    ensures Walk(r, pd, e, j).Mapped? ==> Walk(Map(r, pd, d, i, pa, isUser, t), pd, e, j) == Walk(r, pd, e, j)
  {
    hide Map;
    MapWalksOther(r, pd, d, i, pa, isUser, t, e, j);
  }

  /** Every page mapped in r, but (d, i), is mapped to the same frame in s. */
  ghost predicate KeepsMapped(r: Ram, s: Ram, pd: Frame, d: Index, i: Index) {
    forall e: Index, j: Index ::
      (e != d || j != i) && Walk(r, pd, e, j).Mapped? ==> Walk(s, pd, e, j) == Walk(r, pd, e, j)
  }

  /**
   map_page changes the translation of its page only, exactly when the table is new, page 0
   of the table was mapped already, or page 0 is the page being mapped.
   */
  lemma MapChangesOnlyItsPage(r: Ram, pd: Frame, d: Index, i: Index, pa: Frame, isUser: bool, t: Frame)
    requires WellFormed(r, pd) && FreshTable(r, pd, d, t)
    ensures (forall e: Index, j: Index :: e != d || j != i ==>
               Walk(Map(r, pd, d, i, pa, isUser, t), pd, e, j) == Walk(r, pd, e, j))
      <==> !Present(Get(r, pd, d)) || Present(Get(r, Get(r, pd, d).frame, 0)) || i == 0
  {
    hide Map, WellFormed, FreshTable;
    var r' := Map(r, pd, d, i, pa, isUser, t);
    forall e: Index, j: Index | e != d || j != i
      ensures Walk(r', pd, e, j) == Walk(r, pd, e, j) <==>
        !(e == d && j == 0 && Present(Get(r, pd, d)) && !Present(Get(r, Get(r, pd, d).frame, 0)))
    {
      MapWalksOther(r, pd, d, i, pa, isUser, t, e, j);
    }
    if i != 0 {
      MapWalksOther(r, pd, d, i, pa, isUser, t, d, 0);
    }
  }

  /** The directory stays well formed: no table is shared and none is the directory. */
  lemma MapWellFormed(r: Ram, pd: Frame, d: Index, i: Index, pa: Frame, isUser: bool, t: Frame)
    requires WellFormed(r, pd) && FreshTable(r, pd, d, t)
    ensures WellFormed(Map(r, pd, d, i, pa, isUser, t), pd)
  {
    hide Present, Get, Map;
    var r' := Map(r, pd, d, i, pa, isUser, t);
    forall e: Index
      ensures e != d ==> Get(r', pd, e) == Get(r, pd, e)
      ensures e == d ==> Present(Get(r', pd, e)) &&
                         Get(r', pd, e).frame == (if Present(Get(r, pd, d)) then Get(r, pd, d).frame else t)
    {
      MapEntries(r, pd, d, i, pa, isUser, t, pd, e);
    }
  }

  // ----- permissions ------------------------------------------------------------------

  lemma UserFacts()
    ensures forall e: Entry :: CheckAttr(SetAttr(e, PRESENT), USER) == CheckAttr(e, USER)
    ensures forall e: Entry :: CheckAttr(SetAttr(e, RW), USER) == CheckAttr(e, USER)
    ensures forall e: Entry :: CheckAttr(SetAttr(e, RW), RW)
    ensures forall e: Entry :: CheckAttr(WithUser(e, true), USER)
    ensures forall e: Entry, f: Frame, a: bv12 :: CheckAttr(SetFrame(e, f), a) == CheckAttr(e, a)
    ensures !CheckAttr(Entry(0, 0), USER)
  {
    forall e: Entry ensures CheckAttr(SetAttr(e, PRESENT), USER) == CheckAttr(e, USER) { UserFact(e); }
    forall e: Entry ensures CheckAttr(SetAttr(e, RW), USER) == CheckAttr(e, USER) { UserFact(e); }
    forall e: Entry ensures CheckAttr(SetAttr(e, RW), RW) { UserFact(e); }
    forall e: Entry ensures CheckAttr(WithUser(e, true), USER) { UserFact(e); }
  }

  lemma UserFact(e: Entry)
    ensures CheckAttr(SetAttr(e, PRESENT), USER) == CheckAttr(e, USER)
    ensures CheckAttr(SetAttr(e, RW), USER) == CheckAttr(e, USER)
    ensures CheckAttr(SetAttr(e, RW), RW) && CheckAttr(SetAttr(e, USER), USER)
  {
  }

  /** User code reaches a page only if its directory entry and its table entry both allow it. */
  predicate UserReaches(r: Ram, pd: Frame, d: Index, i: Index) {
    && Walk(r, pd, d, i).Mapped?
    && CheckAttr(Get(r, pd, d), USER) && CheckAttr(Get(r, Get(r, pd, d).frame, i), USER)
  }

  /**
   A page mapped for the user is one that the user reaches, exactly when its table is new,
   it is page 0 of the table, or its entry had USER before: through a present table the
   attribute goes to entry 0.
   */
  lemma MapForUser(r: Ram, pd: Frame, d: Index, i: Index, pa: Frame, t: Frame)
    requires WellFormed(r, pd) && FreshTable(r, pd, d, t)
    ensures UserReaches(Map(r, pd, d, i, pa, true, t), pd, d, i) <==>
      !Present(Get(r, pd, d)) || i == 0 || CheckAttr(Get(r, Get(r, pd, d).frame, i), USER)
  {
    hide Walk, Map, WellFormed, FreshTable, Present, Get;
    MapWalks(r, pd, d, i, pa, true, t);
    MapUserSlot(r, pd, d, i, pa, t, i);
  }

  /** USER in every entry of the table after a mapping for the user, and in the directory entry. */
  lemma MapUserSlot(r: Ram, pd: Frame, d: Index, i: Index, pa: Frame, t: Frame, j: Index)
    requires WellFormed(r, pd) && FreshTable(r, pd, d, t)
    ensures var r', was := Map(r, pd, d, i, pa, true, t), Present(Get(r, pd, d));
      var u := if was then Get(r, pd, d).frame else t;
      && CheckAttr(Get(r', pd, d), USER) && CheckAttr(Get(r', pd, d), RW)
      && Get(r', pd, d).frame == u
      && (CheckAttr(Get(r', u, j), USER) <==> if was then CheckAttr(Get(r, u, j), USER) || j == 0 else j == i)
  {
    hide SetAttr, CheckAttr, Present, SetFrame, WithUser, Get, IsTable;
    AttrFacts();
    UserFacts();
  }
}
