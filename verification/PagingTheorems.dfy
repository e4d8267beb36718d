/**
 The search for free kernel pages, and directories that share the kernel's tables.
 */
module PagingTheorems {
  import opened Entries
  import opened PagingSpec
  import opened Utilities

  // ----- free pages -------------------------------------------------------------------

  /** Page j of a table seen at frame t may be handed out: it is not mapped, nor the window. */
  predicate SlotFree(r: Ram, t: Frame, d: Index, j: Index) {
    !(Present(Get(r, t, j)) || (d == KERNEL_PT_PDT_IDX && j == KERNEL_TMP_PT_IDX))
  }

  /** Page (d, j) of directory pd may be handed out. */
  ghost predicate PageFree(r: Ram, pd: Frame, d: Index, j: Index) {
    Walk(r, pd, d, j) == Unmapped && !(d == KERNEL_PT_PDT_IDX && j == KERNEL_TMP_PT_IDX)
  }

  ghost predicate SlotsFree(r: Ram, t: Frame, d: Index, i: nat, n: nat) {
    i + n <= ENTRIES && forall j: Index :: i <= j < i + n ==> SlotFree(r, t, d, j)
  }

  /** n pages from page i of entry d on are free, all under the one table. */
  ghost predicate RangeFree(r: Ram, pd: Frame, d: Index, i: nat, n: nat) {
    i + n <= ENTRIES && forall j: Index :: i <= j < i + n ==> PageFree(r, pd, d, j)
  }

  lemma SlotsAreRange(r: Ram, s: Ram, pd: Frame, d: Index, i: nat, n: nat)
    requires Present(Get(r, pd, d))
    requires forall j: Index :: d != KERNEL_PT_PDT_IDX || j != KERNEL_TMP_PT_IDX ==>
      Get(s, Get(r, pd, d).frame, j) == Get(r, Get(r, pd, d).frame, j)
    ensures SlotsFree(s, Get(r, pd, d).frame, d, i, n) <==> RangeFree(r, pd, d, i, n)
  {
    hide Present, Get;
    var t := Get(r, pd, d).frame;
    forall j: Index ensures SlotFree(s, t, d, j) <==> PageFree(r, pd, d, j) {
    }
  }

  lemma AbsentRange(r: Ram, pd: Frame, d: Index, n: nat)
    requires !Present(Get(r, pd, d)) && n <= ENTRIES && (n < ENTRIES || d != KERNEL_PT_PDT_IDX)
    ensures RangeFree(r, pd, d, 0, n)
  {
    hide Present, Get;
  }

  /** Whole pages that a size asks for. */
  function PagesFor(size: word): nat {
    AlignUp(size, 0x1000) / 0x1000
  }

  lemma PagesForSmall(size: word)
    requires 0 < size <= 0x40_0000
    ensures 1 <= PagesFor(size) <= ENTRIES && size <= 0x1000 * PagesFor(size) < size + 0x1000
  {
  }

  /** v is the first page of the lowest free range of n pages in the kernel half, or 0 for none. */
  ghost predicate IsLowestRange(r: Ram, pd: Frame, n: nat, v: word) {
    if v == 0 then forall d: Index, i: nat :: KERNEL_PT_PDT_IDX <= d ==> !RangeFree(r, pd, d, i, n)
    else exists d: Index, i: Index ::
      && KERNEL_PT_PDT_IDX <= d && v == PageAt(d, i) && RangeFree(r, pd, d, i, n)
      && forall e: Index, j: nat :: KERNEL_PT_PDT_IDX <= e && (e < d || (e == d && j < i)) ==>
           !RangeFree(r, pd, e, j, n)
  }

  /** Some n > 0 pages in a row are free under entry d, from page i on. */
  ghost predicate RunFrom(r: Ram, pd: Frame, d: Index, i: nat, n: nat) {
    n > 0 && RangeFree(r, pd, d, i, n)
  }

  /** What the search answers for entry d: a table's first run, or all of an absent table. */
  ghost predicate AnswerAt(r: Ram, pd: Frame, d: Index, n: nat, v: word) {
    if !Present(Get(r, pd, d)) then v == PageAt(d, 0)
    else if v == 0 then forall i: nat :: !RunFrom(r, pd, d, i, n)
    else exists i: Index ::
      && v == PageAt(d, i) && RunFrom(r, pd, d, i, n)
      && forall j: nat :: j < i ==> !RunFrom(r, pd, d, j, n)
  }

  /** What the search answers: that of the first entry of the kernel half that has any. */
  ghost predicate Answer(r: Ram, pd: Frame, n: nat, v: word) {
    if v == 0 then forall d: Index :: KERNEL_PT_PDT_IDX <= d ==> AnswerAt(r, pd, d, n, 0)
    else exists d: Index ::
      && KERNEL_PT_PDT_IDX <= d && AnswerAt(r, pd, d, n, v)
      && forall e: Index :: KERNEL_PT_PDT_IDX <= e < d ==> AnswerAt(r, pd, e, n, 0)
  }

  lemma NoAnswer(r: Ram, pd: Frame, d: Index, n: nat, i: nat)
    requires KERNEL_PT_PDT_IDX <= d && n > 0 && AnswerAt(r, pd, d, n, 0)
    ensures !RangeFree(r, pd, d, i, n)
  {
    hide RangeFree, Present;
    assert !RunFrom(r, pd, d, i, n);
  }

  lemma AnswerFree(r: Ram, pd: Frame, d: Index, n: nat, v: word)
    requires KERNEL_PT_PDT_IDX <= d && n > 0 && v != 0 && AnswerAt(r, pd, d, n, v)
    requires n <= ENTRIES && (n < ENTRIES || d != KERNEL_PT_PDT_IDX || Present(Get(r, pd, d)))
    ensures exists i: Index ::
      && v == PageAt(d, i) && RangeFree(r, pd, d, i, n)
      && forall j: nat :: j < i ==> !RangeFree(r, pd, d, j, n)
  {
    hide PageAt, Present, Get;
    if Present(Get(r, pd, d)) {
      hide RangeFree;
      var i: Index :|
        && v == PageAt(d, i) && RunFrom(r, pd, d, i, n)
        && forall j: nat :: j < i ==> !RunFrom(r, pd, d, j, n);
      forall j: nat | j < i ensures !RangeFree(r, pd, d, j, n) { assert !RunFrom(r, pd, d, j, n); }
    } else {
      AbsentRange(r, pd, d, n);
      assert v == PageAt(d, 0) && RangeFree(r, pd, d, 0, n);
    }
  }

  /** The first table of the kernel half is absent, and so is the window in it. */
  lemma WholeFirstTable(r: Ram, pd: Frame, i: nat)
    ensures !RangeFree(r, pd, KERNEL_PT_PDT_IDX, i, ENTRIES)
  {
    assert !PageFree(r, pd, KERNEL_PT_PDT_IDX, KERNEL_TMP_PT_IDX);
  }

  /** Every entry of the kernel half has a table. */
  ghost predicate AllTables(r: Ram, pd: Frame) {
    forall d: Index :: KERNEL_PT_PDT_IDX <= d ==> Present(Get(r, pd, d))
  }

  /** Entry d is where the search ends: the first that has no table, or a run in its table. */
  ghost predicate StopsAt(r: Ram, pd: Frame, n: nat, d: Index) {
    KERNEL_PT_PDT_IDX <= d && HasAnswer(r, pd, n, d) &&
    forall e: Index :: KERNEL_PT_PDT_IDX <= e < d ==> !HasAnswer(r, pd, n, e)
  }

  ghost predicate HasAnswer(r: Ram, pd: Frame, n: nat, d: Index) {
    !Present(Get(r, pd, d)) || exists i: nat :: RunFrom(r, pd, d, i, n)
  }

  lemma AnswersApart(r: Ram, pd: Frame, d: Index, n: nat, v: word)
    requires KERNEL_PT_PDT_IDX <= d && AnswerAt(r, pd, d, n, v)
    ensures HasAnswer(r, pd, n, d) <==> v != 0
    ensures v != 0 ==> PdIdx(v) == d
  {
    hide Present, Get, RangeFree, PdIdx, PageAt;
    PageAtIndices(d, 0);
    NotPageZero(d, 0);
    if Present(Get(r, pd, d)) && v != 0 {
      var i: Index :| v == PageAt(d, i) && RunFrom(r, pd, d, i, n);
      PageAtIndices(d, i);
    }
  }

  lemma NotPageZero(d: Index, i: Index)
    requires d > 0
    ensures PageAt(d, i) != 0
  {
  }

  /** The answer is 0 exactly when every table is there and none has a run; else it is at StopsAt. */
  lemma AnswerStops(r: Ram, pd: Frame, n: nat, v: word)
    requires Answer(r, pd, n, v)
    ensures v == 0 <==> forall d: Index :: !StopsAt(r, pd, n, d)
    ensures v != 0 ==> StopsAt(r, pd, n, PdIdx(v)) && AnswerAt(r, pd, PdIdx(v), n, v)
  {
    hide Present, Get, PdIdx, PageAt, AnswerAt, HasAnswer;
    if v == 0 {
      forall d: Index ensures !StopsAt(r, pd, n, d) {
        if KERNEL_PT_PDT_IDX <= d { AnswersApart(r, pd, d, n, 0); }
      }
    } else {
      var d: Index :|
        && KERNEL_PT_PDT_IDX <= d && AnswerAt(r, pd, d, n, v)
        && forall e: Index :: KERNEL_PT_PDT_IDX <= e < d ==> AnswerAt(r, pd, e, n, 0);
      AnswersApart(r, pd, d, n, v);
      forall e: Index | KERNEL_PT_PDT_IDX <= e < d ensures !HasAnswer(r, pd, n, e) {
        AnswersApart(r, pd, e, n, 0);
      }
      assert StopsAt(r, pd, n, d);
    }
  }

  lemma OneStop(r: Ram, pd: Frame, n: nat, d: Index, e: Index)
    requires StopsAt(r, pd, n, d) && StopsAt(r, pd, n, e)
    ensures d == e
  {
    hide HasAnswer;
  }

  // ----- is the answer free? ----------------------------------------------------------

  /** The page with number q, counted through the whole address space, may be handed out. */
  ghost predicate NumberFree(r: Ram, pd: Frame, q: nat)
    requires q < FRAMES
  {
    PageFree(r, pd, q / 1024, q % 1024)
  }

  /** The n pages from v on lie in the address space and may all be handed out. */
  ghost predicate FreeFrom(r: Ram, pd: Frame, v: word, n: nat) {
    && v / 0x1000 + n <= FRAMES
    && forall q: nat :: v / 0x1000 <= q < v / 0x1000 + n ==> NumberFree(r, pd, q)
  }

  /**
   n pages fit from the start of the absent entry d on: they end in the address space, run
   into no mapped page of a later entry, and leave out the window.
   */
  ghost predicate AbsentFits(r: Ram, pd: Frame, d: Index, n: nat) {
    && 1024 * d + n <= FRAMES
    && (forall e: Index, j: Index :: d < e && 1024 * e + j < 1024 * d + n ==> Walk(r, pd, e, j) == Unmapped)
    && !(d == KERNEL_PT_PDT_IDX && n > KERNEL_TMP_PT_IDX)
  }

  lemma PageAtNumber(d: Index, i: Index)
    ensures PageAt(d, i) / 0x1000 == 1024 * d + i
  {
    PageNumbers(d, i);
  }

  lemma NumberParts(d: Index, i: Index)
    ensures (1024 * d + i) / 1024 == d && (1024 * d + i) % 1024 == i && 1024 * d + i < FRAMES
  {
  }

  lemma TableRunFree(r: Ram, pd: Frame, d: Index, i: Index, n: nat)
    requires RangeFree(r, pd, d, i, n)
    ensures FreeFrom(r, pd, PageAt(d, i), n)
  {
    hide Walk, PageAt, PageFree;
    PageAtNumber(d, i);
    forall q: nat | 1024 * d + i <= q < 1024 * d + i + n ensures q < FRAMES && NumberFree(r, pd, q) {
      NumberParts(d, q - 1024 * d);
    }
  }

  lemma AbsentFree(r: Ram, pd: Frame, d: Index, n: nat)
    requires KERNEL_PT_PDT_IDX <= d && !Present(Get(r, pd, d))
    ensures FreeFrom(r, pd, PageAt(d, 0), n) <==> AbsentFits(r, pd, d, n)
  {
    hide PageAt;
    PageAtNumber(d, 0);
    if AbsentFits(r, pd, d, n) {
      forall q: nat | 1024 * d <= q < 1024 * d + n ensures NumberFree(r, pd, q) {
        AbsentNumber(r, pd, d, n, q);
      }
    }
    if FreeFrom(r, pd, PageAt(d, 0), n) {
      forall e: Index, j: Index | d < e && 1024 * e + j < 1024 * d + n ensures Walk(r, pd, e, j) == Unmapped {
        NumberParts(e, j);
        assert NumberFree(r, pd, 1024 * e + j);
      }
      WindowNotFree(r, pd);
    }
  }

  lemma WindowNotFree(r: Ram, pd: Frame)
    ensures !NumberFree(r, pd, 1024 * KERNEL_PT_PDT_IDX + KERNEL_TMP_PT_IDX)
  {
    NumberParts(KERNEL_PT_PDT_IDX, KERNEL_TMP_PT_IDX);
  }

  lemma AbsentNumber(r: Ram, pd: Frame, d: Index, n: nat, q: nat)
    requires KERNEL_PT_PDT_IDX <= d && !Present(Get(r, pd, d)) && AbsentFits(r, pd, d, n)
    requires 1024 * d <= q < 1024 * d + n
    ensures NumberFree(r, pd, q)
  {
    var e: Index, j: Index := q / 1024, q % 1024;
    assert q == 1024 * e + j;
    if d < e { assert Walk(r, pd, e, j) == Unmapped; }
  }

  /**
   Where the search ends decides, for every n > 0, whether the pages it answers with are free:
   they are exactly when entry d has a table, or n pages fit from its start on.
   */
  lemma AnswerIsFree(r: Ram, pd: Frame, n: nat, v: word, d: Index)
    requires n > 0 && Answer(r, pd, n, v) && StopsAt(r, pd, n, d)
    ensures v != 0 && PdIdx(v) == d
    ensures FreeFrom(r, pd, v, n) <==> Present(Get(r, pd, d)) || AbsentFits(r, pd, d, n)
  {
    hide Present, Get, PdIdx, PageAt, StopsAt, FreeFrom, AbsentFits, Answer, RangeFree;
    AnswerStops(r, pd, n, v);
    OneStop(r, pd, n, d, PdIdx(v));
    if Present(Get(r, pd, d)) {
      var i: Index :| v == PageAt(d, i) && RunFrom(r, pd, d, i, n);
      TableRunFree(r, pd, d, i, n);
    } else {
      InKernelHalf(r, pd, n, d);
      AbsentFree(r, pd, d, n);
    }
  }

  lemma InKernelHalf(r: Ram, pd: Frame, n: nat, d: Index)
    requires StopsAt(r, pd, n, d)
    ensures KERNEL_PT_PDT_IDX <= d
  {
    hide HasAnswer;
  }

  /** An answer within one absent table is free, but for all of an absent first table. */
  lemma ShortAnswerIsFree(r: Ram, pd: Frame, n: nat, d: Index)
    requires KERNEL_PT_PDT_IDX <= d && 0 < n <= ENTRIES
    ensures AbsentFits(r, pd, d, n) <==> d != KERNEL_PT_PDT_IDX || n < ENTRIES
  {
  }

  /**
   A failing input: entry 768 leads to a full table, entry 769 is absent, and the first page of
   entry 770 is mapped. The answer for 1025 pages starts at entry 769 and ends on that page.
   */
  lemma CollidingAnswer(r: Ram, pd: Frame, v: word)
    requires Present(Get(r, pd, 768)) && forall i: Index :: Walk(r, pd, 768, i).Mapped?
    requires !Present(Get(r, pd, 769)) && Walk(r, pd, 770, 0).Mapped? && Answer(r, pd, 1025, v)
    ensures v == PageAt(769, 0) && !FreeFrom(r, pd, v, 1025)
  {
    hide Present, Get, Walk, PdIdx, PageAt, FreeFrom, Answer;
    assert forall i: nat :: i + 1 <= ENTRIES ==> !PageFree(r, pd, 768, i);
    assert StopsAt(r, pd, 1025, 769);
    AnswerStops(r, pd, 1025, v);
    AnswerIsFree(r, pd, 1025, v, 769);
  }

  /** There is such an input. */
  lemma CollidingTables() returns (r: Ram, pd: Frame)
    ensures Present(Get(r, pd, 768)) && forall i: Index :: Walk(r, pd, 768, i).Mapped?
    ensures !Present(Get(r, pd, 769)) && Walk(r, pd, 770, 0).Mapped?
  {
    var none, to2, page := Entry(0, 0), Entry(2, PRESENT), Entry(0, PRESENT);
    var empty: Table, full: Table := seq(ENTRIES, _ => none), seq(ENTRIES, _ => page);
    pd := 1;
    r := seq(FRAMES, f => if f == 1 then empty[768 := to2][770 := to2] else if f == 2 then full else empty);
  }

  /**
   The answer for n > 0 pages is the lowest range of pages that are free under one table, or
   0 when there is none, exactly when all of the kernel half's tables are there, or n pages
   fit a table and are not all of an absent first one.
   */
  lemma AnswerIsLowest(r: Ram, pd: Frame, n: nat, v: word)
    requires n > 0 && Answer(r, pd, n, v)
    ensures IsLowestRange(r, pd, n, v) <==>
      AllTables(r, pd) || (n <= ENTRIES && (n < ENTRIES || Present(Get(r, pd, KERNEL_PT_PDT_IDX))))
  {
    hide Present, Get, RangeFree, RunFrom, PageAt, AnswerAt;
    if v == 0 {
      forall d: Index, i: nat | KERNEL_PT_PDT_IDX <= d ensures !RangeFree(r, pd, d, i, n) {
        NoAnswer(r, pd, d, n, i);
      }
      forall d: Index | KERNEL_PT_PDT_IDX <= d ensures Present(Get(r, pd, d)) {
        ZeroHasTable(r, pd, d, n);
      }
    } else {
      var d: Index :|
        && KERNEL_PT_PDT_IDX <= d && AnswerAt(r, pd, d, n, v)
        && forall e: Index :: KERNEL_PT_PDT_IDX <= e < d ==> AnswerAt(r, pd, e, n, 0);
      if AllTables(r, pd) { TableAnswerFits(r, pd, d, n, v); }
      if n <= ENTRIES && (n < ENTRIES || Present(Get(r, pd, KERNEL_PT_PDT_IDX))) {
        AnswerFree(r, pd, d, n, v);
        forall e: Index, j: nat | KERNEL_PT_PDT_IDX <= e < d ensures !RangeFree(r, pd, e, j, n) {
          NoAnswer(r, pd, e, n, j);
        }
      } else {
        NotLowest(r, pd, n, v);
      }
    }
  }

  lemma ZeroHasTable(r: Ram, pd: Frame, d: Index, n: nat)
    requires KERNEL_PT_PDT_IDX <= d && AnswerAt(r, pd, d, n, 0)
    ensures Present(Get(r, pd, d))
  {
    hide Present, Get, RunFrom;
    NotPageZero(d, 0);
  }

  lemma TableAnswerFits(r: Ram, pd: Frame, d: Index, n: nat, v: word)
    requires v != 0 && Present(Get(r, pd, d)) && AnswerAt(r, pd, d, n, v)
    ensures n <= ENTRIES
  {
    hide Present, Get, PageAt;
  }

  /** A range longer than a table, or all of an absent first table, is not free under one table. */
  lemma NotLowest(r: Ram, pd: Frame, n: nat, v: word)
    requires v != 0 && n > 0 && Answer(r, pd, n, v)
    requires n > ENTRIES || (n == ENTRIES && !Present(Get(r, pd, KERNEL_PT_PDT_IDX)))
    ensures !IsLowestRange(r, pd, n, v)
  {
    hide Present, Get, PageAt, Walk;
    forall d: Index, i: Index | KERNEL_PT_PDT_IDX <= d && v == PageAt(d, i) ensures !RangeFree(r, pd, d, i, n) {
      if n == ENTRIES { AllOfFirst(r, pd, v, d, i); }
    }
  }

  lemma AllOfFirst(r: Ram, pd: Frame, v: word, d: Index, i: Index)
    requires v != 0 && Answer(r, pd, ENTRIES, v) && !Present(Get(r, pd, KERNEL_PT_PDT_IDX))
    requires KERNEL_PT_PDT_IDX <= d && v == PageAt(d, i)
    ensures !RangeFree(r, pd, d, i, ENTRIES)
  {
    hide Present, Get, PageAt, RangeFree;
    var e: Index :|
      && KERNEL_PT_PDT_IDX <= e && AnswerAt(r, pd, e, ENTRIES, v)
      && forall x: Index :: KERNEL_PT_PDT_IDX <= x < e ==> AnswerAt(r, pd, x, ENTRIES, 0);
    FirstBaseNotZero();
    assert e == KERNEL_PT_PDT_IDX by {
      assert !AnswerAt(r, pd, KERNEL_PT_PDT_IDX, ENTRIES, 0);
    }
    PageAtIndices(d, i);
    PageAtIndices(e, 0);
    WholeFirstTable(r, pd, i);
  }

  lemma FirstBaseNotZero()
    ensures PageAt(KERNEL_PT_PDT_IDX, 0) != 0
  {
  }

  /** There is one lowest range. */
  lemma LowestUnique(r: Ram, pd: Frame, n: nat, v: word, w: word)
    requires IsLowestRange(r, pd, n, v) && IsLowestRange(r, pd, n, w)
    ensures v == w
  {
    hide RangeFree, PageAt;
  }

  /** A later search, when the pages of the range are mapped, finds a disjoint range. */
  lemma SearchAfterMapping(r: Ram, s: Ram, pd: Frame, n: nat, m: nat, v: word, w: word)
    requires IsLowestRange(r, pd, n, v) && IsLowestRange(s, pd, m, w) && v != 0 && w != 0 && n > 0 && m > 0
    requires forall j: Index :: PtIdx(v) <= j < PtIdx(v) + n ==> Walk(s, pd, PdIdx(v), j).Mapped?
    ensures w + 0x1000 * m <= v || v + 0x1000 * n <= w
  {
    hide Walk, PageAt, PdIdx, PtIdx;
    var d: Index, i: Index :| v == PageAt(d, i) && RangeFree(r, pd, d, i, n);
    var e: Index, k: Index :| w == PageAt(e, k) && RangeFree(s, pd, e, k, m);
    PageAtIndices(d, i);
    RangeInTable(r, pd, d, i, n);
    RangeInTable(s, pd, e, k, m);
    if e == d {
      RangesApart(s, pd, d, i, n, k, m);
      PagesApart(d, i, n, k, m);
    } else {
      TablesApart(d, i, n, e, k, m);
    }
  }

  lemma RangeInTable(r: Ram, pd: Frame, d: Index, i: nat, n: nat)
    requires RangeFree(r, pd, d, i, n)
    ensures i + n <= ENTRIES
  {
  }

  lemma RangesApart(s: Ram, pd: Frame, d: Index, i: Index, n: nat, k: Index, m: nat)
    requires n > 0 && m > 0 && i + n <= ENTRIES && RangeFree(s, pd, d, k, m)
    requires forall j: Index :: i <= j < i + n ==> Walk(s, pd, d, j).Mapped?
    ensures k + m <= i || i + n <= k
  {
    hide Walk;
    var j: Index := if i < k then k else i;
    assert k <= j < k + m ==> PageFree(s, pd, d, j);
  }

  lemma PagesApart(d: Index, i: Index, n: nat, k: Index, m: nat)
    requires k + m <= i || i + n <= k
    ensures PageAt(d, k) + 0x1000 * m <= PageAt(d, i) || PageAt(d, i) + 0x1000 * n <= PageAt(d, k)
  {
  }

  lemma TablesApart(d: Index, i: Index, n: nat, e: Index, k: Index, m: nat)
    requires d != e && i + n <= ENTRIES && k + m <= ENTRIES
    ensures PageAt(e, k) + 0x1000 * m <= PageAt(d, i) || PageAt(d, i) + 0x1000 * n <= PageAt(e, k)
  {
  }

  // ----- shared kernel tables ---------------------------------------------------------

  /** The directory after load_process_pdt has copied the kernel's present entries from k on. */
  function Load(r: Ram, kernelPd: Frame, pdt: Frame, k: nat): (r': Ram)
    requires k <= ENTRIES
    ensures forall g: Frame, j: Index ::
      Get(r', g, j) == if g == pdt && k <= j && Present(Get(r, kernelPd, j)) then Get(r, kernelPd, j) else Get(r, g, j)
  {
    r[pdt := seq(ENTRIES, j requires 0 <= j < ENTRIES =>
      if k <= j && Present(Get(r, kernelPd, j)) then Get(r, kernelPd, j) else Get(r, pdt, j))]
  }

  /** Frame f is neither the directory pd nor one of its tables. */
  ghost predicate Outside(r: Ram, pd: Frame, f: Frame) {
    f != pd && !IsTable(r, pd, f)
  }

  /**
   After the load the process translates every kernel-half page that has a kernel table as
   the kernel does, and so does the kernel directory. The rest of the process directory
   translates as before, but where an entry of its own, such as a fresh directory may be left
   with, leads to the directory itself: there the copied entries are read as pages.
   */
  lemma LoadTranslates(r: Ram, kernelPd: Frame, pdt: Frame, d: Index, i: Index)
    requires Outside(r, kernelPd, pdt)
    ensures var r', e := Load(r, kernelPd, pdt, KERNEL_PT_PDT_IDX), Get(r, pdt, d);
      && Walk(r', kernelPd, d, i) == Walk(r, kernelPd, d, i)
      && Walk(r', pdt, d, i) ==
           (if KERNEL_PT_PDT_IDX <= d && Present(Get(r, kernelPd, d)) then Walk(r, kernelPd, d, i)
            else if Present(e) && e.frame == pdt && KERNEL_PT_PDT_IDX <= i && Present(Get(r, kernelPd, i))
            then Mapped(Get(r, kernelPd, i).frame)
            else Walk(r, pdt, d, i))
  {
    hide Present, Get, Load;
    var r' := Load(r, kernelPd, pdt, KERNEL_PT_PDT_IDX);
    assert Get(r', kernelPd, d) == Get(r, kernelPd, d);
    if Present(Get(r, kernelPd, d)) { assert IsTable(r, kernelPd, Get(r, kernelPd, d).frame); }
  }

  /** The directories lead to the same table at every entry in ds. */
  ghost predicate Shares(r: Ram, kernelPd: Frame, pdt: Frame, ds: set<nat>) {
    && Outside(r, kernelPd, pdt)
    && forall d: Index :: d in ds ==>
         Present(Get(r, kernelPd, d)) && Present(Get(r, pdt, d)) && Get(r, kernelPd, d).frame == Get(r, pdt, d).frame
  }

  lemma SharedWalk(r: Ram, kernelPd: Frame, pdt: Frame, ds: set<nat>, d: Index, i: Index)
    requires Shares(r, kernelPd, pdt, ds) && d in ds
    ensures Walk(r, pdt, d, i) == Walk(r, kernelPd, d, i)
  {
  }

  lemma LoadShares(r: Ram, kernelPd: Frame, pdt: Frame, ds: set<nat>)
    requires Outside(r, kernelPd, pdt)
    requires forall d: Index :: d in ds ==> KERNEL_PT_PDT_IDX <= d && Present(Get(r, kernelPd, d))
    ensures Shares(Load(r, kernelPd, pdt, KERNEL_PT_PDT_IDX), kernelPd, pdt, ds)
  {
    hide Present, Get, Load;
    var r' := Load(r, kernelPd, pdt, KERNEL_PT_PDT_IDX);
    assert forall d: Index :: Get(r', kernelPd, d) == Get(r, kernelPd, d);
  }

  /** A mapping through the kernel directory leaves shared entries shared. */
  lemma MapKeepsShares(r: Ram, kernelPd: Frame, pdt: Frame, ds: set<nat>,
                       d: Index, i: Index, pa: Frame, isUser: bool, t: Frame)
    requires Shares(r, kernelPd, pdt, ds) && WellFormed(r, kernelPd) && FreshTable(r, kernelPd, d, t)
    requires !Present(Get(r, kernelPd, d)) ==> t != pdt
    ensures Shares(Map(r, kernelPd, d, i, pa, isUser, t), kernelPd, pdt, ds)
  {
    hide Present, Get, Map;
    var r' := Map(r, kernelPd, d, i, pa, isUser, t);
    forall e: Index
      ensures Get(r', pdt, e) == Get(r, pdt, e)
      ensures e != d ==> Get(r', kernelPd, e) == Get(r, kernelPd, e)
      ensures e == d ==> Present(Get(r', kernelPd, e))
      ensures e == d && Present(Get(r, kernelPd, d)) ==> Get(r', kernelPd, e).frame == Get(r, kernelPd, d).frame
      ensures e == d && !Present(Get(r, kernelPd, d)) ==> Get(r', kernelPd, e).frame == t
    {
      MapEntries(r, kernelPd, d, i, pa, isUser, t, pdt, e);
      MapEntries(r, kernelPd, d, i, pa, isUser, t, kernelPd, e);
    }
  }

  /** Both directories have a table at entry d, and it is the same one. */
  ghost predicate SharesEntry(r: Ram, kernelPd: Frame, pdt: Frame, d: Index) {
    Present(Get(r, kernelPd, d)) && Present(Get(r, pdt, d)) && Get(r, kernelPd, d).frame == Get(r, pdt, d).frame
  }

  /**
   A page that the kernel maps through table u is seen through the process directory exactly
   when the process' entry leads to u, which it may do by a stale entry even where the kernel
   had no table; or leads elsewhere and the process had the page on that frame already. If it
   leads to the kernel directory itself, the entry edited there is what the process reads.
   */
  lemma SeenThrough(r: Ram, kernelPd: Frame, pdt: Frame, d: Index, i: Index, pa: Frame, isUser: bool, t: Frame)
    requires WellFormed(r, kernelPd) && FreshTable(r, kernelPd, d, t) && Outside(r, kernelPd, pdt)
    requires !Present(Get(r, kernelPd, d)) ==> t != pdt
    ensures Walk(Map(r, kernelPd, d, i, pa, isUser, t), kernelPd, d, i) == Mapped(pa)
    ensures var e, u := Get(r, pdt, d), if Present(Get(r, kernelPd, d)) then Get(r, kernelPd, d).frame else t;
      Walk(Map(r, kernelPd, d, i, pa, isUser, t), pdt, d, i) == Mapped(pa) <==>
        Present(e) &&
        (e.frame == u || (if e.frame == kernelPd && i == d then u == pa else Walk(r, pdt, d, i) == Mapped(pa)))
  {
    hide Present, Get, Map;
    MapWalks(r, kernelPd, d, i, pa, isUser, t);
    MapEntries(r, kernelPd, d, i, pa, isUser, t, pdt, d);
    if Present(Get(r, pdt, d)) {
      MapEntries(r, kernelPd, d, i, pa, isUser, t, Get(r, pdt, d).frame, i);
    }
  }
}
