/**
 What the heap of HeapSpec promises: its blocks tile it, its free list is the canonical
 form of its free units, a request is served after the least number of growths, and every
 run keeps all of that and every live block.
 */
module HeapTheorems {
  import opened HeapSpec
  import opened Utilities

  // ----- tiling -----------------------------------------------------------------------

  lemma {:induction false} FindOwner(h: Heap, u: Ptr, from: Ptr) returns (b: Ptr)
    requires h.Tiled() && from in h.blocks && from <= u < h.end
    ensures Covers(h.blocks, b, u)
    decreases u - from
  {
    if u < from + h.blocks[from] {
      b := from;
    } else {
      assert Followed(h.blocks, h.end, from);
      b := FindOwner(h, u, from + h.blocks[from]);
    }
  }

  /** Every unit of the heap lies in exactly one block, and no block reaches outside. */
  lemma BlocksTile(h: Heap, u: Ptr)
    requires h.Valid()
    ensures h.start <= u < h.end <==> exists b :: Covers(h.blocks, b, u)
    ensures forall b, c :: Covers(h.blocks, b, u) && Covers(h.blocks, c, u) ==> b == c
  {
    if h.start <= u < h.end {
      var b := FindOwner(h, u, h.start);
    }
    forall b, c | Covers(h.blocks, b, u) && Covers(h.blocks, c, u) ensures b == c {
      assert b < c || c < b || b == c;
    }
  }

  // ----- the free list is canonical ---------------------------------------------------

  lemma {:induction false} SameFromIndex(h: Heap, g: Heap, i: nat)
    requires h.Valid() && g.Valid()
    requires forall u: Ptr :: h.FreeUnit(u) <==> g.FreeUnit(u)
    requires i <= |h.free| && i <= |g.free|
    requires forall j :: 0 <= j < i ==> h.free[j] == g.free[j] && h.blocks[h.free[j]] == g.blocks[g.free[j]]
    ensures |h.free| == |g.free|
    ensures forall j :: 0 <= j < |h.free| ==>
      h.free[j] == g.free[j] && h.blocks[h.free[j]] == g.blocks[g.free[j]]
    decreases |h.free| - i
  {
    if i < |h.free| {
      StartCovered(h, g, i);
      StartCovered(g, h, i);
      EndCovered(h, g, i);
      EndCovered(g, h, i);
      SameFromIndex(h, g, i + 1);
    } else if i < |g.free| {
      StartCovered(g, h, i);
    }
  }

  /** The i-th free block of h starts no earlier than the i-th free block of g. */
  lemma StartCovered(h: Heap, g: Heap, i: nat)
    requires h.Valid() && g.Valid() && i < |h.free| && i <= |g.free|
    requires forall u: Ptr :: h.FreeUnit(u) <==> g.FreeUnit(u)
    requires forall j :: 0 <= j < i ==> h.free[j] == g.free[j] && h.blocks[h.free[j]] == g.blocks[g.free[j]]
    ensures i < |g.free| && g.free[i] <= h.free[i]
  {
    var u := h.free[i];
    assert Covers(h.blocks, h.free[i], u);
    assert g.FreeUnit(u);
    var k: nat :| k < |g.free| && Covers(g.blocks, g.free[k], u);
    if i < k {
      assert g.free[i] < g.free[k];
    }
  }

  /** Free blocks do not abut: the unit after one is not free. */
  lemma EndNotFree(h: Heap, i: nat)
    requires h.Valid() && i < |h.free|
    ensures !h.FreeUnit(h.free[i] + h.blocks[h.free[i]])
  {
    var u := h.free[i] + h.blocks[h.free[i]];
    forall k | 0 <= k < |h.free| ensures !Covers(h.blocks, h.free[k], u) {
      if k < i {
        assert h.free[k] + h.blocks[h.free[k]] < h.free[i];
      } else if i < k {
        assert u < h.free[k];
      }
    }
  }

  /** When they start together, the i-th free block of h ends no later than that of g. */
  lemma EndCovered(h: Heap, g: Heap, i: nat)
    requires h.Valid() && g.Valid() && i < |h.free| && i < |g.free|
    requires forall u: Ptr :: h.FreeUnit(u) <==> g.FreeUnit(u)
    requires h.free[i] == g.free[i]
    ensures h.blocks[h.free[i]] <= g.blocks[g.free[i]]
  {
    var u := g.free[i] + g.blocks[g.free[i]];
    EndNotFree(g, i);
    assert !h.FreeUnit(u);
    assert !Covers(h.blocks, h.free[i], u);
  }

  /** Coalescing is complete: the free units alone determine the free list and its sizes. */
  lemma FreeListCanonical(h: Heap, g: Heap)
    requires h.Valid() && g.Valid()
    requires forall u: Ptr :: h.FreeUnit(u) <==> g.FreeUnit(u)
    ensures h.free == g.free
    ensures forall b :: b in h.free ==> h.blocks[b] == g.blocks[b]
  {
    SameFromIndex(h, g, 0);
  }

  // ----- the search in free -----------------------------------------------------------

  /** The two exits of the search loop: bp lies between p and its successor, or p is where
      the ring descends and bp lies beyond it. */
  predicate AtGap(p: Ptr, next: Ptr, bp: Ptr) {
    (bp > p && bp < next) || (p >= next && (bp > p || bp < next))
  }

  /** The free list has one descent, at the base, and the search stops at one ring index. */
  lemma UniqueGap(h: Heap, bp: Ptr, i: nat)
    requires h.Valid() && h.Live(bp) && i <= |h.free|
    ensures h.Ring()[i] >= h.Ring()[h.Next(i)] <==> i == |h.free|
    ensures AtGap(h.Ring()[i], h.Ring()[h.Next(i)], bp) <==> i == h.Prev(InsertPos(h.free, bp))
  {
    var pos := InsertPos(h.free, bp);
    LiveAmongFree(h, bp);
    if i < |h.free| {
      assert h.free[i] in h.blocks;
    }
    if |h.free| > 0 {
      assert h.free[0] in h.blocks;
    }
  }

  // ----- the null rover ---------------------------------------------------------------

  /**
   A null `freep` means "not initialised", and the next request would start a new list. The
   rover is null only in a heap that starts at address 0, when it stands on the first block.
   */
  lemma RoverNull(h: Heap)
    requires h.Valid()
    ensures h.Ring()[h.rover] == 0 <==> h.start == 0 && h.rover == 0 && h.free != [] && h.free[0] == 0
  {
    if h.rover < |h.free| {
      assert h.free[h.rover] in h.blocks;
      if h.rover > 0 { assert h.free[0] < h.free[h.rover]; }
    }
  }

  /** A free leaves it there exactly when only the free block at address 0 lies below bp. */
  lemma FreeLeavesRoverNull(h: Heap, bp: Ptr)
    requires h.Valid() && h.Live(bp)
    ensures var h' := FreeBlock(h, bp);
      h'.rover <= |h'.free| &&
      (h'.Ring()[h'.rover] == 0 <==> h.free != [] && h.free[0] == 0 && InsertPos(h.free, bp) == 1)
  {
    hide Tiling;
    AbsorbRightKeeps(h, bp);
    FreeBlockValid(h, bp);
    var pos := InsertPos(h.free, bp);
    if pos > 1 { assert h.free[0] < h.free[pos - 1]; }
  }

  /** A request that fits leaves it there exactly when the block after the one at 0 serves it. */
  lemma MallocLeavesRoverNull(h: Heap, n: nat)
    requires h.Valid() && n > 0 && !h.NoFit(n)
    ensures FirstFit(h, n).At?
    ensures var h' := MallocUnits(h, n).0;
      h'.rover <= |h'.free| && (h'.NullRover() <==> FirstFit(h, n).index == 1 && h.free[0] == 0)
  {
    hide Tiling;
    FirstFitNone(h, n);
    var i := FirstFit(h, n).index;
    if i > 1 { assert h.free[0] < h.free[i - 1]; }
  }

  /** Starting a new list drops the free blocks, and is otherwise harmless. */
  lemma AwakeValid(h: Heap)
    requires h.Valid()
    ensures Awake(h).Valid() && !Awake(h).NullRover() && Awake(h).blocks == h.blocks
    ensures Awake(h).start == h.start && Awake(h).end == h.end && Awake(h).base == h.base
    ensures Awake(h).grants == h.grants
    ensures h.NullRover() ==> h.start == 0 && h.free != [] && Awake(h).free == []
    ensures !h.NullRover() ==> Awake(h) == h
  {
    hide Tiling;
    RoverNull(h);
  }

  // ----- growth -----------------------------------------------------------------------

  lemma {:induction false} ScanNone(h: Heap, n: nat, i: nat, left: nat)
    requires h.FreeOk() && i <= |h.free| && left <= |h.free| + 1
    ensures Scan(h, n, i, left) == None <==>
      forall k :: 0 <= k < |h.free| && (i <= k < i + left || k < i + left - |h.free| - 1) ==> h.blocks[h.free[k]] < n
    decreases left
  {
    if left > 0 {
      ScanNone(h, n, h.Next(i), left - 1);
    }
  }

  lemma FirstFitNone(h: Heap, n: nat)
    requires h.Valid()
    ensures FirstFit(h, n) == None <==> h.NoFit(n)
  {
    ScanNone(h, n, h.Next(h.rover), |h.free| + 1);
  }

  lemma ExtendGap(h: Heap)
    requires h.Valid() && h.grants > 0
    ensures Extend(h).Valid() && Extend(h).Live(h.end)
    ensures InsertPos(h.free, h.end) == |h.free|
    ensures !MergesRight(Extend(h), h.end)
    ensures MergesLeft(Extend(h), h.end) <==> h.Tail() > 0
  {
    ExtendValid(h);
    assert forall i :: 0 <= i < |h.free| ==> h.free[i] in h.blocks;
  }

  /** A growth lengthens the free block at the end of the heap, or starts one there. */
  lemma GrowShape(h: Heap)
    requires h.Valid() && h.grants > 0
    ensures Grow(h).free == if h.Tail() > 0 then h.free else h.free + [h.end]
    ensures forall b :: b in h.free && b != h.free[|h.free| - 1] ==>
      b in Grow(h).blocks && Grow(h).blocks[b] == h.blocks[b]
    ensures |h.free| > 0 && h.Tail() == 0 ==>
      var b := h.free[|h.free| - 1]; b in Grow(h).blocks && Grow(h).blocks[b] == h.blocks[b]
    ensures var last := if h.Tail() > 0 then h.free[|h.free| - 1] else h.end;
      last in Grow(h).blocks && Grow(h).blocks[last] == h.Tail() + NALLOC
  {
    ExtendGap(h);
    assert forall b :: b in h.free ==> b in h.blocks && b != h.end;
  }

  lemma GrowTail(h: Heap, n: nat)
    requires h.Valid() && h.grants > 0
    ensures Grow(h).Valid() && Grow(h).end == h.end + NALLOC && Grow(h).grants == h.grants - 1
    ensures Grow(h).Tail() == h.Tail() + NALLOC
    ensures h.NoFit(n) ==> (Grow(h).NoFit(n) <==> h.Tail() + NALLOC < n)
  {
    hide Tiling;
    GrowValid(h);
    GrowShape(h);
    GrowEnd(h);
    assert Grow(h).FreeOk();
    GrowNoFit(h, Grow(h), n);
  }

  lemma GrowEnd(h: Heap)
    requires h.Valid() && h.grants > 0
    ensures Grow(h).end == h.end + NALLOC
  {
    hide Tiling;
    GrowValid(h);
  }

  lemma GrowNoFit(h: Heap, g: Heap, n: nat)
    requires h.FreeOk() && g.FreeOk()
    requires g.free == if h.Tail() > 0 then h.free else h.free + [h.end]
    requires forall i :: 0 <= i < |g.free| - 1 ==> g.blocks[g.free[i]] == h.blocks[h.free[i]]
    requires |g.free| > 0 && g.blocks[g.free[|g.free| - 1]] == h.Tail() + NALLOC
    requires g.end == h.end + NALLOC
    ensures g.Tail() == h.Tail() + NALLOC
    ensures h.NoFit(n) ==> (g.NoFit(n) <==> h.Tail() + NALLOC < n)
  {
  }

  /** A growth leaves the rover null exactly when the block at 0 is the only free one. */
  lemma GrowNull(h: Heap)
    requires h.Valid() && h.grants > 0
    ensures Grow(h).Valid() && (Grow(h).NullRover() <==> h.free == [0])
  {
    hide Tiling;
    GrowValid(h);
    ExtendGap(h);
    FreeLeavesRoverNull(Extend(h), h.end);
  }

  /**
   Growing from h for n units meets a null rover: at once when the block at 0 is the only free
   one, at the second growth when the heap is still empty and starts at 0.
   */
  predicate Spoiled(h: Heap, n: nat) {
    h.free == [0] || (h.end == 0 && n > NALLOC)
  }

  lemma SpoiledGrow(h: Heap, n: nat)
    requires h.Valid() && h.grants > 0 && n > 0 && h.NoFit(n) && h.free != [0]
    ensures Grow(h).Valid() && Grow(h).NoFit(n) ==> (Spoiled(Grow(h), n) <==> Spoiled(h, n))
    ensures Grow(h).Valid() && !Grow(h).NoFit(n) ==> !Spoiled(h, n)
  {
    hide Tiling;
    GrowTail(h, n);
    GrowShape(h);
    EmptyHeap(h);
  }

  lemma EmptyHeap(h: Heap)
    requires h.Valid()
    ensures h.end == 0 ==> h.free == [] && h.Tail() == 0
  {
    if h.free != [] { assert h.free[0] in h.blocks; }
  }

  /**
   Growth is by NALLOC units whatever the request, and yet just enough: with k growths the
   free block at the end has Tail + NALLOC * k units, and k is the least that suffices.
   Without a fit the request is served exactly when the grants reach that k and no growth on
   the way leaves the rover null, which can only happen in a heap that starts at 0.
   */
  lemma {:induction false} GrowsLeast(h: Heap, n: nat)
    requires h.Valid() && n > 0
    ensures MallocUnits(h, n).0.grants <= h.grants
    ensures var (h', r) := MallocUnits(h, n); var k := h.grants - h'.grants;
      && h'.end == h.end + NALLOC * k
      && (!h.NoFit(n) ==> k == 0 && r.At?)
      && (h.NoFit(n) && r.At? ==> k > 0 && h.Tail() + NALLOC * (k - 1) < n <= h.Tail() + NALLOC * k)
      && (h.NoFit(n) && r.None? && !Spoiled(h, n) ==> h'.grants == 0 && h.Tail() + NALLOC * k < n)
      && (r.At? <==> !h.NoFit(n) || (n <= h.Tail() + NALLOC * h.grants && !Spoiled(h, n)))
    decreases h.grants
  {
    hide Tiling, Grow, Heap.FreeOk, Spoiled;
    FirstFitNone(h, n);
    if h.NoFit(n) {
      TailTooSmall(h, n);
      if h.grants > 0 {
        GrowTail(h, n);
        GrowNull(h);
        if h.free != [0] {
          SpoiledGrow(h, n);
          GrowsLeast(Grow(h), n);
        } else {
          assert Spoiled(h, n) by { SpoiledAtOnce(h, n); }
        }
      }
    }
  }

  lemma SpoiledAtOnce(h: Heap, n: nat)
    requires h.free == [0]
    ensures Spoiled(h, n)
  {
  }

  lemma TailTooSmall(h: Heap, n: nat)
    requires h.FreeOk() && h.NoFit(n) && n > 0
    ensures h.Tail() < n
  {
  }

  /** The growths that a request of n units takes: the least number that suffices. */
  ghost function GrowthsFor(h: Heap, n: nat): nat
    requires h.FreeOk()
  {
    if !h.NoFit(n) || n <= h.Tail() then 0 else (n - h.Tail() + NALLOC - 1) / NALLOC
  }

  lemma LeastCount(t: nat, n: nat, k: nat)
    requires k > 0 && t + NALLOC * (k - 1) < n <= t + NALLOC * k
    ensures k == (n - t + NALLOC - 1) / NALLOC
  {
  }

  lemma CountReached(t: nat, n: nat, g: nat)
    requires t < n
    ensures n <= t + NALLOC * g <==> (n - t + NALLOC - 1) / NALLOC <= g
  {
  }

  /** A request is served exactly when the growths it takes are granted and none spoils the list. */
  lemma ServedWithin(h: Heap, n: nat)
    requires h.Valid() && n > 0
    ensures MallocUnits(h, n).1.At? <==> GrowthsFor(h, n) <= h.grants && (GrowthsFor(h, n) > 0 ==> !Spoiled(h, n))
    ensures MallocUnits(h, n).0.grants <= h.grants
    ensures MallocUnits(h, n).1.At? ==> h.grants - MallocUnits(h, n).0.grants == GrowthsFor(h, n)
  {
    hide MallocUnits, Tiling, Heap.FreeOk, Spoiled;
    GrowsLeast(h, n);
    if h.NoFit(n) {
      TailTooSmall(h, n);
      CountReached(h.Tail(), n, h.grants);
      CountReached(h.Tail(), n, 0);
      var k := h.grants - MallocUnits(h, n).0.grants;
      if MallocUnits(h, n).1.At? { LeastCount(h.Tail(), n, k); }
    }
  }

  /** The heap after k growths. */
  function GrowBy(h: Heap, k: nat): (g: Heap)
    requires h.Valid() && k <= h.grants
    ensures g.Valid() && g.grants == h.grants - k
  {
    if k == 0 then h
    else
      GrowValid(GrowBy(h, k - 1));
      Grow(GrowBy(h, k - 1))
  }

  lemma {:induction false} GrowFirst(h: Heap, k: nat)
    requires h.Valid() && k < h.grants
    ensures Grow(h).Valid() && Grow(h).grants == h.grants - 1 && GrowBy(h, k + 1) == GrowBy(Grow(h), k)
    decreases k
  {
    hide Heap.Valid, Grow;
    GrowValid(h);
    if k > 0 { GrowFirst(h, k - 1); }
  }

  /**
   A request in closed form: some growths and then, if it is served, one carving in the heap
   that they leave. A request that fails changes nothing else, not even the rover.
   */
  lemma {:induction false} RequestIsGrowthsAndCarve(h: Heap, n: nat)
    requires h.Valid() && n > 0
    ensures MallocUnits(h, n).0.grants <= h.grants
    ensures var (h', r) := MallocUnits(h, n); var g := GrowBy(h, h.grants - h'.grants);
      if r.None? then h' == g
      else FirstFit(g, n).At? &&
           h' == Carve(g, FirstFit(g, n).index, n) && r.index == CarvedAt(g, FirstFit(g, n).index, n)
    decreases h.grants
  {
    hide Tiling, Heap.FreeOk, Grow, FirstFit, Carve, CarvedAt;
    match FirstFit(h, n)
    case At(i) =>
      CarveGrantsKept(h, i, n);
    case None =>
      if h.grants > 0 {
        GrowFirst(h, 0);
        if !Grow(h).NullRover() {
          RequestIsGrowthsAndCarve(Grow(h), n);
          var k := Grow(h).grants - MallocUnits(Grow(h), n).0.grants;
          GrowFirst(h, k);
        }
      }
  }

  lemma CarveGrantsKept(h: Heap, i: nat, n: nat)
    requires h.Valid() && i < |h.free| && 0 < n <= h.blocks[h.free[i]]
    ensures Carve(h, i, n).grants == h.grants
  {
    hide Tiling, Heap.FreeOk;
  }

  // ----- what a request does ----------------------------------------------------------

  lemma GrowLive(h: Heap, b: Ptr)
    requires h.Valid() && h.grants > 0
    ensures Grow(h).Live(b) <==> h.Live(b)
    ensures h.Live(b) ==> Grow(h).blocks[b] == h.blocks[b]
  {
    ExtendValid(h);
    FreeBlockLive(Extend(h), h.end, b);
  }

  lemma GrowUnits(h: Heap, u: Ptr)
    requires h.Valid() && h.grants > 0
    ensures Grow(h).FreeUnit(u) <==> h.FreeUnit(u) || h.end <= u < Grow(h).end
  {
    ExtendValid(h);
    GrowTail(h, 0);
    FreeBlockUnits(Extend(h), h.end, u);
    ExtendUnits(h, u);
  }

  lemma ExtendUnits(h: Heap, u: Ptr)
    requires h.Valid() && h.grants > 0
    ensures Extend(h).FreeUnit(u) <==> h.FreeUnit(u)
  {
    var e := Extend(h);
    assert forall i :: 0 <= i < |h.free| ==> h.free[i] in h.blocks && h.free[i] != h.end;
    assert forall i :: 0 <= i < |h.free| ==> (Covers(h.blocks, h.free[i], u) <==> Covers(e.blocks, h.free[i], u));
  }

  /**
   A served request of n units makes one new live block of n units, and leaves every other
   live block alone; a failed one changes no live block.
   */
  lemma {:induction false} MallocUnitsLive(h: Heap, n: nat, b: Ptr)
    requires h.Valid() && n > 0
    ensures var (h', r) := MallocUnits(h, n);
      && h'.Valid()
      && (r.At? ==> h'.Live(r.index) && !h.Live(r.index) && h'.blocks[r.index] == n)
      && (h'.Live(b) <==> h.Live(b) || r == At(b))
      && (h.Live(b) ==> h'.blocks[b] == h.blocks[b])
    decreases h.grants
  {
    match FirstFit(h, n)
    case At(i) =>
      CarveValid(h, i, n);
      CarveLive(h, i, n, b);
    case None =>
      if h.grants > 0 {
        GrowValid(h);
        GrowLive(h, b);
        MallocUnitsLive(Grow(h), n, b);
        var r := MallocUnits(h, n).1;
        if r.At? { GrowLive(h, r.index); }
      }
  }

  lemma CarveLive(h: Heap, i: nat, n: nat, b: Ptr)
    requires h.Valid() && i < |h.free| && 0 < n <= h.blocks[h.free[i]]
    ensures var p, h1 := CarvedAt(h, i, n), Carve(h, i, n);
      && (h1.Live(b) <==> h.Live(b) || b == p)
      && (h.Live(b) ==> h1.blocks[b] == h.blocks[b])
      && p in h1.blocks && h1.blocks[p] == n
  {
    if n < h.blocks[h.free[i]] {
      SplitTiled(h.blocks, h.start, h.end, h.free[i], n);
    } else {
      RemoveMember(h, i, b);
    }
  }

  lemma RemoveMember(h: Heap, i: nat, b: Ptr)
    requires h.FreeOk() && i < |h.free|
    ensures b in RemoveAt(h.free, i) <==> b in h.free && b != h.free[i]
  {
    if b in h.free && b != h.free[i] {
      var j :| 0 <= j < |h.free| && h.free[j] == b;
      assert RemoveAt(h.free, i)[if j < i then j else j - 1] == b;
    }
  }

  /**
   Conservation: the free units afterwards are the free units before and the new units of
   every growth, less exactly the n units handed out.
   */
  lemma {:induction false} MallocUnitsConserves(h: Heap, n: nat, u: Ptr)
    requires h.Valid() && n > 0
    ensures var (h', r) := MallocUnits(h, n);
      && (h.FreeUnit(u) || h.end <= u < h'.end <==>
          h'.FreeUnit(u) || (r.At? && r.index <= u < r.index + n))
      && !(h'.FreeUnit(u) && r.At? && r.index <= u < r.index + n)
    decreases h.grants
  {
    hide Tiling, Heap.FreeOk, Heap.FreeUnit, Grow, Carve;
    match FirstFit(h, n)
    case At(i) =>
      CarveEnd(h, i, n);
      CarveUnits(h, i, n, u);
    case None =>
      if h.grants > 0 {
        GrowTail(h, n);
        GrowUnits(h, u);
        GrowsLeast(Grow(h), n);
        if !Grow(h).NullRover() { MallocUnitsConserves(Grow(h), n, u); }
      }
  }

  lemma CarveEnd(h: Heap, i: nat, n: nat)
    requires h.Valid() && i < |h.free| && 0 < n <= h.blocks[h.free[i]]
    ensures Carve(h, i, n).end == h.end
  {
    hide Tiling, Heap.FreeOk;
  }

  /** How far the k-th free block lies from the rover along the ring, in 1..|free| + 1. */
  function Distance(h: Heap, k: nat): nat
    requires k <= |h.free| && h.rover <= |h.free|
  {
    if h.rover < k then k - h.rover else k + |h.free| + 1 - h.rover
  }

  lemma {:induction false} ScanFirst(h: Heap, n: nat, i: nat, left: nat)
    requires h.Valid() && i <= |h.free|
    requires left > 0 ==> left == |h.free| + 2 - Distance(h, i)
    requires Scan(h, n, i, left).At?
    ensures var f := Scan(h, n, i, left).index;
      forall k :: 0 <= k < |h.free| && Distance(h, i) <= Distance(h, k) < Distance(h, f) ==> h.blocks[h.free[k]] < n
    ensures Distance(h, i) <= Distance(h, Scan(h, n, i, left).index)
    decreases left
  {
    if left > 0 && !(i < |h.free| && n <= h.blocks[h.free[i]]) {
      ScanFirst(h, n, h.Next(i), left - 1);
    }
  }

  /** A request that fits is carved off the end of the first block after the rover that fits. */
  lemma ServesFirst(h: Heap, n: nat)
    requires h.Valid() && n > 0 && !h.NoFit(n)
    ensures FirstFit(h, n).At?
    ensures var i := FirstFit(h, n).index;
      && n <= h.blocks[h.free[i]]
      && (forall k :: 0 <= k < |h.free| && Distance(h, k) < Distance(h, i) ==> h.blocks[h.free[k]] < n)
      && MallocUnits(h, n).1 == At(CarvedAt(h, i, n))
  {
    FirstFitNone(h, n);
    ScanFirst(h, n, h.Next(h.rover), |h.free| + 1);
  }

  /**
   The next search goes on where this one stopped: at what is left of the block that served
   it, or at the next block when nothing is left.
   */
  lemma SearchResumes(h: Heap, n: nat)
    requires h.Valid() && n > 0 && !h.NoFit(n)
    ensures FirstFit(h, n).At?
    ensures var i, h' := FirstFit(h, n).index, MallocUnits(h, n).0;
      h'.rover <= |h'.free| &&
      h'.Ring()[h'.Next(h'.rover)] == if n < h.blocks[h.free[i]] then h.free[i] else h.Ring()[h.Next(i)]
  {
    hide Tiling;
    FirstFitNone(h, n);
  }

  /** After a free it starts at the freed block, or just after the block that took it in. */
  lemma SearchAfterFree(h: Heap, bp: Ptr)
    requires h.Valid() && h.Live(bp)
    ensures var h' := FreeBlock(h, bp);
      h'.rover <= |h'.free| &&
      if MergesLeft(h, bp) then Covers(h'.blocks, h'.Ring()[h'.rover], bp)
      else h'.Ring()[h'.Next(h'.rover)] == bp
  {
    AbsorbRightKeeps(h, bp);
    FreeBlockValid(h, bp);
    if MergesLeft(h, bp) { assert bp in AbsorbRight(h, bp).blocks; }
  }

  /** Freeing what a request just returned gives back every unit, the new ones included. */
  lemma FreeUndoesMalloc(h: Heap, n: nat, u: Ptr)
    requires h.Valid() && n > 0 && MallocUnits(h, n).1.At?
    ensures var (h', r) := MallocUnits(h, n);
      && h'.Valid() && h'.Live(r.index)
      && (FreeBlock(h', r.index).FreeUnit(u) <==> h.FreeUnit(u) || h.end <= u < h'.end)
  {
    var (h', r) := MallocUnits(h, n);
    MallocUnitsLive(h, n, r.index);
    MallocUnitsConserves(h, n, u);
    FreeBlockUnits(h', r.index, u);
  }

  /** Without growth that restores the very free list the request started from. */
  lemma FreeRestoresList(h: Heap, n: nat)
    requires h.Valid() && n > 0 && !h.NoFit(n)
    ensures var (h', r) := MallocUnits(h, n);
      && r.At? && h'.Valid() && h'.Live(r.index)
      && FreeBlock(h', r.index).free == h.free
      && (forall b :: b in h.free ==>
            b in FreeBlock(h', r.index).blocks && FreeBlock(h', r.index).blocks[b] == h.blocks[b])
  {
    var (h', r) := MallocUnits(h, n);
    GrowsLeast(h, n);
    MallocUnitsLive(h, n, r.index);
    FreeBlockValid(h', r.index);
    forall u: Ptr ensures FreeBlock(h', r.index).FreeUnit(u) <==> h.FreeUnit(u) {
      FreeUndoesMalloc(h, n, u);
    }
    FreeListCanonical(FreeBlock(h', r.index), h);
  }

  lemma HeadsFree(h: Heap)
    requires h.Valid()
    ensures forall b :: b in h.free ==> h.FreeUnit(b)
  {
    forall b | b in h.free ensures h.FreeUnit(b) {
      var i: nat :| i < |h.free| && h.free[i] == b;
      CoversFree(h, i, b);
    }
  }

  /** Only the last free block can touch the end of the heap. */
  lemma TouchesEndLast(h: Heap)
    requires h.Valid()
    ensures |h.free| > 1 ==> h.free[0] + h.blocks[h.free[0]] < h.end
  {
    if |h.free| > 1 {
      assert h.free[0] + h.blocks[h.free[0]] < h.free[1];
      assert h.free[1] in h.blocks;
    }
  }

  /** With nothing live the whole heap is one free block again. */
  lemma AllFreed(h: Heap)
    requires h.Valid() && h.start < h.end
    requires forall b :: !h.Live(b)
    ensures h.free == [h.start] && h.blocks == map[h.start := h.end - h.start]
  {
    assert !h.Live(h.start);
    var i: nat :| i < |h.free| && h.free[i] == h.start;
    assert i == 0 by {
      assert h.free[0] in h.blocks;
    }
    HeadsFree(h);
    EndNotFree(h, 0);
    assert Followed(h.blocks, h.end, h.start);
    assert !h.Live(h.start + h.blocks[h.start]);
    assert h.start + h.blocks[h.start] == h.end;
    TouchesEndLast(h);
  }

  // ----- runs -------------------------------------------------------------------------

  /** Units for a request: a header and enough units for the payload, in 32-bit arithmetic. */
  function UnitsFor(nbytes: word): (n: nat)
    ensures n > 0
  {
    DivAbsoluteCeil(nbytes, 8)
  }

  /** The payload covers the request, except for the last 7 sizes, where the sum wraps. */
  lemma PayloadCovers(nbytes: word)
    requires nbytes > 0
    ensures 8 * (UnitsFor(nbytes) - 1) >= nbytes <==> nbytes <= TWO_32 - 8
    ensures nbytes <= TWO_32 - 8 ==> 8 * (UnitsFor(nbytes) - 1) < nbytes + 8
  {
  }

  /** Those sizes get a header alone. */
  lemma PayloadCanFallShort(nbytes: word)
    ensures UnitsFor(nbytes) == 1 <==> nbytes == 0 || nbytes > TWO_32 - 8
  {
  }

  lemma LiveInside(h: Heap, a: Ptr, b: Ptr)
    requires h.Valid() && h.Live(a)
    ensures h.start <= a && a + h.blocks[a] <= h.end
    ensures h.Live(b) && b != a ==> b + h.blocks[b] <= a || a + h.blocks[a] <= b
  {
  }

  function WithGrants(h: Heap, g: nat): Heap {
    h.(grants := g)
  }

  lemma FewerGrants(h: Heap, g: nat)
    requires h.Valid() && g <= h.grants
    ensures WithGrants(h, g).Valid()
  {
    hide Tiling;
  }

  /**
   malloc when frames suffice for `granted` growths, within the room that is left. A null
   rover makes it start a new list first.
   */
  function MallocStep(h: Heap, nbytes: word, granted: nat): (Heap, Ptr)
    requires h.Valid() && granted <= h.grants
  {
    if nbytes == 0 then (h, 0)
    else
      AwakeValid(h);
      FewerGrants(Awake(h), granted);
      var (h', r) := MallocUnits(WithGrants(Awake(h), granted), UnitsFor(nbytes));
      (Restore(h, granted, h'), match r case At(p) => p + 1 case None => 0)
  }

  /** h' with the room that is left after its growths. */
  function Restore(h: Heap, granted: nat, h': Heap): Heap
    requires granted <= h.grants
  {
    h'.(grants := h.grants - granted + h'.grants)
  }

  function FreeStep(h: Heap, ptr: Ptr): Heap
    requires h.Valid() && (ptr != 0 ==> h.Live(ptr - 1))
  {
    if ptr == 0 then h else FreeBlock(h, ptr - 1)
  }

  /**
   What malloc returns is the payload of a new block of the size asked for, inside the heap
   and apart from every block that is live before and after. Only a null rover takes other
   blocks off the list.
   */
  lemma MallocReturnsPayload(h: Heap, nbytes: word, granted: nat, b: Ptr)
    requires h.Valid() && granted <= h.grants && MallocStep(h, nbytes, granted).1 != 0
    ensures var (h', r) := MallocStep(h, nbytes, granted); var p := r - 1;
      && h'.Live(p) && !h.Live(p) && h'.blocks[p] == UnitsFor(nbytes)
      && h'.start <= p && p + h'.blocks[p] <= h'.end
      && (h'.Live(b) && b != p ==> b + h'.blocks[b] <= p || p + h'.blocks[p] <= b)
      && (h'.Live(b) <==> h.Live(b) || b == p || (h.NullRover() && b in h.free))
  {
    hide Tiling, MallocUnits;
    AwakeValid(h);
    FewerGrants(Awake(h), granted);
    var h0 := WithGrants(Awake(h), granted);
    var k := MallocUnits(h0, UnitsFor(nbytes)).0;
    var p := MallocStep(h, nbytes, granted).1 - 1;
    MallocUnitsLive(h0, UnitsFor(nbytes), b);
    LiveInside(k, p, b);
  }

  lemma RestoreValid(h: Heap, granted: nat, h': Heap)
    requires h.Valid() && granted <= h.grants && h'.Valid() && h'.base == h.base
    requires h'.grants <= granted && h'.end == h.end + NALLOC * (granted - h'.grants)
    ensures Restore(h, granted, h').Valid()
  {
    hide Tiling;
  }

  lemma {:induction false} MallocUnitsBase(h: Heap, n: nat)
    requires h.Valid() && n > 0
    ensures MallocUnits(h, n).0.base == h.base && MallocUnits(h, n).0.start == h.start
    decreases h.grants
  {
    hide Tiling, Heap.FreeOk;
    if FirstFit(h, n).None? && h.grants > 0 {
      GrowValid(h);
      GrowFrame(h);
      if !Grow(h).NullRover() { MallocUnitsBase(Grow(h), n); }
    }
  }

  lemma GrowFrame(h: Heap)
    requires h.Valid() && h.grants > 0
    ensures Grow(h).base == h.base && Grow(h).start == h.start
  {
    hide Tiling, Heap.FreeOk;
    ExtendValid(h);
  }

  /** Growth happens by whole steps, whether the request is served or not. */
  lemma {:induction false} MallocUnitsEnd(h: Heap, n: nat)
    requires h.Valid() && n > 0
    ensures MallocUnits(h, n).0.grants <= h.grants
    ensures MallocUnits(h, n).0.end == h.end + NALLOC * (h.grants - MallocUnits(h, n).0.grants)
  {
    hide MallocUnits, Tiling, Heap.FreeOk;
    GrowsLeast(h, n);
  }

  /** malloc keeps the heap valid and every live block with its size, whatever is granted. */
  lemma MallocStepKeeps(h: Heap, nbytes: word, granted: nat, b: Ptr)
    requires h.Valid() && granted <= h.grants
    ensures MallocStep(h, nbytes, granted).0.Valid()
    ensures h.Live(b) ==>
      MallocStep(h, nbytes, granted).0.Live(b) && MallocStep(h, nbytes, granted).0.blocks[b] == h.blocks[b]
    ensures MallocStep(h, nbytes, granted).0.start == h.start
  {
    hide Tiling, Heap.FreeOk, MallocUnits;
    if nbytes != 0 {
      AwakeValid(h);
      FewerGrants(Awake(h), granted);
      var h0, n := WithGrants(Awake(h), granted), UnitsFor(nbytes);
      MallocUnitsLive(h0, n, b);
      MallocUnitsEnd(h0, n);
      MallocUnitsBase(h0, n);
      RestoreValid(h, granted, MallocUnits(h0, n).0);
    }
  }

  lemma FreeStepKeeps(h: Heap, ptr: Ptr, b: Ptr)
    requires h.Valid() && (ptr != 0 ==> h.Live(ptr - 1))
    ensures FreeStep(h, ptr).Valid() && FreeStep(h, ptr).start == h.start
    ensures h.Live(b) && ptr != b + 1 ==> FreeStep(h, ptr).Live(b) && FreeStep(h, ptr).blocks[b] == h.blocks[b]
    ensures FreeStep(h, ptr).Live(b) ==> h.Live(b) && ptr != b + 1
  {
    if ptr != 0 {
      FreeBlockValid(h, ptr - 1);
      FreeBlockLive(h, ptr - 1, b);
    }
  }

  // ----- what the null rover loses ----------------------------------------------------

  /** A unit that malloc handed out. */
  predicate HandedOut(nbytes: word, r: Ptr, u: Ptr) {
    r != 0 && r - 1 <= u < r - 1 + UnitsFor(nbytes)
  }

  lemma MallocStepUnits(h: Heap, nbytes: word, granted: nat, u: Ptr)
    requires h.Valid() && granted <= h.grants && nbytes != 0
    ensures var (h', r) := MallocStep(h, nbytes, granted);
      && Awake(h).end == h.end && h.end <= h'.end
      && (Awake(h).FreeUnit(u) || h.end <= u < h'.end <==> h'.FreeUnit(u) || HandedOut(nbytes, r, u))
  {
    hide Tiling, Heap.FreeOk, MallocUnits, Covers;
    AwakeValid(h);
    FewerGrants(Awake(h), granted);
    var h0, n := WithGrants(Awake(h), granted), UnitsFor(nbytes);
    MallocUnitsConserves(h0, n, u);
    MallocUnitsEnd(h0, n);
    MallocUnitsLive(h0, n, 0);
  }

  /** On a null rover, no unit that was free is free or handed out any more. */
  lemma NullRoverLoses(h: Heap, nbytes: word, granted: nat, u: Ptr)
    requires h.Valid() && granted <= h.grants && nbytes != 0 && h.NullRover()
    ensures var (h', r) := MallocStep(h, nbytes, granted);
      h.FreeUnit(u) ==> !h'.FreeUnit(u) && !HandedOut(nbytes, r, u)
  {
    hide MallocStep, HandedOut;
    AwakeValid(h);
    MallocStepUnits(h, nbytes, granted, u);
    if h.FreeUnit(u) {
      var i: nat :| i < |h.free| && Covers(h.blocks, h.free[i], u);
      assert h.free[i] in h.blocks;
    }
  }

  /**
   malloc conserves units, the free ones and those of its growths against the free ones and
   those handed out, exactly when the list does not stand on a free block at address 0.
   */
  lemma MallocConserves(h: Heap, nbytes: word, granted: nat)
    requires h.Valid() && granted <= h.grants
    ensures var (h', r) := MallocStep(h, nbytes, granted);
      (forall u: Ptr :: h.FreeUnit(u) || h.end <= u < h'.end <==> h'.FreeUnit(u) || HandedOut(nbytes, r, u))
      <==> nbytes == 0 || !(h.start == 0 && h.rover == 0 && h.free != [] && h.free[0] == 0)
  {
    hide Tiling, MallocStep, HandedOut;
    RoverNull(h);
    AwakeValid(h);
    var (h', r) := MallocStep(h, nbytes, granted);
    if nbytes == 0 {
      NothingHandedOut(h, granted);
    } else if h.NullRover() {
      HeadsFree(h);
      NullRoverLoses(h, nbytes, granted, 0);
      assert h.FreeUnit(0);
    } else {
      forall u: Ptr
        ensures h.FreeUnit(u) || h.end <= u < h'.end <==> h'.FreeUnit(u) || HandedOut(nbytes, r, u)
      {
        MallocStepUnits(h, nbytes, granted, u);
      }
    }
  }

  lemma NothingHandedOut(h: Heap, granted: nat)
    requires h.Valid() && granted <= h.grants
    ensures MallocStep(h, 0, granted) == (h, 0)
    ensures forall u: Ptr :: !HandedOut(0, 0, u)
  {
  }

  /**
   The kernel's own first calls, malloc of 4096 bytes and its free, on the heap at address 0:
   the heap is one free block of 1024 units again, but the rover is null, so that with no
   more frames every later request fails.
   */
  lemma KernelFirstCalls(base: Ptr, grants: nat, nbytes: word)
    requires grants > 0 && NALLOC * grants < base
    ensures var (h1, r) := MallocStep(InitHeap(0, base, grants), 4096, 1);
      && r == 512 && h1.Valid() && h1.Live(511)
      && var h2 := FreeStep(h1, r);
         && h2.Valid() && h2.free == [0] && h2.blocks == map[0 := NALLOC] && h2.NullRover()
         && MallocStep(h2, nbytes, 0).1 == 0
  {
    var h0 := InitHeap(0, base, grants);
    var w := WithGrants(h0, 1);
    FirstGrowth(w);
    var g := Grow(w);
    assert FirstFit(w, 513) == None && FirstFit(g, 513) == At(0);
    assert MallocUnits(w, 513) == MallocUnits(g, 513);
    assert MallocUnits(g, 513) == (Carve(g, 0, 513), At(511));
    MallocStepKeeps(h0, 4096, 1, 0);
    MallocReturnsPayload(h0, 4096, 1, 511);
    var h1 := MallocStep(h0, 4096, 1).0;
    FreeFirstPayload(h1);
    var h2 := FreeStep(h1, 512);
    NothingWithoutGrants(h2, nbytes);
  }

  lemma FirstGrowth(w: Heap)
    requires w.Valid() && w.start == w.end == 0 && w.grants > 0 && w.blocks == map[] && w.free == [] && w.rover == 0
    ensures var g := Grow(w);
      g.Valid() && g.free == [0] && g.blocks == map[0 := NALLOC] && g.rover == 1 && g.grants == w.grants - 1
  {
    GrowValid(w);
  }

  lemma FreeFirstPayload(h: Heap)
    requires h.Valid() && h.free == [0] && h.blocks == map[0 := 511, 511 := 513] && h.start == 0 && h.end == NALLOC
    ensures h.Live(511)
    ensures var h2 := FreeStep(h, 512);
      h2.Valid() && h2.free == [0] && h2.blocks == map[0 := NALLOC] && h2.rover == 0
  {
    FreeBlockValid(h, 511);
    assert InsertPos(h.free, 511) == 1;
  }

  lemma NothingWithoutGrants(h: Heap, nbytes: word)
    requires h.Valid() && h.NullRover()
    ensures MallocStep(h, nbytes, 0).1 == 0
  {
    if nbytes != 0 {
      AwakeValid(h);
      FewerGrants(Awake(h), 0);
      FirstFitNone(WithGrants(Awake(h), 0), UnitsFor(nbytes));
    }
  }

  /** On a fresh heap at address 0 a request that needs two growths fails, however many are granted. */
  lemma LargeFirstRequest(base: Ptr, grants: nat, nbytes: word, granted: nat)
    requires NALLOC * grants < base && granted <= grants && UnitsFor(nbytes) > NALLOC
    ensures MallocStep(InitHeap(0, base, grants), nbytes, granted).1 == 0
  {
    hide MallocUnits;
    var h := InitHeap(0, base, grants);
    AwakeValid(h);
    FewerGrants(h, granted);
    if nbytes != 0 { ServedWithin(WithGrants(h, granted), UnitsFor(nbytes)); }
  }

  // ----- runs -------------------------------------------------------------------------

  /** The heap, and the blocks that the program was handed and has not freed. */
  datatype Program = Program(h: Heap, out: set<Ptr>)

  ghost predicate Sound(p: Program) {
    p.h.Valid() && forall b :: b in p.out ==> p.h.Live(b)
  }

  /** Every block off the list is one that the program holds. */
  ghost predicate NothingLost(p: Program) {
    forall b: Ptr :: p.h.Live(b) ==> b in p.out
  }

  /** A request says how many growths the frame allocator would serve for it. */
  datatype Op = Malloc(nbytes: word, granted: nat) | Free(ptr: Ptr)

  /** Programs free only what malloc gave them and they have not freed yet, or NULL. */
  ghost predicate Allowed(p: Program, op: Op) {
    match op
    case Malloc(_, granted) => granted <= p.h.grants
    case Free(ptr) => ptr != 0 ==> ptr - 1 in p.out
  }

  ghost function Step(p: Program, op: Op): Program
    requires Sound(p) && Allowed(p, op)
  {
    match op
    case Malloc(nbytes, granted) =>
      var (h', r) := MallocStep(p.h, nbytes, granted);
      Program(h', if r == 0 then p.out else p.out + {r - 1})
    case Free(ptr) => Program(FreeStep(p.h, ptr), if ptr == 0 then p.out else p.out - {ptr - 1})
  }

  /** Each operation keeps the heap valid, and every block the program holds, with its size. */
  lemma StepKeeps(p: Program, op: Op, b: Ptr)
    requires Sound(p) && Allowed(p, op)
    ensures Sound(Step(p, op)) && Step(p, op).h.start == p.h.start
    ensures b in p.out && op != Free(b + 1) ==>
      b in Step(p, op).out && Step(p, op).h.Live(b) && Step(p, op).h.blocks[b] == p.h.blocks[b]
  {
    hide Heap.Valid, Heap.Live, MallocStep, FreeStep;
    match op
    case Malloc(nbytes, granted) =>
      var (h', r) := MallocStep(p.h, nbytes, granted);
      forall c | c in p.out ensures h'.Live(c) { MallocStepKeeps(p.h, nbytes, granted, c); }
      MallocStepKeeps(p.h, nbytes, granted, b);
      if r != 0 { MallocReturnsPayload(p.h, nbytes, granted, b); }
    case Free(ptr) =>
      var h' := FreeStep(p.h, ptr);
      forall c | c in p.out && ptr != c + 1 ensures h'.Live(c) { FreeStepKeeps(p.h, ptr, c); }
      FreeStepKeeps(p.h, ptr, b);
  }

  /** An operation loses blocks exactly when it is a request on a null rover. */
  lemma StepLoses(p: Program, op: Op)
    requires Sound(p) && NothingLost(p) && Allowed(p, op)
    ensures NothingLost(Step(p, op)) <==>
      !(op.Malloc? && op.nbytes != 0 && p.h.start == 0 && p.h.rover == 0 && p.h.free != [] && p.h.free[0] == 0)
  {
    hide Tiling, Heap.FreeOk, MallocStep, FreeStep;
    RoverNull(p.h);
    var h' := Step(p, op).h;
    match op
    case Malloc(nbytes, granted) =>
      var r, lost := MallocStep(p.h, nbytes, granted).1, nbytes != 0 && p.h.NullRover();
      forall b: Ptr ensures h'.Live(b) <==> p.h.Live(b) || b + 1 == r || (lost && b in p.h.free) {
        MallocStepLive(p.h, nbytes, granted, b);
      }
      if nbytes != 0 && p.h.NullRover() { LostHead(p, nbytes, granted); }
    case Free(ptr) =>
      forall b: Ptr ensures h'.Live(b) ==> p.h.Live(b) && ptr != b + 1 { FreeStepKeeps(p.h, ptr, b); }
  }

  lemma MallocStepLive(h: Heap, nbytes: word, granted: nat, b: Ptr)
    requires h.Valid() && granted <= h.grants
    ensures var (h', r) := MallocStep(h, nbytes, granted);
      h'.Live(b) <==> h.Live(b) || b + 1 == r || (nbytes != 0 && h.NullRover() && b in h.free)
  {
    hide Tiling, MallocUnits;
    if nbytes != 0 {
      AwakeValid(h);
      FewerGrants(Awake(h), granted);
      MallocUnitsLive(WithGrants(Awake(h), granted), UnitsFor(nbytes), b);
    }
  }

  /** The first block of the old list is lost: it is off the list, and the program has another. */
  lemma LostHead(p: Program, nbytes: word, granted: nat)
    requires Sound(p) && granted <= p.h.grants && nbytes != 0 && p.h.NullRover()
    ensures var q := Step(p, Malloc(nbytes, granted));
      p.h.free != [] && q.h.Live(p.h.free[0]) && p.h.free[0] !in q.out
  {
    hide Tiling, MallocStep;
    AwakeValid(p.h);
    var b := p.h.free[0];
    MallocStepLive(p.h, nbytes, granted, b);
    HeadsFree(p.h);
    NullRoverLoses(p.h, nbytes, granted, b);
  }

  ghost predicate Runs(p: Program, ops: seq<Op>, p': Program)
    requires Sound(p)
    decreases |ops|
  {
    if ops == [] then p' == p
    else
      && Allowed(p, ops[0])
      && (StepKeeps(p, ops[0], 0); Runs(Step(p, ops[0]), ops[1..], p'))
  }

  /**
   Every run keeps the heap valid, and each held block that it does not free with its size,
   whether it starts new lists on the way or not.
   */
  lemma {:induction false} RunKeeps(p: Program, ops: seq<Op>, p': Program, b: Ptr)
    requires Sound(p) && Runs(p, ops, p')
    ensures Sound(p') && p'.h.start == p.h.start
    ensures b in p.out && Free(b + 1) !in ops ==> b in p'.out && p'.h.blocks[b] == p.h.blocks[b]
    decreases |ops|
  {
    hide Step, Sound, Allowed;
    if ops != [] {
      StepKeeps(p, ops[0], b);
      RunKeeps(Step(p, ops[0]), ops[1..], p', b);
    }
  }

  /** In a heap above address 0 no run loses a block. */
  lemma {:induction false} RunLosesNothing(p: Program, ops: seq<Op>, p': Program)
    requires Sound(p) && NothingLost(p) && p.h.start > 0 && Runs(p, ops, p')
    ensures NothingLost(p')
    decreases |ops|
  {
    hide Step, Sound, Allowed, NothingLost;
    if ops != [] {
      StepKeeps(p, ops[0], 0);
      StepLoses(p, ops[0]);
      RunLosesNothing(Step(p, ops[0]), ops[1..], p');
    }
  }

  /**
   In every state that a run from the empty heap reaches, each unit of the heap is free or
   in a block off the list, not both; and off the list are only blocks that the program
   holds, when the heap starts above address 0.
   */
  lemma ReachableTiled(start: Ptr, base: Ptr, grants: nat, ops: seq<Op>, p: Program, u: Ptr)
    requires start + NALLOC * grants < base
    requires Runs(Program(InitHeap(start, base, grants), {}), ops, p)
    ensures p.h.Valid() && p.h.start == start
    ensures p.h.start <= u < p.h.end ==>
      (p.h.FreeUnit(u) <==> !exists b :: p.h.Live(b) && Covers(p.h.blocks, b, u))
    ensures start > 0 ==> forall b :: p.h.Live(b) <==> b in p.out
  {
    var p0 := Program(InitHeap(start, base, grants), {});
    RunKeeps(p0, ops, p, 0);
    if start > 0 { RunLosesNothing(p0, ops, p); }
    if p.h.start <= u < p.h.end { FreeOrLive(p.h, u); }
  }

  lemma FreeOrLive(h: Heap, u: Ptr)
    requires h.Valid() && h.start <= u < h.end
    ensures h.FreeUnit(u) <==> !exists b :: h.Live(b) && Covers(h.blocks, b, u)
  {
    BlocksTile(h, u);
    var b :| Covers(h.blocks, b, u);
    if h.FreeUnit(u) {
      var i: nat :| i < |h.free| && Covers(h.blocks, h.free[i], u);
    } else {
      assert forall i :: 0 <= i < |h.free| ==> h.free[i] != b;
    }
  }
}
