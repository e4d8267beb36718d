/**
 The kernel heap as its blocks.

 A block is a run of 8-byte units that starts with its header; a pointer to a header is
 written as its byte address divided by 8, so header-pointer arithmetic counts units.
 `blocks` gives the size of every block, `free` the headers of the free ones in address
 order. The list that the allocator walks is the ring `free + [base]`: the sentinel `base`
 has size 0 and lies above the heap. `rover` is the ring index that `freep` points to.
 */
module HeapSpec {

  type Ptr = nat

  const NALLOC: nat := 1024

  /** Unit u belongs to block b. */
  ghost predicate Covers(blocks: map<Ptr, nat>, b: Ptr, u: Ptr) {
    b in blocks && b <= u < b + blocks[b]
  }

  /** Where block b ends, the heap ends or another block starts. */
  ghost predicate Followed(blocks: map<Ptr, nat>, end: Ptr, b: Ptr)
    requires b in blocks
  {
    b + blocks[b] == end || b + blocks[b] in blocks
  }

  /**
   The blocks follow each other without overlap or hole from start to end.
   */
  ghost predicate Tiling(blocks: map<Ptr, nat>, start: Ptr, end: Ptr) {
    && (forall b :: b in blocks ==> start <= b && 1 <= blocks[b] && b + blocks[b] <= end)
    && (forall b {:trigger Followed(blocks, end, b)} :: b in blocks ==> Followed(blocks, end, b))
    && (forall b, c :: b in blocks && c in blocks && b < c ==> b + blocks[b] <= c)
    && (start < end ==> start in blocks)
  }

  /** The blocks after r = l + blocks[l] has been folded into l. */
  function Fold(blocks: map<Ptr, nat>, l: Ptr, r: Ptr): (m: map<Ptr, nat>)
    requires l in blocks && r in blocks
    ensures forall b :: b in m <==> b in blocks && b != r
    ensures forall b :: b in m ==> m[b] == if b == l then blocks[l] + blocks[r] else blocks[b]
  {
    blocks[l := blocks[l] + blocks[r]] - {r}
  }

  /** The blocks after the last n units of block b have become a block of their own. */
  function Split(blocks: map<Ptr, nat>, b: Ptr, n: nat): (m: map<Ptr, nat>)
    requires b in blocks && 0 < n < blocks[b]
    ensures var p := b + blocks[b] - n;
      && (forall c :: c in m <==> c in blocks || c == p)
      && (forall c :: c in m ==>
            m[c] == if c == p then n else if c == b then blocks[b] - n else blocks[c])
  {
    blocks[b := blocks[b] - n][b + blocks[b] - n := n]
  }

  function RemoveAt(s: seq<Ptr>, i: nat): (r: seq<Ptr>)
    requires i < |s|
    ensures |r| == |s| - 1
    ensures forall j :: 0 <= j < i ==> r[j] == s[j]
    ensures forall j :: i <= j < |r| ==> r[j] == s[j + 1]
  {
    s[..i] + s[i + 1..]
  }

  function InsertAt(s: seq<Ptr>, i: nat, x: Ptr): (r: seq<Ptr>)
    requires i <= |s|
    ensures |r| == |s| + 1 && r[i] == x
    ensures forall j :: 0 <= j < i ==> r[j] == s[j]
    ensures forall j :: i < j < |r| ==> r[j] == s[j - 1]
  {
    s[..i] + [x] + s[i..]
  }

  datatype Heap = Heap(
    start: Ptr, end: Ptr, base: Ptr,
    blocks: map<Ptr, nat>, free: seq<Ptr>, rover: nat,
    grants: nat)  // how many more growths can be served
  {
    ghost predicate Tiled() {
      Tiling(blocks, start, end)
    }

    /** Ascending, and a gap of at least one unit between consecutive free blocks. */
    ghost predicate FreeOk() {
      && (forall i :: 0 <= i < |free| ==> free[i] in blocks)
      && (forall i, j :: 0 <= i < j < |free| ==> free[i] + blocks[free[i]] < free[j])
    }

    ghost predicate Valid() {
      && start <= end
      && end + NALLOC * grants < base
      && rover <= |free|
      && Tiled()
      && FreeOk()
    }

    /** A block off the list: a caller's, or one that no list leads to any more. */
    ghost predicate Live(b: Ptr) {
      b in blocks && b !in free
    }

    /** `freep` is 0, which the source takes for "not initialised". */
    predicate NullRover()
      requires rover <= |free|
    {
      Ring()[rover] == 0
    }

    /** u lies in some free block. */
    ghost predicate FreeUnit(u: Ptr) {
      exists i :: 0 <= i < |free| && Covers(blocks, free[i], u)
    }

    /** The size of the free block that touches the end of the heap, 0 when there is none. */
    function Tail(): nat
      requires FreeOk()
    {
      if |free| > 0 && free[|free| - 1] + blocks[free[|free| - 1]] == end
      then blocks[free[|free| - 1]] else 0
    }

    ghost predicate NoFit(n: nat)
      requires FreeOk()
    {
      forall i :: 0 <= i < |free| ==> blocks[free[i]] < n
    }

    function Ring(): (r: seq<Ptr>)
      ensures |r| == |free| + 1
    {
      free + [base]
    }

    function Next(i: nat): nat {
      if i < |free| then i + 1 else 0
    }

    /** Ring positions from i up to and with the rover. */
    function ToRover(i: nat): nat
      requires i <= |free| && rover <= |free|
    {
      if i <= rover then rover - i + 1 else rover + |free| + 2 - i
    }

    function Prev(i: nat): nat {
      if i == 0 then |free| else i - 1
    }
  }

  function InitHeap(start: Ptr, base: Ptr, grants: nat): (h: Heap)
    requires start + NALLOC * grants < base
    ensures h.Valid()
  {
    Heap(start, start, base, map[], [], 0, grants)
  }

  // ----- free -------------------------------------------------------------------------

  /** How many free blocks lie below bp. */
  function InsertPos(free: seq<Ptr>, bp: Ptr): (pos: nat)
    ensures pos <= |free|
    ensures forall i :: 0 <= i < pos ==> free[i] < bp
    ensures pos < |free| ==> bp <= free[pos]
  {
    if free == [] || bp <= free[0] then 0 else 1 + InsertPos(free[1..], bp)
  }

  predicate MergesRight(h: Heap, bp: Ptr)
    requires h.FreeOk() && bp in h.blocks
  {
    var pos := InsertPos(h.free, bp);
    pos < |h.free| && bp + h.blocks[bp] == h.free[pos]
  }

  predicate MergesLeft(h: Heap, bp: Ptr)
    requires h.FreeOk() && bp in h.blocks
  {
    var pos := InsertPos(h.free, bp);
    pos > 0 && h.free[pos - 1] + h.blocks[h.free[pos - 1]] == bp
  }

  /** Links bp in front of the first free block above it, absorbing that block if it abuts. */
  function AbsorbRight(h: Heap, bp: Ptr): Heap
    requires h.FreeOk() && bp in h.blocks
  {
    var pos := InsertPos(h.free, bp);
    if MergesRight(h, bp) then
      var r := h.free[pos];
      h.(blocks := Fold(h.blocks, bp, r),
         free := h.free[pos := bp])
    else
      h.(free := InsertAt(h.free, pos, bp))
  }

  /** Folds the free block at ring index pos into its left neighbour. */
  function AbsorbLeft(h: Heap, pos: nat): Heap
    requires 0 < pos < |h.free| && h.free[pos] in h.blocks && h.free[pos - 1] in h.blocks
  {
    var l, bp := h.free[pos - 1], h.free[pos];
    h.(blocks := Fold(h.blocks, l, bp),
       free := RemoveAt(h.free, pos))
  }

  function FreeBlock(h: Heap, bp: Ptr): Heap
    requires h.Valid() && h.Live(bp)
  {
    var pos := InsertPos(h.free, bp);
    var h1 := AbsorbRight(h, bp);
    var h2 := if MergesLeft(h, bp) then AbsorbLeft(h1, pos) else h1;
    h2.(rover := if pos == 0 then |h2.free| else pos - 1)
  }

  // ----- malloc -----------------------------------------------------------------------

  datatype Fit = None | At(index: nat)

  /** Looks for a block of n units at the `left` ring positions from i on. */
  function Scan(h: Heap, n: nat, i: nat, left: nat): (r: Fit)
    requires h.FreeOk() && i <= |h.free|
    ensures r.At? ==> r.index < |h.free| && n <= h.blocks[h.free[r.index]]
    decreases left
  {
    if left == 0 then None
    else if i < |h.free| && n <= h.blocks[h.free[i]] then At(i)
    else Scan(h, n, h.Next(i), left - 1)
  }

  /** One round of the ring, from the position after the rover up to the rover itself. */
  function FirstFit(h: Heap, n: nat): (r: Fit)
    requires h.FreeOk() && h.rover <= |h.free|
    ensures r.At? ==> r.index < |h.free| && n <= h.blocks[h.free[r.index]]
  {
    Scan(h, n, h.Next(h.rover), |h.free| + 1)
  }

  /** Where a request of n units that block i serves is placed: the tail of the block. */
  function CarvedAt(h: Heap, i: nat, n: nat): Ptr
    requires h.FreeOk() && i < |h.free| && n <= h.blocks[h.free[i]]
  {
    h.free[i] + h.blocks[h.free[i]] - n
  }

  function Carve(h: Heap, i: nat, n: nat): Heap
    requires h.FreeOk() && i < |h.free| && 0 < n <= h.blocks[h.free[i]]
  {
    var b := h.free[i];
    var s := h.blocks[b];
    var h1 := if s == n then h.(free := RemoveAt(h.free, i))
              else h.(blocks := Split(h.blocks, b, n));
    h1.(rover := h1.Prev(i))
  }

  /** The heap with one more run of NALLOC units at its end, not yet free. */
  function Extend(h: Heap): Heap
    requires h.grants > 0
  {
    h.(end := h.end + NALLOC, blocks := h.blocks[h.end := NALLOC], grants := h.grants - 1)
  }

  function Grow(h: Heap): Heap
    requires h.Valid() && h.grants > 0
  {
    ExtendValid(h);
    FreeBlock(Extend(h), h.end)
  }

  /** A growth that leaves `freep` null reads as a failure, though the heap has grown. */
  function MallocUnits(h: Heap, n: nat): (Heap, Fit)
    requires h.Valid() && n > 0
    decreases h.grants
  {
    match FirstFit(h, n)
    case At(i) => (Carve(h, i, n), At(CarvedAt(h, i, n)))
    case None =>
      if h.grants == 0 then (h, None)
      else
        GrowValid(h);
        if Grow(h).NullRover() then (Grow(h), None) else MallocUnits(Grow(h), n)
  }

  /** malloc on a null rover starts a new list; the blocks of the old one stay where they are. */
  function Awake(h: Heap): Heap
    requires h.rover <= |h.free|
  {
    if h.NullRover() then h.(free := [], rover := 0) else h
  }

  // ----- what the operations keep -----------------------------------------------------

  lemma ExtendValid(h: Heap)
    requires h.Valid() && h.grants > 0
    ensures Extend(h).Valid() && Extend(h).Live(h.end)
  {
    var e := Extend(h);
    forall b | b in e.blocks ensures Followed(e.blocks, e.end, b) {
      assert b != h.end ==> Followed(h.blocks, h.end, b);
    }
  }

  lemma FoldFollowed(blocks: map<Ptr, nat>, start: Ptr, end: Ptr, l: Ptr, r: Ptr, b: Ptr)
    requires Tiling(blocks, start, end)
    requires l in blocks && r in blocks && r == l + blocks[l]
    requires b in blocks && b != r
    ensures Followed(Fold(blocks, l, r), end, b)
  {
    assert Followed(blocks, end, b) && Followed(blocks, end, r);
  }

  lemma FoldTiled(blocks: map<Ptr, nat>, start: Ptr, end: Ptr, l: Ptr, r: Ptr)
    requires Tiling(blocks, start, end)
    requires l in blocks && r in blocks && r == l + blocks[l]
    ensures Tiling(Fold(blocks, l, r), start, end)
  {
    var m := Fold(blocks, l, r);
    forall b | b in m ensures Followed(m, end, b) {
      FoldFollowed(blocks, start, end, l, r, b);
    }
    forall b, c | b in m && c in m && b < c ensures b + m[b] <= c {
      if b == l { assert r < c; }
    }
  }

  lemma GrowValid(h: Heap)
    requires h.Valid() && h.grants > 0
    ensures Grow(h).Valid() && Grow(h).grants == h.grants - 1
  {
    ExtendValid(h);
    FreeBlockValid(Extend(h), h.end);
  }

  /** All that FreeOk says, except that the blocks at pos - 1 and pos may abut. */
  ghost predicate FreeButAt(h: Heap, pos: nat) {
    && (forall i :: 0 <= i < |h.free| ==> h.free[i] in h.blocks)
    && (forall i, j :: 0 <= i < j < |h.free| ==>
          && h.free[i] < h.free[j]
          && h.free[i] + h.blocks[h.free[i]] <= h.free[j]
          && (j != pos || i != pos - 1 ==> h.free[i] + h.blocks[h.free[i]] < h.free[j]))
  }

  /** Where bp stands against the i-th free block. */
  lemma LiveAgainstFree(h: Heap, bp: Ptr, i: nat)
    requires h.Tiled() && h.FreeOk() && h.Live(bp) && i < |h.free|
    ensures var pos := InsertPos(h.free, bp);
      && (i < pos ==> h.free[i] + h.blocks[h.free[i]] <= bp)
      && (i < pos - 1 ==> h.free[i] + h.blocks[h.free[i]] < bp)
      && (pos <= i ==> bp + h.blocks[bp] <= h.free[i])
      && (pos < i ==> bp + h.blocks[bp] < h.free[i])
  {
    var pos := InsertPos(h.free, bp);
    assert h.free[i] in h.blocks && h.free[i] != bp;
    if i < pos - 1 {
      assert h.free[i] + h.blocks[h.free[i]] < h.free[pos - 1];
    } else if pos < i {
      assert h.free[pos] < h.free[i] && h.free[pos] in h.blocks && h.free[pos] != bp;
    } else if pos == i {
      assert bp < h.free[i];
    }
  }

  lemma LiveAmongFree(h: Heap, bp: Ptr)
    requires h.Tiled() && h.FreeOk() && h.Live(bp)
    ensures var pos := InsertPos(h.free, bp);
      && (forall i :: 0 <= i < pos ==> h.free[i] + h.blocks[h.free[i]] <= bp)
      && (forall i :: 0 <= i < pos - 1 ==> h.free[i] + h.blocks[h.free[i]] < bp)
      && (forall i :: pos <= i < |h.free| ==> bp + h.blocks[bp] <= h.free[i])
      && (forall i :: pos < i < |h.free| ==> bp + h.blocks[bp] < h.free[i])
  {
    forall i: nat | i < |h.free|
      ensures i < InsertPos(h.free, bp) ==> h.free[i] + h.blocks[h.free[i]] <= bp
      ensures i < InsertPos(h.free, bp) - 1 ==> h.free[i] + h.blocks[h.free[i]] < bp
      ensures InsertPos(h.free, bp) <= i ==> bp + h.blocks[bp] <= h.free[i]
      ensures InsertPos(h.free, bp) < i ==> bp + h.blocks[bp] < h.free[i]
    {
      LiveAgainstFree(h, bp, i);
    }
  }

  lemma InsertKeeps(h: Heap, bp: Ptr)
    requires h.Valid() && h.Live(bp) && !MergesRight(h, bp)
    ensures FreeButAt(AbsorbRight(h, bp), InsertPos(h.free, bp))
  {
    hide Tiling;
    var pos := InsertPos(h.free, bp);
    var f := AbsorbRight(h, bp).free;
    LiveAmongFree(h, bp);
    assert forall i :: 0 <= i < pos ==> f[i] == h.free[i];
    assert f[pos] == bp;
    assert forall i :: pos < i < |f| ==> f[i] == h.free[i - 1];
    forall i, j | 0 <= i < j < |f|
      ensures f[i] < f[j] && f[i] + h.blocks[f[i]] <= f[j]
      ensures j != pos || i != pos - 1 ==> f[i] + h.blocks[f[i]] < f[j]
    {
      if i == pos {
        assert f[j] == h.free[j - 1];
      } else if i < pos < j {
        assert f[j] == h.free[j - 1];
      } else if pos < i {
        assert f[i] == h.free[i - 1] && f[j] == h.free[j - 1];
      }
    }
  }

  lemma MergeRightKeeps(h: Heap, bp: Ptr)
    requires h.Valid() && h.Live(bp) && MergesRight(h, bp)
    ensures FreeButAt(AbsorbRight(h, bp), InsertPos(h.free, bp))
  {
    hide Tiling;
    LiveAmongFree(h, bp);
  }

  lemma AbsorbRightKeeps(h: Heap, bp: Ptr)
    requires h.Valid() && h.Live(bp)
    ensures AbsorbRight(h, bp).Tiled()
    ensures var pos := InsertPos(h.free, bp);
      && FreeButAt(AbsorbRight(h, bp), pos)
      && pos < |AbsorbRight(h, bp).free| && AbsorbRight(h, bp).free[pos] == bp
      && (pos > 0 ==>
            AbsorbRight(h, bp).free[pos - 1] == h.free[pos - 1] &&
            AbsorbRight(h, bp).blocks[h.free[pos - 1]] == h.blocks[h.free[pos - 1]])
  {
    var pos := InsertPos(h.free, bp);
    if MergesRight(h, bp) {
      MergeRightKeeps(h, bp);
      FoldTiled(h.blocks, h.start, h.end, bp, h.free[pos]);
    } else {
      InsertKeeps(h, bp);
    }
  }

  lemma AbsorbLeftKeeps(h: Heap, pos: nat)
    requires h.Tiled() && FreeButAt(h, pos) && 0 < pos < |h.free|
    requires h.free[pos - 1] + h.blocks[h.free[pos - 1]] == h.free[pos]
    ensures AbsorbLeft(h, pos).Tiled() && AbsorbLeft(h, pos).FreeOk()
  {
    FoldTiled(h.blocks, h.start, h.end, h.free[pos - 1], h.free[pos]);
  }

  lemma FreeBlockValid(h: Heap, bp: Ptr)
    requires h.Valid() && h.Live(bp)
    ensures FreeBlock(h, bp).Valid()
  {
    hide Tiling;
    var pos := InsertPos(h.free, bp);
    AbsorbRightKeeps(h, bp);
    if MergesLeft(h, bp) {
      AbsorbLeftKeeps(AbsorbRight(h, bp), pos);
    }
  }

  lemma SplitFollowed(blocks: map<Ptr, nat>, start: Ptr, end: Ptr, b: Ptr, n: nat, c: Ptr)
    requires Tiling(blocks, start, end)
    requires b in blocks && 0 < n < blocks[b]
    requires c in blocks || c == b + blocks[b] - n
    ensures b + blocks[b] - n !in blocks
    ensures Followed(Split(blocks, b, n), end, c)
  {
    assert c in blocks ==> Followed(blocks, end, c);
    assert Followed(blocks, end, b);
  }

  lemma SplitTiled(blocks: map<Ptr, nat>, start: Ptr, end: Ptr, b: Ptr, n: nat)
    requires Tiling(blocks, start, end)
    requires b in blocks && 0 < n < blocks[b]
    ensures b + blocks[b] - n !in blocks
    ensures Tiling(Split(blocks, b, n), start, end)
  {
    var m := Split(blocks, b, n);
    SplitFollowed(blocks, start, end, b, n, b);
    forall c | c in m ensures Followed(m, end, c) {
      SplitFollowed(blocks, start, end, b, n, c);
    }
    forall c, d | c in m && d in m && c < d ensures c + m[c] <= d {
      if c in blocks && d in blocks {
        assert c + blocks[c] <= d;
      } else if c in blocks {
        assert c <= b;
      } else {
        assert b < d;
      }
    }
  }

  lemma CarveFreeOk(h: Heap, i: nat, n: nat)
    requires h.Valid() && i < |h.free| && 0 < n <= h.blocks[h.free[i]]
    ensures Carve(h, i, n).FreeOk() && CarvedAt(h, i, n) !in Carve(h, i, n).free
  {
    var h1 := Carve(h, i, n);
    var b, p := h.free[i], CarvedAt(h, i, n);
    if h.blocks[b] == n {
      assert forall j :: 0 <= j < |h1.free| ==> h1.free[j] == h.free[if j < i then j else j + 1];
    } else {
      SplitTiled(h.blocks, h.start, h.end, b, n);
      assert forall j :: 0 <= j < |h1.free| ==> h1.free[j] in h.blocks;
    }
  }

  lemma CarveValid(h: Heap, i: nat, n: nat)
    requires h.Valid() && i < |h.free| && 0 < n <= h.blocks[h.free[i]]
    ensures Carve(h, i, n).Valid()
    ensures Carve(h, i, n).Live(CarvedAt(h, i, n)) && !h.Live(CarvedAt(h, i, n))
  {
    CarveFreeOk(h, i, n);
    if n < h.blocks[h.free[i]] {
      SplitTiled(h.blocks, h.start, h.end, h.free[i], n);
    }
  }

  lemma CoversFree(h: Heap, i: nat, u: Ptr)
    requires i < |h.free| && Covers(h.blocks, h.free[i], u)
    ensures h.FreeUnit(u)
  {
  }

  lemma CoversOnce(h: Heap, i: nat, k: nat, u: Ptr)
    requires h.FreeOk() && i < |h.free| && k < |h.free| && i != k && Covers(h.blocks, h.free[k], u)
    ensures !Covers(h.blocks, h.free[i], u)
  {
  }

  lemma RemoveUnits(h: Heap, i: nat, u: Ptr)
    requires h.FreeOk() && i < |h.free|
    ensures var h1 := h.(free := RemoveAt(h.free, i));
      && (h.FreeUnit(u) <==> h1.FreeUnit(u) || Covers(h.blocks, h.free[i], u))
      && !(h1.FreeUnit(u) && Covers(h.blocks, h.free[i], u))
  {
    var h1 := h.(free := RemoveAt(h.free, i));
    if h1.FreeUnit(u) {
      RemoveUnitsBack(h, i, u);
    } else if h.FreeUnit(u) {
      var k: nat :| k < |h.free| && Covers(h.blocks, h.free[k], u);
      if k < i { CoversFree(h1, k, u); }
      if k > i { CoversFree(h1, k - 1, u); }
    }
  }

  lemma RemoveUnitsBack(h: Heap, i: nat, u: Ptr)
    requires h.FreeOk() && i < |h.free|
    requires h.(free := RemoveAt(h.free, i)).FreeUnit(u)
    ensures h.FreeUnit(u) && !Covers(h.blocks, h.free[i], u)
  {
    var h1 := h.(free := RemoveAt(h.free, i));
    var j: nat :| j < |h1.free| && Covers(h.blocks, h1.free[j], u);
    var k := if j < i then j else j + 1;
    assert Covers(h.blocks, h.free[k], u);
    CoversOnce(h, i, k, u);
    CoversFree(h, k, u);
  }

  lemma SplitUnitsBack(h: Heap, i: nat, n: nat, u: Ptr)
    requires h.Valid() && i < |h.free| && 0 < n < h.blocks[h.free[i]]
    ensures var p, h1 := CarvedAt(h, i, n), h.(blocks := Split(h.blocks, h.free[i], n));
      h1.FreeUnit(u) ==> h.FreeUnit(u) && !(p <= u < p + n)
  {
    var h1 := h.(blocks := Split(h.blocks, h.free[i], n));
    SplitTiled(h.blocks, h.start, h.end, h.free[i], n);
    if h1.FreeUnit(u) {
      var j: nat :| j < |h1.free| && Covers(h1.blocks, h1.free[j], u);
      assert h.free[j] in h.blocks;
      CoversFree(h, j, u);
    }
  }

  lemma SplitUnits(h: Heap, i: nat, n: nat, u: Ptr)
    requires h.Valid() && i < |h.free| && 0 < n < h.blocks[h.free[i]]
    ensures var p, h1 := CarvedAt(h, i, n), h.(blocks := Split(h.blocks, h.free[i], n));
      && (h.FreeUnit(u) <==> h1.FreeUnit(u) || p <= u < p + n)
      && !(h1.FreeUnit(u) && p <= u < p + n)
  {
    hide Tiling;
    var p, h1 := CarvedAt(h, i, n), h.(blocks := Split(h.blocks, h.free[i], n));
    SplitUnitsBack(h, i, n, u);
    if p <= u < p + n {
      CoversFree(h, i, u);
    } else if h.FreeUnit(u) {
      var k: nat :| k < |h.free| && Covers(h.blocks, h.free[k], u);
      assert h.free[k] in h.blocks;
      CoversFree(h1, k, u);
    }
  }

  /** Carving takes exactly the units [p, p + n) out of the free ones. */
  lemma CarveUnits(h: Heap, i: nat, n: nat, u: Ptr)
    requires h.Valid() && i < |h.free| && 0 < n <= h.blocks[h.free[i]]
    ensures var p, h1 := CarvedAt(h, i, n), Carve(h, i, n);
      && (h.FreeUnit(u) <==> h1.FreeUnit(u) || p <= u < p + n)
      && !(h1.FreeUnit(u) && p <= u < p + n)
  {
    if n == h.blocks[h.free[i]] {
      RemoveUnits(h, i, u);
    } else {
      SplitUnits(h, i, n, u);
    }
  }

  lemma AbsorbRightUnits(h: Heap, bp: Ptr, u: Ptr)
    requires h.Valid() && h.Live(bp)
    ensures AbsorbRight(h, bp).FreeUnit(u) <==> h.FreeUnit(u) || Covers(h.blocks, bp, u)
  {
    var pos := InsertPos(h.free, bp);
    var h1 := AbsorbRight(h, bp);
    if MergesRight(h, bp) {
      MergeRightUnits(h, bp, u);
    } else {
      InsertUnits(h, bp, u);
    }
  }

  lemma InsertUnits(h: Heap, bp: Ptr, u: Ptr)
    requires h.Valid() && h.Live(bp) && !MergesRight(h, bp)
    ensures AbsorbRight(h, bp).FreeUnit(u) <==> h.FreeUnit(u) || Covers(h.blocks, bp, u)
  {
    hide Tiling, Heap.FreeOk;
    var pos := InsertPos(h.free, bp);
    var h1 := AbsorbRight(h, bp);
    if h1.FreeUnit(u) {
      var j: nat :| j < |h1.free| && Covers(h1.blocks, h1.free[j], u);
      if j != pos { CoversFree(h, if j < pos then j else j - 1, u); }
    }
    if h.FreeUnit(u) {
      var k: nat :| k < |h.free| && Covers(h.blocks, h.free[k], u);
      CoversFree(h1, if k < pos then k else k + 1, u);
    }
    if Covers(h.blocks, bp, u) { CoversFree(h1, pos, u); }
  }

  lemma MergeRightUnits(h: Heap, bp: Ptr, u: Ptr)
    requires h.Valid() && h.Live(bp) && MergesRight(h, bp)
    ensures AbsorbRight(h, bp).FreeUnit(u) <==> h.FreeUnit(u) || Covers(h.blocks, bp, u)
  {
    hide Tiling;
    var pos := InsertPos(h.free, bp);
    var h1 := AbsorbRight(h, bp);
    if h1.FreeUnit(u) {
      var j: nat :| j < |h1.free| && Covers(h1.blocks, h1.free[j], u);
      if j != pos || h.free[pos] <= u { CoversFree(h, j, u); }
    }
    if h.FreeUnit(u) {
      var k: nat :| k < |h.free| && Covers(h.blocks, h.free[k], u);
      CoversFree(h1, k, u);
    }
    if Covers(h.blocks, bp, u) { CoversFree(h1, pos, u); }
  }

  lemma AbsorbLeftUnits(h: Heap, pos: nat, u: Ptr)
    requires FreeButAt(h, pos) && 0 < pos < |h.free|
    requires h.free[pos - 1] + h.blocks[h.free[pos - 1]] == h.free[pos]
    ensures AbsorbLeft(h, pos).FreeUnit(u) <==> h.FreeUnit(u)
  {
    hide Tiling;
    var h1 := AbsorbLeft(h, pos);
    if h1.FreeUnit(u) {
      AbsorbLeftUnitsBack(h, pos, u);
    } else if h.FreeUnit(u) {
      var k: nat :| k < |h.free| && Covers(h.blocks, h.free[k], u);
      if k < pos { CoversFree(h1, k, u); } else { CoversFree(h1, k - 1, u); }
    }
  }

  lemma AbsorbLeftUnitsBack(h: Heap, pos: nat, u: Ptr)
    requires FreeButAt(h, pos) && 0 < pos < |h.free|
    requires h.free[pos - 1] + h.blocks[h.free[pos - 1]] == h.free[pos]
    requires AbsorbLeft(h, pos).FreeUnit(u)
    ensures h.FreeUnit(u)
  {
    hide Tiling;
    var h1 := AbsorbLeft(h, pos);
    var j: nat :| j < |h1.free| && Covers(h1.blocks, h1.free[j], u);
    if j < pos - 1 {
      assert h.free[j] < h.free[pos - 1];
      CoversFree(h, j, u);
    } else if j > pos - 1 {
      assert h1.free[j] == h.free[j + 1] && h.free[pos - 1] < h.free[j + 1];
      CoversFree(h, j + 1, u);
    } else {
      CoversFree(h, if u < h.free[pos] then j else pos, u);
    }
  }

  /** Freeing bp adds exactly its own units to the free ones, whatever merges. */
  lemma FreeBlockUnits(h: Heap, bp: Ptr, u: Ptr)
    requires h.Valid() && h.Live(bp)
    ensures FreeBlock(h, bp).FreeUnit(u) <==> h.FreeUnit(u) || Covers(h.blocks, bp, u)
  {
    hide Tiling, Heap.FreeOk, AbsorbRight, AbsorbLeft;
    var pos := InsertPos(h.free, bp);
    AbsorbRightKeeps(h, bp);
    AbsorbRightUnits(h, bp, u);
    if MergesLeft(h, bp) {
      AbsorbLeftUnits(AbsorbRight(h, bp), pos, u);
      assert FreeBlock(h, bp).FreeUnit(u) <==> AbsorbLeft(AbsorbRight(h, bp), pos).FreeUnit(u);
    }
  }

  lemma AbsorbRightLive(h: Heap, bp: Ptr, b: Ptr)
    requires h.Valid() && h.Live(bp)
    ensures AbsorbRight(h, bp).Live(b) <==> h.Live(b) && b != bp
    ensures AbsorbRight(h, bp).Live(b) ==> AbsorbRight(h, bp).blocks[b] == h.blocks[b]
  {
    hide Tiling;
    var pos := InsertPos(h.free, bp);
    var h1 := AbsorbRight(h, bp);
    if MergesRight(h, bp) {
      assert h1.free[pos] == bp;
      if b in h.free && b != h.free[pos] {
        var i :| 0 <= i < |h.free| && h.free[i] == b;
        assert h1.free[i] == b;
      }
      if b in h1.free {
        var i :| 0 <= i < |h1.free| && h1.free[i] == b;
        assert i != pos ==> h.free[i] == b;
      }
    }
  }

  lemma AbsorbLeftLive(h: Heap, pos: nat, b: Ptr)
    requires FreeButAt(h, pos) && 0 < pos < |h.free|
    requires h.free[pos - 1] + h.blocks[h.free[pos - 1]] == h.free[pos]
    ensures AbsorbLeft(h, pos).Live(b) <==> h.Live(b)
    ensures h.Live(b) ==> AbsorbLeft(h, pos).blocks[b] == h.blocks[b]
  {
    hide Tiling;
    var h1 := AbsorbLeft(h, pos);
    if b in h.free && b != h.free[pos] {
      var i :| 0 <= i < |h.free| && h.free[i] == b;
      assert h1.free[if i < pos then i else i - 1] == b;
    }
    if b in h1.free {
      var i :| 0 <= i < |h1.free| && h1.free[i] == b;
      assert h.free[if i < pos then i else i + 1] == b;
    }
  }

  /** Freeing bp makes bp no longer live and leaves every other live block as it was. */
  lemma FreeBlockLive(h: Heap, bp: Ptr, b: Ptr)
    requires h.Valid() && h.Live(bp)
    ensures FreeBlock(h, bp).Live(b) <==> h.Live(b) && b != bp
    ensures FreeBlock(h, bp).Live(b) ==> FreeBlock(h, bp).blocks[b] == h.blocks[b]
  {
    hide Tiling, Heap.FreeOk, AbsorbRight, AbsorbLeft;
    AbsorbRightKeeps(h, bp);
    AbsorbRightLive(h, bp, b);
    if MergesLeft(h, bp) {
      AbsorbLeftLive(AbsorbRight(h, bp), InsertPos(h.free, bp), b);
    }
  }
}
