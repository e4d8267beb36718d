/**
 malloc.c: the allocator on memory.

 Memory is a sequence of 8-byte units, each read as a header when it is one. `freep` is the
 roving pointer into the circular list, 0 until the first request; in a heap at address 0 it is
 also 0 when it stands on the first block. `base` is the sentinel.
 The ghost field `h` is the heap of HeapSpec that the memory stands for.
 */
module Malloc {
  import opened HeapSpec
  import opened HeapTheorems
  import opened HeapGrowth
  import opened Paging
  import opened Entries
  import opened PagingSpec
  import opened PagingTheorems
  import opened PageFrameAlloc
  import opened FrameSpec
  import opened FrameSupply
  import opened FrameTheorems
  import opened Utilities

  /** Eight bytes of memory, as a header lays them out. */
  datatype Unit = Unit(next: Ptr, size: nat)

  /** The header at ring index i points to the header at the next ring index. */
  ghost predicate LinkAt(mem: seq<Unit>, h: Heap, i: nat) {
    && i <= |h.free| && h.Ring()[i] < |mem|
    && mem[h.Ring()[i]].next == h.Ring()[h.Next(i)]
  }

  /** Every header holds its block's size. */
  ghost predicate Sized(mem: seq<Unit>, h: Heap) {
    && h.base < |mem| && mem[h.base].size == 0
    && forall b :: b in h.blocks ==> b < |mem| && mem[b].size == h.blocks[b]
  }

  ghost predicate Linked(mem: seq<Unit>, h: Heap) {
    Sized(mem, h) && forall i :: 0 <= i <= |h.free| ==> LinkAt(mem, h, i)
  }

  /** Pointer to the header before the gap that bp goes into. */
  function Before(h: Heap, bp: Ptr): Ptr {
    h.Ring()[h.Prev(InsertPos(h.free, bp))]
  }

  // ----- the two stores of free -------------------------------------------------------

  /** Links bp to q, absorbing q when bp ends where q starts. */
  function StoreRight(mem: seq<Unit>, bp: Ptr, q: Ptr): (r: seq<Unit>)
    requires bp < |mem| && q < |mem|
    ensures |r| == |mem|
  {
    if bp + mem[bp].size == q
    then mem[bp := Unit(mem[q].next, mem[bp].size + mem[q].size)]
    else mem[bp := mem[bp].(next := q)]
  }

  /** Links p to bp, absorbing bp when p ends where bp starts. */
  function StoreLeft(mem: seq<Unit>, p: Ptr, bp: Ptr): (r: seq<Unit>)
    requires bp < |mem| && p < |mem|
    ensures |r| == |mem|
  {
    if p + mem[p].size == bp
    then mem[p := Unit(mem[bp].next, mem[p].size + mem[bp].size)]
    else mem[p := mem[p].(next := bp)]
  }

  lemma RingInBounds(h: Heap, i: nat)
    requires h.Valid() && i <= |h.free|
    ensures h.Ring()[i] <= h.base
    ensures i < |h.free| ==> h.Ring()[i] < h.end
  {
    if i < |h.free| { assert h.free[i] in h.blocks; }
  }

  lemma RightCase(mem: seq<Unit>, h: Heap, bp: Ptr)
    requires h.Valid() && h.Live(bp) && Linked(mem, h)
    ensures var pos := InsertPos(h.free, bp);
      && h.Ring()[pos] < |mem| && bp < |mem|
      && (bp + mem[bp].size == h.Ring()[pos] <==> MergesRight(h, bp))
    ensures bp < h.base
  {
    RingInBounds(h, InsertPos(h.free, bp));
  }

  lemma MergeRightLink(mem: seq<Unit>, h: Heap, bp: Ptr, i: nat)
    requires h.Valid() && h.Live(bp) && Linked(mem, h) && MergesRight(h, bp)
    requires i <= |h.free| && i != h.Prev(InsertPos(h.free, bp))
    ensures h.Ring()[InsertPos(h.free, bp)] < |mem| && bp < |mem|
    ensures LinkAt(StoreRight(mem, bp, h.Ring()[InsertPos(h.free, bp)]), AbsorbRight(h, bp), i)
  {
    hide Tiling, Heap.FreeOk;
    RightCase(mem, h, bp);
    assert LinkAt(mem, h, i);
    if i < |h.free| { assert h.free[i] != bp; }
  }

  lemma RingInsert(h: Heap, bp: Ptr, i: nat)
    requires h.Valid() && h.Live(bp) && !MergesRight(h, bp) && i <= |h.free| + 1
    ensures var h1, pos := AbsorbRight(h, bp), InsertPos(h.free, bp);
      h1.Ring()[i] == if i < pos then h.Ring()[i] else if i == pos then bp else h.Ring()[i - 1]
  {
    hide Tiling, Heap.FreeOk;
  }

  lemma InsertLink(mem: seq<Unit>, h: Heap, bp: Ptr, i: nat)
    requires h.Valid() && h.Live(bp) && Linked(mem, h) && !MergesRight(h, bp)
    requires i <= |h.free| + 1 && i != AbsorbRight(h, bp).Prev(InsertPos(h.free, bp))
    ensures h.Ring()[InsertPos(h.free, bp)] < |mem| && bp < |mem|
    ensures LinkAt(StoreRight(mem, bp, h.Ring()[InsertPos(h.free, bp)]), AbsorbRight(h, bp), i)
  {
    hide Tiling, Sized;
    var pos := InsertPos(h.free, bp);
    RightCase(mem, h, bp);
    var h1 := AbsorbRight(h, bp);
    RingInsert(h, bp, i);
    RingInsert(h, bp, h1.Next(i));
    if i != pos {
      var j := if i < pos then i else i - 1;
      assert LinkAt(mem, h, j);
      if j < |h.free| { assert h.free[j] != bp; }
    }
  }

  lemma RightLink(mem: seq<Unit>, h: Heap, bp: Ptr, i: nat)
    requires h.Valid() && h.Live(bp) && Linked(mem, h)
    requires i <= |AbsorbRight(h, bp).free| && i != AbsorbRight(h, bp).Prev(InsertPos(h.free, bp))
    ensures h.Ring()[InsertPos(h.free, bp)] < |mem| && bp < |mem|
    ensures LinkAt(StoreRight(mem, bp, h.Ring()[InsertPos(h.free, bp)]), AbsorbRight(h, bp), i)
  {
    if MergesRight(h, bp) { MergeRightLink(mem, h, bp, i); } else { InsertLink(mem, h, bp, i); }
  }

  lemma RightSized(mem: seq<Unit>, h: Heap, bp: Ptr)
    requires h.Valid() && h.Live(bp) && Linked(mem, h)
    ensures h.Ring()[InsertPos(h.free, bp)] < |mem| && bp < |mem|
    ensures Sized(StoreRight(mem, bp, h.Ring()[InsertPos(h.free, bp)]), AbsorbRight(h, bp))
  {
    RightCase(mem, h, bp);
  }

  /** The state between the two stores: only the link into ring index pos is missing. */
  ghost predicate LinkedBut(mem: seq<Unit>, h: Heap, pos: nat) {
    && h.Tiled() && h.end < h.base && FreeButAt(h, pos) && pos < |h.free|
    && Sized(mem, h)
    && forall i :: 0 <= i <= |h.free| && i != h.Prev(pos) ==> LinkAt(mem, h, i)
  }

  predicate Abuts(h: Heap, pos: nat)
    requires pos < |h.free| && (pos > 0 ==> h.free[pos - 1] in h.blocks)
  {
    pos > 0 && h.free[pos - 1] + h.blocks[h.free[pos - 1]] == h.free[pos]
  }

  lemma LeftCase(mem: seq<Unit>, h: Heap, pos: nat)
    requires LinkedBut(mem, h, pos)
    ensures h.Ring()[h.Prev(pos)] < |mem| && h.free[pos] < |mem|
    ensures var p := h.Ring()[h.Prev(pos)]; p + mem[p].size == h.free[pos] <==> Abuts(h, pos)
  {
    assert h.free[pos] in h.blocks;
    if pos > 0 { assert h.free[pos - 1] in h.blocks; }
  }

  lemma RingDistinct(h: Heap, pos: nat, i: nat, j: nat)
    requires h.Tiled() && h.end < h.base && FreeButAt(h, pos) && i < j <= |h.free|
    ensures h.Ring()[i] < h.Ring()[j]
  {
    assert h.free[i] in h.blocks;
  }

  lemma LinkOnlyLink(mem: seq<Unit>, h: Heap, pos: nat, i: nat)
    requires LinkedBut(mem, h, pos) && !Abuts(h, pos) && i <= |h.free|
    ensures h.Ring()[h.Prev(pos)] < |mem| && h.free[pos] < |mem|
    ensures LinkAt(StoreLeft(mem, h.Ring()[h.Prev(pos)], h.free[pos]), h, i)
  {
    hide Tiling;
    LeftCase(mem, h, pos);
    if i < h.Prev(pos) { RingDistinct(h, pos, i, h.Prev(pos)); }
    if i > h.Prev(pos) { RingDistinct(h, pos, h.Prev(pos), i); }
    if i != h.Prev(pos) { assert LinkAt(mem, h, i); }
  }

  /** Folding at pos drops ring index pos. */
  lemma RingAbsorb(h: Heap, pos: nat, i: nat)
    requires 0 < pos < |h.free| && h.free[pos] in h.blocks && h.free[pos - 1] in h.blocks && i < |h.free|
    ensures |AbsorbLeft(h, pos).free| == |h.free| - 1
    ensures AbsorbLeft(h, pos).Ring()[i] == h.Ring()[if i < pos then i else i + 1]
    ensures var next := AbsorbLeft(h, pos).Next(i);
      && next < |h.free|
      && AbsorbLeft(h, pos).Ring()[next] == h.Ring()[h.Next(if i < pos - 1 then i else i + 1)]
  {
    var h1 := AbsorbLeft(h, pos);
    assert h1.Ring() == h.Ring()[..pos] + h.Ring()[pos + 1..];
  }

  lemma MergeLeftLink(mem: seq<Unit>, h: Heap, pos: nat, i: nat)
    requires LinkedBut(mem, h, pos) && Abuts(h, pos) && i < |h.free|
    ensures h.Ring()[pos - 1] < |mem| && h.free[pos] < |mem|
    ensures LinkAt(StoreLeft(mem, h.Ring()[pos - 1], h.free[pos]), AbsorbLeft(h, pos), i)
  {
    hide Tiling, AbsorbLeft, Sized;
    LeftCase(mem, h, pos);
    RingAbsorb(h, pos, i);
    if i == pos - 1 {
      assert LinkAt(mem, h, pos);
    } else {
      var j := if i < pos then i else i + 1;
      assert LinkAt(mem, h, j);
      if j < pos - 1 { RingDistinct(h, pos, j, pos - 1); } else { RingDistinct(h, pos, pos - 1, j); }
    }
  }

  lemma LeftSized(mem: seq<Unit>, h: Heap, pos: nat)
    requires LinkedBut(mem, h, pos)
    ensures h.Ring()[h.Prev(pos)] < |mem| && h.free[pos] < |mem|
    ensures var h1 := if Abuts(h, pos) then AbsorbLeft(h, pos) else h;
      Sized(StoreLeft(mem, h.Ring()[h.Prev(pos)], h.free[pos]), h1)
  {
    LeftCase(mem, h, pos);
    assert h.free[pos] in h.blocks;
    if pos > 0 { assert h.free[pos - 1] in h.blocks; }
  }

  lemma RightThenLeft(mem: seq<Unit>, h: Heap, bp: Ptr)
    requires h.Valid() && h.Live(bp) && Linked(mem, h)
    ensures var pos := InsertPos(h.free, bp);
      && h.Ring()[pos] < |mem| && bp < |mem|
      && LinkedBut(StoreRight(mem, bp, h.Ring()[pos]), AbsorbRight(h, bp), pos)
      && (Abuts(AbsorbRight(h, bp), pos) <==> MergesLeft(h, bp))
      && Before(h, bp) == AbsorbRight(h, bp).Ring()[AbsorbRight(h, bp).Prev(pos)]
      && Before(h, bp) < |mem|
      && AbsorbRight(h, bp).free[pos] == bp
  {
    hide Tiling, StoreRight, LinkAt;
    AbsorbRightKeeps(h, bp);
    RightSized(mem, h, bp);
    RingInBounds(h, h.Prev(InsertPos(h.free, bp)));
    var mem1, h1 := StoreRight(mem, bp, h.Ring()[InsertPos(h.free, bp)]), AbsorbRight(h, bp);
    forall i: nat | i <= |h1.free| && i != h1.Prev(InsertPos(h.free, bp)) ensures LinkAt(mem1, h1, i) {
      RightLink(mem, h, bp, i);
    }
  }

  /** The two stores of free turn the memory of h into the memory of FreeBlock(h, bp). */
  lemma StoresFree(mem: seq<Unit>, h: Heap, bp: Ptr)
    requires h.Valid() && h.Live(bp) && Linked(mem, h)
    ensures h.Ring()[InsertPos(h.free, bp)] < |mem| && bp < |mem| && Before(h, bp) < |mem|
    ensures Linked(StoreLeft(StoreRight(mem, bp, h.Ring()[InsertPos(h.free, bp)]), Before(h, bp), bp), FreeBlock(h, bp))
  {
    hide Tiling, Heap.FreeOk, AbsorbRight, StoreLeft, StoreRight;
    var pos := InsertPos(h.free, bp);
    RightThenLeft(mem, h, bp);
    var mem1, h1, h2 := StoreRight(mem, bp, h.Ring()[pos]), AbsorbRight(h, bp), FreeBlock(h, bp);
    LeftSized(mem1, h1, pos);
    var mem2 := StoreLeft(mem1, Before(h, bp), bp);
    forall i: nat | i <= |h2.free| ensures LinkAt(mem2, h2, i) {
      if Abuts(h1, pos) {
        MergeLeftLink(mem1, h1, pos, i);
        assert LinkAt(mem2, AbsorbLeft(h1, pos), i);
      } else {
        LinkOnlyLink(mem1, h1, pos, i);
      }
    }
  }

  /** No unit of a live block differs between the two memories. */
  ghost predicate SameLive(h: Heap, was: seq<Unit>, mem: seq<Unit>) {
    |mem| == |was| &&
    forall b: Ptr, u: Ptr :: h.Live(b) && Covers(h.blocks, b, u) && u < |mem| ==> mem[u] == was[u]
  }

  lemma UntouchedSame(h: Heap, mem: seq<Unit>)
    ensures SameLive(h, mem, mem)
  {
  }

  lemma NotWritten(h: Heap, bp: Ptr, b: Ptr, u: Ptr)
    requires h.Valid() && h.Live(bp)
    requires FreeBlock(h, bp).Live(b) && Covers(FreeBlock(h, bp).blocks, b, u)
    ensures u != bp && u != Before(h, bp)
  {
    hide FreeBlock, Heap.FreeOk;
    FreeBlockLive(h, bp, b);
    NotInLive(h, b, u, bp);
    if InsertPos(h.free, bp) > 0 {
      assert h.free[InsertPos(h.free, bp) - 1] in h.blocks by { BeforeIsBlock(h, bp); }
    }
    NotInLive(h, b, u, Before(h, bp));
  }

  lemma BeforeIsBlock(h: Heap, bp: Ptr)
    requires h.Valid() && h.Live(bp)
    ensures InsertPos(h.free, bp) > 0 ==> h.free[InsertPos(h.free, bp) - 1] in h.blocks
  {
  }

  lemma FreeUntouched(mem: seq<Unit>, h: Heap, bp: Ptr)
    requires h.Valid() && h.Live(bp) && Linked(mem, h)
    ensures h.Ring()[InsertPos(h.free, bp)] < |mem| && bp < |mem| && Before(h, bp) < |mem|
    ensures SameLive(FreeBlock(h, bp), mem,
                     StoreLeft(StoreRight(mem, bp, h.Ring()[InsertPos(h.free, bp)]), Before(h, bp), bp))
  {
    hide FreeBlock, Tiling, Heap.FreeOk;
    RightThenLeft(mem, h, bp);
    forall b: Ptr, u: Ptr | FreeBlock(h, bp).Live(b) && Covers(FreeBlock(h, bp).blocks, b, u)
      ensures u != bp && u != Before(h, bp)
    {
      NotWritten(h, bp, b, u);
    }
  }

  /** A header of another block is no unit of block b. */
  lemma NotInLive(h: Heap, b: Ptr, u: Ptr, c: Ptr)
    requires h.Valid() && Covers(h.blocks, b, u) && b != c
    ensures c in h.blocks || c == h.base ==> u != c
  {
  }

  ghost predicate Placed(totalPages: nat, mem: seq<Unit>, h: Heap) {
    h.Valid() && h.end == h.start + 512 * totalPages && h.base < |mem|
  }

  ghost predicate OnList(freep: Ptr, mem: seq<Unit>, h: Heap) {
    Linked(mem, h) && h.rover <= |h.free| && freep == h.Ring()[h.rover]
  }

  /** No request has been made yet. */
  ghost predicate Fresh(freep: Ptr, h: Heap) {
    freep == 0 && h.blocks == map[] && h.free == [] && h.rover == 0
  }

  /** Memory and the allocator's variables stand for the heap h. */
  ghost predicate Stands(freep: Ptr, totalPages: nat, mem: seq<Unit>, h: Heap) {
    Placed(totalPages, mem, h) && (Fresh(freep, h) || OnList(freep, mem, h))
  }

  /** There is a list, and `freep` is on it. */
  ghost predicate Running(freep: Ptr, totalPages: nat, mem: seq<Unit>, h: Heap) {
    Placed(totalPages, mem, h) && OnList(freep, mem, h)
  }

  lemma LiveMeansRunning(freep: Ptr, pages: nat, mem: seq<Unit>, h: Heap, bp: Ptr)
    requires Stands(freep, pages, mem, h) && h.Live(bp)
    ensures Running(freep, pages, mem, h)
  {
  }

  /** A null `freep` starts a list of the sentinel alone, whether there was a list before or not. */
  lemma StartsList(pages: nat, mem: seq<Unit>, h: Heap)
    requires Stands(0, pages, mem, h)
    ensures h.base < |mem| && Running(h.base, pages, mem[h.base := Unit(h.base, 0)], Awake(h))
    ensures SameLive(h, mem, mem[h.base := Unit(h.base, 0)]) && Keeps(h, Awake(h))
  {
    AwakeValid(h);
    var mem1 := mem[h.base := Unit(h.base, 0)];
    assert Sized(mem1, Awake(h));
    assert Awake(h).Ring() == [h.base];
    assert LinkAt(mem1, Awake(h), 0);
  }

  lemma KeepsList(freep: Ptr, pages: nat, mem: seq<Unit>, h: Heap)
    requires Stands(freep, pages, mem, h) && freep != 0
    ensures Running(freep, pages, mem, h) && Awake(h) == h
  {
    hide Tiling;
  }

  /** Everything free needs of its two stores. */
  lemma FreeSound(freep: Ptr, pages: nat, mem: seq<Unit>, h: Heap, bp: Ptr, p: Ptr, q: Ptr) returns (h': Heap)
    requires Running(freep, pages, mem, h) && h.Live(bp)
    requires p == Before(h, bp) && q == h.Ring()[InsertPos(h.free, bp)]
    ensures p < |mem| && bp < |mem| && q < |mem| && p != bp
    ensures h' == FreeStep(h, bp + 1)
    ensures h'.start == h.start && h'.end == h.end && h'.base == h.base && h'.grants == h.grants
    ensures Running(p, pages, StoreLeft(StoreRight(mem, bp, q), p, bp), h')
    ensures SameLive(h', mem, StoreLeft(StoreRight(mem, bp, q), p, bp))
  {
    hide Heap.Valid, Linked, SameLive, StoreLeft, StoreRight, FreeBlock, Heap.Live;
    h' := FreeBlock(h, bp);
    FreeBlockFrame(h, bp);
    StoresFree(mem, h, bp);
    FreeUntouched(mem, h, bp);
    FreeBlockValid(h, bp);
    RightThenLeft(mem, h, bp);
    RoverBefore(h, bp);
  }

  lemma FreeBlockFrame(h: Heap, bp: Ptr)
    requires h.Valid() && h.Live(bp)
    ensures var h' := FreeBlock(h, bp);
      h'.start == h.start && h'.end == h.end && h'.base == h.base && h'.grants == h.grants
    ensures FreeBlock(h, bp) == FreeStep(h, bp + 1)
  {
    hide Tiling, Heap.FreeOk;
  }

  lemma RoverBefore(h: Heap, bp: Ptr)
    requires h.Valid() && h.Live(bp)
    ensures FreeBlock(h, bp).rover <= |FreeBlock(h, bp).free|
    ensures FreeBlock(h, bp).Ring()[FreeBlock(h, bp).rover] == Before(h, bp) != bp
  {
    AbsorbRightKeeps(h, bp);
  }

  // ----- the stores of malloc and of a growth -----------------------------------------

  /** Takes n units from p: unlinks p after prevp, or cuts them off the end of p. */
  function StoreCarve(mem: seq<Unit>, prevp: Ptr, p: Ptr, n: nat): (r: seq<Unit>)
    requires prevp < |mem| && p < |mem| && n <= mem[p].size && p + mem[p].size - n < |mem|
    ensures |r| == |mem|
  {
    if mem[p].size == n then mem[prevp := mem[prevp].(next := mem[p].next)]
    else
      var rest := mem[p].size - n;
      var mem1 := mem[p := mem[p].(size := rest)];
      mem1[p + rest := mem1[p + rest].(size := n)]
  }

  lemma CarveBounds(mem: seq<Unit>, h: Heap, i: nat, n: nat)
    requires h.Valid() && Linked(mem, h) && i < |h.free| && 0 < n <= h.blocks[h.free[i]]
    ensures var p, prevp := h.Ring()[i], h.Ring()[h.Prev(i)];
      && prevp < |mem| && p < |mem| && mem[p].size == h.blocks[p] && p + mem[p].size - n < h.base < |mem|
      && prevp != p && p == h.free[i]
      && CarvedAt(h, i, n) == p + mem[p].size - n
  {
    RingInBounds(h, i);
    RingInBounds(h, h.Prev(i));
  }

  lemma RingRemove(h: Heap, i: nat, j: nat)
    requires h.FreeOk() && i < |h.free| && j < |h.free|
    ensures var h1 := h.(free := RemoveAt(h.free, i));
      h1.Ring()[j] == h.Ring()[if j < i then j else j + 1]
  {
    hide Heap.FreeOk;
  }

  lemma UnlinkLink(mem: seq<Unit>, h: Heap, i: nat, j: nat)
    requires h.Valid() && Linked(mem, h) && i < |h.free| && j < |h.free|
    requires h.Ring()[i] < |mem| && h.Ring()[h.Prev(i)] < |mem|
    ensures LinkAt(mem[h.Ring()[h.Prev(i)] := mem[h.Ring()[h.Prev(i)]].(next := mem[h.Ring()[i]].next)],
                   h.(free := RemoveAt(h.free, i)), j)
  {
    hide Sized, Tiling, Heap.FreeOk, Heap.Ring;
    var h1 := h.(free := RemoveAt(h.free, i));
    RingRemove(h, i, j);
    RingRemove(h, i, h1.Next(j));
    assert LinkAt(mem, h, i);
    var k := if j < i then j else j + 1;
    assert LinkAt(mem, h, k);
    ValidButAt(h);
    if k < h.Prev(i) { RingDistinct(h, |h.free|, k, h.Prev(i)); }
    if h.Prev(i) < k { RingDistinct(h, |h.free|, h.Prev(i), k); }
  }

  lemma ValidButAt(h: Heap)
    requires h.Valid()
    ensures FreeButAt(h, |h.free|)
  {
    hide Tiling;
  }

  /** The header carved off a larger block is not one of the headers on the list. */
  lemma CarvedOffRing(h: Heap, i: nat, n: nat, j: nat)
    requires h.Valid() && i < |h.free| && 0 < n < h.blocks[h.free[i]] && j <= |h.free|
    ensures h.Ring()[j] != CarvedAt(h, i, n)
  {
    SplitTiled(h.blocks, h.start, h.end, h.free[i], n);
    hide Tiling;
    RingInBounds(h, i);
    assert j < |h.free| ==> h.free[j] in h.blocks;
  }

  lemma CarveKeepsNext(mem: seq<Unit>, prevp: Ptr, p: Ptr, n: nat, q: Ptr)
    requires prevp < |mem| && p < |mem| && q < |mem| && n < mem[p].size && p + mem[p].size - n < |mem|
    ensures q != p + mem[p].size - n ==> StoreCarve(mem, prevp, p, n)[q].next == mem[q].next
  {
  }

  lemma CarveLink(mem: seq<Unit>, h: Heap, i: nat, n: nat, j: nat)
    requires h.Valid() && Linked(mem, h) && i < |h.free| && 0 < n < h.blocks[h.free[i]] && j <= |h.free|
    ensures var p, prevp := h.Ring()[i], h.Ring()[h.Prev(i)];
      && prevp < |mem| && p < |mem| && n <= mem[p].size && p + mem[p].size - n < |mem|
      && LinkAt(StoreCarve(mem, prevp, p, n), Carve(h, i, n), j)
  {
    hide Sized, StoreCarve, Tiling;
    CarveBounds(mem, h, i, n);
    assert LinkAt(mem, h, j);
    CarvedOffRing(h, i, n, j);
    CarveKeepsNext(mem, h.Ring()[h.Prev(i)], h.free[i], n, h.Ring()[j]);
  }

  lemma CarveSized(mem: seq<Unit>, h: Heap, i: nat, n: nat)
    requires h.Valid() && Linked(mem, h) && i < |h.free| && 0 < n <= h.blocks[h.free[i]]
    ensures var p, prevp := h.Ring()[i], h.Ring()[h.Prev(i)];
      && prevp < |mem| && p < |mem| && n <= mem[p].size && p + mem[p].size - n < |mem|
      && Sized(StoreCarve(mem, prevp, p, n), Carve(h, i, n))
  {
    CarveBounds(mem, h, i, n);
  }

  lemma CarveLinked(mem: seq<Unit>, h: Heap, i: nat, n: nat)
    requires h.Valid() && Linked(mem, h) && i < |h.free| && 0 < n <= h.blocks[h.free[i]]
    ensures var p, prevp := h.Ring()[i], h.Ring()[h.Prev(i)];
      && prevp < |mem| && p < |mem| && n <= mem[p].size && p + mem[p].size - n < |mem|
      && Linked(StoreCarve(mem, prevp, p, n), Carve(h, i, n))
  {
    hide Tiling, LinkAt, Sized;
    CarveBounds(mem, h, i, n);
    CarveSized(mem, h, i, n);
    var mem1, h1 := StoreCarve(mem, h.Ring()[h.Prev(i)], h.Ring()[i], n), Carve(h, i, n);
    forall j: nat | j <= |h1.free| ensures LinkAt(mem1, h1, j) {
      if n < h.blocks[h.free[i]] {
        CarveLink(mem, h, i, n, j);
      } else {
        UnlinkLink(mem, h, i, j);
        SameLinks(mem1, h.(free := RemoveAt(h.free, i)), h1, j);
      }
    }
  }

  lemma SameLinks(mem: seq<Unit>, h: Heap, g: Heap, j: nat)
    requires h.free == g.free && h.base == g.base
    ensures LinkAt(mem, h, j) ==> LinkAt(mem, g, j)
  {
  }

  /** Units that a live block covers are not its neighbours' headers, the sentinel, or free. */
  lemma CarveUntouched(mem: seq<Unit>, h: Heap, i: nat, n: nat)
    requires h.Valid() && Linked(mem, h) && i < |h.free| && 0 < n <= h.blocks[h.free[i]]
    ensures var p, prevp := h.Ring()[i], h.Ring()[h.Prev(i)];
      && prevp < |mem| && p < |mem| && n <= mem[p].size && p + mem[p].size - n < |mem|
      && SameLive(h, mem, StoreCarve(mem, prevp, p, n))
  {
    hide Tiling;
    CarveBounds(mem, h, i, n);
    forall b: Ptr, u: Ptr | h.Live(b) && Covers(h.blocks, b, u)
      ensures u != h.Ring()[i] && u != h.Ring()[h.Prev(i)] && u != CarvedAt(h, i, n)
    {
      NotInRing(h, b, u, i);
      NotInRing(h, b, u, h.Prev(i));
      NotInFree(h, b, u, i, CarvedAt(h, i, n));
    }
  }

  lemma NotInRing(h: Heap, b: Ptr, u: Ptr, i: nat)
    requires h.Valid() && h.Live(b) && Covers(h.blocks, b, u) && i <= |h.free|
    ensures u != h.Ring()[i]
  {
    if i < |h.free| { assert h.free[i] in h.blocks; }
  }

  lemma NotInFree(h: Heap, b: Ptr, u: Ptr, i: nat, w: Ptr)
    requires h.Valid() && h.Live(b) && Covers(h.blocks, b, u) && i < |h.free|
    requires Covers(h.blocks, h.free[i], w)
    ensures u != w
  {
    assert h.free[i] in h.blocks && h.free[i] != b;
  }

  /** Every block live in h is live, with the same size, in g. */
  ghost predicate Keeps(h: Heap, g: Heap) {
    forall b: Ptr :: h.Live(b) ==> g.Live(b) && g.blocks[b] == h.blocks[b]
  }

  lemma SameLiveTrans(h: Heap, g: Heap, m0: seq<Unit>, m1: seq<Unit>, m2: seq<Unit>)
    requires Keeps(h, g) && SameLive(h, m0, m1) && SameLive(g, m1, m2)
    ensures SameLive(h, m0, m2)
  {
    forall b: Ptr, u: Ptr | h.Live(b) && Covers(h.blocks, b, u) && u < |m2| ensures m2[u] == m0[u] {
      assert g.Live(b) && Covers(g.blocks, b, u);
    }
  }

  /** Everything malloc needs when block i serves the request. */
  lemma CarveSound(freep: Ptr, pages: nat, mem: seq<Unit>, h: Heap, i: nat, n: nat)
    requires Running(freep, pages, mem, h) && i < |h.free| && 0 < n <= h.blocks[h.free[i]]
    ensures var p, prevp := h.Ring()[i], h.Ring()[h.Prev(i)];
      && prevp < |mem| && p < |mem| && n <= mem[p].size && p + mem[p].size - n < |mem| && prevp != p
      && Running(prevp, pages, StoreCarve(mem, prevp, p, n), Carve(h, i, n))
      && SameLive(h, mem, StoreCarve(mem, prevp, p, n))
      && CarvedAt(h, i, n) == p + mem[p].size - n
    ensures var h1 := Carve(h, i, n); h1.start == h.start && h1.base == h.base && h1.grants == h.grants
  {
    hide Tiling, Heap.FreeOk, Linked, SameLive, StoreCarve, Heap.Live, CarvedAt;
    CarveBounds(mem, h, i, n);
    CarveLinked(mem, h, i, n);
    CarveUntouched(mem, h, i, n);
    CarveValid(h, i, n);
    CarveRover(h, i, n);
  }

  lemma CarveRover(h: Heap, i: nat, n: nat)
    requires h.Valid() && i < |h.free| && 0 < n <= h.blocks[h.free[i]]
    ensures Carve(h, i, n).rover <= |Carve(h, i, n).free|
    ensures Carve(h, i, n).Ring()[Carve(h, i, n).rover] == h.Ring()[h.Prev(i)]
  {
  }

  lemma ExtendSound(freep: Ptr, pages: nat, mem: seq<Unit>, h: Heap)
    requires Running(freep, pages, mem, h) && h.grants > 0
    ensures h.end < |mem|
    ensures Running(freep, pages + 2, mem[h.end := mem[h.end].(size := NALLOC)], Extend(h))
    ensures SameLive(h, mem, mem[h.end := mem[h.end].(size := NALLOC)])
    ensures Extend(h).Live(h.end) && Keeps(h, Extend(h))
  {
    hide Heap.FreeOk;
    ExtendValid(h);
    ExtendLinked(mem, h);
    forall b: Ptr, u: Ptr | h.Live(b) && Covers(h.blocks, b, u) ensures u != h.end {
    }
  }

  lemma ExtendLinked(mem: seq<Unit>, h: Heap)
    requires h.Valid() && Linked(mem, h) && h.grants > 0
    ensures h.end < |mem| && Linked(mem[h.end := mem[h.end].(size := NALLOC)], Extend(h))
  {
    var mem1, e := mem[h.end := mem[h.end].(size := NALLOC)], Extend(h);
    forall i: nat | i <= |e.free| ensures LinkAt(mem1, e, i) {
      assert LinkAt(mem, h, i);
    }
  }

  /** The loop of malloc stands at ring index i, with left ring positions to look at. */
  ghost predicate Cursor(mem: seq<Unit>, h: Heap, p: Ptr, prevp: Ptr, i: nat) {
    && i <= |h.free| && p == h.Ring()[i] && prevp == h.Ring()[h.Prev(i)]
    && p < |mem| && prevp < |mem|
  }

  lemma Arrive(mem: seq<Unit>, h: Heap, i: nat)
    requires h.Valid() && Linked(mem, h) && i <= |h.free|
    ensures h.Ring()[i] < |mem| && h.Next(i) <= |h.free|
    ensures Cursor(mem, h, mem[h.Ring()[i]].next, h.Ring()[i], h.Next(i))
  {
    assert LinkAt(mem, h, i);
    RingInBounds(h, i);
    RingInBounds(h, h.Next(i));
  }

  lemma Fits(mem: seq<Unit>, h: Heap, p: Ptr, prevp: Ptr, i: nat, n: nat)
    requires h.Valid() && Linked(mem, h) && Cursor(mem, h, p, prevp, i) && n > 0
    ensures mem[p].size >= n <==> i < |h.free| && h.blocks[h.free[i]] >= n
    ensures i < |h.free| ==> mem[p].size == h.blocks[h.free[i]]
    ensures forall j :: 0 <= j <= |h.free| ==> (h.Ring()[j] == p <==> j == i)
  {
    forall j | 0 <= j <= |h.free| ensures h.Ring()[j] == p <==> j == i {
      if j < i { RingDistinct(h, |h.free|, j, i); }
      if i < j { RingDistinct(h, |h.free|, i, j); }
    }
    if i < |h.free| { assert h.free[i] in h.blocks; }
  }

  lemma RoundStep(h: Heap, n: nat, i: nat, left: nat)
    requires h.Valid() && i <= |h.free| && left > 0
    ensures i < |h.free| && h.blocks[h.free[i]] >= n ==> Scan(h, n, i, left) == Fit.At(i)
    ensures !(i < |h.free| && h.blocks[h.free[i]] >= n) ==>
      Scan(h, n, i, left) == (if left == 1 then None else Scan(h, n, h.Next(i), left - 1))
  {
  }

  lemma GrowKeeps(h: Heap)
    requires h.Valid() && h.grants > 0
    ensures Extend(h).Valid() && Extend(h).Live(h.end)
    ensures Grow(h) == FreeStep(Extend(h), h.end + 1)
    ensures Keeps(h, Grow(h)) && Grow(h).grants == h.grants - 1
  {
    hide Tiling, Heap.FreeOk, FreeBlock;
    ExtendValid(h);
    GrowValid(h);
    forall b: Ptr | h.Live(b) ensures Grow(h).Live(b) && Grow(h).blocks[b] == h.blocks[b] {
      GrowLive(h, b);
    }
  }

  lemma CarveKeeps(h: Heap, i: nat, n: nat)
    requires h.Valid() && i < |h.free| && 0 < n <= h.blocks[h.free[i]]
    ensures Keeps(h, Carve(h, i, n))
  {
    forall b: Ptr | h.Live(b) ensures Carve(h, i, n).Live(b) && Carve(h, i, n).blocks[b] == h.blocks[b] {
      CarveLive(h, i, n, b);
    }
  }

  lemma ValidParts(h: Heap)
    requires h.Valid()
    ensures h.FreeOk() && h.rover <= |h.free| && 0 < h.base
  {
    hide Tiling, Heap.FreeOk;
  }

  lemma KeepsSelf(h: Heap)
    ensures Keeps(h, h)
  {
  }

  lemma KeepsTrans(h: Heap, g: Heap, k: Heap)
    requires Keeps(h, g) && Keeps(g, k)
    ensures Keeps(h, k)
  {
  }

  /** How many more growths fit between the end of the heap and the sentinel. */
  function RoomFor(end: Ptr, base: Ptr): nat
    requires end < base
  {
    (base - 1 - end) / NALLOC
  }

  /** The proof that each growth got its pages, in the terms of HeapTheorems. */
  ghost predicate Continues(h0: Heap, h: Heap, n: nat)
    requires h0.Valid() && h.Valid() && n > 0
  {
    && h.grants <= h0.grants
    && forall g: nat {:trigger WithGrants(h, g)} :: g <= h.grants ==>
         && WithGrants(h, g).Valid() && WithGrants(h0, h0.grants - h.grants + g).Valid()
         && MallocUnits(WithGrants(h0, h0.grants - h.grants + g), n) == MallocUnits(WithGrants(h, g), n)
  }

  lemma ContinuesSelf(h: Heap, n: nat)
    requires h.Valid() && n > 0
    ensures Continues(h, h, n)
  {
    hide MallocUnits, Tiling, Heap.FreeOk;
    forall g: nat | g <= h.grants ensures WithGrants(h, g).Valid() { FewerGrants(h, g); }
  }

  lemma {:induction false} ScanGrants(h: Heap, g: nat, n: nat, i: nat, left: nat)
    requires h.FreeOk() && i <= |h.free|
    ensures WithGrants(h, g).FreeOk() && Scan(WithGrants(h, g), n, i, left) == Scan(h, n, i, left)
    decreases left
  {
    if left > 0 { ScanGrants(h, g, n, h.Next(i), left - 1); }
  }

  lemma FitGrants(h: Heap, g: nat, n: nat)
    requires h.Valid()
    ensures WithGrants(h, g).FreeOk() && FirstFit(WithGrants(h, g), n) == FirstFit(h, n)
  {
    hide Tiling;
    ScanGrants(h, g, n, h.Next(h.rover), |h.free| + 1);
  }

  lemma GrowGrants(h: Heap, g: nat)
    requires h.Valid() && 0 < g <= h.grants
    ensures WithGrants(h, g).Valid() && Grow(WithGrants(h, g)) == WithGrants(Grow(h), g - 1)
  {
    FewerGrants(h, g);
    ExtendGrants(h, g);
    ExtendValid(h);
    FreeGrants(Extend(h), h.end, g - 1);
  }

  lemma ExtendGrants(h: Heap, g: nat)
    requires h.Valid() && 0 < g <= h.grants
    ensures Extend(WithGrants(h, g)) == WithGrants(Extend(h), g - 1)
  {
    hide Tiling, Heap.FreeOk;
  }

  lemma FreeGrants(h: Heap, bp: Ptr, g: nat)
    requires h.Valid() && g <= h.grants && h.Live(bp)
    ensures WithGrants(h, g).Valid() && WithGrants(h, g).Live(bp)
    ensures FreeBlock(WithGrants(h, g), bp) == WithGrants(FreeBlock(h, bp), g)
  {
    hide Tiling;
    FewerGrants(h, g);
  }

  /** A round without a fit, with g + 1 grants left. */
  lemma GrantedStep(h: Heap, g: nat, n: nat)
    requires h.Valid() && n > 0 && g < h.grants && FirstFit(h, n).None?
    ensures WithGrants(h, g + 1).Valid() && Grow(h).Valid() && WithGrants(Grow(h), g).Valid()
    ensures MallocUnits(WithGrants(h, g + 1), n) ==
      if Grow(h).NullRover() then (WithGrants(Grow(h), g), None) else MallocUnits(WithGrants(Grow(h), g), n)
  {
    hide Tiling, Heap.FreeOk, FirstFit, Grow;
    GrowValid(h);
    GrowGrants(h, g + 1);
    FitGrants(h, g + 1, n);
    FewerGrants(Grow(h), g);
    SameRover(Grow(h), g);
  }

  lemma SameRover(h: Heap, g: nat)
    requires h.rover <= |h.free|
    ensures WithGrants(h, g).NullRover() == h.NullRover()
  {
  }

  lemma ContinuesGrow(h0: Heap, h: Heap, n: nat)
    requires h0.Valid() && h.Valid() && n > 0 && Continues(h0, h, n)
    requires FirstFit(h, n).None? && h.grants > 0 && Grow(h).rover <= |Grow(h).free| && !Grow(h).NullRover()
    ensures Grow(h).Valid() && Continues(h0, Grow(h), n)
  {
    hide Heap.Valid, FirstFit, Grow, MallocUnits;
    GrowValid(h);
    FewerGrants(h0, h0.grants);
    var h' := Grow(h);
    forall g: nat {:trigger WithGrants(h', g)} | g <= h'.grants
      ensures WithGrants(h', g).Valid() && WithGrants(h0, h0.grants - h'.grants + g).Valid()
      ensures MallocUnits(WithGrants(h0, h0.grants - h'.grants + g), n) == MallocUnits(WithGrants(h', g), n)
    {
      FewerGrants(h, g + 1);
      GrantedStep(h, g, n);
      assert WithGrants(h, g + 1).Valid();
    }
  }

  lemma CarveWith(h: Heap, g: nat, i: nat, n: nat)
    requires h.Valid() && i < |h.free| && 0 < n <= h.blocks[h.free[i]]
    ensures WithGrants(h, g).FreeOk() && CarvedAt(WithGrants(h, g), i, n) == CarvedAt(h, i, n)
    ensures Carve(WithGrants(h, g), i, n) == WithGrants(Carve(h, i, n), g)
  {
    hide Tiling;
  }

  lemma ContinuesEnd(h0: Heap, h: Heap, n: nat)
    requires h0.Valid() && h.Valid() && n > 0 && Continues(h0, h, n)
    ensures WithGrants(h0, h0.grants - h.grants).Valid()
    ensures FirstFit(h, n).At? ==>
      var i := FirstFit(h, n).index;
      MallocUnits(WithGrants(h0, h0.grants - h.grants), n) == (WithGrants(Carve(h, i, n), 0), Fit.At(CarvedAt(h, i, n)))
    ensures FirstFit(h, n).None? ==>
      MallocUnits(WithGrants(h0, h0.grants - h.grants), n) == (WithGrants(h, 0), None)
  {
    hide Tiling, Heap.FreeOk, FirstFit, Carve, CarvedAt, Grow;
    FitGrants(h, 0, n);
    FewerGrants(h, 0);
    if FirstFit(h, n).At? { CarveWith(h, 0, FirstFit(h, n).index, n); }
    assert WithGrants(h, 0).Valid();
  }

  /** A growth that leaves the rover null ends the request. */
  lemma ContinuesNull(h0: Heap, h: Heap, n: nat)
    requires h0.Valid() && h.Valid() && n > 0 && Continues(h0, h, n)
    requires FirstFit(h, n).None? && h.grants > 0 && Grow(h).rover <= |Grow(h).free| && Grow(h).NullRover()
    ensures Grow(h).Valid() && Grow(h).grants == h.grants - 1 && WithGrants(h0, h0.grants - Grow(h).grants).Valid()
    ensures MallocUnits(WithGrants(h0, h0.grants - Grow(h).grants), n) == (WithGrants(Grow(h), 0), None)
  {
    hide Heap.Valid, FirstFit, Grow, MallocUnits;
    GrowValid(h);
    FewerGrants(h, 1);
    GrantedStep(h, 0, n);
    assert WithGrants(h, 1).Valid();
  }

  /** Since h0 the walk has grown the heap to h, and drawn on the supply for it. */
  ghost predicate Grew(h0: Heap, h: Heap, n: nat, s0: Supply, s: Supply, v: word, p0: nat, p: nat)
    requires n > 0
  {
    && h0.Valid() && h.Valid() && s0.f.Valid() && s.f.Valid()
    && Continues(h0, h, n)
    && p == p0 + 2 * (h0.grants - h.grants)
    && ForGrowths(s0, v, p0, h0.grants - h.grants) == Turn(true, s)
  }

  lemma GrewNothing(h: Heap, n: nat, s: Supply, v: word, p: nat)
    requires h.Valid() && n > 0 && s.f.Valid()
    ensures Grew(h, h, n, s, s, v, p, p)
  {
    hide Heap.Valid, Continues;
    ContinuesSelf(h, n);
  }

  lemma GrewMore(h0: Heap, h: Heap, n: nat, s0: Supply, s: Supply, v: word, p0: nat, p: nat)
    requires n > 0 && Grew(h0, h, n, s0, s, v, p0, p) && FirstFit(h, n).None? && h.grants > 0
    requires ForGrowth(s, v, p).ok && Grow(h).rover <= |Grow(h).free| && !Grow(h).NullRover()
    ensures Grew(h0, Grow(h), n, s0, ForGrowth(s, v, p).s, v, p0, p + 2)
  {
    hide Heap.Valid, Continues, FirstFit, Grow, ForGrowth;
    GrowValid(h);
    ContinuesGrow(h0, h, n);
    ContinuesLess(h0, h, n);
  }

  lemma ContinuesLess(h0: Heap, h: Heap, n: nat)
    requires h0.Valid() && h.Valid() && n > 0 && Continues(h0, h, n)
    ensures h.grants <= h0.grants
  {
    hide MallocUnits, Heap.Valid;
  }

  lemma GrewEnd(h0: Heap, h: Heap, n: nat, s0: Supply, s: Supply, v: word, p0: nat, p: nat)
    requires n > 0 && Grew(h0, h, n, s0, s, v, p0, p)
    ensures h.grants <= h0.grants && s0.f.Valid() && s.f.Valid()
    ensures ForGrowths(s0, v, p0, h0.grants - h.grants) == Turn(true, s)
    ensures ForGrowths(s0, v, p0, h0.grants - h.grants + 1) == ForGrowth(s, v, p)
  {
    hide Heap.Valid, Continues, ForGrowth;
    ContinuesLess(h0, h, n);
  }

  /** The walk has come to an end in h: served there or not, with nothing more granted. */
  lemma WalkEnds(h0: Heap, h: Heap, n: nat, s0: Supply, s: Supply, v: word, p0: nat, p: nat)
    requires n > 0 && Grew(h0, h, n, s0, s, v, p0, p)
    ensures h0.Valid() && h.Valid() && h.FreeOk() && h.rover <= |h.free|
    ensures h.grants <= h0.grants && WithGrants(h0, h0.grants - h.grants).Valid()
    ensures var (h', f) := MallocUnits(WithGrants(h0, h0.grants - h.grants), n);
      && h'.grants == 0
      && (FirstFit(h, n).At? ==> var i := FirstFit(h, n).index;
            Restore(h0, h0.grants - h.grants, h') == Carve(h, i, n) && f == Fit.At(CarvedAt(h, i, n)))
      && (FirstFit(h, n).None? ==> Restore(h0, h0.grants - h.grants, h') == h && f == None)
  {
    hide Heap.Valid, Continues, FirstFit, MallocUnits, Carve, CarvedAt;
    ContinuesLess(h0, h, n);
    ContinuesEnd(h0, h, n);
    ValidParts(h);
    if FirstFit(h, n).At? { CarveGrantsKept(h, FirstFit(h, n).index, n); }
  }

  lemma WalkEndsNull(h0: Heap, h: Heap, n: nat, s0: Supply, s: Supply, v: word, p0: nat, p: nat)
    requires n > 0 && Grew(h0, h, n, s0, s, v, p0, p)
    requires FirstFit(h, n).None? && h.grants > 0 && Grow(h).rover <= |Grow(h).free| && Grow(h).NullRover()
    ensures Grow(h).grants <= h0.grants && WithGrants(h0, h0.grants - Grow(h).grants).Valid()
    ensures var (h', f) := MallocUnits(WithGrants(h0, h0.grants - Grow(h).grants), n);
      h'.grants == 0 && Restore(h0, h0.grants - Grow(h).grants, h') == Grow(h) && f == None
  {
    hide Heap.Valid, Continues, FirstFit, MallocUnits, Grow;
    GrowValid(h);
    ContinuesLess(h0, h, n);
    ContinuesNull(h0, h, n);
  }

  // ----- when a request succeeds --------------------------------------------------------

  /**
   A request of n units is served when the growths it takes fit below the sentinel, are all
   served by the frames and tables there are, and do not spoil the list.
   */
  ghost predicate Succeeds(h: Heap, n: nat, s: Supply, v: word, p: nat)
    requires h.FreeOk() && s.f.Valid()
  {
    var k := GrowthsFor(h, n);
    k <= h.grants && (k > 0 ==> !Spoiled(h, n)) && ForGrowths(s, v, p, k).ok
  }

  /** A request that ends on a null rover was bound to. */
  lemma {:induction false} NullMeansSpoiled(h: Heap, n: nat)
    requires h.Valid() && n > 0 && !h.NullRover()
    requires var (h', r) := MallocUnits(h, n); r.None? && h'.rover <= |h'.free| && h'.NullRover()
    ensures Spoiled(h, n) && GrowthsFor(h, n) > 0
    decreases h.grants
  {
    hide Tiling, Heap.FreeOk, Grow, Spoiled;
    FirstFitNone(h, n);
    TailTooSmall(h, n);
    CountReached(h.Tail(), n, 0);
    GrowNull(h);
    if h.free == [0] {
      SpoiledAtOnce(h, n);
    } else {
      GrowValid(h);
      FirstFitNone(Grow(h), n);
      NullMeansSpoiled(Grow(h), n);
      SpoiledGrow(h, n);
    }
  }

  /** What the walk of the list reports settles whether the request could have been served. */
  lemma WalkDecides(h: Heap, n: nat, s: Supply, v: word, p: nat, granted: nat)
    requires h.Valid() && n > 0 && !h.NullRover() && s.f.Valid()
    requires granted <= h.grants && WithGrants(h, granted).Valid()
    requires ForGrowths(s, v, p, granted).ok
    requires MallocUnits(WithGrants(h, granted), n).0.grants == 0
    requires var (h', r) := MallocUnits(WithGrants(h, granted), n);
      r.At? || granted == h.grants || !ForGrowths(s, v, p, granted + 1).ok || (h'.rover <= |h'.free| && h'.NullRover())
    ensures MallocUnits(WithGrants(h, granted), n).1.At? <==> Succeeds(h, n, s, v, p)
    ensures MallocUnits(WithGrants(h, granted), n).1.At? ==> granted == GrowthsFor(h, n)
  {
    hide Tiling, Heap.FreeOk, MallocUnits, ForGrowths, Spoiled;
    var w := WithGrants(h, granted);
    ServedWithin(w, n);
    SameDemand(h, granted, n);
    var (h', r) := MallocUnits(w, n);
    if r.None? {
      if h'.rover <= |h'.free| && h'.NullRover() {
        NullMeansSpoiled(w, n);
      } else if GrowthsFor(h, n) > granted && granted < h.grants {
        FewerServed(s, v, p, granted + 1, GrowthsFor(h, n));
      }
    }
  }

  lemma RestoreNull(h: Heap, granted: nat, h': Heap)
    requires granted <= h.grants && Restore(h, granted, h').rover <= |h'.free|
    ensures h'.NullRover() == Restore(h, granted, h').NullRover()
  {
  }

  lemma SameDemand(h: Heap, g: nat, n: nat)
    requires h.Valid() && WithGrants(h, g).Valid()
    ensures GrowthsFor(WithGrants(h, g), n) == GrowthsFor(h, n)
    ensures Spoiled(WithGrants(h, g), n) == Spoiled(h, n)
    ensures WithGrants(h, g).NullRover() == h.NullRover()
  {
    hide Tiling;
  }

  /**
   Enough stacked frames serve a request: two for each growth it takes, and one for each
   directory entry that the new pages span, and one to spare.
   */
  lemma StackSuffices(h: Heap, n: nat, s: Supply, v: word, p: nat)
    requires h.Valid() && n > 0 && s.f.Valid() && GrowthsFor(h, n) <= h.grants
    requires v + PAGE_FRAME_SIZE * (p + 2 * GrowthsFor(h, n)) <= TWO_32
    requires |s.f.stack| > 2 * GrowthsFor(h, n) + Spanned(v, p, 2 * GrowthsFor(h, n))
    ensures Succeeds(h, n, s, v, p) <==> GrowthsFor(h, n) == 0 || !Spoiled(h, n)
  {
    hide Tiling, Spoiled, ForGrowths, Spanned, Spent;
    StackServes(s, v, p, GrowthsFor(h, n));
  }

  /** In a heap above address 0 the list is never spoiled: frames and room are all that it takes. */
  lemma NeverSpoiled(h: Heap, n: nat)
    requires h.Valid() && h.start > 0
    ensures !Spoiled(h, n) && !h.NullRover()
  {
    hide Tiling;
    RoverNull(h);
    if h.free != [] { LowestFree(h); }
  }

  lemma LowestFree(h: Heap)
    requires h.Valid() && h.free != []
    ensures h.start <= h.free[0]
  {
    assert h.free[0] in h.blocks;
  }

  /** The program may write any unit of a live payload: no header of the list is there. */
  lemma ProgramWriteKeeps(mem: seq<Unit>, h: Heap, b: Ptr, u: Ptr, v: Unit)
    requires h.Valid() && Linked(mem, h) && h.Live(b) && b < u < b + h.blocks[b]
    ensures u < |mem| && Linked(mem[u := v], h)
  {
    hide Heap.FreeOk;
    forall c | c in h.blocks && c != b ensures c != u { NotInLive(h, b, u, c); }
    LiveInside(h, b, b);
    var mem1 := mem[u := v];
    forall i: nat | i <= |h.free| ensures LinkAt(mem1, h, i) {
      assert LinkAt(mem, h, i);
      NotInRing(h, b, u, i);
    }
  }

  // ----- the memory behind the heap ---------------------------------------------------

  lemma PageOfUnit(start: Ptr, u: Ptr, j: nat)
    requires start % 512 == 0 && start <= u && 8 * u < TWO_32 && j == (u - start) / 512
    ensures PdIdx(GrowthPage(8 * start, j)) == PdIdx(8 * u) && PtIdx(GrowthPage(8 * start, j)) == PtIdx(8 * u)
  {
    GrowthPageIs(8 * start, j);
    SamePageNumber(GrowthPage(8 * start, j), 8 * u);
  }

  lemma RunningParts(freep: Ptr, pages: nat, mem: seq<Unit>, h: Heap)
    requires Running(freep, pages, mem, h)
    ensures h.Valid() && Linked(mem, h) && OnList(freep, mem, h)
    ensures h.rover <= |h.free| && freep == h.Ring()[h.rover]
  {
  }

  lemma RoverHere(freep: Ptr, mem: seq<Unit>, h: Heap)
    requires OnList(freep, mem, h)
    ensures freep == 0 <==> h.NullRover()
  {
    hide Linked;
  }

  lemma SameBacking(b: seq<Frame>, r: Ram)
    ensures KeepsBacking(b, r, b, r)
  {
  }

  /** Heap pages keep their frames, and those frames their contents. */
  ghost predicate KeepsBacking(b: seq<Frame>, r: Ram, b': seq<Frame>, r': Ram) {
    |b| <= |b'| && forall j :: 0 <= j < |b| ==> b'[j] == b[j] && r'[b[j]] == r[b[j]]
  }

  lemma KeepsBackingTrans(b: seq<Frame>, r: Ram, b': seq<Frame>, r': Ram, b'': seq<Frame>, r'': Ram)
    requires KeepsBacking(b, r, b', r') && KeepsBacking(b', r', b'', r'')
    ensures KeepsBacking(b, r, b'', r'')
  {
  }

  /** The frames of a growth: those of the next allocation of two, in its order. */
  ghost function FramesOf(start: word, f: Frames): seq<Frame>
    requires f.Valid()
  {
    AllocateSucceeds(f, 2);
    if Allocate(f, 2).ok then [Phys(start, Allocate(f, 2).popped[0]), Phys(start, Allocate(f, 2).popped[1])] else []
  }

  /** Where the next growth goes, and that it is clear of the window. */
  lemma GrowthSite(start: Ptr, base: Ptr, pages: nat)
    requires start % 512 == 0 && start + 512 * pages + NALLOC < base && 8 * base <= KERNEL_TEMP_VADDR
    ensures 8 * start + PAGE_FRAME_SIZE * (pages + 2) <= TWO_32 && 8 * start % PAGE_FRAME_SIZE == 0
    ensures var v: word := 8 * start + 4096 * pages;
      && v == GrowthPage(8 * start, pages)
      && v % PAGE_FRAME_SIZE == 0 && v + 2 * PAGE_FRAME_SIZE <= TWO_32
      && NotWindow(GrowthPage(v, 0)) && NotWindow(GrowthPage(v, 1))
  {
    hide GrowthPage, NotWindow;
    HeapBelowWindow(8 * start + 4096 * pages, base);
    GrowthPageIs(8 * start, pages);
  }

  lemma BackingGrown(r: Ram, s: Ram, pd: Frame, start: word, f: Frames, f': Frames, v: word, backing: seq<Frame>,
                     ok: bool, f0: Frame, f1: Frame)
    requires v % PAGE_FRAME_SIZE == 0 && v + PAGE_FRAME_SIZE * (|backing| + 2) <= TWO_32
    requires Backed(r, pd, start, f, v, backing)
    requires Undisturbed(r, s, pd, GrowthPage(v, |backing|)) && Discreet(r, s, pd, start, f, f')
    requires ok ==> Grown(r, s, pd, GrowthPage(v, |backing|), f0, f1)
    requires ok ==> Taken(start, f, f', f0) && Taken(start, f, f', f1)
    ensures var b := if ok then backing + [f0, f1] else backing;
      Backed(s, pd, start, f', v, b) && KeepsBacking(backing, r, b, s)
  {
    hide Backed, Undisturbed, Discreet, Grown, Taken, GrowthPage;
    BackedStays(r, s, pd, start, f, f', v, backing);
    if ok { BackedGrows(r, s, pd, start, f, f', v, backing, f0, f1); }
  }

  /**
   How many growths a walk tried that made `granted` of them and ended in h: one more, which
   was refused, unless it was served, met a null rover or had no room.
   */
  ghost function Tried(h: Heap, served: bool, granted: nat, room: nat): nat
    requires h.rover <= |h.free|
  {
    if served || h.NullRover() || granted == room then granted else granted + 1
  }

  class Allocator {
    var freep: Ptr
    const base: Ptr
    const start: Ptr
    var totalPages: nat
    var mem: seq<Unit>
    const mmu: Mmu
    ghost var h: Heap
    ghost var backing: seq<Frame>  // the frame of each heap page

    ghost predicate Valid()
      reads this, mmu, mmu.frames, mmu.frames.bitMap, mmu.frames.stack, mmu.frames.allocatedPageFrames
    {
      && Stands(freep, totalPages, mem, h)
      && h.start == start && h.base == base && h.grants == RoomFor(h.end, base)
      && MemoryBacked()
    }

    /** Every page of the heap is mapped and writable, on a frame of its own. */
    ghost predicate MemoryBacked()
      reads `totalPages, `backing, mmu, mmu.frames
      reads mmu.frames.bitMap, mmu.frames.stack, mmu.frames.allocatedPageFrames
    {
      && start % 512 == 0 && start + 512 * totalPages < base && 8 * base <= KERNEL_TEMP_VADDR
      && mmu.Valid() && mmu.Usable(mmu.kernelPd) && mmu.currentPd == mmu.kernelPd
      && |backing| == totalPages
      && Backed(mmu.ram, mmu.kernelPd, mmu.frames.startOffset, mmu.frames.f, 8 * start, backing)
    }

    /** The frames and tables that growths can draw on. */
    ghost function Offers(): Supply
      reads mmu, mmu.frames
    {
      SupplyOf(mmu.ram, mmu.kernelPd, mmu.frames.f)
    }

    lemma OffersValid()
      requires MemoryBacked()
      ensures Offers().f.Valid() && 8 * start < TWO_32
    {
    }

    constructor (start: Ptr, base: Ptr, mem: seq<Unit>, mmu: Mmu)
      requires start < base < |mem| && start % 512 == 0 && 8 * base <= KERNEL_TEMP_VADDR
      requires mmu.Valid() && mmu.Usable(mmu.kernelPd) && mmu.currentPd == mmu.kernelPd
      ensures Valid() && h == InitHeap(start, base, RoomFor(start, base))
      ensures this.start == start && this.base == base && this.mem == mem && this.mmu == mmu && freep == totalPages == 0
    {
      this.start, this.base, this.mem, this.mmu := start, base, mem, mmu;
      freep, totalPages, backing := 0, 0, [];
      h := InitHeap(start, base, RoomFor(start, base));
    }

    /**
     Every unit of a live block lies in a mapped and writable page, whose frame backs no
     other heap page, is no table of the kernel directory and cannot be handed out again.
     */
    lemma LiveIsBacked(b: Ptr, u: Ptr)
      requires Valid() && h.Live(b) && Covers(h.blocks, b, u)
      ensures start <= u && 8 * u < TWO_32 && (u - start) / 512 < |backing|
      ensures MappedWritable(mmu.ram, mmu.kernelPd, PdIdx(8 * u), PtIdx(8 * u), backing[(u - start) / 512])
      ensures Outside(mmu.ram, mmu.kernelPd, backing[(u - start) / 512])
      ensures !WasAvail(mmu.frames.startOffset, mmu.frames.f, backing[(u - start) / 512])
      ensures forall j :: 0 <= j < |backing| && j != (u - start) / 512 ==> backing[j] != backing[(u - start) / 512]
    {
      hide MappedWritable, PdIdx, PtIdx, GrowthPage, Outside, WasAvail, Linked, Heap.FreeOk, Tiling,
        FrameAllocator.Valid;
      LiveInside(h, b, b);
      var j := (u - start) / 512;
      PageOfUnit(start, u, j);
      assert BackedPage(mmu.ram, mmu.kernelPd, mmu.frames.startOffset, mmu.frames.f, 8 * start, j, backing[j]);
    }

    method Free(ap: Ptr)
      requires Valid() && (ap != 0 ==> h.Live(ap - 1))
      modifies `mem, `freep, `h
      ensures Valid() && h == FreeStep(old(h), ap)
      ensures ap == 0 ==> h == old(h) && mem == old(mem) && freep == old(freep)
      ensures Running(old(freep), totalPages, old(mem), old(h)) ==> Running(freep, totalPages, mem, h)
      ensures SameLive(h, old(mem), mem)
    {
      hide Heap.Valid, Linked, SameLive, FreeBlock, StoreLeft, StoreRight, Before, InsertPos, Heap.Ring;
      if ap == 0 {
        UntouchedSame(h, mem);
        return;
      }
      var bp := ap - 1;
      LiveMeansRunning(freep, totalPages, mem, h, bp);
      var p := Search(bp);
      ghost var h' := FreeSound(freep, totalPages, mem, h, bp, p, mem[p].next);
      LinkIn(p, bp);
      freep, h := p, h';
    }

    /** Links bp in after p, merging it with the block above and then with p. */
    method LinkIn(p: Ptr, bp: Ptr)
      requires p < |mem| && bp < |mem| && mem[p].next < |mem| && p != bp
      modifies `mem
      ensures mem == StoreLeft(StoreRight(old(mem), bp, old(mem)[p].next), p, bp)
    {
      var q := mem[p].next;
      if bp + mem[bp].size == q {
        mem := mem[bp := Unit(mem[q].next, mem[bp].size + mem[q].size)];
      } else {
        mem := mem[bp := mem[bp].(next := q)];
      }
      if p + mem[p].size == bp {
        mem := mem[p := Unit(mem[bp].next, mem[p].size + mem[bp].size)];
      } else {
        mem := mem[p := mem[p].(next := bp)];
      }
    }

    /** Walks from the rover to the one gap that bp belongs in. */
    method Search(bp: Ptr) returns (p: Ptr)
      requires Running(freep, totalPages, mem, h) && h.Live(bp)
      ensures p == Before(h, bp) < |mem| && mem[p].next == h.Ring()[InsertPos(h.free, bp)]
    {
      hide Tiling, Sized, Heap.FreeOk;
      p := freep;
      ghost var goal: nat := h.Prev(InsertPos(h.free, bp));
      ghost var i: nat := h.rover;
      assert LinkAt(mem, h, i);
      UniqueGap(h, bp, i);
      while !AtGap(p, mem[p].next, bp)
        invariant i <= |h.free| && p == h.Ring()[i] && LinkAt(mem, h, i)
        invariant AtGap(p, mem[p].next, bp) <==> i == goal
        decreases if i <= goal then goal - i else goal + |h.free| + 1 - i
      {
        i := h.Next(i);
        p := mem[p].next;
        assert LinkAt(mem, h, i);
        UniqueGap(h, bp, i);
      }
    }

    /**
     `granted` is the number of growths that took place. A request fails only when it must:
     when the growths it takes are refused, do not fit, or leave `freep` null.
     */
    method Malloc(nbytes: word) returns (r: Ptr, ghost granted: nat)
      requires Valid()
      modifies this, mmu`ram, mmu`window
      modifies mmu.frames`lastAllocatedIndex, mmu.frames`topIndex, mmu.frames`f
      modifies mmu.frames.bitMap, mmu.frames.stack, mmu.frames.allocatedPageFrames
      ensures Valid() && granted <= old(h).grants && (h, r) == MallocStep(old(h), nbytes, granted)
      ensures old(Offers()).f.Valid() && Awake(old(h)).FreeOk() &&
              (r != 0 <==> nbytes != 0 &&
                           Succeeds(Awake(old(h)), UnitsFor(nbytes), old(Offers()), 8 * start, old(totalPages)))
      ensures r != 0 ==> granted == GrowthsFor(Awake(old(h)), UnitsFor(nbytes))
      ensures h.grants == old(h).grants - granted
      ensures nbytes == 0 ==>
        && r == 0 && granted == 0 && h == old(h) && mem == old(mem) && freep == old(freep)
        && totalPages == old(totalPages) && mmu.ram == old(mmu.ram) && mmu.frames.f == old(mmu.frames.f)
      ensures nbytes != 0 ==>
        && Running(freep, totalPages, mem, h) && ForGrowths(old(Offers()), 8 * start, old(totalPages), granted).ok
        && var tried := Tried(h, r != 0, granted, old(h).grants);
           Offers() == ForGrowths(old(Offers()), 8 * start, old(totalPages), tried).s &&
           (tried > granted ==> !ForGrowths(old(Offers()), 8 * start, old(totalPages), tried).ok)
      ensures Keeps(old(h), h) && SameLive(old(h), old(mem), mem)
      ensures KeepsBacking(old(backing), old(mmu.ram), backing, mmu.ram)
    {
      hide Heap.Valid, Heap.FreeOk, Linked, SameLive, Keeps, MallocUnits, MemoryBacked, Heap.Ring, ForGrowths,
        GrowthsFor, Spoiled, Succeeds, KeepsBacking, RoomFor, Heap.NullRover, Awake;
      KeepsSelf(h);
      UntouchedSame(h, mem);
      SameBacking(backing, mmu.ram);
      OffersValid();
      AwakeValid(h);
      ValidParts(Awake(h));
      if nbytes == 0 { return 0, 0; }
      ghost var h0 := Awake(h);
      if freep == 0 {
        StartsList(totalPages, mem, h);
        freep := base;
        mem := mem[base := Unit(base, 0)];
        h := h0;
      } else {
        KeepsList(freep, totalPages, mem, h);
      }
      ghost var m := mem;
      r, granted := Walk(DivAbsoluteCeil(nbytes, 8));
      SameLiveTrans(old(h), h0, old(mem), m, mem);
      KeepsTrans(old(h), h0, h);
      RestoreNull(h0, granted, MallocUnits(WithGrants(h0, granted), UnitsFor(nbytes)).0);
      WalkDecides(h0, UnitsFor(nbytes), old(Offers()), 8 * start, old(totalPages), granted);
    }

    /** Walks the ring from behind the rover, growing the heap at the end of each round. */
    method Walk(nunits: nat) returns (r: Ptr, ghost granted: nat)
      requires Valid() && Running(freep, totalPages, mem, h) && !h.NullRover() && nunits > 0
      modifies this, mmu`ram, mmu`window
      modifies mmu.frames`lastAllocatedIndex, mmu.frames`topIndex, mmu.frames`f
      modifies mmu.frames.bitMap, mmu.frames.stack, mmu.frames.allocatedPageFrames
      ensures Valid() && Running(freep, totalPages, mem, h)
      ensures granted <= old(h).grants && WithGrants(old(h), granted).Valid()
      ensures var (h', f) := MallocUnits(WithGrants(old(h), granted), nunits);
        h'.grants == 0 && h == Restore(old(h), granted, h') && r == match f case None => 0 case At(p) => p + 1
      ensures old(Offers()).f.Valid() && ForGrowths(old(Offers()), 8 * start, old(totalPages), granted).ok
      ensures h.grants == old(h).grants - granted
      ensures var tried := Tried(h, r != 0, granted, old(h).grants);
        Offers() == ForGrowths(old(Offers()), 8 * start, old(totalPages), tried).s &&
        (tried > granted ==> !ForGrowths(old(Offers()), 8 * start, old(totalPages), tried).ok)
      ensures Keeps(old(h), h) && SameLive(old(h), old(mem), mem)
      ensures KeepsBacking(old(backing), old(mmu.ram), backing, mmu.ram)
    {
      hide Heap.Valid, Heap.FreeOk, Linked, SameLive, Keeps, MallocUnits, Scan, Carve, Grow, Heap.Ring, CarvedAt,
        MemoryBacked, Continues, ForGrowth, ForGrowths, KeepsBacking, Heap.NullRover, RoomFor, OnList, SupplyOf,
        Restore, Grew, Placed, Stands, FramesOf, GrownForUser, GrowthPage;
      RunningParts(freep, totalPages, mem, h);
      ValidParts(h);
      KeepsSelf(h);
      UntouchedSame(h, mem);
      SameBacking(backing, mmu.ram);
      OffersValid();
      Arrive(mem, h, h.rover);
      ghost var s0, p0, v: word := Offers(), totalPages, 8 * start;
      GrewNothing(h, nunits, s0, v, p0);
      var prevp := freep;
      var p := mem[prevp].next;
      ghost var i: nat := h.Next(h.rover);
      while true
        invariant Valid() && Running(freep, totalPages, mem, h)
        invariant h.FreeOk() && h.rover <= |h.free| && !h.NullRover() && Cursor(mem, h, p, prevp, i)
        invariant Scan(h, nunits, i, h.ToRover(i)) == FirstFit(h, nunits)
        invariant Grew(old(h), h, nunits, s0, Offers(), v, p0, totalPages)
        invariant Keeps(old(h), h) && SameLive(old(h), old(mem), mem)
        invariant KeepsBacking(old(backing), old(mmu.ram), backing, mmu.ram)
        decreases h.grants, h.ToRover(i)
      {
        RunningParts(freep, totalPages, mem, h);
        Fits(mem, h, p, prevp, i, nunits);
        RoundStep(h, nunits, i, h.ToRover(i));
        GrewEnd(old(h), h, nunits, s0, Offers(), v, p0, totalPages);
        WalkEnds(old(h), h, nunits, s0, Offers(), v, p0, totalPages);
        ghost var g, m, b, x := h, mem, backing, mmu.ram;
        if mem[p].size >= nunits {
          CarveGrantsKept(h, i, nunits);
          r := Take(prevp, p, nunits, i);
          KeepsTrans(old(h), g, h);
          SameLiveTrans(old(h), g, old(mem), m, mem);
          return r, old(h).grants - g.grants;
        }
        if p == freep {
          ghost var ok;
          ghost var s, p1 := Offers(), totalPages;
          p, ok := GetMoreMemory(nunits);
          KeepsTrans(old(h), g, h);
          SameLiveTrans(old(h), g, old(mem), m, mem);
          KeepsBackingTrans(old(backing), old(mmu.ram), b, x, backing, mmu.ram);
          RunningParts(freep, totalPages, mem, h);
          ValidParts(h);
          RoverHere(freep, mem, h);
          if p == 0 {
            if ok { WalkEndsNull(old(h), g, nunits, s0, s, v, p0, p1); }
            return 0, old(h).grants - h.grants;
          }
          GrewMore(old(h), g, nunits, s0, s, v, p0, p1);
          i := h.rover;
        }
        Arrive(mem, h, i);
        prevp, p := p, mem[p].next;
        i := h.Next(i);
      }
    }

    /** Hands out n units of p, whose predecessor in the ring is prevp. */
    method Take(prevp: Ptr, p: Ptr, nunits: nat, ghost i: nat) returns (r: Ptr)
      requires Valid() && Running(freep, totalPages, mem, h) && Cursor(mem, h, p, prevp, i)
      requires i < |h.free| && 0 < nunits <= h.blocks[h.free[i]] == mem[p].size
      modifies `mem, `freep, `h
      ensures Valid() && Running(freep, totalPages, mem, h)
      ensures h == Carve(old(h), i, nunits) && r == CarvedAt(old(h), i, nunits) + 1
      ensures Keeps(old(h), h) && SameLive(old(h), old(mem), mem)
    {
      hide Heap.Valid, Heap.FreeOk, Linked, SameLive, Keeps, Carve, Heap.Ring, CarvedAt, MemoryBacked;
      ValidParts(h);
      CarveSound(freep, totalPages, mem, h, i, nunits);
      CarveKeeps(h, i, nunits);
      var q := p;
      if mem[p].size == nunits {
        mem := mem[prevp := mem[prevp].(next := mem[p].next)];
      } else {
        mem := mem[p := mem[p].(size := mem[p].size - nunits)];
        q := p + mem[p].size;
        mem := mem[q := mem[q].(size := nunits)];
      }
      freep := prevp;
      h := Carve(h, i, nunits);
      return q + 1;
    }

    /**
     Grows the heap by NALLOC units, whatever nunits is, and returns `freep`. NULL stands for
     a refused frame or no room below the sentinel, which the source does not check for, but
     also for a growth that left `freep` null.
     */
    method GetMoreMemory(nunits: nat) returns (p: Ptr, ghost ok: bool)
      requires Valid() && Running(freep, totalPages, mem, h)
      modifies this, mmu`ram, mmu`window
      modifies mmu.frames`lastAllocatedIndex, mmu.frames`topIndex, mmu.frames`f
      modifies mmu.frames.bitMap, mmu.frames.stack, mmu.frames.allocatedPageFrames
      ensures Valid() && Running(freep, totalPages, mem, h)
      ensures old(Offers()).f.Valid() &&
              (ok <==> old(h).grants > 0 && ForGrowth(old(Offers()), 8 * start, old(totalPages)).ok)
      ensures !ok ==> p == 0 && h == old(h) && mem == old(mem) && freep == old(freep) && totalPages == old(totalPages)
      ensures ok ==>
        h == Grow(old(h)) && h.grants == old(h).grants - 1 && p == freep && totalPages == old(totalPages) + 2
      ensures Offers() ==
        if old(h).grants == 0 then old(Offers()) else ForGrowth(old(Offers()), 8 * start, old(totalPages)).s
      ensures ok ==>
        GrownForUser(old(mmu.ram), mmu.ram, mmu.kernelPd, GrowthPage(Wrap(8 * start), old(totalPages)))
      ensures backing == old(backing) + if ok then FramesOf(mmu.frames.startOffset, old(mmu.frames.f)) else []
      ensures Keeps(old(h), h) && SameLive(old(h), old(mem), mem)
      ensures KeepsBacking(old(backing), old(mmu.ram), backing, mmu.ram)
    {
      hide Tiling, Heap.FreeOk, Linked, SameLive, Keeps, Grow, Heap.Ring, FreeBlock, MemoryBacked, ForGrowth,
        KeepsBacking, GrownForUser, GrowthPage;
      KeepsSelf(h);
      UntouchedSame(h, mem);
      SameBacking(backing, mmu.ram);
      OffersValid();
      var nunits := if nunits < NALLOC then NALLOC else nunits;
      p := start + totalPages * 512;
      if p + NALLOC >= base { return 0, false; }
      var numPageFrames := 2;
      var totalSize := numPageFrames * 4096;
      var mapped := MapPages();
      if !mapped { return 0, false; }
      GrowKeeps(h);
      ExtendSound(freep, totalPages - 2, mem, h);
      mem := mem[p := mem[p].(size := totalSize / 8)];
      h := Extend(h);
      ghost var m := mem;
      Free(p + 1);
      SameLiveTrans(old(h), h, old(mem), m, mem);
      return freep, true;
    }

    /** The pages of a growth, at the end of the heap. */
    method MapPages() returns (ok: bool)
      requires MemoryBacked() && start + 512 * totalPages + NALLOC < base
      modifies `totalPages, `backing, mmu`ram, mmu`window
      modifies mmu.frames`lastAllocatedIndex, mmu.frames`topIndex, mmu.frames`f
      modifies mmu.frames.bitMap, mmu.frames.stack, mmu.frames.allocatedPageFrames
      ensures MemoryBacked() && totalPages == old(totalPages) + (if ok then 2 else 0)
      ensures old(Offers()).f.Valid() &&
              Turn(ok, Offers()) == ForGrowth(old(Offers()), 8 * start, old(totalPages))
      ensures ok ==>
        GrownForUser(old(mmu.ram), mmu.ram, mmu.kernelPd, GrowthPage(Wrap(8 * start), old(totalPages)))
      ensures backing == old(backing) + if ok then FramesOf(mmu.frames.startOffset, old(mmu.frames.f)) else []
      ensures KeepsBacking(old(backing), old(mmu.ram), backing, mmu.ram)
    {
      hide Backed, FrameAllocator.Valid, Mmu.Usable, NotWindow, Undisturbed, Discreet, Grown, Taken, ForGrowth,
        SupplyOf, GrowthPage, Mmu.Valid, Frames.Valid, KeepsBacking, GrownForUser;
      OffersValid();
      GrowthSite(start, base, totalPages);
      GrowthOffset(Offers(), 8 * start, totalPages);
      ghost var r, f := mmu.ram, mmu.frames.f;
      var mallocVaddress: word := 8 * start + 4096 * totalPages;
      var mapped, f0, f1 := MapHeapPages(mmu, mallocVaddress);
      ok := mapped;
      BackingGrown(r, mmu.ram, mmu.kernelPd, mmu.frames.startOffset, f, mmu.frames.f, 8 * start, backing, ok, f0, f1);
      if ok {
        totalPages := totalPages + 2;
        backing := backing + [f0, f1];
      }
    }
  }
}
