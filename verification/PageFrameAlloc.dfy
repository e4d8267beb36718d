/**
 page_frame_alloc.c: the bitmap words, the stack array and the static result array that
 realise the allocator of FrameSpec. The number of bitmap words is a parameter.
 */
module PageFrameAlloc {
  import opened Bits
  import opened FrameSpec
  import opened FrameTheorems
  import opened Utilities

  const STACK_OP_FAIL: word := 0
  const STACK_OP_SUCCESS: word := 1
  const BITMAP_ENTRIES: nat := 0x8000

  /** The words hold the bits, 32 to a word, lowest first. */
  ghost predicate BitsAgree(words: seq<bv32>, bits: seq<bool>) {
    && |bits| == 32 * |words|
    && forall w: nat, i: nat {:trigger Bit(words[w], i)} :: w < |words| && i < 32 ==>
         (bits[32 * w + i] <==> Bit(words[w], i))
  }

  lemma BitsAt(words: seq<bv32>, bits: seq<bool>, w: nat, i: nat)
    requires BitsAgree(words, bits) && w < |words| && i < 32
    ensures 32 * w + i < |bits| && (bits[32 * w + i] <==> Bit(words[w], i))
  {
    hide Bit;
  }

  lemma SetAgrees(words: seq<bv32>, bits: seq<bool>, w: nat, i: nat)
    requires BitsAgree(words, bits) && w < |words| && i < 32
    ensures BitsAgree(words[w := WithBit(words[w], i)], bits[32 * w + i := true])
  {
    hide Bit, WithBit, WithoutBit;
    var words', bits' := words[w := WithBit(words[w], i)], bits[32 * w + i := true];
    forall v: nat, j: nat | v < |words'| && j < 32 ensures bits'[32 * v + j] <==> Bit(words'[v], j) {
      BitsAt(words, bits, v, j);
      SetBit(words[w], i, j);
    }
  }

  lemma ClearAgrees(words: seq<bv32>, bits: seq<bool>, w: nat, i: nat)
    requires BitsAgree(words, bits) && w < |words| && i < 32
    ensures BitsAgree(words[w := WithoutBit(words[w], i)], bits[32 * w + i := false])
  {
    hide Bit, WithBit, WithoutBit;
    var words', bits' := words[w := WithoutBit(words[w], i)], bits[32 * w + i := false];
    forall v: nat, j: nat | v < |words'| && j < 32 ensures bits'[32 * v + j] <==> Bit(words'[v], j) {
      BitsAt(words, bits, v, j);
      ClearBit(words[w], i, j);
    }
  }

  /** The occupied part of the stack array holds the addresses of the stacked frames. */
  ghost predicate StackAgrees(start: word, slots: seq<word>, stack: seq<nat>) {
    |stack| <= |slots| && forall j :: 0 <= j < |stack| ==> slots[j] == AddressOf(start, stack[j])
  }

  /** A scan has reached ring position p with `taken` in hand; what it will take is fixed. */
  ghost predicate Scanned(bits: seq<bool>, s: nat, p: nat, taken: seq<nat>) {
    && 32 * s < |bits| && p <= |bits| && |taken| <= STACK_SIZE
    && TakeClear(bits, s, 0, STACK_SIZE) == taken + TakeClear(bits, s, p, STACK_SIZE - |taken|)
    && forall j :: 0 <= j < |taken| ==> taken[j] < |bits| && RingPos(|bits|, s, taken[j]) < p
  }

  lemma ScanStep(bits: seq<bool>, s: nat, p: nat, taken: seq<nat>)
    requires Scanned(bits, s, p, taken) && p < |bits| && |taken| < STACK_SIZE
    ensures var k := FrameAt(|bits|, s, p);
      && k < |bits| && k !in taken
      && Scanned(bits, s, p + 1, if bits[k] then taken else taken + [k])
      && Mark(bits, taken)[k] == bits[k]
      && (!bits[k] ==> Mark(bits, taken + [k]) == Mark(bits, taken)[k := true])
  {
    RingPosInverse(|bits|, s, p);
    var k := FrameAt(|bits|, s, p);
    if !bits[k] {
      var rest := TakeClear(bits, s, p + 1, STACK_SIZE - |taken| - 1);
      assert taken + ([k] + rest) == taken + [k] + rest;
      assert Mark(bits, taken + [k]) == Mark(bits, taken)[k := true];
    }
  }

  lemma ScanStart(bits: seq<bool>, s: nat)
    requires 32 * s < |bits|
    ensures Scanned(bits, s, 0, []) && Mark(bits, []) == bits
  {
  }

  lemma ScanEnd(bits: seq<bool>, s: nat, p: nat, taken: seq<nat>)
    requires Scanned(bits, s, p, taken) && (p == |bits| || |taken| == STACK_SIZE)
    ensures taken == TakeClear(bits, s, 0, STACK_SIZE)
  {
  }

  lemma InitAgrees(words: seq<bv32>)
    requires 32 <= |words|
    requires forall w :: 0 <= w < |words| ==> words[w] == if w < 32 then ONES else 0
    ensures BitsAgree(words, InitFrames(|words|).bits)
  {
    hide Bit;
    forall w: nat, i: nat | w < |words| && i < 32
      ensures InitFrames(|words|).bits[32 * w + i] <==> Bit(words[w], i)
    {
      Constants(i);
    }
  }

  /** The whole call is the frames popped so far followed by the rest of the call. */
  ghost predicate Resumes(whole: Outcome, popped: seq<nat>, refills: nat, rest: Outcome) {
    && whole.after == rest.after && whole.ok == rest.ok
    && whole.popped == popped + rest.popped && whole.refills == refills + rest.refills
  }

  lemma ResumeStart(f: Frames, n: nat)
    requires f.Valid() && n <= STACK_SIZE
    ensures Resumes(Allocate(f, n), [], 0, AllocateFrom(f, 0, n))
  {
  }

  lemma ResumeEnd(whole: Outcome, popped: seq<nat>, refills: nat, f: Frames, n: nat)
    requires f.Shape() && n <= STACK_SIZE && Resumes(whole, popped, refills, AllocateFrom(f, n, n))
    ensures whole.ok && whole.after == f && whole.popped == popped
  {
  }

  lemma ResumeStep(whole: Outcome, popped: seq<nat>, refills: nat, f: Frames, i: nat, n: nat)
    requires f.Valid() && i < n <= STACK_SIZE && Resumes(whole, popped, refills, AllocateFrom(f, i, n))
    ensures Pop(f).Shape()
    ensures
      var g := Pop(f);
      if g.stack == [] && Refill(g).1 < 1024 - i + 1 then !whole.ok && whole.after == Refill(g).0
      else Resumes(whole, popped + PoppedBy(f), refills + (if g.stack == [] then 1 else 0),
                   AllocateFrom(Advance(f), i + 1, n))
  {
    hide Refill;
    var g := Pop(f);
    if !(g.stack == [] && Refill(g).1 < 1024 - i + 1) {
      var rest := AllocateFrom(Advance(f), i + 1, n).popped;
      assert popped + (PoppedBy(f) + rest) == popped + PoppedBy(f) + rest;
    }
  }

  /** What one iteration of pf_allocate_frames can rely on. */
  lemma Iteration(f: Frames, i: nat)
    requires f.Valid() && i < STACK_SIZE
    ensures Pop(f).Shape() && Advance(f).Valid()
    ensures f.stack == [] ==> Pop(f).stack == [] && Refill(Pop(f)).1 == 0
    ensures Pop(f).stack == [] && Refill(Pop(f)).1 >= 1024 - i + 1 ==> Advance(f).stack != []
    ensures |PoppedBy(f)| == if f.stack == [] then 0 else 1
    ensures |Pop(f).bits| == |Advance(f).bits| == |f.bits|
  {
    hide Refill;
    AdvanceAvail(f, 0);
    if Pop(f).stack == [] {
      RefillStack(Pop(f));
      if f.stack == [] {
        SaturatedSupply(f);
        PopSupply(f);
      }
    }
  }

  /** The frames that init stacks lie above the kernel's end exactly when none of them wraps. */
  lemma StackedAboveKernel(start: word, kernelPhysicalEnd: word)
    requires start == Wrap((kernelPhysicalEnd / PAGE + 1) * PAGE)
    ensures start > 0 ==> ((forall k: nat :: k < STACK_SIZE ==> AddressOf(start, k) > kernelPhysicalEnd)
                           <==> start + PAGE * STACK_SIZE <= TWO_32)
  {
    if start > 0 && start + PAGE * STACK_SIZE > TWO_32 {
      var k: nat := (TWO_32 - start) / PAGE;
      assert AddressOf(start, k) == 0;
    }
  }

  class FrameAllocator {
    var startOffset: word
    const bitMap: array<bv32>
    var lastAllocatedIndex: nat
    const maxLenIndex: int
    var topIndex: int
    const stack: array<word>
    const allocatedPageFrames: array<word>
    ghost var f: Frames

    ghost predicate Stands()
      reads this, bitMap, stack, allocatedPageFrames
    {
      && stack != allocatedPageFrames && bitMap as object != stack && bitMap as object != allocatedPageFrames
      && stack.Length == STACK_SIZE && allocatedPageFrames.Length == STACK_SIZE && maxLenIndex == STACK_SIZE - 1
      && f.Shape() && bitMap.Length == f.words && lastAllocatedIndex == f.last
      && topIndex == |f.stack| - 1
      && BitsAgree(bitMap[..], f.bits) && StackAgrees(startOffset, stack[..], f.stack)
    }

    /** Every managed frame lies in the address space, and none at address 0. */
    ghost predicate InSpace()
      reads this
    {
      FramesInSpace(startOffset, |f.bits|)
    }

    ghost predicate Valid()
      reads this, bitMap, stack, allocatedPageFrames
    {
      Stands() && f.Valid() && |f.bits| <= MAX_FRAMES
    }

    lemma ValidParts()
      requires Valid()
      ensures f.Valid() && allocatedPageFrames.Length == STACK_SIZE
    {
    }

    method StackPush(item: word, ghost k: nat) returns (r: word)
      requires Stands() && item == AddressOf(startOffset, k)
      modifies `topIndex, `f, stack
      ensures Stands()
      ensures if |old(f).stack| < STACK_SIZE
              then r == STACK_OP_SUCCESS && f == old(f).(stack := old(f).stack + [k])
              else r == STACK_OP_FAIL && f == old(f)
    {
      hide BitsAgree;
      if topIndex < maxLenIndex {
        topIndex := topIndex + 1;
        stack[topIndex] := item;
        f := f.(stack := f.stack + [k]);
        assert bitMap[..] == old(bitMap[..]);
        assert stack[..] == old(stack[..])[topIndex := item];
        return STACK_OP_SUCCESS;
      } else {
        return STACK_OP_FAIL;
      }
    }

    method StackTpop() returns (r: word)
      requires Stands()
      modifies `topIndex, `f
      ensures Stands() && f == Pop(old(f))
      ensures r == if old(f).stack == [] then STACK_OP_FAIL else AddressOf(startOffset, PoppedBy(old(f))[0])
    {
      hide BitsAgree;
      if topIndex >= 0 {
        r := stack[topIndex];
        topIndex := topIndex - 1;
        f := Pop(f);
      } else {
        r := STACK_OP_FAIL;
      }
    }

    /** The storage of the two static structures, before init. */
    constructor (words: nat)
      requires 32 <= words
      ensures bitMap.Length == words && stack.Length == STACK_SIZE && allocatedPageFrames.Length == STACK_SIZE
      ensures stack != allocatedPageFrames && bitMap as object != stack && bitMap as object != allocatedPageFrames
      ensures maxLenIndex == STACK_SIZE - 1
      ensures fresh(bitMap) && fresh(stack) && fresh(allocatedPageFrames)
    {
      bitMap := new bv32[words];
      stack := new word[STACK_SIZE];
      allocatedPageFrames := new word[STACK_SIZE];
      maxLenIndex := STACK_SIZE - 1;
      startOffset, lastAllocatedIndex, topIndex := 0, 0, -1;
      f := Frames(words, [], [], 0);
    }

    method PageFrameAllocatorInit(kernelPhysicalEnd: word)
      requires 32 <= bitMap.Length <= BITMAP_ENTRIES
      requires stack.Length == STACK_SIZE && allocatedPageFrames.Length == STACK_SIZE
      requires stack != allocatedPageFrames && bitMap as object != stack && bitMap as object != allocatedPageFrames
      requires maxLenIndex == STACK_SIZE - 1
      modifies this, bitMap, stack
      ensures Valid() && f == InitFrames(bitMap.Length)
      ensures forall j :: 0 <= j < STACK_SIZE ==> stack[j] == Wrap(startOffset + 0x1000 * j)
      ensures topIndex == 1023 && lastAllocatedIndex == 31
      ensures forall w :: 0 <= w < bitMap.Length ==> bitMap[w] == if w < 32 then 0xFFFF_FFFF else 0
      ensures startOffset == Wrap((kernelPhysicalEnd / PAGE + 1) * PAGE)
      ensures kernelPhysicalEnd < TWO_32 - PAGE ==> kernelPhysicalEnd < startOffset <= kernelPhysicalEnd + PAGE
      ensures startOffset > 0 ==> ((forall k: nat :: k < STACK_SIZE ==> AddressOf(startOffset, k) > kernelPhysicalEnd)
                                   <==> startOffset + PAGE * STACK_SIZE <= TWO_32)
    {
      var pages, _, _, _ := DivideUnsigned(kernelPhysicalEnd, PAGE);
      startOffset := Wrap((pages + 1) * PAGE);
      MarkFirst();
      lastAllocatedIndex := 31;
      topIndex := -1;
      f := Frames(bitMap.Length, InitFrames(bitMap.Length).bits, [], 31);
      for i := 0 to STACK_SIZE
        invariant startOffset == Wrap((kernelPhysicalEnd / PAGE + 1) * PAGE)
        invariant Stands() && f == Frames(bitMap.Length, InitFrames(bitMap.Length).bits, seq(i, k => k), 31)
        invariant forall w :: 0 <= w < bitMap.Length ==> bitMap[w] == if w < 32 then 0xFFFF_FFFF else 0
      {
        var _ := StackPush(Wrap(startOffset + PAGE * i), i);
        assert seq(i, k => k) + [i] == seq(i + 1, k => k);
      }
      InitAccounted(bitMap.Length);
      StackedAboveKernel(startOffset, kernelPhysicalEnd);
    }

    /** Clears the bitmap, then marks its first 32 words. */
    method MarkFirst()
      requires 32 <= bitMap.Length
      modifies bitMap
      ensures BitsAgree(bitMap[..], InitFrames(bitMap.Length).bits)
      ensures forall w :: 0 <= w < bitMap.Length ==> bitMap[w] == if w < 32 then 0xFFFF_FFFF else 0
    {
      for i := 0 to bitMap.Length
        invariant forall w :: 0 <= w < i ==> bitMap[w] == 0
      {
        bitMap[i] := 0;
      }
      for i := 0 to 32
        invariant forall w :: 0 <= w < i ==> bitMap[w] == ONES
        invariant forall w :: i <= w < bitMap.Length ==> bitMap[w] == 0
      {
        bitMap[i] := ONES;
      }
      InitAgrees(bitMap[..]);
    }

    method BitmapGetUnallocatedPages() returns (pagesAllocated: nat)
      requires Stands() && f.stack == []
      modifies `lastAllocatedIndex, `topIndex, `f, bitMap, stack
      ensures Stands() && f == Refill(old(f)).0 && pagesAllocated == Refill(old(f)).1
    {
      StandsParts();
      hide Stands, Scanned, Mark, TakeClear;
      pagesAllocated := 0;
      var currIndex := lastAllocatedIndex;
      var startIndex := lastAllocatedIndex;
      ghost var bits, s := f.bits, f.last;
      ghost var taken: seq<nat>, v: nat := [], 0;
      ScanStart(bits, s);
      while pagesAllocated < STACK_SIZE
        invariant Stands() && f == Frames(old(f.words), Mark(bits, taken), taken, s)
        invariant pagesAllocated == |taken| < STACK_SIZE
        invariant v < old(f.words) && currIndex == (if s + v < old(f.words) then s + v else s + v - old(f.words))
        invariant Scanned(bits, s, 32 * v, taken)
        decreases old(f.words) - v
      {
        pagesAllocated, taken := ScanWord(currIndex, pagesAllocated, bits, s, v, taken);
        if pagesAllocated == 1024 {
          StopAt(currIndex);
          return 1024;
        }
        currIndex := currIndex + 1;
        v := v + 1;
        if currIndex == bitMap.Length { currIndex := 0; }
        if currIndex == startIndex {
          ScanEnd(bits, s, 32 * v, taken);
          StopAt(currIndex);
          return pagesAllocated;
        }
      }
    }

    /** The inner loop: one bitmap word, left early when 1024 pages are in hand. */
    method ScanWord(currIndex: nat, pages: nat, ghost bits: seq<bool>, ghost s: nat, ghost v: nat, ghost had: seq<nat>)
      returns (pagesAllocated: nat, ghost taken: seq<nat>)
      requires Stands() && f.words > 0 && |bits| == 32 * f.words && s < f.words && v < f.words
      requires f == Frames(f.words, Mark(bits, had), had, s) && pages == |had| < STACK_SIZE
      requires currIndex == if s + v < f.words then s + v else s + v - f.words
      requires Scanned(bits, s, 32 * v, had)
      modifies `topIndex, `f, bitMap, stack
      ensures Stands() && f == Frames(old(f.words), Mark(bits, taken), taken, s)
      ensures pagesAllocated == |taken| <= STACK_SIZE
      ensures if pagesAllocated == STACK_SIZE
              then taken == TakeClear(bits, s, 0, STACK_SIZE) && taken[STACK_SIZE - 1] / 32 == currIndex
              else Scanned(bits, s, 32 * v + 32, taken)
    {
      hide Stands, Scanned, Mark, TakeClear;
      pagesAllocated, taken := pages, had;
      for i := 0 to 32
        invariant Stands() && f == Frames(old(f.words), Mark(bits, taken), taken, s)
        invariant pagesAllocated == |taken| < STACK_SIZE
        invariant Scanned(bits, s, 32 * v + i, taken)
      {
        ghost var k := 32 * currIndex + i;
        assert k == FrameAt(|bits|, s, 32 * v + i);
        ScanStep(bits, s, 32 * v + i, taken);
        var took := TakeIfClear(currIndex, i);
        if took {
          taken := taken + [k];
          pagesAllocated := pagesAllocated + 1;
        }
        if pagesAllocated == 1024 {
          ScanEnd(bits, s, 32 * v + i + 1, taken);
          return;
        }
      }
    }

    lemma StandsParts()
      requires Stands()
      ensures f.Shape() && bitMap.Length == f.words && lastAllocatedIndex == f.last
    {
    }

    /** Remembers where the next scan starts. */
    method StopAt(currIndex: nat)
      requires Stands() && currIndex < f.words
      modifies `lastAllocatedIndex, `f
      ensures Stands() && f == old(f).(last := currIndex)
    {
      lastAllocatedIndex := currIndex;
      f := f.(last := currIndex);
    }

    /** Tests bit i of a bitmap word; a clear one is marked and the address it stands for pushed. */
    method TakeIfClear(currIndex: nat, i: nat) returns (took: bool)
      requires Stands() && currIndex < f.words && i < 32 && |f.stack| < STACK_SIZE
      modifies `topIndex, `f, bitMap, stack
      ensures Stands() && 32 * currIndex + i < |f.bits|
      ensures took <==> !old(f).bits[32 * currIndex + i]
      ensures f == if took then old(f).(bits := old(f).bits[32 * currIndex + i := true],
                                        stack := old(f).stack + [32 * currIndex + i])
                   else old(f)
    {
      hide Bit, WithBit;
      BitsAt(bitMap[..], f.bits, currIndex, i);
      took := !Bit(bitMap[currIndex], i);
      if took {
        SetAgrees(bitMap[..], f.bits, currIndex, i);
        bitMap[currIndex] := WithBit(bitMap[currIndex], i);
        f := f.(bits := f.bits[32 * currIndex + i := true]);
        assert bitMap[..] == old(bitMap[..])[currIndex := WithBit(old(bitMap[..])[currIndex], i)];
        var currPageAddress := Wrap(startOffset + Wrap(32 * PAGE * currIndex) + i * PAGE);
        var _ := StackPush(currPageAddress, 32 * currIndex + i);
      }
    }

    /** Pushes the frame, or with a full stack clears its bit. */
    method FreePageFrame(pageAddress: word, ghost k: nat)
      requires Valid() && k < |f.bits| && !f.Avail(k) && pageAddress == AddressOf(startOffset, k)
      modifies `topIndex, `f, bitMap, stack
      ensures Valid() && f == Release(old(f), k)
    {
      hide Bit, WithoutBit, BitsAgree, Frames.Valid;
      ReleaseGives(f, k, 0);
      if topIndex < maxLenIndex {
        var _ := StackPush(pageAddress, k);
      } else {
        AddressRoundTrip(startOffset, k);
        var offset := Wrap(pageAddress - startOffset);
        var nthPage, _, _, _ := DivideUnsigned(offset, PAGE);
        var bitmapIndex, _, _, _ := DivideUnsigned(nthPage, 32);
        ModuloIsRemainder(nthPage, 32);
        var bitmapBit := Modulo(nthPage, 32);
        ClearAgrees(bitMap[..], f.bits, bitmapIndex, bitmapBit);
        bitMap[bitmapIndex] := WithoutBit(bitMap[bitmapIndex], bitmapBit);
        assert bitMap[..] == old(bitMap[..])[bitmapIndex := WithoutBit(old(bitMap[..])[bitmapIndex], bitmapBit)];
        f := f.(bits := f.bits[k := false]);
      }
    }

    /** Returns the result array, or null. */
    method PfAllocateFrames(numPageFrames: nat) returns (r: array?<word>)
      requires Valid() && numPageFrames <= STACK_SIZE
      modifies `lastAllocatedIndex, `topIndex, `f, bitMap, stack, allocatedPageFrames
      ensures Valid() && f == Allocate(old(f), numPageFrames).after
      ensures r != null <==> Allocate(old(f), numPageFrames).ok
      ensures r != null ==> r == allocatedPageFrames
      ensures var p := Allocate(old(f), numPageFrames).popped;
        r != null ==>
          && |p| == numPageFrames
          && (forall j :: 0 <= j < numPageFrames ==> r[j] == Stored(startOffset, p[j], old(allocatedPageFrames[j])))
          && (InSpace() ==> forall j :: 0 <= j < numPageFrames ==> r[j] == startOffset + 0x1000 * p[j])
      ensures |f.bits| == |old(f).bits|
      ensures allocatedPageFrames.Length == STACK_SIZE
      ensures forall j :: numPageFrames <= j < STACK_SIZE ==> allocatedPageFrames[j] == old(allocatedPageFrames[j])
    {
      hide BitsAgree, StackAgrees, Refill, Frames.Valid, Pop, PoppedBy, Allocate, AllocateFrom, Resumes;
      ResumeStart(f, numPageFrames);
      ghost var popped: seq<nat>, refills: nat := [], 0;
      for i := 0 to numPageFrames
        invariant Valid() && (i > 0 ==> f.stack != []) && |popped| == i
        invariant Resumes(Allocate(old(f), numPageFrames), popped, refills, AllocateFrom(f, i, numPageFrames))
        invariant |f.bits| == |old(f).bits|
        invariant forall j :: 0 <= j < i ==>
          allocatedPageFrames[j] == Stored(startOffset, popped[j], old(allocatedPageFrames[j]))
        invariant forall j :: i <= j < STACK_SIZE ==> allocatedPageFrames[j] == old(allocatedPageFrames[j])
      {
        ghost var g := f;
        Iteration(f, i);
        ResumeStep(Allocate(old(f), numPageFrames), popped, refills, f, i, numPageFrames);
        var res := StackTpop();
        if res != STACK_OP_FAIL {
          allocatedPageFrames[i] := res;
        }
        if topIndex == -1 {
          var pagesAllocated := BitmapGetUnallocatedPages();
          if pagesAllocated < 1024 - i + 1 {
            return null;
          }
          refills := refills + 1;
        }
        popped := popped + PoppedBy(g);
      }
      ResumeEnd(Allocate(old(f), numPageFrames), popped, refills, f, numPageFrames);
      if InSpace() { AllStored(startOffset, old(f), numPageFrames); }
      return allocatedPageFrames;
    }
  }
}
