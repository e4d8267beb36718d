/**
 What the frame allocator of FrameSpec promises: exactly when a request succeeds, that a
 success hands out fresh frames only, and that every run accounts for every frame.
 */
module FrameTheorems {
  import opened FrameSpec
  import opened Utilities

  // ----- when a request succeeds ------------------------------------------------------

  function Supply(f: Frames): nat {
    if |ClearSet(f.bits)| <= STACK_SIZE then |ClearSet(f.bits)| else STACK_SIZE
  }

  lemma {:induction false} SucceedsFrom(f: Frames, i: nat, n: nat)
    requires f.Valid() && f.stack != [] && i <= n <= STACK_SIZE
    ensures var o, s := AllocateFrom(f, i, n), |f.stack|;
      && (i < n ==> (o.ok <==> n - i < s || Supply(f) + s + i >= 1026))
      && (n - i < s ==> o.refills == 0) && o.refills <= 1
      && (o.ok ==> |o.popped| == n - i)
    decreases n - i
  {
    hide Frames.Avail, Supply, ClearSet, Refill;
    if i < n {
      AdvanceAvail(f, 0);
      var g := Pop(f);
      assert g.bits == f.bits;
      if g.stack == [] {
        PopSupply(f);
        if Refill(g).1 >= 1024 - i + 1 {
          SucceedsFrom(Refill(g).0, i + 1, n);
        }
      } else {
        SameSupply(f, g);
        SucceedsFrom(g, i + 1, n);
      }
    }
  }

  lemma SameSupply(f: Frames, g: Frames)
    requires f.bits == g.bits
    ensures Supply(f) == Supply(g)
  {
  }

  lemma PopSupply(f: Frames)
    requires f.Valid() && Pop(f).stack == []
    ensures var (g, pages) := Refill(Pop(f)); pages == Supply(f) == |g.stack|
  {
    hide Refill;
    RefillCount(Pop(f));
    RefillStack(Pop(f));
  }

  /**
   The exact condition: n frames short of emptying the stack always succeed; a call that
   empties it succeeds when stack and refill together hold at least 1026 frames.
   */
  lemma AllocateSucceeds(f: Frames, n: nat)
    requires f.Valid() && 1 <= n <= STACK_SIZE
    ensures var o, s := Allocate(f, n), |f.stack|;
      && (o.ok <==> n < s || (s >= 1 && Supply(f) + s >= 1026))
      && o.refills <= 1
      && (o.ok ==> |o.popped| == n)
  {
    if f.stack != [] {
      SucceedsFrom(f, 0, n);
    } else {
      PopSupply(f);
      SaturatedSupply(f);
    }
  }

  lemma SaturatedSupply(f: Frames)
    requires f.Saturated()
    ensures Supply(f) == 0
  {
    assert ClearSet(f.bits) == {};
  }

  /** The last frame of a stack is never handed out by a request for it alone. */
  lemma LastFrameRefused(f: Frames)
    requires f.Valid() && |f.stack| == 1
    ensures !Allocate(f, 1).ok && Allocate(f, 1).popped == f.stack
  {
    AllocateSucceeds(f, 1);
  }

  // ----- which frames, in which order -------------------------------------------------

  /** The frame allocator with its stack cut to the first m slots. */
  function Cut(f: Frames, m: nat): Frames
    requires m <= |f.stack|
  {
    f.(stack := f.stack[..m])
  }

  lemma {:induction false} PopsTopDown(f: Frames, i: nat, n: nat)
    requires f.Valid() && i <= n <= STACK_SIZE && n - i < |f.stack|
    ensures var o, s := AllocateFrom(f, i, n), |f.stack|;
      && o.ok && o.refills == 0 && |o.popped| == n - i && o.after == Cut(f, s - (n - i))
      && (forall j :: 0 <= j < n - i ==> o.popped[j] == f.stack[s - 1 - j])
    decreases n - i
  {
    hide Refill, Frames.Avail;
    if i < n {
      AdvanceAvail(f, 0);
      PopsTopDown(Pop(f), i + 1, n);
      assert Pop(f).stack[..|f.stack| - (n - i)] == f.stack[..|f.stack| - (n - i)];
    } else {
      assert f.stack[..|f.stack|] == f.stack;
    }
  }

  /** What PopsThrough says of iterations i..n. */
  ghost predicate Emptied(f: Frames, need: nat, o: Outcome)
    requires f.Shape()
  {
    var s, g := |f.stack|, Refill(Cut(f, 0)).0;
    && (o.ok ==> |o.popped| == need && s <= need && need - s < |g.stack| && o.after == Cut(g, |g.stack| - (need - s)))
    && (!o.ok ==> |o.popped| == s && o.after == g)
    && o.refills == 1
    && (forall j :: 0 <= j < |o.popped| ==>
          (j < s ==> o.popped[j] == f.stack[s - 1 - j]) &&
          (j >= s ==> j - s < |g.stack| && o.popped[j] == g.stack[|g.stack| - 1 - (j - s)]))
  }

  lemma LastPop(f: Frames, i: nat, n: nat)
    requires f.Valid() && |f.stack| == 1 && i < n <= STACK_SIZE
    ensures Emptied(f, n - i, AllocateFrom(f, i, n))
  {
    hide Refill, Frames.Avail, Supply, ClearSet;
    AdvanceAvail(f, 0);
    PopSupply(f);
    var p := Pop(f);
    assert p == Cut(f, 0);
    if Refill(p).1 >= 1024 - i + 1 {
      PopsTopDown(Refill(p).0, i + 1, n);
    }
  }

  /** A call that empties the stack: the whole stack from the top down, then a refill. */
  lemma {:induction false} PopsThrough(f: Frames, i: nat, n: nat)
    requires f.Valid() && f.stack != [] && i < n <= STACK_SIZE && |f.stack| <= n - i
    ensures Emptied(f, n - i, AllocateFrom(f, i, n))
    decreases n - i
  {
    hide Refill, Frames.Avail, Emptied;
    if |f.stack| == 1 {
      LastPop(f, i, n);
    } else {
      AdvanceAvail(f, 0);
      PopsThrough(Pop(f), i + 1, n);
      OnePopMore(f, n - i, AllocateFrom(Pop(f), i + 1, n));
    }
  }

  lemma OnePopMore(f: Frames, need: nat, o: Outcome)
    requires f.Shape() && |f.stack| > 1 && need > 0 && Emptied(Pop(f), need - 1, o)
    ensures Emptied(f, need, o.(popped := PoppedBy(f) + o.popped))
  {
    hide Refill;
    assert Cut(Pop(f), 0) == Cut(f, 0);
  }

  /**
   The whole outcome of a request for n frames, from a stack of s: while n < s the top n frames
   from the top down. Else the whole stack from the top down and, when the refill is large
   enough, as much as is missing of what it stacked, again from the top down; a call that the
   refill fails keeps the refilled stack and has dropped the old one.
   */
  lemma AllocateOrder(f: Frames, n: nat)
    requires f.Valid() && 1 <= n <= STACK_SIZE
    ensures Cut(f, 0).Shape()
    ensures var o, s, g := Allocate(f, n), |f.stack|, Refill(Cut(f, 0)).0;
      && (n < s ==> o.ok && o.after == Cut(f, s - n))
      && (n >= s && o.ok ==> n - s < |g.stack| && o.after == Cut(g, |g.stack| - (n - s)))
      && (!o.ok ==> n >= s && o.after == g)
      && |o.popped| == (if o.ok then n else s)
      && (forall j :: 0 <= j < |o.popped| ==>
            (j < s ==> o.popped[j] == f.stack[s - 1 - j]) &&
            (j >= s ==> j - s < |g.stack| && o.popped[j] == g.stack[|g.stack| - 1 - (j - s)]))
  {
    hide Refill, AllocateFrom;
    if n < |f.stack| {
      PopsTopDown(f, 0, n);
    } else if f.stack != [] {
      PopsThrough(f, 0, n);
    } else {
      NothingToPop(f, n);
    }
  }

  lemma NothingToPop(f: Frames, n: nat)
    requires f.Valid() && f.stack == [] && 1 <= n <= STACK_SIZE
    ensures Cut(f, 0) == f && Allocate(f, n) == Outcome(Refill(f).0, [], false, 1)
  {
    hide Refill, Supply, ClearSet;
    PopSupply(f);
    SaturatedSupply(f);
  }

  /** After init a first request gets the frames from the 1024th down. */
  lemma FirstRequest(words: nat, n: nat, j: nat)
    requires 32 <= words && j < n < STACK_SIZE
    ensures InitFrames(words).Valid()
    ensures var o := Allocate(InitFrames(words), n); o.ok && |o.popped| == n && o.popped[j] == 1023 - j
  {
    InitAccounted(words);
    PopsTopDown(InitFrames(words), 0, n);
  }

  // ----- runs -------------------------------------------------------------------------

  /** The allocator, the frames that callers hold, and those that failed calls dropped. */
  datatype System = System(f: Frames, out: set<nat>, lost: set<nat>)

  /** Every managed frame is available, held or lost, and only one of these. */
  ghost predicate Accounted(s: System) {
    && s.f.Valid()
    && (forall k :: k in s.out || k in s.lost ==> k < |s.f.bits| && !s.f.Avail(k))
    && (forall k: nat :: k < |s.f.bits| ==> s.f.Avail(k) || k in s.out || k in s.lost)
    && s.out !! s.lost
  }

  datatype Op = Alloc(n: nat) | Free(k: nat)

  ghost predicate Allowed(s: System, op: Op) {
    match op
    case Alloc(n) => n <= STACK_SIZE
    case Free(k) => k in s.out
  }

  ghost function Step(s: System, op: Op): System
    requires Accounted(s) && Allowed(s, op)
  {
    match op
    case Alloc(n) =>
      var o := Allocate(s.f, n);
      var got := set k | k in o.popped;
      if o.ok then System(o.after, s.out + got, s.lost) else System(o.after, s.out, s.lost + got)
    case Free(k) => System(Release(s.f, k), s.out - {k}, s.lost)
  }

  lemma ReleaseGives(f: Frames, k: nat, j: nat)
    requires f.Valid() && k < |f.bits| && !f.Avail(k)
    ensures Release(f, k).Valid() && |Release(f, k).bits| == |f.bits|
    ensures Release(f, k).Avail(j) <==> f.Avail(j) || j == k
    ensures var g := Release(f, k);
      && g.words == f.words && g.last == f.last
      && (|f.stack| < STACK_SIZE ==> g.bits == f.bits && g.stack == f.stack + [k])
      && (|f.stack| == STACK_SIZE ==> g.stack == f.stack)
      && (|f.stack| == STACK_SIZE && j < |f.bits| ==> (g.bits[j] <==> f.bits[j] && j != k))
  {
    var g := Release(f, k);
    if |f.stack| < STACK_SIZE {
      assert g.stack[|f.stack|] == k;
      assert forall i :: 0 <= i < |f.stack| ==> g.stack[i] == f.stack[i];
    }
  }

  lemma StepAccounted(s: System, op: Op)
    requires Accounted(s) && Allowed(s, op)
    ensures Accounted(Step(s, op))
    ensures |Step(s, op).f.bits| == |s.f.bits|
  {
    hide Frames.Avail, Release, Allocate;
    match op
    case Alloc(n) =>
      var o := Allocate(s.f, n);
      AllocateEffect(s.f, n, 0);
      forall k: nat ensures o.after.Avail(k) <==> s.f.Avail(k) && k !in o.popped {
        AllocateEffect(s.f, n, k);
      }
      forall k | k in o.popped ensures s.f.Avail(k) && k < |s.f.bits| {
        AllocateEffect(s.f, n, k);
      }
    case Free(k) =>
      var g := Release(s.f, k);
      ReleaseGives(s.f, k, 0);
      forall j: nat ensures g.Avail(j) <==> s.f.Avail(j) || j == k {
        ReleaseGives(s.f, k, j);
      }
  }

  lemma AllocateEffect(f: Frames, n: nat, k: nat)
    requires f.Valid() && n <= STACK_SIZE
    ensures var o := Allocate(f, n);
      && o.after.Valid() && |o.after.bits| == |f.bits|
      && (o.after.Avail(k) <==> f.Avail(k) && k !in o.popped)
      && (k in o.popped ==> f.Avail(k) && k < |f.bits| && o.after.bits[k])
  {
    hide Frames.Valid;
    AllocateTakes(f, 0, n, k);
  }

  ghost predicate Runs(s: System, ops: seq<Op>, s': System)
    requires Accounted(s)
    decreases |ops|
  {
    if ops == [] then s' == s
    else Allowed(s, ops[0]) && (StepAccounted(s, ops[0]); Runs(Step(s, ops[0]), ops[1..], s'))
  }

  lemma {:induction false} RunAccounted(s: System, ops: seq<Op>, s': System)
    requires Accounted(s) && Runs(s, ops, s')
    ensures Accounted(s') && |s'.f.bits| == |s.f.bits|
    decreases |ops|
  {
    if ops != [] {
      StepAccounted(s, ops[0]);
      RunAccounted(Step(s, ops[0]), ops[1..], s');
    }
  }

  /** The bitmap after init: the first 1024 frames marked and stacked, lowest at the bottom. */
  function InitFrames(words: nat): Frames {
    Frames(words, seq(32 * words, k => k < STACK_SIZE), seq(STACK_SIZE, k => k), 31)
  }

  ghost function InitSystem(words: nat): (s: System)
    requires 32 <= words
    ensures Accounted(s) && |s.f.bits| == 32 * words
  {
    InitAccounted(words);
    System(InitFrames(words), {}, {})
  }

  lemma InitAccounted(words: nat)
    requires 32 <= words
    ensures Accounted(System(InitFrames(words), {}, {}))
  {
    var f := InitFrames(words);
    forall k: nat | k < |f.bits| ensures f.Avail(k) {
      if k < STACK_SIZE { assert f.stack[k] == k; }
    }
  }

  function Owners(s: System, k: nat): nat
    requires k < |s.f.bits|
  {
    (if !s.f.bits[k] then 1 else 0) + multiset(s.f.stack)[k]
    + (if k in s.out then 1 else 0) + (if k in s.lost then 1 else 0)
  }

  lemma {:induction false} DistinctOnce(t: seq<nat>, k: nat)
    requires forall i, j :: 0 <= i < j < |t| ==> t[i] != t[j]
    ensures multiset(t)[k] == if k in t then 1 else 0
    decreases |t|
  {
    if t != [] {
      var last := |t| - 1;
      assert t == t[..last] + [t[last]];
      DistinctOnce(t[..last], k);
    }
  }

  /**
   In every state that a run from init reaches, each frame is in exactly one place: a clear
   bit, one stack slot, a caller's hands, or lost to a failed call; and a frame that is not
   a clear bit has its bit set.
   */
  lemma ReachableOwnedOnce(words: nat, ops: seq<Op>, s: System, k: nat)
    requires 32 <= words && k < 32 * words
    requires Runs(InitSystem(words), ops, s)
    ensures Accounted(s) && |s.f.bits| == 32 * words
    ensures Owners(s, k) == 1
  {
    RunAccounted(InitSystem(words), ops, s);
    DistinctOnce(s.f.stack, k);
  }

  /**
   A success returns as many frames as asked for, all different, none of them held or lost
   before, and needs at most one refill.
   */
  lemma SuccessIsFresh(s: System, n: nat, a: nat, b: nat)
    requires Accounted(s) && a < n <= STACK_SIZE && b < n && Allocate(s.f, n).ok
    ensures var o := Allocate(s.f, n);
      && |o.popped| == n && o.refills <= 1
      && (a != b ==> o.popped[a] != o.popped[b])
      && o.popped[a] !in s.out && o.popped[a] !in s.lost
  {
    AllocateSucceeds(s.f, n);
    if a != b {
      AllocateDistinct(s.f, 0, n, if a < b then a else b, if a < b then b else a);
    }
    AllocateEffect(s.f, n, Allocate(s.f, n).popped[a]);
  }

  /**
   A frame that a free could stack is what the next request for one pops; that request undoes
   the free, but when it is the only frame stacked it is lost instead.
   */
  lemma FreeThenAllocate(f: Frames, k: nat)
    requires f.Valid() && k < |f.bits| && !f.Avail(k) && |f.stack| < STACK_SIZE
    ensures var o := Allocate(Release(f, k), 1);
      && o.popped == [k]
      && (o.ok <==> f.stack != [])
      && (o.ok ==> o.after == f)
  {
    hide Refill;
    var g := Release(f, k);
    ReleaseGives(f, k, k);
    AllocateSucceeds(g, 1);
    if f.stack == [] { SaturatedSupply(g); }
    assert Pop(g).stack == f.stack;
    assert AllocateFrom(f, 1, 1) == Outcome(f, [], true, 0);
  }

  // ----- frame numbers and addresses --------------------------------------------------

  const PAGE: nat := 0x1000
  const MAX_FRAMES: nat := 0x10_0000

  function AddressOf(start: word, k: nat): word {
    Wrap(start + PAGE * k)
  }

  function FrameOf(start: word, address: word): nat {
    Wrap(address - start) / PAGE
  }

  /** Addresses may wrap past 2^32 and still name their frame. */
  lemma AddressRoundTrip(start: word, k: nat)
    requires k < MAX_FRAMES
    ensures FrameOf(start, AddressOf(start, k)) == k
  {
  }

  /**
   Address 0 doubles as the failure of a pop. Some frame has it exactly when the frames
   after a page-aligned nonzero start reach past the end of the address space.
   */
  lemma FrameAtZero(start: word, frames: nat)
    requires start > 0 && start % PAGE == 0 && frames <= MAX_FRAMES
    ensures (exists k: nat :: k < frames && AddressOf(start, k) == 0) <==> start + PAGE * frames > TWO_32
  {
    if start + PAGE * frames > TWO_32 {
      var k := (TWO_32 - start) / PAGE;
      assert AddressOf(start, k) == 0;
    }
  }

  /** With the 2^20 frames of the source that is always so. */
  lemma FullBitmapHasFrameAtZero(start: word)
    requires start > 0 && start % PAGE == 0
    ensures exists k: nat :: k < MAX_FRAMES && AddressOf(start, k) == 0
  {
    FrameAtZero(start, MAX_FRAMES);
  }

  /** A frame lies below the start exactly when its address has wrapped. */
  lemma FrameBelowStart(start: word, k: nat)
    requires k < MAX_FRAMES
    ensures AddressOf(start, k) < start <==> start + PAGE * k >= TWO_32
  {
  }

  /** Some managed frame lies below a page-aligned start exactly when the frames reach past 2^32. */
  lemma SomeBelowStart(start: word, frames: nat)
    requires start % PAGE == 0 && frames <= MAX_FRAMES
    ensures (exists k: nat :: k < frames && AddressOf(start, k) < start) <==> start + PAGE * frames > TWO_32
  {
    if start + PAGE * frames > TWO_32 {
      FrameBelowStart(start, frames - 1);
    }
  }

  /**
   With the 2^20 frames of the source every page-aligned address is that of a managed frame:
   those below the start too, where the kernel image and its tables are.
   */
  lemma FullBitmapReachesKernel(start: word, address: word)
    requires start % PAGE == 0 && address % PAGE == 0
    ensures FrameOf(start, address) < MAX_FRAMES && AddressOf(start, FrameOf(start, address)) == address
  {
  }

  /** The frames lie in the address space after a nonzero page-aligned start. */
  predicate FramesInSpace(start: word, frames: nat) {
    start > 0 && start % PAGE == 0 && start + PAGE * frames <= TWO_32
  }

  /** What a slot of the result array holds after frame k was popped for it: a pop of 0 is not stored. */
  function Stored(start: word, k: nat, was: word): word {
    if AddressOf(start, k) == 0 then was else AddressOf(start, k)
  }

  /**
   A frame popped for a slot is the one that the slot then names, whatever the slot held
   before, unless it is the one frame where the addresses wrap to 0. That one the caller is
   given in name only: the slot keeps what an earlier call left there.
   */
  lemma StaleSlot(start: word, k: nat)
    requires start > 0 && start % PAGE == 0 && k < MAX_FRAMES
    ensures (forall was: word :: Stored(start, k, was) == AddressOf(start, k)) <==> k != (TWO_32 - start) / PAGE
  {
    assert AddressOf(start, k) == 0 <==> k == (TWO_32 - start) / PAGE;
    assert Stored(start, k, 1) == if AddressOf(start, k) == 0 then 1 else AddressOf(start, k);
  }

  /** In space, a successful request stores every frame that it pops. */
  lemma AllStored(start: word, f: Frames, n: nat)
    requires f.Valid() && n <= STACK_SIZE && FramesInSpace(start, |f.bits|)
    ensures forall j, was: word :: 0 <= j < |Allocate(f, n).popped| ==>
      Stored(start, Allocate(f, n).popped[j], was) == start + PAGE * Allocate(f, n).popped[j]
  {
    hide Allocate;
    forall j, was: word | 0 <= j < |Allocate(f, n).popped|
      ensures Stored(start, Allocate(f, n).popped[j], was) == start + PAGE * Allocate(f, n).popped[j]
    {
      AllocateEffect(f, n, Allocate(f, n).popped[j]);
    }
  }
}
