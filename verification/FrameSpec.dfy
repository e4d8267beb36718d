/**
 The physical frame allocator as a bitmap and a stack of frame numbers.

 Frame k is the k-th frame after the kernel image. A set bit means that the frame has left
 the bitmap; `stack` caches frames taken from it, top last; `last` is the bitmap word where
 the next ring scan starts.
 */
module FrameSpec {

  const STACK_SIZE: nat := 1024

  datatype Frames = Frames(words: nat, bits: seq<bool>, stack: seq<nat>, last: nat)
  {
    ghost predicate Shape() {
      32 <= words && |bits| == 32 * words && last < words
    }

    /** The stack and the bitmap agree, and the stack is empty only when no bit is clear. */
    ghost predicate Valid() {
      && Shape()
      && |stack| <= STACK_SIZE
      && (forall j :: 0 <= j < |stack| ==> stack[j] < |bits| && bits[stack[j]])
      && (forall i, j :: 0 <= i < j < |stack| ==> stack[i] != stack[j])
      && (stack == [] ==> Saturated())
    }

    ghost predicate Saturated() {
      forall k :: 0 <= k < |bits| ==> bits[k]
    }

    /** Frame k can still be handed out. */
    ghost predicate Avail(k: nat) {
      k < |bits| && (!bits[k] || k in stack)
    }
  }

  function ClearSet(bits: seq<bool>): set<nat> {
    set k: nat | k < |bits| && !bits[k]
  }

  // ----- the ring ---------------------------------------------------------------------

  /** The frame at ring position p of a scan that starts at bitmap word s. */
  function FrameAt(n: nat, s: nat, p: nat): nat {
    if 32 * s + p < n then 32 * s + p else 32 * s + p - n
  }

  /** The ring position of frame k in a scan that starts at bitmap word s. */
  function RingPos(n: nat, s: nat, k: nat): int {
    if 32 * s <= k then k - 32 * s else k + n - 32 * s
  }

  lemma RingPosInverse(n: nat, s: nat, p: nat)
    requires 32 * s < n && p < n
    ensures FrameAt(n, s, p) < n && RingPos(n, s, FrameAt(n, s, p)) == p
  {
  }

  /** The first `quota` clear frames at ring positions from p on. */
  function TakeClear(bits: seq<bool>, s: nat, p: nat, quota: nat): seq<nat>
    requires 32 * s < |bits| && p <= |bits|
    decreases |bits| - p
  {
    if p == |bits| || quota == 0 then []
    else
      var k := FrameAt(|bits|, s, p);
      if bits[k] then TakeClear(bits, s, p + 1, quota)
      else [k] + TakeClear(bits, s, p + 1, quota - 1)
  }

  function Mark(bits: seq<bool>, taken: seq<nat>): (r: seq<bool>)
    ensures |r| == |bits|
    ensures forall k :: 0 <= k < |bits| ==> (r[k] <==> bits[k] || k in taken)
  {
    seq(|bits|, k requires 0 <= k < |bits| => bits[k] || k in taken)
  }

  /** A refill of the empty stack, and how many frames it found. */
  function Refill(f: Frames): (r: (Frames, nat))
    requires f.Shape()
    ensures r.0.Shape() && |r.0.bits| == |f.bits|
  {
    TakeClearFrames(f.bits, f.last, 0, STACK_SIZE);
    var taken := TakeClear(f.bits, f.last, 0, STACK_SIZE);
    (Frames(f.words, Mark(f.bits, taken), f.stack + taken,
            if |taken| == STACK_SIZE then taken[STACK_SIZE - 1] / 32 else f.last),
     |taken|)
  }

  // ----- what a refill takes ----------------------------------------------------------

  lemma {:induction false} TakeClearFrames(bits: seq<bool>, s: nat, p: nat, quota: nat)
    requires 32 * s < |bits| && p <= |bits|
    ensures var t := TakeClear(bits, s, p, quota);
      && |t| <= quota
      && (forall i :: 0 <= i < |t| ==> t[i] < |bits| && !bits[t[i]] && p <= RingPos(|bits|, s, t[i]) < |bits|)
    decreases |bits| - p
  {
    if p < |bits| && quota > 0 {
      RingPosInverse(|bits|, s, p);
      var k := FrameAt(|bits|, s, p);
      TakeClearFrames(bits, s, p + 1, if bits[k] then quota else quota - 1);
    }
  }

  lemma {:induction false} TakeClearOrder(bits: seq<bool>, s: nat, p: nat, quota: nat, i: nat, j: nat)
    requires 32 * s < |bits| && p <= |bits| && i < j < |TakeClear(bits, s, p, quota)|
    ensures var t := TakeClear(bits, s, p, quota); RingPos(|bits|, s, t[i]) < RingPos(|bits|, s, t[j])
    decreases |bits| - p
  {
    RingPosInverse(|bits|, s, p);
    var k := FrameAt(|bits|, s, p);
    if bits[k] {
      TakeClearOrder(bits, s, p + 1, quota, i, j);
    } else if i > 0 {
      TakeClearOrder(bits, s, p + 1, quota - 1, i - 1, j - 1);
    } else {
      TakeClearFrames(bits, s, p + 1, quota - 1);
    }
  }

  lemma {:induction false} TakeClearFirst(bits: seq<bool>, s: nat, p: nat, quota: nat, k: nat)
    requires 32 * s < |bits| && p <= |bits| && k < |bits| && !bits[k] && p <= RingPos(|bits|, s, k)
    ensures var t := TakeClear(bits, s, p, quota);
      k in t || (|t| == quota && forall i :: 0 <= i < |t| ==> RingPos(|bits|, s, t[i]) < RingPos(|bits|, s, k))
    decreases |bits| - p
  {
    if p < |bits| && quota > 0 {
      RingPosInverse(|bits|, s, p);
      var c := FrameAt(|bits|, s, p);
      if c != k {
        TakeClearFirst(bits, s, p + 1, if bits[c] then quota else quota - 1, k);
      }
    }
  }

  lemma {:induction false} DistinctSize(t: seq<nat>, all: set<nat>)
    requires forall i, j :: 0 <= i < j < |t| ==> t[i] != t[j]
    requires forall i :: 0 <= i < |t| ==> t[i] in all
    ensures |t| <= |all|
    ensures (forall k :: k in all ==> k in t) ==> |t| == |all|
    decreases |t|
  {
    if t == [] {
      if (forall k :: k in all ==> k in t) { assert all == {}; }
    } else {
      var last := |t| - 1;
      DistinctSize(t[..last], all - {t[last]});
    }
  }

  /**
   A refill takes the first min(1024, free) clear frames in ring order: no clear frame that
   it leaves comes before one that it takes, and it leaves one only with the stack full.
   */
  lemma RefillTakesFirst(bits: seq<bool>, s: nat, quota: nat)
    requires 32 * s < |bits|
    ensures var t := TakeClear(bits, s, 0, quota);
      && |t| == (if |ClearSet(bits)| <= quota then |ClearSet(bits)| else quota)
      && (forall k :: k in t ==> k in ClearSet(bits))
      && (forall i, j :: 0 <= i < j < |t| ==> RingPos(|bits|, s, t[i]) < RingPos(|bits|, s, t[j]))
      && (forall k, i :: k in ClearSet(bits) && k !in t && 0 <= i < |t| ==>
            RingPos(|bits|, s, t[i]) < RingPos(|bits|, s, k))
  {
    var t := TakeClear(bits, s, 0, quota);
    TakeClearFrames(bits, s, 0, quota);
    forall i, j | 0 <= i < j < |t| ensures RingPos(|bits|, s, t[i]) < RingPos(|bits|, s, t[j]) {
      TakeClearOrder(bits, s, 0, quota, i, j);
    }
    forall k | k in ClearSet(bits) && k !in t
      ensures |t| == quota && forall i :: 0 <= i < |t| ==> RingPos(|bits|, s, t[i]) < RingPos(|bits|, s, k)
    {
      TakeClearFirst(bits, s, 0, quota, k);
    }
    DistinctSize(t, ClearSet(bits));
    if |t| < quota {
      assert forall k :: k in ClearSet(bits) ==> k in t;
    }
  }

  lemma RefillStack(f: Frames)
    requires f.Shape() && f.stack == []
    ensures Refill(f).0.stack == TakeClear(f.bits, f.last, 0, STACK_SIZE)
    ensures Refill(f).0.bits == Mark(f.bits, Refill(f).0.stack)
    ensures Refill(f).1 == |Refill(f).0.stack|
  {
    hide TakeClear;
    var t := TakeClear(f.bits, f.last, 0, STACK_SIZE);
    assert f.stack + t == t;
  }

  lemma RefillCount(f: Frames)
    requires f.Shape() && f.stack == []
    ensures Refill(f).1 == if |ClearSet(f.bits)| <= STACK_SIZE then |ClearSet(f.bits)| else STACK_SIZE
  {
    hide TakeClear, ClearSet, RingPos;
    RefillStack(f);
    RefillTakesFirst(f.bits, f.last, STACK_SIZE);
  }

  lemma RefillValid(f: Frames)
    requires f.Shape() && f.stack == []
    ensures Refill(f).0.Valid()
  {
    hide TakeClear, ClearSet, Refill;
    RefillStack(f);
    var g := Refill(f).0;
    var t := g.stack;
    TakeClearFrames(f.bits, f.last, 0, STACK_SIZE);
    forall i, j | 0 <= i < j < |t| ensures t[i] != t[j] {
      TakeClearOrder(f.bits, f.last, 0, STACK_SIZE, i, j);
    }
    if t == [] {
      forall k | 0 <= k < |f.bits| ensures f.bits[k] {
        if !f.bits[k] { TakeClearFirst(f.bits, f.last, 0, STACK_SIZE, k); }
      }
    }
  }

  lemma RefillAvail(f: Frames, k: nat)
    requires f.Shape() && f.stack == []
    ensures Refill(f).0.Avail(k) <==> f.Avail(k)
    ensures k < |f.bits| && f.bits[k] ==> Refill(f).0.bits[k]
  {
    TakeClearFrames(f.bits, f.last, 0, STACK_SIZE);
  }

  /**
   What a refill of the empty stack does, in full: it stacks the first min(1024, free) clear
   frames in ring order from `last`, in that order, sets just their bits, and counts them. A
   full one leaves the ring at the word of the frame that it stacked last, a short one where
   it was.
   */
  lemma RefillRing(f: Frames)
    requires f.Shape() && f.stack == []
    ensures var (g, pages) := Refill(f); var t, n := g.stack, |f.bits|;
      && pages == |t| == (if |ClearSet(f.bits)| <= STACK_SIZE then |ClearSet(f.bits)| else STACK_SIZE)
      && (forall k :: k in t ==> k in ClearSet(f.bits))
      && (forall i, j :: 0 <= i < j < |t| ==> RingPos(n, f.last, t[i]) < RingPos(n, f.last, t[j]))
      && (forall k, i :: k in ClearSet(f.bits) && k !in t && 0 <= i < |t| ==>
            RingPos(n, f.last, t[i]) < RingPos(n, f.last, k))
      && |g.bits| == n && (forall k :: 0 <= k < n ==> (g.bits[k] <==> f.bits[k] || k in t))
      && g.words == f.words
      && (pages == STACK_SIZE ==> 32 * g.last <= t[STACK_SIZE - 1] < 32 * g.last + 32)
      && (pages < STACK_SIZE ==> g.last == f.last)
  {
    hide TakeClear, ClearSet, RingPos;
    RefillStack(f);
    RefillTakesFirst(f.bits, f.last, STACK_SIZE);
  }

  lemma RingPosShifts(n: nat, s: nat, w: nat, k: nat)
    requires n % 32 == 0 && 32 * s < n && 32 * w < n && k < n
    ensures var off := RingPos(n, s, 32 * w);
      RingPos(n, w, k) == if off <= RingPos(n, s, k) then RingPos(n, s, k) - off else RingPos(n, s, k) - off + n
  {
  }

  /**
   Next fit: after a full refill of f, whatever is taken and freed until the next refill of h,
   a clear frame k in a word that the first left behind is taken only after every clear frame
   j from the word where it stopped on.
   */
  lemma NextFit(f: Frames, h: Frames, j: nat, k: nat)
    requires f.Shape() && f.stack == [] && Refill(f).1 == STACK_SIZE
    requires h.Shape() && h.stack == [] && |h.bits| == |f.bits| && h.last == Refill(f).0.last
    requires j in ClearSet(h.bits) && k in ClearSet(h.bits)
    requires var stop := RingPos(|f.bits|, f.last, 32 * h.last);
      RingPos(|f.bits|, f.last, k) < stop <= RingPos(|f.bits|, f.last, j)
    ensures var t := Refill(h).0.stack;
      k in t ==> j in t && forall a, b :: 0 <= a < |t| && 0 <= b < |t| && t[a] == j && t[b] == k ==> a < b
  {
    hide Refill;
    RefillRing(h);
    RingPosShifts(|f.bits|, f.last, h.last, j);
    RingPosShifts(|f.bits|, f.last, h.last, k);
    hide RingPos, ClearSet;
    var t := Refill(h).0.stack;
    forall a, b | 0 <= a < |t| && 0 <= b < |t| && t[a] == j && t[b] == k ensures a < b {
      InOrder(t, |h.bits|, h.last, a, b);
    }
  }

  lemma InOrder(t: seq<nat>, n: nat, s: nat, a: nat, b: nat)
    requires a < |t| && b < |t|
    requires forall i, j :: 0 <= i < j < |t| ==> RingPos(n, s, t[i]) < RingPos(n, s, t[j])
    ensures a < b <==> RingPos(n, s, t[a]) < RingPos(n, s, t[b])
  {
    hide RingPos;
  }

  /**
   With nothing freed in between, two full refills go once around: all frames of the second
   come after all of the first in ring order from where the first started, and in that order.
   */
  lemma RefillsGoAround(f: Frames, h: Frames, a: nat, b: nat)
    requires f.Shape() && f.stack == [] && Refill(f).1 == STACK_SIZE
    requires h.Shape() && h.stack == [] && h.bits == Refill(f).0.bits && h.last == Refill(f).0.last
    requires a < STACK_SIZE && b < |Refill(h).0.stack|
    ensures var s, n, t, u := f.last, |f.bits|, Refill(f).0.stack, Refill(h).0.stack;
      && |t| == STACK_SIZE
      && RingPos(n, s, t[a]) < RingPos(n, s, u[b]) && RingPos(n, s, 32 * h.last) <= RingPos(n, s, u[b])
      && (forall c :: 0 <= c < b ==> RingPos(n, s, u[c]) < RingPos(n, s, u[b]))
  {
    hide Refill, TakeClear;
    RefillRing(f);
    RefillRing(h);
    var s, n, t, u := f.last, |f.bits|, Refill(f).0.stack, Refill(h).0.stack;
    assert u[b] in ClearSet(f.bits) && u[b] !in t;
    WordStart(n, s, h.last, t[STACK_SIZE - 1]);
    forall c | 0 <= c < b ensures RingPos(n, s, u[c]) < RingPos(n, s, u[b]) {
      assert u[c] in ClearSet(f.bits) && u[c] !in t;
      RingPosShifts(n, s, h.last, u[c]);
      RingPosShifts(n, s, h.last, u[b]);
    }
  }

  lemma WordStart(n: nat, s: nat, w: nat, k: nat)
    requires n % 32 == 0 && 32 * s < n && 32 * w <= k < 32 * w + 32 && k < n
    ensures RingPos(n, s, 32 * w) <= RingPos(n, s, k)
  {
  }

  // ----- allocation -------------------------------------------------------------------

  /** What a call did: the frames it popped in order, whether it succeeded, its refills. */
  datatype Outcome = Outcome(after: Frames, popped: seq<nat>, ok: bool, refills: nat)

  function Pop(f: Frames): Frames {
    if f.stack == [] then f else f.(stack := f.stack[..|f.stack| - 1])
  }

  function PoppedBy(f: Frames): seq<nat> {
    if f.stack == [] then [] else [f.stack[|f.stack| - 1]]
  }

  /**
   Iterations i..n of pf_allocate_frames. A refill after the pop of iteration i must find
   1024 - i + 1 frames, or the call fails and forgets what it popped.
   */
  function AllocateFrom(f: Frames, i: nat, n: nat): Outcome
    requires f.Shape() && n <= STACK_SIZE
    decreases n - i
  {
    if i >= n then Outcome(f, [], true, 0)
    else
      var g := Pop(f);
      if g.stack == [] then
        var (g', pages) := Refill(g);
        if pages < 1024 - i + 1 then Outcome(g', PoppedBy(f), false, 1)
        else
          var o := AllocateFrom(g', i + 1, n);
          o.(popped := PoppedBy(f) + o.popped, refills := o.refills + 1)
      else
        var o := AllocateFrom(g, i + 1, n);
        o.(popped := PoppedBy(f) + o.popped)
  }

  function Allocate(f: Frames, n: nat): Outcome
    requires f.Shape() && n <= STACK_SIZE
  {
    AllocateFrom(f, 0, n)
  }

  function Release(f: Frames, k: nat): Frames
    requires k < |f.bits|
  {
    if |f.stack| < STACK_SIZE then f.(stack := f.stack + [k])
    else f.(bits := f.bits[k := false])
  }

  // ----- what an allocation does ------------------------------------------------------

  /** All that Valid says but for the last line, which fails between a pop and a refill. */
  ghost predicate Sound(f: Frames) {
    && f.Shape()
    && |f.stack| <= STACK_SIZE
    && (forall j :: 0 <= j < |f.stack| ==> f.stack[j] < |f.bits| && f.bits[f.stack[j]])
    && (forall i, j :: 0 <= i < j < |f.stack| ==> f.stack[i] != f.stack[j])
  }

  lemma PopAvail(f: Frames, k: nat)
    requires f.Valid()
    ensures Sound(Pop(f)) && Pop(f).bits == f.bits
    ensures Pop(f).Avail(k) <==> f.Avail(k) && k !in PoppedBy(f)
    ensures k in PoppedBy(f) ==> f.Avail(k) && k < |f.bits| && f.bits[k]
  {
    if f.stack != [] {
      var top := |f.stack| - 1;
      assert k in f.stack <==> k in f.stack[..top] || k == f.stack[top];
    }
  }

  /** One iteration: pop, and refill when that empties the stack. */
  function Advance(f: Frames): Frames
    requires f.Shape()
  {
    if Pop(f).stack == [] then Refill(Pop(f)).0 else Pop(f)
  }

  lemma AdvanceAvail(f: Frames, k: nat)
    requires f.Valid()
    ensures Advance(f).Valid() && |Advance(f).bits| == |f.bits|
    ensures Advance(f).Avail(k) <==> f.Avail(k) && k !in PoppedBy(f)
    ensures k < |f.bits| && f.bits[k] ==> Advance(f).bits[k]
    ensures k in PoppedBy(f) ==> f.Avail(k) && k < |f.bits| && f.bits[k]
  {
    hide TakeClear, PoppedBy;
    PopAvail(f, k);
    if Pop(f).stack == [] {
      RefillValid(Pop(f));
      RefillAvail(Pop(f), k);
    }
  }

  /**
   A call keeps the allocator valid, and takes exactly the frames it popped out of the
   available ones; their bits stay set.
   */
  lemma {:induction false} AllocateTakes(f: Frames, i: nat, n: nat, k: nat)
    requires f.Valid() && n <= STACK_SIZE
    ensures var o := AllocateFrom(f, i, n);
      && o.after.Valid() && |o.after.bits| == |f.bits|
      && (o.after.Avail(k) <==> f.Avail(k) && k !in o.popped)
      && (k < |f.bits| && f.bits[k] ==> o.after.bits[k])
      && (k in o.popped ==> f.Avail(k) && o.after.bits[k])
    decreases n - i
  {
    hide Refill, PoppedBy, Frames.Avail;
    if i < n {
      AdvanceAvail(f, k);
      if !(Pop(f).stack == [] && Refill(Pop(f)).1 < 1024 - i + 1) {
        AllocateTakes(Advance(f), i + 1, n, k);
      }
    }
  }

  lemma {:induction false} AllocateDistinct(f: Frames, i: nat, n: nat, a: nat, b: nat)
    requires f.Valid() && n <= STACK_SIZE && a < b < |AllocateFrom(f, i, n).popped|
    ensures var p := AllocateFrom(f, i, n).popped; p[a] != p[b]
    decreases n - i
  {
    hide Refill, Frames.Avail;
    var o := AllocateFrom(f, i, n);
    AdvanceAvail(f, o.popped[a]);
    var m := |PoppedBy(f)|;
    assert !(Pop(f).stack == [] && Refill(Pop(f)).1 < 1024 - i + 1);
    if a < m {
      AllocateTakes(Advance(f), i + 1, n, o.popped[b]);
    } else {
      AllocateDistinct(Advance(f), i + 1, n, a - m, b - m);
    }
  }
}
